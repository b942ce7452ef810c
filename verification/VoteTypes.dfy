/**
 The records of app/vote_extension.go. A nil slice and an empty slice are the same `bytes`,
 a nil pointer is `None`, and an instant is its number of nanoseconds since the Unix epoch.
 */
module VoteTypes {
  import opened Encoding

  datatype TEEAttestation = TEEAttestation(
    platform: bytes,
    enclaveID: bytes,
    measurement: bytes,
    quote: bytes,
    userData: bytes,
    certificateChain: seq<bytes>,
    timestamp: int,
    nonce: bytes,
    blockHeight: int64,
    chainID: bytes)

  datatype ZKProof = ZKProof(
    proofSystem: bytes,
    proof: bytes,
    publicInputs: bytes,
    verifyingKeyHash: bytes,
    circuitHash: bytes,
    proofSize: int64)

  datatype ComputeVerification = ComputeVerification(
    jobID: bytes,
    modelHash: bytes,
    inputHash: bytes,
    outputHash: bytes,
    attestationType: bytes,
    tee: Option<TEEAttestation>,
    zk: Option<ZKProof>,
    executionTimeMs: int64,
    success: bool,
    errorCode: bytes,
    errorMessage: bytes,
    nonce: bytes)

  datatype VoteExtension = VoteExtension(
    version: int32,
    height: int64,
    validatorAddress: bytes,
    verifications: seq<ComputeVerification>,
    timestamp: int,
    nonce: bytes,
    signature: bytes,
    extensionHash: bytes)

  const MAX_VERIFICATIONS: nat := 100
  const MAX_SIZE: nat := 5 * 1024 * 1024

  /** An ed25519 key: its signing function, its public key, and verification. */
  datatype Signer = Signer(sign: bytes -> bytes, pub: bytes, verify: (bytes, bytes, bytes) -> bool)

  /** What ed25519 promises of a key pair. */
  ghost predicate Sound(k: Signer)
  {
    && |k.pub| == 32
    && forall m :: |k.sign(m)| == 64 && k.verify(k.pub, m, k.sign(m))
  }

  /** encoding/json for one type: None is an error. */
  datatype JsonCodec<!T> = JsonCodec(enc: T -> Option<bytes>, dec: bytes -> Option<T>)

  /** Decoding undoes every successful encoding, and no value encodes to nothing. */
  ghost predicate Lossless<T(!new)>(json: JsonCodec<T>)
  {
    forall v :: json.enc(v).Some? ==> json.enc(v).value != [] && json.dec(json.enc(v).value) == Some(v)
  }

  /** One validator's contribution to an aggregated result. */
  datatype ValidatorAttestation = ValidatorAttestation(
    validatorAddress: bytes,
    outputHash: bytes,
    attestationType: bytes,
    tee: Option<TEEAttestation>,
    zk: Option<ZKProof>,
    executionTimeMs: int64,
    timestamp: int)

  /** The transaction that carries one job's consensus result into a block. */
  datatype InjectedTx = InjectedTx(
    jobID: bytes,
    outputHash: bytes,
    validatorCount: int,
    totalVotes: int,
    agreementPower: int64,
    totalPower: int64,
    attestations: seq<ValidatorAttestation>,
    blockHeight: int64,
    txType: bytes)

  const INJECTED_TYPE: bytes := Ascii("create_seal_from_consensus")

  /** encoding/json for transactions: the type field alone, and the whole record. */
  datatype TxCodec = TxCodec(probe: bytes -> Option<bytes>, json: JsonCodec<InjectedTx>)

  /** IsInjectedVoteExtensionTx. */
  predicate IsInjected(codec: TxCodec, tx: bytes)
  {
    codec.probe(tx) == Some(INJECTED_TYPE)
  }

  /** The probe sees the type of what was encoded. */
  ghost predicate TxLossless(codec: TxCodec)
  {
    && Lossless(codec.json)
    && forall tx :: codec.json.enc(tx).Some? ==> codec.probe(codec.json.enc(tx).value) == Some(tx.txType)
  }

  /** A vote of the last commit: validator address and power, and the block-id flag. */
  datatype CommitVote = CommitVote(address: bytes, power: int64, flag: int)
}
