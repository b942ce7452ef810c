/**
 The writes themselves: ComputeHash feeds the hash field by field in two nested loops, and
 serializeSignatureData fills a buffer. Both are proved to produce the bytes that module
 ExtensionHash reasons about.
 */
module HashWriter {
  import opened Encoding
  import opened VoteTypes
  import opened ExtensionHash

  // Every writer appends to buf. `rest` stands for whatever is written later.

  lemma Joined(buf: bytes, a: bytes, b: bytes, rest: bytes)
    ensures ((buf + a) + b) + rest == buf + (a + (b + rest))
    ensures b == [] ==> (buf + a) + rest == buf + (a + (b + rest))
  {
  }

  method WriteLen32(buf: bytes, b: bytes, ghost rest: bytes) returns (r: bytes)
    ensures r + rest == buf + PutLen32(b, rest)
  {
    r := buf + U32(|b|);
    if |b| > 0 {
      r := r + b;
    }
    Joined(buf, U32(|b|), b, rest);
  }

  method WriteInt64(buf: bytes, v: int, ghost rest: bytes) returns (r: bytes)
    ensures r + rest == buf + PutInt64(v, rest)
  {
    r := buf + U64(v);
    ConcatAssoc(buf, U64(v), rest);
  }

  method WriteCount(buf: bytes, n: int, ghost rest: bytes) returns (r: bytes)
    ensures r + rest == buf + (U32(n) + rest)
  {
    r := buf + U32(n);
    ConcatAssoc(buf, U32(n), rest);
  }

  method WriteBool(buf: bytes, v: bool, ghost rest: bytes) returns (r: bytes)
    ensures r + rest == buf + PutBool(v, rest)
  {
    if v {
      r := buf + [1];
    } else {
      r := buf + [0];
    }
    ConcatAssoc(buf, [if v then 1 else 0], rest);
  }

  method WriteClaim(buf: bytes, v: ComputeVerification, ghost rest: bytes) returns (r: bytes)
    ensures r + rest == buf + PutClaim(v, rest)
  {
    ghost var r4 := PutLen32(v.attestationType, rest);
    ghost var r3 := PutLen32(v.outputHash, r4);
    ghost var r2 := PutLen32(v.inputHash, r3);
    ghost var r1 := PutLen32(v.modelHash, r2);
    r := WriteLen32(buf, v.jobID, r1);
    r := WriteLen32(r, v.modelHash, r2);
    r := WriteLen32(r, v.inputHash, r3);
    r := WriteLen32(r, v.outputHash, r4);
    r := WriteLen32(r, v.attestationType, rest);
  }

  method WriteOutcome(buf: bytes, v: ComputeVerification, ghost rest: bytes) returns (r: bytes)
    ensures r + rest == buf + PutOutcome(v, rest)
  {
    ghost var r4 := PutLen32(v.nonce, rest);
    ghost var r3 := PutLen32(v.errorMessage, r4);
    ghost var r2 := PutLen32(v.errorCode, r3);
    ghost var r1 := PutBool(v.success, r2);
    r := WriteInt64(buf, v.executionTimeMs, r1);
    r := WriteBool(r, v.success, r2);
    r := WriteLen32(r, v.errorCode, r3);
    r := WriteLen32(r, v.errorMessage, r4);
    r := WriteLen32(r, v.nonce, rest);
  }

  method WriteTEEQuote(buf: bytes, t: TEEAttestation, ghost rest: bytes) returns (r: bytes)
    ensures r + rest == buf + PutTEEQuote(t, rest)
  {
    ghost var r4 := PutLen32(t.userData, rest);
    ghost var r3 := PutLen32(t.quote, r4);
    ghost var r2 := PutLen32(t.measurement, r3);
    ghost var r1 := PutLen32(t.enclaveID, r2);
    r := WriteLen32(buf, t.platform, r1);
    r := WriteLen32(r, t.enclaveID, r2);
    r := WriteLen32(r, t.measurement, r3);
    r := WriteLen32(r, t.quote, r4);
    r := WriteLen32(r, t.userData, rest);
  }

  method WriteCerts(buf: bytes, certs: seq<bytes>, ghost rest: bytes) returns (r: bytes)
    ensures r + rest == buf + PutCerts(certs, rest)
  {
    r := buf;
    for i := 0 to |certs|
      invariant r + PutCerts(certs[i..], rest) == buf + PutCerts(certs, rest)
    {
      assert certs[i..][1..] == certs[i + 1..];
      r := WriteLen32(r, certs[i], PutCerts(certs[i + 1..], rest));
    }
  }

  method WriteTEEBinding(buf: bytes, t: TEEAttestation, ghost rest: bytes) returns (r: bytes)
    ensures r + rest == buf + PutTEEBinding(t, rest)
  {
    ghost var r5 := PutCerts(t.certificateChain, rest);
    ghost var r4 := U32(|t.certificateChain|) + r5;
    ghost var r3 := PutLen32(t.chainID, r4);
    ghost var r2 := PutInt64(t.blockHeight, r3);
    ghost var r1 := PutLen32(t.nonce, r2);
    r := WriteInt64(buf, t.timestamp, r1);
    r := WriteLen32(r, t.nonce, r2);
    r := WriteInt64(r, t.blockHeight, r3);
    r := WriteLen32(r, t.chainID, r4);
    r := WriteCount(r, |t.certificateChain|, r5);
    r := WriteCerts(r, t.certificateChain, rest);
  }

  method WriteTEE(buf: bytes, tee: Option<TEEAttestation>, ghost rest: bytes) returns (r: bytes)
    ensures r + rest == buf + PutTEE(tee, rest)
  {
    match tee {
      case None =>
        r := WriteBool(buf, false, rest);
      case Some(t) =>
        r := WriteBool(buf, true, PutTEEQuote(t, PutTEEBinding(t, rest)));
        r := WriteTEEQuote(r, t, PutTEEBinding(t, rest));
        r := WriteTEEBinding(r, t, rest);
    }
  }

  method WriteZK(buf: bytes, zk: Option<ZKProof>, ghost rest: bytes) returns (r: bytes)
    ensures r + rest == buf + PutZK(zk, rest)
  {
    match zk {
      case None =>
        r := WriteBool(buf, false, rest);
      case Some(z) =>
        ghost var r5 := PutInt64(z.proofSize, rest);
        ghost var r4 := PutLen32(z.circuitHash, r5);
        ghost var r3 := PutLen32(z.verifyingKeyHash, r4);
        ghost var r2 := PutLen32(z.publicInputs, r3);
        ghost var r1 := PutLen32(z.proof, r2);
        r := WriteBool(buf, true, PutLen32(z.proofSystem, r1));
        r := WriteLen32(r, z.proofSystem, r1);
        r := WriteLen32(r, z.proof, r2);
        r := WriteLen32(r, z.publicInputs, r3);
        r := WriteLen32(r, z.verifyingKeyHash, r4);
        r := WriteLen32(r, z.circuitHash, r5);
        r := WriteInt64(r, z.proofSize, rest);
    }
  }

  method WriteVerification(buf: bytes, v: ComputeVerification, ghost rest: bytes) returns (r: bytes)
    ensures r + rest == buf + PutVerification(v, rest)
  {
    ghost var r3 := PutZK(v.zk, rest);
    ghost var r2 := PutTEE(v.tee, r3);
    r := WriteClaim(buf, v, PutOutcome(v, r2));
    r := WriteOutcome(r, v, r2);
    r := WriteTEE(r, v.tee, r3);
    r := WriteZK(r, v.zk, rest);
  }

  method WriteHeader(buf: bytes, ve: VoteExtension, ghost rest: bytes) returns (r: bytes)
    ensures r + rest == buf + PutHeader(ve, rest)
  {
    ghost var r4 := PutLen32(ve.nonce, rest);
    ghost var r3 := PutInt64(ve.timestamp, r4);
    ghost var r2 := PutLen32(ve.validatorAddress, r3);
    ghost var r1 := PutInt64(ve.height, r2);
    r := WriteCount(buf, ve.version, r1);
    r := WriteInt64(r, ve.height, r2);
    r := WriteLen32(r, ve.validatorAddress, r3);
    r := WriteInt64(r, ve.timestamp, r4);
    r := WriteLen32(r, ve.nonce, rest);
  }

  method WriteVerifications(buf: bytes, vs: seq<ComputeVerification>) returns (r: bytes)
    ensures r == buf + PutVerifications(vs, [])
  {
    r := buf;
    ghost var target := buf + PutVerifications(vs, []);
    for i := 0 to |vs|
      invariant r + PutVerifications(vs[i..], []) == target
    {
      assert vs[i..][1..] == vs[i + 1..];
      r := WriteVerification(r, vs[i], PutVerifications(vs[i + 1..], []));
    }
    assert r + [] == r;
  }

  /** ComputeHash: the digest of everything written is that of the preimage. */
  method ComputeExtensionHash(h: bytes -> Digest, ve: VoteExtension) returns (digest: Digest)
    ensures digest == ComputeHash(h, ve)
  {
    ghost var all := PutVerifications(ve.verifications, []);
    var dom := Ascii("aethelred_vote_ext_v1:");
    var buf := WriteHeader(dom, ve, U32(|ve.verifications|) + all);
    buf := WriteCount(buf, |ve.verifications|, all);
    buf := WriteVerifications(buf, ve.verifications);
    digest := h(buf);
  }

  method WriteLen16(buf: bytes, b: bytes, ghost rest: bytes) returns (r: bytes)
    ensures r + rest == buf + PutLen16(b, rest)
  {
    r := buf + U16(|b|);
    r := r + b;
    Joined(buf, U16(|b|), b, rest);
  }

  method WriteBytes(buf: bytes, b: bytes, ghost rest: bytes) returns (r: bytes)
    ensures r + rest == buf + (b + rest)
  {
    r := buf + b;
    ConcatAssoc(buf, b, rest);
  }

  /** serializeSignatureData. */
  method SerializeSignatureData(d: SignatureData) returns (buf: bytes)
    ensures buf == SigningBytes(d)
  {
    ghost var r8 := PutLen16(d.nonce, []);
    ghost var r7 := d.merkleRoot + r8;
    ghost var r6 := d.extensionHash + r7;
    ghost var r5 := PutInt64(d.timestamp, r6);
    ghost var r4 := PutLen16(d.validatorAddress, r5);
    ghost var r3 := PutInt32(d.round, r4);
    ghost var r2 := PutInt64(d.height, r3);
    ghost var r1 := PutLen16(d.chainID, r2);
    buf := WriteBytes(Ascii("aethelred_vote_extension_v1:"), [d.version], r1);
    buf := WriteLen16(buf, d.chainID, r2);
    buf := WriteInt64(buf, d.height, r3);
    buf := WriteCount(buf, d.round, r4);
    buf := WriteLen16(buf, d.validatorAddress, r5);
    buf := WriteInt64(buf, d.timestamp, r6);
    buf := WriteBytes(buf, d.extensionHash, r7);
    buf := WriteBytes(buf, d.merkleRoot, r8);
    buf := WriteLen16(buf, d.nonce, []);
    assert buf + [] == buf && SigningBytes(d) + [] == SigningBytes(d);
  }
}
