/**
 The bytes that are hashed and signed: the preimage of VoteExtension.ComputeHash
 (app/vote_extension.go) and serializeSignatureData (app/vote_extension_signing.go).
 The main results say which part of a record those bytes determine.
 */
module ExtensionHash {
  import opened Encoding
  import opened VoteTypes

  // ---------------------------------------------------------------- ComputeHash

  function PutCerts(certs: seq<bytes>, rest: bytes): bytes
  {
    if certs == [] then rest else PutLen32(certs[0], PutCerts(certs[1..], rest))
  }

  function PutTEEQuote(t: TEEAttestation, rest: bytes): bytes
  {
    PutLen32(t.platform,
    PutLen32(t.enclaveID,
    PutLen32(t.measurement,
    PutLen32(t.quote,
    PutLen32(t.userData, rest)))))
  }

  function PutTEEBinding(t: TEEAttestation, rest: bytes): bytes
  {
    PutInt64(t.timestamp,
    PutLen32(t.nonce,
    PutInt64(t.blockHeight,
    PutLen32(t.chainID,
    U32(|t.certificateChain|) + PutCerts(t.certificateChain, rest)))))
  }

  function PutTEE(tee: Option<TEEAttestation>, rest: bytes): bytes
  {
    match tee
    case None => PutBool(false, rest)
    case Some(t) => PutBool(true, PutTEEQuote(t, PutTEEBinding(t, rest)))
  }

  function PutZKFields(z: ZKProof, rest: bytes): bytes
  {
    PutLen32(z.proofSystem,
    PutLen32(z.proof,
    PutLen32(z.publicInputs,
    PutLen32(z.verifyingKeyHash,
    PutLen32(z.circuitHash,
    PutInt64(z.proofSize, rest))))))
  }

  function PutZK(zk: Option<ZKProof>, rest: bytes): bytes
  {
    match zk
    case None => PutBool(false, rest)
    case Some(z) => PutBool(true, PutZKFields(z, rest))
  }

  function PutClaim(v: ComputeVerification, rest: bytes): bytes
  {
    PutLen32(v.jobID,
    PutLen32(v.modelHash,
    PutLen32(v.inputHash,
    PutLen32(v.outputHash,
    PutLen32(v.attestationType, rest)))))
  }

  function PutOutcome(v: ComputeVerification, rest: bytes): bytes
  {
    PutInt64(v.executionTimeMs,
    PutBool(v.success,
    PutLen32(v.errorCode,
    PutLen32(v.errorMessage,
    PutLen32(v.nonce, rest)))))
  }

  function PutVerification(v: ComputeVerification, rest: bytes): bytes
  {
    PutClaim(v, PutOutcome(v, PutTEE(v.tee, PutZK(v.zk, rest))))
  }

  function PutVerifications(vs: seq<ComputeVerification>, rest: bytes): bytes
  {
    if vs == [] then rest else PutVerification(vs[0], PutVerifications(vs[1..], rest))
  }

  function PutHeader(ve: VoteExtension, rest: bytes): bytes
  {
    PutInt32(ve.version,
    PutInt64(ve.height,
    PutLen32(ve.validatorAddress,
    PutInt64(ve.timestamp,
    PutLen32(ve.nonce, rest)))))
  }

  /** Everything ComputeHash writes into the hash, in order. */
  function Preimage(ve: VoteExtension): bytes
  {
    Ascii("aethelred_vote_ext_v1:") +
    PutHeader(ve, U32(|ve.verifications|) + PutVerifications(ve.verifications, []))
  }

  function ComputeHash(h: bytes -> Digest, ve: VoteExtension): Digest
  {
    h(Preimage(ve))
  }

  /** The hash is stored in the extension, as Marshal does before encoding. */
  function WithHash(h: bytes -> Digest, ve: VoteExtension): VoteExtension
  {
    ve.(extensionHash := ComputeHash(h, ve))
  }

  function Bare(ve: VoteExtension): VoteExtension
  {
    ve.(signature := [], extensionHash := [])
  }

  /** The hash leaves the signature and the stored hash out. */
  lemma HashIgnores(h: bytes -> Digest, a: VoteExtension, b: VoteExtension)
    requires Bare(a) == Bare(b)
    ensures ComputeHash(h, a) == ComputeHash(h, b)
  {
    assert Preimage(a) == Preimage(b);
  }

  // Lengths that the four-byte length fields can represent.

  predicate CertsFit(certs: seq<bytes>)
  {
    |certs| < TWO_32 && forall i :: 0 <= i < |certs| ==> |certs[i]| < TWO_32
  }

  predicate TEEFits(tee: Option<TEEAttestation>)
  {
    tee.Some? ==>
      var t := tee.value;
      && |t.platform| < TWO_32 && |t.enclaveID| < TWO_32 && |t.measurement| < TWO_32 && |t.quote| < TWO_32
      && |t.userData| < TWO_32 && |t.nonce| < TWO_32 && |t.chainID| < TWO_32 && CertsFit(t.certificateChain)
  }

  predicate ZKFits(zk: Option<ZKProof>)
  {
    zk.Some? ==>
      var z := zk.value;
      && |z.proofSystem| < TWO_32 && |z.proof| < TWO_32 && |z.publicInputs| < TWO_32
      && |z.verifyingKeyHash| < TWO_32 && |z.circuitHash| < TWO_32
  }

  predicate VerificationFits(v: ComputeVerification)
  {
    && |v.jobID| < TWO_32 && |v.modelHash| < TWO_32 && |v.inputHash| < TWO_32 && |v.outputHash| < TWO_32
    && |v.attestationType| < TWO_32 && |v.errorCode| < TWO_32 && |v.errorMessage| < TWO_32 && |v.nonce| < TWO_32
    && TEEFits(v.tee) && ZKFits(v.zk)
  }

  predicate VerificationsFit(vs: seq<ComputeVerification>)
  {
    vs == [] || (VerificationFits(vs[0]) && VerificationsFit(vs[1..]))
  }

  predicate Fits(ve: VoteExtension)
  {
    && |ve.validatorAddress| < TWO_32 && |ve.nonce| < TWO_32
    && |ve.verifications| < TWO_32 && VerificationsFit(ve.verifications)
  }

  // What the hash covers: every field but Signature and ExtensionHash, an instant as UnixNano().

  function TEEContent(tee: Option<TEEAttestation>): Option<TEEAttestation>
  {
    match tee
    case None => None
    case Some(t) => Some(t.(timestamp := Wrap64(t.timestamp)))
  }

  function VerificationContent(v: ComputeVerification): ComputeVerification
  {
    v.(tee := TEEContent(v.tee))
  }

  function VerificationsContent(vs: seq<ComputeVerification>): (r: seq<ComputeVerification>)
    ensures |r| == |vs|
  {
    if vs == [] then [] else [VerificationContent(vs[0])] + VerificationsContent(vs[1..])
  }

  function Content(ve: VoteExtension): VoteExtension
  {
    ve.(signature := [], extensionHash := [], timestamp := Wrap64(ve.timestamp),
        verifications := VerificationsContent(ve.verifications))
  }

  lemma {:induction false} CertsInjective(a: seq<bytes>, b: seq<bytes>, r: bytes, s: bytes)
    requires |a| == |b| && CertsFit(a) && CertsFit(b)
    requires PutCerts(a, r) == PutCerts(b, s)
    ensures a == b && r == s
  {
    if a != [] {
      PutLen32Injective(a[0], b[0], PutCerts(a[1..], r), PutCerts(b[1..], s));
      CertsInjective(a[1..], b[1..], r, s);
      assert a == [a[0]] + a[1..] && b == [b[0]] + b[1..];
    }
  }

  lemma TEEQuoteInjective(t: TEEAttestation, u: TEEAttestation, r: bytes, s: bytes)
    requires TEEFits(Some(t)) && TEEFits(Some(u)) && PutTEEQuote(t, r) == PutTEEQuote(u, s)
    ensures t.platform == u.platform && t.enclaveID == u.enclaveID && t.measurement == u.measurement
    ensures t.quote == u.quote && t.userData == u.userData && r == s
  {
    var r3, s3 := PutLen32(t.userData, r), PutLen32(u.userData, s);
    var r2, s2 := PutLen32(t.quote, r3), PutLen32(u.quote, s3);
    var r1, s1 := PutLen32(t.measurement, r2), PutLen32(u.measurement, s2);
    var r0, s0 := PutLen32(t.enclaveID, r1), PutLen32(u.enclaveID, s1);
    PutLen32Injective(t.platform, u.platform, r0, s0);
    PutLen32Injective(t.enclaveID, u.enclaveID, r1, s1);
    PutLen32Injective(t.measurement, u.measurement, r2, s2);
    PutLen32Injective(t.quote, u.quote, r3, s3);
    PutLen32Injective(t.userData, u.userData, r, s);
  }

  lemma TEEBindingInjective(t: TEEAttestation, u: TEEAttestation, r: bytes, s: bytes)
    requires TEEFits(Some(t)) && TEEFits(Some(u)) && PutTEEBinding(t, r) == PutTEEBinding(u, s)
    ensures Wrap64(t.timestamp) == Wrap64(u.timestamp) && t.nonce == u.nonce && t.blockHeight == u.blockHeight
    ensures t.chainID == u.chainID && t.certificateChain == u.certificateChain && r == s
  {
    var r4, s4 := PutCerts(t.certificateChain, r), PutCerts(u.certificateChain, s);
    var r3, s3 := U32(|t.certificateChain|) + r4, U32(|u.certificateChain|) + s4;
    var r2, s2 := PutLen32(t.chainID, r3), PutLen32(u.chainID, s3);
    var r1, s1 := PutInt64(t.blockHeight, r2), PutInt64(u.blockHeight, s2);
    var r0, s0 := PutLen32(t.nonce, r1), PutLen32(u.nonce, s1);
    PutInt64Injective(t.timestamp, u.timestamp, r0, s0);
    PutLen32Injective(t.nonce, u.nonce, r1, s1);
    PutInt64Injective(t.blockHeight, u.blockHeight, r2, s2);
    PutLen32Injective(t.chainID, u.chainID, r3, s3);
    PutCountInjective(|t.certificateChain|, |u.certificateChain|, r4, s4);
    CertsInjective(t.certificateChain, u.certificateChain, r, s);
  }

  lemma TEEInjective(a: Option<TEEAttestation>, b: Option<TEEAttestation>, r: bytes, s: bytes)
    requires TEEFits(a) && TEEFits(b) && PutTEE(a, r) == PutTEE(b, s)
    ensures TEEContent(a) == TEEContent(b) && r == s
  {
    PutBoolInjective(a.Some?, b.Some?, PutTEE(a, r)[1..], PutTEE(b, s)[1..]);
    if a.Some? {
      var t, u := a.value, b.value;
      TEEQuoteInjective(t, u, PutTEEBinding(t, r), PutTEEBinding(u, s));
      TEEBindingInjective(t, u, r, s);
    }
  }

  lemma ZKInjective(a: Option<ZKProof>, b: Option<ZKProof>, r: bytes, s: bytes)
    requires ZKFits(a) && ZKFits(b) && PutZK(a, r) == PutZK(b, s)
    ensures a == b && r == s
  {
    PutBoolInjective(a.Some?, b.Some?, PutZK(a, r)[1..], PutZK(b, s)[1..]);
    if a.Some? {
      var z, w := a.value, b.value;
      var r4, s4 := PutInt64(z.proofSize, r), PutInt64(w.proofSize, s);
      var r3, s3 := PutLen32(z.circuitHash, r4), PutLen32(w.circuitHash, s4);
      var r2, s2 := PutLen32(z.verifyingKeyHash, r3), PutLen32(w.verifyingKeyHash, s3);
      var r1, s1 := PutLen32(z.publicInputs, r2), PutLen32(w.publicInputs, s2);
      var r0, s0 := PutLen32(z.proof, r1), PutLen32(w.proof, s1);
      PutLen32Injective(z.proofSystem, w.proofSystem, r0, s0);
      PutLen32Injective(z.proof, w.proof, r1, s1);
      PutLen32Injective(z.publicInputs, w.publicInputs, r2, s2);
      PutLen32Injective(z.verifyingKeyHash, w.verifyingKeyHash, r3, s3);
      PutLen32Injective(z.circuitHash, w.circuitHash, r4, s4);
      PutInt64Injective(z.proofSize, w.proofSize, r, s);
    }
  }

  lemma ClaimInjective(v: ComputeVerification, w: ComputeVerification, r: bytes, s: bytes)
    requires VerificationFits(v) && VerificationFits(w) && PutClaim(v, r) == PutClaim(w, s)
    ensures v.jobID == w.jobID && v.modelHash == w.modelHash && v.inputHash == w.inputHash
    ensures v.outputHash == w.outputHash && v.attestationType == w.attestationType && r == s
  {
    var r3, s3 := PutLen32(v.attestationType, r), PutLen32(w.attestationType, s);
    var r2, s2 := PutLen32(v.outputHash, r3), PutLen32(w.outputHash, s3);
    var r1, s1 := PutLen32(v.inputHash, r2), PutLen32(w.inputHash, s2);
    var r0, s0 := PutLen32(v.modelHash, r1), PutLen32(w.modelHash, s1);
    PutLen32Injective(v.jobID, w.jobID, r0, s0);
    PutLen32Injective(v.modelHash, w.modelHash, r1, s1);
    PutLen32Injective(v.inputHash, w.inputHash, r2, s2);
    PutLen32Injective(v.outputHash, w.outputHash, r3, s3);
    PutLen32Injective(v.attestationType, w.attestationType, r, s);
  }

  lemma OutcomeInjective(v: ComputeVerification, w: ComputeVerification, r: bytes, s: bytes)
    requires VerificationFits(v) && VerificationFits(w) && PutOutcome(v, r) == PutOutcome(w, s)
    ensures v.executionTimeMs == w.executionTimeMs && v.success == w.success && v.errorCode == w.errorCode
    ensures v.errorMessage == w.errorMessage && v.nonce == w.nonce && r == s
  {
    var r3, s3 := PutLen32(v.nonce, r), PutLen32(w.nonce, s);
    var r2, s2 := PutLen32(v.errorMessage, r3), PutLen32(w.errorMessage, s3);
    var r1, s1 := PutLen32(v.errorCode, r2), PutLen32(w.errorCode, s2);
    var r0, s0 := PutBool(v.success, r1), PutBool(w.success, s1);
    PutInt64Injective(v.executionTimeMs, w.executionTimeMs, r0, s0);
    PutBoolInjective(v.success, w.success, r1, s1);
    PutLen32Injective(v.errorCode, w.errorCode, r2, s2);
    PutLen32Injective(v.errorMessage, w.errorMessage, r3, s3);
    PutLen32Injective(v.nonce, w.nonce, r, s);
  }

  lemma VerificationInjective(v: ComputeVerification, w: ComputeVerification, r: bytes, s: bytes)
    requires VerificationFits(v) && VerificationFits(w) && PutVerification(v, r) == PutVerification(w, s)
    ensures VerificationContent(v) == VerificationContent(w) && r == s
  {
    var r2, s2 := PutZK(v.zk, r), PutZK(w.zk, s);
    var r1, s1 := PutTEE(v.tee, r2), PutTEE(w.tee, s2);
    ClaimInjective(v, w, PutOutcome(v, r1), PutOutcome(w, s1));
    OutcomeInjective(v, w, r1, s1);
    TEEInjective(v.tee, w.tee, r2, s2);
    ZKInjective(v.zk, w.zk, r, s);
  }

  lemma {:induction false} VerificationsInjective(
      a: seq<ComputeVerification>, b: seq<ComputeVerification>, r: bytes, s: bytes)
    requires |a| == |b| && VerificationsFit(a) && VerificationsFit(b)
    requires PutVerifications(a, r) == PutVerifications(b, s)
    ensures VerificationsContent(a) == VerificationsContent(b) && r == s
  {
    if a != [] {
      VerificationInjective(a[0], b[0], PutVerifications(a[1..], r), PutVerifications(b[1..], s));
      VerificationsInjective(a[1..], b[1..], r, s);
    }
  }

  lemma HeaderInjective(x: VoteExtension, y: VoteExtension, r: bytes, s: bytes)
    requires Fits(x) && Fits(y) && PutHeader(x, r) == PutHeader(y, s)
    ensures x.version == y.version && x.height == y.height && x.validatorAddress == y.validatorAddress
    ensures Wrap64(x.timestamp) == Wrap64(y.timestamp) && x.nonce == y.nonce && r == s
  {
    var r3, s3 := PutLen32(x.nonce, r), PutLen32(y.nonce, s);
    var r2, s2 := PutInt64(x.timestamp, r3), PutInt64(y.timestamp, s3);
    var r1, s1 := PutLen32(x.validatorAddress, r2), PutLen32(y.validatorAddress, s2);
    var r0, s0 := PutInt64(x.height, r1), PutInt64(y.height, s1);
    PutInt32Injective(x.version, y.version, r0, s0);
    PutInt64Injective(x.height, y.height, r1, s1);
    PutLen32Injective(x.validatorAddress, y.validatorAddress, r2, s2);
    PutInt64Injective(x.timestamp, y.timestamp, r3, s3);
    PutLen32Injective(x.nonce, y.nonce, r, s);
  }

  lemma VerificationWrites(v: ComputeVerification, rest: bytes)
    ensures PutVerification(VerificationContent(v), rest) == PutVerification(v, rest)
  {
    if v.tee.Some? {
      U64Wraps(v.tee.value.timestamp);
    }
  }

  lemma {:induction false} VerificationsWrite(vs: seq<ComputeVerification>, rest: bytes)
    ensures PutVerifications(VerificationsContent(vs), rest) == PutVerifications(vs, rest)
  {
    if vs != [] {
      VerificationsWrite(vs[1..], rest);
      assert VerificationsContent(vs)[1..] == VerificationsContent(vs[1..]);
      VerificationWrites(vs[0], PutVerifications(vs[1..], rest));
    }
  }

  lemma PreimageOfContent(ve: VoteExtension)
    ensures Preimage(Content(ve)) == Preimage(ve)
  {
    U64Wraps(ve.timestamp);
    VerificationsWrite(ve.verifications, []);
  }

  lemma PreimageInjective(x: VoteExtension, y: VoteExtension)
    requires Fits(x) && Fits(y) && Preimage(x) == Preimage(y)
    ensures Content(x) == Content(y)
  {
    var r1, s1 := PutVerifications(x.verifications, []), PutVerifications(y.verifications, []);
    var r0, s0 := U32(|x.verifications|) + r1, U32(|y.verifications|) + s1;
    var dom := Ascii("aethelred_vote_ext_v1:");
    SameWidth(dom, dom, PutHeader(x, r0), PutHeader(y, s0));
    HeaderInjective(x, y, r0, s0);
    PutCountInjective(|x.verifications|, |y.verifications|, r1, s1);
    VerificationsInjective(x.verifications, y.verifications, [], []);
  }

  /** Two extensions feed the same bytes to the hash exactly when they agree on everything but
      the signature and the stored hash, instants being compared as int64 nanoseconds. */
  lemma {:induction false} PreimageDetermines(x: VoteExtension, y: VoteExtension)
    requires Fits(x) && Fits(y)
    ensures Preimage(x) == Preimage(y) <==> Content(x) == Content(y)
  {
    if Content(x) == Content(y) {
      PreimageOfContent(x);
      PreimageOfContent(y);
    }
    if Preimage(x) == Preimage(y) {
      PreimageInjective(x, y);
    }
  }

  /** Equal hashes bind the whole content, or the two preimages are a collision. */
  lemma {:induction false} HashBinds(h: bytes -> Digest, x: VoteExtension, y: VoteExtension)
    requires Fits(x) && Fits(y) && ComputeHash(h, x) == ComputeHash(h, y)
    ensures Content(x) == Content(y)
         || (Preimage(x) != Preimage(y) && h(Preimage(x)) == h(Preimage(y)))
  {
    PreimageDetermines(x, y);
  }

  // ---------------------------------------------------------------- serializeSignatureData

  datatype SignatureData = SignatureData(
    version: byte,
    chainID: bytes,
    height: int64,
    round: int32,
    validatorAddress: bytes,
    timestamp: int,
    extensionHash: Digest,
    merkleRoot: Digest,
    nonce: bytes)

  function SigningBytes(d: SignatureData): bytes
  {
    Ascii("aethelred_vote_extension_v1:") +
    ([d.version] +
    PutLen16(d.chainID,
    PutInt64(d.height,
    PutInt32(d.round,
    PutLen16(d.validatorAddress,
    PutInt64(d.timestamp,
    d.extensionHash + (d.merkleRoot + PutLen16(d.nonce, []))))))))
  }

  predicate SignatureDataFits(d: SignatureData)
  {
    |d.chainID| < TWO_16 && |d.validatorAddress| < TWO_16 && |d.nonce| < TWO_16
  }

  /** The signed bytes determine the whole record: equal exactly when every field is, the
      instant compared as int64 nanoseconds. */
  lemma {:induction false} SigningBytesDetermine(d: SignatureData, e: SignatureData)
    requires SignatureDataFits(d) && SignatureDataFits(e)
    ensures SigningBytes(d) == SigningBytes(e)
       <==> d.(timestamp := Wrap64(d.timestamp)) == e.(timestamp := Wrap64(e.timestamp))
  {
    U64Wraps(d.timestamp);
    U64Wraps(e.timestamp);
    if SigningBytes(d) == SigningBytes(e) {
      var r7, s7 := PutLen16(d.nonce, []), PutLen16(e.nonce, []);
      var r6, s6 := d.merkleRoot + r7, e.merkleRoot + s7;
      var r5, s5 := d.extensionHash + r6, e.extensionHash + s6;
      var r4, s4 := PutInt64(d.timestamp, r5), PutInt64(e.timestamp, s5);
      var r3, s3 := PutLen16(d.validatorAddress, r4), PutLen16(e.validatorAddress, s4);
      var r2, s2 := PutInt32(d.round, r3), PutInt32(e.round, s3);
      var r1, s1 := PutInt64(d.height, r2), PutInt64(e.height, s2);
      var r0, s0 := PutLen16(d.chainID, r1), PutLen16(e.chainID, s1);
      var dom := Ascii("aethelred_vote_extension_v1:");
      SameWidth(dom, dom, [d.version] + r0, [e.version] + s0);
      SameWidth([d.version], [e.version], r0, s0);
      assert [d.version][0] == [e.version][0];
      PutLen16Injective(d.chainID, e.chainID, r1, s1);
      PutInt64Injective(d.height, e.height, r2, s2);
      PutInt32Injective(d.round, e.round, r3, s3);
      PutLen16Injective(d.validatorAddress, e.validatorAddress, r4, s4);
      PutInt64Injective(d.timestamp, e.timestamp, r5, s5);
      SameWidth(d.extensionHash, e.extensionHash, r6, s6);
      SameWidth(d.merkleRoot, e.merkleRoot, r7, s7);
      PutLen16Injective(d.nonce, e.nonce, [], []);
    }
  }
}
