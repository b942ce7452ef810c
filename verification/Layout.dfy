/**
 The byte formats as tables of fields: what the code writes, in order, with the width of every
 number. The formats the other modules reason about are proved to be these.
 */
module Layout {
  import opened Encoding
  import opened VoteTypes
  import opened ExtensionHash
  import opened SignatureCodec
  import AppSignature
  import Merkle

  // ---------------------------------------------------------------- fields

  /** Bytes as they are, one octet, a 32- or a 64-bit number, bytes after their 16- or 32-bit length. */
  datatype Field =
    | Raw(data: bytes)
    | Octet(octet: byte)
    | Word(n: int)
    | Long(n: int)
    | Sized16(data: bytes)
    | Sized32(data: bytes)

  /** The low 16 bits in two's complement, most significant byte first. */
  function TwoBytes(n: int): bytes
  {
    [(n / 0x100) % 0x100, n % 0x100]
  }

  function FourBytes(n: int): bytes { TwoBytes(n / 0x1_0000) + TwoBytes(n) }

  function EightBytes(n: int): bytes { FourBytes(n / 0x1_0000_0000) + FourBytes(n) }

  function Written(f: Field): bytes
  {
    match f
    case Raw(data) => data
    case Octet(octet) => [octet]
    case Word(n) => FourBytes(n)
    case Long(n) => EightBytes(n)
    case Sized16(data) => TwoBytes(|data|) + data
    case Sized32(data) => FourBytes(|data|) + data
  }

  function Render(fields: seq<Field>): bytes
  {
    if fields == [] then [] else Written(fields[0]) + Render(fields[1..])
  }

  function Flag(b: bool): Field { Octet(if b then 1 else 0) }

  // ---------------------------------------------------------------- numbers

  lemma Two(v: nat)
    ensures BigEndian(v, 2) == TwoBytes(v)
  {
    assert BigEndian(v, 2) == BigEndian(v / 0x100, 1) + [v % 0x100];
    assert BigEndian(v / 0x100, 1) == BigEndian(v / 0x1_0000, 0) + [(v / 0x100) % 0x100];
  }

  lemma Four(v: nat)
    ensures BigEndian(v, 4) == FourBytes(v)
  {
    assert BigEndian(v, 4) == BigEndian(v / 0x100, 3) + [v % 0x100];
    assert BigEndian(v / 0x100, 3) == BigEndian((v / 0x100) / 0x100, 2) + [(v / 0x100) % 0x100];
    assert (v / 0x100) / 0x100 == v / 0x1_0000;
    Two(v / 0x1_0000);
  }

  lemma Quotients(v: nat)
    ensures v / 0x100 / 0x100 == v / 0x1_0000
    ensures v / 0x1_0000 / 0x100 == v / 0x100_0000
    ensures v / 0x100_0000 / 0x100 == v / 0x1_0000_0000
  {
  }

  lemma Eight(v: nat)
    ensures BigEndian(v, 8) == BigEndian(v / 0x1_0000_0000, 4) + FourBytes(v)
  {
    var a, b, c, d := v / 0x100, v / 0x1_0000, v / 0x100_0000, v / 0x1_0000_0000;
    Quotients(v);
    calc {
      BigEndian(v, 8);
      BigEndian(a, 7) + [v % 0x100];
      BigEndian(b, 6) + [a % 0x100] + [v % 0x100];
      BigEndian(c, 5) + [b % 0x100] + [a % 0x100] + [v % 0x100];
      BigEndian(d, 4) + [c % 0x100] + [b % 0x100] + [a % 0x100] + [v % 0x100];
      BigEndian(d, 4) + FourBytes(v);
    }
  }

  lemma TwoWraps(n: int)
    ensures TwoBytes(n % TWO_16) == TwoBytes(n)
  {
    var q, r := n / TWO_16, n % TWO_16;
    assert n == TWO_16 * q + r;
    assert n / 0x100 == 0x100 * q + r / 0x100;
    assert n % 0x100 == r % 0x100 && (n / 0x100) % 0x100 == (r / 0x100) % 0x100;
  }

  lemma FourWraps(n: int)
    ensures FourBytes(n % TWO_32) == FourBytes(n)
  {
    var q, r := n / TWO_32, n % TWO_32;
    assert n == TWO_32 * q + r;
    assert n / TWO_16 == TWO_16 * q + r / TWO_16;
    assert r / TWO_16 == (n / TWO_16) % TWO_16 && r % TWO_16 == n % TWO_16;
    TwoWraps(n);
    TwoWraps(r);
    TwoWraps(n / TWO_16);
  }

  /** The halves of the low 64 bits. */
  lemma Halves(n: int)
    ensures (n % TWO_64) / TWO_32 == (n / TWO_32) % TWO_32
    ensures (n % TWO_64) % TWO_32 == n % TWO_32
  {
    var q, r := n / TWO_64, n % TWO_64;
    assert n == TWO_64 * q + r;
    assert n / TWO_32 == TWO_32 * q + r / TWO_32;
  }

  lemma {:induction false} Numbers(n: int)
    ensures U16(n) == TwoBytes(n) && U32(n) == FourBytes(n) && U64(n) == EightBytes(n)
  {
    TwoWraps(n);
    FourWraps(n);
    FourWraps(n / TWO_32);
    FourWraps(n % TWO_64);
    Halves(n);
    Two(n % TWO_16);
    Four(n % TWO_32);
    Eight(n % TWO_64);
    Four((n / TWO_32) % TWO_32);
  }

  // ---------------------------------------------------------------- putting fields together

  /** One field in front of what follows it, as the formats of the other modules are written. */
  function Put(f: Field, rest: bytes): bytes
  {
    match f
    case Raw(data) => data + rest
    case Octet(octet) => [octet] + rest
    case Word(n) => PutInt32(n, rest)
    case Long(n) => PutInt64(n, rest)
    case Sized16(data) => PutLen16(data, rest)
    case Sized32(data) => PutLen32(data, rest)
  }

  function PutAll(fields: seq<Field>, rest: bytes): bytes
  {
    if fields == [] then rest else Put(fields[0], PutAll(fields[1..], rest))
  }

  lemma Associates(a: bytes, b: bytes, c: bytes)
    ensures (a + b) + c == a + (b + c)
  {
  }

  lemma PutIsWritten(f: Field, rest: bytes)
    ensures Put(f, rest) == Written(f) + rest
  {
    match f
    case Raw(data) =>
    case Octet(octet) =>
    case Word(n) => Numbers(n);
    case Long(n) => Numbers(n);
    case Sized16(data) =>
      Numbers(|data|);
      Associates(U16(|data|), data, rest);
    case Sized32(data) =>
      Numbers(|data|);
      Associates(U32(|data|), data, rest);
  }

  lemma {:induction false} PutAllRenders(fields: seq<Field>, rest: bytes)
    ensures PutAll(fields, rest) == Render(fields) + rest
  {
    if fields != [] {
      PutAllRenders(fields[1..], rest);
      PutIsWritten(fields[0], PutAll(fields[1..], rest));
      Associates(Written(fields[0]), Render(fields[1..]), rest);
    }
  }

  lemma {:induction false} PutAllConcat(a: seq<Field>, b: seq<Field>, rest: bytes)
    ensures PutAll(a + b, rest) == PutAll(a, PutAll(b, rest))
  {
    if a == [] {
      assert a + b == b;
    } else {
      PutAllConcat(a[1..], b, rest);
      assert (a + b)[1..] == a[1..] + b;
    }
  }

  lemma Peel(f: Field, fields: seq<Field>, rest: bytes)
    ensures PutAll([f] + fields, rest) == Put(f, PutAll(fields, rest))
  {
    assert ([f] + fields)[1..] == fields;
  }

  lemma One(f: Field, rest: bytes)
    ensures PutAll([f], rest) == Put(f, rest)
  {
    assert [f] + [] == [f];
    Peel(f, [], rest);
  }

  /** Five fields in a row. */
  lemma Five(a: Field, b: Field, c: Field, d: Field, e: Field, rest: bytes)
    ensures PutAll([a, b, c, d, e], rest) == Put(a, Put(b, Put(c, Put(d, Put(e, rest)))))
  {
    assert [a, b, c, d, e] == [a] + [b, c, d, e];
    assert [b, c, d, e] == [b] + [c, d, e];
    assert [c, d, e] == [c] + [d, e];
    assert [d, e] == [d] + [e];
    Peel(a, [b, c, d, e], rest);
    Peel(b, [c, d, e], rest);
    Peel(c, [d, e], rest);
    Peel(d, [e], rest);
    One(e, rest);
  }

  // ---------------------------------------------------------------- the hashed form of an extension

  function ClaimFields(v: ComputeVerification): seq<Field>
  {
    [Sized32(v.jobID), Sized32(v.modelHash), Sized32(v.inputHash), Sized32(v.outputHash), Sized32(v.attestationType)]
  }

  function OutcomeFields(v: ComputeVerification): seq<Field>
  {
    [Long(v.executionTimeMs), Flag(v.success), Sized32(v.errorCode), Sized32(v.errorMessage), Sized32(v.nonce)]
  }

  function CertificateFields(certs: seq<bytes>): seq<Field>
  {
    seq(|certs|, i requires 0 <= i < |certs| => Sized32(certs[i]))
  }

  function TEEFields(tee: Option<TEEAttestation>): seq<Field>
  {
    match tee
    case None => [Flag(false)]
    case Some(t) =>
      [Flag(true)]
      + [Sized32(t.platform), Sized32(t.enclaveID), Sized32(t.measurement), Sized32(t.quote), Sized32(t.userData)]
      + [Long(t.timestamp), Sized32(t.nonce), Long(t.blockHeight), Sized32(t.chainID), Word(|t.certificateChain|)]
      + CertificateFields(t.certificateChain)
  }

  function ZKFields(zk: Option<ZKProof>): seq<Field>
  {
    match zk
    case None => [Flag(false)]
    case Some(z) =>
      [Flag(true)]
      + [Sized32(z.proofSystem), Sized32(z.proof), Sized32(z.publicInputs), Sized32(z.verifyingKeyHash),
         Sized32(z.circuitHash)]
      + [Long(z.proofSize)]
  }

  function VerificationFields(v: ComputeVerification): seq<Field>
  {
    ClaimFields(v) + OutcomeFields(v) + TEEFields(v.tee) + ZKFields(v.zk)
  }

  function AllVerificationFields(vs: seq<ComputeVerification>): seq<Field>
  {
    if vs == [] then [] else VerificationFields(vs[0]) + AllVerificationFields(vs[1..])
  }

  function HeaderFields(ve: VoteExtension): seq<Field>
  {
    [Word(ve.version), Long(ve.height), Sized32(ve.validatorAddress), Long(ve.timestamp), Sized32(ve.nonce)]
  }

  function ExtensionFields(ve: VoteExtension): seq<Field>
  {
    [Raw(Ascii("aethelred_vote_ext_v1:"))] + HeaderFields(ve)
    + [Word(|ve.verifications|)] + AllVerificationFields(ve.verifications)
  }

  lemma {:induction false} PutCertificates(certs: seq<bytes>, rest: bytes)
    ensures PutCerts(certs, rest) == PutAll(CertificateFields(certs), rest)
  {
    if certs != [] {
      PutCertificates(certs[1..], rest);
      assert CertificateFields(certs) == [Sized32(certs[0])] + CertificateFields(certs[1..]);
      Peel(Sized32(certs[0]), CertificateFields(certs[1..]), rest);
    }
  }

  lemma TEELayout(tee: Option<TEEAttestation>, rest: bytes)
    ensures PutTEE(tee, rest) == PutAll(TEEFields(tee), rest)
  {
    match tee
    case None => One(Flag(false), rest);
    case Some(t) =>
      var quote := [Sized32(t.platform), Sized32(t.enclaveID), Sized32(t.measurement), Sized32(t.quote),
                    Sized32(t.userData)];
      var binding := [Long(t.timestamp), Sized32(t.nonce), Long(t.blockHeight), Sized32(t.chainID),
                      Word(|t.certificateChain|)];
      var certs := CertificateFields(t.certificateChain);
      var r2 := PutAll(certs, rest);
      var r1 := PutAll(binding, r2);
      PutCertificates(t.certificateChain, rest);
      Five(Long(t.timestamp), Sized32(t.nonce), Long(t.blockHeight), Sized32(t.chainID),
           Word(|t.certificateChain|), r2);
      Five(Sized32(t.platform), Sized32(t.enclaveID), Sized32(t.measurement), Sized32(t.quote),
           Sized32(t.userData), r1);
      One(Flag(true), PutAll(quote, r1));
      PutAllConcat([Flag(true)] + quote + binding, certs, rest);
      PutAllConcat([Flag(true)] + quote, binding, r2);
      PutAllConcat([Flag(true)], quote, r1);
  }

  lemma ZKLayout(zk: Option<ZKProof>, rest: bytes)
    ensures PutZK(zk, rest) == PutAll(ZKFields(zk), rest)
  {
    match zk
    case None => One(Flag(false), rest);
    case Some(z) =>
      var proof := [Sized32(z.proofSystem), Sized32(z.proof), Sized32(z.publicInputs), Sized32(z.verifyingKeyHash),
                    Sized32(z.circuitHash)];
      One(Long(z.proofSize), rest);
      Five(Sized32(z.proofSystem), Sized32(z.proof), Sized32(z.publicInputs), Sized32(z.verifyingKeyHash),
           Sized32(z.circuitHash), Put(Long(z.proofSize), rest));
      One(Flag(true), PutAll(proof, Put(Long(z.proofSize), rest)));
      PutAllConcat([Flag(true)] + proof, [Long(z.proofSize)], rest);
      PutAllConcat([Flag(true)], proof, Put(Long(z.proofSize), rest));
  }

  lemma VerificationLayout(v: ComputeVerification, rest: bytes)
    ensures PutVerification(v, rest) == PutAll(VerificationFields(v), rest)
  {
    var tee, zk := TEEFields(v.tee), ZKFields(v.zk);
    var r3 := PutAll(zk, rest);
    var r2 := PutAll(tee, r3);
    var r1 := PutAll(OutcomeFields(v), r2);
    ZKLayout(v.zk, rest);
    TEELayout(v.tee, r3);
    Five(Long(v.executionTimeMs), Flag(v.success), Sized32(v.errorCode), Sized32(v.errorMessage), Sized32(v.nonce), r2);
    Five(Sized32(v.jobID), Sized32(v.modelHash), Sized32(v.inputHash), Sized32(v.outputHash),
         Sized32(v.attestationType), r1);
    PutAllConcat(ClaimFields(v) + OutcomeFields(v) + tee, zk, rest);
    PutAllConcat(ClaimFields(v) + OutcomeFields(v), tee, r3);
    PutAllConcat(ClaimFields(v), OutcomeFields(v), r2);
  }

  lemma {:induction false} VerificationsLayout(vs: seq<ComputeVerification>, rest: bytes)
    ensures PutVerifications(vs, rest) == PutAll(AllVerificationFields(vs), rest)
  {
    if vs != [] {
      VerificationsLayout(vs[1..], rest);
      VerificationLayout(vs[0], PutVerifications(vs[1..], rest));
      PutAllConcat(VerificationFields(vs[0]), AllVerificationFields(vs[1..]), rest);
    }
  }

  lemma HeaderLayout(ve: VoteExtension, rest: bytes)
    ensures PutHeader(ve, rest) == PutAll(HeaderFields(ve), rest)
  {
    Five(Word(ve.version), Long(ve.height), Sized32(ve.validatorAddress), Long(ve.timestamp), Sized32(ve.nonce), rest);
  }

  lemma Parts(domain: bytes, header: seq<Field>, n: nat, all: seq<Field>)
    ensures Render([Raw(domain)] + header + [Word(n)] + all) == domain + PutAll(header, U32(n) + PutAll(all, []))
  {
    var r2 := PutAll(all, []);
    var r1 := Put(Word(n), r2);
    One(Word(n), r2);
    One(Raw(domain), PutAll(header, r1));
    PutAllConcat([Raw(domain)] + header + [Word(n)], all, []);
    PutAllConcat([Raw(domain)] + header, [Word(n)], r2);
    PutAllConcat([Raw(domain)], header, r1);
    PutAllRenders([Raw(domain)] + header + [Word(n)] + all, []);
  }

  /** What ComputeHash hashes, field by field. */
  lemma {:induction false} PreimageLayout(ve: VoteExtension)
    ensures Preimage(ve) == Render(ExtensionFields(ve))
  {
    VerificationsLayout(ve.verifications, []);
    HeaderLayout(ve, U32(|ve.verifications|) + PutVerifications(ve.verifications, []));
    Parts(Ascii("aethelred_vote_ext_v1:"), HeaderFields(ve), |ve.verifications|,
          AllVerificationFields(ve.verifications));
  }

  // ---------------------------------------------------------------- the signed message, a signature, a frame

  /** What an application signature signs, from its context. */
  function MessageFields(c: AppSignature.Crypto, x: AppSignature.Context, ext: bytes, pub: bytes, version: byte,
                         timestamp: int): seq<Field>
  {
    [Raw(Ascii("aethelred_vote_extension_v1:")), Octet(version), Sized16(x.chainID), Long(x.height), Word(x.round)]
    + [Sized16(c.hash(pub)[..20]), Long(timestamp), Raw(c.hash(ext)), Raw(Merkle.Root(c.hash, x.ve.verifications)),
       Sized16(x.ve.nonce)]
  }

  lemma {:induction false} MessageLayout(c: AppSignature.Crypto, x: AppSignature.Context, pub: bytes, version: byte,
                                         timestamp: int)
    ensures
      var ext := c.json.enc(x.ve.(extensionHash := ComputeHash(c.hash, x.ve)));
      var d := AppSignature.DataFor(c, x, pub, version, timestamp);
      && (d.Some? <==> ext.Some?)
      && (ext.Some? ==> SigningBytes(d.value) == Render(MessageFields(c, x, ext.value, pub, version, timestamp)))
  {
    var ext := c.json.enc(x.ve.(extensionHash := ComputeHash(c.hash, x.ve)));
    if ext.Some? {
      var id, body, tree := Sized16(c.hash(pub)[..20]), Raw(c.hash(ext.value)), Merkle.Root(c.hash, x.ve.verifications);
      var head := [Raw(Ascii("aethelred_vote_extension_v1:")), Octet(version), Sized16(x.chainID), Long(x.height),
                   Word(x.round)];
      var tail := [id, Long(timestamp), body, Raw(tree), Sized16(x.ve.nonce)];
      Five(id, Long(timestamp), body, Raw(tree), Sized16(x.ve.nonce), []);
      Five(Raw(Ascii("aethelred_vote_extension_v1:")), Octet(version), Sized16(x.chainID), Long(x.height),
           Word(x.round), PutAll(tail, []));
      PutAllConcat(head, tail, []);
      PutAllRenders(head + tail, []);
    }
  }

  /** A signature verifies exactly when it is 64 bytes long and its 32-byte key accepts it for these fields. */
  lemma {:induction false} VerifiesIff(c: AppSignature.Crypto, x: AppSignature.Context, s: Signature)
    ensures !AppSignature.Verify(c, x, None)
    ensures var ext := c.json.enc(x.ve.(extensionHash := ComputeHash(c.hash, x.ve)));
      AppSignature.Verify(c, x, Some(s)) <==>
        && |s.signature| == 64 && |s.publicKey| == 32 && ext.Some?
        && var message := Render(MessageFields(c, x, ext.value, s.publicKey, s.version, s.timestamp));
           c.key.verify(s.publicKey, message, s.signature)
  {
    MessageLayout(c, x, s.publicKey, s.version, s.timestamp);
  }

  lemma {:induction false} SignatureLayout(s: Signature)
    ensures SignatureBytes(None) == [0]
    ensures SignatureBytes(Some(s)) == Render([Octet(s.version), Sized16(s.signature), Sized16(s.publicKey),
                                               Sized16(s.keyID), Long(s.timestamp)])
  {
    var fields := [Octet(s.version), Sized16(s.signature), Sized16(s.publicKey), Sized16(s.keyID), Long(s.timestamp)];
    Five(Octet(s.version), Sized16(s.signature), Sized16(s.publicKey), Sized16(s.keyID), Long(s.timestamp), []);
    PutAllRenders(fields, []);
    assert U64(s.timestamp) + [] == U64(s.timestamp);
  }

  lemma {:induction false} FrameLayout(base: bytes, sig: bytes)
    ensures FrameBytes(base, sig) == Render([Sized32(base), Sized32(sig)])
  {
    assert [Sized32(base), Sized32(sig)] == [Sized32(base)] + [Sized32(sig)];
    Peel(Sized32(base), [Sized32(sig)], []);
    One(Sized32(sig), []);
    PutAllRenders([Sized32(base), Sized32(sig)], []);
  }

  /** A leaf of the commitment has no lengths: its fields run on. */
  lemma {:induction false} LeafLayout(v: ComputeVerification)
    ensures [0] + Merkle.LeafData(v) == Render([Octet(0), Raw(Ascii("verification:")), Raw(v.jobID),
      Raw(v.modelHash), Raw(v.inputHash)] + [Raw(v.outputHash), Flag(v.success)])
  {
    var head := [Octet(0), Raw(Ascii("verification:")), Raw(v.jobID), Raw(v.modelHash), Raw(v.inputHash)];
    var tail := [Raw(v.outputHash), Flag(v.success)];
    assert tail == [Raw(v.outputHash)] + [Flag(v.success)];
    One(Flag(v.success), []);
    assert Put(Flag(v.success), []) == [if v.success then 1 else 0];
    Peel(Raw(v.outputHash), [Flag(v.success)], []);
    Five(Octet(0), Raw(Ascii("verification:")), Raw(v.jobID), Raw(v.modelHash), Raw(v.inputHash), PutAll(tail, []));
    PutAllConcat(head, tail, []);
    PutAllRenders(head + tail, []);
  }

  // ---------------------------------------------------------------- hexadecimal

  /** The character of a digit, from the two ranges of lower-case hexadecimal. */
  function Nibble(n: int): byte
    requires 0 <= n < 16
  {
    if n < 10 then ('0' as int) + n else ('a' as int) + (n - 10)
  }

  /** Byte i is written as two characters, high half first. */
  lemma {:induction false} HexLayout(b: bytes, i: nat)
    requires i < |b|
    ensures Hex(b)[2 * i] == Nibble(b[i] / 16) && Hex(b)[2 * i + 1] == Nibble(b[i] % 16)
  {
    if i > 0 {
      HexLayout(b[1..], i - 1);
    }
  }
}
