/**
 The application-level signature of app/vote_extension_signing.go: what VoteExtensionSigner signs,
 what it verifies, and what a signature made in one context says in another.
 */
module AppSignature {
  import opened Encoding
  import opened VoteTypes
  import opened ExtensionHash
  import opened SignatureCodec
  import Merkle

  /** SHA-256, encoding/json and ed25519 with one key pair, as parameters. */
  datatype Crypto = Crypto(hash: bytes -> Digest, json: JsonCodec<VoteExtension>, key: Signer)

  const SIGNATURE_VERSION: byte := 1

  /** What a signature is about. */
  datatype Context = Context(chainID: bytes, height: int64, round: int32, ve: VoteExtension)

  /** computeAddress: the first 20 bytes of the hash of the public key. */
  function AddressOf(c: Crypto, pub: bytes): bytes
  {
    c.hash(pub)[..20]
  }

  /** The record that is serialized: None when the extension cannot be marshalled. */
  function DataFor(c: Crypto, x: Context, pub: bytes, version: byte, timestamp: int): Option<SignatureData>
  {
    match c.json.enc(WithHash(c.hash, x.ve))
    case None => None
    case Some(ext) =>
      Some(SignatureData(version, x.chainID, x.height, x.round, AddressOf(c, pub), timestamp,
                         c.hash(ext), Merkle.Root(c.hash, x.ve.verifications), x.ve.nonce))
  }

  /** VoteExtensionSigner.SignVoteExtension at an instant. */
  function Sign(c: Crypto, x: Context, keyID: bytes, now: int): Option<Signature>
  {
    match DataFor(c, x, c.key.pub, SIGNATURE_VERSION, now)
    case None => None
    case Some(d) => Some(Signature(c.key.sign(SigningBytes(d)), c.key.pub, keyID, SIGNATURE_VERSION, now))
  }

  /** VoteExtensionSigner.VerifyVoteExtensionSignature: true when it returns nil. */
  predicate Verify(c: Crypto, x: Context, sig: Option<Signature>)
  {
    && sig.Some? && |sig.value.signature| == 64 && |sig.value.publicKey| == 32
    && var d := DataFor(c, x, sig.value.publicKey, sig.value.version, sig.value.timestamp);
       d.Some? && c.key.verify(sig.value.publicKey, SigningBytes(d.value), sig.value.signature)
  }

  /** A signature verifies in the context it was made in, also after a trip over the wire. */
  lemma {:induction false} SignThenVerify(c: Crypto, x: Context, keyID: bytes, now: int64)
    requires Sound(c.key) && |keyID| < TWO_16 && Sign(c, x, keyID, now).Some?
    ensures Verify(c, x, Sign(c, x, keyID, now))
    ensures DecodeSignature(SignatureBytes(Sign(c, x, keyID, now))) == Decoded(Sign(c, x, keyID, now))
  {
    SignatureRoundTrip(Sign(c, x, keyID, now));
  }

  predicate ContextFits(x: Context)
  {
    |x.chainID| < TWO_16 && |x.ve.nonce| < TWO_16
  }

  /** Who signed, in which format and when. */
  datatype Stamp = Stamp(pub: bytes, version: byte, timestamp: int)

  function Stamped(c: Crypto, x: Context, t: Stamp): Option<SignatureData>
  {
    DataFor(c, x, t.pub, t.version, t.timestamp)
  }

  /** The marshalled forms of two extensions differ and have one digest. */
  predicate Collide(c: Crypto, a: VoteExtension, b: VoteExtension)
  {
    var x, y := c.json.enc(WithHash(c.hash, a)), c.json.enc(WithHash(c.hash, b));
    x.Some? && y.Some? && x.value != y.value && c.hash(x.value) == c.hash(y.value)
  }

  /** Two contexts lead to the same signed bytes, under any keys and at any instants, only if chain,
      height, round, nonce, version, instant and signer address agree, and then the extensions agree
      too unless their marshalled forms collide under the hash. */
  lemma {:induction false} ContextsSeparate(c: Crypto, x: Context, y: Context, t: Stamp, u: Stamp)
    requires Lossless(c.json) && ContextFits(x) && ContextFits(y)
    requires Stamped(c, x, t).Some? && Stamped(c, y, u).Some?
    requires SigningBytes(Stamped(c, x, t).value) == SigningBytes(Stamped(c, y, u).value)
    ensures x.chainID == y.chainID && x.height == y.height && x.round == y.round && x.ve.nonce == y.ve.nonce
    ensures t.version == u.version && Wrap64(t.timestamp) == Wrap64(u.timestamp)
    ensures AddressOf(c, t.pub) == AddressOf(c, u.pub)
    ensures Merkle.Root(c.hash, x.ve.verifications) == Merkle.Root(c.hash, y.ve.verifications)
    ensures WithHash(c.hash, x.ve) == WithHash(c.hash, y.ve) || Collide(c, x.ve, y.ve)
  {
    SigningBytesDetermine(Stamped(c, x, t).value, Stamped(c, y, u).value);
  }

  /** What verifies has a 64-byte signature and a 32-byte key that accepts it for the serialized record. */
  lemma {:induction false} VerifiedMeans(c: Crypto, x: Context, sig: Option<Signature>)
    requires Verify(c, x, sig)
    ensures sig.Some? && |sig.value.signature| == 64 && |sig.value.publicKey| == 32
    ensures exists d :: DataFor(c, x, sig.value.publicKey, sig.value.version, sig.value.timestamp) == Some(d)
                        && c.key.verify(sig.value.publicKey, SigningBytes(d), sig.value.signature)
  {
    var d := DataFor(c, x, sig.value.publicKey, sig.value.version, sig.value.timestamp).value;
    assert DataFor(c, x, sig.value.publicKey, sig.value.version, sig.value.timestamp) == Some(d);
  }

  /** The key accepts the signature for two messages. */
  ghost predicate AcceptsTwo(c: Crypto, sig: Signature)
  {
    exists m, n ::
      m != n && c.key.verify(sig.publicKey, m, sig.signature) && c.key.verify(sig.publicKey, n, sig.signature)
  }

  /** One signature is accepted in one context only: same chain, height, round, nonce, Merkle root and, up to a
      collision of marshalled forms, the same extension, unless the key accepts it for two messages. */
  lemma {:induction false} OneSignatureOneContext(c: Crypto, x: Context, y: Context, sig: Option<Signature>)
    requires Lossless(c.json) && ContextFits(x) && ContextFits(y) && Verify(c, x, sig) && Verify(c, y, sig)
    ensures !AcceptsTwo(c, sig.value) ==>
      && x.chainID == y.chainID && x.height == y.height && x.round == y.round && x.ve.nonce == y.ve.nonce
      && Merkle.Root(c.hash, x.ve.verifications) == Merkle.Root(c.hash, y.ve.verifications)
      && (WithHash(c.hash, x.ve) == WithHash(c.hash, y.ve) || Collide(c, x.ve, y.ve))
  {
    VerifiedMeans(c, x, sig);
    VerifiedMeans(c, y, sig);
    var t := Stamp(sig.value.publicKey, sig.value.version, sig.value.timestamp);
    var m, n := SigningBytes(Stamped(c, x, t).value), SigningBytes(Stamped(c, y, t).value);
    if m == n {
      ContextsSeparate(c, x, y, t, t);
    } else {
      assert c.key.verify(sig.value.publicKey, m, sig.value.signature);
      assert c.key.verify(sig.value.publicKey, n, sig.value.signature);
    }
  }
}
