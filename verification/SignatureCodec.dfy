/**
 The wire formats of app/vote_extension_signing.go: the length-prefixed signature record and
 the two-part frame [baseLength][base][sigLength][sig] around it.
 */
module SignatureCodec {
  import opened Encoding
  import opened VoteTypes
  import opened ExtensionHash

  datatype Signature = Signature(
    signature: bytes,
    publicKey: bytes,
    keyID: bytes,
    version: byte,
    timestamp: int)

  // ---------------------------------------------------------------- signature record

  /** The bytes of a signature; a nil signature is the single byte 0. */
  function SignatureBytes(sig: Option<Signature>): bytes
  {
    match sig
    case None => [0]
    case Some(s) => [s.version] + PutLen16(s.signature, PutLen16(s.publicKey, PutLen16(s.keyID, U64(s.timestamp))))
  }

  method MarshalSignature(sig: Option<Signature>) returns (data: bytes)
    ensures data == SignatureBytes(sig)
  {
    if sig.None? {
      return [0];
    }
    var s := sig.value;
    var buf: bytes := [s.version];
    buf := buf + U16(|s.signature|);
    buf := buf + s.signature;
    buf := buf + U16(|s.publicKey|);
    buf := buf + s.publicKey;
    buf := buf + U16(|s.keyID|);
    buf := buf + s.keyID;
    buf := buf + U64(s.timestamp);
    assert buf == SignatureBytes(sig);
    return buf;
  }

  /** Reader.Read on the remaining bytes: the buffer and what remains after it. */
  function ShortRead(s: bytes, n: nat): (Option<bytes>, bytes)
  {
    if s == [] then (None, [])
    else if n <= |s| then (Some(s[..n]), s[n..])
    else (Some(s + Zeros(n - |s|)), [])
  }

  /** bytes.Reader: a cursor over immutable data. */
  class Reader {
    const data: bytes
    var pos: nat

    ghost predicate Valid()
      reads this
    {
      pos <= |data|
    }

    /** What is still to be read. */
    function Rest(): bytes
      requires Valid()
      reads this
    {
      data[pos..]
    }

    constructor (d: bytes)
      ensures Valid() && Rest() == d
    {
      data := d;
      pos := 0;
    }

    method ReadByte() returns (b: Option<byte>)
      requires Valid()
      modifies this
      ensures Valid()
      ensures old(Rest()) == [] ==> b == None
      ensures old(Rest()) != [] ==> b == Some(old(Rest())[0]) && Rest() == old(Rest())[1..]
    {
      if pos == |data| {
        return None;
      }
      b := Some(data[pos]);
      pos := pos + 1;
    }

    /** io.ReadFull, which binary.Read uses: all n bytes or an error. */
    method ReadFull(n: nat) returns (b: Option<bytes>)
      requires Valid()
      modifies this
      ensures Valid()
      ensures |old(Rest())| < n ==> b == None
      ensures |old(Rest())| >= n ==> b == Some(old(Rest())[..n]) && Rest() == old(Rest())[n..]
    {
      if |data| - pos < n {
        pos := |data|;
        return None;
      }
      assert data[pos..][..n] == data[pos..pos + n];
      b := Some(data[pos..pos + n]);
      pos := pos + n;
    }

    /** Read into a zeroed buffer of n bytes, the returned count ignored: an error only when
        nothing is left, even for n == 0; a short read leaves the tail of the buffer zero. */
    method Read(n: nat) returns (b: Option<bytes>)
      requires Valid()
      modifies this
      ensures Valid()
      ensures b == ShortRead(old(Rest()), n).0
      ensures b.Some? ==> Rest() == ShortRead(old(Rest()), n).1
    {
      if pos == |data| {
        return None;
      }
      var k := if n <= |data| - pos then n else |data| - pos;
      assert data[pos..][..k] == data[pos..pos + k] == data[pos..pos + k] + Zeros(0);
      assert k == |data| - pos ==> data[pos..pos + k] == data[pos..];
      b := Some(data[pos..pos + k] + Zeros(n - k));
      pos := pos + k;
    }
  }

  datatype Field = Bad | Field(value: bytes, rest: bytes)

  /** A two-byte length and then that many bytes, read as unmarshalSignature reads them. */
  function TakeField(s: bytes): Field
  {
    if |s| < 2 then Bad
    else
      var (b, rest) := ShortRead(s[2..], FromBigEndian(s[..2]));
      if b.None? then Bad else Field(b.value, rest)
  }

  datatype Decoded = Rejected | Decoded(sig: Option<Signature>)

  /** int64 from eight big-endian bytes. */
  function ToInt64(s: bytes): int64
    requires |s| == 8
  {
    Wrap64(FromBigEndian(s))
  }

  function DecodeSignature(data: bytes): Decoded
  {
    if data == [] || (|data| == 1 && data[0] == 0) then Decoded(None)
    else
      match TakeField(data[1..])
      case Bad => Rejected
      case Field(sig, r1) =>
        match TakeField(r1)
        case Bad => Rejected
        case Field(pub, r2) =>
          match TakeField(r2)
          case Bad => Rejected
          case Field(key, r3) =>
            if |r3| < 8 then Rejected
            else Decoded(Some(Signature(sig, pub, key, data[0], ToInt64(r3[..8]))))
  }

  method ReadField(r: Reader) returns (b: Option<bytes>)
    requires r.Valid()
    modifies r
    ensures r.Valid()
    ensures b.None? <==> TakeField(old(r.Rest())).Bad?
    ensures b.Some? ==> TakeField(old(r.Rest())) == Field(b.value, r.Rest())
  {
    var n := r.ReadFull(2);
    if n.None? {
      return None;
    }
    b := r.Read(FromBigEndian(n.value));
  }

  method UnmarshalSignature(data: bytes) returns (d: Decoded)
    ensures d == DecodeSignature(data)
  {
    if |data| == 0 || (|data| == 1 && data[0] == 0) {
      return Decoded(None);
    }
    var r := new Reader(data);
    var version := r.ReadByte();
    if version.None? { return Rejected; }
    var sig := ReadField(r);
    if sig.None? { return Rejected; }
    var pub := ReadField(r);
    if pub.None? { return Rejected; }
    var key := ReadField(r);
    if key.None? { return Rejected; }
    var ts := r.ReadFull(8);
    if ts.None? { return Rejected; }
    return Decoded(Some(Signature(sig.value, pub.value, key.value, version.value, ToInt64(ts.value))));
  }

  lemma TakesFrom(s: bytes, b: bytes, r: bytes)
    requires r != [] && |s| >= 2 && FromBigEndian(s[..2]) == |b| && s[2..] == b + r
    ensures TakeField(s) == Field(b, r)
  {
    assert (b + r)[..|b|] == b && (b + r)[|b|..] == r;
  }

  lemma TakesWhatWasPut(b: bytes, r: bytes)
    requires |b| < TWO_16 && r != []
    ensures TakeField(PutLen16(b, r)) == Field(b, r)
  {
    var s := PutLen16(b, r);
    assert s[..2] == U16(|b|) && s[2..] == b + r;
    U16RoundTrip(|b|);
    TakesFrom(s, b, r);
  }

  /** Truncating a field's stream either fails at once or truncates what follows. */
  lemma TakesLessFromPrefix(b: bytes, r: bytes, p: bytes)
    requires |b| < TWO_16 && r != [] && p < PutLen16(b, r)
    ensures TakeField(p).Bad? || TakeField(p).rest < r
  {
    if |p| > 2 {
      assert p[..2] == U16(|b|);
      assert p[2..] < b + r;
      U16RoundTrip(|b|);
      if |b| <= |p[2..]| {
        assert p[2..][|b|..] < r;
      }
    }
  }

  predicate SignatureFits(s: Signature)
  {
    && |s.signature| < TWO_16 && |s.publicKey| < TWO_16 && |s.keyID| < TWO_16
    && -TWO_63 <= s.timestamp < TWO_63
  }

  lemma FieldFits(s: bytes)
    ensures TakeField(s).Field? ==> |TakeField(s).value| < TWO_16
  {
    Widths();
  }

  lemma Int64RoundTrip(v: int)
    ensures ToInt64(U64(v)) == Wrap64(v)
  {
    Widths();
    BigEndianRoundTrip(v % TWO_64, 8);
    WrapCongruent(v % TWO_64, v);
  }

  lemma PutLen16Append(b: bytes, r: bytes, tail: bytes)
    ensures PutLen16(b, r) + tail == PutLen16(b, r + tail)
  {
  }

  lemma SignatureTail(s: Signature, tail: bytes)
    ensures (SignatureBytes(Some(s)) + tail)[0] == s.version
    ensures (SignatureBytes(Some(s)) + tail)[1..]
         == PutLen16(s.signature, PutLen16(s.publicKey, PutLen16(s.keyID, U64(s.timestamp) + tail)))
  {
    var r3 := U64(s.timestamp);
    var r2 := PutLen16(s.keyID, r3);
    var r1 := PutLen16(s.publicKey, r2);
    PutLen16Append(s.keyID, r3, tail);
    PutLen16Append(s.publicKey, r2, tail);
    PutLen16Append(s.signature, r1, tail);
    assert (SignatureBytes(Some(s)) + tail)[1..] == PutLen16(s.signature, r1) + tail;
  }

  /** Decoding what was encoded, whatever follows it, when the fields fit. */
  lemma SignatureDecodes(s: Signature, tail: bytes)
    requires SignatureFits(s)
    ensures DecodeSignature(SignatureBytes(Some(s)) + tail) == Decoded(Some(s))
  {
    var r3 := U64(s.timestamp) + tail;
    var r2 := PutLen16(s.keyID, r3);
    var r1 := PutLen16(s.publicKey, r2);
    SignatureTail(s, tail);
    TakesWhatWasPut(s.signature, r1);
    TakesWhatWasPut(s.publicKey, r2);
    TakesWhatWasPut(s.keyID, r3);
    assert r3[..8] == U64(s.timestamp);
    Int64RoundTrip(s.timestamp);
  }

  lemma DecodedFits(data: bytes)
    ensures DecodeSignature(data).Decoded? && DecodeSignature(data).sig.Some?
        ==> SignatureFits(DecodeSignature(data).sig.value)
  {
    if data != [] {
      FieldFits(data[1..]);
      var f := TakeField(data[1..]);
      if f.Field? {
        FieldFits(f.rest);
        var g := TakeField(f.rest);
        if g.Field? {
          FieldFits(g.rest);
        }
      }
    }
  }

  /** The codec gives a signature back exactly when its three fields are shorter than 2^16 bytes
      and its instant is an int64; a nil signature always comes back nil. */
  lemma {:induction false} SignatureRoundTrip(sig: Option<Signature>)
    ensures DecodeSignature(SignatureBytes(sig)) == Decoded(sig) <==> sig.None? || SignatureFits(sig.value)
  {
    if sig.Some? {
      if SignatureFits(sig.value) {
        SignatureDecodes(sig.value, []);
        assert SignatureBytes(sig) + [] == SignatureBytes(sig);
      }
      if DecodeSignature(SignatureBytes(sig)) == Decoded(sig) {
        DecodedFits(SignatureBytes(sig));
      }
    }
  }

  /** A strict prefix of a signature's bytes is rejected, but for the two that read as nil:
      the empty one, and the version byte alone when it is 0. */
  lemma {:induction false} TruncatedSignature(s: Signature, p: bytes)
    requires SignatureFits(s) && p < SignatureBytes(Some(s))
    ensures DecodeSignature(p) == if p == [] || p == [0] then Decoded(None) else Rejected
  {
    if p != [] && p != [0] {
      var r3 := U64(s.timestamp);
      var r2 := PutLen16(s.keyID, r3);
      var r1 := PutLen16(s.publicKey, r2);
      assert p[1..] < PutLen16(s.signature, r1);
      TakesLessFromPrefix(s.signature, r1, p[1..]);
      var f := TakeField(p[1..]);
      if f.Field? {
        TakesLessFromPrefix(s.publicKey, r2, f.rest);
        var g := TakeField(f.rest);
        if g.Field? {
          TakesLessFromPrefix(s.keyID, r3, g.rest);
        }
      }
    }
  }

  lemma TookWhatWasPut(s: bytes)
    requires TakeField(s).Field? && TakeField(s).rest != []
    ensures s == PutLen16(TakeField(s).value, TakeField(s).rest)
  {
    var f := TakeField(s);
    var n := FromBigEndian(s[..2]);
    Widths();
    FromBigEndianRoundTrip(s[..2]);
    assert U16(n) == s[..2];
    assert s[2..] == f.value + f.rest;
    assert s == s[..2] + s[2..];
  }

  lemma Int64Bytes(s: bytes)
    requires |s| == 8
    ensures U64(ToInt64(s)) == s
  {
    Widths();
    FromBigEndianRoundTrip(s);
    assert ToInt64(s) % TWO_64 == FromBigEndian(s);
  }

  /** A decoded signature was read off the fields it has, with at least eight bytes after them. */
  lemma DecodedParts(data: bytes) returns (r: bytes)
    requires DecodeSignature(data).Decoded? && DecodeSignature(data).sig.Some?
    ensures var s := DecodeSignature(data).sig.value;
      && data != [] && data[0] == s.version && |r| >= 8 && s.timestamp == ToInt64(r[..8])
      && data[1..] == PutLen16(s.signature, PutLen16(s.publicKey, PutLen16(s.keyID, r)))
  {
    var r1 := TakeField(data[1..]).rest;
    var r2 := TakeField(r1).rest;
    r := TakeField(r2).rest;
    TookWhatWasPut(data[1..]);
    TookWhatWasPut(r1);
    TookWhatWasPut(r2);
  }

  lemma SplitFirst(s: bytes)
    requires s != []
    ensures s == [s[0]] + s[1..]
  {
  }

  lemma PrefixThenRest(p: bytes, data: bytes)
    ensures p <= data <==> |p| <= |data| && data == p + data[|p|..]
  {
  }

  lemma DecodedBytes(data: bytes)
    requires DecodeSignature(data).Decoded? && DecodeSignature(data).sig.Some?
    ensures SignatureBytes(DecodeSignature(data).sig) <= data
  {
    var s := DecodeSignature(data).sig.value;
    var r := DecodedParts(data);
    Int64Bytes(r[..8]);
    assert r == r[..8] + r[8..];
    SignatureTail(s, r[8..]);
    SplitFirst(data);
    SplitFirst(SignatureBytes(Some(s)) + r[8..]);
    assert data == SignatureBytes(Some(s)) + r[8..];
  }

  lemma DecodesPrefix(data: bytes, s: Signature)
    requires SignatureFits(s) && SignatureBytes(Some(s)) <= data
    ensures DecodeSignature(data) == Decoded(Some(s))
  {
    PrefixThenRest(SignatureBytes(Some(s)), data);
    SignatureDecodes(s, data[|SignatureBytes(Some(s))|..]);
  }

  /** The decoder accepts exactly the encodings, with anything after them, and reads as nil exactly nothing and a
      zero byte. */
  lemma {:induction false} DecodesIff(data: bytes, s: Signature)
    ensures DecodeSignature(data) == Decoded(Some(s)) <==> SignatureFits(s) && SignatureBytes(Some(s)) <= data
    ensures DecodeSignature(data) == Decoded(None) <==> data == [] || data == [0]
  {
    if DecodeSignature(data) == Decoded(Some(s)) {
      DecodedFits(data);
      DecodedBytes(data);
    }
    if SignatureFits(s) && SignatureBytes(Some(s)) <= data {
      DecodesPrefix(data, s);
    }
  }

  // ---------------------------------------------------------------- the frame

  const MAX_COMPONENT: nat := 16 * 1024 * 1024
  const MAX_INT: nat := 0x7FFF_FFFF_FFFF_FFFF

  /** checkedEnhancedVoteExtensionSize, with Go's int as int64: None is an error. */
  function CheckedSize(baseLen: int64, sigLen: int64): (r: Option<int>)
    ensures r.Some? <==> 0 <= baseLen <= MAX_COMPONENT && 0 <= sigLen <= MAX_COMPONENT
    ensures r.Some? ==> r.value == 8 + baseLen + sigLen < TWO_32
  {
    if baseLen < 0 || sigLen < 0 then None
    else if baseLen > MAX_COMPONENT || sigLen > MAX_COMPONENT then None
    else if baseLen > TWO_32 - 1 || sigLen > TWO_32 - 1 then None
    else if baseLen > MAX_INT - 8 || sigLen > MAX_INT - 8 - baseLen then None
    else Some(8 + baseLen + sigLen)
  }

  function FrameBytes(base: bytes, sig: bytes): bytes
  {
    PutLen32(base, PutLen32(sig, []))
  }

  /** copy(dst[at:], src) for a src that fits. */
  method CopyAt(dst: array<byte>, at: nat, src: bytes)
    requires at + |src| <= dst.Length
    modifies dst
    ensures dst[..at + |src|] == old(dst[..at]) + src
    ensures dst[at + |src|..] == old(dst[at + |src|..])
  {
    for i := 0 to |src|
      invariant dst[..at] == old(dst[..at]) && dst[at..at + i] == src[..i]
      invariant dst[at + |src|..] == old(dst[at + |src|..])
    {
      dst[at + i] := src[i];
    }
  }

  lemma FourPartsAssoc(a: bytes, b: bytes, c: bytes, d: bytes)
    ensures ((a + b) + c) + d == a + (b + (c + (d + [])))
  {
  }

  /** The slice arithmetic of MarshalWithSignature. */
  method WriteFrame(base: bytes, sig: bytes) returns (frame: Option<bytes>)
    requires |base| <= MAX_INT && |sig| <= MAX_INT
    ensures frame == if |base| <= MAX_COMPONENT && |sig| <= MAX_COMPONENT then Some(FrameBytes(base, sig)) else None
  {
    var total := CheckedSize(|base|, |sig|);
    if total.None? {
      return None;
    }
    var result := new byte[total.value];
    var baseLen, sigLen := U32(|base|), U32(|sig|);
    CopyAt(result, 0, baseLen);
    assert result[..4] == baseLen;
    CopyAt(result, 4, base);
    CopyAt(result, 4 + |base|, sigLen);
    CopyAt(result, 8 + |base|, sig);
    assert result[..] == result[..8 + |base| + |sig|] == ((baseLen + base) + sigLen) + sig;
    FourPartsAssoc(baseLen, base, sigLen, sig);
    return Some(result[..]);
  }

  datatype Frame = BadFrame | Frame(base: bytes, sig: bytes)

  /** uint32 addition. */
  function Add32(a: int, b: int): (r: int)
    ensures 0 <= a + b < TWO_32 ==> r == a + b
  {
    (a + b) % TWO_32
  }

  /** The bounds checks and slices of UnmarshalEnhancedVoteExtension. Every index is in range. */
  function ReadFrame(data: bytes): Frame
  {
    if |data| < 8 then BadFrame
    else
      var baseLen := FromBigEndian(data[0..4]);
      if baseLen > MAX_COMPONENT || |data| < Add32(Add32(4, baseLen), 4) then BadFrame
      else
        var sigLenStart := Add32(4, baseLen);
        var sigLen := FromBigEndian(data[sigLenStart..Add32(sigLenStart, 4)]);
        if sigLen > MAX_COMPONENT || |data| < Add32(Add32(sigLenStart, 4), sigLen) then BadFrame
        else Frame(data[4..Add32(4, baseLen)], data[Add32(sigLenStart, 4)..Add32(Add32(sigLenStart, 4), sigLen)])
  }

  lemma FourParts(a: bytes, b: bytes, c: bytes, d: bytes, t: bytes)
    ensures var data := a + (b + (c + (d + t)));
      && data[..|a|] == a && data[|a|..|a| + |b|] == b
      && data[|a| + |b|..|a| + |b| + |c|] == c && data[|a| + |b| + |c|..|a| + |b| + |c| + |d|] == d
  {
    var data := a + (b + (c + (d + t)));
    assert data[|a|..] == b + (c + (d + t));
    assert data[|a| + |b|..] == c + (d + t);
    assert data[|a| + |b| + |c|..] == d + t;
  }

  lemma FrameSlices(base: bytes, sig: bytes, tail: bytes)
    ensures var data := FrameBytes(base, sig) + tail;
      && data[0..4] == U32(|base|) && data[4..4 + |base|] == base
      && data[4 + |base|..8 + |base|] == U32(|sig|) && data[8 + |base|..8 + |base| + |sig|] == sig
  {
    var a, c := U32(|base|), U32(|sig|);
    FourParts(a, base, c, sig, tail);
    assert FrameBytes(base, sig) + tail == a + (base + (c + (sig + tail)));
  }

  lemma FrameLengths(base: bytes, sig: bytes, tail: bytes)
    requires |base| < TWO_32 && |sig| < TWO_32
    ensures var data := FrameBytes(base, sig) + tail;
      && FromBigEndian(data[0..4]) == |base| && data[4..4 + |base|] == base
      && FromBigEndian(data[4 + |base|..8 + |base|]) == |sig| && data[8 + |base|..8 + |base| + |sig|] == sig
  {
    FrameSlices(base, sig, tail);
    U32RoundTrip(|base|);
    U32RoundTrip(|sig|);
  }

  lemma ReadsParts(data: bytes, base: bytes, sig: bytes)
    requires |base| <= MAX_COMPONENT && |sig| <= MAX_COMPONENT && |data| >= 8 + |base| + |sig|
    requires FromBigEndian(data[0..4]) == |base| && data[4..4 + |base|] == base
    requires FromBigEndian(data[4 + |base|..8 + |base|]) == |sig| && data[8 + |base|..8 + |base| + |sig|] == sig
    ensures ReadFrame(data) == Frame(base, sig)
  {
  }

  /** A frame followed by anything gives back its two parts. */
  lemma {:induction false} FrameReads(base: bytes, sig: bytes, tail: bytes)
    requires |base| <= MAX_COMPONENT && |sig| <= MAX_COMPONENT
    ensures ReadFrame(FrameBytes(base, sig) + tail) == Frame(base, sig)
  {
    FrameLengths(base, sig, tail);
    ReadsParts(FrameBytes(base, sig) + tail, base, sig);
  }

  lemma RejectsShort(p: bytes, baseLen: nat, sigLen: nat)
    requires baseLen <= MAX_COMPONENT && sigLen <= MAX_COMPONENT && |p| < 8 + baseLen + sigLen
    requires |p| >= 4 ==> FromBigEndian(p[0..4]) == baseLen
    requires |p| >= 8 + baseLen ==> FromBigEndian(p[4 + baseLen..8 + baseLen]) == sigLen
    ensures ReadFrame(p) == BadFrame
  {
  }

  lemma PrefixSlices(p: bytes, data: bytes)
    requires p <= data
    ensures forall i, j :: 0 <= i <= j <= |p| ==> p[i..j] == data[i..j]
  {
  }

  /** No strict prefix of a frame is accepted. */
  lemma {:induction false} TruncatedFrame(base: bytes, sig: bytes, p: bytes)
    requires |base| <= MAX_COMPONENT && |sig| <= MAX_COMPONENT && p < FrameBytes(base, sig)
    ensures ReadFrame(p) == BadFrame
  {
    var data := FrameBytes(base, sig) + [];
    assert data == FrameBytes(base, sig);
    FrameLengths(base, sig, []);
    PrefixSlices(p, data);
    RejectsShort(p, |base|, |sig|);
  }

  lemma FourSlices(data: bytes, i: nat, j: nat, n: nat)
    requires 4 <= i <= j <= n <= |data|
    ensures data[..n] == data[0..4] + (data[4..i] + (data[i..j] + (data[j..n] + [])))
  {
  }

  lemma FrameParts(data: bytes)
    requires ReadFrame(data).Frame?
    ensures var f := ReadFrame(data);
      var i, j := 4 + |f.base|, 8 + |f.base|;
      && |f.base| <= MAX_COMPONENT && |f.sig| <= MAX_COMPONENT && j + |f.sig| <= |data|
      && FromBigEndian(data[0..4]) == |f.base| && f.base == data[4..i]
      && FromBigEndian(data[i..j]) == |f.sig| && f.sig == data[j..j + |f.sig|]
  {
  }

  lemma LengthBytes(s: bytes)
    requires |s| == 4
    ensures U32(FromBigEndian(s)) == s
  {
    Widths();
    FromBigEndianRoundTrip(s);
  }

  lemma FramedBytes(data: bytes)
    requires ReadFrame(data).Frame?
    ensures var f := ReadFrame(data);
      && |f.base| <= MAX_COMPONENT && |f.sig| <= MAX_COMPONENT && FrameBytes(f.base, f.sig) <= data
  {
    var f := ReadFrame(data);
    var i, j := 4 + |f.base|, 8 + |f.base|;
    FrameParts(data);
    LengthBytes(data[0..4]);
    LengthBytes(data[i..j]);
    FourSlices(data, i, j, j + |f.sig|);
  }

  /** Exactly the frames whose parts are at most 16 MB, with anything after them, are read. */
  lemma {:induction false} ReadFrameIff(data: bytes, base: bytes, sig: bytes)
    ensures ReadFrame(data) == Frame(base, sig) <==>
      |base| <= 16_777_216 && |sig| <= 16_777_216 && FrameBytes(base, sig) <= data
  {
    if ReadFrame(data) == Frame(base, sig) {
      FramedBytes(data);
    }
    if |base| <= 16_777_216 && |sig| <= 16_777_216 && FrameBytes(base, sig) <= data {
      PrefixThenRest(FrameBytes(base, sig), data);
      FrameReads(base, sig, data[|FrameBytes(base, sig)|..]);
    }
  }

  // ---------------------------------------------------------------- enhanced vote extensions

  datatype Enhanced = Failed | Enhanced(ve: VoteExtension, sig: Option<Signature>)

  /** MarshalWithSignature of (ve, sig): None is an error. */
  function MarshalEnhanced(json: JsonCodec<VoteExtension>, h: bytes -> Digest, ve: VoteExtension,
                           sig: Option<Signature>)
    : Option<bytes>
  {
    match json.enc(WithHash(h, ve))
    case None => None
    case Some(base) =>
      var sigBytes := SignatureBytes(sig);
      if |base| <= MAX_COMPONENT && |sigBytes| <= MAX_COMPONENT then Some(FrameBytes(base, sigBytes)) else None
  }

  function UnmarshalEnhanced(json: JsonCodec<VoteExtension>, data: bytes): Enhanced
  {
    match ReadFrame(data)
    case BadFrame => Failed
    case Frame(base, sigBytes) =>
      if base == [] || json.dec(base).None? then Failed
      else if DecodeSignature(sigBytes).Rejected? then Failed
      else Enhanced(json.dec(base).value, DecodeSignature(sigBytes).sig)
  }

  /** What MarshalWithSignature emits decodes to the same extension and signature, whatever bytes
      follow it, and no strict prefix of it decodes at all. The wrapper's Height and Round are
      not part of the frame. */
  lemma {:induction false} EnhancedRoundTrip(json: JsonCodec<VoteExtension>, h: bytes -> Digest, ve: VoteExtension,
                                             sig: Option<Signature>, tail: bytes)
    requires Lossless(json) && (sig.Some? ==> SignatureFits(sig.value))
    requires MarshalEnhanced(json, h, ve, sig).Some?
    ensures UnmarshalEnhanced(json, MarshalEnhanced(json, h, ve, sig).value + tail) == Enhanced(WithHash(h, ve), sig)
    ensures forall p :: p < MarshalEnhanced(json, h, ve, sig).value ==> UnmarshalEnhanced(json, p) == Failed
  {
    var base := json.enc(WithHash(h, ve)).value;
    var sigBytes := SignatureBytes(sig);
    FrameReads(base, sigBytes, tail);
    SignatureRoundTrip(sig);
    forall p | p < FrameBytes(base, sigBytes)
      ensures UnmarshalEnhanced(json, p) == Failed
    {
      TruncatedFrame(base, sigBytes, p);
    }
  }

  /** The data starts with a frame whose parts are a non-empty marshalled extension and a signature. */
  ghost predicate Holds(json: JsonCodec<VoteExtension>, data: bytes, base: bytes, sig: bytes, e: Enhanced)
    requires e.Enhanced?
  {
    && |base| <= 16_777_216 && |sig| <= 16_777_216 && FrameBytes(base, sig) <= data
    && base != [] && json.dec(base) == Some(e.ve) && DecodeSignature(sig) == Decoded(e.sig)
  }

  lemma {:induction false} UnmarshalsIff(json: JsonCodec<VoteExtension>, data: bytes, e: Enhanced)
    requires e.Enhanced?
    ensures UnmarshalEnhanced(json, data) == e <==> exists base, sig :: Holds(json, data, base, sig, e)
  {
    if UnmarshalEnhanced(json, data) == e {
      var f := ReadFrame(data);
      ReadFrameIff(data, f.base, f.sig);
      assert Holds(json, data, f.base, f.sig, e);
    }
    if base, sig :| Holds(json, data, base, sig, e) {
      ReadFrameIff(data, base, sig);
    }
  }
}
