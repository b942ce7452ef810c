/**
 Byte strings, fixed-width big-endian integers, 64-bit wrap-around and hexadecimal text.

 A Go `string` is a sequence of bytes, so text is modelled as `bytes` throughout.
 Writers take the bytes that follow them: `PutLen32(b, rest)` is what a stream holds after
 `b` has been written with its length and then `rest` has been written.
 */
module Encoding {
  type byte = b: int | 0 <= b < 256
  type bytes = seq<byte>

  /** The output of SHA-256: exactly 32 bytes. */
  type Digest = d: bytes | |d| == 32 witness seq(32, _ => 0)

  const TWO_16: int := 0x1_0000
  const TWO_32: int := 0x1_0000_0000
  const TWO_63: int := 0x8000_0000_0000_0000
  const TWO_64: int := 0x1_0000_0000_0000_0000

  type int32 = x: int | -0x8000_0000 <= x < 0x8000_0000
  type int64 = x: int | -0x8000_0000_0000_0000 <= x < 0x8000_0000_0000_0000

  datatype Option<+T> = None | Some(value: T)

  /** The bytes of an ASCII literal. */
  function Ascii(s: string): (r: bytes)
    ensures |r| == |s|
  {
    seq(|s|, i requires 0 <= i < |s| => (s[i] as int) % 256)
  }

  function Zeros(n: nat): (z: bytes)
    ensures |z| == n
  {
    seq(n, _ => 0)
  }

  lemma ConcatAssoc<T>(a: seq<T>, b: seq<T>, c: seq<T>)
    ensures a + (b + c) == (a + b) + c
  {
  }

  // ---------------------------------------------------------------- 64-bit arithmetic

  /** The int64 value a Go expression holds after overflowing to the mathematical value x. */
  function Wrap64(x: int): (r: int64)
    ensures -TWO_63 <= x < TWO_63 ==> r == x
    ensures (x - r) % TWO_64 == 0
  {
    (x + TWO_63) % TWO_64 - TWO_63
  }

  lemma ModShift(x: int, k: int)
    ensures (x + k * TWO_64) % TWO_64 == x % TWO_64
  {
    var q := x / TWO_64;
    assert x + k * TWO_64 == (q + k) * TWO_64 + x % TWO_64;
  }

  lemma WrapAdd(a: int, b: int)
    ensures Wrap64(Wrap64(a) + b) == Wrap64(a + b)
  {
    var k := (a - Wrap64(a)) / TWO_64;
    assert a == Wrap64(a) + k * TWO_64;
    ModShift(Wrap64(a) + b + TWO_63, k);
  }

  lemma MulMono(t: int, a: int, b: int)
    requires t >= 0 && a <= b
    ensures t * a <= t * b
  {
  }

  /** Go's integer division: truncates toward zero. */
  function TruncDiv(a: int, d: int): (q: int)
    requires d > 0
    ensures a >= 0 ==> q == a / d
    ensures a < 0 ==> q == -((-a) / d)
  {
    if a >= 0 then a / d else -((-a) / d)
  }

  // ---------------------------------------------------------------- big-endian integers

  function Pow256(k: nat): (p: nat)
    ensures p > 0
  {
    if k == 0 then 1 else 256 * Pow256(k - 1)
  }

  /** The low k bytes of v, most significant first. */
  function BigEndian(v: nat, k: nat): (r: bytes)
    ensures |r| == k
  {
    if k == 0 then [] else BigEndian(v / 256, k - 1) + [v % 256]
  }

  function FromBigEndian(s: bytes): (v: nat)
    ensures v < Pow256(|s|)
  {
    if s == [] then 0 else FromBigEndian(s[..|s| - 1]) * 256 + s[|s| - 1]
  }

  lemma FromBigEndianSnoc(s: bytes, x: byte)
    ensures FromBigEndian(s + [x]) == FromBigEndian(s) * 256 + x
  {
    assert (s + [x])[..|s|] == s;
  }

  lemma {:induction false} BigEndianRoundTrip(v: nat, k: nat)
    requires v < Pow256(k)
    ensures FromBigEndian(BigEndian(v, k)) == v
  {
    if k > 0 {
      BigEndianRoundTrip(v / 256, k - 1);
      FromBigEndianSnoc(BigEndian(v / 256, k - 1), v % 256);
    }
  }

  lemma {:induction false} FromBigEndianRoundTrip(s: bytes)
    ensures BigEndian(FromBigEndian(s), |s|) == s
  {
    if s != [] {
      var n := |s| - 1;
      FromBigEndianSnoc(s[..n], s[n]);
      FromBigEndianRoundTrip(s[..n]);
      assert s == s[..n] + [s[n]];
    }
  }

  lemma BigEndianInjective(v: nat, w: nat, k: nat)
    requires v < Pow256(k) && w < Pow256(k)
    requires BigEndian(v, k) == BigEndian(w, k)
    ensures v == w
  {
    BigEndianRoundTrip(v, k);
    BigEndianRoundTrip(w, k);
  }

  lemma Widths()
    ensures Pow256(2) == TWO_16 && Pow256(4) == TWO_32 && Pow256(8) == TWO_64
  {
    assert Pow256(1) == 256 && Pow256(3) == 256 * Pow256(2);
    assert Pow256(5) == 256 * Pow256(4) && Pow256(6) == 256 * Pow256(5) && Pow256(7) == 256 * Pow256(6);
  }

  // ---------------------------------------------------------------- stream writers

  /** uint16(n), as binary.Write emits it. */
  function U16(n: int): (r: bytes) ensures |r| == 2 { BigEndian(n % TWO_16, 2) }

  /** uint32(n), as PutUint32 emits it. */
  function U32(n: int): (r: bytes) ensures |r| == 4 { BigEndian(n % TWO_32, 4) }

  /** uint64(n), two's complement, as PutUint64 emits it. */
  function U64(n: int): (r: bytes) ensures |r| == 8 { BigEndian(n % TWO_64, 8) }

  function PutLen16(b: bytes, rest: bytes): bytes { U16(|b|) + (b + rest) }
  function PutLen32(b: bytes, rest: bytes): bytes { U32(|b|) + (b + rest) }
  function PutInt64(v: int, rest: bytes): bytes { U64(v) + rest }
  function PutInt32(v: int, rest: bytes): bytes { U32(v) + rest }
  function PutBool(v: bool, rest: bytes): bytes { [if v then 1 else 0] + rest }

  lemma SameWidth(x: bytes, y: bytes, r: bytes, s: bytes)
    requires |x| == |y| && x + r == y + s
    ensures x == y && r == s
  {
    assert x == (x + r)[..|x|] && y == (y + s)[..|y|];
    assert r == (x + r)[|x|..] && s == (y + s)[|y|..];
  }

  lemma U16Injective(a: int, b: int)
    requires U16(a) == U16(b)
    ensures a % TWO_16 == b % TWO_16
  {
    Widths();
    BigEndianInjective(a % TWO_16, b % TWO_16, 2);
  }

  lemma U32Injective(a: int, b: int)
    requires U32(a) == U32(b)
    ensures a % TWO_32 == b % TWO_32
  {
    Widths();
    BigEndianInjective(a % TWO_32, b % TWO_32, 4);
  }

  lemma U16RoundTrip(n: nat)
    requires n < TWO_16
    ensures FromBigEndian(U16(n)) == n
  {
    Widths();
    assert n % TWO_16 == n;
    BigEndianRoundTrip(n % TWO_16, 2);
  }

  lemma U32RoundTrip(n: nat)
    requires n < TWO_32
    ensures FromBigEndian(U32(n)) == n
  {
    Widths();
    assert n % TWO_32 == n;
    BigEndianRoundTrip(n % TWO_32, 4);
  }

  lemma PutLen16Injective(a: bytes, b: bytes, r: bytes, s: bytes)
    requires |a| < TWO_16 && |b| < TWO_16
    requires PutLen16(a, r) == PutLen16(b, s)
    ensures a == b && r == s
  {
    SameWidth(U16(|a|), U16(|b|), a + r, b + s);
    U16Injective(|a|, |b|);
    SameWidth(a, b, r, s);
  }

  lemma PutLen32Injective(a: bytes, b: bytes, r: bytes, s: bytes)
    requires |a| < TWO_32 && |b| < TWO_32
    requires PutLen32(a, r) == PutLen32(b, s)
    ensures a == b && r == s
  {
    SameWidth(U32(|a|), U32(|b|), a + r, b + s);
    U32Injective(|a|, |b|);
    SameWidth(a, b, r, s);
  }

  lemma WrapCongruent(v: int, w: int)
    requires v % TWO_64 == w % TWO_64
    ensures Wrap64(v) == Wrap64(w)
  {
    var k := v / TWO_64 - w / TWO_64;
    assert v == w + k * TWO_64;
    ModShift(w + TWO_63, k);
  }

  lemma PutInt64Injective(v: int, w: int, r: bytes, s: bytes)
    requires PutInt64(v, r) == PutInt64(w, s)
    ensures Wrap64(v) == Wrap64(w) && r == s
  {
    SameWidth(U64(v), U64(w), r, s);
    Widths();
    BigEndianInjective(v % TWO_64, w % TWO_64, 8);
    WrapCongruent(v, w);
  }

  lemma PutInt32Injective(v: int32, w: int32, r: bytes, s: bytes)
    requires PutInt32(v, r) == PutInt32(w, s)
    ensures v == w && r == s
  {
    SameWidth(U32(v), U32(w), r, s);
    U32Injective(v, w);
  }

  lemma PutCountInjective(v: int, w: int, r: bytes, s: bytes)
    requires 0 <= v < TWO_32 && 0 <= w < TWO_32
    requires U32(v) + r == U32(w) + s
    ensures v == w && r == s
  {
    SameWidth(U32(v), U32(w), r, s);
    U32Injective(v, w);
  }

  lemma PutBoolInjective(v: bool, w: bool, r: bytes, s: bytes)
    requires PutBool(v, r) == PutBool(w, s)
    ensures v == w && r == s
  {
    SameWidth([if v then 1 else 0], [if w then 1 else 0], r, s);
    assert [if v then 1 else 0][0] == [if w then 1 else 0][0];
  }

  /** Only the low 64 bits of an int64 write matter. */
  lemma U64Wraps(v: int)
    ensures U64(Wrap64(v)) == U64(v)
  {
    var k := (v - Wrap64(v)) / TWO_64;
    assert v == Wrap64(v) + k * TWO_64;
    ModShift(Wrap64(v), k);
  }

  // ---------------------------------------------------------------- hexadecimal text

  function HexDigit(n: int): (c: byte)
    requires 0 <= n < 16
  {
    if n < 10 then 48 + n else 87 + n
  }

  /** fromHexChar of encoding/hex: both letter cases, None for anything else. */
  function FromHexDigit(c: byte): (n: Option<int>)
    ensures n.Some? ==> 0 <= n.value < 16
  {
    if 48 <= c <= 57 then Some(c - 48)
    else if 97 <= c <= 102 then Some(c - 87)
    else if 65 <= c <= 70 then Some(c - 55)
    else None
  }

  /** fmt's %x and hex.EncodeToString: two lower-case digits a byte. */
  function Hex(b: bytes): (r: bytes)
    ensures |r| == 2 * |b|
  {
    if b == [] then [] else [HexDigit(b[0] / 16), HexDigit(b[0] % 16)] + Hex(b[1..])
  }

  /** hex.DecodeString: None on an odd length or a character that is no digit. */
  function Unhex(s: bytes): (r: Option<bytes>)
  {
    if s == [] then Some([])
    else if |s| == 1 then None
    else
      match (FromHexDigit(s[0]), FromHexDigit(s[1]), Unhex(s[2..]))
      case (Some(a), Some(b), Some(t)) => Some([16 * a + b] + t)
      case _ => None
  }

  lemma {:induction false} HexRoundTrip(b: bytes)
    ensures Unhex(Hex(b)) == Some(b)
  {
    if b != [] {
      HexRoundTrip(b[1..]);
      assert Hex(b)[2..] == Hex(b[1..]);
      assert b == [16 * (b[0] / 16) + b[0] % 16] + b[1..];
    }
  }

  lemma HexInjective(a: bytes, b: bytes)
    requires Hex(a) == Hex(b)
    ensures a == b
  {
    HexRoundTrip(a);
    HexRoundTrip(b);
  }

  // ---------------------------------------------------------------- lexicographic order

  /** Go's `<` on strings. */
  predicate Less(a: bytes, b: bytes)
  {
    b != [] && (a == [] || a[0] < b[0] || (a[0] == b[0] && Less(a[1..], b[1..])))
  }

  lemma {:induction false} LessTrichotomy(a: bytes, b: bytes)
    ensures Less(a, b) || a == b || Less(b, a)
    ensures !(Less(a, b) && Less(b, a))
    ensures !Less(a, a)
  {
    if a != [] {
      LessTrichotomy(a[1..], if b == [] then [] else b[1..]);
      if b != [] && a[0] == b[0] && a[1..] == b[1..] {
        assert a == [a[0]] + a[1..] == b;
      }
    }
  }

  lemma {:induction false} LessTransitive(a: bytes, b: bytes, c: bytes)
    requires Less(a, b) && Less(b, c)
    ensures Less(a, c)
  {
    if a != [] && a[0] == b[0] && b[0] == c[0] {
      LessTransitive(a[1..], b[1..], c[1..]);
    }
  }

  /** a and b agree up to k, where a has ended or is smaller. */
  predicate SmallerAt(a: bytes, b: bytes, k: nat)
  {
    k <= |a| && k < |b| && (forall i :: 0 <= i < k ==> a[i] == b[i]) && (k == |a| || a[k] < b[k])
  }

  /** a comes before b in a dictionary: it is a proper beginning of b, or smaller at the first difference. */
  ghost predicate Precedes(a: bytes, b: bytes)
  {
    exists k: nat :: SmallerAt(a, b, k)
  }

  lemma PrecedesTail(a: bytes, b: bytes)
    requires a != [] && b != [] && a[0] == b[0]
    ensures Precedes(a, b) <==> Precedes(a[1..], b[1..])
  {
    var x, y := a[1..], b[1..];
    if k: nat :| SmallerAt(x, y, k) {
      forall i | 0 <= i < k + 1
        ensures a[i] == b[i]
      {
        assert i > 0 ==> x[i - 1] == y[i - 1];
      }
      assert SmallerAt(a, b, k + 1);
    }
    if k: nat :| SmallerAt(a, b, k) {
      assert k > 0;
      assert SmallerAt(x, y, k - 1);
    }
  }

  lemma {:induction false} LessIsLexicographic(a: bytes, b: bytes)
    ensures Less(a, b) <==> Precedes(a, b)
  {
    if a != [] && b != [] {
      LessIsLexicographic(a[1..], b[1..]);
      if a[0] == b[0] {
        PrecedesTail(a, b);
      } else {
        assert SmallerAt(a, b, 0) <==> a[0] < b[0];
        assert forall k: nat :: SmallerAt(a, b, k) ==> k == 0;
      }
    } else if b != [] {
      assert SmallerAt(a, b, 0);
    }
  }
}
