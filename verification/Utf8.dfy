/**
 * The platform's `TextEncoder` and fatal `TextDecoder` (RFC 3629 section 3; a leading U+FEFF is dropped
 * on decode), and the code points of a UTF-16 string.
 */
module Utf8 {
  import opened Wrappers
  import opened JsText

  type Point = x: int | 0 <= x <= 0x10FFFF

  predicate IsHigh(u: int) { 0xD800 <= u < 0xDC00 }
  predicate IsLow(u: int) { 0xDC00 <= u < 0xE000 }
  predicate IsScalar(p: int) { 0 <= p < 0xD800 || 0xE000 <= p <= 0x10FFFF }
  predicate AllScalar(ps: seq<Point>) { forall i | 0 <= i < |ps| :: IsScalar(ps[i]) }

  // ---- UTF-16

  /** What `codePointAt` yields along a string; a lone surrogate is its own code point. */
  function CodePoints(t: Text): seq<Point> {
    if t == [] then []
    else if IsHigh(t[0]) && |t| > 1 && IsLow(t[1]) then
      [0x10000 + (t[0] - 0xD800) * 0x400 + (t[1] - 0xDC00)] + CodePoints(t[2..])
    else [t[0]] + CodePoints(t[1..])
  }

  /** `String.fromCodePoint`. */
  function UnitsOf(p: Point): (t: Text)
    ensures 1 <= |t| <= 2
  {
    if p < 0x10000 then [p] else [0xD800 + (p - 0x10000) / 0x400, 0xDC00 + (p - 0x10000) % 0x400]
  }

  function Units(ps: seq<Point>): Text {
    if ps == [] then [] else UnitsOf(ps[0]) + Units(ps[1..])
  }

  predicate WellFormed(t: Text) { AllScalar(CodePoints(t)) }

  lemma {:induction false} UnitsCodePoints(t: Text)
    ensures Units(CodePoints(t)) == t
  {
    if t == [] {
    } else if IsHigh(t[0]) && |t| > 1 && IsLow(t[1]) {
      UnitsCodePoints(t[2..]);
      assert t == [t[0], t[1]] + t[2..];
    } else {
      UnitsCodePoints(t[1..]);
      assert t == [t[0]] + t[1..];
    }
  }

  lemma {:induction false} CodePointsUnits(ps: seq<Point>)
    requires AllScalar(ps)
    ensures CodePoints(Units(ps)) == ps
    ensures WellFormed(Units(ps))
  {
    if ps != [] {
      CodePointsUnits(ps[1..]);
      PointThen(ps[0], Units(ps[1..]));
      hide CodePoints;
      assert ps == [ps[0]] + ps[1..];
    }
  }

  lemma PointThen(p: Point, rest: Text)
    requires IsScalar(p)
    ensures CodePoints(UnitsOf(p) + rest) == [p] + CodePoints(rest)
  {
    var t := UnitsOf(p) + rest;
    if p < 0x10000 {
      assert t[1..] == rest;
    } else {
      assert t[2..] == rest;
    }
  }

  lemma {:induction false} AsciiCodePoints(t: Text)
    requires IsAscii(t)
    ensures CodePoints(t) == t && WellFormed(t)
  {
    if t != [] { AsciiCodePoints(t[1..]); }
  }

  // ---- UTF-8

  function EncodePoint(p: Point): (b: Bytes)
    ensures 1 <= |b| <= 4
  {
    var q, r, s := p / 64, p / 64 / 64, p / 64 / 64 / 64;
    if p < 0x80 then [p]
    else if p < 0x800 then [0xC0 + q, 0x80 + p % 64]
    else if p < 0x10000 then [0xE0 + r, 0x80 + q % 64, 0x80 + p % 64]
    else [0xF0 + s, 0x80 + r % 64, 0x80 + q % 64, 0x80 + p % 64]
  }

  function Encode(ps: seq<Point>): Bytes {
    if ps == [] then [] else EncodePoint(ps[0]) + Encode(ps[1..])
  }

  predicate IsCont(b: int) { 0x80 <= b < 0xC0 }

  /** `b & 0x3f` of a continuation byte. */
  function Low6(b: Byte): int
    requires IsCont(b)
  {
    b - 0x80
  }

  /** One well-formed sequence at the front of `b`: shortest form, no surrogate, at most U+10FFFF. */
  function DecodePoint(b: Bytes): (r: Option<(Point, nat)>)
    requires b != []
    ensures r.Some? ==> 1 <= r.value.1 <= |b| && IsScalar(r.value.0)
  {
    var b0 := b[0] as int;
    if b0 < 0x80 then Some((b0, 1))
    else if 0xC2 <= b0 < 0xE0 && |b| >= 2 && IsCont(b[1]) then
      Some(((b0 - 0xC0) * 64 + Low6(b[1]), 2))
    else if 0xE0 <= b0 < 0xF0 && |b| >= 3 && IsCont(b[1]) && IsCont(b[2]) then
      var p := ((b0 - 0xE0) * 64 + Low6(b[1])) * 64 + Low6(b[2]);
      if p >= 0x800 && IsScalar(p) then Some((p, 3)) else None
    else if 0xF0 <= b0 < 0xF5 && |b| >= 4 && IsCont(b[1]) && IsCont(b[2]) && IsCont(b[3]) then
      var p := (((b0 - 0xF0) * 64 + Low6(b[1])) * 64 + Low6(b[2])) * 64 + Low6(b[3]);
      if 0x10000 <= p <= 0x10FFFF then Some((p, 4)) else None
    else None
  }

  function Decode(b: Bytes): (r: Option<seq<Point>>)
    ensures r.Some? ==> AllScalar(r.value)
    decreases |b|
  {
    if b == [] then Some([])
    else
      var (p, n) :- DecodePoint(b);
      var ps :- Decode(b[n..]);
      Some([p] + ps)
  }

  lemma DecodeEncodePoint(p: Point, rest: Bytes)
    requires IsScalar(p)
    ensures DecodePoint(EncodePoint(p) + rest) == Some((p, |EncodePoint(p)|))
  {}

  lemma Shift6(x: int, y: int)
    requires 0 <= y < 64
    ensures (x * 64 + y) / 64 == x && (x * 64 + y) % 64 == y
  {}

  lemma EncodeDecodePoint(b: Bytes)
    requires b != [] && DecodePoint(b).Some?
    ensures var (p, n) := DecodePoint(b).value; EncodePoint(p) == b[..n]
  {
    var (p, n) := DecodePoint(b).value;
    if n == 2 {
      Shift6(b[0] as int - 0xC0, Low6(b[1]));
    } else if n == 3 {
      var x := (b[0] as int - 0xE0) * 64 + Low6(b[1]);
      Shift6(b[0] as int - 0xE0, Low6(b[1]));
      Shift6(x, Low6(b[2]));
      assert p / 64 == x;
    } else if n == 4 {
      var x := (b[0] as int - 0xF0) * 64 + Low6(b[1]);
      var y := x * 64 + Low6(b[2]);
      Shift6(b[0] as int - 0xF0, Low6(b[1]));
      Shift6(x, Low6(b[2]));
      Shift6(y, Low6(b[3]));
      assert p / 64 == y && y / 64 == x;
    }
  }

  lemma {:induction false} DecodeEncode(ps: seq<Point>)
    requires AllScalar(ps)
    ensures Decode(Encode(ps)) == Some(ps)
  {
    hide EncodePoint, DecodePoint;
    if ps != [] {
      var n := |EncodePoint(ps[0])|;
      DecodeEncodePoint(ps[0], Encode(ps[1..]));
      DecodeEncode(ps[1..]);
      assert Encode(ps)[n..] == Encode(ps[1..]);
      assert ps == [ps[0]] + ps[1..];
    }
  }

  lemma {:induction false} EncodeDecode(b: Bytes)
    requires Decode(b).Some?
    ensures Encode(Decode(b).value) == b
    decreases |b|
  {
    if b != [] {
      EncodeDecodePoint(b);
      var n := DecodePoint(b).value.1;
      EncodeDecode(b[n..]);
      assert Decode(b).value[1..] == Decode(b[n..]).value;
      assert b == b[..n] + b[n..];
    }
  }

  // ---- TextEncoder, TextDecoder('utf-8', { fatal: true })

  /** Lone surrogates become U+FFFD. */
  function Scalars(ps: seq<Point>): (r: seq<Point>)
    ensures |r| == |ps| && AllScalar(r)
    ensures AllScalar(ps) ==> r == ps
  {
    seq(|ps|, i requires 0 <= i < |ps| => if IsScalar(ps[i]) then ps[i] else 0xFFFD)
  }

  function TextEncode(t: Text): Bytes { Encode(Scalars(CodePoints(t))) }

  const BOM_BYTES: Bytes := [0xEF, 0xBB, 0xBF]
  const BOM: Unit := 0xFEFF

  predicate StartsWithBom(t: Text) { t != [] && t[0] == BOM }

  function TextDecode(b: Bytes): (r: Option<Text>)
  {
    var ps :- Decode(if BOM_BYTES <= b then b[3..] else b);
    Some(Units(ps))
  }

  lemma {:induction false} AsciiEncode(t: Text)
    requires IsAscii(t)
    ensures TextEncode(t) == t
  {
    AsciiCodePoints(t);
    AsciiEncodePoints(t);
  }

  lemma {:induction false} AsciiEncodePoints(t: seq<Point>)
    requires forall i | 0 <= i < |t| :: t[i] < 0x80
    ensures Encode(t) == t
  {
    if t != [] { AsciiEncodePoints(t[1..]); }
  }

  lemma DecodedWellFormed(b: Bytes)
    requires TextDecode(b).Some?
    ensures WellFormed(TextDecode(b).value)
  {
    CodePointsUnits(Decode(if BOM_BYTES <= b then b[3..] else b).value);
  }

  /** A string with U+FFFD for every lone surrogate: what is left of it after encoding. */
  function Repaired(t: Text): Text { Units(Scalars(CodePoints(t))) }

  lemma RepairedEncoding(t: Text)
    ensures WellFormed(Repaired(t)) && TextEncode(Repaired(t)) == TextEncode(t)
    ensures Repaired(t) == t <==> WellFormed(t)
  {
    CodePointsUnits(Scalars(CodePoints(t)));
    UnitsCodePoints(t);
  }

  /** Encoding tells strings apart exactly up to lone surrogates. */
  lemma SameEncodingIff(s: Text, t: Text)
    ensures TextEncode(s) == TextEncode(t) <==> Repaired(s) == Repaired(t)
  {
    RepairedEncoding(s);
    RepairedEncoding(t);
    if TextEncode(s) == TextEncode(t) {
      DecodeEncode(Scalars(CodePoints(s)));
      DecodeEncode(Scalars(CodePoints(t)));
    }
  }

  lemma BomFront(ps: seq<Point>)
    requires ps != [] && AllScalar(ps)
    ensures BOM_BYTES <= Encode(ps) ==> ps[0] == 0xFEFF
  {
    hide EncodePoint;
    DecodeEncodePoint(ps[0], Encode(ps[1..]));
    if BOM_BYTES <= Encode(ps) {
      assert DecodePoint(Encode(ps)) == Some((0xFEFF, 3));
    }
  }

  /** The two are inverse on well-formed strings, but for one leading U+FEFF, which the decoder drops. */
  lemma DecodeTextEncode(t: Text)
    requires WellFormed(t)
    ensures TextDecode(TextEncode(t)) == Some(if StartsWithBom(t) then t[1..] else t)
    ensures StartsWithBom(t) ==> WellFormed(t[1..])
  {
    var ps := CodePoints(t);
    DecodeEncode(ps);
    UnitsCodePoints(t);
    var b := Encode(ps);
    if StartsWithBom(t) {
      assert ps[0] == 0xFEFF && EncodePoint(0xFEFF) == BOM_BYTES;
      assert b[3..] == Encode(ps[1..]);
      DecodeEncode(ps[1..]);
      assert ps[1..] == CodePoints(t[1..]);
      UnitsCodePoints(t[1..]);
    } else if ps != [] {
      BomFront(ps);
      assert Units(ps)[0] == UnitsOf(ps[0])[0];
    }
  }

  // ---- the encodings by their definition

  /**
   * The bytes are the UTF-8 form of the code point: section 3 of RFC 3629, by the marker bits of each byte and the bits
   * it carries.
   */
  predicate IsUtf8Of(b: Bytes, p: int) {
    || (|b| == 1 && b[0] == p < 0x80)
    || (|b| == 2 && 0x80 <= p < 0x800 && Mark(b[0], 32) == 6 && Mark(b[1], 64) == 2
        && p == Bits(b[0], 32) * 64 + Bits(b[1], 64))
    || (|b| == 3 && 0x800 <= p < 0x1_0000 && Mark(b[0], 16) == 14 && Mark(b[1], 64) == 2 && Mark(b[2], 64) == 2
        && p == Bits(b[0], 16) * 4096 + Bits(b[1], 64) * 64 + Bits(b[2], 64))
    || (|b| == 4 && 0x1_0000 <= p <= 0x10_FFFF
        && Mark(b[0], 8) == 30 && Mark(b[1], 64) == 2 && Mark(b[2], 64) == 2 && Mark(b[3], 64) == 2
        && p == Bits(b[0], 8) * 262144 + Bits(b[1], 64) * 4096 + Bits(b[2], 64) * 64 + Bits(b[3], 64))
  }

  function Mark(b: int, size: int): int
    requires size > 0
  {
    b / size
  }

  function Bits(b: int, size: int): int
    requires size > 0
  {
    b % size
  }

  lemma PointIs(p: Point)
    ensures IsUtf8Of(EncodePoint(p), p)
  {
    var q, r, s := p / 64, p / 64 / 64, p / 64 / 64 / 64;
    assert p == 64 * q + p % 64 && q == 64 * r + q % 64 && r == 64 * s + r % 64;
    Lead(q, 32, 6);
    Lead(r, 16, 14);
    Lead(s, 8, 30);
    Lead(p % 64, 64, 2);
    Lead(q % 64, 64, 2);
    Lead(r % 64, 64, 2);
  }

  lemma Lead(n: nat, size: nat, mark: nat)
    requires size in {8, 16, 32, 64}
    ensures n < size ==> (mark * size + n) / size == mark && (mark * size + n) % size == n
  {}

  /** There is one form of a code point. */
  lemma OneForm(a: Bytes, b: Bytes, p: int)
    requires IsUtf8Of(a, p) && IsUtf8Of(b, p)
    ensures a == b
  {
    assert |a| == |b|;
    BitsBelow(a, b);
    hide Mark, Bits;
    if |a| == 2 {
      SameByte(a[0], b[0], 32);
      SameByte(a[1], b[1], 64);
    } else if |a| == 3 {
      SameByte(a[0], b[0], 16);
      SameByte(a[1], b[1], 64);
      SameByte(a[2], b[2], 64);
    } else if |a| == 4 {
      SameByte(a[0], b[0], 8);
      SameByte(a[1], b[1], 64);
      SameByte(a[2], b[2], 64);
      SameByte(a[3], b[3], 64);
    }
  }

  lemma BitsBelow(a: Bytes, b: Bytes)
    ensures forall i, size | 0 <= i < |a| && size in {8, 16, 32, 64} :: 0 <= Bits(a[i], size) < size
    ensures forall i, size | 0 <= i < |b| && size in {8, 16, 32, 64} :: 0 <= Bits(b[i], size) < size
  {}

  lemma SameByte(a: int, b: int, size: int)
    requires size > 0 && Mark(a, size) == Mark(b, size) && Bits(a, size) == Bits(b, size)
    ensures a == b
  {
    assert a == size * (a / size) + a % size && b == size * (b / size) + b % size;
  }

  /** A code point is encoded as its UTF-8 form. */
  lemma PointIff(p: Point, b: Bytes)
    ensures EncodePoint(p) == b <==> IsUtf8Of(b, p)
  {
    PointIs(p);
    hide EncodePoint, IsUtf8Of;
    if IsUtf8Of(b, p) {
      OneForm(EncodePoint(p), b, p);
    }
  }

  /** And just that is decoded to it. */
  lemma DecodePointIff(b: Bytes, p: Point, n: nat)
    requires b != []
    ensures DecodePoint(b) == Some((p, n)) <==> IsScalar(p) && 0 < n <= |b| && IsUtf8Of(b[..n], p)
  {
    hide DecodePoint, EncodePoint, IsUtf8Of;
    if DecodePoint(b) == Some((p, n)) {
      EncodeDecodePoint(b);
      PointIff(p, b[..n]);
    }
    if IsScalar(p) && 0 < n <= |b| && IsUtf8Of(b[..n], p) {
      PointIff(p, b[..n]);
      DecodeEncodePoint(p, b[n..]);
      assert b == b[..n] + b[n..];
    }
  }

  /** What stands for a code point in a string: itself, or a surrogate pair, ten bits in each half. */
  lemma UnitsIs(p: Point, t: Text)
    ensures UnitsOf(p) == t
       <==> || (p < 0x1_0000 && t == [p])
            || (|t| == 2 && IsHigh(t[0]) && IsLow(t[1]) && p == 0x1_0000 + Bits(t[0], 1024) * 1024 + Bits(t[1], 1024))
  {}

  /** Lone surrogates, and only they, are encoded as U+FFFD. */
  lemma ScalarsIs(ps: seq<Point>, i: nat)
    requires i < |ps|
    ensures Scalars(ps)[i] == if 0xD800 <= ps[i] < 0xE000 then 0xFFFD else ps[i]
  {}
}
