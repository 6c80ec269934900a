/** Percent-encoding of URL components (src/object_url.ts; section 2.1 of RFC 3986), over UTF-8 bytes. */
module PercentCodec {
  import opened Wrappers
  import opened JsText
  import opened Utf8

  /** Which bytes `encodeWith` leaves as they are: those of a path segment, or those of a query key or value. */
  datatype Component = Segment | Query

  predicate IsUnreserved(b: int) { IsAlnum(b) || b in {0x2D, 0x2E, 0x5F, 0x7E} }

  predicate Keep(c: Component, b: int) {
    || IsUnreserved(b)
    || (match c
        case Segment => b in {0x21, 0x24, 0x26, 0x27, 0x28, 0x29, 0x2A, 0x2B, 0x2C, 0x3B, 0x3D, 0x3A,
            0x40} // !$&'()*+,;=:@
        case Query => b in {0x21, 0x24, 0x27, 0x28, 0x29, 0x2A, 0x2C, 0x3B, 0x3A, 0x40, 0x2F}) // !$'()*,;:@/
  }

  const PERCENT: Byte := 0x25

  function HexDigit(n: int): (u: Byte)
    requires 0 <= n < 16
  {
    if n < 10 then 0x30 + n else 0x41 + n - 10
  }

  function HexValue(u: int): (r: Option<int>)
    ensures r.Some? ==> 0 <= r.value < 16
  {
    if IsDigit(u) then Some(u - 0x30)
    else if 0x41 <= u <= 0x46 then Some(u - 0x41 + 10)
    else if 0x61 <= u <= 0x66 then Some(u - 0x61 + 10)
    else None
  }

  // ---- encoding

  function EncodeByte(c: Component, b: Byte): (t: Bytes)
    ensures t != []
  {
    if Keep(c, b) then [b] else [PERCENT, HexDigit(b / 16), HexDigit(b % 16)]
  }

  function EncodeBytes(c: Component, bytes: Bytes): Bytes {
    if bytes == [] then [] else EncodeByte(c, bytes[0]) + EncodeBytes(c, bytes[1..])
  }

  function Encoded(c: Component, input: Text): Text { EncodeBytes(c, TextEncode(input)) }

  lemma EncodeBytesAt(c: Component, bytes: Bytes, i: nat)
    requires i < |bytes|
    ensures EncodeBytes(c, bytes[i..]) == EncodeByte(c, bytes[i]) + EncodeBytes(c, bytes[i + 1..])
  {
    assert bytes[i..][0] == bytes[i] && bytes[i..][1..] == bytes[i + 1..];
  }

  method EncodeWith(c: Component, input: Text) returns (out: Text)
    ensures out == Encoded(c, input)
  {
    hide EncodeBytes, EncodeByte, TextEncode;
    out := [];
    var bytes := TextEncode(input);
    ghost var all := EncodeBytes(c, bytes);
    assert bytes[0..] == bytes;
    for i := 0 to |bytes|
      invariant out + EncodeBytes(c, bytes[i..]) == all
    {
      EncodeBytesAt(c, bytes, i);
      var t := EncodeByte(c, bytes[i]);
      assert out + (t + EncodeBytes(c, bytes[i + 1..])) == out + t + EncodeBytes(c, bytes[i + 1..]);
      out := out + t;
    }
    assert bytes[|bytes|..] == [];
    EncodeNothing(c);
    assert out + [] == out;
  }

  lemma EncodeNothing(c: Component)
    ensures EncodeBytes(c, []) == []
  {}

  // ---- decoding

  function EscapeAt(raw: Bytes): (r: Option<Byte>)
    requires raw != []
  {
    if |raw| < 3 then None
    else
      var hi :- HexValue(raw[1]);
      var lo :- HexValue(raw[2]);
      Some(hi * 16 + lo)
  }

  function Unescape(raw: Bytes): Option<Bytes>
    decreases |raw|
  {
    if raw == [] then Some([])
    else if raw[0] == PERCENT then
      var b :- EscapeAt(raw);
      var rest :- Unescape(raw[3..]);
      Some([b] + rest)
    else
      var rest :- Unescape(raw[1..]);
      Some([raw[0]] + rest)
  }

  /** None when `percentDecode` throws: a broken escape, or bytes that are not UTF-8. */
  function Decoded(input: Text): Option<Text> {
    var bytes :- Unescape(TextEncode(input));
    TextDecode(bytes)
  }

  function After(done: Bytes, rest: Option<Bytes>): Option<Bytes> {
    match rest
    case None => None
    case Some(b) => Some(done + b)
  }

  lemma AfterNone(rest: Option<Bytes>)
    ensures After([], rest) == rest
  {
    if rest.Some? { assert [] + rest.value == rest.value; }
  }

  lemma AfterOne(done: Bytes, b: Byte, rest: Option<Bytes>)
    ensures After(done, After([b], rest)) == After(done + [b], rest)
  {
    if rest.Some? { assert done + ([b] + rest.value) == done + [b] + rest.value; }
  }

  method PercentDecode(input: Text) returns (r: Option<Text>)
    ensures r == Decoded(input)
  {
    var raw := TextEncode(input);
    var bytes: Bytes := [];
    var i := 0;
    assert raw[0..] == raw;
    AfterNone(Unescape(raw));
    while i < |raw|
      invariant 0 <= i <= |raw|
      invariant Unescape(raw) == After(bytes, Unescape(raw[i..]))
    {
      if raw[i] == PERCENT {
        var hi := HexValue(if i + 1 < |raw| then raw[i + 1] else 0);
        var lo := HexValue(if i + 2 < |raw| then raw[i + 2] else 0);
        if hi.None? || lo.None? {
          assert EscapeAt(raw[i..]).None?;
          return None;
        }
        var b := hi.value * 16 + lo.value;
        assert EscapeAt(raw[i..]) == Some(b);
        assert raw[i..][3..] == raw[i + 3..];
        AfterOne(bytes, b, Unescape(raw[i + 3..]));
        bytes := bytes + [b];
        i := i + 3;
      } else {
        assert raw[i..][1..] == raw[i + 1..];
        AfterOne(bytes, raw[i], Unescape(raw[i + 1..]));
        bytes := bytes + [raw[i]];
        i := i + 1;
      }
    }
    assert raw[i..] == [] && bytes + [] == bytes;
    return TextDecode(bytes);
  }

  // ---- the two together

  lemma HexRoundTrip(b: Byte)
    ensures HexValue(HexDigit(b / 16)) == Some(b / 16) && HexValue(HexDigit(b % 16)) == Some(b % 16)
  {}

  lemma {:induction false} UnescapeEncode(c: Component, bytes: Bytes)
    ensures Unescape(EncodeBytes(c, bytes)) == Some(bytes)
  {
    if bytes != [] {
      UnescapeEncode(c, bytes[1..]);
      HexRoundTrip(bytes[0]);
      var t := EncodeBytes(c, bytes);
      assert t[|EncodeByte(c, bytes[0])|..] == EncodeBytes(c, bytes[1..]);
      assert bytes == [bytes[0]] + bytes[1..];
    }
  }

  lemma {:induction false} EncodeBytesUnits(c: Component, bytes: Bytes)
    ensures forall u | u in EncodeBytes(c, bytes) :: u == PERCENT || Keep(c, u)
    ensures IsAscii(EncodeBytes(c, bytes))
  {
    if bytes != [] {
      EncodeBytesUnits(c, bytes[1..]);
    }
  }

  lemma EncodedIsAscii(c: Component, t: Text)
    ensures IsAscii(Encoded(c, t))
    ensures TextEncode(Encoded(c, t)) == Encoded(c, t)
    ensures forall u | u in Encoded(c, t) :: u == PERCENT || Keep(c, u)
  {
    EncodeBytesUnits(c, TextEncode(t));
    AsciiEncode(Encoded(c, t));
  }

  /** Decoding undoes encoding, but for one leading U+FEFF. */
  lemma DecodedEncoded(c: Component, t: Text)
    requires WellFormed(t)
    ensures Decoded(Encoded(c, t)) == Some(if StartsWithBom(t) then t[1..] else t)
  {
    EncodedIsAscii(c, t);
    UnescapeEncode(c, TextEncode(t));
    DecodeTextEncode(t);
  }

  /** Encoding never maps two well-formed strings to one text. */
  lemma EncodedInjective(c: Component, s: Text, t: Text)
    requires WellFormed(s) && WellFormed(t) && Encoded(c, s) == Encoded(c, t)
    ensures s == t
  {
    UnescapeEncode(c, TextEncode(s));
    UnescapeEncode(c, TextEncode(t));
    DecodeEncode(CodePoints(s));
    DecodeEncode(CodePoints(t));
    UnitsCodePoints(s);
    UnitsCodePoints(t);
  }

  lemma EncodedEmpty(c: Component, t: Text)
    ensures Encoded(c, t) == [] <==> t == []
  {
    if t != [] {
      var ps := Scalars(CodePoints(t));
      assert ps != [] && Encode(ps) == EncodePoint(ps[0]) + Encode(ps[1..]);
    }
  }

  /** What is decoded is well-formed. */
  lemma DecodedWellFormedText(input: Text)
    requires Decoded(input).Some?
    ensures WellFormed(Decoded(input).value)
  {
    DecodedWellFormed(Unescape(TextEncode(input)).value);
  }
}
