/** Text, keys and tokens of the name library (src/namelib.ts). */
module Namelib {
  import opened Wrappers
  import opened JsText
  import opened Utf8
  import opened Base64

  // The UTF-8 conversions used where the platform has none, PEM, `did:dev` keys and signed JWTs.

  // ---- UTF-8 without the platform

  /** `value.codePointAt(i)` */
  function CodePointAt(t: Text, i: nat): Point
    requires i < |t|
  {
    if IsHigh(t[i]) && i + 1 < |t| && IsLow(t[i + 1])
        then 0x10000 + ((t[i] as int) - 0xD800) * 0x400 + ((t[i + 1] as int) - 0xDC00)
    else t[i]
  }

  /** The bytes of one code point, appended. */
  method AppendPoint(bytes: Bytes, code: Point) returns (r: Bytes)
    ensures r == bytes + EncodePoint(code)
  {
    PointBytes(code);
    hide EncodePoint;
    if code < 0x80 {
      r := bytes + [code];
    } else if code < 0x800 {
      r := bytes + [0xC0 + code / 64, 0x80 + code % 64];
    } else if code < 0x10000 {
      r := bytes + [0xE0 + code / 4096, 0x80 + code / 64 % 64, 0x80 + code % 64];
    } else {
      r := bytes + [0xF0 + code / 262144, 0x80 + code / 4096 % 64, 0x80 + code / 64 % 64, 0x80 + code % 64];
    }
  }

  /** `utf8Encode`: a lone surrogate is encoded as it is. */
  method FallbackEncode(value: Text) returns (bytes: Bytes)
    ensures bytes == Encode(CodePoints(value))
  {
    hide Encode, EncodePoint, CodePoints;
    bytes := [];
    var i := 0;
    assert value[0..] == value;
    while i < |value|
      invariant i <= |value| && Encode(CodePoints(value)) == bytes + Encode(CodePoints(value[i..]))
    {
      var code := CodePointAt(value, i);
      CodePointsStep(value[i..]);
      EncodeStep(code, CodePoints(value[if code > 0xFFFF then i + 2 else i + 1..]));
      assert value[i..][1..] == value[i + 1..];
      if code > 0xFFFF {
        assert value[i..][2..] == value[i + 2..];
        i := i + 1;
      }
      ghost var before, rest := bytes, Encode(CodePoints(value[i + 1..]));
      bytes := AppendPoint(bytes, code);
      assert before + (EncodePoint(code) + rest) == (before + EncodePoint(code)) + rest;
      i := i + 1;
    }
    NothingEncoded();
    assert value[i..] == [];
  }

  lemma NothingEncoded()
    ensures Encode(CodePoints([])) == []
  {}

  lemma CodePointsStep(t: Text)
    requires t != []
    ensures CodePointAt(t, 0) > 0xFFFF ==> |t| > 1
    ensures CodePoints(t) == [CodePointAt(t, 0)] + CodePoints(t[if CodePointAt(t, 0) > 0xFFFF then 2 else 1..])
  {
    var p := CodePointAt(t, 0);
    assert p > 0xFFFF <==> IsHigh(t[0]) && |t| > 1 && IsLow(t[1]);
    CodePointsUnfold(t);
    hide CodePoints;
  }

  lemma CodePointsUnfold(t: Text)
    requires t != []
    ensures IsHigh(t[0]) && |t| > 1 && IsLow(t[1]) ==>
              CodePoints(t)
                  == [0x10000 + ((t[0] as int) - 0xD800) * 0x400 + ((t[1] as int) - 0xDC00)] + CodePoints(t[2..])
    ensures !(IsHigh(t[0]) && |t| > 1 && IsLow(t[1])) ==> CodePoints(t) == [t[0]] + CodePoints(t[1..])
  {}

  lemma EncodeStep(p: Point, ps: seq<Point>)
    ensures Encode([p] + ps) == EncodePoint(p) + Encode(ps)
  {
    assert ([p] + ps)[1..] == ps;
  }

  lemma PointBytes(p: Point)
    ensures p < 0x80 ==> EncodePoint(p) == [p]
    ensures 0x80 <= p < 0x800 ==> EncodePoint(p) == [0xC0 + p / 64, 0x80 + p % 64]
    ensures 0x800 <= p < 0x10000 ==> EncodePoint(p) == [0xE0 + p / 4096, 0x80 + p / 64 % 64, 0x80 + p % 64]
    ensures 0x10000 <= p ==>
              EncodePoint(p) == [0xF0 + p / 262144, 0x80 + p / 4096 % 64, 0x80 + p / 64 % 64, 0x80 + p % 64]
  {
    assert p / 64 / 64 == p / 4096 && p / 64 / 64 / 64 == p / 262144;
  }

  /** `bytes[k] & 0x3f`, 0 past the end. */
  function Six(b: Bytes, k: nat): nat { if k < |b| then b[k] % 64 else 0 }

  /** The number at the front of `b` and how many bytes it is taken to have. */
  function LenientPoint(b: Bytes): (int, nat)
    requires b != []
  {
    var b0 := b[0] as int;
    if b0 < 0x80 then (b0, 1)
    else if b0 < 0xE0 then (b0 % 32 * 64 + Six(b, 1), 2)
    else if b0 < 0xF0 then (b0 % 16 * 4096 + Six(b, 1) * 64 + Six(b, 2), 3)
    else (b0 % 8 * 262144 + Six(b, 1) * 4096 + Six(b, 2) * 64 + Six(b, 3), 4)
  }

  function From(b: Bytes, i: nat): Bytes { if i <= |b| then b[i..] else [] }

  /** `utf8Decode` without a TextDecoder; None is the RangeError of `fromCodePoint`. */
  function LenientDecode(b: Bytes): Option<Text>
    decreases |b|
  {
    if b == [] then Some([])
    else
      var (p, n) := LenientPoint(b);
      if p > 0x10FFFF then None
      else
        var rest :- LenientDecode(From(b, n));
        Some(UnitsOf(p) + rest)
  }

  function Prepend(t: Text, r: Option<Text>): Option<Text> { if r.None? then None else Some(t + r.value) }

  method FallbackDecode(bytes: Bytes) returns (result: Option<Text>)
    ensures result == LenientDecode(bytes)
  {
    hide LenientDecode;
    var text: Text := [];
    var i := 0;
    assert From(bytes, 0) == bytes;
    LenientEnds();
    if LenientDecode(bytes).Some? {
      assert [] + LenientDecode(bytes).value == LenientDecode(bytes).value;
    }
    while i < |bytes|
      invariant 0 <= i && LenientDecode(bytes) == Prepend(text, LenientDecode(From(bytes, i)))
      decreases |bytes| - i
    {
      LenientStep(bytes, i, text);
      var b0 := bytes[i] as int;
      if b0 < 0x80 {
        text := text + [b0];
        i := i + 1;
      } else if b0 < 0xE0 {
        text := text + [b0 % 32 * 64 + Six(bytes, i + 1)];
        i := i + 2;
      } else if b0 < 0xF0 {
        text := text + [b0 % 16 * 4096 + Six(bytes, i + 1) * 64 + Six(bytes, i + 2)];
        i := i + 3;
      } else {
        var code := b0 % 8 * 262144 + Six(bytes, i + 1) * 4096 + Six(bytes, i + 2) * 64 + Six(bytes, i + 3);
        if code > 0x10FFFF {
          return None;
        }
        text := text + UnitsOf(code);
        i := i + 4;
      }
    }
    assert From(bytes, i) == [];
    assert text + [] == text;
    return Some(text);
  }

  lemma LenientEnds()
    ensures LenientDecode([]) == Some([])
  {}

  lemma LenientStep(bytes: Bytes, i: nat, text: Text)
    requires i < |bytes|
    ensures var (p, n) := LenientPoint(bytes[i..]);
            && n == (if bytes[i] < 0x80 then 1 else if bytes[i] < 0xE0 then 2 else if bytes[i] < 0xF0 then 3 else 4)
            && (bytes[i] < 0xF0 ==> p < 0x10000)
            && (if p > 0x10FFFF then LenientDecode(From(bytes, i)) == None
                else
                  Prepend(text, LenientDecode(From(bytes, i)))
                      == Prepend(text + UnitsOf(p), LenientDecode(From(bytes, i + n))))
    ensures forall k: nat :: Six(bytes[i..], k) == Six(bytes, i + k)
  {
    var b := bytes[i..];
    var (p, n) := LenientPoint(b);
    assert From(b, n) == From(bytes, i + n);
    if p <= 0x10FFFF && LenientDecode(From(b, n)).Some? {
      var rest := LenientDecode(From(b, n)).value;
      assert text + (UnitsOf(p) + rest) == (text + UnitsOf(p)) + rest;
    }
  }

  lemma SixAt(b: Bytes)
    ensures forall k: nat | k < |b| :: Six(b, k) == b[k] % 64
  {}

  lemma LenientPointEncoded(p: Point, rest: Bytes)
    ensures LenientPoint(EncodePoint(p) + rest) == (p, |EncodePoint(p)|)
  {
    PointBytes(p);
    hide EncodePoint, Six, LenientPoint;
    var b := EncodePoint(p) + rest;
    SixAt(b);
    if p < 0x800 {
      LenientShort(p, b);
    } else if p < 0x10000 {
      LenientThree(p, b);
    } else {
      LenientFour(p, b);
    }
  }

  lemma LenientShort(p: Point, b: Bytes)
    requires p < 0x800 && b != []
    requires if p < 0x80 then b[0] == p else |b| > 1 && b[0] == 0xC0 + p / 64 && Six(b, 1) == (0x80 + p % 64) % 64
    ensures LenientPoint(b) == (p, if p < 0x80 then 1 else 2)
  {
    hide Six;
    SixBitDigits(p);
    assert p >= 0x80 ==> (0xC0 + p / 64) % 32 == p / 64;
  }

  lemma LenientThree(p: Point, b: Bytes)
    requires 0x800 <= p < 0x10000 && |b| > 2 && b[0] == 0xE0 + p / 4096
    requires Six(b, 1) == (0x80 + p / 64 % 64) % 64 && Six(b, 2) == (0x80 + p % 64) % 64
    ensures LenientPoint(b) == (p, 3)
  {
    hide Six;
    SixBitDigits(p);
    assert (0xE0 + p / 4096) % 16 == p / 4096;
  }

  lemma LenientFour(p: Point, b: Bytes)
    requires 0x10000 <= p && |b| > 3 && b[0] == 0xF0 + p / 262144
    requires Six(b, 1) == (0x80 + p / 4096 % 64) % 64
    requires Six(b, 2) == (0x80 + p / 64 % 64) % 64 && Six(b, 3) == (0x80 + p % 64) % 64
    ensures LenientPoint(b) == (p, 4)
  {
    hide Six;
    SixBitDigits(p);
    assert (0xF0 + p / 262144) % 8 == p / 262144;
  }

  lemma SixBitDigits(p: int)
    requires 0 <= p
    ensures p == p / 4096 * 4096 + p / 64 % 64 * 64 + p % 64
    ensures p == p / 262144 * 262144 + p / 4096 % 64 * 4096 + p / 64 % 64 * 64 + p % 64
    ensures (0x80 + p % 64) % 64 == p % 64 && (0x80 + p / 64 % 64) % 64 == p / 64 % 64
    ensures (0x80 + p / 4096 % 64) % 64 == p / 4096 % 64
  {
    assert p / 64 / 64 == p / 4096 && p / 4096 / 64 == p / 262144;
  }

  lemma {:induction false} LenientEncoded(ps: seq<Point>)
    ensures LenientDecode(Encode(ps)) == Some(Units(ps))
  {
    hide EncodePoint, LenientPoint;
    if ps != [] {
      var p, rest := ps[0], Encode(ps[1..]);
      LenientPointEncoded(p, rest);
      LenientEncoded(ps[1..]);
      assert From(EncodePoint(p) + rest, |EncodePoint(p)|) == rest;
    }
  }

  /** Every string comes back, one with lone surrogates too. */
  lemma FallbackRoundTrip(t: Text)
    ensures LenientDecode(Encode(CodePoints(t))) == Some(t)
  {
    LenientEncoded(CodePoints(t));
    UnitsCodePoints(t);
  }

  // ---- did:dev keys

  const DEV: Text := [0x64, 0x65, 0x76]

  /** `getEd25519AuthKey` */
  function AuthKey(didMethod: Text, id: Text): Option<Bytes> {
    if didMethod != DEV then None
    else
      var key := DecodeUrl(id);
      if |key| == 32 && EncodeUrl(key) == id then Some(key) else None
  }

  /** An id is accepted exactly when it is the encoding of 32 bytes, and gives those bytes. */
  lemma AuthKeyIff(id: Text, key: Bytes)
    ensures AuthKey(DEV, id) == Some(key) <==> |key| == 32 && id == EncodeUrl(key)
  {
    UrlRoundTrip(key);
  }

  /** What such an id looks like: 43 characters of the url alphabet, the last with its two unused bits zero. */
  lemma AuthKeyShape(id: Text)
    ensures AuthKey(DEV, id).Some? <==>
            |id| == 43 && (forall i | 0 <= i < 43 :: IsUrlChar(id[i])) && UrlValue(id[42]) % 4 == 0
  {
    hide EncodeUrl, DecodeUrl, UrlValue, IsUrlChar;
    UrlCanonicalIff(id);
    if forall i | 0 <= i < |id| :: IsUrlChar(id[i]) {
      DecodeUrlIs(id);
      FromSextetsLength(seq(|id|, i requires 0 <= i < |id| => UrlValue(id[i])));
    }
    if AuthKey(DEV, id).Some? {
      EncodeUrlIs(DecodeUrl(id));
      SextetsLength(DecodeUrl(id));
    }
  }

  // ---- PEM

  const DASHES: Text := [MINUS, MINUS, MINUS, MINUS, MINUS]
  const BEGIN: Text := [0x42, 0x45, 0x47, 0x49, 0x4E, 0x20]
  const END: Text := [0x45, 0x4E, 0x44, 0x20]
  const PRIVATE_KEY: Text := [0x50, 0x52, 0x49, 0x56, 0x41, 0x54, 0x45, 0x20, 0x4B, 0x45, 0x59]
  const LF: Unit := 0x0A

  const PEM_HEADER: Text := DASHES + BEGIN + PRIVATE_KEY + DASHES
  const PEM_FOOTER: Text := DASHES + END + PRIVATE_KEY + DASHES

  /** How many characters come before the first dash. */
  function Run(t: Text): (n: nat)
    ensures n <= |t| && MINUS !in t[..n] && (n < |t| ==> t[n] == MINUS)
  {
    if t == [] || t[0] == MINUS then 0
    else
      assert t == [t[0]] + t[1..];
      1 + Run(t[1..])
  }

  /** The length of `-----<word>[^-]+-----` at the front of `t`, or 0. */
  function MarkerAt(word: Text, t: Text): (n: nat)
    ensures n <= |t|
  {
    var front := DASHES + word;
    if !(front <= t) then 0
    else
      var name := Run(t[|front|..]);
      var at := |front| + name;
      if name == 0 || !(DASHES <= t[at..]) then 0 else at + 5
  }

  /** `t.replace(/-----<word>[^-]+-----/g, '')` */
  function RemoveMarkers(word: Text, t: Text): Text
    decreases |t|
  {
    if t == [] then []
    else if MarkerAt(word, t) > 0 then RemoveMarkers(word, t[MarkerAt(word, t)..])
    else [t[0]] + RemoveMarkers(word, t[1..])
  }

  /** `t.replace(/\s+/g, '')` */
  function RemoveSpaces(t: Text): Text {
    if t == [] then [] else (if IsSpace(t[0]) then [] else [t[0]]) + RemoveSpaces(t[1..])
  }

  function PemToDer(pem: Text): Bytes { FromBase64(RemoveSpaces(RemoveMarkers(END, RemoveMarkers(BEGIN, pem)))) }

  /** The text in lines of 64 characters. */
  function Lines64(t: Text): seq<Text>
    decreases |t|
  {
    if t == [] then [] else if |t| <= 64 then [t] else [t[..64]] + Lines64(t[64..])
  }

  function DerToPkcs8Pem(der: Bytes): Text {
    PEM_HEADER + ([LF] + Join(Lines64(ToBase64(der)), LF) + [LF]) + PEM_FOOTER + [LF]
  }

  /** The loop of `derToPkcs8Pem` that cuts the lines. */
  method CutLines(base64: Text) returns (lines: seq<Text>)
    ensures lines == Lines64(base64)
  {
    lines := [];
    var i := 0;
    assert base64[0..] == base64;
    while i < |base64|
      invariant 0 <= i && Lines64(base64) == lines + (if i < |base64| then Lines64(base64[i..]) else [])
    {
      ghost var rest := base64[i..];
      var end := if i + 64 < |base64| then i + 64 else |base64|;
      assert base64[i..end] == if |rest| <= 64 then rest else rest[..64];
      assert i + 64 < |base64| ==> rest[64..] == base64[i + 64..];
      lines := lines + [base64[i..end]];
      i := i + 64;
    }
  }

  lemma {:induction false} CleanWithoutSpaces(t: Text)
    ensures Clean(RemoveSpaces(t)) == Clean(t)
  {
    if t != [] {
      CleanWithoutSpaces(t[1..]);
      CleanAppend(if IsSpace(t[0]) then [] else [t[0]], RemoveSpaces(t[1..]));
      CleanOne(t[0]);
    }
  }

  lemma CleanOne(u: Unit)
    ensures Clean([u]) == (if IsBase64(u) then [u] else []) && Clean([]) == []
  {
    assert [u][1..] == [];
  }

  lemma {:induction false} CleanLines(t: Text)
    ensures Clean(Join(Lines64(t), LF)) == Clean(t)
    decreases |t|
  {
    hide Clean;
    if |t| > 64 {
      var first, rest := t[..64], Lines64(t[64..]);
      CleanLines(t[64..]);
      assert Lines64(t)[1..] == rest && rest != [];
      assert Join(Lines64(t), LF) == first + [LF] + Join(rest, LF);
      hide Lines64, Join;
      CleanAppend(first + [LF], Join(rest, LF));
      CleanAppend(first, [LF]);
      CleanOne(LF);
      CleanAppend(first, t[64..]);
      assert first + t[64..] == t;
    }
  }

  lemma {:induction false} LinesNoDash(t: Text)
    requires MINUS !in t
    ensures MINUS !in Join(Lines64(t), LF)
    decreases |t|
  {
    if |t| > 64 {
      LinesNoDash(t[64..]);
      assert Lines64(t)[1..] == Lines64(t[64..]);
    }
  }

  lemma {:induction false} RunExact(name: Text, rest: Text)
    requires MINUS !in name && rest != [] && rest[0] == MINUS
    ensures Run(name + rest) == |name|
  {
    var t := name + rest;
    var n := Run(t);
    assert t[|name|] == MINUS && forall i | 0 <= i < |name| :: t[i] == name[i] && t[i] != MINUS;
  }

  lemma RemoveMarker(word: Text, name: Text, rest: Text)
    requires name != [] && MINUS !in name
    ensures RemoveMarkers(word, DASHES + word + name + DASHES + rest) == RemoveMarkers(word, rest)
  {
    var t := DASHES + word + name + DASHES + rest;
    var front := DASHES + word;
    assert t == front + (name + (DASHES + rest));
    assert t[|front|..] == name + (DASHES + rest);
    RunExact(name, DASHES + rest);
    assert t[|front| + |name|..] == DASHES + rest;
    assert MarkerAt(word, t) == |front| + |name| + 5;
    assert t[|front| + |name| + 5..] == rest;
  }

  lemma KeptUnit(word: Text, u: Unit, t: Text)
    requires u != MINUS
    ensures RemoveMarkers(word, [u] + t) == [u] + RemoveMarkers(word, t)
  {
    assert (DASHES + word)[0] == MINUS;
    assert ([u] + t)[1..] == t;
  }

  lemma {:induction false} KeepNoDash(word: Text, a: Text, rest: Text)
    requires MINUS !in a
    ensures RemoveMarkers(word, a + rest) == a + RemoveMarkers(word, rest)
  {
    hide RemoveMarkers;
    if a == [] {
      assert a + rest == rest;
      assert [] + RemoveMarkers(word, rest) == RemoveMarkers(word, rest);
    } else {
      KeepNoDash(word, a[1..], rest);
      KeptUnit(word, a[0], a[1..] + rest);
      assert a + rest == [a[0]] + (a[1..] + rest);
      assert [a[0]] + (a[1..] + RemoveMarkers(word, rest)) == a + RemoveMarkers(word, rest);
    }
  }

  /** A text without the word's first letter has no such marker. */
  lemma {:induction false} KeepWithout(word: Text, t: Text)
    requires word != [] && word[0] !in t
    ensures RemoveMarkers(word, t) == t
  {
    if t != [] {
      KeepWithout(word, t[1..]);
      assert (DASHES + word)[5] == word[0];
    }
  }

  lemma CharsNoDash(b: Bytes)
    ensures MINUS !in ToBase64(b)
  {}

  lemma BodySurvives(body: Text)
    requires MINUS !in body
    ensures RemoveMarkers(END, RemoveMarkers(BEGIN, PEM_HEADER + body + PEM_FOOTER + [LF])) == body + [LF]
  {
    hide RemoveMarkers, MarkerAt;
    var tail := PEM_FOOTER + [LF];
    assert PEM_HEADER + body + PEM_FOOTER + [LF] == DASHES + BEGIN + PRIVATE_KEY + DASHES + (body + tail);
    RemoveMarker(BEGIN, PRIVATE_KEY, body + tail);
    KeepNoDash(BEGIN, body, tail);
    assert BEGIN[0] !in tail;
    KeepWithout(BEGIN, tail);
    KeepNoDash(END, body, tail);
    assert tail == DASHES + END + PRIVATE_KEY + DASHES + [LF];
    RemoveMarker(END, PRIVATE_KEY, [LF]);
    KeepWithout(END, [LF]);
  }

  /** Writing bytes as PEM and reading them back gives the bytes. */
  lemma PemRoundTrip(der: Bytes)
    ensures PemToDer(DerToPkcs8Pem(der)) == der
  {
    hide RemoveMarkers, MarkerAt, Clean, ToBase64, FromSextets, Join, Lines64, RemoveSpaces;
    var text := ToBase64(der);
    var body := [LF] + Join(Lines64(text), LF) + [LF];
    CharsNoDash(der);
    LinesNoDash(text);
    BodySurvives(body);
    CleanWithoutSpaces(body + [LF]);
    CleanAppend(body, [LF]);
    CleanAppend([LF] + Join(Lines64(text), LF), [LF]);
    CleanAppend([LF], Join(Lines64(text), LF));
    CleanOne(LF);
    CleanLines(text);
    assert Clean(RemoveSpaces(body + [LF])) == Clean(text);
    Base64RoundTrip(der);
  }

  // ---- JWT

  const DOT: Unit := 0x2E

  /** The text conversion in use: the platform's, or the fallback. */
  datatype Codec = Codec(encode: Text -> Bytes, decode: Bytes -> Option<Text>)

  predicate RoundTrips(c: Codec, t: Text) { c.decode(c.encode(t)) == Some(t) }

  function SigningInput(c: Codec, header: Text, payload: Text): Text {
    EncodeUrl(c.encode(header)) + [DOT] + EncodeUrl(c.encode(payload))
  }

  /** `signJwtEdDSA`, of the JSON texts of header and payload. */
  function SignJwt(c: Codec, sign: Bytes -> Bytes, header: Text, payload: Text): Text {
    var input := SigningInput(c, header, payload);
    input + [DOT] + EncodeUrl(sign(c.encode(input)))
  }

  /** `decodeJwtClaimWithoutVerify` and, with 0 for 1, `decodeJwtHeaderWithoutVerify`, up to JSON.parse. */
  function JwtPart(c: Codec, jwt: Text, part: nat): Option<Text>
    requires part < 2
  {
    var parts := Split(jwt, DOT);
    if |parts| != 3 then None else c.decode(DecodeUrl(parts[part]))
  }

  /** `verifyJwtEdDSA`, up to JSON.parse of the claims; `isEdDSA` reads the header's `alg`. */
  function VerifyJwt(c: Codec, isEdDSA: Text -> bool, verify: (Bytes, Bytes) -> bool, jwt: Text): Option<Text> {
    var parts := Split(jwt, DOT);
    if |parts| != 3 then None
    else
      var header :- c.decode(DecodeUrl(parts[0]));
      if !isEdDSA(header) || !verify(c.encode(parts[0] + [DOT] + parts[1]), DecodeUrl(parts[2])) then None
      else c.decode(DecodeUrl(parts[1]))
  }

  lemma NoDot(b: Bytes)
    ensures DOT !in EncodeUrl(b)
  {
    EncodeUrlIs(b);
  }

  /** A token splits into its three parts, whatever they hold. */
  lemma JwtSplits(c: Codec, sign: Bytes -> Bytes, header: Text, payload: Text)
    ensures Split(SignJwt(c, sign, header, payload), DOT) ==
            [EncodeUrl(c.encode(header)), EncodeUrl(c.encode(payload)),
                EncodeUrl(sign(c.encode(SigningInput(c, header, payload))))]
  {
    hide EncodeUrl, Split;
    var a, b := EncodeUrl(c.encode(header)), EncodeUrl(c.encode(payload));
    var s := EncodeUrl(sign(c.encode(SigningInput(c, header, payload))));
    NoDot(c.encode(header));
    NoDot(c.encode(payload));
    NoDot(sign(c.encode(SigningInput(c, header, payload))));
    var parts := [a, b, s];
    SplitJoin(parts, DOT);
    assert parts[1..] == [b, s] && [b, s][1..] == [s];
    assert Join([s], DOT) == s;
    assert Join([b, s], DOT) == b + [DOT] + s;
    assert Join(parts, DOT) == a + [DOT] + (b + [DOT] + s);
    assert a + [DOT] + b + [DOT] + s == a + [DOT] + (b + [DOT] + s);
  }

  /** A signed token decodes to its header and payload, and is verified whenever `verify` accepts what `sign` makes. */
  lemma JwtRoundTrip(c: Codec, sign: Bytes -> Bytes, isEdDSA: Text -> bool, verify: (Bytes, Bytes) -> bool,
      header: Text, payload: Text)
    requires RoundTrips(c, header) && RoundTrips(c, payload)
    ensures var jwt := SignJwt(c, sign, header, payload);
            var input := c.encode(SigningInput(c, header, payload));
            && JwtPart(c, jwt, 0) == Some(header) && JwtPart(c, jwt, 1) == Some(payload)
            && VerifyJwt(c, isEdDSA, verify, jwt) == if isEdDSA(header) && verify(input, sign(input))
                   then Some(payload) else None
  {
    hide EncodeUrl, DecodeUrl, Split, SignJwt;
    var input := c.encode(SigningInput(c, header, payload));
    JwtSplits(c, sign, header, payload);
    UrlRoundTrip(c.encode(header));
    UrlRoundTrip(c.encode(payload));
    UrlRoundTrip(sign(input));
  }

  /** The codec where the platform has none. */
  const FALLBACK_CODEC := Codec(s => Encode(CodePoints(s)), LenientDecode)

  /** With it every token decodes to its header and payload, whatever texts they are. */
  lemma FallbackJwtRoundTrip(sign: Bytes -> Bytes, isEdDSA: Text -> bool, verify: (Bytes, Bytes) -> bool, header: Text,
      payload: Text)
    ensures var jwt := SignJwt(FALLBACK_CODEC, sign, header, payload);
            var input := FALLBACK_CODEC.encode(SigningInput(FALLBACK_CODEC, header, payload));
            && JwtPart(FALLBACK_CODEC, jwt, 0) == Some(header) && JwtPart(FALLBACK_CODEC, jwt, 1) == Some(payload)
            && VerifyJwt(FALLBACK_CODEC, isEdDSA, verify, jwt) == if isEdDSA(header) && verify(input, sign(input))
                   then Some(payload) else None
  {
    FallbackRoundTrip(header);
    FallbackRoundTrip(payload);
    JwtRoundTrip(FALLBACK_CODEC, sign, isEdDSA, verify, header, payload);
  }

  /** The platform's decoder drops a leading U+FEFF, so texts beginning with one do not come back. */
  lemma PlatformCodec(decode: Bytes -> Option<Text>, t: Text)
    requires forall b :: TextDecode(b).Some? ==> decode(b) == TextDecode(b)
    requires WellFormed(t)
    ensures RoundTrips(Codec(TextEncode, decode), t) <==> !StartsWithBom(t)
  {
    DecodeTextEncode(t);
    if StartsWithBom(t) {
      assert |t[1..]| < |t|;
    }
  }
}
