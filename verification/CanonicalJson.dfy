/** `canonicalJson` (src/object_url.ts) and the `JSON.parse` it is read back with (RFC 8259). */
module CanonicalJson {
  import opened Wrappers
  import opened JsText
  import opened Utf8
  import opened PercentCodec

  // An object is a map: its key order, which `Object.keys(...).sort()` discards, is not part of the value.
  // A number is known by the text `JSON.stringify` gives it, so converting a literal to a double and printing
  // it again is one abstract rule; a literal too large for a double reads as an infinity, which prints `null`.

  datatype Number = Finite(text: Text) | Infinite

  datatype Json =
    | Null
    | Bool(b: bool)
    | Num(n: Number)
    | Str(s: Text)
    | Arr(items: seq<Json>)
    | Obj(members: map<Text, Json>)

  /** What `JSON.parse` makes of a number literal; None when it is not one. */
  type NumberRule = Text -> Option<Number>

  predicate NumberUnit(u: int) { IsDigit(u) || u in {0x2B, 0x2D, 0x2E, 0x45, 0x65} } // + - . E e

  predicate IsCanonicalNumber(num: NumberRule, t: Text) { num(t) == Some(Finite(t)) }

  /** Literals are spelled with number units, and the printed form of a number reads back as that number. */
  ghost predicate Lawful(num: NumberRule) {
    && (forall t: Text | num(t).Some? ::
          t != [] && (IsDigit(t[0]) || t[0] == 0x2D) && forall i | 0 <= i < |t| :: NumberUnit(t[i]))
    && (forall t: Text | num(t).Some? && num(t).value.Finite? :: IsCanonicalNumber(num, num(t).value.text))
  }

  /** A value whose numbers are doubles. */
  ghost predicate Valid(num: NumberRule, v: Json) {
    match v
    case Num(Finite(t)) => IsCanonicalNumber(num, t)
    case Arr(items) => forall i | 0 <= i < |items| :: Valid(num, items[i])
    case Obj(m) => forall k | k in m :: Valid(num, m[k])
    case _ => true
  }

  /** The JSON value a JavaScript value stands for: an infinity is written as `null`. */
  function Norm(v: Json): Json {
    match v
    case Num(Infinite) => Null
    case Arr(items) => Arr(seq(|items|, i requires 0 <= i < |items| => Norm(items[i])))
    case Obj(m) => Obj(map k | k in m :: Norm(m[k]))
    case _ => v
  }

  // ---- JSON.stringify of a string

  const QUOTATION: Unit := 0x22
  const BACKSLASH: Unit := 0x5C
  const COMMA: Unit := 0x2C
  const COLON: Unit := 0x3A
  const OPEN_BRACKET: Unit := 0x5B
  const CLOSE_BRACKET: Unit := 0x5D
  const OPEN_BRACE: Unit := 0x7B
  const CLOSE_BRACE: Unit := 0x7D

  function LowerHex(n: int): (u: Unit)
    requires 0 <= n < 16
  {
    if n < 10 then 0x30 + n else 0x61 + n - 10
  }

  function UnicodeEscape(u: Unit): Text {
    [BACKSLASH, 0x75, LowerHex(u / 4096), LowerHex(u / 256 % 16), LowerHex(u / 16 % 16), LowerHex(u % 16)]
  }

  /** The escapes with a letter of their own. */
  function ShortEscape(u: Unit): Option<Unit> {
    if u == 0x08 then Some(0x62) else if u == 0x09 then Some(0x74) else if u == 0x0A then Some(0x6E)
    else if u == 0x0C then Some(0x66) else if u == 0x0D then Some(0x72)
    else if u == QUOTATION || u == BACKSLASH then Some(u)
    else None
  }

  function QuoteUnit(u: Unit): (t: Text)
    ensures t != []
  {
    if ShortEscape(u).Some? then [BACKSLASH, ShortEscape(u).value]
    else if u < 0x20 || IsHigh(u) || IsLow(u) then UnicodeEscape(u)
    else [u]
  }

  /** Surrogate pairs stay as they are; a lone surrogate is escaped. */
  function QuoteUnits(s: Text): Text {
    if s == [] then []
    else if IsHigh(s[0]) && |s| > 1 && IsLow(s[1]) then [s[0], s[1]] + QuoteUnits(s[2..])
    else QuoteUnit(s[0]) + QuoteUnits(s[1..])
  }

  function Quote(s: Text): Text { [QUOTATION] + QuoteUnits(s) + [QUOTATION] }

  // ---- canonicalJson

  function CanonicalText(v: Json): Text
    decreases v, 1
  {
    match v
    case Null => Lit("null")
    case Bool(b) => if b then Lit("true") else Lit("false")
    case Num(Finite(t)) => t
    case Num(Infinite) => Lit("null")
    case Str(s) => Quote(s)
    case Arr(items) => [OPEN_BRACKET] + PrintItems(items) + [CLOSE_BRACKET]
    case Obj(m) => SortedKeysFacts(m.Keys); [OPEN_BRACE] + PrintMembers(v, SortedKeys(m.Keys)) + [CLOSE_BRACE]
  }

  function PrintItems(items: seq<Json>): Text
    decreases items
  {
    if items == [] then []
    else if |items| == 1 then CanonicalText(items[0])
    else CanonicalText(items[0]) + [COMMA] + PrintItems(items[1..])
  }

  function PrintMember(v: Json, k: Text): Text
    requires v.Obj? && k in v.members
    decreases v, 0, 0, 0
  {
    Quote(k) + [COLON] + CanonicalText(v.members[k])
  }

  function PrintMembers(v: Json, keys: seq<Text>): Text
    requires v.Obj? && forall k | k in keys :: k in v.members
    decreases v, 0, 1, |keys|
  {
    if keys == [] then []
    else if |keys| == 1 then PrintMember(v, keys[0])
    else PrintMember(v, keys[0]) + [COMMA] + PrintMembers(v, keys[1..])
  }

  // ---- JSON.parse

  predicate IsJsonSpace(u: int) { u in {0x20, 0x09, 0x0A, 0x0D} }

  function SkipSpace(t: Text): (r: Text)
    ensures |r| <= |t| && (r != [] ==> !IsJsonSpace(r[0]))
    ensures t != [] && !IsJsonSpace(t[0]) ==> r == t
  {
    if t != [] && IsJsonSpace(t[0]) then SkipSpace(t[1..]) else t
  }

  function ReadEscape(t: Text): (r: Option<(Unit, nat)>)
    ensures r.Some? ==> 2 <= r.value.1 <= |t|
  {
    if |t| < 2 then None
    else if t[1] == 0x75 then
      if |t| < 6 then None
      else
        var a :- HexValue(t[2]);
        var b :- HexValue(t[3]);
        var c :- HexValue(t[4]);
        var d :- HexValue(t[5]);
        Some((((a * 16 + b) * 16 + c) * 16 + d, 6))
    else if t[1] == 0x62 then Some((0x08, 2)) else if t[1] == 0x74 then Some((0x09, 2))
    else if t[1] == 0x6E then Some((0x0A, 2)) else if t[1] == 0x66 then Some((0x0C, 2))
    else if t[1] == 0x72 then Some((0x0D, 2))
    else if t[1] == QUOTATION || t[1] == BACKSLASH || t[1] == 0x2F then Some((t[1], 2))
    else None
  }

  /** The rest of a string literal, after its opening quotation mark. */
  function ReadString(t: Text): (r: Option<(Text, Text)>)
    ensures r.Some? ==> |r.value.1| < |t|
    decreases |t|
  {
    if t == [] || t[0] < 0x20 then None
    else if t[0] == QUOTATION then Some(([], t[1..]))
    else if t[0] == BACKSLASH then
      var (u, n) :- ReadEscape(t);
      var (s, rest) :- ReadString(t[n..]);
      Some(([u] + s, rest))
    else
      var (s, rest) :- ReadString(t[1..]);
      Some(([t[0]] + s, rest))
  }

  function NumberRun(t: Text): (n: nat)
    ensures n <= |t| && forall i | 0 <= i < n :: NumberUnit(t[i])
    ensures n < |t| ==> !NumberUnit(t[n])
  {
    if t != [] && NumberUnit(t[0]) then 1 + NumberRun(t[1..]) else 0
  }

  function ParseValue(num: NumberRule, input: Text): (r: Option<(Json, Text)>)
    ensures r.Some? ==> |r.value.1| < |input|
    decreases |input|, 0
  {
    var t := SkipSpace(input);
    if t == [] then None
    else if t[0] == OPEN_BRACE then
      var inner := SkipSpace(t[1..]);
      if inner != [] && inner[0] == CLOSE_BRACE then Some((Obj(map[]), inner[1..]))
      else ParseMembers(num, t[1..], map[])
    else if t[0] == OPEN_BRACKET then
      var inner := SkipSpace(t[1..]);
      if inner != [] && inner[0] == CLOSE_BRACKET then Some((Arr([]), inner[1..]))
      else
        var (items, rest) :- ParseItems(num, t[1..]);
        Some((Arr(items), rest))
    else if t[0] == QUOTATION then
      var (s, rest) :- ReadString(t[1..]);
      Some((Str(s), rest))
    else if Lit("null") <= t then Some((Null, t[4..]))
    else if Lit("true") <= t then Some((Bool(true), t[4..]))
    else if Lit("false") <= t then Some((Bool(false), t[5..]))
    else
      var n := NumberRun(t);
      if n == 0 then None
      else
        var x :- num(t[..n]);
        Some((Num(x), t[n..]))
  }

  function ParseItems(num: NumberRule, t: Text): (r: Option<(seq<Json>, Text)>)
    ensures r.Some? ==> |r.value.1| < |t|
    decreases |t|, 1
  {
    var (v, r0) :- ParseValue(num, t);
    var r := SkipSpace(r0);
    if r == [] then None
    else if r[0] == COMMA then
      var (vs, rest) :- ParseItems(num, r[1..]);
      Some(([v] + vs, rest))
    else if r[0] == CLOSE_BRACKET then Some(([v], r[1..]))
    else None
  }

  /** A repeated key takes its last value. */
  function ParseMembers(num: NumberRule, input: Text, acc: map<Text, Json>): (r: Option<(Json, Text)>)
    ensures r.Some? ==> |r.value.1| < |input|
    decreases |input|, 1
  {
    var t := SkipSpace(input);
    if t == [] || t[0] != QUOTATION then None
    else
      var (k, r0) :- ReadString(t[1..]);
      var r := SkipSpace(r0);
      if r == [] || r[0] != COLON then None
      else
        var (v, r1) :- ParseValue(num, r[1..]);
        var r2 := SkipSpace(r1);
        if r2 == [] then None
        else if r2[0] == COMMA then ParseMembers(num, r2[1..], acc[k := v])
        else if r2[0] == CLOSE_BRACE then Some((Obj(acc[k := v]), r2[1..]))
        else None
  }

  function JsonParse(num: NumberRule, t: Text): Option<Json> {
    var (v, rest) :- ParseValue(num, t);
    if SkipSpace(rest) == [] then Some(v) else None
  }

  // ---- strings read back

  lemma UnicodeReadsBack(u: Unit, rest: Text)
    ensures ReadEscape(UnicodeEscape(u) + rest) == Some((u, 6))
  {
    var q, r, s := u / 16, u / 16 / 16, u / 16 / 16 / 16;
    assert u == 16 * q + u % 16 && q == 16 * r + q % 16 && r == 16 * s + r % 16;
    assert r == u / 256 && s == u / 4096;
    var t := UnicodeEscape(u) + rest;
    HexReadsBack(s);
    HexReadsBack(r % 16);
    HexReadsBack(q % 16);
    HexReadsBack(u % 16);
    assert t[2] == LowerHex(s) && t[3] == LowerHex(r % 16) && t[4] == LowerHex(q % 16) && t[5] == LowerHex(u % 16);
  }

  lemma HexReadsBack(n: int)
    requires 0 <= n < 16
    ensures HexValue(LowerHex(n)) == Some(n)
  {}

  lemma ShortReadsBack(u: Unit, rest: Text)
    requires ShortEscape(u).Some?
    ensures ReadEscape([BACKSLASH, ShortEscape(u).value] + rest) == Some((u, 2))
  {}

  /** One unit of a string literal, escaped or not. */
  lemma UnitReadsBack(u: Unit, more: Text)
    requires ReadString(more).Some?
    ensures var r := ReadString(more).value; ReadString(QuoteUnit(u) + more) == Some(([u] + r.0, r.1))
  {
    var t := QuoteUnit(u) + more;
    assert t[|QuoteUnit(u)|..] == more;
    if ShortEscape(u).Some? {
      ShortReadsBack(u, more);
    } else if u < 0x20 || IsHigh(u) || IsLow(u) {
      UnicodeReadsBack(u, more);
    }
  }

  lemma RawReadsBack(u: Unit, more: Text)
    requires u >= 0x80 && ReadString(more).Some?
    ensures var r := ReadString(more).value; ReadString([u] + more) == Some(([u] + r.0, r.1))
  {
    assert ([u] + more)[1..] == more;
  }

  lemma Assoc(a: Text, b: Text, c: Text)
    ensures a + b + c == a + (b + c)
  {}

  lemma {:induction false} StringReadsBack(s: Text, rest: Text)
    ensures ReadString(QuoteUnits(s) + ([QUOTATION] + rest)) == Some((s, rest))
    decreases |s|
  {
    var tail := [QUOTATION] + rest;
    if s == [] {
      assert QuoteUnits(s) + tail == tail && tail[1..] == rest;
    } else if IsHigh(s[0]) && |s| > 1 && IsLow(s[1]) {
      var more := QuoteUnits(s[2..]) + tail;
      StringReadsBack(s[2..], rest);
      RawReadsBack(s[1], more);
      RawReadsBack(s[0], [s[1]] + more);
      Assoc([s[0], s[1]], QuoteUnits(s[2..]), tail);
      assert [s[0], s[1]] + more == [s[0]] + ([s[1]] + more);
      assert s == [s[0]] + ([s[1]] + s[2..]);
    } else {
      var more := QuoteUnits(s[1..]) + tail;
      StringReadsBack(s[1..], rest);
      UnitReadsBack(s[0], more);
      Assoc(QuoteUnit(s[0]), QuoteUnits(s[1..]), tail);
      assert s == [s[0]] + s[1..];
    }
  }

  // ---- values read back

  predicate Terminated(rest: Text) { rest == [] || !NumberUnit(rest[0]) }

  lemma {:induction false} NumberRunOf(t: Text, rest: Text)
    requires (forall i | 0 <= i < |t| :: NumberUnit(t[i])) && Terminated(rest)
    ensures NumberRun(t + rest) == |t|
  {
    if t != [] {
      NumberRunOf(t[1..], rest);
      assert (t + rest)[1..] == t[1..] + rest;
    } else {
      assert t + rest == rest;
    }
  }

  /** A printed value starts with neither space nor a closing bracket. */
  lemma PrintStart(num: NumberRule, v: Json)
    requires Lawful(num) && Valid(num, v)
    ensures var p := CanonicalText(v); p != [] && !IsJsonSpace(p[0]) && p[0] != CLOSE_BRACKET
  {
    if v.Num? && v.n.Finite? {
      assert num(v.n.text).Some?;
    }
  }

  lemma ArrReadsBack(num: NumberRule, body: Text)
    requires body != [] && !IsJsonSpace(body[0]) && body[0] != CLOSE_BRACKET && ParseItems(num, body).Some?
    ensures var r := ParseItems(num, body).value;
            ParseValue(num, [OPEN_BRACKET] + body) == Some((Arr(r.0), r.1))
  {
    assert ([OPEN_BRACKET] + body)[1..] == body;
  }

  lemma ObjReadsBack(num: NumberRule, body: Text)
    requires body != [] && body[0] == QUOTATION
    ensures ParseValue(num, [OPEN_BRACE] + body) == ParseMembers(num, body, map[])
  {
    assert ([OPEN_BRACE] + body)[1..] == body;
  }

  lemma EmptyReadsBack(num: NumberRule, rest: Text)
    ensures ParseValue(num, [OPEN_BRACKET, CLOSE_BRACKET] + rest) == Some((Arr([]), rest))
    ensures ParseValue(num, [OPEN_BRACE, CLOSE_BRACE] + rest) == Some((Obj(map[]), rest))
  {
    var t := [OPEN_BRACKET, CLOSE_BRACKET] + rest;
    assert t[1..] == [CLOSE_BRACKET] + rest && t[1..][1..] == rest;
    var u := [OPEN_BRACE, CLOSE_BRACE] + rest;
    assert u[1..] == [CLOSE_BRACE] + rest && u[1..][1..] == rest;
  }

  lemma StringValueReadsBack(num: NumberRule, s: Text, rest: Text)
    ensures ParseValue(num, Quote(s) + rest) == Some((Str(s), rest))
  {
    StringReadsBack(s, rest);
    assert (Quote(s) + rest)[1..] == QuoteUnits(s) + ([QUOTATION] + rest);
  }

  lemma WordReadsBack(num: NumberRule, rest: Text)
    ensures ParseValue(num, Lit("null") + rest) == Some((Null, rest))
    ensures ParseValue(num, Lit("true") + rest) == Some((Bool(true), rest))
    ensures ParseValue(num, Lit("false") + rest) == Some((Bool(false), rest))
  {
    assert (Lit("null") + rest)[4..] == rest;
    assert (Lit("true") + rest)[4..] == rest;
    assert (Lit("false") + rest)[5..] == rest;
  }

  lemma Bracketed(open: Text, body: Text, close: Text, rest: Text)
    ensures open + body + close + rest == open + (body + (close + rest))
  {}

  lemma OverlayNorm(v: Json)
    requires v.Obj?
    ensures (SortedKeysFacts(v.members.Keys); Overlay(v, SortedKeys(v.members.Keys), map[])) == Norm(v).members
  {
    SortedKeysFacts(v.members.Keys);
    OverlayAll(v, SortedKeys(v.members.Keys), map[]);
  }

  lemma {:induction false} ParsePrint(num: NumberRule, v: Json, rest: Text)
    requires Lawful(num) && Valid(num, v) && Terminated(rest)
    ensures ParseValue(num, CanonicalText(v) + rest) == Some((Norm(v), rest))
    decreases v, 1
  {
    match v {
      case Null => WordReadsBack(num, rest);
      case Bool(b) => WordReadsBack(num, rest);
      case Num(Infinite) => WordReadsBack(num, rest);
      case Num(Finite(x)) => ParsePrintNumber(num, x, rest);
      case Str(s) => StringValueReadsBack(num, s, rest);
      case Arr(items) => ParsePrintArr(num, v, rest);
      case Obj(m) => ParsePrintObj(num, v, rest);
    }
  }

  lemma {:induction false} ParsePrintArr(num: NumberRule, v: Json, rest: Text)
    requires Lawful(num) && Valid(num, v) && v.Arr?
    ensures ParseValue(num, CanonicalText(v) + rest) == Some((Norm(v), rest))
    decreases v, 0, 1
  {
    var items := v.items;
    assert NormItems(items) == Norm(v).items;
    if items == [] {
      EmptyReadsBack(num, rest);
      assert CanonicalText(v) == [OPEN_BRACKET, CLOSE_BRACKET];
    } else {
      var body := PrintItems(items) + ([CLOSE_BRACKET] + rest);
      PrintStart(num, items[0]);
      assert body[0] == CanonicalText(items[0])[0];
      ParsePrintItems(num, items, rest);
      ArrReadsBack(num, body);
      Bracketed([OPEN_BRACKET], PrintItems(items), [CLOSE_BRACKET], rest);
    }
  }

  lemma PrintObjText(v: Json, rest: Text)
    requires v.Obj?
    ensures forall k | k in SortedKeys(v.members.Keys) :: k in v.members
    ensures CanonicalText(v) + rest
              == [OPEN_BRACE] + (PrintMembers(v, SortedKeys(v.members.Keys)) + ([CLOSE_BRACE] + rest))
  {
    SortedKeysFacts(v.members.Keys);
    Bracketed([OPEN_BRACE], PrintMembers(v, SortedKeys(v.members.Keys)), [CLOSE_BRACE], rest);
  }

  lemma EmptyObj(v: Json)
    requires v.Obj? && SortedKeys(v.members.Keys) == []
    ensures Norm(v) == Obj(map[])
  {
    SortedKeysFacts(v.members.Keys);
    assert v.members.Keys == {};
    assert v.members == map[];
  }

  lemma {:induction false} ParsePrintObj(num: NumberRule, v: Json, rest: Text)
    requires Lawful(num) && Valid(num, v) && v.Obj?
    ensures ParseValue(num, CanonicalText(v) + rest) == Some((Norm(v), rest))
    decreases v, 0, 1
  {
    var keys := SortedKeys(v.members.Keys);
    PrintObjText(v, rest);
    if keys == [] {
      EmptyReadsBack(num, rest);
      EmptyObj(v);
      assert [OPEN_BRACE] + ([] + ([CLOSE_BRACE] + rest)) == [OPEN_BRACE, CLOSE_BRACE] + rest;
    } else {
      var body := PrintMembers(v, keys) + ([CLOSE_BRACE] + rest);
      MembersStart(v, keys);
      ParsePrintMembers(num, v, keys, map[], rest);
      ObjReadsBack(num, body);
      OverlayNorm(v);
    }
  }

  lemma MembersStart(v: Json, keys: seq<Text>)
    requires v.Obj? && keys != [] && forall k | k in keys :: k in v.members
    ensures PrintMembers(v, keys) != [] && PrintMembers(v, keys)[0] == QUOTATION
  {}

  lemma ParsePrintNumber(num: NumberRule, x: Text, rest: Text)
    requires Lawful(num) && IsCanonicalNumber(num, x) && Terminated(rest)
    ensures ParseValue(num, x + rest) == Some((Num(Finite(x)), rest))
  {
    var t := x + rest;
    assert num(x).Some?;
    NumberRunOf(x, rest);
    assert t[0] == x[0] && SkipSpace(t) == t;
    assert t[..|x|] == x && t[|x|..] == rest;
  }

  function NormItems(items: seq<Json>): seq<Json> {
    seq(|items|, i requires 0 <= i < |items| => Norm(items[i]))
  }

  lemma ItemStep(num: NumberRule, p: Text, after: Text, v: Json)
    requires ParseValue(num, p + after) == Some((v, after)) && after != []
    ensures after[0] == CLOSE_BRACKET ==> ParseItems(num, p + after) == Some(([v], after[1..]))
    ensures after[0] == COMMA && ParseItems(num, after[1..]).Some? ==>
              var r := ParseItems(num, after[1..]).value;
              ParseItems(num, p + after) == Some(([v] + r.0, r.1))
  {}

  lemma NormItemsCons(items: seq<Json>)
    requires items != []
    ensures NormItems(items) == [Norm(items[0])] + NormItems(items[1..])
    ensures |items| == 1 ==> NormItems(items) == [Norm(items[0])]
  {}

  lemma {:induction false} ParsePrintItems(num: NumberRule, items: seq<Json>, rest: Text)
    requires Lawful(num) && items != [] && forall i | 0 <= i < |items| :: Valid(num, items[i])
    ensures ParseItems(num, PrintItems(items) + ([CLOSE_BRACKET] + rest)) == Some((NormItems(items), rest))
    decreases items, 0
  {
    var p := CanonicalText(items[0]);
    NormItemsCons(items);
    if |items| == 1 {
      var after := [CLOSE_BRACKET] + rest;
      ParsePrint(num, items[0], after);
      ItemStep(num, p, after, Norm(items[0]));
      assert after[1..] == rest;
    } else {
      var more := PrintItems(items[1..]) + ([CLOSE_BRACKET] + rest);
      var after := [COMMA] + more;
      ParsePrint(num, items[0], after);
      Bracketed(p, [COMMA], PrintItems(items[1..]), [CLOSE_BRACKET] + rest);
      ParsePrintItems(num, items[1..], rest);
      assert after[1..] == more;
      ItemStep(num, p, after, Norm(items[0]));
    }
  }

  /** `acc` with the members named by `keys` added in that order. */
  function Overlay(v: Json, keys: seq<Text>, acc: map<Text, Json>): map<Text, Json>
    requires v.Obj? && forall k | k in keys :: k in v.members
  {
    if keys == [] then acc else Overlay(v, keys[1..], acc[keys[0] := Norm(v.members[keys[0]])])
  }

  lemma {:induction false} OverlayAll(v: Json, keys: seq<Text>, acc: map<Text, Json>)
    requires v.Obj? && forall k | k in keys :: k in v.members
    ensures var o := Overlay(v, keys, acc);
            && (forall k :: k in o <==> k in acc || k in keys)
            && (forall k | k in o :: o[k] == if k in keys then Norm(v.members[k]) else acc[k])
    decreases |keys|
  {
    if keys != [] {
      OverlayAll(v, keys[1..], acc[keys[0] := Norm(v.members[keys[0]])]);
      assert forall k :: k in keys <==> k == keys[0] || k in keys[1..];
    }
  }

  lemma MemberStep(num: NumberRule, k: Text, p: Text, after: Text, v: Json, acc: map<Text, Json>)
    requires ParseValue(num, p + after) == Some((v, after)) && after != []
    ensures after[0] == CLOSE_BRACE ==>
              ParseMembers(num, Quote(k) + [COLON] + p + after, acc) == Some((Obj(acc[k := v]), after[1..]))
    ensures after[0] == COMMA ==>
              ParseMembers(num, Quote(k) + [COLON] + p + after, acc) == ParseMembers(num, after[1..], acc[k := v])
  {
    var tail := [COLON] + (p + after);
    var t := Quote(k) + [COLON] + p + after;
    MemberText(k, p, after);
    StringReadsBack(k, tail);
    assert tail[1..] == p + after;
  }

  lemma MemberText(k: Text, p: Text, after: Text)
    ensures var t := Quote(k) + [COLON] + p + after;
            t[0] == QUOTATION && t[1..] == QuoteUnits(k) + ([QUOTATION] + ([COLON] + (p + after)))
  {}

  lemma {:induction false} ParsePrintMembers(num: NumberRule, v: Json, keys: seq<Text>, acc: map<Text, Json>,
      rest: Text)
    requires Lawful(num) && Valid(num, v) && v.Obj? && keys != [] && forall k | k in keys :: k in v.members
    ensures ParseMembers(num, PrintMembers(v, keys) + ([CLOSE_BRACE] + rest), acc)
         == Some((Obj(Overlay(v, keys, acc)), rest))
    decreases v, 0, 0, |keys|
  {
    var k := keys[0];
    var p, n := CanonicalText(v.members[k]), Norm(v.members[k]);
    if |keys| == 1 {
      var after := [CLOSE_BRACE] + rest;
      ParsePrint(num, v.members[k], after);
      MemberStep(num, k, p, after, n, acc);
      assert after[1..] == rest && keys[1..] == [];
    } else {
      var more := PrintMembers(v, keys[1..]) + ([CLOSE_BRACE] + rest);
      var after := [COMMA] + more;
      ParsePrint(num, v.members[k], after);
      Bracketed(PrintMember(v, k), [COMMA], PrintMembers(v, keys[1..]), [CLOSE_BRACE] + rest);
      MemberStep(num, k, p, after, n, acc);
      assert after[1..] == more;
      ParsePrintMembers(num, v, keys[1..], acc[k := n], rest);
    }
  }

  // ---- what canonicalJson is for

  /** `JSON.parse(canonicalJson(v))` is the JSON value of `v`. */
  lemma CanonicalReadsBack(num: NumberRule, v: Json)
    requires Lawful(num) && Valid(num, v)
    ensures JsonParse(num, CanonicalText(v)) == Some(Norm(v))
  {
    ParsePrint(num, v, []);
    assert CanonicalText(v) + [] == CanonicalText(v);
  }

  lemma {:induction false} PrintNorm(v: Json)
    ensures CanonicalText(Norm(v)) == CanonicalText(v)
    decreases v, 1
  {
    match v {
      case Arr(items) =>
        PrintNormItems(items);
        assert NormItems(items) == Norm(v).items;
      case Obj(m) =>
        assert Norm(v).members.Keys == m.Keys;
        SortedKeysFacts(m.Keys);
        PrintNormMembers(v, SortedKeys(m.Keys));
      case _ =>
    }
  }

  lemma {:induction false} PrintNormItems(items: seq<Json>)
    ensures PrintItems(NormItems(items)) == PrintItems(items)
    decreases items, 0
  {
    if items != [] {
      PrintNorm(items[0]);
      PrintNormItems(items[1..]);
      assert NormItems(items)[1..] == NormItems(items[1..]);
    }
  }

  lemma {:induction false} PrintNormMembers(v: Json, keys: seq<Text>)
    requires v.Obj? && forall k | k in keys :: k in v.members
    ensures PrintMembers(Norm(v), keys) == PrintMembers(v, keys)
    decreases v, 0, 0, |keys|
  {
    if keys != [] {
      PrintNorm(v.members[keys[0]]);
      PrintNormMembers(v, keys[1..]);
    }
  }

  /** Two values have one canonical text exactly when they are the same JSON value. */
  lemma CanonicalIffEqual(num: NumberRule, v: Json, w: Json)
    requires Lawful(num) && Valid(num, v) && Valid(num, w)
    ensures CanonicalText(v) == CanonicalText(w) <==> Norm(v) == Norm(w)
  {
    CanonicalReadsBack(num, v);
    CanonicalReadsBack(num, w);
    PrintNorm(v);
    PrintNorm(w);
  }

  // ---- what JSON.parse can return

  lemma {:induction false} ParsedValid(num: NumberRule, t: Text)
    requires Lawful(num) && ParseValue(num, t).Some?
    ensures Valid(num, ParseValue(num, t).value.0)
    decreases |t|, 0
  {
    var s := SkipSpace(t);
    if s[0] == OPEN_BRACE {
      var inner := SkipSpace(s[1..]);
      if inner != [] && inner[0] == CLOSE_BRACE {
      } else {
        ParsedMembersValid(num, s[1..], map[]);
      }
    } else if s[0] == OPEN_BRACKET {
      var inner := SkipSpace(s[1..]);
      if inner != [] && inner[0] == CLOSE_BRACKET {
      } else {
        ParsedItemsValid(num, s[1..]);
      }
    }
  }

  lemma {:induction false} ParsedItemsValid(num: NumberRule, t: Text)
    requires Lawful(num) && ParseItems(num, t).Some?
    ensures forall v | v in ParseItems(num, t).value.0 :: Valid(num, v)
    decreases |t|, 1
  {
    ParsedValid(num, t);
    var r := SkipSpace(ParseValue(num, t).value.1);
    if r[0] == COMMA {
      ParsedItemsValid(num, r[1..]);
    }
  }

  lemma {:induction false} ParsedMembersValid(num: NumberRule, t: Text, acc: map<Text, Json>)
    requires Lawful(num) && ParseMembers(num, t, acc).Some? && forall k | k in acc :: Valid(num, acc[k])
    ensures Valid(num, ParseMembers(num, t, acc).value.0)
    decreases |t|, 1
  {
    var s := SkipSpace(t);
    var (k, r0) := ReadString(s[1..]).value;
    var r := SkipSpace(r0);
    ParsedValid(num, r[1..]);
    var (v, r1) := ParseValue(num, r[1..]).value;
    var r2 := SkipSpace(r1);
    if r2[0] == COMMA {
      ParsedMembersValid(num, r2[1..], acc[k := v]);
    }
  }

  /** Canonicalizing is idempotent through `JSON.parse`, for any text it accepts. */
  lemma CanonicalFixpoint(num: NumberRule, t: Text)
    requires Lawful(num) && JsonParse(num, t).Some?
    ensures var c := CanonicalText(JsonParse(num, t).value);
            JsonParse(num, c).Some? && CanonicalText(JsonParse(num, c).value) == c
  {
    ParsedValid(num, t);
    var v := JsonParse(num, t).value;
    CanonicalReadsBack(num, v);
    PrintNorm(v);
  }
}
