/**
 * JSON texts by their grammar (RFC 8259), and what the canonical text of a value is (`canonicalJson`,
 * src/object_url.ts).
 */
module JsonGrammar {
  import opened Wrappers
  import opened JsText
  import opened Sorting
  import opened Utf8
  import opened PercentCodec
  import opened CanonicalJson
  import opened UrlGrammar

  // ---- the canonical text

  /** The unit is half of a surrogate pair where it stands. */
  predicate Paired(s: Text, i: nat)
    requires i < |s|
  {
    || (0xD800 <= s[i] < 0xDC00 && i + 1 < |s| && 0xDC00 <= s[i + 1] < 0xE000)
    || (0xDC00 <= s[i] < 0xE000 && i > 0 && 0xD800 <= s[i - 1] < 0xDC00)
  }

  /** Four lower-case hexadecimal digits. */
  predicate LowerHexOf(u: int, n: int) { if n < 10 then u == '0' as int + n else u == 'a' as int + (n - 10) }

  predicate FourOf(t: Text, n: int) {
    && |t| == 4 && LowerHexOf(t[0], n / 4096) && LowerHexOf(t[1], n / 256 % 16) && LowerHexOf(t[2], n / 16 % 16)
    && LowerHexOf(t[3], n % 16)
  }

  /**
   * How a string's unit is written: the two-character escapes, `\u` for other controls and lone surrogates, or itself.
   */
  predicate WrittenAs(s: Text, i: nat, t: Text)
    requires i < |s|
  {
    var u := s[i];
    if u == 8 then t == Lit("\\b") else if u == 9 then t == Lit("\\t") else if u == 10 then t == Lit("\\n")
    else if u == 12 then t == Lit("\\f") else if u == 13 then t == Lit("\\r")
    else if u == '"' as int then t == Lit("\\\"") else if u == '\\' as int then t == Lit("\\\\")
    else if u < ' ' as int || (0xD800 <= u < 0xE000 && !Paired(s, i)) then Lit("\\u") <= t && FourOf(t[2..], u)
    else t == [u]
  }

  /** The texts of the units from `i` on, one after the other. */
  function Flat(parts: seq<Text>): Text { if parts == [] then [] else parts[0] + Flat(parts[1..]) }

  ghost predicate UnitsWritten(s: Text, parts: seq<Text>) {
    |parts| == |s| && forall i | 0 <= i < |s| :: WrittenAs(s, i, parts[i])
  }

  function UnitTexts(s: Text): (r: seq<Text>)
    ensures |r| == |s| && Flat(r) == QuoteUnits(s)
  {
    if s == [] then []
    else if IsHigh(s[0]) && |s| > 1 && IsLow(s[1]) then
      assert [[s[0]], [s[1]]] + UnitTexts(s[2..]) == [[s[0]]] + ([[s[1]]] + UnitTexts(s[2..]));
      [[s[0]]] + ([[s[1]]] + UnitTexts(s[2..]))
    else [QuoteUnit(s[0])] + UnitTexts(s[1..])
  }

  lemma UnitWritten(s: Text, i: nat)
    requires i < |s| && !Paired(s, i)
    ensures WrittenAs(s, i, QuoteUnit(s[i]))
  {
    var u := s[i];
    assert Lit("\\b") == [0x5C, 0x62] && Lit("\\t") == [0x5C, 0x74] && Lit("\\n") == [0x5C, 0x6E];
    assert Lit("\\f") == [0x5C, 0x66] && Lit("\\r") == [0x5C, 0x72] && Lit("\\u") == [0x5C, 0x75];
    assert Lit("\\\"") == [0x5C, 0x22] && Lit("\\\\") == [0x5C, 0x5C];
    hide Lit;
    var e := UnicodeEscape(u);
    assert e[2..] == [LowerHex(u / 4096), LowerHex(u / 256 % 16), LowerHex(u / 16 % 16), LowerHex(u % 16)];
    assert e[..2] == [0x5C, 0x75];
  }

  lemma PairWritten(s: Text, i: nat)
    requires i < |s| && Paired(s, i)
    ensures WrittenAs(s, i, [s[i]])
  {
    hide Lit;
  }

  ghost predicate WrittenFrom(s: Text, k: nat, parts: seq<Text>) {
    k + |parts| == |s| && forall i | 0 <= i < |parts| :: WrittenAs(s, k + i, parts[i])
  }

  lemma WrittenCons(s: Text, k: nat, first: Text, parts: seq<Text>)
    requires k < |s| && WrittenAs(s, k, first) && WrittenFrom(s, k + 1, parts)
    ensures WrittenFrom(s, k, [first] + parts)
  {
    hide WrittenAs;
    forall i | 0 <= i < |[first] + parts|
      ensures WrittenAs(s, k + i, ([first] + parts)[i])
    {
      assert i > 0 ==> ([first] + parts)[i] == parts[i - 1] && k + i == k + 1 + (i - 1);
    }
  }

  lemma {:induction false} UnitsFrom(s: Text, k: nat)
    requires k <= |s| && (0 < k < |s| ==> !(IsHigh(s[k - 1]) && IsLow(s[k])))
    ensures WrittenFrom(s, k, UnitTexts(s[k..]))
    decreases |s| - k
  {
    hide WrittenAs, WrittenFrom;
    if k == |s| {
      NothingFrom(s);
    } else if IsHigh(s[k]) && k + 1 < |s| && IsLow(s[k + 1]) {
      UnitsFrom(s, k + 2);
      PairWritten(s, k);
      PairWritten(s, k + 1);
      assert s[k..][2..] == s[k + 2..];
      assert UnitTexts(s[k..]) == [[s[k]]] + ([[s[k + 1]]] + UnitTexts(s[k + 2..]));
      WrittenCons(s, k + 1, [s[k + 1]], UnitTexts(s[k + 2..]));
      WrittenCons(s, k, [s[k]], [[s[k + 1]]] + UnitTexts(s[k + 2..]));
    } else {
      UnitsFrom(s, k + 1);
      UnitWritten(s, k);
      assert s[k..][1..] == s[k + 1..];
      assert UnitTexts(s[k..]) == [QuoteUnit(s[k])] + UnitTexts(s[k + 1..]);
      WrittenCons(s, k, QuoteUnit(s[k]), UnitTexts(s[k + 1..]));
    }
  }

  lemma NothingFrom(s: Text)
    ensures WrittenFrom(s, |s|, UnitTexts(s[|s|..]))
  {}

  /** A string is written unit by unit between quotation marks. */
  ghost predicate QuotedAs(s: Text, t: Text) {
    exists parts :: UnitsWritten(s, parts) && t == Lit("\"") + Flat(parts) + Lit("\"")
  }

  lemma QuoteIs(s: Text)
    ensures QuotedAs(s, Quote(s))
  {
    UnitsFrom(s, 0);
    assert s[0..] == s;
    hide WrittenAs;
    var parts := UnitTexts(s);
    assert forall i | 0 <= i < |s| :: WrittenAs(s, 0 + i, parts[i]);
    assert UnitsWritten(s, parts);
    assert Lit("\"") == [QUOTATION];
  }

  function Texts(items: seq<Json>): (r: seq<Text>)
    ensures |r| == |items| && forall i | 0 <= i < |items| :: r[i] == CanonicalText(items[i])
  {
    seq(|items|, i requires 0 <= i < |items| => CanonicalText(items[i]))
  }

  /** The keys of an object, each once, in ascending order of their units. */
  ghost predicate KeysOf(v: Json, keys: seq<Text>) {
    && v.Obj? && (forall k :: k in keys <==> k in v.members)
    && forall i, j | 0 <= i < j < |keys| :: Less(keys[i], keys[j])
  }

  ghost predicate MembersWritten(v: Json, keys: seq<Text>, parts: seq<Text>) {
    && KeysOf(v, keys) && |parts| == |keys|
    && forall i | 0 <= i < |keys| ::
         keys[i] in v.members
         && exists q :: QuotedAs(keys[i], q) && parts[i] == q + Lit(":") + CanonicalText(v.members[keys[i]])
  }

  ghost predicate ObjectWritten(v: Json, keys: seq<Text>, parts: seq<Text>, t: Text) {
    MembersWritten(v, keys, parts) && t == Lit("{") + Join(parts, ',' as int) + Lit("}")
  }

  lemma {:induction false} ItemsJoined(items: seq<Json>)
    ensures PrintItems(items) == Join(Texts(items), COMMA)
  {
    if |items| > 1 {
      ItemsJoined(items[1..]);
      assert Texts(items)[1..] == Texts(items[1..]);
    }
  }

  function MemberTexts(v: Json, keys: seq<Text>): (r: seq<Text>)
    requires v.Obj? && forall k | k in keys :: k in v.members
    ensures |r| == |keys|
  {
    seq(|keys|, i requires 0 <= i < |keys| => PrintMember(v, keys[i]))
  }

  lemma {:induction false} MembersJoined(v: Json, keys: seq<Text>)
    requires v.Obj? && forall k | k in keys :: k in v.members
    ensures PrintMembers(v, keys) == Join(MemberTexts(v, keys), COMMA)
    decreases |keys|
  {
    hide PrintMember;
    if |keys| > 1 {
      MembersJoined(v, keys[1..]);
      assert MemberTexts(v, keys)[1..] == MemberTexts(v, keys[1..]);
    }
  }

  lemma SortedKeysOf(v: Json)
    requires v.Obj?
    ensures KeysOf(v, SortedKeys(v.members.Keys))
  {
    var keys := SortedKeys(v.members.Keys);
    SortedKeysFacts(v.members.Keys);
    SortedKeysSorted(v.members.Keys);
    hide SortedKeys;
    forall i, j | 0 <= i < j < |keys|
      ensures Less(keys[i], keys[j])
    {
      LessAsymmetric(keys[i], keys[j]);
      assert !TEXT_LESS(keys[j], keys[i]);
    }
  }

  lemma MemberIs(v: Json, keys: seq<Text>, i: nat)
    requires KeysOf(v, keys) && i < |keys|
    ensures keys[i] in v.members
    ensures exists q ::
              QuotedAs(keys[i], q) && MemberTexts(v, keys)[i] == q + Lit(":") + CanonicalText(v.members[keys[i]])
  {
    assert keys[i] in keys && Lit(":") == [COLON];
    QuoteIs(keys[i]);
    hide QuotedAs, Quote, Lit, CanonicalText;
    var q := Quote(keys[i]);
    assert QuotedAs(keys[i], q);
  }

  lemma ObjectIs(v: Json)
    requires v.Obj?
    ensures exists keys, parts :: ObjectWritten(v, keys, parts, CanonicalText(v))
  {
    var keys := SortedKeys(v.members.Keys);
    SortedKeysOf(v);
    SortedKeysFacts(v.members.Keys);
    ObjectJoined(v);
    hide Lit, KeysOf, SortedKeys, CanonicalText, MembersWritten;
    var parts := MemberTexts(v, keys);
    AllWritten(v, keys);
    assert ObjectWritten(v, keys, parts, CanonicalText(v));
  }

  lemma ObjectJoined(v: Json)
    requires v.Obj?
    ensures var keys := SortedKeys(v.members.Keys);
            && (forall k | k in keys :: k in v.members)
            && CanonicalText(v) == Lit("{") + Join(MemberTexts(v, keys), COMMA) + Lit("}")
  {
    SortedKeysFacts(v.members.Keys);
    MembersJoined(v, SortedKeys(v.members.Keys));
    assert Lit("{") == [OPEN_BRACE] && Lit("}") == [CLOSE_BRACE];
    hide Lit, SortedKeys;
  }

  lemma AllWritten(v: Json, keys: seq<Text>)
    requires KeysOf(v, keys)
    ensures forall k | k in keys :: k in v.members
    ensures MembersWritten(v, keys, MemberTexts(v, keys))
  {
    var parts := MemberTexts(v, keys);
    hide Lit, QuotedAs, CanonicalText;
    forall i | 0 <= i < |keys|
      ensures keys[i] in v.members
      ensures exists q :: QuotedAs(keys[i], q) && parts[i] == q + Lit(":") + CanonicalText(v.members[keys[i]])
    {
      MemberIs(v, keys, i);
    }
  }

  /**
   * What the canonical text of a value is: no white space, strings in their shortest form, an array's items and an
   * object's members with commas between, the members in ascending order of their keys; a number that JSON has no
   * form for is null.
   */
  lemma CanonicalIs(v: Json)
    ensures match v
            case Null => CanonicalText(v) == Lit("null")
            case Bool(b) => CanonicalText(v) == if b then Lit("true") else Lit("false")
            case Num(n) => CanonicalText(v) == if n.Finite? then n.text else Lit("null")
            case Str(s) => QuotedAs(s, CanonicalText(v))
            case Arr(items) => CanonicalText(v) == Lit("[") + Join(Texts(items), ',' as int) + Lit("]")
            case Obj(_) => exists keys, parts :: ObjectWritten(v, keys, parts, CanonicalText(v))
  {
    match v {
      case Str(s) => QuoteIs(s);
      case Arr(items) =>
        ItemsJoined(items);
        assert Lit("[") == [OPEN_BRACKET] && Lit("]") == [CLOSE_BRACKET];
      case Obj(_) => ObjectIs(v);
      case _ =>
    }
  }

  // ---- texts that are read

  /** White space between tokens. */
  predicate Blank(t: Text) {
    forall i | 0 <= i < |t| :: t[i] == ' ' as int || t[i] == '\t' as int || t[i] == '\n' as int || t[i] == '\r' as int
  }

  /** What a backslash and this unit stand for. */
  predicate EscapeOf(e: int, u: int) {
    || (e == '"' as int && u == '"' as int) || (e == '\\' as int && u == '\\' as int)
        || (e == '/' as int && u == '/' as int)
    || (e == 'b' as int && u == 8) || (e == 't' as int && u == 9) || (e == 'n' as int && u == 10)
    || (e == 'f' as int && u == 12) || (e == 'r' as int && u == 13)
  }

  /** The inside of a string literal: units that need no escape, two-character escapes, and `\u` with four digits. */
  predicate SpellsString(t: Text, s: Text)
    decreases |t|
  {
    if s == [] then t == []
    else
      || (t != [] && t[0] == s[0] && t[0] >= ' ' as int && t[0] != '"' as int && t[0] != '\\' as int
          && SpellsString(t[1..], s[1..]))
      || (|t| >= 2 && t[0] == '\\' as int && EscapeOf(t[1], s[0]) && SpellsString(t[2..], s[1..]))
      || (|t| >= 6 && t[0] == '\\' as int && t[1] == 'u' as int && UnicodeOf(t, s[0]) && SpellsString(t[6..], s[1..]))
  }

  predicate UnicodeOf(t: Text, u: int)
    requires |t| >= 6
  {
    && HexOf(t[2], u / 4096) && HexOf(t[3], u / 256 % 16) && HexOf(t[4], u / 16 % 16) && HexOf(t[5], u % 16)
  }

  lemma FourDigits(u: int, a: int, b: int, c: int, d: int)
    requires 0 <= a < 16 && 0 <= b < 16 && 0 <= c < 16 && 0 <= d < 16 && 0 <= u < 0x1_0000
    ensures ((a * 16 + b) * 16 + c) * 16 + d == u
       <==> a == u / 4096 && b == u / 256 % 16 && c == u / 16 % 16 && d == u % 16
  {
    var q, r, s := u / 16, u / 16 / 16, u / 16 / 16 / 16;
    assert u == 16 * q + u % 16 && q == 16 * r + q % 16 && r == 16 * s + r % 16;
    assert r == u / 256 && s == u / 4096;
  }

  lemma UnicodeIff(t: Text, u: Unit)
    requires |t| >= 6 && t[0] == '\\' as int && t[1] == 'u' as int
    ensures ReadEscape(t) == Some((u, 6)) <==> UnicodeOf(t, u)
  {
    HexUnit(t[2]);
    HexUnit(t[3]);
    HexUnit(t[4]);
    HexUnit(t[5]);
    hide HexOf, HexValue;
    var a, b, c, d := HexValue(t[2]), HexValue(t[3]), HexValue(t[4]), HexValue(t[5]);
    if a.Some? && b.Some? && c.Some? && d.Some? {
      FourDigits(u, a.value, b.value, c.value, d.value);
    }
  }

  lemma HexUnit(u: Unit)
    ensures forall n :: HexOf(u, n) <==> HexValue(u) == Some(n)
  {}

  /** An escape is read as the unit it stands for. */
  lemma EscapeIff(t: Text, u: Unit, n: nat)
    requires t != [] && t[0] == '\\' as int
    ensures ReadEscape(t) == Some((u, n))
       <==> || (n == 2 && |t| >= 2 && EscapeOf(t[1], u))
            || (n == 6 && |t| >= 6 && t[1] == 'u' as int && UnicodeOf(t, u))
  {
    if |t| >= 6 && t[1] == 'u' as int {
      UnicodeIff(t, u);
      hide UnicodeOf;
    }
  }

  lemma {:induction false} StringEnds(t: Text, body: Text, s: Text, rest: Text)
    requires t == body + ['"' as int] + rest && SpellsString(body, s)
    ensures ReadString(t) == Some((s, rest))
    decreases |body|
  {
    if s == [] {
      assert t[1..] == rest;
    } else if body[0] != '\\' as int {
      StringEnds(t[1..], body[1..], s[1..], rest);
      assert s == [s[0]] + s[1..];
    } else {
      var n := if |body| >= 2 && EscapeOf(body[1], s[0]) then 2 else 6;
      EscapeIff(t, s[0], n);
      assert body == body[..n] + body[n..];
      assert t[n..] == body[n..] + ['"' as int] + rest;
      StringEnds(t[n..], body[n..], s[1..], rest);
      assert s == [s[0]] + s[1..];
    }
  }

  lemma {:induction false} StringBegins(t: Text) returns (body: Text)
    requires ReadString(t).Some?
    ensures var (s, rest) := ReadString(t).value; t == body + ['"' as int] + rest && SpellsString(body, s)
    decreases |t|
  {
    var (s, rest) := ReadString(t).value;
    if t[0] == QUOTATION {
      body := [];
    } else if t[0] == BACKSLASH {
      var (u, n) := ReadEscape(t).value;
      EscapeIff(t, u, n);
      hide ReadEscape, EscapeOf, UnicodeOf;
      var more := StringBegins(t[n..]);
      body := t[..n] + more;
      assert s[1..] == ReadString(t[n..]).value.0;
      assert body[n..] == more;
      EscapeFront(t, body, n, u);
    } else {
      var more := StringBegins(t[1..]);
      body := [t[0]] + more;
      assert s[1..] == ReadString(t[1..]).value.0;
      assert body[1..] == more;
    }
  }

  lemma EscapeFront(t: Text, body: Text, n: nat, u: Unit)
    requires n <= |t| && n <= |body| && t[..n] == body[..n]
    ensures n == 2 && |t| >= 2 && EscapeOf(t[1], u) ==> EscapeOf(body[1], u)
    ensures n == 6 && UnicodeOf(t, u) ==> UnicodeOf(body, u)
    ensures n > 1 ==> t[0] == body[0] && t[1] == body[1]
  {
    assert forall i | 0 <= i < n :: t[i] == t[..n][i] && body[i] == body[..n][i];
  }

  // ---- values

  /** `t` is the text of the value, without white space around it. */
  ghost predicate IsValue(num: NumberRule, t: Text, v: Json)
    decreases |t|, 0
  {
    match v
    case Null => t == Lit("null")
    case Bool(b) => t == if b then Lit("true") else Lit("false")
    case Num(x) => num(t) == Some(x)
    case Str(s) => exists body :: t == ['"' as int] + body + ['"' as int] && SpellsString(body, s)
    case Arr(items) =>
      exists inner: Text ::
        && t == ['[' as int] + inner + [']' as int] && |inner| < |t|
        && if items == [] then Blank(inner) else IsItems(num, inner, items)
    case Obj(m) =>
      exists inner: Text, keys: seq<Text>, values: seq<Json> ::
        && t == ['{' as int] + inner + ['}' as int] && |inner| < |t| && LastWins(keys, values, m)
        && if keys == [] then Blank(inner) else IsMembers(num, inner, keys, values)
  }

  /** With white space around it. */
  ghost predicate IsPadded(num: NumberRule, t: Text, v: Json)
    decreases |t|, 1
  {
    exists lead: Text, body: Text, tail: Text ::
      t == lead + body + tail && |body| <= |t| && Blank(lead) && Blank(tail) && IsValue(num, body, v)
  }

  /** Values with commas between. */
  ghost predicate IsItems(num: NumberRule, t: Text, items: seq<Json>)
    decreases |t|, 2
  {
    if |items| <= 1 then |items| == 1 && IsPadded(num, t, items[0])
    else
      exists a: Text, b: Text ::
        t == a + [',' as int] + b && |a| < |t| && |b| < |t| && IsPadded(num, a, items[0]) && IsItems(num, b, items[1..])
  }

  /** A key, a colon, a value. */
  ghost predicate IsMember(num: NumberRule, t: Text, key: Text, v: Json)
    decreases |t|, 1
  {
    exists lead: Text, q: Text, mid: Text, value: Text ::
      && t == lead + ['"' as int] + q + ['"' as int] + mid + [':' as int] + value && |value| < |t|
      && Blank(lead) && Blank(mid) && SpellsString(q, key) && IsPadded(num, value, v)
  }

  ghost predicate IsMembers(num: NumberRule, t: Text, keys: seq<Text>, values: seq<Json>)
    decreases |t|, 2
  {
    && |keys| == |values| > 0
    && if |keys| == 1 then IsMember(num, t, keys[0], values[0])
       else
         exists a: Text, b: Text ::
           && t == a + [',' as int] + b && |a| < |t| && |b| < |t|
           && IsMember(num, a, keys[0], values[0]) && IsMembers(num, b, keys[1..], values[1..])
  }

  /** The object has the keys that are named; a key named more than once has its last value. */
  ghost predicate LastWins(keys: seq<Text>, values: seq<Json>, m: map<Text, Json>) {
    && |keys| == |values| && (forall k :: k in m <==> k in keys)
    && forall i | 0 <= i < |keys| && keys[i] !in keys[i + 1..] :: keys[i] in m && m[keys[i]] == values[i]
  }

  /** What the reader has gathered once it is through. */
  function Gathered(keys: seq<Text>, values: seq<Json>, acc: map<Text, Json>): map<Text, Json>
    requires |keys| == |values|
  {
    if keys == [] then acc else Gathered(keys[1..], values[1..], acc[keys[0] := values[0]])
  }

  lemma {:induction false} GatheredIs(keys: seq<Text>, values: seq<Json>, acc: map<Text, Json>)
    requires |keys| == |values|
    ensures var m := Gathered(keys, values, acc);
            && (forall k :: k in m <==> k in acc || k in keys)
            && (forall k | k in acc && k !in keys :: m[k] == acc[k])
            && forall i | 0 <= i < |keys| && keys[i] !in keys[i + 1..] :: m[keys[i]] == values[i]
  {
    if keys != [] {
      var ks, vs, more := keys[1..], values[1..], acc[keys[0] := values[0]];
      GatheredIs(ks, vs, more);
      assert keys == [keys[0]] + ks;
      forall i | 0 <= i < |keys| && keys[i] !in keys[i + 1..]
        ensures Gathered(keys, values, acc)[keys[i]] == values[i]
      {
        if i > 0 {
          assert keys[i] == ks[i - 1] && keys[i + 1..] == ks[i..];
        }
      }
    }
  }

  lemma {:induction false} HasLast(keys: seq<Text>, k: Text) returns (i: nat)
    requires k in keys
    ensures i < |keys| && keys[i] == k && k !in keys[i + 1..]
  {
    if k in keys[1..] {
      i := HasLast(keys[1..], k);
      assert keys[1..][i + 1..] == keys[i + 2..];
      i := i + 1;
    } else {
      i := 0;
    }
  }

  lemma LastWinsIff(keys: seq<Text>, values: seq<Json>, m: map<Text, Json>)
    requires |keys| == |values|
    ensures LastWins(keys, values, m) <==> m == Gathered(keys, values, map[])
  {
    var g := Gathered(keys, values, map[]);
    GatheredIs(keys, values, map[]);
    if LastWins(keys, values, m) {
      forall k | k in m
        ensures k in g && m[k] == g[k]
      {
        var i := HasLast(keys, k);
      }
      assert forall k | k in g :: k in m;
      assert m == g;
    }
  }

  // ---- what is read is in the grammar

  lemma {:induction false} SkipsBlank(t: Text) returns (lead: Text)
    ensures t == lead + SkipSpace(t) && Blank(lead)
  {
    lead := [];
    if t != [] && IsJsonSpace(t[0]) {
      var more := SkipsBlank(t[1..]);
      lead := [t[0]] + more;
    }
  }

  lemma {:induction false} BlankSkipped(lead: Text, t: Text)
    requires Blank(lead) && (t != [] ==> !IsJsonSpace(t[0]))
    ensures SkipSpace(lead + t) == t
  {
    if lead != [] {
      BlankSkipped(lead[1..], t);
      assert (lead + t)[1..] == lead[1..] + t;
    } else {
      assert lead + t == t;
    }
  }

  lemma PaddedIntro(num: NumberRule, lead: Text, body: Text, tail: Text, v: Json)
    requires Blank(lead) && Blank(tail) && IsValue(num, body, v)
    ensures IsPadded(num, lead + body + tail, v)
  {}

  lemma ItemsOne(num: NumberRule, t: Text, v: Json)
    requires IsPadded(num, t, v)
    ensures IsItems(num, t, [v])
  {}

  lemma ItemsMore(num: NumberRule, a: Text, v: Json, b: Text, items: seq<Json>)
    requires IsPadded(num, a, v) && IsItems(num, b, items)
    ensures IsItems(num, a + [',' as int] + b, [v] + items)
  {
    hide IsPadded;
    var all, t := [v] + items, a + [',' as int] + b;
    assert all[1..] == items && all[0] == v && |a| < |t| && |b| < |t| && |items| > 0;
  }

  lemma MemberIntro(num: NumberRule, lead: Text, q: Text, mid: Text, value: Text, key: Text, v: Json)
    requires Blank(lead) && Blank(mid) && SpellsString(q, key) && IsPadded(num, value, v)
    ensures IsMember(num, lead + ['"' as int] + q + ['"' as int] + mid + [':' as int] + value, key, v)
  {
    hide Blank, SpellsString, IsPadded;
    assert |value| < |lead + ['"' as int] + q + ['"' as int] + mid + [':' as int] + value|;
  }

  lemma MembersOne(num: NumberRule, t: Text, key: Text, v: Json)
    requires IsMember(num, t, key, v)
    ensures IsMembers(num, t, [key], [v])
  {}

  lemma MembersMore(num: NumberRule, a: Text, key: Text, v: Json, b: Text, keys: seq<Text>, values: seq<Json>)
    requires IsMember(num, a, key, v) && IsMembers(num, b, keys, values)
    ensures IsMembers(num, a + [',' as int] + b, [key] + keys, [v] + values)
  {
    MembersSome(num, b, keys, values);
    hide IsMember;
    var t, ks, vs := a + [',' as int] + b, [key] + keys, [v] + values;
    assert |a| < |t| && |b| < |t|;
    assert ks[0] == key && vs[0] == v && ks[1..] == keys && vs[1..] == values && |ks| == |vs| > 1;
  }

  lemma EmptyArray(num: NumberRule, inner: Text)
    requires Blank(inner)
    ensures IsValue(num, ['[' as int] + inner + [']' as int], Arr([]))
  {}

  lemma FullArray(num: NumberRule, inner: Text, items: seq<Json>)
    requires items != [] && IsItems(num, inner, items)
    ensures IsValue(num, ['[' as int] + inner + [']' as int], Arr(items))
  {
    hide IsItems;
    assert |inner| < |['[' as int] + inner + [']' as int]|;
  }

  lemma EmptyObject(num: NumberRule, inner: Text)
    requires Blank(inner)
    ensures IsValue(num, ['{' as int] + inner + ['}' as int], Obj(map[]))
  {
    assert LastWins([], [], map[]) && |inner| < |['{' as int] + inner + ['}' as int]|;
  }

  lemma FullObject(num: NumberRule, inner: Text, keys: seq<Text>, values: seq<Json>)
    requires IsMembers(num, inner, keys, values)
    ensures IsValue(num, ['{' as int] + inner + ['}' as int], Obj(Gathered(keys, values, map[])))
  {
    assert |keys| == |values| > 0;
    LastWinsIff(keys, values, Gathered(keys, values, map[]));
    hide IsMembers, LastWins, Gathered;
    assert |inner| < |['{' as int] + inner + ['}' as int]|;
  }

  lemma StringValue(num: NumberRule, body: Text, s: Text)
    requires SpellsString(body, s)
    ensures IsValue(num, ['"' as int] + body + ['"' as int], Str(s))
  {}

  // One step of each reader, with the others left closed.

  lemma ArrayStep(num: NumberRule, t: Text)
    requires t != [] && t[0] == OPEN_BRACKET && ParseValue(num, t).Some?
    ensures var inner := SkipSpace(t[1..]);
            if inner != [] && inner[0] == CLOSE_BRACKET then ParseValue(num, t) == Some((Arr([]), inner[1..]))
            else ParseItems(num, t[1..]).Some?
                 && var (items, rest) := ParseItems(num, t[1..]).value; ParseValue(num, t) == Some((Arr(items), rest))
  {
    hide ParseItems, ParseMembers, ReadString, NumberRun, Lit;
    assert SkipSpace(t) == t;
  }

  lemma ObjectStep(num: NumberRule, t: Text)
    requires t != [] && t[0] == OPEN_BRACE && ParseValue(num, t).Some?
    ensures var inner := SkipSpace(t[1..]);
            ParseValue(num, t) == if inner != [] && inner[0] == CLOSE_BRACE then Some((Obj(map[]), inner[1..]))
                                  else ParseMembers(num, t[1..], map[])
  {
    hide ParseItems, ParseMembers, ReadString, NumberRun, Lit;
    assert SkipSpace(t) == t;
  }

  lemma ItemsStep(num: NumberRule, t: Text)
    requires ParseItems(num, t).Some?
    ensures ParseValue(num, t).Some?
    ensures var (v, r0) := ParseValue(num, t).value;
            var r := SkipSpace(r0);
            && r != [] && |r0| < |t| && |r| <= |r0| && (r[0] == COMMA || r[0] == CLOSE_BRACKET)
            && (r[0] == CLOSE_BRACKET ==> ParseItems(num, t) == Some(([v], r[1..])))
            && (r[0] == COMMA ==>
                  ParseItems(num, r[1..]).Some?
                  && ParseItems(num, t)
                     == Some(([v] + ParseItems(num, r[1..]).value.0, ParseItems(num, r[1..]).value.1)))
  {
    hide ParseValue, ParseMembers, SkipSpace;
  }

  lemma MembersStep(num: NumberRule, input: Text, acc: map<Text, Json>)
    requires ParseMembers(num, input, acc).Some?
    ensures var t := SkipSpace(input);
            && t != [] && t[0] == QUOTATION && |t| <= |input| && ReadString(t[1..]).Some?
            && var (k, r0) := ReadString(t[1..]).value;
               var r := SkipSpace(r0);
               && r != [] && r[0] == COLON && |r| <= |r0| < |t| && ParseValue(num, r[1..]).Some?
               && var (v, r1) := ParseValue(num, r[1..]).value;
                  var r2 := SkipSpace(r1);
                  && r2 != [] && |r2| <= |r1| < |r| && (r2[0] == COMMA || r2[0] == CLOSE_BRACE)
                  && ParseMembers(num, input, acc) == if r2[0] == COMMA then ParseMembers(num, r2[1..], acc[k := v])
                                                      else Some((Obj(acc[k := v]), r2[1..]))
  {
    hide ParseValue, ParseItems, SkipSpace, ReadString;
  }

  /** What the reader makes of the start of a text is a value of the grammar there. */
  lemma {:induction false} ValueBegins(num: NumberRule, input: Text) returns (lead: Text, body: Text)
    requires ParseValue(num, input).Some?
    ensures var (v, rest) := ParseValue(num, input).value;
            && input == lead + body + rest && Blank(lead) && IsValue(num, body, v) && (v.Num? ==> Terminated(rest))
    decreases |input|, 1
  {
    var (v, rest) := ParseValue(num, input).value;
    var t := SkipSpace(input);
    lead := SkipsBlank(input);
    assert ParseValue(num, t) == ParseValue(num, input) && t != [];
    hide IsValue, ParseValue, SkipSpace;
    if t[0] == OPEN_BRACE {
      body := ObjectBegins(num, t);
    } else if t[0] == OPEN_BRACKET {
      body := ArrayBegins(num, t);
    } else if t[0] == QUOTATION {
      body := LiteralBegins(num, t);
    } else {
      body := WordBegins(num, t);
    }
    assert t == body + rest;
    assert input == lead + body + rest;
  }

  lemma LiteralBegins(num: NumberRule, t: Text) returns (body: Text)
    requires t != [] && t[0] == QUOTATION && ParseValue(num, t).Some?
    ensures var (v, rest) := ParseValue(num, t).value; t == body + rest && IsValue(num, body, v) && !v.Num?
  {
    var q := StringBegins(t[1..]);
    body := ['"' as int] + q + ['"' as int];
    StringValue(num, q, ReadString(t[1..]).value.0);
    hide IsValue, ReadString;
  }

  lemma WordBegins(num: NumberRule, t: Text) returns (body: Text)
    requires t != [] && !IsJsonSpace(t[0]) && t[0] !in {OPEN_BRACE, OPEN_BRACKET, QUOTATION}
    requires ParseValue(num, t).Some?
    ensures var (v, rest) := ParseValue(num, t).value;
            t == body + rest && IsValue(num, body, v) && (v.Num? ==> Terminated(rest))
  {
    hide Lit;
    assert SkipSpace(t) == t;
    body := if Lit("null") <= t || Lit("true") <= t then t[..4] else if Lit("false") <= t then t[..5]
            else t[..NumberRun(t)];
  }

  /** A text that begins with a unit, goes on with `inner` and a closing unit, and then with `rest`. */
  predicate Wraps(t: Text, inner: Text, close: Unit, rest: Text) { t != [] && t[1..] == inner + [close] + rest }

  lemma Unwrap(t: Text, inner: Text, close: Unit, rest: Text) returns (body: Text)
    requires Wraps(t, inner, close, rest)
    ensures body == [t[0]] + inner + [close] && t == body + rest
  {
    body := [t[0]] + inner + [close];
    assert t == [t[0]] + (inner + [close] + rest);
  }

  lemma BlankThen(t: Text, blank: Text, r: Text, close: Unit)
    requires t != [] && t[1..] == blank + r && r != [] && r[0] == close
    ensures Wraps(t, blank, close, r[1..])
  {
    assert r == [close] + r[1..];
  }

  lemma {:induction false} ArrayBegins(num: NumberRule, t: Text) returns (body: Text)
    requires t != [] && t[0] == OPEN_BRACKET && ParseValue(num, t).Some?
    ensures var (v, rest) := ParseValue(num, t).value; t == body + rest && IsValue(num, body, v) && !v.Num?
    decreases |t|, 0
  {
    ArrayStep(num, t);
    hide ParseValue, ParseItems, SkipSpace, IsValue, IsItems, Wraps;
    var inner := SkipSpace(t[1..]);
    if inner != [] && inner[0] == CLOSE_BRACKET {
      var blank := SkipsBlank(t[1..]);
      BlankThen(t, blank, inner, CLOSE_BRACKET);
      EmptyArray(num, blank);
      body := Unwrap(t, blank, CLOSE_BRACKET, inner[1..]);
    } else {
      var items := ItemsBegin(num, t[1..]);
      AsWraps(t, items, CLOSE_BRACKET, ParseItems(num, t[1..]).value.1);
      FullArray(num, items, ParseItems(num, t[1..]).value.0);
      body := Unwrap(t, items, CLOSE_BRACKET, ParseItems(num, t[1..]).value.1);
    }
  }

  lemma AsWraps(t: Text, inner: Text, close: Unit, rest: Text)
    requires t != [] && t[1..] == inner + [close] + rest
    ensures Wraps(t, inner, close, rest)
  {}

  /** The pieces of an item and what follows it. */
  lemma ItemPieces(t: Text, lead: Text, body: Text, r0: Text, tail: Text, r: Text)
    requires t == lead + body + r0 && r0 == tail + r && r != []
    ensures t == (lead + body + tail) + [r[0]] + r[1..]
  {
    assert r == [r[0]] + r[1..];
  }

  lemma ItemsJoin(t: Text, part: Text, comma: Unit, r: Text, more: Text, close: Unit, rest: Text)
    requires t == part + [comma] + r && r == more + [close] + rest
    ensures t == (part + [comma] + more) + [close] + rest
  {}

  lemma {:induction false} ItemsBegin(num: NumberRule, t: Text) returns (inner: Text)
    requires ParseItems(num, t).Some?
    ensures var (items, rest) := ParseItems(num, t).value;
            t == inner + [']' as int] + rest && items != [] && IsItems(num, inner, items)
    decreases |t|, 2
  {
    ItemsStep(num, t);
    hide SkipSpace, ParseValue, ParseItems, IsValue, IsPadded, IsItems;
    var (v, r0) := ParseValue(num, t).value;
    var lead, body := ValueBegins(num, t);
    var tail := SkipsBlank(r0);
    var r := SkipSpace(r0);
    var part := lead + body + tail;
    PaddedIntro(num, lead, body, tail, v);
    ItemPieces(t, lead, body, r0, tail, r);
    if r[0] == COMMA {
      inner := ItemsGoOn(num, t, part, v, r);
    } else {
      inner := part;
      ItemsOne(num, part, v);
    }
  }

  lemma {:induction false} ItemsGoOn(num: NumberRule, t: Text, part: Text, v: Json, r: Text) returns (inner: Text)
    requires r != [] && r[0] == COMMA && t == part + [COMMA] + r[1..] && ParseItems(num, r[1..]).Some?
    requires IsPadded(num, part, v) && |r| <= |t|
    ensures var (items, rest) := ParseItems(num, r[1..]).value;
            t == inner + [']' as int] + rest && IsItems(num, inner, [v] + items)
    decreases |t|, 1
  {
    hide ParseItems, IsPadded, IsItems;
    var more := ItemsBegin(num, r[1..]);
    inner := part + [',' as int] + more;
    ItemsMore(num, part, v, more, ParseItems(num, r[1..]).value.0);
    ItemsJoin(t, part, COMMA, r[1..], more, CLOSE_BRACKET, ParseItems(num, r[1..]).value.1);
  }

  lemma {:induction false} ObjectBegins(num: NumberRule, t: Text) returns (body: Text)
    requires t != [] && t[0] == OPEN_BRACE && ParseValue(num, t).Some?
    ensures var (v, rest) := ParseValue(num, t).value; t == body + rest && IsValue(num, body, v) && !v.Num?
    decreases |t|, 0
  {
    ObjectStep(num, t);
    hide ParseValue, ParseMembers, SkipSpace, IsValue, IsMembers, Wraps;
    var inner := SkipSpace(t[1..]);
    if inner != [] && inner[0] == CLOSE_BRACE {
      var blank := SkipsBlank(t[1..]);
      BlankThen(t, blank, inner, CLOSE_BRACE);
      EmptyObject(num, blank);
      body := Unwrap(t, blank, CLOSE_BRACE, inner[1..]);
    } else {
      var members, keys, values := MembersBegin(num, t[1..], map[]);
      var rest := ParseMembers(num, t[1..], map[]).value.1;
      AsWraps(t, members, CLOSE_BRACE, rest);
      FullObject(num, members, keys, values);
      body := Unwrap(t, members, CLOSE_BRACE, rest);
    }
  }

  lemma {:induction false} MembersBegin(num: NumberRule, input: Text, acc: map<Text, Json>)
      returns (inner: Text, keys: seq<Text>, values: seq<Json>)
    requires ParseMembers(num, input, acc).Some?
    ensures var (v, rest) := ParseMembers(num, input, acc).value;
            && input == inner + ['}' as int] + rest && IsMembers(num, inner, keys, values) && |keys| == |values|
            && v == Obj(Gathered(keys, values, acc))
    decreases |input|, 2
  {
    MembersStep(num, input, acc);
    hide SkipSpace, ParseValue, ParseMembers, IsMembers, IsMember, ReadString, Gathered;
    var t := SkipSpace(input);
    var (k, r0) := ReadString(t[1..]).value;
    var r := SkipSpace(r0);
    var (v, r1) := ParseValue(num, r[1..]).value;
    var r2 := SkipSpace(r1);
    var member := MemberBegins(num, input);
    if r2[0] == COMMA {
      inner, keys, values := MembersGoOn(num, input, member, k, v, r2, acc);
    } else {
      inner, keys, values := member, [k], [v];
      MembersOne(num, member, k, v);
      GatheredOne(k, v, acc);
    }
  }

  lemma GatheredOne(k: Text, v: Json, acc: map<Text, Json>)
    ensures Gathered([k], [v], acc) == acc[k := v]
  {
    assert [k][1..] == [] && [v][1..] == [];
    assert Gathered([], [], acc[k := v]) == acc[k := v];
  }

  lemma GatheredMore(k: Text, v: Json, keys: seq<Text>, values: seq<Json>, acc: map<Text, Json>)
    requires |keys| == |values|
    ensures Gathered([k] + keys, [v] + values, acc) == Gathered(keys, values, acc[k := v])
  {
    assert ([k] + keys)[1..] == keys && ([v] + values)[1..] == values;
  }

  lemma {:induction false} MembersGoOn(num: NumberRule, input: Text, member: Text, k: Text, v: Json, r: Text,
      acc: map<Text, Json>)
      returns (inner: Text, keys: seq<Text>, values: seq<Json>)
    requires r != [] && r[0] == COMMA && input == member + [COMMA] + r[1..] && |r| <= |input|
    requires IsMember(num, member, k, v) && ParseMembers(num, r[1..], acc[k := v]).Some?
    ensures var (o, rest) := ParseMembers(num, r[1..], acc[k := v]).value;
            && input == inner + ['}' as int] + rest && IsMembers(num, inner, keys, values) && |keys| == |values|
            && o == Obj(Gathered(keys, values, acc))
    decreases |input|, 1
  {
    hide ParseMembers, IsMembers, IsMember, Gathered;
    var more, ks, vs := MembersBegin(num, r[1..], acc[k := v]);
    inner, keys, values := member + [',' as int] + more, [k] + ks, [v] + vs;
    MembersMore(num, member, k, v, more, ks, vs);
    GatheredMore(k, v, ks, vs, acc);
    ItemsJoin(input, member, COMMA, r[1..], more, CLOSE_BRACE, ParseMembers(num, r[1..], acc[k := v]).value.1);
  }

  /** The member at the start of a text, up to the comma or brace after it. */
  lemma {:induction false} MemberBegins(num: NumberRule, input: Text) returns (member: Text)
    requires var t := SkipSpace(input);
             && t != [] && t[0] == QUOTATION && |t| <= |input| && ReadString(t[1..]).Some?
             && var r := SkipSpace(ReadString(t[1..]).value.1);
                && r != [] && r[0] == COLON && |r| < |t| && ParseValue(num, r[1..]).Some?
                && SkipSpace(ParseValue(num, r[1..]).value.1) != []
    ensures var (k, r0) := ReadString(SkipSpace(input)[1..]).value;
            var (v, r1) := ParseValue(num, SkipSpace(r0)[1..]).value;
            var r2 := SkipSpace(r1);
            IsMember(num, member, k, v) && input == member + [r2[0]] + r2[1..]
    decreases |input|, 1
  {
    hide SkipSpace, ParseValue, IsMember, IsPadded, IsValue, ReadString, SpellsString;
    var t := SkipSpace(input);
    var (k, r0) := ReadString(t[1..]).value;
    var r := SkipSpace(r0);
    var (v, r1) := ParseValue(num, r[1..]).value;
    var r2 := SkipSpace(r1);
    var before, body := ValueBegins(num, r[1..]);
    var tail := SkipsBlank(r1);
    var value := before + body + tail;
    PaddedIntro(num, before, body, tail, v);
    ItemPieces(r[1..], before, body, r1, tail, r2);
    var lead := SkipsBlank(input);
    var q := StringBegins(t[1..]);
    var mid := SkipsBlank(r0);
    member := lead + ['"' as int] + q + ['"' as int] + mid + [':' as int] + value;
    MemberIntro(num, lead, q, mid, value, k, v);
    MemberPieces(input, lead, t, q, r0, mid, r, value, r2);
  }

  lemma MemberPieces(input: Text, lead: Text, t: Text, q: Text, r0: Text, mid: Text, r: Text, value: Text, r2: Text)
    requires input == lead + t && t != [] && t[0] == QUOTATION && t[1..] == q + ['"' as int] + r0 && r0 == mid + r
    requires r != [] && r[0] == COLON && r2 != [] && r[1..] == value + [r2[0]] + r2[1..]
    ensures input == lead + ['"' as int] + q + ['"' as int] + mid + [':' as int] + value + [r2[0]] + r2[1..]
  {
    var end := [r2[0]] + r2[1..];
    assert r == [':' as int] + (value + end);
    assert t == ['"' as int] + (q + ['"' as int] + (mid + ([':' as int] + (value + end))));
  }

  // ---- what is in the grammar is read

  lemma ArrayRead(num: NumberRule, t: Text)
    requires t != [] && t[0] == OPEN_BRACKET && SkipSpace(t[1..]) != []
    ensures var inner := SkipSpace(t[1..]);
            && (inner[0] == CLOSE_BRACKET ==> ParseValue(num, t) == Some((Arr([]), inner[1..])))
            && (inner[0] != CLOSE_BRACKET && ParseItems(num, t[1..]).Some? ==>
                  var (items, rest) := ParseItems(num, t[1..]).value; ParseValue(num, t) == Some((Arr(items), rest)))
  {
    hide ParseItems, ParseMembers, ReadString, NumberRun, Lit;
    assert SkipSpace(t) == t;
  }

  lemma ObjectRead(num: NumberRule, t: Text)
    requires t != [] && t[0] == OPEN_BRACE && SkipSpace(t[1..]) != []
    ensures var inner := SkipSpace(t[1..]);
            ParseValue(num, t)
            == if inner[0] == CLOSE_BRACE then Some((Obj(map[]), inner[1..])) else ParseMembers(num, t[1..], map[])
  {
    hide ParseItems, ParseMembers, ReadString, NumberRun, Lit;
    assert SkipSpace(t) == t;
  }

  lemma StringRead(num: NumberRule, t: Text, s: Text, rest: Text)
    requires t != [] && t[0] == QUOTATION && ReadString(t[1..]) == Some((s, rest))
    ensures ParseValue(num, t) == Some((Str(s), rest))
  {
    hide ParseItems, ParseMembers, ReadString, NumberRun, Lit;
    assert SkipSpace(t) == t;
  }

  lemma ItemRead(num: NumberRule, t: Text, v: Json, r: Text)
    requires ParseValue(num, t).Some? && r != []
    requires ParseValue(num, t).value.0 == v && SkipSpace(ParseValue(num, t).value.1) == r
    ensures r[0] == CLOSE_BRACKET ==> ParseItems(num, t) == Some(([v], r[1..]))
    ensures r[0] == COMMA && ParseItems(num, r[1..]).Some? ==>
              ParseItems(num, t)
              == Some(([v] + ParseItems(num, r[1..]).value.0, ParseItems(num, r[1..]).value.1))
  {
    hide ParseValue, ParseMembers, SkipSpace;
  }

  lemma MemberRead(num: NumberRule, input: Text, acc: map<Text, Json>, k: Text, r0: Text, r: Text, v: Json, r2: Text)
    requires var t := SkipSpace(input); t != [] && t[0] == QUOTATION && ReadString(t[1..]) == Some((k, r0))
    requires SkipSpace(r0) == r && r != [] && r[0] == COLON && ParseValue(num, r[1..]).Some?
    requires ParseValue(num, r[1..]).value.0 == v && SkipSpace(ParseValue(num, r[1..]).value.1) == r2 && r2 != []
    ensures r2[0] == CLOSE_BRACE ==> ParseMembers(num, input, acc) == Some((Obj(acc[k := v]), r2[1..]))
    ensures r2[0] == COMMA ==> ParseMembers(num, input, acc) == ParseMembers(num, r2[1..], acc[k := v])
  {
    hide ParseValue, ParseItems, SkipSpace, ReadString;
  }

  /** What a value begins with. */
  predicate BeginsValue(t: Text) { t != [] && !IsJsonSpace(t[0]) && t[0] != CLOSE_BRACKET }

  lemma LeadSkipped(num: NumberRule, lead: Text, t: Text)
    requires Blank(lead) && t != [] && !IsJsonSpace(t[0])
    ensures ParseValue(num, lead + t) == ParseValue(num, t) && SkipSpace(lead + t) == t
  {
    BlankSkipped(lead, t);
    assert SkipSpace(t) == t;
    hide ParseItems, ParseMembers, ReadString, NumberRun, Lit, SkipSpace;
  }

  /** A value of the grammar at the start of a text is read as that value. */
  lemma {:induction false} ValueEnds(num: NumberRule, body: Text, v: Json, rest: Text)
    requires Lawful(num) && IsValue(num, body, v) && (v.Num? ==> Terminated(rest))
    ensures BeginsValue(body) && ParseValue(num, body + rest) == Some((v, rest))
    decreases |body|, 1
  {
    hide IsValue, ParseValue, BeginsValue, Lawful;
    match v
    case Arr(items) => ArrayEnds(num, body, items, rest);
    case Obj(m) => ObjectEnds(num, body, m, rest);
    case Str(s) => LiteralEnds(num, body, s, rest);
    case _ => WordEnds(num, body, v, rest);
  }

  lemma LiteralEnds(num: NumberRule, body: Text, s: Text, rest: Text)
    requires IsValue(num, body, Str(s))
    ensures BeginsValue(body) && ParseValue(num, body + rest) == Some((Str(s), rest))
  {
    var q: Text :| body == ['"' as int] + q + ['"' as int] && SpellsString(q, s);
    hide ParseValue, SpellsString, ReadString;
    assert (body + rest)[1..] == q + ['"' as int] + rest;
    StringEnds((body + rest)[1..], q, s, rest);
    StringRead(num, body + rest, s, rest);
  }

  lemma WordEnds(num: NumberRule, body: Text, v: Json, rest: Text)
    requires Lawful(num) && IsValue(num, body, v) && (v.Num? ==> Terminated(rest))
    requires v.Null? || v.Bool? || v.Num?
    ensures BeginsValue(body) && ParseValue(num, body + rest) == Some((v, rest))
  {
    hide ParseValue;
    if v.Num? {
      ParsesNumber(num, body, v.n, rest);
    } else {
      WordReadsBack(num, rest);
      WordsBegin();
      hide Lit, BeginsValue;
    }
  }

  lemma WordsBegin()
    ensures BeginsValue(Lit("null")) && BeginsValue(Lit("true")) && BeginsValue(Lit("false"))
  {}

  lemma ParsesNumber(num: NumberRule, t: Text, x: Number, rest: Text)
    requires Lawful(num) && num(t) == Some(x) && Terminated(rest)
    ensures BeginsValue(t) && ParseValue(num, t + rest) == Some((Num(x), rest))
  {
    NumberRunOf(t, rest);
    assert Lit("null")[0] == 0x6E && Lit("true")[0] == 0x74 && Lit("false")[0] == 0x66;
    hide Lit, ParseItems, ParseMembers, ReadString, NumberRun;
    var all := t + rest;
    assert all[0] == t[0] && all[..|t|] == t && all[|t|..] == rest;
    assert SkipSpace(all) == all;
    assert !(Lit("null") <= all) && !(Lit("true") <= all) && !(Lit("false") <= all);
  }

  lemma ArrayParts(num: NumberRule, body: Text, items: seq<Json>) returns (inner: Text)
    requires IsValue(num, body, Arr(items))
    ensures body == ['[' as int] + inner + [']' as int] && |inner| < |body|
    ensures if items == [] then Blank(inner) else IsItems(num, inner, items)
  {
    inner :|
      && body == ['[' as int] + inner + [']' as int] && |inner| < |body|
      && if items == [] then Blank(inner) else IsItems(num, inner, items);
  }

  lemma {:induction false} ArrayEnds(num: NumberRule, body: Text, items: seq<Json>, rest: Text)
    requires Lawful(num) && IsValue(num, body, Arr(items))
    ensures BeginsValue(body) && ParseValue(num, body + rest) == Some((Arr(items), rest))
    decreases |body|, 0
  {
    hide ParseValue, ParseItems, IsItems, SkipSpace, IsValue, Lawful;
    var inner := ArrayParts(num, body, items);
    var t := body + rest;
    Closed(body, inner, CLOSE_BRACKET, rest);
    if items == [] {
      BlankSkipped(inner, [CLOSE_BRACKET] + rest);
    } else {
      ItemsEnd(num, inner, items, t[1..], rest);
    }
    ArrayRead(num, t);
  }

  lemma Closed(body: Text, inner: Text, close: Unit, rest: Text)
    requires body != [] && body == [body[0]] + inner + [close]
    ensures var t := body + rest;
            t[1..] == inner + [close] + rest && inner + [close] + rest == inner + ([close] + rest) && t[0] == body[0]
  {}

  lemma ItemsParts(num: NumberRule, t: Text, items: seq<Json>) returns (a: Text, b: Text)
    requires IsItems(num, t, items) && |items| > 1
    ensures t == a + [',' as int] + b && |a| < |t| && |b| < |t|
    ensures IsPadded(num, a, items[0]) && IsItems(num, b, items[1..])
  {
    a, b :|
      t == a + [',' as int] + b && |a| < |t| && |b| < |t| && IsPadded(num, a, items[0]) && IsItems(num, b, items[1..]);
  }

  lemma PaddedParts(num: NumberRule, t: Text, v: Json) returns (lead: Text, body: Text, tail: Text)
    requires IsPadded(num, t, v)
    ensures t == lead + body + tail && |body| <= |t| && Blank(lead) && Blank(tail) && IsValue(num, body, v)
  {
    lead, body, tail :|
      t == lead + body + tail && |body| <= |t| && Blank(lead) && Blank(tail) && IsValue(num, body, v);
  }

  lemma CommaThen(t: Text, inner: Text, a: Text, b: Text, close: Unit, rest: Text) returns (next: Text)
    requires inner == a + [',' as int] + b && t == inner + [close] + rest
    ensures t == a + next && next != [] && next[0] == ',' as int && next[1..] == b + [close] + rest
  {
    next := [',' as int] + (b + [close] + rest);
  }

  lemma CloseThen(t: Text, inner: Text, close: Unit, rest: Text) returns (next: Text)
    requires t == inner + [close] + rest
    ensures t == inner + next && next != [] && next[0] == close && next[1..] == rest
  {
    next := [close] + rest;
  }

  lemma {:induction false} ItemsEnd(num: NumberRule, inner: Text, items: seq<Json>, t: Text, rest: Text)
    requires Lawful(num) && items != [] && IsItems(num, inner, items) && t == inner + [']' as int] + rest
    ensures ParseItems(num, t) == Some((items, rest)) && BeginsValue(SkipSpace(t))
    decreases |inner|, 5
  {
    hide ParseValue, ParseItems, IsItems, IsPadded, SkipSpace, BeginsValue, Lawful;
    if |items| == 1 {
      LastItem(num, inner, items);
      var next := CloseThen(t, inner, ']' as int, rest);
      PaddedEnds(num, inner, items[0], t, next);
      ItemRead(num, t, items[0], next);
      assert items == [items[0]];
    } else {
      ItemsGo(num, inner, items, t, rest);
    }
  }

  lemma {:induction false} ItemsGo(num: NumberRule, inner: Text, items: seq<Json>, t: Text, rest: Text)
    requires Lawful(num) && |items| > 1 && IsItems(num, inner, items) && t == inner + [']' as int] + rest
    ensures ParseItems(num, t) == Some((items, rest)) && BeginsValue(SkipSpace(t))
    decreases |inner|, 4
  {
    hide ParseValue, ParseItems, IsItems, IsPadded, SkipSpace, BeginsValue, Lawful;
    var a, b := ItemsParts(num, inner, items);
    var next := CommaThen(t, inner, a, b, ']' as int, rest);
    ItemThen(num, inner, a, items[0], t, next);
    ItemsEnd(num, b, items[1..], next[1..], rest);
    FrontBack(items);
  }

  lemma LastItem(num: NumberRule, t: Text, items: seq<Json>)
    requires IsItems(num, t, items) && |items| == 1
    ensures IsPadded(num, t, items[0])
  {
    hide IsPadded;
  }

  lemma {:induction false} ItemThen(num: NumberRule, inner: Text, a: Text, v: Json, t: Text, next: Text)
    requires Lawful(num) && IsPadded(num, a, v) && |a| < |inner| && t == a + next && next != [] && next[0] == ',' as int
    ensures BeginsValue(SkipSpace(t))
    ensures ParseItems(num, next[1..]).Some? ==>
              ParseItems(num, t)
              == Some(([v] + ParseItems(num, next[1..]).value.0, ParseItems(num, next[1..]).value.1))
    decreases |inner|, 3
  {
    hide ParseValue, ParseItems, IsPadded, SkipSpace, BeginsValue, Lawful;
    PaddedEnds(num, a, v, t, next);
    ItemRead(num, t, v, next);
  }

  predicate Follows(next: Text) { next != [] && !IsJsonSpace(next[0]) && !NumberUnit(next[0]) }

  lemma PaddedText(part: Text, lead: Text, body: Text, tail: Text, t: Text, next: Text)
    requires part == lead + body + tail && t == part + next && Blank(tail) && Follows(next)
    ensures t == lead + (body + (tail + next)) && Terminated(tail + next)
  {
    assert tail != [] ==> (tail + next)[0] == tail[0];
  }

  lemma {:induction false} PaddedEnds(num: NumberRule, part: Text, v: Json, t: Text, next: Text)
    requires Lawful(num) && IsPadded(num, part, v) && Follows(next) && t == part + next
    ensures ParseValue(num, t).Some? && ParseValue(num, t).value.0 == v
    ensures SkipSpace(ParseValue(num, t).value.1) == next
    ensures BeginsValue(SkipSpace(t))
    decreases |part|, 2
  {
    hide ParseValue, IsValue, IsPadded, SkipSpace, Lawful;
    var lead, body, tail := PaddedParts(num, part, v);
    PaddedText(part, lead, body, tail, t, next);
    var rest := tail + next;
    ValueEnds(num, body, v, rest);
    LeadSkipped(num, lead, body + rest);
    BlankSkipped(tail, next);
    assert (body + rest)[0] == body[0];
  }

  lemma MembersParts(num: NumberRule, t: Text, keys: seq<Text>, values: seq<Json>) returns (a: Text, b: Text)
    requires IsMembers(num, t, keys, values) && |keys| > 1
    ensures |keys| == |values| && t == a + [',' as int] + b && |a| < |t| && |b| < |t|
    ensures IsMember(num, a, keys[0], values[0]) && IsMembers(num, b, keys[1..], values[1..])
  {
    a, b :|
      && t == a + [',' as int] + b && |a| < |t| && |b| < |t|
      && IsMember(num, a, keys[0], values[0]) && IsMembers(num, b, keys[1..], values[1..]);
  }

  lemma MemberParts(num: NumberRule, t: Text, key: Text, v: Json)
      returns (lead: Text, q: Text, mid: Text, value: Text)
    requires IsMember(num, t, key, v)
    ensures t == lead + ['"' as int] + q + ['"' as int] + mid + [':' as int] + value && |value| < |t|
    ensures Blank(lead) && Blank(mid) && SpellsString(q, key) && IsPadded(num, value, v)
  {
    lead, q, mid, value :|
      && t == lead + ['"' as int] + q + ['"' as int] + mid + [':' as int] + value && |value| < |t|
      && Blank(lead) && Blank(mid) && SpellsString(q, key) && IsPadded(num, value, v);
  }

  /** A member at the start of a text is read, whatever has been gathered. */
  lemma {:induction false} MemberEnds(num: NumberRule, part: Text, key: Text, v: Json, t: Text, next: Text,
      acc: map<Text, Json>)
    requires Lawful(num) && IsMember(num, part, key, v) && Follows(next) && t == part + next
    ensures SkipSpace(t) != [] && SkipSpace(t)[0] == QUOTATION
    ensures next[0] == CLOSE_BRACE ==> ParseMembers(num, t, acc) == Some((Obj(acc[key := v]), next[1..]))
    ensures next[0] == COMMA ==> ParseMembers(num, t, acc) == ParseMembers(num, next[1..], acc[key := v])
    decreases |part|, 3
  {
    hide ParseValue, ParseMembers, IsPadded, SkipSpace, Lawful, SpellsString, ReadString, IsMember;
    var lead, q, mid, value := MemberParts(num, part, key, v);
    var r := [':' as int] + (value + next);
    var u := ['"' as int] + (q + ['"' as int] + (mid + r));
    assert t == lead + u by { MemberText(part, lead, q, mid, value, t, next); }
    BlankSkipped(lead, u);
    StringEnds(u[1..], q, key, mid + r);
    BlankSkipped(mid, r);
    PaddedEnds(num, value, v, r[1..], next);
    MemberRead(num, t, acc, key, mid + r, r, v, next);
  }

  lemma MemberText(part: Text, lead: Text, q: Text, mid: Text, value: Text, t: Text, next: Text)
    requires part == lead + ['"' as int] + q + ['"' as int] + mid + [':' as int] + value && t == part + next
    ensures t == lead + (['"' as int] + (q + ['"' as int] + (mid + ([':' as int] + (value + next)))))
  {}

  lemma {:induction false} MembersEnd(num: NumberRule, inner: Text, keys: seq<Text>, values: seq<Json>, t: Text,
      rest: Text, acc: map<Text, Json>)
    requires Lawful(num) && IsMembers(num, inner, keys, values) && t == inner + ['}' as int] + rest
    ensures |keys| == |values| && ParseMembers(num, t, acc) == Some((Obj(Gathered(keys, values, acc)), rest))
    ensures SkipSpace(t) != [] && SkipSpace(t)[0] == QUOTATION
    decreases |inner|, 5
  {
    if |keys| == 1 {
      MembersLast(num, inner, keys, values);
      hide ParseMembers, IsMembers, IsMember, SkipSpace, Lawful, Gathered;
      var next := CloseThen(t, inner, '}' as int, rest);
      MemberEnds(num, inner, keys[0], values[0], t, next, acc);
      GatheredOne(keys[0], values[0], acc);
      assert keys == [keys[0]] && values == [values[0]];
    } else {
      MembersSome(num, inner, keys, values);
      hide ParseMembers, IsMembers, IsMember, SkipSpace, Lawful, Gathered;
      MembersThen(num, inner, keys, values, t, rest, acc);
    }
  }

  lemma MembersLast(num: NumberRule, t: Text, keys: seq<Text>, values: seq<Json>)
    requires IsMembers(num, t, keys, values) && |keys| == 1
    ensures |values| == 1 && IsMember(num, t, keys[0], values[0])
  {}

  lemma MembersSome(num: NumberRule, t: Text, keys: seq<Text>, values: seq<Json>)
    requires IsMembers(num, t, keys, values)
    ensures |keys| == |values| > 0
  {}

  lemma {:induction false} MembersThen(num: NumberRule, inner: Text, keys: seq<Text>, values: seq<Json>, t: Text,
      rest: Text, acc: map<Text, Json>)
    requires Lawful(num) && IsMembers(num, inner, keys, values) && t == inner + ['}' as int] + rest && |keys| > 1
    ensures |keys| == |values| && ParseMembers(num, t, acc) == Some((Obj(Gathered(keys, values, acc)), rest))
    ensures SkipSpace(t) != [] && SkipSpace(t)[0] == QUOTATION
    decreases |inner|, 4
  {
    hide ParseMembers, IsMembers, IsMember, SkipSpace, Lawful, Gathered;
    var a, b := MembersParts(num, inner, keys, values);
    var k, v, ks, vs := keys[0], values[0], keys[1..], values[1..];
    var next := CommaThen(t, inner, a, b, '}' as int, rest);
    MemberEnds(num, a, k, v, t, next, acc);
    MembersEnd(num, b, ks, vs, next[1..], rest, acc[k := v]);
    GatheredMore(k, v, ks, vs, acc);
    FrontBack(keys);
    FrontBack(values);
  }

  lemma FrontBack<T>(s: seq<T>)
    requires s != []
    ensures [s[0]] + s[1..] == s
  {}

  lemma ObjectParts(num: NumberRule, body: Text, m: map<Text, Json>)
      returns (inner: Text, keys: seq<Text>, values: seq<Json>)
    requires IsValue(num, body, Obj(m))
    ensures body == ['{' as int] + inner + ['}' as int] && |inner| < |body| && LastWins(keys, values, m)
    ensures if keys == [] then Blank(inner) else IsMembers(num, inner, keys, values)
  {
    inner, keys, values :|
      && body == ['{' as int] + inner + ['}' as int] && |inner| < |body| && LastWins(keys, values, m)
      && if keys == [] then Blank(inner) else IsMembers(num, inner, keys, values);
  }

  lemma {:induction false} ObjectEnds(num: NumberRule, body: Text, m: map<Text, Json>, rest: Text)
    requires Lawful(num) && IsValue(num, body, Obj(m))
    ensures BeginsValue(body) && ParseValue(num, body + rest) == Some((Obj(m), rest))
    decreases |body|, 0
  {
    hide ParseValue, ParseMembers, IsMembers, SkipSpace, IsValue, LastWins, Gathered, Lawful;
    var inner, keys, values := ObjectParts(num, body, m);
    var t := body + rest;
    Closed(body, inner, CLOSE_BRACE, rest);
    if keys == [] {
      BlankSkipped(inner, [CLOSE_BRACE] + rest);
      NoKeys(values, m);
    } else {
      MembersEnd(num, inner, keys, values, t[1..], rest, map[]);
      LastWinsIff(keys, values, m);
    }
    ObjectRead(num, t);
  }

  lemma NoKeys(values: seq<Json>, m: map<Text, Json>)
    requires LastWins([], values, m)
    ensures m == map[]
  {}

  // ---- JSON.parse

  /** A JSON text: a value, with white space around it. */
  lemma JsonParseIff(num: NumberRule, t: Text, v: Json)
    requires Lawful(num)
    ensures JsonParse(num, t) == Some(v) <==> IsPadded(num, t, v)
  {
    hide ParseValue, IsValue, SkipSpace, Lawful;
    if JsonParse(num, t) == Some(v) {
      var lead, body := ValueBegins(num, t);
      var rest := ParseValue(num, t).value.1;
      var tail := SkipsBlank(rest);
      assert t == lead + body + tail;
    }
    if IsPadded(num, t, v) {
      hide IsPadded;
      var lead, body, tail := PaddedParts(num, t, v);
      assert tail == tail + [];
      WholeEnds(num, lead, body, tail, v);
    }
  }

  lemma WholeEnds(num: NumberRule, lead: Text, body: Text, tail: Text, v: Json)
    requires Lawful(num) && Blank(lead) && Blank(tail) && IsValue(num, body, v)
    ensures JsonParse(num, lead + body + tail) == Some(v)
  {
    hide ParseValue, IsValue, SkipSpace, Lawful;
    ValueEnds(num, body, v, tail);
    assert lead + body + tail == lead + (body + tail);
    LeadSkipped(num, lead, body + tail);
    BlankSkipped(tail, []);
    assert tail + [] == tail;
  }
}
