/**
 * The grammar of object URLs, stated apart from the parser: what a text must be to be read as a URL
 * (src/object_url.ts).
 */
module UrlGrammar {
  import opened Wrappers
  import opened JsText
  import opened Sorting
  import opened Utf8
  import opened PercentCodec
  import opened CanonicalJson
  import opened UrlPath
  import opened UrlQuery
  import opened ObjectUrl

  // ---- escapes

  /** The unit is a hexadecimal digit, of either case, of this value. */
  predicate HexOf(u: int, n: int) {
    (0 <= n < 10 && u == 0x30 + n) || (10 <= n < 16 && (u == 0x41 + n - 10 || u == 0x61 + n - 10))
  }

  /** `raw` spells these bytes: each as itself or as an escape of two hexadecimal digits. */
  predicate Spells(raw: Bytes, bytes: Bytes)
    decreases |raw|
  {
    if bytes == [] then raw == []
    else
      || (raw != [] && raw[0] != PERCENT && raw[0] == bytes[0] && Spells(raw[1..], bytes[1..]))
      || (|raw| >= 3 && raw[0] == PERCENT && HexOf(raw[1], bytes[0] / 16) && HexOf(raw[2], bytes[0] % 16)
          && Spells(raw[3..], bytes[1..]))
  }

  /** The bytes are the UTF-8 form of a text, perhaps after a byte order mark. */
  predicate Utf8Of(bytes: Bytes, d: Text) {
    WellFormed(d) && if BOM_BYTES <= bytes then bytes == BOM_BYTES + TextEncode(d) else bytes == TextEncode(d)
  }

  ghost predicate Decodes(raw: Text, d: Text) { exists bytes :: Spells(TextEncode(raw), bytes) && Utf8Of(bytes, d) }

  lemma {:induction false} UnescapeIff(raw: Bytes, bytes: Bytes)
    ensures Unescape(raw) == Some(bytes) <==> Spells(raw, bytes)
    decreases |raw|
  {
    if raw != [] && bytes != [] {
      if raw[0] == PERCENT {
        if |raw| >= 3 {
          UnescapeIff(raw[3..], bytes[1..]);
          HexPair(raw[1], raw[2], bytes[0]);
          assert bytes == [bytes[0]] + bytes[1..];
        }
      } else {
        UnescapeIff(raw[1..], bytes[1..]);
        assert bytes == [bytes[0]] + bytes[1..];
      }
    }
  }

  lemma HexPair(h: Byte, l: Byte, b: Byte)
    ensures HexValue(h).Some? && HexValue(l).Some? && HexValue(h).value * 16 + HexValue(l).value == b
       <==> HexOf(h, b / 16) && HexOf(l, b % 16)
  {
    HexIs(h);
    HexIs(l);
  }

  lemma HexIs(u: Byte)
    ensures forall n :: HexOf(u, n) <==> HexValue(u) == Some(n)
  {}

  lemma TextDecodeIff(bytes: Bytes, d: Text)
    ensures TextDecode(bytes) == Some(d) <==> Utf8Of(bytes, d)
  {
    var body := if BOM_BYTES <= bytes then bytes[3..] else bytes;
    if TextDecode(bytes) == Some(d) {
      DecodedWellFormed(bytes);
      EncodeDecode(body);
      CodePointsUnits(Decode(body).value);
    }
    if Utf8Of(bytes, d) {
      assert body == TextEncode(d);
      DecodeEncode(CodePoints(d));
      UnitsCodePoints(d);
    }
  }

  /** Decoding a component: the text it spells, in UTF-8. */
  lemma DecodedIff(raw: Text, d: Text)
    ensures Decoded(raw) == Some(d) <==> Decodes(raw, d)
  {
    hide Utf8Of, TextEncode, TextDecode, Unescape, Spells;
    var u := Unescape(TextEncode(raw));
    if u.Some? {
      UnescapeIff(TextEncode(raw), u.value);
      TextDecodeIff(u.value, d);
    }
    if Decodes(raw, d) {
      var bytes :| Spells(TextEncode(raw), bytes) && Utf8Of(bytes, d);
      UnescapeIff(TextEncode(raw), bytes);
      TextDecodeIff(bytes, d);
    }
  }

  // ---- paths

  /** Segments, each after a slash, and perhaps a slash at the end. */
  function Slashed(raws: seq<Text>, slash: bool): Text {
    if raws == [] then if slash then [SLASH] else [] else [SLASH] + raws[0] + Slashed(raws[1..], slash)
  }

  /** Every segment stands for a decoded one that is not empty and no dot segment. */
  ghost predicate SegmentsRead(raws: seq<Text>, ds: seq<Text>) {
    && |raws| == |ds|
    && forall i | 0 <= i < |raws| ::
         SLASH !in raws[i] && Decodes(raws[i], ds[i]) && ds[i] != [] && ds[i] != Lit(".") && ds[i] != Lit("..")
  }

  ghost predicate PathReadAs(path: Text, trim: bool, t: Text, raws: seq<Text>, ds: seq<Text>, slash: bool) {
    && path == Slashed(raws, slash) && SegmentsRead(raws, ds)
    && (raws != [] || (slash && !trim))
    && t == PathText(ds, slash && !trim)
  }

  /** The path text stands for good segments, and `t` is their normal form; a trailing slash is kept or dropped. */
  ghost predicate ReadsPath(path: Text, trim: bool, t: Text) {
    exists raws, ds, slash :: PathReadAs(path, trim, t, raws, ds, slash)
  }

  /** The segments and the trailing slash as the splitter gives them. */
  function RawList(raws: seq<Text>, slash: bool): seq<Text> { if slash then raws + [[]] else raws }

  lemma {:induction false} SlashedIsJoin(raws: seq<Text>, slash: bool)
    requires raws != [] || slash
    ensures Slashed(raws, slash) == [SLASH] + Join(RawList(raws, slash), SLASH)
  {
    var list := RawList(raws, slash);
    if raws == [] {
      assert list == [[]];
    } else if raws[1..] != [] || slash {
      SlashedIsJoin(raws[1..], slash);
      assert list == [raws[0]] + RawList(raws[1..], slash);
      JoinFirst(raws[0], RawList(raws[1..], slash));
    } else {
      assert raws == [raws[0]] && list == raws;
    }
  }

  lemma JoinFirst(first: Text, rest: seq<Text>)
    requires rest != []
    ensures Join([first] + rest, SLASH) == first + [SLASH] + Join(rest, SLASH)
  {
    assert ([first] + rest)[1..] == rest;
  }

  ghost predicate AllDecode(raws: seq<Text>, ds: seq<Text>) {
    |raws| == |ds| && forall i | 0 <= i < |raws| :: Decoded(raws[i]) == Some(ds[i]) && GoodSegment(ds[i])
  }

  ghost predicate NormAs(raws: seq<Text>, slash: bool, t: Text) {
    exists ds :: AllDecode(raws, ds) && t == PathText(ds, slash)
  }

  lemma NormAsFront(raws: seq<Text>, slash: bool, t: Text, d: Text, rest: Text)
    requires raws != [] && Decoded(raws[0]) == Some(d) && GoodSegment(d) && NormAs(raws[1..], slash, rest)
    requires t == [SLASH] + Encoded(Segment, d) + rest
    ensures NormAs(raws, slash, t)
  {
    hide Decoded, Encoded, GoodSegment;
    var es :| AllDecode(raws[1..], es) && rest == PathText(es, slash);
    var ds := [d] + es;
    assert ds[1..] == es;
    assert forall i | 0 < i < |raws| :: raws[i] == raws[1..][i - 1] && ds[i] == es[i - 1];
    assert AllDecode(raws, ds);
  }

  lemma NormAsRest(raws: seq<Text>, slash: bool, t: Text) returns (d: Text, rest: Text)
    requires raws != [] && NormAs(raws, slash, t)
    ensures Decoded(raws[0]) == Some(d) && GoodSegment(d) && NormAs(raws[1..], slash, rest)
    ensures t == [SLASH] + Encoded(Segment, d) + rest
  {
    hide Decoded, Encoded, GoodSegment;
    var ds :| AllDecode(raws, ds) && t == PathText(ds, slash);
    d, rest := ds[0], PathText(ds[1..], slash);
    assert forall i | 0 <= i < |raws| - 1 :: raws[1..][i] == raws[i + 1] && ds[1..][i] == ds[i + 1];
    assert AllDecode(raws[1..], ds[1..]);
  }

  lemma NormHead(list: seq<Text>, trim: bool)
    requires list != [] && (list[0] != [] || |list| > 1 || trim)
    ensures NormSegments(list, trim) ==
            match Decoded(list[0])
            case None => Err(BadEscape)
            case Some(d) =>
              if !GoodSegment(d) then Err(Ambiguous)
              else Onto([SLASH] + Encoded(Segment, d), NormSegments(list[1..], trim))
  {
    hide Decoded, Encoded, GoodSegment;
  }

  lemma NothingAs(slash: bool, t: Text)
    ensures NormAs([], slash, t) <==> t == if slash then [SLASH] else []
  {
    var none: seq<Text> := [];
    assert AllDecode([], none);
    assert PathText(none, slash) == if slash then [SLASH] else [];
    if NormAs([], slash, t) {
      var ds :| AllDecode([], ds) && t == PathText(ds, slash);
      assert ds == none;
    }
  }

  lemma {:induction false} NormIff(raws: seq<Text>, slash: bool, trim: bool, t: Text)
    requires trim ==> !slash
    requires raws != [] ==> raws[|raws| - 1] != [] || trim || slash
    ensures NormSegments(RawList(raws, slash), trim) == Ok(t) <==> NormAs(raws, slash, t)
    decreases |raws|
  {
    hide Decoded, Encoded, GoodSegment, NormAs;
    var list := RawList(raws, slash);
    if raws == [] {
      NothingAs(slash, t);
      assert list == if slash then [[]] else [];
    } else {
      var rest := raws[1..];
      assert list[0] == raws[0] && list[1..] == RawList(rest, slash);
      NormHead(list, trim);
      hide NormSegments;
      var r := NormSegments(RawList(rest, slash), trim);
      if Decoded(raws[0]).Some? && GoodSegment(Decoded(raws[0]).value) && r.Ok? {
        NormIff(rest, slash, trim, r.value);
        if Onto([SLASH] + Encoded(Segment, Decoded(raws[0]).value), r) == Ok(t) {
          NormAsFront(raws, slash, t, Decoded(raws[0]).value, r.value);
        }
      }
      if NormAs(raws, slash, t) {
        var d, tail := NormAsRest(raws, slash, t);
        NormIff(rest, slash, trim, tail);
      }
    }
  }

  lemma DotTexts()
    ensures Lit(".") == DOT_TEXT && Lit("..") == DOT_DOT_TEXT
  {}

  lemma ReadIsDecode(raws: seq<Text>, ds: seq<Text>)
    ensures SegmentsRead(raws, ds) <==> AllDecode(raws, ds) && forall i | 0 <= i < |raws| :: SLASH !in raws[i]
  {
    hide Decodes, Decoded;
    DotTexts();
    forall i | 0 <= i < |raws| && i < |ds|
      ensures Decoded(raws[i]) == Some(ds[i]) <==> Decodes(raws[i], ds[i])
    {
      DecodedIff(raws[i], ds[i]);
    }
  }

  /** A read segment is not empty. */
  lemma EmptyDecodes()
    ensures Decoded([]) == Some([])
  {
    AsciiEncode([]);
  }

  lemma SlashesOut(list: seq<Text>)
    requires list != [] && forall i | 0 <= i < |list| :: SLASH !in list[i]
    ensures list[|list| - 1] != [] ==> Join(list, SLASH) != [] && Join(list, SLASH)[|Join(list, SLASH)| - 1] != SLASH
    decreases |list|
  {
    if |list| > 1 {
      SlashesOut(list[1..]);
      assert list[1..][|list| - 2] == list[|list| - 1];
    }
  }

  lemma {:induction false} JoinLastEmpty(list: seq<Text>)
    requires list != []
    ensures Join(list + [[]], SLASH) == Join(list, SLASH) + [SLASH]
  {
    if |list| > 1 {
      JoinLastEmpty(list[1..]);
      assert (list + [[]])[1..] == list[1..] + [[]];
    } else {
      assert list == [list[0]] && (list + [[]])[1..] == [[]];
    }
  }

  /** What the parser splits a path that is read into. */
  lemma SplitsToRaws(raws: seq<Text>, slash: bool, trim: bool)
    requires raws != [] || (slash && !trim)
    requires forall i | 0 <= i < |raws| :: SLASH !in raws[i] && raws[i] != []
    ensures var path := Slashed(raws, slash);
            path != [] && path[0] == SLASH && RawSegments(path, trim) == RawList(raws, slash && !trim)
  {
    SlashedIsJoin(raws, slash);
    var body := Slashed(raws, slash)[1..];
    assert body == Join(RawList(raws, slash), SLASH);
    if trim && slash {
      JoinLastEmpty(raws);
      assert body[..|body| - 1] == Join(raws, SLASH);
      SplitJoin(raws, SLASH);
    } else if trim {
      SlashesOut(raws);
      SplitJoin(raws, SLASH);
    } else {
      SplitJoin(RawList(raws, slash), SLASH);
    }
  }

  /** And back: a path whose segments are these is their slashed text. */
  lemma RawsSplit(path: Text, trim: bool) returns (raws: seq<Text>, slash: bool)
    requires path != [] && path[0] == SLASH
    ensures path == Slashed(raws, slash) && RawSegments(path, trim) == RawList(raws, slash && !trim)
    ensures forall i | 0 <= i < |raws| :: SLASH !in raws[i]
    ensures raws != [] || (slash && !trim)
    ensures !trim && raws != [] ==> raws[|raws| - 1] != [] || slash
  {
    var body := path[1..];
    assert path == [SLASH] + body;
    hide Split, Join, Slashed;
    if trim && body != [] && body[|body| - 1] == SLASH {
      slash := true;
      var front := body[..|body| - 1];
      assert body == front + [SLASH];
      raws := Split(front, SLASH);
      JoinSplit(front, SLASH);
      SlashedIsJoin(raws, true);
      JoinLastEmpty(raws);
    } else if trim {
      slash := false;
      raws := Split(body, SLASH);
      JoinSplit(body, SLASH);
      SlashedIsJoin(raws, false);
    } else {
      raws, slash := UntrimmedSplit(body);
    }
  }

  lemma UntrimmedSplit(body: Text) returns (raws: seq<Text>, slash: bool)
    ensures [SLASH] + body == Slashed(raws, slash) && Split(body, SLASH) == RawList(raws, slash)
    ensures forall i | 0 <= i < |raws| :: SLASH !in raws[i]
    ensures raws != [] || slash
    ensures raws != [] ==> raws[|raws| - 1] != [] || slash
  {
    hide Split, Join, Slashed;
    var list := Split(body, SLASH);
    JoinSplit(body, SLASH);
    slash := list[|list| - 1] == [];
    raws := if slash then list[..|list| - 1] else list;
    assert list == list[..|list| - 1] + [list[|list| - 1]];
    assert RawList(raws, slash) == list;
    SlashedIsJoin(raws, slash);
  }

  /** What a path must be to be normalised, and what it becomes. */
  lemma NormalizedIff(path: Text, trim: bool, t: Text)
    ensures Normalized(path, trim) == Ok(t) <==> ReadsPath(path, trim, t)
  {
    hide NormSegments, RawSegments, PathText, Slashed, AllDecode;
    if Normalized(path, trim) == Ok(t) {
      var raws, slash := RawsSplit(path, trim);
      NormIff(raws, slash && !trim, trim, t);
      var ds :| AllDecode(raws, ds) && t == PathText(ds, slash && !trim);
      ReadIsDecode(raws, ds);
      assert PathReadAs(path, trim, t, raws, ds, slash);
    }
    if ReadsPath(path, trim, t) {
      var raws, ds, slash :| PathReadAs(path, trim, t, raws, ds, slash);
      ReadIsDecode(raws, ds);
      NonEmptyRaws(raws, ds);
      SplitsToRaws(raws, slash, trim);
      assert NormAs(raws, slash && !trim, t);
      NormIff(raws, slash && !trim, trim, t);
    }
  }

  lemma NonEmptyRaws(raws: seq<Text>, ds: seq<Text>)
    requires AllDecode(raws, ds)
    ensures forall i | 0 <= i < |raws| :: raws[i] != []
  {
    hide Decoded;
    EmptyDecodes();
  }

  // ---- queries

  /** The same text with spaces for its pluses. */
  predicate SpacesForPluses(a: Text, b: Text) {
    |a| == |b| && forall i | 0 <= i < |a| :: b[i] == if a[i] == PLUS then 0x20 else a[i]
  }

  /** A component of a query: pluses are spaces, then escapes are decoded. */
  ghost predicate ReadsComponent(raw: Text, d: Text) {
    exists spaced :: SpacesForPluses(raw, spaced) && Decodes(spaced, d)
  }

  /**
   * The pair's key and value as they stand: what is before the first equals sign, and what is after it, if there is
   * one.
   */
  predicate PairCut(pair: Text, rawKey: Text, rawValue: Text) {
    EQUALS !in rawKey && (pair == rawKey + [EQUALS] + rawValue || (pair == rawKey && rawValue == []))
  }

  ghost predicate ReadsPair(num: NumberRule, pair: Text, key: Text, value: Text) {
    exists rawKey, rawValue, read ::
      && PairCut(pair, rawKey, rawValue) && ReadsComponent(rawKey, key) && ReadsComponent(rawValue, read)
      && StoresAs(num, key, read, value)
  }

  lemma ComponentIff(raw: Text, d: Text)
    ensures Decoded(PlusToSpace(raw)) == Some(d) <==> ReadsComponent(raw, d)
  {
    hide Decodes, Decoded;
    assert SpacesForPluses(raw, PlusToSpace(raw));
    DecodedIff(PlusToSpace(raw), d);
    if spaced :| SpacesForPluses(raw, spaced) && Decodes(spaced, d) {
      assert spaced == PlusToSpace(raw);
    }
  }

  lemma CutOf(pair: Text) returns (rawKey: Text, rawValue: Text)
    ensures PairCut(pair, rawKey, rawValue)
    ensures var eq := IndexOf(pair, EQUALS);
            rawKey == (if eq.None? then pair else pair[..eq.value]) && rawValue == if eq.None? then []
                else pair[eq.value + 1..]
  {
    var eq := IndexOf(pair, EQUALS);
    rawKey, rawValue := if eq.None? then pair else pair[..eq.value], if eq.None? then [] else pair[eq.value + 1..];
    if eq.Some? { assert pair == rawKey + [EQUALS] + rawValue; }
  }

  lemma CutUnique(pair: Text, a: Text, b: Text, c: Text, d: Text)
    requires PairCut(pair, a, b) && PairCut(pair, c, d)
    ensures a == c && b == d
  {
    assert pair == c + [EQUALS] + d ==> EQUALS in pair;
    if pair == a + [EQUALS] + b {
      IndexOfAt(a, EQUALS, b);
      assert EQUALS in pair;
      assert pair == c + [EQUALS] + d;
      IndexOfAt(c, EQUALS, d);
      assert pair[..|a|] == a && pair[|a| + 1..] == b && pair[..|c|] == c && pair[|c| + 1..] == d;
    }
  }

  /** The pair of the two pieces as they decode. */
  function PairOf(num: NumberRule, k: Option<Text>, v: Option<Text>): Result<(Text, Text), QueryError> {
    if k.None? || v.None? then Err(BadComponent)
    else
      match StoredValue(num, k.value, v.value)
      case Err(e) => Err(e)
      case Ok(stored) => Ok((k.value, stored))
  }

  lemma PairIs(num: NumberRule, pair: Text, rawKey: Text, rawValue: Text)
    requires var eq := IndexOf(pair, EQUALS);
             && rawKey == (if eq.None? then pair else pair[..eq.value])
             && rawValue == if eq.None? then [] else pair[eq.value + 1..]
    ensures ParsePair(num, pair) == PairOf(num, Decoded(PlusToSpace(rawKey)), Decoded(PlusToSpace(rawValue)))
  {
    hide PlusToSpace, Decoded, StoredValue, IndexOf;
  }

  /** What is stored for a component read: itself, or the canonical text of a selector. */
  predicate StoresAs(num: NumberRule, key: Text, read: Text, value: Text) {
    if key == Lit("selector") then JsonParse(num, read).Some? && value == CanonicalText(JsonParse(num, read).value)
    else value == read
  }

  lemma StoresIff(num: NumberRule, key: Text, read: Text, value: Text)
    ensures StoredValue(num, key, read) == Ok(value) <==> StoresAs(num, key, read, value)
  {
    hide JsonParse, CanonicalText, Lit;
  }

  lemma PairIff(num: NumberRule, pair: Text, key: Text, value: Text)
    ensures ParsePair(num, pair) == Ok((key, value)) <==> ReadsPair(num, pair, key, value)
  {
    hide PlusToSpace, Decoded, ReadsComponent, StoresAs, StoredValue, IndexOf, PairCut, ParsePair;
    var rawKey, rawValue := CutOf(pair);
    PairIs(num, pair, rawKey, rawValue);
    var k, v := Decoded(PlusToSpace(rawKey)), Decoded(PlusToSpace(rawValue));
    if ParsePair(num, pair) == Ok((key, value)) {
      ComponentIff(rawKey, k.value);
      ComponentIff(rawValue, v.value);
      StoresIff(num, key, v.value, value);
    }
    if ReadsPair(num, pair, key, value) {
      var a, b, read :|
        PairCut(pair, a, b) && ReadsComponent(a, key) && ReadsComponent(b, read) && StoresAs(num, key, read, value);
      CutUnique(pair, a, b, rawKey, rawValue);
      ComponentIff(rawKey, key);
      ComponentIff(rawValue, read);
      StoresIff(num, key, read, value);
    }
  }

  function NonEmpty(pairs: seq<Text>): seq<Text> {
    if pairs == [] then [] else (if pairs[0] == [] then [] else [pairs[0]]) + NonEmpty(pairs[1..])
  }

  ghost predicate EntriesRead(num: NumberRule, pairs: seq<Text>, entries: seq<(Text, Text)>) {
    |entries| == |pairs| && forall i | 0 <= i < |pairs| :: ReadsPair(num, pairs[i], entries[i].0, entries[i].1)
  }

  /** No key repeats, nor is one of these. */
  predicate KeysNew(entries: seq<(Text, Text)>, keys: set<Text>) {
    && (forall i | 0 <= i < |entries| :: entries[i].0 !in keys)
    && (forall i, j | 0 <= i < j < |entries| :: entries[i].0 != entries[j].0)
  }

  function KeySet(entries: seq<(Text, Text)>): set<Text> { set i | 0 <= i < |entries| :: entries[i].0 }

  /** The map with these entries added. */
  predicate Adds(acc: QueryMap, entries: seq<(Text, Text)>, m: QueryMap) {
    && m.Keys == acc.Keys + KeySet(entries)
    && (forall k | k in acc :: m[k] == acc[k])
    && (forall i | 0 <= i < |entries| :: m[entries[i].0] == entries[i].1)
  }

  ghost predicate PairsReadAs(num: NumberRule, pairs: seq<Text>, acc: QueryMap, entries: seq<(Text, Text)>,
      m: QueryMap) {
    EntriesRead(num, NonEmpty(pairs), entries) && KeysNew(entries, acc.Keys) && Adds(acc, entries, m)
  }

  ghost predicate ReadsPairs(num: NumberRule, pairs: seq<Text>, acc: QueryMap, m: QueryMap) {
    exists entries :: PairsReadAs(num, pairs, acc, entries, m)
  }

  /**
   * The query's pairs are cut at ampersands, empty ones skipped; keys are distinct, and the map holds what they say.
   */
  ghost predicate ReadsQuery(num: NumberRule, query: Text, m: QueryMap) {
    exists pairs :: pairs != [] && (forall i | 0 <= i < |pairs| :: AMPERSAND !in pairs[i])
      && query == Join(pairs, AMPERSAND) && ReadsPairs(num, pairs, map[], m)
  }

  lemma KeySetFirst(e: (Text, Text), entries: seq<(Text, Text)>)
    ensures KeySet([e] + entries) == {e.0} + KeySet(entries)
  {
    var all := [e] + entries;
    assert forall i | 0 <= i < |entries| :: entries[i] == all[i + 1];
    forall k
      ensures k in KeySet(all) <==> k == e.0 || k in KeySet(entries)
    {
      if k in KeySet(all) {
        var i :| 0 <= i < |all| && all[i].0 == k;
        assert i > 0 ==> entries[i - 1].0 == k;
      }
      if k in KeySet(entries) {
        var i :| 0 <= i < |entries| && entries[i].0 == k;
        assert all[i + 1].0 == k;
      }
      assert all[0] == e;
    }
  }

  lemma KeysNewFirst(keys: set<Text>, e: (Text, Text), entries: seq<(Text, Text)>)
    ensures KeysNew([e] + entries, keys) <==> e.0 !in keys && KeysNew(entries, keys + {e.0})
  {
    var all := [e] + entries;
    if KeysNew(all, keys) {
      assert all[0] == e;
      assert forall i | 0 <= i < |entries| :: entries[i] == all[i + 1];
    }
    if e.0 !in keys && KeysNew(entries, keys + {e.0}) {
      assert forall i | 0 < i < |all| :: all[i] == entries[i - 1];
    }
  }

  lemma AddsFirst(acc: QueryMap, e: (Text, Text), entries: seq<(Text, Text)>, m: QueryMap)
    requires e.0 !in acc
    ensures KeysNew([e] + entries, acc.Keys) && Adds(acc, [e] + entries, m)
       <==> KeysNew(entries, acc[e.0 := e.1].Keys) && Adds(acc[e.0 := e.1], entries, m)
  {
    var all, next := [e] + entries, acc[e.0 := e.1];
    KeysNewFirst(acc.Keys, e, entries);
    assert next.Keys == acc.Keys + {e.0};
    hide KeysNew;
    if Adds(acc, all, m) { AddsNext(acc, e, entries, m); }
    if KeysNew(entries, next.Keys) && Adds(next, entries, m) { AddsBefore(acc, e, entries, m); }
  }

  lemma AddsNext(acc: QueryMap, e: (Text, Text), entries: seq<(Text, Text)>, m: QueryMap)
    requires Adds(acc, [e] + entries, m)
    ensures Adds(acc[e.0 := e.1], entries, m)
  {
    var all := [e] + entries;
    KeySetFirst(e, entries);
    hide KeySet;
    assert all[0] == e && forall i | 0 <= i < |entries| :: entries[i] == all[i + 1];
  }

  lemma AddsBefore(acc: QueryMap, e: (Text, Text), entries: seq<(Text, Text)>, m: QueryMap)
    requires e.0 !in acc && Adds(acc[e.0 := e.1], entries, m)
    ensures Adds(acc, [e] + entries, m)
  {
    var all := [e] + entries;
    KeySetFirst(e, entries);
    hide KeySet;
    assert all[0] == e && forall i | 0 < i < |all| :: all[i] == entries[i - 1];
  }

  lemma NothingAdded(num: NumberRule, acc: QueryMap, m: QueryMap)
    ensures ReadsPairs(num, [], acc, m) <==> m == acc
  {
    var none: seq<(Text, Text)> := [];
    if m == acc { assert PairsReadAs(num, [], acc, none, m); }
  }

  lemma ReadsFirst(num: NumberRule, pairs: seq<Text>, acc: QueryMap, key: Text, value: Text, m: QueryMap)
    requires pairs != [] && pairs[0] != [] && ReadsPair(num, pairs[0], key, value) && key !in acc
    requires ReadsPairs(num, pairs[1..], acc[key := value], m)
    ensures ReadsPairs(num, pairs, acc, m)
  {
    hide ReadsPair, KeysNew, Adds;
    var entries :| PairsReadAs(num, pairs[1..], acc[key := value], entries, m);
    AddsFirst(acc, (key, value), entries, m);
    var all := [(key, value)] + entries;
    assert NonEmpty(pairs) == [pairs[0]] + NonEmpty(pairs[1..]);
    assert EntriesRead(num, NonEmpty(pairs), all);
    assert PairsReadAs(num, pairs, acc, all, m);
  }

  lemma ReadsRest(num: NumberRule, pairs: seq<Text>, acc: QueryMap, m: QueryMap) returns (key: Text, value: Text)
    requires pairs != [] && pairs[0] != [] && ReadsPairs(num, pairs, acc, m)
    ensures ReadsPair(num, pairs[0], key, value) && key !in acc
    ensures ReadsPairs(num, pairs[1..], acc[key := value], m)
  {
    hide ReadsPair, Adds, NonEmpty;
    var all: seq<(Text, Text)> :| PairsReadAs(num, pairs, acc, all, m);
    NonEmptyCons(pairs);
    var entries := all[1..];
    key, value := all[0].0, all[0].1;
    assert all == [(key, value)] + entries;
    AddsFirst(acc, (key, value), entries, m);
    hide KeysNew;
    RestRead(num, pairs[0], NonEmpty(pairs[1..]), (key, value), entries);
    assert PairsReadAs(num, pairs[1..], acc[key := value], entries, m);
  }

  lemma NonEmptyCons(pairs: seq<Text>)
    requires pairs != [] && pairs[0] != []
    ensures NonEmpty(pairs) == [pairs[0]] + NonEmpty(pairs[1..])
  {}

  lemma RestRead(num: NumberRule, first: Text, rest: seq<Text>, e: (Text, Text), entries: seq<(Text, Text)>)
    requires EntriesRead(num, [first] + rest, [e] + entries)
    ensures ReadsPair(num, first, e.0, e.1) && EntriesRead(num, rest, entries)
  {
    hide ReadsPair;
    var pairs, all := [first] + rest, [e] + entries;
    assert pairs[0] == first && all[0] == e;
    forall i | 0 <= i < |rest|
      ensures ReadsPair(num, rest[i], entries[i].0, entries[i].1)
    {
      assert rest[i] == pairs[i + 1] && entries[i] == all[i + 1];
    }
  }

  lemma {:induction false} PairsIff(num: NumberRule, pairs: seq<Text>, acc: QueryMap, m: QueryMap)
    ensures ParsePairs(num, pairs, acc) == Ok(m) <==> ReadsPairs(num, pairs, acc, m)
    decreases |pairs|
  {
    hide ParsePair, ReadsPair, ReadsPairs;
    if pairs == [] {
      NothingAdded(num, acc, m);
    } else if pairs[0] == [] {
      PairsIff(num, pairs[1..], acc, m);
      SkipsEmpty(num, pairs, acc, m);
    } else {
      var r := ParsePair(num, pairs[0]);
      if r.Ok? {
        PairIff(num, pairs[0], r.value.0, r.value.1);
        PairsIff(num, pairs[1..], acc[r.value.0 := r.value.1], m);
        if r.value.0 !in acc && ReadsPairs(num, pairs[1..], acc[r.value.0 := r.value.1], m) {
          ReadsFirst(num, pairs, acc, r.value.0, r.value.1, m);
        }
      }
      if ReadsPairs(num, pairs, acc, m) {
        var key, value := ReadsRest(num, pairs, acc, m);
        PairIff(num, pairs[0], key, value);
      }
    }
  }

  lemma SkipsEmpty(num: NumberRule, pairs: seq<Text>, acc: QueryMap, m: QueryMap)
    requires pairs != [] && pairs[0] == []
    ensures ReadsPairs(num, pairs, acc, m) <==> ReadsPairs(num, pairs[1..], acc, m)
  {
    hide EntriesRead, KeysNew, Adds;
    assert NonEmpty(pairs) == NonEmpty(pairs[1..]);
    if entries :| PairsReadAs(num, pairs, acc, entries, m) { assert PairsReadAs(num, pairs[1..], acc, entries, m); }
    if entries :| PairsReadAs(num, pairs[1..], acc, entries, m) { assert PairsReadAs(num, pairs, acc, entries, m); }
  }

  /** What a query must be to be read, and what it says. */
  lemma ParsedQueryIff(num: NumberRule, query: Text, m: QueryMap)
    ensures ParsedQuery(num, query) == Ok(m) <==> ReadsQuery(num, query, m)
  {
    hide ParsePairs, ReadsPairs, Split, Join;
    var list := Split(query, AMPERSAND);
    JoinSplit(query, AMPERSAND);
    PairsIff(num, list, map[], m);
    if pairs :| pairs != [] && (forall i | 0 <= i < |pairs| :: AMPERSAND !in pairs[i])
                && query == Join(pairs, AMPERSAND) && ReadsPairs(num, pairs, map[], m) {
      SplitJoin(pairs, AMPERSAND);
    }
  }

  // ---- a plus is a space

  /** `y` is `x` with a space for some escapes `%20`. */
  predicate Spaced(x: seq<int>, y: seq<int>, space: int)
    decreases |x|
  {
    if x == [] then y == []
    else
      y != [] &&
      ((x[0] == y[0] && Spaced(x[1..], y[1..], space))
       || (|x| >= 3 && x[0] == 0x25 && x[1] == 0x32 && x[2] == 0x30 && y[0] == space && Spaced(x[3..], y[1..], space)))
  }

  lemma {:induction false} SpacedShorter(x: seq<int>, y: seq<int>, space: int)
    requires Spaced(x, y, space)
    ensures |y| <= |x|
    decreases |x|
  {
    if x != [] {
      if x[0] == y[0] && Spaced(x[1..], y[1..], space) { SpacedShorter(x[1..], y[1..], space); }
      else { SpacedShorter(x[3..], y[1..], space); }
    }
  }

  lemma {:induction false} SpacedUnescape(x: Bytes, y: Bytes)
    requires Spaced(x, y, 0x20)
    ensures Unescape(x) == Unescape(y)
    decreases |x|
  {
    SpacedShorter(x, y, 0x20);
    if x != [] {
      if x[0] == y[0] && Spaced(x[1..], y[1..], 0x20) {
        if x[0] != PERCENT {
          SpacedUnescape(x[1..], y[1..]);
        } else {
          SpacedEscape(x, y);
          if EscapeAt(x).Some? { SpacedUnescape(x[3..], y[3..]); }
        }
      } else {
        SpacedUnescape(x[3..], y[1..]);
        assert HexValue(0x32) == Some(2) && HexValue(0x30) == Some(0);
        assert EscapeAt(x) == Some(0x20);
      }
    }
  }

  /** The two digits of an escape cannot be part of another. */
  lemma SpacedEscape(x: Bytes, y: Bytes)
    requires x != [] && y != [] && x[0] == PERCENT == y[0] && Spaced(x[1..], y[1..], 0x20)
    ensures EscapeAt(x) == EscapeAt(y)
    ensures EscapeAt(x).Some? ==> |x| >= 3 && |y| >= 3 && Spaced(x[3..], y[3..], 0x20)
  {
    var a, b := x[1..], y[1..];
    SpacedShorter(a, b, 0x20);
    assert HexValue(0x25).None? && HexValue(0x20).None?;
    if |x| >= 3 {
      assert a[0] == x[1] && a[1] == x[2];
      if a[0] == b[0] && Spaced(a[1..], b[1..], 0x20) {
        var c, d := a[1..], b[1..];
        assert c[0] == x[2] && c[1..] == x[3..] && |d| == |y| - 2;
        if c[0] == d[0] && Spaced(c[1..], d[1..], 0x20) {
          assert d[0] == y[2] && d[1..] == y[3..];
        } else {
          assert x[2] == 0x25 && y[2] == 0x20;
        }
      } else {
        assert x[1] == 0x25 && y[1] == 0x20;
      }
    }
  }

  lemma {:induction false} SpacedFront(front: seq<int>, x: seq<int>, y: seq<int>, space: int)
    requires Spaced(x, y, space)
    ensures Spaced(front + x, front + y, space)
  {
    if front == [] {
      assert front + x == x && front + y == y;
    } else {
      SpacedFront(front[1..], x, y, space);
      assert (front + x)[1..] == front[1..] + x && (front + y)[1..] == front[1..] + y;
    }
  }

  lemma {:induction false} SpacedEncode(ps: seq<Point>, qs: seq<Point>)
    requires Spaced(ps, qs, 0x20)
    ensures Spaced(Encode(ps), Encode(qs), 0x20)
    decreases |ps|
  {
    if ps != [] {
      if ps[0] == qs[0] && Spaced(ps[1..], qs[1..], 0x20) {
        SpacedEncode(ps[1..], qs[1..]);
        SpacedFront(EncodePoint(ps[0]), Encode(ps[1..]), Encode(qs[1..]), 0x20);
      } else {
        SpacedEncode(ps[3..], qs[1..]);
        EncodeEscape(ps);
        var x, y := Encode(ps), Encode(qs);
        assert y == [0x20] + Encode(qs[1..]);
        assert x[3..] == Encode(ps[3..]) && y[1..] == Encode(qs[1..]);
      }
    }
  }

  lemma EncodeEscape(ps: seq<Point>)
    requires |ps| >= 3 && ps[0] == 0x25 && ps[1] == 0x32 && ps[2] == 0x30
    ensures Encode(ps) == [0x25, 0x32, 0x30] + Encode(ps[3..])
  {
    hide Encode, EncodePoint;
    var one, two, three := ps[1..], ps[2..], ps[3..];
    assert one[0] == 0x32 && one[1..] == two && two[0] == 0x30 && two[1..] == three;
    EncodeAscii(ps);
    EncodeAscii(one);
    EncodeAscii(two);
    assert [0x25] + ([0x32] + ([0x30] + Encode(three))) == [0x25, 0x32, 0x30] + Encode(three);
  }

  lemma EncodeAscii(ps: seq<Point>)
    requires ps != [] && ps[0] < 0x80
    ensures Encode(ps) == [ps[0]] + Encode(ps[1..])
  {
  }

  lemma {:induction false} SpacedScalars(ps: seq<Point>, qs: seq<Point>)
    requires Spaced(ps, qs, 0x20)
    ensures Spaced(Scalars(ps), Scalars(qs), 0x20)
    decreases |ps|
  {
    if ps != [] {
      if ps[0] == qs[0] && Spaced(ps[1..], qs[1..], 0x20) {
        SpacedScalars(ps[1..], qs[1..]);
        assert Scalars(ps)[1..] == Scalars(ps[1..]) && Scalars(qs)[1..] == Scalars(qs[1..]);
      } else {
        SpacedScalars(ps[3..], qs[1..]);
        assert Scalars(ps)[3..] == Scalars(ps[3..]) && Scalars(qs)[1..] == Scalars(qs[1..]);
      }
    }
  }

  lemma {:induction false} SpacedPoints(a: Text, b: Text)
    requires Spaced(a, b, 0x20)
    ensures Spaced(CodePoints(a), CodePoints(b), 0x20)
    decreases |a|
  {
    if a != [] {
      if a[0] == b[0] && Spaced(a[1..], b[1..], 0x20) {
        SpacedShorter(a[1..], b[1..], 0x20);
        if IsHigh(a[0]) && |a| > 1 && IsLow(a[1]) {
          assert a[1..][1..] == a[2..] && b[1..][1..] == b[2..];
          SpacedPoints(a[2..], b[2..]);
          assert CodePoints(a)[1..] == CodePoints(a[2..]) && CodePoints(b)[1..] == CodePoints(b[2..]);
        } else {
          SpacedPoints(a[1..], b[1..]);
          assert CodePoints(a)[1..] == CodePoints(a[1..]) && CodePoints(b)[1..] == CodePoints(b[1..]);
        }
      } else {
        SpacedPoints(a[3..], b[1..]);
        EscapePoints(a);
        assert CodePoints(b)[1..] == CodePoints(b[1..]);
      }
    }
  }

  lemma EscapePoints(a: Text)
    requires |a| >= 3 && a[0] == 0x25 && a[1] == 0x32 && a[2] == 0x30
    ensures var ps := CodePoints(a);
            |ps| >= 3 && ps[0] == 0x25 && ps[1] == 0x32 && ps[2] == 0x30 && ps[3..] == CodePoints(a[3..])
  {
    assert a[1..][0] == 0x32 && a[1..][1..] == a[2..] && a[2..][0] == 0x30 && a[2..][1..] == a[3..];
    PointAscii(a);
    PointAscii(a[1..]);
    PointAscii(a[2..]);
  }

  lemma PointAscii(a: Text)
    requires a != [] && a[0] < 0x80
    ensures CodePoints(a) == [a[0]] + CodePoints(a[1..])
  {
  }

  /** Writing a plus for an escaped space, and then reading pluses as spaces. */
  lemma {:induction false} PlusSpaced(a: Text, b: Text)
    requires Spaced(a, b, PLUS)
    ensures Spaced(PlusToSpace(a), PlusToSpace(b), 0x20)
    decreases |a|
  {
    if a != [] {
      if a[0] == b[0] && Spaced(a[1..], b[1..], PLUS) {
        PlusSpaced(a[1..], b[1..]);
        assert PlusToSpace(a)[1..] == PlusToSpace(a[1..]) && PlusToSpace(b)[1..] == PlusToSpace(b[1..]);
      } else {
        PlusSpaced(a[3..], b[1..]);
        assert PlusToSpace(a)[3..] == PlusToSpace(a[3..]) && PlusToSpace(b)[1..] == PlusToSpace(b[1..]);
      }
    }
  }

  lemma ComponentSpaced(a: Text, b: Text)
    requires Spaced(a, b, PLUS)
    ensures Decoded(PlusToSpace(a)) == Decoded(PlusToSpace(b))
  {
    hide Spaced, PlusToSpace;
    PlusSpaced(a, b);
    SpacedPoints(PlusToSpace(a), PlusToSpace(b));
    SpacedScalars(CodePoints(PlusToSpace(a)), CodePoints(PlusToSpace(b)));
    SpacedEncode(Scalars(CodePoints(PlusToSpace(a))), Scalars(CodePoints(PlusToSpace(b))));
    SpacedUnescape(TextEncode(PlusToSpace(a)), TextEncode(PlusToSpace(b)));
  }

  /** The first of a separator stands at matching places, with matching texts before and after it. */
  lemma {:induction false} SpacedIndex(a: Text, b: Text, sep: Unit)
    requires Spaced(a, b, PLUS) && sep !in {0x25, 0x32, 0x30, PLUS}
    ensures IndexOf(a, sep).None? <==> IndexOf(b, sep).None?
    ensures IndexOf(a, sep).Some? ==>
              var i, j := IndexOf(a, sep).value, IndexOf(b, sep).value;
              Spaced(a[..i], b[..j], PLUS) && Spaced(a[i + 1..], b[j + 1..], PLUS)
    decreases |a|, 1
  {
    if a == [] {
      assert IndexOf(a, sep).None? && IndexOf(b, sep).None?;
    } else if a[0] == b[0] && Spaced(a[1..], b[1..], PLUS) {
      hide Spaced, IndexOf;
      SameIndex(a, b, sep);
    } else {
      EscapedIndex(a, b, sep);
    }
  }

  lemma {:induction false} SameIndex(a: Text, b: Text, sep: Unit)
    requires a != [] && b != [] && a[0] == b[0] && Spaced(a[1..], b[1..], PLUS) && sep !in {0x25, 0x32, 0x30, PLUS}
    ensures IndexOf(a, sep).None? <==> IndexOf(b, sep).None?
    ensures IndexOf(a, sep).Some? ==>
              var i, j := IndexOf(a, sep).value, IndexOf(b, sep).value;
              Spaced(a[..i], b[..j], PLUS) && Spaced(a[i + 1..], b[j + 1..], PLUS)
    decreases |a|, 0
  {
    IndexFirst(a, sep);
    IndexFirst(b, sep);
    NothingSpaced();
    hide Spaced, IndexOf;
    if a[0] == sep {
      assert a[..0] == [] && b[..0] == [];
    } else {
      SpacedIndex(a[1..], b[1..], sep);
      if IndexOf(a[1..], sep).Some? {
        SameCut(a, b, IndexOf(a[1..], sep).value, IndexOf(b[1..], sep).value);
      }
    }
  }

  lemma SameCut(a: Text, b: Text, i: nat, j: nat)
    requires i + 1 < |a| && j + 1 < |b| && a[0] == b[0]
    requires Spaced(a[1..][..i], b[1..][..j], PLUS) && Spaced(a[1..][i + 1..], b[1..][j + 1..], PLUS)
    ensures Spaced(a[..i + 1], b[..j + 1], PLUS) && Spaced(a[i + 2..], b[j + 2..], PLUS)
  {
    hide Spaced;
    SpacedFront([a[0]], a[1..][..i], b[1..][..j], PLUS);
    assert a[..i + 1] == [a[0]] + a[1..][..i] && b[..j + 1] == [a[0]] + b[1..][..j];
    assert a[i + 2..] == a[1..][i + 1..] && b[j + 2..] == b[1..][j + 1..];
  }

  lemma NothingSpaced()
    ensures Spaced([], [], PLUS)
  {}

  lemma IndexFirst(t: Text, sep: Unit)
    requires t != []
    ensures IndexOf(t, sep) == if t[0] == sep then Some(0) else if IndexOf(t[1..], sep).None? then None
              else Some(IndexOf(t[1..], sep).value + 1)
  {}

  lemma {:induction false} EscapedIndex(a: Text, b: Text, sep: Unit)
    requires |a| >= 3 && a[0] == 0x25 && a[1] == 0x32 && a[2] == 0x30
    requires b != [] && b[0] == PLUS && Spaced(a[3..], b[1..], PLUS)
    requires sep !in {0x25, 0x32, 0x30, PLUS}
    ensures IndexOf(a, sep).None? <==> IndexOf(b, sep).None?
    ensures IndexOf(a, sep).Some? ==>
              var i, j := IndexOf(a, sep).value, IndexOf(b, sep).value;
              Spaced(a[..i], b[..j], PLUS) && Spaced(a[i + 1..], b[j + 1..], PLUS)
    decreases |a|, 0
  {
    hide Spaced, IndexOf;
    SpacedIndex(a[3..], b[1..], sep);
    ThreeOn(a, sep);
    IndexFirst(b, sep);
    if IndexOf(a[3..], sep).Some? {
      EscapedCut(a, b, IndexOf(a[3..], sep).value, IndexOf(b[1..], sep).value);
    }
  }

  lemma ThreeOn(a: Text, sep: Unit)
    requires |a| >= 3 && a[0] != sep && a[1] != sep && a[2] != sep
    ensures IndexOf(a, sep) == if IndexOf(a[3..], sep).None? then None else Some(IndexOf(a[3..], sep).value + 3)
  {
    hide IndexOf;
    var one, two := a[1..], a[2..];
    IndexFirst(a, sep);
    IndexFirst(one, sep);
    IndexFirst(two, sep);
    assert one[1..] == two && two[1..] == a[3..];
  }

  lemma EscapedCut(a: Text, b: Text, i: nat, j: nat)
    requires i + 3 < |a| && j + 1 < |b| && a[0] == 0x25 && a[1] == 0x32 && a[2] == 0x30 && b[0] == PLUS
    requires Spaced(a[3..][..i], b[1..][..j], PLUS) && Spaced(a[3..][i + 1..], b[1..][j + 1..], PLUS)
    ensures Spaced(a[..i + 3], b[..j + 1], PLUS) && Spaced(a[i + 4..], b[j + 2..], PLUS)
  {
    var x, y := a[..i + 3], b[..j + 1];
    assert x[3..] == a[3..][..i] && y[1..] == b[1..][..j];
    assert a[i + 4..] == a[3..][i + 1..] && b[j + 2..] == b[1..][j + 1..];
  }

  lemma PairSpaced(num: NumberRule, a: Text, b: Text)
    requires Spaced(a, b, PLUS)
    ensures ParsePair(num, a) == ParsePair(num, b)
  {
    hide Spaced, Decoded, PlusToSpace, StoredValue, IndexOf;
    SpacedIndex(a, b, EQUALS);
    var i, j := IndexOf(a, EQUALS), IndexOf(b, EQUALS);
    ComponentSpaced(if i.None? then a else a[..i.value], if j.None? then b else b[..j.value]);
    if i.Some? { ComponentSpaced(a[i.value + 1..], b[j.value + 1..]); }
  }

  lemma {:induction false} PairsSpaced(num: NumberRule, a: Text, b: Text, acc: QueryMap)
    requires Spaced(a, b, PLUS)
    ensures ParsePairs(num, Split(a, AMPERSAND), acc) == ParsePairs(num, Split(b, AMPERSAND), acc)
    decreases |a|
  {
    hide Spaced, ParsePair, ParsePairs, Split, IndexOf;
    SpacedIndex(a, b, AMPERSAND);
    SplitFirst(a);
    SplitFirst(b);
    var i, j := IndexOf(a, AMPERSAND), IndexOf(b, AMPERSAND);
    var x, y := if i.None? then a else a[..i.value], if j.None? then b else b[..j.value];
    PairSpaced(num, x, y);
    EmptySpaced(x, y);
    PairsCons(num, x, if i.None? then [] else Split(a[i.value + 1..], AMPERSAND), acc);
    PairsCons(num, y, if j.None? then [] else Split(b[j.value + 1..], AMPERSAND), acc);
    if i.Some? {
      PairsSpaced(num, a[i.value + 1..], b[j.value + 1..], acc);
      var r := ParsePair(num, x);
      if r.Ok? { PairsSpaced(num, a[i.value + 1..], b[j.value + 1..], acc[r.value.0 := r.value.1]); }
    }
  }

  lemma PairsCons(num: NumberRule, pair: Text, rest: seq<Text>, acc: QueryMap)
    ensures ParsePairs(num, [pair] + rest, acc)
         == if pair == [] then ParsePairs(num, rest, acc)
            else
              match ParsePair(num, pair)
              case Err(e) => Err(e)
              case Ok(kv) =>
                if kv.0 in acc then Err(RepeatedKey) else ParsePairs(num, rest, acc[kv.0 := kv.1])
  {
    hide ParsePair;
    assert ([pair] + rest)[1..] == rest;
  }

  /** The first pair of a query, then the rest. */
  lemma SplitFirst(t: Text)
    ensures var i := IndexOf(t, AMPERSAND);
            Split(t, AMPERSAND) == [if i.None? then t else t[..i.value]]
                                   + if i.None? then [] else Split(t[i.value + 1..], AMPERSAND)
  {
    hide IndexOf;
  }

  lemma EmptySpaced(a: Text, b: Text)
    requires Spaced(a, b, PLUS)
    ensures a == [] <==> b == []
  {}

  /** Any `%20` of a query may be written as a plus: the query says the same. */
  lemma PlusIsSpace(num: NumberRule, query: Text, plus: Text)
    requires Spaced(query, plus, PLUS)
    ensures ParsedQuery(num, query) == ParsedQuery(num, plus)
  {
    PairsSpaced(num, query, plus, map[]);
  }

  /**
   * So a printed query with pluses for its spaces reads back as its map exactly when no key and no value begins with
   * U+FEFF.
   */
  lemma PlusFixpoint(num: NumberRule, m: QueryMap, plus: Text)
    requires Lawful(num) && GoodQuery(num, m) && m != map[] && Spaced(QueryText(m), plus, PLUS)
    ensures ParsedQuery(num, plus) == Ok(m) <==> QueryBomFree(m)
  {
    PlusIsSpace(num, QueryText(m), plus);
    QueryFixpoint(num, m);
  }

  // ---- authorities

  /** Labels of letters, digits and inner dashes, with dots between them. */
  ghost predicate Hostname(host: Text) {
    |host| <= 253
    && exists labels :: labels != [] && host == Join(labels, DOT)
         && forall i | 0 <= i < |labels| :: HostLabel(labels[i])
  }

  predicate HostLabel(part: Text) {
    && 1 <= |part| <= 63 && part[0] != '-' as int && part[|part| - 1] != '-' as int
    && forall i | 0 <= i < |part| ::
         'a' as int <= part[i] <= 'z' as int || '0' as int <= part[i] <= '9' as int || part[i] == '-' as int
  }

  lemma LabelIff(part: Text)
    ensures IsHostLabel(part) <==> HostLabel(part)
    ensures HostLabel(part) ==> DOT !in part
  {}

  lemma HostnameIff(host: Text)
    ensures IsHostname(host) <==> Hostname(host)
  {
    hide HostLabel, IsHostLabel;
    var labels := Split(host, DOT);
    JoinSplit(host, DOT);
    forall part
      ensures IsHostLabel(part) <==> HostLabel(part)
      ensures HostLabel(part) ==> DOT !in part && part != []
    {
      LabelIff(part);
      LabelSome(part);
    }
    if IsHostname(host) {
      assert forall i | 0 <= i < |labels| :: labels[i] in labels;
    }
    if Hostname(host) {
      var ls :| ls != [] && host == Join(ls, DOT) && forall i | 0 <= i < |ls| :: HostLabel(ls[i]);
      SplitJoin(ls, DOT);
      assert host != [] by { JoinedSome(ls); }
    }
  }

  lemma LabelSome(part: Text)
    ensures HostLabel(part) ==> part != []
  {}

  lemma JoinedSome(ls: seq<Text>)
    requires ls != [] && ls[0] != []
    ensures Join(ls, DOT) != []
  {}

  /** What follows the path: nothing, a query, a fragment or both; an empty query is none. */
  ghost predicate TailSays(tail: Text, query: Option<Text>) {
    || (tail == [] && query.None?)
    || (tail != [] && tail[0] == HASH && query.None?)
    || (exists q, fragment :: Asks(tail, q, fragment) && query == if q == [] then None else Some(q))
  }

  /** A question mark, the query, and perhaps a fragment. */
  predicate Asks(tail: Text, q: Text, fragment: Text) {
    tail == [QUESTION] + q + fragment && HASH !in q && (fragment == [] || fragment[0] == HASH)
  }

  predicate NoneOf(t: Text, units: set<int>) { forall i | 0 <= i < |t| :: t[i] !in units }

  ghost predicate SplitsAs(rest: Text, authority: Text, path: Text, query: Option<Text>) {
    exists tail ::
      && rest == authority + path + tail
      && NoneOf(authority, {SLASH, QUESTION, HASH}) && NoneOf(path, {QUESTION, HASH})
      && (path == [] || path[0] == SLASH)
      && TailSays(tail, query)
  }

  lemma {:induction false} QueryStartIs(a: Text, b: Text)
    requires NoneOf(a, {QUESTION, HASH}) && (b == [] || b[0] == QUESTION || b[0] == HASH)
    ensures QueryStart(a + b) == |a|
  {
    if a == [] {
      assert a + b == b;
    } else {
      QueryStartIs(a[1..], b);
      assert (a + b)[1..] == a[1..] + b;
    }
  }

  /** What the splitter makes of the tail. */
  function TailQuery(tail: Text): Option<Text> {
    var first := Split(tail, HASH)[0];
    var query := if first != [] && first[0] == QUESTION then first[1..] else first;
    if query == [] then None else Some(query)
  }

  lemma FirstOfSplit(a: Text, b: Text)
    requires HASH !in a && (b == [] || b[0] == HASH)
    ensures Split(a + b, HASH)[0] == a
  {
    if b == [] {
      assert a + b == a;
      assert IndexOf(a, HASH).None?;
    } else {
      IndexOfAt(a, HASH, b[1..]);
      assert a + b == a + [HASH] + b[1..];
      assert (a + b)[..|a|] == a;
    }
  }

  lemma TailIff(tail: Text, query: Option<Text>)
    requires tail == [] || tail[0] == QUESTION || tail[0] == HASH
    ensures TailQuery(tail) == query <==> TailSays(tail, query)
  {
    hide TailQuery;
    if tail == [] || tail[0] == HASH {
      TailNone(tail);
    } else {
      var q, fragment := TailCut(tail);
      TailAsked(q, fragment);
      assert Asks(tail, q, fragment);
      if TailSays(tail, query) {
        var q', fragment' :| Asks(tail, q', fragment') && query == if q' == [] then None else Some(q');
        TailAsked(q', fragment');
      }
    }
  }

  lemma TailNone(tail: Text)
    requires tail == [] || tail[0] == HASH
    ensures TailQuery(tail) == None && forall query :: TailSays(tail, query) <==> query == None
  {
    FirstOfSplit([], tail);
    assert [] + tail == tail;
    hide Split;
  }

  lemma TailAsked(q: Text, fragment: Text)
    requires HASH !in q && (fragment == [] || fragment[0] == HASH)
    ensures TailQuery([QUESTION] + q + fragment) == if q == [] then None else Some(q)
  {
    hide Split;
    FirstOfSplit([QUESTION] + q, fragment);
    assert ([QUESTION] + q)[1..] == q;
  }

  /** A tail with a query is the question mark, the query and the fragment. */
  lemma TailCut(tail: Text) returns (q: Text, fragment: Text)
    requires tail != [] && tail[0] == QUESTION
    ensures tail == [QUESTION] + q + fragment && HASH !in q && (fragment == [] || fragment[0] == HASH)
  {
    var i := IndexOf(tail, HASH);
    var n := if i.None? then |tail| else i.value;
    q, fragment := tail[1..n], tail[n..];
    assert tail[..n] == [QUESTION] + q;
    assert tail == tail[..n] + fragment;
    assert forall k | 0 <= k < |q| :: q[k] == tail[..n][k + 1];
  }

  lemma SplitOf(authority: Text, path: Text, tail: Text)
    requires NoneOf(authority, {SLASH, QUESTION, HASH})
    requires NoneOf(path, {QUESTION, HASH}) && (path == [] || path[0] == SLASH)
    requires tail == [] || tail[0] == QUESTION || tail[0] == HASH
    ensures SplitAuthority(authority + path + tail) == (authority, path, TailQuery(tail))
  {
    hide Split, IndexOf, QueryStart;
    var before := authority + path;
    QueryStartIs(before, tail);
    assert (before + tail)[..|before|] == before && (before + tail)[|before|..] == tail;
    AtSlash(authority, path);
    assert path == [] ==> before == authority;
  }

  lemma SplitShape(rest: Text) returns (tail: Text)
    ensures var (a, b, q) := SplitAuthority(rest);
            && rest == a + b + tail && NoneOf(a, {SLASH, QUESTION, HASH}) && NoneOf(b, {QUESTION, HASH})
            && (b == [] || b[0] == SLASH) && (tail == [] || tail[0] == QUESTION || tail[0] == HASH)
            && q == TailQuery(tail)
  {
    hide Split, IndexOf;
    var n := QueryStart(rest);
    var before := rest[..n];
    tail := rest[n..];
    assert rest == before + tail;
    var slash := IndexOf(before, SLASH);
    BeforeSlash(before, slash);
    if slash.Some? {
      assert before == before[..slash.value] + before[slash.value..]; } else { assert before == before + [];
    }
  }

  lemma SplitIff(rest: Text, authority: Text, path: Text, query: Option<Text>)
    ensures SplitAuthority(rest) == (authority, path, query) <==> SplitsAs(rest, authority, path, query)
  {
    hide SplitAuthority, TailSays, TailQuery, NoneOf;
    if SplitAuthority(rest) == (authority, path, query) {
      var tail := SplitShape(rest);
      TailIff(tail, query);
      assert SplitsAs(rest, authority, path, query);
    }
    if SplitsAs(rest, authority, path, query) {
      var tail :|
        && rest == authority + path + tail
        && NoneOf(authority, {SLASH, QUESTION, HASH}) && NoneOf(path, {QUESTION, HASH})
        && (path == [] || path[0] == SLASH)
        && TailSays(tail, query);
      TailStarts(tail, query);
      TailIff(tail, query);
      SplitOf(authority, path, tail);
    }
  }

  lemma TailStarts(tail: Text, query: Option<Text>)
    requires TailSays(tail, query)
    ensures tail == [] || tail[0] == QUESTION || tail[0] == HASH
  {}

  lemma BeforeSlash(before: Text, slash: Option<nat>)
    requires slash == IndexOf(before, SLASH) && NoneOf(before, {QUESTION, HASH})
    ensures slash.Some? ==> slash.value < |before| && before[slash.value] == SLASH
    ensures var a := if slash.None? then before else before[..slash.value]; NoneOf(a, {SLASH, QUESTION, HASH})
  {}

  lemma AtSlash(authority: Text, path: Text)
    requires NoneOf(authority, {SLASH, QUESTION, HASH}) && (path == [] || path[0] == SLASH)
    ensures IndexOf(authority + path, SLASH) == if path == [] then None else Some(|authority|)
    ensures path != [] ==> (authority + path)[..|authority|] == authority && (authority + path)[|authority|..] == path
  {
    assert forall i | 0 <= i < |authority| :: authority[i] != SLASH;
    hide NoneOf, IndexOf;
    if path == [] {
      assert authority + path == authority;
    } else {
      SlashAfter(authority, path[1..]);
      assert path == [SLASH] + path[1..];
    }
  }

  lemma SlashAfter(authority: Text, rest: Text)
    requires SLASH !in authority
    ensures var t := authority + ([SLASH] + rest); IndexOf(t, SLASH) == Some(|authority|)
  {
    IndexOfAt(authority, SLASH, rest);
    hide IndexOf;
    assert authority + ([SLASH] + rest) == authority + [SLASH] + rest;
  }

  // ---- URLs

  /** The text without the spaces around it. */
  ghost predicate TrimmedOf(raw: Text, t: Text) {
    exists a, b :: raw == a + t + b && AllSpace(a) && AllSpace(b)
      && (t != [] ==> !IsSpace(t[0]) && !IsSpace(t[|t| - 1]))
  }

  predicate AllSpace(t: Text) { forall i | 0 <= i < |t| :: IsSpace(t[i]) }

  lemma {:induction false} TrimStartOf(a: Text, t: Text)
    requires AllSpace(a) && (t == [] || !IsSpace(t[0]))
    ensures TrimStart(a + t) == t
  {
    if a == [] {
      assert a + t == t;
    } else {
      TrimStartOf(a[1..], t);
      assert (a + t)[1..] == a[1..] + t;
    }
  }

  lemma {:induction false} TrimEndOf(t: Text, b: Text)
    requires AllSpace(b) && (t == [] || !IsSpace(t[|t| - 1]))
    ensures TrimEnd(t + b) == t
    decreases |b|
  {
    if b == [] {
      assert t + b == t;
    } else {
      TrimEndOf(t, b[..|b| - 1]);
      assert (t + b)[..|t + b| - 1] == t + b[..|b| - 1];
    }
  }

  lemma {:induction false} AllSpaceStart(a: Text)
    requires AllSpace(a)
    ensures TrimStart(a) == []
  {
    if a != [] { AllSpaceStart(a[1..]); }
  }

  lemma {:induction false} StartCut(t: Text) returns (a: Text)
    ensures t == a + TrimStart(t) && AllSpace(a)
    ensures TrimStart(t) != [] ==> !IsSpace(TrimStart(t)[0])
  {
    a := [];
    if t != [] && IsSpace(t[0]) {
      var rest := StartCut(t[1..]);
      a := [t[0]] + rest;
    }
  }

  lemma {:induction false} EndCut(t: Text) returns (b: Text)
    ensures t == TrimEnd(t) + b && AllSpace(b)
    ensures TrimEnd(t) != [] ==> !IsSpace(TrimEnd(t)[|TrimEnd(t)| - 1])
    decreases |t|
  {
    b := [];
    if t != [] && IsSpace(t[|t| - 1]) {
      var rest := EndCut(t[..|t| - 1]);
      b := rest + [t[|t| - 1]];
    }
  }

  lemma TrimIff(raw: Text, t: Text)
    ensures Trim(raw) == t <==> TrimmedOf(raw, t)
  {
    var a := StartCut(raw);
    var b := EndCut(TrimStart(raw));
    if Trim(raw) == t {
      assert raw == a + (t + b);
      assert raw == a + t + b;
      assert t != [] ==> TrimStart(raw)[0] == t[0];
      assert TrimmedOf(raw, t);
    }
    if TrimmedOf(raw, t) {
      var c, d :| raw == c + t + d && AllSpace(c) && AllSpace(d)
          && (t != [] ==> !IsSpace(t[0]) && !IsSpace(t[|t| - 1]));
      TrimMeans(c, t, d);
    }
  }

  lemma TrimMeans(c: Text, t: Text, d: Text)
    requires AllSpace(c) && AllSpace(d) && (t != [] ==> !IsSpace(t[0]) && !IsSpace(t[|t| - 1]))
    ensures Trim(c + t + d) == t
  {
    assert c + t + d == c + (t + d);
    if t == [] {
      assert AllSpace(c + d) && c + (t + d) == c + d;
      AllSpaceStart(c + d);
    } else {
      TrimStartOf(c, t + d);
      TrimEndOf(t, d);
    }
  }

  predicate MarkAt(t: Text, i: nat) { i + 3 <= |t| && t[i..i + 3] == Lit("://") }

  predicate FirstMark(t: Text, i: nat) { MarkAt(t, i) && forall j: nat | j < i :: !MarkAt(t, j) }

  lemma {:induction false} SchemeEndIff(t: Text, i: nat)
    ensures SchemeEnd(t) == Some(i) <==> FirstMark(t, i)
  {
    var mark := Lit("://");
    assert mark == SCHEME_MARK;
    if |t| >= 3 {
      assert t[..3] == t[0..3];
      if t[..3] == SCHEME_MARK {
        assert MarkAt(t, 0);
      } else {
        assert !MarkAt(t, 0);
        forall j: nat
          ensures MarkAt(t, j + 1) <==> MarkAt(t[1..], j)
        {
          if j + 4 <= |t| { assert t[j + 1..j + 4] == t[1..][j..j + 3]; }
        }
        if i > 0 {
          SchemeEndIff(t[1..], i - 1);
          MarkShift(t, i - 1);
        }
      }
    }
  }

  lemma MarkShift(t: Text, i: nat)
    requires t != [] && !MarkAt(t, 0) && forall j: nat :: MarkAt(t, j + 1) <==> MarkAt(t[1..], j)
    ensures FirstMark(t, i + 1) <==> FirstMark(t[1..], i)
  {
    hide MarkAt;
    if FirstMark(t[1..], i) {
      forall j: nat | j < i + 1
        ensures !MarkAt(t, j)
      {
        if j > 0 { assert MarkAt(t, j - 1 + 1) <==> MarkAt(t[1..], j - 1); }
      }
    }
    if FirstMark(t, i + 1) {
      forall j: nat | j < i
        ensures !MarkAt(t[1..], j)
      {
        assert MarkAt(t, j + 1) <==> MarkAt(t[1..], j);
      }
    }
  }

  /** A file URL: an empty authority or `localhost` is this device, any other must be a host name. */
  ghost predicate ReadsFile(p: Platform, rest: Text, device: Option<Text>, path: Text) {
    exists authority, raw ::
      && SplitsAs(rest, authority, raw, None) && ReadsPath(raw, false, path) && IsDevice(p.lower(authority), device)
  }

  ghost predicate IsDevice(host: Text, device: Option<Text>) {
    if host == [] || host == Lit("localhost") then device == None else device == Some(host) && Hostname(host)
  }

  /** An object id, then perhaps a dot and its source zone. */
  ghost predicate ObjectAuthority(p: Platform, host: Text, id: Text, zone: Option<Text>) {
    && IsObjIdLabel(p, id) && DOT !in id
    && if zone.None? then host == id else host == id + [DOT] + zone.value
  }

  ghost predicate BeginsWithId(p: Platform, host: Text) { exists id, zone :: ObjectAuthority(p, host, id, zone) }

  /**
   * A cyfs path: an empty authority or `_` is the current zone, any other a host name with a dot that begins with no
   * object id.
   */
  ghost predicate ReadsCyfsPath(p: Platform, rest: Text, zone: Option<Text>, path: Text) {
    exists authority, raw ::
      && SplitsAs(rest, authority, raw, None) && ReadsPath(raw, false, path)
      && var host := p.lower(authority);
      if host == [] || host == Lit("_") then zone == None
      else zone == Some(host) && Hostname(host) && DOT in host && !BeginsWithId(p, host)
  }

  /** A path that may be missing: then, and when it is a slash alone, it is empty. */
  ghost predicate ReadsOptionalPath(raw: Text, trim: bool, path: Text) {
    if raw == [] || raw == [SLASH] then path == [] else ReadsPath(raw, trim, path)
  }

  ghost predicate ReadsCyfsObject(p: Platform, rest: Text, id: Text, zone: Option<Text>, inner: Text) {
    exists authority, raw ::
      && SplitsAs(rest, authority, raw, None) && ReadsOptionalPath(raw, false, inner)
      && p.lower(authority) != [] && p.lower(authority) != Lit("_")
      && ObjectAuthority(p, p.lower(authority), id, zone) && (zone.Some? ==> Hostname(zone.value))
  }

  predicate ServiceName(t: Text) {
    || t == Lit("config") || t == Lit("dfs") || t == Lit("taskmgr") || t == Lit("kmsg") || t == Lit("bucket")
        || t == Lit("ndm")
    || t == Lit("msg-center") || t == Lit("aiworkspace") || t == Lit("homestation") || t == Lit("opendan")
        || t == Lit("aicc")
  }

  /** The label before the first dot is a service's name. */
  ghost predicate BeginsWithService(host: Text) {
    exists name, rest :: ServiceFront(host, name, rest)
  }

  /**
   * A service by its name, or an entity by a host name with a dot that begins with neither a service nor an object id.
   */
  ghost predicate ReadsHost(p: Platform, host: Text, h: ObjHost) {
    && h.name == host
    && match h
       case Service(name) => ServiceName(name)
       case Entity(name) =>
         && !ServiceName(name) && Hostname(name) && DOT in name && !BeginsWithService(name)
         && !BeginsWithId(p, name)
  }

  ghost predicate ReadsObj(p: Platform, rest: Text, h: ObjHost, path: Text, m: QueryMap) {
    exists authority, raw, query ::
      && SplitsAs(rest, authority, raw, query) && ReadsHost(p, p.lower(authority), h)
      && ReadsOptionalPath(raw, true, path)
      && if query.None? then m == map[] else ReadsQuery(p.number, query.value, m)
  }

  ghost predicate ReadsScheme(p: Platform, scheme: Text, t: Text, rest: Text, u: ObjectUrl) {
    match u
    case Web(url) => (scheme == Lit("http") || scheme == Lit("https")) && p.webUrl(t) == Some(url)
    case BuckyOs(url) => scheme == Lit("buckyos") && url == t
    case File(device, path) => scheme == Lit("file") && ReadsFile(p, rest, device, path)
    case CyfsPath(zone, path) => scheme == Lit("cyfs") && ReadsCyfsPath(p, rest, zone, path)
    case CyfsObject(id, zone, inner) => scheme == Lit("cyfs") && ReadsCyfsObject(p, rest, id, zone, inner)
    case ObjUrl(h, path, m) => scheme == Lit("obj") && ReadsObj(p, rest, h, path, m)
  }

  /** What a text must be to be read as this URL. */
  ghost predicate ReadsUrl(p: Platform, input: Text, u: ObjectUrl) {
    exists t, sep: nat ::
        TrimmedOf(input, t) && FirstMark(t, sep) && ReadsScheme(p, p.lower(t[..sep]), t, t[sep + 3..], u)
  }

  lemma PathOfIff(raw: Text, trim: bool, path: Text)
    ensures PathOf(raw, trim) == Ok(path) <==> ReadsPath(raw, trim, path)
    ensures ReadsPath(raw, trim, path) ==> raw != []
  {
    NormalizedIff(raw, trim, path);
    hide ReadsPath;
  }

  lemma FileIff(p: Platform, rest: Text, device: Option<Text>, path: Text)
    ensures ParseFile(p, rest) == Ok(File(device, path)) <==> ReadsFile(p, rest, device, path)
  {
    hide SplitAuthority, SplitsAs, PathOf, ReadsPath, IsHostname, Hostname;
    var (a, raw, q) := SplitAuthority(rest);
    SplitIff(rest, a, raw, q);
    HostnameIff(p.lower(a));
    PathOfIff(raw, false, path);
    if ReadsFile(p, rest, device, path) {
      var b, raw' :|
        && SplitsAs(rest, b, raw', None) && ReadsPath(raw', false, path)
        && var host := p.lower(b);
        if host == [] || host == Lit("localhost") then device == None else device == Some(host) && Hostname(host);
      SplitIff(rest, b, raw', None);
    }
  }

  lemma AuthorityIs(p: Platform, host: Text, id: Text, zone: Option<Text>)
    ensures ObjectAuthority(p, host, id, zone)
       <==> IsObjIdLabel(p, id) && FirstLabel(host) == id && RestLabels(host) == zone
  {
    hide IsObjIdLabel;
    var dot := IndexOf(host, DOT);
    if dot.Some? {
      FirstDot(host, dot.value);
      assert host == host[..dot.value] + [DOT] + host[dot.value + 1..];
    } else {
      assert DOT !in host;
    }
    if ObjectAuthority(p, host, id, zone) && zone.Some? {
      IndexOfAt(id, DOT, zone.value);
      assert host[..|id|] == id && host[|id| + 1..] == zone.value;
    }
  }

  lemma FirstDot(host: Text, i: nat)
    requires IndexOf(host, DOT) == Some(i)
    ensures i < |host| && host[i] == DOT && DOT !in host[..i]
  {}

  lemma BeginsWithIdIff(p: Platform, host: Text)
    ensures BeginsWithId(p, host) <==> IsObjIdLabel(p, FirstLabel(host))
  {
    hide ObjectAuthority, IsObjIdLabel, FirstLabel, RestLabels;
    AuthorityIs(p, host, FirstLabel(host), RestLabels(host));
    if BeginsWithId(p, host) {
      var id, zone :| ObjectAuthority(p, host, id, zone);
      AuthorityIs(p, host, id, zone);
    }
  }

  lemma OptionalPathIff(raw: Text, path: Text)
    ensures ReadsOptionalPath(raw, true, path) <==> ObjPath(raw) == Ok(path)
  {
    PathOfIff(raw, true, path);
    hide ReadsPath, Normalized;
  }

  lemma UnderscoreIs()
    ensures Lit("_") == UNDERSCORE
  {}

  lemma CyfsPathIff(p: Platform, rest: Text, zone: Option<Text>, path: Text)
    ensures ParseCyfs(p, rest) == Ok(CyfsPath(zone, path)) <==> ReadsCyfsPath(p, rest, zone, path)
  {
    UnderscoreIs();
    var (a, raw, q) := SplitAuthority(rest);
    SplitIff(rest, a, raw, q);
    HostnameIff(p.lower(a));
    BeginsWithIdIff(p, p.lower(a));
    PathOfIff(raw, false, path);
    hide SplitAuthority, SplitsAs, PathOf, ReadsPath, IsHostname, Hostname, BeginsWithId, IsObjIdLabel, FirstLabel,
         RestLabels, Lit;
    if ReadsCyfsPath(p, rest, zone, path) {
      var b, raw' :|
        && SplitsAs(rest, b, raw', None) && ReadsPath(raw', false, path)
        && var host := p.lower(b);
        if host == [] || host == Lit("_") then zone == None
        else zone == Some(host) && Hostname(host) && DOT in host && !BeginsWithId(p, host);
      SplitIff(rest, b, raw', None);
    }
  }

  lemma ObjectPathIff(first: Text, more: Option<Text>, raw: Text, id: Text, zone: Option<Text>, inner: Text)
    ensures ParseCyfsObject(first, more, raw) == Ok(CyfsObject(id, zone, inner))
       <==> id == first && zone == more && (zone.Some? ==> Hostname(zone.value)) && ReadsOptionalPath(raw, false, inner)
  {
    if more.Some? { HostnameIff(more.value); }
    PathOfIff(raw, false, inner);
    hide PathOf, ReadsPath, IsHostname, Hostname;
  }

  lemma CyfsObjectIff(p: Platform, rest: Text, id: Text, zone: Option<Text>, inner: Text)
    ensures ParseCyfs(p, rest) == Ok(CyfsObject(id, zone, inner)) <==> ReadsCyfsObject(p, rest, id, zone, inner)
  {
    UnderscoreIs();
    var (a, raw, q) := SplitAuthority(rest);
    var host := p.lower(a);
    SplitIff(rest, a, raw, q);
    AuthorityIs(p, host, id, zone);
    hide SplitAuthority, SplitsAs, ParseCyfsPath, ParseCyfsObject, ReadsOptionalPath, IsHostname, Hostname,
         ObjectAuthority;
    hide IsObjIdLabel, FirstLabel, RestLabels, Lit;
    ObjectPathIff(FirstLabel(host), RestLabels(host), raw, id, zone, inner);
    PathKind(None, raw);
    PathKind(Some(host), raw);
    if ReadsCyfsObject(p, rest, id, zone, inner) {
      var b, raw' :|
        && SplitsAs(rest, b, raw', None) && ReadsOptionalPath(raw', false, inner)
        && p.lower(b) != [] && p.lower(b) != Lit("_")
        && ObjectAuthority(p, p.lower(b), id, zone) && (zone.Some? ==> Hostname(zone.value));
      SplitIff(rest, b, raw', None);
    }
  }

  lemma PathKind(zone: Option<Text>, raw: Text)
    ensures ParseCyfsPath(zone, raw).Ok? ==> ParseCyfsPath(zone, raw).value.CyfsPath?
  {
    hide PathOf;
  }

  lemma ServiceIff(t: Text)
    ensures IsServiceName(t) <==> ServiceName(t)
  {
    hide Lit;
    if ServiceName(t) {
      assert SERVICE_NAMES[0] == Lit("config") && SERVICE_NAMES[1] == Lit("dfs") && SERVICE_NAMES[2] == Lit("taskmgr");
      assert SERVICE_NAMES[3] == Lit("kmsg") && SERVICE_NAMES[4] == Lit("bucket") && SERVICE_NAMES[5] == Lit("ndm");
      assert SERVICE_NAMES[6] == Lit("msg-center") && SERVICE_NAMES[7] == Lit("aiworkspace");
      assert SERVICE_NAMES[8] == Lit("homestation") && SERVICE_NAMES[9] == Lit("opendan")
          && SERVICE_NAMES[10] == Lit("aicc");
    }
  }

  ghost predicate ServiceFront(host: Text, name: Text, rest: Text) {
    ServiceName(name) && (host == name || host == name + [DOT] + rest)
  }

  lemma BeginsWithServiceIff(host: Text)
    ensures BeginsWithService(host) <==> IsServiceName(FirstLabel(host))
  {
    hide ServiceName, IsServiceName, IndexOf;
    var dot := IndexOf(host, DOT);
    var first, more := FirstLabel(host), if dot.None? then [] else host[dot.value + 1..];
    ServiceIff(first);
    if ServiceName(first) {
      if dot.Some? {
        FirstDot(host, dot.value);
        assert host == first + [DOT] + more;
      }
      assert ServiceFront(host, first, more);
    }
    if BeginsWithService(host) {
      var name, rest :| ServiceFront(host, name, rest);
      ServiceIff(name);
      ServiceNameUnits(name);
      if host == name + [DOT] + rest {
        IndexOfAt(name, DOT, rest);
        assert host[..|name|] == name;
      } else {
        NoDotIn(name);
      }
    }
  }

  lemma NoDotIn(t: Text)
    requires DOT !in t
    ensures IndexOf(t, DOT).None?
  {}

  lemma HostIff(p: Platform, host: Text, h: ObjHost)
    ensures ParseObjHost(p, host) == Ok(h) <==> ReadsHost(p, host, h)
  {
    ServiceIff(host);
    HostnameIff(host);
    BeginsWithServiceIff(host);
    BeginsWithIdIff(p, host);
    ServiceSome(host);
    hide IsServiceName, ServiceName, IsHostname, Hostname, BeginsWithService, BeginsWithId, IsObjIdLabel, FirstLabel;
  }

  lemma ServiceSome(t: Text)
    ensures IsServiceName(t) ==> t != []
    ensures Hostname(t) ==> t != []
  {
    HostnameIff(t);
    if IsServiceName(t) { ServiceNameUnits(t); }
    hide Hostname, IsServiceName;
  }

  lemma ObjQueryIff(p: Platform, query: Option<Text>, m: QueryMap)
    ensures ObjQuery(p, query) == Ok(m) <==> if query.None? then m == map[] else ReadsQuery(p.number, query.value, m)
  {
    if query.Some? { ParsedQueryIff(p.number, query.value, m); }
    hide ReadsQuery, ParsedQuery;
  }

  lemma ObjIff(p: Platform, rest: Text, h: ObjHost, path: Text, m: QueryMap)
    ensures ParseObj(p, rest) == Ok(ObjUrl(h, path, m)) <==> ReadsObj(p, rest, h, path, m)
  {
    hide SplitAuthority, SplitsAs, ObjPath, ReadsOptionalPath, ParseObjHost, ReadsHost, ObjQuery, ReadsQuery;
    var (a, raw, q) := SplitAuthority(rest);
    SplitIff(rest, a, raw, q);
    HostIff(p, p.lower(a), h);
    OptionalPathIff(raw, path);
    ObjQueryIff(p, q, m);
    if ReadsObj(p, rest, h, path, m) {
      var b, raw', query :|
        && SplitsAs(rest, b, raw', query) && ReadsHost(p, p.lower(b), h)
        && ReadsOptionalPath(raw', true, path)
        && if query.None? then m == map[] else ReadsQuery(p.number, query.value, m);
      SplitIff(rest, b, raw', query);
    }
  }

  lemma SchemesApart()
    ensures Lit("https") != Lit("buckyos") && Lit("http") != Lit("buckyos")
    ensures Lit("https") != Lit("file") && Lit("http") != Lit("file")
    ensures Lit("https") != Lit("cyfs") && Lit("http") != Lit("cyfs")
    ensures Lit("https") != Lit("obj") && Lit("http") != Lit("obj")
    ensures Lit("buckyos") != Lit("file") && Lit("buckyos") != Lit("cyfs") && Lit("buckyos") != Lit("obj")
    ensures Lit("file") != Lit("cyfs") && Lit("file") != Lit("obj") && Lit("cyfs") != Lit("obj")
  {
    assert Lit("https")[0] == 0x68 && Lit("http")[0] == 0x68 && Lit("buckyos")[0] == 0x62;
    assert Lit("file")[0] == 0x66 && Lit("cyfs")[0] == 0x63 && Lit("obj")[0] == 0x6F;
  }

  /** What the branch of a scheme can return. */
  lemma BranchKinds(p: Platform, rest: Text)
    ensures ParseFile(p, rest).Ok? ==> ParseFile(p, rest).value.File?
    ensures ParseCyfs(p, rest).Ok? ==> ParseCyfs(p, rest).value.CyfsPath? || ParseCyfs(p, rest).value.CyfsObject?
    ensures ParseObj(p, rest).Ok? ==> ParseObj(p, rest).value.ObjUrl?
  {
    hide SplitAuthority, PathOf, IsHostname, IsObjIdLabel, FirstLabel, ParseObjHost, ObjPath, ObjQuery;
  }

  lemma SchemeIff(p: Platform, scheme: Text, t: Text, rest: Text, u: ObjectUrl)
    ensures ParseScheme(p, SchemeOfText(scheme), t, rest) == Ok(u) <==> ReadsScheme(p, scheme, t, rest, u)
  {
    hide ParseFile, ParseCyfs, ParseObj, ReadsFile, ReadsCyfsPath, ReadsCyfsObject, ReadsObj, Lit;
    SchemesApart();
    BranchKinds(p, rest);
    match u {
      case File(device, path) => FileIff(p, rest, device, path);
      case CyfsPath(zone, path) => CyfsPathIff(p, rest, zone, path);
      case CyfsObject(id, zone, inner) => CyfsObjectIff(p, rest, id, zone, inner);
      case ObjUrl(h, path, m) => ObjIff(p, rest, h, path, m);
      case _ =>
    }
  }

  /** The parser accepts exactly the texts of the grammar, and returns the URL they stand for. */
  lemma ParseIff(p: Platform, input: Text, u: ObjectUrl)
    ensures Parse(p, input) == Ok(u) <==> ReadsUrl(p, input, u)
  {
    hide ParseScheme, ReadsScheme, SchemeOfText, SchemeEnd, Trim, TrimmedOf;
    var t := Trim(input);
    TrimIff(input, t);
    if SchemeEnd(t).Some? {
      var sep := SchemeEnd(t).value;
      SchemeEndIff(t, sep);
      SchemeIff(p, p.lower(t[..sep]), t, t[sep + 3..], u);
    }
    if ReadsUrl(p, input, u) {
      var t', sep: nat :| TrimmedOf(input, t') && FirstMark(t', sep)
        && ReadsScheme(p, p.lower(t'[..sep]), t', t'[sep + 3..], u);
      TrimIff(input, t');
      SchemeEndIff(t', sep);
      SchemeIff(p, p.lower(t'[..sep]), t', t'[sep + 3..], u);
    }
  }

  // ---- how components are written

  predicate AsciiLetterOrDigit(b: int) {
    'a' as int <= b <= 'z' as int || 'A' as int <= b <= 'Z' as int || '0' as int <= b <= '9' as int
  }

  predicate OneOf(b: int, chars: string) { exists i | 0 <= i < |chars| :: b == chars[i] as int }

  /** `pchar` without escapes, section 3.3 of RFC 3986: unreserved, sub-delims, colon and at sign. */
  predicate PathChar(b: int) { AsciiLetterOrDigit(b) || OneOf(b, "-._~") || OneOf(b, "!$&'()*+,;=") || OneOf(b, ":@") }

  /**
   * A segment is written in these; a query's keys and values also in slashes, but not in what parts and spaces them.
   */
  predicate Written(c: Component, b: int) {
    match c
    case Segment => PathChar(b)
    case Query => (PathChar(b) || OneOf(b, "/")) && !OneOf(b, "&=+")
  }

  predicate UpperHexOf(u: int, n: int) { if n < 10 then u == '0' as int + n else u == 'A' as int + (n - 10) }

  /** Each byte as itself where it may be, and otherwise as an escape in capital digits. */
  predicate WrittenAs(c: Component, bytes: Bytes, t: Text) {
    if bytes == [] then t == []
    else if Written(c, bytes[0]) then t != [] && t[0] == bytes[0] && WrittenAs(c, bytes[1..], t[1..])
    else
      && |t| >= 3 && t[0] == '%' as int && UpperHexOf(t[1], bytes[0] / 16) && UpperHexOf(t[2], bytes[0] % 16)
      && WrittenAs(c, bytes[1..], t[3..])
  }

  lemma OneOfSplits(b: int, chars: string)
    requires chars != ""
    ensures OneOf(b, chars) <==> b == chars[0] as int || OneOf(b, chars[1..])
  {
    if OneOf(b, chars) {
      var i :| 0 <= i < |chars| && b == chars[i] as int;
      assert i > 0 ==> chars[1..][i - 1] == chars[i];
    }
    if OneOf(b, chars[1..]) {
      var i :| 0 <= i < |chars[1..]| && b == chars[1..][i] as int;
      assert chars[i + 1] == chars[1..][i];
    }
  }

  lemma KeepIff(c: Component, b: Byte)
    ensures Keep(c, b) <==> Written(c, b)
  {
    var marks, delims := "-._~", "!$&'()*+,;=";
    assert marks[0] == '-' && marks[1] == '.' && marks[2] == '_' && marks[3] == '~';
    assert delims[0] == '!' && delims[1] == '$' && delims[2] == '&' && delims[3] == '\''
        && delims[4] == '(' && delims[5] == ')';
    assert delims[6] == '*' && delims[7] == '+' && delims[8] == ',' && delims[9] == ';' && delims[10] == '=';
    assert ":@"[0] == ':' && ":@"[1] == '@' && "/"[0] == '/' && "&=+"[0] == '&' && "&=+"[1] == '=' && "&=+"[2] == '+';
  }

  lemma {:induction false} EncodedBytesIff(c: Component, bytes: Bytes, t: Text)
    ensures EncodeBytes(c, bytes) == t <==> WrittenAs(c, bytes, t)
    decreases |bytes|
  {
    if bytes != [] {
      var front := EncodeByte(c, bytes[0]);
      FrontWritten(c, bytes, t);
      hide WrittenAs, EncodeByte;
      if |t| >= |front| {
        var rest := t[|front|..];
        EncodedBytesIff(c, bytes[1..], rest);
        assert t == t[..|front|] + rest;
      }
    }
  }

  lemma FrontWritten(c: Component, bytes: Bytes, t: Text)
    requires bytes != []
    ensures var front := EncodeByte(c, bytes[0]);
            WrittenAs(c, bytes, t) <==>
              |t| >= |front| && t[..|front|] == front && WrittenAs(c, bytes[1..], t[|front|..])
  {
    KeepIff(c, bytes[0]);
    hide Keep, Written;
    if Keep(c, bytes[0]) {
      assert |t| >= 1 ==> t[..1] == [t[0]];
    } else {
      HexFront(t, bytes[0]);
    }
  }

  lemma HexFront(t: Text, b: Byte)
    ensures |t| >= 3 ==> (t[..3] == [PERCENT, HexDigit(b / 16), HexDigit(b % 16)]
                          <==> t[0] == '%' as int && UpperHexOf(t[1], b / 16) && UpperHexOf(t[2], b % 16))
  {
    if |t| >= 3 {
      assert t[..3] == [t[0], t[1], t[2]];
    }
  }

  /** A component's text is its UTF-8 bytes, written so. */
  lemma EncodedIff(c: Component, input: Text, t: Text)
    ensures Encoded(c, input) == t <==> WrittenAs(c, TextEncode(input), t)
  {
    EncodedBytesIff(c, TextEncode(input), t);
  }

  // ---- how each kind of URL is written

  lemma Prefixes()
    ensures Lit("file://") == Lit("file") + SCHEME_MARK && Lit("cyfs://") == Lit("cyfs") + SCHEME_MARK
    ensures Lit("obj://") == Lit("obj") + SCHEME_MARK
    ensures Lit("/") == [SLASH] && Lit(".") == [DOT] && Lit("?") == [QUESTION]
  {}

  lemma FileIs(device: Option<Text>, path: Text)
    ensures Format(File(device, path)) == Lit("file://") + (if device.None? then [] else device.value) + path
  {
    Prefixes();
    hide Lit;
  }

  lemma CyfsPathIs(zone: Option<Text>, path: Text)
    ensures Format(CyfsPath(zone, path)) == Lit("cyfs://") + (if zone.None? then [] else zone.value) + path
  {
    Prefixes();
    hide Lit;
  }

  lemma CyfsObjectIs(id: Text, zone: Option<Text>, inner: Text)
    ensures var authority := if zone.None? || zone.value == [] then id else id + Lit(".") + zone.value;
            Format(CyfsObject(id, zone, inner)) == Lit("cyfs://") + authority + if inner == [] then Lit("/") else inner
  {
    Prefixes();
    var u := CyfsObject(id, zone, inner);
    AuthorityOfObject(id, zone, inner);
    hide Lit, Authority;
    assert Format(u) == Lit("cyfs") + SCHEME_MARK + (Authority(u) + PathPart(u) + []);
    FourTexts(Lit("cyfs"), SCHEME_MARK, Authority(u), PathPart(u), []);
  }

  lemma AuthorityOfObject(id: Text, zone: Option<Text>, inner: Text)
    ensures Authority(CyfsObject(id, zone, inner))
         == if zone.None? || zone.value == [] then id else id + Lit(".") + zone.value
  {
    Prefixes();
    hide Lit;
    assert id + [] == id;
    if zone.Some? {
      assert id + ([DOT] + zone.value) == id + [DOT] + zone.value;
    }
  }

  lemma ObjIs(h: ObjHost, path: Text, m: QueryMap)
    ensures Format(ObjUrl(h, path, m)) == Lit("obj://") + h.name + path + if m == map[] then []
              else Lit("?") + QueryText(m)
  {
    QueryPartIs(h, path, m);
    hide Lit, QueryText, QueryPart;
    var u := ObjUrl(h, path, m);
    assert Format(u) == Lit("obj") + SCHEME_MARK + (h.name + path + QueryPart(u));
    Prefixes();
    FourTexts(Lit("obj"), SCHEME_MARK, h.name, path, QueryPart(u));
  }

  lemma QueryPartIs(h: ObjHost, path: Text, m: QueryMap)
    ensures QueryPart(ObjUrl(h, path, m)) == if m == map[] then [] else Lit("?") + QueryText(m)
  {
    Prefixes();
    QueryTextUnits(m);
    hide Lit, QueryText;
  }

  lemma FourTexts(a: Text, b: Text, c: Text, d: Text, e: Text)
    ensures a + b + (c + d + e) == (a + b) + c + d + e
  {}

  /** A query is written with its keys in ascending order, each with its value, cut by ampersands. */
  lemma QueryIs(m: QueryMap) returns (keys: seq<Text>)
    ensures (forall k :: k in keys <==> k in m) && forall i, j | 0 <= i < j < |keys| :: Less(keys[i], keys[j])
    ensures QueryText(m)
              == Join(seq(|keys|, i requires 0 <= i < |keys| => Encoded(Query, keys[i]) + Lit("=")
                  + Encoded(Query, m[keys[i]])), AMPERSAND)
  {
    keys := SortedKeys(m.Keys);
    SortedKeysFacts(m.Keys);
    SortedKeysSorted(m.Keys);
    KeysAscend(keys);
    PairTextsAre(m, keys);
  }

  lemma KeysAscend(keys: seq<Text>)
    requires Sorted(TEXT_LESS, keys) && forall i, j | 0 <= i < j < |keys| :: keys[i] != keys[j]
    ensures forall i, j | 0 <= i < j < |keys| :: Less(keys[i], keys[j])
  {
    TextLessTotal(set k | k in keys);
    hide Less;
    forall i, j | 0 <= i < j < |keys|
      ensures Less(keys[i], keys[j])
    {
      assert !TEXT_LESS(keys[j], keys[i]);
    }
  }

  lemma {:induction false} PairTextsAre(m: QueryMap, keys: seq<Text>)
    requires forall k | k in keys :: k in m
    ensures PairTexts(m, keys)
              == seq(|keys|, i requires 0 <= i < |keys| => Encoded(Query, keys[i]) + Lit("=")
                  + Encoded(Query, m[keys[i]]))
  {
    hide Encoded;
    assert Lit("=") == [EQUALS];
    if keys != [] { PairTextsAre(m, keys[1..]); }
  }
}
