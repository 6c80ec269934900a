/**
 * References of the AI Workspace as object URLs: `aiwsReferenceUrl` and `parseAiwsReferenceUrl`
 * (src/aiworkspace_client.ts).
 *
 * Building a reference URL normalises it, so it is parsed and printed once before it is returned, and once more
 * when it is read: an id passes through the percent codec three times. The round trip is therefore stated for all
 * ids, with the exact condition on them, and its proof follows an id through the three passes.
 */
module AiwsReference {
  import opened Wrappers
  import opened JsText
  import opened Utf8
  import opened PercentCodec
  import opened CanonicalJson
  import opened UrlPath
  import opened UrlQuery
  import opened ObjectUrl

  /** The fields of a reference its URL projects; `selector` and `version` are JSON objects. */
  datatype Reference = Reference(
    workspaceId: Option<Text>, entityId: Text, selector: Option<Json>, fixed: bool, version: Option<Json>)

  datatype ReferenceError = NoWorkspace | NotAnEntityUrl | BadJson | BadUrl(error: UrlError)

  const SERVICE_NAME: Text := Lit("aiworkspace")
  const ENTITIES: Text := Lit("entities")
  const MODE_KEY: Text := Lit("mode")
  const FIXED_MODE: Text := Lit("fixed")
  const VERSION_KEY: Text := Lit("version")

  // ---- aiwsReferenceUrl

  function JsonPair(key: Text, v: Option<Json>): seq<Text> {
    if v.Some? then [key + [EQUALS] + Encoded(Query, CanonicalText(v.value))] else []
  }

  function QueryPairs(r: Reference): seq<Text> {
    (if r.fixed then [MODE_KEY + [EQUALS] + FIXED_MODE] else [])
    + JsonPair(SELECTOR_KEY, r.selector) + JsonPair(VERSION_KEY, r.version)
  }

  /** The URL before `normalizeObjectUrl`. */
  function RawUrl(r: Reference, ws: Text): Text {
    var query := QueryPairs(r);
    Lit("obj") + SCHEME_MARK
    + (SERVICE_NAME + PathText([ws, ENTITIES, r.entityId], false)
       + (if query != [] then [QUESTION] + Join(query, AMPERSAND) else []))
  }

  function ReferenceUrl(p: Platform, r: Reference, workspaceId: Option<Text>): Result<Text, ReferenceError> {
    var ws := if r.workspaceId.Some? then r.workspaceId else workspaceId;
    if ws.None? || ws.value == [] then Err(NoWorkspace)
    else
      match Parse(p, RawUrl(r, ws.value))
      case Err(e) => Err(BadUrl(e))
      case Ok(u) => Ok(Format(u))
  }

  // ---- parseAiwsReferenceUrl

  function DecodedOrRaw(raw: seq<Text>): seq<Text> {
    if raw == [] then []
    else
      (if raw[0] == [] then [] else [if Decoded(raw[0]).Some? then Decoded(raw[0]).value else raw[0]])
      + DecodedOrRaw(raw[1..])
  }

  function ObjectSegments(u: ObjectUrl): seq<Text> {
    if u.ObjUrl? then DecodedOrRaw(Split(u.path, SLASH)) else []
  }

  function JsonField(num: NumberRule, query: QueryMap, key: Text): Result<Option<Json>, ReferenceError> {
    if key !in query then Ok(None)
    else
      match JsonParse(num, query[key])
      case None => Err(BadJson)
      case Some(v) => Ok(Some(v))
  }

  function ReadReference(p: Platform, u: ObjectUrl): Result<Reference, ReferenceError> {
    var segments := ObjectSegments(u);
    if !u.ObjUrl? || u.host.name != SERVICE_NAME || |segments| != 3 || segments[1] != ENTITIES then Err(NotAnEntityUrl)
    else
      var selector :- JsonField(p.number, u.query, SELECTOR_KEY);
      var version :- JsonField(p.number, u.query, VERSION_KEY);
      Ok(Reference(Some(segments[0]), segments[2], selector,
                   MODE_KEY in u.query && u.query[MODE_KEY] == FIXED_MODE, version))
  }

  function ParseReferenceUrl(p: Platform, url: Text): Result<Reference, ReferenceError> {
    match Parse(p, url)
    case Err(e) => Err(BadUrl(e))
    case Ok(u) => ReadReference(p, u)
  }

  // ---- the URL value of a reference

  function JsonEntry(key: Text, v: Option<Json>): seq<(Text, Text)> {
    if v.Some? then [(key, CanonicalText(v.value))] else []
  }

  function Entries(r: Reference): seq<(Text, Text)> {
    (if r.fixed then [(MODE_KEY, FIXED_MODE)] else []) + JsonEntry(SELECTOR_KEY, r.selector)
        + JsonEntry(VERSION_KEY, r.version)
  }

  function MapOf(es: seq<(Text, Text)>): QueryMap {
    if es == [] then map[] else MapOf(es[1..])[es[0].0 := es[0].1]
  }

  function KeysOf(es: seq<(Text, Text)>): seq<Text> { seq(|es|, i requires 0 <= i < |es| => es[i].0) }

  function PairsOf(es: seq<(Text, Text)>): seq<Text> {
    seq(|es|, i requires 0 <= i < |es| => PairText(es[i].0, es[i].1))
  }

  predicate Ascending(es: seq<(Text, Text)>) { forall i, j | 0 <= i < j < |es| :: Less(es[i].0, es[j].0) }

  /** The first of ascending keys is less than the others. */
  lemma FirstLess(es: seq<(Text, Text)>)
    requires es != [] && Ascending(es)
    ensures KeysOf(es) == [es[0].0] + KeysOf(es[1..])
    ensures forall j | j in KeysOf(es[1..]) :: !Less(j, es[0].0) && j != es[0].0
    ensures !Less(es[0].0, es[0].0)
  {
    hide Less;
    var k, rest := es[0].0, es[1..];
    forall j | j in KeysOf(rest)
      ensures !Less(j, k) && j != k
    {
      var i :| 0 <= i < |rest| && j == rest[i].0;
      assert Less(es[0].0, es[i + 1].0);
      LessAsymmetric(k, j);
    }
    LessAsymmetric(k, k);
  }

  lemma {:induction false} MapOfEntries(es: seq<(Text, Text)>)
    requires Ascending(es)
    ensures var m := MapOf(es);
            && (forall k :: k in m <==> k in KeysOf(es))
            && (forall i | 0 <= i < |es| :: es[i].0 in m && m[es[i].0] == es[i].1)
  {
    hide Less;
    if es != [] {
      var rest := es[1..];
      MapOfEntries(rest);
      FirstLess(es);
      forall i | 0 <= i < |es|
        ensures es[i].0 in MapOf(es) && MapOf(es)[es[i].0] == es[i].1
      {
        assert i > 0 ==> es[i] == rest[i - 1] && KeysOf(rest)[i - 1] == es[i].0;
      }
    }
  }

  lemma MinFirst(k: Text, keys: set<Text>)
    requires k in keys && forall j | j in keys :: !Less(j, k)
    ensures SortedKeys(keys) == [k] + SortedKeys(keys - {k})
  {
    hide Less;
    assert IsMin(k, keys);
    MinUnique(keys);
  }

  /** A query listed with ascending keys is printed in the order it is listed. */
  lemma {:induction false} AscendingPrinted(es: seq<(Text, Text)>)
    requires Ascending(es)
    ensures var m := MapOf(es);
            && (forall k :: k in m <==> k in KeysOf(es))
            && (forall i | 0 <= i < |es| :: es[i].0 in m && m[es[i].0] == es[i].1)
            && SortedKeys(m.Keys) == KeysOf(es)
  {
    hide Less;
    MapOfEntries(es);
    if es != [] {
      var rest, m := es[1..], MapOf(es);
      AscendingPrinted(rest);
      FirstLess(es);
      assert m.Keys - {es[0].0} == MapOf(rest).Keys;
      MinFirst(es[0].0, m.Keys);
    }
  }

  lemma {:induction false} PairTextsOf(m: QueryMap, es: seq<(Text, Text)>)
    requires forall i | 0 <= i < |es| :: es[i].0 in m && m[es[i].0] == es[i].1
    ensures forall k | k in KeysOf(es) :: k in m
    ensures PairTexts(m, KeysOf(es)) == PairsOf(es)
  {
    hide PairText;
    var keys := KeysOf(es);
    if es != [] {
      PairTextsOf(m, es[1..]);
      assert keys[1..] == KeysOf(es[1..]);
      assert PairTexts(m, keys) == [PairText(es[0].0, es[0].1)] + PairTexts(m, keys[1..]);
      assert PairsOf(es)[1..] == PairsOf(es[1..]);
    }
  }

  function QueryOf(r: Reference): QueryMap { MapOf(Entries(r)) }

  function UrlOf(r: Reference, ws: Text): ObjectUrl {
    ObjUrl(Service(SERVICE_NAME), PathText([ws, ENTITIES, r.entityId], false), QueryOf(r))
  }

  lemma KeyFacts()
    ensures Less(MODE_KEY, SELECTOR_KEY) && Less(MODE_KEY, VERSION_KEY) && Less(SELECTOR_KEY, VERSION_KEY)
    ensures MODE_KEY != SELECTOR_KEY && MODE_KEY != VERSION_KEY && SELECTOR_KEY != VERSION_KEY
  {
    assert MODE_KEY[0] == 0x6D && SELECTOR_KEY[0] == 0x73 && VERSION_KEY[0] == 0x76;
  }

  lemma {:induction false} PlainBytes(c: Component, t: Bytes)
    requires forall i | 0 <= i < |t| :: Keep(c, t[i])
    ensures EncodeBytes(c, t) == t
  {
    if t != [] { PlainBytes(c, t[1..]); }
  }

  lemma EncodedPlain(t: Text)
    requires forall i | 0 <= i < |t| :: IsLower(t[i])
    ensures Encoded(Query, t) == t && Encoded(Segment, t) == t && WellFormed(t)
  {
    AsciiEncode(t);
    AsciiCodePoints(t);
    PlainBytes(Query, t);
    PlainBytes(Segment, t);
  }

  lemma ModePlain()
    ensures Encoded(Query, MODE_KEY) == MODE_KEY && Encoded(Query, FIXED_MODE) == FIXED_MODE
  {
    hide Encoded, WellFormed;
    EncodedPlain(MODE_KEY);
    EncodedPlain(FIXED_MODE);
  }

  lemma JsonPairPlain(key: Text, v: Option<Json>)
    requires key == SELECTOR_KEY || key == VERSION_KEY
    ensures JsonPair(key, v) == PairsOf(JsonEntry(key, v))
  {
    hide Encoded, CanonicalText;
    EncodedPlain(key);
    if v.Some? { OnePair(key, CanonicalText(v.value)); }
  }

  lemma OnePair(key: Text, value: Text)
    requires Encoded(Query, key) == key
    ensures PairsOf([(key, value)]) == [key + [EQUALS] + Encoded(Query, value)]
  {}

  lemma PairsOfConcat(a: seq<(Text, Text)>, b: seq<(Text, Text)>)
    ensures PairsOf(a + b) == PairsOf(a) + PairsOf(b)
  {}

  lemma EntriesAscending(r: Reference)
    ensures Ascending(Entries(r))
  {
    KeyFacts();
  }

  lemma EntryPairs(r: Reference)
    ensures PairsOf(Entries(r)) == QueryPairs(r)
  {
    var a := if r.fixed then [(MODE_KEY, FIXED_MODE)] else [];
    var b, c := JsonEntry(SELECTOR_KEY, r.selector), JsonEntry(VERSION_KEY, r.version);
    ModePlain();
    JsonPairPlain(SELECTOR_KEY, r.selector);
    JsonPairPlain(VERSION_KEY, r.version);
    PairsOfConcat(a, b);
    PairsOfConcat(a + b, c);
    assert PairsOf(a) == if r.fixed then [MODE_KEY + [EQUALS] + FIXED_MODE] else [];
  }

  ghost predicate ValidReference(p: Platform, r: Reference) {
    && (r.selector.Some? ==> Valid(p.number, r.selector.value))
    && (r.version.Some? ==> Valid(p.number, r.version.value))
  }

  ghost predicate CleanEntry(num: NumberRule, e: (Text, Text)) {
    GoodEntry(num, e.0, e.1) && !StartsWithBom(e.0) && !StartsWithBom(e.1)
  }

  lemma ModeClean(num: NumberRule)
    ensures CleanEntry(num, (MODE_KEY, FIXED_MODE))
  {
    hide Encoded, WellFormed;
    KeyFacts();
    EncodedPlain(MODE_KEY);
    EncodedPlain(FIXED_MODE);
  }

  lemma JsonClean(num: NumberRule, key: Text, v: Json)
    requires Lawful(num) && Valid(num, v) && (key == SELECTOR_KEY || key == VERSION_KEY)
    ensures CleanEntry(num, (key, CanonicalText(v)))
  {
    EncodedPlain(key);
    CanonicalTextWellFormed(num, v);
    assert IsCanonicalValue(num, CanonicalText(v));
  }

  ghost predicate AllClean(num: NumberRule, es: seq<(Text, Text)>) { forall e | e in es :: CleanEntry(num, e) }

  lemma AllCleanConcat(num: NumberRule, a: seq<(Text, Text)>, b: seq<(Text, Text)>)
    requires AllClean(num, a) && AllClean(num, b)
    ensures AllClean(num, a + b)
  {}

  lemma EntriesClean(p: Platform, r: Reference)
    requires LawfulPlatform(p) && ValidReference(p, r)
    ensures AllClean(p.number, Entries(r))
  {
    var a := if r.fixed then [(MODE_KEY, FIXED_MODE)] else [];
    var b, c := JsonEntry(SELECTOR_KEY, r.selector), JsonEntry(VERSION_KEY, r.version);
    ModeClean(p.number);
    JsonEntryClean(p.number, SELECTOR_KEY, r.selector);
    JsonEntryClean(p.number, VERSION_KEY, r.version);
    AllCleanConcat(p.number, a, b);
    AllCleanConcat(p.number, a + b, c);
  }

  lemma JsonEntryClean(num: NumberRule, key: Text, v: Option<Json>)
    requires Lawful(num) && (v.Some? ==> Valid(num, v.value)) && (key == SELECTOR_KEY || key == VERSION_KEY)
    ensures AllClean(num, JsonEntry(key, v))
  {
    if v.Some? { JsonClean(num, key, v.value); }
  }

  lemma CleanMap(num: NumberRule, es: seq<(Text, Text)>)
    requires Ascending(es) && AllClean(num, es)
    ensures GoodQuery(num, MapOf(es)) && QueryBomFree(MapOf(es))
  {
    AscendingPrinted(es);
    var m := MapOf(es);
    forall k | k in m
      ensures GoodEntry(num, k, m[k]) && !StartsWithBom(k) && !StartsWithBom(m[k])
    {
      assert k in KeysOf(es);
      var i :| 0 <= i < |es| && KeysOf(es)[i] == k;
      assert es[i] in es && es[i] == (k, m[k]);
    }
  }

  lemma QueryGood(p: Platform, r: Reference)
    requires LawfulPlatform(p) && ValidReference(p, r)
    ensures GoodQuery(p.number, QueryOf(r)) && QueryBomFree(QueryOf(r))
  {
    EntriesAscending(r);
    EntriesClean(p, r);
    CleanMap(p.number, Entries(r));
  }

  lemma RawUrlIsFormat(r: Reference, ws: Text)
    ensures RawUrl(r, ws) == Format(UrlOf(r, ws))
  {
    QueryPrinted(r);
    var query := QueryPairs(r);
    assert query != [] ==> Join(query, AMPERSAND) != [];
  }

  lemma QueryPrinted(r: Reference)
    ensures QueryText(QueryOf(r)) == Join(QueryPairs(r), AMPERSAND)
  {
    EntriesAscending(r);
    EntryPairs(r);
    AscendingPrinted(Entries(r));
    PairTextsOf(QueryOf(r), Entries(r));
  }

  // ---- decoding the segments of a path

  lemma {:induction false} SegmentsRead(ds: seq<Text>)
    requires AllWellFormed(ds) && forall i | 0 <= i < |ds| :: ds[i] != []
    ensures DecodedOrRaw(RawOf(ds, false)) == DropBoms(ds)
  {
    hide WellFormed, Encoded, Decoded;
    if ds != [] {
      DecodedEncoded(Segment, ds[0]);
      EncodedEmpty(Segment, ds[0]);
      SegmentsRead(ds[1..]);
      assert RawOf(ds, false)[1..] == RawOf(ds[1..], false);
      assert DropBoms(ds) == [DropBom(ds[0])] + DropBoms(ds[1..]);
    }
  }

  lemma PathSplits(ds: seq<Text>)
    requires ds != []
    ensures Split(PathText(ds, false), SLASH) == [[]] + RawOf(ds, false)
  {
    RawOfJoin(ds, false);
    var all := [[]] + RawOf(ds, false);
    assert all[1..] == RawOf(ds, false);
    assert Join(all, SLASH) == [] + [SLASH] + Join(all[1..], SLASH);
    SplitJoin(all, SLASH);
  }

  lemma PathSegments(ds: seq<Text>)
    requires ds != [] && AllWellFormed(ds) && forall i | 0 <= i < |ds| :: ds[i] != []
    ensures DecodedOrRaw(Split(PathText(ds, false), SLASH)) == DropBoms(ds)
  {
    PathSplits(ds);
    SegmentsRead(ds);
    var all := [[]] + RawOf(ds, false);
    assert all[1..] == RawOf(ds, false);
    assert DecodedOrRaw(all) == [] + DecodedOrRaw(all[1..]);
  }

  // ---- the round trip

  /** What an id must be: a path segment of its own, without lone surrogates, not beginning with U+FEFF. */
  predicate GoodId(t: Text) { WellFormed(t) && GoodSegment(t) && !StartsWithBom(t) }

  function NormOption(v: Option<Json>): Option<Json> {
    match v
    case None => None
    case Some(j) => Some(Norm(j))
  }

  /** The reference as its URL states it. */
  function Stated(r: Reference, ws: Text): Reference {
    Reference(Some(ws), r.entityId, NormOption(r.selector), r.fixed, NormOption(r.version))
  }

  lemma EntitiesPlain()
    ensures WellFormed(ENTITIES) && GoodSegment(ENTITIES) && !StartsWithBom(ENTITIES)
  {
    hide Encoded, WellFormed;
    EncodedPlain(ENTITIES);
    assert ENTITIES[0] == 0x65 && |ENTITIES| == 8;
  }

  lemma ServiceKnown()
    ensures IsServiceName(SERVICE_NAME)
  {
    assert SERVICE_NAMES[7] == SERVICE_NAME;
  }

  lemma GoodIdsPath(ws: Text, entityId: Text)
    requires GoodId(ws) && GoodId(entityId)
    ensures var path := PathText([ws, ENTITIES, entityId], false);
            IsNormalPath(path, true) && BomFree(path) && DecodedOrRaw(Split(path, SLASH)) == [ws, ENTITIES, entityId]
  {
    hide Encoded, WellFormed, PathText, Split, BomFree, DecodedOrRaw;
    var ds := [ws, ENTITIES, entityId];
    EntitiesPlain();
    assert IsPath(PathText(ds, false), true, ds, false);
    BomFreeOf(ds, false);
    PathSegments(ds);
    assert DropBoms(ds) == ds;
  }

  lemma UrlOfReturnable(p: Platform, r: Reference, ws: Text)
    requires LawfulPlatform(p) && ValidReference(p, r) && GoodId(ws) && GoodId(r.entityId)
    ensures Returnable(p, UrlOf(r, ws)) && UrlBomFree(UrlOf(r, ws))
    ensures ObjectSegments(UrlOf(r, ws)) == [ws, ENTITIES, r.entityId]
  {
    GoodIdsPath(ws, r.entityId);
    ServiceKnown();
    QueryGood(p, r);
  }

  lemma UrlOfReads(p: Platform, r: Reference, ws: Text)
    requires LawfulPlatform(p) && ValidReference(p, r) && ObjectSegments(UrlOf(r, ws)) == [ws, ENTITIES, r.entityId]
    ensures ReadReference(p, UrlOf(r, ws)) == Ok(Stated(r, ws))
  {
    hide CanonicalText, Norm, JsonField;
    FieldsRead(p, r);
  }

  lemma GoodIdsParse(p: Platform, r: Reference, ws: Text)
    requires LawfulPlatform(p) && ValidReference(p, r) && GoodId(ws) && GoodId(r.entityId)
    ensures Parse(p, RawUrl(r, ws)) == Ok(UrlOf(r, ws))
    ensures ParseReferenceUrl(p, RawUrl(r, ws)) == Ok(Stated(r, ws))
  {
    hide Parse, RawUrl, Format, Returnable;
    UrlOfReturnable(p, r, ws);
    UrlOfReads(p, r, ws);
    RawUrlIsFormat(r, ws);
    var u := UrlOf(r, ws);
    assert Parse(p, Format(u)) == Ok(u) by { RoundTripObj(p, u); }
  }

  lemma EntriesLookup(r: Reference)
    ensures var m := QueryOf(r);
            && (MODE_KEY in m <==> r.fixed) && (r.fixed ==> m[MODE_KEY] == FIXED_MODE)
            && (SELECTOR_KEY in m <==> r.selector.Some?)
            && (r.selector.Some? ==> m[SELECTOR_KEY] == CanonicalText(r.selector.value))
            && (VERSION_KEY in m <==> r.version.Some?)
            && (r.version.Some? ==> m[VERSION_KEY] == CanonicalText(r.version.value))
  {
    KeyFacts();
    EntriesAscending(r);
    AscendingPrinted(Entries(r));
    var es := Entries(r);
    var n, k := if r.fixed then 1 else 0, if r.selector.Some? then 1 else 0;
    assert r.fixed ==> es[0] == (MODE_KEY, FIXED_MODE);
    assert r.selector.Some? ==> es[n] == (SELECTOR_KEY, CanonicalText(r.selector.value));
    assert r.version.Some? ==> es[n + k] == (VERSION_KEY, CanonicalText(r.version.value));
  }

  lemma FieldsRead(p: Platform, r: Reference)
    requires LawfulPlatform(p) && ValidReference(p, r)
    ensures JsonField(p.number, QueryOf(r), SELECTOR_KEY) == Ok(NormOption(r.selector))
    ensures JsonField(p.number, QueryOf(r), VERSION_KEY) == Ok(NormOption(r.version))
    ensures (MODE_KEY in QueryOf(r) && QueryOf(r)[MODE_KEY] == FIXED_MODE) == r.fixed
  {
    hide CanonicalText, Norm;
    KeyFacts();
    EntriesAscending(r);
    AscendingPrinted(Entries(r));
    EntriesLookup(r);
    if r.selector.Some? { CanonicalReadsBack(p.number, r.selector.value); }
    if r.version.Some? { CanonicalReadsBack(p.number, r.version.value); }
  }

  lemma ServicePlain()
    ensures HostText(SERVICE_NAME)
  {
    ServiceKnown();
    ServiceNameUnits(SERVICE_NAME);
  }

  lemma ObjPathDrops(ds: seq<Text>)
    requires AllWellFormed(ds) && ds != [] && ds[|ds| - 1] != [] && PathText(ds, false) != [SLASH]
    ensures ObjPath(PathText(ds, false)).Ok? <==> forall i | 0 <= i < |ds| :: GoodSegment(DropBom(ds[i]))
    ensures ObjPath(PathText(ds, false)).Ok? ==> ObjPath(PathText(ds, false)).value == PathText(DropBoms(ds), false)
  {
    RawSegmentsOf(ds, false, true);
    NormSegmentsOf(ds, false, true);
  }

  predicate QueryTail(query: Text) {
    PlainText(query) && (query == [] || (query[0] == QUESTION && |query| > 1))
  }

  function RestOf(ds: seq<Text>, query: Text): Text { SERVICE_NAME + PathText(ds, false) + query }

  lemma SplitsAtService(path: Text, query: Text)
    requires PlainText(path) && NoQuestion(path) && QueryTail(query) && path != [] && path[0] == SLASH
    ensures PlainText(SERVICE_NAME + path + query)
    ensures SplitAuthority(SERVICE_NAME + path + query)
              == (SERVICE_NAME, path, if query == [] then None else Some(query[1..]))
  {
    ServicePlain();
    HostPlain(SERVICE_NAME);
    SplitPrinted(SERVICE_NAME, path, query);
  }

  lemma ObjUrlPath(p: Platform, rest: Text, u: ObjectUrl)
    requires ParseObj(p, rest) == Ok(u)
    ensures u.ObjUrl? && ObjPath(SplitAuthority(rest).1) == Ok(u.path)
  {}

  lemma PathPlain(ds: seq<Text>)
    ensures PlainText(PathText(ds, false)) && NoQuestion(PathText(ds, false))
  {
    PathUnits(ds, false);
    KeepPlain(Segment);
    assert forall x | x in PathText(ds, false) :: PlainUnit(x) && x != QUESTION;
  }

  function RawQuery(r: Reference): Text {
    if QueryPairs(r) != [] then [QUESTION] + Join(QueryPairs(r), AMPERSAND) else []
  }

  lemma RawQueryPlain(r: Reference)
    ensures QueryTail(RawQuery(r))
  {
    hide CanonicalText, Encoded, Entries;
    EntriesAscending(r);
    EntryPairs(r);
    AscendingPrinted(Entries(r));
    PairTextsOf(QueryOf(r), Entries(r));
    PairTextsUnits(QueryOf(r), KeysOf(Entries(r)));
    KeepPlain(Query);
    var t := Join(QueryPairs(r), AMPERSAND);
    assert forall u | u in t :: PlainUnit(u);
    assert QueryPairs(r) != [] ==> t != [];
  }

  lemma RawParses(p: Platform, r: Reference, ws: Text)
    requires LawfulPlatform(p)
    ensures Parse(p, RawUrl(r, ws)) == ParseObj(p, RestOf([ws, ENTITIES, r.entityId], RawQuery(r)))
  {
    hide Parse, ParseObj, PathText, RawQuery, RestOf, RawUrl;
    var ds := [ws, ENTITIES, r.entityId];
    var rest := RestOf(ds, RawQuery(r));
    RestPlain(ds, RawQuery(r)) by { RawQueryPlain(r); }
    FormatParses(p, ObjScheme, rest);
    RawUrlText(r, ws);
  }

  lemma RestPlain(ds: seq<Text>, query: Text)
    requires ds != [] && QueryTail(query)
    ensures PlainText(RestOf(ds, query))
  {
    RawOfJoin(ds, false);
    PathPlain(ds);
    SplitsAtService(PathText(ds, false), query);
  }

  lemma RawUrlText(r: Reference, ws: Text)
    ensures RawUrl(r, ws) == SchemeName(ObjScheme) + SCHEME_MARK + RestOf([ws, ENTITIES, r.entityId], RawQuery(r))
  {}

  /** An empty last segment is trimmed away with its slash. */
  lemma TrailingSlash(ds: seq<Text>)
    requires ds != [] && ds[|ds| - 1] != []
    ensures PathText(ds, true) != [] && PathText(ds, true)[0] == SLASH && PathText(ds, true) != [SLASH]
    ensures RawSegments(PathText(ds, true), true) == RawOf(ds, false)
  {
    hide Encoded, PathText;
    RawOfJoin(ds, false);
    var t := PathText(ds, false);
    SlashAppended(ds);
    assert PathText(ds, true) == t + [SLASH];
    var body := (t + [SLASH])[1..];
    assert body[|body| - 1] == SLASH && body[..|body| - 1] == t[1..];
    assert t[1..] == Join(RawOf(ds, false), SLASH);
    SplitJoin(RawOf(ds, false), SLASH);
  }

  lemma {:induction false} SlashAppended(ds: seq<Text>)
    ensures PathText(ds, true) == PathText(ds, false) + [SLASH]
  {
    if ds != [] {
      SlashAppended(ds[1..]);
    }
  }

  lemma {:induction false} AppendEmpty(ds: seq<Text>)
    ensures PathText(ds + [[]], false) == PathText(ds, true)
  {
    if ds == [] {
      EncodedEmpty(Segment, []);
      var last: seq<Text> := [[]];
      assert ds + [[]] == last && last[1..] == [];
    } else {
      AppendEmpty(ds[1..]);
      assert (ds + [[]])[1..] == ds[1..] + [[]];
    }
  }

  lemma EmptyEntityPath(ws: Text)
    requires WellFormed(ws)
    ensures var path := PathText([ws, ENTITIES, []], false);
            && (ObjPath(path).Ok? <==> GoodSegment(DropBom(ws)))
            && (ObjPath(path).Ok? ==> ObjPath(path).value == PathText([DropBom(ws), ENTITIES], false))
  {
    hide WellFormed, Encoded, PathText, RawOf;
    var ds := [ws, ENTITIES];
    EntitiesPlain();
    AppendEmpty(ds);
    assert ds + [[]] == [ws, ENTITIES, []];
    TrailingSlash(ds);
    NormSegmentsOf(ds, false, true);
    SlashAppended(ds);
    assert DropBoms(ds) == [DropBom(ws), ENTITIES];
    assert ds[0] == ws;
  }

  /** What one pass through the codec leaves of an id: U+FFFD for lone surrogates, and one leading U+FEFF dropped. */
  function Kept(t: Text): Text { DropBom(Repaired(t)) }

  /** The segments of the first parse: an empty entity id is trimmed away. */
  function KeptPath(ws: Text, entityId: Text): seq<Text> {
    if entityId == [] then [Kept(ws), ENTITIES] else [Kept(ws), ENTITIES, Kept(entityId)]
  }

  function KeptUrl(r: Reference, ws: Text): ObjectUrl {
    ObjUrl(Service(SERVICE_NAME), PathText(KeptPath(ws, r.entityId), false), QueryOf(r))
  }

  /** The ids have a URL at all. */
  predicate Printable(ws: Text, entityId: Text) {
    GoodSegment(Kept(ws)) && (entityId == [] || GoodSegment(Kept(entityId)))
  }

  lemma RepairedEmpty(t: Text)
    ensures Repaired(t) == [] <==> t == []
  {
    if t != [] {
      assert Scalars(CodePoints(t)) != [];
    }
  }

  lemma KeptGood(ws: Text, entityId: Text)
    requires Printable(ws, entityId)
    ensures GoodSegments(KeptPath(ws, entityId))
  {
    hide WellFormed, Repaired, GoodSegment;
    EntitiesPlain();
    RepairedEncoding(ws);
    RepairedEncoding(entityId);
    DropBomsWellFormed([Repaired(ws), Repaired(entityId)]);
    assert DropBoms([Repaired(ws), Repaired(entityId)])[0] == Kept(ws);
    assert DropBoms([Repaired(ws), Repaired(entityId)])[1] == Kept(entityId);
  }

  /** An id is printed as what encoding leaves of it. */
  lemma PathRepaired(ws: Text, entityId: Text)
    ensures PathText([ws, ENTITIES, entityId], false) == PathText([Repaired(ws), ENTITIES, Repaired(entityId)], false)
  {
    hide TextEncode, Repaired;
    RepairedEncoding(ws);
    RepairedEncoding(entityId);
    ThreeSegments(ws, ENTITIES, entityId);
    ThreeSegments(Repaired(ws), ENTITIES, Repaired(entityId));
  }

  lemma ThreeSegments(a: Text, b: Text, c: Text)
    ensures PathText([a, b, c], false)
              == [SLASH] + Encoded(Segment, a) + ([SLASH] + Encoded(Segment, b) + ([SLASH] + Encoded(Segment, c)))
  {
    hide Encoded;
    assert [a, b, c][1..] == [b, c] && [b, c][1..] == [c] && [c][1..] == [];
    assert PathText([c], false) == [SLASH] + Encoded(Segment, c) + [];
    assert PathText([b, c], false) == [SLASH] + Encoded(Segment, b) + PathText([c], false);
  }

  lemma KeptObjPath(ws: Text, entityId: Text)
    ensures var path := PathText([ws, ENTITIES, entityId], false);
            && (ObjPath(path).Ok? <==> Printable(ws, entityId))
            && (ObjPath(path).Ok? ==> ObjPath(path).value == PathText(KeptPath(ws, entityId), false))
  {
    hide WellFormed, Encoded, PathText, ObjPath, GoodSegment, Repaired, StartsWithBom;
    var w, e := Repaired(ws), Repaired(entityId);
    PathRepaired(ws, entityId);
    RepairedEncoding(ws);
    RepairedEncoding(entityId);
    RepairedEmpty(entityId);
    EntitiesPlain();
    if entityId == [] {
      EmptyEntityPath(w);
    } else {
      LongPath(w, e);
      var ds := [w, ENTITIES, e];
      ObjPathDrops(ds);
      assert DropBoms(ds) == [Kept(ws), ENTITIES, Kept(entityId)];
      assert ds[0] == w && ds[1] == ENTITIES && ds[2] == e;
      assert DropBom(ENTITIES) == ENTITIES;
    }
  }

  lemma RawQueryText(r: Reference)
    ensures (if RawQuery(r) == [] then None else Some(RawQuery(r)[1..])) == UrlQueryOf(QueryOf(r))
  {
    hide QueryText;
    QueryPrinted(r);
    RawQueryPlain(r);
    QueryTextUnits(QueryOf(r));
  }

  /** What `parseObjectUrl` makes of the URL of a reference, whatever its ids, and when it makes anything of it. */
  lemma FirstParse(p: Platform, r: Reference, ws: Text)
    requires LawfulPlatform(p) && ValidReference(p, r)
    ensures Parse(p, RawUrl(r, ws)).Ok? <==> Printable(ws, r.entityId)
    ensures Parse(p, RawUrl(r, ws)).Ok? ==> Parse(p, RawUrl(r, ws)).value == KeptUrl(r, ws)
  {
    hide Parse, RawUrl, RawQuery, PathText, SplitAuthority, ObjPath, ObjQuery, ParseObjHost, Printable, QueryOf,
         KeptPath;
    RawParses(p, r, ws);
    var path := PathText([ws, ENTITIES, r.entityId], false);
    PathPlain([ws, ENTITIES, r.entityId]);
    RawOfJoin([ws, ENTITIES, r.entityId], false);
    RawQueryPlain(r);
    SplitsAtService(path, RawQuery(r));
    ServiceParses(p);
    KeptObjPath(ws, r.entityId);
    RawQueryText(r);
    QueryGood(p, r);
    ObjQueryReadsBack(p, QueryOf(r));
  }

  lemma ServiceParses(p: Platform)
    requires LawfulPlatform(p)
    ensures p.lower(SERVICE_NAME) == SERVICE_NAME && ParseObjHost(p, SERVICE_NAME) == Ok(Service(SERVICE_NAME))
  {
    ServicePlain();
    ServiceKnown();
  }

  lemma LongPath(ws: Text, entityId: Text)
    ensures PathText([ws, ENTITIES, entityId], false) != [SLASH]
  {
    assert [ws, ENTITIES, entityId][1..] == [ENTITIES, entityId];
    assert |PathText([ENTITIES, entityId], false)| >= 1;
    EncodedEmpty(Segment, ENTITIES);
  }

  /** Printing and parsing again drops one more U+FEFF from each segment, and reading them out a third. */
  lemma SecondParse(p: Platform, u: ObjectUrl, ds: seq<Text>, v: ObjectUrl)
    requires LawfulPlatform(p) && Returnable(p, u) && u.ObjUrl? && u.path == PathText(ds, false)
    requires GoodSegments(ds) && ds != [] && Parse(p, Format(u)) == Ok(v)
    ensures ObjectSegments(v) == DropBoms(DropBoms(ds))
  {
    hide Parse, ParseObj, Returnable, Format, WellFormed, Encoded, PathText, ObjPath;
    var rest := FormatSplitsObj(p, u);
    ObjUrlPath(p, rest, v);
    NotRoot(ds);
    ObjPathDrops(ds);
    DropBomsWellFormed(ds);
    PathSegments(DropBoms(ds));
  }

  lemma NotRoot(ds: seq<Text>)
    requires ds != [] && ds[0] != []
    ensures PathText(ds, false) != [SLASH]
  {
    EncodedEmpty(Segment, ds[0]);
  }

  lemma {:induction false} ThirdDrop(t: Text)
    requires DropBom(DropBom(DropBom(t))) == t
    ensures !StartsWithBom(t)
  {}

  /** Which workspace the URL is for: the reference's own, or else the one given. */
  function Workspace(r: Reference, workspaceId: Option<Text>): Option<Text> {
    if r.workspaceId.Some? then r.workspaceId else workspaceId
  }

  /** Exactly when a reference has a URL. */
  lemma ReferenceUrlOkIff(p: Platform, r: Reference, workspaceId: Option<Text>)
    requires LawfulPlatform(p) && ValidReference(p, r)
    ensures ReferenceUrl(p, r, workspaceId).Ok?
       <==> Workspace(r, workspaceId).Some? && Printable(Workspace(r, workspaceId).value, r.entityId)
  {
    hide Parse, RawUrl, Format;
    if Workspace(r, workspaceId).Some? {
      FirstParse(p, r, Workspace(r, workspaceId).value);
    }
  }

  /**
   * `parseAiwsReferenceUrl(aiwsReferenceUrl(r))` gives back the workspace, entity, mode, selector and version of
   * `r` exactly when both ids are well-formed path segments of their own not beginning with U+FEFF.
   */
  lemma ReferenceRoundTrip(p: Platform, r: Reference, workspaceId: Option<Text>, ws: Text)
    requires LawfulPlatform(p) && ValidReference(p, r) && Workspace(r, workspaceId) == Some(ws)
    ensures var url := ReferenceUrl(p, r, workspaceId);
            (url.Ok? && ParseReferenceUrl(p, url.value) == Ok(Stated(r, ws))) <==> GoodId(ws) && GoodId(r.entityId)
  {
    hide Parse, RawUrl, Format, WellFormed;
    var url := ReferenceUrl(p, r, workspaceId);
    if GoodId(ws) && GoodId(r.entityId) {
      GoodIdsParse(p, r, ws);
      RawUrlIsFormat(r, ws);
    } else if url.Ok? && ParseReferenceUrl(p, url.value) == Ok(Stated(r, ws)) {
      IdsReadBackGood(p, r, ws);
    }
  }

  lemma IdsReadBackGood(p: Platform, r: Reference, ws: Text)
    requires LawfulPlatform(p) && ValidReference(p, r) && Parse(p, RawUrl(r, ws)).Ok?
    requires ParseReferenceUrl(p, Format(Parse(p, RawUrl(r, ws)).value)) == Ok(Stated(r, ws))
    ensures GoodId(ws) && GoodId(r.entityId)
  {
    hide Parse, RawUrl, Format, ReadReference, Returnable, PathText, WellFormed, Encoded, ObjectSegments, Printable,
         KeptPath, GoodId;
    FirstParse(p, r, ws);
    KeptGood(ws, r.entityId);
    var u, ds := Parse(p, RawUrl(r, ws)).value, KeptPath(ws, r.entityId);
    ParseReturnable(p, RawUrl(r, ws));
    var v := Parse(p, Format(u)).value;
    KeptSome(ws, r.entityId);
    SecondParse(p, u, ds, v);
    SegmentsStated(p, v, r, ws);
    IdsSurvive(ws, r.entityId);
  }

  lemma KeptSome(ws: Text, entityId: Text)
    ensures KeptPath(ws, entityId) != []
  {}

  lemma IdsSurvive(ws: Text, entityId: Text)
    requires Printable(ws, entityId)
    requires DropBoms(DropBoms(KeptPath(ws, entityId))) == [ws, ENTITIES, entityId]
    ensures GoodId(ws) && GoodId(entityId)
  {
    hide WellFormed, Encoded, Repaired;
    var ds := KeptPath(ws, entityId);
    KeptGood(ws, entityId);
    DropBomsWellFormed(ds);
    DropBomsWellFormed(DropBoms(ds));
    assert |ds| == 3;
    var es := DropBoms(DropBoms(ds));
    assert es[0] == DropBom(DropBom(ds[0])) == ws && es[2] == DropBom(DropBom(ds[2])) == entityId;
    assert WellFormed(es[0]) && WellFormed(es[2]);
    RepairedEncoding(ws);
    RepairedEncoding(entityId);
    ThirdDrop(ws);
    ThirdDrop(entityId);
  }

  lemma SegmentsStated(p: Platform, v: ObjectUrl, r: Reference, ws: Text)
    requires ReadReference(p, v) == Ok(Stated(r, ws))
    ensures ObjectSegments(v) == [ws, ENTITIES, r.entityId]
  {}

  /**
   * What a URL tells of a reference, and no more: what is kept of its ids, its mode, and its selector and version up
   * to key order.
   */
  predicate SameStated(r: Reference, ws: Text, s: Reference, vs: Text) {
    && Kept(ws) == Kept(vs) && Kept(r.entityId) == Kept(s.entityId) && r.fixed == s.fixed
    && NormOption(r.selector) == NormOption(s.selector) && NormOption(r.version) == NormOption(s.version)
  }

  /** Two references, any ids, have one URL exactly when they state the same. */
  lemma ReferenceUrlUnique(p: Platform, r: Reference, rw: Option<Text>, s: Reference, sw: Option<Text>)
    requires LawfulPlatform(p) && ValidReference(p, r) && ValidReference(p, s)
    requires ReferenceUrl(p, r, rw).Ok? && ReferenceUrl(p, s, sw).Ok?
    ensures ReferenceUrl(p, r, rw) == ReferenceUrl(p, s, sw)
       <==> SameStated(r, Workspace(r, rw).value, s, Workspace(s, sw).value)
  {
    hide Parse, RawUrl, Format, SameStated, Returnable, KeptUrl;
    var ws, vs := Workspace(r, rw).value, Workspace(s, sw).value;
    FirstParse(p, r, ws);
    FirstParse(p, s, vs);
    ParseReturnable(p, RawUrl(r, ws));
    ParseReturnable(p, RawUrl(s, vs));
    KeptUrlIff(p, r, ws, s, vs);
    if Format(KeptUrl(r, ws)) == Format(KeptUrl(s, vs)) {
      KeptUrlKind(r, ws);
      KeptUrlKind(s, vs);
      FormatInjective(p, KeptUrl(r, ws), KeptUrl(s, vs));
    }
  }

  lemma KeptUrlKind(r: Reference, ws: Text)
    ensures KeptUrl(r, ws).ObjUrl?
  {}

  lemma KeptUrlIff(p: Platform, r: Reference, ws: Text, s: Reference, vs: Text)
    requires LawfulPlatform(p) && ValidReference(p, r) && ValidReference(p, s)
    requires Printable(ws, r.entityId) && Printable(vs, s.entityId)
    ensures KeptUrl(r, ws) == KeptUrl(s, vs) <==> SameStated(r, ws, s, vs)
  {
    hide PathText, QueryOf, KeptPath, Kept, NormOption, Printable;
    QueryOfIff(p, r, s);
    KeptPathIff(ws, r.entityId, vs, s.entityId);
    KeptGood(ws, r.entityId);
    KeptGood(vs, s.entityId);
    if PathText(KeptPath(ws, r.entityId), false) == PathText(KeptPath(vs, s.entityId), false) {
      PathTextInjective(KeptPath(ws, r.entityId), KeptPath(vs, s.entityId), false);
    }
  }

  lemma KeptPathIff(ws: Text, e: Text, vs: Text, f: Text)
    requires Printable(ws, e) && Printable(vs, f)
    ensures KeptPath(ws, e) == KeptPath(vs, f) <==> Kept(ws) == Kept(vs) && Kept(e) == Kept(f)
  {
    hide Repaired;
    RepairedEmpty(e);
    RepairedEmpty(f);
    assert KeptPath(ws, e)[0] == Kept(ws) && KeptPath(vs, f)[0] == Kept(vs);
    assert e != [] ==> KeptPath(ws, e)[2] == Kept(e);
    assert f != [] ==> KeptPath(vs, f)[2] == Kept(f);
  }

  lemma QueryOfIff(p: Platform, r: Reference, s: Reference)
    requires LawfulPlatform(p) && ValidReference(p, r) && ValidReference(p, s)
    ensures QueryOf(r) == QueryOf(s)
       <==> && r.fixed == s.fixed
            && NormOption(r.selector) == NormOption(s.selector) && NormOption(r.version) == NormOption(s.version)
  {
    hide CanonicalText, Norm;
    SameEntryIff(p, SELECTOR_KEY, r.selector, s.selector);
    SameEntryIff(p, VERSION_KEY, r.version, s.version);
    if QueryOf(r) == QueryOf(s) {
      hide QueryOf;
      EntriesLookup(r);
      EntriesLookup(s);
    }
  }

  lemma SameEntryIff(p: Platform, key: Text, v: Option<Json>, w: Option<Json>)
    requires LawfulPlatform(p) && (v.Some? ==> Valid(p.number, v.value)) && (w.Some? ==> Valid(p.number, w.value))
    ensures JsonEntry(key, v) == JsonEntry(key, w) <==> NormOption(v) == NormOption(w)
    ensures v.Some? && w.Some? && CanonicalText(v.value) == CanonicalText(w.value) ==> NormOption(v) == NormOption(w)
  {
    hide CanonicalText, Norm;
    if v.Some? && w.Some? {
      CanonicalIffEqual(p.number, v.value, w.value);
      assert JsonEntry(key, v)[0].1 == CanonicalText(v.value) && JsonEntry(key, w)[0].1 == CanonicalText(w.value);
    }
  }
}
