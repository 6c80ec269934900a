/**
 * The texts of the AI Workspace's reference URLs, and which URLs are read as references (src/aiworkspace_client.ts).
 */
module AiwsUrls {
  import opened Wrappers
  import opened JsText
  import opened Utf8
  import opened PercentCodec
  import opened CanonicalJson
  import opened UrlPath
  import opened UrlQuery
  import opened ObjectUrl
  import opened AiwsReference

  // ---- which URLs are references

  /** The URL names the entity: its service and the three segments of its path, as they decode. */
  ghost predicate NamesEntity(u: ObjectUrl, ws: Text, id: Text) {
    && u.ObjUrl? && u.host.name == Lit("aiworkspace")
    && exists ds :: |ds| == 3 && GoodSegments(ds) && u.path == PathText(ds, false) && IsEntityPath(ds, ws, id)
  }

  predicate IsEntityPath(ds: seq<Text>, ws: Text, id: Text)
    requires |ds| == 3
  {
    DropBom(ds[0]) == ws && DropBom(ds[1]) == Lit("entities") && DropBom(ds[2]) == id
  }

  /** The parameter is the text of this JSON value, or is absent. */
  predicate StatesJson(p: Platform, query: QueryMap, key: Text, v: Option<Json>) {
    if key in query then v.Some? && JsonParse(p.number, query[key]) == v else v.None?
  }

  predicate IsJson(p: Platform, query: QueryMap, key: Text) {
    key in query ==> JsonParse(p.number, query[key]).Some?
  }

  ghost predicate IsEntity(u: ObjectUrl) { exists ws, id :: NamesEntity(u, ws, id) }

  /** The entity's URL has a selector or a version that is no JSON text. */
  ghost predicate BadlyStated(p: Platform, u: ObjectUrl) {
    match u
    case ObjUrl(_, _, query) => BadFields(p, query) && IsEntity(u)
    case _ => false
  }

  predicate BadFields(p: Platform, query: QueryMap) {
    !IsJson(p, query, Lit("selector")) || !IsJson(p, query, Lit("version"))
  }

  predicate FieldsRead(p: Platform, query: QueryMap, r: Reference) {
    && (r.fixed <==> Lit("mode") in query && query[Lit("mode")] == Lit("fixed"))
    && StatesJson(p, query, Lit("selector"), r.selector) && StatesJson(p, query, Lit("version"), r.version)
  }

  ghost predicate ReadAs(p: Platform, u: ObjectUrl, r: Reference) {
    && u.ObjUrl? && r.workspaceId.Some? && NamesEntity(u, r.workspaceId.value, r.entityId)
    && FieldsRead(p, u.query, r)
  }

  /** The segments of a returned URL are those of its path, decoded once more. */
  lemma SegmentsAre(u: ObjectUrl, ds: seq<Text>)
    requires u.ObjUrl? && ds != [] && GoodSegments(ds) && u.path == PathText(ds, false)
    ensures ObjectSegments(u) == DropBoms(ds)
  {
    hide PathText, WellFormed;
    PathSegments(ds);
  }

  lemma PathForm(p: Platform, u: ObjectUrl) returns (ds: seq<Text>)
    requires Returnable(p, u) && u.ObjUrl?
    ensures GoodSegments(ds) && u.path == PathText(ds, false) && ObjectSegments(u) == DropBoms(ds)
  {
    if u.path == [] {
      ds := [];
      EmptySegments(u);
    } else {
      var slash: bool;
      ds, slash :| IsPath(u.path, true, ds, slash);
      hide PathText;
      SegmentsAre(u, ds);
    }
  }

  lemma EmptySegments(u: ObjectUrl)
    requires u.ObjUrl? && u.path == []
    ensures ObjectSegments(u) == [] && PathText([], false) == []
  {
    assert Split(u.path, SLASH) == [[]];
    assert DecodedOrRaw([[]][1..]) == [];
  }

  lemma ThreeOf(ds: seq<Text>, ws: Text, id: Text)
    requires |ds| == 3
    ensures DropBoms(ds) == [ws, ENTITIES, id] <==> IsEntityPath(ds, ws, id)
  {
    hide DropBom;
    assert DropBoms(ds) == [DropBom(ds[0]), DropBom(ds[1]), DropBom(ds[2])];
    assert [ws, ENTITIES, id][0] == ws && [ws, ENTITIES, id][1] == ENTITIES && [ws, ENTITIES, id][2] == id;
  }

  lemma NamesIff(p: Platform, u: ObjectUrl, ws: Text, id: Text)
    requires Returnable(p, u)
    ensures NamesEntity(u, ws, id)
       <==> u.ObjUrl? && u.host.name == SERVICE_NAME && ObjectSegments(u) == [ws, ENTITIES, id]
  {
    hide Returnable, PathText, ObjectSegments, DropBom, GoodSegments, Lit, DropBoms, IsEntityPath;
    if NamesEntity(u, ws, id) {
      var ds :| |ds| == 3 && GoodSegments(ds) && u.path == PathText(ds, false) && IsEntityPath(ds, ws, id);
      SegmentsAre(u, ds);
      ThreeOf(ds, ws, id);
    }
    if u.ObjUrl? && u.host.name == SERVICE_NAME && ObjectSegments(u) == [ws, ENTITIES, id] {
      var ds := PathForm(p, u);
      assert |ds| == |DropBoms(ds)|;
      ThreeOf(ds, ws, id);
    }
  }

  lemma ReadIff(p: Platform, u: ObjectUrl, r: Reference)
    requires Returnable(p, u)
    ensures ReadReference(p, u) == Ok(r) <==> ReadAs(p, u, r)
  {
    hide Returnable, NamesEntity, ObjectSegments, JsonParse, Lit;
    if r.workspaceId.Some? {
      NamesIff(p, u, r.workspaceId.value, r.entityId);
    }
    var ds := ObjectSegments(u);
    assert |ds| == 3 && ds[1] == ENTITIES ==> ds == [ds[0], ENTITIES, ds[2]];
  }

  /**
   * A URL is read as this reference exactly when it parses to a URL of the service whose path names the entity, with
   * the selector and the version as JSON texts; everything else in the query is ignored.
   */
  lemma EntityReadIff(p: Platform, url: Text, r: Reference)
    requires LawfulPlatform(p)
    ensures ParseReferenceUrl(p, url) == Ok(r) <==> Parse(p, url).Ok? && ReadAs(p, Parse(p, url).value, r)
  {
    hide Parse, ReadReference, ReadAs;
    if Parse(p, url).Ok? {
      ParseReturnable(p, url);
      ReadIff(p, Parse(p, url).value, r);
    }
  }

  /**
   * How reading fails: with the parser's error; with a JSON error for an entity's URL; and otherwise as no entity's.
   */
  lemma EntityErrorIff(p: Platform, url: Text)
    requires LawfulPlatform(p)
    ensures forall e :: ParseReferenceUrl(p, url) == Err(BadUrl(e)) <==> Parse(p, url) == Err(e)
    ensures match Parse(p, url)
            case Err(_) => true
            case Ok(u) =>
              && (ParseReferenceUrl(p, url) == Err(BadJson) <==> BadlyStated(p, u))
              && (ParseReferenceUrl(p, url) == Err(NotAnEntityUrl) <==> !IsEntity(u))
    ensures ParseReferenceUrl(p, url) != Err(NoWorkspace)
  {
    hide Parse, ReadReference, IsEntity, BadlyStated;
    if Parse(p, url).Ok? {
      ParseReturnable(p, url);
      ReadErrors(p, Parse(p, url).value);
    }
  }

  lemma ReadErrors(p: Platform, u: ObjectUrl)
    requires Returnable(p, u)
    ensures ReadReference(p, u) == Err(BadJson) <==> BadlyStated(p, u)
    ensures ReadReference(p, u) == Err(NotAnEntityUrl) <==> !IsEntity(u)
    ensures ReadReference(p, u).Err? ==> ReadReference(p, u).error in {BadJson, NotAnEntityUrl}
  {
    hide NamesEntity, ObjectSegments, JsonParse, Lit, Returnable;
    forall ws, id
      ensures NamesEntity(u, ws, id)
         <==> u.ObjUrl? && u.host.name == SERVICE_NAME && ObjectSegments(u) == [ws, ENTITIES, id]
    {
      NamesIff(p, u, ws, id);
    }
    var ds := ObjectSegments(u);
    assert |ds| == 3 && ds[1] == ENTITIES ==> ds == [ds[0], ENTITIES, ds[2]];
  }

  // ---- the text of a reference

  /** The parameters of a reference, in this order, each if it is stated. */
  function Parameters(r: Reference): seq<Text> {
    (if r.fixed then [Lit("mode=fixed")] else [])
    + (if r.selector.Some? then [Lit("selector=") + Encoded(Query, CanonicalText(r.selector.value))] else [])
    + (if r.version.Some? then [Lit("version=") + Encoded(Query, CanonicalText(r.version.value))] else [])
  }

  function ParameterText(r: Reference): Text {
    if Parameters(r) == [] then [] else Lit("?") + Join(Parameters(r), '&' as int)
  }

  /** The URL of an entity; one without an id is left with the path of the entities. */
  function EntityText(ws: Text, id: Text, r: Reference): Text {
    Lit("obj://aiworkspace/") + Encoded(Segment, ws) + Lit("/entities")
    + (if id == [] then [] else Lit("/") + Encoded(Segment, id)) + ParameterText(r)
  }

  /** The URL of a reference, for every reference that has one; its own workspace goes before the one given. */
  lemma ReferenceUrlIs(p: Platform, r: Reference, workspaceId: Option<Text>)
    requires LawfulPlatform(p) && ValidReference(p, r)
    ensures match ReferenceUrl(p, r, workspaceId)
            case Ok(url) =>
              var ws := if r.workspaceId.Some? then r.workspaceId else workspaceId;
              ws.Some? && url == EntityText(Kept(ws.value), Kept(r.entityId), r)
            case Err(NoWorkspace) =>
              (if r.workspaceId.Some? then r.workspaceId.value == []
                  else workspaceId == None || workspaceId == Some([]))
            case Err(_) => true
  {
    ReferenceUrlOkIff(p, r, workspaceId);
    var ws := Workspace(r, workspaceId);
    hide Parse, RawUrl, EntityText, Kept, Format, Printable;
    if ReferenceUrl(p, r, workspaceId).Ok? {
      FirstParse(p, r, ws.value);
      KeptText(r, ws.value);
    }
  }

  lemma LiteralParameters(r: Reference)
    ensures Parameters(r) == QueryPairs(r)
  {
    assert Lit("mode=fixed") == MODE_KEY + [EQUALS] + FIXED_MODE;
    assert Lit("selector=") == SELECTOR_KEY + [EQUALS] && Lit("version=") == VERSION_KEY + [EQUALS];
    hide Lit, Encoded, CanonicalText;
  }

  lemma ParametersPrinted(r: Reference)
    ensures ParameterText(r) == if QueryText(QueryOf(r)) == [] then [] else [QUESTION] + QueryText(QueryOf(r))
  {
    LiteralParameters(r);
    QueryPrinted(r);
    JoinedSome(r);
    assert Lit("?") == [QUESTION];
    hide Lit, Parameters, QueryPairs, Join, QueryText, QueryOf;
  }

  lemma JoinedSome(r: Reference)
    ensures QueryPairs(r) == [] <==> Join(QueryPairs(r), AMPERSAND) == []
  {
    hide Lit, Encoded, CanonicalText;
  }

  lemma KeptPathText(ws: Text, id: Text)
    ensures PathText(KeptPath(ws, id), false)
         == [SLASH] + Encoded(Segment, Kept(ws)) + Lit("/entities")
            + EntityTail(id)
  {
    EntitiesEncoded();
    hide Encoded, Lit, Kept;
    if id == [] {
      TwoSegments(Kept(ws), ENTITIES);
    } else {
      ThreeSegments(Kept(ws), ENTITIES, Kept(id));
    }
  }

  lemma EntitiesEncoded()
    ensures [SLASH] + Encoded(Segment, ENTITIES) == Lit("/entities")
  {
    assert forall i | 0 <= i < |ENTITIES| :: IsLower(ENTITIES[i]);
    EncodedPlain(ENTITIES);
    EntitiesText();
    hide Encoded, Lit;
  }

  lemma EntitiesText()
    ensures [SLASH] + ENTITIES == Lit("/entities")
  {}

  lemma TwoSegments(a: Text, b: Text)
    ensures PathText([a, b], false) == [SLASH] + Encoded(Segment, a) + ([SLASH] + Encoded(Segment, b))
  {
    hide Encoded;
    assert [a, b][1..] == [b] && [b][1..] == [];
    assert PathText([b], false) == [SLASH] + Encoded(Segment, b) + [];
  }

  lemma BaseText()
    ensures Lit("obj://aiworkspace/") == Lit("obj") + SCHEME_MARK + SERVICE_NAME + [SLASH] && Lit("/") == [SLASH]
  {}

  lemma Assembled(s: Text, n: Text, path: Text, q: Text, base: Text, a: Text, e: Text, t: Text)
    requires path == [SLASH] + a + e + t && base == s + n + [SLASH]
    ensures s + (n + path + q) == base + a + e + t + q
  {
    assert path == [SLASH] + (a + (e + t));
  }

  lemma KeptFormat(r: Reference, ws: Text)
    ensures Format(KeptUrl(r, ws))
         == Lit("obj") + SCHEME_MARK + (SERVICE_NAME + PathText(KeptPath(ws, r.entityId), false) + ParameterText(r))
  {
    ParametersPrinted(r);
    hide Lit, PathText, QueryText, QueryOf, ParameterText, KeptPath;
  }

  lemma KeptText(r: Reference, ws: Text)
    requires Printable(ws, r.entityId)
    ensures Format(KeptUrl(r, ws)) == EntityText(Kept(ws), Kept(r.entityId), r)
  {
    hide *;
    KeptFormat(r, ws);
    KeptPathText(ws, r.entityId);
    TailIs(r, ws);
    BaseText();
    Assembled(Lit("obj") + SCHEME_MARK, SERVICE_NAME, PathText(KeptPath(ws, r.entityId), false), ParameterText(r),
              Lit("obj://aiworkspace/"), Encoded(Segment, Kept(ws)), Lit("/entities"), EntityTail(r.entityId));
  }

  lemma TailIs(r: Reference, ws: Text)
    requires Printable(ws, r.entityId)
    ensures EntityText(Kept(ws), Kept(r.entityId), r)
         == Lit("obj://aiworkspace/") + Encoded(Segment, Kept(ws)) + Lit("/entities") + EntityTail(r.entityId)
            + ParameterText(r)
  {
    KeptEmpty(ws, r.entityId);
    assert Lit("/") == [SLASH];
    hide Lit, Encoded, Kept, ParameterText, Printable;
  }

  function EntityTail(id: Text): Text { if id == [] then [] else [SLASH] + Encoded(Segment, Kept(id)) }

  lemma KeptEmpty(ws: Text, id: Text)
    requires Printable(ws, id)
    ensures id == [] <==> Kept(id) == []
  {
    RepairedEmpty(id);
  }
}
