/**
 * Object URLs: `parseObjectUrl`, `formatObjectUrl` and `normalizeObjectUrl` (src/object_url.ts).
 *
 * Every URL value other than a web URL is shown to be printed in plain units, split back into authority, path
 * and query, and read by the branch of its scheme. Paths and queries have normal forms of their own.
 */
module ObjectUrl {
  import opened Wrappers
  import opened JsText
  import opened Utf8
  import opened PercentCodec
  import opened CanonicalJson
  import opened UrlPath
  import opened UrlQuery

  /** What the parser takes from the platform and from other files. */
  datatype Platform = Platform(
    lower: Text -> Text,             // String.prototype.toLowerCase
    objId: Text -> bool,             // labels ObjId.fromString reads and toBase32 gives back, of an acceptable type
    number: NumberRule,              // number literals of JSON.parse
    webUrl: Text -> Option<Text>)    // new URL(input).toString()

  const DOT: Unit := 0x2E
  const DASH: Unit := 0x2D
  const QUESTION: Unit := 0x3F
  const HASH: Unit := 0x23

  predicate HostUnit(u: int) { IsLower(u) || IsDigit(u) || u == DASH || u == DOT }
  predicate HostText(t: Text) { forall i | 0 <= i < |t| :: HostUnit(t[i]) }

  ghost predicate LawfulPlatform(p: Platform) {
    && Lawful(p.number)
    && (forall t | HostText(t) :: p.lower(t) == t)
    && (forall t | p.objId(t) :: HostText(t) && DOT !in t)
  }

  datatype ObjHost = Service(name: Text) | Entity(name: Text)

  datatype ObjectUrl =
    | File(deviceId: Option<Text>, path: Text)
    | CyfsPath(zone: Option<Text>, path: Text)
    | CyfsObject(objId: Text, sourceZone: Option<Text>, innerPath: Text)
    | ObjUrl(host: ObjHost, path: Text, query: QueryMap)
    | Web(url: Text)
    | BuckyOs(url: Text)

  datatype UrlError =
    | NoScheme | UnsupportedScheme | InvalidWebUrl | TakesNoQuery | InvalidDeviceId | PathRequired
    | InvalidSourceZone | NotAZoneHost | InvalidObjHost | BadPath(path: PathError) | BadQuery(query: QueryError)

  // ---- hosts

  const SERVICE_NAMES: seq<Text> := [
    Lit("config"), Lit("dfs"), Lit("taskmgr"), Lit("kmsg"), Lit("bucket"), Lit("ndm"),
    Lit("msg-center"), Lit("aiworkspace"), Lit("homestation"), Lit("opendan"), Lit("aicc")]

  predicate IsServiceName(t: Text) { t in SERVICE_NAMES }

  predicate IsHostLabel(part: Text) {
    && 0 < |part| <= 63
    && (forall i | 0 <= i < |part| :: IsLower(part[i]) || IsDigit(part[i]) || part[i] == DASH)
    && part[0] != DASH && part[|part| - 1] != DASH
  }

  predicate IsHostname(host: Text) {
    host != [] && |host| <= 253 && forall part | part in Split(host, DOT) :: IsHostLabel(part)
  }

  predicate IsObjIdLabel(p: Platform, part: Text) { |part| >= 26 && p.objId(part) }

  function FirstLabel(host: Text): Text {
    match IndexOf(host, DOT)
    case None => host
    case Some(i) => host[..i]
  }

  function ParseObjHost(p: Platform, host: Text): Result<ObjHost, UrlError> {
    if host == [] then Err(InvalidObjHost)
    else if IsServiceName(host) then Ok(Service(host))
    else if DOT !in host || !IsHostname(host) then Err(InvalidObjHost)
    else if IsServiceName(FirstLabel(host)) || IsObjIdLabel(p, FirstLabel(host)) then Err(InvalidObjHost)
    else Ok(Entity(host))
  }

  // ---- splitting

  const SCHEME_MARK: Text := [0x3A, 0x2F, 0x2F] // ://

  /** `t.indexOf('://')` */
  function SchemeEnd(t: Text): (r: Option<nat>)
    ensures r.Some? ==> r.value + 3 <= |t|
  {
    if |t| < 3 then None
    else if t[..3] == SCHEME_MARK then Some(0)
    else
      var i :- SchemeEnd(t[1..]);
      Some(i + 1)
  }

  /** The index of the first `?` or `#`, or the length. */
  function QueryStart(t: Text): (n: nat)
    ensures n <= |t| && forall i | 0 <= i < n :: t[i] != QUESTION && t[i] != HASH
    ensures n < |t| ==> t[n] == QUESTION || t[n] == HASH
  {
    if t == [] || t[0] == QUESTION || t[0] == HASH then 0 else 1 + QueryStart(t[1..])
  }

  /** Authority, path, and the query: absent when empty; a fragment is dropped. */
  function SplitAuthority(rest: Text): (Text, Text, Option<Text>) {
    var q := QueryStart(rest);
    var before := rest[..q];
    var tail := Split(rest[q..], HASH)[0];
    var query := if tail != [] && tail[0] == QUESTION then tail[1..] else tail;
    var opt := if query == [] then None else Some(query);
    match IndexOf(before, SLASH)
    case None => (before, [], opt)
    case Some(i) => (before[..i], before[i..], opt)
  }

  // ---- parseObjectUrl

  function PathOf(path: Text, trim: bool): Result<Text, UrlError> {
    match Normalized(path, trim)
    case Ok(t) => Ok(t)
    case Err(e) => Err(BadPath(e))
  }

  function ParseFile(p: Platform, rest: Text): Result<ObjectUrl, UrlError> {
    var (authority, path, query) := SplitAuthority(rest);
    if query.Some? then Err(TakesNoQuery)
    else
      var host := p.lower(authority);
      if host != [] && host != Lit("localhost") && !IsHostname(host) then Err(InvalidDeviceId)
      else if path == [] then Err(PathRequired)
      else
        var t :- PathOf(path, false);
        Ok(File(if host == [] || host == Lit("localhost") then None else Some(host), t))
  }

  function ParseCyfsPath(zone: Option<Text>, path: Text): Result<ObjectUrl, UrlError> {
    if path == [] then Err(PathRequired)
    else
      var t :- PathOf(path, false);
      Ok(CyfsPath(zone, t))
  }

  function ParseCyfsObject(objId: Text, sourceZone: Option<Text>, path: Text): Result<ObjectUrl, UrlError> {
    if sourceZone.Some? && !IsHostname(sourceZone.value) then Err(InvalidSourceZone)
    else if path == [] || path == [SLASH] then Ok(CyfsObject(objId, sourceZone, []))
    else
      var t :- PathOf(path, false);
      Ok(CyfsObject(objId, sourceZone, t))
  }

  const UNDERSCORE: Text := [0x5F]

  function RestLabels(authority: Text): Option<Text> {
    var dot :- IndexOf(authority, DOT);
    Some(authority[dot + 1..])
  }

  function ParseCyfs(p: Platform, rest: Text): Result<ObjectUrl, UrlError> {
    var (rawAuthority, path, query) := SplitAuthority(rest);
    if query.Some? then Err(TakesNoQuery)
    else
      var authority := p.lower(rawAuthority);
      if authority == [] || authority == UNDERSCORE then ParseCyfsPath(None, path)
      else if IsObjIdLabel(p, FirstLabel(authority)) then
        ParseCyfsObject(FirstLabel(authority), RestLabels(authority), path)
      else if !IsHostname(authority) || DOT !in authority then Err(NotAZoneHost)
      else ParseCyfsPath(Some(authority), path)
  }

  function ObjPath(path: Text): Result<Text, UrlError> {
    if path == [] || path == [SLASH] then Ok([]) else PathOf(path, true)
  }

  function ObjQuery(p: Platform, query: Option<Text>): Result<QueryMap, UrlError> {
    match query
    case None => Ok(map[])
    case Some(q) =>
      match ParsedQuery(p.number, q)
      case Ok(m) => Ok(m)
      case Err(e) => Err(BadQuery(e))
  }

  function ParseObj(p: Platform, rest: Text): Result<ObjectUrl, UrlError> {
    var (authority, path, query) := SplitAuthority(rest);
    var host :- ParseObjHost(p, p.lower(authority));
    var t :- ObjPath(path);
    var m :- ObjQuery(p, query);
    Ok(ObjUrl(host, t, m))
  }

  datatype Scheme = WebScheme | BuckyOsScheme | FileScheme | CyfsScheme | ObjScheme | UnknownScheme

  function SchemeOfText(t: Text): Scheme {
    if t == Lit("https") || t == Lit("http") then WebScheme
    else if t == Lit("buckyos") then BuckyOsScheme
    else if t == Lit("file") then FileScheme
    else if t == Lit("cyfs") then CyfsScheme
    else if t == Lit("obj") then ObjScheme
    else UnknownScheme
  }

  function ParseScheme(p: Platform, scheme: Scheme, input: Text, rest: Text): Result<ObjectUrl, UrlError> {
    match scheme
    case WebScheme => (match p.webUrl(input) case None => Err(InvalidWebUrl) case Some(url) => Ok(Web(url)))
    case BuckyOsScheme => Ok(BuckyOs(input))
    case FileScheme => ParseFile(p, rest)
    case CyfsScheme => ParseCyfs(p, rest)
    case ObjScheme => ParseObj(p, rest)
    case UnknownScheme => Err(UnsupportedScheme)
  }

  function Parse(p: Platform, rawInput: Text): Result<ObjectUrl, UrlError> {
    var input := Trim(rawInput);
    match SchemeEnd(input)
    case None => Err(NoScheme)
    case Some(sep) => ParseScheme(p, SchemeOfText(p.lower(input[..sep])), input, input[sep + 3..])
  }

  // ---- formatObjectUrl

  function OrEmpty(t: Option<Text>): Text { if t.Some? then t.value else [] }

  function Authority(u: ObjectUrl): Text {
    match u
    case File(d, _) => OrEmpty(d)
    case CyfsPath(z, _) => OrEmpty(z)
    case CyfsObject(id, z, _) => id + (if z.Some? && z.value != [] then [DOT] + z.value else [])
    case ObjUrl(host, _, _) => host.name
    case _ => []
  }

  /** What follows the authority, up to the query. */
  function PathPart(u: ObjectUrl): Text {
    match u
    case File(_, path) => path
    case CyfsPath(_, path) => path
    case CyfsObject(_, _, inner) => if inner == [] then [SLASH] else inner
    case ObjUrl(_, path, _) => path
    case _ => []
  }

  function QueryPart(u: ObjectUrl): Text {
    if u.ObjUrl? && QueryText(u.query) != [] then [QUESTION] + QueryText(u.query) else []
  }

  function SchemeName(scheme: Scheme): Text {
    match scheme
    case FileScheme => Lit("file")
    case ObjScheme => Lit("obj")
    case _ => Lit("cyfs")
  }

  function SchemeOf(u: ObjectUrl): Scheme {
    match u
    case File(_, _) => FileScheme
    case ObjUrl(_, _, _) => ObjScheme
    case _ => CyfsScheme
  }

  function Format(u: ObjectUrl): Text {
    match u
    case Web(url) => url
    case BuckyOs(url) => url
    case _ => SchemeName(SchemeOf(u)) + SCHEME_MARK + (Authority(u) + PathPart(u) + QueryPart(u))
  }

  // ---- what the parser returns

  ghost predicate GoodHost(p: Platform, host: ObjHost) {
    match host
    case Service(name) => IsServiceName(name)
    case Entity(name) =>
      && DOT in name && IsHostname(name) && !IsServiceName(name)
      && !IsServiceName(FirstLabel(name)) && !IsObjIdLabel(p, FirstLabel(name))
  }

  ghost predicate Returnable(p: Platform, u: ObjectUrl) {
    match u
    case File(d, path) =>
      && IsNormalPath(path, false)
      && (d.Some? ==> IsHostname(d.value) && d.value != Lit("localhost"))
    case CyfsPath(z, path) =>
      && IsNormalPath(path, false)
      && (z.Some? ==> IsHostname(z.value) && DOT in z.value && !IsObjIdLabel(p, FirstLabel(z.value)))
    case CyfsObject(id, z, inner) =>
      && IsObjIdLabel(p, id)
      && (z.Some? ==> IsHostname(z.value))
      && (inner == [] || (IsNormalPath(inner, false) && inner != [SLASH]))
    case ObjUrl(host, path, query) =>
      && GoodHost(p, host)
      && (path == [] || IsNormalPath(path, true))
      && GoodQuery(p.number, query)
    case Web(_) => true
    case BuckyOs(url) =>
      && Trim(url) == url && SchemeEnd(url).Some?
      && SchemeOfText(p.lower(url[..SchemeEnd(url).value])) == BuckyOsScheme
  }

  lemma ParseReturnable(p: Platform, input: Text)
    requires LawfulPlatform(p) && Parse(p, input).Ok?
    ensures Returnable(p, Parse(p, input).value)
  {
    var t := Trim(input);
    var sep := SchemeEnd(t).value;
    var rest := t[sep + 3..];
    match SchemeOfText(p.lower(t[..sep])) {
      case FileScheme => ParseFileReturnable(p, rest);
      case CyfsScheme => ParseCyfsReturnable(p, rest);
      case ObjScheme => ParseObjReturnable(p, rest);
      case WebScheme =>
      case _ => TrimTwice(input);
    }
  }

  lemma ParseFileReturnable(p: Platform, rest: Text)
    requires LawfulPlatform(p) && ParseFile(p, rest).Ok?
    ensures Returnable(p, ParseFile(p, rest).value)
  {
    hide SplitAuthority, Normalized, IsHostname, IsNormalPath;
    NormalizedShape(SplitAuthority(rest).1, false);
  }

  lemma ParseCyfsPathShape(zone: Option<Text>, path: Text)
    requires ParseCyfsPath(zone, path).Ok?
    ensures exists t :: ParseCyfsPath(zone, path) == Ok(CyfsPath(zone, t)) && IsNormalPath(t, false)
  {
    NormalizedShape(path, false);
  }

  lemma ParseCyfsObjectShape(objId: Text, sourceZone: Option<Text>, path: Text)
    requires ParseCyfsObject(objId, sourceZone, path).Ok?
    ensures sourceZone.Some? ==> IsHostname(sourceZone.value)
    ensures exists t :: ParseCyfsObject(objId, sourceZone, path) == Ok(CyfsObject(objId, sourceZone, t))
                     && (t == [] || (IsNormalPath(t, false) && t != [SLASH]))
  {
    if path != [] && path != [SLASH] {
      NormalizedShape(path, false);
    }
  }

  lemma ParseCyfsReturnable(p: Platform, rest: Text)
    requires LawfulPlatform(p) && ParseCyfs(p, rest).Ok?
    ensures Returnable(p, ParseCyfs(p, rest).value)
  {
    var (rawAuthority, path, _) := SplitAuthority(rest);
    var authority := p.lower(rawAuthority);
    if authority == [] || authority == UNDERSCORE {
      ParseCyfsPathShape(None, path);
    } else if IsObjIdLabel(p, FirstLabel(authority)) {
      ParseCyfsObjectShape(FirstLabel(authority), RestLabels(authority), path);
    } else {
      ParseCyfsPathShape(Some(authority), path);
    }
  }

  lemma ObjPathShape(path: Text)
    requires ObjPath(path).Ok?
    ensures ObjPath(path).value == [] || IsNormalPath(ObjPath(path).value, true)
  {
    if path != [] && path != [SLASH] {
      NormalizedShape(path, true);
    }
  }

  lemma ObjQueryGood(p: Platform, query: Option<Text>)
    requires LawfulPlatform(p) && ObjQuery(p, query).Ok?
    ensures GoodQuery(p.number, ObjQuery(p, query).value)
  {
    if query.Some? {
      ParsePairsGood(p.number, Split(query.value, AMPERSAND), map[]);
    }
  }

  lemma ParseObjReturnable(p: Platform, rest: Text)
    requires LawfulPlatform(p) && ParseObj(p, rest).Ok?
    ensures Returnable(p, ParseObj(p, rest).value)
  {
    hide ObjPath, ObjQuery, SplitAuthority, IsNormalPath, GoodQuery, IsServiceName, IsHostname, FirstLabel,
         IsObjIdLabel;
    var (authority, path, query) := SplitAuthority(rest);
    ObjPathShape(path);
    ObjQueryGood(p, query);
  }

  lemma {:induction false} TrimStartFront(t: Text)
    ensures var r := TrimStart(t); r == [] || !IsSpace(r[0])
  {
    if t != [] && IsSpace(t[0]) { TrimStartFront(t[1..]); }
  }

  lemma {:induction false} TrimEndEnds(t: Text)
    ensures var r := TrimEnd(t);
            && r <= t
            && (r == [] || !IsSpace(r[|r| - 1]))
  {
    if t != [] && IsSpace(t[|t| - 1]) { TrimEndEnds(t[..|t| - 1]); }
  }

  lemma TrimTwice(t: Text)
    ensures Trim(Trim(t)) == Trim(t)
  {
    TrimStartFront(t);
    TrimEndEnds(TrimStart(t));
    var r := Trim(t);
    assert TrimStart(r) == r;
  }

  // ---- printed texts have no unit the splitter or the trimmer would act on

  predicate PlainUnit(u: int) { 0x21 <= u <= 0x7E && u != HASH }
  predicate PlainText(t: Text) { forall i | 0 <= i < |t| :: PlainUnit(t[i]) }
  predicate NoQuestion(t: Text) { QUESTION !in t }

  lemma KeepPlain(c: Component)
    ensures forall u | Keep(c, u) || u == PERCENT :: PlainUnit(u) && u != QUESTION
  {}

  lemma NormalPathPlain(path: Text, trim: bool)
    requires IsNormalPath(path, trim)
    ensures PlainText(path) && NoQuestion(path) && path != [] && path[0] == SLASH
  {
    var ds, slash :| IsPath(path, trim, ds, slash);
    PathUnits(ds, slash);
    KeepPlain(Segment);
    RawOfJoin(ds, slash);
    assert forall u | u in path :: PlainUnit(u) && u != QUESTION;
  }

  lemma HostnameUnits(host: Text)
    requires IsHostname(host)
    ensures HostText(host)
  {
    JoinSplit(host, DOT);
    JoinHostText(Split(host, DOT));
  }

  lemma HostTextConcat(a: Text, b: Text)
    requires HostText(a) && HostText(b)
    ensures HostText(a + b) && HostText(a + [DOT] + b)
  {}

  lemma {:induction false} JoinHostText(labels: seq<Text>)
    requires forall l | l in labels :: IsHostLabel(l)
    ensures HostText(Join(labels, DOT))
  {
    if labels != [] {
      assert labels[0] in labels;
      if |labels| > 1 {
        JoinHostText(labels[1..]);
        HostTextConcat(labels[0], Join(labels[1..], DOT));
      }
    }
  }

  lemma HostPlain(t: Text)
    requires HostText(t)
    ensures PlainText(t) && NoQuestion(t) && SLASH !in t
  {}

  lemma ServiceNameUnits(t: Text)
    requires IsServiceName(t)
    ensures HostText(t) && DOT !in t && t != []
  {
    hide HostText, Lit;
    NameUnits("config");
    NameUnits("dfs");
    NameUnits("taskmgr");
    NameUnits("kmsg");
    NameUnits("bucket");
    NameUnits("ndm");
    NameUnits("msg-center");
    NameUnits("aiworkspace");
    NameUnits("homestation");
    NameUnits("opendan");
    NameUnits("aicc");
  }

  lemma NameUnits(name: string)
    requires name != "" && forall i | 0 <= i < |name| :: 'a' <= name[i] <= 'z' || name[i] == '-'
    ensures HostText(Lit(name)) && DOT !in Lit(name) && Lit(name) != []
  {}

  lemma AuthorityUnits(p: Platform, u: ObjectUrl)
    requires LawfulPlatform(p) && Returnable(p, u) && !u.Web? && !u.BuckyOs?
    ensures HostText(Authority(u))
  {
    match u {
      case File(d, _) => if d.Some? { HostnameUnits(d.value); }
      case CyfsPath(z, _) => if z.Some? { HostnameUnits(z.value); }
      case CyfsObject(id, z, _) =>
        if z.Some? {
          HostnameUnits(z.value);
          HostTextConcat(id, z.value);
          assert Authority(u) == id + [DOT] + z.value;
        } else {
          assert Authority(u) == id;
        }
      case ObjUrl(Service(name), _, _) => ServiceNameUnits(name);
      case ObjUrl(Entity(name), _, _) => HostnameUnits(name);
    }
  }

  lemma PathPartUnits(p: Platform, u: ObjectUrl)
    requires Returnable(p, u) && !u.Web? && !u.BuckyOs?
    ensures PlainText(PathPart(u)) && NoQuestion(PathPart(u))
    ensures PathPart(u) == [] || PathPart(u)[0] == SLASH
  {
    match u {
      case File(_, path) => NormalPathPlain(path, false);
      case CyfsPath(_, path) => NormalPathPlain(path, false);
      case CyfsObject(_, _, inner) => if inner != [] { NormalPathPlain(inner, false); }
      case ObjUrl(_, path, _) => if path != [] { NormalPathPlain(path, true); }
    }
  }

  lemma QueryTextUnits(m: QueryMap)
    ensures PlainText(QueryText(m))
    ensures QueryText(m) == [] <==> m == map[]
  {
    var keys := SortedKeys(m.Keys);
    SortedKeysFacts(m.Keys);
    PairTextsUnits(m, keys);
    KeepPlain(Query);
    assert forall x | x in QueryText(m) :: PlainUnit(x);
    if keys == [] {
      assert m.Keys == {};
    }
  }

  lemma QueryPartUnits(p: Platform, u: ObjectUrl)
    requires Returnable(p, u)
    ensures PlainText(QueryPart(u))
    ensures u.ObjUrl? ==> (QueryPart(u) == [] <==> u.query == map[])
  {
    hide QueryText, Returnable;
    if u.ObjUrl? { QueryTextUnits(u.query); }
  }

  // ---- taking a printed URL apart again

  lemma {:induction false} QueryStartAt(a: Text, b: Text)
    requires PlainText(a) && NoQuestion(a) && (b == [] || b[0] == QUESTION)
    ensures QueryStart(a + b) == |a|
  {
    if a == [] {
      assert a + b == b;
    } else {
      QueryStartAt(a[1..], b);
      assert (a + b)[1..] == a[1..] + b;
    }
  }

  lemma SplitPrinted(authority: Text, path: Text, query: Text)
    requires HostText(authority) && PlainText(path) && NoQuestion(path) && PlainText(query)
    requires path == [] || path[0] == SLASH
    requires query == [] || (query[0] == QUESTION && |query| > 1)
    ensures SplitAuthority(authority + path + query)
         == (authority, path, if query == [] then None else Some(query[1..]))
  {
    HostPlain(authority);
    var a := authority + path;
    QueryStartAt(a, query);
    assert (a + query)[..|a|] == a && (a + query)[|a|..] == query;
    assert IndexOf(query, HASH).None?;
    if path != [] {
      IndexOfAt(authority, SLASH, path[1..]);
      assert a == authority + [SLASH] + path[1..];
      assert a[..|authority|] == authority && a[|authority|..] == path;
    } else {
      assert a == authority;
    }
  }

  lemma TrimPlain(t: Text)
    requires PlainText(t)
    ensures Trim(t) == t
  {}

  lemma SchemeNames(scheme: Scheme)
    requires scheme in {FileScheme, CyfsScheme, ObjScheme}
    ensures SchemeOfText(SchemeName(scheme)) == scheme
    ensures forall i | 0 <= i < |SchemeName(scheme)| :: IsLower(SchemeName(scheme)[i])
  {
    var file, cyfs, obj := Lit("file"), Lit("cyfs"), Lit("obj");
    assert file[0] == 0x66 && cyfs[0] == 0x63 && obj[0] == 0x6F;
    assert Lit("https")[0] == 0x68 && Lit("http")[0] == 0x68 && Lit("buckyos")[0] == 0x62;
  }

  lemma SchemeRead(scheme: Text, rest: Text)
    requires forall i | 0 <= i < |scheme| :: IsLower(scheme[i])
    ensures var t := scheme + SCHEME_MARK + rest;
            && SchemeEnd(t) == Some(|scheme|)
            && t[..|scheme|] == scheme && t[|scheme| + 3..] == rest
  {
    SchemeEndAt(scheme, rest);
  }

  lemma {:induction false} SchemeEndAt(scheme: Text, rest: Text)
    requires forall i | 0 <= i < |scheme| :: IsLower(scheme[i])
    ensures SchemeEnd(scheme + SCHEME_MARK + rest) == Some(|scheme|)
  {
    var t := scheme + SCHEME_MARK + rest;
    if scheme == [] {
      assert t[..3] == SCHEME_MARK;
    } else {
      assert t[0] == scheme[0] && t[..3][0] == t[0];
      assert t[1..] == scheme[1..] + SCHEME_MARK + rest;
      SchemeEndAt(scheme[1..], rest);
    }
  }

  /** Parsing a printed URL hands its authority, path and query back to the branch of its scheme. */
  lemma FormatSplits(p: Platform, u: ObjectUrl)
    requires LawfulPlatform(p) && Returnable(p, u) && !u.Web? && !u.BuckyOs?
    ensures p.lower(Authority(u)) == Authority(u)
    ensures var rest := Authority(u) + PathPart(u) + QueryPart(u);
            && Parse(p, Format(u)) == ParseScheme(p, SchemeOf(u), Format(u), rest)
            && SplitAuthority(rest)
                   == (Authority(u), PathPart(u), if QueryPart(u) == [] then None else Some(QueryText(u.query)))
  {
    hide Parse, ParseScheme, SplitAuthority, Returnable, IsServiceName, PathPart, Authority, QueryText;
    AuthorityUnits(p, u);
    HostPlain(Authority(u));
    PathPartUnits(p, u);
    QueryPartUnits(p, u);
    SplitPrinted(Authority(u), PathPart(u), QueryPart(u));
    FormatParses(p, SchemeOf(u), Authority(u) + PathPart(u) + QueryPart(u));
  }

  lemma FormatParses(p: Platform, scheme: Scheme, rest: Text)
    requires LawfulPlatform(p) && PlainText(rest) && scheme in {FileScheme, CyfsScheme, ObjScheme}
    ensures var t := SchemeName(scheme) + SCHEME_MARK + rest; Parse(p, t) == ParseScheme(p, scheme, t, rest)
  {
    hide ParseScheme;
    var name := SchemeName(scheme);
    SchemeNames(scheme);
    SchemeRead(name, rest);
    assert HostText(name);
    TrimPlain(name + SCHEME_MARK + rest);
  }

  // ---- the round trip

  /** No segment, key or value of the URL begins with U+FEFF (in a path: with `%EF%BB%BF`). */
  predicate UrlBomFree(u: ObjectUrl) {
    match u
    case File(_, path) => BomFree(path)
    case CyfsPath(_, path) => BomFree(path)
    case CyfsObject(_, _, inner) => BomFree(inner)
    case ObjUrl(_, path, query) => BomFree(path) && QueryBomFree(query)
    case Web(_) => true
    case BuckyOs(_) => true
  }

  lemma BomFreeEmpty()
    ensures BomFree([])
  {
    assert Split([], SLASH) == [[]];
  }

  lemma RoundTripFile(p: Platform, u: ObjectUrl)
    requires LawfulPlatform(p) && Returnable(p, u) && u.File?
    ensures Parse(p, Format(u)) == Ok(u) <==> UrlBomFree(u)
  {
    hide Parse, Format, Normalized, ParseFile, SplitAuthority, IsNormalPath, BomFree;
    FormatSplits(p, u);
    NormalPathPlain(u.path, false);
    FileHostParses(p, u.deviceId, u.path, Authority(u) + u.path + QueryPart(u));
    NormalizedFixpoint(u.path, false);
  }

  lemma FileHostParses(p: Platform, device: Option<Text>, path: Text, rest: Text)
    requires SplitAuthority(rest) == (OrEmpty(device), path, None)
    requires p.lower(OrEmpty(device)) == OrEmpty(device) && path != []
    requires device.Some? ==> IsHostname(device.value) && device.value != Lit("localhost")
    ensures ParseFile(p, rest) == if PathOf(path, false).Ok? then Ok(File(device, PathOf(path, false).value))
              else Err(PathOf(path, false).error)
  {
    hide SplitAuthority, Normalized;
  }

  lemma RoundTripCyfsPath(p: Platform, u: ObjectUrl)
    requires LawfulPlatform(p) && Returnable(p, u) && u.CyfsPath?
    ensures Parse(p, Format(u)) == Ok(u) <==> UrlBomFree(u)
  {
    hide Parse, Format, Normalized, ParseCyfs, SplitAuthority, IsNormalPath, BomFree, IsHostname, FirstLabel,
         IsObjIdLabel;
    FormatSplits(p, u);
    CyfsZoneParses(p, u.zone, u.path, Authority(u) + u.path + QueryPart(u));
    NormalPathPlain(u.path, false);
    NormalizedFixpoint(u.path, false);
  }

  lemma CyfsZoneParses(p: Platform, zone: Option<Text>, path: Text, rest: Text)
    requires SplitAuthority(rest) == (OrEmpty(zone), path, None) && p.lower(OrEmpty(zone)) == OrEmpty(zone)
    requires zone.Some? ==> IsHostname(zone.value) && DOT in zone.value && !IsObjIdLabel(p, FirstLabel(zone.value))
    ensures ParseCyfs(p, rest) == ParseCyfsPath(zone, path)
  {
    if zone.Some? {
      assert zone.value != UNDERSCORE;
    }
  }

  lemma CyfsObjectParses(p: Platform, objId: Text, zone: Option<Text>, path: Text, rest: Text)
    requires IsObjIdLabel(p, objId) && DOT !in objId && (zone.Some? ==> IsHostname(zone.value))
    requires var authority := objId + (if zone.Some? && zone.value != [] then [DOT] + zone.value else []);
             SplitAuthority(rest) == (authority, path, None) && p.lower(authority) == authority
    ensures ParseCyfs(p, rest) == ParseCyfsObject(objId, zone, path)
  {
    hide SplitAuthority, IndexOf;
    var authority := objId + (if zone.Some? && zone.value != [] then [DOT] + zone.value else []);
    assert |authority| >= 26;
    if zone.Some? {
      IndexOfAt(objId, DOT, zone.value);
      assert authority == objId + [DOT] + zone.value;
      assert authority[..|objId|] == objId && authority[|objId| + 1..] == zone.value;
    } else {
      assert authority == objId;
    }
    assert FirstLabel(authority) == objId && RestLabels(authority) == zone;
  }

  lemma RoundTripCyfsObject(p: Platform, u: ObjectUrl)
    requires LawfulPlatform(p) && Returnable(p, u) && u.CyfsObject?
    ensures Parse(p, Format(u)) == Ok(u) <==> UrlBomFree(u)
  {
    hide Parse, Format, Normalized, ParseCyfs, SplitAuthority, IsNormalPath, BomFree, IsHostname;
    FormatSplits(p, u);
    CyfsObjectParses(p, u.objId, u.sourceZone, PathPart(u), Authority(u) + PathPart(u) + QueryPart(u));
    if u.innerPath == [] {
      BomFreeEmpty();
    } else {
      NormalPathPlain(u.innerPath, false);
      NormalizedFixpoint(u.innerPath, false);
    }
  }

  lemma ObjPathReadsBack(path: Text)
    requires path == [] || IsNormalPath(path, true)
    ensures ObjPath(path) == Ok(path) <==> BomFree(path)
  {
    if path == [] {
      BomFreeEmpty();
    } else {
      NormalPathPlain(path, true);
      NormalizedFixpoint(path, true);
      RootNotTrimmed(path);
    }
  }

  lemma ObjQueryReadsBack(p: Platform, m: QueryMap)
    requires LawfulPlatform(p) && GoodQuery(p.number, m)
    ensures ObjQuery(p, UrlQueryOf(m)) == Ok(m) <==> QueryBomFree(m)
  {
    if m != map[] {
      QueryFixpoint(p.number, m);
    }
  }

  lemma ObjParses(p: Platform, host: ObjHost, path: Text, query: Option<Text>, m: QueryMap, rest: Text)
    requires SplitAuthority(rest) == (host.name, path, query) && p.lower(host.name) == host.name
    requires ParseObjHost(p, host.name) == Ok(host)
    ensures ParseObj(p, rest) == Ok(ObjUrl(host, path, m)) <==> ObjPath(path) == Ok(path) && ObjQuery(p, query) == Ok(m)
  {}

  function UrlQueryOf(m: QueryMap): Option<Text> { if m == map[] then None else Some(QueryText(m)) }

  lemma QueryOfPart(p: Platform, u: ObjectUrl)
    requires Returnable(p, u) && u.ObjUrl?
    ensures (if QueryPart(u) == [] then None else Some(QueryText(u.query))) == UrlQueryOf(u.query)
  {
    QueryPartUnits(p, u);
  }

  lemma FormatSplitsObj(p: Platform, u: ObjectUrl) returns (rest: Text)
    requires LawfulPlatform(p) && Returnable(p, u) && u.ObjUrl?
    ensures Parse(p, Format(u)) == ParseObj(p, rest)
    ensures SplitAuthority(rest) == (u.host.name, u.path, UrlQueryOf(u.query)) && p.lower(u.host.name) == u.host.name
  {
    hide Parse, SplitAuthority, Format, QueryText, QueryPart, LawfulPlatform, Returnable, ParseObj;
    rest := Authority(u) + PathPart(u) + QueryPart(u);
    assert Authority(u) == u.host.name && PathPart(u) == u.path && SchemeOf(u) == ObjScheme;
    FormatSplits(p, u);
    QueryOfPart(p, u);
  }

  lemma RoundTripObj(p: Platform, u: ObjectUrl)
    requires LawfulPlatform(p) && Returnable(p, u) && u.ObjUrl?
    ensures Parse(p, Format(u)) == Ok(u) <==> UrlBomFree(u)
  {
    var rest := FormatSplitsObj(p, u);
    HostReadsBack(p, u.host);
    ObjPathReadsBack(u.path);
    ObjQueryReadsBack(p, u.query);
    ObjParses(p, u.host, u.path, UrlQueryOf(u.query), u.query, rest);
  }

  lemma RootNotTrimmed(path: Text)
    requires IsNormalPath(path, true)
    ensures path != [SLASH]
  {
    var ds, slash :| IsPath(path, true, ds, slash);
    EncodedEmpty(Segment, ds[0]);
  }

  lemma HostReadsBack(p: Platform, host: ObjHost)
    requires LawfulPlatform(p) && GoodHost(p, host)
    ensures ParseObjHost(p, host.name) == Ok(host)
  {
    if host.Service? { ServiceNameUnits(host.name); }
  }

  /**
   * For every URL value the parser can return, other than a web URL: printing and parsing it gives it back
   * exactly when no component begins with U+FEFF.
   */
  lemma RoundTrip(p: Platform, input: Text)
    requires LawfulPlatform(p) && Parse(p, input).Ok? && !Parse(p, input).value.Web?
    ensures var u := Parse(p, input).value; Parse(p, Format(u)) == Ok(u) <==> UrlBomFree(u)
  {
    ParseReturnable(p, input);
    var u := Parse(p, input).value;
    match u {
      case File(_, _) => RoundTripFile(p, u);
      case CyfsPath(_, _) => RoundTripCyfsPath(p, u);
      case CyfsObject(_, _, _) => RoundTripCyfsObject(p, u);
      case ObjUrl(_, _, _) => RoundTripObj(p, u);
      case BuckyOs(_) =>
    }
  }

  // ---- one printed text, one URL value

  /** A printed URL that is not a buckyos one shows its scheme, and the rest after it. */
  lemma FormatShows(p: Platform, u: ObjectUrl)
    requires !u.Web? && !u.BuckyOs?
    ensures var name, t := SchemeName(SchemeOf(u)), Format(u);
            && SchemeEnd(t) == Some(|name|)
            && t[..|name|] == name && t[|name| + 3..] == Authority(u) + PathPart(u) + QueryPart(u)
            && SchemeOfText(name) == SchemeOf(u)
  {
    SchemeNames(SchemeOf(u));
    SchemeRead(SchemeName(SchemeOf(u)), Authority(u) + PathPart(u) + QueryPart(u));
  }

  /** Two values with one text agree in scheme, authority, path and query. */
  lemma SamePrinted(p: Platform, u: ObjectUrl, v: ObjectUrl)
    requires LawfulPlatform(p) && Returnable(p, u) && Returnable(p, v)
    requires !u.Web? && !u.BuckyOs? && !v.Web? && !v.BuckyOs? && Format(u) == Format(v)
    ensures SchemeOf(u) == SchemeOf(v) && Authority(u) == Authority(v) && PathPart(u) == PathPart(v)
    ensures QueryPart(u) == [] <==> QueryPart(v) == []
    ensures QueryPart(u) != [] ==> QueryText(u.query) == QueryText(v.query)
  {
    hide Format, Parse, SplitAuthority, Returnable, LawfulPlatform, SchemeOfText, SchemeEnd, Authority, PathPart,
         QueryText;
    FormatShows(p, u);
    FormatShows(p, v);
    FormatSplits(p, u);
    FormatSplits(p, v);
  }

  lemma SameFile(p: Platform, u: ObjectUrl, v: ObjectUrl)
    requires Returnable(p, u) && Returnable(p, v) && u.File? && SchemeOf(v) == FileScheme
    requires !v.Web? && !v.BuckyOs? && Authority(u) == Authority(v) && PathPart(u) == PathPart(v)
    ensures u == v
  {
    hide IsNormalPath;
  }

  lemma ObjectAuthority(p: Platform, u: ObjectUrl)
    requires LawfulPlatform(p) && Returnable(p, u) && u.CyfsObject?
    ensures Authority(u) != [] && FirstLabel(Authority(u)) == u.objId && RestLabels(Authority(u)) == u.sourceZone
  {
    hide IndexOf, IsNormalPath;
    var authority := Authority(u);
    if u.sourceZone.Some? {
      IndexOfAt(u.objId, DOT, u.sourceZone.value);
      assert authority == u.objId + [DOT] + u.sourceZone.value;
      assert authority[..|u.objId|] == u.objId && authority[|u.objId| + 1..] == u.sourceZone.value;
    } else {
      assert authority == u.objId;
      IndexOfNone(u.objId);
    }
  }

  lemma IndexOfNone(t: Text)
    requires DOT !in t
    ensures IndexOf(t, DOT).None?
  {}

  /** An object's authority begins with its id, and no zone host does. */
  lemma SameCyfs(p: Platform, u: ObjectUrl, v: ObjectUrl)
    requires LawfulPlatform(p) && Returnable(p, u) && Returnable(p, v)
    requires (u.CyfsPath? || u.CyfsObject?) && (v.CyfsPath? || v.CyfsObject?)
    requires Authority(u) == Authority(v) && PathPart(u) == PathPart(v)
    ensures u == v
  {
    hide IsNormalPath, FirstLabel, RestLabels, LawfulPlatform;
    if u.CyfsObject? { ObjectAuthority(p, u); }
    if v.CyfsObject? { ObjectAuthority(p, v); }
  }

  lemma SameObj(p: Platform, u: ObjectUrl, v: ObjectUrl)
    requires LawfulPlatform(p) && Returnable(p, u) && Returnable(p, v) && u.ObjUrl? && v.ObjUrl?
    requires Authority(u) == Authority(v) && PathPart(u) == PathPart(v)
    requires QueryPart(u) == [] <==> QueryPart(v) == []
    requires QueryPart(u) != [] ==> QueryText(u.query) == QueryText(v.query)
    ensures u == v
  {
    QueryPartUnits(p, u);
    QueryPartUnits(p, v);
    HostReadsBack(p, u.host);
    HostReadsBack(p, v.host);
    hide GoodQuery, GoodHost, IsNormalPath, QueryText, QueryPart, ParseObjHost;
    if u.query != map[] {
      QueryTextInjective(p.number, u.query, v.query);
    }
  }

  /** Reading a printed URL never gives a web URL, and a buckyos one only for a buckyos one. */
  lemma PrintedKind(p: Platform, u: ObjectUrl)
    requires LawfulPlatform(p) && Returnable(p, u) && !u.Web?
    ensures u.BuckyOs? ==> Parse(p, Format(u)) == Ok(u)
    ensures Parse(p, Format(u)).Ok? ==> !Parse(p, Format(u)).value.Web?
    ensures Parse(p, Format(u)).Ok? && Parse(p, Format(u)).value.BuckyOs? ==> u.BuckyOs?
  {
    if !u.BuckyOs? {
      hide Parse, Format, SplitAuthority, Returnable, LawfulPlatform, Authority, PathPart, QueryPart, QueryText,
           ParseScheme;
      FormatSplits(p, u);
      KindOfScheme(p, SchemeOf(u), Format(u), Authority(u) + PathPart(u) + QueryPart(u));
    } else {
      BuckyOsPrinted(p, u.url);
    }
  }

  lemma KindOfScheme(p: Platform, scheme: Scheme, input: Text, rest: Text)
    requires scheme in {FileScheme, CyfsScheme, ObjScheme}
    ensures var r := ParseScheme(p, scheme, input, rest); r.Ok? ==> !r.value.Web? && !r.value.BuckyOs?
  {
    hide SplitAuthority, PathOf, ObjPath, ObjQuery, ParseObjHost, IsHostname, IsObjIdLabel;
  }

  lemma BuckyOsPrinted(p: Platform, url: Text)
    requires Returnable(p, BuckyOs(url))
    ensures Parse(p, url) == Ok(BuckyOs(url))
  {
    hide Trim, SchemeEnd, SchemeOfText;
  }

  /** Different values the parser can return are printed differently. */
  lemma FormatInjective(p: Platform, u: ObjectUrl, v: ObjectUrl)
    requires LawfulPlatform(p) && Returnable(p, u) && Returnable(p, v) && !u.Web? && !v.Web?
    requires Format(u) == Format(v)
    ensures u == v
  {
    PrintedKind(p, u);
    PrintedKind(p, v);
    hide Parse, Format, Returnable, LawfulPlatform, QueryText;
    if !u.BuckyOs? && !v.BuckyOs? {
      SamePrinted(p, u, v);
      match SchemeOf(u) {
        case FileScheme => SameFile(p, u, v);
        case ObjScheme => SameObj(p, u, v);
        case _ => SameCyfs(p, u, v);
      }
    }
  }

  /** Two inputs have one normal text exactly when they are one URL value. */
  lemma NormalForm(p: Platform, a: Text, b: Text)
    requires LawfulPlatform(p) && Parse(p, a).Ok? && Parse(p, b).Ok?
    requires !Parse(p, a).value.Web? && !Parse(p, b).value.Web?
    ensures Format(Parse(p, a).value) == Format(Parse(p, b).value) <==> Parse(p, a) == Parse(p, b)
  {
    ParseReturnable(p, a);
    ParseReturnable(p, b);
    if Format(Parse(p, a).value) == Format(Parse(p, b).value) {
      FormatInjective(p, Parse(p, a).value, Parse(p, b).value);
    }
  }

  /** `normalizeObjectUrl` leaves a text it returned as it is exactly when no component begins with U+FEFF. */
  lemma NormalizeIdempotentIff(p: Platform, input: Text)
    requires LawfulPlatform(p) && Parse(p, input).Ok? && !Parse(p, input).value.Web?
    ensures var u := Parse(p, input).value;
            Parse(p, Format(u)).Ok? && Format(Parse(p, Format(u)).value) == Format(u) <==> UrlBomFree(u)
  {
    var u := Parse(p, input).value;
    var again := Parse(p, Format(u));
    RoundTrip(p, input);
    ParseReturnable(p, input);
    PrintedKind(p, u);
    if again.Ok? && Format(again.value) == Format(u) {
      ParseReturnable(p, Format(u));
      FormatInjective(p, again.value, u);
    }
  }

  // ---- the condition is needed

  /** file:///%EF%BB%BF%EF%BB%BFa */
  const TWO_BOMS: Text := Lit("file://") + [SLASH] + BOM_ESCAPE + BOM_ESCAPE + [0x61]
  /** file:///%EF%BB%BFa */
  const ONE_BOM: Text := Lit("file://") + [SLASH] + BOM_ESCAPE + [0x61]

  lemma BomText(t: Text)
    requires WellFormed(t)
    ensures WellFormed([BOM] + t)
    ensures Encoded(Segment, [BOM] + t) == BOM_ESCAPE + Encoded(Segment, t)
  {
    BomBytesFirst(t);
    hide TextEncode, EncodeBytes, WellFormed;
    var b := TextEncode([BOM] + t);
    EncodeThree(b);
    assert b[3..] == TextEncode(t);
    assert EncodeByte(Segment, 0xEF) == [0x25, 0x45, 0x46];
    assert EncodeByte(Segment, 0xBB) == [0x25, 0x42, 0x42];
    assert EncodeByte(Segment, 0xBF) == [0x25, 0x42, 0x46];
  }

  lemma BomBytesFirst(t: Text)
    requires WellFormed(t)
    ensures WellFormed([BOM] + t) && TextEncode([BOM] + t) == BOM_BYTES + TextEncode(t)
  {
    var u := [BOM] + t;
    assert u[1..] == t;
    assert CodePoints(u) == [0xFEFF] + CodePoints(t);
    assert CodePoints(u)[1..] == CodePoints(t);
    assert EncodePoint(0xFEFF) == BOM_BYTES;
  }

  lemma OneLetter()
    ensures WellFormed([0x61]) && Encoded(Segment, [0x61]) == [0x61]
  {
    var t: Text := [0x61];
    AsciiCodePoints(t);
    AsciiEncode(t);
    assert t[1..] == [];
    assert EncodeBytes(Segment, t) == EncodeByte(Segment, 0x61) + EncodeBytes(Segment, t[1..]);
  }

  function FileUrl(d: Text): ObjectUrl { File(None, PathText([d], false)) }

  lemma FormatSplitsFile(p: Platform, u: ObjectUrl) returns (rest: Text)
    requires LawfulPlatform(p) && Returnable(p, u) && u.File? && u.deviceId.None?
    ensures Parse(p, Format(u)) == ParseFile(p, rest)
    ensures SplitAuthority(rest) == ([], u.path, None) && p.lower([]) == []
  {
    hide Parse, Format, SplitAuthority, ParseFile;
    FormatSplits(p, u);
    rest := Authority(u) + PathPart(u) + QueryPart(u);
  }

  lemma FileDrops(p: Platform, d: Text, e: Text)
    requires LawfulPlatform(p) && WellFormed(d) && GoodSegment(d) && GoodSegment(e) && d == [BOM] + e
    ensures Parse(p, Format(FileUrl(d))) == Ok(FileUrl(e)) && !UrlBomFree(FileUrl(d))
  {
    hide Parse, Format, WellFormed, SplitAuthority, ParseFile, PathText, PathOf, BomFree;
    var u := FileUrl(d);
    assert IsPath(u.path, false, [d], false);
    var rest := FormatSplitsFile(p, u);
    SegmentDrops(d, e);
    FileParses(p, u.path, rest);
    BomFreeOf([d], false);
  }

  lemma FileParses(p: Platform, path: Text, rest: Text)
    requires SplitAuthority(rest) == ([], path, None) && p.lower([]) == [] && path != [] && PathOf(path, false).Ok?
    ensures ParseFile(p, rest) == Ok(File(None, PathOf(path, false).value))
  {}

  lemma SegmentDrops(d: Text, e: Text)
    requires WellFormed(d) && GoodSegment(d) && GoodSegment(e) && d == [BOM] + e
    ensures PathText([d], false) != [] && PathOf(PathText([d], false), false) == Ok(PathText([e], false))
  {
    hide WellFormed, Encoded;
    RawSegmentsOf([d], false, false);
    NormSegmentsOf([d], false, false);
    assert d[1..] == e;
    assert DropBoms([d]) == [e];
    assert forall i | 0 <= i < |[d]| :: GoodSegment(DropBom([d][i]));
  }

  /** So `normalizeObjectUrl` is not idempotent: here each pass drops one encoded U+FEFF from a segment. */
  lemma NormalizeDropsBoms(p: Platform)
    requires LawfulPlatform(p)
    ensures Parse(p, TWO_BOMS).Ok? && Format(Parse(p, TWO_BOMS).value) == ONE_BOM
    ensures !(Parse(p, ONE_BOM).Ok? && Format(Parse(p, ONE_BOM).value) == ONE_BOM)
  {
    hide Parse, Format, WellFormed, Encoded, PathText;
    var a: Text := [0x61];
    var d1, d2 := [BOM] + a, [BOM] + ([BOM] + a);
    assert d1[0] == BOM && d2[0] == BOM;
    OneLetter();
    BomText(a);
    BomText(d1);
    FileOf(d1, ONE_BOM);
    FileOf(d2, TWO_BOMS);
    FileDrops(p, d2, d1);
    FileDrops(p, d1, a);
    assert Parse(p, TWO_BOMS) == Ok(FileUrl(d1));
    assert !UrlBomFree(FileUrl(d1));
    NormalizeIdempotentIff(p, TWO_BOMS);
  }

  lemma OneSegmentPath(d: Text)
    requires WellFormed(d) && GoodSegment(d)
    ensures IsNormalPath(PathText([d], false), false)
    ensures PathText([d], false) == [SLASH] + Encoded(Segment, d)
  {
    hide WellFormed, GoodSegment, Encoded;
    assert IsPath(PathText([d], false), false, [d], false);
    assert [d][1..] == [] && PathText([], false) == [];
  }

  lemma FileOf(d: Text, text: Text)
    requires WellFormed(d) && GoodSegment(d) && text == Lit("file://") + [SLASH] + Encoded(Segment, d)
    ensures IsNormalPath(PathText([d], false), false)
    ensures Format(FileUrl(d)) == text
  {
    hide WellFormed, GoodSegment, Encoded, IsNormalPath, PathText;
    OneSegmentPath(d);
    assert Lit("file://") == Lit("file") + SCHEME_MARK;
  }
}
