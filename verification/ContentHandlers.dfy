/** Which handlers open a content, and in what order: `matchSelector` and `resolveContentHandlers` (src/content.ts). */
module ContentHandlers {
  import opened Wrappers
  import opened JsText
  import opened Sorting

  /** The platform's lower-casing and its collation of keys. */
  datatype Locale = Locale(lower: Text -> Text, collate: (Text, Text) -> bool)

  /** The collation is a strict total order of keys; the wildcard type is lower case already. */
  ghost predicate Lawful(l: Locale) {
    && l.lower(ANY_MIME) == ANY_MIME
    && (forall a, b :: l.collate(a, b) ==> !l.collate(b, a))
    && (forall a, b, c :: l.collate(a, b) && l.collate(b, c) ==> l.collate(a, c))
    && (forall a, b :: a != b ==> l.collate(a, b) || l.collate(b, a))
  }

  const ANY_MIME: Text := [0x2A, 0x2F, 0x2A] // */*
  const SLASH_STAR: Text := [0x2F, 0x2A] // /*
  const SLASH_STAR_PLUS: Text := [0x2F, 0x2A, 0x2B] // /*+
  const STAR: Text := [0x2A]
  const SLASH_UNIT: Unit := 0x2F
  const PLUS_UNIT: Unit := 0x2B
  const SEMICOLON: Unit := 0x3B
  const COLON: Unit := 0x3A

  // ---- selectors

  /** A field the code finds false, absent or the empty string, is None; a single string is a list of one. */
  datatype Selector = Selector(objType: Option<seq<Text>>, mime: Option<seq<Text>>, schema: Option<seq<Text>>,
      ext: Option<seq<Text>>, maxSize: Option<int>)

  datatype Descriptor = Descriptor(objType: Option<Text>, mime: Option<Text>, schema: Option<Text>, ext: Option<Text>,
      size: Option<int>)

  function OrEmpty(t: Option<Text>): Text { if t.Some? then t.value else [] }

  function FirstPart(t: Text, sep: Unit): Text { Split(t, sep)[0] }

  predicate Includes(t: Text, part: Text) { exists i | 0 <= i <= |t| :: part <= t[i..] }

  /** `v.slice(v.indexOf('+'))` of a text that has one. */
  function FromPlus(v: Text): Text {
    match IndexOf(v, PLUS_UNIT)
    case None => if v == [] then [] else v[|v| - 1..]
    case Some(i) => v[i..]
  }

  predicate ExactMime(v: Text, mime: Text) { Trim(FirstPart(v, SEMICOLON)) == mime }

  predicate SuffixMime(v: Text, mime: Text) {
    Includes(v, SLASH_STAR_PLUS) && StartsWith(mime, FirstPart(v, SLASH_UNIT) + [SLASH_UNIT])
        && EndsWith(mime, FromPlus(v))
  }

  predicate FamilyMime(v: Text, mime: Text) { EndsWith(v, SLASH_STAR) && StartsWith(mime, v[..|v| - 1]) }

  /** The score of one media type pattern, in lower case, against the content's. */
  function MimeScore(v: Text, mime: Text, typed: bool): nat {
    if v == ANY_MIME then 1
    else if ExactMime(v, mime) then (if typed then 6 else 5)
    else if SuffixMime(v, mime) then 4
    else if FamilyMime(v, mime) then 3
    else 0
  }

  function BestMime(l: Locale, patterns: seq<Text>, mime: Text, typed: bool): nat {
    if patterns == [] then 0
    else
      var first, rest := MimeScore(l.lower(patterns[0]), mime, typed), BestMime(l, patterns[1..], mime, typed);
      if first > rest then first else rest
  }

  predicate SchemaMatches(pattern: Text, schema: Option<Text>) {
    schema.Some? && if EndsWith(pattern, STAR) then StartsWith(schema.value, pattern[..|pattern| - 1])
        else schema.value == pattern
  }

  /** The content's media type in lower case, without its parameters. */
  function PlainMime(l: Locale, d: Descriptor): Text { Trim(FirstPart(l.lower(OrEmpty(d.mime)), SEMICOLON)) }

  function MatchSelector(l: Locale, s: Selector, d: Descriptor): nat {
    if s.maxSize.Some? && d.size.Some? && d.size.value > s.maxSize.value then 0
    else if s.objType.Some? && OrEmpty(d.objType) !in s.objType.value then 0
    else if s.schema.Some?
        && !(exists i | 0 <= i < |s.schema.value| :: SchemaMatches(s.schema.value[i], d.schema)) then 0
    else
      var plain := if s.objType.Some? then 2 else 1;
      var score := if s.schema.None? then plain
                   else if d.schema.Some? && d.schema.value in s.schema.value
                       && SchemaMatches(d.schema.value, d.schema) then 7 else 6;
      var best := if s.mime.Some? then BestMime(l, s.mime.value, PlainMime(l, d), s.objType.Some?) else 0;
      if s.mime.Some? && best == 0 then 0
      else if s.mime.None? && s.objType.None? && s.schema.None? && !(s.ext.Some? && OrEmpty(d.ext) in s.ext.value)
          then 0
      else if best > score then best else score
  }

  lemma {:induction false} BestMimeIsBest(l: Locale, patterns: seq<Text>, mime: Text, typed: bool)
    ensures BestMime(l, patterns, mime, typed) <= 6
    ensures forall i | 0 <= i < |patterns| ::
              MimeScore(l.lower(patterns[i]), mime, typed) <= BestMime(l, patterns, mime, typed)
    ensures BestMime(l, patterns, mime, typed) > 0 ==>
              exists i ::
                && 0 <= i < |patterns|
                && MimeScore(l.lower(patterns[i]), mime, typed) == BestMime(l, patterns, mime, typed)
  {
    hide MimeScore;
    if patterns != [] {
      BestMimeIsBest(l, patterns[1..], mime, typed);
      MimeScoreBound(l.lower(patterns[0]), mime, typed);
      assert forall i | 0 <= i < |patterns| :: i == 0 || patterns[i] == patterns[1..][i - 1];
      if i :|
        && 0 <= i < |patterns[1..]|
        && MimeScore(l.lower(patterns[1..][i]), mime, typed) == BestMime(l, patterns[1..], mime, typed)
      {
        assert patterns[i + 1] == patterns[1..][i];
      }
    }
  }

  lemma MimeScoreBound(v: Text, mime: Text, typed: bool)
    ensures MimeScore(v, mime, typed) <= 6
  {}

  /** The pattern describes the media type: as anything, as itself, by its suffix or by its family. */
  predicate PatternFits(v: Text, mime: Text) {
    v == ANY_MIME || ExactMime(v, mime) || SuffixMime(v, mime) || FamilyMime(v, mime)
  }

  /**
   * When a selector matches at all: the content is not known to be too large, every type, schema or media type
   * condition stated holds, and one is stated; without one of these three the extension decides, and beside one of
   * them it is not looked at.
   */
  ghost predicate Selects(l: Locale, s: Selector, d: Descriptor) {
    && !(s.maxSize.Some? && d.size.Some? && d.size.value > s.maxSize.value)
    && (s.objType.Some? ==> OrEmpty(d.objType) in s.objType.value)
    && (s.schema.Some? ==> exists i :: 0 <= i < |s.schema.value| && SchemaMatches(s.schema.value[i], d.schema))
    && (s.mime.Some? ==> exists i :: 0 <= i < |s.mime.value| && PatternFits(l.lower(s.mime.value[i]), PlainMime(l, d)))
    && (s.objType.Some? || s.schema.Some? || s.mime.Some? || (s.ext.Some? && OrEmpty(d.ext) in s.ext.value))
  }

  lemma PatternsFitIff(l: Locale, patterns: seq<Text>, mime: Text, typed: bool)
    ensures BestMime(l, patterns, mime, typed) > 0
       <==> exists i :: 0 <= i < |patterns| && PatternFits(l.lower(patterns[i]), mime)
  {
    hide ExactMime, SuffixMime, FamilyMime;
    BestMimeIsBest(l, patterns, mime, typed);
    forall i | 0 <= i < |patterns|
      ensures MimeScore(l.lower(patterns[i]), mime, typed) > 0 <==> PatternFits(l.lower(patterns[i]), mime)
    {}
  }

  /**
   * A selector scores at all exactly when it selects the content, and 7 exactly when it also names the schema itself.
   */
  lemma MatchesIff(l: Locale, s: Selector, d: Descriptor)
    ensures MatchSelector(l, s, d) > 0 <==> Selects(l, s, d)
    ensures MatchSelector(l, s, d) <= 7
    ensures MatchSelector(l, s, d) == 7
       <==> Selects(l, s, d) && s.schema.Some? && d.schema.Some? && d.schema.value in s.schema.value
  {
    hide BestMime, PatternFits, PlainMime;
    if d.schema.Some? {
      SchemaIsItself(d.schema.value);
    }
    hide SchemaMatches;
    if s.mime.Some? {
      BestMimeIsBest(l, s.mime.value, PlainMime(l, d), s.objType.Some?);
      PatternsFitIff(l, s.mime.value, PlainMime(l, d), s.objType.Some?);
    }
  }

  lemma SchemaIsItself(t: Text)
    ensures SchemaMatches(t, Some(t))
  {}

  /** Beside an object type, a schema or a media type the extension is not looked at, match or not. */
  lemma ExtensionIgnored(l: Locale, s: Selector, d: Descriptor, ext: Option<seq<Text>>)
    requires s.objType.Some? || s.schema.Some? || s.mime.Some?
    ensures MatchSelector(l, s.(ext := ext), d) == MatchSelector(l, s, d)
  {
    hide BestMime, SchemaMatches;
  }

  /** Some media type pattern other than the wildcard describes the content's type in this way. */
  ghost predicate SomePattern(l: Locale, s: Selector, d: Descriptor, way: (Text, Text) -> bool) {
    && s.mime.Some?
    && exists i ::
         && 0 <= i < |s.mime.value| && l.lower(s.mime.value[i]) != ANY_MIME
         && way(l.lower(s.mime.value[i]), PlainMime(l, d))
  }

  function ExactOrSuffix(v: Text, mime: Text): bool { ExactMime(v, mime) || SuffixMime(v, mime) }

  /**
   * What each level of a selecting score takes: a stated schema beats every media type, an exact type a suffix, a
   * suffix a family.
   */
  lemma ScoreLevels(l: Locale, s: Selector, d: Descriptor)
    requires Selects(l, s, d)
    ensures MatchSelector(l, s, d) >= 6 <==> s.schema.Some? || (s.objType.Some? && SomePattern(l, s, d, ExactMime))
    ensures MatchSelector(l, s, d) >= 5 <==> s.schema.Some? || SomePattern(l, s, d, ExactMime)
    ensures MatchSelector(l, s, d) >= 4 <==> s.schema.Some? || SomePattern(l, s, d, ExactOrSuffix)
    ensures MatchSelector(l, s, d) >= 3 <==> s.schema.Some? || SomePattern(l, s, d, PatternFits)
    ensures MatchSelector(l, s, d) >= 2 <==> s.schema.Some? || s.objType.Some? || SomePattern(l, s, d, PatternFits)
  {
    hide ExactMime, SuffixMime, FamilyMime, SchemaMatches, PlainMime, BestMime;
    var mime, typed := PlainMime(l, d), s.objType.Some?;
    if s.mime.Some? {
      BestMimeIsBest(l, s.mime.value, mime, typed);
      PatternsFitIff(l, s.mime.value, mime, typed);
      forall i | 0 <= i < |s.mime.value|
        ensures MimeScore(l.lower(s.mime.value[i]), mime, typed) <= BestMime(l, s.mime.value, mime, typed)
        ensures MimeLevels(l.lower(s.mime.value[i]), mime, typed)
      {}
    }
  }

  /** What a pattern's score says of it. */
  predicate MimeLevels(v: Text, mime: Text, typed: bool) {
    var score := MimeScore(v, mime, typed);
    && (score >= 6 <==> v != ANY_MIME && typed && ExactMime(v, mime))
    && (score >= 5 <==> v != ANY_MIME && ExactMime(v, mime))
    && (score >= 4 <==> v != ANY_MIME && ExactOrSuffix(v, mime))
    && (score >= 2 <==> v != ANY_MIME && PatternFits(v, mime))
    && (score >= 3 <==> v != ANY_MIME && PatternFits(v, mime))
  }

  /** The selector a user default is written as: `obj:…;mime:…;schema:…;ext:…`; anything else makes it match nothing. */
  function CompactSelector(text: Text): Selector { CompactParts(Split(text, SEMICOLON), EMPTY_SELECTOR) }

  const EMPTY_SELECTOR := Selector(None, None, None, None, None)
  const OBJ_KEY: Text := Lit("obj")
  const MIME_KEY: Text := Lit("mime")
  const SCHEMA_KEY: Text := Lit("schema")
  const EXT_KEY: Text := Lit("ext")

  function Single(v: Text): Option<seq<Text>> { if v == [] then None else Some([v]) }

  function CompactParts(parts: seq<Text>, out: Selector): Selector {
    if parts == [] then out
    else
      var part := parts[0];
      var colon := IndexOf(part, COLON);
      // Without a colon, slice(0, -1) is all but the last character and slice(0) is all of it.
      var key := if colon.Some? then part[..colon.value] else if part == [] then [] else part[..|part| - 1];
      var v := if colon.Some? then part[colon.value + 1..] else part;
      if key == OBJ_KEY then CompactParts(parts[1..], out.(objType := Single(v)))
      else if key == MIME_KEY then CompactParts(parts[1..], out.(mime := Single(v)))
      else if key == SCHEMA_KEY then CompactParts(parts[1..], out.(schema := Single(v)))
      else if key == EXT_KEY then CompactParts(parts[1..], out.(ext := Some([v])))
      else EMPTY_SELECTOR
  }

  // ---- handlers

  datatype Binding = Binding(web: bool, priority: int)

  datatype Handler = Handler(system: bool, appInstance: Option<Text>, selectors: seq<Selector>, open: Option<Binding>,
      enabled: bool, registeredAt: int)

  /** One property of the registry's object: a key and its handler. */
  datatype Entry = Entry(key: Text, handler: Handler)

  /** One property of the user's defaults: a selector and the key of the handler to use. */
  datatype Default = Default(selector: Text, key: Text)

  const PREVIEW_KEY: Text := Lit("system#preview")

  const PREVIEW_HANDLER :=
      Handler(true, None, [Selector(None, Some([ANY_MIME]), None, None, None)], Some(Binding(false, 90)), true, 0)

  datatype Scored = Scored(selector: Selector, specificity: nat)

  datatype Match = Match(key: Text, system: bool, priority: int, registeredAt: int, matched: Scored)

  datatype Reason = UserDefault | SystemDefault | Ranked

  datatype Plan = Plan(key: Text, system: bool, matched: Scored, reason: Reason)

  /** What else decides: the content, the user's disabled handlers, the apps at hand. */
  datatype Context = Context(locale: Locale, descriptor: Descriptor, disabled: set<Text>, visible: set<Text>)

  function ScoreOf(c: Context): Selector -> Option<Scored> {
    (s: Selector) => var n := MatchSelector(c.locale, s, c.descriptor); if n > 0 then Some(Scored(s, n)) else None
  }

  const HIGHER_SCORE: (Scored, Scored) -> bool := (a: Scored, b: Scored) => a.specificity > b.specificity

  function Matching(c: Context, h: Handler): seq<Scored> { Sort(HIGHER_SCORE, Select(ScoreOf(c), h.selectors)) }

  /** Whether the handler may open the content, apart from its selectors. */
  predicate Admitted(c: Context, e: Entry) {
    && e.handler.open.Some? && e.handler.enabled && (e.key == PREVIEW_KEY || e.key !in c.disabled)
    && (e.handler.system
           || (OrEmpty(e.handler.appInstance) != [] && e.handler.appInstance.value in c.visible
               && e.handler.open.value.web))
  }

  predicate Eligible(c: Context, e: Entry) {
    Admitted(c, e) && exists i | 0 <= i < |e.handler.selectors| ::
                        MatchSelector(c.locale, e.handler.selectors[i], c.descriptor) > 0
  }

  /** The body of the `flatMap` over the handlers. */
  function MatchOf(c: Context): Entry -> Option<Match> {
    (e: Entry) =>
      if !Admitted(c, e) then None
      else
        var selectors := Matching(c, e.handler);
        if selectors == [] then None
        else Some(Match(e.key, e.handler.system, e.handler.open.value.priority, e.handler.registeredAt, selectors[0]))
  }

  /**
   * `{ ...registry.handlers, 'system#preview': previewHandler }`: the preview replaces an entry of its name where it
   * stands.
   */
  function WithPreview(registry: seq<Entry>): seq<Entry> {
    if registry == [] then [Entry(PREVIEW_KEY, PREVIEW_HANDLER)]
    else if registry[0].key == PREVIEW_KEY then [Entry(PREVIEW_KEY, PREVIEW_HANDLER)] + registry[1..]
    else [registry[0]] + WithPreview(registry[1..])
  }

  function Matches(c: Context, registry: seq<Entry>): seq<Match> { Select(MatchOf(c), WithPreview(registry)) }

  // ---- the user's default

  datatype Preferred = Preferred(key: Text, score: nat)

  function PreferredOf(c: Context): Default -> Option<Preferred> {
    (d: Default) =>
      var n := MatchSelector(c.locale, CompactSelector(d.selector), c.descriptor);
      if n > 0 then Some(Preferred(d.key, n)) else None
  }

  function Better(l: Locale): (Preferred, Preferred) -> bool {
    (a: Preferred, b: Preferred) => a.score > b.score || (a.score == b.score && l.collate(a.key, b.key))
  }

  predicate HasKey(matches: seq<Match>, key: Text) { exists i | 0 <= i < |matches| :: matches[i].key == key }

  /** `preferred.find(…)?.key` */
  function FindPreferred(preferred: seq<Preferred>, matches: seq<Match>): Option<Text> {
    if preferred == [] then None
    else if HasKey(matches, preferred[0].key) then Some(preferred[0].key)
    else FindPreferred(preferred[1..], matches)
  }

  function PreferredKey(c: Context, registry: seq<Entry>, defaults: seq<Default>): Option<Text> {
    FindPreferred(Sort(Better(c.locale), Select(PreferredOf(c), defaults)), Matches(c, registry))
  }

  // ---- the order

  predicate Tier(m: Match) { m.matched.specificity > 1 || m.system }

  /** The comparator of the last sort is negative. */
  function Before(l: Locale, preferred: Option<Text>): (Match, Match) -> bool {
    (a: Match, b: Match) => Earlier(l, preferred, a, b)
  }

  function Flag(b: bool): int { if b then 1 else 0 }

  predicate Earlier(l: Locale, preferred: Option<Text>, a: Match, b: Match) {
    var pa, pb := Flag(preferred == Some(a.key)), Flag(preferred == Some(b.key));
    var ta, tb := Flag(Tier(a)), Flag(Tier(b));
    var sa, sb := Flag(a.system), Flag(b.system);
    if pa != pb then pa > pb
    else if ta != tb then ta > tb
    else if a.matched.specificity != b.matched.specificity then a.matched.specificity > b.matched.specificity
    else if a.priority != b.priority then a.priority > b.priority
    else if sa != sb then sa > sb
    else if a.registeredAt != b.registeredAt then a.registeredAt < b.registeredAt
    else l.collate(a.key, b.key)
  }

  function PlanOf(preferred: Option<Text>, m: Match): Plan {
    Plan(m.key, m.system, m.matched,
         if preferred == Some(m.key) then UserDefault else if m.system then SystemDefault else Ranked)
  }

  function Ordered(c: Context, registry: seq<Entry>, defaults: seq<Default>): seq<Match> {
    Sort(Before(c.locale, PreferredKey(c, registry, defaults)), Matches(c, registry))
  }

  function ResolveContentHandlers(c: Context, registry: seq<Entry>, defaults: seq<Default>): (r: seq<Plan>)
    ensures |r| == |Ordered(c, registry, defaults)|
  {
    var preferred, matches := PreferredKey(c, registry, defaults), Ordered(c, registry, defaults);
    seq(|matches|, i requires 0 <= i < |matches| => PlanOf(preferred, matches[i]))
  }

  predicate DistinctKeys(registry: seq<Entry>) {
    forall i, j | 0 <= i < j < |registry| :: registry[i].key != registry[j].key
  }

  // ---- every eligible handler once

  lemma {:induction false} SelectMembers<A, B>(f: A -> Option<B>, s: seq<A>)
    ensures forall y :: y in Select(f, s) <==> exists i | 0 <= i < |s| :: f(s[i]) == Some(y)
  {
    if s != [] {
      SelectMembers(f, s[1..]);
      forall y
        ensures y in Select(f, s) <==> exists i | 0 <= i < |s| :: f(s[i]) == Some(y)
      {
        if y in Select(f, s[1..]) {
          var i :| 0 <= i < |s[1..]| && f(s[1..][i]) == Some(y);
          assert f(s[i + 1]) == Some(y);
        }
        if i :| 0 <= i < |s| && f(s[i]) == Some(y) {
          assert i > 0 ==> f(s[1..][i - 1]) == Some(y);
        }
      }
    }
  }

  lemma MatchingEmptyIff(c: Context, h: Handler)
    ensures Matching(c, h) == []
       <==> forall i | 0 <= i < |h.selectors| :: MatchSelector(c.locale, h.selectors[i], c.descriptor) == 0
  {
    hide MatchSelector;
    var kept := Select(ScoreOf(c), h.selectors);
    SelectMembers(ScoreOf(c), h.selectors);
    SortPermutes(HIGHER_SCORE, kept);
    if kept != [] {
      assert kept[0] in kept;
    }
    forall i | 0 <= i < |h.selectors| && MatchSelector(c.locale, h.selectors[i], c.descriptor) > 0
      ensures kept != []
    {
      var y := Scored(h.selectors[i], MatchSelector(c.locale, h.selectors[i], c.descriptor));
      assert ScoreOf(c)(h.selectors[i]) == Some(y);
      assert y in kept;
    }
  }

  /** The selector a handler is listed with is one of its best. */
  lemma MatchedIsBest(c: Context, e: Entry)
    requires MatchOf(c)(e).Some?
    ensures var m := MatchOf(c)(e).value.matched;
            && m.selector in e.handler.selectors
            && m.specificity == MatchSelector(c.locale, m.selector, c.descriptor) > 0
            && forall s | s in e.handler.selectors :: MatchSelector(c.locale, s, c.descriptor) <= m.specificity
  {
    hide MatchSelector;
    var kept, sorted := Select(ScoreOf(c), e.handler.selectors), Matching(c, e.handler);
    SelectMembers(ScoreOf(c), e.handler.selectors);
    SortPermutes(HIGHER_SCORE, kept);
    SortSorts(HIGHER_SCORE, kept);
    assert sorted[0] in Elements(sorted) && sorted[0] in kept;
    forall s | s in e.handler.selectors && MatchSelector(c.locale, s, c.descriptor) > 0
      ensures MatchSelector(c.locale, s, c.descriptor) <= sorted[0].specificity
    {
      var y := Scored(s, MatchSelector(c.locale, s, c.descriptor));
      assert ScoreOf(c)(s) == Some(y);
      assert y in kept && y in Elements(kept) && y in Elements(sorted);
    }
  }

  lemma EligibleMatches(c: Context, e: Entry)
    ensures MatchOf(c)(e).Some? <==> Eligible(c, e)
    ensures MatchOf(c)(e).Some? ==> MatchOf(c)(e).value.key == e.key && MatchOf(c)(e).value.system == e.handler.system
  {
    MatchingEmptyIff(c, e.handler);
  }

  ghost predicate HasEntry(entries: seq<Entry>, key: Text) { exists i | 0 <= i < |entries| :: entries[i].key == key }

  predicate DistinctMatches(matches: seq<Match>) {
    forall i, j | 0 <= i < j < |matches| :: matches[i].key != matches[j].key
  }

  lemma {:induction false} SelectDistinct(c: Context, entries: seq<Entry>)
    requires DistinctKeys(entries)
    ensures DistinctMatches(Select(MatchOf(c), entries))
    ensures forall i | 0 <= i < |Select(MatchOf(c), entries)| :: HasEntry(entries, Select(MatchOf(c), entries)[i].key)
  {
    hide MatchOf, Eligible;
    if entries != [] {
      var first, rest := entries[0], entries[1..];
      assert forall i, j | 0 <= i < j < |rest| :: rest[i] == entries[i + 1] && rest[j] == entries[j + 1];
      SelectDistinct(c, rest);
      EligibleMatches(c, first);
      var more := Select(MatchOf(c), rest);
      forall i | 0 <= i < |more|
        ensures HasEntry(entries, more[i].key) && more[i].key != first.key
      {
        var j :| 0 <= j < |rest| && rest[j].key == more[i].key;
        assert entries[j + 1] == rest[j];
      }
      assert entries[0].key == first.key;
    }
  }

  lemma WithPreviewFirst(registry: seq<Entry>)
    requires registry != [] && DistinctKeys(registry) && registry[0].key == PREVIEW_KEY
    ensures DistinctKeys(WithPreview(registry))
    ensures forall e :: e in WithPreview(registry)
              <==> e == Entry(PREVIEW_KEY, PREVIEW_HANDLER) || (e in registry && e.key != PREVIEW_KEY)
  {
    var rest := registry[1..];
    assert registry == [registry[0]] + rest;
    assert forall i | 0 <= i < |rest| :: rest[i] == registry[i + 1] && rest[i].key != PREVIEW_KEY;
  }

  lemma {:induction false} WithPreviewKeys(registry: seq<Entry>)
    requires DistinctKeys(registry)
    ensures DistinctKeys(WithPreview(registry))
    ensures forall e :: e in WithPreview(registry)
              <==> e == Entry(PREVIEW_KEY, PREVIEW_HANDLER) || (e in registry && e.key != PREVIEW_KEY)
  {
    if registry != [] {
      if registry[0].key == PREVIEW_KEY {
        WithPreviewFirst(registry);
      } else {
        var first, rest := registry[0], registry[1..];
        assert forall i, j | 0 <= i < j < |rest| :: rest[i] == registry[i + 1] && rest[j] == registry[j + 1];
        WithPreviewKeys(rest);
        assert registry == [first] + rest;
        NotAmong(first, rest);
        ConsDistinct(first, WithPreview(rest));
      }
    }
  }

  lemma NotAmong(first: Entry, rest: seq<Entry>)
    requires DistinctKeys([first] + rest)
    ensures forall e | e in rest :: e.key != first.key
  {
    var all := [first] + rest;
    forall e | e in rest
      ensures e.key != first.key
    {
      var k :| 0 <= k < |rest| && rest[k] == e;
      assert all[k + 1] == e && all[0] == first;
    }
  }

  lemma ConsDistinct(first: Entry, rest: seq<Entry>)
    requires DistinctKeys(rest) && forall e | e in rest :: e.key != first.key
    ensures DistinctKeys([first] + rest)
  {
    var all := [first] + rest;
    forall i, j | 0 <= i < j < |all|
      ensures all[i].key != all[j].key
    {
      assert all[j] == rest[j - 1];
      assert i > 0 ==> all[i] == rest[i - 1];
    }
  }

  lemma MatchesDistinct(c: Context, registry: seq<Entry>)
    requires DistinctKeys(registry)
    ensures DistinctMatches(Matches(c, registry))
  {
    WithPreviewKeys(registry);
    SelectDistinct(c, WithPreview(registry));
  }

  predicate Listed(plans: seq<Plan>, key: Text) { exists i | 0 <= i < |plans| :: plans[i].key == key }

  lemma SameKeys(a: seq<Match>, b: seq<Match>)
    requires multiset(a) == multiset(b)
    ensures forall key :: HasKey(a, key) <==> HasKey(b, key)
    ensures DistinctMatches(a) ==> DistinctMatches(b)
  {
    SameElements(a, b);
    assert forall m :: m in Elements(a) <==> m in a;
    assert forall m :: m in Elements(b) <==> m in b;
    forall key
      ensures HasKey(a, key) <==> HasKey(b, key)
    {
      if HasKey(a, key) {
        var i :| 0 <= i < |a| && a[i].key == key;
        assert a[i] in b;
      }
      if HasKey(b, key) {
        var i :| 0 <= i < |b| && b[i].key == key;
        assert b[i] in a;
      }
    }
    if DistinctMatches(a) {
      assert DistinctBy((m: Match) => m.key, a);
      DistinctByPermutes((m: Match) => m.key, a, b);
      assert forall i, j | 0 <= i < j < |b| :: ((m: Match) => m.key)(b[i]) != ((m: Match) => m.key)(b[j]);
    }
  }

  lemma OrderedPermutes(c: Context, registry: seq<Entry>, defaults: seq<Default>)
    requires DistinctKeys(registry)
    ensures multiset(Ordered(c, registry, defaults)) == multiset(Matches(c, registry))
    ensures DistinctMatches(Ordered(c, registry, defaults))
    ensures forall key :: HasKey(Ordered(c, registry, defaults), key) <==> HasKey(Matches(c, registry), key)
  {
    hide Matches, PreferredKey, Before;
    MatchesDistinct(c, registry);
    SortPermutes(Before(c.locale, PreferredKey(c, registry, defaults)), Matches(c, registry));
    SameKeys(Matches(c, registry), Ordered(c, registry, defaults));
  }

  lemma HasKeyIff(c: Context, registry: seq<Entry>, key: Text)
    ensures HasKey(Matches(c, registry), key)
       <==> exists e | e in WithPreview(registry) :: e.key == key && Eligible(c, e)
  {
    hide MatchOf, Eligible, WithPreview;
    var entries := WithPreview(registry);
    SelectMembers(MatchOf(c), entries);
    if HasKey(Matches(c, registry), key) {
      var i :| 0 <= i < |Matches(c, registry)| && Matches(c, registry)[i].key == key;
      assert Matches(c, registry)[i] in Matches(c, registry);
      var j :| 0 <= j < |entries| && MatchOf(c)(entries[j]) == Some(Matches(c, registry)[i]);
      EligibleMatches(c, entries[j]);
    }
    if e :| e in entries && e.key == key && Eligible(c, e) {
      EligibleMatches(c, e);
      var m := MatchOf(c)(e).value;
      assert MatchOf(c)(e) == Some(m);
      assert m in Matches(c, registry);
      var i :| 0 <= i < |Matches(c, registry)| && Matches(c, registry)[i] == m;
      assert Matches(c, registry)[i].key == key;
    }
  }

  /** Every eligible handler is listed, once, and nothing else is. */
  lemma OncePerEligible(c: Context, registry: seq<Entry>, defaults: seq<Default>)
    requires DistinctKeys(registry)
    ensures var plans := ResolveContentHandlers(c, registry, defaults);
            && (forall i, j | 0 <= i < j < |plans| :: plans[i].key != plans[j].key)
            && (forall key :: Listed(plans, key)
                   <==> exists e | e in WithPreview(registry) :: e.key == key && Eligible(c, e))
  {
    hide Matches, Ordered, PreferredKey, Eligible, WithPreview;
    var plans, ordered := ResolveContentHandlers(c, registry, defaults), Ordered(c, registry, defaults);
    OrderedPermutes(c, registry, defaults);
    forall key
      ensures Listed(plans, key) <==> exists e | e in WithPreview(registry) :: e.key == key && Eligible(c, e)
    {
      HasKeyIff(c, registry, key);
      if Listed(plans, key) {
        var i :| 0 <= i < |plans| && plans[i].key == key;
        assert ordered[i].key == key;
      }
      if HasKey(ordered, key) {
        var i :| 0 <= i < |ordered| && ordered[i].key == key;
        assert plans[i].key == key;
      }
    }
  }

  lemma PreviewEligible(c: Context)
    requires Lawful(c.locale)
    ensures Eligible(c, Entry(PREVIEW_KEY, PREVIEW_HANDLER))
    ensures MatchSelector(c.locale, PREVIEW_HANDLER.selectors[0], c.descriptor) == 1
  {
    var s := PREVIEW_HANDLER.selectors[0];
    var mime := Trim(FirstPart(c.locale.lower(OrEmpty(c.descriptor.mime)), SEMICOLON));
    assert s.mime.value[1..] == [];
    assert BestMime(c.locale, s.mime.value, mime, false) == 1;
  }

  /** Whatever the registry and the user disabled, the preview is listed. */
  lemma PreviewPresent(c: Context, registry: seq<Entry>, defaults: seq<Default>)
    requires Lawful(c.locale) && DistinctKeys(registry)
    ensures Listed(ResolveContentHandlers(c, registry, defaults), PREVIEW_KEY)
  {
    hide Eligible, ResolveContentHandlers, WithPreview;
    PreviewEligible(c);
    WithPreviewKeys(registry);
    OncePerEligible(c, registry, defaults);
    var e := Entry(PREVIEW_KEY, PREVIEW_HANDLER);
    assert e in WithPreview(registry) && e.key == PREVIEW_KEY && Eligible(c, e);
  }

  // ---- the order of enumeration does not matter

  lemma EarlierTotal(l: Locale, preferred: Option<Text>, matches: seq<Match>)
    requires Lawful(l) && DistinctMatches(matches)
    ensures StrictTotal(Before(l, preferred), Elements(matches))
  {
    forall a, b | a in Elements(matches) && b in Elements(matches)
      ensures Before(l, preferred)(a, b) ==> !Before(l, preferred)(b, a)
      ensures a != b ==> Before(l, preferred)(a, b) || Before(l, preferred)(b, a)
    {
      var i :| 0 <= i < |matches| && matches[i] == a;
      var j :| 0 <= j < |matches| && matches[j] == b;
      assert a != b ==> a.key != b.key;
      EarlierOne(l, preferred, a, b);
    }
    forall a, b, c | a in Elements(matches) && b in Elements(matches) && c in Elements(matches)
      ensures !Before(l, preferred)(a, b) && !Before(l, preferred)(b, c) ==> !Before(l, preferred)(a, c)
    {
      if !Earlier(l, preferred, a, b) && !Earlier(l, preferred, b, c) {
        EarlierThree(l, preferred, a, b, c);
      }
    }
  }

  lemma EarlierOne(l: Locale, preferred: Option<Text>, a: Match, b: Match)
    requires Lawful(l)
    ensures Earlier(l, preferred, a, b) ==> !Earlier(l, preferred, b, a)
    ensures a.key != b.key ==> Earlier(l, preferred, a, b) || Earlier(l, preferred, b, a)
  {}

  lemma EarlierThree(l: Locale, preferred: Option<Text>, a: Match, b: Match, c: Match)
    requires Lawful(l) && !Earlier(l, preferred, a, b) && !Earlier(l, preferred, b, c)
    ensures !Earlier(l, preferred, a, c)
  {
    CollateThree(l, a.key, b.key, c.key);
    hide Lawful, Tier;
  }

  lemma CollateThree(l: Locale, a: Text, b: Text, c: Text)
    requires Lawful(l)
    ensures !l.collate(a, b) && !l.collate(b, c) ==> !l.collate(a, c)
  {}

  lemma BetterTotal(l: Locale, domain: set<Preferred>)
    requires Lawful(l)
    ensures StrictTotal(Better(l), domain)
  {
    forall a, b | a in domain && b in domain
      ensures Better(l)(a, b) ==> !Better(l)(b, a)
      ensures a != b ==> Better(l)(a, b) || Better(l)(b, a)
    {
      BetterOne(l, a, b);
    }
    forall a, b, c | a in domain && b in domain && c in domain
      ensures !Better(l)(a, b) && !Better(l)(b, c) ==> !Better(l)(a, c)
    {
      CollateThree(l, a.key, b.key, c.key);
    }
  }

  lemma BetterOne(l: Locale, a: Preferred, b: Preferred)
    requires Lawful(l)
    ensures Better(l)(a, b) ==> !Better(l)(b, a)
    ensures a != b ==> Better(l)(a, b) || Better(l)(b, a)
  {}

  lemma {:induction false} SamePreview(registry: seq<Entry>)
    requires DistinctKeys(registry)
    ensures multiset(WithPreview(registry))
              == multiset(Select(NOT_PREVIEW, registry)) + multiset{Entry(PREVIEW_KEY, PREVIEW_HANDLER)}
  {
    if registry != [] {
      var first, rest := registry[0], registry[1..];
      assert registry == [first] + rest;
      assert forall i, j | 0 <= i < j < |rest| :: rest[i] == registry[i + 1] && rest[j] == registry[j + 1];
      if first.key == PREVIEW_KEY {
        NotAmong(first, rest);
        AllOthers(rest);
      } else {
        SamePreview(rest);
      }
    }
  }

  const NOT_PREVIEW: Entry -> Option<Entry> := (e: Entry) => if e.key == PREVIEW_KEY then None else Some(e)

  lemma {:induction false} AllOthers(entries: seq<Entry>)
    requires forall e | e in entries :: e.key != PREVIEW_KEY
    ensures Select(NOT_PREVIEW, entries) == entries
  {
    if entries != [] {
      assert entries[0] in entries;
      AllOthers(entries[1..]);
    }
  }

  lemma SameMatches(c: Context, a: seq<Entry>, b: seq<Entry>)
    requires DistinctKeys(a) && DistinctKeys(b) && multiset(a) == multiset(b)
    ensures multiset(Matches(c, a)) == multiset(Matches(c, b))
  {
    hide MatchOf;
    SamePreview(a);
    SamePreview(b);
    SelectPermutes(NOT_PREVIEW, a, b);
    SelectPermutes(MatchOf(c), WithPreview(a), WithPreview(b));
  }

  lemma {:induction false} SamePreferred(preferred: seq<Preferred>, a: seq<Match>, b: seq<Match>)
    requires forall key :: HasKey(a, key) <==> HasKey(b, key)
    ensures FindPreferred(preferred, a) == FindPreferred(preferred, b)
  {
    hide HasKey;
    if preferred != [] {
      SamePreferred(preferred[1..], a, b);
    }
  }

  /** The same handlers and defaults, enumerated in any order, give the same list. */
  lemma EnumerationForgotten(c: Context, a: seq<Entry>, b: seq<Entry>, d: seq<Default>, e: seq<Default>)
    requires Lawful(c.locale) && DistinctKeys(a) && DistinctKeys(b)
    requires multiset(a) == multiset(b) && multiset(d) == multiset(e)
    ensures ResolveContentHandlers(c, a, d) == ResolveContentHandlers(c, b, e)
  {
    hide Lawful, Matches, PreferredOf, Better, Before;
    SameMatches(c, a, b);
    SameKeys(Matches(c, a), Matches(c, b));
    SelectPermutes(PreferredOf(c), d, e);
    BetterTotal(c.locale, Elements(Select(PreferredOf(c), d)));
    SortForgetsOrder(Better(c.locale), Select(PreferredOf(c), d), Select(PreferredOf(c), e));
    SamePreferred(Sort(Better(c.locale), Select(PreferredOf(c), d)), Matches(c, a), Matches(c, b));
    assert PreferredKey(c, a, d) == PreferredKey(c, b, e);
    MatchesDistinct(c, a);
    EarlierTotal(c.locale, PreferredKey(c, a, d), Matches(c, a));
    SortForgetsOrder(Before(c.locale, PreferredKey(c, a, d)), Matches(c, a), Matches(c, b));
  }

  // ---- who comes first

  lemma OrderedSorted(c: Context, registry: seq<Entry>, defaults: seq<Default>)
    requires Lawful(c.locale) && DistinctKeys(registry)
    ensures Sorted(Before(c.locale, PreferredKey(c, registry, defaults)), Ordered(c, registry, defaults))
  {
    hide Matches, PreferredKey, Before, Lawful;
    MatchesDistinct(c, registry);
    EarlierTotal(c.locale, PreferredKey(c, registry, defaults), Matches(c, registry));
    SortSorts(Before(c.locale, PreferredKey(c, registry, defaults)), Matches(c, registry));
  }

  lemma {:induction false} FoundPreferred(preferred: seq<Preferred>, matches: seq<Match>)
    ensures match FindPreferred(preferred, matches)
            case None => forall i | 0 <= i < |preferred| :: !HasKey(matches, preferred[i].key)
            case Some(key) =>
              HasKey(matches, key) && exists i | 0 <= i < |preferred| ::
                preferred[i].key == key && forall j | 0 <= j < i :: !HasKey(matches, preferred[j].key)
  {
    hide HasKey;
    if preferred != [] {
      var rest := preferred[1..];
      FoundPreferred(rest, matches);
      if HasKey(matches, preferred[0].key) {
        assert preferred[0].key == preferred[0].key;
      } else {
        assert forall i | 0 <= i < |rest| :: preferred[i + 1] == rest[i];
        if FindPreferred(rest, matches).Some? {
          var key := FindPreferred(rest, matches).value;
          var i :| 0 <= i < |rest| && rest[i].key == key && forall j | 0 <= j < i :: !HasKey(matches, rest[j].key);
          assert preferred[i + 1].key == key;
          assert forall j | 0 <= j < i + 1 :: j == 0 || preferred[j] == rest[j - 1];
        }
      }
    }
  }

  /** A default of the user that matches the content and names an eligible handler. */
  ghost predicate Candidate(c: Context, registry: seq<Entry>, defaults: seq<Default>, p: Preferred) {
    p in Select(PreferredOf(c), defaults) && HasKey(Matches(c, registry), p.key)
  }

  /** The user's default is the best of the candidates, and there is none only when there is no candidate. */
  lemma PreferredIsBest(c: Context, registry: seq<Entry>, defaults: seq<Default>)
    requires Lawful(c.locale)
    ensures match PreferredKey(c, registry, defaults)
            case None => forall p :: !Candidate(c, registry, defaults, p)
            case Some(key) =>
              exists p :: Candidate(c, registry, defaults, p) && p.key == key
                          && forall q | Candidate(c, registry, defaults, q) :: !Better(c.locale)(q, p)
  {
    hide Lawful, Matches, PreferredOf, Better, HasKey, Sort, Select, StrictTotal;
    var kept := Select(PreferredOf(c), defaults);
    var sorted := Sort(Better(c.locale), kept);
    BetterTotal(c.locale, Elements(kept));
    SortPermutes(Better(c.locale), kept);
    SortSorts(Better(c.locale), kept);
    FoundPreferred(sorted, Matches(c, registry));
    assert forall p :: p in kept <==> p in Elements(kept);
    assert forall p :: p in sorted <==> p in Elements(sorted);
    if PreferredKey(c, registry, defaults).Some? {
      var key := PreferredKey(c, registry, defaults).value;
      var i :|
        && 0 <= i < |sorted| && sorted[i].key == key
        && forall j | 0 <= j < i :: !HasKey(Matches(c, registry), sorted[j].key);
      assert sorted[i] in sorted && Candidate(c, registry, defaults, sorted[i]);
      forall q | Candidate(c, registry, defaults, q)
        ensures !Better(c.locale)(q, sorted[i])
      {
        assert q in sorted;
        var j :| 0 <= j < |sorted| && sorted[j] == q;
        if j == i {
          BetterIrreflexive(c.locale, q);
        }
      }
    } else {
      forall p
        ensures !Candidate(c, registry, defaults, p)
      {
        if p in kept {
          assert p in sorted;
          var j :| 0 <= j < |sorted| && sorted[j] == p;
        }
      }
    }
  }

  lemma BetterIrreflexive(l: Locale, p: Preferred)
    requires Lawful(l)
    ensures !Better(l)(p, p)
  {}

  /** A matching default of the user comes first, and is the only one given that reason. */
  lemma DefaultFirst(c: Context, registry: seq<Entry>, defaults: seq<Default>)
    requires Lawful(c.locale) && DistinctKeys(registry) && PreferredKey(c, registry, defaults).Some?
    ensures var plans := ResolveContentHandlers(c, registry, defaults);
            && plans != [] && plans[0].key == PreferredKey(c, registry, defaults).value
            && forall i | 0 <= i < |plans| :: plans[i].reason == UserDefault <==> i == 0
  {
    hide Matches, PreferredKey, Lawful;
    var key := PreferredKey(c, registry, defaults).value;
    var ordered := Ordered(c, registry, defaults);
    PreferredHasKey(c, registry, defaults);
    OrderedPermutes(c, registry, defaults);
    OrderedSorted(c, registry, defaults);
    hide Ordered;
    var i :| 0 <= i < |ordered| && ordered[i].key == key;
    assert forall k | 0 < k < |ordered| :: !Before(c.locale, Some(key))(ordered[k], ordered[0]);
  }

  lemma PreferredHasKey(c: Context, registry: seq<Entry>, defaults: seq<Default>)
    requires PreferredKey(c, registry, defaults).Some?
    ensures HasKey(Matches(c, registry), PreferredKey(c, registry, defaults).value)
  {
    FoundPreferred(Sort(Better(c.locale), Select(PreferredOf(c), defaults)), Matches(c, registry));
  }

  /**
   * An app that matches only the wildcard, or an extension alone, never comes before the preview, unless the user
   * chose it.
   */
  lemma NoWeakAppBeforePreview(c: Context, registry: seq<Entry>, defaults: seq<Default>, i: nat, j: nat)
    requires Lawful(c.locale) && DistinctKeys(registry)
    requires i < j < |ResolveContentHandlers(c, registry, defaults)|
    requires var plans := ResolveContentHandlers(c, registry, defaults);
             plans[j].key == PREVIEW_KEY && !plans[i].system && plans[i].matched.specificity <= 1
    ensures PreferredKey(c, registry, defaults) == Some(ResolveContentHandlers(c, registry, defaults)[i].key)
  {
    var ordered := Ordered(c, registry, defaults);
    OrderedSorted(c, registry, defaults);
    PreviewIsSystem(c, registry, defaults, j);
    hide Matches, PreferredKey, Lawful, Ordered;
    assert !Before(c.locale, PreferredKey(c, registry, defaults))(ordered[j], ordered[i]);
  }

  lemma PreviewIsSystem(c: Context, registry: seq<Entry>, defaults: seq<Default>, j: nat)
    requires DistinctKeys(registry) && j < |Ordered(c, registry, defaults)|
    requires Ordered(c, registry, defaults)[j].key == PREVIEW_KEY
    ensures Ordered(c, registry, defaults)[j].system
  {
    hide MatchOf, PreferredKey, WithPreview, Before;
    var ordered, matches := Ordered(c, registry, defaults), Matches(c, registry);
    SortPermutes(Before(c.locale, PreferredKey(c, registry, defaults)), matches);
    assert ordered[j] in Elements(ordered) && ordered[j] in matches;
    SelectMembers(MatchOf(c), WithPreview(registry));
    var k :| 0 <= k < |WithPreview(registry)| && MatchOf(c)(WithPreview(registry)[k]) == Some(ordered[j]);
    EligibleMatches(c, WithPreview(registry)[k]);
    WithPreviewKeys(registry);
    assert WithPreview(registry)[k] in WithPreview(registry);
  }
}
