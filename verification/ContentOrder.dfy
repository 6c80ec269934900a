/** The list of `resolveContentHandlers` described from the registry and the defaults alone (src/content.ts). */
module ContentOrder {
  import opened Wrappers
  import opened JsText
  import opened Sorting
  import opened ContentHandlers
  import UrlGrammar

  // ---- who is listed, and how

  /** A property of the registry with the built-in preview in it, whatever the registry says under that name. */
  ghost predicate Registered(registry: seq<Entry>, e: Entry) {
    if e.key == Lit("system#preview") then
      e.handler == Handler(true, None, [Selector(None, Some([Lit("*/*")]), None, None, None)], Some(Binding(false, 90)),
                           true, 0)
    else e in registry
  }

  function ScoreAt(c: Context, selectors: seq<Selector>, k: nat): nat
    requires k < |selectors|
  {
    MatchSelector(c.locale, selectors[k], c.descriptor)
  }

  /** The first of the selectors with the highest score, with that score. */
  ghost predicate BestAt(c: Context, selectors: seq<Selector>, k: nat, m: Scored) {
    && k < |selectors| && ScoreAt(c, selectors, k) > 0 && m == Scored(selectors[k], ScoreAt(c, selectors, k))
    && (forall j: nat | j < k :: ScoreAt(c, selectors, j) < ScoreAt(c, selectors, k))
    && (forall j: nat | k < j < |selectors| :: ScoreAt(c, selectors, j) <= ScoreAt(c, selectors, k))
  }

  ghost predicate HasBest(c: Context, selectors: seq<Selector>, m: Scored) {
    exists k: nat :: BestAt(c, selectors, k, m)
  }

  /** What the plan shows is what the entry says. */
  ghost predicate Shows(c: Context, e: Entry, p: Plan) {
    p.key == e.key && p.system == e.handler.system && HasBest(c, e.handler.selectors, p.matched)
  }

  /**
   * The handler is enabled, opens contents and was not disabled by the user, which the preview cannot be; an app is
   * at hand and opens in the web.
   */
  ghost predicate MayOpen(c: Context, e: Entry) {
    && e.handler.enabled && e.handler.open.Some? && (e.key in c.disabled ==> e.key == Lit("system#preview"))
    && (!e.handler.system ==>
          && e.handler.appInstance.Some? && e.handler.appInstance.value != []
          && e.handler.appInstance.value in c.visible && e.handler.open.value.web)
  }

  function Scores(c: Context, selectors: seq<Selector>): seq<Scored> {
    Sort(HIGHER_SCORE, Select(ScoreOf(c), selectors))
  }

  lemma ScoresStep(c: Context, selectors: seq<Selector>)
    requires selectors != []
    ensures var rest, n := Scores(c, selectors[1..]), ScoreAt(c, selectors, 0);
            && (n == 0 ==> Scores(c, selectors) == rest)
            && (n > 0 && (rest == [] || n >= rest[0].specificity) ==>
                  Scores(c, selectors) == [Scored(selectors[0], n)] + rest)
            && (n > 0 && rest != [] && n < rest[0].specificity ==>
                  Scores(c, selectors) != [] && Scores(c, selectors)[0] == rest[0])
  {
    hide MatchSelector;
    assert [] + Select(ScoreOf(c), selectors[1..]) == Select(ScoreOf(c), selectors[1..]);
  }

  lemma {:induction false} ScoresFirst(c: Context, selectors: seq<Selector>)
    ensures Scores(c, selectors) == [] ==> forall k: nat | k < |selectors| :: ScoreAt(c, selectors, k) == 0
    ensures Scores(c, selectors) != [] ==> HasBest(c, selectors, Scores(c, selectors)[0])
  {
    hide MatchSelector;
    if selectors == [] {
      assert Scores(c, selectors) == [];
    } else {
      hide Scores;
      var rest := selectors[1..];
      ScoresFirst(c, rest);
      ScoresStep(c, selectors);
      assert forall k: nat | k < |rest| :: ScoreAt(c, rest, k) == ScoreAt(c, selectors, k + 1);
      assert forall k: nat | 0 < k < |selectors| :: ScoreAt(c, selectors, k) == ScoreAt(c, rest, k - 1);
      if Scores(c, rest) == [] {
        assert ScoreAt(c, selectors, 0) > 0 ==> BestAt(c, selectors, 0, Scores(c, selectors)[0]);
      } else {
        var k: nat :| BestAt(c, rest, k, Scores(c, rest)[0]);
        var at := if ScoreAt(c, selectors, 0) < ScoreAt(c, rest, k) then k + 1 else 0;
        assert BestAt(c, selectors, at, Scores(c, selectors)[0]);
        assert HasBest(c, selectors, Scores(c, selectors)[0]);
      }
    }
  }

  lemma MatchShows(c: Context, e: Entry)
    requires MatchOf(c)(e).Some?
    ensures var m := MatchOf(c)(e).value;
            && HasBest(c, e.handler.selectors, m.matched) && m.key == e.key && m.system == e.handler.system
            && m.registeredAt == e.handler.registeredAt && e.handler.open.Some?
            && m.priority == e.handler.open.value.priority
    ensures MayOpen(c, e)
  {
    ScoresFirst(c, e.handler.selectors);
    hide MatchSelector;
  }

  lemma MatchedIff(c: Context, e: Entry)
    ensures MatchOf(c)(e).Some?
       <==> MayOpen(c, e) && exists s :: s in e.handler.selectors && Selects(c.locale, s, c.descriptor)
  {
    hide MatchSelector, Selects;
    MatchingEmptyIff(c, e.handler);
    forall s
      ensures MatchSelector(c.locale, s, c.descriptor) > 0 <==> Selects(c.locale, s, c.descriptor)
    {
      MatchesIff(c.locale, s, c.descriptor);
    }
    if s :| s in e.handler.selectors && Selects(c.locale, s, c.descriptor) {
      var i :| 0 <= i < |e.handler.selectors| && e.handler.selectors[i] == s;
    }
  }

  lemma RegisteredIff(registry: seq<Entry>, e: Entry)
    requires DistinctKeys(registry)
    ensures Registered(registry, e) <==> e in WithPreview(registry)
  {
    WithPreviewKeys(registry);
    assert Lit("*/*") == ANY_MIME;
  }

  /** The entry behind a listed handler. */
  ghost predicate Behind(c: Context, registry: seq<Entry>, e: Entry, m: Match) {
    Registered(registry, e) && MatchOf(c)(e) == Some(m)
  }

  lemma OrderedBehind(c: Context, registry: seq<Entry>, defaults: seq<Default>, i: nat)
    requires DistinctKeys(registry) && i < |Ordered(c, registry, defaults)|
    ensures exists e :: Behind(c, registry, e, Ordered(c, registry, defaults)[i])
  {
    hide MatchOf, PreferredKey, WithPreview, Before, Registered;
    var ordered, matches := Ordered(c, registry, defaults), Matches(c, registry);
    SortPermutes(Before(c.locale, PreferredKey(c, registry, defaults)), matches);
    assert ordered[i] in Elements(ordered) && ordered[i] in matches;
    SelectMembers(MatchOf(c), WithPreview(registry));
    var k :| 0 <= k < |WithPreview(registry)| && MatchOf(c)(WithPreview(registry)[k]) == Some(ordered[i]);
    RegisteredIff(registry, WithPreview(registry)[k]);
    assert Behind(c, registry, WithPreview(registry)[k], ordered[i]);
  }

  /** Two properties of one name are one. */
  lemma RegisteredOnce(registry: seq<Entry>, e: Entry, f: Entry)
    requires DistinctKeys(registry) && Registered(registry, e) && Registered(registry, f) && e.key == f.key
    ensures e == f
  {}

  /** Each handler listed is a registered one that may open the content, shown with the first of its best selectors. */
  lemma ListedShows(c: Context, registry: seq<Entry>, defaults: seq<Default>, e: Entry, i: nat)
    requires DistinctKeys(registry) && i < |ResolveContentHandlers(c, registry, defaults)|
    requires Registered(registry, e) && e.key == ResolveContentHandlers(c, registry, defaults)[i].key
    ensures MayOpen(c, e) && Shows(c, e, ResolveContentHandlers(c, registry, defaults)[i])
  {
    hide MatchOf, PreferredKey, Registered, Ordered, HasBest;
    OrderedBehind(c, registry, defaults, i);
    var f :| Behind(c, registry, f, Ordered(c, registry, defaults)[i]);
    MatchShows(c, f);
    RegisteredOnce(registry, e, f);
  }

  /** The handlers listed are exactly the registered ones that may open the content and select it, each once. */
  lemma ListedIff(c: Context, registry: seq<Entry>, defaults: seq<Default>)
    requires DistinctKeys(registry)
    ensures var plans := ResolveContentHandlers(c, registry, defaults);
            && (forall i, j | 0 <= i < j < |plans| :: plans[i].key != plans[j].key)
            && forall key :: Listed(plans, key) <==> exists e: Entry :: e.key == key && MayListed(c, registry, e)
  {
    hide ResolveContentHandlers, MayListed, Eligible;
    OncePerEligible(c, registry, defaults);
    forall e
      ensures MayListed(c, registry, e) <==> e in WithPreview(registry) && Eligible(c, e)
    {
      MayListedIff(c, registry, e);
    }
  }

  ghost predicate MayListed(c: Context, registry: seq<Entry>, e: Entry) {
    && Registered(registry, e) && MayOpen(c, e)
    && exists s :: s in e.handler.selectors && Selects(c.locale, s, c.descriptor)
  }

  lemma MayListedIff(c: Context, registry: seq<Entry>, e: Entry)
    requires DistinctKeys(registry)
    ensures MayListed(c, registry, e) <==> e in WithPreview(registry) && Eligible(c, e)
  {
    hide Registered, WithPreview, MatchOf, MayOpen, Selects, Eligible;
    RegisteredIff(registry, e);
    MatchedIff(c, e);
    EligibleMatches(c, e);
  }

  // ---- in which order

  /**
   * The order of the list, after the user's default: the handlers of the first tier, the system's and those that
   * match by more than the wildcard or an extension; then the better match, the higher priority, the system's, the
   * earlier registered, the key that collates first.
   */
  lemma RankedOrder(c: Context, registry: seq<Entry>, defaults: seq<Default>, e: Entry, i: nat, f: Entry, j: nat)
    requires Lawful(c.locale) && DistinctKeys(registry) && i < j < |ResolveContentHandlers(c, registry, defaults)|
    requires Registered(registry, e) && e.key == ResolveContentHandlers(c, registry, defaults)[i].key
    requires Registered(registry, f) && f.key == ResolveContentHandlers(c, registry, defaults)[j].key
    requires ResolveContentHandlers(c, registry, defaults)[i].reason != UserDefault
    ensures var plans := ResolveContentHandlers(c, registry, defaults);
            var m, n := plans[i].matched.specificity, plans[j].matched.specificity;
            var first, second := e.handler.system || m > 1, f.handler.system || n > 1;
            && e.handler.open.Some? && f.handler.open.Some? && plans[j].reason != UserDefault
            && var p, q := e.handler.open.value.priority, f.handler.open.value.priority;
               && (second ==> first)
               && (first == second ==> m >= n)
               && (first == second && m == n ==> p >= q)
               && (first == second && m == n && p == q && f.handler.system ==> e.handler.system)
               && (first == second && m == n && p == q && e.handler.system == f.handler.system ==>
                     e.handler.registeredAt <= f.handler.registeredAt)
               && (first == second && m == n && p == q && e.handler.system == f.handler.system
                     && e.handler.registeredAt == f.handler.registeredAt ==>
                     c.locale.collate(e.key, f.key))
  {
    var ordered := Ordered(c, registry, defaults);
    hide MatchOf, PreferredKey, Registered, Ordered, HasBest;
    OrderedBehind(c, registry, defaults, i);
    OrderedBehind(c, registry, defaults, j);
    OrderedSorted(c, registry, defaults);
    OrderedPermutes(c, registry, defaults);
    var g :| Behind(c, registry, g, ordered[i]);
    var h :| Behind(c, registry, h, ordered[j]);
    MatchShows(c, g);
    MatchShows(c, h);
    RegisteredOnce(registry, e, g);
    RegisteredOnce(registry, f, h);
    assert !Before(c.locale, PreferredKey(c, registry, defaults))(ordered[j], ordered[i]);
  }

  // ---- the user's default

  function DefaultScore(c: Context, d: Default): nat {
    MatchSelector(c.locale, CompactSelector(d.selector), c.descriptor)
  }

  /** A default that matches the content and names a listed handler. */
  ghost predicate Names(c: Context, plans: seq<Plan>, d: Default) {
    DefaultScore(c, d) > 0 && exists i :: 0 <= i < |plans| && plans[i].key == d.key
  }

  /** No other default that matches and names a listed handler scores higher, or as high for a key collated before. */
  ghost predicate Prevails(c: Context, defaults: seq<Default>, plans: seq<Plan>, d: Default) {
    && d in defaults && Names(c, plans, d)
    && forall o | o in defaults && Names(c, plans, o) ::
         DefaultScore(c, o) < DefaultScore(c, d)
         || (DefaultScore(c, o) == DefaultScore(c, d) && !c.locale.collate(o.key, d.key))
  }

  /**
   * A handler is listed as the user's default exactly when a prevailing default names it, and it then is the first;
   * the other handlers are listed as the system's or as ranked.
   */
  lemma UserDefaultIff(c: Context, registry: seq<Entry>, defaults: seq<Default>, i: nat)
    requires Lawful(c.locale) && DistinctKeys(registry) && i < |ResolveContentHandlers(c, registry, defaults)|
    ensures var plans := ResolveContentHandlers(c, registry, defaults);
            && (plans[i].reason == UserDefault
                <==> exists d :: Prevails(c, defaults, plans, d) && d.key == plans[i].key)
            && (plans[i].reason == UserDefault ==> i == 0)
            && (plans[i].reason != UserDefault ==> plans[i].reason == if plans[i].system then SystemDefault else Ranked)
  {
    hide PreferredKey, Prevails, Lawful;
    var plans := ResolveContentHandlers(c, registry, defaults);
    PreferredPrevails(c, registry, defaults);
    if PreferredKey(c, registry, defaults).Some? {
      DefaultFirst(c, registry, defaults);
    }
    hide Ordered;
  }

  lemma PlansHaveKeys(c: Context, registry: seq<Entry>, defaults: seq<Default>, key: Text)
    requires DistinctKeys(registry)
    ensures HasKey(Matches(c, registry), key)
       <==> exists i :: 0 <= i < |ResolveContentHandlers(c, registry, defaults)|
                        && ResolveContentHandlers(c, registry, defaults)[i].key == key
  {
    hide Ordered, Matches, PreferredKey;
    OrderedPermutes(c, registry, defaults);
    var plans, ordered := ResolveContentHandlers(c, registry, defaults), Ordered(c, registry, defaults);
    if HasKey(ordered, key) {
      var i :| 0 <= i < |ordered| && ordered[i].key == key;
      assert plans[i].key == key;
    }
    if i :| 0 <= i < |plans| && plans[i].key == key {
      assert ordered[i].key == key;
    }
  }

  lemma CandidateIff(c: Context, registry: seq<Entry>, defaults: seq<Default>, p: Preferred)
    requires DistinctKeys(registry)
    ensures Candidate(c, registry, defaults, p)
       <==> exists d :: d in defaults && Names(c, ResolveContentHandlers(c, registry, defaults), d)
                        && p == Preferred(d.key, DefaultScore(c, d))
  {
    hide MatchSelector, CompactSelector, ResolveContentHandlers, Matches, HasKey;
    PlansHaveKeys(c, registry, defaults, p.key);
    SelectMembers(PreferredOf(c), defaults);
    if Candidate(c, registry, defaults, p) {
      var i :| 0 <= i < |defaults| && PreferredOf(c)(defaults[i]) == Some(p);
      assert defaults[i] in defaults && Names(c, ResolveContentHandlers(c, registry, defaults), defaults[i]);
    }
    if d :| d in defaults && Names(c, ResolveContentHandlers(c, registry, defaults), d)
            && p == Preferred(d.key, DefaultScore(c, d))
    {
      assert PreferredOf(c)(d) == Some(p);
      var i :| 0 <= i < |defaults| && defaults[i] == d;
    }
  }

  /** Some default is behind the candidate. */
  ghost predicate FromDefault(c: Context, defaults: seq<Default>, plans: seq<Plan>, p: Preferred) {
    exists d :: d in defaults && Names(c, plans, d) && p == Preferred(d.key, DefaultScore(c, d))
  }

  /** No candidate is better than this one. */
  ghost predicate Best(c: Context, defaults: seq<Default>, plans: seq<Plan>, p: Preferred) {
    && FromDefault(c, defaults, plans, p)
    && forall q | FromDefault(c, defaults, plans, q) :: !Better(c.locale)(q, p)
  }

  lemma PrevailingKey(c: Context, defaults: seq<Default>, plans: seq<Plan>, p: Preferred, d: Default)
    requires Lawful(c.locale) && Best(c, defaults, plans, p) && Prevails(c, defaults, plans, d)
    ensures d.key == p.key
  {
    hide Names, DefaultScore;
    assert FromDefault(c, defaults, plans, Preferred(d.key, DefaultScore(c, d)));
    var o :| o in defaults && Names(c, plans, o) && p == Preferred(o.key, DefaultScore(c, o));
  }

  lemma BestPrevails(c: Context, defaults: seq<Default>, plans: seq<Plan>, p: Preferred)
    requires Best(c, defaults, plans, p)
    ensures exists d :: Prevails(c, defaults, plans, d) && d.key == p.key
  {
    hide Names, DefaultScore;
    var d :| d in defaults && Names(c, plans, d) && p == Preferred(d.key, DefaultScore(c, d));
    forall o | o in defaults && Names(c, plans, o)
      ensures DefaultScore(c, o) < DefaultScore(c, d)
           || (DefaultScore(c, o) == DefaultScore(c, d) && !c.locale.collate(o.key, d.key))
    {
      assert FromDefault(c, defaults, plans, Preferred(o.key, DefaultScore(c, o)));
    }
    assert Prevails(c, defaults, plans, d);
  }

  lemma PreferredPrevails(c: Context, registry: seq<Entry>, defaults: seq<Default>)
    requires Lawful(c.locale) && DistinctKeys(registry)
    ensures forall key ::
              PreferredKey(c, registry, defaults) == Some(key)
              <==> exists d :: Prevails(c, defaults, ResolveContentHandlers(c, registry, defaults), d) && d.key == key
  {
    hide ResolveContentHandlers, PreferredKey, Candidate, Prevails, Names, DefaultScore, Better;
    var plans := ResolveContentHandlers(c, registry, defaults);
    PreferredIsBest(c, registry, defaults);
    forall p
      ensures Candidate(c, registry, defaults, p) <==> FromDefault(c, defaults, plans, p)
    {
      CandidateIff(c, registry, defaults, p);
    }
    var key := PreferredKey(c, registry, defaults);
    if key.None? {
      forall d
        ensures !Prevails(c, defaults, plans, d)
      {
        PrevailingFrom(c, defaults, plans, d);
      }
    } else {
      var p :| Candidate(c, registry, defaults, p) && p.key == key.value
        && forall q | Candidate(c, registry, defaults, q) :: !Better(c.locale)(q, p);
      assert Best(c, defaults, plans, p);
      BestPrevails(c, defaults, plans, p);
      forall d | Prevails(c, defaults, plans, d)
        ensures d.key == p.key
      {
        PrevailingKey(c, defaults, plans, p, d);
      }
    }
  }

  lemma PrevailingFrom(c: Context, defaults: seq<Default>, plans: seq<Plan>, d: Default)
    ensures Prevails(c, defaults, plans, d) ==> FromDefault(c, defaults, plans, Preferred(d.key, DefaultScore(c, d)))
  {
    hide Names, DefaultScore;
  }

  // ---- what a selector's texts say

  /** `x` is the media type without its parameters and without white space around it. */
  ghost predicate PlainOf(t: Text, x: Text) {
    exists a, rest ::
      && ';' as int !in a && UrlGrammar.TrimmedOf(a, x)
      && WithRest(t, a, rest)
  }

  predicate WithRest(t: Text, a: Text, rest: Text) { t == a || t == a + Lit(";") + rest }

  lemma FirstPartIs(t: Text, a: Text, rest: Text)
    requires ';' as int !in a && WithRest(t, a, rest)
    ensures FirstPart(t, SEMICOLON) == a
  {
    if t != a {
      IndexOfAt(a, SEMICOLON, rest);
      assert t == a + [SEMICOLON] + rest;
    }
  }

  lemma FirstPartOf(t: Text) returns (rest: Text)
    ensures ';' as int !in FirstPart(t, SEMICOLON) && WithRest(t, FirstPart(t, SEMICOLON), rest)
  {
    rest := [];
    var i := IndexOf(t, SEMICOLON);
    if i.Some? {
      rest := t[i.value + 1..];
      assert t == t[..i.value] + [SEMICOLON] + rest;
    }
  }

  /** What the content's media type and an exact pattern are compared by. */
  lemma PlainIff(l: Locale, d: Descriptor, v: Text, x: Text)
    ensures PlainMime(l, d) == x <==> PlainOf(l.lower(if d.mime.Some? then d.mime.value else []), x)
    ensures ExactMime(v, x) <==> PlainOf(v, x)
  {
    PartIff(l.lower(OrEmpty(d.mime)), x);
    PartIff(v, x);
  }

  lemma PartIff(t: Text, x: Text)
    ensures Trim(FirstPart(t, SEMICOLON)) == x <==> PlainOf(t, x)
  {
    hide Trim, UrlGrammar.TrimmedOf;
    var part := FirstPart(t, SEMICOLON);
    var rest := FirstPartOf(t);
    UrlGrammar.TrimIff(part, x);
    hide FirstPart, WithRest;
    if PlainOf(t, x) {
      var a, rest' :| ';' as int !in a && UrlGrammar.TrimmedOf(a, x) && WithRest(t, a, rest');
      FirstPartIs(t, a, rest');
    }
  }

  lemma Literals()
    ensures Lit("/*+") == SLASH_STAR_PLUS && Lit("/*") == SLASH_STAR
    ensures Lit("/") == [SLASH_UNIT] && Lit("+") == [PLUS_UNIT] && Lit(":") == [COLON]
  {}

  lemma IncludesMiddle(a: Text, m: Text, b: Text)
    ensures Includes(a + m + b, m)
  {
    assert (a + m + b)[|a|..] == m + b;
  }

  lemma SuffixFamily(family: Text, suffix: Text)
    requires SLASH_UNIT !in family
    ensures FirstPart(family + SLASH_STAR_PLUS + suffix, SLASH_UNIT) == family
  {
    var v, rest := family + SLASH_STAR_PLUS + suffix, STAR + [PLUS_UNIT] + suffix;
    assert v == family + [SLASH_UNIT] + rest;
    IndexOfAt(family, SLASH_UNIT, rest);
    assert v[..|family|] == family;
  }

  lemma SuffixPlus(family: Text, suffix: Text)
    requires PLUS_UNIT !in family
    ensures FromPlus(family + SLASH_STAR_PLUS + suffix) == [PLUS_UNIT] + suffix
  {
    var v := family + SLASH_STAR_PLUS + suffix;
    assert v == (family + SLASH_STAR) + [PLUS_UNIT] + suffix;
    IndexOfAt(family + SLASH_STAR, PLUS_UNIT, suffix);
    assert v[|family + SLASH_STAR|..] == [PLUS_UNIT] + suffix;
  }

  lemma SuffixForm(family: Text, suffix: Text, mime: Text)
    requires SLASH_UNIT !in family && PLUS_UNIT !in family
    ensures SuffixMime(family + SLASH_STAR_PLUS + suffix, mime)
       <==> StartsWith(mime, family + [SLASH_UNIT]) && EndsWith(mime, [PLUS_UNIT] + suffix)
  {
    hide Includes, EndsWith, StartsWith, FirstPart, FromPlus;
    IncludesMiddle(family, SLASH_STAR_PLUS, suffix);
    SuffixFamily(family, suffix);
    SuffixPlus(family, suffix);
  }

  lemma FamilyForm(family: Text, mime: Text)
    ensures FamilyMime(family + SLASH_STAR, mime) <==> StartsWith(mime, family + [SLASH_UNIT])
  {
    hide StartsWith;
    var w := family + SLASH_STAR;
    assert w[|w| - 2..] == SLASH_STAR && w[..|w| - 1] == family + [SLASH_UNIT];
  }

  /** The two wildcard forms: a family with a suffix, and a family. */
  lemma PatternForms(family: Text, suffix: Text, mime: Text)
    requires '/' as int !in family && '+' as int !in family
    ensures SuffixMime(family + Lit("/*+") + suffix, mime)
       <==> StartsWith(mime, family + Lit("/")) && EndsWith(mime, Lit("+") + suffix)
    ensures FamilyMime(family + Lit("/*"), mime) <==> StartsWith(mime, family + Lit("/"))
  {
    hide Lit, SuffixMime, FamilyMime, StartsWith, EndsWith;
    Literals();
    SuffixForm(family, suffix, mime);
    FamilyForm(family, mime);
  }

  ghost predicate HasMiddle(v: Text, middle: Text) { exists a, b :: v == a + middle + b }

  ghost predicate HasEnd(v: Text, end: Text) { exists a :: v == a + end }

  lemma SuffixNeeds(v: Text)
    requires Includes(v, SLASH_STAR_PLUS)
    ensures HasMiddle(v, SLASH_STAR_PLUS)
  {
    var i :| 0 <= i <= |v| && SLASH_STAR_PLUS <= v[i..];
    assert v == v[..i] + SLASH_STAR_PLUS + v[i + 3..];
  }

  lemma FamilyNeeds(v: Text)
    requires EndsWith(v, SLASH_STAR)
    ensures HasEnd(v, SLASH_STAR)
  {
    assert v == v[..|v| - 2] + SLASH_STAR;
  }

  /** No other text is a wildcard. */
  lemma PatternNeeds(v: Text, mime: Text)
    ensures SuffixMime(v, mime) ==> HasMiddle(v, Lit("/*+"))
    ensures FamilyMime(v, mime) ==> HasEnd(v, Lit("/*"))
  {
    hide Lit, Includes, EndsWith, StartsWith, HasMiddle, HasEnd;
    Literals();
    if SuffixMime(v, mime) {
      SuffixNeeds(v);
    }
    if FamilyMime(v, mime) {
      FamilyNeeds(v);
    }
  }

  /** A schema pattern with a star at its end takes every schema that starts so, any other just itself. */
  lemma SchemaForms(p: Text, schema: Option<Text>)
    ensures SchemaMatches(p + Lit("*"), schema) <==> schema.Some? && StartsWith(schema.value, p)
    ensures (p == [] || p[|p| - 1] != '*' as int) ==> (SchemaMatches(p, schema) <==> schema == Some(p))
  {
    var q := p + Lit("*");
    assert q[|q| - 1..] == STAR && q[..|q| - 1] == p;
    if EndsWith(p, STAR) {
      assert p[|p| - 1..][0] == STAR[0];
    }
  }

  // ---- the selector a default is written as

  /**
   * `part` is the key, a colon and the value; without a colon the key lacks the last character and the value is all.
   */
  predicate ReadsPart(part: Text, key: Text, value: Text) {
    if ':' as int in part then ':' as int !in key && part == key + Lit(":") + value
    else value == part && (if part == [] then key == [] else |key| == |part| - 1 && key <= part)
  }

  ghost predicate ReadsParts(parts: seq<Text>, keys: seq<Text>, values: seq<Text>) {
    && |parts| == |keys| == |values|
    && forall i | 0 <= i < |parts| :: ReadsPart(parts[i], keys[i], values[i])
  }

  /** The last of the parts with this key gives this value. */
  ghost predicate LastSays(keys: seq<Text>, values: seq<Text>, key: Text, value: Text)
    requires |keys| == |values|
  {
    exists i | 0 <= i < |keys| :: keys[i] == key && values[i] == value && key !in keys[i + 1..]
  }

  /** The condition is what the last part of this key states; an empty value states none. */
  ghost predicate Stated(keys: seq<Text>, values: seq<Text>, key: Text, field: Option<seq<Text>>)
    requires |keys| == |values|
  {
    match field
    case None => key !in keys || LastSays(keys, values, key, [])
    case Some(list) => |list| == 1 && list[0] != [] && LastSays(keys, values, key, list[0])
  }

  ghost predicate StatedExt(keys: seq<Text>, values: seq<Text>, field: Option<seq<Text>>)
    requires |keys| == |values|
  {
    match field
    case None => Lit("ext") !in keys
    case Some(list) => |list| == 1 && LastSays(keys, values, Lit("ext"), list[0])
  }

  ghost predicate AllStated(keys: seq<Text>, values: seq<Text>, s: Selector)
    requires |keys| == |values|
  {
    && Stated(keys, values, Lit("obj"), s.objType) && Stated(keys, values, Lit("mime"), s.mime)
    && Stated(keys, values, Lit("schema"), s.schema) && StatedExt(keys, values, s.ext)
  }

  predicate KnownKey(key: Text) { key == Lit("obj") || key == Lit("mime") || key == Lit("schema") || key == Lit("ext") }

  lemma PartReads(part: Text, key: Text, value: Text)
    requires ReadsPart(part, key, value)
    ensures match IndexOf(part, COLON)
            case Some(i) => part[..i] == key && part[i + 1..] == value
            case None => value == part && key == if part == [] then [] else part[..|part| - 1]
  {
    Literals();
    hide Lit;
    if ':' as int in part {
      IndexOfAt(key, COLON, value);
      assert part == key + [COLON] + value;
    }
  }

  /** The effect of the parts on one condition that held `before` them. */
  ghost predicate Updated(keys: seq<Text>, values: seq<Text>, key: Text, before: Option<seq<Text>>,
      after: Option<seq<Text>>)
    requires |keys| == |values|
  {
    if key in keys then Stated(keys, values, key, after) else after == before
  }

  ghost predicate UpdatedExt(keys: seq<Text>, values: seq<Text>, before: Option<seq<Text>>, after: Option<seq<Text>>)
    requires |keys| == |values|
  {
    if Lit("ext") in keys then
      after.Some? && |after.value| == 1 && LastSays(keys, values, Lit("ext"), after.value[0])
    else after == before
  }

  lemma LastSaysStep(keys: seq<Text>, values: seq<Text>, key: Text, value: Text)
    requires |keys| == |values| > 0
    ensures LastSays(keys, values, key, value)
       <==> if key in keys[1..] then LastSays(keys[1..], values[1..], key, value)
            else keys[0] == key && values[0] == value
  {
    var ks, vs := keys[1..], values[1..];
    assert forall i | 0 <= i < |ks| :: keys[i + 1] == ks[i] && values[i + 1] == vs[i] && keys[i + 2..] == ks[i + 1..];
    if i :| 0 <= i < |ks| && ks[i] == key && vs[i] == value && key !in ks[i + 1..] {
      assert keys[i + 1] == key;
    }
    if i :| 0 <= i < |keys| && keys[i] == key && values[i] == value && key !in keys[i + 1..] {
      if i > 0 {
        assert ks[i - 1] == key && key !in ks[i - 1 + 1..];
      }
    }
  }

  lemma UpdatedStep(keys: seq<Text>, values: seq<Text>, key: Text, b: Option<seq<Text>>, a: Option<seq<Text>>)
    requires |keys| == |values| > 0
    requires Updated(keys[1..], values[1..], key, if keys[0] == key then Single(values[0]) else b, a)
    ensures Updated(keys, values, key, b, a)
  {
    LastSaysStep(keys, values, key, []);
    if a.Some? && |a.value| == 1 {
      LastSaysStep(keys, values, key, a.value[0]);
    }
    assert keys == [keys[0]] + keys[1..];
    hide LastSays;
  }

  lemma UpdatedExtStep(keys: seq<Text>, values: seq<Text>, b: Option<seq<Text>>, a: Option<seq<Text>>)
    requires |keys| == |values| > 0
    requires UpdatedExt(keys[1..], values[1..], if keys[0] == Lit("ext") then Some([values[0]]) else b, a)
    ensures UpdatedExt(keys, values, b, a)
  {
    if a.Some? && |a.value| == 1 {
      LastSaysStep(keys, values, Lit("ext"), a.value[0]);
    }
    assert keys == [keys[0]] + keys[1..];
    hide LastSays;
  }

  lemma KeysDiffer()
    ensures Lit("obj") != Lit("mime") && Lit("obj") != Lit("schema") && Lit("obj") != Lit("ext")
    ensures Lit("mime") != Lit("schema") && Lit("mime") != Lit("ext") && Lit("schema") != Lit("ext")
  {
    assert Lit("obj")[0] != Lit("ext")[0];
  }

  /** Each condition is what the last part of its key states, and stays where no part has the key. */
  ghost predicate Says(keys: seq<Text>, values: seq<Text>, out: Selector, r: Selector)
    requires |keys| == |values|
  {
    && Updated(keys, values, Lit("obj"), out.objType, r.objType)
    && Updated(keys, values, Lit("mime"), out.mime, r.mime)
    && Updated(keys, values, Lit("schema"), out.schema, r.schema)
    && UpdatedExt(keys, values, out.ext, r.ext) && r.maxSize == out.maxSize
  }

  predicate AllKnown(keys: seq<Text>) { forall i | 0 <= i < |keys| :: KnownKey(keys[i]) }

  function Taken(key: Text, value: Text, out: Selector): Selector {
    if key == OBJ_KEY then out.(objType := Single(value))
    else if key == MIME_KEY then out.(mime := Single(value))
    else if key == SCHEMA_KEY then out.(schema := Single(value))
    else if key == EXT_KEY then out.(ext := Some([value]))
    else EMPTY_SELECTOR
  }

  lemma SaysStep(keys: seq<Text>, values: seq<Text>, out: Selector, r: Selector)
    requires |keys| == |values| > 0 && KnownKey(keys[0])
    requires Says(keys[1..], values[1..], Taken(keys[0], values[0], out), r)
    ensures Says(keys, values, out, r)
  {
    KeysDiffer();
    hide Lit, Updated, UpdatedExt, Single;
    UpdatedStep(keys, values, Lit("obj"), out.objType, r.objType);
    UpdatedStep(keys, values, Lit("mime"), out.mime, r.mime);
    UpdatedStep(keys, values, Lit("schema"), out.schema, r.schema);
    UpdatedExtStep(keys, values, out.ext, r.ext);
  }

  lemma {:induction false} PartsRead(parts: seq<Text>, keys: seq<Text>, values: seq<Text>, out: Selector)
    requires ReadsParts(parts, keys, values)
    ensures if AllKnown(keys) then Says(keys, values, out, CompactParts(parts, out))
            else CompactParts(parts, out) == EMPTY_SELECTOR
  {
    if parts != [] {
      PartReads(parts[0], keys[0], values[0]);
      PartsStep(parts, keys[0], values[0], out);
      assert keys == [keys[0]] + keys[1..];
      PartsRead(parts[1..], keys[1..], values[1..], Taken(keys[0], values[0], out));
      hide CompactParts, Says, Taken, KnownKey, ReadsPart;
      if AllKnown(keys) {
        SaysStep(keys, values, out, CompactParts(parts, out));
      }
    }
  }

  /**
   * The selector a default is written as, `obj:…;mime:…;schema:…;ext:…`: every condition is the value of the last part
   * with its key, an empty value states none but for the extension; a part with any other key leaves no condition.
   */
  lemma CompactIs(parts: seq<Text>, keys: seq<Text>, values: seq<Text>)
    requires parts != [] && ReadsParts(parts, keys, values)
    requires forall i | 0 <= i < |parts| :: ';' as int !in parts[i]
    ensures var s := CompactSelector(Join(parts, ';' as int));
            && s.maxSize == None
            && if AllKnown(keys) then AllStated(keys, values, s)
               else s.objType == None && s.mime == None && s.schema == None && s.ext == None
  {
    SplitJoin(parts, SEMICOLON);
    PartsRead(parts, keys, values, EMPTY_SELECTOR);
    hide Lit, Split, Join, LastSays, ReadsParts, CompactParts, KnownKey;
  }

  lemma PartsStep(parts: seq<Text>, key: Text, value: Text, out: Selector)
    requires parts != []
    requires match IndexOf(parts[0], COLON)
             case Some(i) => parts[0][..i] == key && parts[0][i + 1..] == value
             case None => value == parts[0] && key == if parts[0] == [] then [] else parts[0][..|parts[0]| - 1]
    ensures CompactParts(parts, out)
         == if KnownKey(key) then CompactParts(parts[1..], Taken(key, value, out)) else EMPTY_SELECTOR
  {
    hide Lit, Single;
  }
}
