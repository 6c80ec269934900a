/** Queries of object URLs: `parseQuery` and the query `formatObjectUrl` writes (src/object_url.ts). */
module UrlQuery {
  import opened Wrappers
  import opened JsText
  import opened Utf8
  import opened PercentCodec
  import opened CanonicalJson
  import opened UrlPath

  const AMPERSAND: Unit := 0x26
  const EQUALS: Unit := 0x3D
  const PLUS: Unit := 0x2B
  const SELECTOR_KEY: Text := Lit("selector")

  datatype QueryError = BadComponent | BadSelector | RepeatedKey

  type QueryMap = map<Text, Text>

  // ---- parsing

  function PlusToSpace(t: Text): (r: Text)
    ensures PLUS !in t ==> r == t
  {
    seq(|t|, i requires 0 <= i < |t| => if t[i] == PLUS then 0x20 else t[i])
  }

  /** A selector is stored in canonical form. */
  function StoredValue(num: NumberRule, key: Text, value: Text): Result<Text, QueryError> {
    if key == SELECTOR_KEY then
      match JsonParse(num, value)
      case None => Err(BadSelector)
      case Some(j) => Ok(CanonicalText(j))
    else Ok(value)
  }

  function ParsePair(num: NumberRule, pair: Text): Result<(Text, Text), QueryError> {
    var eq := IndexOf(pair, EQUALS);
    match Decoded(PlusToSpace(if eq.None? then pair else pair[..eq.value]))
    case None => Err(BadComponent)
    case Some(key) =>
      match Decoded(PlusToSpace(if eq.None? then [] else pair[eq.value + 1..]))
      case None => Err(BadComponent)
      case Some(value) =>
        var stored :- StoredValue(num, key, value);
        Ok((key, stored))
  }

  function ParsePairs(num: NumberRule, pairs: seq<Text>, acc: QueryMap): Result<QueryMap, QueryError> {
    if pairs == [] then Ok(acc)
    else if pairs[0] == [] then ParsePairs(num, pairs[1..], acc)
    else
      var (key, value) :- ParsePair(num, pairs[0]);
      if key in acc then Err(RepeatedKey) else ParsePairs(num, pairs[1..], acc[key := value])
  }

  function ParsedQuery(num: NumberRule, query: Text): Result<QueryMap, QueryError> {
    ParsePairs(num, Split(query, AMPERSAND), map[])
  }

  method ParseQuery(num: NumberRule, query: Text) returns (r: Result<QueryMap, QueryError>)
    ensures r == ParsedQuery(num, query)
  {
    var out: QueryMap := map[];
    var pairs := Split(query, AMPERSAND);
    assert pairs[0..] == pairs;
    for i := 0 to |pairs|
      invariant ParsePairs(num, pairs, map[]) == ParsePairs(num, pairs[i..], out)
    {
      assert pairs[i..][0] == pairs[i] && pairs[i..][1..] == pairs[i + 1..];
      if pairs[i] == [] {
        continue;
      }
      var kv := ParsePair(num, pairs[i]);
      if kv.Err? {
        return Err(kv.error);
      }
      var (key, value) := kv.value;
      if key in out {
        return Err(RepeatedKey);
      }
      out := out[key := value];
    }
    return Ok(out);
  }

  // ---- printing

  function PairText(key: Text, value: Text): Text { Encoded(Query, key) + [EQUALS] + Encoded(Query, value) }

  function PairTexts(m: QueryMap, keys: seq<Text>): (r: seq<Text>)
    requires forall k | k in keys :: k in m
    ensures |r| == |keys|
  {
    if keys == [] then [] else [PairText(keys[0], m[keys[0]])] + PairTexts(m, keys[1..])
  }

  function QueryText(m: QueryMap): Text {
    SortedKeysFacts(m.Keys);
    Join(PairTexts(m, SortedKeys(m.Keys)), AMPERSAND)
  }

  // ---- what the parser returns

  ghost predicate IsCanonicalValue(num: NumberRule, value: Text) {
    exists j :: Valid(num, j) && value == CanonicalText(j)
  }

  ghost predicate GoodEntry(num: NumberRule, key: Text, value: Text) {
    && WellFormed(key) && WellFormed(value)
    && (key == SELECTOR_KEY ==> IsCanonicalValue(num, value))
  }

  ghost predicate GoodQuery(num: NumberRule, m: QueryMap) {
    forall k | k in m :: GoodEntry(num, k, m[k])
  }

  lemma {:induction false} ParsePairsGood(num: NumberRule, pairs: seq<Text>, acc: QueryMap)
    requires Lawful(num) && GoodQuery(num, acc) && ParsePairs(num, pairs, acc).Ok?
    ensures GoodQuery(num, ParsePairs(num, pairs, acc).value)
  {
    if pairs == [] {
    } else if pairs[0] == [] {
      ParsePairsGood(num, pairs[1..], acc);
    } else {
      var (key, value) := ParsePair(num, pairs[0]).value;
      ParsePairGood(num, pairs[0]);
      ParsePairsGood(num, pairs[1..], acc[key := value]);
    }
  }

  lemma StoredGood(num: NumberRule, key: Text, value: Text)
    requires Lawful(num) && WellFormed(key) && WellFormed(value) && StoredValue(num, key, value).Ok?
    ensures GoodEntry(num, key, StoredValue(num, key, value).value)
  {
    hide WellFormed, CanonicalText;
    if key == SELECTOR_KEY {
      ParsedValid(num, value);
      CanonicalTextWellFormed(num, JsonParse(num, value).value);
    }
  }

  lemma ParsePairGood(num: NumberRule, pair: Text)
    requires Lawful(num) && ParsePair(num, pair).Ok?
    ensures var (key, value) := ParsePair(num, pair).value; GoodEntry(num, key, value)
  {
    hide WellFormed, Decoded, StoredValue, GoodEntry, IndexOf, PlusToSpace;
    var eq := IndexOf(pair, EQUALS);
    var rawKey := PlusToSpace(if eq.None? then pair else pair[..eq.value]);
    var rawValue := PlusToSpace(if eq.None? then [] else pair[eq.value + 1..]);
    DecodedWellFormedText(rawKey);
    DecodedWellFormedText(rawValue);
    StoredGood(num, Decoded(rawKey).value, Decoded(rawValue).value);
  }

  // ---- canonical texts are well-formed and do not begin with U+FEFF

  lemma CanonicalTextWellFormed(num: NumberRule, v: Json)
    requires Lawful(num) && Valid(num, v)
    ensures WellFormed(CanonicalText(v)) && !StartsWithBom(CanonicalText(v))
  {
    CanonicalPoints(num, v);
    PointsWellFormed(CanonicalText(v));
    CanonicalStart(num, v);
  }

  lemma CanonicalStart(num: NumberRule, v: Json)
    requires Lawful(num) && Valid(num, v)
    ensures !StartsWithBom(CanonicalText(v))
  {
    if v.Num? && v.n.Finite? {
      assert num(v.n.text).Some?;
    }
  }

  /** A text in which every surrogate is one half of a pair. */
  predicate Paired(t: Text) {
    if t == [] then true
    else if IsHigh(t[0]) then |t| > 1 && IsLow(t[1]) && Paired(t[2..])
    else !IsLow(t[0]) && Paired(t[1..])
  }

  lemma {:induction false} PointsWellFormed(t: Text)
    requires Paired(t)
    ensures WellFormed(t)
  {
    if t == [] {
    } else if IsHigh(t[0]) {
      PointsWellFormed(t[2..]);
      assert CodePoints(t)[1..] == CodePoints(t[2..]);
    } else {
      PointsWellFormed(t[1..]);
      assert CodePoints(t)[1..] == CodePoints(t[1..]);
    }
  }

  lemma {:induction false} PairedConcat(a: Text, b: Text)
    requires Paired(a) && Paired(b)
    ensures Paired(a + b)
  {
    if a == [] {
      assert a + b == b;
    } else if IsHigh(a[0]) {
      PairedConcat(a[2..], b);
      assert (a + b)[2..] == a[2..] + b;
    } else {
      PairedConcat(a[1..], b);
      assert (a + b)[1..] == a[1..] + b;
    }
  }

  lemma {:induction false} AsciiPaired(t: Text)
    requires IsAscii(t)
    ensures Paired(t)
  {
    if t != [] { AsciiPaired(t[1..]); }
  }

  lemma {:induction false} QuotePaired(s: Text)
    ensures Paired(QuoteUnits(s))
    decreases |s|
  {
    if s == [] {
    } else if IsHigh(s[0]) && |s| > 1 && IsLow(s[1]) {
      QuotePaired(s[2..]);
      PairedConcat([s[0], s[1]], QuoteUnits(s[2..]));
    } else {
      QuotePaired(s[1..]);
      var q := QuoteUnit(s[0]);
      if q[0] == BACKSLASH { AsciiPaired(q); } else { assert q[1..] == []; }
      PairedConcat(q, QuoteUnits(s[1..]));
    }
  }

  lemma QuotedPaired(s: Text)
    ensures Paired(Quote(s))
  {
    QuotePaired(s);
    AsciiPaired([QUOTATION]);
    PairedConcat([QUOTATION], QuoteUnits(s));
    PairedConcat([QUOTATION] + QuoteUnits(s), [QUOTATION]);
  }

  lemma BracketPaired(open: Unit, body: Text, close: Unit)
    requires open < 0x80 && close < 0x80 && Paired(body)
    ensures Paired([open] + body + [close])
  {
    AsciiPaired([open]);
    AsciiPaired([close]);
    PairedConcat([open], body);
    PairedConcat([open] + body, [close]);
  }

  lemma JoinedPaired(a: Text, c: Unit, b: Text)
    requires c < 0x80 && Paired(a) && Paired(b)
    ensures Paired(a + [c] + b)
  {
    AsciiPaired([c]);
    PairedConcat(a, [c]);
    PairedConcat(a + [c], b);
  }

  lemma {:induction false} CanonicalPoints(num: NumberRule, v: Json)
    requires Lawful(num) && Valid(num, v)
    ensures Paired(CanonicalText(v))
    decreases v, 1
  {
    match v {
      case Null => AsciiPaired(CanonicalText(v));
      case Bool(_) => AsciiPaired(CanonicalText(v));
      case Num(Infinite) => AsciiPaired(CanonicalText(v));
      case Num(Finite(t)) =>
        assert num(t).Some?;
        AsciiPaired(t);
      case Str(s) => QuotedPaired(s);
      case Arr(items) =>
        ItemsPaired(num, items);
        BracketPaired(OPEN_BRACKET, PrintItems(items), CLOSE_BRACKET);
      case Obj(m) =>
        SortedKeysFacts(m.Keys);
        MembersPaired(num, v, SortedKeys(m.Keys));
        BracketPaired(OPEN_BRACE, PrintMembers(v, SortedKeys(m.Keys)), CLOSE_BRACE);
    }
  }

  lemma {:induction false} ItemsPaired(num: NumberRule, items: seq<Json>)
    requires Lawful(num) && forall i | 0 <= i < |items| :: Valid(num, items[i])
    ensures Paired(PrintItems(items))
    decreases items, 0
  {
    if items != [] {
      CanonicalPoints(num, items[0]);
      if |items| > 1 {
        ItemsPaired(num, items[1..]);
        JoinedPaired(CanonicalText(items[0]), COMMA, PrintItems(items[1..]));
      }
    }
  }

  lemma {:induction false} MembersPaired(num: NumberRule, v: Json, keys: seq<Text>)
    requires Lawful(num) && Valid(num, v) && v.Obj? && forall k | k in keys :: k in v.members
    ensures Paired(PrintMembers(v, keys))
    decreases v, 0, |keys|
  {
    if keys != [] {
      var k := keys[0];
      QuotedPaired(k);
      CanonicalPoints(num, v.members[k]);
      JoinedPaired(Quote(k), COLON, CanonicalText(v.members[k]));
      if |keys| > 1 {
        MembersPaired(num, v, keys[1..]);
        JoinedPaired(PrintMember(v, k), COMMA, PrintMembers(v, keys[1..]));
      }
    }
  }

  // ---- reading a printed query back

  lemma EncodedQueryUnits(t: Text)
    ensures EQUALS !in Encoded(Query, t) && PLUS !in Encoded(Query, t) && AMPERSAND !in Encoded(Query, t)
  {
    EncodedIsAscii(Query, t);
    assert !Keep(Query, EQUALS) && !Keep(Query, PLUS) && !Keep(Query, AMPERSAND);
  }

  lemma PairSplits(k: Text, v: Text)
    requires EQUALS !in k
    ensures IndexOf(k + [EQUALS] + v, EQUALS) == Some(|k|)
    ensures (k + [EQUALS] + v)[..|k|] == k && (k + [EQUALS] + v)[|k| + 1..] == v
  {
    IndexOfAt(k, EQUALS, v);
  }

  lemma PairReadsBack(num: NumberRule, key: Text, value: Text)
    requires WellFormed(key) && WellFormed(value)
    ensures PairText(key, value) != [] && AMPERSAND !in PairText(key, value)
    ensures var stored := StoredValue(num, DropBom(key), DropBom(value));
            ParsePair(num, PairText(key, value)) ==
            if stored.Ok? then Ok((DropBom(key), stored.value)) else Err(stored.error)
  {
    EncodedQueryUnits(key);
    EncodedQueryUnits(value);
    PairSplits(Encoded(Query, key), Encoded(Query, value));
    DecodedEncoded(Query, key);
    DecodedEncoded(Query, value);
  }

  /** No key and no value begins with U+FEFF. */
  predicate QueryBomFree(m: QueryMap) { forall k | k in m :: !StartsWithBom(k) && !StartsWithBom(m[k]) }

  lemma SelectorReadsBack(num: NumberRule, key: Text, value: Text)
    requires Lawful(num) && GoodEntry(num, key, value) && !StartsWithBom(key)
    ensures !StartsWithBom(value) ==> StoredValue(num, key, value) == Ok(value)
    ensures key == SELECTOR_KEY ==> !StartsWithBom(value)
  {
    if key == SELECTOR_KEY {
      var j :| Valid(num, j) && value == CanonicalText(j);
      CanonicalReadsBack(num, j);
      PrintNorm(j);
      CanonicalTextWellFormed(num, j);
    }
  }

  /** The entries of `m` that `keys` names. */
  function Only(m: QueryMap, keys: seq<Text>): QueryMap
    requires forall k | k in keys :: k in m
  {
    map k | k in keys :: m[k]
  }

  lemma MergeFirst(m: QueryMap, keys: seq<Text>, acc: QueryMap)
    requires keys != [] && forall k | k in keys :: k in m
    ensures acc[keys[0] := m[keys[0]]] + Only(m, keys[1..]) == acc + Only(m, keys)
  {
    assert forall k :: k in keys <==> k == keys[0] || k in keys[1..];
  }

  lemma PairStep(num: NumberRule, m: QueryMap, keys: seq<Text>, acc: QueryMap)
    requires Lawful(num) && GoodQuery(num, m) && QueryBomFree(m)
    requires keys != [] && keys[0] !in acc && forall k | k in keys :: k in m
    ensures ParsePairs(num, PairTexts(m, keys), acc)
              == ParsePairs(num, PairTexts(m, keys[1..]), acc[keys[0] := m[keys[0]]])
  {
    var k := keys[0];
    assert GoodEntry(num, k, m[k]);
    PairReadsBack(num, k, m[k]);
    SelectorReadsBack(num, k, m[k]);
    assert PairTexts(m, keys)[0] == PairText(k, m[k]);
    assert PairTexts(m, keys)[1..] == PairTexts(m, keys[1..]);
  }

  lemma RestFresh(m: QueryMap, keys: seq<Text>, acc: QueryMap)
    requires keys != [] && (forall k | k in keys :: k in m && k !in acc)
    requires forall i, j | 0 <= i < j < |keys| :: keys[i] != keys[j]
    ensures forall k | k in keys[1..] :: k in m && k !in acc[keys[0] := m[keys[0]]]
    ensures forall i, j | 0 <= i < j < |keys[1..]| :: keys[1..][i] != keys[1..][j]
  {}

  lemma {:induction false} PairsReadBack(num: NumberRule, m: QueryMap, keys: seq<Text>, acc: QueryMap)
    requires Lawful(num) && GoodQuery(num, m) && QueryBomFree(m)
    requires forall k | k in keys :: k in m && k !in acc
    requires forall i, j | 0 <= i < j < |keys| :: keys[i] != keys[j]
    ensures ParsePairs(num, PairTexts(m, keys), acc) == Ok(acc + Only(m, keys))
  {
    if keys == [] {
      assert acc + Only(m, keys) == acc;
    } else {
      assert keys[0] !in keys[1..];
      hide ParsePairs, PairTexts, GoodQuery, QueryBomFree, Only, Lawful;
      PairStep(num, m, keys, acc);
      RestFresh(m, keys, acc);
      PairsReadBack(num, m, keys[1..], acc[keys[0] := m[keys[0]]]);
      MergeFirst(m, keys, acc);
    }
  }

  /** Where every key read comes from, and what it is given when no key begins with U+FEFF. */
  lemma {:induction false} PairsRead(num: NumberRule, m: QueryMap, keys: seq<Text>, acc: QueryMap)
    requires GoodQuery(num, m) && forall k | k in keys :: k in m
    requires ParsePairs(num, PairTexts(m, keys), acc).Ok?
    ensures var r := ParsePairs(num, PairTexts(m, keys), acc).value;
            && (forall x | x in r :: x in acc || exists k :: k in keys && x == DropBom(k))
            && (forall x | x in acc :: x in r && r[x] == acc[x])
            && (forall k | k in keys && !StartsWithBom(k) && k != SELECTOR_KEY :: k in r && r[k] == DropBom(m[k]))
  {
    hide PairText, WellFormed, ParsePair, StartsWithBom;
    if keys != [] {
      var k := keys[0];
      assert GoodEntry(num, k, m[k]);
      PairReadsBack(num, k, m[k]);
      assert PairTexts(m, keys)[1..] == PairTexts(m, keys[1..]);
      var (key, value) := ParsePair(num, PairText(k, m[k])).value;
      PairsRead(num, m, keys[1..], acc[key := value]);
      var r := ParsePairs(num, PairTexts(m, keys), acc).value;
      forall x | x in r
        ensures x in acc || exists k :: k in keys && x == DropBom(k)
      {
        if x !in acc && x != DropBom(k) {
          var k' :| k' in keys[1..] && x == DropBom(k');
          assert k' in keys;
        }
      }
    }
  }

  lemma QueryTextSplits(num: NumberRule, m: QueryMap)
    requires GoodQuery(num, m) && m != map[]
    ensures forall k | k in SortedKeys(m.Keys) :: k in m
    ensures Split(QueryText(m), AMPERSAND) == PairTexts(m, SortedKeys(m.Keys))
  {
    var keys := SortedKeys(m.Keys);
    SortedKeysFacts(m.Keys);
    PairTextsClean(num, m, keys);
    assert m.Keys != {};
    SplitJoin(PairTexts(m, keys), AMPERSAND);
  }

  lemma {:induction false} PairTextsClean(num: NumberRule, m: QueryMap, keys: seq<Text>)
    requires GoodQuery(num, m) && forall k | k in keys :: k in m
    ensures forall i | 0 <= i < |keys| :: AMPERSAND !in PairTexts(m, keys)[i] && PairTexts(m, keys)[i] != []
  {
    hide WellFormed, PairText;
    if keys != [] {
      assert GoodEntry(num, keys[0], m[keys[0]]);
      PairReadsBack(num, keys[0], m[keys[0]]);
      PairTextsClean(num, m, keys[1..]);
    }
  }

  // ---- different queries are printed differently

  lemma PairTextInjective(k: Text, v: Text, k': Text, v': Text)
    requires WellFormed(k) && WellFormed(v) && WellFormed(k') && WellFormed(v')
    requires PairText(k, v) == PairText(k', v')
    ensures k == k' && v == v'
  {
    hide WellFormed, Encoded;
    EncodedQueryUnits(k);
    EncodedQueryUnits(k');
    PairSplits(Encoded(Query, k), Encoded(Query, v));
    PairSplits(Encoded(Query, k'), Encoded(Query, v'));
    EncodedInjective(Query, k, k');
    EncodedInjective(Query, v, v');
  }

  lemma {:induction false} PairTextsInjective(num: NumberRule, m: QueryMap, keys: seq<Text>, w: QueryMap,
      others: seq<Text>)
    requires GoodQuery(num, m) && GoodQuery(num, w)
    requires (forall k | k in keys :: k in m) && (forall k | k in others :: k in w)
    requires PairTexts(m, keys) == PairTexts(w, others)
    ensures keys == others && forall k | k in keys :: m[k] == w[k]
  {
    hide PairText, WellFormed;
    if keys != [] {
      var k, o := keys[0], others[0];
      assert GoodEntry(num, k, m[k]) && GoodEntry(num, o, w[o]);
      assert PairTexts(m, keys)[0] == PairText(k, m[k]) && PairTexts(w, others)[0] == PairText(o, w[o]);
      PairTextInjective(k, m[k], o, w[o]);
      assert PairTexts(m, keys)[1..] == PairTexts(m, keys[1..])
          && PairTexts(w, others)[1..] == PairTexts(w, others[1..]);
      PairTextsInjective(num, m, keys[1..], w, others[1..]);
    }
  }

  /** Different non-empty queries are printed differently. */
  lemma QueryTextInjective(num: NumberRule, m: QueryMap, w: QueryMap)
    requires GoodQuery(num, m) && GoodQuery(num, w) && m != map[] && w != map[]
    requires QueryText(m) == QueryText(w)
    ensures m == w
  {
    hide GoodQuery, QueryText, Split, PairTexts, SortedKeys;
    SortedKeysFacts(m.Keys);
    SortedKeysFacts(w.Keys);
    QueryTextSplits(num, m);
    QueryTextSplits(num, w);
    PairTextsInjective(num, m, SortedKeys(m.Keys), w, SortedKeys(w.Keys));
    assert m.Keys == w.Keys;
  }

  // ---- the exact condition

  function BomCount(t: Text): nat { if StartsWithBom(t) then 1 + BomCount(t[1..]) else 0 }

  predicate IsBoldest(k: Text, s: set<Text>) { k in s && forall x | x in s :: BomCount(x) <= BomCount(k) }

  lemma {:induction false} HasBoldest(s: set<Text>)
    requires s != {}
    ensures exists k :: IsBoldest(k, s)
    decreases |s|
  {
    var x :| x in s;
    if s - {x} == {} {
      assert s == {x};
      assert IsBoldest(x, s);
    } else {
      HasBoldest(s - {x});
      var m :| IsBoldest(m, s - {x});
      var k := if BomCount(x) > BomCount(m) then x else m;
      assert forall y | y in s :: y == x || y in s - {x};
      assert IsBoldest(k, s);
    }
  }

  lemma PrintedQueryParses(num: NumberRule, m: QueryMap)
    requires GoodQuery(num, m) && m != map[]
    ensures forall k | k in SortedKeys(m.Keys) :: k in m
    ensures ParsedQuery(num, QueryText(m)) == ParsePairs(num, PairTexts(m, SortedKeys(m.Keys)), map[])
  {
    QueryTextSplits(num, m);
  }

  lemma AllKeys(m: QueryMap, keys: seq<Text>)
    requires forall k :: k in keys <==> k in m
    ensures map[] + Only(m, keys) == m
  {}

  /** A returned query reads back as itself exactly when no key and no value begins with U+FEFF. */
  lemma QueryFixpoint(num: NumberRule, m: QueryMap)
    requires Lawful(num) && GoodQuery(num, m) && m != map[]
    ensures ParsedQuery(num, QueryText(m)) == Ok(m) <==> QueryBomFree(m)
  {
    var keys := SortedKeys(m.Keys);
    SortedKeysFacts(m.Keys);
    PrintedQueryParses(num, m);
    if QueryBomFree(m) {
      PairsReadBack(num, m, keys, map[]);
      AllKeys(m, keys);
    } else if ParsePairs(num, PairTexts(m, keys), map[]) == Ok(m) {
      ReadBackBomFree(num, m, keys);
    }
  }

  lemma ReadBackBomFree(num: NumberRule, m: QueryMap, keys: seq<Text>)
    requires Lawful(num) && GoodQuery(num, m) && forall k :: k in keys <==> k in m
    requires ParsePairs(num, PairTexts(m, keys), map[]) == Ok(m)
    ensures QueryBomFree(m)
  {
    PairsRead(num, m, keys, map[]);
    NoBomKey(m, keys);
    forall k | k in m
      ensures !StartsWithBom(m[k])
    {
      assert GoodEntry(num, k, m[k]);
      SelectorReadsBack(num, k, m[k]);
      if k != SELECTOR_KEY {
        assert m[k] == DropBom(m[k]);
      }
    }
  }

  /** If dropping one U+FEFF from every key yields every key, none had one. */
  lemma NoBomKey(m: QueryMap, keys: seq<Text>)
    requires forall k :: k in keys <==> k in m
    requires forall x | x in m :: exists k :: k in keys && x == DropBom(k)
    ensures forall k | k in m :: !StartsWithBom(k)
  {
    if m.Keys != {} {
      HasBoldest(m.Keys);
      var b :| IsBoldest(b, m.Keys);
      var k :| k in keys && b == DropBom(k);
      assert k in m.Keys;
      assert BomCount(b) == 0;
      forall x | x in m
        ensures !StartsWithBom(x)
      {
        assert x in m.Keys;
      }
    }
  }

  lemma {:induction false} PairTextsUnits(m: QueryMap, keys: seq<Text>)
    requires forall k | k in keys :: k in m
    ensures forall u | u in Join(PairTexts(m, keys), AMPERSAND) ::
              u == AMPERSAND || u == EQUALS || u == PERCENT || Keep(Query, u)
    ensures keys != [] ==> Join(PairTexts(m, keys), AMPERSAND) != []
  {
    if keys != [] {
      EncodedIsAscii(Query, keys[0]);
      EncodedIsAscii(Query, m[keys[0]]);
      PairTextsUnits(m, keys[1..]);
      assert PairTexts(m, keys)[1..] == PairTexts(m, keys[1..]);
    }
  }
}
