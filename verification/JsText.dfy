/** JavaScript strings: sequences of UTF-16 code units, and the few string operations the sources use. */
module JsText {
  import opened Wrappers
  import opened Sorting

  type Unit = x: int | 0 <= x < 0x10000
  type Text = seq<Unit>
  type Byte = x: int | 0 <= x < 0x100
  type Bytes = seq<Byte>

  predicate IsAscii(t: Text) { forall i | 0 <= i < |t| :: t[i] < 0x80 }

  /** A literal of the source, as code units. */
  function Lit(s: string): (t: Text)
    requires forall i | 0 <= i < |s| :: s[i] < 128 as char
    ensures |t| == |s| && IsAscii(t)
  {
    seq(|s|, i requires 0 <= i < |s| => s[i] as int)
  }

  predicate StartsWith(t: Text, p: Text) { p <= t }

  predicate EndsWith(t: Text, p: Text) { |p| <= |t| && t[|t| - |p|..] == p }

  /** What `\s` and `trim` take for white space. */
  predicate IsSpace(u: int) {
    0x09 <= u <= 0x0D || u in {0x20, 0xA0, 0x1680, 0x2028, 0x2029, 0x202F, 0x205F, 0x3000, 0xFEFF}
        || 0x2000 <= u <= 0x200A
  }

  function TrimStart(t: Text): Text { if t != [] && IsSpace(t[0]) then TrimStart(t[1..]) else t }

  function TrimEnd(t: Text): Text { if t != [] && IsSpace(t[|t| - 1]) then TrimEnd(t[..|t| - 1]) else t }

  function Trim(t: Text): Text { TrimEnd(TrimStart(t)) }

  predicate IsLower(u: int) { 0x61 <= u <= 0x7A }
  predicate IsUpper(u: int) { 0x41 <= u <= 0x5A }
  predicate IsDigit(u: int) { 0x30 <= u <= 0x39 }
  predicate IsAlnum(u: int) { IsLower(u) || IsUpper(u) || IsDigit(u) }

  // ---- indexOf, split, join

  /** `t.indexOf(c)`, as an option. */
  function IndexOf(t: Text, c: Unit): (r: Option<nat>)
    ensures r.Some? ==> r.value < |t| && t[r.value] == c && c !in t[..r.value]
    ensures r.None? <==> c !in t
  {
    if t == [] then None
    else if t[0] == c then Some(0)
    else
      match IndexOf(t[1..], c)
      case None => None
      case Some(i) =>
        assert t[..i + 1] == [t[0]] + t[1..][..i];
        Some(i + 1)
  }

  lemma IndexOfAt(a: Text, c: Unit, b: Text)
    requires c !in a
    ensures IndexOf(a + [c] + b, c) == Some(|a|)
  {
    var t := a + [c] + b;
    assert t[|a|] == c;
    assert forall k | 0 <= k < |a| :: t[k] == a[k];
    assert forall k | |a| < k <= |t| :: t[..k][|a|] == c;
  }

  /** `t.split(sep)` for a one-unit separator. */
  function Split(t: Text, sep: Unit): (parts: seq<Text>)
    ensures |parts| >= 1
    ensures forall i | 0 <= i < |parts| :: sep !in parts[i]
    decreases |t|
  {
    match IndexOf(t, sep)
    case None => [t]
    case Some(i) => [t[..i]] + Split(t[i + 1..], sep)
  }

  /** `parts.join(sep)` for a one-unit separator. */
  function Join(parts: seq<Text>, sep: Unit): Text {
    if parts == [] then []
    else if |parts| == 1 then parts[0]
    else parts[0] + [sep] + Join(parts[1..], sep)
  }

  lemma {:induction false} JoinSplit(t: Text, sep: Unit)
    ensures Join(Split(t, sep), sep) == t
    decreases |t|
  {
    match IndexOf(t, sep)
    case None =>
    case Some(i) =>
      JoinSplit(t[i + 1..], sep);
      assert Split(t, sep)[1..] == Split(t[i + 1..], sep);
      assert t == t[..i] + [sep] + t[i + 1..];
  }

  lemma {:induction false} SplitJoin(parts: seq<Text>, sep: Unit)
    requires parts != [] && forall i | 0 <= i < |parts| :: sep !in parts[i]
    ensures Split(Join(parts, sep), sep) == parts
  {
    if |parts| == 1 {
      assert IndexOf(parts[0], sep).None?;
    } else {
      var rest := Join(parts[1..], sep);
      IndexOfAt(parts[0], sep, rest);
      var t := Join(parts, sep);
      assert t[..|parts[0]|] == parts[0] && t[|parts[0]| + 1..] == rest;
      SplitJoin(parts[1..], sep);
    }
  }

  // ---- the order of `Array.prototype.sort` without a comparator

  /** Code-unit order of strings. */
  predicate Less(a: Text, b: Text) {
    b != [] && (a == [] || a[0] < b[0] || (a[0] == b[0] && Less(a[1..], b[1..])))
  }

  /** The texts agree up to `n`, where the first ends or has the smaller unit. */
  predicate SmallerAt(a: Text, b: Text, n: nat) {
    n <= |a| && n < |b| && a[..n] == b[..n] && (n == |a| || a[n] < b[n])
  }

  lemma {:induction false} LessIff(a: Text, b: Text)
    ensures Less(a, b) <==> exists n: nat :: SmallerAt(a, b, n)
  {
    if a == [] {
      assert b != [] ==> SmallerAt(a, b, 0);
    } else if b != [] {
      assert a[0] < b[0] ==> SmallerAt(a, b, 0);
      if a[0] == b[0] {
        LessIff(a[1..], b[1..]);
        if n: nat :| SmallerAt(a[1..], b[1..], n) {
          assert a[..n + 1] == [a[0]] + a[1..][..n] && b[..n + 1] == [b[0]] + b[1..][..n];
          assert SmallerAt(a, b, n + 1);
        }
      }
      if n: nat :| SmallerAt(a, b, n) {
        if n > 0 {
          assert a[..n][0] == b[..n][0];
          assert a[1..][..n - 1] == a[..n][1..] && b[1..][..n - 1] == b[..n][1..];
          assert SmallerAt(a[1..], b[1..], n - 1);
        }
      }
    }
  }

  lemma {:induction false} LessAsymmetric(a: Text, b: Text)
    ensures Less(a, b) ==> !Less(b, a)
    ensures Less(a, b) || Less(b, a) || a == b
  {
    if a != [] && b != [] {
      LessAsymmetric(a[1..], b[1..]);
      assert a == [a[0]] + a[1..] && b == [b[0]] + b[1..];
    }
  }

  lemma {:induction false} LessNegTransitive(a: Text, b: Text, c: Text)
    requires !Less(a, b) && !Less(b, c)
    ensures !Less(a, c)
  {
    if a != [] && b != [] && c != [] && a[0] == b[0] && b[0] == c[0] {
      LessNegTransitive(a[1..], b[1..], c[1..]);
    }
  }

  const TEXT_LESS: (Text, Text) -> bool := (a: Text, b: Text) => Less(a, b)

  lemma TextLessTotal(domain: set<Text>)
    ensures StrictTotal(TEXT_LESS, domain)
  {
    forall x, y | x in domain && y in domain
      ensures TEXT_LESS(x, y) ==> !TEXT_LESS(y, x)
      ensures x != y ==> TEXT_LESS(x, y) || TEXT_LESS(y, x)
    {
      LessAsymmetric(x, y);
    }
    forall x, y, z | x in domain && y in domain && z in domain && !TEXT_LESS(x, y) && !TEXT_LESS(y, z)
      ensures !TEXT_LESS(x, z)
    {
      LessNegTransitive(x, y, z);
    }
  }

  // ---- Object.keys(o).sort()

  /** Some listing of a set without repetition: `Object.keys` in whatever order the properties were added. */
  ghost predicate Lists(keys: seq<Text>, s: set<Text>) {
    multiset(keys) == multiset(s)
  }

  predicate IsMin(k: Text, s: set<Text>) { k in s && forall j | j in s :: !Less(j, k) }

  lemma {:induction false} HasMin(s: set<Text>)
    requires s != {}
    ensures exists k :: IsMin(k, s)
    decreases |s|
  {
    var x :| x in s;
    var rest := s - {x};
    LessAsymmetric(x, x);
    if rest == {} {
      assert s == {x};
      assert IsMin(x, s);
    } else {
      HasMin(rest);
      var m :| IsMin(m, rest);
      LessAsymmetric(x, m);
      var k := if Less(x, m) then x else m;
      forall j | j in s
        ensures !Less(j, k)
      {
        if j != x {
          assert j in rest;
          if k == x { LessNegTransitive(j, m, x); }
        }
      }
      assert IsMin(k, s);
    }
  }

  lemma MinUnique(s: set<Text>)
    ensures forall a, b | IsMin(a, s) && IsMin(b, s) :: a == b
  {
    forall a, b | IsMin(a, s) && IsMin(b, s)
      ensures a == b
    {
      LessAsymmetric(a, b);
    }
  }

  /** The least of a set of strings. */
  function MinKey(s: set<Text>): (k: Text)
    requires s != {}
    ensures IsMin(k, s)
  {
    HasMin(s);
    MinUnique(s);
    var k :| k in s && IsMin(k, s);
    k
  }

  /** The strings of `s` in ascending order. */
  function SortedKeys(s: set<Text>): (keys: seq<Text>) {
    if s == {} then [] else [MinKey(s)] + SortedKeys(s - {MinKey(s)})
  }

  lemma SortedFront(k: Text, rest: seq<Text>)
    requires Sorted(TEXT_LESS, rest) && forall j | 0 <= j < |rest| :: !TEXT_LESS(rest[j], k)
    ensures Sorted(TEXT_LESS, [k] + rest)
  {
    hide Less;
  }

  lemma {:induction false} SortedKeysSorted(s: set<Text>)
    ensures Lists(SortedKeys(s), s)
    ensures Sorted(TEXT_LESS, SortedKeys(s))
    decreases |s|
  {
    hide Less, Sorted;
    if s != {} {
      var k := MinKey(s);
      var rest := SortedKeys(s - {k});
      SortedKeysSorted(s - {k});
      assert s == (s - {k}) + {k};
      assert multiset(s) == multiset(s - {k}) + multiset{k};
      forall j | 0 <= j < |rest|
        ensures !TEXT_LESS(rest[j], k)
      {
        assert rest[j] in multiset(rest);
      }
      SortedFront(k, rest);
    } else {
      NothingSorted();
    }
  }

  lemma NothingSorted()
    ensures Sorted(TEXT_LESS, [])
  {}

  /** `Object.keys(o).sort()` is that list, whatever order the properties were added in. */
  lemma SortedKeysForgetOrder(keys: seq<Text>, s: set<Text>)
    requires Lists(keys, s)
    ensures Sort(TEXT_LESS, keys) == SortedKeys(s)
  {
    TextLessTotal(Elements(keys));
    TextLessTotal(Elements(Sort(TEXT_LESS, keys)));
    SortPermutes(TEXT_LESS, keys);
    SortSorts(TEXT_LESS, keys);
    SortedKeysSorted(s);
    SortedUnique(TEXT_LESS, Sort(TEXT_LESS, keys), SortedKeys(s));
  }

  lemma ListedOnce(ks: seq<Text>, s: set<Text>)
    requires multiset(ks) == multiset(s)
    ensures forall i, j | 0 <= i < j < |ks| :: ks[i] != ks[j]
  {
    forall i, j | 0 <= i < j < |ks|
      ensures ks[i] != ks[j]
    {
      assert ks == ks[..j] + ks[j..];
      assert ks[i] in multiset(ks[..j]) && ks[j] in multiset(ks[j..]);
      assert multiset(ks)[ks[j]] == multiset(ks[..j])[ks[j]] + multiset(ks[j..])[ks[j]];
    }
  }

  lemma SortedKeysFacts(s: set<Text>)
    ensures var ks := SortedKeys(s);
            && (forall k :: k in ks <==> k in s)
            && (forall i, j | 0 <= i < j < |ks| :: ks[i] != ks[j])
            && |ks| == |s|
  {
    hide SortedKeys, Sorted;
    var ks := SortedKeys(s);
    SortedKeysSorted(s);
    assert multiset(ks) == multiset(s);
    forall k
      ensures k in ks <==> k in s
    {
      assert k in ks <==> k in multiset(ks);
    }
    ListedOnce(ks, s);
    assert |multiset(ks)| == |multiset(s)|;
  }
}
