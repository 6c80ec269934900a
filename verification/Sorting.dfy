/**
 * `Array.prototype.sort` with a comparator: a stable sort. `less(x, y)` stands for
 * "the comparator is negative on (x, y)".
 */
module Sorting {
  import opened Wrappers

  ghost function Elements<T>(s: seq<T>): set<T> { set x | x in s }

  /** "neither is less" behaves like an equivalence: what a comparator must be for sort to mean anything. */
  ghost predicate WeakOrder<T>(less: (T, T) -> bool, domain: set<T>) {
    && (forall x, y | x in domain && y in domain :: less(x, y) ==> !less(y, x))
    && (forall x, y, z | x in domain && y in domain && z in domain :: !less(x, y) && !less(y, z) ==> !less(x, z))
  }

  ghost predicate StrictTotal<T>(less: (T, T) -> bool, domain: set<T>) {
    && WeakOrder(less, domain)
    && (forall x, y | x in domain && y in domain && x != y :: less(x, y) || less(y, x))
  }

  ghost predicate Sorted<T>(less: (T, T) -> bool, s: seq<T>) {
    forall i, j | 0 <= i < j < |s| :: !less(s[j], s[i])
  }

  function Insert<T>(less: (T, T) -> bool, x: T, s: seq<T>): seq<T> {
    if s == [] || !less(s[0], x) then [x] + s else [s[0]] + Insert(less, x, s[1..])
  }

  function Sort<T>(less: (T, T) -> bool, s: seq<T>): seq<T> {
    if s == [] then [] else Insert(less, s[0], Sort(less, s[1..]))
  }

  lemma {:induction false} InsertPermutes<T>(less: (T, T) -> bool, x: T, s: seq<T>)
    ensures multiset(Insert(less, x, s)) == multiset(s) + multiset{x}
  {
    if s == [] || !less(s[0], x) {
    } else {
      InsertPermutes(less, x, s[1..]);
      assert s == [s[0]] + s[1..];
    }
  }

  lemma {:induction false} SortPermutes<T>(less: (T, T) -> bool, s: seq<T>)
    ensures multiset(Sort(less, s)) == multiset(s)
    ensures |Sort(less, s)| == |s|
    ensures Elements(Sort(less, s)) == Elements(s)
  {
    if s == [] {
    } else {
      SortPermutes(less, s[1..]);
      InsertPermutes(less, s[0], Sort(less, s[1..]));
      assert s == [s[0]] + s[1..];
    }
    SameElements(Sort(less, s), s);
    assert |multiset(Sort(less, s))| == |multiset(s)|;
  }

  lemma SameElements<T>(a: seq<T>, b: seq<T>)
    requires multiset(a) == multiset(b)
    ensures Elements(a) == Elements(b)
  {
    forall x
      ensures x in a <==> x in b
    {
      assert x in a <==> x in multiset(a);
      assert x in b <==> x in multiset(b);
    }
  }

  lemma {:induction false} InsertSorts<T>(less: (T, T) -> bool, x: T, s: seq<T>)
    requires WeakOrder(less, Elements(s) + {x}) && Sorted(less, s)
    ensures Sorted(less, Insert(less, x, s))
  {
    if s == [] {
    } else if !less(s[0], x) {
      var r := [x] + s;
      forall j | 0 <= j < |s|
        ensures !less(s[j], x)
      {
        assert j > 0 ==> !less(s[j], s[0]);
      }
    } else {
      InsertSorts(less, x, s[1..]);
      InsertPermutes(less, x, s[1..]);
      var tail := Insert(less, x, s[1..]);
      SameElements(tail, s[1..] + [x]);
      forall j | 0 <= j < |tail|
        ensures !less(tail[j], s[0])
      {
        assert tail[j] in Elements(tail);
        if tail[j] != x {
          assert tail[j] in s[1..];
        }
      }
    }
  }

  lemma {:induction false} SortSorts<T>(less: (T, T) -> bool, s: seq<T>)
    requires WeakOrder(less, Elements(s))
    ensures Sorted(less, Sort(less, s))
  {
    if s == [] {
    } else {
      SortSorts(less, s[1..]);
      SortPermutes(less, s[1..]);
      InsertSorts(less, s[0], Sort(less, s[1..]));
    }
  }

  /** What the function keeps of a list is in the same order after the sort, if the sort does not part it. */
  lemma {:induction false} SortStable<A, B>(less: (A, A) -> bool, f: A -> Option<B>, s: seq<A>)
    requires forall x, y | x in s && y in s && f(x).Some? && f(y).Some? :: !less(x, y)
    ensures Select(f, Sort(less, s)) == Select(f, s)
  {
    if s != [] {
      SortStable(less, f, s[1..]);
      SortPermutes(less, s[1..]);
      forall y | y in Sort(less, s[1..])
        ensures y in s
      {
        assert y in Elements(Sort(less, s[1..]));
      }
      InsertStable(less, f, s[0], Sort(less, s[1..]));
    }
  }

  lemma {:induction false} InsertStable<A, B>(less: (A, A) -> bool, f: A -> Option<B>, x: A, s: seq<A>)
    requires forall y | y in s && f(x).Some? && f(y).Some? :: !less(y, x)
    ensures Select(f, Insert(less, x, s)) == Kept(f, x) + Select(f, s)
  {
    if s == [] || !less(s[0], x) {
      SelectCons(f, x, s);
    } else {
      InsertStable(less, f, x, s[1..]);
      SelectCons(f, s[0], Insert(less, x, s[1..]));
      SelectCons(f, s[0], s[1..]);
      assert s == [s[0]] + s[1..] && s[0] in s;
      hide Select, Insert;
      assert Kept(f, s[0]) == [] || Kept(f, x) == [];
    }
  }

  function Kept<A, B>(f: A -> Option<B>, x: A): seq<B> { if f(x).Some? then [f(x).value] else [] }

  lemma SelectCons<A, B>(f: A -> Option<B>, x: A, s: seq<A>)
    ensures Select(f, [x] + s) == Kept(f, x) + Select(f, s)
  {
    assert ([x] + s)[1..] == s;
  }

  lemma SameLeast<T>(less: (T, T) -> bool, a: seq<T>, b: seq<T>)
    requires multiset(a) == multiset(b) && a != [] && b != []
    requires StrictTotal(less, Elements(a))
    requires Sorted(less, a) && Sorted(less, b)
    ensures a[0] == b[0]
  {
    SameElements(a, b);
    assert a[0] in Elements(a) && b[0] in Elements(b);
    assert a[0] in b && b[0] in a;
  }

  lemma SortedTail<T>(less: (T, T) -> bool, s: seq<T>)
    requires s != [] && Sorted(less, s)
    ensures Sorted(less, s[1..])
    ensures StrictTotal(less, Elements(s)) ==> StrictTotal(less, Elements(s[1..]))
  {
    assert forall x | x in Elements(s[1..]) :: x in Elements(s);
  }

  /** Under a strict total order there is one sorted arrangement: the order of the input is forgotten. */
  lemma {:induction false} SortedUnique<T>(less: (T, T) -> bool, a: seq<T>, b: seq<T>)
    requires multiset(a) == multiset(b)
    requires StrictTotal(less, Elements(a))
    requires Sorted(less, a) && Sorted(less, b)
    ensures a == b
  {
    assert |multiset(a)| == |multiset(b)|;
    if a != [] {
      SameLeast(less, a, b);
      hide Sorted, StrictTotal;
      SortedTail(less, a);
      SortedTail(less, b);
      assert a == [a[0]] + a[1..] && b == [b[0]] + b[1..];
      assert multiset(a[1..]) == multiset(a) - multiset{a[0]};
      assert multiset(b[1..]) == multiset(b) - multiset{b[0]};
      SortedUnique(less, a[1..], b[1..]);
    }
  }

  /** The result of a sort under a strict total order does not depend on the order its input was listed in. */
  lemma SortForgetsOrder<T>(less: (T, T) -> bool, a: seq<T>, b: seq<T>)
    requires multiset(a) == multiset(b)
    requires StrictTotal(less, Elements(a))
    ensures Sort(less, a) == Sort(less, b)
  {
    SameElements(a, b);
    SortPermutes(less, a);
    SortPermutes(less, b);
    SortSorts(less, a);
    SortSorts(less, b);
    SortedUnique(less, Sort(less, a), Sort(less, b));
  }

  // ---- arrangements of the same elements

  /** Taking out one element that is there. */
  function Without<T(==)>(items: seq<T>, x: T): (r: seq<T>)
    requires x in items
    ensures multiset(r) == multiset(items) - multiset{x} && |r| == |items| - 1
  {
    assert items == [items[0]] + items[1..];
    if items[0] == x then items[1..] else [items[0]] + Without(items[1..], x)
  }

  /** `flatMap` with a function that turns an element into one result or drops it. */
  function Select<A, B>(f: A -> Option<B>, s: seq<A>): seq<B> {
    if s == [] then [] else (if f(s[0]).Some? then [f(s[0]).value] else []) + Select(f, s[1..])
  }

  lemma {:induction false} SelectWithout<A, B>(f: A -> Option<B>, s: seq<A>, x: A)
    requires x in s
    ensures multiset(Select(f, s)) == multiset(Select(f, Without(s, x))) + if f(x).Some? then multiset{f(x).value}
              else multiset{}
  {
    if s[0] != x {
      SelectWithout(f, s[1..], x);
      assert Without(s, x)[1..] == Without(s[1..], x);
    }
  }

  lemma {:induction false} SelectPermutes<A, B>(f: A -> Option<B>, a: seq<A>, b: seq<A>)
    requires multiset(a) == multiset(b)
    ensures multiset(Select(f, a)) == multiset(Select(f, b))
    decreases |a|
  {
    assert |multiset(a)| == |multiset(b)|;
    if a != [] {
      assert a == [a[0]] + a[1..];
      assert a[0] in multiset(b);
      SelectWithout(f, b, a[0]);
      SelectPermutes(f, a[1..], Without(b, a[0]));
    }
  }

  /** No two elements have the same key. */
  ghost predicate DistinctBy<T, K>(key: T -> K, s: seq<T>) { forall i, j | 0 <= i < j < |s| :: key(s[i]) != key(s[j]) }

  lemma DistinctByPermutes<T, K>(key: T -> K, a: seq<T>, b: seq<T>)
    requires multiset(a) == multiset(b) && DistinctBy(key, a)
    ensures DistinctBy(key, b)
  {
    forall i, j | 0 <= i < j < |b|
      ensures key(b[i]) != key(b[j])
    {
      assert b[i] in multiset(b) && b[j] in multiset(b);
      assert b[i] in multiset(a) && b[j] in multiset(a);
      var k :| 0 <= k < |a| && a[k] == b[i];
      var l :| 0 <= l < |a| && a[l] == b[j];
      if k == l {
        Once(key, a, k);
        Twice(b, i, j);
      }
    }
  }

  lemma Once<T, K>(key: T -> K, s: seq<T>, k: nat)
    requires k < |s| && DistinctBy(key, s)
    ensures multiset(s)[s[k]] == 1
  {
    assert s == s[..k] + ([s[k]] + s[k + 1..]);
    assert s[k] !in s[..k] && s[k] !in s[k + 1..];
  }

  lemma Twice<T>(s: seq<T>, i: nat, j: nat)
    requires i < j < |s| && s[i] == s[j]
    ensures multiset(s)[s[i]] >= 2
  {
    assert s == s[..j] + s[j..];
    assert s[i] in multiset(s[..j]) && s[j] in multiset(s[j..]);
  }
}
