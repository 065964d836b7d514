/** Ordering and sorting shared by the auto-tagger's ranking and the list query's
    `ORDER BY`: Python's code-point string comparison, an insertion sort over any
    strict total order, and the fact that makes both results deterministic: a strictly
    sorted arrangement of a given collection is unique. */
module Sorting {

  /** Python's `a < b` on strings: lexicographic by code point, a proper prefix first. */
  predicate StrLess(a: string, b: string)
    decreases |a|
  {
    if |a| == 0 then |b| > 0
    else if |b| == 0 then false
    else if a[0] < b[0] then true
    else if a[0] == b[0] then StrLess(a[1..], b[1..])
    else false
  }

  lemma {:induction false} StrLessIrreflexive(a: string)
    ensures !StrLess(a, a)
    decreases |a|
  {
    if |a| > 0 {
      StrLessIrreflexive(a[1..]);
    }
  }

  lemma {:induction false} StrLessTransitive(a: string, b: string, c: string)
    requires StrLess(a, b) && StrLess(b, c)
    ensures StrLess(a, c)
    decreases |a|
  {
    if |a| > 0 && |b| > 0 && |c| > 0 && a[0] == b[0] && b[0] == c[0] {
      StrLessTransitive(a[1..], b[1..], c[1..]);
    }
  }

  lemma {:induction false} StrLessTotal(a: string, b: string)
    requires a != b
    ensures StrLess(a, b) || StrLess(b, a)
    decreases |a|
  {
    if |a| > 0 && |b| > 0 && a[0] == b[0] {
      assert a == [a[0]] + a[1..] && b == [b[0]] + b[1..];
      StrLessTotal(a[1..], b[1..]);
    }
  }

  /** `lt` is a strict total order on the elements of `xs`. */
  ghost predicate StrictTotalOn<T>(lt: (T, T) -> bool, xs: seq<T>) {
    && (forall a | a in xs :: !lt(a, a))
    && (forall a, b, c | a in xs && b in xs && c in xs :: lt(a, b) && lt(b, c) ==> lt(a, c))
    && (forall a, b | a in xs && b in xs :: a != b ==> lt(a, b) || lt(b, a))
  }

  /** A strict total order on a collection is one on any part of it. */
  lemma StrictTotalSub<T>(lt: (T, T) -> bool, xs: seq<T>, ys: seq<T>)
    requires StrictTotalOn(lt, xs)
    requires forall y | y in ys :: y in xs
    ensures StrictTotalOn(lt, ys)
  {
  }

  /** Every earlier element comes strictly before every later one. */
  ghost predicate SortedBy<T>(lt: (T, T) -> bool, xs: seq<T>) {
    forall i, j | 0 <= i < j < |xs| :: lt(xs[i], xs[j])
  }

  predicate NoDups<T(==)>(xs: seq<T>) {
    forall i, j | 0 <= i < j < |xs| :: xs[i] != xs[j]
  }

  /** Python's slice `xs[:n]`: a negative `n` counts from the end. */
  function Take<T>(xs: seq<T>, n: int): (r: seq<T>)
    ensures n >= 0 ==> |r| == if n < |xs| then n else |xs|
    ensures n < 0 ==> |r| == if |xs| + n > 0 then |xs| + n else 0
    ensures r == xs[..|r|]
  {
    if n >= 0 then (if n < |xs| then xs[..n] else xs)
    else if |xs| + n > 0 then xs[..|xs| + n]
    else []
  }

  /** `x` placed into the sorted `xs` before the first element it precedes. */
  function Insert<T(==)>(lt: (T, T) -> bool, x: T, xs: seq<T>): (r: seq<T>)
    ensures multiset(r) == multiset(xs) + multiset{x}
  {
    if |xs| == 0 then [x]
    else if lt(x, xs[0]) then [x] + xs
    else
      assert xs == [xs[0]] + xs[1..];
      [xs[0]] + Insert(lt, x, xs[1..])
  }

  lemma {:induction false} InsertSorted<T>(lt: (T, T) -> bool, x: T, xs: seq<T>)
    requires StrictTotalOn(lt, [x] + xs)
    requires SortedBy(lt, xs)
    requires x !in xs
    ensures SortedBy(lt, Insert(lt, x, xs))
  {
    if |xs| > 0 && !lt(x, xs[0]) {
      assert x in [x] + xs && xs[0] in [x] + xs;
      assert lt(xs[0], x);
      var t := xs[1..];
      assert forall a | a in [x] + t :: a in [x] + xs;
      InsertSorted(lt, x, t);
      var r := Insert(lt, x, t);
      assert multiset(r) == multiset(t) + multiset{x};
      forall j | 0 <= j < |r|
        ensures lt(xs[0], r[j])
      {
        assert r[j] in multiset(r);
        assert r[j] == x || r[j] in t;
      }
    }
  }

  /** Insertion sort: the elements of `xs` in `lt` order. */
  function Sort<T(==)>(lt: (T, T) -> bool, xs: seq<T>): (r: seq<T>)
    requires StrictTotalOn(lt, xs)
    requires NoDups(xs)
    ensures multiset(r) == multiset(xs)
    ensures SortedBy(lt, r)
  {
    if |xs| == 0 then []
    else
      var t := xs[1..];
      assert xs == [xs[0]] + t;
      assert forall a | a in t :: a in xs;
      var rest := Sort(lt, t);
      assert xs[0] !in t;
      assert forall a | a in rest :: a in multiset(t);
      assert forall a | a in [xs[0]] + rest :: a in xs;
      InsertSorted(lt, xs[0], rest);
      Insert(lt, xs[0], rest)
  }

  /** A strictly sorted sequence has no repeated element. */
  lemma SortedNoDups<T>(lt: (T, T) -> bool, xs: seq<T>)
    requires StrictTotalOn(lt, xs)
    requires SortedBy(lt, xs)
    ensures NoDups(xs)
  {
    forall i, j | 0 <= i < j < |xs|
      ensures xs[i] != xs[j]
    {
      assert lt(xs[i], xs[j]);
      assert xs[i] in xs;
    }
  }

  /** The first element of a strictly sorted sequence precedes every other element. */
  lemma HeadFirst<T>(lt: (T, T) -> bool, xs: seq<T>, y: T)
    requires SortedBy(lt, xs) && |xs| > 0
    requires y in xs && y != xs[0]
    ensures lt(xs[0], y)
  {
    var k :| 0 <= k < |xs| && xs[k] == y;
    assert k != 0;
  }

  /** Two strictly sorted arrangements of the same elements start alike. */
  lemma SameHead<T>(lt: (T, T) -> bool, a: seq<T>, b: seq<T>)
    requires StrictTotalOn(lt, a)
    requires SortedBy(lt, a) && SortedBy(lt, b)
    requires multiset(a) == multiset(b) && |a| > 0
    ensures |b| > 0 && a[0] == b[0]
  {
    assert a[0] in multiset(b);
    assert b[0] in multiset(a);
    if a[0] != b[0] {
      HeadFirst(lt, a, b[0]);
      HeadFirst(lt, b, a[0]);
      assert false;
    }
  }

  lemma SortedTail<T>(lt: (T, T) -> bool, a: seq<T>)
    requires SortedBy(lt, a) && |a| > 0
    ensures SortedBy(lt, a[1..])
  {
  }

  lemma ConsTail<T>(a: seq<T>)
    requires |a| > 0
    ensures a == [a[0]] + a[1..]
  {
  }

  lemma TailMultiset<T>(a: seq<T>)
    requires |a| > 0
    ensures multiset(a[1..]) == multiset(a) - multiset{a[0]}
  {
    assert a == [a[0]] + a[1..];
  }

  /** Determinism: two strictly sorted arrangements of the same elements are equal. */
  lemma {:induction false} SortedUnique<T>(lt: (T, T) -> bool, a: seq<T>, b: seq<T>)
    requires StrictTotalOn(lt, a)
    requires SortedBy(lt, a) && SortedBy(lt, b)
    requires multiset(a) == multiset(b)
    ensures a == b
  {
    if |a| == 0 {
      assert |b| == |multiset(b)| == 0;
    } else {
      SameHead(lt, a, b);
      TailMultiset(a);
      TailMultiset(b);
      assert forall y | y in a[1..] :: y in a;
      StrictTotalSub(lt, a, a[1..]);
      SortedTail(lt, a);
      SortedTail(lt, b);
      SortedUnique(lt, a[1..], b[1..]);
      ConsTail(a);
      ConsTail(b);
    }
  }
}
