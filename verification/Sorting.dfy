/** Sorting by a comparator: what a sorted rearrangement is, one that exists, and when it
    is the only one. It stands for sort.Slice and for SQLite's ORDER BY. */
module Sorting {

  /** `less` behaves as a strict weak order among the elements of `s`. */
  ghost predicate OrderOn<T(!new)>(less: (T, T) -> bool, s: seq<T>) {
    && (forall a <- s, b <- s :: less(a, b) ==> !less(b, a))
    && (forall a <- s, b <- s, c <- s :: less(a, b) && !less(c, b) ==> less(a, c))
  }

  /** No element is less than one before it. */
  predicate InOrder<T>(less: (T, T) -> bool, s: seq<T>) {
    forall i, j | 0 <= i < j < |s| :: !less(s[j], s[i])
  }

  /** `out` is a rearrangement of `s` in order. */
  predicate IsSortOf<T(==)>(less: (T, T) -> bool, s: seq<T>, out: seq<T>) {
    multiset(out) == multiset(s) && InOrder(less, out)
  }

  function Place<T>(less: (T, T) -> bool, x: T, s: seq<T>): seq<T> {
    if s == [] || less(x, s[0]) then [x] + s else [s[0]] + Place(less, x, s[1..])
  }

  function SortBy<T>(less: (T, T) -> bool, s: seq<T>): seq<T> {
    if s == [] then [] else Place(less, s[|s| - 1], SortBy(less, s[..|s| - 1]))
  }

  lemma {:induction false} PlacePermutes<T>(less: (T, T) -> bool, x: T, s: seq<T>)
    ensures multiset(Place(less, x, s)) == multiset(s) + multiset{x}
  {
    if s != [] && !less(x, s[0]) {
      PlacePermutes(less, x, s[1..]);
      assert s == [s[0]] + s[1..];
    }
  }

  lemma {:induction false} SortPermutes<T>(less: (T, T) -> bool, s: seq<T>)
    ensures multiset(SortBy(less, s)) == multiset(s)
  {
    if s != [] {
      var n := |s| - 1;
      SortPermutes(less, s[..n]);
      PlacePermutes(less, s[n], SortBy(less, s[..n]));
      assert s == s[..n] + [s[n]];
    }
  }

  lemma SameMembers<T>(s: seq<T>, t: seq<T>)
    requires multiset(s) == multiset(t)
    ensures forall x :: x in s <==> x in t
    ensures |s| == |t|
  {
    forall x ensures x in s <==> x in t {
      assert x in s <==> x in multiset(s);
      assert x in t <==> x in multiset(t);
    }
    assert |multiset(s)| == |s| && |multiset(t)| == |t|;
  }

  lemma HeadInOrder<T>(less: (T, T) -> bool, head: T, rest: seq<T>)
    requires InOrder(less, rest) && forall y <- rest :: !less(y, head)
    ensures InOrder(less, [head] + rest)
  {
  }

  lemma PlaceMembers<T>(less: (T, T) -> bool, x: T, s: seq<T>)
    ensures forall y <- Place(less, x, s) :: y == x || y in s
  {
    PlacePermutes(less, x, s);
    forall y | y in Place(less, x, s) ensures y == x || y in s { assert y in multiset(Place(less, x, s)); }
  }

  lemma OrderOnSome<T(!new)>(less: (T, T) -> bool, all: seq<T>, some: seq<T>)
    requires OrderOn(less, all) && forall y <- some :: y in all
    ensures OrderOn(less, some)
  {
  }

  lemma {:induction false} PlaceInOrder<T(!new)>(less: (T, T) -> bool, x: T, s: seq<T>)
    requires OrderOn(less, [x] + s) && InOrder(less, s)
    ensures InOrder(less, Place(less, x, s))
  {
    var all := [x] + s;
    assert x == all[0] && forall y <- s :: y in all;
    if s == [] || less(x, s[0]) {
      forall y | y in s ensures !less(y, x) { assert s[0] in all; }
      HeadInOrder(less, x, s);
    } else {
      var tail := s[1..];
      TailInOrder(less, s);
      OrderOnSome(less, all, [x] + tail);
      PlaceInOrder(less, x, tail);
      PlaceMembers(less, x, tail);
      forall y | y in tail ensures !less(y, s[0]) { var i :| 0 <= i < |tail| && tail[i] == y; assert s[i + 1] == y; }
      HeadInOrder(less, s[0], Place(less, x, tail));
    }
  }

  lemma {:induction false} SortInOrder<T(!new)>(less: (T, T) -> bool, s: seq<T>)
    requires OrderOn(less, s)
    ensures InOrder(less, SortBy(less, s))
  {
    if s != [] {
      var n := |s| - 1;
      assert s == s[..n] + [s[n]];
      SortInOrder(less, s[..n]);
      SortPermutes(less, s[..n]);
      SameMembers(SortBy(less, s[..n]), s[..n]);
      PlaceInOrder(less, s[n], SortBy(less, s[..n]));
    }
  }

  lemma SortByIsSort<T(!new)>(less: (T, T) -> bool, s: seq<T>)
    requires OrderOn(less, s)
    ensures IsSortOf(less, s, SortBy(less, s))
  {
    SortPermutes(less, s);
    SortInOrder(less, s);
  }

  /** When distinct elements are always comparable, there is only one sorted rearrangement,
      whatever order the elements came in. */
  lemma {:induction false} SortUnique<T(!new)>(less: (T, T) -> bool, a: seq<T>, b: seq<T>)
    requires multiset(a) == multiset(b) && InOrder(less, a) && InOrder(less, b)
    requires forall x <- a, y <- a :: x != y ==> less(x, y) || less(y, x)
    ensures a == b
  {
    SameMembers(a, b);
    if a != [] {
      FirstAgrees(less, a, b);
      RestAgrees(a, b);
      TailInOrder(less, a);
      TailInOrder(less, b);
      SortUnique(less, a[1..], b[1..]);
      assert a == [a[0]] + a[1..] && b == [b[0]] + b[1..];
    }
  }

  lemma RestAgrees<T>(a: seq<T>, b: seq<T>)
    requires a != [] && b != [] && a[0] == b[0] && multiset(a) == multiset(b)
    ensures multiset(a[1..]) == multiset(b[1..])
  {
    assert a == [a[0]] + a[1..] && b == [b[0]] + b[1..];
    assert multiset(a[1..]) == multiset(a) - multiset{a[0]} == multiset(b) - multiset{b[0]} == multiset(b[1..]);
  }

  lemma TailInOrder<T>(less: (T, T) -> bool, s: seq<T>)
    requires s != [] && InOrder(less, s)
    ensures InOrder(less, s[1..]) && forall x <- s[1..] :: x in s
  {
    assert forall i | 0 <= i < |s| - 1 :: s[1..][i] == s[i + 1];
  }

  lemma FirstAgrees<T(!new)>(less: (T, T) -> bool, a: seq<T>, b: seq<T>)
    requires a != [] && b != [] && InOrder(less, a) && InOrder(less, b)
    requires forall x :: x in a <==> x in b
    requires forall x <- a, y <- a :: x != y ==> less(x, y) || less(y, x)
    ensures a[0] == b[0]
  {
    assert b[0] in b && a[0] in a;
    var i :| 0 <= i < |a| && a[i] == b[0];
    var j :| 0 <= j < |b| && b[j] == a[0];
  }
}
