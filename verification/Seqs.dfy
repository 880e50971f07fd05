/** Sequences built by nested append loops, and rearrangements of sequences. */
module Seqs {

  lemma Associative<T>(a: seq<T>, b: seq<T>, c: seq<T>)
    ensures (a + b) + c == a + (b + c)
  {
  }

  /** What a loop leaves that appends `f(x)` for every `x` of `s` in turn. */
  function FlatMap<T, U>(f: T -> seq<U>, s: seq<T>): seq<U> {
    if s == [] then [] else FlatMap(f, s[..|s| - 1]) + f(s[|s| - 1])
  }

  lemma FlatMapSnoc<T, U>(f: T -> seq<U>, s: seq<T>, x: T)
    ensures FlatMap(f, s + [x]) == FlatMap(f, s) + f(x)
  {
    assert (s + [x])[..|s|] == s;
  }

  lemma FlatMapTake<T, U>(f: T -> seq<U>, s: seq<T>, i: nat)
    requires i < |s|
    ensures FlatMap(f, s[..i + 1]) == FlatMap(f, s[..i]) + f(s[i])
  {
    assert s[..i + 1] == s[..i] + [s[i]];
    FlatMapSnoc(f, s[..i], s[i]);
  }

  lemma FlatMapOne<T, U>(f: T -> seq<U>, x: T)
    ensures FlatMap(f, [x]) == f(x)
  {
    FlatMapSnoc(f, [], x);
    assert [] + [x] == [x];
  }

  lemma {:induction false} FlatMapAppend<T, U>(f: T -> seq<U>, a: seq<T>, b: seq<T>)
    ensures FlatMap(f, a + b) == FlatMap(f, a) + FlatMap(f, b)
  {
    if b == [] {
      assert a + b == a;
    } else {
      var n := |b| - 1;
      FlatMapAppend(f, a, b[..n]);
      assert a + b == (a + b[..n]) + [b[n]];
      FlatMapSnoc(f, a + b[..n], b[n]);
      Associative(FlatMap(f, a), FlatMap(f, b[..n]), f(b[n]));
    }
  }

  /** Two such loops agree exactly when they agree on every element, provided each element
      contributes equally many results. */
  lemma {:induction false} FlatMapPointwise<T, U>(f: T -> seq<U>, g: T -> seq<U>, s: seq<T>)
    requires forall x <- s :: |f(x)| == |g(x)|
    ensures |FlatMap(f, s)| == |FlatMap(g, s)|
    ensures FlatMap(f, s) == FlatMap(g, s) <==> forall x <- s :: f(x) == g(x)
  {
    if s != [] {
      var n := |s| - 1;
      var front, last := s[..n], s[n];
      FlatMapPointwise(f, g, front);
      var a, b := FlatMap(f, s), FlatMap(g, s);
      var c, d := FlatMap(f, front), FlatMap(g, front);
      assert a[..|c|] == c && b[..|d|] == d && a[|c|..] == f(last) && b[|d|..] == g(last);
      assert forall x <- s :: x in front || x == last;
    }
  }

  lemma {:induction false} FlatMapMembers<T, U>(f: T -> seq<U>, s: seq<T>, y: U) returns (x: T)
    requires y in FlatMap(f, s)
    ensures x in s && y in f(x)
  {
    var n := |s| - 1;
    if y in f(s[n]) {
      x := s[n];
    } else {
      x := FlatMapMembers(f, s[..n], y);
    }
  }

  function Filter<T>(keep: T -> bool, s: seq<T>): seq<T> {
    if s == [] then [] else Filter(keep, s[..|s| - 1]) + if keep(s[|s| - 1]) then [s[|s| - 1]] else []
  }

  lemma FilterSnoc<T>(keep: T -> bool, s: seq<T>, x: T)
    ensures Filter(keep, s + [x]) == Filter(keep, s) + if keep(x) then [x] else []
  {
    assert (s + [x])[..|s|] == s;
  }

  lemma {:induction false} FilterAppend<T>(keep: T -> bool, a: seq<T>, b: seq<T>)
    ensures Filter(keep, a + b) == Filter(keep, a) + Filter(keep, b)
  {
    if b == [] {
      assert a + b == a;
    } else {
      var n := |b| - 1;
      FilterAppend(keep, a, b[..n]);
      assert a + b == (a + b[..n]) + [b[n]];
      FilterSnoc(keep, a + b[..n], b[n]);
      Associative(Filter(keep, a), Filter(keep, b[..n]), if keep(b[n]) then [b[n]] else []);
    }
  }

  lemma {:induction false} FilterMembers<T>(keep: T -> bool, s: seq<T>)
    ensures forall x :: x in Filter(keep, s) <==> x in s && keep(x)
    ensures |Filter(keep, s)| <= |s|
  {
    if s != [] {
      var n := |s| - 1;
      FilterMembers(keep, s[..n]);
      assert s == s[..n] + [s[n]];
    }
  }

  lemma {:induction false} FilterAgree<T>(p: T -> bool, q: T -> bool, s: seq<T>)
    requires forall x <- s :: p(x) == q(x)
    ensures Filter(p, s) == Filter(q, s)
  {
    if s != [] {
      assert s[|s| - 1] in s;
      FilterAgree(p, q, s[..|s| - 1]);
    }
  }

  lemma {:induction false} FilterAll<T>(keep: T -> bool, s: seq<T>)
    requires forall x <- s :: keep(x)
    ensures Filter(keep, s) == s
  {
    if s != [] {
      assert s[|s| - 1] in s;
      FilterAll(keep, s[..|s| - 1]);
    }
  }

  lemma {:induction false} FilterNone<T>(keep: T -> bool, s: seq<T>)
    requires forall x <- s :: !keep(x)
    ensures Filter(keep, s) == []
  {
    if s != [] {
      assert s[|s| - 1] in s;
      FilterNone(keep, s[..|s| - 1]);
    }
  }

  /** Taking the last element of one arrangement out of another. */
  lemma RemoveOne<T>(a: seq<T>, b: seq<T>) returns (c: seq<T>, x: T, e: seq<T>)
    requires a != [] && multiset(a) == multiset(b)
    ensures x == a[|a| - 1] && b == c + [x] + e
    ensures multiset(a[..|a| - 1]) == multiset(c + e)
  {
    var n := |a| - 1;
    x := a[n];
    assert a == a[..n] + [x];
    assert x in multiset(b);
    var i :| 0 <= i < |b| && b[i] == x;
    c, e := b[..i], b[i + 1..];
    assert b == c + [x] + e;
    var m := multiset(c + e);
    assert m == multiset(c) + multiset(e);
    assert multiset(b) == multiset(c + [x]) + multiset(e) == m + multiset{x};
    assert multiset(a) == multiset(a[..n]) + multiset{x};
    assert multiset(a[..n]) == multiset(a) - multiset{x};
    assert m == multiset(b) - multiset{x};
  }

  predicate Distinct<T(==)>(s: seq<T>) {
    forall i, j | 0 <= i < j < |s| :: s[i] != s[j]
  }

  lemma {:induction false} FilterDistinct<T>(keep: T -> bool, s: seq<T>)
    requires Distinct(s)
    ensures Distinct(Filter(keep, s))
  {
    if s != [] {
      var n := |s| - 1;
      FilterDistinct(keep, s[..n]);
      FilterMembers(keep, s[..n]);
    }
  }

  /** Filtering a piece that is kept or dropped as a whole. */
  lemma FilterPiece<T>(keep: T -> bool, done: seq<T>, piece: seq<T>, hit: bool)
    requires forall x <- piece :: keep(x) == hit
    ensures Filter(keep, done + piece) == Filter(keep, done) + if hit then piece else []
  {
    FilterAppend(keep, done, piece);
    if hit { FilterAll(keep, piece); } else { FilterNone(keep, piece); }
  }

  lemma {:induction false} FlatMapEach<T>(f: T -> seq<T>, s: seq<T>)
    requires forall x <- s :: f(x) == [x]
    ensures FlatMap(f, s) == s
  {
    if s != [] {
      FlatMapEach(f, s[..|s| - 1]);
      assert s[|s| - 1] in s;
    }
  }

  lemma {:induction false} FlatMapNothing<T, U>(f: T -> seq<U>, s: seq<T>)
    requires forall x <- s :: f(x) == []
    ensures FlatMap(f, s) == []
  {
    if s != [] {
      FlatMapNothing(f, s[..|s| - 1]);
      assert s[|s| - 1] in s;
    }
  }

  lemma {:induction false} FilterWithin<T>(p: T -> bool, q: T -> bool, s: seq<T>)
    requires forall x :: p(x) ==> q(x)
    ensures Filter(p, Filter(q, s)) == Filter(p, s)
  {
    if s != [] {
      var n := |s| - 1;
      FilterWithin(p, q, s[..n]);
      if q(s[n]) { FilterSnoc(p, Filter(q, s[..n]), s[n]); }
      else { assert Filter(q, s[..n]) + [] == Filter(q, s[..n]); }
    }
  }
}
