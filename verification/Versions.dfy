/** Version numbers: reading a dotted name, and the order in which the candidates of a
    directory are listed. */
module Versions {
  import opened Texts
  import opened Decimal
  import opened Sorting

  // --------------------------------------------------------------------- version numbers

  predicate AllNumbers(fields: seq<string>) {
    forall f <- fields :: ParseInt(f).ok
  }

  function Numbers(fields: seq<string>): seq<int> {
    seq(|fields|, i requires 0 <= i < |fields| => ParseInt(fields[i]).value)
  }

  /** The numbers of a name that parses as dotted integers, [] for any other name. */
  function Parts(name: string): seq<int> {
    var fields := Split(name, '.');
    if AllNumbers(fields) then Numbers(fields) else []
  }

  method VersionParts(name: string) returns (out: seq<int>)
    ensures out == Parts(name)
  {
    var fields := Split(name, '.');
    out := [];
    for i := 0 to |fields|
      invariant AllNumbers(fields[..i]) && out == Numbers(fields[..i])
    {
      var n := ParseInt(fields[i]);
      if !n.ok {
        return [];
      }
      out := out + [n.value];
      assert fields[..i + 1] == fields[..i] + [fields[i]];
    }
    assert fields[..|fields|] == fields;
  }

  function At(p: seq<int>, n: nat): int {
    if n < |p| then p[n] else 0
  }

  /** Comparison from position `n` on, the shorter list padded with zeros. */
  function CompareFrom(p: seq<int>, q: seq<int>, n: nat): int
    decreases |p| + |q| - n
  {
    if n >= |p| && n >= |q| then 0
    else if At(p, n) > At(q, n) then 1
    else if At(p, n) < At(q, n) then -1
    else CompareFrom(p, q, n + 1)
  }

  predicate Numeric(name: string) {
    Parts(name) != []
  }

  /** `a` is listed before `b`. */
  predicate Newer(a: string, b: string) {
    var c := if Numeric(a) && Numeric(b) then CompareFrom(Parts(a), Parts(b), 0) else 0;
    c > 0 || (c == 0 && Less(b, a))
  }

  /** The comparator's loop: whether the padded lists differ, and which is then greater. */
  method FirstDifference(p: seq<int>, q: seq<int>) returns (differ: bool, greater: bool)
    ensures differ <==> CompareFrom(p, q, 0) != 0
    ensures greater <==> CompareFrom(p, q, 0) > 0
  {
    var n := 0;
    while n < |p| || n < |q|
      invariant 0 <= n
      invariant CompareFrom(p, q, n) == CompareFrom(p, q, 0)
      decreases |p| + |q| - n
    {
      var av, bv := 0, 0;
      if n < |p| {
        av := p[n];
      }
      if n < |q| {
        bv := q[n];
      }
      if av != bv {
        return true, av > bv;
      }
      n := n + 1;
    }
    return false, false;
  }

  /** The comparator passed to sort.Slice. */
  method CompareNames(a: string, b: string) returns (newer: bool)
    ensures newer == Newer(a, b)
  {
    var p := VersionParts(a);
    var q := VersionParts(b);
    if |p| > 0 && |q| > 0 {
      var differ, greater := FirstDifference(p, q);
      if differ {
        return greater;
      }
    }
    return Less(b, a);
  }

  lemma {:induction false} CompareFlips(p: seq<int>, q: seq<int>, n: nat)
    ensures CompareFrom(q, p, n) == -CompareFrom(p, q, n)
    decreases |p| + |q| - n
  {
    if n < |p| || n < |q| { CompareFlips(p, q, n + 1); }
  }

  predicate AgreeUpTo(p: seq<int>, q: seq<int>, n: nat, d: nat) {
    forall m: nat | n <= m < d :: At(p, m) == At(q, m)
  }

  function Sign(x: int): int {
    if x > 0 then 1 else if x < 0 then -1 else 0
  }

  /** The comparison is decided where the padded lists first differ. */
  lemma {:induction false} DecidedAt(p: seq<int>, q: seq<int>, n: nat, d: nat)
    requires n <= d && AgreeUpTo(p, q, n, d) && At(p, d) != At(q, d)
    ensures CompareFrom(p, q, n) == Sign(At(p, d) - At(q, d))
    decreases d - n
  {
    if n < d {
      assert At(p, n) == At(q, n);
      DecidedAt(p, q, n + 1, d);
    }
  }

  lemma {:induction false} DecidesSomewhere(p: seq<int>, q: seq<int>, n: nat) returns (d: nat)
    requires CompareFrom(p, q, n) != 0
    ensures n <= d && AgreeUpTo(p, q, n, d)
    ensures CompareFrom(p, q, n) == Sign(At(p, d) - At(q, d))
    decreases |p| + |q| - n
  {
    if At(p, n) != At(q, n) {
      d := n;
    } else {
      d := DecidesSomewhere(p, q, n + 1);
    }
  }

  lemma {:induction false} EqualEverywhere(p: seq<int>, q: seq<int>, n: nat, d: nat)
    requires CompareFrom(p, q, n) == 0 && n <= d
    ensures At(p, d) == At(q, d)
    decreases d - n
  {
    if n < d && (n < |p| || n < |q|) { EqualEverywhere(p, q, n + 1, d); }
  }

  /** Numbers that compare equal compare alike with everything else. */
  lemma EqualsCompareAlike(p: seq<int>, q: seq<int>, r: seq<int>)
    requires CompareFrom(p, q, 0) == 0
    ensures CompareFrom(p, r, 0) == CompareFrom(q, r, 0)
  {
    forall d: nat ensures At(p, d) == At(q, d) { EqualEverywhere(p, q, 0, d); }
    if CompareFrom(p, r, 0) != 0 {
      var d := DecidesSomewhere(p, r, 0);
      DecidedAt(q, r, 0, d);
    } else if CompareFrom(q, r, 0) != 0 {
      var d := DecidesSomewhere(q, r, 0);
      DecidedAt(p, r, 0, d);
    }
  }

  lemma GreaterTransitive(p: seq<int>, q: seq<int>, r: seq<int>)
    requires CompareFrom(p, q, 0) > 0 && CompareFrom(q, r, 0) > 0
    ensures CompareFrom(p, r, 0) > 0
  {
    var d := DecidesSomewhere(p, q, 0);
    var e := DecidesSomewhere(q, r, 0);
    DecidedAt(p, r, 0, if d < e then d else e);
  }

  lemma CompareTransitive(p: seq<int>, q: seq<int>, r: seq<int>)
    requires CompareFrom(p, q, 0) >= 0 && CompareFrom(q, r, 0) >= 0
    ensures CompareFrom(p, r, 0) >= 0
    ensures CompareFrom(p, r, 0) == 0 ==> CompareFrom(p, q, 0) == 0 && CompareFrom(q, r, 0) == 0
  {
    if CompareFrom(p, q, 0) == 0 {
      EqualsCompareAlike(p, q, r);
    } else if CompareFrom(q, r, 0) == 0 {
      CompareFlips(q, r, 0);
      EqualsCompareAlike(r, q, p);
      CompareFlips(r, p, 0);
      CompareFlips(q, p, 0);
    } else {
      GreaterTransitive(p, q, r);
    }
  }

  // ------------------------------------------------------------------ the comparator's order

  /** Of two distinct names exactly one is newer, and no name is newer than itself. */
  lemma NewerTotal(a: string, b: string)
    ensures a != b ==> Newer(a, b) != Newer(b, a)
    ensures !Newer(a, a)
  {
    CompareFlips(Parts(a), Parts(b), 0);
    CompareFlips(Parts(a), Parts(a), 0);
    LessTrichotomy(a, b);
    LessTrichotomy(a, a);
  }

  /** Of two names that parse, the one with the greater number where the padded numbers first
      differ is newer; where they never differ, or a name does not parse, the greater name is. */
  lemma NumbersDecide(a: string, b: string, d: nat)
    ensures Numeric(a) && Numeric(b) && AgreeUpTo(Parts(a), Parts(b), 0, d) && At(Parts(a), d) != At(Parts(b), d) ==>
              (Newer(a, b) <==> At(Parts(a), d) > At(Parts(b), d))
    ensures !Numeric(a) || !Numeric(b) || (forall n: nat :: At(Parts(a), n) == At(Parts(b), n)) ==> (Newer(a, b) <==> Less(b, a))
  {
    var p, q := Parts(a), Parts(b);
    if AgreeUpTo(p, q, 0, d) && At(p, d) != At(q, d) { DecidedAt(p, q, 0, d); }
    if CompareFrom(p, q, 0) != 0 { var e := DecidesSomewhere(p, q, 0); }
  }

  /** On names that all parse the comparator is transitive, so a strict total order. */
  lemma NewerTransitive(a: string, b: string, c: string)
    requires Numeric(a) && Numeric(b) && Numeric(c) && Newer(a, b) && Newer(b, c)
    ensures Newer(a, c)
  {
    CompareTransitive(Parts(a), Parts(b), Parts(c));
    if CompareFrom(Parts(a), Parts(c), 0) == 0 { LessTransitive(c, b, a); }
  }

  /** A name that does not parse lies, as text, between two that do and are ordered the other
      way as numbers. */
  predicate Straddled(x: string, y: string, u: string) {
    Numeric(x) && Numeric(y) && !Numeric(u) && Newer(x, y) && Less(x, u) && Less(u, y)
  }

  lemma StraddledCycles(x: string, y: string, u: string)
    requires Straddled(x, y, u)
    ensures Newer(x, y) && Newer(y, u) && Newer(u, x)
  {
  }

  /** Every cycle of three contains such a name. */
  lemma CycleStraddles(a: string, b: string, c: string)
    requires Newer(a, b) && Newer(b, c) && Newer(c, a)
    ensures Straddled(a, b, c) || Straddled(b, c, a) || Straddled(c, a, b)
  {
    NewerTotal(a, c);
    if Numeric(a) && Numeric(b) && Numeric(c) {
      NewerTransitive(a, b, c);
    } else if (Numeric(a) && Numeric(b)) || (Numeric(b) && Numeric(c)) || (Numeric(c) && Numeric(a)) {
    } else {
      LessTransitive(c, b, a);
      LessTrichotomy(c, a);
    }
  }

  predicate NoneStraddled(s: seq<string>) {
    forall x <- s, y <- s, u <- s :: !Straddled(x, y, u)
  }

  /** The comparator orders a directory's names exactly when no unparseable name lies, as
      text, between two versions that compare the other way as numbers. */
  lemma OrderExactly(s: seq<string>)
    ensures OrderOn(Newer, s) <==> NoneStraddled(s)
  {
    if NoneStraddled(s) {
      forall a <- s, b <- s ensures Newer(a, b) ==> !Newer(b, a) { NewerTotal(a, b); }
      forall a <- s, b <- s, c <- s | Newer(a, b) && !Newer(c, b) ensures Newer(a, c) {
        NewerTotal(c, b);
        NewerTotal(a, b);
        NewerTotal(a, c);
        if c != b && !Newer(a, c) { CycleStraddles(a, b, c); }
      }
    } else {
      var x, y, u :| x in s && y in s && u in s && Straddled(x, y, u);
      StraddledCycles(x, y, u);
      assert Newer(x, y) && Newer(y, u) && Newer(u, x);
    }
  }

  predicate AllNumeric(s: seq<string>) {
    forall name <- s :: Numeric(name)
  }

  /** When every name parses there is nothing to straddle: the comparator orders them. */
  lemma NumericOrdered(s: seq<string>)
    requires AllNumeric(s)
    ensures NoneStraddled(s) && OrderOn(Newer, s)
  {
    OrderExactly(s);
  }

  lemma {:induction false} DottedParts(name: string, last: string)
    requires Numeric(name) && '.' !in last && ParseInt(last).ok
    ensures Parts(name + "." + last) == Parts(name) + [ParseInt(last).value]
  {
    SplitAtSeparator(name, last, '.');
    SplitAtom(last, '.');
    var fields := Split(name, '.');
    assert Split(name + "." + last, '.') == fields + [last];
    assert Numbers(fields + [last]) == Numbers(fields) + [ParseInt(last).value];
  }

  lemma SingleParts(name: string)
    requires '.' !in name
    ensures Parts(name) == if ParseInt(name).ok then [ParseInt(name).value] else []
  {
    SplitAtom(name, '.');
  }

  lemma SmallNumbers()
    ensures ParseInt("0") == Parsed(0, true) && ParseInt("1") == Parsed(1, true)
    ensures ParseInt("2") == Parsed(2, true) && ParseInt("9") == Parsed(9, true)
    ensures ParseInt("10") == Parsed(10, true) && !ParseInt("5x").ok
  {
    assert FormatInt(10) == "10";
    ParseFormat(10);
  }

  /** 2.1 and 2.1.0 compare equal as numbers, and the longer name comes first. */
  lemma TiesBrokenByName()
    ensures CompareFrom(Parts("2.1"), Parts("2.1.0"), 0) == 0 && Newer("2.1.0", "2.1")
  {
    SmallNumbers();
    SingleParts("2");
    DottedParts("2", "1");
    assert "2" + "." + "1" == "2.1";
    DottedParts("2.1", "0");
    assert "2.1" + "." + "0" == "2.1.0";
    assert Parts("2.1") == [2, 1] && Parts("2.1.0") == [2, 1, 0];
    CompareTwoThree();
    LessAfterPrefix("2.1", "", ".0");
    assert "2.1" + "" == "2.1" && "2.1" + ".0" == "2.1.0";
  }

  lemma CompareTwoThree()
    ensures CompareFrom([2, 1], [2, 1, 0], 0) == 0 && CompareFrom([2, 1, 0], [2, 1], 0) == 0
    ensures CompareFrom([10, 0], [9, 0], 0) > 0
  {
    assert CompareFrom([2, 1], [2, 1, 0], 2) == 0 && CompareFrom([2, 1, 0], [2, 1], 2) == 0;
  }

  lemma SampleParts()
    ensures Parts("9.0") == [9, 0] && Parts("10.0") == [10, 0] && Parts("5x") == []
  {
    SmallNumbers();
    SingleParts("9");
    SingleParts("10");
    SingleParts("5x");
    DottedParts("9", "0");
    DottedParts("10", "0");
    assert "9" + "." + "0" == "9.0" && "10" + "." + "0" == "10.0";
  }

  /** Without the condition the comparator can cycle. */
  lemma UnparseableNameCycles()
    ensures Newer("9.0", "5x") && Newer("5x", "10.0") && Newer("10.0", "9.0")
  {
    SampleParts();
    CompareTwoThree();
  }
}
