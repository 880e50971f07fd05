/** Rounding of costs in dollars to stored micros, in exact reals. */
module Cost {
  import opened Wrappers
  import opened Seqs
  import opened Decimal
  import opened Timestamps
  import opened Otlp
  import opened Ledger
  import opened Query
  import opened Reports
  import opened Protocol
  import opened Delivery

  /** The record states a cost of `x` dollars, as a number or as a decimal string, and no
      non-zero cost in micros. */
  predicate StatesDollars(lib: Library, m: Merged, x: real) {
    && Number(m, "cost_usd_micros") == 0
    && (Lookup(m.attrs, "cost_usd") == Float(x) ||
        (Lookup(m.attrs, "cost_usd").Str? && lib.parseFloat(Lookup(m.attrs, "cost_usd").s) == x))
  }

  /** The rounded micros fit an int64. */
  predicate FitsMicros(z: real) {
    MIN_INT64 as real <= z + 0.5 < MAX_INT64 as real + 1.0
  }

  /** Small enough for an int64 of micros, and at least minus half a micro or half a micro below
      a whole number of them. */
  predicate Billable(x: real) {
    FitsMicros(x * MICROS) && (x * MICROS >= -0.5 || Whole(x * MICROS + 0.5))
  }

  lemma FloorBounds(y: real)
    ensures y.Floor as real <= y < y.Floor as real + 1.0
  {
  }

  /** Truncating y: the floor from zero up, the ceiling below. */
  lemma TruncateBounds(y: real)
    requires MIN_INT64 as real <= y < MAX_INT64 as real + 1.0
    ensures y >= 0.0 ==> Truncate(y) == y.Floor && Truncate(y) as real <= y < Truncate(y) as real + 1.0
    ensures y < 0.0 ==> Truncate(y) == -(-y).Floor && Truncate(y) as real - 1.0 < y <= Truncate(y) as real
  {
    FloorBounds(y);
    FloorBounds(-y);
  }

  predicate Whole(z: real) {
    z.Floor as real == z
  }

  /** A real is whole exactly when its negation is. */
  lemma WholeNegated(z: real)
    ensures Whole(z) <==> Whole(-z)
  {
    if Whole(z) { WholeIs(-z.Floor); }
    if Whole(-z) { WholeIs(-(-z).Floor); }
  }

  lemma WholeIs(n: int)
    ensures Whole(n as real) && (n as real).Floor == n
  {
  }

  lemma HalfIsNoWhole(n: int)
    ensures !Whole(n as real + 0.5) && (n as real + 0.5).Floor == n
  {
    assert (n as real + 0.5).Floor == n;
  }

  /** Adding half a micro and truncating rounds to the nearest exactly from minus half a micro
      up, and below that only where the sum is whole; it is exact only for whole numbers that
      are not negative. */
  lemma NearestExactly(z: real)
    requires FitsMicros(z)
    ensures -0.5 <= Truncate(z + 0.5) as real - z <= 0.5 <==> z >= -0.5 || Whole(z + 0.5)
    ensures Truncate(z + 0.5) as real == z <==> z >= 0.0 && Whole(z)
  {
    var y := z + 0.5;
    var n := Truncate(y);
    TruncateBounds(y);
    WholeNegated(y);
    if Whole(z) { HalfIsNoWhole(z.Floor); }
    if n as real == z { WholeIs(n); }
  }

  /** One cost is rounded to the nearest micro exactly when this can be said of it: it is at
      least minus half a micro, or lies half a micro below a whole number of them. */
  lemma CostRoundedExactly(lib: Library, m: Merged, x: real)
    requires StatesDollars(lib, m, x) && FitsMicros(x * MICROS)
    ensures var z := x * MICROS;
            && (-0.5 <= CostMicros(lib, m.attrs) as real - z <= 0.5 <==> z >= -0.5 || Whole(z + 0.5))
            && (CostMicros(lib, m.attrs) as real == z <==> z >= 0.0 && Whole(z))
  {
    NearestExactly(x * MICROS);
    assert CostMicros(lib, m.attrs) == Truncate(x * MICROS + 0.5);
  }

  /** Such a cost, and so every cost that is not negative, is rounded by at most half a micro,
      and not at all exactly when it is whole. */
  lemma RoundedToNearest(lib: Library, m: Merged, x: real)
    requires StatesDollars(lib, m, x) && Billable(x)
    ensures -0.5 <= CostMicros(lib, m.attrs) as real - x * MICROS <= 0.5
    ensures CostMicros(lib, m.attrs) as real == x * MICROS <==> Whole(x * MICROS)
  {
    CostRoundedExactly(lib, m, x);
    BillableWhole(x * MICROS);
  }

  lemma BillableWhole(z: real)
    requires z >= -0.5 || Whole(z + 0.5)
    ensures Whole(z) ==> z >= 0.0
  {
    if Whole(z) { HalfIsNoWhole(z.Floor); }
  }

  /** Truncation rounds negative costs toward zero: 1.4 micros below zero count as none, which
      is more than half a micro off. */
  lemma NegativeCostMisses(lib: Library, m: Merged)
    requires StatesDollars(lib, m, -0.0000014)
    ensures CostMicros(lib, m.attrs) == 0
    ensures !(-0.5 <= CostMicros(lib, m.attrs) as real - (-0.0000014) * MICROS <= 0.5)
  {
    assert -0.0000014 * MICROS + 0.5 == -0.9;
    assert (-(-0.9)).Floor == 0;
    assert CostMicros(lib, m.attrs) == Truncate(-0.9);
  }

  function SumOfDollars(xs: seq<real>): real {
    if xs == [] then 0.0 else SumOfDollars(xs[..|xs| - 1]) + xs[|xs| - 1]
  }

  predicate Costs(lib: Library, ms: seq<Merged>, xs: seq<real>) {
    |ms| == |xs| && forall i | 0 <= i < |ms| :: StatesDollars(lib, ms[i], xs[i]) && Billable(xs[i])
  }

  function SumOfMicros(lib: Library, ms: seq<Merged>): int {
    if ms == [] then 0 else SumOfMicros(lib, ms[..|ms| - 1]) + CostMicros(lib, ms[|ms| - 1].attrs)
  }

  lemma {:induction false} SumRounded(lib: Library, ms: seq<Merged>, xs: seq<real>)
    requires Costs(lib, ms, xs)
    ensures var error := SumOfMicros(lib, ms) as real - SumOfDollars(xs) * MICROS;
            -0.5 * |ms| as real <= error <= 0.5 * |ms| as real
    ensures (forall x <- xs :: Whole(x * MICROS)) ==>
            SumOfMicros(lib, ms) as real == SumOfDollars(xs) * MICROS
  {
    if ms != [] {
      var n := |ms| - 1;
      SumRounded(lib, ms[..n], xs[..n]);
      RoundedToNearest(lib, ms[n], xs[n]);
      assert xs[n] in xs && forall x <- xs[..n] :: x in xs;
      assert SumOfDollars(xs) * MICROS == SumOfDollars(xs[..n]) * MICROS + xs[n] * MICROS;
    }
  }

  function EventsOf(lib: Library, ms: seq<Merged>, t: Instant): seq<Event> {
    seq(|ms|, i requires 0 <= i < |ms| => EventOf(lib, ms[i], t))
  }

  /** The rows carry the costs of the records. */
  predicate CarryCosts(lib: Library, ms: seq<Merged>, rows: seq<Row>) {
    |rows| == |ms| && forall i | 0 <= i < |ms| :: rows[i].event.costMicros == CostMicros(lib, ms[i].attrs)
  }

  lemma {:induction false} StoredMicros(lib: Library, ms: seq<Merged>, rows: seq<Row>)
    requires CarryCosts(lib, ms, rows)
    ensures Sum(CostUsdMicros, rows) == SumOfMicros(lib, ms)
  {
    if ms != [] { StoredMicros(lib, ms[..|ms| - 1], rows[..|ms| - 1]); }
  }

  lemma RowsCarryCosts(lib: Library, ms: seq<Merged>, t: Instant, now: string)
    requires forall m <- ms :: EventName(lib, m) == "api_request"
    ensures var rows := RowsOf(EventsOf(lib, ms, t), now);
            CarryCosts(lib, ms, rows) && forall r <- rows :: Wanted(None, "", true, r)
  {
    var events := EventsOf(lib, ms, t);
    var rows := RowsOf(events, now);
    forall i | 0 <= i < |ms|
      ensures rows[i].event.costMicros == CostMicros(lib, ms[i].attrs) && rows[i].event.name == "api_request"
    {
      assert ms[i] in ms && rows[i].event == events[i];
      EventCost(lib, ms[i], t);
    }
  }

  /** The cost of all requests in the store. */
  function StoredCost(t: Table): int {
    TotalsOf(Selected(t, None, "", true)).costUsdMicros
  }

  lemma StoredCostAppend(t: Table, rows: seq<Row>)
    requires forall r <- rows :: Wanted(None, "", true, r)
    ensures StoredCost(t + rows) == StoredCost(t) + Sum(CostUsdMicros, rows)
  {
    var wanted := (r: Row) => Wanted(None, "", true, r);
    FilterAppend(wanted, t, rows);
    FilterAll(wanted, rows);
    SumAppend(CostUsdMicros, Filter(wanted, t), rows);
  }

  /** Within half a micro per request of a million times the true sum, and exact when every
      cost is a whole number of micros. */
  predicate WithinHalfMicros(added: int, xs: seq<real>) {
    && -0.5 * |xs| as real <= added as real - SumOfDollars(xs) * MICROS <= 0.5 * |xs| as real
    && ((forall x <- xs :: Whole(x * MICROS)) ==> added as real == SumOfDollars(xs) * MICROS)
  }

  /** n requests with new and distinct keys add their costs to what any store holds, within
      n/2 micros of the true sum. */
  lemma AccumulatedCost(lib: Library, ms: seq<Merged>, xs: seq<real>, t: Instant, now: string, table: Table)
    requires Costs(lib, ms, xs)
    requires forall m <- ms :: EventName(lib, m) == "api_request"
    requires UniqueKeys(RowsOf(EventsOf(lib, ms, t), now)) && Keys(RowsOf(EventsOf(lib, ms, t), now)) !! Keys(table)
    ensures WithinHalfMicros(StoredCost(InsertAll(table, RowsOf(EventsOf(lib, ms, t), now))) - StoredCost(table), xs)
  {
    var rows := RowsOf(EventsOf(lib, ms, t), now);
    RowsCarryCosts(lib, ms, t, now);
    NewKeysAppended(table, rows);
    StoredCostAppend(table, rows);
    StoredMicros(lib, ms, rows);
    SumRounded(lib, ms, xs);
  }

  /** The same for n requests delivered at least once in any batches: whatever was posted again
      or failed in between, once every batch is acknowledged the store has gained their cost. */
  lemma DeliveredCost(lib: Library, ms: seq<Merged>, xs: seq<real>, t: Instant, start: Table,
                      batches: seq<seq<Event>>, posts: seq<Post>, schedule: seq<Turn>, acked: set<nat>)
    requires Costs(lib, ms, xs) && AllEvents(batches) == EventsOf(lib, ms, t)
    requires forall m <- ms :: EventName(lib, m) == "api_request"
    requires UniqueKeys(start) && UniqueKeys(RowsOf(EventsOf(lib, ms, t), ""))
    requires Keys(RowsOf(EventsOf(lib, ms, t), "")) !! Keys(start)
    requires PostsOf(batches, posts) && Acknowledged(Run(Delivery.Launch(start, batches, posts), schedule), acked)
    requires forall b | 0 <= b < |batches| :: BatchAcknowledged(posts, acked, b)
    ensures WithinHalfMicros(StoredCost(Run(Delivery.Launch(start, batches, posts), schedule).committed) - StoredCost(start), xs)
  {
    var all := AllEvents(batches);
    DistinctKeysConsistent(all);
    ExactlyOnce(start, batches, posts, schedule, acked, None, "", true);
    AccumulatedCost(lib, ms, xs, t, "", start);
  }

  lemma DistinctKeysConsistent(events: seq<Event>)
    requires UniqueKeys(RowsOf(events, ""))
    ensures Consistent(events)
  {
    var rows := RowsOf(events, "");
    forall e, f | e in events && f in events && e.key == f.key ensures e == f {
      var i :| 0 <= i < |events| && events[i] == e;
      var j :| 0 <= j < |events| && events[j] == f;
      assert rows[i].event == e && rows[j].event == f;
    }
  }
}
