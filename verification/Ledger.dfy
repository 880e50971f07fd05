/** The usage table on values: a sequence of rows with unique keys, and what inserting and
    pruning do to it. The store and the concurrent protocol are proved against these. */
module Ledger {
  import opened Seqs
  import opened Texts
  import opened Timestamps
  import opened Otlp
  import opened EventKey

  /** A row of usage_events: the event, its printed time and the printed insertion time. */
  datatype Row = Row(event: Event, eventTime: string, receivedAt: string)

  type Table = seq<Row>

  function RowOf(e: Event, now: string): Row {
    Row(e, Format(e.time), now)
  }

  function RowsOf(events: seq<Event>, now: string): seq<Row> {
    seq(|events|, i requires 0 <= i < |events| => RowOf(events[i], now))
  }

  function Keys(t: seq<Row>): set<string> {
    set r <- t :: r.event.key
  }

  /** The UNIQUE constraint on event_key. */
  predicate UniqueKeys(t: Table) {
    forall i, j | 0 <= i < j < |t| :: t[i].event.key != t[j].event.key
  }

  /** INSERT OR IGNORE of one row. */
  function InsertRow(t: Table, r: Row): Table {
    if r.event.key in Keys(t) then t else t + [r]
  }

  function InsertAll(t: Table, rows: seq<Row>): Table {
    if rows == [] then t else InsertRow(InsertAll(t, rows[..|rows| - 1]), rows[|rows| - 1])
  }

  predicate NotBefore(r: Row, cutoff: string) {
    !Less(r.eventTime, cutoff)
  }

  /** DELETE ... WHERE event_time < cutoff, by text comparison. */
  function Prune(t: Table, cutoff: string): Table {
    Filter(r => NotBefore(r, cutoff), t)
  }

  // ------------------------------------------------------------------- inserting

  lemma InsertAllSnoc(t: Table, rows: seq<Row>, r: Row)
    ensures InsertAll(t, rows + [r]) == InsertRow(InsertAll(t, rows), r)
  {
    assert (rows + [r])[..|rows|] == rows;
  }

  lemma RowsOfAppend(a: seq<Event>, b: seq<Event>, now: string)
    ensures RowsOf(a + b, now) == RowsOf(a, now) + RowsOf(b, now)
  {
  }

  /** Inserting a concatenation is inserting its parts in turn. */
  lemma {:induction false} InsertConcatenation(t: Table, a: seq<Row>, b: seq<Row>)
    ensures InsertAll(t, a + b) == InsertAll(InsertAll(t, a), b)
  {
    if b == [] {
      assert a + b == a;
    } else {
      var n := |b| - 1;
      InsertConcatenation(t, a, b[..n]);
      assert a + b == (a + b[..n]) + [b[n]];
      InsertAllSnoc(t, a + b[..n], b[n]);
    }
  }

  lemma KeysOfInsertRow(t: Table, r: Row)
    ensures Keys(InsertRow(t, r)) == Keys(t) + {r.event.key}
  {
    if r.event.key !in Keys(t) { KeysSnoc(t, r); }
  }

  lemma {:induction false} InsertAllKeys(t: Table, rows: seq<Row>)
    ensures Keys(InsertAll(t, rows)) == Keys(t) + Keys(rows)
  {
    if rows != [] {
      var front, r := rows[..|rows| - 1], rows[|rows| - 1];
      InsertAllKeys(t, front);
      KeysOfInsertRow(InsertAll(t, front), r);
      assert rows == front + [r];
      KeysSnoc(front, r);
    }
  }

  lemma KeysSnoc(rows: seq<Row>, r: Row)
    ensures Keys(rows + [r]) == Keys(rows) + {r.event.key}
  {
    assert r in rows + [r];
    forall x | x in rows ensures x in rows + [r] { }
  }

  lemma InsertRowUnique(t: Table, r: Row)
    requires UniqueKeys(t)
    ensures UniqueKeys(InsertRow(t, r))
  {
    if r.event.key !in Keys(t) {
      forall i | 0 <= i < |t| ensures t[i].event.key != r.event.key { assert t[i] in t; }
    }
  }

  lemma {:induction false} InsertAllUnique(t: Table, rows: seq<Row>)
    requires UniqueKeys(t)
    ensures UniqueKeys(InsertAll(t, rows))
  {
    if rows != [] {
      InsertAllUnique(t, rows[..|rows| - 1]);
      InsertRowUnique(InsertAll(t, rows[..|rows| - 1]), rows[|rows| - 1]);
    }
  }

  /** Inserting appends offered rows and touches nothing that was there. */
  lemma {:induction false} InsertAllExtends(t: Table, rows: seq<Row>)
    ensures |t| <= |InsertAll(t, rows)| && InsertAll(t, rows)[..|t|] == t
    ensures forall r <- InsertAll(t, rows) :: r in t || r in rows
  {
    if rows == [] {
      assert t[..|t|] == t;
    } else {
      var front := rows[..|rows| - 1];
      InsertAllExtends(t, front);
      assert forall x <- front :: x in rows;
      assert rows[|rows| - 1] in rows;
    }
  }

  /** Delivering a batch that is stored already changes nothing. */
  lemma {:induction false} InsertIdempotent(t: Table, rows: seq<Row>)
    requires Keys(rows) <= Keys(t)
    ensures InsertAll(t, rows) == t
  {
    if rows != [] {
      var front, r := rows[..|rows| - 1], rows[|rows| - 1];
      assert r in rows;
      forall x | x in front ensures x in rows { }
      assert Keys(front) <= Keys(rows);
      InsertIdempotent(t, front);
    }
  }

  /** Splitting a batch over two posts at one insertion time leaves the same table. */
  lemma InsertInParts(t: Table, a: seq<Event>, b: seq<Event>, now: string)
    ensures InsertAll(InsertAll(t, RowsOf(a, now)), RowsOf(b, now)) == InsertAll(t, RowsOf(a + b, now))
  {
    RowsOfAppend(a, b, now);
    InsertConcatenation(t, RowsOf(a, now), RowsOf(b, now));
  }

  /** At two insertion times only those times differ; so the two counts of inserted rows
      always add up to the count of the whole batch. */
  lemma BatchingDoesNotMatter(t: Table, a: seq<Event>, b: seq<Event>, now: string, now': string)
    ensures var first := InsertAll(t, RowsOf(a, now));
            var second := InsertAll(first, RowsOf(b, now'));
            Bare(second) == Bare(InsertAll(t, RowsOf(a + b, now)))
  {
    var first := InsertAll(t, RowsOf(a, now));
    InsertInParts(t, a, b, now);
    SameRowsButTime(b, now, now');
    SameButReceivedAt(first, first, RowsOf(b, now'), RowsOf(b, now));
  }

  /** Rows with new and distinct keys are all appended. */
  lemma {:induction false} NewKeysAppended(t: Table, rows: seq<Row>)
    requires UniqueKeys(rows) && Keys(rows) !! Keys(t)
    ensures InsertAll(t, rows) == t + rows
  {
    if rows == [] {
      assert t + rows == t;
    } else {
      var n := |rows| - 1;
      var front, r := rows[..n], rows[n];
      assert rows == front + [r];
      KeysSnoc(front, r);
      NewKeysAppended(t, front);
      InsertAllKeys(t, front);
      Associative(t, front, [r]);
    }
  }

  // ------------------------------------------------- what does not depend on receipt

  /** A row without its insertion time. */
  function Unstamped(r: Row): Row {
    r.(receivedAt := "")
  }

  function Bare(t: seq<Row>): (u: seq<Row>)
    ensures |u| == |t|
  {
    seq(|t|, i requires 0 <= i < |t| => Unstamped(t[i]))
  }

  lemma KeysOfBare(t: seq<Row>)
    ensures Keys(Bare(t)) == Keys(t)
  {
    var u := Bare(t);
    forall i | 0 <= i < |t| ensures t[i].event.key in Keys(u) { assert u[i] in u; }
    forall i | 0 <= i < |t| ensures u[i].event.key in Keys(t) { assert t[i] in t; }
    assert forall k <- Keys(t) :: k in Keys(u);
    assert forall k <- Keys(u) :: k in Keys(t);
  }

  lemma SameRowsButTime(events: seq<Event>, now: string, now': string)
    ensures Bare(RowsOf(events, now)) == Bare(RowsOf(events, now'))
  {
  }

  lemma InsertSameRow(t: Table, u: Table, r: Row, s: Row)
    requires Bare(t) == Bare(u) && Unstamped(r) == Unstamped(s)
    ensures Bare(InsertRow(t, r)) == Bare(InsertRow(u, s))
  {
    KeysOfBare(t);
    KeysOfBare(u);
    assert r.event == Unstamped(r).event == Unstamped(s).event == s.event;
    assert Bare(t + [r]) == Bare(t) + [Unstamped(r)];
    assert Bare(u + [s]) == Bare(u) + [Unstamped(s)];
  }

  lemma {:induction false} SameButReceivedAt(t: Table, u: Table, a: seq<Row>, b: seq<Row>)
    requires Bare(t) == Bare(u) && Bare(a) == Bare(b)
    ensures Bare(InsertAll(t, a)) == Bare(InsertAll(u, b))
  {
    if a != [] {
      var n := |a| - 1;
      assert |a| == |Bare(a)| == |Bare(b)| == |b| && Bare(a)[n] == Bare(b)[n];
      assert Bare(a[..n]) == Bare(a)[..n] == Bare(b)[..n] == Bare(b[..n]);
      SameButReceivedAt(t, u, a[..n], b[..n]);
      InsertSameRow(InsertAll(t, a[..n]), InsertAll(u, b[..n]), a[n], b[n]);
    }
  }

  // -------------------------------------------------------------------- retention

  lemma PruneShape(t: Table, cutoff: string)
    ensures forall r :: r in Prune(t, cutoff) <==> r in t && NotBefore(r, cutoff)
    ensures |Prune(t, cutoff)| <= |t|
    ensures UniqueKeys(t) ==> UniqueKeys(Prune(t, cutoff))
  {
    FilterMembers(r => NotBefore(r, cutoff), t);
    PruneUnique(t, cutoff);
  }

  lemma {:induction false} PruneUnique(t: Table, cutoff: string)
    ensures UniqueKeys(t) ==> UniqueKeys(Prune(t, cutoff))
  {
    if t != [] {
      var n := |t| - 1;
      PruneUnique(t[..n], cutoff);
      FilterMembers(r => NotBefore(r, cutoff), t[..n]);
      var front := Prune(t[..n], cutoff);
      assert Prune(t, cutoff) == front + if NotBefore(t[n], cutoff) then [t[n]] else [];
      if UniqueKeys(t) {
        forall i | 0 <= i < |front| ensures front[i].event.key != t[n].event.key {
          assert front[i] in front;
        }
      }
    }
  }

  lemma PruneSnoc(t: Table, r: Row, cutoff: string)
    ensures Prune(t + [r], cutoff) == Prune(t, cutoff) + if NotBefore(r, cutoff) then [r] else []
  {
    FilterSnoc(x => NotBefore(x, cutoff), t, r);
  }

  /** Pruning twice is pruning at the later cutoff. */
  lemma {:induction false} PruneTwice(t: Table, early: string, late: string)
    requires !Less(late, early)
    ensures Prune(Prune(t, early), late) == Prune(t, late)
  {
    if t != [] {
      var n := |t| - 1;
      PruneTwice(t[..n], early, late);
      assert t == t[..n] + [t[n]];
      PruneSnoc(t[..n], t[n], early);
      PruneSnoc(t[..n], t[n], late);
      assert Prune(t[..n], early) + [] == Prune(t[..n], early) && Prune(t[..n], late) + [] == Prune(t[..n], late);
      if NotBefore(t[n], early) {
        PruneSnoc(Prune(t[..n], early), t[n], late);
      } else if NotBefore(t[n], late) {
        NotLessTransitive(t[n].eventTime, late, early);
      }
    }
  }

  /** Rows with equal keys carry equal printed event times. */
  predicate KeysFixTime(rows: seq<Row>) {
    forall r <- rows, s <- rows :: r.event.key == s.event.key ==> r.eventTime == s.eventTime
  }

  /** Two tables that hold the same rows from a cutoff on stay so under an insertion. */
  lemma InsertRowAboveCutoff(t: Table, u: Table, r: Row, cutoff: string)
    requires Prune(t, cutoff) == Prune(u, cutoff)
    requires forall x <- t :: x.event.key == r.event.key ==> x.eventTime == r.eventTime
    requires forall x <- u :: x.event.key == r.event.key ==> x.eventTime == r.eventTime
    ensures Prune(InsertRow(t, r), cutoff) == Prune(InsertRow(u, r), cutoff)
  {
    PruneSnoc(t, r, cutoff);
    PruneSnoc(u, r, cutoff);
    if NotBefore(r, cutoff) {
      SameKeyAbove(t, u, r, cutoff);
      SameKeyAbove(u, t, r, cutoff);
    }
  }

  lemma SameKeyAbove(t: Table, u: Table, r: Row, cutoff: string)
    requires Prune(t, cutoff) == Prune(u, cutoff) && NotBefore(r, cutoff)
    requires forall x <- t :: x.event.key == r.event.key ==> x.eventTime == r.eventTime
    ensures r.event.key in Keys(t) ==> r.event.key in Keys(u)
  {
    PruneShape(t, cutoff);
    PruneShape(u, cutoff);
    if r.event.key in Keys(t) {
      var x :| x in t && x.event.key == r.event.key;
      assert x in Prune(u, cutoff);
    }
  }

  lemma {:induction false} InsertAboveCutoff(t: Table, u: Table, rows: seq<Row>, cutoff: string)
    requires Prune(t, cutoff) == Prune(u, cutoff)
    requires KeysFixTime(t + rows) && KeysFixTime(u + rows)
    ensures Prune(InsertAll(t, rows), cutoff) == Prune(InsertAll(u, rows), cutoff)
  {
    if rows != [] {
      var n := |rows| - 1;
      var front, r := rows[..n], rows[n];
      forall x | x in t + front ensures x in t + rows { }
      forall x | x in u + front ensures x in u + rows { }
      InsertAboveCutoff(t, u, front, cutoff);
      InsertAllExtends(t, front);
      InsertAllExtends(u, front);
      assert r in rows;
      forall x | x in InsertAll(t, front) ensures x in t + rows { }
      forall x | x in InsertAll(u, front) ensures x in u + rows { }
      InsertRowAboveCutoff(InsertAll(t, front), InsertAll(u, front), r, cutoff);
    }
  }

  /** Retention is confluent with redelivery: pruning at a cutoff after a batch leaves the
      same rows, in the same order, whether or not an earlier cutoff was pruned before it. */
  lemma RetentionConfluent(t: Table, rows: seq<Row>, early: string, late: string)
    requires !Less(late, early) && KeysFixTime(t + rows)
    ensures Prune(InsertAll(Prune(t, early), rows), late) == Prune(InsertAll(t, rows), late)
  {
    PruneTwice(t, early, late);
    PruneShape(t, early);
    forall x | x in Prune(t, early) + rows ensures x in t + rows { }
    InsertAboveCutoff(Prune(t, early), t, rows, late);
  }

  /** Redelivered old events never survive the next prune. */
  lemma NoOldRowSurvives(t: Table, rows: seq<Row>, cutoff: string)
    ensures forall r <- Prune(InsertAll(t, rows), cutoff) :: !Less(r.eventTime, cutoff)
  {
    PruneShape(InsertAll(t, rows), cutoff);
  }

  /** What the store writes: rows of keyed events. */
  predicate KeyedRows(rows: seq<Row>) {
    forall r <- rows :: Keyed(r.event) && r.eventTime == Format(r.event.time)
  }

  lemma KeyedFixTime(e: Event, f: Event)
    requires Keyed(e) && Keyed(f) && e.key == f.key
    ensures Format(e.time) == Format(f.time)
  {
    assert '|' !in e.name && '|' !in f.name;
    EqualKeysEqualTimeText(e, f);
  }

  lemma KeyedRowsFixTime(rows: seq<Row>)
    requires KeyedRows(rows)
    ensures KeysFixTime(rows)
  {
    forall r <- rows, s <- rows | r.event.key == s.event.key ensures r.eventTime == s.eventTime {
      KeyedFixTime(r.event, s.event);
    }
  }

  /** For decoded events no condition is left: the key contains the printed time. */
  lemma RetentionConfluentForDecoded(t: Table, rows: seq<Row>, early: string, late: string)
    requires !Less(late, early) && KeyedRows(t) && KeyedRows(rows)
    ensures Prune(InsertAll(Prune(t, early), rows), late) == Prune(InsertAll(t, rows), late)
  {
    KeyedRowsFixTime(t + rows);
    RetentionConfluent(t, rows, early, late);
  }
}
