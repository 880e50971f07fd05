/** Retention over whole runs: what earlier prunes did is forgotten by the last one. */
module Retention {
  import opened Wrappers
  import opened Seqs
  import opened Texts
  import opened Timestamps
  import opened Otlp
  import opened EventKey
  import opened Ledger
  import opened Query
  import opened Reports
  import opened Protocol
  import opened Delivery

  /** Inserts offer rows of keyed events; prunes cut no later than `late`. */
  predicate Bounded(c: Call, late: string) {
    match c
    case InsertCall(rows) => KeyedRows(rows)
    case PruneCall(cutoff) => !Less(late, cutoff)
  }

  predicate Inserts(procs: seq<Process>, p: nat) {
    p < |procs| && procs[p].call.InsertCall?
  }

  /** The calls of `order` without the prunes. */
  function OnlyInserts(procs: seq<Process>, order: seq<nat>): (inserts: seq<nat>)
    ensures forall p <- inserts :: p in order && Inserts(procs, p)
  {
    FilterMembers(p => Inserts(procs, p), order);
    Filter(p => Inserts(procs, p), order)
  }

  lemma OnlyInsertsSnoc(procs: seq<Process>, order: seq<nat>, p: nat)
    ensures OnlyInserts(procs, order + [p]) == OnlyInserts(procs, order) + if Inserts(procs, p) then [p] else []
  {
    FilterSnoc(q => Inserts(procs, q), order, p);
  }

  lemma KeyedInsert(t: Table, rows: seq<Row>)
    requires KeyedRows(t) && KeyedRows(rows)
    ensures KeyedRows(InsertAll(t, rows)) && KeyedRows(t + rows)
  {
    InsertAllExtends(t, rows);
  }

  lemma KeyedPrune(t: Table, cutoff: string)
    requires KeyedRows(t)
    ensures KeyedRows(Prune(t, cutoff))
  {
    PruneShape(t, cutoff);
  }

  /** Tables that agree from a cutoff on still do after the same insert, or after an earlier
      prune of one of them. */
  lemma AgreeAfterInsert(a: Table, b: Table, rows: seq<Row>, late: string)
    requires KeyedRows(a) && KeyedRows(b) && KeyedRows(rows) && Prune(a, late) == Prune(b, late)
    ensures Prune(InsertAll(a, rows), late) == Prune(InsertAll(b, rows), late)
  {
    KeyedInsert(a, rows);
    KeyedInsert(b, rows);
    KeyedRowsFixTime(a + rows);
    KeyedRowsFixTime(b + rows);
    InsertAboveCutoff(a, b, rows, late);
  }

  lemma {:induction false} ReplayForgetsPrunes(procs: seq<Process>, t: Table, order: seq<nat>, late: string)
    requires KeyedRows(t) && forall p <- order :: p < |procs| && Bounded(procs[p].call, late)
    ensures var inserts := OnlyInserts(procs, order);
            && KeyedRows(Replay(procs, t, order)) && KeyedRows(Replay(procs, t, inserts))
            && Prune(Replay(procs, t, order), late) == Prune(Replay(procs, t, inserts), late)
  {
    if order != [] {
      var n := |order| - 1;
      var front, p := order[..n], order[n];
      assert order == front + [p] && p in order && forall q <- front :: q in order;
      ReplayForgetsPrunes(procs, t, front, late);
      OnlyInsertsSnoc(procs, front, p);
      var before, inserts := Replay(procs, t, front), OnlyInserts(procs, front);
      match procs[p].call
      case InsertCall(rows) =>
        KeyedInsert(before, rows);
        KeyedInsert(Replay(procs, t, inserts), rows);
        AgreeAfterInsert(before, Replay(procs, t, inserts), rows, late);
        ReplaySnoc(procs, t, inserts, p);
      case PruneCall(cutoff) =>
        KeyedPrune(before, cutoff);
        PruneTwice(before, cutoff, late);
        assert inserts + [] == inserts;
    }
  }

  /** For every schedule of inserts and prunes, a last prune at a cutoff not below the earlier
      ones leaves exactly the rows that the successful inserts alone, in the order they took
      effect, and that one prune leave. */
  lemma EarlierPrunesDoNotMatter(s: State, schedule: seq<Turn>, late: string)
    requires Initial(s) && KeyedRows(s.committed)
    requires forall p <- CommitOrder(s, schedule) :: p < |s.procs| && Bounded(s.procs[p].call, late)
    ensures var inserts := OnlyInserts(s.procs, CommitOrder(s, schedule));
            Prune(Run(s, schedule).committed, late) == Prune(Replay(s.procs, s.committed, inserts), late)
  {
    Serializable(s, schedule);
    ReplayForgetsPrunes(s.procs, s.committed, CommitOrder(s, schedule), late);
  }

  /** So no redelivery brings an old row back: what is left was inserted or there, and is not
      below the cutoff. */
  lemma OldRowsStayAway(s: State, schedule: seq<Turn>, late: string, r: Row)
    requires Initial(s) && KeyedRows(s.committed)
    requires forall p <- CommitOrder(s, schedule) :: p < |s.procs| && Bounded(s.procs[p].call, late)
    ensures var inserts := OnlyInserts(s.procs, CommitOrder(s, schedule));
            r in Prune(Run(s, schedule).committed, late) <==>
            r in Replay(s.procs, s.committed, inserts) && !Less(r.eventTime, late)
  {
    EarlierPrunesDoNotMatter(s, schedule, late);
    PruneShape(Replay(s.procs, s.committed, OnlyInserts(s.procs, CommitOrder(s, schedule))), late);
  }

  // ---------------------------------------------------- exactly once, pruned in between

  function PruneCalls(cutoffs: seq<string>): seq<Process> {
    seq(|cutoffs|, i requires 0 <= i < |cutoffs| => Process(PruneCall(cutoffs[i]), Start))
  }

  /** The store as it is, with every post and every prune about to start. */
  function LaunchPruned(start: Table, batches: seq<seq<Event>>, posts: seq<Post>, cutoffs: seq<string>): State
    requires PostsOf(batches, posts)
  {
    var s := Launch(start, batches, posts);
    s.(procs := s.procs + PruneCalls(cutoffs))
  }

  predicate KeyedEvents(events: seq<Event>) {
    forall e <- events :: Keyed(e)
  }

  lemma CallsBounded(start: Table, batches: seq<seq<Event>>, posts: seq<Post>, cutoffs: seq<string>, late: string, p: nat)
    requires PostsOf(batches, posts) && KeyedEvents(AllEvents(batches)) && forall c <- cutoffs :: !Less(late, c)
    requires p < |posts| + |cutoffs|
    ensures Bounded(LaunchPruned(start, batches, posts, cutoffs).procs[p].call, late)
    ensures Inserts(LaunchPruned(start, batches, posts, cutoffs).procs, p) <==> p < |posts|
    ensures p < |posts| ==>
              LaunchPruned(start, batches, posts, cutoffs).procs[p].call == InsertCall(RowsOfPost(batches, posts, p))
  {
    if p < |posts| {
      forall r | r in RowsOfPost(batches, posts, p) ensures Keyed(r.event) && r.eventTime == Format(r.event.time) {
        PostedRow(batches, posts, p, r);
      }
    } else {
      assert cutoffs[p - |posts|] in cutoffs;
    }
  }

  /** What the posts that succeeded leave on their own, once every batch is acknowledged. */
  lemma PostsStore(start: Table, batches: seq<seq<Event>>, posts: seq<Post>, procs: seq<Process>, inserts: seq<nat>, acked: set<nat>)
    requires PostsOf(batches, posts) && UniqueKeys(start)
    requires forall p <- inserts :: p < |posts| && p < |procs| && procs[p].call == InsertCall(RowsOfPost(batches, posts, p))
    requires forall p <- acked :: p in inserts
    requires forall b | 0 <= b < |batches| :: BatchAcknowledged(posts, acked, b)
    ensures StoresEvents(Replay(procs, start, inserts), start, AllEvents(batches))
  {
    var t, all := Replay(procs, start, inserts), AllEvents(batches);
    ReplayOfInserts(procs, start, inserts);
    StartKeys(t, start);
    forall r | r in t && r !in start ensures r.event in all && r.eventTime == Format(r.event.time) {
      var p :| p in inserts && r in procs[p].call.rows;
      PostedRow(batches, posts, p, r);
    }
    forall e | e in all ensures e.key in Keys(t) {
      AllEventsMembers(batches, e);
      var b :| 0 <= b < |batches| && e in batches[b];
      assert BatchAcknowledged(posts, acked, b);
      var p :| p in acked && p < |posts| && posts[p].batch == b;
      KeysOfRowsOf(batches[b], posts[p].now);
      assert e.key in Keys(procs[p].call.rows);
    }
    forall k | k in Keys(t) && k !in Keys(start) ensures k in KeysOfEvents(all) {
      var r :| r in t && r.event.key == k;
      assert r.event in all;
    }
  }

  lemma {:induction false} PruneOfBare(t: Table, cutoff: string)
    ensures Bare(Prune(t, cutoff)) == Prune(Bare(t), cutoff)
  {
    if t != [] {
      var n := |t| - 1;
      assert Bare(t)[..n] == Bare(t[..n]) && Bare(t)[n] == Unstamped(t[n]);
      PruneOfBare(t[..n], cutoff);
      var front := Prune(t[..n], cutoff);
      assert Bare(front + [t[n]]) == Bare(front) + [Unstamped(t[n])];
      assert front + [] == front && Bare(front) + [] == Bare(front);
    }
  }

  lemma PrunedContents(t: Table, u: Table, cutoff: string)
    requires multiset(Bare(t)) == multiset(Bare(u))
    ensures multiset(Bare(Prune(t, cutoff))) == multiset(Bare(Prune(u, cutoff)))
  {
    PruneOfBare(t, cutoff);
    PruneOfBare(u, cutoff);
    var kept := (r: Row) => NotBefore(r, cutoff);
    forall x ensures multiset(Filter(kept, Bare(t)))[x] == multiset(Filter(kept, Bare(u)))[x] {
      FilterMultiset(kept, Bare(t), x);
      FilterMultiset(kept, Bare(u), x);
    }
  }

  /** Exactly-once accounting with retention: posts and prunes interleave and fail in any way,
      and once every batch has been acknowledged a last prune at a cutoff not below the earlier
      ones leaves the totals that it leaves of the rows that were there and one row per new key. */
  lemma ExactlyOnceRetained(start: Table, batches: seq<seq<Event>>, posts: seq<Post>, cutoffs: seq<string>, late: string,
                            schedule: seq<Turn>, acked: set<nat>, since: Option<Instant>, person: string, requestsOnly: bool)
    requires PostsOf(batches, posts) && UniqueKeys(start) && Consistent(AllEvents(batches))
    requires KeyedRows(start) && KeyedEvents(AllEvents(batches)) && forall c <- cutoffs :: !Less(late, c)
    requires Acknowledged(Run(LaunchPruned(start, batches, posts, cutoffs), schedule), acked)
    requires forall p <- acked :: p < |posts|
    requires forall b | 0 <= b < |batches| :: BatchAcknowledged(posts, acked, b)
    ensures var t := Prune(Run(LaunchPruned(start, batches, posts, cutoffs), schedule).committed, late);
            TotalsOf(Selected(t, since, person, requestsOnly)) ==
            TotalsOf(Selected(Prune(Once(start, AllEvents(batches)), late), since, person, requestsOnly))
  {
    var all := AllEvents(batches);
    var inserts := PrunedRun(start, batches, posts, cutoffs, late, schedule, acked);
    var s := LaunchPruned(start, batches, posts, cutoffs);
    PostsStore(start, batches, posts, s.procs, inserts, acked);
    OnceStores(start, all);
    var left, once := Replay(s.procs, start, inserts), Once(start, all);
    SameContents(left, once, start, all);
    PrunedContents(left, once, late);
    TotalsDependOnContentsOnly(Prune(left, late), Prune(once, late), since, person, requestsOnly);
  }

  /** The posts that took effect, acknowledged ones among them, decide what is left. */
  lemma PrunedRun(start: Table, batches: seq<seq<Event>>, posts: seq<Post>, cutoffs: seq<string>, late: string,
                  schedule: seq<Turn>, acked: set<nat>) returns (inserts: seq<nat>)
    requires PostsOf(batches, posts) && UniqueKeys(start)
    requires KeyedRows(start) && KeyedEvents(AllEvents(batches)) && forall c <- cutoffs :: !Less(late, c)
    requires Acknowledged(Run(LaunchPruned(start, batches, posts, cutoffs), schedule), acked)
    requires forall p <- acked :: p < |posts|
    ensures var s := LaunchPruned(start, batches, posts, cutoffs);
            && (forall p <- inserts :: p < |posts| && p < |s.procs| && s.procs[p].call == InsertCall(RowsOfPost(batches, posts, p)))
            && (forall p <- acked :: p in inserts)
            && Prune(Run(s, schedule).committed, late) == Prune(Replay(s.procs, start, inserts), late)
  {
    var s := LaunchPruned(start, batches, posts, cutoffs);
    var order := CommitOrder(s, schedule);
    Serializable(s, schedule);
    inserts := OnlyInserts(s.procs, order);
    FilterMembers(p => Inserts(s.procs, p), order);
    forall p: nat | p < |s.procs|
      ensures Bounded(s.procs[p].call, late) && (Inserts(s.procs, p) <==> p < |posts|)
      ensures p < |posts| ==> s.procs[p].call == InsertCall(RowsOfPost(batches, posts, p))
    {
      CallsBounded(start, batches, posts, cutoffs, late, p);
    }
    EarlierPrunesDoNotMatter(s, schedule, late);
  }
}
