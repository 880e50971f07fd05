/** At-least-once delivery into the store: an exporter posts batches until they are
    acknowledged, posts run concurrently, any of them may fail at any row, and
    acknowledgements get lost. The store may hold rows already; pruning is off. */
module Delivery {
  import opened Wrappers
  import opened Timestamps
  import opened Otlp
  import opened EventKey
  import opened Ledger
  import opened Query
  import opened Reports
  import opened Storage
  import opened Protocol

  // ------------------------------------------------------------ one post on the store

  /** The handler of POST /v1/logs: a missing token, a body that cannot be read, a payload
      that does not decode, a storage error, or success. Only success is acknowledged, and
      only success changes the table. */
  method IngestLogs(store: Store, lib: Library, authorized: bool, readable: bool, payload: Option<Request>,
                    receivedAt: Instant, now: string, faults: Faults) returns (status: nat)
    requires store.Valid()
    modifies store
    ensures store.Valid()
    ensures status == 200 <==>
              && authorized && readable && payload.Some?
              && var events := Decoded(lib, payload.value, receivedAt);
                 events == [] || Faultless(faults, |events|)
    ensures status == 200 ==>
              store.table == Posted(old(store.table), lib, payload.value, receivedAt, now)
    ensures status != 200 ==> store.table == old(store.table)
    ensures status in {200, 400, 401, 500}
    ensures status == 401 <==> !authorized
    ensures status == 400 <==> authorized && (!readable || payload.None?)
  {
    if !authorized { return 401; }
    if !readable { return 400; }
    if payload.None? { return 400; }
    var events := Decode(lib, payload.value, receivedAt);
    var inserted, err := store.Insert(events, now, faults);
    status := if err.Some? then 500 else 200;
  }

  // ------------------------------------------------------------------- runs of posts

  /** One delivery attempt: which batch, and the insertion time it is stored under. */
  datatype Post = Post(batch: nat, now: string)

  predicate PostsOf(batches: seq<seq<Event>>, posts: seq<Post>) {
    forall p <- posts :: p.batch < |batches|
  }

  function RowsOfPost(batches: seq<seq<Event>>, posts: seq<Post>, p: nat): seq<Row>
    requires PostsOf(batches, posts) && p < |posts|
  {
    assert posts[p] in posts;
    RowsOf(batches[posts[p].batch], posts[p].now)
  }

  /** The store as it is, with every post about to start. */
  function Launch(start: Table, batches: seq<seq<Event>>, posts: seq<Post>): State
    requires PostsOf(batches, posts)
  {
    State(None, start, None,
          seq(|posts|, p requires 0 <= p < |posts| => Process(InsertCall(RowsOfPost(batches, posts, p)), Start)))
  }

  function KeysOfEvents(events: seq<Event>): set<string> {
    set e <- events :: e.key
  }

  /** Posts whose success was reported back: any set of posts that did succeed. */
  predicate Acknowledged(f: State, acked: set<nat>) {
    forall p <- acked :: p < |f.procs| && Succeeding(f.procs[p].phase)
  }

  predicate BatchAcknowledged(posts: seq<Post>, acked: set<nat>, b: nat) {
    exists p <- acked :: p < |posts| && posts[p].batch == b
  }

  lemma KeysOfRowsOf(events: seq<Event>, now: string)
    ensures Keys(RowsOf(events, now)) == KeysOfEvents(events)
  {
    var rows := RowsOf(events, now);
    forall i | 0 <= i < |events| ensures rows[i] in rows && events[i] in events && rows[i].event == events[i] { }
    forall k ensures k in Keys(rows) <==> k in KeysOfEvents(events) {
      if k in Keys(rows) {
        var i :| 0 <= i < |rows| && rows[i].event.key == k;
        assert events[i] in events;
      }
      if k in KeysOfEvents(events) {
        var i :| 0 <= i < |events| && events[i].key == k;
        assert rows[i] in rows;
      }
    }
  }

  predicate StartsWith(t: Table, start: Table) {
    |start| <= |t| && t[..|start|] == start
  }

  /** A serial run of inserts keeps the rows it starts from; the others come from the calls it
      ran, and the keys of those are all there. */
  lemma {:induction false} ReplayOfInserts(procs: seq<Process>, start: Table, order: seq<nat>)
    requires UniqueKeys(start) && forall p <- order :: p < |procs| && procs[p].call.InsertCall?
    ensures UniqueKeys(Replay(procs, start, order)) && StartsWith(Replay(procs, start, order), start)
    ensures forall r <- Replay(procs, start, order) :: r in start || exists p <- order :: r in procs[p].call.rows
    ensures forall p <- order :: Keys(procs[p].call.rows) <= Keys(Replay(procs, start, order))
  {
    if order == [] {
      assert start[..|start|] == start;
    } else {
      var n := |order| - 1;
      var front, last := order[..n], order[n];
      assert order == front + [last] && last in order;
      assert forall p <- front :: p in order;
      ReplayOfInserts(procs, start, front);
      OneMoreInsert(Replay(procs, start, front), start, procs[last].call.rows);
    }
  }

  lemma OneMoreInsert(before: Table, start: Table, rows: seq<Row>)
    requires UniqueKeys(before) && StartsWith(before, start)
    ensures var after := InsertAll(before, rows);
            && UniqueKeys(after) && StartsWith(after, start)
            && (forall r <- after :: r in before || r in rows)
            && Keys(before) <= Keys(after) && Keys(rows) <= Keys(after)
  {
    InsertAllUnique(before, rows);
    InsertAllExtends(before, rows);
    InsertAllKeys(before, rows);
    assert InsertAll(before, rows)[..|start|] == InsertAll(before, rows)[..|before|][..|start|];
  }

  lemma RunOfPosts(start: Table, batches: seq<seq<Event>>, posts: seq<Post>, schedule: seq<Turn>) returns (order: seq<nat>)
    requires PostsOf(batches, posts) && UniqueKeys(start)
    ensures var f := Run(Launch(start, batches, posts), schedule);
            && |f.procs| == |posts|
            && UniqueKeys(f.committed) && StartsWith(f.committed, start)
            && (forall p <- order :: p < |posts|)
            && (forall p | 0 <= p < |posts| :: p in order <==> Succeeding(f.procs[p].phase))
            && (forall r <- f.committed :: r in start || exists p <- order :: r in RowsOfPost(batches, posts, p))
            && (forall p <- order :: Keys(RowsOfPost(batches, posts, p)) <= Keys(f.committed))
  {
    var s := Launch(start, batches, posts);
    Serializable(s, schedule);
    order := CommitOrder(s, schedule);
    ReplayOfInserts(s.procs, start, order);
    forall r | r in Run(s, schedule).committed && r !in start ensures exists p <- order :: r in RowsOfPost(batches, posts, p) {
      var p :| p in order && r in s.procs[p].call.rows;
      assert s.procs[p].call.rows == RowsOfPost(batches, posts, p);
    }
  }

  lemma StartKeys(t: Table, start: Table)
    requires StartsWith(t, start)
    ensures Keys(start) <= Keys(t) && forall r <- start :: r in t
  {
    forall r | r in start ensures r in t {
      var i :| 0 <= i < |start| && start[i] == r;
      assert t[..|start|][i] == t[i];
    }
  }

  /** In every run, acknowledged keys are stored, and stored keys were there or were sent. */
  lemma AcknowledgedStoredSent(start: Table, batches: seq<seq<Event>>, posts: seq<Post>, schedule: seq<Turn>, acked: set<nat>)
    requires PostsOf(batches, posts) && UniqueKeys(start)
    requires Acknowledged(Run(Launch(start, batches, posts), schedule), acked)
    ensures var stored := Keys(Run(Launch(start, batches, posts), schedule).committed);
            && Keys(start) <= stored
            && (forall p <- acked :: p < |posts| && KeysOfEvents(batches[posts[p].batch]) <= stored)
            && (forall k <- stored :: k in Keys(start) || exists p :: 0 <= p < |posts| && k in KeysOfEvents(batches[posts[p].batch]))
  {
    var order := RunOfPosts(start, batches, posts, schedule);
    var f := Run(Launch(start, batches, posts), schedule);
    StartKeys(f.committed, start);
    forall p | 0 <= p < |posts| ensures Keys(RowsOfPost(batches, posts, p)) == KeysOfEvents(batches[posts[p].batch]) {
      KeysOfRowsOf(batches[posts[p].batch], posts[p].now);
    }
    forall k | k in Keys(f.committed) && k !in Keys(start)
      ensures exists p :: 0 <= p < |posts| && k in KeysOfEvents(batches[posts[p].batch])
    {
      var r :| r in f.committed && r.event.key == k;
      var p :| p in order && r in RowsOfPost(batches, posts, p);
      assert k in Keys(RowsOfPost(batches, posts, p));
    }
  }

  /** A scope split over two posts, received at one time or with times of their own, leaves the
      rows that one post would have left, up to their insertion times, and the two posts together
      insert as many. */
  lemma SplitPostsStoreAlike(table: Table, lib: Library, attributes: seq<KeyValue>, before: seq<seq<LogRecord>>,
                             r: seq<LogRecord>, s: seq<LogRecord>, after: seq<seq<LogRecord>>,
                             t: Instant, u: Instant, now: string, later: string)
    requires t == u || SelfTimed(lib, [ResourceLogs(attributes, [s] + after)])
    ensures var whole := Posted(table, lib, [ResourceLogs(attributes, before + [r + s] + after)], t, now);
            var first := Posted(table, lib, [ResourceLogs(attributes, before + [r])], t, now);
            var second := Posted(first, lib, [ResourceLogs(attributes, [s] + after)], u, later);
            && Bare(second) == Bare(whole)
            && (|first| - |table|) + (|second| - |first|) == |whole| - |table|
  {
    SplittingScopes(lib, attributes, before, r, s, after, t);
    ReceiveTimeIrrelevant(lib, [ResourceLogs(attributes, [s] + after)]);
    var a := Decoded(lib, [ResourceLogs(attributes, before + [r])], t);
    var b := Decoded(lib, [ResourceLogs(attributes, [s] + after)], t);
    BatchingDoesNotMatter(table, a, b, now, later);
    var second := Posted(Posted(table, lib, [ResourceLogs(attributes, before + [r])], t, now), lib, [ResourceLogs(attributes, [s] + after)], u, later);
    assert |second| == |Bare(second)|;
  }

  /** The table after an acknowledged post. */
  function Posted(table: Table, lib: Library, payload: Request, receivedAt: Instant, now: string): Table {
    InsertAll(table, RowsOf(Decoded(lib, payload, receivedAt), now))
  }

  // ---------------------------------------------------------------- exactly once

  /** Equal keys carry equal events. */
  predicate Consistent(events: seq<Event>) {
    forall e <- events, f <- events :: e.key == f.key ==> e == f
  }

  function AllEvents(batches: seq<seq<Event>>): seq<Event> {
    if batches == [] then [] else batches[0] + AllEvents(batches[1..])
  }

  /** Every event once: the rows that were there, and one more per new key. */
  function Once(start: Table, events: seq<Event>): Table {
    InsertAll(start, RowsOf(events, ""))
  }

  lemma {:induction false} AllEventsMembers(batches: seq<seq<Event>>, e: Event)
    ensures e in AllEvents(batches) <==> exists b :: 0 <= b < |batches| && e in batches[b]
  {
    if batches != [] {
      AllEventsMembers(batches[1..], e);
      if e in AllEvents(batches[1..]) {
        var b :| 0 <= b < |batches[1..]| && e in batches[1..][b];
        assert e in batches[b + 1];
      }
      if b :| 0 <= b < |batches| && e in batches[b] {
        if b > 0 { assert e in batches[1..][b - 1]; }
      }
    }
  }

  /** What two tables that took in the same consistent events have in common: the rows they
      started from, and the same unstamped rows for the new keys. */
  predicate StoresEvents(t: Table, start: Table, events: seq<Event>) {
    && UniqueKeys(t) && StartsWith(t, start)
    && Keys(t) == Keys(start) + KeysOfEvents(events)
    && forall r <- t :: r in start || (r.event in events && r.eventTime == Format(r.event.time))
  }

  lemma OnceStores(start: Table, events: seq<Event>)
    requires UniqueKeys(start)
    ensures StoresEvents(Once(start, events), start, events)
  {
    var rows := RowsOf(events, "");
    assert start[..|start|] == start;
    OneMoreInsert(start, start, rows);
    InsertAllKeys(start, rows);
    KeysOfRowsOf(events, "");
    forall r | r in rows ensures r.event in events && r.eventTime == Format(r.event.time) {
      var i :| 0 <= i < |rows| && rows[i] == r;
      assert rows[i] == RowOf(events[i], "");
    }
  }

  /** A row that is not among those a table started from has a key of its own. */
  lemma NewRowNewKey(t: Table, start: Table, r: Row)
    requires UniqueKeys(t) && StartsWith(t, start) && r in t && r !in start
    ensures r.event.key !in Keys(start)
  {
    var j :| 0 <= j < |t| && t[j] == r;
    forall i | 0 <= i < |start| ensures start[i].event.key != r.event.key {
      assert start[i] == t[..|start|][i] == t[i];
    }
  }

  lemma SameBareRows(t: Table, u: Table, start: Table, events: seq<Event>, x: Row)
    requires StoresEvents(t, start, events) && StoresEvents(u, start, events) && Consistent(events)
    requires x in Bare(t)
    ensures x in Bare(u)
  {
    var i :| 0 <= i < |t| && Bare(t)[i] == x;
    var r := SameRow(t, u, start, events, t[i]);
    var j :| 0 <= j < |u| && u[j] == r;
    assert Bare(u)[j] == x;
  }

  lemma SameRow(t: Table, u: Table, start: Table, events: seq<Event>, r: Row) returns (r': Row)
    requires StoresEvents(t, start, events) && StoresEvents(u, start, events) && Consistent(events)
    requires r in t
    ensures r' in u && Unstamped(r') == Unstamped(r)
  {
    StartKeys(u, start);
    if r in start {
      r' := r;
    } else {
      NewRowNewKey(t, start, r);
      assert r.event.key in Keys(t);
      r' :| r' in u && r'.event.key == r.event.key;
      assert r' !in start;
    }
  }

  lemma {:induction false} UniqueRowsCount(t: Table, x: Row)
    requires UniqueKeys(t)
    ensures multiset(t)[x] == if x in t then 1 else 0
  {
    if t != [] {
      var n := |t| - 1;
      UniqueRowsCount(t[..n], x);
      assert t == t[..n] + [t[n]];
      assert t[n] !in t[..n];
    }
  }

  lemma BareUnique(t: Table)
    requires UniqueKeys(t)
    ensures UniqueKeys(Bare(t))
  {
    var u := Bare(t);
    forall i, j | 0 <= i < j < |u| ensures u[i].event.key != u[j].event.key {
      assert u[i] == Unstamped(t[i]) && u[j] == Unstamped(t[j]);
    }
  }

  lemma SameContents(t: Table, u: Table, start: Table, events: seq<Event>)
    requires StoresEvents(t, start, events) && StoresEvents(u, start, events) && Consistent(events)
    ensures multiset(Bare(t)) == multiset(Bare(u))
  {
    var a, b := Bare(t), Bare(u);
    BareUnique(t);
    BareUnique(u);
    forall x ensures multiset(a)[x] == multiset(b)[x] {
      UniqueRowsCount(a, x);
      UniqueRowsCount(b, x);
      if x in a { SameBareRows(t, u, start, events, x); }
      if x in b { SameBareRows(u, t, start, events, x); }
    }
  }

  lemma PostedRow(batches: seq<seq<Event>>, posts: seq<Post>, p: nat, r: Row)
    requires PostsOf(batches, posts) && p < |posts| && r in RowsOfPost(batches, posts, p)
    ensures r.event in AllEvents(batches) && r.eventTime == Format(r.event.time)
  {
    var b := posts[p].batch;
    var i :| 0 <= i < |batches[b]| && RowsOfPost(batches, posts, p)[i] == r;
    assert r.event == batches[b][i];
    AllEventsMembers(batches, r.event);
  }

  lemma RunStores(start: Table, batches: seq<seq<Event>>, posts: seq<Post>, schedule: seq<Turn>, acked: set<nat>)
    requires PostsOf(batches, posts) && UniqueKeys(start)
    requires Acknowledged(Run(Launch(start, batches, posts), schedule), acked)
    requires forall b | 0 <= b < |batches| :: BatchAcknowledged(posts, acked, b)
    ensures StoresEvents(Run(Launch(start, batches, posts), schedule).committed, start, AllEvents(batches))
  {
    var order := RunOfPosts(start, batches, posts, schedule);
    var t, all := Run(Launch(start, batches, posts), schedule).committed, AllEvents(batches);
    AcknowledgedStoredSent(start, batches, posts, schedule, acked);
    forall r | r in t && r !in start ensures r.event in all && r.eventTime == Format(r.event.time) {
      var p :| p in order && r in RowsOfPost(batches, posts, p);
      PostedRow(batches, posts, p, r);
    }
    forall e | e in all ensures e.key in Keys(t) {
      AllEventsMembers(batches, e);
      var b :| 0 <= b < |batches| && e in batches[b];
      assert BatchAcknowledged(posts, acked, b);
      var p :| p in acked && p < |posts| && posts[p].batch == b;
      assert e.key in KeysOfEvents(batches[posts[p].batch]);
    }
    forall k | k in Keys(t) && k !in Keys(start) ensures k in KeysOfEvents(all) {
      var r :| r in t && r.event.key == k;
      assert r.event in all;
    }
  }

  /** Exactly-once accounting over at-least-once delivery: once every batch has been
      acknowledged at least once, every total is the total over the rows that were there and
      one row per new key, however often and in whatever order the batches were posted,
      failed and posted again. */
  lemma ExactlyOnce(start: Table, batches: seq<seq<Event>>, posts: seq<Post>, schedule: seq<Turn>, acked: set<nat>,
                    since: Option<Instant>, person: string, requestsOnly: bool)
    requires PostsOf(batches, posts) && UniqueKeys(start) && Consistent(AllEvents(batches))
    requires Acknowledged(Run(Launch(start, batches, posts), schedule), acked)
    requires forall b | 0 <= b < |batches| :: BatchAcknowledged(posts, acked, b)
    ensures var t := Run(Launch(start, batches, posts), schedule).committed;
            TotalsOf(Selected(t, since, person, requestsOnly)) ==
            TotalsOf(Selected(Once(start, AllEvents(batches)), since, person, requestsOnly))
  {
    var t, all := Run(Launch(start, batches, posts), schedule).committed, AllEvents(batches);
    RunStores(start, batches, posts, schedule, acked);
    OnceStores(start, all);
    SameContents(t, Once(start, all), start, all);
    TotalsDependOnContentsOnly(t, Once(start, all), since, person, requestsOnly);
  }

  // --------------------------------------------------- payloads and receive times

  /** One delivery attempt of a payload, with the two clock readings the server takes. */
  datatype Attempt = Attempt(payload: nat, receivedAt: Instant, now: string)

  predicate AttemptsOf(payloads: seq<Request>, attempts: seq<Attempt>) {
    forall a <- attempts :: a.payload < |payloads|
  }

  /** The store as it is, with every attempt about to insert what its payload decodes to. */
  function LaunchAttempts(start: Table, lib: Library, payloads: seq<Request>, attempts: seq<Attempt>): State
    requires AttemptsOf(payloads, attempts)
  {
    State(None, start, None, seq(|attempts|, p requires 0 <= p < |attempts| =>
      assert attempts[p] in attempts;
      var a := attempts[p];
      Process(InsertCall(RowsOf(Decoded(lib, payloads[a.payload], a.receivedAt), a.now)), Start)))
  }

  function BatchesOf(lib: Library, payloads: seq<Request>): seq<seq<Event>> {
    seq(|payloads|, i requires 0 <= i < |payloads| => Decoded(lib, payloads[i], 0))
  }

  function PostsOfAttempts(attempts: seq<Attempt>): seq<Post> {
    seq(|attempts|, p requires 0 <= p < |attempts| => Post(attempts[p].payload, attempts[p].now))
  }

  /** Payloads that state their own times are stored alike whenever they arrive. */
  lemma ReceiptDoesNotMatter(start: Table, lib: Library, payloads: seq<Request>, attempts: seq<Attempt>)
    requires AttemptsOf(payloads, attempts) && forall q <- payloads :: SelfTimed(lib, q)
    ensures PostsOf(BatchesOf(lib, payloads), PostsOfAttempts(attempts))
    ensures LaunchAttempts(start, lib, payloads, attempts) == Launch(start, BatchesOf(lib, payloads), PostsOfAttempts(attempts))
  {
    var batches, posts := BatchesOf(lib, payloads), PostsOfAttempts(attempts);
    forall p | 0 <= p < |posts| ensures posts[p].batch < |batches| { assert attempts[p] in attempts; }
    var s, s' := LaunchAttempts(start, lib, payloads, attempts), Launch(start, batches, posts);
    forall p | 0 <= p < |posts| ensures s.procs[p] == s'.procs[p] {
      var a := attempts[p];
      assert a in attempts && payloads[a.payload] in payloads;
      ReceiveTimeIrrelevant(lib, payloads[a.payload]);
      assert Decoded(lib, payloads[a.payload], a.receivedAt) == batches[a.payload];
    }
  }

  /** The whole pipeline: posted payloads that state their own times are accounted exactly
      once, whatever the receive times, failures, interleavings and repetitions. */
  lemma PayloadsExactlyOnce(start: Table, lib: Library, payloads: seq<Request>, attempts: seq<Attempt>, schedule: seq<Turn>,
                            acked: set<nat>, since: Option<Instant>, person: string, requestsOnly: bool)
    requires AttemptsOf(payloads, attempts) && UniqueKeys(start) && forall q <- payloads :: SelfTimed(lib, q)
    requires Consistent(AllEvents(BatchesOf(lib, payloads)))
    requires Acknowledged(Run(LaunchAttempts(start, lib, payloads, attempts), schedule), acked)
    requires forall b | 0 <= b < |payloads| :: BatchAcknowledged(PostsOfAttempts(attempts), acked, b)
    ensures var t := Run(LaunchAttempts(start, lib, payloads, attempts), schedule).committed;
            TotalsOf(Selected(t, since, person, requestsOnly)) ==
            TotalsOf(Selected(Once(start, AllEvents(BatchesOf(lib, payloads))), since, person, requestsOnly))
  {
    ReceiptDoesNotMatter(start, lib, payloads, attempts);
    ExactlyOnce(start, BatchesOf(lib, payloads), PostsOfAttempts(attempts), schedule, acked, since, person, requestsOnly);
  }

  /** One record delivered at several times. */
  function Deliveries(lib: Library, m: Merged, times: seq<Instant>): seq<Event> {
    seq(|times|, i requires 0 <= i < |times| => EventOf(lib, m, times[i]))
  }

  /** A metered record without any time gets another key with every receive time: whatever the
      table, it is counted once per delivery, unless a row had that key already. */
  lemma UntimedRecordRecounted(lib: Library, m: Merged, times: seq<Instant>, now: string, table: Table)
    requires Metered(lib, m) && !Timed(lib, m) && forall t <- times :: InRange(t)
    requires forall i, j | 0 <= i < j < |times| :: times[i] != times[j]
    requires Keys(RowsOf(Deliveries(lib, m, times), now)) !! Keys(table)
    ensures InsertAll(table, RowsOf(Deliveries(lib, m, times), now)) == table + RowsOf(Deliveries(lib, m, times), now)
  {
    var rows := RowsOf(Deliveries(lib, m, times), now);
    forall i, j | 0 <= i < j < |rows| ensures rows[i].event.key != rows[j].event.key {
      assert times[i] in times && times[j] in times;
      UntimedKeysDiffer(lib, m, times[i], times[j]);
    }
    NewKeysAppended(table, rows);
  }

  lemma UntimedKeysDiffer(lib: Library, m: Merged, t: Instant, u: Instant)
    requires Metered(lib, m) && !Timed(lib, m) && InRange(t) && InRange(u) && t != u
    ensures EventOf(lib, m, t).key != EventOf(lib, m, u).key
  {
    UnkeyedEnvelope(lib, m, t);
    UnkeyedEnvelope(lib, m, u);
    TimesTellKeysApart(Unkeyed(lib, m, t), Unkeyed(lib, m, u));
  }

  lemma TimesTellKeysApart(a: Event, b: Event)
    requires InRange(a.time) && InRange(b.time) && a.time != b.time && a.name == b.name
    requires a.name == "api_request" || a.name == "api_error"
    ensures MakeEventKey(a) != MakeEventKey(b)
  {
    assert '|' !in a.name && '|' !in b.name;
    if MakeEventKey(a) == MakeEventKey(b) {
      EqualKeysEqualTimeText(a, b);
      FormatInjective(a.time, b.time);
    }
  }
}
