/** Concurrent calls of Insert and Prune on one store, one atomic step at a time. A schedule
    says which call moves next and whether that move succeeds; a call that waits for the
    mutex does not move. */
module Protocol {
  import opened Wrappers
  import opened Seqs
  import opened Ledger

  datatype Call = InsertCall(rows: seq<Row>) | PruneCall(cutoff: string)

  datatype Outcome = Succeeded(n: nat) | Failed(n: nat)

  datatype Phase =
    | Start                                    // before the mutex
    | Locked                                   // holds the mutex, no transaction yet
    | Writing(next: nat, inserted: nat)        // rows before `next` are inserted
    | RollingBack(inserted: nat)               // an error was seen
    | Unlocking(outcome: Outcome)
    | Done(outcome: Outcome)

  datatype Process = Process(call: Call, phase: Phase)

  datatype State = State(holder: Option<nat>, committed: Table, working: Option<Table>, procs: seq<Process>)

  datatype Turn = Turn(pid: nat, ok: bool)

  // ------------------------------------------------------------------------ steps

  function Moved(s: State, p: nat, phase: Phase): seq<Process>
    requires p < |s.procs|
  {
    s.procs[p := s.procs[p].(phase := phase)]
  }

  /** One step of Insert. */
  function StepInsert(s: State, p: nat, ok: bool): State
    requires p < |s.procs| && s.procs[p].call.InsertCall?
  {
    var rows := s.procs[p].call.rows;
    match s.procs[p].phase
    case Start =>
      if rows == [] then s.(procs := Moved(s, p, Done(Succeeded(0))))       // nothing to insert
      else if !ok then s.(procs := Moved(s, p, Done(Failed(0))))            // context cancelled
      else if s.holder.Some? then s                                         // mutex taken
      else s.(holder := Some(p), procs := Moved(s, p, Locked))
    case Locked =>
      if ok then s.(working := Some(s.committed), procs := Moved(s, p, Writing(0, 0)))
      else s.(procs := Moved(s, p, Unlocking(Failed(0))))                   // BEGIN failed
    case Writing(i, n) =>
      if !ok || s.working.None? then s.(procs := Moved(s, p, RollingBack(n)))
      else if i < |rows| then
        var w := InsertRow(s.working.value, rows[i]);
        s.(working := Some(w), procs := Moved(s, p, Writing(i + 1, n + if |w| > |s.working.value| then 1 else 0)))
      else
        s.(committed := s.working.value, working := None, procs := Moved(s, p, Unlocking(Succeeded(n))))
    case RollingBack(n) => s.(working := None, procs := Moved(s, p, Unlocking(Failed(n))))
    case Unlocking(o) => s.(holder := None, procs := Moved(s, p, Done(o)))
    case Done(_) => s
  }

  /** One step of Prune: its DELETE is a transaction of its own. */
  function StepPrune(s: State, p: nat, ok: bool): State
    requires p < |s.procs| && s.procs[p].call.PruneCall?
  {
    match s.procs[p].phase
    case Start => if s.holder.Some? then s else s.(holder := Some(p), procs := Moved(s, p, Locked))
    case Locked =>
      if !ok then s.(procs := Moved(s, p, Unlocking(Failed(0))))
      else
        var kept := Prune(s.committed, s.procs[p].call.cutoff);
        PruneShape(s.committed, s.procs[p].call.cutoff);
        s.(committed := kept, procs := Moved(s, p, Unlocking(Succeeded(|s.committed| - |kept|))))
    case Unlocking(o) => s.(holder := None, procs := Moved(s, p, Done(o)))
    case _ => s
  }

  function Step(s: State, t: Turn): State {
    if t.pid >= |s.procs| then s
    else if s.procs[t.pid].call.InsertCall? then StepInsert(s, t.pid, t.ok)
    else StepPrune(s, t.pid, t.ok)
  }

  function Run(s: State, schedule: seq<Turn>): State {
    if schedule == [] then s else Step(Run(s, schedule[..|schedule| - 1]), schedule[|schedule| - 1])
  }

  predicate Initial(s: State) {
    && s.holder.None? && s.working.None? && UniqueKeys(s.committed)
    && forall p <- s.procs :: p.phase == Start
  }

  // ------------------------------------------------------------------ serial meaning

  /** What a call does when it runs alone and succeeds. */
  function Apply(c: Call, t: Table): Table {
    match c
    case InsertCall(rows) => InsertAll(t, rows)
    case PruneCall(cutoff) => Prune(t, cutoff)
  }

  /** What it then returns. */
  function Count(c: Call, t: Table): nat {
    match c
    case InsertCall(rows) => InsertAllExtends(t, rows); |InsertAll(t, rows)| - |t|
    case PruneCall(cutoff) => PruneShape(t, cutoff); |t| - |Prune(t, cutoff)|
  }

  /** Running the calls of `order` one after the other. */
  function Replay(procs: seq<Process>, t: Table, order: seq<nat>): Table
    requires forall p <- order :: p < |procs|
  {
    if order == [] then t
    else
      var n := |order| - 1;
      assert order[n] in order && forall p <- order[..n] :: p in order;
      Apply(procs[order[n]].call, Replay(procs, t, order[..n]))
  }

  predicate Succeeding(phase: Phase) {
    (phase.Unlocking? || phase.Done?) && phase.outcome.Succeeded?
  }

  predicate Failing(phase: Phase) {
    (phase.Unlocking? || phase.Done?) && phase.outcome.Failed?
  }

  /** The turn in which a call takes effect. */
  predicate Commits(s: State, t: Turn) {
    && t.pid < |s.procs|
    && !Succeeding(s.procs[t.pid].phase)
    && t.pid < |Step(s, t).procs| && Succeeding(Step(s, t).procs[t.pid].phase)
  }

  /** The successful calls in the order they took effect. */
  function CommitOrder(s: State, schedule: seq<Turn>): seq<nat> {
    if schedule == [] then []
    else
      var front, last := schedule[..|schedule| - 1], schedule[|schedule| - 1];
      CommitOrder(s, front) + if Commits(Run(s, front), last) then [last.pid] else []
  }

  // --------------------------------------------------------------------- invariant

  predicate Critical(phase: Phase) {
    phase.Locked? || phase.Writing? || phase.RollingBack? || phase.Unlocking?
  }

  /** A writer sees the committed table and the rows it has inserted so far, until a rollback
      is through. */
  predicate WriterInv(s: State, p: Process) {
    && (p.phase.Writing? || p.phase.RollingBack? <==> s.working.Some?)
    && (p.phase.Writing? || p.phase.RollingBack? ==> p.call.InsertCall?)
    && (p.phase.Writing? ==>
          && p.phase.next <= |p.call.rows|
          && s.working.value == InsertAll(s.committed, p.call.rows[..p.phase.next]))
    && (p.phase.Writing? || p.phase.RollingBack? ==>
          && |s.committed| <= |s.working.value| && s.working.value[..|s.committed|] == s.committed
          && p.phase.inserted == |s.working.value| - |s.committed|)
  }

  predicate Inv(s: State) {
    && UniqueKeys(s.committed)
    && (forall p | 0 <= p < |s.procs| :: Critical(s.procs[p].phase) <==> s.holder == Some(p))
    && (match s.holder
        case Some(p) => p < |s.procs| && WriterInv(s, s.procs[p])
        case None => s.working.None?)
  }

  lemma NextRow(t: Table, rows: seq<Row>, i: nat)
    requires i < |rows|
    ensures InsertAll(t, rows[..i + 1]) == InsertRow(InsertAll(t, rows[..i]), rows[i])
    ensures |t| <= |InsertAll(t, rows[..i + 1])| && InsertAll(t, rows[..i + 1])[..|t|] == t
  {
    assert rows[..i + 1] == rows[..i] + [rows[i]];
    InsertAllSnoc(t, rows[..i], rows[i]);
    InsertAllExtends(t, rows[..i + 1]);
  }

  /** Every step keeps the invariant, changes the committed table only by the whole effect of
      a call, and then returns that call's own count. */
  lemma StepInsertEffect(s: State, p: nat, ok: bool)
    requires Inv(s) && p < |s.procs| && s.procs[p].call.InsertCall?
    ensures var s' := StepInsert(s, p, ok);
            && Inv(s')
            && (if Commits(s, Turn(p, ok))
                then s'.committed == Apply(s.procs[p].call, s.committed)
                     && s'.procs[p].phase.outcome == Succeeded(Count(s.procs[p].call, s.committed))
                else s'.committed == s.committed)
  {
    var proc, s' := s.procs[p], StepInsert(s, p, ok);
    var rows := proc.call.rows;
    match proc.phase
    case Start =>
    case Locked =>
      assert rows[..0] == [];
    case Writing(i, n) =>
      assert s.holder == Some(p);
      if ok && i < |rows| {
        NextRow(s.committed, rows, i);
      } else if ok {
        assert rows[..i] == rows;
        InsertAllUnique(s.committed, rows);
      }
    case RollingBack(_) =>
    case Unlocking(_) =>
    case Done(_) =>
  }

  lemma StepPruneEffect(s: State, p: nat, ok: bool)
    requires Inv(s) && p < |s.procs| && s.procs[p].call.PruneCall?
    ensures var s' := StepPrune(s, p, ok);
            && Inv(s')
            && (if Commits(s, Turn(p, ok))
                then s'.committed == Apply(s.procs[p].call, s.committed)
                     && s'.procs[p].phase.outcome == Succeeded(Count(s.procs[p].call, s.committed))
                else s'.committed == s.committed)
  {
    PruneShape(s.committed, s.procs[p].call.cutoff);
  }

  /** A step moves one process, keeps every call, and never takes back an outcome. */
  lemma StepLocal(s: State, t: Turn)
    ensures var s' := Step(s, t);
            && |s'.procs| == |s.procs|
            && (forall q | 0 <= q < |s.procs| :: s'.procs[q].call == s.procs[q].call)
            && (forall q | 0 <= q < |s.procs| && q != t.pid :: s'.procs[q] == s.procs[q])
            && (forall q | 0 <= q < |s.procs| && (Succeeding(s.procs[q].phase) || Failing(s.procs[q].phase)) ::
                  (s'.procs[q].phase.Unlocking? || s'.procs[q].phase.Done?)
                  && s'.procs[q].phase.outcome == s.procs[q].phase.outcome)
  {
  }

  lemma StepEffect(s: State, t: Turn)
    requires Inv(s)
    ensures Inv(Step(s, t))
    ensures Commits(s, t) ==>
              && t.pid < |s.procs| && t.pid < |Step(s, t).procs|
              && Step(s, t).committed == Apply(s.procs[t.pid].call, s.committed)
              && Succeeding(Step(s, t).procs[t.pid].phase)
              && Step(s, t).procs[t.pid].phase.outcome == Succeeded(Count(s.procs[t.pid].call, s.committed))
    ensures !Commits(s, t) ==> Step(s, t).committed == s.committed
  {
    if t.pid < |s.procs| {
      if s.procs[t.pid].call.InsertCall? {
        StepInsertEffect(s, t.pid, t.ok);
      } else {
        StepPruneEffect(s, t.pid, t.ok);
      }
      assert t == Turn(t.pid, t.ok);
    }
  }

  // ----------------------------------------------------------------- main theorems

  predicate SameCalls(s: State, f: State) {
    |f.procs| == |s.procs| && forall q | 0 <= q < |s.procs| :: f.procs[q].call == s.procs[q].call
  }

  /** `order` lists exactly the successful calls, each once. */
  predicate ListsSuccesses(f: State, order: seq<nat>) {
    && Distinct(order)
    && (forall p <- order :: p < |f.procs|)
    && (forall p | 0 <= p < |f.procs| :: p in order <==> Succeeding(f.procs[p].phase))
  }

  /** The k-th call of `order` returns what it returns when the calls run in that order. */
  predicate ReturnsSerialCount(s: State, f: State, order: seq<nat>, k: nat)
    requires k < |order| && forall p <- order :: p < |s.procs| && p < |f.procs|
  {
    assert forall p <- order[..k] :: p in order;
    assert order[k] in order;
    var phase := f.procs[order[k]].phase;
    && Succeeding(phase)
    && phase.outcome == Succeeded(Count(s.procs[order[k]].call, Replay(s.procs, s.committed, order[..k])))
  }

  /** The state a schedule leads to, against the serial run of its successful calls. */
  predicate SerialFrom(s: State, f: State, order: seq<nat>) {
    && SameCalls(s, f)
    && ListsSuccesses(f, order)
    && f.committed == Replay(s.procs, s.committed, order)
    && forall k | 0 <= k < |order| :: ReturnsSerialCount(s, f, order, k)
  }

  lemma QuietStep(s: State, f: State, order: seq<nat>, t: Turn)
    requires SerialFrom(s, f, order) && Inv(f) && !Commits(f, t)
    ensures SerialFrom(s, Step(f, t), order)
  {
    StepLocal(f, t);
    StepEffect(f, t);
    var g := Step(f, t);
    forall k | 0 <= k < |order| ensures ReturnsSerialCount(s, g, order, k) {
      assert order[k] in order && ReturnsSerialCount(s, f, order, k);
    }
  }

  lemma ReplaySnoc(procs: seq<Process>, t: Table, order: seq<nat>, p: nat)
    requires p < |procs| && forall q <- order :: q < |procs|
    ensures Replay(procs, t, order + [p]) == Apply(procs[p].call, Replay(procs, t, order))
  {
    assert (order + [p])[..|order|] == order;
  }

  lemma CommitStep(s: State, f: State, order: seq<nat>, t: Turn)
    requires SerialFrom(s, f, order) && Inv(f) && Commits(f, t)
    ensures SerialFrom(s, Step(f, t), order + [t.pid])
  {
    StepLocal(f, t);
    StepEffect(f, t);
    var g, longer := Step(f, t), order + [t.pid];
    assert t.pid !in order;
    ReplaySnoc(s.procs, s.committed, order, t.pid);
    assert longer[..|order|] == order;
    forall k | 0 <= k < |longer| ensures ReturnsSerialCount(s, g, longer, k) {
      if k < |order| {
        assert order[k] in order && ReturnsSerialCount(s, f, order, k);
        assert longer[..k] == order[..k];
      }
    }
  }

  /** Serializability: however the steps of any number of calls interleave and whichever of
      them fail, the committed table is the one that some serial order of exactly the
      successful calls produces; each of them returns the count it returns in that serial
      run; event keys stay unique. Every prefix of a schedule is a schedule, so this holds
      of every committed table on the way. */
  lemma {:induction false} Serializable(s: State, schedule: seq<Turn>)
    requires Initial(s)
    ensures SerialFrom(s, Run(s, schedule), CommitOrder(s, schedule))
    ensures Inv(Run(s, schedule)) && UniqueKeys(Run(s, schedule).committed)
  {
    if schedule == [] {
      forall p | 0 <= p < |s.procs| ensures s.procs[p].phase == Start { assert s.procs[p] in s.procs; }
    } else {
      var n := |schedule| - 1;
      var before, order := Run(s, schedule[..n]), CommitOrder(s, schedule[..n]);
      Serializable(s, schedule[..n]);
      StepEffect(before, schedule[n]);
      if Commits(before, schedule[n]) {
        CommitStep(s, before, order, schedule[n]);
      } else {
        QuietStep(s, before, order, schedule[n]);
        assert order + [] == order;
      }
    }
  }

  lemma {:induction false} OutcomesStay(s: State, schedule: seq<Turn>, k: nat, p: nat)
    requires k <= |schedule| && p < |Run(s, schedule[..k]).procs|
    requires Succeeding(Run(s, schedule[..k]).procs[p].phase)
    ensures p < |Run(s, schedule).procs| && Succeeding(Run(s, schedule).procs[p].phase)
  {
    if k == |schedule| {
      assert schedule[..k] == schedule;
    } else {
      var n := |schedule| - 1;
      assert schedule[..n][..k] == schedule[..k];
      OutcomesStay(s, schedule[..n], k, p);
      StepLocal(Run(s, schedule[..n]), schedule[n]);
    }
  }

  /** A call that ends in failure, whatever count it returns, never changes the committed
      table: not in any of its turns. */
  lemma FailedCallWritesNothing(s: State, schedule: seq<Turn>, k: nat, p: nat)
    requires Initial(s) && k < |schedule| && schedule[k].pid == p
    requires p < |Run(s, schedule).procs| && Failing(Run(s, schedule).procs[p].phase)
    ensures Run(s, schedule[..k + 1]).committed == Run(s, schedule[..k]).committed
  {
    Serializable(s, schedule[..k]);
    var before := Run(s, schedule[..k]);
    StepEffect(before, schedule[k]);
    assert schedule[..k + 1][..k] == schedule[..k];
    if Commits(before, schedule[k]) { OutcomesStay(s, schedule, k + 1, p); }
  }

  // ------------------------------------------------------------------------ readers

  /** What a reader sees that steps its rows without the mutex, on the same connection. */
  function VisibleToReader(s: State): Table {
    if s.working.Some? then s.working.value else s.committed
  }

  /** An insert has put rows into its open transaction and neither committed them nor finished
      taking them back. */
  predicate Dirty(s: State) {
    && s.holder.Some? && s.holder.value < |s.procs|
    && var phase := s.procs[s.holder.value].phase;
       (phase.Writing? || phase.RollingBack?) && phase.inserted > 0
  }

  lemma VisibleExactly(s: State)
    requires Inv(s)
    ensures VisibleToReader(s) == s.committed <==> !Dirty(s)
    ensures |s.committed| <= |VisibleToReader(s)| && VisibleToReader(s)[..|s.committed|] == s.committed
  {
    if s.working.Some? {
      var w := s.working.value;
      assert |w| == |s.committed| ==> w[..|s.committed|] == w;
    }
  }

  /** In every reachable state a reader sees the committed table first, and nothing else,
      exactly when no insert has uncommitted rows. */
  lemma ReaderSeesCommittedExactly(s: State, schedule: seq<Turn>)
    requires Initial(s)
    ensures var now := Run(s, schedule);
            && (VisibleToReader(now) == now.committed <==> !Dirty(now))
            && |now.committed| <= |VisibleToReader(now)| && VisibleToReader(now)[..|now.committed|] == now.committed
  {
    Serializable(s, schedule);
    VisibleExactly(Run(s, schedule));
  }

  /** Lock, BEGIN, one row inserted, a failure, ROLLBACK, unlock. */
  const FAILING_SCHEDULE: seq<Turn> :=
    [Turn(0, true), Turn(0, true), Turn(0, true), Turn(0, false), Turn(0, true), Turn(0, true)]

  /** The states that schedule passes through when the batch is one row. */
  function FailingStates(r: Row): seq<State> {
    var call := InsertCall([r]);
    [State(None, [], None, [Process(call, Start)]),
     State(Some(0), [], None, [Process(call, Locked)]),
     State(Some(0), [], Some([]), [Process(call, Writing(0, 0))]),
     State(Some(0), [], Some([r]), [Process(call, Writing(1, 1))]),
     State(Some(0), [], Some([r]), [Process(call, RollingBack(1))]),
     State(Some(0), [], None, [Process(call, Unlocking(Failed(1)))]),
     State(None, [], None, [Process(call, Done(Failed(1)))])]
  }

  lemma FailingStep(r: Row, k: nat)
    requires k < 6
    ensures Step(FailingStates(r)[k], FAILING_SCHEDULE[k]) == FailingStates(r)[k + 1]
  {
    assert [] + [r] == [r] && InsertRow([], r) == [r];
    var s, s' := FailingStates(r)[k], FailingStates(r)[k + 1];
    assert Moved(s, 0, s'.procs[0].phase) == s'.procs;
  }

  lemma {:induction false} FailingRun(r: Row, k: nat)
    requires k <= 6
    ensures Run(FailingStates(r)[0], FAILING_SCHEDULE[..k]) == FailingStates(r)[k]
  {
    if k > 0 {
      FailingRun(r, k - 1);
      FailingStep(r, k - 1);
      assert FAILING_SCHEDULE[..k][..k - 1] == FAILING_SCHEDULE[..k - 1];
    }
  }

  /** Such states occur, and the rows may never be committed: after its third turn this insert
      shows a reader a row that no committed table ever holds. */
  lemma ReaderSeesUncommittedRow(r: Row)
    ensures var s := FailingStates(r)[0];
            && Initial(s)
            && VisibleToReader(Run(s, FAILING_SCHEDULE[..3])) == [r]
            && forall k | 0 <= k <= 6 :: Run(s, FAILING_SCHEDULE[..k]).committed == []
  {
    FailingRun(r, 3);
    forall k | 0 <= k <= 6 ensures Run(FailingStates(r)[0], FAILING_SCHEDULE[..k]).committed == [] {
      FailingRun(r, k);
    }
  }
}
