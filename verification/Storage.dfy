/** The store: one SQLite connection guarded by a mutex. Insert runs a transaction row by
    row and rolls it back on any error; Prune deletes by text cutoff; the reports build a
    query and read the engine's rows column by column. */
module Storage {
  import opened Wrappers
  import opened Seqs
  import opened Sorting
  import opened Texts
  import opened Decimal
  import opened Timestamps
  import opened Reading
  import opened Otlp
  import opened Ledger
  import opened Query
  import opened Reports

  // ------------------------------------------------------------------- faults

  datatype Error = ContextDone | BeginFailed | PrepareFailed | RowFailed | CommitFailed | QueryFailed

  /** Where one call of Insert is made to fail. `row(i)` covers a cancelled context, a bind
      error, a step error and an incomplete step at row `i`. */
  datatype Faults = Faults(cancelled: bool, begin: bool, prepare: bool, row: nat -> bool, commit: bool)

  /** The number of rows executed before the first failing one of `n`. */
  function RowsReached(f: Faults, n: nat): (k: nat)
    ensures k <= n && (forall i | 0 <= i < k :: !f.row(i)) && (k < n ==> f.row(k))
  {
    if n == 0 then 0
    else
      var k := RowsReached(f, n - 1);
      if k < n - 1 || f.row(n - 1) then k else n
  }

  lemma {:induction false} RowsReachedIs(f: Faults, n: nat, i: nat)
    requires i <= n && (forall k | 0 <= k < i :: !f.row(k)) && (i < n ==> f.row(i))
    ensures RowsReached(f, n) == i
  {
  }

  /** The call runs to its COMMIT, and that succeeds. */
  predicate Faultless(f: Faults, n: nat) {
    !f.cancelled && !f.begin && !f.prepare && RowsReached(f, n) == n && !f.commit
  }

  /** Where a read is made to fail: in `query` (a cancelled context, a prepare or bind error)
      or in the step that should yield row `i`; the step after the last row reports the end. */
  datatype ReadFaults = ReadFaults(query: bool, step: nat -> bool)

  /** A read of `n` rows fails. */
  predicate ReadFails(f: ReadFaults, n: nat) {
    f.query || exists i: nat | i <= n :: f.step(i)
  }

  // ---------------------------------------------------------------- time arithmetic

  /** int64 arithmetic wraps around. */
  function WrapInt64(n: int): (w: int)
    ensures IsInt64(w)
  {
    (n - MIN_INT64) % 0x1_0000_0000_0000_0000 + MIN_INT64
  }

  /** -time.Duration(days) * 24 * time.Hour. */
  function CutoffOffset(days: int): int {
    WrapInt64(-days * NANOS_PER_DAY)
  }

  function CutoffText(days: int, now: Instant): string {
    Format(now + CutoffOffset(days))
  }

  /** The cutoff is `days` days back exactly for retentions up to 106751 days. */
  lemma CutoffIsExact(days: int)
    requires 0 < days <= MAX_INT64
    ensures CutoffOffset(days) == -days * NANOS_PER_DAY <==> days <= 106_751
  {
    if days <= 106_751 {
      assert MIN_INT64 <= -days * NANOS_PER_DAY <= 0;
    } else {
      assert -days * NANOS_PER_DAY < MIN_INT64;
    }
  }

  lemma OverlongRetentionWraps(days: int)
    requires 106_752 <= days <= 213_503
    ensures CutoffOffset(days) >= 82_800 * NANOS_PER_SECOND
  {
    var product := -days * NANOS_PER_DAY;
    assert MIN_INT64 - 0x1_0000_0000_0000_0000 <= product < MIN_INT64;
    assert CutoffOffset(days) == product + 0x1_0000_0000_0000_0000;
  }

  /** From 106752 to 213503 days the product wraps to a positive offset of at least 23 hours:
      the cutoff lies in the future. Every row of the past is deleted, and a row that states a
      later time is kept as if the cutoff were meant, reversed pairs aside. */
  lemma OverlongRetentionDeletesPast(days: int, now: Instant, cutoff: Instant, e: Event, receivedAt: string)
    requires 106_752 <= days <= 213_503 && cutoff == now + CutoffOffset(days)
    requires InRange(e.time) && InRange(cutoff)
    ensures cutoff >= now + 23 * 3600 * NANOS_PER_SECOND
    ensures e.time <= now ==> !NotBefore(RowOf(e, receivedAt), Format(cutoff))
    ensures NotBefore(RowOf(e, receivedAt), Format(cutoff)) <==>
            if Reversed(e.time, cutoff) then e.time < cutoff else cutoff <= e.time
  {
    OverlongRetentionWraps(days);
    if e.time <= now { LaterSecondDeletes(e, receivedAt, cutoff); }
    TextBound(e.time, cutoff);
  }

  lemma LaterSecondDeletes(e: Event, receivedAt: string, cutoff: Instant)
    requires InRange(e.time) && InRange(cutoff) && e.time + NANOS_PER_SECOND <= cutoff
    ensures !NotBefore(RowOf(e, receivedAt), Format(cutoff))
  {
    TextBound(e.time, cutoff);
    assert e.time / NANOS_PER_SECOND < cutoff / NANOS_PER_SECOND;
  }

  /** Prune against real time: a row is misplaced only in the cutoff's own second. */
  lemma PruneAgainstTime(r: Row, days: int, now: Instant, cutoff: Instant)
    requires 0 < days <= 106_751 && cutoff == now - days * NANOS_PER_DAY
    requires r.eventTime == Format(r.event.time) && InRange(r.event.time) && InRange(cutoff)
    ensures NotBefore(r, CutoffText(days, now)) <==>
            if Reversed(r.event.time, cutoff) then r.event.time < cutoff else cutoff <= r.event.time
    ensures NotBefore(r, CutoffText(days, now)) != (cutoff <= r.event.time) ==>
            r.event.time / NANOS_PER_SECOND == cutoff / NANOS_PER_SECOND
  {
    CutoffIsExact(days);
    assert now + CutoffOffset(days) == cutoff;
    SinceAgainstTime(r, cutoff);
  }

  // ------------------------------------------------------------------ query engine

  /** The choices SQL leaves open: how ORDER BY breaks ties, for rows and for groups. */
  datatype Engine = Engine(newestFirst: seq<Row> -> seq<Row>, groups: (Dimension, seq<Row>) -> seq<string>)

  predicate Newer(a: Row, b: Row) {
    Less(b.eventTime, a.eventTime)
  }

  function CostOf(d: Dimension, rows: seq<Row>, id: string): int {
    Sum(CostUsdMicros, Group(d, id, rows))
  }

  /** ORDER BY event_time DESC; and GROUP BY ... ORDER BY SUM(cost_usd_micros) DESC. */
  ghost predicate Faithful(e: Engine) {
    && (forall rows :: IsSortOf(Newer, rows, e.newestFirst(rows)))
    && (forall d, rows :: GroupsOf(d, rows, e.groups(d, rows)))
    && (forall d, rows :: forall i, j | 0 <= i < j < |e.groups(d, rows)| ::
          CostOf(d, rows, e.groups(d, rows)[j]) <= CostOf(d, rows, e.groups(d, rows)[i]))
  }

  // An engine that keeps the contract: insertion sorts over the rows and the group ids.

  function IdsOf(d: Dimension, rows: seq<Row>): seq<string> {
    if rows == [] then []
    else
      var front := IdsOf(d, rows[..|rows| - 1]);
      var id := KeyOf(d, rows[|rows| - 1]);
      if id in front then front else front + [id]
  }

  predicate Dearer(d: Dimension, rows: seq<Row>, a: string, b: string) {
    CostOf(d, rows, b) < CostOf(d, rows, a)
  }

  const INSERTION_ENGINE: Engine :=
    Engine(rows => SortBy(Newer, rows),
           (d, rows) => SortBy((a, b) => Dearer(d, rows, a, b), IdsOf(d, rows)))

  lemma {:induction false} IdsAreGroups(d: Dimension, rows: seq<Row>)
    ensures GroupsOf(d, rows, IdsOf(d, rows))
  {
    if rows != [] {
      var n := |rows| - 1;
      IdsAreGroups(d, rows[..n]);
      assert rows == rows[..n] + [rows[n]] && rows[n] in rows;
      var front := IdsOf(d, rows[..n]);
      forall id | id in front ensures exists r <- rows :: KeyOf(d, r) == id {
        var r :| r in rows[..n] && KeyOf(d, r) == id;
        assert r in rows;
      }
    }
  }

  lemma NewerIsOrder(rows: seq<Row>)
    ensures OrderOn(Newer, rows)
  {
    forall a, b | Newer(a, b) ensures !Newer(b, a) { LessTrichotomy(a.eventTime, b.eventTime); }
    forall a, b, c | Newer(a, b) && !Newer(c, b) ensures Newer(a, c) {
      if !Newer(a, c) { NotLessTransitive(b.eventTime, c.eventTime, a.eventTime); }
    }
  }

  lemma RearrangedGroups(d: Dimension, rows: seq<Row>, ids: seq<string>, out: seq<string>)
    requires GroupsOf(d, rows, ids) && multiset(out) == multiset(ids)
    ensures GroupsOf(d, rows, out)
  {
    SameMembers(out, ids);
    DistinctCounts(ids);
    forall i, j | 0 <= i < j < |out| ensures out[i] != out[j] {
      assert out == out[..j] + [out[j]] + out[j + 1..];
      assert multiset(out) == multiset(out[..j]) + multiset{out[j]} + multiset(out[j + 1..]);
      assert out[..j][i] == out[i] && out[i] in multiset(out[..j]);
      assert multiset(ids)[out[j]] <= 1;
    }
  }

  lemma {:induction false} DistinctCounts(ids: seq<string>)
    requires Distinct(ids)
    ensures forall x :: multiset(ids)[x] <= 1
  {
    if ids != [] {
      var n := |ids| - 1;
      DistinctCounts(ids[..n]);
      assert ids == ids[..n] + [ids[n]] && ids[n] !in ids[..n];
      assert multiset(ids[..n])[ids[n]] == 0;
    }
  }

  /** So the engine contract can be met. */
  lemma EngineContractHolds()
    ensures Faithful(INSERTION_ENGINE)
  {
    forall rows: seq<Row> ensures IsSortOf(Newer, rows, INSERTION_ENGINE.newestFirst(rows)) {
      NewerIsOrder(rows);
      SortByIsSort(Newer, rows);
    }
    forall d: Dimension, rows: seq<Row>
      ensures GroupsOf(d, rows, INSERTION_ENGINE.groups(d, rows))
      ensures InOrder((a, b) => Dearer(d, rows, a, b), INSERTION_ENGINE.groups(d, rows))
    {
      var less := (a, b) => Dearer(d, rows, a, b);
      var ids := IdsOf(d, rows);
      IdsAreGroups(d, rows);
      SortByIsSort(less, ids);
      RearrangedGroups(d, rows, ids, SortBy(less, ids));
    }
  }

  datatype Cell = TextCell(s: string) | IntCell(n: int)

  datatype Column = PersonName | AccountId | GreatestEmail | CountRows | CountSessions | SumOf(m: Measure)

  const TOTALS_COLUMNS: seq<Column> :=
    [CountRows, CountSessions, SumOf(InputTokens), SumOf(OutputTokens), SumOf(CacheReadTokens),
     SumOf(CacheCreationTokens), SumOf(CostUsdMicros)]

  /** One result column over the rows of a group. */
  function Eval(c: Column, id: string, rows: seq<Row>): Cell {
    match c
    case PersonName => TextCell(DisplayName(id))
    case AccountId => TextCell(id)
    case GreatestEmail => TextCell(MaxEmail(rows))
    case CountRows => IntCell(|rows|)
    case CountSessions => IntCell(|Sessions(rows)|)
    case SumOf(m) => IntCell(Sum(m, rows))
  }

  function EvalAll(columns: seq<Column>, id: string, rows: seq<Row>): seq<Cell> {
    seq(|columns|, i requires 0 <= i < |columns| => Eval(columns[i], id, rows))
  }

  /** stmt.int64(i) and stmt.text(i); the queries never read a cell of the other type. */
  function Int64At(row: seq<Cell>, i: nat): int {
    if i < |row| && row[i].IntCell? then row[i].n else 0
  }

  function TextAt(row: seq<Cell>, i: nat): string {
    if i < |row| && row[i].TextCell? then row[i].s else ""
  }

  function TotalsAt(row: seq<Cell>, i: nat): Totals {
    Totals(Int64At(row, i), Int64At(row, i + 1), Int64At(row, i + 2), Int64At(row, i + 3), Int64At(row, i + 4),
           Int64At(row, i + 5), Int64At(row, i + 6))
  }

  lemma TotalsFromColumns(front: seq<Column>, id: string, rows: seq<Row>)
    ensures TotalsAt(EvalAll(front + TOTALS_COLUMNS, id, rows), |front|) == TotalsOf(rows)
  {
    RequestsCountRows(rows);
    var columns, n := front + TOTALS_COLUMNS, |front|;
    assert columns[n] == CountRows && columns[n + 1] == CountSessions && columns[n + 2] == SumOf(InputTokens);
    assert columns[n + 3] == SumOf(OutputTokens) && columns[n + 4] == SumOf(CacheReadTokens);
    assert columns[n + 5] == SumOf(CacheCreationTokens) && columns[n + 6] == SumOf(CostUsdMicros);
  }

  function PersonLineAt(row: seq<Cell>): PersonUsage {
    PersonUsage(TextAt(row, 0), TotalsAt(row, 1))
  }

  function AccountLineAt(row: seq<Cell>): AccountUsage {
    AccountUsage(TextAt(row, 0), TextAt(row, 1), TotalsAt(row, 2))
  }

  /** A result row of the two grouped queries. */
  function PersonCells(rows: seq<Row>, id: string): seq<Cell> {
    EvalAll([PersonName] + TOTALS_COLUMNS, id, Group(Person, id, rows))
  }

  function AccountCells(rows: seq<Row>, id: string): seq<Cell> {
    EvalAll([AccountId, GreatestEmail] + TOTALS_COLUMNS, id, Group(Account, id, rows))
  }

  function PersonLine(rows: seq<Row>, id: string): PersonUsage {
    PersonUsage(DisplayName(id), TotalsOf(Group(Person, id, rows)))
  }

  function AccountLine(rows: seq<Row>, id: string): AccountUsage {
    var group := Group(Account, id, rows);
    AccountUsage(id, MaxEmail(group), TotalsOf(group))
  }

  /** The columns of the two grouped queries land in the fields they are meant for. */
  lemma LinesFromColumns(rows: seq<Row>, id: string)
    ensures PersonLineAt(PersonCells(rows, id)) == PersonLine(rows, id)
    ensures AccountLineAt(AccountCells(rows, id)) == AccountLine(rows, id)
  {
    TotalsFromColumns([PersonName], id, Group(Person, id, rows));
    TotalsFromColumns([AccountId, GreatestEmail], id, Group(Account, id, rows));
  }

  /** A line for every group id, with the totals of its group. */
  predicate IsPersonReport(rows: seq<Row>, ids: seq<string>, lines: seq<PersonUsage>) {
    |lines| == |ids| && forall i | 0 <= i < |ids| :: lines[i] == PersonLine(rows, ids[i])
  }

  predicate IsAccountReport(rows: seq<Row>, ids: seq<string>, lines: seq<AccountUsage>) {
    |lines| == |ids| && forall i | 0 <= i < |ids| :: lines[i] == AccountLine(rows, ids[i])
  }

  lemma PersonsRead(rows: seq<Row>, ids: seq<string>, lines: seq<PersonUsage>)
    requires |lines| == |ids| && forall i | 0 <= i < |ids| :: lines[i] == PersonLineAt(PersonCells(rows, ids[i]))
    ensures IsPersonReport(rows, ids, lines)
  {
    forall i | 0 <= i < |ids| ensures lines[i] == PersonLine(rows, ids[i]) { LinesFromColumns(rows, ids[i]); }
  }

  lemma AccountsRead(rows: seq<Row>, ids: seq<string>, lines: seq<AccountUsage>)
    requires |lines| == |ids| && forall i | 0 <= i < |ids| :: lines[i] == AccountLineAt(AccountCells(rows, ids[i]))
    ensures IsAccountReport(rows, ids, lines)
  {
    forall i | 0 <= i < |ids| ensures lines[i] == AccountLine(rows, ids[i]) { LinesFromColumns(rows, ids[i]); }
  }

  /** The rows a statement's WHERE selects when its arguments are bound in order. */
  function Where(t: Table, conditions: seq<Condition>, args: seq<Arg>): seq<Row> {
    Filter(r => Matches(conditions, args, r), t)
  }

  /** The argument that the `?` after the WHERE clause takes. */
  function LimitOf(conditions: seq<Condition>, args: seq<Arg>): Option<int> {
    var i := HolesOf(conditions);
    if i < |args| && args[i].IntArg? then Some(args[i].n) else None
  }

  /** SELECT ... WHERE ... ORDER BY event_time DESC LIMIT ?; a negative limit is no limit. */
  function RunHistory(e: Engine, t: Table, conditions: seq<Condition>, args: seq<Arg>): seq<Row> {
    var sorted := e.newestFirst(Where(t, conditions, args));
    match LimitOf(conditions, args)
    case Some(n) => if 0 <= n < |sorted| then sorted[..n] else sorted
    case None => []
  }

  lemma {:induction false} MatchesIgnoresRest(conditions: seq<Condition>, args: seq<Arg>, rest: seq<Arg>, r: Row)
    requires |args| == HolesOf(conditions)
    ensures Matches(conditions, args + rest, r) == Matches(conditions, args, r)
  {
    if conditions != [] {
      var h := Holes(conditions[0]);
      assert (args + rest)[..h] == args[..h] && (args + rest)[h..] == args[h..] + rest;
      MatchesIgnoresRest(conditions[1..], args[h..], rest, r);
    }
  }

  /** The WHERE clause selects the wanted rows even when the limit is bound after it. */
  lemma WhereIsSelected(t: Table, conditions: seq<Condition>, args: seq<Arg>, rest: seq<Arg>,
                        since: Option<Instant>, person: string, requestsOnly: bool)
    requires |args| == HolesOf(conditions)
    requires forall r :: Matches(conditions, args, r) <==> Wanted(since, person, requestsOnly, r)
    ensures Where(t, conditions, args + rest) == Selected(t, since, person, requestsOnly)
  {
    forall r: Row ensures Matches(conditions, args + rest, r) == Wanted(since, person, requestsOnly, r) {
      MatchesIgnoresRest(conditions, args, rest, r);
    }
    FilterAgree(r => Matches(conditions, args + rest, r), r => Wanted(since, person, requestsOnly, r), t);
  }

  /** The cursor holds the first rows in descending text order. */
  lemma CursorShape(e: Engine, t: Table, conditions: seq<Condition>, args: seq<Arg>, n: int)
    requires Faithful(e) && LimitOf(conditions, args) == Some(n) && n >= 1
    ensures var all := Where(t, conditions, args);
            var sorted, cursor := e.newestFirst(all), RunHistory(e, t, conditions, args);
            && multiset(sorted) == multiset(all) && |sorted| == |all|
            && |cursor| == (if n < |all| then n else |all|)
            && (forall i | 0 <= i < |cursor| :: cursor[i] == sorted[i])
            && (forall i, j | 0 <= i < |cursor| && i < j < |sorted| :: !Less(cursor[i].eventTime, sorted[j].eventTime))
  {
    var all := Where(t, conditions, args);
    SameMembers(e.newestFirst(all), all);
    assert IsSortOf(Newer, all, e.newestFirst(all));
  }

  /** A line of the history; a time that does not parse, Go's zero time, is None. */
  datatype HistoryRow = HistoryRow(
    time: Option<Instant>,
    eventName: string,
    person: string,
    device: string,
    accountUuid: string,
    accountEmail: string,
    session: string,
    model: string,
    querySource: string,
    effort: string,
    inputTokens: int,
    outputTokens: int,
    cacheReadTokens: int,
    cacheCreationTokens: int,
    costUsdMicros: int,
    durationMs: int,
    statusCode: int,
    error: string)

  function HistoryRowOf(lib: Library, r: Row): HistoryRow {
    var e := r.event;
    HistoryRow(lib.parseTime(r.eventTime), e.name, DisplayName(e.person), e.device, e.accountUuid, e.accountEmail, e.session, e.model,
               e.querySource, e.effort, e.inputTokens, e.outputTokens, e.cacheReadTokens, e.cacheCreationTokens,
               e.costMicros, e.durationMs, e.statusCode, e.error)
  }

  function ClampLimit(limit: int): (n: nat)
    ensures 1 <= n <= 1000 && (1 <= limit <= 1000 ==> n == limit)
    ensures (limit < 1 ==> n == 100) && (limit > 1000 ==> n == 1000)
  {
    if limit < 1 then 100 else if limit > 1000 then 1000 else limit
  }

  // ----------------------------------------------------------------------- store

  /** The totals of a report's lines add up to the whole. */
  predicate AddsUp(d: Dimension, all: seq<Row>, parts: seq<Totals>) {
    var whole := TotalsOf(all);
    && (forall m :: SumField(m, parts) == MeasureOf(m, whole))
    && whole.sessions <= SumSessions(parts)
    && (whole.sessions == SumSessions(parts) <==> !SessionSpansGroups(d, all))
  }

  /** What ByPerson returns adds up to Totals without a person, in every window. */
  lemma ByPersonAddsUp(t: Table, since: Option<Instant>, e: Engine, lines: seq<PersonUsage>)
    requires Faithful(e)
    requires var all := Selected(t, since, "", true); IsPersonReport(all, e.groups(Person, all), lines)
    ensures AddsUp(Person, Selected(t, since, "", true), seq(|lines|, i requires 0 <= i < |lines| => lines[i].totals))
  {
    var all := Selected(t, since, "", true);
    ReportConserves(Person, all, e.groups(Person, all), seq(|lines|, i requires 0 <= i < |lines| => lines[i].totals));
  }

  /** What ByAccount returns adds up to Totals with the same person and window. */
  lemma ByAccountAddsUp(t: Table, since: Option<Instant>, person: string, e: Engine, lines: seq<AccountUsage>)
    requires Faithful(e)
    requires var all := Selected(t, since, person, true); IsAccountReport(all, e.groups(Account, all), lines)
    ensures AddsUp(Account, Selected(t, since, person, true), seq(|lines|, i requires 0 <= i < |lines| => lines[i].totals))
  {
    var all := Selected(t, since, person, true);
    ReportConserves(Account, all, e.groups(Account, all), seq(|lines|, i requires 0 <= i < |lines| => lines[i].totals));
  }

  /** ByAccount has one line for each account id that occurs, with the totals and the greatest
      e-mail of the rows that carry it. */
  lemma AccountLinesMean(rows: seq<Row>, e: Engine, lines: seq<AccountUsage>)
    requires Faithful(e) && IsAccountReport(rows, e.groups(Account, rows), lines)
    ensures forall i, j | 0 <= i < j < |lines| :: lines[i].accountUuid != lines[j].accountUuid
    ensures forall r <- rows :: exists line <- lines :: line.accountUuid == r.event.accountUuid
    ensures forall line <- lines ::
              var own := Filter((r: Row) => r.event.accountUuid == line.accountUuid, rows);
              own != [] && line.totals == TotalsOf(own) && line.accountEmail == MaxEmail(own)
    ensures forall i, j | 0 <= i < j < |lines| :: lines[j].totals.costUsdMicros <= lines[i].totals.costUsdMicros
  {
    var ids := e.groups(Account, rows);
    assert GroupsOf(Account, rows, ids);
    forall r | r in rows ensures exists line <- lines :: line.accountUuid == r.event.accountUuid {
      assert KeyOf(Account, r) in ids;
      var i :| 0 <= i < |ids| && ids[i] == r.event.accountUuid;
      assert lines[i] in lines;
    }
    forall line | line in lines
      ensures var own := Filter((r: Row) => r.event.accountUuid == line.accountUuid, rows);
              own != [] && line.totals == TotalsOf(own) && line.accountEmail == MaxEmail(own)
    {
      var i :| 0 <= i < |lines| && lines[i] == line;
      GroupIs(Account, ids[i], rows, (r: Row) => r.event.accountUuid == line.accountUuid);
      assert ids[i] in ids;
    }
  }

  /** ByPerson has one line for each person id that occurs, under its name or as "unknown". */
  lemma PersonLinesMean(rows: seq<Row>, e: Engine, lines: seq<PersonUsage>) returns (ids: seq<string>)
    requires Faithful(e) && IsPersonReport(rows, e.groups(Person, rows), lines)
    ensures |ids| == |lines| && Distinct(ids) && forall r <- rows :: r.event.person in ids
    ensures forall i | 0 <= i < |lines| ::
              var own := Filter((r: Row) => r.event.person == ids[i], rows);
              && own != [] && lines[i].totals == TotalsOf(own)
              && lines[i].person == if ids[i] == "" then "unknown" else ids[i]
    ensures forall i, j | 0 <= i < j < |lines| :: lines[j].totals.costUsdMicros <= lines[i].totals.costUsdMicros
  {
    ids := e.groups(Person, rows);
    assert GroupsOf(Person, rows, ids);
    forall r | r in rows ensures r.event.person in ids { assert KeyOf(Person, r) in ids; }
    forall i | 0 <= i < |lines|
      ensures var own := Filter((r: Row) => r.event.person == ids[i], rows);
              && own != [] && lines[i].totals == TotalsOf(own)
              && lines[i].person == if ids[i] == "" then "unknown" else ids[i]
    {
      GroupIs(Person, ids[i], rows, (r: Row) => r.event.person == ids[i]);
      assert ids[i] in ids;
    }
  }

  lemma GroupIs(d: Dimension, id: string, rows: seq<Row>, own: Row -> bool)
    requires forall r :: own(r) == (KeyOf(d, r) == id)
    ensures Group(d, id, rows) == Filter(own, rows)
    ensures (exists r <- rows :: KeyOf(d, r) == id) ==> Group(d, id, rows) != []
  {
    FilterAgree(own, r => KeyOf(d, r) == id, rows);
    GroupMembers(d, id, rows);
  }

  predicate AreHistoryRows(lib: Library, rows: seq<Row>, out: seq<HistoryRow>) {
    |out| == |rows| && forall i | 0 <= i < |rows| :: out[i] == HistoryRowOf(lib, rows[i])
  }

  /** The head of a rearrangement of all rows, and nothing behind it has a greater time text. */
  predicate NewestRows(lib: Library, all: seq<Row>, sorted: seq<Row>, out: seq<HistoryRow>) {
    && multiset(sorted) == multiset(all)
    && |out| <= |sorted|
    && AreHistoryRows(lib, sorted[..|out|], out)
    && forall i, j | 0 <= i < |out| && i < j < |sorted| :: !Less(sorted[i].eventTime, sorted[j].eventTime)
  }

  lemma NewestRowsStepped(lib: Library, cursor: seq<Row>, all: seq<Row>, e: Engine, out: seq<HistoryRow>)
    requires AreHistoryRows(lib, cursor, out)
    requires var sorted := e.newestFirst(all);
             && multiset(sorted) == multiset(all) && |cursor| <= |sorted|
             && (forall i | 0 <= i < |cursor| :: cursor[i] == sorted[i])
             && (forall i, j | 0 <= i < |cursor| && i < j < |sorted| :: !Less(cursor[i].eventTime, sorted[j].eventTime))
    ensures NewestRows(lib, all, e.newestFirst(all), out)
  {
    var sorted := e.newestFirst(all);
    assert cursor == sorted[..|out|];
  }

  /** time.Parse reads back what Format prints. */
  ghost predicate ReadsBack(lib: Library) {
    forall t :: InRange(t) ==> lib.parseTime(Format(t)) == Some(t)
  }

  /** Some parser does: the reader by character positions. */
  lemma ReadsBackHolds(lib: Library)
    ensures ReadsBack(lib.(parseTime := ReadTime))
  {
    forall t | InRange(t) ensures ReadTime(Format(t)) == Some(t) { FormatReadsBack(t); }
  }

  /** A row as Insert writes it, with a time in years 0000 to 9999. */
  predicate Written(r: Row) {
    r.eventTime == Format(r.event.time) && InRange(r.event.time)
  }

  /** The history shows the times of the events, newest second first: no row left out or behind
      lies in a later second than one before it. */
  lemma HistoryAgainstTime(lib: Library, all: seq<Row>, sorted: seq<Row>, out: seq<HistoryRow>)
    requires NewestRows(lib, all, sorted, out) && ReadsBack(lib) && forall r <- all :: Written(r)
    ensures forall i | 0 <= i < |out| :: out[i].time == Some(sorted[i].event.time)
    ensures forall i, j | 0 <= i < |out| && i < j < |sorted| ::
              sorted[j].event.time / NANOS_PER_SECOND <= sorted[i].event.time / NANOS_PER_SECOND
  {
    SameMembers(sorted, all);
    forall i | 0 <= i < |out| ensures out[i].time == Some(sorted[i].event.time) {
      assert sorted[..|out|][i] == sorted[i] && Written(sorted[i]);
      assert out[i] == HistoryRowOf(lib, sorted[i]);
    }
    forall i, j | 0 <= i < |out| && i < j < |sorted|
      ensures sorted[j].event.time / NANOS_PER_SECOND <= sorted[i].event.time / NANOS_PER_SECOND
    {
      assert Written(sorted[i]) && Written(sorted[j]);
      MisplacedOnlyWithinSecond(sorted[i].event.time, sorted[j].event.time);
    }
  }

  class Store {
    var table: Table          // what is committed
    var working: Table        // what the open transaction sees
    var inTransaction: bool
    var locked: bool

    ghost predicate Valid()
      reads this
    {
      !locked && !inTransaction && UniqueKeys(table)
    }

    constructor ()
      ensures Valid() && table == []
    {
      table, working := [], [];
      inTransaction, locked := false, false;
    }

    /** Everything between the lock and the unlock, the deferred rollback excepted. */
    method Transact(rows: seq<Row>, faults: Faults) returns (inserted: nat, err: Option<Error>)
      requires locked && !inTransaction
      modifies this`table, this`working, this`inTransaction
      ensures err.None? <==> !faults.begin && !faults.prepare && RowsReached(faults, |rows|) == |rows| && !faults.commit
      ensures err.None? ==> !inTransaction && table == InsertAll(old(table), rows)
      ensures err.None? ==> inserted == |table| - |old(table)|
      ensures err.Some? ==> table == old(table)
      ensures err.Some? ==> inserted == if faults.begin || faults.prepare then 0 else
                |InsertAll(old(table), rows[..RowsReached(faults, |rows|)])| - |old(table)|
    {
      inserted, err := 0, None;
      if faults.begin { return 0, Some(BeginFailed); }
      working, inTransaction := table, true;
      if faults.prepare { return 0, Some(PrepareFailed); }
      for i := 0 to |rows|
        invariant inTransaction && table == old(table)
        invariant working == InsertAll(table, rows[..i])
        invariant inserted == |working| - |table|
        invariant forall k | 0 <= k < i :: !faults.row(k)
      {
        if faults.row(i) {
          RowsReachedIs(faults, |rows|, i);
          return inserted, Some(RowFailed);
        }
        var before := |working|;
        working := InsertRow(working, rows[i]);
        assert rows[..i + 1] == rows[..i] + [rows[i]];
        InsertAllSnoc(table, rows[..i], rows[i]);
        inserted := inserted + (|working| - before);
      }
      RowsReachedIs(faults, |rows|, |rows|);
      assert rows[..|rows|] == rows;
      if faults.commit { return inserted, Some(CommitFailed); }
      table, inTransaction := working, false;
    }

    /** A batch is stored whole or not at all. A failed call leaves the table as it was, even
        though it reports the rows it had inserted before the failure. */
    method Insert(events: seq<Event>, now: string, faults: Faults) returns (inserted: nat, err: Option<Error>)
      requires Valid()
      modifies this
      ensures Valid()
      ensures err.None? <==> events == [] || Faultless(faults, |events|)
      ensures err.None? ==> table == InsertAll(old(table), RowsOf(events, now)) && inserted == |table| - |old(table)|
      ensures err.Some? ==> table == old(table)
      ensures err.Some? ==> inserted == if faults.cancelled || faults.begin || faults.prepare then 0 else
                |InsertAll(old(table), RowsOf(events, now)[..RowsReached(faults, |events|)])| - |old(table)|
    {
      if |events| == 0 { return 0, None; }
      if faults.cancelled { return 0, Some(ContextDone); }
      locked := true;
      var rows := RowsOf(events, now);
      inserted, err := Transact(rows, faults);
      if err.Some? {
        working, inTransaction := [], false;
      }
      InsertAllUnique(old(table), rows);
      locked := false;
    }

    /** Rows whose printed time is below the printed cutoff go; the others stay in order. */
    method Prune(retentionDays: int, now: Instant, fails: bool) returns (removed: nat, err: Option<Error>)
      requires Valid()
      modifies this
      ensures Valid()
      ensures err.Some? <==> retentionDays > 0 && fails
      ensures retentionDays <= 0 || err.Some? ==> table == old(table) && removed == 0
      ensures retentionDays > 0 && err.None? ==>
                table == Ledger.Prune(old(table), CutoffText(retentionDays, now)) && removed == |old(table)| - |table|
    {
      if retentionDays <= 0 { return 0, None; }
      var cutoff := Format(now + CutoffOffset(retentionDays));
      locked := true;
      PruneShape(table, cutoff);
      if fails {
        removed, err := 0, Some(QueryFailed);
      } else {
        var kept := Ledger.Prune(table, cutoff);
        removed, err := |table| - |kept|, None;
        table := kept;
      }
      locked := false;
    }

    method Totals(since: Option<Instant>, person: string, faults: ReadFaults) returns (t: Option<Totals>)
      requires Valid()
      ensures t == if ReadFails(faults, 0) then None else Some(TotalsOf(Selected(table, since, person, true)))
    {
      var conditions, args := WhereClause(since, person, true);
      if faults.query { return None; }
      if faults.step(0) { return None; }
      var row := EvalAll(TOTALS_COLUMNS, "", Where(table, conditions, args));
      WhereIsSelected(table, conditions, args, [], since, person, true);
      assert args + [] == args && [] + TOTALS_COLUMNS == TOTALS_COLUMNS;
      TotalsFromColumns([], "", Where(table, conditions, args));
      t := Some(TotalsAt(row, 0));
    }

    /** One line per stored person id, dearest first, each with the totals of its group; or,
        when any step fails, no lines at all. */
    method ByPerson(since: Option<Instant>, engine: Engine, faults: ReadFaults) returns (out: Option<seq<PersonUsage>>)
      requires Valid() && Faithful(engine)
      ensures var all := Selected(table, since, "", true);
              var ids := engine.groups(Person, all);
              && (out.None? <==> ReadFails(faults, |ids|))
              && (out.Some? ==> IsPersonReport(all, ids, out.value))
    {
      var conditions, args := WhereClause(since, "", true);
      if faults.query { return None; }
      WhereIsSelected(table, conditions, args, [], since, "", true);
      assert args + [] == args;
      var rows := Where(table, conditions, args);
      var ids := engine.groups(Person, rows);
      out := StepAll(ids, id => PersonLineAt(PersonCells(rows, id)), faults);
      if out.Some? { PersonsRead(rows, ids, out.value); }
    }

    /** One line per account, dearest first, with the greatest e-mail seen for it; or, when
        any step fails, no lines at all. */
    method ByAccount(since: Option<Instant>, person: string, engine: Engine, faults: ReadFaults)
      returns (out: Option<seq<AccountUsage>>)
      requires Valid() && Faithful(engine)
      ensures var all := Selected(table, since, person, true);
              var ids := engine.groups(Account, all);
              && (out.None? <==> ReadFails(faults, |ids|))
              && (out.Some? ==> IsAccountReport(all, ids, out.value))
    {
      var conditions, args := WhereClause(since, person, true);
      if faults.query { return None; }
      WhereIsSelected(table, conditions, args, [], since, person, true);
      assert args + [] == args;
      var rows := Where(table, conditions, args);
      var ids := engine.groups(Account, rows);
      out := StepAll(ids, id => AccountLineAt(AccountCells(rows, id)), faults);
      if out.Some? { AccountsRead(rows, ids, out.value); }
    }

    /** The first min(clamped limit, matches) matching rows in descending text order, no row
        left out being greater than one returned; or nothing when any step fails. */
    method History(lib: Library, since: Option<Instant>, person: string, limit: int, engine: Engine, faults: ReadFaults)
      returns (out: Option<seq<HistoryRow>>)
      requires Valid() && Faithful(engine)
      ensures var all := Selected(table, since, person, false);
              var n := if ClampLimit(limit) < |all| then ClampLimit(limit) else |all|;
              && (out.None? <==> ReadFails(faults, n))
              && (out.Some? ==> |out.value| == n && NewestRows(lib, all, engine.newestFirst(all), out.value))
    {
      var n := limit;
      if n < 1 { n := 100; }
      if n > 1000 { n := 1000; }
      var conditions, args := WhereClause(since, person, false);
      WhereIsSelected(table, conditions, args, [IntArg(n)], since, person, false);
      args := args + [IntArg(n)];
      if faults.query { return None; }
      var cursor := RunHistory(engine, table, conditions, args);
      assert LimitOf(conditions, args) == Some(n);
      CursorShape(engine, table, conditions, args, n);
      out := StepAll(cursor, r => HistoryRowOf(lib, r), faults);
      if out.Some? { NewestRowsStepped(lib, cursor, Where(table, conditions, args), engine, out.value); }
    }

    /** The loop of every report: step the cursor, read each row, and give up on an error. */
    static method StepAll<T, R>(cursor: seq<T>, read: T -> R, faults: ReadFaults) returns (out: Option<seq<R>>)
      requires !faults.query
      ensures out.None? <==> ReadFails(faults, |cursor|)
      ensures out.Some? ==> |out.value| == |cursor| && forall i | 0 <= i < |cursor| :: out.value[i] == read(cursor[i])
    {
      var rows: seq<R> := [];
      for i := 0 to |cursor|
        invariant |rows| == i && forall k | 0 <= k < i :: rows[k] == read(cursor[k])
        invariant forall k: nat | k < i :: !faults.step(k)
      {
        if faults.step(i) { return None; }
        rows := rows + [read(cursor[i])];
      }
      if faults.step(|cursor|) { return None; }
      out := Some(rows);
    }
  }
}
