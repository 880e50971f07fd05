/** What the aggregate reports mean, and how grouping conserves usage. */
module Reports {
  import opened Wrappers
  import opened Seqs
  import opened Texts
  import opened Timestamps
  import opened Ledger
  import opened Query

  // --------------------------------------------------------------------- measures

  /** The additive columns: a request counts one, the others are summed. */
  datatype Measure = Requests | InputTokens | OutputTokens | CacheReadTokens | CacheCreationTokens | CostUsdMicros

  function Amount(m: Measure, r: Row): int {
    match m
    case Requests => 1
    case InputTokens => r.event.inputTokens
    case OutputTokens => r.event.outputTokens
    case CacheReadTokens => r.event.cacheReadTokens
    case CacheCreationTokens => r.event.cacheCreationTokens
    case CostUsdMicros => r.event.costMicros
  }

  function Sum(m: Measure, rows: seq<Row>): int {
    if rows == [] then 0 else Sum(m, rows[..|rows| - 1]) + Amount(m, rows[|rows| - 1])
  }

  /** The non-empty session ids: what COUNT(DISTINCT NULLIF(session_id,'')) counts. */
  function Sessions(rows: seq<Row>): set<string> {
    set r <- rows | r.event.session != "" :: r.event.session
  }

  datatype Totals = Totals(
    requests: int,
    sessions: int,
    inputTokens: int,
    outputTokens: int,
    cacheReadTokens: int,
    cacheCreationTokens: int,
    costUsdMicros: int)

  function TotalsOf(rows: seq<Row>): Totals {
    Totals(Sum(Requests, rows), |Sessions(rows)|, Sum(InputTokens, rows), Sum(OutputTokens, rows),
           Sum(CacheReadTokens, rows), Sum(CacheCreationTokens, rows), Sum(CostUsdMicros, rows))
  }

  lemma NoRowsNoUsage()
    ensures TotalsOf([]) == Totals(0, 0, 0, 0, 0, 0, 0)
  {
    assert Sessions([]) == {};
  }

  /** `b` counts the row `r` on top of `a`, which counts `rows`: by the row's own fields, and one
      session more exactly when its session is not empty and none of the rows has it. */
  predicate CountsOneMore(a: Totals, b: Totals, rows: seq<Row>, r: Row) {
    && b.requests == a.requests + 1
    && b.sessions == a.sessions + (if r.event.session != "" && forall x <- rows :: x.event.session != r.event.session then 1 else 0)
    && b.inputTokens == a.inputTokens + r.event.inputTokens
    && b.outputTokens == a.outputTokens + r.event.outputTokens
    && b.cacheReadTokens == a.cacheReadTokens + r.event.cacheReadTokens
    && b.cacheCreationTokens == a.cacheCreationTokens + r.event.cacheCreationTokens
    && b.costUsdMicros == a.costUsdMicros + r.event.costMicros
  }

  lemma SessionsSnoc(rows: seq<Row>, r: Row)
    ensures Sessions(rows + [r]) == Sessions(rows) + if r.event.session != "" then {r.event.session} else {}
    ensures r.event.session in Sessions(rows) <==> r.event.session != "" && exists x <- rows :: x.event.session == r.event.session
  {
  }

  lemma SumsCountRow(rows: seq<Row>, r: Row)
    ensures forall m :: Sum(m, rows + [r]) == Sum(m, rows) + Amount(m, r)
  {
    assert (rows + [r])[..|rows|] == rows;
  }

  /** The totals of a table, counted row by row from none. */
  lemma TotalsCountRows(rows: seq<Row>, r: Row)
    ensures CountsOneMore(TotalsOf(rows), TotalsOf(rows + [r]), rows, r)
  {
    SumsCountRow(rows, r);
    SessionsSnoc(rows, r);
    var before, session := Sessions(rows), r.event.session;
    assert session != "" && session !in before ==> |before + {session}| == |before| + 1;
    assert session in before ==> before + {session} == before;
  }

  /** A row that is asked for is counted by its own fields, any other changes nothing. */
  lemma WantedRowCounts(t: Table, r: Row, since: Option<Instant>, person: string, requestsOnly: bool)
    ensures var a := TotalsOf(Selected(t, since, person, requestsOnly));
            var b := TotalsOf(Selected(t + [r], since, person, requestsOnly));
            if Wanted(since, person, requestsOnly, r)
            then CountsOneMore(a, b, Selected(t, since, person, requestsOnly), r) else a == b
  {
    var before := Selected(t, since, person, requestsOnly);
    FilterSnoc(x => Wanted(since, person, requestsOnly, x), t, r);
    TotalsCountRows(before, r);
    assert before + [] == before;
  }

  lemma SumSnoc(m: Measure, rows: seq<Row>, r: Row)
    ensures Sum(m, rows + [r]) == Sum(m, rows) + Amount(m, r)
  {
    assert (rows + [r])[..|rows|] == rows;
  }

  lemma {:induction false} SumAppend(m: Measure, a: seq<Row>, b: seq<Row>)
    ensures Sum(m, a + b) == Sum(m, a) + Sum(m, b)
  {
    if b == [] {
      assert a + b == a;
    } else {
      var n := |b| - 1;
      SumAppend(m, a, b[..n]);
      assert a + b == (a + b[..n]) + [b[n]];
      SumSnoc(m, a + b[..n], b[n]);
    }
  }

  lemma {:induction false} RequestsCountRows(rows: seq<Row>)
    ensures Sum(Requests, rows) == |rows|
  {
    if rows != [] { RequestsCountRows(rows[..|rows| - 1]); }
  }

  // --------------------------------------------------------------------- grouping

  datatype Dimension = Person | Account

  function KeyOf(d: Dimension, r: Row): string {
    match d
    case Person => r.event.person
    case Account => r.event.accountUuid
  }

  function Group(d: Dimension, id: string, rows: seq<Row>): seq<Row> {
    Filter(r => KeyOf(d, r) == id, rows)
  }

  /** A list of all group ids of the rows, each once, in some order. */
  predicate GroupsOf(d: Dimension, rows: seq<Row>, ids: seq<string>) {
    && Distinct(ids)
    && (forall r <- rows :: KeyOf(d, r) in ids)
    && (forall id <- ids :: exists r <- rows :: KeyOf(d, r) == id)
  }

  function SumOverGroups(m: Measure, d: Dimension, rows: seq<Row>, ids: seq<string>): int {
    if ids == [] then 0
    else SumOverGroups(m, d, rows, ids[..|ids| - 1]) + Sum(m, Group(d, ids[|ids| - 1], rows))
  }

  lemma GroupSnoc(d: Dimension, id: string, rows: seq<Row>, r: Row)
    ensures Group(d, id, rows + [r]) == Group(d, id, rows) + if KeyOf(d, r) == id then [r] else []
  {
    FilterSnoc(x => KeyOf(d, x) == id, rows, r);
  }

  lemma GroupMembers(d: Dimension, id: string, rows: seq<Row>)
    ensures forall r :: r in Group(d, id, rows) <==> r in rows && KeyOf(d, r) == id
  {
    FilterMembers(r => KeyOf(d, r) == id, rows);
  }

  lemma {:induction false} OneMoreRow(m: Measure, d: Dimension, rows: seq<Row>, r: Row, ids: seq<string>)
    requires Distinct(ids)
    ensures SumOverGroups(m, d, rows + [r], ids) ==
            SumOverGroups(m, d, rows, ids) + if KeyOf(d, r) in ids then Amount(m, r) else 0
  {
    if ids != [] {
      var n := |ids| - 1;
      OneMoreRow(m, d, rows, r, ids[..n]);
      GroupSnoc(d, ids[n], rows, r);
      assert ids == ids[..n] + [ids[n]];
      if KeyOf(d, r) == ids[n] {
        SumSnoc(m, Group(d, ids[n], rows), r);
      } else {
        assert Group(d, ids[n], rows) + [] == Group(d, ids[n], rows);
      }
    }
  }

  lemma {:induction false} NoRows(m: Measure, d: Dimension, ids: seq<string>)
    ensures SumOverGroups(m, d, [], ids) == 0
  {
    if ids != [] { NoRows(m, d, ids[..|ids| - 1]); }
  }

  /** Requests, the four token counts and the cost, summed over the groups, are the totals. */
  lemma {:induction false} GroupingConserves(m: Measure, d: Dimension, rows: seq<Row>, ids: seq<string>)
    requires Distinct(ids) && forall r <- rows :: KeyOf(d, r) in ids
    ensures SumOverGroups(m, d, rows, ids) == Sum(m, rows)
  {
    if rows == [] {
      NoRows(m, d, ids);
    } else {
      var n := |rows| - 1;
      assert rows == rows[..n] + [rows[n]];
      GroupingConserves(m, d, rows[..n], ids);
      OneMoreRow(m, d, rows[..n], rows[n], ids);
    }
  }

  // --------------------------------------------------------------------- sessions

  function SessionsOverGroups(d: Dimension, rows: seq<Row>, ids: seq<string>): int {
    if ids == [] then 0
    else SessionsOverGroups(d, rows, ids[..|ids| - 1]) + |Sessions(Group(d, ids[|ids| - 1], rows))|
  }

  /** Some non-empty session has rows in two groups. */
  predicate SessionSpansGroups(d: Dimension, rows: seq<Row>) {
    exists r <- rows, s <- rows ::
      r.event.session == s.event.session != "" && KeyOf(d, r) != KeyOf(d, s)
  }

  /** The sessions of the rows whose group is among `ids`. */
  function SessionsIn(d: Dimension, rows: seq<Row>, ids: seq<string>): set<string> {
    set r <- rows | r.event.session != "" && KeyOf(d, r) in ids :: r.event.session
  }

  predicate SpansAmong(d: Dimension, rows: seq<Row>, ids: seq<string>) {
    exists r <- rows, s <- rows :: SpannedBy(d, rows, ids, r, s)
  }

  lemma UnionSize(a: set<string>, b: set<string>)
    ensures |a + b| == |a| + |b| - |a * b|
  {
    assert a + b == a + (b - a) && a !! (b - a);
    assert b == (b - a) + (a * b);
  }

  lemma SessionsInSnoc(d: Dimension, rows: seq<Row>, front: seq<string>, id: string)
    ensures SessionsIn(d, rows, front + [id]) == SessionsIn(d, rows, front) + Sessions(Group(d, id, rows))
  {
    GroupMembers(d, id, rows);
    var a, b := SessionsIn(d, rows, front), Sessions(Group(d, id, rows));
    forall x ensures x in SessionsIn(d, rows, front + [id]) <==> x in a || x in b {
      if x in b {
        var r :| r in Group(d, id, rows) && r.event.session == x;
        assert r in rows && KeyOf(d, r) in front + [id];
      }
      if x in a {
        var r :| r in rows && r.event.session == x != "" && KeyOf(d, r) in front;
        assert KeyOf(d, r) in front + [id];
      }
    }
  }

  lemma {:induction false} SessionsAmongGroups(d: Dimension, rows: seq<Row>, ids: seq<string>)
    requires Distinct(ids)
    ensures |SessionsIn(d, rows, ids)| <= SessionsOverGroups(d, rows, ids)
    ensures |SessionsIn(d, rows, ids)| == SessionsOverGroups(d, rows, ids) <==> !SpansAmong(d, rows, ids)
  {
    if ids == [] {
      assert SessionsIn(d, rows, ids) == {};
    } else {
      var n := |ids| - 1;
      var front, id := ids[..n], ids[n];
      SessionsAmongGroups(d, rows, front);
      assert ids == front + [id] && id !in front;
      SessionsInSnoc(d, rows, front, id);
      UnionSize(SessionsIn(d, rows, front), Sessions(Group(d, id, rows)));
      LastGroupOverlaps(d, rows, front, id);
    }
  }

  lemma LastGroupOverlaps(d: Dimension, rows: seq<Row>, front: seq<string>, id: string)
    requires id !in front
    ensures SpansAmong(d, rows, front + [id]) <==>
            SpansAmong(d, rows, front) || SessionsIn(d, rows, front) * Sessions(Group(d, id, rows)) != {}
  {
    GroupMembers(d, id, rows);
    var a, b := SessionsIn(d, rows, front), Sessions(Group(d, id, rows));
    if a * b != {} {
      var x :| x in a && x in b;
      var r :| r in rows && r.event.session == x && x != "" && KeyOf(d, r) in front;
      var s :| s in rows && s.event.session == x && KeyOf(d, s) == id;
      assert KeyOf(d, r) in front + [id] && KeyOf(d, s) in front + [id];
    }
    if SpansAmong(d, rows, front) {
      var r, s :| r in rows && s in rows && SpannedBy(d, rows, front, r, s);
      assert KeyOf(d, r) in front + [id] && KeyOf(d, s) in front + [id];
    }
    if SpansAmong(d, rows, front + [id]) {
      var r, s :| r in rows && s in rows && SpannedBy(d, rows, front + [id], r, s);
      if KeyOf(d, r) == id {
        SharedSession(d, rows, front, id, s, r);
      } else if KeyOf(d, s) == id {
        SharedSession(d, rows, front, id, r, s);
      } else {
        assert SpannedBy(d, rows, front, r, s);
      }
    }
  }

  predicate SpannedBy(d: Dimension, rows: seq<Row>, ids: seq<string>, r: Row, s: Row) {
    && r in rows && s in rows && r.event.session == s.event.session != ""
    && KeyOf(d, r) != KeyOf(d, s) && KeyOf(d, r) in ids && KeyOf(d, s) in ids
  }

  lemma SharedSession(d: Dimension, rows: seq<Row>, front: seq<string>, id: string, r: Row, s: Row)
    requires SpannedBy(d, rows, front + [id], r, s) && KeyOf(d, s) == id
    ensures SessionsIn(d, rows, front) * Sessions(Group(d, id, rows)) != {}
  {
    GroupMembers(d, id, rows);
    var x := r.event.session;
    assert KeyOf(d, r) in front;
    assert x in SessionsIn(d, rows, front);
    assert s in Group(d, id, rows);
    assert x in Sessions(Group(d, id, rows));
    assert x in SessionsIn(d, rows, front) * Sessions(Group(d, id, rows));
  }

  /** Sessions: the total is at most the sum over the groups, and equal to it exactly when
      no non-empty session spans two groups. */
  lemma GroupingSessions(d: Dimension, rows: seq<Row>, ids: seq<string>)
    requires GroupsOf(d, rows, ids)
    ensures |Sessions(rows)| <= SessionsOverGroups(d, rows, ids)
    ensures |Sessions(rows)| == SessionsOverGroups(d, rows, ids) <==> !SessionSpansGroups(d, rows)
  {
    SessionsAmongGroups(d, rows, ids);
    assert SessionsIn(d, rows, ids) == Sessions(rows);
    if SessionSpansGroups(d, rows) {
      var r, s :| r in rows && s in rows && r.event.session == s.event.session != "" && KeyOf(d, r) != KeyOf(d, s);
      assert SpannedBy(d, rows, ids, r, s);
    }
  }

  // -------------------------------------------------------- groups and filtered totals

  /** A person's group has the rows of the totals filtered to that person exactly when the
      stored id is not blank, or nobody else has rows (a blank id filters nothing). */
  lemma GroupIsFilteredSelection(t: Table, since: Option<Instant>, id: string)
    ensures var all := Selected(t, since, "", true);
            Group(Person, id, all) == Selected(t, since, id, true) <==>
            !Blank(id) || forall r <- all :: r.event.person == id
  {
    var all := Selected(t, since, "", true);
    assert TrimSpace("") == "";
    if Blank(id) {
      FilterAgree(r => Wanted(since, id, true, r), r => Wanted(since, "", true, r), t);
      if forall r <- all :: r.event.person == id {
        FilterAll(r => KeyOf(Person, r) == id, all);
      } else {
        GroupMembers(Person, id, all);
      }
    } else {
      FilterTwice(t, since, id);
    }
  }

  lemma {:induction false} FilterTwice(t: Table, since: Option<Instant>, id: string)
    requires !Blank(id)
    ensures Group(Person, id, Selected(t, since, "", true)) == Selected(t, since, id, true)
  {
    assert TrimSpace("") == "";
    if t != [] {
      var n := |t| - 1;
      FilterTwice(t[..n], since, id);
      var all := Selected(t[..n], since, "", true);
      if Wanted(since, "", true, t[n]) { GroupSnoc(Person, id, all, t[n]); }
      else { assert all + [] == all; }
    }
  }

  // -------------------------------------------------------------- whole reports

  function MeasureOf(m: Measure, t: Totals): int {
    match m
    case Requests => t.requests
    case InputTokens => t.inputTokens
    case OutputTokens => t.outputTokens
    case CacheReadTokens => t.cacheReadTokens
    case CacheCreationTokens => t.cacheCreationTokens
    case CostUsdMicros => t.costUsdMicros
  }

  function SumField(m: Measure, lines: seq<Totals>): int {
    if lines == [] then 0 else SumField(m, lines[..|lines| - 1]) + MeasureOf(m, lines[|lines| - 1])
  }

  function SumSessions(lines: seq<Totals>): int {
    if lines == [] then 0 else SumSessions(lines[..|lines| - 1]) + lines[|lines| - 1].sessions
  }

  /** The lines of a report by `d` over `rows`, in the order of the group ids. */
  predicate IsReport(d: Dimension, rows: seq<Row>, ids: seq<string>, lines: seq<Totals>) {
    |lines| == |ids| && forall i | 0 <= i < |ids| :: lines[i] == TotalsOf(Group(d, ids[i], rows))
  }

  lemma ReportPrefix(d: Dimension, rows: seq<Row>, ids: seq<string>, lines: seq<Totals>, n: nat)
    requires IsReport(d, rows, ids, lines) && n <= |ids|
    ensures IsReport(d, rows, ids[..n], lines[..n])
    ensures n < |ids| ==> lines[n] == TotalsOf(Group(d, ids[n], rows))
  {
  }

  lemma MeasureOfTotals(m: Measure, rows: seq<Row>)
    ensures MeasureOf(m, TotalsOf(rows)) == Sum(m, rows) && TotalsOf(rows).sessions == |Sessions(rows)|
  {
  }

  lemma {:induction false} ReportSums(m: Measure, d: Dimension, rows: seq<Row>, ids: seq<string>, lines: seq<Totals>)
    requires IsReport(d, rows, ids, lines)
    ensures SumField(m, lines) == SumOverGroups(m, d, rows, ids)
    ensures SumSessions(lines) == SessionsOverGroups(d, rows, ids)
  {
    if ids != [] {
      var n := |ids| - 1;
      ReportPrefix(d, rows, ids, lines, n);
      ReportSums(m, d, rows, ids[..n], lines[..n]);
      MeasureOfTotals(m, Group(d, ids[n], rows));
    }
  }

  /** A report by person or by account conserves usage: its lines add up to the totals of
      the same rows, field by field; its sessions never add up to less, and to the same
      number exactly when no non-empty session spans two groups. */
  lemma ReportConserves(d: Dimension, rows: seq<Row>, ids: seq<string>, lines: seq<Totals>)
    requires GroupsOf(d, rows, ids) && IsReport(d, rows, ids, lines)
    ensures forall m :: SumField(m, lines) == MeasureOf(m, TotalsOf(rows))
    ensures TotalsOf(rows).sessions <= SumSessions(lines)
    ensures TotalsOf(rows).sessions == SumSessions(lines) <==> !SessionSpansGroups(d, rows)
  {
    forall m: Measure ensures SumField(m, lines) == MeasureOf(m, TotalsOf(rows)) {
      ReportSums(m, d, rows, ids, lines);
      GroupingConserves(m, d, rows, ids);
    }
    ReportSums(Requests, d, rows, ids, lines);
    GroupingSessions(d, rows, ids);
  }

  // ------------------------------------------------------------------ report shapes

  datatype PersonUsage = PersonUsage(person: string, totals: Totals)

  datatype AccountUsage = AccountUsage(accountUuid: string, accountEmail: string, totals: Totals)

  /** COALESCE(NULLIF(person_id,''),'unknown'). */
  function DisplayName(id: string): string {
    if id == "" then "unknown" else id
  }

  /** MAX(account_email): the greatest in byte order. */
  function MaxEmail(rows: seq<Row>): string {
    if rows == [] then ""
    else
      var rest := MaxEmail(rows[..|rows| - 1]);
      var last := rows[|rows| - 1].event.accountEmail;
      if |rows| == 1 || Less(rest, last) then last else rest
  }

  lemma {:induction false} MaxEmailIsGreatest(rows: seq<Row>)
    requires rows != []
    ensures exists r <- rows :: r.event.accountEmail == MaxEmail(rows)
    ensures forall i | 0 <= i < |rows| :: !Less(MaxEmail(rows), rows[i].event.accountEmail)
  {
    var n := |rows| - 1;
    var front, last := rows[..n], rows[n].event.accountEmail;
    assert rows[n] in rows;
    LessTrichotomy(last, last);
    if front != [] {
      MaxEmailIsGreatest(front);
      var r :| r in front && r.event.accountEmail == MaxEmail(front);
      assert r in rows;
      LessTrichotomy(MaxEmail(front), last);
      forall i | 0 <= i < n ensures !Less(MaxEmail(rows), rows[i].event.accountEmail) {
        assert !Less(MaxEmail(front), front[i].event.accountEmail);
        if Less(MaxEmail(front), last) {
          NotLessTransitive(last, MaxEmail(front), rows[i].event.accountEmail);
        }
      }
    }
  }

  /** Two people can show under one name only as "unknown": the id that is empty and the id
      that is spelt "unknown" are separate groups with one display name. */
  lemma DisplayNamesDistinct(rows: seq<Row>, ids: seq<string>)
    requires GroupsOf(Person, rows, ids)
    ensures (forall i, j | 0 <= i < j < |ids| :: DisplayName(ids[i]) != DisplayName(ids[j])) <==>
            !("" in ids && "unknown" in ids)
  {
    if "" in ids && "unknown" in ids {
      var i :| 0 <= i < |ids| && ids[i] == "";
      var j :| 0 <= j < |ids| && ids[j] == "unknown";
      assert DisplayName(ids[i]) == DisplayName(ids[j]);
    }
  }

  // ------------------------------------------------- independence of order and receipt

  /** Sums depend only on which rows there are. */
  lemma {:induction false} SumRearranged(m: Measure, a: seq<Row>, b: seq<Row>)
    requires multiset(a) == multiset(b)
    ensures Sum(m, a) == Sum(m, b)
  {
    if a == [] {
      assert |multiset(b)| == |multiset(a)| == 0;
    } else {
      var c, x, e := RemoveOne(a, b);
      SumRearranged(m, a[..|a| - 1], c + e);
      SumAppend(m, c, e);
      SumAppend(m, c + [x], e);
      SumSnoc(m, c, x);
    }
  }

  lemma {:induction false} FilterMultiset(keep: Row -> bool, a: seq<Row>, x: Row)
    ensures multiset(Filter(keep, a))[x] == if keep(x) then multiset(a)[x] else 0
  {
    if a != [] {
      var n := |a| - 1;
      FilterMultiset(keep, a[..n], x);
      assert a == a[..n] + [a[n]];
      FilterSnoc(keep, a[..n], a[n]);
    }
  }

  lemma TotalsRearranged(a: seq<Row>, b: seq<Row>)
    requires multiset(a) == multiset(b)
    ensures TotalsOf(a) == TotalsOf(b)
  {
    forall m: Measure ensures Sum(m, a) == Sum(m, b) { SumRearranged(m, a, b); }
    forall r ensures r in a <==> r in b {
      assert r in a <==> r in multiset(a);
      assert r in b <==> r in multiset(b);
    }
    assert Sessions(a) == Sessions(b);
  }

  lemma SelectedRearranged(a: Table, b: Table, since: Option<Instant>, person: string, requestsOnly: bool)
    requires multiset(a) == multiset(b)
    ensures TotalsOf(Selected(a, since, person, requestsOnly)) == TotalsOf(Selected(b, since, person, requestsOnly))
  {
    var keep := r => Wanted(since, person, requestsOnly, r);
    forall x ensures multiset(Filter(keep, a))[x] == multiset(Filter(keep, b))[x] {
      FilterMultiset(keep, a, x);
      FilterMultiset(keep, b, x);
    }
    assert multiset(Filter(keep, a)) == multiset(Filter(keep, b));
    TotalsRearranged(Filter(keep, a), Filter(keep, b));
  }

  lemma {:induction false} SumOfBare(m: Measure, rows: seq<Row>)
    ensures Sum(m, Bare(rows)) == Sum(m, rows)
  {
    if rows != [] {
      var n := |rows| - 1;
      assert Bare(rows)[..n] == Bare(rows[..n]);
      SumOfBare(m, rows[..n]);
    }
  }

  lemma {:induction false} SelectedOfBare(t: Table, since: Option<Instant>, person: string, requestsOnly: bool)
    ensures Selected(Bare(t), since, person, requestsOnly) == Bare(Selected(t, since, person, requestsOnly))
  {
    if t != [] {
      var n := |t| - 1;
      assert Bare(t)[..n] == Bare(t[..n]) && Bare(t)[n] == Unstamped(t[n]);
      SelectedOfBare(t[..n], since, person, requestsOnly);
      var front := Selected(t[..n], since, person, requestsOnly);
      assert Bare(front + [t[n]]) == Bare(front) + [Unstamped(t[n])];
      assert front + [] == front && Bare(front) + [] == Bare(front);
    }
  }

  lemma TotalsOfBare(rows: seq<Row>)
    ensures TotalsOf(Bare(rows)) == TotalsOf(rows)
  {
    forall m: Measure ensures Sum(m, Bare(rows)) == Sum(m, rows) { SumOfBare(m, rows); }
    var bare := Bare(rows);
    forall i | 0 <= i < |rows| ensures bare[i] in bare && rows[i] in rows && bare[i].event == rows[i].event { }
    forall x ensures x in Sessions(bare) <==> x in Sessions(rows) {
      if x in Sessions(rows) {
        var i :| 0 <= i < |rows| && rows[i].event.session == x;
        assert bare[i] in bare;
      }
      if x in Sessions(bare) {
        var i :| 0 <= i < |bare| && bare[i].event.session == x;
        assert rows[i] in rows;
      }
    }
    assert Sessions(bare) == Sessions(rows);
  }

  /** Every report on totals ignores insertion times and the order of the rows. */
  lemma TotalsDependOnContentsOnly(t: Table, u: Table, since: Option<Instant>, person: string, requestsOnly: bool)
    requires multiset(Bare(t)) == multiset(Bare(u))
    ensures TotalsOf(Selected(t, since, person, requestsOnly)) == TotalsOf(Selected(u, since, person, requestsOnly))
  {
    SelectedOfBare(t, since, person, requestsOnly);
    SelectedOfBare(u, since, person, requestsOnly);
    TotalsOfBare(Selected(t, since, person, requestsOnly));
    TotalsOfBare(Selected(u, since, person, requestsOnly));
    SelectedRearranged(Bare(t), Bare(u), since, person, requestsOnly);
  }
}
