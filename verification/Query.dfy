/** Building the WHERE clause and what it selects once its arguments are bound. */
module Query {
  import opened Wrappers
  import opened Seqs
  import opened Texts
  import opened Timestamps
  import opened Ledger

  /** The three conditions whereClause can write; the last two hold one `?` each. */
  datatype Condition = NameIsApiRequest | TimeAtLeast | PersonIs

  datatype Arg = TextArg(s: string) | IntArg(n: int)

  function Holes(c: Condition): nat {
    if c == NameIsApiRequest then 0 else 1
  }

  function HolesOf(conditions: seq<Condition>): nat {
    if conditions == [] then 0 else Holes(conditions[0]) + HolesOf(conditions[1..])
  }

  /** One condition on one row, with its own arguments. */
  predicate Test(c: Condition, args: seq<Arg>, r: Row)
    requires |args| == Holes(c)
  {
    match c
    case NameIsApiRequest => r.event.name == "api_request"
    case TimeAtLeast => args[0].TextArg? && NotBefore(r, args[0].s)
    case PersonIs => args[0].TextArg? && r.event.person == args[0].s
  }

  /** The conditions joined by AND, each `?` taking the next argument in turn. */
  predicate Matches(conditions: seq<Condition>, args: seq<Arg>, r: Row) {
    conditions == [] ||
    var h := Holes(conditions[0]);
    && h <= |args|
    && Test(conditions[0], args[..h], r)
    && Matches(conditions[1..], args[h..], r)
  }

  /** The rows a caller of the reports asks for. */
  predicate Wanted(since: Option<Instant>, person: string, requestsOnly: bool, r: Row) {
    && (requestsOnly ==> r.event.name == "api_request")
    && (since.Some? ==> NotBefore(r, Format(since.value)))
    && (!Blank(person) ==> r.event.person == person)
  }

  function Selected(t: Table, since: Option<Instant>, person: string, requestsOnly: bool): seq<Row> {
    Filter(r => Wanted(since, person, requestsOnly, r), t)
  }

  lemma {:induction false} HolesSnoc(conditions: seq<Condition>, c: Condition)
    ensures HolesOf(conditions + [c]) == HolesOf(conditions) + Holes(c)
  {
    if conditions != [] {
      assert (conditions + [c])[1..] == conditions[1..] + [c];
      HolesSnoc(conditions[1..], c);
    }
  }

  lemma {:induction false} MatchesSnoc(conditions: seq<Condition>, args: seq<Arg>, c: Condition, more: seq<Arg>, r: Row)
    requires |args| == HolesOf(conditions) && |more| == Holes(c)
    ensures Matches(conditions + [c], args + more, r) <==> Matches(conditions, args, r) && Test(c, more, r)
  {
    var cs, all := conditions + [c], args + more;
    if conditions == [] {
      assert all == more && more[..|more|] == more && cs[1..] == [];
    } else {
      var h := Holes(conditions[0]);
      assert cs[1..] == conditions[1..] + [c];
      assert all[..h] == args[..h] && all[h..] == args[h..] + more;
      MatchesSnoc(conditions[1..], args[h..], c, more, r);
    }
  }

  /** Appending a condition with its arguments conjoins it. */
  lemma Conjoined(conditions: seq<Condition>, args: seq<Arg>, c: Condition, more: seq<Arg>)
    requires |args| == HolesOf(conditions) && |more| == Holes(c)
    ensures HolesOf(conditions + [c]) == |args + more|
    ensures forall r :: Matches(conditions + [c], args + more, r) <==> Matches(conditions, args, r) && Test(c, more, r)
  {
    HolesSnoc(conditions, c);
    forall r: Row
      ensures Matches(conditions + [c], args + more, r) <==> Matches(conditions, args, r) && Test(c, more, r)
    {
      MatchesSnoc(conditions, args, c, more, r);
    }
  }

  /** In all eight combinations the clause has as many `?` as arguments and selects exactly
      the wanted rows. */
  method WhereClause(since: Option<Instant>, person: string, requestsOnly: bool)
    returns (conditions: seq<Condition>, args: seq<Arg>)
    ensures HolesOf(conditions) == |args|
    ensures forall r :: Matches(conditions, args, r) <==> Wanted(since, person, requestsOnly, r)
  {
    conditions, args := [], [];
    if requestsOnly {
      Conjoined(conditions, args, NameIsApiRequest, []);
      assert args + [] == args;
      conditions := conditions + [NameIsApiRequest];
    }
    if since.Some? {
      Conjoined(conditions, args, TimeAtLeast, [TextArg(Format(since.value))]);
      conditions := conditions + [TimeAtLeast];
      args := args + [TextArg(Format(since.value))];
    }
    if !Blank(person) {
      Conjoined(conditions, args, PersonIs, [TextArg(person)]);
      conditions := conditions + [PersonIs];
      args := args + [TextArg(person)];
    }
  }

  /** Against real time, the `since` bound misplaces exactly the rows of a reversed pair,
      all of them in the bound's own second. */
  lemma SinceAgainstTime(r: Row, since: Instant)
    requires r.eventTime == Format(r.event.time) && InRange(r.event.time) && InRange(since)
    ensures NotBefore(r, Format(since)) <==>
            if Reversed(r.event.time, since) then r.event.time < since else since <= r.event.time
    ensures NotBefore(r, Format(since)) != (since <= r.event.time) ==>
            r.event.time / NANOS_PER_SECOND == since / NANOS_PER_SECOND
  {
    TextBound(r.event.time, since);
  }
}
