/** When launches can start themselves again: exactly where the invariant fails. Each failing
    conjunct gives a legal run to a launch that executes the wrapper's text. */
module Reentry {
  import opened Wrappers
  import opened Seqs
  import opened Texts
  import opened Paths
  import opened Resolver
  import opened Shim
  import opened Launching

  // ------------------------------------------------------------------------------------- runs

  lemma {:induction false} RunsAppend(m: Machine, a: seq<Step>, b: seq<Step>)
    ensures Run(m, a + b) == Run(Run(m, a), b)
    ensures LegalRun(m, a + b) <==> LegalRun(m, a) && LegalRun(Run(m, a), b)
    decreases |a|
  {
    if a == [] {
      assert a + b == b;
    } else {
      assert (a + b)[0] == a[0] && (a + b)[1..] == a[1..] + b;
      RunsAppend(Next(m, a[0]), a[1..], b);
    }
  }

  /** What a legal run leads to is no safer than where it started. */
  lemma UnsafeBefore(m: Machine, steps: seq<Step>)
    requires LegalRun(m, steps) && !AlwaysSafe(Run(m, steps))
    ensures !AlwaysSafe(m)
  {
    var after := Run(m, steps);
    var more, pick, meter :| LegalRun(after, more) && Picks(pick) && !LaunchSafe(Run(after, more), pick, meter);
    RunsAppend(m, steps, more);
  }

  lemma OneStep(m: Machine, s: Step)
    requires Legal(m, s) && !AlwaysSafe(Next(m, s))
    ensures !AlwaysSafe(m)
  {
    assert [s][1..] == [];
    assert Run(m, [s]) == Run(Next(m, s), []) == Next(m, s);
    assert LegalRun(m, [s]) == (Legal(m, s) && LegalRun(Next(m, s), []));
    UnsafeBefore(m, [s]);
  }

  lemma UnsafeNow(m: Machine, pick: set<string> -> string, meter: Meter)
    requires Picks(pick) && !LaunchSafe(m, pick, meter)
    ensures !AlwaysSafe(m)
  {
    assert LegalRun(m, []) && Run(m, []) == m;
  }

  ghost function SomePick(): (pick: set<string> -> string)
    ensures Picks(pick)
  {
    (s: set<string>) => if s == {} then "" else var p :| p in s; p
  }

  /** A meter that cannot read its configuration and is given a fallback by nobody else. */
  function PlainMeter(config: Option<string>): Meter {
    Meter(config, "", path => false, path => None, names => names)
  }

  lemma {:induction false} DeletionUnsafe(m: Machine, paths: set<string>)
    requires !AlwaysSafe(m.(disk := m.disk - paths))
    ensures !AlwaysSafe(m)
    decreases paths
  {
    if paths == {} {
      assert m.(disk := m.disk - paths) == m;
    } else {
      var path :| path in paths;
      assert m.disk - {path} - (paths - {path}) == m.disk - paths;
      DeletionUnsafe(Next(m, Delete(path)), paths - {path});
      OneStep(m, Delete(path));
    }
  }

  // --------------------------------------------------------------------------- through the record

  lemma RecordRuns(m: Machine)
    requires METER !in m.disk && (m.versionsDir == "" || VersionFiles(m) == {})
    requires m.record != "" && Target(m.disk, m.record) == Some(WRAPPER) && HoldsScript(m.disk, WRAPPER)
    ensures !AlwaysSafe(m)
  {
    assert Target(m.disk, METER) == None;
    assert Attempts(m, SomePick(), PlainMeter(None)) == [m.record];
    assert m.record in Started(m, SomePick(), PlainMeter(None)) && RunsScript(m, m.record);
    UnsafeNow(m, SomePick(), PlainMeter(None));
  }

  /** A record that leads to the wrapper is executed once the meter and the versions are gone. */
  lemma RecordedWrapperUnsafe(m: Machine)
    requires VersionsRecorded(m) && !IsLink(m.disk, METER)
    requires m.record != "" && Target(m.disk, m.record) == Some(WRAPPER) && HoldsScript(m.disk, WRAPPER)
    ensures !AlwaysSafe(m)
  {
    OwnPathsDiffer();
    var gone := {METER} + if m.versionsDir == "" then {} else VersionFiles(m);
    if m.versionsDir != "" { OwnFilesUnversioned(m.versionsDir); }
    var left := m.(disk := m.disk - gone);
    assert SameLinks(m.disk, left.disk);
    SameLinksFollow(m.disk, left.disk, m.record, {});
    RecordRuns(left);
    DeletionUnsafe(m, gone);
  }

  function WithScript(m: Machine): Machine {
    Next(m, Put(WRAPPER, File(WRAPPER_SCRIPT, true)))
  }

  /** A record that names the wrapper, the command, or a link that can be turned to the wrapper. */
  lemma UnsafeRecord(m: Machine)
    requires PlainLibrary(m) && !SafeRecord(m.disk, m.record, m.shim)
    ensures !AlwaysSafe(m)
  {
    OwnPathsDiffer();
    var n := WithScript(m);
    if m.record == WRAPPER {
      RecordedWrapperUnsafe(n);
    } else if m.record == m.shim {
      var bare := Next(n, Delete(m.shim));
      RepairedShape(bare, 1);
      assert Next(bare, Repair(1)) == Do(bare, Relink);
      RelinkedRecordUnsafe(Do(bare, Relink));
      OneStep(bare, Repair(1));
      OneStep(n, Delete(m.shim));
    } else {
      var to := m.disk[m.record].target;
      if to == WRAPPER {
        RelinkedRecordUnsafe(n);
      } else {
        TurnedRecordUnsafe(Next(n, Put(to, Link(WRAPPER))), to);
        OneStep(n, Put(to, Link(WRAPPER)));
      }
    }
    OneStep(m, Put(WRAPPER, File(WRAPPER_SCRIPT, true)));
  }

  lemma RelinkedRecordUnsafe(m: Machine)
    requires VersionsRecorded(m) && !IsLink(m.disk, METER) && HoldsScript(m.disk, WRAPPER)
    requires m.record != "" && m.record in m.disk && m.disk[m.record] == Link(WRAPPER)
    ensures !AlwaysSafe(m)
  {
    FollowOnce(m.disk, m.record);
    RecordedWrapperUnsafe(m);
  }

  lemma TurnedRecordUnsafe(m: Machine, to: string)
    requires VersionsRecorded(m) && !IsLink(m.disk, METER) && HoldsScript(m.disk, WRAPPER)
    requires m.record != "" && m.record in m.disk && m.disk[m.record] == Link(to) && to != m.record
    requires to in m.disk && m.disk[to] == Link(WRAPPER)
    ensures !AlwaysSafe(m)
  {
    FollowOnce(m.disk, m.record);
    RecordedWrapperUnsafe(m);
  }

  // ------------------------------------------------------------------------ through the configuration

  /** The paths that hold the wrapper's text are spelled as Clean spells them. */
  predicate CleanScripts(disk: Disk) {
    forall p <- disk :: HoldsScript(disk, p) ==> Clean(p) == p
  }

  /** Without a listing the configured path is offered first. */
  lemma ConfiguredFirst(files: Files, sort: seq<string> -> seq<string>, configured: string, fallback: string)
    requires forall dir :: files.list(dir) == None
    ensures Offered(files, sort, configured, fallback)[0] == configured
  {
    var beside := (path: string) => Beside(files, sort, path);
    FlatMapNothing(beside, [configured, fallback]);
    assert FlatMap(beside, [configured, fallback]) == [];
  }

  lemma LinkFollowed(m: Machine, list: string -> Option<seq<string>>, link: string, p: string)
    requires Clean(link) == link && link in m.disk && m.disk[link] == Link(p) && FileIn(m.disk, p)
    ensures Snapshot(m, list).follow(link) == Some(p) && Snapshot(m, list).executable(p)
  {
    FollowOnce(m.disk, link);
  }

  /** A link to an executable that is not blocked is resolved when it is configured. */
  lemma ConfiguredLink(m: Machine, meter: Meter, link: string, fallback: string, p: string)
    requires forall dir :: meter.list(dir) == None
    requires Clean(link) == link == TrimSpace(link) && link != ""
    requires link in m.disk && m.disk[link] == Link(p) && FileIn(m.disk, p)
    requires !IsBlocked(Snapshot(m, meter.list), p)
    ensures ResolveIn(m, meter, link, fallback) == Some(p)
  {
    var files := Snapshot(m, meter.list);
    LinkFollowed(m, meter.list, link, p);
    UnblockedValid(files, link, p);
    ConfiguredFirst(files, meter.sort, link, fallback);
    ConfiguredChosen(files, Offered(files, meter.sort, link, fallback), link);
  }

  lemma ConfiguredChosen(files: Files, offered: seq<string>, link: string)
    requires offered != [] && offered[0] == link == TrimSpace(link) && Valid(files, link)
    ensures Choice(files, offered) == files.follow(link)
  {
    FirstChosen(files, offered, link);
  }

  lemma ShortPath(name: string, path: string)
    requires |name| == 1 && IsName(name) && '!' <= name[0] <= '~' && path == "/" + name
    ensures Clean(path) == path == TrimSpace(path) && path != ""
  {
    TameName(name);
    PlainEndsTrimmed(path);
  }

  /** Some short path is neither recorded nor the given one. */
  lemma FreePath(m: Machine, p: string) returns (link: string)
    ensures Clean(link) == link == TrimSpace(link) && link != ""
    ensures link != p && link != m.record && !OwnPath(link)
  {
    var a, b, c := "/" + "a", "/" + "b", "/" + "c";
    ShortPath("a", a);
    ShortPath("b", b);
    ShortPath("c", c);
    assert a[1] == 'a' && b[1] == 'b' && c[1] == 'c';
    link := if a != p && a != m.record then a else if b != p && b != m.record then b else c;
    assert |WRAPPER| == 21 && |METER| == 40 && |RECOVERED| == 44 && |CLAUDE_REAL| == 39;
  }

  /** The configured link is resolved, and what it leads to executed. */
  lemma ConfiguredStarted(m: Machine, pick: set<string> -> string, meter: Meter, link: string, p: string)
    requires meter.config == Some(link) && Executable(m.disk, METER) && !RunsScript(m, METER)
    requires forall fallback :: ResolveIn(m, meter, link, fallback) == Some(p)
    ensures p in Started(m, pick, meter)
  {
    assert p in MeterAttempts(m, meter, WrapperBinary(m, pick));
  }

  lemma ScriptUnblocked(m: Machine, list: string -> Option<seq<string>>, p: string)
    requires HoldsScript(m.disk, p) && Clean(p) == p && p != WRAPPER && p != METER
    requires !IsLink(m.disk, WRAPPER) && !IsLink(m.disk, METER)
    ensures !IsBlocked(Snapshot(m, list), p)
  {
    Unblocked(m, list, p);
  }

  lemma MeterThere(m: Machine)
    requires FileIn(m.disk, METER) && !HoldsScript(m.disk, METER)
    ensures Executable(m.disk, METER) && !RunsScript(m, METER)
  {
  }

  lemma ScriptConfigured(m: Machine, pick: set<string> -> string, meter: Meter, link: string, p: string)
    requires Picks(pick) && meter.config == Some(link) && forall dir :: meter.list(dir) == None
    requires Clean(link) == link == TrimSpace(link) && link != ""
    requires link in m.disk && m.disk[link] == Link(p)
    requires HoldsScript(m.disk, p) && Clean(p) == p && p != WRAPPER && p != METER
    requires !IsLink(m.disk, WRAPPER) && FileIn(m.disk, METER) && !HoldsScript(m.disk, METER)
    ensures !AlwaysSafe(m)
  {
    ScriptUnblocked(m, meter.list, p);
    MeterThere(m);
    forall fallback ensures ResolveIn(m, meter, link, fallback) == Some(p) {
      ConfiguredLink(m, meter, link, fallback, p);
    }
    ConfiguredStarted(m, pick, meter, link, p);
    FileIsItsTarget(m.disk, p);
    assert RunsScript(m, p);
    UnsafeNow(m, pick, meter);
  }

  /** Another executable with the wrapper's text is executed in place of the meter, or once the
      configuration names a link to it. */
  lemma ScriptElsewhereUnsafe(m: Machine, p: string)
    requires HoldsScript(m.disk, p) && p != WRAPPER && Clean(p) == p
    ensures !AlwaysSafe(m)
  {
    OwnPathsDiffer();
    if p == METER {
      assert METER in Started(m, SomePick(), PlainMeter(None)) && RunsScript(m, METER);
      UnsafeNow(m, SomePick(), PlainMeter(None));
    } else {
      var link := FreePath(m, p);
      var n := WithScript(m);
      var metered := Next(n, Put(METER, File("meter", true)));
      assert WRAPPER_SCRIPT[0] != "meter"[0];
      var linked, meter := Next(metered, Put(link, Link(p))), PlainMeter(Some(link));
      ScriptConfigured(linked, SomePick(), meter, link, p);
      OneStep(metered, Put(link, Link(p)));
      OneStep(n, Put(METER, File("meter", true)));
      OneStep(m, Put(WRAPPER, File(WRAPPER_SCRIPT, true)));
    }
  }

  // --------------------------------------------------------------------------------- exactly

  /** Where the library is plain, no legal run reaches a launch that starts itself again exactly
      when the record is safe and no executable but the wrapper holds the wrapper's text. */
  lemma AlwaysSafeExactly(m: Machine)
    requires PlainLibrary(m) && CleanScripts(m.disk)
    ensures AlwaysSafe(m) <==> SafeRecord(m.disk, m.record, m.shim) && ScriptOnlyAtWrapper(m.disk)
  {
    if !SafeRecord(m.disk, m.record, m.shim) {
      UnsafeRecord(m);
    } else if !ScriptOnlyAtWrapper(m.disk) {
      var p :| p in m.disk && HoldsScript(m.disk, p) && p != WRAPPER;
      ScriptElsewhereUnsafe(m, p);
    } else {
      forall steps, pick, meter | LegalRun(m, steps) && Picks(pick) ensures LaunchSafe(Run(m, steps), pick, meter) {
        LaunchNeverReenters(m, steps, pick, meter);
      }
    }
  }
}
