/** The self-healing shim: the command users type is kept pointing at the wrapper while the
    genuine binary an updater puts there is recorded. Files, symbolic links and the records
    under /etc/claude-meter; updater, repair, installation and launch as steps. */
module Shim {
  import opened Wrappers
  import opened Paths
  import opened Resolver

  datatype Node = File(content: string, executable: bool) | Link(target: string)

  type Disk = map<string, Node>

  /** `record`, `versionsDir` and `shim` are the contents of real-claude, versions-dir and
      claude-shim; "" stands for a missing or empty file. */
  datatype Machine = Machine(disk: Disk, record: string, versionsDir: string, shim: string)

  /** Stands for the text of the generated wrapper. */
  const WRAPPER_SCRIPT := "wrapper"

  /** Executing the file runs the wrapper. */
  predicate HoldsScript(disk: Disk, path: string) {
    path in disk && disk[path] == File(WRAPPER_SCRIPT, true)
  }

  // -------------------------------------------------------------------------- following links

  predicate IsLink(disk: Disk, path: string) {
    path in disk && disk[path].Link?
  }

  /** readlink -f: the first path that is no link; None when links form a cycle. */
  function Follow(disk: Disk, path: string, seen: set<string> := {}): Option<string>
    decreases disk.Keys - seen
  {
    if !IsLink(disk, path) then Some(path)
    else if path in seen then None
    else
      assert path in disk.Keys - seen;
      Follow(disk, disk[path].target, seen + {path})
  }

  /** The existing file a path leads to. */
  function Target(disk: Disk, path: string): Option<string> {
    match Follow(disk, path)
    case Some(p) => if p in disk then Some(p) else None
    case None => None
  }

  /** The shell's test -x. */
  predicate Executable(disk: Disk, path: string) {
    match Target(disk, path)
    case Some(p) => disk[p].File? && disk[p].executable
    case None => false
  }

  lemma FollowOnce(disk: Disk, path: string)
    requires IsLink(disk, path)
    ensures Follow(disk, path) == Follow(disk, disk[path].target, {path})
  {
    assert {} + {path} == {path};
  }

  lemma {:induction false} FollowEndsAtNoLink(disk: Disk, path: string, seen: set<string>)
    ensures Follow(disk, path, seen).Some? ==> !IsLink(disk, Follow(disk, path, seen).value)
    decreases disk.Keys - seen
  {
    if IsLink(disk, path) && path !in seen {
      assert path in disk.Keys - seen;
      FollowEndsAtNoLink(disk, disk[path].target, seen + {path});
    }
  }

  /** The same paths are links, to the same targets. */
  predicate SameLinks(a: Disk, b: Disk) {
    && (forall p <- a :: IsLink(a, p) ==> IsLink(b, p) && a[p] == b[p])
    && (forall p <- b :: IsLink(b, p) ==> IsLink(a, p))
  }

  lemma {:induction false} SameLinksFollow(a: Disk, b: Disk, path: string, seen: set<string>)
    requires SameLinks(a, b)
    ensures Follow(a, path, seen) == Follow(b, path, seen)
    decreases a.Keys - seen
  {
    assert IsLink(a, path) <==> IsLink(b, path);
    if IsLink(a, path) && path !in seen {
      assert path in a.Keys - seen;
      SameLinksFollow(a, b, a[path].target, seen + {path});
    }
  }

  /** A chain that does not end at `at` once a file is there ended the same before. */
  lemma {:induction false} FollowBeforeFile(disk: Disk, at: string, node: Node, path: string, seen: set<string>)
    requires node.File?
    requires Follow(disk[at := node], path, seen).Some? && Follow(disk[at := node], path, seen).value != at
    ensures Follow(disk, path, seen) == Follow(disk[at := node], path, seen)
    decreases disk.Keys - seen
  {
    if IsLink(disk, path) && path != at {
      assert path in disk.Keys - seen;
      FollowBeforeFile(disk, at, node, disk[path].target, seen + {path});
    }
  }

  /** A chain that ends still ends there once `at` becomes a file, or ends at `at`. */
  lemma {:induction false} FollowWithFile(disk: Disk, at: string, node: Node, path: string, seen: set<string>)
    requires node.File? && Follow(disk, path, seen).Some?
    ensures var after := Follow(disk[at := node], path, seen); after == Some(at) || after == Follow(disk, path, seen)
    decreases disk.Keys - seen
  {
    if IsLink(disk, path) && path != at {
      assert path in disk.Keys - seen;
      FollowWithFile(disk, at, node, disk[path].target, seen + {path});
    }
  }

  lemma {:induction false} FollowFewerSeen(disk: Disk, path: string, seen: set<string>, fewer: set<string>)
    requires fewer <= seen && Follow(disk, path, seen).Some?
    ensures Follow(disk, path, fewer) == Follow(disk, path, seen)
    decreases disk.Keys - seen
  {
    if IsLink(disk, path) {
      assert path in disk.Keys - seen;
      FollowFewerSeen(disk, disk[path].target, seen + {path}, fewer + {path});
    }
  }

  /** A chain does not change with a path that ends elsewhere. */
  lemma {:induction false} FollowElsewhere(disk: Disk, at: string, node: Node, path: string, seen: set<string>)
    requires Follow(disk, path, seen).Some? && Follow(disk, at) != Follow(disk, path, seen)
    ensures Follow(disk[at := node], path, seen) == Follow(disk, path, seen)
    decreases disk.Keys - seen
  {
    if path == at {
      FollowFewerSeen(disk, at, seen, {});
    } else if IsLink(disk, path) {
      assert path in disk.Keys - seen;
      FollowElsewhere(disk, at, node, disk[path].target, seen + {path});
    }
  }

  /** Turning a path into a link back to the start of a chain of links breaks the chain or
      leaves its end. */
  lemma {:induction false} FollowTurned(disk: Disk, at: string, start: string, path: string, seen: set<string>)
    requires at != start && IsLink(disk, start) && start in seen
    ensures var turned := Follow(disk[at := Link(start)], path, seen); turned == None || turned == Follow(disk, path, seen)
    decreases disk.Keys + {at} - seen
  {
    var after := disk[at := Link(start)];
    if IsLink(after, path) && path !in seen {
      assert path in disk.Keys + {at} - seen;
      if path == at {
        assert Follow(after, path, seen) == Follow(after, start, seen + {at}) == None;
      } else {
        FollowTurned(disk, at, start, disk[path].target, seen + {path});
      }
    }
  }

  // -------------------------------------------------------------------------------- repairing

  /** dirname of an absolute path without trailing slash. */
  function DirName(path: string): string {
    var n := LastSlash(path);
    if n == 0 then "." else if n == 1 then "/" else path[..n - 1]
  }

  predicate IsVersionsDir(dir: string) {
    dir == "versions" || EndsWith(dir, "/versions")
  }

  /** What the script changes, one atomic replacement at a time. */
  datatype Effect = CopyShim | WriteRecord(path: string) | WriteVersionsDir(dir: string) | Relink

  function Do(m: Machine, e: Effect): Machine {
    match e
    case CopyShim =>
      if m.shim in m.disk && m.disk[m.shim].File?
      then m.(disk := m.disk[RECOVERED := File(m.disk[m.shim].content, true)])
      else m
    case WriteRecord(path) => m.(record := path)
    case WriteVersionsDir(dir) => m.(versionsDir := dir)
    case Relink => m.(disk := m.disk[m.shim := Link(WRAPPER)])
  }

  /** The first `budget` effects: the script may be stopped after any of them. */
  function Perform(m: Machine, effects: seq<Effect>, budget: nat): Machine
    decreases budget
  {
    if effects == [] || budget == 0 then m else Perform(Do(m, effects[0]), effects[1..], budget - 1)
  }

  function WriteReal(path: string): seq<Effect> {
    [WriteRecord(path)] + if IsVersionsDir(DirName(path)) then [WriteVersionsDir(DirName(path))] else []
  }

  lemma DirNameOf(dir: string, name: string)
    requires dir != "" && '/' !in name
    ensures DirName(dir + "/" + name) == dir
  {
    LastSlashOf(dir, name);
    var path := dir + "/" + name;
    assert path[..|dir|] == dir;
  }

  /** For a binary in a directory called versions that directory is recorded too. */
  lemma VersionedBinary(front: string, name: string)
    requires '/' !in name
    ensures var dir := front + "/versions";
            WriteReal(dir + "/" + name) == [WriteRecord(dir + "/" + name), WriteVersionsDir(dir)]
  {
    var dir := front + "/versions";
    DirNameOf(dir, name);
    assert EndsWith(dir, "/versions");
  }

  /** For a binary in a directory of any other name only the binary is. */
  lemma UnversionedBinary(front: string, base: string, name: string)
    requires '/' !in name && '/' !in base && base != "versions"
    ensures var path := front + "/" + base + "/" + name; WriteReal(path) == [WriteRecord(path)]
  {
    var dir := front + "/" + base;
    DirNameOf(dir, name);
    if EndsWith(dir, "/versions") { LastSegment(front, base); }
    assert dir != "versions" by { assert '/' in dir; }
  }

  lemma LastSegment(front: string, base: string)
    requires '/' !in base && EndsWith(front + "/" + base, "/versions")
    ensures base == "versions"
  {
    var dir, tail := front + "/" + base, "/versions";
    var k := |dir| - |tail|;
    LastSlashOf(front, base);
    assert dir == dir[..k] + "/" + "versions" by { assert dir[k..] == tail && tail == "/" + "versions"; }
    LastSlashOf(dir[..k], "versions");
    assert |front| == k;
    assert dir[k + 1..] == base && dir[k + 1..] == "versions";
  }

  /** The link leads to an executable that is neither the wrapper nor the meter. */
  predicate LeadsToGenuine(disk: Disk, path: string) {
    match Follow(disk, path)
    case Some(current) => current != "" && current != WRAPPER && current != METER && Executable(disk, current)
    case None => false
  }

  function Recording(m: Machine): seq<Effect> {
    if IsLink(m.disk, m.shim) then
      if LeadsToGenuine(m.disk, m.shim) then WriteReal(Follow(m.disk, m.shim).value) else []
    else if Executable(m.disk, m.shim) && m.shim != WRAPPER then [CopyShim] + WriteReal(RECOVERED)
    else []
  }

  predicate Healthy(m: Machine) {
    IsLink(m.disk, m.shim) && Follow(m.disk, m.shim) == Some(WRAPPER)
  }

  /** The script does anything at all. */
  predicate Active(m: Machine) {
    m.shim != "" && Executable(m.disk, WRAPPER)
  }

  /** The state once everything the recording half changes is written. */
  function Recorded(m: Machine): Machine {
    Perform(m, Recording(m), |Recording(m)|)
  }

  function Plan(m: Machine): seq<Effect> {
    if !Active(m) then [] else Recording(m) + if Healthy(Recorded(m)) then [] else [Relink]
  }

  /** repair-launcher.sh stopped after `stop` effects. */
  function Repaired(m: Machine, stop: nat): Machine {
    Perform(m, Plan(m), stop)
  }

  predicate Completed(m: Machine, stop: nat) {
    stop >= |Plan(m)|
  }

  lemma {:induction false} PerformAppend(m: Machine, a: seq<Effect>, b: seq<Effect>, budget: nat)
    ensures Perform(m, a + b, budget) == Perform(Perform(m, a, budget), b, if budget >= |a| then budget - |a| else 0)
    decreases |a|
  {
    if a == [] {
      assert a + b == b;
    } else if budget > 0 {
      assert (a + b)[1..] == a[1..] + b;
      PerformAppend(Do(m, a[0]), a[1..], b, budget - 1);
    }
  }

  // ------------------------------------------------------------------------- what repair does

  predicate OwnPath(path: string) {
    path == WRAPPER || path == METER || path == CLAUDE_REAL || path == RECOVERED
  }

  lemma OwnPathsDiffer()
    ensures WRAPPER != METER && WRAPPER != RECOVERED && METER != RECOVERED
    ensures WRAPPER != CLAUDE_REAL && METER != CLAUDE_REAL && RECOVERED != CLAUDE_REAL
    ensures WRAPPER != "" && METER != "" && RECOVERED != "" && CLAUDE_REAL != ""
  {
    assert |WRAPPER| == 21 && |METER| == 40 && |RECOVERED| == 44 && |CLAUDE_REAL| == 39;
  }

  lemma {:induction false} PerformAll(m: Machine, effects: seq<Effect>, budget: nat)
    requires budget >= |effects|
    ensures Perform(m, effects, budget) == Perform(m, effects, |effects|)
    decreases |effects|
  {
    if effects != [] { PerformAll(Do(m, effects[0]), effects[1..], budget - 1); }
  }

  /** The command is an executable file of its own, which repair copies. */
  predicate Copies(m: Machine) {
    !IsLink(m.disk, m.shim) && Executable(m.disk, m.shim) && m.shim != WRAPPER
  }

  /** The path repair records, if the command leads to a genuine binary. */
  function Source(m: Machine): Option<string> {
    if IsLink(m.disk, m.shim) then
      if LeadsToGenuine(m.disk, m.shim) then Follow(m.disk, m.shim) else None
    else if Copies(m) then Some(RECOVERED)
    else None
  }

  /** The disk with the command copied. */
  function WithCopy(m: Machine): Disk
    requires Copies(m)
  {
    m.disk[RECOVERED := File(m.disk[m.shim].content, true)]
  }

  /** The effects before the last one, stopped anywhere: they change only the records and the
      copy. */
  function Prepared(m: Machine, stop: nat): Machine {
    match Source(m)
    case None => m
    case Some(path) =>
      var start, dir := if Copies(m) then 1 else 0, DirName(path);
      m.(disk := if Copies(m) && stop >= 1 then WithCopy(m) else m.disk,
         record := if stop >= start + 1 then path else m.record,
         versionsDir := if stop >= start + 2 && IsVersionsDir(dir) then dir else m.versionsDir)
  }

  lemma PreparedShape(m: Machine, stop: nat)
    ensures Perform(m, Recording(m), stop) == Prepared(m, stop)
  {
    if Source(m).Some? {
      var tail := WriteReal(Source(m).value);
      WritesRecord(m, Source(m).value, stop);
      if Copies(m) {
        assert Recording(m) == [CopyShim] + tail && Recording(m)[1..] == tail;
        if stop >= 1 { WritesRecord(Do(m, CopyShim), RECOVERED, stop - 1); }
      }
    }
  }

  lemma WritesRecord(m: Machine, path: string, budget: nat)
    ensures var dir := DirName(path);
            Perform(m, WriteReal(path), budget) ==
            m.(record := if budget >= 1 then path else m.record,
               versionsDir := if budget >= 2 && IsVersionsDir(dir) then dir else m.versionsDir)
  {
    var dir := DirName(path);
    PerformOne(m, WriteRecord(path), budget);
    if budget >= 1 && IsVersionsDir(dir) {
      assert WriteReal(path)[1..] == [WriteVersionsDir(dir)];
      PerformOne(Do(m, WriteRecord(path)), WriteVersionsDir(dir), budget - 1);
    }
  }

  lemma PerformOne(m: Machine, e: Effect, budget: nat)
    ensures Perform(m, [e], budget) == if budget == 0 then m else Do(m, e)
  {
    if budget > 0 { assert Perform(m, [e], budget) == Perform(Do(m, e), [], budget - 1); }
  }

  /** Recording leaves the command what it was, a link or not. */
  lemma StillUnhealthy(m: Machine)
    ensures Healthy(Recorded(m)) <==> Healthy(m)
  {
    PreparedShape(m, |Recording(m)|);
  }

  /** A stopped repair is a stopped preparation, or a complete one followed by the new link. */
  lemma RepairedShape(m: Machine, stop: nat)
    requires Active(m) && !Healthy(m)
    ensures |Plan(m)| == |Recording(m)| + 1
    ensures Repaired(m, stop) ==
            if stop <= |Recording(m)| then Prepared(m, stop)
            else Do(Prepared(m, |Recording(m)|), Relink)
  {
    var n := |Recording(m)|;
    StillUnhealthy(m);
    PerformAppend(m, Recording(m), [Relink], stop);
    PreparedShape(m, if stop <= n then stop else n);
    if stop > n { PerformAll(m, Recording(m), stop); }
  }

  /** The wrapper is in place already: there is nothing to do. */
  lemma HealthyNothingToDo(m: Machine, stop: nat)
    requires Healthy(m)
    ensures Plan(m) == [] && Repaired(m, stop) == m
  {
  }

  // --------------------------------------------------------------------------------- healing

  /** Linking the command to the wrapper makes it lead there unless the wrapper's path is a
      link itself, or is the command. */
  lemma RelinkHealsExactly(m: Machine)
    ensures Healthy(Do(m, Relink)) <==> m.shim != WRAPPER && !IsLink(m.disk, WRAPPER)
  {
    var after := Do(m, Relink);
    FollowOnce(after.disk, m.shim);
    FollowEndsAtNoLink(after.disk, m.shim, {});
  }

  /** Whatever happened before, a completed repair leaves the command leading to the wrapper
      exactly when the wrapper's path is no link and not the command. */
  lemma CompletedRepairHeals(m: Machine, stop: nat)
    requires Active(m) && Completed(m, stop)
    ensures Healthy(Repaired(m, stop)) <==> m.shim != WRAPPER && !IsLink(m.disk, WRAPPER)
  {
    OwnPathsDiffer();
    if Healthy(m) {
      HealthyNothingToDo(m, stop);
      FollowEndsAtNoLink(m.disk, m.shim, {});
    } else {
      RepairedShape(m, stop);
      RelinkHealsExactly(Prepared(m, |Recording(m)|));
    }
  }

  /** Repair records the file behind the wrapper's own path: that path is a link, and the
      records do not name its target yet. */
  predicate RecordsWrapper(m: Machine) {
    && Active(m) && IsLink(m.disk, WRAPPER)
    && var behind := Follow(m.disk, WRAPPER).value;
       && behind != "" && behind != METER
       && (m.record != behind || (IsVersionsDir(DirName(behind)) && m.versionsDir != DirName(behind)))
  }

  /** Once the command is a link to a linked wrapper, the wrapper's path leads where it led, or
      in a circle. */
  lemma TurnedWrapper(disk: Disk, shim: string)
    requires IsLink(disk, WRAPPER) && shim != WRAPPER
    ensures var turned := Follow(disk[shim := Link(WRAPPER)], WRAPPER); turned == None || turned == Follow(disk, WRAPPER)
  {
    FollowOnce(disk, WRAPPER);
    FollowOnce(disk[shim := Link(WRAPPER)], WRAPPER);
    FollowTurned(disk, shim, WRAPPER, disk[WRAPPER].target, {WRAPPER});
  }

  /** A chain that ends and has passed `w` does not pass a link that leads back to `w`. */
  lemma {:induction false} FollowSkips(disk: Disk, path: string, seen: set<string>, back: string, w: string)
    requires IsLink(disk, back) && disk[back].target == w && IsLink(disk, w) && w in seen
    requires Follow(disk, path, seen).Some?
    ensures Follow(disk, path, seen + {back}) == Follow(disk, path, seen)
    decreases disk.Keys - seen
  {
    if IsLink(disk, path) {
      assert path in disk.Keys - seen;
      FollowSkips(disk, disk[path].target, seen + {path}, back, w);
      assert seen + {path} + {back} == seen + {back} + {path};
    }
  }

  /** Behind a command that is a link to a linked wrapper lies the wrapper's own target. */
  lemma LinkedWrapperSource(n: Machine)
    requires Active(n) && n.shim != WRAPPER && IsLink(n.disk, WRAPPER)
    requires n.shim in n.disk && n.disk[n.shim] == Link(WRAPPER)
    ensures var behind := Follow(n.disk, WRAPPER).value;
            Source(n) == if behind == "" || behind == METER then None else Some(behind)
  {
    var t := n.disk[WRAPPER].target;
    FollowOnce(n.disk, WRAPPER);
    FollowOnce(n.disk, n.shim);
    FollowSkips(n.disk, t, {WRAPPER}, n.shim, WRAPPER);
    assert {WRAPPER} + {n.shim} == {n.shim} + {WRAPPER};
    FollowEndsAtNoLink(n.disk, WRAPPER, {});
  }

  lemma LinkedWrapperRepair(n: Machine, again: nat)
    requires Active(n) && n.shim != WRAPPER && IsLink(n.disk, WRAPPER)
    requires n.shim in n.disk && n.disk[n.shim] == Link(WRAPPER)
    ensures !Healthy(n)
    ensures Repaired(n, again) == Prepared(n, if again <= |Recording(n)| then again else |Recording(n)|)
    ensures Prepared(n, |Recording(n)|) == n <==> !RecordsWrapper(n)
    ensures Prepared(n, |Recording(n)|) == n ==> Repaired(n, again) == n
  {
    LinkedWrapperSource(n);
    FollowEndsAtNoLink(n.disk, n.shim, {});
    RepairedShape(n, again);
    assert n.disk[n.shim := Link(WRAPPER)] == n.disk;
  }

  lemma NotActiveNothingToDo(m: Machine, stop: nat)
    requires !Active(m)
    ensures Repaired(m, stop) == m
  {
  }

  /** The disk once repair has copied the command, if it does. */
  function Copied(m: Machine): Disk {
    if Copies(m) then WithCopy(m) else m.disk
  }

  /** Before a repair: the wrapper's path is a link to an executable that is not the meter, the
      command leads elsewhere, and this repair will not leave that executable recorded. */
  predicate LinkedUnrecorded(m: Machine) {
    && Active(m) && IsLink(m.disk, WRAPPER) && Executable(Copied(m), WRAPPER)
    && var behind := Follow(Copied(m), WRAPPER).value;
       && behind != "" && behind != METER && Follow(Copied(m), m.shim) != Some(behind)
       && match Source(m)
          case Some(path) => path != behind
          case None => m.record != behind || (IsVersionsDir(DirName(behind)) && m.versionsDir != DirName(behind))
  }

  /** The next repair records the wrapper's target exactly in that case. */
  lemma NextRecordsWrapper(m: Machine, stop: nat)
    requires Completed(m, stop)
    ensures RecordsWrapper(Repaired(m, stop)) <==> LinkedUnrecorded(m)
    ensures LinkedUnrecorded(m) ==> Follow(Repaired(m, stop).disk, WRAPPER) == Follow(Copied(m), WRAPPER)
  {
    if !Active(m) {
      NotActiveNothingToDo(m, stop);
    } else if Healthy(m) {
      HealthyNothingToDo(m, stop);
      FollowEndsAtNoLink(m.disk, m.shim, {});
    } else {
      RepairedShape(m, stop);
      var n := Repaired(m, stop);
      assert n.disk == Copied(m)[m.shim := Link(WRAPPER)];
      if m.shim == WRAPPER {
        FollowOnce(n.disk, WRAPPER);
      } else if IsLink(m.disk, WRAPPER) {
        RelinkedRecordsWrapper(m, n);
      }
    }
  }

  lemma RelinkedRecordsWrapper(m: Machine, n: Machine)
    requires Active(m) && !Healthy(m) && m.shim != WRAPPER && IsLink(m.disk, WRAPPER)
    requires n == Do(Prepared(m, |Recording(m)|), Relink) && n.disk == Copied(m)[m.shim := Link(WRAPPER)]
    ensures RecordsWrapper(n) <==> LinkedUnrecorded(m)
    ensures LinkedUnrecorded(m) ==> Follow(n.disk, WRAPPER) == Follow(Copied(m), WRAPPER)
  {
    var disk := Copied(m);
    OwnPathsDiffer();
    TurnedWrapper(disk, m.shim);
    FollowEndsAtNoLink(n.disk, WRAPPER, {});
    FollowEndsAtNoLink(disk, WRAPPER, {});
    FollowEndsAtNoLink(disk, m.shim, {});
    if Follow(disk, WRAPPER).Some? && Follow(disk, m.shim) != Follow(disk, WRAPPER) {
      FollowElsewhere(disk, m.shim, Link(WRAPPER), WRAPPER, {});
    }
  }

  /** Then a second repair records what lies behind the wrapper as the real binary. */
  lemma LinkedWrapperRecorded(m: Machine, stop: nat)
    requires Completed(m, stop) && LinkedUnrecorded(m)
    ensures var n := Repaired(m, stop); Repaired(n, |Plan(n)|).record == Follow(Copied(m), WRAPPER).value
  {
    var n := Repaired(m, stop);
    NextRecordsWrapper(m, stop);
    FollowEndsAtNoLink(m.disk, m.shim, {});
    RepairedShape(m, stop);
    if n.shim == WRAPPER { FollowOnce(n.disk, WRAPPER); }
    LinkedWrapperSource(n);
    LinkedWrapperRepair(n, |Plan(n)|);
    RepairedShape(n, |Plan(n)|);
  }

  /** What a completed repair leaves is left alone by every later one, exactly unless the
      wrapper's path is a link to an executable that is not recorded. */
  lemma RepairIdempotentExactly(m: Machine, stop: nat)
    requires Completed(m, stop)
    ensures var n := Repaired(m, stop); (forall again :: Repaired(n, again) == n) <==> !LinkedUnrecorded(m)
  {
    var n := Repaired(m, stop);
    NextRecordsWrapper(m, stop);
    if !Active(m) {
      NotActiveNothingToDo(m, stop);
      forall again ensures Repaired(m, again) == m { NotActiveNothingToDo(m, again); }
    } else if Healthy(n) {
      FollowEndsAtNoLink(n.disk, n.shim, {});
      forall again ensures Repaired(n, again) == n { HealthyNothingToDo(n, again); }
    } else {
      if Healthy(m) { HealthyNothingToDo(m, stop); }
      RepairedShape(m, stop);
      RelinkHealsExactly(Prepared(m, |Recording(m)|));
      UnhealthyAfterRepair(n);
    }
  }

  lemma UnhealthyAfterRepair(n: Machine)
    requires n.shim in n.disk && n.disk[n.shim] == Link(WRAPPER)
    requires n.shim == WRAPPER || IsLink(n.disk, WRAPPER)
    ensures (forall again :: Repaired(n, again) == n) <==> !RecordsWrapper(n)
  {
    if !Active(n) {
      forall again ensures Repaired(n, again) == n { NotActiveNothingToDo(n, again); }
    } else {
      if n.shim == WRAPPER { FollowOnce(n.disk, WRAPPER); }
      assert n.shim != WRAPPER;
      LinkedWrapperRepair(n, |Recording(n)|);
      forall again | !RecordsWrapper(n) ensures Repaired(n, again) == n { LinkedWrapperRepair(n, again); }
    }
  }

  // ------------------------------------------------------------------------ interruptions

  lemma CopyKeepsActive(m: Machine)
    requires Active(m) && Copies(m)
    ensures Active(m.(disk := WithCopy(m)))
  {
    FollowWithFile(m.disk, RECOVERED, File(m.disk[m.shim].content, true), WRAPPER, {});
    FollowEndsAtNoLink(m.disk, WRAPPER, {});
  }

  /** What an interrupted preparation leaves is prepared again in the same way. */
  lemma PreparedAgain(m: Machine, k: nat)
    ensures var p := Prepared(m, k);
            && Source(p) == Source(m) && (Copies(p) <==> Copies(m))
            && (Copies(m) ==> WithCopy(p) == WithCopy(m))
  {
    if Copies(m) { assert WithCopy(Prepared(m, k)) == WithCopy(m); }
  }

  lemma PlanSurvives(m: Machine, k: nat)
    requires Active(m) && !Healthy(m)
    ensures var p := Prepared(m, k); Active(p) && !Healthy(p) && Recording(p) == Recording(m)
  {
    PreparedAgain(m, k);
    if Copies(m) { CopyKeepsActive(m); }
  }

  lemma HalfRepairResumes(m: Machine, k: nat)
    requires Active(m) && !Healthy(m)
    ensures var p := Prepared(m, k); Repaired(p, |Plan(p)|) == Repaired(m, |Plan(m)|)
  {
    var n := |Recording(m)|;
    var p := Prepared(m, k);
    PlanSurvives(m, k);
    PreparedAgain(m, k);
    RepairedShape(m, n + 1);
    RepairedShape(p, n + 1);
    assert Prepared(p, n) == Prepared(m, n);
  }

  /** A repair stopped before its last effect and then run to the end does what one run would
      have done. Stopped later it is complete, and `RepairIdempotentExactly` says the rest. */
  lemma InterruptedRepairResumes(m: Machine, stop: nat)
    ensures var half := Repaired(m, stop);
            Completed(m, stop) || Repaired(half, |Plan(half)|) == Repaired(m, |Plan(m)|)
  {
    if Active(m) && !Healthy(m) {
      RepairedShape(m, stop);
      if stop <= |Recording(m)| { HalfRepairResumes(m, stop); }
    }
  }

  function ContentAt(disk: Disk, path: string): Option<string> {
    if path in disk && disk[path].File? && disk[path].executable then Some(disk[path].content) else None
  }

  /** The content of the genuine executable the command leads to. */
  function Genuine(m: Machine): Option<string> {
    if IsLink(m.disk, m.shim) then
      if LeadsToGenuine(m.disk, m.shim) then ContentAt(m.disk, Follow(m.disk, m.shim).value) else None
    else if Copies(m) then ContentAt(m.disk, m.shim)
    else None
  }

  lemma GenuineSource(m: Machine)
    ensures Source(m).Some? <==> Genuine(m).Some?
    ensures Source(m).Some? && !Copies(m) ==> ContentAt(m.disk, Source(m).value) == Genuine(m)
    ensures Copies(m) ==> ContentAt(WithCopy(m), RECOVERED) == Genuine(m)
  {
    FollowEndsAtNoLink(m.disk, m.shim, {});
  }

  lemma SourceIsGood(m: Machine)
    requires m.shim != RECOVERED && Source(m).Some?
    ensures Source(m).value != WRAPPER && Source(m).value != METER && Source(m).value != m.shim
    ensures Copies(m) || !IsLink(m.disk, Source(m).value)
  {
    OwnPathsDiffer();
    FollowEndsAtNoLink(m.disk, m.shim, {});
  }

  /** Wherever a repair stops, the genuine binary the command led to is not forgotten: the
      disk at the command is as it was, or the record names an executable file with that
      content; once completed, it is the latter. */
  lemma NothingForgotten(m: Machine, stop: nat)
    requires m.shim != RECOVERED && Active(m) && Genuine(m).Some?
    ensures var after := Repaired(m, stop);
            || (m.shim in m.disk && m.shim in after.disk && after.disk[m.shim] == m.disk[m.shim])
            || ContentAt(after.disk, after.record) == Genuine(m)
    ensures var after := Repaired(m, stop);
            Completed(m, stop) ==> ContentAt(after.disk, after.record) == Genuine(m)
  {
    GenuineSource(m);
    RepairedShape(m, stop);
    SourceIsGood(m);
  }

  // --------------------------------------------------------------------------------------- runs

  /** What happens on the machine: the updater, the user and the package manager put and
      delete files and links anywhere, and repairs run, to the end or not. */
  datatype Step = Put(path: string, node: Node) | Delete(path: string) | Repair(stop: nat)

  function Next(m: Machine, s: Step): Machine {
    match s
    case Put(path, node) => m.(disk := m.disk[path := node])
    case Delete(path) => m.(disk := m.disk - {path})
    case Repair(stop) => Repaired(m, stop)
  }

  function Run(m: Machine, steps: seq<Step>): Machine
    decreases |steps|
  {
    if steps == [] then m else Run(Next(m, steps[0]), steps[1..])
  }

  lemma RepairKeepsShim(m: Machine, stop: nat)
    ensures Repaired(m, stop).shim == m.shim
  {
    PerformKeepsShim(m, Plan(m), stop);
  }

  lemma {:induction false} PerformKeepsShim(m: Machine, effects: seq<Effect>, budget: nat)
    ensures Perform(m, effects, budget).shim == m.shim
    decreases budget
  {
    if effects != [] && budget > 0 { PerformKeepsShim(Do(m, effects[0]), effects[1..], budget - 1); }
  }

  /** A repair changes no path but the command and the recovered copy. */
  lemma RepairTouches(m: Machine, stop: nat, path: string)
    requires path != m.shim && path != RECOVERED
    ensures path in Repaired(m, stop).disk <==> path in m.disk
    ensures path in m.disk ==> Repaired(m, stop).disk[path] == m.disk[path]
  {
    PerformTouches(m, Plan(m), stop, path);
  }

  lemma {:induction false} PerformTouches(m: Machine, effects: seq<Effect>, budget: nat, path: string)
    requires path != m.shim && path != RECOVERED
    ensures var after := Perform(m, effects, budget);
            (path in after.disk <==> path in m.disk) && (path in m.disk ==> after.disk[path] == m.disk[path])
    decreases budget
  {
    if effects != [] && budget > 0 { PerformTouches(Do(m, effects[0]), effects[1..], budget - 1, path); }
  }

  /** The recorded binary names neither the wrapper, nor the meter, nor the command itself. */
  predicate GoodRecord(m: Machine) {
    m.record == "" || (m.record != WRAPPER && m.record != METER && m.record != m.shim)
  }

  lemma RepairKeepsGoodRecord(m: Machine, stop: nat)
    requires m.shim != RECOVERED && GoodRecord(m)
    ensures GoodRecord(Repaired(m, stop))
  {
    RepairKeepsShim(m, stop);
    if !Active(m) {
      NotActiveNothingToDo(m, stop);
    } else if Healthy(m) {
      HealthyNothingToDo(m, stop);
    } else {
      RepairedShape(m, stop);
      if Source(m).Some? { SourceIsGood(m); }
    }
  }

  /** In every run whatsoever the record names neither the wrapper nor the meter nor the
      command. */
  lemma {:induction false} RunKeepsGoodRecord(m: Machine, steps: seq<Step>)
    requires m.shim != RECOVERED && GoodRecord(m)
    ensures GoodRecord(Run(m, steps)) && Run(m, steps).shim == m.shim
    decreases |steps|
  {
    if steps != [] {
      if steps[0].Repair? {
        RepairKeepsGoodRecord(m, steps[0].stop);
        RepairKeepsShim(m, steps[0].stop);
      }
      RunKeepsGoodRecord(Next(m, steps[0]), steps[1..]);
    }
  }

  /** However a run went, a completed repair at its end leaves the command leading to the
      wrapper exactly when the wrapper's path is no link, and the record at the genuine binary
      the command led to, if it led to one. */
  lemma RunThenRepair(m: Machine, steps: seq<Step>, stop: nat)
    requires !OwnPath(m.shim) && GoodRecord(m)
    requires Active(Run(m, steps)) && Completed(Run(m, steps), stop)
    ensures var before := Run(m, steps);
            var after := Repaired(before, stop);
            && (Healthy(after) <==> !IsLink(before.disk, WRAPPER))
            && GoodRecord(after)
            && (Genuine(before).Some? ==> ContentAt(after.disk, after.record) == Genuine(before))
            && (Genuine(before).None? ==> after.record == before.record)
  {
    RunKeepsGoodRecord(m, steps);
    var before := Run(m, steps);
    CompletedRepairHeals(before, stop);
    RepairKeepsGoodRecord(before, stop);
    if Genuine(before).Some? {
      NothingForgotten(before, stop);
    } else {
      GenuineSource(before);
      if Healthy(before) { HealthyNothingToDo(before, stop); } else { RepairedShape(before, stop); }
    }
  }

  // ----------------------------------------------------------------------------- launch safety

  predicate VersionsRecorded(m: Machine) {
    m.versionsDir == "" || IsVersionsDir(m.versionsDir)
  }

  /** The launcher's library holds no links, and the command is not one of the launcher's files. */
  predicate PlainLibrary(m: Machine) {
    && !OwnPath(m.shim) && VersionsRecorded(m)
    && !IsLink(m.disk, METER) && !IsLink(m.disk, CLAUDE_REAL) && !IsLink(m.disk, RECOVERED)
  }

  /** Nobody can make the recorded path lead to the wrapper: it is neither the wrapper nor the
      command, and a link only if it leads straight to itself or into the library. */
  predicate SafeRecord(disk: Disk, record: string, shim: string) {
    || record == ""
    || (&& record != WRAPPER && record != shim
        && (IsLink(disk, record) ==>
              var to := disk[record].target; to == record || (OwnPath(to) && to != WRAPPER)))
  }

  predicate ScriptOnlyAtWrapper(disk: Disk) {
    forall p <- disk :: HoldsScript(disk, p) ==> p == WRAPPER
  }

  /** What keeps launches safe. */
  predicate Inv(m: Machine) {
    PlainLibrary(m) && SafeRecord(m.disk, m.record, m.shim) && ScriptOnlyAtWrapper(m.disk)
  }

  /** Nobody turns an own path or the recorded binary into a link, or puts the wrapper's text
      into another executable. Everything else may be put anywhere. */
  predicate Legal(m: Machine, s: Step) {
    s.Put? ==>
      && (s.node.Link? ==> !OwnPath(s.path) && s.path != m.record)
      && (s.node == File(WRAPPER_SCRIPT, true) ==> s.path == WRAPPER)
  }

  predicate LegalRun(m: Machine, steps: seq<Step>)
    decreases |steps|
  {
    steps == [] || (Legal(m, steps[0]) && LegalRun(Next(m, steps[0]), steps[1..]))
  }

  lemma PreparedKeepsInv(m: Machine, stop: nat)
    requires Inv(m)
    ensures Inv(Prepared(m, stop))
  {
    OwnPathsDiffer();
    if Source(m).Some? {
      SourceIsGood(m);
      if Copies(m) { assert !HoldsScript(m.disk, m.shim); }
    }
  }

  lemma RepairKeepsInv(m: Machine, stop: nat)
    requires Inv(m)
    ensures Inv(Repaired(m, stop))
  {
    if !Active(m) {
      NotActiveNothingToDo(m, stop);
    } else if Healthy(m) {
      HealthyNothingToDo(m, stop);
    } else {
      RepairedShape(m, stop);
      var k := if stop <= |Recording(m)| then stop else |Recording(m)|;
      PreparedKeepsInv(m, k);
      RelinkKeepsInv(Prepared(m, k));
    }
  }

  lemma RelinkKeepsInv(m: Machine)
    requires Inv(m) && m.shim != ""
    ensures Inv(Do(m, Relink))
  {
  }

  /** The invariant holds in every legal run, and the wrapper's path does not become a link. */
  lemma {:induction false} RunKeepsInv(m: Machine, steps: seq<Step>)
    requires Inv(m) && LegalRun(m, steps)
    ensures Inv(Run(m, steps))
    ensures IsLink(Run(m, steps).disk, WRAPPER) ==> IsLink(m.disk, WRAPPER)
    decreases |steps|
  {
    if steps != [] {
      if steps[0].Repair? {
        RepairKeepsInv(m, steps[0].stop);
        OwnPathsDiffer();
        RepairTouches(m, steps[0].stop, WRAPPER);
      }
      RunKeepsInv(Next(m, steps[0]), steps[1..]);
    }
  }
}
