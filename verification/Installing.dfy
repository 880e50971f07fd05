/** When an installation leaves the machine in a state from which no launch starts itself
    again, and when it keeps the binary it wraps. */
module Installing {
  import opened Wrappers
  import opened Paths
  import opened Resolver
  import opened Shim
  import opened Launching
  import opened Reentry
  import opened Hosts

  // ------------------------------------------------------------------ what an installation writes

  /** The wrapper is found at its own path and nothing is recorded: the installation saves the
      file there as claude-real. */
  predicate Copying(m: Machine, requested: string) {
    Follow(m.disk, requested) == Some(WRAPPER) && m.record == ""
  }

  function Metered(m: Machine, meter: string): Disk {
    m.disk[METER := File(meter, true)]
  }

  /** The file that writing the wrapper writes. */
  function WrapperPlace(m: Machine, meter: string): Option<string> {
    Follow(Metered(m, meter), WRAPPER)
  }

  predicate Installable(m: Machine, meter: string, current: string, requested: string) {
    && requested != ""
    && Follow(m.disk, requested).Some? && Follow(m.disk, current).Some?
    && (Copying(m, requested) ==> WRAPPER in m.disk)
    && WrapperPlace(m, meter).Some?
  }

  /** The installation gets to its end exactly when the links it follows end and there is a
      file to save when one is needed. */
  lemma InstalledExactly(m: Machine, meter: string, current: string, requested: string)
    ensures Installed(m, meter, current, requested).ok <==> Installable(m, meter, current, requested)
  {
    FollowEndsAtNoLink(m.disk, requested, {});
    OwnPathsDiffer();
  }

  /** The binary an installation records. */
  function Kept(m: Machine, requested: string): string
    requires Follow(m.disk, requested).Some?
  {
    var found := Follow(m.disk, requested).value;
    if found != WRAPPER then found else if m.record != "" then m.record else CLAUDE_REAL
  }

  /** The command to watch afterwards. */
  function Command(m: Machine, current: string): string {
    if HasShim(current) then current else m.shim
  }

  /** The disk with the meter, and the binary saved as claude-real if that is needed. */
  function Stored(m: Machine, meter: string, current: string, requested: string): Disk
    requires Installable(m, meter, current, requested)
  {
    FollowEndsAtNoLink(m.disk, requested, {});
    if Copying(m, requested) then Metered(m, meter)[CLAUDE_REAL := File(m.disk[WRAPPER].content, true)]
    else Metered(m, meter)
  }

  /** The machine once the files and the records are laid out; the command is still what it
      was. */
  function Laid(m: Machine, meter: string, current: string, requested: string): Machine
    requires Installable(m, meter, current, requested)
  {
    var disk := Stored(m, meter, current, requested)[WrapperPlace(m, meter).value := File(WRAPPER_SCRIPT, true)];
    RecordBinary(m.(disk := disk), Kept(m, requested), current)
  }

  lemma LaidLinks(m: Machine, meter: string, current: string, requested: string)
    requires Installable(m, meter, current, requested)
    ensures SameLinks(Stored(m, meter, current, requested), Laid(m, meter, current, requested).disk)
    ensures Follow(Stored(m, meter, current, requested), WRAPPER) == WrapperPlace(m, meter)
  {
    OwnPathsDiffer();
    FollowEndsAtNoLink(m.disk, requested, {});
    FollowEndsAtNoLink(Metered(m, meter), WRAPPER, {});
  }

  lemma LaidFollow(m: Machine, meter: string, current: string, requested: string, path: string)
    requires Installable(m, meter, current, requested)
    ensures Follow(Laid(m, meter, current, requested).disk, path) == Follow(Stored(m, meter, current, requested), path)
  {
    LaidLinks(m, meter, current, requested);
    SameLinksFollow(Stored(m, meter, current, requested), Laid(m, meter, current, requested).disk, path, {});
  }

  /** The command leads to the requested binary, and becomes a link at once. */
  predicate Relinks(m: Machine, meter: string, current: string, requested: string)
    requires Installable(m, meter, current, requested)
  {
    HasShim(current) && Follow(m.disk, current) == Follow(Stored(m, meter, current, requested), requested)
  }

  /** The machine before the final repair. */
  function Linked(m: Machine, meter: string, current: string, requested: string): Machine
    requires Installable(m, meter, current, requested)
  {
    var laid := Laid(m, meter, current, requested);
    if Relinks(m, meter, current, requested) then laid.(disk := laid.disk[current := Link(WRAPPER)]) else laid
  }

  lemma InstallFilesShape(m: Machine, meter: string, current: string, requested: string)
    requires Installable(m, meter, current, requested)
    ensures InstallFiles(m, meter, current, requested) == Outcome(Linked(m, meter, current, requested), true)
  {
    OwnPathsDiffer();
    FollowEndsAtNoLink(m.disk, requested, {});
    LaidFollow(m, meter, current, requested, requested);
  }

  /** The path is executable once the wrapper is written. */
  predicate Ready(m: Machine, meter: string, current: string, requested: string, path: string)
    requires Installable(m, meter, current, requested)
  {
    Executable(Stored(m, meter, current, requested), path) || WrapperPlace(m, meter) == Some(path)
  }

  /** The final repair copies the command. */
  predicate Recopies(m: Machine, meter: string, current: string, requested: string)
    requires Installable(m, meter, current, requested)
  {
    && HasShim(current) && !Relinks(m, meter, current, requested)
    && !IsLink(Stored(m, meter, current, requested), current) && Ready(m, meter, current, requested, current)
  }

  /** What the final repair records, if the command was left alone and leads to a binary. */
  function Rerecorded(m: Machine, meter: string, current: string, requested: string): Option<string>
    requires Installable(m, meter, current, requested)
  {
    var end := Follow(Stored(m, meter, current, requested), current);
    if Recopies(m, meter, current, requested) then Some(RECOVERED)
    else if HasShim(current) && !Relinks(m, meter, current, requested) && IsLink(Stored(m, meter, current, requested), current)
            && end.Some? && end.value != "" && end.value != WRAPPER && end.value != METER
            && Ready(m, meter, current, requested, end.value)
    then end
    else None
  }

  lemma ReadyMeans(m: Machine, meter: string, current: string, requested: string, path: string)
    requires Installable(m, meter, current, requested) && !IsLink(Stored(m, meter, current, requested), path)
    ensures Executable(Laid(m, meter, current, requested).disk, path) <==> Ready(m, meter, current, requested, path)
  {
    LaidLinks(m, meter, current, requested);
  }

  lemma RerecordedMeans(m: Machine, meter: string, current: string, requested: string)
    requires Installable(m, meter, current, requested) && HasShim(current) && !Relinks(m, meter, current, requested)
    ensures Source(Laid(m, meter, current, requested)) == Rerecorded(m, meter, current, requested)
    ensures Copies(Laid(m, meter, current, requested)) <==> Recopies(m, meter, current, requested)
  {
    var stored, end := Stored(m, meter, current, requested), Follow(Stored(m, meter, current, requested), current);
    LaidLinks(m, meter, current, requested);
    LaidFollow(m, meter, current, requested, current);
    FollowEndsAtNoLink(stored, current, {});
    if !IsLink(stored, current) { ReadyMeans(m, meter, current, requested, current); }
    if end.Some? { ReadyMeans(m, meter, current, requested, end.value); }
  }

  lemma LaidActive(m: Machine, meter: string, current: string, requested: string)
    requires Installable(m, meter, current, requested) && HasShim(current)
    ensures Active(Laid(m, meter, current, requested)) && Laid(m, meter, current, requested).shim == current
  {
    LaidFollow(m, meter, current, requested, WRAPPER);
    LaidLinks(m, meter, current, requested);
  }

  /** The state of a whole installation. The command it was asked to replace is a link to the
      wrapper, and when the wrapper's path is a link the final repair may record what lies
      behind that; any other command is recorded or copied first. */
  lemma InstalledShape(m: Machine, meter: string, current: string, requested: string)
    requires Installable(m, meter, current, requested)
    ensures var laid, linked := Laid(m, meter, current, requested), Linked(m, meter, current, requested);
            var out := Installed(m, meter, current, requested);
            && out.ok
            && (!HasShim(current) ==> out.machine == laid)
            && (Relinks(m, meter, current, requested) ==>
                  out.machine == if IsLink(m.disk, WRAPPER) then Repaired(linked, |Plan(linked)|) else linked)
            && (HasShim(current) && !Relinks(m, meter, current, requested) ==>
                  out.machine == if Healthy(laid) then laid else Do(Prepared(laid, |Recording(laid)|), Relink))
  {
    var laid, linked := Laid(m, meter, current, requested), Linked(m, meter, current, requested);
    OwnPathsDiffer();
    InstallFilesShape(m, meter, current, requested);
    LaidLinks(m, meter, current, requested);
    if HasShim(current) {
      LaidActive(m, meter, current, requested);
      if Relinks(m, meter, current, requested) {
        if !IsLink(m.disk, WRAPPER) {
          RelinkHealsExactly(laid);
          assert Do(laid, Relink) == linked;
          HealthyNothingToDo(linked, |Plan(linked)|);
        }
      } else if Healthy(laid) {
        HealthyNothingToDo(laid, |Plan(laid)|);
      } else {
        RepairedShape(laid, |Plan(laid)|);
      }
    }
  }

  // -------------------------------------------------------------------------- when it is safe

  /** A repair will record a versions directory. */
  predicate RecordsVersions(m: Machine) {
    Source(m).Some? && IsVersionsDir(DirName(Source(m).value))
  }

  /** A command that becomes a link to the wrapper leaves the invariant exactly when it held but
      for what was at the command. */
  lemma RelinkedInv(laid: Machine)
    requires !OwnPath(laid.shim) && laid.shim != "" && !IsLink(laid.disk, METER)
    ensures Inv(Do(laid, Relink)) <==>
            && PlainLibrary(laid) && SafeRecord(laid.disk, laid.record, laid.shim)
            && forall p <- laid.disk :: HoldsScript(laid.disk, p) ==> p == WRAPPER || p == laid.shim
  {
    var out := Do(laid, Relink);
    forall p | p in laid.disk && p != laid.shim ensures HoldsScript(out.disk, p) == HoldsScript(laid.disk, p) && p in out.disk { }
  }

  lemma CopiedScript(laid: Machine)
    requires Copies(laid) && laid.shim in laid.disk
    ensures HoldsScript(WithCopy(laid), RECOVERED) <==> HoldsScript(laid.disk, laid.shim)
  {
  }

  /** A completed repair leaves the invariant exactly when no executable but the wrapper holds
      the wrapper's text, a recovered copy about to be replaced aside, and the record is safe
      or about to be replaced. */
  lemma RepairedInv(laid: Machine)
    requires !OwnPath(laid.shim) && laid.shim != "" && !IsLink(laid.disk, METER)
    ensures Inv(Do(Prepared(laid, |Recording(laid)|), Relink)) <==>
            && (VersionsRecorded(laid) || RecordsVersions(laid))
            && !IsLink(laid.disk, CLAUDE_REAL) && (Copies(laid) || !IsLink(laid.disk, RECOVERED))
            && (Source(laid).Some? || SafeRecord(laid.disk, laid.record, laid.shim))
            && forall p <- laid.disk :: HoldsScript(laid.disk, p) ==> p == WRAPPER || (p == RECOVERED && Copies(laid))
  {
    var prepared := Prepared(laid, |Recording(laid)|);
    OwnPathsDiffer();
    RelinkedInv(prepared);
    if Source(laid).Some? { SourceIsGood(laid); }
    if Copies(laid) {
      CopiedScript(laid);
      assert prepared.disk == WithCopy(laid);
      assert forall p :: p != RECOVERED ==> (HoldsScript(prepared.disk, p) <==> HoldsScript(laid.disk, p));
    } else {
      assert prepared.disk == laid.disk;
      assert HoldsScript(laid.disk, laid.shim) ==> Copies(laid);
    }
  }

  /** The installation writes the wrapper's text where it belongs, or into a recovered copy
      that the repair replaces, and leaves it nowhere else. */
  predicate ScriptKeptOut(m: Machine, meter: string, current: string, requested: string)
    requires Installable(m, meter, current, requested)
  {
    var stored, copied := Stored(m, meter, current, requested), Recopies(m, meter, current, requested);
    && (WrapperPlace(m, meter) == Some(WRAPPER) || (WrapperPlace(m, meter) == Some(RECOVERED) && copied))
    && forall p <- stored :: HoldsScript(stored, p) ==> p == WRAPPER || (p == RECOVERED && copied)
  }

  predicate VersionsKept(m: Machine, meter: string, current: string, requested: string)
    requires Installable(m, meter, current, requested)
  {
    var rerecorded := Rerecorded(m, meter, current, requested);
    || VersionsRecorded(m) || IsVersionsDir(DirName(Kept(m, requested)))
    || (rerecorded.Some? && IsVersionsDir(DirName(rerecorded.value)))
  }

  /** What can be checked beforehand: the launcher's files will be no links, the record is safe
      or replaced by the final repair, and the wrapper's text stays where it belongs. */
  predicate InstallSafe(m: Machine, meter: string, current: string, requested: string)
    requires Installable(m, meter, current, requested)
  {
    var stored := Stored(m, meter, current, requested);
    && !OwnPath(Command(m, current)) && VersionsKept(m, meter, current, requested)
    && !IsLink(stored, CLAUDE_REAL) && (Recopies(m, meter, current, requested) || !IsLink(stored, RECOVERED))
    && (Rerecorded(m, meter, current, requested).Some? || SafeRecord(stored, Kept(m, requested), Command(m, current)))
    && ScriptKeptOut(m, meter, current, requested)
  }

  lemma LaidMeans(m: Machine, meter: string, current: string, requested: string)
    requires Installable(m, meter, current, requested)
    ensures var stored, laid := Stored(m, meter, current, requested), Laid(m, meter, current, requested);
            && laid.shim == Command(m, current) && !IsLink(laid.disk, METER)
            && (forall p :: IsLink(laid.disk, p) <==> IsLink(stored, p))
            && (SafeRecord(laid.disk, laid.record, laid.shim) <==> SafeRecord(stored, Kept(m, requested), Command(m, current)))
            && (forall p <- laid.disk :: HoldsScript(laid.disk, p) <==> WrapperPlace(m, meter) == Some(p) || HoldsScript(stored, p))
            && WrapperPlace(m, meter).value in laid.disk
            && (forall p <- stored :: p in laid.disk)
  {
    LaidLinks(m, meter, current, requested);
  }

  /** A plain command that is replaced is the recorded binary. */
  lemma ReplacedIsKept(m: Machine, meter: string, current: string, requested: string)
    requires Installable(m, meter, current, requested) && Relinks(m, meter, current, requested)
    requires !OwnPath(current) && !IsLink(m.disk, current)
    ensures Kept(m, requested) == current
  {
    OwnPathsDiffer();
    FollowEndsAtNoLink(m.disk, requested, {});
    var metered := Metered(m, meter);
    if Copying(m, requested) {
      FollowBeforeFile(metered, CLAUDE_REAL, File(m.disk[WRAPPER].content, true), requested, {});
    }
    FollowBeforeFile(m.disk, METER, File(meter, true), requested, {});
  }

  /** A repair that copies nothing changes no path but the command. */
  lemma RepairWithoutCopy(m: Machine, stop: nat, path: string)
    requires !Copies(m) && path != m.shim && path in m.disk
    ensures path in Repaired(m, stop).disk && Repaired(m, stop).disk[path] == m.disk[path]
  {
    if !Active(m) {
      NotActiveNothingToDo(m, stop);
    } else if Healthy(m) {
      HealthyNothingToDo(m, stop);
    } else {
      RepairedShape(m, stop);
    }
  }

  /** With a linked wrapper path, replacing the command never leaves the invariant: the text
      stays where the wrapper's path leads, or the command is recorded. */
  lemma LinkedReplacedUnsafe(m: Machine, meter: string, current: string, requested: string)
    requires Installable(m, meter, current, requested) && Relinks(m, meter, current, requested)
    requires IsLink(m.disk, WRAPPER)
    ensures !Inv(Installed(m, meter, current, requested).machine)
  {
    OwnPathsDiffer();
    InstalledShape(m, meter, current, requested);
    var linked := Linked(m, meter, current, requested);
    RepairKeepsShim(linked, |Plan(linked)|);
    LaidLinks(m, meter, current, requested);
    var place := WrapperPlace(m, meter).value;
    FollowEndsAtNoLink(Metered(m, meter), WRAPPER, {});
    if current != place {
      RepairWithoutCopy(linked, |Plan(linked)|, place);
      assert HoldsScript(Installed(m, meter, current, requested).machine.disk, place);
    } else if !OwnPath(current) {
      ReplacedIsKept(m, meter, current, requested);
      CycleInactive(m, meter, current, requested);
      NotActiveNothingToDo(linked, |Plan(linked)|);
    }
  }

  /** The wrapper's path led to the command, which now leads back to it. */
  lemma CycleInactive(m: Machine, meter: string, current: string, requested: string)
    requires Installable(m, meter, current, requested) && Relinks(m, meter, current, requested)
    requires IsLink(m.disk, WRAPPER) && WrapperPlace(m, meter) == Some(current)
    ensures !Active(Linked(m, meter, current, requested))
  {
    OwnPathsDiffer();
    var laid, linked := Laid(m, meter, current, requested).disk, Linked(m, meter, current, requested).disk;
    LaidLinks(m, meter, current, requested);
    LaidFollow(m, meter, current, requested, WRAPPER);
    TurnedWrapper(laid, current);
    FollowEndsAtNoLink(linked, WRAPPER, {});
  }

  /** Whatever an installation starts from, it establishes the invariant exactly when this can
      be said beforehand. */
  lemma InstallInvExactly(m: Machine, meter: string, current: string, requested: string)
    requires Installable(m, meter, current, requested)
    ensures Inv(Installed(m, meter, current, requested).machine) <==> InstallSafe(m, meter, current, requested)
  {
    var laid := Laid(m, meter, current, requested);
    OwnPathsDiffer();
    InstalledShape(m, meter, current, requested);
    LaidMeans(m, meter, current, requested);
    FollowEndsAtNoLink(Metered(m, meter), WRAPPER, {});
    if !HasShim(current) {
      PlainInstallInv(m, meter, current, requested);
    } else if OwnPath(current) {
      RepairKeepsShim(Linked(m, meter, current, requested), |Plan(Linked(m, meter, current, requested))|);
      InstallFilesShape(m, meter, current, requested);
    } else if Relinks(m, meter, current, requested) {
      if IsLink(m.disk, WRAPPER) {
        LinkedReplacedUnsafe(m, meter, current, requested);
      } else {
        ReplacedInv(m, meter, current, requested);
      }
    } else {
      WatchedInv(m, meter, current, requested);
    }
  }

  /** Nothing is linked or recorded in the end. */
  lemma PlainInstallInv(m: Machine, meter: string, current: string, requested: string)
    requires Installable(m, meter, current, requested)
    requires Rerecorded(m, meter, current, requested) == None
    ensures Inv(Laid(m, meter, current, requested)) <==> InstallSafe(m, meter, current, requested)
  {
    LaidMeans(m, meter, current, requested);
    OwnPathsDiffer();
  }

  lemma ReplacedInv(m: Machine, meter: string, current: string, requested: string)
    requires Installable(m, meter, current, requested) && Relinks(m, meter, current, requested)
    requires !IsLink(m.disk, WRAPPER) && !OwnPath(current)
    ensures Inv(Linked(m, meter, current, requested)) <==> InstallSafe(m, meter, current, requested)
  {
    var laid := Laid(m, meter, current, requested);
    LaidMeans(m, meter, current, requested);
    OwnPathsDiffer();
    RelinkedInv(laid);
    assert Linked(m, meter, current, requested) == Do(laid, Relink);
    assert WrapperPlace(m, meter) == Some(WRAPPER);
    if HoldsScript(Stored(m, meter, current, requested), current) { ReplacedIsKept(m, meter, current, requested); }
  }

  lemma WatchedInv(m: Machine, meter: string, current: string, requested: string)
    requires Installable(m, meter, current, requested) && HasShim(current) && !Relinks(m, meter, current, requested)
    requires !OwnPath(current)
    ensures Inv(Installed(m, meter, current, requested).machine) <==> InstallSafe(m, meter, current, requested)
  {
    var laid := Laid(m, meter, current, requested);
    InstalledShape(m, meter, current, requested);
    if Healthy(laid) {
      RerecordedMeans(m, meter, current, requested);
      assert Source(laid) == None;
      PlainInstallInv(m, meter, current, requested);
    } else {
      RepairedInstallInv(m, meter, current, requested);
    }
  }

  lemma RepairedInstallInv(m: Machine, meter: string, current: string, requested: string)
    requires Installable(m, meter, current, requested) && HasShim(current) && !Relinks(m, meter, current, requested)
    requires !OwnPath(current)
    ensures var laid := Laid(m, meter, current, requested);
            Inv(Do(Prepared(laid, |Recording(laid)|), Relink)) <==> InstallSafe(m, meter, current, requested)
  {
    LaidMeans(m, meter, current, requested);
    RerecordedMeans(m, meter, current, requested);
    OwnPathsDiffer();
    RepairedInv(Laid(m, meter, current, requested));
  }

  // ------------------------------------------------------------------------ launches, exactly

  /** The paths that hold the wrapper's text are spelled as Clean spells them, and so is the
      path the wrapper's text is written to. */
  predicate CleanNames(m: Machine, meter: string) {
    CleanScripts(m.disk) && (WrapperPlace(m, meter).Some? ==> Clean(WrapperPlace(m, meter).value) == WrapperPlace(m, meter).value)
  }

  /** A repair writes the wrapper's text nowhere but into the recovered copy. */
  lemma RepairScripts(m: Machine, stop: nat, p: string)
    requires HoldsScript(Repaired(m, stop).disk, p)
    ensures HoldsScript(m.disk, p) || p == RECOVERED
  {
    if !Active(m) {
      NotActiveNothingToDo(m, stop);
    } else if Healthy(m) {
      HealthyNothingToDo(m, stop);
    } else {
      RepairedShape(m, stop);
    }
  }

  lemma LibraryNamesClean()
    ensures Clean(METER) == METER && Clean(RECOVERED) == RECOVERED && Clean(CLAUDE_REAL) == CLAUDE_REAL
  {
    MeterClean(METER);
    RecoveredClean(RECOVERED);
    SavedClean(CLAUDE_REAL);
  }

  lemma SavedClean(path: string)
    requires path == CLAUDE_REAL
    ensures Clean(path) == path
  {
    assert "/" + "claude-real" == "/claude-real";
    LibraryPathClean("claude-real", path);
  }

  lemma InstalledScripts(m: Machine, meter: string, current: string, requested: string, p: string)
    requires Installable(m, meter, current, requested)
    requires HoldsScript(Installed(m, meter, current, requested).machine.disk, p)
    ensures HoldsScript(m.disk, p) || WrapperPlace(m, meter) == Some(p) || p == METER || p == RECOVERED || p == CLAUDE_REAL
  {
    InstallFilesShape(m, meter, current, requested);
    var linked := Linked(m, meter, current, requested);
    if HasShim(current) { RepairScripts(linked, |Plan(linked)|, p); }
  }

  lemma InstalledClean(m: Machine, meter: string, current: string, requested: string)
    requires Installable(m, meter, current, requested) && CleanNames(m, meter)
    ensures CleanScripts(Installed(m, meter, current, requested).machine.disk)
  {
    var after := Installed(m, meter, current, requested).machine.disk;
    LibraryNamesClean();
    forall p | p in after && HoldsScript(after, p) ensures Clean(p) == p {
      InstalledScripts(m, meter, current, requested, p);
    }
  }

  /** From a safe installation on, whatever the legal run was, no launch starts itself again,
      all that it tries is harmless, and a completed repair leads the command to the wrapper
      if the wrapper's path was no link. */
  lemma InstalledStaysSafe(m: Machine, meter: string, current: string, requested: string,
                           steps: seq<Step>, stop: nat, pick: set<string> -> string, inputs: Meter)
    requires Installable(m, meter, current, requested)
    requires InstallSafe(m, meter, current, requested)
    requires LegalRun(Installed(m, meter, current, requested).machine, steps) && Picks(pick)
    ensures var now := Run(Installed(m, meter, current, requested).machine, steps);
            && (forall bin <- Attempts(now, pick, inputs) :: Harmless(now, bin))
            && LaunchSafe(now, pick, inputs)
            && (!IsLink(m.disk, WRAPPER) && Active(now) && Completed(now, stop) ==> Healthy(Repaired(now, stop)))
  {
    InstallInvExactly(m, meter, current, requested);
    var start := Installed(m, meter, current, requested).machine;
    LaunchNeverReenters(start, steps, pick, inputs);
    RunKeepsInv(start, steps);
    WrapperNotLinked(m, meter, current, requested);
    OwnPathsDiffer();
    if Active(Run(start, steps)) && Completed(Run(start, steps), stop) { CompletedRepairHeals(Run(start, steps), stop); }
  }

  lemma WrapperNotLinked(m: Machine, meter: string, current: string, requested: string)
    requires Installable(m, meter, current, requested) && !OwnPath(Command(m, current))
    ensures IsLink(Installed(m, meter, current, requested).machine.disk, WRAPPER) ==> IsLink(m.disk, WRAPPER)
  {
    InstallFilesShape(m, meter, current, requested);
    OwnPathsDiffer();
    var linked := Linked(m, meter, current, requested);
    if HasShim(current) { RepairTouches(linked, |Plan(linked)|, WRAPPER); }
  }

  /** After an installation that leaves no links in the library, no legal run reaches a launch
      that starts itself again exactly when this can be said beforehand. */
  lemma InstallSafeExactly(m: Machine, meter: string, current: string, requested: string)
    requires Installable(m, meter, current, requested) && CleanNames(m, meter)
    requires PlainLibrary(Installed(m, meter, current, requested).machine)
    ensures AlwaysSafe(Installed(m, meter, current, requested).machine) <==> InstallSafe(m, meter, current, requested)
  {
    InstalledClean(m, meter, current, requested);
    InstallInvExactly(m, meter, current, requested);
    AlwaysSafeExactly(Installed(m, meter, current, requested).machine);
  }

  // -------------------------------------------------------------------- the first installation

  /** The command is the requested binary itself: a plain file where the wrapper goes. */
  predicate CommandIsBinary(m: Machine, current: string, requested: string) {
    HasShim(current) && Follow(m.disk, requested) == Some(current)
  }

  /** The command is another executable than the requested one. */
  predicate OtherCommand(m: Machine, current: string, requested: string) {
    && HasShim(current) && Follow(m.disk, current) != Follow(m.disk, requested)
    && !IsLink(m.disk, current) && Executable(m.disk, current)
  }

  /** The command is a link to another executable than the requested one, the wrapper or the
      meter. */
  predicate OtherLink(m: Machine, current: string, requested: string) {
    && HasShim(current) && Follow(m.disk, current) != Follow(m.disk, requested)
    && IsLink(m.disk, current) && LeadsToGenuine(m.disk, current)
  }

  /** The launcher's library holds no links, and the command is none of its files. */
  predicate PlainBefore(m: Machine, current: string) {
    PlainLibrary(m) && (HasShim(current) ==> !OwnPath(current))
  }

  /** Nothing was installed before. */
  predicate Fresh(m: Machine, current: string) {
    PlainBefore(m, current) && m.record == "" && m.versionsDir == "" && m.shim == ""
  }

  /** The wrapper's path is no link, except to a recovered copy that is replaced. */
  predicate WrapperInPlace(m: Machine, current: string, requested: string) {
    IsLink(m.disk, WRAPPER) ==> Follow(m.disk, WRAPPER) == Some(RECOVERED) && OtherCommand(m, current, requested)
  }

  /** The meter installed is not the wrapper's text, nor is the binary saved, and no other
      executable holds it, those that the installation replaces aside. */
  predicate ScriptNowhere(m: Machine, meter: string, current: string, requested: string) {
    && meter != WRAPPER_SCRIPT
    && (Copying(m, requested) && WRAPPER in m.disk ==> !HasScriptText(m.disk[WRAPPER]))
    && forall p <- m.disk :: HoldsScript(m.disk, p) ==>
         || p == WRAPPER || p == METER
         || (p == CLAUDE_REAL && Copying(m, requested))
         || (p == RECOVERED && OtherCommand(m, current, requested))
  }

  predicate HasScriptText(node: Node) {
    node.File? && node.content == WRAPPER_SCRIPT
  }

  lemma PlainLinks(m: Machine, meter: string, current: string, requested: string, path: string)
    requires PlainBefore(m, current) && Installable(m, meter, current, requested)
    ensures var stored := Stored(m, meter, current, requested);
            Follow(stored, path) == Follow(m.disk, path) && (IsLink(stored, path) <==> IsLink(m.disk, path))
  {
    var stored := Stored(m, meter, current, requested);
    OwnPathsDiffer();
    assert SameLinks(m.disk, stored);
    SameLinksFollow(m.disk, stored, path, {});
  }

  lemma PlainPlaced(m: Machine, meter: string, current: string, requested: string)
    requires PlainBefore(m, current) && Installable(m, meter, current, requested)
    ensures WrapperPlace(m, meter) == Follow(m.disk, WRAPPER)
    ensures (WrapperPlace(m, meter) == Some(WRAPPER) <==> !IsLink(m.disk, WRAPPER))
    ensures Relinks(m, meter, current, requested) <==> HasShim(current) && Follow(m.disk, current) == Follow(m.disk, requested)
    ensures WrapperPlace(m, meter) != Some(current) ==>
              (Recopies(m, meter, current, requested) <==> OtherCommand(m, current, requested))
  {
    OwnPathsDiffer();
    PlainLinks(m, meter, current, requested, WRAPPER);
    LaidLinks(m, meter, current, requested);
    FollowEndsAtNoLink(m.disk, WRAPPER, {});
    PlainLinks(m, meter, current, requested, current);
    PlainLinks(m, meter, current, requested, requested);
  }

  lemma FreshScript(m: Machine, meter: string, current: string, requested: string)
    requires Fresh(m, current) && Installable(m, meter, current, requested)
    ensures ScriptKeptOut(m, meter, current, requested) <==>
            WrapperInPlace(m, current, requested) && ScriptNowhere(m, meter, current, requested)
  {
    OwnPathsDiffer();
    PlainPlaced(m, meter, current, requested);
    FollowEndsAtNoLink(m.disk, requested, {});
    var stored := Stored(m, meter, current, requested);
    assert HoldsScript(stored, METER) <==> meter == WRAPPER_SCRIPT;
    assert Copying(m, requested) ==> (HoldsScript(stored, CLAUDE_REAL) <==> HasScriptText(m.disk[WRAPPER]));
    forall p | p != METER && !(p == CLAUDE_REAL && Copying(m, requested))
      ensures HoldsScript(stored, p) <==> HoldsScript(m.disk, p) { }
    forall p | HoldsScript(m.disk, p) ensures p in stored { }
  }

  lemma FreshRecord(m: Machine, meter: string, current: string, requested: string)
    requires Fresh(m, current) && Installable(m, meter, current, requested)
    ensures var stored := Stored(m, meter, current, requested);
            SafeRecord(stored, Kept(m, requested), Command(m, current)) <==> !CommandIsBinary(m, current, requested)
    ensures CommandIsBinary(m, current, requested) ==> Rerecorded(m, meter, current, requested) == None
  {
    OwnPathsDiffer();
    FollowEndsAtNoLink(m.disk, requested, {});
    PlainLinks(m, meter, current, requested, Kept(m, requested));
    PlainPlaced(m, meter, current, requested);
  }

  lemma LinkedPlain(m: Machine, meter: string, current: string, requested: string)
    requires PlainBefore(m, current) && Installable(m, meter, current, requested)
    ensures PlainLibrary(Linked(m, meter, current, requested))
  {
    OwnPathsDiffer();
    LaidMeans(m, meter, current, requested);
  }

  lemma PlainAfter(m: Machine, meter: string, current: string, requested: string)
    requires PlainBefore(m, current) && Installable(m, meter, current, requested)
    ensures PlainLibrary(Installed(m, meter, current, requested).machine)
  {
    InstallFilesShape(m, meter, current, requested);
    var linked := Linked(m, meter, current, requested);
    LinkedPlain(m, meter, current, requested);
    if HasShim(current) { RepairKeepsPlain(linked, |Plan(linked)|); }
  }

  lemma RepairKeepsPlain(m: Machine, stop: nat)
    requires PlainLibrary(m)
    ensures PlainLibrary(Repaired(m, stop))
  {
    OwnPathsDiffer();
    if !Active(m) {
      NotActiveNothingToDo(m, stop);
    } else if Healthy(m) {
      HealthyNothingToDo(m, stop);
    } else {
      RepairedShape(m, stop);
    }
  }

  /** After a first installation no legal run reaches a launch that starts itself again exactly
      when the wrapper's path is no link, the command is not itself the requested binary, and
      the wrapper's text is nowhere else. */
  lemma FreshInstallSafeExactly(m: Machine, meter: string, current: string, requested: string)
    requires Fresh(m, current) && Installable(m, meter, current, requested) && CleanNames(m, meter)
    ensures AlwaysSafe(Installed(m, meter, current, requested).machine) <==>
            && WrapperInPlace(m, current, requested)
            && !CommandIsBinary(m, current, requested)
            && ScriptNowhere(m, meter, current, requested)
  {
    PlainAfter(m, meter, current, requested);
    InstallSafeExactly(m, meter, current, requested);
    FreshScript(m, meter, current, requested);
    FreshRecord(m, meter, current, requested);
    PlainPlaced(m, meter, current, requested);
    OwnPathsDiffer();
    PlainLinks(m, meter, current, requested, CLAUDE_REAL);
    PlainLinks(m, meter, current, requested, RECOVERED);
  }

  /** What it records is neither the wrapper nor the meter nor the command exactly when the
      command is not itself the requested binary, and the meter is not requested while the
      command leads to no other binary. */
  lemma FreshInstallRecordsExactly(m: Machine, meter: string, current: string, requested: string)
    requires Fresh(m, current) && Installable(m, meter, current, requested) && !IsLink(m.disk, WRAPPER)
    ensures GoodRecord(Installed(m, meter, current, requested).machine) <==>
            && !CommandIsBinary(m, current, requested)
            && (Follow(m.disk, requested) == Some(METER) ==>
                  OtherCommand(m, current, requested) || OtherLink(m, current, requested))
  {
    OwnPathsDiffer();
    var laid := Laid(m, meter, current, requested);
    InstalledShape(m, meter, current, requested);
    PlainPlaced(m, meter, current, requested);
    FollowEndsAtNoLink(m.disk, requested, {});
    if HasShim(current) && !Relinks(m, meter, current, requested) {
      RerecordedMeans(m, meter, current, requested);
      if Source(laid).Some? { SourceIsGood(laid); }
      if Follow(m.disk, requested) == Some(METER) { UncopiedRerecorded(m, meter, current, requested); }
    }
  }

  // ---------------------------------------------------------------------------- installing again

  /** The command is the recorded binary, and leads to nothing that could be recorded instead. */
  predicate RecordedCommand(m: Machine, current: string, requested: string) {
    && HasShim(current) && current == m.record
    && !OtherCommand(m, current, requested) && !OtherLink(m, current, requested)
  }

  /** Installing again over the wrapper, on a machine that keeps the invariant, keeps launches
      safe in every legal run unless the command is the recorded binary and leads to nothing
      that could be recorded. */
  lemma ReinstallSafeExactly(m: Machine, meter: string, current: string, requested: string)
    requires Inv(m) && PlainBefore(m, current) && Installable(m, meter, current, requested)
    requires Follow(m.disk, requested) == Some(WRAPPER) && m.record != "" && meter != WRAPPER_SCRIPT
    ensures Inv(Installed(m, meter, current, requested).machine) <==> !RecordedCommand(m, current, requested)
    ensures AlwaysSafe(Installed(m, meter, current, requested).machine) <==> !RecordedCommand(m, current, requested)
  {
    InstallInvExactly(m, meter, current, requested);
    ReinstallSafe(m, meter, current, requested);
    PlainAfter(m, meter, current, requested);
    PlainPlaced(m, meter, current, requested);
    FollowEndsAtNoLink(m.disk, requested, {});
    WrapperClean(WRAPPER);
    InstallSafeExactly(m, meter, current, requested);
  }

  lemma ReinstallSafe(m: Machine, meter: string, current: string, requested: string)
    requires Inv(m) && PlainBefore(m, current) && Installable(m, meter, current, requested)
    requires Follow(m.disk, requested) == Some(WRAPPER) && m.record != "" && meter != WRAPPER_SCRIPT
    ensures InstallSafe(m, meter, current, requested) <==> !RecordedCommand(m, current, requested)
  {
    OwnPathsDiffer();
    FollowEndsAtNoLink(m.disk, requested, {});
    PlainPlaced(m, meter, current, requested);
    if HasShim(current) && current == m.record { UncopiedRerecorded(m, meter, current, requested); }
    forall p ensures HoldsScript(Stored(m, meter, current, requested), p) ==> p == WRAPPER { }
  }

  lemma UncopiedRerecorded(m: Machine, meter: string, current: string, requested: string)
    requires PlainBefore(m, current) && Installable(m, meter, current, requested) && HasShim(current)
    requires !IsLink(m.disk, WRAPPER) && !Copying(m, requested)
    ensures Rerecorded(m, meter, current, requested).Some? <==> OtherCommand(m, current, requested) || OtherLink(m, current, requested)
  {
    OwnPathsDiffer();
    PlainPlaced(m, meter, current, requested);
    PlainLinks(m, meter, current, requested, current);
    FollowEndsAtNoLink(m.disk, current, {});
  }

  // ------------------------------------------------------------- what happens to the binary

  lemma RepairLinksCommand(m: Machine)
    requires Active(m) && !IsLink(m.disk, m.shim)
    ensures m.shim in Repaired(m, |Plan(m)|).disk && Repaired(m, |Plan(m)|).disk[m.shim] == Link(WRAPPER)
  {
    RepairedShape(m, |Plan(m)|);
  }

  lemma CommandStaysLinked(m: Machine)
    requires IsLink(m.disk, m.shim)
    ensures IsLink(Repaired(m, |Plan(m)|).disk, m.shim)
  {
    if !Active(m) {
      NotActiveNothingToDo(m, |Plan(m)|);
    } else if Healthy(m) {
      HealthyNothingToDo(m, |Plan(m)|);
    } else {
      RepairedShape(m, |Plan(m)|);
    }
  }

  /** What the repair copies over the recovered copy. */
  function CommandContent(m: Machine, meter: string, current: string, requested: string): string
    requires Installable(m, meter, current, requested) && Recopies(m, meter, current, requested)
  {
    if WrapperPlace(m, meter) == Some(current) then WRAPPER_SCRIPT
    else Stored(m, meter, current, requested)[current].content
  }

  lemma RecoveredAfter(m: Machine, meter: string, current: string, requested: string)
    requires Installable(m, meter, current, requested) && (HasShim(current) ==> current != RECOVERED)
    ensures var laid, out := Laid(m, meter, current, requested).disk, Installed(m, meter, current, requested).machine.disk;
            if Recopies(m, meter, current, requested)
            then RECOVERED in out && out[RECOVERED] == File(CommandContent(m, meter, current, requested), true)
            else RECOVERED in laid ==> RECOVERED in out && out[RECOVERED] == laid[RECOVERED]
  {
    InstallFilesShape(m, meter, current, requested);
    var linked := Linked(m, meter, current, requested);
    if Recopies(m, meter, current, requested) {
      CopiedAfter(m, meter, current, requested);
    } else if HasShim(current) && RECOVERED in linked.disk {
      if !Relinks(m, meter, current, requested) { RerecordedMeans(m, meter, current, requested); }
      RepairWithoutCopy(linked, |Plan(linked)|, RECOVERED);
    }
  }

  lemma CopiedAfter(m: Machine, meter: string, current: string, requested: string)
    requires Installable(m, meter, current, requested) && current != RECOVERED
    requires Recopies(m, meter, current, requested)
    ensures var out := Installed(m, meter, current, requested).machine.disk;
            RECOVERED in out && out[RECOVERED] == File(CommandContent(m, meter, current, requested), true)
  {
    InstalledShape(m, meter, current, requested);
    RerecordedMeans(m, meter, current, requested);
    LaidLinks(m, meter, current, requested);
  }

  /** The binary is not the command that is replaced; it is not a recovered copy that the
      repair replaces by something else; and the wrapper is not written through a link into it. */
  predicate Spared(m: Machine, meter: string, current: string, requested: string, found: string)
    requires Installable(m, meter, current, requested) && found in m.disk
  {
    if HasShim(current) && found == current then false
    else if found == RECOVERED && Recopies(m, meter, current, requested) then
      m.disk[found] == File(CommandContent(m, meter, current, requested), true)
    else WrapperPlace(m, meter) != Some(found)
  }

  /** The binary asked for survives an installation at its path exactly when it is spared. */
  lemma BinarySurvivesExactly(m: Machine, meter: string, current: string, requested: string, found: string)
    requires Installable(m, meter, current, requested) && Follow(m.disk, requested) == Some(found)
    requires found in m.disk && m.disk[found].File? && m.disk[found] != File(WRAPPER_SCRIPT, true)
    requires found != WRAPPER && found != METER
    ensures var out := Installed(m, meter, current, requested).machine;
            found in out.disk && (out.disk[found] == m.disk[found] <==> Spared(m, meter, current, requested, found))
  {
    LaidBinary(m, meter, current, requested, found);
    if HasShim(current) && found == current {
      ReplacedCommand(m, meter, current, requested);
    } else if found == RECOVERED {
      RecoveredAfter(m, meter, current, requested);
    } else {
      OthersAfter(m, meter, current, requested, found);
    }
  }

  /** Up to the repair, only writing the wrapper changes a file that is not the launcher's. */
  lemma LaidBinary(m: Machine, meter: string, current: string, requested: string, found: string)
    requires Installable(m, meter, current, requested) && Follow(m.disk, requested) == Some(found)
    requires found in m.disk && m.disk[found] != File(WRAPPER_SCRIPT, true) && found != WRAPPER && found != METER
    ensures var laid := Laid(m, meter, current, requested).disk;
            found in laid && (laid[found] == m.disk[found] <==> WrapperPlace(m, meter) != Some(found))
    ensures WrapperPlace(m, meter) == Some(found) ==> Laid(m, meter, current, requested).disk[found] == File(WRAPPER_SCRIPT, true)
  {
  }

  lemma OthersAfter(m: Machine, meter: string, current: string, requested: string, path: string)
    requires Installable(m, meter, current, requested) && path != RECOVERED && (HasShim(current) ==> path != current)
    requires path in Laid(m, meter, current, requested).disk
    ensures var out := Installed(m, meter, current, requested).machine.disk;
            path in out && out[path] == Laid(m, meter, current, requested).disk[path]
  {
    InstallFilesShape(m, meter, current, requested);
    var linked := Linked(m, meter, current, requested);
    if HasShim(current) { RepairTouches(linked, |Plan(linked)|, path); }
  }

  lemma ReplacedCommand(m: Machine, meter: string, current: string, requested: string)
    requires Installable(m, meter, current, requested) && HasShim(current)
    requires Follow(m.disk, requested) == Some(current) && current in m.disk && m.disk[current].File?
    requires current != METER
    ensures var out := Installed(m, meter, current, requested).machine;
            current in out.disk && out.disk[current] != m.disk[current]
  {
    var linked := Linked(m, meter, current, requested);
    InstallFilesShape(m, meter, current, requested);
    if Relinks(m, meter, current, requested) {
      CommandStaysLinked(linked);
    } else {
      LaidLinks(m, meter, current, requested);
      LaidActive(m, meter, current, requested);
      RepairLinksCommand(linked);
    }
  }

  /** The directory that recording a binary leaves: its own, if that is called versions. */
  function VersionsAfter(before: string, binary: string): string {
    if IsVersionsDir(DirName(binary)) then DirName(binary) else before
  }

  /** What a whole installation records: what the final repair found, or the binary asked for;
      each with its directory if that is called versions, and that of before otherwise. */
  lemma InstalledRecord(m: Machine, meter: string, current: string, requested: string)
    requires Installable(m, meter, current, requested)
    requires IsLink(m.disk, WRAPPER) ==> WrapperPlace(m, meter) == Some(Kept(m, requested))
    ensures var rerecorded, out := Rerecorded(m, meter, current, requested), Installed(m, meter, current, requested).machine;
            var kept := VersionsAfter(m.versionsDir, Kept(m, requested));
            && out.record == (if rerecorded.Some? then rerecorded.value else Kept(m, requested))
            && out.versionsDir == (if rerecorded.Some? then VersionsAfter(kept, rerecorded.value) else kept)
            && out.shim == Command(m, current)
  {
    var laid := Laid(m, meter, current, requested);
    InstalledShape(m, meter, current, requested);
    if HasShim(current) {
      if !Relinks(m, meter, current, requested) {
        RerecordedMeans(m, meter, current, requested);
      } else if IsLink(m.disk, WRAPPER) {
        RelinkedRecord(m, meter, current, requested);
      }
    }
  }

  /** The replaced command leads through the wrapper's path to what is recorded, or in a circle. */
  lemma RelinkedRecord(m: Machine, meter: string, current: string, requested: string)
    requires Installable(m, meter, current, requested) && Relinks(m, meter, current, requested)
    requires IsLink(m.disk, WRAPPER) && WrapperPlace(m, meter) == Some(Kept(m, requested))
    ensures var linked := Linked(m, meter, current, requested);
            var out := Repaired(linked, |Plan(linked)|);
            out.record == linked.record && out.versionsDir == linked.versionsDir && out.shim == linked.shim
  {
    var laid, linked := Laid(m, meter, current, requested), Linked(m, meter, current, requested);
    LaidLinks(m, meter, current, requested);
    LaidFollow(m, meter, current, requested, WRAPPER);
    TurnedWrapper(laid.disk, current);
    if !Active(linked) {
      NotActiveNothingToDo(linked, |Plan(linked)|);
    } else {
      LinkedWrapperSource(linked);
      LinkedWrapperRepair(linked, |Plan(linked)|);
      RepairedShape(linked, |Plan(linked)|);
    }
  }

  /** A wrapper path that leads to the binary asked for is written through: unless that binary
      is the command, or a recovered copy that the repair replaces, it now holds the wrapper's
      text, and it is recorded unless the repair finds another binary behind the command. */
  lemma InstallWritesThroughLink(m: Machine, meter: string, current: string, requested: string, found: string)
    requires Installable(m, meter, current, requested)
    requires Follow(m.disk, requested) == Some(found) && WrapperPlace(m, meter) == Some(found)
    requires found != WRAPPER
    ensures var out := Installed(m, meter, current, requested).machine;
            var rerecorded := Rerecorded(m, meter, current, requested);
            && out.record == (if rerecorded.Some? then rerecorded.value else found)
            && (!(HasShim(current) && found == current) && !(found == RECOVERED && Recopies(m, meter, current, requested)) ==>
                  HoldsScript(out.disk, found))
            && (!HasShim(current) ==> Target(out.disk, WRAPPER) == Target(out.disk, out.record) == Some(found))
  {
    InstalledRecord(m, meter, current, requested);
    InstallFilesShape(m, meter, current, requested);
    LaidLinks(m, meter, current, requested);
    LaidFollow(m, meter, current, requested, WRAPPER);
    FollowEndsAtNoLink(Metered(m, meter), WRAPPER, {});
    if found == RECOVERED {
      if HasShim(current) && found != current { RecoveredAfter(m, meter, current, requested); }
    } else if !HasShim(current) || found != current {
      OthersAfter(m, meter, current, requested, found);
    }
  }

  /** When the command is the binary asked for, it is replaced by a link to the wrapper and kept
      nowhere, and the record names that link. Without the meter, and unless a versions
      directory offers something else, the wrapper then executes itself. */
  lemma InstallLosesBinary(m: Machine, meter: string, current: string, requested: string, pick: set<string> -> string, inputs: Meter)
    requires Installable(m, meter, current, requested) && CommandIsBinary(m, current, requested)
    requires !OwnPath(current) && !IsLink(m.disk, WRAPPER) && Picks(pick)
    requires IsLink(m.disk, METER) ==> Relinks(m, meter, current, requested)
    ensures var after := Installed(m, meter, current, requested).machine;
            && after.disk == Metered(m, meter)[WRAPPER := File(WRAPPER_SCRIPT, true)][current := Link(WRAPPER)]
            && after.record == current
            && var unmetered := Next(after, Delete(METER));
            && (Attempts(unmetered, pick, inputs) == [current] <==> after.versionsDir == "" || VersionFiles(unmetered) == {})
            && Target(unmetered.disk, current) == Some(WRAPPER) && !Harmless(unmetered, current)
  {
    OwnPathsDiffer();
    LostLaid(m, meter, current, requested);
    InstalledShape(m, meter, current, requested);
    LinkedRecordLaunch(Next(Installed(m, meter, current, requested).machine, Delete(METER)), pick, inputs);
  }

  /** Without the meter, a record that links to the wrapper starts the wrapper again unless a
      versions directory offers something else. */
  lemma LinkedRecordLaunch(m: Machine, pick: set<string> -> string, inputs: Meter)
    requires METER !in m.disk && Executable(m.disk, WRAPPER) && !IsLink(m.disk, WRAPPER)
    requires m.record in m.disk && m.disk[m.record] == Link(WRAPPER) && m.record != "" && m.record != WRAPPER && Picks(pick)
    ensures Attempts(m, pick, inputs) == [m.record] <==> m.versionsDir == "" || VersionFiles(m) == {}
    ensures Target(m.disk, m.record) == Some(WRAPPER) && !Harmless(m, m.record)
  {
    FollowOnce(m.disk, m.record);
    assert Target(m.disk, METER) == None;
    assert m.record !in VersionFiles(m);
  }

  lemma LostLaid(m: Machine, meter: string, current: string, requested: string)
    requires Installable(m, meter, current, requested) && CommandIsBinary(m, current, requested)
    requires !OwnPath(current) && !IsLink(m.disk, WRAPPER)
    requires IsLink(m.disk, METER) ==> Relinks(m, meter, current, requested)
    ensures Relinks(m, meter, current, requested)
    ensures Laid(m, meter, current, requested).disk == Metered(m, meter)[WRAPPER := File(WRAPPER_SCRIPT, true)]
    ensures Laid(m, meter, current, requested).record == current
  {
    OwnPathsDiffer();
    FollowEndsAtNoLink(m.disk, requested, {});
    var stored := Stored(m, meter, current, requested);
    if !IsLink(m.disk, METER) {
      assert SameLinks(m.disk, stored);
      SameLinksFollow(m.disk, stored, requested, {});
    }
    LaidLinks(m, meter, current, requested);
  }

  /** An installation over a wrapper left behind without its records saves the wrapper as
      claude-real, and records that unless the repair finds another binary behind the command:
      without the meter the wrapper then executes its own copy. Some legal run always leads to
      a launch that starts itself again. */
  lemma LeftoverWrapperReenters(m: Machine, meter: string, current: string, requested: string, pick: set<string> -> string, inputs: Meter)
    requires Installable(m, meter, current, requested) && Copying(m, requested) && (HasShim(current) ==> !OwnPath(current))
    requires !IsLink(m.disk, WRAPPER) && m.disk[WRAPPER].content == WRAPPER_SCRIPT
    ensures var after := Installed(m, meter, current, requested).machine;
            var rerecorded := Rerecorded(m, meter, current, requested);
            var unmetered := Next(after, Delete(METER));
            && after.record == (if rerecorded.Some? then rerecorded.value else CLAUDE_REAL)
            && HoldsScript(after.disk, CLAUDE_REAL) && !AlwaysSafe(after)
            && (after.record == CLAUDE_REAL && (after.versionsDir == "" || VersionFiles(unmetered) == {}) ==>
                  Attempts(unmetered, pick, inputs) == [CLAUDE_REAL] && !Harmless(unmetered, CLAUDE_REAL))
  {
    OwnPathsDiffer();
    InstalledRecord(m, meter, current, requested);
    OthersAfter(m, meter, current, requested, CLAUDE_REAL);
    var after := Installed(m, meter, current, requested).machine;
    SavedClean(CLAUDE_REAL);
    ScriptElsewhereUnsafe(after, CLAUDE_REAL);
    SavedScriptLaunch(Next(after, Delete(METER)), pick, inputs);
  }

  lemma SavedScriptLaunch(m: Machine, pick: set<string> -> string, inputs: Meter)
    requires METER !in m.disk && HoldsScript(m.disk, CLAUDE_REAL)
    ensures m.record == CLAUDE_REAL && (m.versionsDir == "" || VersionFiles(m) == {}) ==>
              Attempts(m, pick, inputs) == [CLAUDE_REAL]
    ensures !Harmless(m, CLAUDE_REAL)
  {
    OwnPathsDiffer();
    assert Target(m.disk, METER) == None;
  }
}
