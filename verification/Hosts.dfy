/** A machine with the launcher: its installation, its repair and its launches as the scripts
    and the meter perform them, one file operation after another. */
module Hosts {
  import opened Wrappers
  import opened Resolver
  import opened Shim
  import opened Launching

  // ------------------------------------------------------------------------------- installing

  predicate HasShim(current: string) {
    current != "" && current != WRAPPER
  }

  /** The records an installation writes for the binary it wraps. */
  function RecordBinary(m: Machine, binary: string, current: string): Machine {
    m.(record := binary,
       versionsDir := if IsVersionsDir(DirName(binary)) then DirName(binary) else m.versionsDir,
       shim := if HasShim(current) then current else m.shim)
  }

  /** The state an installation ends in, and whether it got to its end: `set -e` stops it at
      the first command that fails. */
  datatype Outcome = Outcome(machine: Machine, ok: bool)

  /** The wrapper is written through a link at its path; then the command becomes a link to
      it, if it led to the requested binary. */
  function InstallWrapper(m: Machine, current: string, currentReal: Option<string>, requested: string): Outcome {
    match Follow(m.disk, WRAPPER)
    case None => Outcome(m, false)
    case Some(place) =>
      var written := m.(disk := m.disk[place := File(WRAPPER_SCRIPT, true)]);
      if HasShim(current) && currentReal == Follow(written.disk, requested)
      then Outcome(written.(disk := written.disk[current := Link(WRAPPER)]), true)
      else Outcome(written, true)
  }

  /** install-launcher.sh up to the repair: `meter` is the content of the meter installed,
      `current` what `command -v claude` prints, `requested` the binary to wrap. */
  function InstallFiles(m: Machine, meter: string, current: string, requested: string): Outcome {
    var found, currentReal := Follow(m.disk, requested), Follow(m.disk, current);
    if requested == "" || found.None? || currentReal.None? then Outcome(m, false)
    else
      var metered := m.(disk := m.disk[METER := File(meter, true)]);
      if found.value != WRAPPER then
        InstallWrapper(RecordBinary(metered, found.value, current), current, currentReal, requested)
      else if m.record != "" then
        InstallWrapper(RecordBinary(metered, m.record, current), current, currentReal, requested)
      else if WRAPPER !in metered.disk || metered.disk[WRAPPER].Link? then Outcome(metered, false)
      else
        var copied := metered.(disk := metered.disk[CLAUDE_REAL := File(metered.disk[WRAPPER].content, true)]);
        InstallWrapper(RecordBinary(copied, CLAUDE_REAL, current), current, currentReal, requested)
  }

  /** The whole installation ends with a repair when there is a command to watch. */
  function Installed(m: Machine, meter: string, current: string, requested: string): Outcome {
    var files := InstallFiles(m, meter, current, requested);
    if files.ok && HasShim(current)
    then Outcome(Repaired(files.machine, |Plan(files.machine)|), true)
    else files
  }

  // --------------------------------------------------------------------------------- the host

  class Host {
    var disk: Disk
    var record: string
    var versionsDir: string
    var shim: string

    function State(): Machine
      reads this
    {
      Machine(disk, record, versionsDir, shim)
    }

    constructor (m: Machine)
      ensures State() == m
    {
      disk, record, versionsDir, shim := m.disk, m.record, m.versionsDir, m.shim;
    }

    /** write_real, stopped when the budget of file replacements runs out. */
    method WriteRecords(path: string, budget: nat) returns (left: nat)
      modifies this
      ensures State() == Perform(old(State()), WriteReal(path), budget)
      ensures left == if budget >= |WriteReal(path)| then budget - |WriteReal(path)| else 0
    {
      left := budget;
      ghost var before := State();
      WritesRecord(before, path, budget);
      if left == 0 { return; }
      record, left := path, left - 1;
      var dir := DirName(path);
      if IsVersionsDir(dir) {
        if left == 0 { return; }
        versionsDir, left := dir, left - 1;
      }
    }

    /** The first half of the script: recording what the command leads to. */
    method RecordGenuine(budget: nat) returns (left: nat)
      requires State().shim != ""
      modifies this
      ensures State() == Perform(old(State()), Recording(old(State())), budget)
      ensures left == if budget >= |Recording(old(State()))| then budget - |Recording(old(State()))| else 0
    {
      left := budget;
      ghost var before := State();
      if IsLink(disk, shim) {
        var current := Follow(disk, shim);
        if current.Some? && current.value != "" && current.value != WRAPPER && current.value != METER
           && Executable(disk, current.value) {
          left := WriteRecords(current.value, left);
        }
      } else if Executable(disk, shim) && shim != WRAPPER {
        assert Recording(before)[1..] == WriteReal(RECOVERED);
        if left == 0 { return; }
        if shim in disk && disk[shim].File? {
          disk := disk[RECOVERED := File(disk[shim].content, true)];
        }
        left := left - 1;
        left := WriteRecords(RECOVERED, left);
      }
    }

    /** repair-launcher.sh, stopped after `stop` file replacements. */
    method Repair(stop: nat)
      modifies this
      ensures State() == Repaired(old(State()), stop)
    {
      ghost var before := State();
      if shim == "" { return; }
      if !Executable(disk, WRAPPER) { return; }
      RepairHalves(before, stop);
      var left := RecordGenuine(stop);
      if left == 0 { return; }
      if IsLink(disk, shim) && Follow(disk, shim) == Some(WRAPPER) {
        return;
      }
      disk := disk[shim := Link(WRAPPER)];
    }

    /** install-launcher.sh. */
    method Install(meter: string, current: string, requested: string) returns (ok: bool)
      modifies this
      ensures Outcome(State(), ok) == Installed(old(State()), meter, current, requested)
    {
      if requested == "" { return false; }
      var found := Follow(disk, requested);
      if found.None? { return false; }
      var currentReal := Follow(disk, current);
      if currentReal.None? { return false; }
      var binary := found.value;
      disk := disk[METER := File(meter, true)];
      if binary == WRAPPER && record != "" {
        binary := record;
      } else if binary == WRAPPER {
        if WRAPPER !in disk || disk[WRAPPER].Link? { return false; }
        disk := disk[CLAUDE_REAL := File(disk[WRAPPER].content, true)];
        binary := CLAUDE_REAL;
      }
      record := binary;
      var dir := DirName(binary);
      if IsVersionsDir(dir) {
        versionsDir := dir;
      }
      if current != "" && current != WRAPPER {
        shim := current;
      }
      var place := Follow(disk, WRAPPER);
      if place.None? { return false; }
      disk := disk[place.value := File(WRAPPER_SCRIPT, true)];
      if current != "" && current != WRAPPER && currentReal == Follow(disk, requested) {
        disk := disk[current := Link(WRAPPER)];
      }
      if current != "" && current != WRAPPER {
        Repair(|Plan(State())|);
      }
      return true;
    }

    /** The generated wrapper: what it executes, through the meter or not. Where the meter
        should be there may be the wrapper's text again. */
    method RunWrapper(pick: set<string> -> string, meter: Meter) returns (started: seq<string>)
      ensures started == Started(State(), pick, meter)
    {
      var binary := record;
      if versionsDir != "" {
        var files := VersionFiles(State());
        if files != {} {
          binary := pick(files);
        }
      }
      if Executable(disk, METER) {
        if RunsScript(State(), METER) { return [METER]; }
        var attempts := Launch(meter, binary);
        return [METER] + attempts;
      }
      if binary != "" && Executable(disk, binary) { return [binary]; }
      if Executable(disk, RECOVERED) { return [RECOVERED]; }
      if Executable(disk, CLAUDE_REAL) { return [CLAUDE_REAL]; }
      return [];
    }

    method ResolveHere(meter: Meter, configured: string, fallback: string) returns (bin: Option<string>)
      ensures bin == ResolveIn(State(), meter, configured, fallback)
    {
      var files := Snapshot(State(), meter.list);
      bin := Resolve(files, files.follow, meter.sort, configured, fallback);
      SettledInSnapshot(files, Offered(files, meter.sort, configured, fallback));
    }

    /** `claude-meter launch`: the binaries it tries to execute. */
    method Launch(meter: Meter, fallbackBin: string) returns (attempts: seq<string>)
      ensures attempts == MeterAttempts(State(), meter, fallbackBin)
    {
      var fallback := fallbackBin;
      if fallback == "" {
        fallback := meter.environment;
      }
      var first: Option<string> := None;
      if meter.config.Some? {
        first := ResolveHere(meter, meter.config.value, fallback);
      }
      var second := ResolveHere(meter, "", fallback);
      attempts := TryBoth(first, second, meter.refused);
    }

    /** Executing what was resolved, and execClaude when there is nothing or it fails. */
    static method TryBoth(first: Option<string>, second: Option<string>, refused: string -> bool) returns (attempts: seq<string>)
      ensures attempts == Tried(first, second, refused)
    {
      attempts := [];
      if first.Some? {
        attempts := [first.value];
        if !refused(first.value) { return; }
      }
      if second.Some? {
        attempts := attempts + [second.value];
      }
    }
  }

  lemma RepairHalves(m: Machine, stop: nat)
    requires Active(m)
    ensures var n := |Recording(m)|;
            Repaired(m, stop) ==
            if stop <= n then Perform(m, Recording(m), stop)
            else if Healthy(Recorded(m)) then Recorded(m)
            else Do(Recorded(m), Relink)
    ensures stop > |Recording(m)| ==> Perform(m, Recording(m), stop) == Recorded(m)
  {
    var n := |Recording(m)|;
    var rest: seq<Effect> := if Healthy(Recorded(m)) then [] else [Relink];
    PerformAppend(m, Recording(m), rest, stop);
    if stop > n {
      PerformAll(m, Recording(m), stop);
      PerformOne(Recorded(m), Relink, stop - n);
    }
  }
}
