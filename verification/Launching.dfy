/** Which binary a launch executes: the wrapper script, and behind it the meter. */
module Launching {
  import opened Wrappers
  import opened Seqs
  import opened Texts
  import opened Paths
  import opened Resolver
  import opened Shim

  // ------------------------------------------------------------------------------- the wrapper

  /** A file directly inside a directory. */
  predicate InDir(path: string, dir: string) {
    HasPrefix(path, dir + "/") && '/' !in path[|dir| + 1..]
  }

  /** find VERSION_DIR -maxdepth 1 -type f -perm /111 */
  function VersionFiles(m: Machine): set<string> {
    set p | p in m.disk && InDir(p, m.versionsDir) && m.disk[p].File? && m.disk[p].executable
  }

  /** What sort -V | tail -n 1 may print: a member, if there is one. */
  ghost predicate Picks(pick: set<string> -> string) {
    forall s: set<string> :: s != {} ==> pick(s) in s
  }

  /** The wrapper's REAL_CLAUDE. */
  function WrapperBinary(m: Machine, pick: set<string> -> string): string {
    if m.versionsDir != "" && VersionFiles(m) != {} then pick(VersionFiles(m)) else m.record
  }

  /** The disk as the meter sees it; directory listings are an input. */
  function Snapshot(m: Machine, list: string -> Option<seq<string>>): Files {
    Files(path => Target(m.disk, Clean(path)),
          path => path in m.disk && m.disk[path].File? && m.disk[path].executable,
          list)
  }

  /** The meter's inputs besides the disk: the binary its configuration names, None when the
      configuration cannot be read; the fallback from the environment; and which binaries the
      kernel refuses to execute. */
  datatype Meter = Meter(
    config: Option<string>,
    environment: string,
    refused: string -> bool,
    list: string -> Option<seq<string>>,
    sort: seq<string> -> seq<string>)

  function Listed(bin: Option<string>): seq<string> {
    match bin case None => [] case Some(b) => [b]
  }

  /** claude.Resolve in this snapshot. */
  function ResolveIn(m: Machine, meter: Meter, configured: string, fallback: string): Option<string> {
    var files := Snapshot(m, meter.list);
    Choice(files, Offered(files, meter.sort, configured, fallback))
  }

  /** The binaries tried when the configuration gives `first` and the fallback alone `second`. */
  function Tried(first: Option<string>, second: Option<string>, refused: string -> bool): seq<string> {
    match first
    case None => Listed(second)
    case Some(bin) => [bin] + if refused(bin) then Listed(second) else []
  }

  /** The binaries `launch` tries to execute, in order. */
  function MeterAttempts(m: Machine, meter: Meter, fallbackBin: string): seq<string> {
    var fallback := if fallbackBin == "" then meter.environment else fallbackBin;
    var first := if meter.config.Some? then ResolveIn(m, meter, meter.config.value, fallback) else None;
    Tried(first, ResolveIn(m, meter, "", fallback), meter.refused)
  }

  /** The binaries one run of the wrapper tries to execute, the meter itself left out. */
  function Attempts(m: Machine, pick: set<string> -> string, meter: Meter): seq<string> {
    var binary := WrapperBinary(m, pick);
    if Executable(m.disk, METER) then MeterAttempts(m, meter, binary)
    else if binary != "" && Executable(m.disk, binary) then [binary]
    else if Executable(m.disk, RECOVERED) then [RECOVERED]
    else if Executable(m.disk, CLAUDE_REAL) then [CLAUDE_REAL]
    else []
  }

  /** Executing the path runs the wrapper's text. */
  predicate RunsScript(m: Machine, path: string) {
    match Target(m.disk, path)
    case Some(target) => HoldsScript(m.disk, target)
    case None => false
  }

  /** All that one run of the wrapper executes: the meter first, if it is there; what that
      tries, unless its file holds the wrapper's text as well. */
  function Started(m: Machine, pick: set<string> -> string, meter: Meter): seq<string> {
    (if Executable(m.disk, METER) then [METER] else [])
    + if RunsScript(m, METER) then [] else Attempts(m, pick, meter)
  }

  /** The launch does not start itself again. */
  predicate LaunchSafe(m: Machine, pick: set<string> -> string, meter: Meter) {
    forall bin <- Started(m, pick, meter) :: !RunsScript(m, bin)
  }

  /** No legal run reaches a launch that starts itself again. */
  ghost predicate AlwaysSafe(start: Machine) {
    forall steps, pick, meter | LegalRun(start, steps) && Picks(pick) :: LaunchSafe(Run(start, steps), pick, meter)
  }

  // --------------------------------------------------------------------------------- theorems

  /** Executing the path runs an executable that is neither the wrapper nor the meter, and
      whose text is not the wrapper's. */
  predicate Harmless(m: Machine, path: string) {
    && Executable(m.disk, path)
    && var target := Target(m.disk, path).value;
       target != WRAPPER && target != METER && !HoldsScript(m.disk, target)
  }

  predicate FileIn(disk: Disk, path: string) {
    path in disk && disk[path].File? && disk[path].executable
  }

  lemma FileHarmless(m: Machine, path: string)
    requires Inv(m) && FileIn(m.disk, path) && path != WRAPPER && path != METER
    ensures Harmless(m, path)
  {
  }

  lemma ResolveHarmless(m: Machine, meter: Meter, configured: string, fallback: string)
    requires Inv(m)
    ensures var bin := ResolveIn(m, meter, configured, fallback); bin.Some? ==> Harmless(m, bin.value)
  {
    var files := Snapshot(m, meter.list);
    var offered := Offered(files, meter.sort, configured, fallback);
    NeverOwn(files, offered);
    var bin := Choice(files, offered);
    if bin.Some? {
      assert files.executable(bin.value) == FileIn(m.disk, bin.value);
      FileHarmless(m, bin.value);
    }
  }

  lemma TriedFrom(first: Option<string>, second: Option<string>, refused: string -> bool)
    ensures forall bin <- Tried(first, second, refused) :: first == Some(bin) || second == Some(bin)
    ensures second.Some? ==> Tried(first, second, refused) != []
  {
  }

  lemma MeterHarmless(m: Machine, meter: Meter, fallbackBin: string)
    requires Inv(m)
    ensures forall bin <- MeterAttempts(m, meter, fallbackBin) :: Harmless(m, bin)
  {
    var fallback := if fallbackBin == "" then meter.environment else fallbackBin;
    var first := if meter.config.Some? then ResolveIn(m, meter, meter.config.value, fallback) else None;
    var second := ResolveIn(m, meter, "", fallback);
    ResolveHarmless(m, meter, "", fallback);
    if meter.config.Some? { ResolveHarmless(m, meter, meter.config.value, fallback); }
    TriedFrom(first, second, meter.refused);
  }

  /** A path whose directory does not end in 's' lies in no versions directory. */
  lemma Unversioned(path: string, k: nat, dir: string)
    requires 0 < k < |path| && path[k] == '/' && '/' !in path[k + 1..] && path[k - 1] != 's'
    requires IsVersionsDir(dir)
    ensures !InDir(path, dir)
  {
    var n := |dir|;
    assert n > 0 && dir[n - 1] == 's';
    assert n < k && n < |path| ==> path[n + 1..][k - n - 1] == '/';
    assert k < n < |path| ==> path[k + 1..][n - k - 1] == path[n];
    assert HasPrefix(path, dir + "/") ==> path[n] == (dir + "/")[n] == '/' && path[n - 1] == (dir + "/")[n - 1] == 's';
  }

  /** The directories of the wrapper and the meter are no versions directories. */
  lemma OwnFilesUnversioned(dir: string)
    requires IsVersionsDir(dir)
    ensures !InDir(WRAPPER, dir) && !InDir(METER, dir)
  {
    Unversioned(WRAPPER, 14, dir);
    Unversioned(METER, 27, dir);
  }

  lemma WrapperBinaryHarmless(m: Machine, pick: set<string> -> string)
    requires Inv(m) && Picks(pick) && !Executable(m.disk, METER)
    requires var binary := WrapperBinary(m, pick); binary != "" && Executable(m.disk, binary)
    ensures Harmless(m, WrapperBinary(m, pick))
  {
    var binary := WrapperBinary(m, pick);
    if m.versionsDir != "" && VersionFiles(m) != {} {
      assert binary in VersionFiles(m);
      OwnFilesUnversioned(m.versionsDir);
    } else if IsLink(m.disk, binary) {
      FollowOnce(m.disk, binary);
    }
    var target := Target(m.disk, binary).value;
    assert target != METER;
    FileHarmless(m, target);
  }

  /** In a machine that keeps the invariant a launch executes the genuine meter, if it is
      there, and tries only harmless executables. */
  lemma LaunchHarmless(m: Machine, pick: set<string> -> string, meter: Meter)
    requires Inv(m) && Picks(pick)
    ensures forall bin <- Attempts(m, pick, meter) :: Harmless(m, bin)
    ensures LaunchSafe(m, pick, meter)
  {
    var binary := WrapperBinary(m, pick);
    OwnPathsDiffer();
    if Executable(m.disk, METER) {
      MeterHarmless(m, meter, binary);
    } else if binary != "" && Executable(m.disk, binary) {
      WrapperBinaryHarmless(m, pick);
    } else if Executable(m.disk, RECOVERED) {
      FileHarmless(m, RECOVERED);
    } else if Executable(m.disk, CLAUDE_REAL) {
      FileHarmless(m, CLAUDE_REAL);
    }
  }

  /** Whatever the legal run was, a launch tries only executables that are neither the wrapper
      nor the meter, by path or by text: it never starts itself again. */
  lemma LaunchNeverReenters(start: Machine, steps: seq<Step>, pick: set<string> -> string, meter: Meter)
    requires Inv(start) && LegalRun(start, steps) && Picks(pick)
    ensures var m := Run(start, steps);
            (forall bin <- Attempts(m, pick, meter) :: Harmless(m, bin)) && LaunchSafe(m, pick, meter)
  {
    RunKeepsInv(start, steps);
    LaunchHarmless(Run(start, steps), pick, meter);
  }

  // ------------------------------------------------------------------- the order of trying

  /** The meter follows a path as it follows its cleaned spelling, and finds links resolved. */
  lemma SnapshotMeans(m: Machine, list: string -> Option<seq<string>>, p: string, q: string)
    ensures var files := Snapshot(m, list);
            && (Clean(p) == Clean(q) ==> files.follow(p) == files.follow(q))
            && (Clean(p) == p && FileIn(m.disk, p) ==> files.follow(p) == Some(p) && files.executable(p))
            && (Clean(p) == p && p in m.disk && m.disk[p] == Link(q) && FileIn(m.disk, q) ==> files.follow(p) == Some(q))
  {
    if IsLink(m.disk, p) { FollowOnce(m.disk, p); }
  }

  predicate HasVersions(m: Machine) {
    m.versionsDir != "" && VersionFiles(m) != {}
  }

  /** Without the meter the wrapper tries one binary: a newest version; else the recorded one;
      else the recovered copy; else the saved one. */
  lemma ShellOrder(m: Machine, pick: set<string> -> string, meter: Meter)
    requires Picks(pick) && !Executable(m.disk, "/usr/local/lib/claude-meter/claude-meter")
    ensures var tried := Attempts(m, pick, meter);
            var recorded := m.record != "" && Executable(m.disk, m.record);
            var recovered := Executable(m.disk, "/usr/local/lib/claude-meter/claude-recovered");
            var saved := Executable(m.disk, "/usr/local/lib/claude-meter/claude-real");
            && (HasVersions(m) && (forall p <- VersionFiles(m) :: p != "") ==> exists p <- VersionFiles(m) :: tried == [p])
            && (!HasVersions(m) && recorded ==> tried == [m.record])
            && (!HasVersions(m) && !recorded && recovered ==> tried == ["/usr/local/lib/claude-meter/claude-recovered"])
            && (!HasVersions(m) && !recorded && !recovered && saved ==> tried == ["/usr/local/lib/claude-meter/claude-real"])
            && (!HasVersions(m) && !recorded && !recovered && !saved ==> tried == [])
  {
    OwnPathsAre();
    if HasVersions(m) {
      var p := pick(VersionFiles(m));
      FileIsItsTarget(m.disk, p);
    }
  }

  lemma InDirMeans(path: string, dir: string)
    ensures InDir(path, dir) <==> exists name :: '/' !in name && path == dir + ("/" + name)
  {
    var head := dir + "/";
    if InDir(path, dir) {
      var name := path[|dir| + 1..];
      assert path == head + name;
      assert path == dir + ("/" + name);
    }
    if name :| '/' !in name && path == dir + ("/" + name) {
      assert path == head + name && path[..|head|] == head && path[|dir| + 1..] == name;
    }
  }

  /** The binary handed to the meter, or tried without it: an executable file right inside the
      versions directory if there is one, and the recorded binary otherwise. */
  lemma BinaryOfWrapper(m: Machine, pick: set<string> -> string, meter: Meter)
    requires Picks(pick)
    ensures var binary := WrapperBinary(m, pick);
            if HasVersions(m) then FileIn(m.disk, binary) && exists name :: '/' !in name && binary == m.versionsDir + ("/" + name)
            else binary == m.record
    ensures Executable(m.disk, "/usr/local/lib/claude-meter/claude-meter") ==>
              Attempts(m, pick, meter) == MeterAttempts(m, meter, WrapperBinary(m, pick))
  {
    OwnPathsAre();
    if HasVersions(m) { InDirMeans(WrapperBinary(m, pick), m.versionsDir); }
  }

  /** There is a newest version exactly when some executable file lies right inside the recorded
      directory. */
  lemma HasVersionsMeans(m: Machine)
    ensures HasVersions(m) <==>
            m.versionsDir != "" && exists p <- m.disk :: FileIn(m.disk, p) && exists name :: '/' !in name && p == m.versionsDir + ("/" + name)
  {
    if HasVersions(m) {
      var p :| p in VersionFiles(m);
      InDirMeans(p, m.versionsDir);
    }
    if p :| p in m.disk && FileIn(m.disk, p) && exists name :: '/' !in name && p == m.versionsDir + ("/" + name) {
      InDirMeans(p, m.versionsDir);
      assert m.versionsDir != "" ==> p in VersionFiles(m);
    }
  }

  /** The fallback handed over, or the one from the environment when it is empty. */
  function FallbackOf(meter: Meter, fallbackBin: string): string {
    if fallbackBin == "" then meter.environment else fallbackBin
  }

  lemma ResolvesPreferred(m: Machine, meter: Meter, configured: string, fallback: string)
    requires Sorts(meter.sort)
    requires NothingBeside(Snapshot(m, meter.list), configured) && NothingBeside(Snapshot(m, meter.list), fallback)
    ensures ResolveIn(m, meter, configured, fallback) == Preferred(Snapshot(m, meter.list), configured, fallback)
  {
    NoVersionsPreferred(Snapshot(m, meter.list), meter.sort, configured, fallback);
  }

  /** Without versions to be had the meter tries the configured binary before the fallback, and
      claude-real before claude-recovered; when the configuration cannot be read, or the kernel
      refuses the binary, it does so without a configured one. */
  lemma MeterOrder(m: Machine, meter: Meter, fallbackBin: string, none: string)
    requires Sorts(meter.sort) && none == ""
    requires NothingBeside(Snapshot(m, meter.list), FallbackOf(meter, fallbackBin))
    requires meter.config.Some? ==> NothingBeside(Snapshot(m, meter.list), meter.config.value)
    ensures var files, fallback := Snapshot(m, meter.list), FallbackOf(meter, fallbackBin);
            MeterAttempts(m, meter, fallbackBin) ==
            Tried(if meter.config.Some? then Preferred(files, meter.config.value, fallback) else None,
                  Preferred(files, none, fallback), meter.refused)
  {
    NothingBesideNothing(Snapshot(m, meter.list), none);
    ResolvesPreferred(m, meter, none, FallbackOf(meter, fallbackBin));
    if meter.config.Some? { ResolvesPreferred(m, meter, meter.config.value, FallbackOf(meter, fallbackBin)); }
  }

  /** What was resolved comes first; the fallback alone is tried when nothing was, or when the
      kernel refuses it. */
  lemma TriedMeans(first: Option<string>, second: Option<string>, refused: string -> bool)
    ensures first.Some? && !refused(first.value) ==> Tried(first, second, refused) == [first.value]
    ensures first.Some? && refused(first.value) && second.Some? ==> Tried(first, second, refused) == [first.value, second.value]
    ensures first.None? && second.Some? ==> Tried(first, second, refused) == [second.value]
    ensures second.None? ==> Tried(first, second, refused) == if first.Some? then [first.value] else []
  {
  }

  lemma NothingBesideNothing(files: Files, path: string)
    requires path == ""
    ensures NothingBeside(files, path)
  {
  }

  lemma WrapperClean(path: string)
    requires path == WRAPPER
    ensures Clean(path) == path
  {
    TameFour("usr", "local", "bin", "claude", path);
  }

  lemma LibraryTame(dir: string)
    requires dir == LIBRARY
    ensures Tame(dir)
  {
    TameFour("usr", "local", "lib", "claude-meter", dir);
  }

  lemma LibraryPathClean(name: string, path: string)
    requires IsName(name) && path == LIBRARY + ("/" + name)
    ensures Clean(path) == path
  {
    LibraryTame(LIBRARY);
    Associative(LIBRARY, "/", name);
    TameAppend(LIBRARY, name, path);
  }

  lemma MeterClean(path: string)
    requires path == METER
    ensures Clean(path) == path
  {
    assert "/" + "claude-meter" == "/claude-meter";
    LibraryPathClean("claude-meter", path);
  }

  lemma RecoveredClean(path: string)
    requires path == RECOVERED
    ensures Clean(path) == path
  {
    assert "/" + "claude-recovered" == "/claude-recovered";
    LibraryPathClean("claude-recovered", path);
  }

  lemma NotDenied(m: Machine, list: string -> Option<seq<string>>, path: string, own: string)
    requires Clean(own) == own && Clean(path) == path && path != own && Target(m.disk, own) != Some(path)
    ensures !Denied(Snapshot(m, list), path, own)
  {
  }

  lemma OwnPathTrimmed(own: string)
    requires OwnPath(own)
    ensures TrimSpace(own) == own
  {
    PlainEndsTrimmed(own);
  }

  /** The recovered copy exists and is neither a link nor the target of an own path. */
  predicate HasRecovered(m: Machine) {
    && FileIn(m.disk, RECOVERED)
    && Target(m.disk, WRAPPER) != Some(RECOVERED) && Target(m.disk, METER) != Some(RECOVERED)
  }

  lemma FileIsItsTarget(disk: Disk, path: string)
    requires FileIn(disk, path)
    ensures Target(disk, path) == Some(path)
  {
  }

  lemma UnblockedValid(files: Files, path: string, target: string)
    requires files.follow(path) == Some(target) && files.executable(target)
    requires !Blank(path) && !IsBlocked(files, target)
    ensures Valid(files, path)
  {
  }

  /** A clean path is blocked only if it is the wrapper's or the meter's, or their target. */
  lemma Unblocked(m: Machine, list: string -> Option<seq<string>>, path: string)
    requires Clean(path) == path && path != WRAPPER && path != METER
    requires Target(m.disk, WRAPPER) != Some(path) && Target(m.disk, METER) != Some(path)
    ensures !IsBlocked(Snapshot(m, list), path)
  {
    WrapperClean(WRAPPER);
    MeterClean(METER);
    NotDenied(m, list, path, WRAPPER);
    NotDenied(m, list, path, METER);
    BlockedMeans(Snapshot(m, list), path);
  }

  lemma RecoveredValid(m: Machine, list: string -> Option<seq<string>>, path: string)
    requires HasRecovered(m) && path == RECOVERED
    ensures Valid(Snapshot(m, list), TrimSpace(path))
  {
    RecoveredClean(path);
    OwnPathTrimmed(path);
    OwnPathsDiffer();
    Unblocked(m, list, path);
    FileIsItsTarget(m.disk, path);
    UnblockedValid(Snapshot(m, list), path, path);
  }

  lemma ResolveFinds(m: Machine, meter: Meter, configured: string, fallback: string)
    requires HasRecovered(m)
    ensures ResolveIn(m, meter, configured, fallback).Some?
  {
    var files := Snapshot(m, meter.list);
    var offered := Offered(files, meter.sort, configured, fallback);
    RecoveredOffered(files, meter.sort, configured, fallback);
    RecoveredValid(m, meter.list, RECOVERED);
    ChoiceFails(files, offered);
  }

  lemma RecoveredOffered(files: Files, sort: seq<string> -> seq<string>, configured: string, fallback: string)
    ensures RECOVERED in Offered(files, sort, configured, fallback)
  {
    assert RECOVERED in Defaults(configured, fallback);
  }

  /** As long as the recovered copy exists, a launch finds something to execute. */
  lemma RecoveredIsFound(m: Machine, pick: set<string> -> string, meter: Meter)
    requires HasRecovered(m)
    ensures Attempts(m, pick, meter) != []
  {
    if Executable(m.disk, METER) {
      var fallback := if WrapperBinary(m, pick) == "" then meter.environment else WrapperBinary(m, pick);
      ResolveFinds(m, meter, "", fallback);
      var first := if meter.config.Some? then ResolveIn(m, meter, meter.config.value, fallback) else None;
      TriedFrom(first, ResolveIn(m, meter, "", fallback), meter.refused);
    }
  }
}
