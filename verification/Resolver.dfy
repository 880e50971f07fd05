/** Choosing the real Claude binary among candidates, in one snapshot of the file system. */
module Resolver {
  import opened Wrappers
  import opened Seqs
  import opened Texts
  import opened Decimal
  import opened Sorting
  import opened Paths
  import opened Versions

  const WRAPPER := "/usr/local/bin/claude"
  const LIBRARY := "/usr/local/lib/claude-meter"
  const METER := LIBRARY + "/claude-meter"
  const CLAUDE_REAL := LIBRARY + "/claude-real"
  const RECOVERED := LIBRARY + "/claude-recovered"

  const BLOCKED := [WRAPPER, METER]

  /** A snapshot: the target of a path once symbolic links are followed, whether a path names
      an executable that is no directory, and the names in a directory. */
  datatype Files = Files(
    follow: string -> Option<string>,
    executable: string -> bool,
    list: string -> Option<seq<string>>)

  // ------------------------------------------------------------------------------ validity

  function DeniedTarget(files: Files, denied: string): string {
    if files.follow(denied).Some? then files.follow(denied).value else Clean(denied)
  }

  /** `resolved` is the denied file, by its target or by its cleaned path. */
  predicate Denied(files: Files, resolved: string, denied: string) {
    resolved == DeniedTarget(files, denied) || Clean(resolved) == Clean(denied)
  }

  predicate DeniedBySome(files: Files, resolved: string, list: seq<string>) {
    list != [] && (DeniedBySome(files, resolved, list[..|list| - 1]) || Denied(files, resolved, list[|list| - 1]))
  }

  predicate IsBlocked(files: Files, resolved: string) {
    DeniedBySome(files, resolved, BLOCKED)
  }

  lemma BlockedMeans(files: Files, resolved: string)
    ensures IsBlocked(files, resolved) <==> Denied(files, resolved, WRAPPER) || Denied(files, resolved, METER)
  {
    assert BLOCKED[..1] == [WRAPPER] && BLOCKED[..1][..0] == [];
    assert DeniedBySome(files, resolved, [WRAPPER]) == Denied(files, resolved, WRAPPER);
  }

  lemma DeniedStep(files: Files, resolved: string, list: seq<string>, i: nat)
    requires i < |list|
    ensures DeniedBySome(files, resolved, list[..i + 1]) == (DeniedBySome(files, resolved, list[..i]) || Denied(files, resolved, list[i]))
    ensures DeniedBySome(files, resolved, list[..i + 1]) ==> DeniedBySome(files, resolved, list)
    decreases |list|
  {
    assert list[..i + 1][..i] == list[..i];
    if i + 1 < |list| {
      var front := list[..|list| - 1];
      assert front[..i + 1] == list[..i + 1] && front[..i] == list[..i];
      DeniedStep(files, resolved, front, i);
    } else {
      assert list[..i + 1] == list;
    }
  }

  predicate Usable(files: Files, resolved: string) {
    !IsBlocked(files, resolved) && files.executable(resolved)
  }

  predicate Valid(files: Files, path: string) {
    !Blank(path) && files.follow(path).Some? && Usable(files, files.follow(path).value)
  }

  method IsDenied(files: Files, resolved: string, denied: string) returns (yes: bool)
    ensures yes == Denied(files, resolved, denied)
  {
    var target := files.follow(denied);
    var deniedResolved := Clean(denied);
    if target.Some? {
      deniedResolved := target.value;
    }
    return resolved == deniedResolved || Clean(resolved) == Clean(denied);
  }

  /** The loop of `valid` over the blocked paths. */
  method FindBlocked(files: Files, resolved: string, list: seq<string>) returns (blocked: bool)
    ensures blocked == DeniedBySome(files, resolved, list)
  {
    for i := 0 to |list|
      invariant !DeniedBySome(files, resolved, list[..i])
    {
      DeniedStep(files, resolved, list, i);
      blocked := IsDenied(files, resolved, list[i]);
      if blocked {
        return true;
      }
    }
    assert list[..|list|] == list;
    return false;
  }

  method IsValid(files: Files, path: string) returns (ok: bool)
    ensures ok == Valid(files, path)
  {
    if TrimSpace(path) == "" {
      return false;
    }
    var target := files.follow(path);
    if target.None? {
      return false;
    }
    var resolved := target.value;
    var blocked := FindBlocked(files, resolved, BLOCKED);
    if blocked {
      return false;
    }
    return files.executable(resolved);
  }

  // -------------------------------------------------------------------- version candidates

  function VersionDir(path: string): string {
    var p := TrimSpace(path);
    if p == "" || Base(Dir(p)) != "versions" then "" else Dir(p)
  }

  /** What sort.Slice may do with the comparator: rearrange the names, and put them in order
      when the comparator orders them. */
  ghost predicate Sorts(sort: seq<string> -> seq<string>) {
    forall s :: multiset(sort(s)) == multiset(s) && (OrderOn(Newer, s) ==> InOrder(Newer, sort(s)))
  }

  lemma SorterExists()
    ensures Sorts(s => SortBy(Newer, s))
  {
    forall s: seq<string> ensures multiset(SortBy(Newer, s)) == multiset(s) && (OrderOn(Newer, s) ==> InOrder(Newer, SortBy(Newer, s))) {
      SortPermutes(Newer, s);
      if OrderOn(Newer, s) { SortInOrder(Newer, s); }
    }
  }

  function ValidNames(files: Files, dir: string, names: seq<string>): seq<string> {
    Filter(name => Valid(files, JoinPath(dir, name)), names)
  }

  function Joined(dir: string, names: seq<string>): seq<string> {
    seq(|names|, i requires 0 <= i < |names| => JoinPath(dir, names[i]))
  }

  function Candidates(files: Files, sort: seq<string> -> seq<string>, dir: string): seq<string> {
    match files.list(dir)
    case None => []
    case Some(names) => Joined(dir, sort(ValidNames(files, dir, names)))
  }

  lemma ValidNamesStep(files: Files, dir: string, names: seq<string>, i: nat)
    requires i < |names|
    ensures ValidNames(files, dir, names[..i + 1]) ==
            ValidNames(files, dir, names[..i]) + if Valid(files, JoinPath(dir, names[i])) then [names[i]] else []
  {
    assert names[..i + 1] == names[..i] + [names[i]];
    FilterSnoc(name => Valid(files, JoinPath(dir, name)), names[..i], names[i]);
  }

  method ValidEntries(files: Files, dir: string, names: seq<string>) returns (items: seq<string>)
    ensures items == ValidNames(files, dir, names)
  {
    items := [];
    for i := 0 to |names|
      invariant items == ValidNames(files, dir, names[..i])
    {
      ValidNamesStep(files, dir, names, i);
      var ok := IsValid(files, JoinPath(dir, names[i]));
      if !ok { continue; }
      items := items + [names[i]];
    }
    assert names[..|names|] == names;
  }

  method PathsOf(dir: string, items: seq<string>) returns (out: seq<string>)
    ensures out == Joined(dir, items)
  {
    out := [];
    for i := 0 to |items|
      invariant out == Joined(dir, items[..i])
    {
      out := out + [JoinPath(dir, items[i])];
    }
    assert items[..|items|] == items;
  }

  method VersionCandidates(files: Files, sort: seq<string> -> seq<string>, dir: string) returns (out: seq<string>)
    ensures out == Candidates(files, sort, dir)
  {
    var entries := files.list(dir);
    if entries.None? {
      return [];
    }
    var items := ValidEntries(files, dir, entries.value);
    items := sort(items);
    out := PathsOf(dir, items);
  }

  // ------------------------------------------------------------------------------- choosing

  /** The versions beside a path. */
  function Beside(files: Files, sort: seq<string> -> seq<string>, path: string): seq<string> {
    if VersionDir(path) != "" then Candidates(files, sort, VersionDir(path)) else []
  }

  /** The paths Resolve always considers. */
  function Defaults(configured: string, fallback: string): seq<string> {
    [configured, fallback, CLAUDE_REAL, RECOVERED]
  }

  /** The paths Resolve considers, in order of preference, before trimming. */
  function Offered(files: Files, sort: seq<string> -> seq<string>, configured: string, fallback: string): seq<string> {
    FlatMap(path => Beside(files, sort, path), [configured, fallback]) + Defaults(configured, fallback)
  }

  /** The first path that is valid once trimmed, trimmed. */
  function Pick(valid: string -> bool, paths: seq<string>): Option<string> {
    if paths == [] then None
    else
      var n := |paths| - 1;
      var earlier, last := Pick(valid, paths[..n]), TrimSpace(paths[n]);
      if earlier.Some? then earlier else if valid(last) then Some(last) else None
  }

  function Validity(files: Files): string -> bool {
    path => Valid(files, path)
  }

  /** The picked path is followed a second time; when that fails, its cleaned spelling is used. */
  function Settled(again: string -> Option<string>, picked: Option<string>): Option<string> {
    match picked
    case None => None
    case Some(path) => if again(path).Some? then again(path) else Some(Clean(path))
  }

  /** In one snapshot: the target of the first path that is valid once trimmed. */
  function Choice(files: Files, paths: seq<string>): Option<string> {
    match Pick(Validity(files), paths)
    case None => None
    case Some(path) => files.follow(path)
  }

  /** The candidate list: trimmed, without blanks and without repetitions. */
  function Collected(paths: seq<string>): seq<string> {
    if paths == [] then []
    else
      var n := |paths| - 1;
      var earlier, last := Collected(paths[..n]), TrimSpace(paths[n]);
      if last == "" || last in earlier then earlier else earlier + [last]
  }

  method AddCandidate(out: seq<string>, seen: set<string>, path: string) returns (out': seq<string>, seen': set<string>)
    requires forall p :: p in seen <==> p in out
    ensures out' == if TrimSpace(path) == "" || TrimSpace(path) in out then out else out + [TrimSpace(path)]
    ensures forall p :: p in seen' <==> p in out'
  {
    var trimmed := TrimSpace(path);
    if trimmed == "" || trimmed in seen {
      return out, seen;
    }
    seen' := seen + {trimmed};
    out' := out + [trimmed];
  }

  lemma CollectedSnoc(paths: seq<string>, path: string)
    ensures Collected(paths + [path]) ==
            if TrimSpace(path) == "" || TrimSpace(path) in Collected(paths) then Collected(paths)
            else Collected(paths) + [TrimSpace(path)]
  {
    assert (paths + [path])[..|paths|] == paths;
  }

  lemma CollectedStep(done: seq<string>, paths: seq<string>, i: nat)
    requires i < |paths|
    ensures var before := Collected(done + paths[..i]);
            Collected(done + paths[..i + 1]) ==
            if TrimSpace(paths[i]) == "" || TrimSpace(paths[i]) in before then before else before + [TrimSpace(paths[i])]
  {
    assert paths[..i + 1] == paths[..i] + [paths[i]];
    Associative(done, paths[..i], [paths[i]]);
    CollectedSnoc(done + paths[..i], paths[i]);
  }

  /** The part of Resolve that adds a list of candidates. */
  method AddAll(ghost done: seq<string>, out: seq<string>, seen: set<string>, paths: seq<string>)
    returns (out': seq<string>, seen': set<string>)
    requires out == Collected(done) && forall p :: p in seen <==> p in out
    ensures out' == Collected(done + paths) && forall p :: p in seen' <==> p in out'
  {
    out', seen' := out, seen;
    assert done + paths[..0] == done;
    for i := 0 to |paths|
      invariant out' == Collected(done + paths[..i])
      invariant forall p :: p in seen' <==> p in out'
    {
      CollectedStep(done, paths, i);
      out', seen' := AddCandidate(out', seen', paths[i]);
    }
    assert paths[..|paths|] == paths;
  }

  method FindBeside(files: Files, sort: seq<string> -> seq<string>, path: string) returns (versions: seq<string>)
    ensures versions == Beside(files, sort, path)
  {
    versions := [];
    var dir := VersionDir(path);
    if dir != "" {
      versions := VersionCandidates(files, sort, dir);
    }
  }

  /** The loop of Resolve over the configured path and the fallback. */
  method CollectBeside(files: Files, sort: seq<string> -> seq<string>, sources: seq<string>)
    returns (candidates: seq<string>, seen: set<string>)
    ensures candidates == Collected(FlatMap(path => Beside(files, sort, path), sources))
    ensures forall p :: p in seen <==> p in candidates
  {
    candidates, seen := [], {};
    ghost var beside := path => Beside(files, sort, path);
    for i := 0 to |sources|
      invariant candidates == Collected(FlatMap(beside, sources[..i]))
      invariant forall p :: p in seen <==> p in candidates
    {
      FlatMapTake(beside, sources, i);
      var versions := FindBeside(files, sort, sources[i]);
      candidates, seen := AddAll(FlatMap(beside, sources[..i]), candidates, seen, versions);
    }
    assert sources[..|sources|] == sources;
  }

  method CollectCandidates(files: Files, sort: seq<string> -> seq<string>, configured: string, fallback: string)
    returns (candidates: seq<string>)
    ensures candidates == Collected(Offered(files, sort, configured, fallback))
  {
    var seen;
    candidates, seen := CollectBeside(files, sort, [configured, fallback]);
    ghost var beside := FlatMap(path => Beside(files, sort, path), [configured, fallback]);
    candidates, seen := AddAll(beside, candidates, seen, Defaults(configured, fallback));
  }

  /** The loop of Resolve over the candidates. */
  method FirstValid(files: Files, again: string -> Option<string>, candidates: seq<string>) returns (bin: Option<string>)
    ensures bin == Settled(again, First(Validity(files), candidates))
  {
    for i := 0 to |candidates|
      invariant First(Validity(files), candidates[..i]) == None
    {
      FirstStep(Validity(files), candidates, i);
      var ok := IsValid(files, candidates[i]);
      if ok {
        var resolved := again(candidates[i]);
        if resolved.Some? {
          return resolved;
        }
        return Some(Clean(candidates[i]));
      }
    }
    assert candidates[..|candidates|] == candidates;
    return None;
  }

  /** No version is to be had beside the path. */
  predicate NothingBeside(files: Files, path: string) {
    VersionDir(path) == "" ||
    match files.list(VersionDir(path))
    case None => true
    case Some(names) => forall name <- names :: !Valid(files, JoinPath(VersionDir(path), name))
  }

  /** The configured path, the fallback, the saved and the recovered binary, in this order: the
      target of the first that is valid. */
  function Preferred(files: Files, configured: string, fallback: string): Option<string> {
    if Valid(files, TrimSpace(configured)) then files.follow(TrimSpace(configured))
    else if Valid(files, TrimSpace(fallback)) then files.follow(TrimSpace(fallback))
    else if Valid(files, CLAUDE_REAL) then files.follow(CLAUDE_REAL)
    else if Valid(files, RECOVERED) then files.follow(RECOVERED)
    else None
  }

  /** Links lead the second time where they led the first, and no version is to be had. */
  ghost predicate Unversioned(files: Files, again: string -> Option<string>, sort: seq<string> -> seq<string>,
                              configured: string, fallback: string) {
    && (forall p :: again(p) == files.follow(p)) && Sorts(sort)
    && NothingBeside(files, configured) && NothingBeside(files, fallback)
  }

  /** `again` is what following links yields the second time, after the check. */
  method Resolve(files: Files, again: string -> Option<string>, sort: seq<string> -> seq<string>,
                 configured: string, fallback: string)
    returns (bin: Option<string>)
    ensures bin == Settled(again, Pick(Validity(files), Offered(files, sort, configured, fallback)))
    ensures Unversioned(files, again, sort, configured, fallback) ==> bin == Preferred(files, configured, fallback)
  {
    var candidates := CollectCandidates(files, sort, configured, fallback);
    bin := FirstValid(files, again, candidates);
    RepetitionsDoNotMatter(Validity(files), Offered(files, sort, configured, fallback));
    UnversionedPreferred(files, again, sort, configured, fallback);
  }

  function First(valid: string -> bool, paths: seq<string>): Option<string> {
    if paths == [] then None
    else
      var n := |paths| - 1;
      var earlier := First(valid, paths[..n]);
      if earlier.Some? then earlier else if valid(paths[n]) then Some(paths[n]) else None
  }

  lemma {:induction false} FirstStep(valid: string -> bool, paths: seq<string>, i: nat)
    requires i < |paths| && First(valid, paths[..i]) == None
    ensures valid(paths[i]) ==> First(valid, paths) == Some(paths[i])
    ensures !valid(paths[i]) ==> First(valid, paths[..i + 1]) == None
  {
    assert paths[..i + 1][..i] == paths[..i];
    var n := |paths| - 1;
    if i < n {
      assert paths[..n][..i] == paths[..i];
      FirstStep(valid, paths[..n], i);
    } else {
      assert paths[..n] == paths[..i];
    }
  }

  lemma {:induction false} FirstMeans(valid: string -> bool, paths: seq<string>)
    ensures First(valid, paths) == None <==> forall p <- paths :: !valid(p)
  {
    if paths != [] {
      var n := |paths| - 1;
      FirstMeans(valid, paths[..n]);
      assert paths == paths[..n] + [paths[n]];
    }
  }

  /** Dropping blanks and repetitions from the candidates does not change the choice. */
  lemma {:induction false} RepetitionsDoNotMatter(valid: string -> bool, paths: seq<string>)
    requires !valid("")
    ensures First(valid, Collected(paths)) == Pick(valid, paths)
  {
    if paths != [] {
      var n := |paths| - 1;
      var earlier, last := Collected(paths[..n]), TrimSpace(paths[n]);
      RepetitionsDoNotMatter(valid, paths[..n]);
      FirstMeans(valid, earlier);
      if last != "" && last !in earlier {
        assert (earlier + [last])[..|earlier|] == earlier;
      }
    }
  }

  // ------------------------------------------------------------------------------- theorems

  lemma {:induction false} PickMeans(valid: string -> bool, paths: seq<string>)
    ensures Pick(valid, paths) == None <==> forall p <- paths :: !valid(TrimSpace(p))
    ensures Pick(valid, paths).Some? ==> valid(Pick(valid, paths).value)
  {
    if paths != [] {
      var n := |paths| - 1;
      PickMeans(valid, paths[..n]);
      assert paths == paths[..n] + [paths[n]];
    }
  }

  lemma {:induction false} PickHead(valid: string -> bool, paths: seq<string>)
    requires paths != [] && valid(TrimSpace(paths[0]))
    ensures Pick(valid, paths) == Some(TrimSpace(paths[0]))
  {
    if |paths| > 1 { PickHead(valid, paths[..|paths| - 1]); }
  }

  /** When nothing changes between the two calls, Resolve makes this choice. */
  lemma SettledInSnapshot(files: Files, paths: seq<string>)
    ensures Settled(files.follow, Pick(Validity(files), paths)) == Choice(files, paths)
  {
    PickMeans(Validity(files), paths);
  }

  lemma SettledSame(files: Files, again: string -> Option<string>, paths: seq<string>)
    requires forall p :: again(p) == files.follow(p)
    ensures Settled(again, Pick(Validity(files), paths)) == Choice(files, paths)
  {
    PickMeans(Validity(files), paths);
  }

  lemma NothingBesideEmpty(files: Files, sort: seq<string> -> seq<string>, path: string)
    requires Sorts(sort) && NothingBeside(files, path)
    ensures Beside(files, sort, path) == []
  {
    var dir := VersionDir(path);
    if dir != "" && files.list(dir).Some? {
      var names := files.list(dir).value;
      FilterNone(name => Valid(files, JoinPath(dir, name)), names);
      assert ValidNames(files, dir, names) == [];
      assert multiset(sort([])) == multiset([]);
      assert |multiset(sort([]))| == 0;
    }
  }

  lemma PickFour(valid: string -> bool, a: string, b: string, c: string, d: string)
    ensures Pick(valid, [a, b, c, d]) ==
            if valid(TrimSpace(a)) then Some(TrimSpace(a))
            else if valid(TrimSpace(b)) then Some(TrimSpace(b))
            else if valid(TrimSpace(c)) then Some(TrimSpace(c))
            else if valid(TrimSpace(d)) then Some(TrimSpace(d))
            else None
  {
    assert [a, b, c, d][..3] == [a, b, c] && [a, b, c][..2] == [a, b] && [a, b][..1] == [a] && [a][..0] == [];
    assert Pick(valid, [a]) == if valid(TrimSpace(a)) then Some(TrimSpace(a)) else None;
    assert Pick(valid, [a, b]) == if Pick(valid, [a]).Some? then Pick(valid, [a]) else if valid(TrimSpace(b)) then Some(TrimSpace(b)) else None;
    assert Pick(valid, [a, b, c]) == if Pick(valid, [a, b]).Some? then Pick(valid, [a, b]) else if valid(TrimSpace(c)) then Some(TrimSpace(c)) else None;
  }

  lemma LibraryTrimmed(path: string)
    requires path == CLAUDE_REAL || path == RECOVERED
    ensures TrimSpace(path) == path
  {
    PlainEndsTrimmed(path);
  }

  /** Where the saved and the recovered binary are looked for, and what is never executed. */
  lemma OwnPathsAre()
    ensures WRAPPER == "/usr/local/bin/claude"
    ensures METER == "/usr/local/lib/claude-meter/claude-meter"
    ensures CLAUDE_REAL == "/usr/local/lib/claude-meter/claude-real"
    ensures RECOVERED == "/usr/local/lib/claude-meter/claude-recovered"
  {
  }

  /** Without versions on either side, Resolve prefers the configured path, then the fallback,
      then claude-real, then claude-recovered. */
  lemma NoVersionsPreferred(files: Files, sort: seq<string> -> seq<string>, configured: string, fallback: string)
    requires Sorts(sort) && NothingBeside(files, configured) && NothingBeside(files, fallback)
    ensures Choice(files, Offered(files, sort, configured, fallback)) == Preferred(files, configured, fallback)
  {
    NothingBesideEmpty(files, sort, configured);
    NothingBesideEmpty(files, sort, fallback);
    FlatMapNothing(path => Beside(files, sort, path), [configured, fallback]);
    LibraryTrimmed(CLAUDE_REAL);
    LibraryTrimmed(RECOVERED);
    var saved, recovered := CLAUDE_REAL, RECOVERED;
    assert Offered(files, sort, configured, fallback) == [configured, fallback, saved, recovered];
    PickFour(Validity(files), configured, fallback, saved, recovered);
  }

  lemma UnversionedPreferred(files: Files, again: string -> Option<string>, sort: seq<string> -> seq<string>,
                             configured: string, fallback: string)
    ensures Unversioned(files, again, sort, configured, fallback) ==>
              Settled(again, Pick(Validity(files), Offered(files, sort, configured, fallback))) == Preferred(files, configured, fallback)
  {
    if Unversioned(files, again, sort, configured, fallback) {
      SettledSame(files, again, Offered(files, sort, configured, fallback));
      NoVersionsPreferred(files, sort, configured, fallback);
    }
  }

  /** When the picked link vanishes between the two calls, its cleaned spelling is returned,
      and that never spells the wrapper or the meter. */
  lemma VanishedLinkNotBlocked(files: Files, paths: seq<string>, denied: string)
    requires Pick(Validity(files), paths).Some? && denied in BLOCKED
    requires forall p, q :: Clean(p) == Clean(q) ==> files.follow(p) == files.follow(q)
    ensures Clean(Pick(Validity(files), paths).value) != Clean(denied)
  {
    PickMeans(Validity(files), paths);
    var path := Pick(Validity(files), paths).value;
    BlockedMeans(files, files.follow(path).value);
  }

  /** Nothing is found exactly when no offered path is valid. */
  lemma ChoiceFails(files: Files, paths: seq<string>)
    ensures Choice(files, paths) == None <==> forall p <- paths :: !Valid(files, TrimSpace(p))
  {
    PickMeans(Validity(files), paths);
    assert forall p <- paths :: Validity(files)(TrimSpace(p)) == Valid(files, TrimSpace(p));
  }

  /** What is chosen is executable, and neither the wrapper nor the meter by any name. */
  lemma NeverBlocked(files: Files, paths: seq<string>)
    ensures var bin := Choice(files, paths);
            bin.Some? ==>
              && files.executable(bin.value)
              && !Denied(files, bin.value, WRAPPER) && !Denied(files, bin.value, METER)
  {
    PickMeans(Validity(files), paths);
    if Choice(files, paths).Some? { BlockedMeans(files, Choice(files, paths).value); }
  }

  lemma NeverOwn(files: Files, paths: seq<string>)
    ensures var bin := Choice(files, paths);
            bin.Some? ==> files.executable(bin.value) && bin.value != WRAPPER && bin.value != METER
  {
    NeverBlocked(files, paths);
  }

  /** The names of a directory: distinct, and proper names. */
  predicate Listing(names: seq<string>) {
    Distinct(names) && forall name <- names :: IsName(name)
  }

  /** `g` is the newest of `names`. */
  predicate Newest(g: string, names: seq<string>) {
    g in names && forall n <- names :: n != g ==> Newer(g, n)
  }

  function LastField(s: string, sep: char): string {
    Split(s, sep)[|Split(s, sep)| - 1]
  }

  lemma NumericLastField(name: string)
    requires Numeric(name)
    ensures ParseInt(LastField(name, '.')).ok
  {
  }

  lemma NumericEndsInDigit(name: string)
    requires Numeric(name)
    ensures name != "" && IsDigit(name[|name| - 1])
  {
    NumericLastField(name);
    var last := LastField(name, '.');
    ParsedEndsInDigit(last);
    LastFieldEnds(name, '.', last);
  }

  lemma {:induction false} ScannedAllDigits(acc: nat, s: string)
    requires ScanUint(acc, s).Scanned?
    ensures AllDigits(s)
    decreases |s|
  {
    if s != "" {
      ScannedAllDigits(10 * acc + DigitValue(s[0]), s[1..]);
      assert s == [s[0]] + s[1..];
    }
  }

  lemma ParsedEndsInDigit(s: string)
    requires ParseInt(s).ok
    ensures s != "" && IsDigit(s[|s| - 1])
  {
    var body := if s != "" && (s[0] == '-' || s[0] == '+') then s[1..] else s;
    ScannedAllDigits(0, body);
    assert body[|body| - 1] == s[|s| - 1];
  }

  /** A string ends as its last field does. */
  lemma {:induction false} LastFieldEnds(s: string, sep: char, last: string)
    requires last == LastField(s, sep) && last != ""
    ensures s != "" && last[|last| - 1] == s[|s| - 1]
  {
    if s != "" && LastField(s[1..], sep) != "" { LastFieldEnds(s[1..], sep, LastField(s[1..], sep)); }
  }

  lemma PlainEndsTrimmed(path: string)
    requires Rooted(path) && '!' <= path[|path| - 1] <= '~'
    ensures TrimSpace(path) == path
  {
    assert LeadingSpace(path) == 0 && TrailingSpace(path) == 0;
    TrimSpaceFixed(path);
  }

  lemma EndsAlike(s: string, t: string)
    requires EndsWith(s, t) && t != ""
    ensures s[|s| - 1] == t[|t| - 1]
  {
    assert s[|s| - |t|..][|t| - 1] == s[|s| - 1];
  }

  /** A version path in a rooted directory is already trimmed. */
  lemma VersionPathTrimmed(dir: string, name: string, path: string)
    requires Rooted(dir) && IsName(name) && Numeric(name) && path == JoinPath(dir, name)
    ensures TrimSpace(path) == path
  {
    JoinedShape(dir, name);
    NumericEndsInDigit(name);
    EndsAlike(path, name);
    PlainEndsTrimmed(path);
  }

  /** Names that the comparator orders start with the newest once sorted, whatever order they
      came in. */
  lemma SortedNewestFirst(sort: seq<string> -> seq<string>, names: seq<string>)
    requires Sorts(sort) && NoneStraddled(names) && Distinct(names) && names != []
    ensures sort(names) != [] && Newest(sort(names)[0], names)
  {
    OrderExactly(names);
    var sorted := sort(names);
    SameMembers(sorted, names);
    var g := sorted[0];
    forall n | n in names && n != g ensures Newer(g, n) {
      var i :| 0 <= i < |sorted| && sorted[i] == n;
      assert !Newer(sorted[i], sorted[0]);
      NewerTotal(g, n);
    }
  }

  /** So the sorted list is the same for every directory order and every sorting algorithm. */
  lemma VersionListUnique(sort: seq<string> -> seq<string>, other: seq<string> -> seq<string>, a: seq<string>, b: seq<string>)
    requires Sorts(sort) && Sorts(other) && NoneStraddled(a) && multiset(a) == multiset(b)
    ensures sort(a) == other(b)
  {
    SameMembers(a, b);
    OrderExactly(a);
    OrderExactly(b);
    SameMembers(sort(a), a);
    forall x, y | x in sort(a) && y in sort(a) && x != y ensures Newer(x, y) || Newer(y, x) { NewerTotal(x, y); }
    SortUnique(Newer, sort(a), other(b));
  }

  lemma ValidNamesMembers(files: Files, dir: string, names: seq<string>)
    ensures forall n :: n in ValidNames(files, dir, names) <==> n in names && Valid(files, JoinPath(dir, n))
    ensures Distinct(names) ==> Distinct(ValidNames(files, dir, names))
  {
    var keep := (name: string) => Valid(files, JoinPath(dir, name));
    FilterMembers(keep, names);
    if Distinct(names) { FilterDistinct(keep, names); }
  }

  lemma FirstOfFlatMap<T, U>(f: T -> seq<U>, x: T, y: T, tail: seq<U>)
    requires f(x) != []
    ensures var all := FlatMap(f, [x, y]) + tail; all != [] && all[0] == f(x)[0]
  {
    FlatMapOne(f, x);
    FlatMapSnoc(f, [x], y);
    assert [x] + [y] == [x, y];
  }

  lemma OfferedFirst(files: Files, sort: seq<string> -> seq<string>, configured: string, fallback: string)
    requires Beside(files, sort, configured) != []
    ensures Offered(files, sort, configured, fallback)[0] == Beside(files, sort, configured)[0]
  {
    FirstOfFlatMap(path => Beside(files, sort, path), configured, fallback, Defaults(configured, fallback));
  }

  /** The valid entries of the configured path's versions directory. */
  function ValidBeside(files: Files, configured: string, names: seq<string>): seq<string> {
    ValidNames(files, VersionDir(configured), names)
  }

  /** The first offered path is that of the first sorted name. */
  lemma FirstNameOffered(files: Files, sort: seq<string> -> seq<string>, configured: string, fallback: string,
                         names: seq<string>, g: string, path: string)
    requires VersionDir(configured) != "" && files.list(VersionDir(configured)) == Some(names)
    requires var sorted := sort(ValidBeside(files, configured, names)); sorted != [] && sorted[0] == g
    requires path == JoinPath(VersionDir(configured), g)
    ensures var offered := Offered(files, sort, configured, fallback); offered != [] && offered[0] == path
  {
    var dir := VersionDir(configured);
    assert Beside(files, sort, configured) == Joined(dir, sort(ValidNames(files, dir, names)));
    OfferedFirst(files, sort, configured, fallback);
  }

  /** Newest version wins: when the comparator orders the valid names beside the configured
      path, Resolve returns the target of the newest of them, whether or not the configured
      path exists, whatever the fallback is, provided its path has no white space at its ends
      that trimming would remove. */
  lemma NewestVersionWins(files: Files, sort: seq<string> -> seq<string>, configured: string, fallback: string, names: seq<string>)
    returns (g: string, path: string)
    requires Sorts(sort) && VersionDir(configured) != "" && files.list(VersionDir(configured)) == Some(names)
    requires Distinct(names) && ValidBeside(files, configured, names) != []
    requires NoneStraddled(ValidBeside(files, configured, names))
    ensures Newest(g, ValidBeside(files, configured, names)) && path == JoinPath(VersionDir(configured), g)
    ensures TrimSpace(path) == path ==> Choice(files, Offered(files, sort, configured, fallback)) == files.follow(path)
  {
    var beside := ValidBeside(files, configured, names);
    ValidNamesMembers(files, VersionDir(configured), names);
    SortedNewestFirst(sort, beside);
    g := sort(beside)[0];
    path := JoinPath(VersionDir(configured), g);
    FirstNameOffered(files, sort, configured, fallback, names, g, path);
    if TrimSpace(path) == path { FirstChosen(files, Offered(files, sort, configured, fallback), path); }
  }

  lemma FirstChosen(files: Files, paths: seq<string>, path: string)
    requires paths != [] && paths[0] == path && TrimSpace(path) == path && Valid(files, path)
    ensures Choice(files, paths) == files.follow(path)
  {
    PickHead(Validity(files), paths);
  }

  /** In a rooted directory whose valid names all parse no condition on the path is left. */
  lemma NewestNumberWins(files: Files, sort: seq<string> -> seq<string>, configured: string, fallback: string, names: seq<string>)
    returns (g: string)
    requires Sorts(sort) && Rooted(VersionDir(configured)) && files.list(VersionDir(configured)) == Some(names)
    requires Listing(names) && ValidBeside(files, configured, names) != []
    requires AllNumeric(ValidBeside(files, configured, names))
    ensures Newest(g, ValidBeside(files, configured, names))
    ensures Choice(files, Offered(files, sort, configured, fallback)) == files.follow(JoinPath(VersionDir(configured), g))
  {
    var path: string;
    NumericOrdered(ValidBeside(files, configured, names));
    g, path := NewestVersionWins(files, sort, configured, fallback, names);
    ValidNameTrimmed(files, VersionDir(configured), names, g, path);
  }

  lemma ValidNameTrimmed(files: Files, dir: string, names: seq<string>, g: string, path: string)
    requires Rooted(dir) && Listing(names) && AllNumeric(ValidNames(files, dir, names))
    requires g in ValidNames(files, dir, names) && path == JoinPath(dir, g)
    ensures TrimSpace(path) == path
  {
    ValidNamesMembers(files, dir, names);
    VersionPathTrimmed(dir, g, path);
  }

  /** Without a version beside the configured path, the newest beside the fallback comes before
      the configured path itself and everything else. */
  lemma FallbackVersionWins(files: Files, sort: seq<string> -> seq<string>, configured: string, fallback: string, names: seq<string>)
    returns (g: string, path: string)
    requires Sorts(sort) && NothingBeside(files, configured)
    requires VersionDir(fallback) != "" && files.list(VersionDir(fallback)) == Some(names)
    requires Distinct(names) && ValidBeside(files, fallback, names) != []
    requires NoneStraddled(ValidBeside(files, fallback, names))
    ensures Newest(g, ValidBeside(files, fallback, names)) && path == JoinPath(VersionDir(fallback), g)
    ensures TrimSpace(path) == path ==> Choice(files, Offered(files, sort, configured, fallback)) == files.follow(path)
  {
    var beside := ValidBeside(files, fallback, names);
    ValidNamesMembers(files, VersionDir(fallback), names);
    SortedNewestFirst(sort, beside);
    g := sort(beside)[0];
    path := JoinPath(VersionDir(fallback), g);
    NothingBesideEmpty(files, sort, configured);
    FallbackOffered(files, sort, configured, fallback, names, g, path);
    if TrimSpace(path) == path { FirstChosen(files, Offered(files, sort, configured, fallback), path); }
  }

  lemma FallbackOffered(files: Files, sort: seq<string> -> seq<string>, configured: string, fallback: string,
                        names: seq<string>, g: string, path: string)
    requires Beside(files, sort, configured) == []
    requires VersionDir(fallback) != "" && files.list(VersionDir(fallback)) == Some(names)
    requires var sorted := sort(ValidBeside(files, fallback, names)); sorted != [] && sorted[0] == g
    requires path == JoinPath(VersionDir(fallback), g)
    ensures var offered := Offered(files, sort, configured, fallback); offered != [] && offered[0] == path
  {
    var dir := VersionDir(fallback);
    assert Beside(files, sort, fallback) == Joined(dir, sort(ValidNames(files, dir, names)));
    SecondOfFlatMap(p => Beside(files, sort, p), configured, fallback, Defaults(configured, fallback));
  }

  lemma SecondOfFlatMap<T, U>(f: T -> seq<U>, x: T, y: T, tail: seq<U>)
    requires f(x) == [] && f(y) != []
    ensures var all := FlatMap(f, [x, y]) + tail; all != [] && all[0] == f(y)[0]
  {
    FlatMapOne(f, x);
    FlatMapSnoc(f, [x], y);
    assert [x] + [y] == [x, y];
  }

  /** Versions are looked for beside a path exactly when its directory is called versions. */
  lemma VersionDirMeans(front: string, base: string, name: string, path: string)
    requires Tame(front) && IsName(base) && IsName(name)
    requires path == front + "/" + base + "/" + name && TrimSpace(path) == path
    ensures VersionDir(path) == if base == "versions" then front + "/" + base else ""
  {
    var dir := front + "/" + base;
    TameAppend(front, base, dir);
    DirAndBase(dir, name);
    DirAndBase(front, base);
  }
}
