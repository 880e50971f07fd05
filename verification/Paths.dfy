/** Slash-separated paths as Go's path/filepath treats them on Unix. */
module Paths {
  import opened Texts

  /** The elements of a path once empty and "." elements are gone and each ".." has removed
      the element before it; a rooted path has nothing above its root. */
  function Resolved(parts: seq<string>, rooted: bool): seq<string> {
    if parts == [] then []
    else
      var n := |parts| - 1;
      var above, part := Resolved(parts[..n], rooted), parts[n];
      if part == "" || part == "." then above
      else if part != ".." then above + [part]
      else if above != [] && above[|above| - 1] != ".." then above[..|above| - 1]
      else if rooted then above
      else above + [part]
  }

  predicate Rooted(path: string) {
    path != "" && path[0] == '/'
  }

  function Elements(path: string): seq<string> {
    Resolved(Split(path, '/'), Rooted(path))
  }

  /** filepath.Clean. */
  function Clean(path: string): string {
    var elements := Elements(path);
    if Rooted(path) then "/" + Join(elements, "/")
    else if elements == [] then "."
    else Join(elements, "/")
  }

  /** The length of the path up to and including its last slash. */
  function LastSlash(path: string): (n: nat)
    ensures n <= |path|
  {
    if path == "" then 0
    else if path[|path| - 1] == '/' then |path|
    else LastSlash(path[..|path| - 1])
  }

  lemma {:induction false} LastSlashOf(dir: string, name: string)
    requires '/' !in name
    ensures LastSlash(dir + "/" + name) == |dir| + 1
  {
    var path := dir + "/" + name;
    if name != "" {
      assert path[..|path| - 1] == dir + "/" + name[..|name| - 1];
      LastSlashOf(dir, name[..|name| - 1]);
    }
  }

  /** filepath.Dir. */
  function Dir(path: string): string {
    Clean(path[..LastSlash(path)])
  }

  function StripSlashes(path: string): string {
    if path != "" && path[|path| - 1] == '/' then StripSlashes(path[..|path| - 1]) else path
  }

  /** filepath.Base. */
  function Base(path: string): string {
    if path == "" then "."
    else
      var stripped := StripSlashes(path);
      if stripped == "" then "/" else stripped[LastSlash(stripped)..]
  }

  /** filepath.Join of a directory and a name. */
  function JoinPath(dir: string, name: string): string {
    if dir == "" && name == "" then ""
    else if dir == "" then Clean(name)
    else if name == "" then Clean(dir)
    else Clean(dir + "/" + name)
  }

  /** A name that stands for itself in a path. */
  predicate IsName(name: string) {
    name != "" && name != "." && name != ".." && '/' !in name
  }

  /** Joining a directory and a name appends the name as the last element. */
  lemma JoinAppends(dir: string, name: string)
    requires dir != "" && IsName(name)
    ensures Rooted(dir + "/" + name) == Rooted(dir)
    ensures Elements(dir + "/" + name) == Elements(dir) + [name]
  {
    SplitAtSeparator(dir, name, '/');
    SplitAtom(name, '/');
    var parts := Split(dir, '/');
    assert dir + ['/'] + name == dir + "/" + name;
    assert (parts + [name])[..|parts|] == parts;
  }

  lemma {:induction false} JoinLast(parts: seq<string>, name: string)
    ensures exists front :: Join(parts + [name], "/") == front + name
  {
    if parts == [] {
      assert Join([name], "/") == "" + name;
    } else {
      var all := parts + [name];
      assert all[1..] == parts[1..] + [name] && all[0] == parts[0];
      JoinLast(parts[1..], name);
      var front :| Join(parts[1..] + [name], "/") == front + name;
      assert Join(all, "/") == (parts[0] + "/" + front) + name;
    }
  }

  predicate EndsWith(s: string, t: string) {
    |t| <= |s| && s[|s| - |t|..] == t
  }

  /** In a rooted directory the joined path starts with a slash and ends with the name. */
  lemma JoinedShape(dir: string, name: string)
    requires Rooted(dir) && IsName(name)
    ensures Rooted(JoinPath(dir, name)) && EndsWith(JoinPath(dir, name), name)
  {
    JoinAppends(dir, name);
    JoinLast(Elements(dir), name);
    var joined := Join(Elements(dir) + [name], "/");
    assert JoinPath(dir, name) == "/" + joined;
    var front :| joined == front + name;
    assert ("/" + joined)[1 + |front|..] == name;
  }

  /** A clean rooted path with at least one element. */
  predicate Tame(path: string) {
    Rooted(path) && Elements(path) != [] && Clean(path) == path
  }

  lemma {:induction false} JoinSnoc(parts: seq<string>, name: string)
    requires parts != []
    ensures Join(parts + [name], "/") == Join(parts, "/") + "/" + name
  {
    assert (parts + [name])[1..] == parts[1..] + [name];
    if |parts| > 1 { JoinSnoc(parts[1..], name); }
  }

  lemma TameName(name: string)
    requires IsName(name)
    ensures Tame("/" + name)
  {
    SplitAtSeparator("", name, '/');
    SplitAtom(name, '/');
    assert "" + ['/'] + name == "/" + name;
    assert Split("/" + name, '/') == ["", name];
    assert ["", name][..1] == [""] && [""][..0] == [];
    assert Resolved([""], true) == [];
  }

  lemma TameAppend(dir: string, name: string, path: string)
    requires Tame(dir) && IsName(name) && path == dir + "/" + name
    ensures Tame(path)
  {
    JoinAppends(dir, name);
    JoinSnoc(Elements(dir), name);
    CleanRooted(dir);
    CleanRooted(path);
    Regroup("/", Join(Elements(dir), "/"), "/", name);
  }

  lemma CleanRooted(path: string)
    requires Rooted(path)
    ensures Clean(path) == "/" + Join(Elements(path), "/")
  {
  }

  lemma Regroup(a: string, b: string, c: string, d: string)
    ensures (a + b) + c + d == a + (b + c + d)
  {
  }

  lemma TameFour(a: string, b: string, c: string, d: string, path: string)
    requires IsName(a) && IsName(b) && IsName(c) && IsName(d)
    requires path == "/" + a + "/" + b + "/" + c + "/" + d
    ensures Tame(path)
  {
    TameName(a);
    TameAppend("/" + a, b, "/" + a + "/" + b);
    TameAppend("/" + a + "/" + b, c, "/" + a + "/" + b + "/" + c);
    TameAppend("/" + a + "/" + b + "/" + c, d, path);
  }

  // ----------------------------------------------------------------------- special elements

  /** One more element: empty and "." change nothing, ".." takes the last one away. */
  lemma OneMoreElement(dir: string, part: string)
    requires dir != "" && '/' !in part
    ensures Rooted(dir + "/" + part) == Rooted(dir)
    ensures Elements(dir + "/" + part) == Resolved(Split(dir, '/') + [part], Rooted(dir))
  {
    SplitAtSeparator(dir, part, '/');
    SplitAtom(part, '/');
    assert dir + ['/'] + part == dir + "/" + part;
  }

  lemma EmptyAndDot(dir: string, part: string)
    requires dir != "" && (part == "" || part == ".")
    ensures Clean(dir + "/" + part) == Clean(dir)
  {
    OneMoreElement(dir, part);
    var parts := Split(dir, '/');
    assert (parts + [part])[..|parts|] == parts;
  }

  /** A name followed by ".." is as if neither were there. */
  lemma NameAndParent(dir: string, name: string, parent: string)
    requires dir != "" && IsName(name) && parent == ".."
    ensures Clean(dir + "/" + name + "/" + parent) == Clean(dir)
  {
    JoinAppends(dir, name);
    OneMoreElement(dir + "/" + name, parent);
    var parts := Split(dir + "/" + name, '/');
    assert (parts + [parent])[..|parts|] == parts;
    var above := Elements(dir + "/" + name);
    assert above[..|above| - 1] == Elements(dir);
  }

  /** Above the root there is only the root; a relative path keeps a leading "..". */
  lemma ParentOfNothing(dir: string, parent: string)
    requires dir != "" && parent == ".." && Elements(dir) == []
    ensures Elements(dir + "/" + parent) == if Rooted(dir) then [] else [parent]
  {
    OneMoreElement(dir, parent);
    var parts := Split(dir, '/');
    assert (parts + [parent])[..|parts|] == parts;
  }

  /** The directory of a path inside a clean directory, and its last element. */
  lemma DirAndBase(dir: string, name: string)
    requires Tame(dir) && IsName(name)
    ensures Dir(dir + "/" + name) == dir && Base(dir + "/" + name) == name
  {
    var path := dir + "/" + name;
    LastSlashOf(dir, name);
    EmptyAndDot(dir, "");
    assert path[..|dir| + 1] == dir + "/" + "";
    assert path[|path| - 1] == name[|name| - 1] && name[|name| - 1] in name;
    assert StripSlashes(path) == path && path[|dir| + 1..] == name;
  }
}
