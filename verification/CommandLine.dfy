/** The command line of `claude-meter launch`: options in several spellings, then Claude's
    own arguments. */
module CommandLine {
  import opened Wrappers
  import opened Seqs
  import opened Texts

  const DEFAULT_CONFIG := "/etc/claude-meter/launcher.json"

  datatype Kind = Config | Fallback

  /** One accepted option in one of its accepted spellings. */
  datatype Opt = Opt(kind: Kind, twoDashes: bool, joined: bool, value: string)

  function Flag(kind: Kind, twoDashes: bool): string {
    match (kind, twoDashes)
    case (Config, false) => "-config"
    case (Config, true) => "--config"
    case (Fallback, false) => "-fallback-bin"
    case (Fallback, true) => "--fallback-bin"
  }

  function Spell(o: Opt): seq<string> {
    if o.joined then [Flag(o.kind, o.twoDashes) + "=" + o.value] else [Flag(o.kind, o.twoDashes), o.value]
  }

  function SpellAll(opts: seq<Opt>): seq<string> {
    if opts == [] then [] else Spell(opts[0]) + SpellAll(opts[1..])
  }

  /** The value of the last option of a kind, or the default. */
  function LastValue(opts: seq<Opt>, kind: Kind, default: string): string {
    if opts == [] then default
    else LastValue(opts[1..], kind, if opts[0].kind == kind then opts[0].value else default)
  }

  /** The option `args` starts with, if there is one and it is complete. */
  function FirstOpt(args: seq<string>): Option<Opt> {
    if args == [] || args[0] == "--" then None
    else if args[0] == "-config" || args[0] == "--config" then
      if |args| < 2 then None else Some(Opt(Config, args[0] == "--config", false, args[1]))
    else if HasPrefix(args[0], "-config=") then
      Some(Opt(Config, false, true, TrimPrefix(args[0], "-config=")))
    else if HasPrefix(args[0], "--config=") then
      Some(Opt(Config, true, true, TrimPrefix(args[0], "--config=")))
    else if args[0] == "-fallback-bin" || args[0] == "--fallback-bin" then
      if |args| < 2 then None else Some(Opt(Fallback, args[0] == "--fallback-bin", false, args[1]))
    else if HasPrefix(args[0], "-fallback-bin=") then
      Some(Opt(Fallback, false, true, TrimPrefix(args[0], "-fallback-bin=")))
    else if HasPrefix(args[0], "--fallback-bin=") then
      Some(Opt(Fallback, true, true, TrimPrefix(args[0], "--fallback-bin=")))
    else None
  }

  /** How many arguments an option takes up. */
  function Width(o: Opt): nat {
    if o.joined then 1 else 2
  }

  lemma FirstOptFits(args: seq<string>)
    ensures FirstOpt(args).Some? ==> Width(FirstOpt(args).value) <= |args|
  {
  }

  /** The complete options at the head of the arguments. */
  function Options(args: seq<string>): seq<Opt>
    decreases |args|
  {
    match FirstOpt(args)
    case None => []
    case Some(o) =>
      FirstOptFits(args);
      [o] + Options(args[Width(o)..])
  }

  /** What is left after them. */
  function Unread(args: seq<string>): seq<string>
    decreases |args|
  {
    match FirstOpt(args)
    case None => args
    case Some(o) =>
      FirstOptFits(args);
      Unread(args[Width(o)..])
  }

  /** Claude's own arguments: a `--` that ends the options is dropped. */
  function Passed(unread: seq<string>): seq<string> {
    if unread != [] && unread[0] == "--" then unread[1..] else unread
  }

  method ParseLaunchArgs(arguments: seq<string>) returns (cfgPath: string, fallback: string, rest: seq<string>)
    ensures cfgPath == LastValue(Options(arguments), Config, DEFAULT_CONFIG)
    ensures fallback == LastValue(Options(arguments), Fallback, "")
    ensures rest == Passed(Unread(arguments))
  {
    cfgPath, fallback := DEFAULT_CONFIG, "";
    var args := arguments;
    while |args| > 0
      invariant LastValue(Options(args), Config, cfgPath) == LastValue(Options(arguments), Config, DEFAULT_CONFIG)
      invariant LastValue(Options(args), Fallback, fallback) == LastValue(Options(arguments), Fallback, "")
      invariant Unread(args) == Unread(arguments)
      decreases |args|
    {
      if args[0] == "--" {
        return cfgPath, fallback, args[1..];
      } else if args[0] == "-config" || args[0] == "--config" {
        if |args| < 2 {
          return cfgPath, fallback, args;
        }
        cfgPath := args[1];
        args := args[2..];
      } else if HasPrefix(args[0], "-config=") {
        cfgPath := TrimPrefix(args[0], "-config=");
        args := args[1..];
      } else if HasPrefix(args[0], "--config=") {
        cfgPath := TrimPrefix(args[0], "--config=");
        args := args[1..];
      } else if args[0] == "-fallback-bin" || args[0] == "--fallback-bin" {
        if |args| < 2 {
          return cfgPath, fallback, args;
        }
        fallback := args[1];
        args := args[2..];
      } else if HasPrefix(args[0], "-fallback-bin=") {
        fallback := TrimPrefix(args[0], "-fallback-bin=");
        args := args[1..];
      } else if HasPrefix(args[0], "--fallback-bin=") {
        fallback := TrimPrefix(args[0], "--fallback-bin=");
        args := args[1..];
      } else {
        return cfgPath, fallback, args;
      }
    }
    return cfgPath, fallback, [];
  }

  lemma PrefixRestored(arg: string, p: string)
    requires HasPrefix(arg, p)
    ensures arg == p + TrimPrefix(arg, p)
  {
  }

  lemma FlagWithEquals(kind: Kind, twoDashes: bool)
    ensures Flag(kind, twoDashes) + "=" ==
            match (kind, twoDashes)
            case (Config, false) => "-config="
            case (Config, true) => "--config="
            case (Fallback, false) => "-fallback-bin="
            case (Fallback, true) => "--fallback-bin="
  {
  }

  /** Reading an option consumes exactly its spelling. */
  lemma FirstOptSpelled(args: seq<string>)
    ensures FirstOpt(args).Some? ==> Spell(FirstOpt(args).value) <= args
  {
    if FirstOpt(args).Some? && FirstOpt(args).value.joined {
      var o := FirstOpt(args).value;
      FlagWithEquals(o.kind, o.twoDashes);
      PrefixRestored(args[0], Flag(o.kind, o.twoDashes) + "=");
    }
  }

  lemma PrefixStripped(p: string, v: string)
    ensures HasPrefix(p + v, p) && TrimPrefix(p + v, p) == v
  {
  }

  lemma NotPrefix(s: string, p: string, i: nat)
    requires i < |s| && i < |p| && s[i] != p[i]
    ensures !HasPrefix(s, p)
  {
  }

  lemma JoinedRead(kind: Kind, twoDashes: bool, v: string, args: seq<string>)
    requires |args| >= 1 && args[0] == Flag(kind, twoDashes) + "=" + v
    ensures FirstOpt(args) == Some(Opt(kind, twoDashes, true, v))
  {
    var arg := args[0];
    PrefixStripped(Flag(kind, twoDashes) + "=", v);
    match (kind, twoDashes)
    case (Config, false) =>
      assert "-config" + "=" == "-config=";
      assert arg[1] == 'c';
    case (Config, true) =>
      assert "--config" + "=" == "--config=";
      NotPrefix(arg, "-config=", 1);
    case (Fallback, false) =>
      assert "-fallback-bin" + "=" == "-fallback-bin=";
      NotPrefix(arg, "-config=", 1);
      NotPrefix(arg, "--config=", 1);
    case (Fallback, true) =>
      assert "--fallback-bin" + "=" == "--fallback-bin=";
      NotPrefix(arg, "-config=", 1);
      NotPrefix(arg, "--config=", 2);
      NotPrefix(arg, "-fallback-bin=", 1);
  }

  lemma SeparateRead(kind: Kind, twoDashes: bool, v: string, args: seq<string>)
    requires |args| >= 2 && args[0] == Flag(kind, twoDashes) && args[1] == v
    ensures FirstOpt(args) == Some(Opt(kind, twoDashes, false, v))
  {
    var arg := args[0];
    match (kind, twoDashes)
    case (Config, false) =>
    case (Config, true) =>
    case (Fallback, false) =>
      assert arg[1] == 'f';
      NotPrefix(arg, "-config=", 1);
      NotPrefix(arg, "--config=", 1);
    case (Fallback, true) =>
      assert arg[2] == 'f';
      NotPrefix(arg, "-config=", 1);
      NotPrefix(arg, "--config=", 2);
  }

  lemma SpelledOptRead(o: Opt, rest: seq<string>)
    ensures FirstOpt(Spell(o) + rest) == Some(o)
  {
    var args := Spell(o) + rest;
    if o.joined {
      JoinedRead(o.kind, o.twoDashes, o.value, args);
    } else {
      SeparateRead(o.kind, o.twoDashes, o.value, args);
    }
  }

  lemma PutBack<T>(head: seq<T>, middle: seq<T>, tail: seq<T>, all: seq<T>)
    requires head <= all && all[|head|..] == middle + tail
    ensures all == (head + middle) + tail
  {
  }

  /** Whatever the arguments are, they are the options read followed by what is left; so the
      arguments passed on are a suffix of the input, and nothing is read twice. */
  lemma {:induction false} NothingIsLost(args: seq<string>)
    ensures args == SpellAll(Options(args)) + Unread(args)
    decreases |args|
  {
    FirstOptSpelled(args);
    var first := FirstOpt(args);
    if first.Some? {
      FirstOptFits(args);
      var rest := args[Width(first.value)..];
      NothingIsLost(rest);
      SpellCons(first.value, Options(rest));
      PutBack(Spell(first.value), SpellAll(Options(rest)), Unread(rest), args);
    }
  }

  lemma SpellCons(o: Opt, opts: seq<Opt>)
    ensures SpellAll([o] + opts) == Spell(o) + SpellAll(opts)
  {
    assert ([o] + opts)[1..] == opts;
  }

  /** The reading stops only where no complete option starts. */
  lemma {:induction false} ReadingStops(args: seq<string>)
    ensures FirstOpt(Unread(args)).None?
    decreases |args|
  {
    if FirstOpt(args).Some? {
      FirstOptFits(args);
      ReadingStops(args[Width(FirstOpt(args).value)..]);
    }
  }

  /** Every list of options in any spelling is read back, up to whatever ends it. */
  lemma {:induction false} OptionsReadBack(opts: seq<Opt>, tail: seq<string>)
    requires FirstOpt(tail).None?
    ensures Options(SpellAll(opts) + tail) == opts && Unread(SpellAll(opts) + tail) == tail
  {
    if opts == [] {
      assert SpellAll(opts) + tail == tail;
    } else {
      var o, rest := opts[0], SpellAll(opts[1..]) + tail;
      OptionsReadBack(opts[1..], tail);
      Associative(Spell(o), SpellAll(opts[1..]), tail);
      SpelledOptRead(o, rest);
      assert (Spell(o) + rest)[Width(o)..] == rest;
    }
  }

  /** Options, then `--`, then anything: the last value of each option counts, and Claude
      gets exactly what follows the `--`. */
  lemma Passthrough(opts: seq<Opt>, rest: seq<string>)
    ensures var args := SpellAll(opts) + (["--"] + rest);
            && LastValue(Options(args), Config, DEFAULT_CONFIG) == LastValue(opts, Config, DEFAULT_CONFIG)
            && LastValue(Options(args), Fallback, "") == LastValue(opts, Fallback, "")
            && Passed(Unread(args)) == rest
  {
    OptionsReadBack(opts, ["--"] + rest);
  }

  /** The command line the generated wrapper builds is read back as meant, whatever the
      binary is called and whatever the user's arguments are. */
  lemma WrapperCommandLine(config: string, binary: string, rest: seq<string>)
    ensures var args := ["-config", config, "-fallback-bin", binary, "--"] + rest;
            && LastValue(Options(args), Config, DEFAULT_CONFIG) == config
            && LastValue(Options(args), Fallback, "") == binary
            && Passed(Unread(args)) == rest
  {
    var first, second := Opt(Config, false, false, config), Opt(Fallback, false, false, binary);
    var opts := [first, second];
    SpellCons(second, []);
    SpellCons(first, [second]);
    assert [second] + [] == [second] && [first] + [second] == opts;
    assert SpellAll(opts) + (["--"] + rest) == ["-config", config, "-fallback-bin", binary, "--"] + rest;
    Passthrough(opts, rest);
    LastValueIsLast([], first, [second], DEFAULT_CONFIG);
    LastValueIsLast([first], second, [], "");
    assert [] + [first] + [second] == opts && [first] + [second] + [] == opts;
  }

  lemma {:induction false} LastValueIsLast(a: seq<Opt>, o: Opt, b: seq<Opt>, default: string)
    requires forall x <- b :: x.kind != o.kind
    ensures LastValue(a + [o] + b, o.kind, default) == o.value
    decreases |a| + |b|
  {
    var all := a + [o] + b;
    if a != [] {
      assert all[1..] == a[1..] + [o] + b;
      LastValueIsLast(a[1..], o, b, if a[0].kind == o.kind then a[0].value else default);
    } else {
      assert all[1..] == b && all[0] == o;
      NoneOfKind(b, o.kind, o.value);
    }
  }

  lemma {:induction false} NoneOfKind(b: seq<Opt>, kind: Kind, default: string)
    requires forall x <- b :: x.kind != kind
    ensures LastValue(b, kind, default) == default
  {
    if b != [] { NoneOfKind(b[1..], kind, default); }
  }

  /** The argument is no option in any spelling, and does not end the options either. */
  predicate NoOption(arg: string) {
    && arg !in {"--", "-config", "--config", "-fallback-bin", "--fallback-bin"}
    && !HasPrefix(arg, "-config=") && !HasPrefix(arg, "--config=")
    && !HasPrefix(arg, "-fallback-bin=") && !HasPrefix(arg, "--fallback-bin=")
  }

  /** The first argument that is no option ends the options and is passed on with the rest. */
  lemma FirstArgumentEnds(opts: seq<Opt>, arg: string, rest: seq<string>)
    requires NoOption(arg)
    ensures var args := SpellAll(opts) + ([arg] + rest);
            && Options(args) == opts
            && Passed(Unread(args)) == [arg] + rest
  {
    OptionsReadBack(opts, [arg] + rest);
  }

  /** An option without its value is passed on, and no arguments leave none. */
  lemma LoneOptionPassed(opts: seq<Opt>, kind: Kind, twoDashes: bool)
    ensures Passed(Unread(SpellAll(opts) + [Flag(kind, twoDashes)])) == [Flag(kind, twoDashes)]
    ensures Passed(Unread(SpellAll(opts))) == []
  {
    LoneFlag(kind, twoDashes);
    OptionsReadBack(opts, [Flag(kind, twoDashes)]);
    OptionsReadBack(opts, []);
    assert SpellAll(opts) + [] == SpellAll(opts);
  }

  lemma LoneFlag(kind: Kind, twoDashes: bool)
    ensures FirstOpt([Flag(kind, twoDashes)]).None? && Flag(kind, twoDashes) != "--"
  {
    var arg := Flag(kind, twoDashes);
    match (kind, twoDashes)
    case (Config, false) =>
    case (Config, true) =>
    case (Fallback, false) =>
      NotPrefix(arg, "-config=", 1);
      NotPrefix(arg, "--config=", 1);
    case (Fallback, true) =>
      NotPrefix(arg, "-config=", 1);
      NotPrefix(arg, "--config=", 2);
  }

  /** Without options the configuration is read from its usual place, and there is no fallback. */
  lemma DefaultsStand(rest: seq<string>)
    ensures LastValue(Options(["--"] + rest), Config, DEFAULT_CONFIG) == "/etc/claude-meter/launcher.json"
    ensures LastValue(Options(["--"] + rest), Fallback, "") == ""
  {
  }
}
