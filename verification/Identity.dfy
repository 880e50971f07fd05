/** Writing OTEL_RESOURCE_ATTRIBUTES: percent escapes, and the meter's own entries merged
    into an existing list. The output is read again, by the OpenTelemetry SDK and by the
    launcher itself when launches nest. */
module Identity {
  import opened Seqs
  import opened Texts

  datatype Identity = Identity(person: string, device: string, nodeId: string, sourceIp: string)

  predicate IsByte(c: char) {
    c as int < 256
  }

  predicate IsBytes(s: string) {
    forall c <- s :: IsByte(c)
  }

  // ---------------------------------------------------------------- percent escapes

  /** The bytes otelEscape replaces: space and below, 0x7F and above, and "',;\= . */
  predicate MustEscape(c: char) {
    c <= ' ' || c >= '\U{7F}' || c in "\"',;\\="
  }

  function HexDigit(n: nat): char
    requires n < 16
  {
    "0123456789ABCDEF"[n]
  }

  function EscapeByte(c: char): string {
    if MustEscape(c) then ['%', HexDigit(c as int / 16 % 16), HexDigit(c as int % 16)] else [c]
  }

  function Escape(v: string): string {
    if v == "" then "" else EscapeByte(v[0]) + Escape(v[1..])
  }

  method OtelEscape(v: string) returns (b: string)
    ensures b == Escape(v)
  {
    b := "";
    for i := 0 to |v|
      invariant b + Escape(v[i..]) == Escape(v)
    {
      var c := v[i];
      assert v[i..][1..] == v[i + 1..];
      Associative(b, EscapeByte(c), Escape(v[i + 1..]));
      if MustEscape(c) {
        b := b + ['%', HexDigit(c as int / 16 % 16), HexDigit(c as int % 16)];
        continue;
      }
      b := b + [c];
    }
    assert v[|v|..] == "";
  }

  predicate IsHex(c: char) {
    '0' <= c <= '9' || 'A' <= c <= 'F' || 'a' <= c <= 'f'
  }

  function HexValue(c: char): (n: nat)
    requires IsHex(c)
    ensures n < 16
  {
    if c <= '9' then c as int - '0' as int
    else if c <= 'F' then c as int - 'A' as int + 10
    else c as int - 'a' as int + 10
  }

  predicate StartsWithEscape(s: string) {
    |s| >= 3 && s[0] == '%' && IsHex(s[1]) && IsHex(s[2])
  }

  /** A lenient percent decoder (section 2.1 of RFC 3986): a `%` that starts no escape stays. */
  function Unescape(s: string): string {
    if s == "" then ""
    else if StartsWithEscape(s) then [(16 * HexValue(s[1]) + HexValue(s[2])) as char] + Unescape(s[3..])
    else [s[0]] + Unescape(s[1..])
  }

  lemma HexRoundTrip(c: char)
    requires IsByte(c)
    ensures IsHex(HexDigit(c as int / 16 % 16)) && IsHex(HexDigit(c as int % 16))
    ensures 16 * HexValue(HexDigit(c as int / 16 % 16)) + HexValue(HexDigit(c as int % 16)) == c as int
  {
    HexDigits(c as int / 16 % 16);
    HexDigits(c as int % 16);
  }

  lemma HexDigits(n: nat)
    requires n < 16
    ensures IsHex(HexDigit(n)) && HexValue(HexDigit(n)) == n
  {
  }

  /** A hex digit at the head of an escaped string was there before. */
  lemma EscapeHead(w: string)
    requires Escape(w) != "" && IsHex(Escape(w)[0])
    ensures w != "" && w[0] == Escape(w)[0] && Escape(w)[1..] == Escape(w[1..])
  {
  }

  lemma NoNewEscape(v: string)
    requires v != "" && v[0] == '%' && !StartsWithEscape(v)
    ensures !StartsWithEscape(Escape(v))
  {
    assert Escape(v) == "%" + Escape(v[1..]);
    assert Escape(v)[1..] == Escape(v[1..]);
    if StartsWithEscape(Escape(v)) {
      EscapeHead(v[1..]);
      EscapeHead(v[2..]) by { assert v[1..][1..] == v[2..]; }
    }
  }

  lemma EscapeStep(v: string)
    requires v != "" && (v[0] == '%' || IsHex(v[0]))
    ensures Escape(v) == [v[0]] + Escape(v[1..])
  {
  }

  lemma EscapeTriple(v: string)
    requires StartsWithEscape(v)
    ensures Escape(v) == [v[0], v[1], v[2]] + Escape(v[3..])
  {
    var w, x := v[1..], v[2..];
    assert w[1..] == x && x[1..] == v[3..] && w[0] == v[1] && x[0] == v[2];
    EscapeStep(v);
    EscapeStep(w);
    EscapeStep(x);
  }

  /** Decoding what otelEscape writes is decoding the value itself: a `%` is not escaped. */
  lemma {:induction false} DecodeEscape(v: string)
    requires IsBytes(v)
    ensures Unescape(Escape(v)) == Unescape(v)
    decreases |v|
  {
    if v != "" {
      var e := Escape(v);
      if StartsWithEscape(v) {
        DecodeEscape(v[3..]);
        EscapeTriple(v);
        assert e[3..] == Escape(v[3..]);
      } else {
        DecodeEscape(v[1..]);
        if MustEscape(v[0]) {
          HexRoundTrip(v[0]);
          assert e[3..] == Escape(v[1..]);
        } else {
          assert e[1..] == Escape(v[1..]);
          if v[0] == '%' { NoNewEscape(v); }
        }
      }
    }
  }

  /** Some `%` is followed by two hex digits. */
  predicate HasEscape(v: string) {
    exists i | 0 <= i < |v| :: StartsWithEscape(v[i..])
  }

  lemma HasEscapeStep(v: string)
    requires v != ""
    ensures HasEscape(v) <==> StartsWithEscape(v) || HasEscape(v[1..])
  {
    assert v[0..] == v;
    if i :| 0 <= i < |v| && StartsWithEscape(v[i..]) {
      if i > 0 { assert v[1..][i - 1..] == v[i..]; }
    }
    if i :| 0 <= i < |v[1..]| && StartsWithEscape(v[1..][i..]) {
      assert v[1..][i..] == v[i + 1..];
    }
  }

  lemma {:induction false} DecodeFixed(v: string)
    ensures |Unescape(v)| <= |v|
    ensures Unescape(v) == v <==> !HasEscape(v)
    ensures HasEscape(v) ==> |Unescape(v)| < |v|
    decreases |v|
  {
    if v != "" {
      HasEscapeStep(v);
      if StartsWithEscape(v) {
        DecodeFixed(v[3..]);
      } else {
        DecodeFixed(v[1..]);
        assert v == [v[0]] + v[1..];
      }
    }
  }

  /** So a value is read back unchanged exactly when it contains no `%` followed by two hex
      digits. */
  lemma EscapeReadsBack(v: string)
    requires IsBytes(v)
    ensures Unescape(Escape(v)) == v <==> !HasEscape(v)
  {
    DecodeEscape(v);
    DecodeFixed(v);
  }

  /** Printable, and none of the bytes that separate entries or need quoting. */
  predicate Plain(c: char) {
    '!' <= c <= '~' && c !in "\"',;\\="
  }

  lemma {:induction false} EscapeIsPlain(v: string)
    ensures forall c <- Escape(v) :: Plain(c)
  {
    if v != "" {
      EscapeIsPlain(v[1..]);
      HexDigitIsPlain(v[0] as int / 16 % 16);
      HexDigitIsPlain(v[0] as int % 16);
      assert forall c <- EscapeByte(v[0]) :: Plain(c);
    }
  }

  lemma HexDigitIsPlain(n: nat)
    requires n < 16
    ensures Plain(HexDigit(n))
  {
    HexDigits(n);
  }

  // ------------------------------------------------------------- resource attributes

  /** The key of an entry names one of the meter's own attributes. */
  predicate IsMeterEntry(part: string) {
    HasPrefix(Before(part, '='), "meter.")
  }

  /** What one comma-separated part of the existing list contributes. */
  function KeepPart(part: string): seq<string> {
    var p := TrimSpace(part);
    if p == "" || IsMeterEntry(p) then [] else [p]
  }

  function KeptEntries(existing: string): seq<string> {
    FlatMap(KeepPart, Split(existing, ','))
  }

  function MeterEntry(name: string, v: string): string {
    "meter." + name + "=" + Escape(v)
  }

  function MeterEntries(id: Identity): seq<string> {
    [MeterEntry("person", id.person), MeterEntry("device", id.device)] +
    (if id.nodeId != "" then [MeterEntry("node_id", id.nodeId)] else []) +
    (if id.sourceIp != "" then [MeterEntry("source_ip", id.sourceIp)] else [])
  }

  function Entries(id: Identity, existing: string): seq<string> {
    KeptEntries(existing) + MeterEntries(id)
  }

  /** The value of OTEL_RESOURCE_ATTRIBUTES. */
  function Attributes(id: Identity, existing: string): string {
    Join(Entries(id, existing), ",")
  }

  method ResourceAttributes(id: Identity, existing: string) returns (joined: string)
    ensures joined == Attributes(id, existing)
  {
    var parts := Split(existing, ',');
    var kept: seq<string> := [];
    for i := 0 to |parts|
      invariant kept == FlatMap(KeepPart, parts[..i])
    {
      FlatMapTake(KeepPart, parts, i);
      var part := TrimSpace(parts[i]);
      if part == "" { continue; }
      var key := Before(part, '=');
      if HasPrefix(key, "meter.") { continue; }
      kept := kept + [part];
    }
    assert parts[..|parts|] == parts;
    var own := OwnEntries(id);
    joined := Join(kept + own, ",");
  }

  /** The appends after the loop. */
  method OwnEntries(id: Identity) returns (own: seq<string>)
    ensures own == MeterEntries(id)
  {
    var person := OtelEscape(id.person);
    var device := OtelEscape(id.device);
    own := ["meter." + "person" + "=" + person, "meter." + "device" + "=" + device];
    if id.nodeId != "" {
      var nodeId := OtelEscape(id.nodeId);
      own := own + ["meter." + "node_id" + "=" + nodeId];
    }
    if id.sourceIp != "" {
      var sourceIp := OtelEscape(id.sourceIp);
      own := own + ["meter." + "source_ip" + "=" + sourceIp];
    }
  }

  /** An entry survives another pass: it is trimmed, not empty, and has no comma. */
  predicate Settled(entry: string) {
    TrimSpace(entry) == entry && entry != "" && ',' !in entry
  }

  lemma KeptEntriesSettled(existing: string, entry: string)
    requires entry in KeptEntries(existing)
    ensures Settled(entry) && !IsMeterEntry(entry) && KeepPart(entry) == [entry]
  {
    var part := FlatMapMembers(KeepPart, Split(existing, ','), entry);
    SplitPartsHaveNoSeparator(existing, ',');
    TrimSpaceShape(part);
    TrimSpaceIdempotent(part);
  }

  predicate OwnName(name: string) {
    name == "person" || name == "device" || name == "node_id" || name == "source_ip"
  }

  /** An own entry has the shape key=value with a plain value. */
  lemma MeterEntryShape(name: string, v: string)
    requires OwnName(name)
    ensures Before(MeterEntry(name, v), '=') == "meter." + name
    ensures MeterEntry(name, v)[|"meter." + name| + 1..] == Escape(v)
    ensures ',' !in MeterEntry(name, v)
  {
    var key := "meter." + name;
    EscapeIsPlain(v);
    assert '=' !in key && ',' !in key;
    BeforeAtSeparator(key, Escape(v), '=');
  }

  /** Visible bytes at both ends leave nothing to trim. */
  lemma VisibleEndsFixed(s: string)
    requires s != "" && '!' <= s[0] <= '~' && '!' <= s[|s| - 1] <= '~'
    ensures TrimSpace(s) == s
  {
    assert LeadingSpace(s) == 0 && TrailingSpace(s) == 0;
    TrimSpaceFixed(s);
  }

  lemma MeterEntryEnds(name: string, v: string)
    ensures var entry := MeterEntry(name, v);
            entry != "" && entry[0] == 'm' && '!' <= entry[|entry| - 1] <= '~'
  {
    var entry, e := MeterEntry(name, v), Escape(v);
    EscapeIsPlain(v);
    var last := entry[|entry| - 1];
    assert last == if e == "" then '=' else e[|e| - 1];
    assert e != "" ==> e[|e| - 1] in e;
  }

  lemma MeterEntrySettled(name: string, v: string)
    requires OwnName(name)
    ensures var entry := MeterEntry(name, v); Settled(entry) && IsMeterEntry(entry) && KeepPart(entry) == []
  {
    MeterEntryShape(name, v);
    MeterEntryEnds(name, v);
    VisibleEndsFixed(MeterEntry(name, v));
    assert ("meter." + name)[..6] == "meter.";
  }

  lemma MeterEntriesSettled(id: Identity, entry: string)
    requires entry in MeterEntries(id)
    ensures Settled(entry) && IsMeterEntry(entry) && KeepPart(entry) == []
  {
    MeterEntrySettled("person", id.person);
    MeterEntrySettled("device", id.device);
    MeterEntrySettled("node_id", id.nodeId);
    MeterEntrySettled("source_ip", id.sourceIp);
  }

  /** Splitting the output at its commas yields the trimmed, non-empty, foreign entries of
      the input in order, and then the meter's own entries. */
  lemma OutputEntries(id: Identity, existing: string)
    ensures Split(Attributes(id, existing), ',') == KeptEntries(existing) + MeterEntries(id)
  {
    forall e | e in Entries(id, existing) ensures ',' !in e {
      if e in KeptEntries(existing) { KeptEntriesSettled(existing, e); } else { MeterEntriesSettled(id, e); }
    }
    SplitJoin(Entries(id, existing), ',');
  }

  /** Reading the output again keeps exactly the foreign entries. */
  lemma OutputKeepsForeign(id: Identity, existing: string)
    ensures KeptEntries(Attributes(id, existing)) == KeptEntries(existing)
  {
    var kept, own := KeptEntries(existing), MeterEntries(id);
    OutputEntries(id, existing);
    forall e | e in kept ensures KeepPart(e) == [e] { KeptEntriesSettled(existing, e); }
    forall e | e in own ensures KeepPart(e) == [] { MeterEntriesSettled(id, e); }
    FlatMapEach(KeepPart, kept);
    FlatMapNothing(KeepPart, own);
    FlatMapAppend(KeepPart, kept, own);
  }

  /** Nested launches: the inner launch leaves no trace of the outer identity. */
  lemma NestedLaunch(inner: Identity, outer: Identity, existing: string)
    ensures Attributes(inner, Attributes(outer, existing)) == Attributes(inner, existing)
  {
    OutputKeepsForeign(outer, existing);
  }

  /** Among the entries of the output, those whose key starts with "meter." are exactly the
      meter's own: one person, one device, and at most one node id and one source address. */
  lemma OwnEntriesExactly(id: Identity, existing: string)
    ensures Filter(IsMeterEntry, Split(Attributes(id, existing), ',')) == MeterEntries(id)
  {
    var kept, own := KeptEntries(existing), MeterEntries(id);
    OutputEntries(id, existing);
    forall e | e in kept ensures !IsMeterEntry(e) { KeptEntriesSettled(existing, e); }
    forall e | e in own ensures IsMeterEntry(e) { MeterEntriesSettled(id, e); }
    FilterAppend(IsMeterEntry, kept, own);
    FilterAll(IsMeterEntry, own);
    FilterNone(IsMeterEntry, kept);
  }

  /** A reader that cuts an own entry at its first `=` and decodes the rest finds the name,
      and the value unless that contains a `%` followed by two hex digits. */
  lemma EntryReadsBack(name: string, v: string)
    requires OwnName(name) && IsBytes(v)
    ensures var entry := MeterEntry(name, v);
            var key := Before(entry, '=');
            && key == "meter." + name
            && (Unescape(entry[|key| + 1..]) == v <==> !HasEscape(v))
  {
    MeterEntryShape(name, v);
    EscapeReadsBack(v);
  }

  // ------------------------------------------------------------------ what a reader finds

  /** The decoded value of an entry with the key: what follows its first `=`. */
  function ReadEntry(key: string): string -> seq<string> {
    (entry: string) => if Before(entry, '=') == key && |key| < |entry| then [Unescape(entry[|key| + 1..])] else []
  }

  /** The decoded values under a key in a comma-separated list. */
  function ReadKey(list: string, key: string): seq<string> {
    FlatMap(ReadEntry(key), Split(list, ','))
  }

  lemma OwnNamesDiffer(name: string, other: string)
    ensures "meter." + name == "meter." + other <==> name == other
  {
    assert ("meter." + name)[6..] == name && ("meter." + other)[6..] == other;
  }

  lemma OwnEntryRead(name: string, v: string, other: string)
    requires OwnName(name) && IsBytes(v)
    ensures ReadEntry("meter." + other)(MeterEntry(name, v)) == if name == other then [Unescape(v)] else []
  {
    MeterEntryShape(name, v);
    OwnNamesDiffer(name, other);
    DecodeEscape(v);
  }

  lemma KeptEntryRead(existing: string, entry: string, other: string)
    requires entry in KeptEntries(existing)
    ensures ReadEntry("meter." + other)(entry) == []
  {
    KeptEntriesSettled(existing, entry);
    assert ("meter." + other)[..6] == "meter.";
  }

  /** The entries of one optional field. */
  function OptionalEntry(name: string, v: string): seq<string> {
    if v != "" then [MeterEntry(name, v)] else []
  }

  lemma OptionalRead(name: string, v: string, other: string)
    requires OwnName(name) && IsBytes(v)
    ensures FlatMap(ReadEntry("meter." + other), OptionalEntry(name, v)) == if name == other then Optionally(v) else []
  {
    if v != "" {
      OwnEntryRead(name, v, other);
      FlatMapOne(ReadEntry("meter." + other), MeterEntry(name, v));
    }
  }

  lemma OwnEntriesRead(id: Identity, other: string)
    requires IsBytes(id.person) && IsBytes(id.device) && IsBytes(id.nodeId) && IsBytes(id.sourceIp)
    ensures FlatMap(ReadEntry("meter." + other), MeterEntries(id)) ==
            (if other == "person" then [Unescape(id.person)] else []) + (if other == "device" then [Unescape(id.device)] else []) +
            (if other == "node_id" then Optionally(id.nodeId) else []) +
            (if other == "source_ip" then Optionally(id.sourceIp) else [])
  {
    var read := ReadEntry("meter." + other);
    var person, device := MeterEntry("person", id.person), MeterEntry("device", id.device);
    var node, source := OptionalEntry("node_id", id.nodeId), OptionalEntry("source_ip", id.sourceIp);
    MeterEntriesAre(id, person, device, node, source);
    FlatMapFour(read, person, device, node, source);
    OwnEntryRead("person", id.person, other);
    OwnEntryRead("device", id.device, other);
    OptionalRead("node_id", id.nodeId, other);
    OptionalRead("source_ip", id.sourceIp, other);
  }

  lemma MeterEntriesAre(id: Identity, person: string, device: string, node: seq<string>, source: seq<string>)
    requires person == MeterEntry("person", id.person) && device == MeterEntry("device", id.device)
    requires node == OptionalEntry("node_id", id.nodeId) && source == OptionalEntry("source_ip", id.sourceIp)
    ensures MeterEntries(id) == [person, device] + node + source
  {
  }

  lemma FlatMapFour<T, U>(f: T -> seq<U>, a: T, b: T, c: seq<T>, d: seq<T>)
    ensures FlatMap(f, [a, b] + c + d) == f(a) + f(b) + FlatMap(f, c) + FlatMap(f, d)
  {
    FlatMapOne(f, a);
    FlatMapSnoc(f, [a], b);
    assert [a] + [b] == [a, b];
    FlatMapAppend(f, [a, b], c);
    FlatMapAppend(f, [a, b] + c, d);
  }

  lemma OutputRead(id: Identity, existing: string, other: string)
    requires IsBytes(id.person) && IsBytes(id.device) && IsBytes(id.nodeId) && IsBytes(id.sourceIp)
    ensures ReadKey(Attributes(id, existing), "meter." + other) == FlatMap(ReadEntry("meter." + other), MeterEntries(id))
  {
    var read, kept := ReadEntry("meter." + other), KeptEntries(existing);
    OutputEntries(id, existing);
    forall e | e in kept ensures read(e) == [] { KeptEntryRead(existing, e, other); }
    FlatMapNothing(read, kept);
    FlatMapAppend(read, kept, MeterEntries(id));
  }

  /** What a reader of the output finds: under each of the meter's keys the decoded field, once,
      and the optional ones exactly when they are not empty. A field is found as it was exactly
      when it holds no `%` followed by two hex digits. */
  lemma IdentityIsFound(id: Identity, existing: string)
    requires IsBytes(id.person) && IsBytes(id.device) && IsBytes(id.nodeId) && IsBytes(id.sourceIp)
    ensures var out := Attributes(id, existing);
            && ReadKey(out, "meter.person") == [Unescape(id.person)]
            && ReadKey(out, "meter.device") == [Unescape(id.device)]
            && ReadKey(out, "meter.node_id") == (if id.nodeId == "" then [] else [Unescape(id.nodeId)])
            && ReadKey(out, "meter.source_ip") == (if id.sourceIp == "" then [] else [Unescape(id.sourceIp)])
    ensures forall v | v in {id.person, id.device, id.nodeId, id.sourceIp} :: Unescape(v) == v <==> !HasEscape(v)
  {
    KeysAre();
    FieldFound(id, existing, "person");
    FieldFound(id, existing, "device");
    FieldFound(id, existing, "node_id");
    FieldFound(id, existing, "source_ip");
    forall v | v in {id.person, id.device, id.nodeId, id.sourceIp} ensures Unescape(v) == v <==> !HasEscape(v) { DecodeFixed(v); }
  }

  lemma KeysAre()
    ensures "meter." + "person" == "meter.person" && "meter." + "device" == "meter.device"
    ensures "meter." + "node_id" == "meter.node_id" && "meter." + "source_ip" == "meter.source_ip"
  {
  }

  lemma NamesExclude(name: string)
    ensures name == "person" ==> name != "device" && name != "node_id" && name != "source_ip"
    ensures name == "device" ==> name != "node_id" && name != "source_ip"
    ensures name == "node_id" ==> name != "source_ip"
  {
  }

  /** What is found under a name, one of four flags set. */
  lemma OneFound(p: bool, d: bool, n: bool, s: bool, a: seq<string>, b: seq<string>, c: seq<string>, e: seq<string>)
    requires (p ==> !d && !n && !s) && (d ==> !n && !s) && (n ==> !s) && (p || d || n || s)
    ensures (if p then a else []) + (if d then b else []) + (if n then c else []) + (if s then e else []) ==
            if p then a else if d then b else if n then c else e
  {
  }

  function Optionally(v: string): seq<string> {
    if v == "" then [] else [Unescape(v)]
  }

  lemma FieldFound(id: Identity, existing: string, name: string)
    requires OwnName(name)
    requires IsBytes(id.person) && IsBytes(id.device) && IsBytes(id.nodeId) && IsBytes(id.sourceIp)
    ensures ReadKey(Attributes(id, existing), "meter." + name) ==
            if name == "person" then [Unescape(id.person)]
            else if name == "device" then [Unescape(id.device)]
            else if name == "node_id" then Optionally(id.nodeId)
            else Optionally(id.sourceIp)
  {
    OutputRead(id, existing, name);
    OwnEntriesRead(id, name);
    NamesExclude(name);
    OneFound(name == "person", name == "device", name == "node_id", name == "source_ip",
             [Unescape(id.person)], [Unescape(id.device)], Optionally(id.nodeId), Optionally(id.sourceIp));
  }

  /** The trimmed entries. */
  function Trimmed(parts: seq<string>): seq<string> {
    seq(|parts|, i requires 0 <= i < |parts| => TrimSpace(parts[i]))
  }

  /** Not empty, and under no key of the meter's. */
  predicate IsForeign(entry: string) {
    entry != "" && !HasPrefix(Before(entry, '='), "meter.")
  }

  lemma {:induction false} KeptAreForeign(parts: seq<string>)
    ensures FlatMap(KeepPart, parts) == Filter(IsForeign, Trimmed(parts))
  {
    if parts != [] {
      var n := |parts| - 1;
      KeptAreForeign(parts[..n]);
      assert Trimmed(parts)[..n] == Trimmed(parts[..n]) && Trimmed(parts)[n] == TrimSpace(parts[n]);
    }
  }

  /** The entries of the output under no key of the meter's are the trimmed ones of the input,
      in their order, the empty ones left out. */
  lemma ForeignEntriesExactly(id: Identity, existing: string)
    ensures Filter(IsForeign, Split(Attributes(id, existing), ',')) == Filter(IsForeign, Trimmed(Split(existing, ',')))
  {
    var kept, own := KeptEntries(existing), MeterEntries(id);
    OutputEntries(id, existing);
    KeptAreForeign(Split(existing, ','));
    FilterMembers(IsForeign, Trimmed(Split(existing, ',')));
    forall e | e in own ensures !IsForeign(e) { MeterEntriesSettled(id, e); }
    FilterAppend(IsForeign, kept, own);
    FilterAll(IsForeign, kept);
    FilterNone(IsForeign, own);
  }

  /** Only what must be escaped is: a value of plain bytes is written as it is. */
  lemma {:induction false} PlainStays(v: string)
    ensures (forall c <- v :: Plain(c)) ==> Escape(v) == v
  {
    if v != "" && forall c <- v :: Plain(c) {
      PlainStays(v[1..]);
      assert Plain(v[0]) && v == [v[0]] + v[1..];
    }
  }
}
