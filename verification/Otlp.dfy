/** The OTLP log decoder: from decoded JSON structures to usage events. */
module Otlp {
  import opened Wrappers
  import opened Seqs
  import opened Texts
  import opened Decimal
  import opened Timestamps

  // ----------------------------------------------------------------- wire format

  /** The raw `intValue`: absent, a JSON string (null reads as the empty string), a JSON
      integer of any size, or any other JSON value. */
  datatype IntJson = NoInt | IntText(s: string) | IntNumber(n: int) | IntOther

  datatype AnyValue = AnyValue(
    stringValue: Option<string>,
    intValue: IntJson,
    doubleValue: Option<real>,
    boolValue: Option<bool>,
    arrayValue: Option<ArrayValue>,
    kvlistValue: Option<KeyValueList>,
    bytesValue: Option<string>)

  datatype ArrayValue = ArrayValue(values: seq<AnyValue>)

  datatype KeyValueList = KeyValueList(values: seq<KeyValue>)

  datatype KeyValue = KeyValue(key: string, value: AnyValue)

  /** A body that is missing or does not parse as an AnyValue is None. */
  datatype LogRecord = LogRecord(timeUnixNano: string, observedTimeUnixNano: string,
                                 body: Option<AnyValue>, attributes: seq<KeyValue>)

  datatype ResourceLogs = ResourceLogs(attributes: seq<KeyValue>, scopeLogs: seq<seq<LogRecord>>)

  type Request = seq<ResourceLogs>

  /** A Go value of type any, as anyValue builds it. */
  datatype Value =
    | Nil
    | Str(s: string)
    | Int(n: int)
    | Float(r: real)
    | Bool(b: bool)
    | List(items: seq<Value>)
    | Dict(entries: map<string, Value>)

  type Attributes = map<string, Value>

  datatype Event = Event(
    key: string,
    name: string,
    time: Instant,
    sequence: int,
    person: string,
    device: string,
    nodeId: string,
    sourceIp: string,
    accountUuid: string,
    accountId: string,
    accountEmail: string,
    organizationId: string,
    userId: string,
    session: string,
    request: string,
    clientRequest: string,
    model: string,
    querySource: string,
    effort: string,
    speed: string,
    inputTokens: int,
    outputTokens: int,
    cacheReadTokens: int,
    cacheCreationTokens: int,
    costMicros: int,
    durationMs: int,
    statusCode: int,
    error: string)

  /** Library conversions whose code is not part of this model. */
  datatype Library = Library(
    formatFloat: real -> string,             // strconv.FormatFloat(x, 'f', -1, 64)
    parseFloat: string -> real,              // strconv.ParseFloat(s, 64), error ignored
    parseTime: string -> Option<Instant>)    // time.Parse(time.RFC3339Nano, s), in UTC

  // ------------------------------------------------------------ attribute values

  function AnyValueOf(v: AnyValue): Value
    decreases v, 1
  {
    if v.stringValue.Some? then Str(v.stringValue.value)
    else if v.intValue.IntText? then
      var p := ParseInt(v.intValue.s);
      if p.ok then Int(p.value) else Str(v.intValue.s)
    else if v.intValue.IntNumber? && IsInt64(v.intValue.n) then Int(v.intValue.n)
    else if v.doubleValue.Some? then Float(v.doubleValue.value)
    else if v.boolValue.Some? then Bool(v.boolValue.value)
    else if v.arrayValue.Some? then List(ItemsOf(v.arrayValue.value.values))
    else if v.kvlistValue.Some? then Dict(AttributesOf(v.kvlistValue.value.values))
    else if v.bytesValue.Some? then Str(v.bytesValue.value)
    else Nil
  }

  function ItemsOf(vs: seq<AnyValue>): seq<Value>
    decreases vs, 0
  {
    if vs == [] then [] else [AnyValueOf(vs[0])] + ItemsOf(vs[1..])
  }

  /** The map that assigning the pairs from left to right leaves. */
  function AttributesOf(kvs: seq<KeyValue>): Attributes
    decreases kvs, 0
  {
    if kvs == [] then map[]
    else
      var last := kvs[|kvs| - 1];
      AttributesOf(kvs[..|kvs| - 1])[last.key := AnyValueOf(last.value)]
  }

  method AttrsToMap(kvs: seq<KeyValue>) returns (m: Attributes)
    ensures m == AttributesOf(kvs)
  {
    m := map[];
    for i := 0 to |kvs|
      invariant m == AttributesOf(kvs[..i])
    {
      assert kvs[..i + 1][..i] == kvs[..i];
      m := m[kvs[i].key := AnyValueOf(kvs[i].value)];
    }
    assert kvs[..|kvs|] == kvs;
  }

  /** cloneMap followed by the assignment loop: the record's attributes win. */
  method Overlay(base: Attributes, top: Attributes) returns (m: Attributes)
    ensures m == base + top
  {
    m := base;
    var todo := top.Keys;
    while todo != {}
      invariant todo <= top.Keys
      invariant m.Keys == base.Keys + (top.Keys - todo)
      invariant forall k <- m :: m[k] == if k in top && k !in todo then top[k] else base[k]
    {
      var k :| k in todo;
      m := m[k := top[k]];
      todo := todo - {k};
    }
  }

  /** Index `i` holds the last pair with key `k`. */
  predicate LastOccurrence(kvs: seq<KeyValue>, k: string, i: nat) {
    i < |kvs| && kvs[i].key == k && forall j | i < j < |kvs| :: kvs[j].key != k
  }

  lemma {:induction false} AttributesHoldLast(kvs: seq<KeyValue>, k: string)
    ensures k in AttributesOf(kvs) <==> exists i: nat :: LastOccurrence(kvs, k, i)
    ensures forall i: nat :: LastOccurrence(kvs, k, i) ==> AttributesOf(kvs)[k] == AnyValueOf(kvs[i].value)
  {
    if kvs != [] {
      var n := |kvs| - 1;
      var front := kvs[..n];
      AttributesHoldLast(front, k);
      if kvs[n].key == k {
        assert LastOccurrence(kvs, k, n);
      } else {
        assert forall i: nat :: LastOccurrence(kvs, k, i) <==> LastOccurrence(front, k, i);
      }
    }
  }

  lemma {:induction false} AttributesConcatenate(a: seq<KeyValue>, b: seq<KeyValue>)
    ensures AttributesOf(a + b) == AttributesOf(a) + AttributesOf(b)
  {
    if b == [] {
      assert a + b == a;
    } else {
      var n := |b| - 1;
      AttributesConcatenate(a, b[..n]);
      assert (a + b)[..|a + b| - 1] == a + b[..n];
    }
  }

  /** Looking up a merged attribute finds its last occurrence in resource-then-record order. */
  lemma MergeFindsLast(resource: seq<KeyValue>, lr: LogRecord, k: string)
    ensures var merged, all := MergeRecord(AttributesOf(resource), lr).attrs, resource + lr.attributes;
            && (k in merged <==> exists i: nat :: LastOccurrence(all, k, i))
            && forall i: nat :: LastOccurrence(all, k, i) ==> Lookup(merged, k) == AnyValueOf(all[i].value)
  {
    AttributesConcatenate(resource, lr.attributes);
    AttributesHoldLast(resource + lr.attributes, k);
  }

  // ----------------------------------------------------------------- conversions

  function Lookup(attrs: Attributes, k: string): Value {
    if k in attrs then attrs[k] else Nil
  }

  function AsString(lib: Library, v: Value): string {
    match v
    case Str(s) => s
    case Int(n) => FormatInt(n)
    case Float(r) => lib.formatFloat(r)
    case Bool(b) => if b then "true" else "false"
    case _ => ""
  }

  /** Go's int64(x): truncation toward zero. Out of range, amd64 yields the least int64. */
  function Truncate(r: real): (n: int)
    ensures IsInt64(n)
  {
    var t := if r >= 0.0 then r.Floor else -(-r).Floor;
    if IsInt64(t) then t else MIN_INT64
  }

  function AsInt64(v: Value): int {
    match v
    case Int(n) => n
    case Float(r) => Truncate(r)
    case Str(s) => ParseInt(s).value
    case _ => 0
  }

  const MICROS: real := 1_000_000.0

  function CostMicros(lib: Library, attrs: Attributes): int {
    var n := AsInt64(Lookup(attrs, "cost_usd_micros"));
    if n != 0 then n else DollarMicros(lib, Lookup(attrs, "cost_usd"))
  }

  /** The micros that a `cost_usd` value counts for. */
  function DollarMicros(lib: Library, v: Value): int {
    match v
    case Float(x) => Truncate(x * MICROS + 0.5)
    case Str(s) => Truncate(lib.parseFloat(s) * MICROS + 0.5)
    case _ => 0
  }

  /** The first of the raw nanosecond texts that parses to a positive int64. */
  function FirstPositive(raws: seq<string>): Option<int> {
    if raws == [] then None
    else
      var p := ParseInt(raws[0]);
      if raws[0] != "" && p.ok && p.value > 0 then Some(p.value) else FirstPositive(raws[1..])
  }

  function StatedTime(lib: Library, attrs: Attributes, lr: LogRecord): Option<Instant> {
    var s := AsString(lib, Lookup(attrs, "event.timestamp"));
    if s != "" && lib.parseTime(s).Some? then lib.parseTime(s)
    else match FirstPositive([lr.timeUnixNano, lr.observedTimeUnixNano])
      case Some(n) => Some(FromUnixNanos(n))
      case None => None
  }

  function EventTime(lib: Library, attrs: Attributes, lr: LogRecord, fallback: Instant): Instant {
    var t := StatedTime(lib, attrs, lr);
    if t.Some? then t.value else fallback
  }

  function BodyEventName(lib: Library, body: Option<AnyValue>): string {
    if body.None? then ""
    else TrimSpace(TrimPrefix(AsString(lib, AnyValueOf(body.value)), "claude_code."))
  }

  // ---------------------------------------------------------------------- events

  function KeyFields(e: Event): seq<string> {
    [e.name, e.session, FormatInt(e.sequence), e.request, e.clientRequest, Format(e.time)]
  }

  /** The text makeEventKey hashes. */
  function Preimage(e: Event): string {
    Join(KeyFields(e), "|")
  }

  /** SHA-256 is taken to be injective: the key is represented by its preimage. */
  function MakeEventKey(e: Event): string {
    Preimage(e)
  }

  /** A log record with its resource's attributes merged under its own. */
  datatype Merged = Merged(attrs: Attributes, record: LogRecord)

  function EventName(lib: Library, m: Merged): string {
    var name := Text(lib, m, "event.name");
    if name != "" then name else BodyEventName(lib, m.record.body)
  }

  predicate Metered(lib: Library, m: Merged) {
    EventName(lib, m) == "api_request" || EventName(lib, m) == "api_error"
  }

  function Text(lib: Library, m: Merged, k: string): string {
    AsString(lib, Lookup(m.attrs, k))
  }

  function Number(m: Merged, k: string): int {
    AsInt64(Lookup(m.attrs, k))
  }

  /** Which attribute fills which field; `text` and `number` read an attribute. */
  function EventWith(text: string -> string, number: string -> int, name: string, time: Instant, costMicros: int): Event {
    Event("", name, time, number("event.sequence"),
          text("meter.person"), text("meter.device"), text("meter.node_id"), text("meter.source_ip"),
          text("user.account_uuid"), text("user.account_id"), text("user.email"), text("organization.id"),
          text("user.id"), text("session.id"), text("request_id"), text("client_request_id"),
          text("model"), text("query_source"), text("effort"), text("speed"),
          number("input_tokens"), number("output_tokens"), number("cache_read_tokens"),
          number("cache_creation_tokens"), costMicros, number("duration_ms"), number("status_code"), text("error"))
  }

  /** The event before its key is computed. */
  function Unkeyed(lib: Library, m: Merged, receivedAt: Instant): Event {
    EventWith(k => Text(lib, m, k), k => Number(m, k), EventName(lib, m),
              EventTime(lib, m.attrs, m.record, receivedAt), CostMicros(lib, m.attrs))
  }

  function EventOf(lib: Library, m: Merged, receivedAt: Instant): Event {
    var e := Unkeyed(lib, m, receivedAt);
    e.(key := MakeEventKey(e))
  }

  /** What one record contributes: its event when it is metered, nothing otherwise. */
  function Emit(lib: Library, m: Merged, receivedAt: Instant): seq<Event> {
    if Metered(lib, m) then [EventOf(lib, m, receivedAt)] else []
  }

  function MergeRecord(resource: Attributes, lr: LogRecord): Merged {
    Merged(resource + AttributesOf(lr.attributes), lr)
  }

  function RecordEvents(lib: Library, receivedAt: Instant, resource: Attributes): LogRecord -> seq<Event> {
    (lr: LogRecord) => Emit(lib, MergeRecord(resource, lr), receivedAt)
  }

  function ScopeEvents(lib: Library, receivedAt: Instant, resource: Attributes): seq<LogRecord> -> seq<Event> {
    (scope: seq<LogRecord>) => FlatMap(RecordEvents(lib, receivedAt, resource), scope)
  }

  function GroupEvents(lib: Library, receivedAt: Instant): ResourceLogs -> seq<Event> {
    (rl: ResourceLogs) => FlatMap(ScopeEvents(lib, receivedAt, AttributesOf(rl.attributes)), rl.scopeLogs)
  }

  /** What decoding a request means: the events of its metered records, in delivery order. */
  function Decoded(lib: Library, req: Request, receivedAt: Instant): seq<Event> {
    FlatMap(GroupEvents(lib, receivedAt), req)
  }

  /** The body of the innermost loop. */
  method DecodeRecord(lib: Library, resource: Attributes, lr: LogRecord, receivedAt: Instant)
    returns (event: seq<Event>)
    ensures event == RecordEvents(lib, receivedAt, resource)(lr)
  {
    var own := AttrsToMap(lr.attributes);
    var attrs := Overlay(resource, own);
    var m := Merged(attrs, lr);
    event := [];
    if Metered(lib, m) { event := [EventOf(lib, m, receivedAt)]; }
  }

  method DecodeGroup(lib: Library, rl: ResourceLogs, receivedAt: Instant) returns (events: seq<Event>)
    ensures events == GroupEvents(lib, receivedAt)(rl)
  {
    var resource := AttrsToMap(rl.attributes);
    ghost var onScope := ScopeEvents(lib, receivedAt, resource);
    ghost var onRecord := RecordEvents(lib, receivedAt, resource);
    events := [];
    for j := 0 to |rl.scopeLogs|
      invariant events == FlatMap(onScope, rl.scopeLogs[..j])
    {
      var scope := rl.scopeLogs[j];
      ghost var before := events;
      for k := 0 to |scope|
        invariant events == before + FlatMap(onRecord, scope[..k])
      {
        var event := DecodeRecord(lib, resource, scope[k], receivedAt);
        FlatMapTake(onRecord, scope, k);
        events := events + event;
      }
      assert scope[..|scope|] == scope;
      FlatMapTake(onScope, rl.scopeLogs, j);
    }
    assert rl.scopeLogs[..|rl.scopeLogs|] == rl.scopeLogs;
  }

  method Decode(lib: Library, req: Request, receivedAt: Instant) returns (events: seq<Event>)
    ensures events == Decoded(lib, req, receivedAt)
  {
    events := [];
    for i := 0 to |req|
      invariant events == FlatMap(GroupEvents(lib, receivedAt), req[..i])
    {
      var group := DecodeGroup(lib, req[i], receivedAt);
      FlatMapTake(GroupEvents(lib, receivedAt), req, i);
      events := events + group;
    }
    assert req[..|req|] == req;
  }

  // ------------------------------------------------------- batching does not matter

  /** Decoding concatenated resource groups concatenates the events. */
  lemma DecodeConcatenates(lib: Library, a: Request, b: Request, t: Instant)
    ensures Decoded(lib, a + b, t) == Decoded(lib, a, t) + Decoded(lib, b, t)
  {
    FlatMapAppend(GroupEvents(lib, t), a, b);
  }

  lemma {:induction false} SplitElement<U>(f: seq<LogRecord> -> seq<U>, before: seq<seq<LogRecord>>,
                                           r: seq<LogRecord>, s: seq<LogRecord>, after: seq<seq<LogRecord>>)
    requires f(r + s) == f(r) + f(s)
    ensures var whole := FlatMap(f, before + [r + s] + after);
            && FlatMap(f, before + [r, s] + after) == whole
            && FlatMap(f, before + [r]) + FlatMap(f, [s] + after) == whole
  {
    var b, x, y, a := FlatMap(f, before), f(r), f(s), FlatMap(f, after);
    FlatMapAppend(f, before + [r + s], after);
    FlatMapSnoc(f, before, r + s);
    assert before + [r, s] + after == (before + [r]) + ([s] + after);
    FlatMapAppend(f, before + [r], [s] + after);
    FlatMapSnoc(f, before, r);
    FlatMapAppend(f, [s], after);
    FlatMapOne(f, s);
    Associative(b, x, y);
    Associative(b + x, y, a);
  }

  /** Splitting a scope's records over two scopes of the same resource, or over two resource
      groups with the same attributes (as two posts would carry them), changes no event. */
  lemma SplittingScopes(lib: Library, attributes: seq<KeyValue>, before: seq<seq<LogRecord>>,
                        r: seq<LogRecord>, s: seq<LogRecord>, after: seq<seq<LogRecord>>, t: Instant)
    ensures var whole := Decoded(lib, [ResourceLogs(attributes, before + [r + s] + after)], t);
            && Decoded(lib, [ResourceLogs(attributes, before + [r, s] + after)], t) == whole
            && Decoded(lib, [ResourceLogs(attributes, before + [r])], t)
               + Decoded(lib, [ResourceLogs(attributes, [s] + after)], t) == whole
  {
    var onGroup, resource := GroupEvents(lib, t), AttributesOf(attributes);
    FlatMapAppend(RecordEvents(lib, t, resource), r, s);
    SplitElement(ScopeEvents(lib, t, resource), before, r, s, after);
    FlatMapOne(onGroup, ResourceLogs(attributes, before + [r + s] + after));
    FlatMapOne(onGroup, ResourceLogs(attributes, before + [r, s] + after));
    FlatMapOne(onGroup, ResourceLogs(attributes, before + [r]));
    FlatMapOne(onGroup, ResourceLogs(attributes, [s] + after));
  }

  // ---------------------------------------------------- independence of receive time

  predicate Timed(lib: Library, m: Merged) {
    Metered(lib, m) ==> StatedTime(lib, m.attrs, m.record).Some?
  }

  /** Every metered record states a time of its own. */
  predicate SelfTimed(lib: Library, req: Request) {
    forall rl <- req :: forall scope <- rl.scopeLogs :: forall lr <- scope ::
      Timed(lib, MergeRecord(AttributesOf(rl.attributes), lr))
  }

  lemma EmitIndependent(lib: Library, m: Merged, t: Instant, u: Instant)
    requires t != u
    ensures |Emit(lib, m, t)| == |Emit(lib, m, u)|
    ensures Emit(lib, m, t) == Emit(lib, m, u) <==> Timed(lib, m)
  {
    if Metered(lib, m) {
      var e, f := EventOf(lib, m, t), EventOf(lib, m, u);
      UnkeyedEnvelope(lib, m, t);
      UnkeyedEnvelope(lib, m, u);
      assert e.time == EventTime(lib, m.attrs, m.record, t) && f.time == EventTime(lib, m.attrs, m.record, u);
      assert [e] == [f] <==> e == f;
    }
  }

  lemma ScopeIndependent(lib: Library, resource: Attributes, scope: seq<LogRecord>, t: Instant, u: Instant)
    requires t != u
    ensures var a, b := ScopeEvents(lib, t, resource)(scope), ScopeEvents(lib, u, resource)(scope);
            && |a| == |b|
            && (a == b <==> forall lr <- scope :: Timed(lib, MergeRecord(resource, lr)))
  {
    var f, g := RecordEvents(lib, t, resource), RecordEvents(lib, u, resource);
    forall lr: LogRecord
      ensures |f(lr)| == |g(lr)|
      ensures f(lr) == g(lr) <==> Timed(lib, MergeRecord(resource, lr))
    {
      EmitIndependent(lib, MergeRecord(resource, lr), t, u);
    }
    FlatMapPointwise(f, g, scope);
  }

  lemma GroupIndependent(lib: Library, rl: ResourceLogs, t: Instant, u: Instant)
    requires t != u
    ensures var a, b := GroupEvents(lib, t)(rl), GroupEvents(lib, u)(rl);
            && |a| == |b|
            && (a == b <==> forall scope <- rl.scopeLogs :: forall lr <- scope ::
                              Timed(lib, MergeRecord(AttributesOf(rl.attributes), lr)))
  {
    var resource := AttributesOf(rl.attributes);
    var f, g := ScopeEvents(lib, t, resource), ScopeEvents(lib, u, resource);
    forall scope: seq<LogRecord>
      ensures |f(scope)| == |g(scope)|
      ensures f(scope) == g(scope) <==> forall lr <- scope :: Timed(lib, MergeRecord(resource, lr))
    {
      ScopeIndependent(lib, resource, scope, t, u);
    }
    FlatMapPointwise(f, g, rl.scopeLogs);
  }

  lemma DecodedIndependent(lib: Library, req: Request, t: Instant, u: Instant)
    requires t != u
    ensures |Decoded(lib, req, t)| == |Decoded(lib, req, u)|
    ensures Decoded(lib, req, t) == Decoded(lib, req, u) <==> SelfTimed(lib, req)
  {
    var f, g := GroupEvents(lib, t), GroupEvents(lib, u);
    forall rl: ResourceLogs
      ensures |f(rl)| == |g(rl)|
      ensures f(rl) == g(rl) <==> SelfTimed(lib, [rl])
    {
      GroupIndependent(lib, rl, t, u);
      assert SelfTimed(lib, [rl]) <==> forall scope <- rl.scopeLogs :: forall lr <- scope ::
                              Timed(lib, MergeRecord(AttributesOf(rl.attributes), lr));
    }
    FlatMapPointwise(f, g, req);
    assert SelfTimed(lib, req) <==> forall rl <- req :: SelfTimed(lib, [rl]);
  }

  /** The decoded events, keys included, do not depend on the receive time exactly when
      every metered record has a parseable timestamp or a positive nanosecond time. */
  lemma ReceiveTimeIrrelevant(lib: Library, req: Request)
    ensures SelfTimed(lib, req) <==> forall t, u :: Decoded(lib, req, t) == Decoded(lib, req, u)
  {
    if SelfTimed(lib, req) {
      forall t: Instant, u: Instant ensures Decoded(lib, req, t) == Decoded(lib, req, u) {
        if t != u { DecodedIndependent(lib, req, t, u); }
      }
    } else {
      DecodedIndependent(lib, req, 0, 1);
    }
  }

  // ------------------------------------------------------- encodings of an integer

  /** The three ways an exporter may send the int64 `n`: a JSON integer, a decimal string
      in `intValue` (canonical or not), or its canonical decimal `stringValue`. */
  predicate EncodesInt(v: AnyValue, n: int) {
    if v.stringValue.Some? then v.stringValue.value == FormatInt(n)
    else match v.intValue
      case IntNumber(m) => m == n
      case IntText(s) => ParseInt(s) == Parsed(n, true)
      case _ => false
  }

  predicate SameReading(lib: Library, v: Value, w: Value) {
    AsString(lib, v) == AsString(lib, w) && AsInt64(v) == AsInt64(w)
  }

  lemma IntEncodingsAgree(lib: Library, v: AnyValue, n: int)
    requires IsInt64(n) && EncodesInt(v, n)
    ensures AsString(lib, AnyValueOf(v)) == FormatInt(n) && AsInt64(AnyValueOf(v)) == n
  {
    ParseFormat(n);
  }

  /** A decimal string out of range, in either field, is read as the nearest int64. */
  lemma DecimalStringsSaturate(v: AnyValue, sign: string, digits: string)
    requires sign == "" || sign == "+" || sign == "-"
    requires digits != "" && AllDigits(digits)
    requires v.stringValue == Some(sign + digits) || (v.stringValue.None? && v.intValue == IntText(sign + digits))
    ensures var magnitude := ValueFrom(0, digits);
            AsInt64(AnyValueOf(v)) == Clamp(if sign == "-" then -(magnitude as int) else magnitude)
  {
    ParseIntSaturates(sign, digits);
  }

  /** The attributes of two records read the same under every key. */
  ghost predicate SameReadings(lib: Library, m: Merged, n: Merged) {
    forall k :: Text(lib, m, k) == Text(lib, n, k) && Number(m, k) == Number(n, k)
  }

  predicate SameEnvelope(m: Merged, n: Merged) {
    && m.record.timeUnixNano == n.record.timeUnixNano
    && m.record.observedTimeUnixNano == n.record.observedTimeUnixNano
    && m.record.body == n.record.body
  }

  lemma SameReadingsSameEnvelope(lib: Library, m: Merged, n: Merged, t: Instant)
    requires SameEnvelope(m, n) && SameReadings(lib, m, n)
    ensures EventName(lib, m) == EventName(lib, n)
    ensures EventTime(lib, m.attrs, m.record, t) == EventTime(lib, n.attrs, n.record, t)
  {
    assert Text(lib, m, "event.timestamp") == Text(lib, n, "event.timestamp");
    assert Text(lib, m, "event.name") == Text(lib, n, "event.name");
  }

  lemma SameTextsSameEvent(text: string -> string, text': string -> string, number: string -> int,
                           name: string, time: Instant, costMicros: int)
    requires forall k :: text(k) == text'(k)
    ensures EventWith(text, number, name, time, costMicros) == EventWith(text', number, name, time, costMicros)
  {
  }

  lemma SameNumbersSameEvent(text: string -> string, number: string -> int, number': string -> int,
                             name: string, time: Instant, costMicros: int)
    requires forall k :: number(k) == number'(k)
    ensures EventWith(text, number, name, time, costMicros) == EventWith(text, number', name, time, costMicros)
  {
  }

  lemma SameReadersSameEvent(text: string -> string, number: string -> int, text': string -> string, number': string -> int,
                             name: string, time: Instant, costMicros: int)
    requires forall k :: text(k) == text'(k) && number(k) == number'(k)
    ensures EventWith(text, number, name, time, costMicros) == EventWith(text', number', name, time, costMicros)
  {
    SameTextsSameEvent(text, text', number, name, time, costMicros);
    SameNumbersSameEvent(text', number, number', name, time, costMicros);
  }

  lemma EnvelopeOf(text: string -> string, number: string -> int, name: string, time: Instant, costMicros: int)
    ensures var e := EventWith(text, number, name, time, costMicros);
            e.name == name && e.time == time && e.costMicros == costMicros && e.sequence == number("event.sequence")
  {
  }

  lemma UnkeyedEnvelope(lib: Library, m: Merged, t: Instant)
    ensures var e := Unkeyed(lib, m, t);
            && e.name == EventName(lib, m) && e.time == EventTime(lib, m.attrs, m.record, t)
            && e.costMicros == CostMicros(lib, m.attrs) && e.sequence == Number(m, "event.sequence")
  {
    EnvelopeOf(k => Text(lib, m, k), k => Number(m, k), EventName(lib, m),
               EventTime(lib, m.attrs, m.record, t), CostMicros(lib, m.attrs));
  }

  lemma CostAside(text: string -> string, number: string -> int, name: string, time: Instant, c: int, d: int)
    ensures EventWith(text, number, name, time, c).(costMicros := 0) == EventWith(text, number, name, time, d).(costMicros := 0)
  {
  }

  lemma SameReadingsSameFields(lib: Library, m: Merged, n: Merged, t: Instant)
    requires SameReadings(lib, m, n)
    requires EventName(lib, m) == EventName(lib, n)
    requires EventTime(lib, m.attrs, m.record, t) == EventTime(lib, n.attrs, n.record, t)
    ensures Unkeyed(lib, m, t).(costMicros := 0) == Unkeyed(lib, n, t).(costMicros := 0)
  {
    var text, number := k => Text(lib, m, k), k => Number(m, k);
    var name, time := EventName(lib, m), EventTime(lib, m.attrs, m.record, t);
    SameReadersSameEvent(text, number, k => Text(lib, n, k), k => Number(n, k), name, time, CostMicros(lib, n.attrs));
    CostAside(text, number, name, time, CostMicros(lib, m.attrs), CostMicros(lib, n.attrs));
  }

  lemma KeyIgnoresKey(e: Event, key: string)
    ensures MakeEventKey(e.(key := key)) == MakeEventKey(e)
  {
    var f := e.(key := key);
    assert KeyFields(f) == KeyFields(e);
  }

  lemma KeyIgnoresCost(e: Event, f: Event)
    requires e.(costMicros := 0) == f.(costMicros := 0)
    ensures MakeEventKey(e) == MakeEventKey(f)
  {
    var g := e.(costMicros := 0);
    assert e.name == g.name == f.name && e.session == g.session == f.session;
    assert KeyFields(e) == KeyFields(g) == KeyFields(f);
  }

  /** Two records whose attributes read the same give the same event and key, cost aside. */
  lemma SameReadingsSameEvent(lib: Library, m: Merged, n: Merged, t: Instant)
    requires SameEnvelope(m, n) && SameReadings(lib, m, n)
    ensures Metered(lib, m) == Metered(lib, n)
    ensures EventOf(lib, m, t).key == EventOf(lib, n, t).key
    ensures EventOf(lib, m, t).(costMicros := 0) == EventOf(lib, n, t).(costMicros := 0)
  {
    var a, b := Unkeyed(lib, m, t), Unkeyed(lib, n, t);
    SameReadingsSameEnvelope(lib, m, n, t);
    SameReadingsSameFields(lib, m, n, t);
    KeyIgnoresCost(a, b);
    assert EventOf(lib, m, t) == a.(key := MakeEventKey(a)) && EventOf(lib, n, t) == b.(key := MakeEventKey(b));
    assert a.(key := MakeEventKey(a), costMicros := 0) == b.(key := MakeEventKey(a), costMicros := 0);
  }

  /** Their costs agree exactly when the micros are stated, or the two `cost_usd` values count
      for the same. */
  lemma SameReadingsSameCost(lib: Library, m: Merged, n: Merged)
    requires SameReadings(lib, m, n)
    ensures CostMicros(lib, m.attrs) == CostMicros(lib, n.attrs) <==>
            || Number(m, "cost_usd_micros") != 0
            || DollarMicros(lib, Lookup(m.attrs, "cost_usd")) == DollarMicros(lib, Lookup(n.attrs, "cost_usd"))
  {
    assert Number(m, "cost_usd_micros") == Number(n, "cost_usd_micros");
  }

  /** Pairwise equal keys with values that encode the same int64 read the same everywhere. */
  lemma ReencodedAttributesReadSame(lib: Library, a: seq<KeyValue>, b: seq<KeyValue>, k: string)
    requires |a| == |b|
    requires forall i | 0 <= i < |a| :: a[i].key == b[i].key
    requires forall i | 0 <= i < |a| ::
               a[i].value == b[i].value || exists n :: IsInt64(n) && EncodesInt(a[i].value, n) && EncodesInt(b[i].value, n)
    ensures SameReading(lib, Lookup(AttributesOf(a), k), Lookup(AttributesOf(b), k))
  {
    AttributesHoldLast(a, k);
    AttributesHoldLast(b, k);
    assert forall i: nat :: LastOccurrence(a, k, i) <==> LastOccurrence(b, k, i);
    if k in AttributesOf(a) {
      var i: nat :| LastOccurrence(a, k, i);
      if a[i].value != b[i].value {
        var n :| IsInt64(n) && EncodesInt(a[i].value, n) && EncodesInt(b[i].value, n);
        IntEncodingsAgree(lib, a[i].value, n);
        IntEncodingsAgree(lib, b[i].value, n);
      }
    }
  }

  /** The dollars of a non-zero integer, counted from its text, are not nothing. */
  lemma IntegerDollarsCount(n: int)
    ensures Truncate(n as real * MICROS + 0.5) == 0 <==> n == 0
  {
    var k := 1_000_000 * n;
    var y := k as real + 0.5;
    assert n as real * MICROS == k as real;
    assert y.Floor == k;
    if n < 0 {
      assert -y == (-k - 1) as real + 0.5;
      assert (-y).Floor == -k - 1;
    }
  }

  /** The cost in dollars is the one field that tells the encodings of an int64 apart: sent as a
      JSON integer it counts for nothing, as text for its value. The two records cost the same
      exactly when the micros are stated or the cost is zero. */
  lemma IntegerCostIsDropped(lib: Library, a: Attributes, n: int)
    requires lib.parseFloat(FormatInt(n)) == n as real
    ensures CostMicros(lib, a["cost_usd" := Int(n)]) == CostMicros(lib, a["cost_usd" := Str(FormatInt(n))]) <==>
            AsInt64(Lookup(a, "cost_usd_micros")) != 0 || n == 0
    ensures AsInt64(Lookup(a, "cost_usd_micros")) == 0 ==> CostMicros(lib, a["cost_usd" := Int(n)]) == 0
  {
    IntegerDollarsCount(n);
    var x, y := a["cost_usd" := Int(n)], a["cost_usd" := Str(FormatInt(n))];
    assert "cost_usd" != "cost_usd_micros";
    assert Lookup(x, "cost_usd_micros") == Lookup(y, "cost_usd_micros") == Lookup(a, "cost_usd_micros");
  }

  lemma EncodedReadsSame(lib: Library, a: Attributes, lr: LogRecord, n: int)
    requires IsInt64(n)
    ensures SameReadings(lib, Merged(a["cost_usd" := Int(n)], lr), Merged(a["cost_usd" := Str(FormatInt(n))], lr))
  {
    ParseFormat(n);
  }

  /** So the whole events, keys included, are equal exactly then. */
  lemma EncodingMattersExactly(lib: Library, a: Attributes, lr: LogRecord, n: int, t: Instant)
    requires IsInt64(n) && lib.parseFloat(FormatInt(n)) == n as real
    ensures EventOf(lib, Merged(a["cost_usd" := Int(n)], lr), t) == EventOf(lib, Merged(a["cost_usd" := Str(FormatInt(n))], lr), t)
            <==> AsInt64(Lookup(a, "cost_usd_micros")) != 0 || n == 0
  {
    EncodedReadsSame(lib, a, lr, n);
    IntegerCostIsDropped(lib, a, n);
    EventsDifferInCost(lib, Merged(a["cost_usd" := Int(n)], lr), Merged(a["cost_usd" := Str(FormatInt(n))], lr), t);
  }

  /** Records that read the same give the same event exactly when they cost the same. */
  lemma EventsDifferInCost(lib: Library, m: Merged, n: Merged, t: Instant)
    requires SameEnvelope(m, n) && SameReadings(lib, m, n)
    ensures EventOf(lib, m, t) == EventOf(lib, n, t) <==> CostMicros(lib, m.attrs) == CostMicros(lib, n.attrs)
  {
    SameReadingsSameEvent(lib, m, n, t);
    EventCost(lib, m, t);
    EventCost(lib, n, t);
    OnlyCostDiffers(EventOf(lib, m, t), EventOf(lib, n, t));
  }

  lemma EventCost(lib: Library, m: Merged, t: Instant)
    ensures EventOf(lib, m, t).costMicros == CostMicros(lib, m.attrs) && EventOf(lib, m, t).name == EventName(lib, m)
  {
    UnkeyedEnvelope(lib, m, t);
  }

  lemma OnlyCostDiffers(e: Event, f: Event)
    requires e.(costMicros := 0) == f.(costMicros := 0)
    ensures e == f <==> e.costMicros == f.costMicros
  {
    assert e == e.(costMicros := 0).(costMicros := e.costMicros);
    assert f == f.(costMicros := 0).(costMicros := f.costMicros);
  }
}
