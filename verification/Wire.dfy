/** What is sent, attribute by attribute: which sent value fills which field of an event, of the
    totals and of the history. Everything is read off the wire format itself. */
module Wire {
  import opened Wrappers
  import opened Seqs
  import opened Texts
  import opened Decimal
  import opened Timestamps
  import opened Reading
  import opened Otlp
  import opened Ledger
  import opened Query
  import opened Reports
  import opened Storage
  import opened Delivery

  // -------------------------------------------------------------------- sent values

  /** The value of the last pair with key `k`. */
  function LastSent(kvs: seq<KeyValue>, k: string): Option<AnyValue> {
    if kvs == [] then None
    else if kvs[|kvs| - 1].key == k then Some(kvs[|kvs| - 1].value)
    else LastSent(kvs[..|kvs| - 1], k)
  }

  /** The text a sent value stands for: a string first, then an int64, a float, a truth value,
      and bytes only when there is nothing else; lists stand for nothing. */
  function TextSent(lib: Library, sent: Option<AnyValue>): string {
    match sent
    case None => ""
    case Some(v) =>
      if v.stringValue.Some? then v.stringValue.value
      else if v.intValue.IntText? then
        if ParseInt(v.intValue.s).ok then FormatInt(ParseInt(v.intValue.s).value) else v.intValue.s
      else if v.intValue.IntNumber? && IsInt64(v.intValue.n) then FormatInt(v.intValue.n)
      else if v.doubleValue.Some? then lib.formatFloat(v.doubleValue.value)
      else if v.boolValue.Some? then (if v.boolValue.value then "true" else "false")
      else if v.arrayValue.Some? || v.kvlistValue.Some? || v.bytesValue.None? then ""
      else v.bytesValue.value
  }

  /** The number a sent value stands for. */
  function NumberSent(sent: Option<AnyValue>): int {
    match sent
    case None => 0
    case Some(v) =>
      if v.stringValue.Some? then ParseInt(v.stringValue.value).value
      else if v.intValue.IntText? then ParseInt(v.intValue.s).value
      else if v.intValue.IntNumber? && IsInt64(v.intValue.n) then v.intValue.n
      else if v.doubleValue.Some? then Truncate(v.doubleValue.value)
      else if v.boolValue.Some? || v.arrayValue.Some? || v.kvlistValue.Some? || v.bytesValue.None? then 0
      else ParseInt(v.bytesValue.value).value
  }

  /** The micros a `cost_usd` value stands for: only floats and texts do. */
  function DollarsSent(lib: Library, sent: Option<AnyValue>): int {
    match sent
    case None => 0
    case Some(v) =>
      if v.stringValue.Some? then Truncate(lib.parseFloat(v.stringValue.value) * 1_000_000.0 + 0.5)
      else if v.intValue.IntText? then
        if ParseInt(v.intValue.s).ok then 0 else Truncate(lib.parseFloat(v.intValue.s) * 1_000_000.0 + 0.5)
      else if v.intValue.IntNumber? && IsInt64(v.intValue.n) then 0
      else if v.doubleValue.Some? then Truncate(v.doubleValue.value * 1_000_000.0 + 0.5)
      else if v.boolValue.Some? || v.arrayValue.Some? || v.kvlistValue.Some? || v.bytesValue.None? then 0
      else Truncate(lib.parseFloat(v.bytesValue.value) * 1_000_000.0 + 0.5)
  }

  // -------------------------------------------------------------------- sent records

  /** A record with all its attributes: its resource's, then its own. */
  datatype Sent = Sent(attributes: seq<KeyValue>, record: LogRecord)

  function SentText(lib: Library, s: Sent, k: string): string {
    TextSent(lib, LastSent(s.attributes, k))
  }

  function SentNumber(s: Sent, k: string): int {
    NumberSent(LastSent(s.attributes, k))
  }

  /** Stated micros if there are any, dollars otherwise. */
  function SentCost(lib: Library, s: Sent): int {
    if SentNumber(s, "cost_usd_micros") != 0 then SentNumber(s, "cost_usd_micros")
    else DollarsSent(lib, LastSent(s.attributes, "cost_usd"))
  }

  /** The event's name: the attribute, or the body without its prefix and outer white space. */
  function SentName(lib: Library, s: Sent): string {
    if SentText(lib, s, "event.name") != "" then SentText(lib, s, "event.name")
    else TrimSpace(TrimPrefix(TextSent(lib, s.record.body), "claude_code."))
  }

  predicate SentMetered(lib: Library, s: Sent) {
    SentName(lib, s) == "api_request" || SentName(lib, s) == "api_error"
  }

  /** The event time: the stated timestamp if it parses, else the record's nanosecond time if
      that is positive, else the observed one, else the time of receipt. */
  function SentTime(lib: Library, s: Sent, receivedAt: Instant): Instant {
    var stated := SentText(lib, s, "event.timestamp");
    var own, observed := ParseInt(s.record.timeUnixNano), ParseInt(s.record.observedTimeUnixNano);
    if stated != "" && lib.parseTime(stated).Some? then lib.parseTime(stated).value
    else if own.ok && own.value > 0 then 86_400 * DayNumber(1970, 1, 1) * 1_000_000_000 + own.value
    else if observed.ok && observed.value > 0 then 86_400 * DayNumber(1970, 1, 1) * 1_000_000_000 + observed.value
    else receivedAt
  }

  // Which attribute fills which field; `text` and `number` read an attribute.

  predicate HoldsIds(text: string -> string, number: string -> int, e: Event) {
    && e.sequence == number("event.sequence")
    && e.session == text("session.id")
    && e.request == text("request_id")
    && e.clientRequest == text("client_request_id")
    && e.userId == text("user.id")
  }

  predicate HoldsOrigin(text: string -> string, e: Event) {
    && e.person == text("meter.person")
    && e.device == text("meter.device")
    && e.nodeId == text("meter.node_id")
    && e.sourceIp == text("meter.source_ip")
  }

  predicate HoldsAccount(text: string -> string, e: Event) {
    && e.accountUuid == text("user.account_uuid")
    && e.accountId == text("user.account_id")
    && e.accountEmail == text("user.email")
    && e.organizationId == text("organization.id")
  }

  predicate HoldsTokens(number: string -> int, e: Event) {
    && e.inputTokens == number("input_tokens")
    && e.outputTokens == number("output_tokens")
    && e.cacheReadTokens == number("cache_read_tokens")
    && e.cacheCreationTokens == number("cache_creation_tokens")
  }

  predicate HoldsModel(text: string -> string, e: Event) {
    && e.model == text("model")
    && e.querySource == text("query_source")
    && e.effort == text("effort")
    && e.speed == text("speed")
  }

  predicate HoldsOutcome(text: string -> string, number: string -> int, e: Event) {
    && e.durationMs == number("duration_ms")
    && e.statusCode == number("status_code")
    && e.error == text("error")
  }

  /** Every field of the event holds what was sent for it. */
  predicate Holds(lib: Library, e: Event, s: Sent, receivedAt: Instant) {
    var text, number := k => SentText(lib, s, k), k => SentNumber(s, k);
    && e.name == SentName(lib, s) && e.time == SentTime(lib, s, receivedAt) && e.costMicros == SentCost(lib, s)
    && HoldsIds(text, number, e) && HoldsOrigin(text, e) && HoldsAccount(text, e)
    && HoldsTokens(number, e) && HoldsModel(text, e) && HoldsOutcome(text, number, e)
  }

  /** The records of a request in delivery order. */
  function Records(req: Request): seq<Sent> {
    FlatMap(GroupRecords, req)
  }

  function GroupRecords(rl: ResourceLogs): seq<Sent> {
    FlatMap(ScopeRecords(rl.attributes), rl.scopeLogs)
  }

  function ScopeRecords(attributes: seq<KeyValue>): seq<LogRecord> -> seq<Sent> {
    (scope: seq<LogRecord>) => FlatMap(OneRecord(attributes), scope)
  }

  function OneRecord(attributes: seq<KeyValue>): LogRecord -> seq<Sent> {
    (lr: LogRecord) => [Sent(attributes + lr.attributes, lr)]
  }

  function MeteredRecords(lib: Library, req: Request): seq<Sent> {
    Filter(s => SentMetered(lib, s), Records(req))
  }

  // ------------------------------------------------------------------ reading values

  lemma SentAsText(lib: Library, v: AnyValue)
    ensures AsString(lib, AnyValueOf(v)) == TextSent(lib, Some(v))
  {
  }

  lemma SentAsNumber(v: AnyValue)
    ensures AsInt64(AnyValueOf(v)) == NumberSent(Some(v))
  {
  }

  lemma SentAsDollars(lib: Library, v: AnyValue)
    ensures DollarMicros(lib, AnyValueOf(v)) == DollarsSent(lib, Some(v))
  {
  }

  /** Text, number and dollars of a value, straight from its fields on the wire. */
  lemma SentValue(lib: Library, v: AnyValue)
    ensures AsString(lib, AnyValueOf(v)) == TextSent(lib, Some(v))
    ensures AsInt64(AnyValueOf(v)) == NumberSent(Some(v))
    ensures DollarMicros(lib, AnyValueOf(v)) == DollarsSent(lib, Some(v))
  {
    SentAsText(lib, v);
    SentAsNumber(v);
    SentAsDollars(lib, v);
  }

  lemma {:induction false} SentLookup(lib: Library, kvs: seq<KeyValue>, k: string)
    ensures AsString(lib, Lookup(AttributesOf(kvs), k)) == TextSent(lib, LastSent(kvs, k))
    ensures AsInt64(Lookup(AttributesOf(kvs), k)) == NumberSent(LastSent(kvs, k))
    ensures DollarMicros(lib, Lookup(AttributesOf(kvs), k)) == DollarsSent(lib, LastSent(kvs, k))
  {
    if kvs != [] {
      var last := kvs[|kvs| - 1];
      if last.key == k { SentValue(lib, last.value); } else { SentLookup(lib, kvs[..|kvs| - 1], k); }
    }
  }

  function MergedOf(s: Sent): Merged {
    Merged(AttributesOf(s.attributes), s.record)
  }

  lemma SentReads(lib: Library, s: Sent, k: string)
    ensures Text(lib, MergedOf(s), k) == SentText(lib, s, k)
    ensures Number(MergedOf(s), k) == SentNumber(s, k)
  {
    SentLookup(lib, s.attributes, k);
  }

  lemma SentNameIs(lib: Library, s: Sent)
    ensures EventName(lib, MergedOf(s)) == SentName(lib, s)
  {
    SentReads(lib, s, "event.name");
    if s.record.body.Some? { SentValue(lib, s.record.body.value); }
    BodyNameIs(lib, s.record.body);
  }

  lemma BodyNameIs(lib: Library, body: Option<AnyValue>)
    ensures BodyEventName(lib, body) == TrimSpace(TrimPrefix(TextSent(lib, body), "claude_code."))
  {
    if body.Some? {
      SentValue(lib, body.value);
    } else {
      EmptyStaysEmpty("", "claude_code.");
    }
  }

  lemma EmptyStaysEmpty(s: string, p: string)
    requires s == ""
    ensures TrimSpace(TrimPrefix(s, p)) == ""
  {
  }

  lemma SentTimeIs(lib: Library, s: Sent, t: Instant)
    ensures EventTime(lib, AttributesOf(s.attributes), s.record, t) == SentTime(lib, s, t)
  {
    SentLookup(lib, s.attributes, "event.timestamp");
    var a, b := s.record.timeUnixNano, s.record.observedTimeUnixNano;
    assert [a, b][1..] == [b] && [b][1..] == [];
    assert FirstPositive([b]) == if ParseInt(b).ok && ParseInt(b).value > 0 then Some(ParseInt(b).value) else None;
    EpochIs1970(ParseInt(a).value);
    EpochIs1970(ParseInt(b).value);
  }

  lemma SentCostIs(lib: Library, s: Sent)
    ensures CostMicros(lib, AttributesOf(s.attributes)) == SentCost(lib, s)
  {
    SentLookup(lib, s.attributes, "cost_usd_micros");
    SentLookup(lib, s.attributes, "cost_usd");
  }

  // ----------------------------------------------------------------- reading records

  lemma FieldsHold(text: string -> string, number: string -> int, name: string, time: Instant, costMicros: int)
    ensures var e := EventWith(text, number, name, time, costMicros);
            && HoldsIds(text, number, e) && HoldsOrigin(text, e) && HoldsAccount(text, e)
            && HoldsTokens(number, e) && HoldsModel(text, e) && HoldsOutcome(text, number, e)
  {
  }

  /** Giving an event its key leaves the other fields. */
  lemma KeyedHolds(e: Event, key: string, text: string -> string, number: string -> int)
    requires HoldsIds(text, number, e) && HoldsOrigin(text, e) && HoldsAccount(text, e)
    requires HoldsTokens(number, e) && HoldsModel(text, e) && HoldsOutcome(text, number, e)
    ensures var f := e.(key := key);
            && HoldsIds(text, number, f) && HoldsOrigin(text, f) && HoldsAccount(text, f)
            && HoldsTokens(number, f) && HoldsModel(text, f) && HoldsOutcome(text, number, f)
  {
  }

  lemma EventHolds(lib: Library, s: Sent, t: Instant)
    ensures Holds(lib, EventOf(lib, MergedOf(s), t), s, t)
  {
    var m := MergedOf(s);
    var text, number := k => SentText(lib, s, k), k => SentNumber(s, k);
    SentNameIs(lib, s);
    SentTimeIs(lib, s, t);
    SentCostIs(lib, s);
    forall k ensures text(k) == Text(lib, m, k) && number(k) == Number(m, k) { SentReads(lib, s, k); }
    var name, time, cost := SentName(lib, s), SentTime(lib, s, t), SentCost(lib, s);
    SameReadersSameEvent(text, number, k => Text(lib, m, k), k => Number(m, k), name, time, cost);
    FieldsHold(text, number, name, time, cost);
    KeyedHolds(Unkeyed(lib, m, t), MakeEventKey(Unkeyed(lib, m, t)), text, number);
  }

  function EmitSent(lib: Library, t: Instant): Sent -> seq<Event> {
    (s: Sent) => Emit(lib, MergedOf(s), t)
  }

  lemma {:induction false} FlatMapNested<T, U, V>(f: U -> seq<V>, g: T -> seq<U>, h: T -> seq<V>, s: seq<T>)
    requires forall x <- s :: h(x) == FlatMap(f, g(x))
    ensures FlatMap(f, FlatMap(g, s)) == FlatMap(h, s)
  {
    if s != [] {
      var n := |s| - 1;
      assert s[n] in s;
      FlatMapNested(f, g, h, s[..n]);
      FlatMapAppend(f, FlatMap(g, s[..n]), g(s[n]));
    }
  }

  lemma RecordDecoded(lib: Library, attributes: seq<KeyValue>, lr: LogRecord, t: Instant)
    ensures RecordEvents(lib, t, AttributesOf(attributes))(lr) == FlatMap(EmitSent(lib, t), OneRecord(attributes)(lr))
  {
    AttributesConcatenate(attributes, lr.attributes);
    FlatMapOne(EmitSent(lib, t), Sent(attributes + lr.attributes, lr));
  }

  lemma ScopeDecoded(lib: Library, attributes: seq<KeyValue>, scope: seq<LogRecord>, t: Instant)
    ensures ScopeEvents(lib, t, AttributesOf(attributes))(scope) == FlatMap(EmitSent(lib, t), ScopeRecords(attributes)(scope))
  {
    forall lr: LogRecord
      ensures RecordEvents(lib, t, AttributesOf(attributes))(lr) == FlatMap(EmitSent(lib, t), OneRecord(attributes)(lr))
    {
      RecordDecoded(lib, attributes, lr, t);
    }
    FlatMapNested(EmitSent(lib, t), OneRecord(attributes), RecordEvents(lib, t, AttributesOf(attributes)), scope);
  }

  lemma GroupDecoded(lib: Library, rl: ResourceLogs, t: Instant)
    ensures GroupEvents(lib, t)(rl) == FlatMap(EmitSent(lib, t), GroupRecords(rl))
  {
    var attributes := rl.attributes;
    forall scope: seq<LogRecord>
      ensures ScopeEvents(lib, t, AttributesOf(attributes))(scope) == FlatMap(EmitSent(lib, t), ScopeRecords(attributes)(scope))
    {
      ScopeDecoded(lib, attributes, scope, t);
    }
    FlatMapNested(EmitSent(lib, t), ScopeRecords(attributes), ScopeEvents(lib, t, AttributesOf(attributes)), rl.scopeLogs);
  }

  lemma DecodedRecords(lib: Library, req: Request, t: Instant)
    ensures Decoded(lib, req, t) == FlatMap(EmitSent(lib, t), Records(req))
  {
    forall rl: ResourceLogs ensures GroupEvents(lib, t)(rl) == FlatMap(EmitSent(lib, t), GroupRecords(rl)) {
      GroupDecoded(lib, rl, t);
    }
    FlatMapNested(EmitSent(lib, t), GroupRecords, GroupEvents(lib, t), req);
  }

  predicate Paired<T, U>(p: (T, U) -> bool, a: seq<T>, b: seq<U>) {
    |a| == |b| && forall i | 0 <= i < |a| :: p(a[i], b[i])
  }

  lemma PairedLast<T, U>(p: (T, U) -> bool, a: seq<T>, b: seq<U>)
    requires Paired(p, a, b) && a != []
    ensures var n := |a| - 1; Paired(p, a[..n], b[..n]) && p(a[n], b[n]) && b == b[..n] + [b[n]]
  {
  }

  /** One event for each record, in order. */
  predicate AllHold(lib: Library, events: seq<Event>, records: seq<Sent>, t: Instant) {
    Paired((e, s) => Holds(lib, e, s, t), events, records)
  }

  lemma {:induction false} EmittedHold(lib: Library, records: seq<Sent>, t: Instant)
    ensures AllHold(lib, FlatMap(EmitSent(lib, t), records), Filter(s => SentMetered(lib, s), records), t)
  {
    if records != [] {
      var n := |records| - 1;
      EmittedHold(lib, records[..n], t);
      EmittedHolds(lib, records[n], t);
    }
  }

  lemma EmittedHolds(lib: Library, s: Sent, t: Instant)
    ensures AllHold(lib, EmitSent(lib, t)(s), if SentMetered(lib, s) then [s] else [], t)
  {
    SentNameIs(lib, s);
    EventHolds(lib, s, t);
  }

  /** What decoding means on the wire: the events are those of the metered records, in delivery
      order, and every field holds what was sent for it. */
  lemma DecodedHolds(lib: Library, req: Request, t: Instant)
    ensures AllHold(lib, Decoded(lib, req, t), MeteredRecords(lib, req), t)
  {
    DecodedRecords(lib, req, t);
    EmittedHold(lib, Records(req), t);
  }

  /** The last pair with a key is the one that no later pair with that key follows. */
  lemma {:induction false} LastSentIs(kvs: seq<KeyValue>, k: string)
    ensures LastSent(kvs, k) == None <==> forall i | 0 <= i < |kvs| :: kvs[i].key != k
    ensures forall i: nat :: LastOccurrence(kvs, k, i) ==> LastSent(kvs, k) == Some(kvs[i].value)
  {
    if kvs != [] {
      var n := |kvs| - 1;
      LastSentIs(kvs[..n], k);
      if kvs[n].key != k {
        forall i: nat | LastOccurrence(kvs, k, i) ensures LastSent(kvs, k) == Some(kvs[i].value) {
          assert LastOccurrence(kvs[..n], k, i);
        }
      }
    }
  }

  /** So a record whose last "input_tokens" encodes n gives an event with n input tokens, and
      likewise for every number and text, however an integer is encoded. */
  lemma IntegerHolds(lib: Library, s: Sent, k: string, i: nat, n: int)
    requires LastOccurrence(s.attributes, k, i) && IsInt64(n) && EncodesInt(s.attributes[i].value, n)
    ensures SentNumber(s, k) == n && SentText(lib, s, k) == FormatInt(n)
  {
    LastSentIs(s.attributes, k);
    ParseFormat(n);
  }

  // -------------------------------------------------------------- totals and history

  function SumSent(k: string, records: seq<Sent>): int {
    if records == [] then 0 else SumSent(k, records[..|records| - 1]) + SentNumber(records[|records| - 1], k)
  }

  function SumSentCost(lib: Library, records: seq<Sent>): int {
    if records == [] then 0 else SumSentCost(lib, records[..|records| - 1]) + SentCost(lib, records[|records| - 1])
  }

  /** The record is a request, and the report asks for its time and its person. */
  predicate AskedFor(lib: Library, s: Sent, receivedAt: Instant, since: Option<Instant>, person: string) {
    && SentName(lib, s) == "api_request"
    && (since.Some? ==> !Less(Format(SentTime(lib, s, receivedAt)), Format(since.value)))
    && (!Blank(person) ==> SentText(lib, s, "meter.person") == person)
  }

  function AskedRecords(lib: Library, records: seq<Sent>, receivedAt: Instant, since: Option<Instant>, person: string): seq<Sent> {
    Filter(s => AskedFor(lib, s, receivedAt, since, person), records)
  }

  /** `b` counts, on top of `a`, one request for each record and the numbers they state. */
  predicate AddsSent(lib: Library, a: Totals, b: Totals, records: seq<Sent>) {
    && b.requests == a.requests + |records|
    && b.inputTokens == a.inputTokens + SumSent("input_tokens", records)
    && b.outputTokens == a.outputTokens + SumSent("output_tokens", records)
    && b.cacheReadTokens == a.cacheReadTokens + SumSent("cache_read_tokens", records)
    && b.cacheCreationTokens == a.cacheCreationTokens + SumSent("cache_creation_tokens", records)
    && b.costUsdMicros == a.costUsdMicros + SumSentCost(lib, records)
  }

  /** The additive fields of one event. */
  predicate AddsEvent(a: Totals, b: Totals, e: Event) {
    && b.requests == a.requests + 1
    && b.inputTokens == a.inputTokens + e.inputTokens
    && b.outputTokens == a.outputTokens + e.outputTokens
    && b.cacheReadTokens == a.cacheReadTokens + e.cacheReadTokens
    && b.cacheCreationTokens == a.cacheCreationTokens + e.cacheCreationTokens
    && b.costUsdMicros == a.costUsdMicros + e.costMicros
  }

  lemma OneMoreSent(lib: Library, start: Totals, a: Totals, b: Totals, e: Event, records: seq<Sent>, s: Sent)
    requires AddsSent(lib, start, a, records) && AddsEvent(a, b, e)
    requires e.costMicros == SentCost(lib, s) && HoldsTokens(k => SentNumber(s, k), e)
    ensures AddsSent(lib, start, b, records + [s])
  {
    var all := records + [s];
    assert all[..|all| - 1] == records;
  }

  lemma AskedIsWanted(lib: Library, e: Event, s: Sent, receivedAt: Instant, now: string, since: Option<Instant>, person: string)
    requires Holds(lib, e, s, receivedAt)
    ensures Wanted(since, person, true, RowOf(e, now)) == AskedFor(lib, s, receivedAt, since, person)
  {
    assert e.person == SentText(lib, s, "meter.person");
  }

  lemma {:induction false} RowsAddSent(lib: Library, table: Table, events: seq<Event>, records: seq<Sent>, t: Instant, now: string,
                                       since: Option<Instant>, person: string)
    requires AllHold(lib, events, records, t)
    ensures AddsSent(lib, TotalsOf(Selected(table, since, person, true)),
                     TotalsOf(Selected(table + RowsOf(events, now), since, person, true)),
                     AskedRecords(lib, records, t, since, person))
  {
    if events == [] {
      assert table + RowsOf(events, now) == table;
      NothingSent(lib, TotalsOf(Selected(table, since, person, true)), AskedRecords(lib, records, t, since, person));
    } else {
      var n := |events| - 1;
      PairedLast((e, s) => Holds(lib, e, s, t), events, records);
      RowsAddSent(lib, table, events[..n], records[..n], t, now, since, person);
      RowsOfLast(table, events, now);
      LastRowAddsSent(lib, table, table + RowsOf(events[..n], now), events[n], records[..n], records[n], t, now, since, person);
    }
  }

  lemma NothingSent(lib: Library, a: Totals, records: seq<Sent>)
    requires records == []
    ensures AddsSent(lib, a, a, records)
  {
  }

  lemma RowsOfLast(table: Table, events: seq<Event>, now: string)
    requires events != []
    ensures var n := |events| - 1;
            table + RowsOf(events, now) == (table + RowsOf(events[..n], now)) + [RowOf(events[n], now)]
  {
  }

  lemma LastRowAddsSent(lib: Library, start: Table, table: Table, e: Event, records: seq<Sent>, s: Sent, t: Instant, now: string,
                        since: Option<Instant>, person: string)
    requires Holds(lib, e, s, t)
    requires AddsSent(lib, TotalsOf(Selected(start, since, person, true)), TotalsOf(Selected(table, since, person, true)),
                      AskedRecords(lib, records, t, since, person))
    ensures AddsSent(lib, TotalsOf(Selected(start, since, person, true)), TotalsOf(Selected(table + [RowOf(e, now)], since, person, true)),
                     AskedRecords(lib, records + [s], t, since, person))
  {
    var before, after := TotalsOf(Selected(table, since, person, true)), TotalsOf(Selected(table + [RowOf(e, now)], since, person, true));
    var asked := AskedRecords(lib, records, t, since, person);
    WantedRowCounts(table, RowOf(e, now), since, person, true);
    AskedIsWanted(lib, e, s, t, now, since, person);
    FilterSnoc(x => AskedFor(lib, x, t, since, person), records, s);
    if AskedFor(lib, s, t, since, person) {
      OneMoreSent(lib, TotalsOf(Selected(start, since, person, true)), before, after, e, asked, s);
    } else {
      assert asked + [] == asked;
    }
  }

  /** From the wire to the report: an acknowledged payload with new keys adds to every total
      exactly what its records state, for the window and the person asked for. */
  lemma PostedTotals(table: Table, lib: Library, payload: Request, t: Instant, now: string, since: Option<Instant>, person: string)
    requires UniqueKeys(RowsOf(Decoded(lib, payload, t), now)) && Keys(RowsOf(Decoded(lib, payload, t), now)) !! Keys(table)
    ensures AddsSent(lib, TotalsOf(Selected(table, since, person, true)),
                     TotalsOf(Selected(Posted(table, lib, payload, t, now), since, person, true)),
                     AskedRecords(lib, MeteredRecords(lib, payload), t, since, person))
  {
    DecodedHolds(lib, payload, t);
    NewKeysAppended(table, RowsOf(Decoded(lib, payload, t), now));
    RowsAddSent(lib, table, Decoded(lib, payload, t), MeteredRecords(lib, payload), t, now, since, person);
  }

  /** The history of an event shows what was sent, the empty person as "unknown". */
  lemma HistoryShowsSent(lib: Library, e: Event, s: Sent, receivedAt: Instant, now: string)
    requires Holds(lib, e, s, receivedAt)
    ensures var h := HistoryRowOf(lib, RowOf(e, now));
            && h.time == lib.parseTime(Format(SentTime(lib, s, receivedAt))) && h.eventName == SentName(lib, s)
            && h.person == (if SentText(lib, s, "meter.person") == "" then "unknown" else SentText(lib, s, "meter.person"))
            && h.device == SentText(lib, s, "meter.device") && h.session == SentText(lib, s, "session.id")
            && h.accountUuid == SentText(lib, s, "user.account_uuid") && h.accountEmail == SentText(lib, s, "user.email")
  {
  }

  lemma HistoryShowsUsage(lib: Library, e: Event, s: Sent, receivedAt: Instant, now: string)
    requires Holds(lib, e, s, receivedAt)
    ensures var h := HistoryRowOf(lib, RowOf(e, now));
            && h.inputTokens == SentNumber(s, "input_tokens") && h.outputTokens == SentNumber(s, "output_tokens")
            && h.cacheReadTokens == SentNumber(s, "cache_read_tokens")
            && h.cacheCreationTokens == SentNumber(s, "cache_creation_tokens")
            && h.costUsdMicros == SentCost(lib, s) && h.durationMs == SentNumber(s, "duration_ms")
            && h.statusCode == SentNumber(s, "status_code")
  {
  }

  lemma HistoryShowsModel(lib: Library, e: Event, s: Sent, receivedAt: Instant, now: string)
    requires Holds(lib, e, s, receivedAt)
    ensures var h := HistoryRowOf(lib, RowOf(e, now));
            && h.model == SentText(lib, s, "model") && h.querySource == SentText(lib, s, "query_source")
            && h.effort == SentText(lib, s, "effort") && h.error == SentText(lib, s, "error")
  {
  }
}
