/** When the text that makeEventKey hashes determines the event it was built from. */
module EventKey {
  import opened Seqs
  import opened Texts
  import opened Decimal
  import opened Timestamps
  import opened Otlp

  /** The fields the key is built from. */
  predicate SameKeyFields(e: Event, f: Event) {
    && e.name == f.name && e.session == f.session && e.sequence == f.sequence
    && e.request == f.request && e.clientRequest == f.clientRequest && e.time == f.time
  }

  /** What decoding guarantees of an event, and a time in years 0000 to 9999. */
  predicate Proper(e: Event) {
    && (e.name == "api_request" || e.name == "api_error")
    && IsInt64(e.sequence)
    && InRange(e.time)
  }

  function Bars(s: string): (parts: seq<string>)
    ensures |parts| >= 1
  {
    Split(s, '|')
  }

  /** The parts between the event name and the time. */
  function Middle(e: Event): seq<string> {
    Bars(e.session) + [FormatInt(e.sequence)] + Bars(e.request) + Bars(e.clientRequest)
  }

  function AllBars(parts: seq<string>): seq<string> {
    if parts == [] then [] else Bars(parts[0]) + AllBars(parts[1..])
  }

  lemma {:induction false} BarsOfJoin(parts: seq<string>)
    requires parts != []
    ensures Bars(Join(parts, "|")) == AllBars(parts)
  {
    if |parts| > 1 {
      SplitAtSeparator(parts[0], Join(parts[1..], "|"), '|');
      BarsOfJoin(parts[1..]);
    }
  }

  lemma AllBarsOfThree(a: string, b: string, c: string, rest: seq<string>)
    ensures AllBars([a, b, c] + rest) == Bars(a) + Bars(b) + Bars(c) + AllBars(rest)
  {
    var q := [a, b, c] + rest;
    assert q[1..] == [b, c] + rest && ([b, c] + rest)[1..] == [c] + rest && ([c] + rest)[1..] == rest;
    assert AllBars(q) == Bars(a) + AllBars([b, c] + rest);
    assert AllBars([b, c] + rest) == Bars(b) + AllBars([c] + rest);
    assert AllBars([c] + rest) == Bars(c) + AllBars(rest);
    Regroup3(Bars(a), Bars(b), Bars(c), AllBars(rest));
  }

  lemma Regroup3(a: seq<string>, b: seq<string>, c: seq<string>, d: seq<string>)
    ensures a + (b + (c + d)) == a + b + c + d
  {
    Associative(a, b, c + d);
    Associative(a + b, c, d);
  }

  lemma Regroup6(a: seq<string>, s: seq<string>, n: seq<string>, r: seq<string>, c: seq<string>, t: seq<string>)
    ensures a + s + n + (r + c + t) == a + (s + n + r + c) + t
  {
    Associative(r, c, t);
    Regroup3(a, s, n, r + (c + t));
    Associative(s, n, r + (c + t));
    Associative(s + n, r, c + t);
    Associative(s + n + r, c, t);
    Associative(a, s + n + r + c, t);
  }

  /** Cutting the preimage at its bars. */
  lemma PreimageParts(e: Event)
    requires '|' !in e.name
    ensures Bars(Preimage(e)) == [e.name] + Middle(e) + [Format(e.time)]
  {
    var n, t := FormatInt(e.sequence), Format(e.time);
    FormatBytes(e.time);
    FormatIntBytes(e.sequence);
    SplitAtom(e.name, '|');
    SplitAtom(n, '|');
    SplitAtom(t, '|');
    BarsOfJoin(KeyFields(e));
    assert KeyFields(e) == [e.name, e.session, n] + [e.request, e.clientRequest, t];
    AllBarsOfThree(e.name, e.session, n, [e.request, e.clientRequest, t]);
    assert [e.request, e.clientRequest, t] == [e.request, e.clientRequest, t] + [];
    AllBarsOfThree(e.request, e.clientRequest, t, []);
    var r, c := Bars(e.request), Bars(e.clientRequest);
    assert r + c + [t] + [] == r + c + [t];
    Regroup6([e.name], Bars(e.session), [n], r, c, [t]);
  }

  lemma EqualPreimagesSplit(e: Event, f: Event)
    requires '|' !in e.name && '|' !in f.name && Preimage(e) == Preimage(f)
    ensures e.name == f.name && Middle(e) == Middle(f) && Format(e.time) == Format(f.time)
  {
    PreimageParts(e);
    PreimageParts(f);
    var p := Bars(Preimage(e));
    assert p[0] == e.name == f.name;
    assert p[1..|p| - 1] == Middle(e) == Middle(f);
    assert p[|p| - 1] == Format(e.time) == Format(f.time);
  }

  /** Equal keys carry the same printed event time, whatever the ids contain. */
  lemma EqualKeysEqualTimeText(e: Event, f: Event)
    requires '|' !in e.name && '|' !in f.name
    requires MakeEventKey(e) == MakeEventKey(f)
    ensures Format(e.time) == Format(f.time)
  {
    EqualPreimagesSplit(e, f);
  }

  lemma PartsDetermine(s: string, t: string)
    requires Bars(s) == Bars(t)
    ensures s == t
  {
    JoinSplit(s, '|');
    JoinSplit(t, '|');
  }

  lemma AlignParts(s: seq<string>, n: string, r: seq<string>, c: seq<string>,
                   s': seq<string>, n': string, r': seq<string>, c': seq<string>)
    requires s + [n] + r + c == s' + [n'] + r' + c' && |s| == |s'| && |r| == |r'|
    ensures s == s' && n == n' && r == r' && c == c'
  {
    var m, k := s + [n] + r + c, |s|;
    assert m[..k] == s && m[..k] == s' && m[k] == n && m[k] == n';
    assert m[k + 1..k + 1 + |r|] == r && m[k + 1..k + 1 + |r|] == r';
    assert m[k + 1 + |r|..] == c && m[k + 1 + |r|..] == c';
  }

  /** Once the sessions split into equally many parts, and the requests too, all is equal. */
  lemma AlignedFieldsEqual(e: Event, f: Event)
    requires Proper(e) && Proper(f) && Preimage(e) == Preimage(f)
    requires |Bars(e.session)| == |Bars(f.session)| && |Bars(e.request)| == |Bars(f.request)|
    ensures SameKeyFields(e, f)
  {
    EqualPreimagesSplit(e, f);
    FormatInjective(e.time, f.time);
    AlignParts(Bars(e.session), FormatInt(e.sequence), Bars(e.request), Bars(e.clientRequest),
               Bars(f.session), FormatInt(f.sequence), Bars(f.request), Bars(f.clientRequest));
    FormatIntInjective(e.sequence, f.sequence);
    PartsDetermine(e.session, f.session);
    PartsDetermine(e.request, f.request);
    PartsDetermine(e.clientRequest, f.clientRequest);
  }

  /** Among events whose session and request ids contain no bar, the key determines the
      fields it is built from. The client request id may contain bars. */
  lemma KeyInjective(e: Event, f: Event)
    requires Proper(e) && Proper(f)
    requires '|' !in e.session && '|' !in e.request && '|' !in f.session && '|' !in f.request
    ensures MakeEventKey(e) == MakeEventKey(f) <==> SameKeyFields(e, f)
  {
    SplitAtom(e.session, '|');
    SplitAtom(f.session, '|');
    SplitAtom(e.request, '|');
    SplitAtom(f.request, '|');
    if MakeEventKey(e) == MakeEventKey(f) { AlignedFieldsEqual(e, f); }
  }

  // --------------------------------------------------- which events are unmistakable

  /** A part that reads as a canonical decimal int64. */
  predicate CanonicalInt(s: string) {
    ParseInt(s).ok && FormatInt(ParseInt(s).value) == s
  }

  /** No bar in the two request ids, and no part of the session id after its first bar
      that could be taken for the sequence number. */
  predicate Unambiguous(e: Event) {
    && '|' !in e.request && '|' !in e.clientRequest
    && forall i | 1 <= i < |Bars(e.session)| :: !CanonicalInt(Bars(e.session)[i])
  }

  lemma FormattedIsCanonical(n: int)
    requires IsInt64(n)
    ensures CanonicalInt(FormatInt(n))
  {
    ParseFormat(n);
  }

  /** Where a later reading would have to end the session. */
  lemma SessionEnds(s: seq<string>, n: string, r: string, c: string,
                    s': seq<string>, n': string, r': seq<string>, c': seq<string>)
    requires s + [n] + [r] + [c] == s' + [n'] + r' + c' && |r'| >= 1 && |c'| >= 1
    ensures |s'| < |s| ==> s[|s'|] == n'
    ensures |s'| >= |s| ==> |s'| == |s| && |r'| == 1
  {
    var m := s + [n] + [r] + [c];
    assert |m| == |s| + 3 && |m| == |s'| + 1 + |r'| + |c'|;
    assert m[|s'|] == n';
  }

  /** No other reading ends the session of an unambiguous event elsewhere. */
  lemma SessionsAlign(e: Event, f: Event)
    requires Proper(e) && Proper(f) && Unambiguous(e) && Preimage(e) == Preimage(f)
    ensures |Bars(f.session)| == |Bars(e.session)| && |Bars(f.request)| == 1
  {
    EqualPreimagesSplit(e, f);
    SplitAtom(e.request, '|');
    SplitAtom(e.clientRequest, '|');
    SessionEnds(Bars(e.session), FormatInt(e.sequence), e.request, e.clientRequest,
                Bars(f.session), FormatInt(f.sequence), Bars(f.request), Bars(f.clientRequest));
    FormattedIsCanonical(f.sequence);
  }

  lemma UnambiguousDetermines(e: Event, f: Event)
    requires Proper(e) && Proper(f) && Unambiguous(e) && Preimage(e) == Preimage(f)
    ensures SameKeyFields(e, f)
  {
    SessionsAlign(e, f);
    SplitAtom(e.request, '|');
    AlignedFieldsEqual(e, f);
  }

  lemma {:induction false} BarInside(s: string) returns (a: string, b: string)
    requires '|' in s
    ensures s == a + ['|'] + b
  {
    var i :| 0 <= i < |s| && s[i] == '|';
    a, b := s[..i], s[i + 1..];
  }

  lemma SameMiddleCollides(e: Event, f: Event)
    requires '|' !in e.name && e.name == f.name && e.time == f.time && Middle(e) == Middle(f)
    ensures Preimage(e) == Preimage(f)
  {
    PreimageParts(e);
    PreimageParts(f);
    PartsDetermine(Preimage(e), Preimage(f));
  }

  /** A bar in the request id can also be read as the border to the client request id. */
  lemma SplitRequest(e: Event) returns (f: Event)
    requires Proper(e) && '|' in e.request
    ensures Proper(f) && f.name == e.name && f.time == e.time && Middle(f) == Middle(e) && !SameKeyFields(e, f)
  {
    var a, b := BarInside(e.request);
    f := e.(request := a, clientRequest := b + ['|'] + e.clientRequest);
    SplitAtSeparator(a, b, '|');
    SplitAtSeparator(b, e.clientRequest, '|');
    assert |f.request| < |e.request|;
    Regroup2(Bars(e.session) + [FormatInt(e.sequence)], Bars(a), Bars(b), Bars(e.clientRequest));
  }

  lemma Regroup2(p: seq<string>, a: seq<string>, b: seq<string>, c: seq<string>)
    ensures p + a + (b + c) == p + (a + b) + c
  {
    Associative(p + a, b, c);
    Associative(p, a, b);
  }

  /** A bar in the client request id can also be read as the border to the request id. */
  lemma SplitClientRequest(e: Event) returns (f: Event)
    requires Proper(e) && '|' in e.clientRequest
    ensures Proper(f) && f.name == e.name && f.time == e.time && Middle(f) == Middle(e) && !SameKeyFields(e, f)
  {
    var a, b := BarInside(e.clientRequest);
    f := e.(request := e.request + ['|'] + a, clientRequest := b);
    SplitAtSeparator(a, b, '|');
    SplitAtSeparator(e.request, a, '|');
    assert |f.clientRequest| < |e.clientRequest|;
    Regroup2(Bars(e.session) + [FormatInt(e.sequence)], Bars(e.request), Bars(a), Bars(b));
  }

  lemma RegroupShift(front: seq<string>, x: string, back: seq<string>, n: string, r: seq<string>, c: seq<string>)
    ensures front + [x] + (back + [n]) + (r + c) == (front + [x] + back) + [n] + r + c
  {
    Associative(front + [x], back, [n]);
    Associative((front + [x] + back) + [n], r, c);
  }

  lemma ShiftKeepsMiddle(session: string, request: string, client: string, n: string, i: nat)
    requires i < |Bars(session)| && 1 <= i && '|' !in n
    ensures var parts := Bars(session);
            Bars(Join(parts[..i], "|")) + [parts[i]] + Bars(Join(parts[i + 1..] + [n], "|")) + Bars(request + ['|'] + client) ==
            Bars(session) + [n] + Bars(request) + Bars(client)
    ensures |Bars(Join(Bars(session)[..i], "|"))| == i
  {
    var parts := Bars(session);
    var front, back := parts[..i], parts[i + 1..];
    SplitPartsHaveNoSeparator(session, '|');
    SplitJoin(front, '|');
    SplitJoin(back + [n], '|');
    SplitAtSeparator(request, client, '|');
    assert parts == front + [parts[i]] + back;
    RegroupShift(front, parts[i], back, n, Bars(request), Bars(client));
  }

  /** A session part that reads as a number can also be taken for the sequence: the session
      then ends before it, and the rest moves one place to the right. */
  lemma ShiftSequence(e: Event, i: nat) returns (f: Event)
    requires Proper(e) && 1 <= i < |Bars(e.session)| && CanonicalInt(Bars(e.session)[i])
    ensures Proper(f) && f.name == e.name && f.time == e.time && Middle(f) == Middle(e) && !SameKeyFields(e, f)
  {
    var parts, n := Bars(e.session), FormatInt(e.sequence);
    var front, back := parts[..i], parts[i + 1..];
    f := e.(session := Join(front, "|"), sequence := ParseInt(parts[i]).value,
            request := Join(back + [n], "|"), clientRequest := e.request + ['|'] + e.clientRequest);
    ParsedIsInt64(parts[i]);
    FormatIntBytes(e.sequence);
    ShiftKeepsMiddle(e.session, e.request, e.clientRequest, n, i);
  }

  /** Every event that is not unambiguous shares its key with a different one. */
  lemma AmbiguousCollides(e: Event) returns (f: Event)
    requires Proper(e) && !Unambiguous(e)
    ensures Proper(f) && Preimage(f) == Preimage(e) && !SameKeyFields(e, f)
  {
    if '|' in e.request {
      f := SplitRequest(e);
    } else if '|' in e.clientRequest {
      f := SplitClientRequest(e);
    } else {
      var i :| 1 <= i < |Bars(e.session)| && CanonicalInt(Bars(e.session)[i]);
      f := ShiftSequence(e, i);
    }
    SameMiddleCollides(e, f);
  }

  lemma ParsedIsInt64(s: string)
    requires ParseInt(s).ok
    ensures IsInt64(ParseInt(s).value)
  {
  }

  /** The key of an event is shared by no event with other key fields exactly when the
      event is unambiguous. */
  lemma KeyDeterminesExactly(e: Event)
    requires Proper(e)
    ensures Unambiguous(e) <==>
            forall f :: Proper(f) && MakeEventKey(f) == MakeEventKey(e) ==> SameKeyFields(e, f)
  {
    if Unambiguous(e) {
      forall f | Proper(f) && MakeEventKey(f) == MakeEventKey(e) ensures SameKeyFields(e, f) {
        UnambiguousDetermines(e, f);
      }
    } else {
      var f := AmbiguousCollides(e);
      assert MakeEventKey(f) == MakeEventKey(e);
    }
  }

  // ------------------------------------------------------------- decoded events

  /** A metered event with an int64 sequence and the key of its own fields. */
  predicate Keyed(e: Event) {
    && (e.name == "api_request" || e.name == "api_error")
    && IsInt64(e.sequence)
    && e.key == MakeEventKey(e)
  }

  predicate IntInRange(v: Value) {
    v.Int? ==> IsInt64(v.n)
  }

  lemma {:induction false} AttributesInRange(kvs: seq<KeyValue>)
    ensures forall k <- AttributesOf(kvs) :: IntInRange(AttributesOf(kvs)[k])
  {
    if kvs != [] {
      AttributesInRange(kvs[..|kvs| - 1]);
      AnyValueInRange(kvs[|kvs| - 1].value);
    }
  }

  lemma AnyValueInRange(v: AnyValue)
    ensures IntInRange(AnyValueOf(v))
  {
    if v.intValue.IntText? && ParseInt(v.intValue.s).ok { ParsedIsInt64(v.intValue.s); }
  }

  lemma ReadingInRange(v: Value)
    requires IntInRange(v)
    ensures IsInt64(AsInt64(v))
  {
  }

  lemma EmittedKeyed(lib: Library, m: Merged, t: Instant, e: Event)
    requires forall k <- m.attrs :: IntInRange(m.attrs[k])
    requires e in Emit(lib, m, t)
    ensures Keyed(e)
  {
    var u := Unkeyed(lib, m, t);
    ReadingInRange(Lookup(m.attrs, "event.sequence"));
    UnkeyedEnvelope(lib, m, t);
    KeyIgnoresKey(u, MakeEventKey(u));
  }

  /** Every decoded event is keyed. */
  lemma DecodedAreKeyed(lib: Library, req: Request, t: Instant, e: Event)
    requires e in Decoded(lib, req, t)
    ensures Keyed(e)
  {
    var rl := FlatMapMembers(GroupEvents(lib, t), req, e);
    var resource := AttributesOf(rl.attributes);
    var scope := FlatMapMembers(ScopeEvents(lib, t, resource), rl.scopeLogs, e);
    var lr := FlatMapMembers(RecordEvents(lib, t, resource), scope, e);
    AttributesInRange(rl.attributes);
    AttributesInRange(lr.attributes);
    EmittedKeyed(lib, MergeRecord(resource, lr), t, e);
  }
}
