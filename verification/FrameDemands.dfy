/** What the frames of a service demand: the definition in `Monitor` on the messages that it is about. */
module FrameDemands {
  import opened Bytes
  import opened Bignum
  import opened Events
  import opened Protocol
  import opened ProtocolRequests
  import opened Monitor

  /** One leading event. */
  lemma BehindEvent(e: Event, rest: bytes)
    requires Encodable(e)
    ensures BehindEvents(EventBytes(e) + rest) == BehindEvents(rest)
  {
    var body := EventBytes(e) + rest;
    EventBytesNonEmpty(e);
    assert body[|EventBytes(e)|..] == rest;
    match e
    case KeepAlive =>
      assert [] + Le32(MESSAGE_KEEPALIVE) + rest == body;
      WordOf(MESSAGE_KEEPALIVE, [], rest);
    case Reinit(_, _, _, _, _) =>
      assert [] + EventBytes(e) + rest == body;
      ReinitOf(e, [], rest, body);
  }

  lemma {:induction false} BehindEventsOf(es: seq<Event>, rest: bytes)
    requires forall k :: 0 <= k < |es| ==> Encodable(es[k])
    ensures BehindEvents(TailBytes(es) + rest) == BehindEvents(rest)
    decreases |es|
  {
    hide EventBytes, BehindEvents;
    if es == [] {
      assert [] + rest == rest;
    } else {
      Associative(EventBytes(es[0]), TailBytes(es[1..]), rest);
      BehindEvent(es[0], TailBytes(es[1..]) + rest);
      BehindEventsOf(es[1..], rest);
    }
  }

  /** Every frame is whole events and what is behind them. */
  lemma {:induction false} LeadingEvents(body: bytes) returns (es: seq<Event>)
    ensures forall k :: 0 <= k < |es| ==> Encodable(es[k])
    ensures body == TailBytes(es) + BehindEvents(body)
    decreases |body|
  {
    if BehindEvents(body) == body {
      es := [];
    } else {
      var e, n := FirstOf(body);
      var rest := LeadingEvents(body[n..]);
      es := [e] + rest;
      JoinEvents(e, rest, body, n);
    }
  }

  lemma FirstOf(body: bytes) returns (e: Event, n: nat)
    requires BehindEvents(body) != body
    ensures Encodable(e) && 0 < n <= |body| && body[..n] == EventBytes(e)
    ensures BehindEvents(body) == BehindEvents(body[n..])
  {
    WordBytes(0, body);
    if Word(0, body).value == MESSAGE_KEEPALIVE {
      e, n := KeepAlive, 4;
    } else {
      assert body[4 - 4..4] == Le32(MESSAGE_REINIT);
      ReinitBytes(4, body);
      e, n := ReinitAt(4, body).value, 18;
    }
  }

  lemma JoinEvents(e: Event, rest: seq<Event>, body: bytes, n: nat)
    requires Encodable(e) && (forall k :: 0 <= k < |rest| ==> Encodable(rest[k])) && n <= |body|
    requires body[..n] == EventBytes(e) && body[n..] == TailBytes(rest) + BehindEvents(body[n..])
    requires BehindEvents(body) == BehindEvents(body[n..])
    ensures forall k :: 0 <= k < |[e] + rest| ==> Encodable(([e] + rest)[k])
    ensures body == TailBytes([e] + rest) + BehindEvents(body)
  {
    hide EventBytes, BehindEvents;
    assert ([e] + rest)[1..] == rest;
    assert body == body[..n] + body[n..];
    Associative(EventBytes(e), TailBytes(rest), BehindEvents(body));
  }

  /** Events alone, as the service sends them to keep a connection or a configuration, demand nothing. */
  lemma EventsDemandNothing(es: seq<Event>, external: bool)
    requires forall k :: 0 <= k < |es| ==> Encodable(es[k])
    ensures Demand(BehindEvents(TailBytes(es)), external) == Barred
  {
    assert TailBytes(es) + [] == TailBytes(es);
    BehindEventsOf(es, []);
  }

  lemma BehindRequest(async: bool, r: Request, tail: bytes)
    requires Sendable(r)
    ensures var rest := SendBytes(async, r) + tail;
            && BehindEvents(rest) == rest && rest != [] && !IsAnswer(rest) && IsRequest(rest, async, r, tail)
  {
    hide SendBytes;
    var rest := SendBytes(async, r) + tail;
    assert rest[0..0 + |SendBytes(async, r)|] == SendBytes(async, r);
    CommandFirst(rest, 0, async, r);
  }

  lemma RequestDemands(async: bool, r: Request, tail: bytes, external: bool)
    requires Sendable(r) && |SendBytes(async, r) + tail| <= MAX_UINT32
    ensures Demand(SendBytes(async, r) + tail, external)
         == if tail == [] || (external && WholeEvents(tail)) then Owed(async, EnvelopeFor(r)) else Barred
  {
    hide SendBytes, IsRequest, WholeEvents;
    var rest := SendBytes(async, r) + tail;
    BehindRequest(async, r, tail);
    forall kind, q, end | IsRequest(rest, kind, q, end)
      ensures kind == async && q == r && end == tail
    {
      RequestUnique(rest, async, r, tail, kind, q, end);
    }
  }

  /**
   * A request between whole events is owed a callback, also behind leading ones; in an internal poll
   * only if nothing follows it.
   */
  lemma RequestIsOwed(lead: seq<Event>, async: bool, r: Request, es: seq<Event>, external: bool)
    requires Sendable(r) && (forall k :: 0 <= k < |lead| ==> Encodable(lead[k]))
    requires (forall k :: 0 <= k < |es| ==> Encodable(es[k])) && |SendBytes(async, r) + TailBytes(es)| <= MAX_UINT32
    ensures Demand(BehindEvents(TailBytes(lead) + (SendBytes(async, r) + TailBytes(es))), external)
         == if external || es == [] then Owed(async, EnvelopeFor(r)) else Barred
  {
    hide SendBytes, EventBytes;
    BehindEventsOf(lead, SendBytes(async, r) + TailBytes(es));
    BehindRequest(async, r, TailBytes(es));
    RequestDemands(async, r, TailBytes(es), external);
    if es != [] {
      EventBytesNonEmpty(es[0]);
    }
  }

  /** A request with whole events and TERM behind it is not. */
  lemma TerminatedIsBarred(lead: seq<Event>, async: bool, r: Request, es: seq<Event>, end: bytes, external: bool)
    requires Sendable(r) && (forall k :: 0 <= k < |lead| ==> Encodable(lead[k]))
    requires forall k :: 0 <= k < |es| ==> Encodable(es[k])
    requires |SendBytes(async, r) + (TailBytes(es) + Le32(MESSAGE_TERM) + end)| <= MAX_UINT32
    ensures var tail := TailBytes(es) + Le32(MESSAGE_TERM) + end;
            Demand(BehindEvents(TailBytes(lead) + (SendBytes(async, r) + tail)), external) == Barred
  {
    hide SendBytes, TailBytes;
    var tail := TailBytes(es) + Le32(MESSAGE_TERM) + end;
    BehindEventsOf(lead, SendBytes(async, r) + tail);
    BehindRequest(async, r, tail);
    RequestDemands(async, r, tail, external);
    TermIsNoEvent(es, end);
  }

  lemma TermIsNoEvent(es: seq<Event>, end: bytes)
    requires forall k :: 0 <= k < |es| ==> Encodable(es[k])
    ensures !WholeEvents(TailBytes(es) + Le32(MESSAGE_TERM) + end)
  {
    hide HandleEvents;
    var m := TailBytes(es) + Le32(MESSAGE_TERM) + end;
    var h := Handled(Continue, Config(0, 0, 0, 0, 0, 0), [], false);
    Cut(m, 0, |m|, TailBytes(es) + Le32(MESSAGE_TERM), end);
    Cut(m, 0, |TailBytes(es)| + 4, TailBytes(es), Le32(MESSAGE_TERM));
    TermAfterEvents(es, m, 0, |TailBytes(es)|, |m|, true, h);
    if WholeEvents(m) {
      var fs :| (forall k :: 0 <= k < |fs| ==> Encodable(fs[k])) && m == TailBytes(fs);
      assert m[0..|m|] == m;
      WholeEventsAccepted(fs, m, 0, |m|, true, h);
    }
  }

  /** A message that is no request demands nothing, also behind leading events. */
  lemma AnswerDemandsNothing(lead: seq<Event>, rest: bytes, external: bool)
    requires (forall k :: 0 <= k < |lead| ==> Encodable(lead[k])) && IsAnswer(rest)
    ensures Demand(BehindEvents(TailBytes(lead) + rest), external) == Barred
  {
    BehindEventsOf(lead, rest);
  }
}
