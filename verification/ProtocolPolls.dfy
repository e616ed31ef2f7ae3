/** Every poll and every callback, by induction over the input: the trace stays accepted. */
module ProtocolPolls {
  import opened Bytes
  import opened Bignum
  import opened Events
  import opened Protocol
  import opened ProtocolRequests
  import opened Monitor
  import opened ProtocolRuns
  import opened PatternRuns
  import Timeouts

  // What a frame demands

  lemma DemandOfRequest(rest: bytes, external: bool) returns (async: bool, r: Request, tail: bytes)
    requires CarriesRequest(rest) && !IsAnswer(rest) && rest != []
    ensures IsRequest(rest, async, r, tail)
    ensures Demand(rest, external)
         == if tail == [] || (external && WholeEvents(tail)) then Owed(async, EnvelopeFor(r)) else Barred
  {
    hide IsRequest, WholeEvents;
    async, r, tail :|
      && IsRequest(rest, async, r, tail)
      && Demand(rest, external)
         == if tail == [] || (external && WholeEvents(tail)) then Owed(async, EnvelopeFor(r)) else Barred;
  }

  // The functions of the protocol, in mutual induction

  lemma {:induction false} PollLeads(s: State, timeout: int, external: bool, d: Due)
    requires !d.Owed?
    ensures Leads(Announced(s, external), Poll(s, timeout, external).0, d)
    decreases |s.inputs|, 5
  {
    hide Leads, Same;
    Idle(s, s);
    SameLeads(s, s, d);
    if !s.terminate {
      ReceiveLeads(Announced(s, external), timeout, external, d);
    }
  }

  /** Reading puts the demand of what was read in place of the old one. */
  lemma ReadDemands(s: State, t: State, input: Input, external: bool)
    requires Adds(s, t, Read(input, external)) && (external ==> s.initialized)
    ensures Grows(s, t) && Clean(s, t)
    ensures Good(s) && !DueAt(s).Owed? ==>
              Good(t) && DueAt(t) == DueOf(input, external) && OpenAt(t) == OpenAt(s)
  {
    hide DueOf, InTurn, ObservesAll;
    AddsGrows(s, t, Read(input, external));
  }

  lemma ReadThen(s: State, t: State, u: State, input: Input, external: bool, d: Due)
    requires Adds(s, t, Read(input, external)) && (external ==> s.initialized) && !d.Owed?
    requires Leads(t, u, DueOf(input, external))
    ensures Leads(s, u, d)
  {
    ReadDemands(s, t, input, external);
    GrowsThen(s, t, u);
    hide Grows, Good, DueAt, OpenAt, DueOf;
  }

  lemma {:induction false} ReceiveLeads(s: State, timeout: int, external: bool, d: Due)
    requires !d.Owed? && (external ==> s.initialized)
    ensures Leads(s, Receive(s, timeout, external).0, d)
    decreases |s.inputs|, 4
  {
    hide Leads, Same, DueOf;
    var input := if s.inputs == [] then PollFails else s.inputs[0];
    var t := s.(inputs := if s.inputs == [] then [] else s.inputs[1..], trace := s.trace + [Read(input, external)]);
    var due := DueOf(input, external);
    var u := Receive(s, timeout, external).0;
    if input.Frame? && |input.body| <= MAX_UINT32 {
      var v := Loaded(t, input.body, input.stale, input.spare);
      Idle(t, v);
      FrameDue(input, external);
      if input.body == [] {
        SameLeads(t, v, due);
      } else {
        assert input.body[0..] == input.body;
        FrameLeads(v, input.body, input.stale, input.spare, 0, input.elapsed, timeout, external);
        SameThen(t, v, u, due);
      }
    } else {
      NoFrame(input, external);
      Idle(t, t);
      SameLeads(t, t, due);
    }
    ReadThen(s, t, u, input, external, d);
  }

  lemma NoFrame(input: Input, external: bool)
    requires !input.Frame? || |input.body| > MAX_UINT32
    ensures DueOf(input, external) == Barred
  {
  }

  lemma FrameDue(input: Input, external: bool)
    requires input.Frame? && |input.body| <= MAX_UINT32
    ensures DueOf(input, external) == Demand(BehindEvents(input.body), external)
    ensures input.body == [] ==> DueOf(input, external) == Barred
  {
  }

  /** A frame in the buffer, read up to i: what is left of it gets what it demands, whatever it is. */
  lemma {:induction false} FrameLeads(
    s: State, body: bytes, stale: bytes, spare: bytes, i: nat, elapsed: nat, timeout: int, external: bool)
    requires i < |body| <= MAX_UINT32 && (external ==> s.initialized) && s == Loaded(s, body, stale, spare)
    ensures Leads(s, Dispatch(s, i, elapsed, timeout, external).0, Demand(BehindEvents(body[i..]), external))
    decreases |s.inputs|, 10, |body| - i, 1
  {
    hide Leads, Same, Dispatch, DispatchNext, Demand, BehindEvents;
    if i + 4 > |body| {
      CutOffIsUnknown(body[i..], external);
      DispatchLeads(s, i, elapsed, timeout, external);
    } else {
      WordInside(body, stale, i);
      var command := Word(0, body[i..]).value;
      if command == MESSAGE_KEEPALIVE {
        var t := Handles(s, KeepAlive);
        KeepAliveFirst(body, i);
        EventDispatched(s, command, i, t, i + 4, elapsed, timeout, external);
        EventHandled(s, KeepAlive);
        NextFrameLeads(t, body, stale, spare, i + 4, elapsed, timeout, external);
        SameThen(s, t, DispatchNext(t, i + 4, elapsed, timeout, external).0,
                 Demand(BehindEvents(body[i + 4..]), external));
      } else if command == MESSAGE_REINIT && i + 18 <= |body| {
        var t := Handles(s, ReinitAt(i + 4, s.recv).value);
        ReinitFirst(body, i);
        EventDispatched(s, command, i, t, i + 18, elapsed, timeout, external);
        EventHandled(s, ReinitAt(i + 4, s.recv).value);
        NextFrameLeads(t, body, stale, spare, i + 18, elapsed, timeout, external);
        SameThen(s, t, DispatchNext(t, i + 18, elapsed, timeout, external).0,
                 Demand(BehindEvents(body[i + 18..]), external));
      } else {
        NoEventFirst(body[i..]);
        MessageLeads(s, body, stale, spare, i, elapsed, timeout, external);
      }
    }
  }

  lemma CutOffIsUnknown(rest: bytes, external: bool)
    requires 0 < |rest| < 4
    ensures Demand(BehindEvents(rest), external) == Unknown
  {
    assert forall async, r | Sendable(r) :: |SendBytes(async, r)| >= 4;
  }

  lemma KeepAliveFirst(body: bytes, i: nat)
    requires i + 4 <= |body| && Word(0, body[i..]).value == MESSAGE_KEEPALIVE
    ensures BehindEvents(body[i..]) == BehindEvents(body[i + 4..])
  {
    assert body[i..][4..] == body[i + 4..];
  }

  lemma ReinitFirst(body: bytes, i: nat)
    requires i + 18 <= |body| && Word(0, body[i..]).value == MESSAGE_REINIT
    ensures BehindEvents(body[i..]) == BehindEvents(body[i + 18..])
  {
    assert body[i..][18..] == body[i + 18..];
  }

  lemma NoEventFirst(rest: bytes)
    requires |rest| >= 4 && Word(0, rest).value != MESSAGE_KEEPALIVE
    requires Word(0, rest).value == MESSAGE_REINIT ==> |rest| < 18
    ensures BehindEvents(rest) == rest
  {
  }

  /** A KEEPALIVE or REINIT at the front of what is left: it is applied, and the next check follows. */
  lemma EventDispatched(
    s: State, command: nat, i: nat, t: State, j: nat, elapsed: nat, timeout: int, external: bool)
    requires i <= s.recvIndex && Word(i, s.recv) == Got(i + 4, command)
    requires if command == MESSAGE_KEEPALIVE then t == Handles(s, KeepAlive) && j == i + 4
             else
               && command == MESSAGE_REINIT && j == i + 18 <= |s.recv|
               && t == Handles(s, ReinitAt(i + 4, s.recv).value)
    ensures Dispatch(s, i, elapsed, timeout, external) == DispatchNext(t, j, elapsed, timeout, external)
  {
    hide DispatchNext;
    assert Dispatch(s, i, elapsed, timeout, external) == DispatchEvent(s, command, i + 4, elapsed, timeout, external);
  }

  /** Behind a leading event: the frame is over, or goes on. */
  lemma {:induction false} NextFrameLeads(
    s: State, body: bytes, stale: bytes, spare: bytes, i: nat, elapsed: nat, timeout: int, external: bool)
    requires i <= |body| <= MAX_UINT32 && (external ==> s.initialized) && s == Loaded(s, body, stale, spare)
    ensures Leads(s, DispatchNext(s, i, elapsed, timeout, external).0, Demand(BehindEvents(body[i..]), external))
    decreases |s.inputs|, 10, |body| - i, 2
  {
    hide Leads, Same, Dispatch, Again;
    if i == |body| {
      var t := s.(recvIndex := 0);
      Idle(s, t);
      AgainLeads(t, elapsed, timeout, external, Barred);
      SameThen(s, t, Again(t, elapsed, timeout, external).0, Barred);
    } else {
      FrameLeads(s, body, stale, spare, i, elapsed, timeout, external);
    }
  }

  /** A message that is not an event, or one that is cut off. */
  lemma {:induction false} MessageLeads(
    s: State, body: bytes, stale: bytes, spare: bytes, i: nat, elapsed: nat, timeout: int, external: bool)
    requires i + 4 <= |body| <= MAX_UINT32 && (external ==> s.initialized) && s == Loaded(s, body, stale, spare)
    ensures Leads(s, Dispatch(s, i, elapsed, timeout, external).0, Demand(body[i..], external))
    decreases |s.inputs|, 10, |body| - i, 0
  {
    hide Leads, Same, Dispatch, IsRequest, WholeEvents, SendBytes;
    var rest := body[i..];
    if IsAnswer(rest) {
      WordInside(body, stale, i);
      AnswerFrameLeads(s, Word(0, rest).value, i, elapsed, timeout, external);
    } else if CarriesRequest(rest) {
      var async, r, tail := DemandOfRequest(rest, external);
      RequestLoaded(s, body, stale, i, async, r, tail);
      if tail == [] || (external && WholeEvents(tail)) {
        var es := EventsOf(tail);
        RequestLeads(s, i, async, r, es, elapsed, timeout, external);
      } else {
        BarredLeads(s, i, async, r, tail, elapsed, timeout, external);
      }
    } else {
      DispatchLeads(s, i, elapsed, timeout, external);
    }
  }

  lemma EventsOf(tail: bytes) returns (es: seq<Event>)
    requires tail == [] || WholeEvents(tail)
    ensures (forall k :: 0 <= k < |es| ==> Encodable(es[k])) && tail == TailBytes(es)
    ensures tail == [] ==> es == []
  {
    if tail == [] {
      es := [];
    } else {
      es :| (forall k :: 0 <= k < |es| ==> Encodable(es[k])) && tail == TailBytes(es);
    }
  }

  /** A request that is owed a callback gets it, after the events behind it. */
  lemma {:induction false} RequestLeads(
    s: State, i: nat, async: bool, r: Request, es: seq<Event>, elapsed: nat, timeout: int, external: bool)
    requires Received(s, i, async, r) && (forall k :: 0 <= k < |es| ==> Encodable(es[k]))
    requires s.recv[i + |SendBytes(async, r)|..s.recvIndex] == TailBytes(es)
    requires (external ==> s.initialized) && (external || es == [])
    ensures Leads(s, Dispatch(s, i, elapsed, timeout, external).0, Owed(async, EnvelopeFor(r)))
    decreases |s.inputs|, 9
  {
    hide Leads, Same, Dispatch, SendBytes, LayoutFor;
    var d := Owed(async, EnvelopeFor(r));
    var l := RequestDelivered(s, i, async, r, es, elapsed, timeout, external);
    var t := AfterEvents(Copied(s), es);
    CopiedSame(s);
    EventsSame(Copied(s), es);
    SameTwice(s, Copied(s), t);
    DeliverLeads(t, async, l, elapsed, timeout, external, d);
    SameThen(s, t, Dispatch(s, i, elapsed, timeout, external).0, d);
  }

  lemma CopiedSame(s: State)
    ensures Same(s, Copied(s))
  {
    AddsBetween(s, Copied(s), Overwrote);
  }

  lemma EventsSame(s: State, es: seq<Event>)
    ensures Same(s, AfterEvents(s, es))
  {
    hide Same;
    var h := Handled(Continue, ApplyAll(s.config, es), es, s.terminate);
    ObserveLeads(s, h, Barred);
    Idle(Observe(s, h), AfterEvents(s, es));
    SameTwice(s, Observe(s, h), AfterEvents(s, es));
  }

  /** A request with something behind it that keeps it from its callback: none is called. */
  lemma BarredLeads(
    s: State, i: nat, async: bool, r: Request, tail: bytes, elapsed: nat, timeout: int, external: bool)
    requires Received(s, i, async, r) && s.recv[i + |SendBytes(async, r)|..s.recvIndex] == tail
    requires tail != [] && (external ==> !WholeEvents(tail))
    ensures Leads(s, Dispatch(s, i, elapsed, timeout, external).0, Barred)
  {
    hide Leads, Same, Dispatch, SendBytes, Tail, WholeEvents;
    var j, t := i + |SendBytes(async, r)|, Copied(s);
    CopiedSame(s);
    if external {
      RequestDropped(s, i, async, r, elapsed, timeout);
      TailLeads(t, j, true, Barred);
      SameThen(s, t, Tail(t, j, true).0, Barred);
    } else {
      RequestRefused(s, i, async, r, elapsed, timeout);
      var u := t.(trace := t.trace + [Refused]);
      AddsNeutral(t, u, Refused, Barred);
      SameThen(s, t, u, Barred);
    }
  }

  /** A message that is neither a request nor an event. */
  lemma AnswerFrameLeads(s: State, command: nat, i: nat, elapsed: nat, timeout: int, external: bool)
    requires i <= s.recvIndex && Word(i, s.recv) == Got(i + 4, command)
    requires command !in {MESSAGE_SEND_ASYNC, MESSAGE_SEND_SYNC, MESSAGE_REINIT, MESSAGE_KEEPALIVE}
    ensures Leads(s, Dispatch(s, i, elapsed, timeout, external).0, Barred)
  {
    hide Leads, Same, EventLoop, DispatchAnswer;
    assert Dispatch(s, i, elapsed, timeout, external) == DispatchEvent(s, command, i + 4, elapsed, timeout, external);
    if command == MESSAGE_TERM {
      TermLeads(s, i + 4, external, Barred);
    } else {
      AnswerLeads(s, command, i + 4, external, Barred);
    }
  }

  lemma TermLeads(s: State, i: nat, external: bool, d: Due)
    requires !d.Owed?
    ensures Leads(s, Observe(s, EventLoop(s.recv, s.recvIndex, external, MESSAGE_TERM, i, Before(s))), d)
  {
    hide Leads;
    LoopKeepsTerminate(s.recv, s.recvIndex, external, MESSAGE_TERM, i, Before(s));
    LoopFolded(s.recv, s.recvIndex, external, MESSAGE_TERM, i, Before(s), s.config);
    ObserveLeads(s, EventLoop(s.recv, s.recvIndex, external, MESSAGE_TERM, i, Before(s)), d);
  }

  lemma AnswerLeads(s: State, command: nat, i: nat, external: bool, d: Due)
    requires !d.Owed?
    ensures Leads(s, DispatchAnswer(s, command, i, external).0, d)
  {
    hide Leads, Same, Answered, InitPart, AnswerPart;
    Idle(s, s);
    SameLeads(s, s, d);
    if command == MESSAGE_INIT || IsResponse(command) {
      match if command == MESSAGE_INIT then InitAt(i, s) else AnswerAt(command, i, s)
      case Past =>
        var t := if command == MESSAGE_INIT then InitPart(i, s) else AnswerPart(command, i, s);
        Idle(s, t);
        SameLeads(s, t, d);
      case Got(j, t) =>
        if command == MESSAGE_INIT {
          AddsBetween(s, t, Configured(t.config.requestTimeoutAdjustment != 0, false));
        } else {
          Idle(s, t);
        }
        AnsweredLeads(t, j, external, d);
        SameThen(s, t, Answered(t, j, external).0, d);
    }
  }

  lemma {:induction false} AgainLeads(s: State, elapsed: nat, timeout: int, external: bool, d: Due)
    requires !d.Owed? && (external ==> s.initialized)
    ensures Leads(s, Again(s, elapsed, timeout, external).0, d)
    decreases |s.inputs|, 6
  {
    hide Leads, Same, Receive;
    Idle(s, s);
    SameLeads(s, s, d);
    ReceiveLeads(s, if timeout > 0 then Timeouts.Charge(timeout, elapsed) else timeout, external, d);
  }

  /** Any bytes, also a message that is cut off and goes on in older bytes of the buffer. */
  lemma {:induction false} DispatchLeads(s: State, i: nat, elapsed: nat, timeout: int, external: bool)
    requires i <= s.recvIndex && (external ==> s.initialized)
    ensures Leads(s, Dispatch(s, i, elapsed, timeout, external).0, Unknown)
    decreases |s.inputs|, 9, Left(i, s.recvIndex), 0
  {
    hide Leads, Same, DispatchSend, DispatchEvent;
    Idle(s, s);
    SameLeads(s, s, Unknown);
    match Word(i, s.recv)
    case Past =>
    case Got(j, command) =>
      if command == MESSAGE_SEND_ASYNC || command == MESSAGE_SEND_SYNC {
        SendLeads(s, command == MESSAGE_SEND_ASYNC, j, elapsed, timeout, external);
      } else {
        EventLeads(s, command, j, elapsed, timeout, external);
      }
  }

  lemma {:induction false} EventLeads(s: State, command: nat, i: nat, elapsed: nat, timeout: int, external: bool)
    requires external ==> s.initialized
    ensures Leads(s, DispatchEvent(s, command, i, elapsed, timeout, external).0, Unknown)
    decreases |s.inputs|, 9, Left(i, s.recvIndex), 2
  {
    hide Leads, Same, EventLoop, DispatchNext, DispatchAnswer;
    Idle(s, s);
    SameLeads(s, s, Unknown);
    if command == MESSAGE_TERM {
      TermLeads(s, i, external, Unknown);
    } else if command == MESSAGE_REINIT {
      match ReinitAt(i, s.recv)
      case Past =>
        var t := s.(config := ReinitPart(i, s.recv, s.config));
        Idle(s, t);
        SameLeads(s, t, Unknown);
      case Got(k, e) =>
        var t := Handles(s, e);
        EventHandled(s, e);
        NextLeads(t, k, elapsed, timeout, external);
        SameThen(s, t, DispatchNext(t, k, elapsed, timeout, external).0, Unknown);
    } else if command == MESSAGE_KEEPALIVE {
      var t := Handles(s, KeepAlive);
      EventHandled(s, KeepAlive);
      NextLeads(t, i, elapsed, timeout, external);
      SameThen(s, t, DispatchNext(t, i, elapsed, timeout, external).0, Unknown);
    } else {
      AnswerLeads(s, command, i, external, Unknown);
    }
  }

  lemma {:induction false} NextLeads(s: State, i: nat, elapsed: nat, timeout: int, external: bool)
    requires external ==> s.initialized
    ensures Leads(s, DispatchNext(s, i, elapsed, timeout, external).0, Unknown)
    decreases |s.inputs|, 9, Left(i, s.recvIndex), 1
  {
    hide Leads, Same, Again, Dispatch;
    Idle(s, s);
    SameLeads(s, s, Unknown);
    if i == s.recvIndex {
      var t := s.(recvIndex := 0);
      Idle(s, t);
      AgainLeads(t, elapsed, timeout, external, Unknown);
      SameThen(s, t, Again(t, elapsed, timeout, external).0, Unknown);
    } else if i < s.recvIndex {
      DispatchLeads(s, i, elapsed, timeout, external);
    }
  }

  lemma {:induction false} SendLeads(s: State, async: bool, i: nat, elapsed: nat, timeout: int, external: bool)
    requires external ==> s.initialized
    ensures Leads(s, DispatchSend(s, async, i, elapsed, timeout, external).0, Unknown)
    decreases |s.inputs|, 8, 2
  {
    hide Leads, Same, DispatchRequest, LayoutAt;
    var t := Copied(s);
    CopiedSame(s);
    Idle(t, t);
    SameLeads(t, t, Unknown);
    var layout := LayoutAt(i, t.call);
    if layout.Got? {
      ParsedLeads(t, async, layout.value, layout.next, elapsed, timeout, external);
    }
    SameThen(s, t, DispatchParsed(t, async, layout, elapsed, timeout, external).0, Unknown);
  }

  lemma {:induction false} ParsedLeads(
    s: State, async: bool, l: Layout, i: nat, elapsed: nat, timeout: int, external: bool)
    requires external ==> s.initialized
    ensures Leads(s, DispatchRequest(s, async, l, i, elapsed, timeout, external).0, Unknown)
    decreases |s.inputs|, 8, 0
  {
    hide Leads, Same, Tail, Callback, Again;
    if i != s.recvIndex && !external {
      var t := s.(trace := s.trace + [Refused]);
      AddsNeutral(s, t, Refused, Unknown);
    } else {
      TailLeads(s, i, external, Unknown);
      var (t, outcome) := Tail(s, i, external);
      if outcome == Continue {
        var u := t.(recvIndex := 0);
        Idle(t, u);
        SameTwice(s, t, u);
        SameInitialized(s, u);
        DeliverLeads(u, async, l, elapsed, timeout, external, Unknown);
        SameThen(s, u, DispatchRequest(s, async, l, i, elapsed, timeout, external).0, Unknown);
      }
    }
  }

  lemma SameInitialized(s: State, t: State)
    requires Same(s, t)
    ensures t.initialized == s.initialized
  {
  }

  lemma LeadsInitialized(s: State, t: State, d: Due)
    requires Leads(s, t, d)
    ensures t.initialized == s.initialized
  {
  }

  lemma {:induction false} DeliverLeads(
    s: State, async: bool, l: Layout, elapsed: nat, timeout: int, external: bool, d: Due)
    requires external ==> s.initialized
    requires d.Unknown? || d == Owed(async, EnvelopeOf(s.call, l))
    ensures var r := Callback(s, async, l);
            Leads(s, if r.1 then Again(r.0, elapsed, timeout, external).0 else r.0, d)
    decreases |s.inputs|, 7, 2
  {
    hide Leads, Callback, Again, EnvelopeOf;
    CallbackLeads(s, async, l, d);
    var (t, ok) := Callback(s, async, l);
    LeadsInitialized(s, t, d);
    if ok {
      AgainLeads(t, elapsed, timeout, external, Settled(t));
      LeadsThen(s, t, Again(t, elapsed, timeout, external).0, d);
    }
  }

  /** A callback with everything inside it closes the request it was called for. */
  lemma {:induction false} CallbackLeads(s: State, async: bool, l: Layout, d: Due)
    requires d.Unknown? || d == Owed(async, EnvelopeOf(s.call, l))
    ensures Leads(s, Callback(s, async, l).0, d)
    decreases |s.inputs|, 7, 1
  {
    hide Conclude, Act, DueOf, Good, DueAt, OpenAt, ObservesAll, InTurn;
    var h, b := NextHandler(s, l), Begun(s, async, l);
    BegunGrows(s, async, l);
    ActLeads(b, h.actions, Barred);
    var (t, ok) := Act(b, h.actions);
    var ending := if ok then h.ending else Exception;
    ConcludeGrows(t, async, l, ending, h.elapsed);
    var u := Conclude(t, async, l, ending, h.elapsed).0;
    if Good(s) && DueAt(s) == d {
      BegunOpens(s, async, l);
      CallbackCloses(s, async, l, b, t, ending, h.elapsed);
    }
    CallbackGrows(s, b, t, u);
  }

  lemma CallbackGrows(s: State, b: State, t: State, u: State)
    requires Grows(s, b) && Grows(b, t) && Grows(t, u)
    ensures Grows(s, u)
  {
    GrowsThen(s, b, t);
    GrowsThen(s, t, u);
  }

  lemma CallbackCloses(s: State, async: bool, l: Layout, b: State, t: State, ending: Ending, elapsed: nat)
    requires OpenAt(b) == [Open(async, EnvelopeOf(s.call, l), true, false)] + OpenAt(s)
    requires Clean(s, b) && b.call == s.call && Good(b) && DueAt(b) == Barred && Leads(b, t, Barred)
    ensures var u := Conclude(t, async, l, ending, elapsed).0;
            && Good(u) && !DueAt(u).Owed?
            && Clean(t, u) && OpenAt(u) == if Clean(s, t) then OpenAt(s) else Soiled(OpenAt(s))
  {
    ConcludeGrows(t, async, l, ending, elapsed);
    hide Good, DueAt, OpenAt, Conclude, InTurn;
    var top := OpenAt(t)[0];
    assert OpenAt(b)[1..] == OpenAt(s);
    ConcludeCloses(t, async, l, ending, elapsed, top);
  }

  lemma {:induction false} ActLeads(s: State, actions: seq<Action>, d: Due)
    requires !d.Owed?
    ensures Leads(s, Act(s, actions).0, d)
    decreases |s.inputs|, 7, 0, |actions|
  {
    hide Leads, Same, Poll, Perform;
    Idle(s, s);
    SameLeads(s, s, d);
    if actions != [] {
      var t := s;
      if actions[0].Exchange? {
        var asking := Writes(s, Ask(actions[0].id));
        WritesLeads(s, Ask(actions[0].id), d);
        PollLeads(asking, -1, false, Settled(asking));
        t := Poll(asking, -1, false).0;
        LeadsThen(s, asking, t, d);
      } else {
        t := Perform(s, actions[0]);
        PerformLeads(s, actions[0], d);
      }
      ActLeads(t, actions[1..], Settled(t));
      LeadsThen(s, t, Act(t, actions[1..]).0, d);
    }
  }
}
