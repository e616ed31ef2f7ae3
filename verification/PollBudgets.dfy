/** The budget of a poll: what every round is charged, and the round at which it is spent. */
module PollBudgets {
  import opened Bytes
  import opened Bignum
  import opened Events
  import opened Protocol
  import opened ProtocolRequests
  import opened Monitor
  import opened ProtocolRuns
  import opened ProtocolPolls
  import opened ProtocolReplies
  import opened ProtocolTermination
  import opened FrameDemands
  import Timeouts

  // Rounds that do not depend on the budget

  lemma {:induction false} EventsNeverTimeOut(m: bytes, limit: nat, external: bool, i: nat, h: Handled)
    ensures HandleEvents(m, limit, external, i, h).outcome != Stop(TimedOut)
    decreases Left(i, limit), 0
  {
    hide Step;
    if i <= limit && Word(i, m).Got? {
      LoopNeverTimesOut(m, limit, external, Word(i, m).value, i + 4, h);
    }
  }

  lemma {:induction false} LoopNeverTimesOut(m: bytes, limit: nat, external: bool, command: nat, i: nat, h: Handled)
    ensures EventLoop(m, limit, external, command, i, h).outcome != Stop(TimedOut)
    decreases Left(i, limit), 2
  {
    hide Step;
    var e := ReinitAt(i, m);
    if command == MESSAGE_REINIT && e.Got? && e.next < limit {
      EventsNeverTimeOut(m, limit, external, e.next, Step(h, e.value));
    } else if command == MESSAGE_KEEPALIVE && i < limit {
      EventsNeverTimeOut(m, limit, external, i, Step(h, KeepAlive));
    }
  }

  /** A result with no budget at all says what it is with any: the end of the poll, or of one round. */
  ghost predicate Extends(zero: (State, Status), r: (State, Status), elapsed: nat, timeout: int, external: bool) {
    r == if zero.1 == TimedOut then Again(zero.0, elapsed, timeout, external) else zero
  }

  lemma AgainExtends(s: State, elapsed: nat, timeout: int, external: bool)
    ensures Extends(Again(s, elapsed, 0, external), Again(s, elapsed, timeout, external), elapsed, timeout, external)
  {
    hide Receive;
  }

  lemma {:induction false} DispatchExtends(s: State, i: nat, elapsed: nat, timeout: int, external: bool)
    requires i <= s.recvIndex
    ensures Extends(Dispatch(s, i, elapsed, 0, external), Dispatch(s, i, elapsed, timeout, external),
                    elapsed, timeout, external)
    decreases Left(i, s.recvIndex), 0
  {
    hide Again, DispatchEvent, DispatchSend;
    match Word(i, s.recv)
    case Past =>
    case Got(j, command) =>
      if command == MESSAGE_SEND_ASYNC || command == MESSAGE_SEND_SYNC {
        SendExtends(s, command == MESSAGE_SEND_ASYNC, j, elapsed, timeout, external);
      } else {
        EventExtends(s, command, j, elapsed, timeout, external);
      }
  }

  lemma {:induction false} EventExtends(s: State, command: nat, i: nat, elapsed: nat, timeout: int, external: bool)
    ensures Extends(DispatchEvent(s, command, i, elapsed, 0, external),
                    DispatchEvent(s, command, i, elapsed, timeout, external), elapsed, timeout, external)
    decreases Left(i, s.recvIndex), 2
  {
    hide Again, DispatchNext, DispatchAnswer, EventLoop, Handles, Observe;
    if command == MESSAGE_TERM {
      LoopNeverTimesOut(s.recv, s.recvIndex, external, command, i, Before(s));
    } else if command == MESSAGE_REINIT {
      match ReinitAt(i, s.recv)
      case Past =>
      case Got(k, e) =>
        HandlesKeeps(s, e);
        NextExtends(Handles(s, e), k, elapsed, timeout, external);
    } else if command == MESSAGE_KEEPALIVE {
      HandlesKeeps(s, KeepAlive);
      NextExtends(Handles(s, KeepAlive), i, elapsed, timeout, external);
    } else {
      AnswersNeverTimeOut(s, command, i, external);
    }
  }

  lemma HandlesKeeps(s: State, e: Event)
    ensures var t := Handles(s, e);
            t == s.(config := Apply(s.config, e), trace := s.trace + [EventEntry(e)])
  {
  }

  lemma AnswersNeverTimeOut(s: State, command: nat, i: nat, external: bool)
    ensures DispatchAnswer(s, command, i, external).1 != TimedOut
  {
    hide HandleEvents, InitAt, AnswerAt, InitPart, AnswerPart, Observe;
    if command == MESSAGE_INIT || IsResponse(command) {
      match if command == MESSAGE_INIT then InitAt(i, s) else AnswerAt(command, i, s)
      case Past =>
      case Got(j, t) =>
        EventsNeverTimeOut(t.recv, t.recvIndex, external, j, Before(t));
    }
  }

  lemma {:induction false} NextExtends(s: State, i: nat, elapsed: nat, timeout: int, external: bool)
    ensures Extends(DispatchNext(s, i, elapsed, 0, external), DispatchNext(s, i, elapsed, timeout, external),
                    elapsed, timeout, external)
    decreases Left(i, s.recvIndex), 1
  {
    hide Again, Dispatch;
    if i == s.recvIndex {
      AgainExtends(s.(recvIndex := 0), elapsed, timeout, external);
    } else if i < s.recvIndex {
      DispatchExtends(s, i, elapsed, timeout, external);
    }
  }

  lemma SendExtends(s: State, async: bool, i: nat, elapsed: nat, timeout: int, external: bool)
    ensures Extends(DispatchSend(s, async, i, elapsed, 0, external),
                    DispatchSend(s, async, i, elapsed, timeout, external), elapsed, timeout, external)
  {
    hide Again, LayoutAt, DispatchRequest;
    var layout := LayoutAt(i, Copied(s).call);
    if layout.Got? {
      RequestExtends(Copied(s), async, layout.value, layout.next, elapsed, timeout, external);
    }
  }

  lemma RequestExtends(s: State, async: bool, l: Layout, i: nat, elapsed: nat, timeout: int, external: bool)
    ensures Extends(DispatchRequest(s, async, l, i, elapsed, 0, external),
                    DispatchRequest(s, async, l, i, elapsed, timeout, external), elapsed, timeout, external)
  {
    hide Again, HandleEvents, Observe, Callback;
    EventsNeverTimeOut(s.recv, s.recvIndex, external, i, Before(s));
    var (t, outcome) := Tail(s, i, external);
    if outcome == Continue {
      var (u, ok) := Callback(t.(recvIndex := 0), async, l);
      AgainExtends(u, elapsed, timeout, external);
    }
  }

  /** A poll with no budget that reads a frame and times out has finished a round. */
  ghost predicate Round(s: State, u: State, external: bool) {
    s.inputs != [] && s.inputs[0].Frame? && Receive(s, 0, external) == (u, TimedOut)
  }

  lemma RoundCharged(s: State, u: State, timeout: int, external: bool)
    requires Round(s, u, external)
    ensures var left := if timeout > 0 then Timeouts.Charge(timeout, s.inputs[0].elapsed) else timeout;
            Receive(s, timeout, external) == if left == 0 then (u, TimedOut) else Receive(u, left, external)
  {
    hide Dispatch, Receive;
    var input := s.inputs[0];
    var t := s.(inputs := s.inputs[1..], trace := s.trace + [Read(input, external)]);
    ReceiveFrame(s, t, 0, external);
    ReceiveFrame(s, t, timeout, external);
    if |input.body| <= MAX_UINT32 && input.body != [] {
      DispatchExtends(Loaded(t, input.body, input.stale, input.spare), 0, input.elapsed, timeout, external);
    }
  }

  lemma ReceiveFrame(s: State, t: State, timeout: int, external: bool)
    requires s.inputs != [] && s.inputs[0].Frame?
    requires t == s.(inputs := s.inputs[1..], trace := s.trace + [Read(s.inputs[0], external)])
    ensures var input := s.inputs[0];
            var u := Loaded(t, input.body, input.stale, input.spare);
            Receive(s, timeout, external)
            == if |input.body| > MAX_UINT32 then (t, OutOfMemory)
               else if input.body == [] then (u, Underflow)
               else Dispatch(u, 0, input.elapsed, timeout, external)
  {
    hide Dispatch;
  }

  // The budget over any number of rounds

  /** Rounds one after the other, and the time that each of them took. */
  ghost predicate Rounds(us: seq<State>, times: seq<nat>, external: bool) {
    && |us| == |times| + 1
    && forall k :: 0 <= k < |times| ==>
         Round(us[k], us[k + 1], external) && us[k].inputs[0].elapsed == times[k]
  }

  /**
   * A poll goes on to the next round while the times of its rounds add up to less than its budget, with
   * the rest of it, and returns at the first round with which they do not. A negative budget never
   * ends it.
   */
  lemma {:induction false} BudgetSpent(us: seq<State>, times: seq<nat>, timeout: int, external: bool)
    requires Rounds(us, times, external)
    ensures var n := |times|;
            && (timeout > 0 && Timeouts.Sum(times) < timeout ==>
                  Receive(us[0], timeout, external) == Receive(us[n], timeout - Timeouts.Sum(times), external))
            && (timeout > 0 && n > 0 && Timeouts.Sum(times[..n - 1]) < timeout <= Timeouts.Sum(times) ==>
                  Receive(us[0], timeout, external) == (us[n], TimedOut))
            && (timeout < 0 ==> Receive(us[0], timeout, external) == Receive(us[n], timeout, external))
    decreases |times|
  {
    hide Receive, Round;
    if times != [] {
      var left := if timeout > 0 then Timeouts.Charge(timeout, times[0]) else timeout;
      RoundCharged(us[0], us[1], timeout, external);
      assert forall k :: 0 <= k < |us[1..]| ==> us[1..][k] == us[k + 1];
      BudgetSpent(us[1..], times[1..], left, external);
      if |times| > 1 {
        assert times[..|times| - 1][1..] == times[1..][..|times| - 2];
      }
    }
  }

  /** The same for a whole poll; it announces itself first if it must. */
  lemma PollSpent(s: State, us: seq<State>, times: seq<nat>, timeout: int, external: bool)
    requires !s.terminate && Rounds(us, times, external) && us[0] == Announced(s, external)
    ensures var (n, sum) := (|times|, Timeouts.Sum(times));
            && (timeout > 0 && sum < timeout ==>
                  Poll(s, timeout, external) == Receive(us[n], timeout - sum, external))
            && (timeout > 0 && n > 0 && Timeouts.Sum(times[..n - 1]) < timeout <= sum ==>
                  Poll(s, timeout, external) == (us[n], TimedOut))
            && (timeout < 0 ==> Poll(s, timeout, external) == Receive(us[n], timeout, external))
  {
    hide Receive, Rounds, Timeouts.Sum;
    BudgetSpent(us, times, timeout, external);
    assert Poll(s, timeout, external) == Receive(Announced(s, external), timeout, external);
  }

  // Rounds from the wire

  /** The state behind some events at the front of a frame. */
  function Led(s: State, lead: seq<Event>): State {
    s.(config := ApplyAll(s.config, lead), trace := s.trace + EventEntries(lead))
  }

  /** Whole events at i are handled in order, each once, before what follows them. */
  lemma {:induction false} LeadDispatched(
    s: State, i: nat, j: nat, lead: seq<Event>, elapsed: nat, timeout: int, external: bool)
    requires lead != [] && forall k :: 0 <= k < |lead| ==> Encodable(lead[k])
    requires i <= j <= s.recvIndex <= |s.recv| && s.recv[i..j] == TailBytes(lead)
    ensures Dispatch(s, i, elapsed, timeout, external) == DispatchNext(Led(s, lead), j, elapsed, timeout, external)
    decreases |lead|
  {
    hide Dispatch, DispatchNext, EventBytes, TailBytes, ApplyAll, EventEntries;
    var k := TailCons(lead, s.recv, i, j);
    var t := Handles(s, lead[0]);
    FirstDispatched(s, i, k, lead[0], elapsed, timeout, external);
    LedCons(s, lead);
    if lead[1..] != [] {
      LeadDispatched(t, k, j, lead[1..], elapsed, timeout, external);
      NextIsDispatch(t, k, elapsed, timeout, external);
    }
  }

  lemma NextIsDispatch(s: State, i: nat, elapsed: nat, timeout: int, external: bool)
    requires i < s.recvIndex
    ensures DispatchNext(s, i, elapsed, timeout, external) == Dispatch(s, i, elapsed, timeout, external)
  {
    hide Dispatch;
  }

  lemma LedCons(s: State, lead: seq<Event>)
    requires lead != []
    ensures Led(s, lead) == Led(Handles(s, lead[0]), lead[1..])
    ensures lead[1..] == [] ==> Led(s, lead) == Handles(s, lead[0])
  {
    var first, rest := EventEntry(lead[0]), EventEntries(lead[1..]);
    assert EventEntries(lead) == [first] + rest;
    Associative(s.trace, [first], rest);
    if lead[1..] == [] {
      assert rest == [] && s.trace + [first] + [] == s.trace + [first];
    }
  }

  lemma FirstDispatched(s: State, i: nat, k: nat, e: Event, elapsed: nat, timeout: int, external: bool)
    requires Encodable(e) && i <= k <= |s.recv| && i <= s.recvIndex && s.recv[i..k] == EventBytes(e)
    ensures Dispatch(s, i, elapsed, timeout, external) == DispatchNext(Handles(s, e), k, elapsed, timeout, external)
  {
    hide Dispatch, DispatchNext, Handles, Le32, Fields;
    assert s.recv == s.recv[..i] + EventBytes(e) + s.recv[k..];
    EventBytesNonEmpty(e);
    match e
    case KeepAlive =>
      WordOf(MESSAGE_KEEPALIVE, s.recv[..i], s.recv[k..]);
      KeepAliveDispatched(s, i, elapsed, timeout, external);
    case Reinit(_, _, _, _, _) =>
      ReinitOf(e, s.recv[..i], s.recv[k..], s.recv);
      EventDispatched(s, MESSAGE_REINIT, i, Handles(s, e), k, elapsed, timeout, external);
  }

  lemma KeepAliveDispatched(s: State, i: nat, elapsed: nat, timeout: int, external: bool)
    requires i <= s.recvIndex && Word(i, s.recv) == Got(i + 4, MESSAGE_KEEPALIVE)
    ensures Dispatch(s, i, elapsed, timeout, external)
         == DispatchNext(Handles(s, KeepAlive), i + 4, elapsed, timeout, external)
  {
    hide DispatchNext;
    EventDispatched(s, MESSAGE_KEEPALIVE, i, Handles(s, KeepAlive), i + 4, elapsed, timeout, external);
  }

  predicate IsRead(e: Entry) {
    e.Read?
  }

  lemma {:induction false} CountSplit(a: seq<Entry>, b: seq<Entry>, p: Entry -> bool)
    ensures Count(a + b, p) == Count(a, p) + Count(b, p)
  {
    if a == [] {
      assert a + b == b;
    } else {
      assert (a + b)[1..] == a[1..] + b;
      CountSplit(a[1..], b, p);
    }
  }

  lemma {:induction false} CountNone(trace: seq<Entry>, p: Entry -> bool)
    requires forall k :: 0 <= k < |trace| ==> !p(trace[k])
    ensures Count(trace, p) == 0
  {
    if trace != [] {
      CountNone(trace[1..], p);
    }
  }

  function KeepAlives(es: seq<Event>): nat {
    if es == [] then 0 else One(es[0].KeepAlive?) + KeepAlives(es[1..])
  }

  predicate IsKeepAlive(e: Entry) {
    e == Wrote(KeepAliveReply)
  }

  /** One keepalive is written for each KEEPALIVE, and nothing else. */
  lemma {:induction false} KeepAlivesAnswered(es: seq<Event>)
    ensures Count(EventEntries(es), IsKeepAlive) == KeepAlives(es)
    ensures forall k :: 0 <= k < |es| && EventEntries(es)[k].Wrote? ==> IsKeepAlive(EventEntries(es)[k])
  {
    if es != [] {
      var rest := EventEntries(es[1..]);
      assert EventEntries(es) == [EventEntry(es[0])] + rest && ([EventEntry(es[0])] + rest)[1..] == rest;
      KeepAlivesAnswered(es[1..]);
    }
  }

  /** One more entry of the poll's own: the frame that it read. Nothing else that was added is a read. */
  ghost predicate ReadsOnce(s: State, u: State, external: bool) {
    && s.inputs != [] && s.trace < u.trace && u.trace[|s.trace|] == Read(s.inputs[0], external)
    && u.inputs == s.inputs[1..] && u.terminate == s.terminate && u.initialized == s.initialized
    && forall k :: |s.trace| < k < |u.trace| ==> !IsRead(u.trace[k])
  }

  /** The next frame is some events, and nothing else. */
  ghost predicate BringsEvents(s: State, lead: seq<Event>) {
    && s.inputs != [] && s.inputs[0].Frame? && |s.inputs[0].body| <= MAX_UINT32
    && lead != [] && (forall k :: 0 <= k < |lead| ==> Encodable(lead[k]))
    && s.inputs[0].body == TailBytes(lead)
  }

  /** A frame of events is one round: its events are handled, and the next message is waited for. */
  lemma EventsRound(s: State, lead: seq<Event>, external: bool) returns (u: State)
    requires BringsEvents(s, lead)
    ensures Round(s, u, external) && ReadsOnce(s, u, external)
    ensures u.config == ApplyAll(s.config, lead) && u.handlers == s.handlers && u.lookup == s.lookup
    ensures u.trace == s.trace + [Read(s.inputs[0], external)] + EventEntries(lead)
  {
    hide Dispatch, TailBytes, EventEntries, ApplyAll, Receive;
    var input := s.inputs[0];
    var t := s.(inputs := s.inputs[1..], trace := s.trace + [Read(input, external)]);
    var v := Loaded(t, input.body, input.stale, input.spare);
    SomeEvents(lead);
    ReceiveFrame(s, t, 0, external);
    assert v.recv[0..|input.body|] == input.body;
    LeadDispatched(v, 0, |input.body|, lead, input.elapsed, 0, external);
    u := Led(v, lead).(recvIndex := 0);
    assert DispatchNext(Led(v, lead), |input.body|, input.elapsed, 0, external) == (u, TimedOut);
    NoneRead(lead);
    assert forall k :: |s.trace| < k < |u.trace| ==> u.trace[k] == EventEntries(lead)[k - |s.trace| - 1];
  }

  lemma NoneRead(es: seq<Event>)
    ensures forall k :: 0 <= k < |EventEntries(es)| ==> !IsRead(EventEntries(es)[k])
  {
  }

  /**
   * The next frame is a request between whole events, and its handler neither waits for a response nor
   * answers with the wrong kind.
   */
  ghost predicate BringsRequest(
    s: State, lead: seq<Event>, async: bool, r: Request, es: seq<Event>, external: bool)
  {
    && s.inputs != [] && s.inputs[0].Frame? && |s.inputs[0].body| <= MAX_UINT32
    && (forall k :: 0 <= k < |lead| ==> Encodable(lead[k])) && (forall k :: 0 <= k < |es| ==> Encodable(es[k]))
    && Sendable(r) && s.inputs[0].body == TailBytes(lead) + (SendBytes(async, r) + TailBytes(es))
    && (external || es == []) && r.pid[0] == 131 && !s.terminate
    && (s.handlers != [] ==> Answers(s.handlers[0], async))
  }

  predicate Answers(h: Handler, async: bool) {
    !Asks(h) && (h.ending.Answer? ==> h.ending.async == async)
  }

  /** The callback of such a request: it replies to the request, and reads nothing. */
  lemma QuickCallback(s: State, async: bool, l: Layout, r: Request) returns (u: State)
    requires !s.terminate && Sendable(r) && r.pid[0] == 131 && Describes(s.call, l, r)
    requires s.handlers != [] ==> Answers(s.handlers[0], async)
    ensures Callback(s, async, l) == (u, true)
    ensures s.trace < u.trace && u.trace[|s.trace|] == CalledOn(s, async, l)
    ensures IsReply(Last(u)) && Last(u).message.origin == EnvelopeFor(r) && Last(u).message.async == async
    ensures u.inputs == s.inputs && u.terminate == s.terminate && u.initialized == s.initialized
    ensures forall k :: |s.trace| <= k < |u.trace| ==> !IsRead(u.trace[k])
  {
    hide Act, Conclude, EnvelopeOf, CalledOn, Asks, Begun, NextHandler, IsReplyTo;
    var h, b := NextHandler(s, l), Begun(s, async, l);
    QuickHandler(s, async, l);
    var t := QuickActs(s, async, l, h.actions);
    assert Content(s.call, l.pid)[0] == s.call[l.pid.at];
    ConcludeAnswers(t, async, l, h.ending, h.elapsed);
    ConcludeReplies(t, async, l, h.ending, h.elapsed);
    DescribedEnvelope(s.call, l, r);
    IsReplyOf(Last(Conclude(t, async, l, h.ending, h.elapsed).0), async, l, h.ending, h.elapsed);
    u := Callback(s, async, l).0;
  }

  lemma IsReplyOf(e: Entry, async: bool, l: Layout, ending: Ending, elapsed: nat)
    requires IsReplyTo(e, async, l, ending, elapsed)
    ensures IsReply(e) && e.message.async == async
  {
  }

  /** The calls of a handler that does not wait. */
  lemma QuickActs(s: State, async: bool, l: Layout, actions: seq<Action>) returns (t: State)
    requires !s.terminate && forall k :: 0 <= k < |actions| ==> !actions[k].Exchange?
    ensures Act(Begun(s, async, l), actions) == (t, true)
    ensures s.trace < t.trace && t.trace[|s.trace|] == CalledOn(s, async, l)
    ensures forall k :: |s.trace| <= k < |t.trace| ==> !IsRead(t.trace[k])
    ensures t.inputs == s.inputs && !t.terminate && t.initialized == s.initialized && t.call == s.call
  {
    hide Act, PatternAt, EnvelopeOf, Good, DueAt, OpenAt, InTime, Terms;
    var b := Begun(s, async, l);
    ActLeaves(b, actions);
    ActLeads(b, actions, Barred);
    t := Act(b, actions).0;
  }

  lemma DescribedEnvelope(m: bytes, l: Layout, r: Request)
    requires Describes(m, l, r)
    ensures EnvelopeOf(m, l) == EnvelopeFor(r)
  {
    hide Content;
  }

  lemma QuickHandler(s: State, async: bool, l: Layout)
    requires s.handlers != [] ==> Answers(s.handlers[0], async)
    ensures var h := NextHandler(s, l);
            && (h.ending.Answer? ==> h.ending.async == async)
            && forall k :: 0 <= k < |h.actions| ==> !h.actions[k].Exchange?
  {
    hide PatternAt;
    NoExchange(Handler([], Finish, 0));
    if s.handlers != [] {
      NoExchange(s.handlers[0]);
    }
  }

  /** Such a frame is one round: its events, the callback with its reply, and nothing else is read. */
  lemma RequestRound(s: State, lead: seq<Event>, async: bool, r: Request, es: seq<Event>, external: bool)
    returns (u: State)
    requires BringsRequest(s, lead, async, r, es, external)
    ensures Round(s, u, external) && ReadsOnce(s, u, external)
    ensures IsReply(Last(u)) && Last(u).message.origin == EnvelopeFor(r) && Last(u).message.async == async
  {
    hide Dispatch, TailBytes, EventEntries, ApplyAll, Receive, SendBytes, Callback, Describes, Asks, EventTrace,
      LayoutFor, CalledOn, IsReply, EnvelopeFor;
    var input := s.inputs[0];
    var t := s.(inputs := s.inputs[1..], trace := s.trace + [Read(input, external)]);
    var v := Loaded(t, input.body, input.stale, input.spare);
    var w := Led(v, lead);
    var j := |TailBytes(lead)|;
    ReceiveFrame(s, t, 0, external);
    BodyArrives(v, lead, async, r, es, input.stale);
    LeadingDone(v, j, lead, input.elapsed, 0, external);
    var l := RequestDelivered(w, j, async, r, es, input.elapsed, 0, external);
    var c := AfterEvents(Copied(w), es);
    u := QuickCallback(c, async, l, r);
    assert Again(u, input.elapsed, 0, external) == (u, TimedOut);
    NoneRead(lead);
    NoneRead(es);
    EventsAppended(s, t, w, c, lead, es, external);
  }

  lemma BodyArrives(s: State, lead: seq<Event>, async: bool, r: Request, es: seq<Event>, stale: bytes)
    requires (forall k :: 0 <= k < |lead| ==> Encodable(lead[k])) && (forall k :: 0 <= k < |es| ==> Encodable(es[k]))
    requires Sendable(r)
    requires var body := TailBytes(lead) + (SendBytes(async, r) + TailBytes(es));
             |body| <= MAX_UINT32 && s.recv == body + stale && s.recvIndex == |body|
    ensures var j := |TailBytes(lead)|;
            && j < s.recvIndex && s.recv[0..j] == TailBytes(lead)
            && Received(s, j, async, r) && s.recv[j + |SendBytes(async, r)|..s.recvIndex] == TailBytes(es)
  {
    hide SendBytes, TailBytes;
    var body, j := TailBytes(lead) + (SendBytes(async, r) + TailBytes(es)), |TailBytes(lead)|;
    assert body[j..] == SendBytes(async, r) + TailBytes(es);
    assert s.recv[0..j] == body[..j] == TailBytes(lead);
    RequestLoaded(s, body, stale, j, async, r, TailBytes(es));
    CommandFirst(s.recv, j, async, r);
  }

  lemma LeadingDone(s: State, j: nat, lead: seq<Event>, elapsed: nat, timeout: int, external: bool)
    requires forall k :: 0 <= k < |lead| ==> Encodable(lead[k])
    requires j < s.recvIndex <= |s.recv| && j == |TailBytes(lead)| && s.recv[0..j] == TailBytes(lead)
    ensures Dispatch(s, 0, elapsed, timeout, external) == Dispatch(Led(s, lead), j, elapsed, timeout, external)
  {
    hide Dispatch, EventBytes;
    if lead == [] {
      assert s.trace + EventEntries(lead) == s.trace;
    } else {
      LeadDispatched(s, 0, j, lead, elapsed, timeout, external);
      NextIsDispatch(Led(s, lead), j, elapsed, timeout, external);
    }
  }

  lemma EventsAppended(
    s: State, t: State, w: State, c: State, lead: seq<Event>, es: seq<Event>, external: bool)
    requires s.inputs != [] && t.trace == s.trace + [Read(s.inputs[0], external)]
    requires w.trace == t.trace + EventEntries(lead) && c == AfterEvents(Copied(w), es)
    requires forall k :: 0 <= k < |EventEntries(lead)| ==> !IsRead(EventEntries(lead)[k])
    requires forall k :: 0 <= k < |EventEntries(es)| ==> !IsRead(EventEntries(es)[k])
    ensures s.trace < c.trace && c.trace[|s.trace|] == Read(s.inputs[0], external)
    ensures forall k :: |s.trace| < k < |c.trace| ==> !IsRead(c.trace[k])
  {
    hide EventEntries, ApplyAll;
    var read := Read(s.inputs[0], external);
    assert c.trace == s.trace + [read] + EventEntries(lead) + [Overwrote] + (EventEntries(es) + []);
  }

  /** The next frame is events, or a request that its callback answers without waiting. */
  ghost predicate Quick(s: State, external: bool) {
    || (exists lead :: BringsEvents(s, lead))
    || (exists lead, async, r, es :: BringsRequest(s, lead, async, r, es, external))
  }

  lemma QuickRound(s: State, external: bool) returns (u: State)
    requires Quick(s, external)
    ensures Round(s, u, external) && ReadsOnce(s, u, external)
  {
    hide BringsEvents, BringsRequest, Round, ReadsOnce;
    if lead :| BringsEvents(s, lead) {
      u := EventsRound(s, lead, external);
    } else {
      var lead, async, r, es :| BringsRequest(s, lead, async, r, es, external);
      u := RequestRound(s, lead, async, r, es, external);
    }
  }

  /** Such frames one after the other, each read where the last one left the instance. */
  ghost predicate QuickRounds(us: seq<State>, times: seq<nat>, external: bool) {
    && |us| == |times| + 1
    && forall k :: 0 <= k < |times| ==>
         && Quick(us[k], external) && us[k + 1] == Receive(us[k], 0, external).0
         && us[k].inputs != [] && us[k].inputs[0].Frame? && us[k].inputs[0].elapsed == times[k]
  }

  lemma QuickNext(us: seq<State>, times: seq<nat>, external: bool, k: nat)
    requires QuickRounds(us, times, external) && k < |times|
    ensures Round(us[k], us[k + 1], external) && ReadsOnce(us[k], us[k + 1], external)
  {
    hide Receive, Quick, ReadsOnce;
    var u := QuickRound(us[k], external);
  }

  lemma QuickAreRounds(us: seq<State>, times: seq<nat>, external: bool)
    requires QuickRounds(us, times, external)
    ensures Rounds(us, times, external)
  {
    hide Round, ReadsOnce, Quick, Receive;
    forall k | 0 <= k < |times|
      ensures Round(us[k], us[k + 1], external)
    {
      QuickNext(us, times, external, k);
    }
  }

  lemma {:induction false} QuickReads(us: seq<State>, times: seq<nat>, external: bool, n: nat)
    requires QuickRounds(us, times, external) && n <= |times|
    ensures us[0].trace <= us[n].trace && Count(us[n].trace, IsRead) == Count(us[0].trace, IsRead) + n
    decreases n
  {
    hide Round, ReadsOnce, Quick, Receive;
    if n > 0 {
      QuickReads(us, times, external, n - 1);
      QuickNext(us, times, external, n - 1);
      OneRead(us[n - 1], us[n], external);
    }
  }

  lemma OneRead(s: State, u: State, external: bool)
    requires ReadsOnce(s, u, external)
    ensures Count(u.trace, IsRead) == Count(s.trace, IsRead) + 1 && s.trace <= u.trace
  {
    var rest := u.trace[|s.trace| + 1..];
    assert u.trace == s.trace + ([u.trace[|s.trace|]] + rest) && ([u.trace[|s.trace|]] + rest)[1..] == rest;
    CountSplit(s.trace, [u.trace[|s.trace|]] + rest, IsRead);
    CountNone(rest, IsRead);
  }

  /**
   * A poll that receives frames of events, and requests whose callbacks answer without waiting, returns
   * at the first frame with which the times add up to its budget, after exactly one read for each of
   * these frames. Up to there it goes on with the rest of the budget; a negative one never ends it.
   */
  lemma QuickPollSpent(s: State, us: seq<State>, times: seq<nat>, timeout: int, external: bool)
    requires !s.terminate && QuickRounds(us, times, external) && us[0] == Announced(s, external)
    ensures var (n, sum) := (|times|, Timeouts.Sum(times));
            && Count(us[n].trace, IsRead) == Count(s.trace, IsRead) + n
            && (timeout > 0 && sum < timeout ==>
                  Poll(s, timeout, external) == Receive(us[n], timeout - sum, external))
            && (timeout > 0 && n > 0 && Timeouts.Sum(times[..n - 1]) < timeout <= sum ==>
                  Poll(s, timeout, external) == (us[n], TimedOut))
            && (timeout < 0 ==> Poll(s, timeout, external) == Receive(us[n], timeout, external))
  {
    hide Receive, Rounds, QuickRounds, Poll, Timeouts.Sum;
    QuickAreRounds(us, times, external);
    QuickReads(us, times, external, |times|);
    PollSpent(s, us, times, timeout, external);
    CountSplit(s.trace, [Wrote(Polling)], IsRead);
    CountNone([Wrote(Polling)], IsRead);
  }
}
