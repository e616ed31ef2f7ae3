/** What a reply carries, and what becomes of it when a request arrives inside its callback. */
module ProtocolReplies {
  import opened Bytes
  import opened Bignum
  import opened Events
  import opened Protocol
  import opened ProtocolRequests
  import opened Monitor
  import opened FrameDemands
  import opened PatternRuns
  import opened ProtocolRuns
  import opened ProtocolPolls

  /** The last entry of a trace. */
  function Last(s: State): Entry
    requires s.trace != []
  {
    s.trace[|s.trace| - 1]
  }

  /** The timeout that a handler passes on: its own, or the request's. */
  function PassedOn(l: Layout, ending: Ending): nat {
    if ending.Answer? && ending.deadline.Own? then ending.deadline.timeout else l.timeout
  }

  /** How the handler ends, if the calls before its end do not throw. */
  function EndingOf(s: State, async: bool, l: Layout): Ending {
    var h := NextHandler(s, l);
    if Act(Begun(s, async, l), h.actions).1 then h.ending else Exception
  }

  /**
   * A reply of the request's kind: a forward exactly if the handler forwarded, with no longer timeout
   * than it passed on, and emptied only when it is a return whose time is over.
   */
  ghost predicate IsReplyTo(e: Entry, async: bool, l: Layout, ending: Ending, elapsed: nat) {
    && e.Wrote? && e.message.Reply? && e.message.async == async
    && (e.message.forward <==> ending.Answer? && ending.forward)
    && e.message.timeout <= PassedOn(l, ending)
    && (e.message.dropped ==> !e.message.forward && e.message.timeout == 0 && elapsed > PassedOn(l, ending))
  }

  lemma ConcludeReplies(s: State, async: bool, l: Layout, ending: Ending, elapsed: nat)
    ensures var (t, ok) := Conclude(s, async, l, ending, elapsed);
            ok ==> && t.trace == s.trace + [Last(t)]
                   && IsReplyTo(Last(t), async, l, ending, elapsed) && Last(t).message.origin == EnvelopeOf(s.call, l)
  {
    hide EnvelopeOf, PidDecodes;
    if ending.Answer? {
      DeadlineSame(s.call, l, ending.deadline);
    }
  }

  /**
   * A callback that succeeds adds one reply, and nothing else, to what its handler's calls left. The
   * reply carries the bytes that the callback was given if no request was copied over them.
   */
  lemma CallbackReplies(s: State, async: bool, l: Layout)
    requires Callback(s, async, l).1
    ensures var t := Callback(s, async, l).0;
            && t.trace != [] && IsReplyTo(Last(t), async, l, EndingOf(s, async, l), NextHandler(s, l).elapsed)
            && t.trace == Act(Begun(s, async, l), NextHandler(s, l).actions).0.trace + [Last(t)]
            && (Clean(s, t) ==> Last(t).message.origin == EnvelopeOf(s.call, l))
  {
    hide Act, Conclude, IsReplyTo;
    var h, b := NextHandler(s, l), Begun(s, async, l);
    var (t, ok) := Act(b, h.actions);
    ActLeads(b, h.actions, Barred);
    BegunGrows(s, async, l);
    var ending := if ok then h.ending else Exception;
    ConcludeGrows(t, async, l, ending, h.elapsed);
    ConcludeReplies(t, async, l, ending, h.elapsed);
  }

  /**
   * Exactly one reply of its own: a callback of a request that is owed, without a failed assertion
   * inside it, adds its own call and as many replies as calls; it leaves open what was open.
   */
  lemma CallbackRepliesOnce(s: State, async: bool, l: Layout, since: seq<Entry>)
    requires Good(s) && (DueAt(s).Unknown? || DueAt(s) == Owed(async, EnvelopeOf(s.call, l)))
    requires Callback(s, async, l).0.trace == s.trace + since
    requires NoneWrong(OpenAt(s)) && Count(since, (e: Entry) => e.Aborted?) == 0
    ensures Count(since, IsReply) == Count(since, (e: Entry) => e.Called?)
    ensures |OpenAt(Callback(s, async, l).0)| == |OpenAt(s)| && NoneWrong(OpenAt(Callback(s, async, l).0))
  {
    hide Callback, Observes, DueOf, InTurn;
    CallbackLeads(s, async, l, DueAt(s));
    ObservesSplit(START, s.trace, since);
    SoiledKeepsWrong(OpenAt(s));
    RepliesAreCalls(WatchOf(s).watch, since);
  }

  /**
   * No handler outcome but an answer of the wrong kind can fail: whatever a handler sends and
   * however it ends, its request is answered, if its pid is an encoded term and no request is
   * copied over it.
   */
  lemma CallbackSucceeds(s: State, async: bool, l: Layout)
    requires PidDecodes(s.call, l)
    requires var h := NextHandler(s, l);
             && (h.ending.Answer? ==> h.ending.async == async)
             && Clean(s, Act(Begun(s, async, l), h.actions).0)
    ensures Callback(s, async, l).1
  {
    hide Act;
    ActLeads(Begun(s, async, l), NextHandler(s, l).actions, Barred);
    BegunGrows(s, async, l);
  }

  /**
   * A callback succeeds exactly if the bytes of its pid are an encoded term when its handler ends, and
   * the handler does not answer with the wrong kind. It fails with nothing written for it in the first
   * case, and behind the answer of the wrong kind in the second.
   */
  lemma CallbackSucceedsExactly(s: State, async: bool, l: Layout)
    ensures var m := Act(Begun(s, async, l), NextHandler(s, l).actions).0;
            var ((t, ok), ending) := (Callback(s, async, l), EndingOf(s, async, l));
            var decodes := l.pid.at < |m.call| && m.call[l.pid.at] == 131;
            && (ok <==> decodes && (ending.Answer? ==> ending.async == async))
            && (!decodes ==> t.trace == m.trace + [Aborted])
            && (decodes && !ok ==>
                  && |t.trace| == |m.trace| + 2 && m.trace < t.trace && t.trace[|m.trace| + 1] == Aborted
                  && IsReply(t.trace[|m.trace|]) && t.trace[|m.trace|].message.async == ending.async)
  {
    hide Act, EnvelopeOf, PatternAt;
    var h, b := NextHandler(s, l), Begun(s, async, l);
    var (m, ok) := Act(b, h.actions);
    ConcludeExactly(m, async, l, if ok then h.ending else Exception, h.elapsed);
  }

  lemma ConcludeExactly(s: State, async: bool, l: Layout, ending: Ending, elapsed: nat)
    ensures var (t, ok) := Conclude(s, async, l, ending, elapsed);
            && (ok <==> PidDecodes(s.call, l) && (ending.Answer? ==> ending.async == async))
            && (!PidDecodes(s.call, l) ==> t.trace == s.trace + [Aborted])
            && (PidDecodes(s.call, l) && !ok ==>
                  && |t.trace| == |s.trace| + 2 && s.trace < t.trace && t.trace[|s.trace| + 1] == Aborted
                  && IsReply(t.trace[|s.trace|]) && t.trace[|s.trace|].message.async == ending.async)
  {
    hide EnvelopeOf;
    if ending.Answer? {
      DeadlineSame(s.call, l, ending.deadline);
    }
  }

  // A request inside a callback

  /** The fields of two requests have the same sizes. */
  predicate SameShape(a: Request, b: Request) {
    && |a.name| == |b.name| && |a.pattern| == |b.pattern| && |a.requestInfo| == |b.requestInfo|
    && |a.request| == |b.request| && |a.pid| == |b.pid|
  }

  /** The call buffer is one: what stands there is described by the layout of the older request. */
  lemma ShapeDescribes(m: bytes, a: Request, b: Request)
    requires SameShape(a, b) && Describes(m, LayoutFor(4, b), b)
    ensures EnvelopeOf(m, LayoutFor(4, a)) == EnvelopeFor(b)
  {
  }

  lemma PidHere(m: bytes, a: Request, b: Request)
    requires Sendable(b) && SameShape(a, b) && Describes(m, LayoutFor(4, b), b) && b.pid[0] == 131
    ensures PidDecodes(m, LayoutFor(4, a))
  {
    assert Content(m, LayoutFor(4, b).pid)[0] == m[LayoutFor(4, b).pid.at];
  }

  /** A handler that does not answer with the wrong kind: its own answer, or the empty return, is the reply. */
  lemma ConcludeAnswers(s: State, async: bool, l: Layout, ending: Ending, elapsed: nat)
    requires PidDecodes(s.call, l) && (ending.Answer? ==> ending.async == async)
    ensures var (t, ok) := Conclude(s, async, l, ending, elapsed);
            && ok && t.trace != [] && t == s.(trace := s.trace + [Last(t)])
            && Last(t).Wrote? && Last(t).message.Reply? && Last(t).message.origin == EnvelopeOf(s.call, l)
  {
    hide EnvelopeOf, PidDecodes;
    if ending.Answer? {
      DeadlineSame(s.call, l, ending.deadline);
    }
  }

  /** A poll that receives a request alone: the state in which its callback is called. */
  lemma ReceivedAlone(s: State, timeout: int, external: bool, async: bool, r: Request)
    returns (t: State, l: Layout)
    requires Sendable(r) && |SendBytes(async, r)| <= MAX_UINT32
    requires s.inputs != [] && s.inputs[0].Frame? && s.inputs[0].body == SendBytes(async, r)
    ensures var (u, ok) := Callback(t, async, l);
            Receive(s, timeout, external)
            == if ok then Again(u, s.inputs[0].elapsed, timeout, external) else (u, AssertionFailed)
    ensures Describes(t.call, l, r) && l == LayoutFor(4, r)
    ensures t.inputs == s.inputs[1..] && t.terminate == s.terminate && t.initialized == s.initialized
    ensures t.lookup == s.lookup && t.handlers == s.handlers && s.trace <= t.trace
    ensures Good(s) && !DueAt(s).Owed? && (external ==> s.initialized) ==>
              Good(t) && DueAt(t) == Owed(async, EnvelopeFor(r))
  {
    hide SendBytes, LayoutFor, Callback, Dispatch, Again, DueOf, Good, DueAt, OpenAt;
    var input := s.inputs[0];
    var v := s.(inputs := s.inputs[1..], trace := s.trace + [Read(input, external)]);
    var u := Loaded(v, input.body, input.stale, input.spare);
    LoadedAlone(u, async, r, input.stale, input.spare);
    assert Receive(s, timeout, external) == Dispatch(u, 0, input.elapsed, timeout, external);
    l := RequestDelivered(u, 0, async, r, [], input.elapsed, timeout, external);
    t := AfterEvents(Copied(u), []);
    if external ==> s.initialized {
      ReadAloneIsOwed(s, v, u, t, input, external, async, r);
    }
  }

  /** Up to the call nothing meets or drops the demand of the request. */
  lemma ReadAloneIsOwed(
    s: State, v: State, u: State, t: State, input: Input, external: bool, async: bool, r: Request)
    requires Sendable(r) && |SendBytes(async, r)| <= MAX_UINT32 && (external ==> s.initialized)
    requires input.Frame? && input.body == SendBytes(async, r)
    requires v == s.(inputs := v.inputs, trace := s.trace + [Read(input, external)])
    requires u == Loaded(v, input.body, input.stale, input.spare) && t == AfterEvents(Copied(u), [])
    ensures Good(s) && !DueAt(s).Owed? ==> Good(t) && DueAt(t) == Owed(async, EnvelopeFor(r))
  {
    ReadDemands(s, v, input, external);
    hide SendBytes, Demand, BehindEvents, Good, DueAt, OpenAt, AfterEvents;
    assert [] + (SendBytes(async, r) + []) == SendBytes(async, r) && SendBytes(async, r) + [] == SendBytes(async, r);
    RequestIsOwed([], async, r, [], external);
    Idle(v, u);
    CopiedSame(u);
    EventsSame(Copied(u), []);
  }

  /** An internal poll that receives one request and then nothing more. */
  lemma NestedSend(s: State, b: Request) returns (t: State)
    requires Sendable(b) && |SendBytes(true, b)| <= MAX_UINT32 && b.pid[0] == 131 && !s.terminate
    requires |s.inputs| == 1 && s.inputs[0].Frame? && s.inputs[0].body == SendBytes(true, b) && s.handlers == []
    ensures Poll(s, -1, false) == (t, PollErrno)
    ensures Describes(t.call, LayoutFor(4, b), b) && t.inputs == [] && s.trace <= t.trace
  {
    hide SendBytes, LayoutFor, Callback, Dispatch, Good, DueAt;
    var v, l := ReceivedAlone(s, -1, false, true, b);
    var w := PlainCallback(v, b, l);
    t := w.(trace := w.trace + [Read(PollFails, false)]);
    assert Again(w, s.inputs[0].elapsed, -1, false) == Receive(w, -1, false) == (t, PollErrno);
  }

  lemma LoadedAlone(s: State, async: bool, r: Request, stale: bytes, spare: bytes)
    requires Sendable(r) && |SendBytes(async, r)| <= MAX_UINT32 && s == Loaded(s, SendBytes(async, r), stale, spare)
    ensures Received(s, 0, async, r) && s.recv[0 + |SendBytes(async, r)|..s.recvIndex] == TailBytes([])
    ensures SendBytes(async, r) != []
  {
    hide SendBytes;
    var body := SendBytes(async, r);
    assert body + [] == body && body[0..] == body[0..0 + |body|] == body;
    RequestLoaded(s, body, stale, 0, async, r, []);
    CommandFirst(body, 0, async, r);
  }

  lemma PlainCallback(s: State, b: Request, l: Layout) returns (t: State)
    requires Sendable(b) && Describes(s.call, l, b) && b.pid[0] == 131 && s.inputs == [] && s.handlers == []
    ensures Callback(s, true, l) == (t, true)
    ensures t.call == s.call && t.inputs == [] && s.trace <= t.trace
  {
    assert Content(s.call, l.pid)[0] == s.call[l.pid.at];
    var u := Begun(s, true, l);
    assert Act(u, []) == (u, true);
    ConcludeAnswers(u, true, l, Finish, 0);
    t := Callback(s, true, l).0;
  }
}
