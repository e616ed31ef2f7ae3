/** When a reply names the request it answers, whatever arrives while its callback runs. */
module ProtocolIsolation {
  import opened Bytes
  import opened Bignum
  import opened Events
  import opened Protocol
  import opened ProtocolRequests
  import opened Monitor
  import opened PatternRuns
  import opened ProtocolRuns
  import opened ProtocolPolls
  import opened ProtocolReplies
  import opened ProtocolTermination
  import opened ProtocolLifecycle

  // Another request inside a callback

  /** Calls of a callback that find nothing more to read. */
  lemma {:induction false} ActAlone(s: State, actions: seq<Action>)
    requires s.inputs == []
    ensures var (t, ok) := Act(s, actions);
            ok && t.call == s.call && t.inputs == [] && s.trace <= t.trace
    decreases |actions|
  {
    hide Poll, Perform;
    if actions != [] {
      var t := s;
      if actions[0].Exchange? {
        var asking := Writes(s, Ask(actions[0].id));
        PollAlone(asking);
        t := Poll(asking, -1, false).0;
      } else {
        PerformGrows(s, actions[0]);
        t := Perform(s, actions[0]);
      }
      ActAlone(t, actions[1..]);
    }
  }

  lemma PollAlone(s: State)
    requires s.inputs == []
    ensures var (t, status) := Poll(s, -1, false);
            !Throws(status) && t.call == s.call && t.inputs == [] && s.trace <= t.trace
  {
  }

  /** The first call that waits receives b, which is copied over the call buffer. */
  lemma {:induction false} ActMeetsSend(s: State, actions: seq<Action>, b: Request)
    requires Alone(s, b) && exists k :: 0 <= k < |actions| && actions[k].Exchange?
    ensures var (t, ok) := Act(s, actions);
            ok && Describes(t.call, LayoutFor(4, b), b) && s.trace <= t.trace
    decreases |actions|
  {
    hide Poll, SendBytes, LayoutFor, Perform;
    if actions[0].Exchange? {
      var asking := Writes(s, Ask(actions[0].id));
      var t := NestedSend(asking, b);
      ActAlone(t, actions[1..]);
    } else {
      var k :| 0 <= k < |actions| && actions[k].Exchange?;
      assert actions[1..][k - 1] == actions[k];
      PerformLeaves(s, actions[0]);
      ActMeetsSend(Perform(s, actions[0]), actions[1..], b);
    }
  }

  /** The frame of b, and nothing else, arrives next; its callback will do nothing. */
  ghost predicate Alone(s: State, b: Request) {
    && Sendable(b) && |SendBytes(true, b)| <= MAX_UINT32 && b.pid[0] == 131
    && !s.terminate && s.handlers == []
    && |s.inputs| == 1 && s.inputs[0].Frame? && s.inputs[0].body == SendBytes(true, b)
  }

  /** The kind of request for which the handler does not answer with the wrong kind. */
  function KindFor(h: Handler): bool {
    h.ending.Answer? ==> h.ending.async
  }

  /**
   * A request b that arrives while the callback of a request a of the same shape waits for a
   * response, whatever else its handler does: the reply to a names b's sender and b's trans_id.
   */
  lemma NestedSendMisdirects(s: State, a: Request, b: Request)
    requires Sendable(a) && SameShape(a, b) && CalleeOf(s, LayoutFor(4, a)).Registered?
    requires |s.handlers| == 1 && Asks(s.handlers[0]) && Alone(s.(handlers := []), b)
    ensures var (m, _) := Act(Begun(s, KindFor(s.handlers[0]), LayoutFor(4, a)), s.handlers[0].actions);
            var (t, ok) := Callback(s, KindFor(s.handlers[0]), LayoutFor(4, a));
            && ok && t.trace != [] && t.trace == m.trace + [Last(t)] && s.trace <= m.trace
            && IsReply(Last(t)) && Last(t).message.origin == EnvelopeFor(b)
  {
    hide SendBytes, LayoutFor, EnvelopeFor, EnvelopeOf, Conclude, CalleeOf, Act, PatternAt, Callback, Describes,
      SameShape, PidDecodes, Begun;
    var h, l := s.handlers[0], LayoutFor(4, a);
    var async := KindFor(h);
    var start := Begun(s, async, l);
    FirstHandler(s, async, l);
    ActMeetsSend(start, h.actions, b);
    var m := Act(start, h.actions).0;
    ShapeDescribes(m.call, a, b);
    PidHere(m.call, a, b);
    ConcludeAnswers(m, async, l, h.ending, h.elapsed);
  }

  /** The callback of a registered pattern is the first handler, between its start and its end. */
  lemma FirstHandler(s: State, async: bool, l: Layout)
    requires CalleeOf(s, l).Registered? && |s.handlers| == 1
    ensures var (b, h) := (Begun(s, async, l), s.handlers[0]);
            && b.handlers == [] && b.inputs == s.inputs && b.terminate == s.terminate && s.trace <= b.trace
            && Callback(s, async, l)
               == var (m, ok) := Act(b, h.actions);
                  Conclude(m, async, l, if ok then h.ending else Exception, h.elapsed)
  {
    hide Act, Conclude, PatternAt, EnvelopeOf;
  }

  // One callback

  /** Every callback of a that succeeds replies to a, on any input and in the hands of such handlers. */
  ghost predicate CallbacksIsolated(s: State, a: Request, may: Handler -> bool) {
    forall async: bool, inputs: seq<Input>, handlers: seq<Handler> ::
      (forall k :: 0 <= k < |handlers| ==> may(handlers[k])) ==>
        RepliesTo(Callback(s.(inputs := inputs, handlers := handlers), async, LayoutFor(4, a)), a)
  }

  ghost predicate RepliesTo(r: (State, bool), a: Request) {
    r.1 ==> r.0.trace != [] && IsReply(Last(r.0)) && Last(r.0).message.origin == EnvelopeFor(a)
  }

  /** A request like a, from another sender: the same sizes, another trans_id, and a pid that decodes. */
  function Rival(a: Request): (b: Request)
    requires Sendable(a)
    ensures Sendable(b) && SameShape(a, b) && b.pid[0] == 131 && EnvelopeFor(b) != EnvelopeFor(a)
  {
    a.(transId := a.transId[0 := if a.transId[0] == 0 then 1 else 0], pid := a.pid[0 := 131])
  }

  lemma SameSize(a: Request, b: Request)
    requires Sendable(a) && Sendable(b) && SameShape(a, b)
    ensures |SendBytes(true, b)| == |SendBytes(true, a)|
  {
    hide FieldBytes;
    FourLengths(a.name, a.pattern, a.requestInfo, a.request);
    FourLengths(b.name, b.pattern, b.requestInfo, b.request);
    PidLength(a.pid);
    PidLength(b.pid);
  }

  lemma PidLength(pid: bytes)
    requires |pid| <= MAX_UINT32
    ensures |FieldBytes([pid], [[]])| == 4 + |pid|
  {
    var none: seq<bytes> := [];
    assert [pid][1..] == none && [[]][1..] == none;
    assert FieldBytes(none, none) == [];
  }

  /** Without waiting calls, or after termination, the call buffer stays. */
  lemma ActKeepsCall(s: State, actions: seq<Action>)
    requires s.terminate || forall k :: 0 <= k < |actions| ==> !actions[k].Exchange?
    ensures Act(s, actions).0.call == s.call
  {
    if s.terminate {
      ActTerminated(s, actions);
    } else {
      ActLeaves(s, actions);
    }
  }

  lemma MuteCallbackReplies(s: State, async: bool, a: Request)
    requires Describes(s.call, LayoutFor(4, a), a)
    requires s.terminate || !Asks(NextHandler(s, LayoutFor(4, a)))
    ensures RepliesTo(Callback(s, async, LayoutFor(4, a)), a)
  {
    hide Act, Conclude, LayoutFor, PatternAt;
    var l := LayoutFor(4, a);
    var h, b := NextHandler(s, l), Begun(s, async, l);
    if !s.terminate {
      NoExchange(h);
    }
    ActKeepsCall(b, h.actions);
    var (t, ok) := Act(b, h.actions);
    ConcludeReplies(t, async, l, if ok then h.ending else Exception, h.elapsed);
  }

  /**
   * Isolation of one callback: its reply names the request that it was called for, whatever arrives
   * meanwhile, exactly when the service is told to terminate, no callback is registered for it, or no
   * handler waits for a response inside it.
   */
  lemma CallbackIsolatedExactly(s: State, a: Request, may: Handler -> bool)
    requires Sendable(a) && |SendBytes(true, a)| <= MAX_UINT32 && Describes(s.call, LayoutFor(4, a), a)
    ensures CallbacksIsolated(s, a, may)
       <==> s.terminate || CalleeOf(s, LayoutFor(4, a)).NullResponse? || forall h :: may(h) ==> !Asks(h)
  {
    hide Callback, LayoutFor, SendBytes, Asks, RepliesTo, Describes, EnvelopeFor, PatternAt, Act;
    var l := LayoutFor(4, a);
    if s.terminate || CalleeOf(s, l).NullResponse? || forall h :: may(h) ==> !Asks(h) {
      forall async: bool, inputs: seq<Input>, handlers: seq<Handler> |
        forall k :: 0 <= k < |handlers| ==> may(handlers[k])
        ensures RepliesTo(Callback(s.(inputs := inputs, handlers := handlers), async, l), a)
      {
        var u := s.(inputs := inputs, handlers := handlers);
        NothingAsks();
        MuteCallbackReplies(u, async, a);
      }
    } else {
      var h :| may(h) && Asks(h);
      var b := Rival(a);
      SameSize(a, b);
      var inputs, handlers := [Frame(SendBytes(true, b), [], [], 0)], [h];
      var u := s.(inputs := inputs, handlers := handlers);
      NestedSendMisdirects(u, a, b);
      NotRepliesTo(Callback(u, KindFor(h), l), a, b);
      assert !RepliesTo(Callback(s.(inputs := inputs, handlers := handlers), KindFor(h), l), a);
    }
  }

  lemma NothingAsks()
    ensures !Asks(Handler([], Finish, 0))
  {
  }

  lemma NotRepliesTo(r: (State, bool), a: Request, b: Request)
    requires r.1 && r.0.trace != [] && IsReply(Last(r.0)) && Last(r.0).message.origin == EnvelopeFor(b)
    requires EnvelopeFor(a) != EnvelopeFor(b)
    ensures !RepliesTo(r, a)
  {
  }

  // Polls

  /** Every reply of an external poll names the request it answers, on any input and with such handlers. */
  ghost predicate AlwaysIsolated(s: State, timeout: int, may: Handler -> bool) {
    forall inputs: seq<Input>, handlers: seq<Handler> ::
      (forall k :: 0 <= k < |handlers| ==> may(handlers[k])) ==>
        var u := s.(inputs := inputs, handlers := handlers);
        Faithful(s.trace, Poll(u, timeout, true).0.trace)
  }

  /** What arrives: a request for the pattern, and its rival. */
  function Crossing(pattern: bytes, async: bool): seq<Input>
    requires |pattern| < PATTERN_LIMIT
  {
    RequestForSendable(pattern);
    var a := RequestFor(pattern);
    [Frame(SendBytes(async, a), [], [], 0), Frame(SendBytes(true, Rival(a)), [], [], 0)]
  }

  /** If a handler waits for a response, there is an input on which a reply names the wrong request. */
  lemma AskingPollMisdirects(s: State, timeout: int, pattern: bytes)
    requires AtRest(s) && !s.terminate && NulFree(pattern) && |pattern| < PATTERN_LIMIT
    requires QueueOf(s.lookup, pattern) != [] && |s.handlers| == 1 && Asks(s.handlers[0])
    requires s.inputs == Crossing(pattern, KindFor(s.handlers[0]))
    ensures !Faithful(s.trace, Poll(s, timeout, true).0.trace)
  {
    hide Callback, Receive, Again, LayoutFor, SendBytes, RequestFor, PatternAt, Asks, Act, Rival, Good, DueAt, OpenAt,
      InTurn;
    var h, a := s.handlers[0], RequestFor(pattern);
    RequestForSendable(pattern);
    var b, async := Rival(a), KindFor(h);
    SameSize(a, b);
    var p := Announced(s, true);
    AnnouncedKeeps(s, true);
    KindsSize(async, a);
    var t, l := ReceivedAlone(p, timeout, true, async, a);
    PatternHere(t.call, pattern);
    NestedSendMisdirects(t, a, b);
    var m := Act(Begun(t, async, l), h.actions).0;
    var (u, ok) := Callback(t, async, l);
    InnermostCalled(t, async, l, h.actions, a);
    var end := Poll(s, timeout, true).0;
    assert Poll(s, timeout, true) == Receive(p, timeout, true) == Again(u, 0, timeout, true);
    AgainGrows(u, 0, timeout, t, l, async);
    NotAddressed(m, u, end, EnvelopeFor(a));
  }

  lemma KindsSize(async: bool, a: Request)
    requires Sendable(a)
    ensures |SendBytes(async, a)| == |SendBytes(true, a)|
  {
  }

  /** When the calls of the callback are over its request is the innermost one. */
  lemma InnermostCalled(s: State, async: bool, l: Layout, actions: seq<Action>, a: Request)
    requires Good(s) && DueAt(s) == Owed(async, EnvelopeFor(a)) && Describes(s.call, l, a)
    ensures var m := Act(Begun(s, async, l), actions).0;
            Good(m) && OpenAt(m) != [] && OpenAt(m)[0].origin == EnvelopeFor(a)
  {
    var b := Begun(s, async, l);
    assert EnvelopeOf(s.call, l) == EnvelopeFor(a);
    BegunOpens(s, async, l);
    ActLeads(b, actions, Barred);
    hide Good, DueAt, OpenAt, Act, Begun, Grows;
    SoiledAt(OpenAt(b), 0);
  }

  lemma AgainGrows(u: State, elapsed: nat, timeout: int, t: State, l: Layout, async: bool)
    requires t.initialized && u == Callback(t, async, l).0
    ensures u.trace <= Again(u, elapsed, timeout, true).0.trace
  {
    hide Callback, Again;
    CallbackLeads(t, async, l, Unknown);
    AgainLeads(u, elapsed, timeout, true, Settled(u));
  }

  lemma NotAddressed(m: State, u: State, end: State, origin: Envelope)
    requires Good(m) && OpenAt(m) != [] && OpenAt(m)[0].origin == origin
    requires u.trace != [] && u.trace == m.trace + [Last(u)] && u.trace <= end.trace
    requires IsReply(Last(u)) && Last(u).message.origin != origin
    ensures !Addressed(end.trace, |m.trace|)
  {
    hide ObservesAll;
    assert end.trace[..|m.trace|] == m.trace && end.trace[|m.trace|] == Last(u);
  }

  /**
   * Isolation over whole polls, from any point of any run: every reply names the request it answers,
   * whatever arrives and whatever the handlers of the service do, exactly when the service is told to
   * terminate, no callback is registered, or no handler waits for a response inside a callback.
   */
  lemma IsolatedExactly(s: State, timeout: int, may: Handler -> bool)
    requires AtRest(s) && Ordinary(s.lookup)
    ensures AlwaysIsolated(s, timeout, may)
       <==> s.terminate || NoneRegistered(s.lookup) || forall h :: may(h) ==> !Asks(h)
  {
    hide Poll, Asks, Faithful, Crossing, Good, DueAt, OpenAt, InTurn;
    if s.terminate || NoneRegistered(s.lookup) || forall h :: may(h) ==> !Asks(h) {
      forall inputs: seq<Input>, handlers: seq<Handler> | forall k :: 0 <= k < |handlers| ==> may(handlers[k])
        ensures Faithful(s.trace, Poll(s.(inputs := inputs, handlers := handlers), timeout, true).0.trace)
      {
        var u := s.(inputs := inputs, handlers := handlers);
        if s.terminate {
          TerminatedPoll(u, timeout);
          NoReplies(s.trace, u.trace);
        } else {
          MutePollIsSilent(u, timeout);
        }
      }
    } else {
      var pattern :| pattern in s.lookup && s.lookup[pattern] != [];
      var h :| may(h) && Asks(h);
      var inputs := Crossing(pattern, KindFor(h));
      var u := s.(inputs := inputs, handlers := [h]);
      SameRest(s, u);
      AskingPollMisdirects(u, timeout, pattern);
      assert !Faithful(s.trace, Poll(s.(inputs := inputs, handlers := [h]), timeout, true).0.trace);
    }
  }

  lemma TerminatedPoll(s: State, timeout: int)
    requires s.terminate
    ensures Poll(s, timeout, true) == (s, Success)
  {
  }

  /** What will arrive has no part in what has happened. */
  lemma SameRest(s: State, u: State)
    requires AtRest(s) && u == s.(inputs := u.inputs, handlers := u.handlers)
    ensures AtRest(u)
  {
  }
}
