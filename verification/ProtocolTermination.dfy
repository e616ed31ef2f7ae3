/** When a poll that was already running stops at TERM, and when it does not. */
module ProtocolTermination {
  import opened Bytes
  import opened Bignum
  import opened Events
  import opened Protocol
  import opened ProtocolRequests
  import opened Monitor
  import opened ProtocolRuns
  import opened ProtocolPolls
  import opened ProtocolReplies
  import Lookup
  import Timeouts

  // What is counted

  predicate IsTraffic(e: Entry) {
    e.Read? || e.Wrote?
  }

  function Traffic(trace: seq<Entry>): nat {
    if trace == [] then 0 else (if IsTraffic(trace[0]) then 1 else 0) + Traffic(trace[1..])
  }

  /** The reads and writes of a trace that were made while the terminate flag was set. */
  function Late(trace: seq<Entry>): nat {
    if trace == [] then 0 else if trace[0].TermSeen? then Traffic(trace[1..]) else Late(trace[1..])
  }

  /** What a poll added to the trace. */
  function Since(s: State, t: State): seq<Entry> {
    if s.trace <= t.trace then t.trace[|s.trace|..] else t.trace
  }

  function Terms(trace: seq<Entry>): nat {
    if trace == [] then 0 else (if trace[0].TermSeen? then 1 else 0) + Terms(trace[1..])
  }

  lemma {:induction false} TermsSplit(a: seq<Entry>, b: seq<Entry>)
    ensures Terms(a + b) == Terms(a) + Terms(b)
  {
    if a == [] {
      assert a + b == b;
    } else {
      assert (a + b)[1..] == a[1..] + b;
      TermsSplit(a[1..], b);
    }
  }

  lemma {:induction false} LateWithout(a: seq<Entry>, b: seq<Entry>)
    requires Terms(a) == 0
    ensures Late(a + b) == Late(b)
  {
    if a == [] {
      assert a + b == b;
    } else {
      assert (a + b)[1..] == a[1..] + b;
      LateWithout(a[1..], b);
    }
  }

  // A running poll that stops

  /** The handler waits for a response somewhere. */
  predicate Asks(h: Handler) {
    exists k :: 0 <= k < |h.actions| && h.actions[k].Exchange?
  }

  predicate NoneRegistered(lookup: map<bytes, seq<nat>>) {
    forall pattern :: pattern in lookup ==> lookup[pattern] == []
  }

  /** No handler that the poll can reach waits for a response. */
  ghost predicate Mute(s: State) {
    NoneRegistered(s.lookup) || forall k :: 0 <= k < |s.handlers| ==> !Asks(s.handlers[k])
  }

  /**
   * The flag was not set before s; if it is set at t, that is the last entry. Replies in between name
   * the requests they answer.
   */
  ghost predicate Stops(s: State, t: State) {
    && s.trace <= t.trace && Faithful(s.trace, t.trace)
    && if t.terminate
       then t.trace != [] && Last(t).TermSeen? && s.trace < t.trace && Terms(t.trace) == Terms(s.trace) + 1
       else Terms(t.trace) == Terms(s.trace)
  }

  /** A part of a run in which the flag is not set. */
  ghost predicate Unset(s: State, t: State) {
    s.trace <= t.trace && !t.terminate && Terms(t.trace) == Terms(s.trace)
  }

  ghost predicate Runs(s: State, t: State) {
    Unset(s, t) && Faithful(s.trace, t.trace)
  }

  lemma RunsThen(s: State, t: State, u: State)
    requires Runs(s, t) && Stops(t, u)
    ensures Stops(s, u)
  {
    hide Faithful, Terms;
    FaithfulThen(s.trace, t.trace, u.trace);
  }

  lemma AddsUnset(s: State, t: State, e: Entry)
    requires !s.terminate && !t.terminate && t.trace == s.trace + [e] && !e.TermSeen?
    ensures Unset(s, t)
  {
    TermsSplit(s.trace, [e]);
    assert [e][1..] == [];
  }

  lemma AddsRuns(s: State, t: State, e: Entry)
    requires !s.terminate && !t.terminate && t.trace == s.trace + [e] && !e.TermSeen? && !IsReply(e)
    ensures Runs(s, t) && Stops(s, t)
  {
    AddsUnset(s, t, e);
    NoReplies(s.trace, t.trace);
  }

  lemma IdleRuns(s: State, t: State)
    requires !s.terminate && !t.terminate && t.trace == s.trace
    ensures Runs(s, t) && Stops(s, t)
  {
    NoReplies(s.trace, t.trace);
  }

  lemma {:induction false} NoTerms(es: seq<Event>)
    ensures Terms(EventEntries(es)) == 0
  {
    if es != [] {
      assert EventEntries(es)[1..] == EventEntries(es[1..]);
      NoTerms(es[1..]);
    }
  }

  lemma ObserveStops(s: State, h: Handled)
    requires !s.terminate
    ensures Stops(s, Observe(s, h))
    ensures !h.terminate ==> Runs(s, Observe(s, h))
  {
    var entries, marks := EventEntries(h.events), if h.terminate then [TermSeen] else [];
    NoTerms(h.events);
    hide EventEntries;
    TermsSplit(entries, marks);
    TermsSplit(s.trace, entries + marks);
    assert [TermSeen][1..] == [];
    assert EventTrace(h.events, h.terminate && !s.terminate) == entries + marks;
    EventsAreNone(h.events);
    NoReplies(s.trace, Observe(s, h).trace);
  }

  lemma EventsAreNone(es: seq<Event>)
    ensures forall k :: 0 <= k < |EventEntries(es)| ==> !IsReply(EventEntries(es)[k])
  {
  }

  lemma TailStops(s: State, i: nat, external: bool)
    requires !s.terminate
    ensures Stops(s, Tail(s, i, external).0)
    ensures Tail(s, i, external).1 == Continue ==> Runs(s, Tail(s, i, external).0)
  {
    hide HandleEvents, Observe;
    if i == s.recvIndex {
      IdleRuns(s, s);
    } else {
      var h := HandleEvents(s.recv, s.recvIndex, external, i, Before(s));
      EventsKeepTerminate(s.recv, s.recvIndex, external, i, Before(s));
      ObserveStops(s, h);
    }
  }

  // Callbacks that do not wait

  /** What a call that does not wait adds: nothing that opens or closes a request, or touches its bytes. */
  ghost predicate Leaves(s: State, t: State) {
    && Unset(s, t) && t.handlers == s.handlers && t.inputs == s.inputs && t.call == s.call && t.config == s.config
    && forall k :: |s.trace| <= k < |t.trace| ==> Aside(t.trace[k]) && !t.trace[k].Configured? && !t.trace[k].Read?
  }

  lemma PerformLeaves(s: State, a: Action)
    requires !a.Exchange? && !s.terminate
    ensures Leaves(s, Perform(s, a))
  {
    hide Terms;
    var t := Perform(s, a);
    match a
    case Notify(id) =>
      AddsUnset(s, t, Wrote(Tell(id)));
    case Subscribe(name, f) =>
      var e := Subscribed(CString(s.identity.prefix) + CString(name), f);
      TwoEntries(s, t, e, Wrote(Subscribing));
    case Unsubscribe(name) =>
      var pattern := CString(s.identity.prefix) + CString(name);
      if QueueOf(s.lookup, pattern) != [] {
        TwoEntries(s, t, Unsubscribed(pattern), Wrote(Unsubscribing));
      }
  }

  lemma TwoEntries(s: State, t: State, e: Entry, f: Entry)
    requires !s.terminate && !t.terminate && t.trace == s.trace + [e] + [f] && !e.TermSeen? && !f.TermSeen?
    ensures Unset(s, t)
  {
    TermsSplit(s.trace, [e]);
    TermsSplit(s.trace + [e], [f]);
    assert [e][1..] == [] && [f][1..] == [];
  }

  lemma {:induction false} ActLeaves(s: State, actions: seq<Action>)
    requires !s.terminate && forall k :: 0 <= k < |actions| ==> !actions[k].Exchange?
    ensures Leaves(s, Act(s, actions).0) && Act(s, actions).1
    ensures actions == [] ==> Act(s, actions).0 == s
    decreases |actions|
  {
    hide Perform, Terms;
    if actions != [] {
      PerformLeaves(s, actions[0]);
      ActLeaves(Perform(s, actions[0]), actions[1..]);
    }
  }

  lemma ConcludeUnset(s: State, async: bool, l: Layout, ending: Ending, elapsed: nat)
    requires !s.terminate
    ensures var t := Conclude(s, async, l, ending, elapsed).0;
            Unset(s, t) && t.handlers == s.handlers && t.lookup == s.lookup
  {
    hide ReplyOf, Terms;
    var (t, thrown) := EndHandler(s, l, ending, elapsed);
    assert Unset(s, t) by {
      if PidDecodes(s.call, l) && ending.Answer? {
        var passed := WithDeadline(l, ending.deadline);
        AddsUnset(s, t, Wrote(ReplyOf(s, ending.forward, ending.async, passed, elapsed)));
      }
    }
    AddsUnset(t, Abort(t).0, Aborted);
    if PidDecodes(t.call, l) {
      var m := ReplyOf(t, false, async, l, elapsed);
      AddsUnset(t, Writes(t, m), Wrote(m));
    }
  }

  /** The one reply at the end of a callback has the envelope that its pointers show. */
  lemma ConcludeFaithful(s: State, async: bool, l: Layout, ending: Ending, elapsed: nat)
    requires var v := ObservesAll(START, s.trace);
             v.Accepted? && v.watch.open != [] ==> v.watch.open[0].origin == EnvelopeOf(s.call, l)
    ensures Faithful(s.trace, Conclude(s, async, l, ending, elapsed).0.trace)
  {
    hide ObservesAll, EnvelopeOf, ReplyOf, WithDeadline, PidDecodes;
    ReplyNames(s, false, async, l, elapsed);
    if ending.Answer? {
      DeadlineSame(s.call, l, ending.deadline);
      ReplyNames(s, ending.forward, ending.async, WithDeadline(l, ending.deadline), elapsed);
    }
    var t := Conclude(s, async, l, ending, elapsed).0;
    forall k | |s.trace| <= k < |t.trace|
      ensures Addressed(t.trace, k)
    {
      assert k == |s.trace| ==> t.trace[..k] == s.trace;
    }
  }

  lemma ReplyNames(s: State, forward: bool, kind: bool, l: Layout, elapsed: nat)
    ensures var m := ReplyOf(s, forward, kind, l, elapsed);
            m.Reply? && m.origin == EnvelopeOf(s.call, l)
  {
  }

  lemma CallbackRuns(s: State, async: bool, l: Layout)
    requires !s.terminate && Mute(s)
    ensures var t := Callback(s, async, l).0;
            Runs(s, t) && Mute(t)
  {
    hide Act, Conclude, EnvelopeOf, Asks, PatternAt, ObservesAll, Terms, Faithful;
    var h, b := NextHandler(s, l), Begun(s, async, l);
    var e := CalledOn(s, async, l);
    NextIsMute(s, l);
    AddsRuns(s, b, e);
    NoExchange(h);
    ActLeaves(b, h.actions);
    var (t, ok) := Act(b, h.actions);
    NoReplies(b.trace, t.trace);
    var ending := if ok then h.ending else Exception;
    ConcludeUnset(t, async, l, ending, h.elapsed);
    assert t.trace == s.trace + [e] + t.trace[|b.trace|..];
    if ObservesAll(START, t.trace).Accepted? {
      TopIsCalled(s.trace, e, t.trace[|b.trace|..]);
    }
    ConcludeFaithful(t, async, l, ending, h.elapsed);
    var u := Conclude(t, async, l, ending, h.elapsed).0;
    FaithfulThen(b.trace, t.trace, u.trace);
    FaithfulThen(s.trace, b.trace, u.trace);
    if NoneRegistered(s.lookup) {
      StillNone(s, async, l);
    }
  }

  lemma NoExchange(h: Handler)
    requires !Asks(h)
    ensures forall k :: 0 <= k < |h.actions| ==> !h.actions[k].Exchange?
  {
  }

  lemma NextIsMute(s: State, l: Layout)
    requires Mute(s)
    ensures !Asks(NextHandler(s, l))
  {
    hide PatternAt;
  }

  /** Without a registered callback every request gets the null response. */
  lemma StillNone(s: State, async: bool, l: Layout)
    requires NoneRegistered(s.lookup)
    ensures NextHandler(s, l) == Handler([], Finish, 0) && NoneRegistered(Begun(s, async, l).lookup)
    ensures Begun(s, async, l).handlers == s.handlers
  {
    hide PatternAt;
  }

  // The functions of an external poll, in mutual induction

  lemma {:induction false} ReceiveStops(s: State, timeout: int)
    requires !s.terminate && Mute(s)
    ensures Stops(s, Receive(s, timeout, true).0)
    decreases |s.inputs|, 4
  {
    hide Dispatch, Stops, Runs, Terms, Mute;
    var input := if s.inputs == [] then PollFails else s.inputs[0];
    var t := s.(inputs := if s.inputs == [] then [] else s.inputs[1..], trace := s.trace + [Read(input, true)]);
    AddsRuns(s, t, Read(input, true));
    if input.Frame? && |input.body| <= MAX_UINT32 {
      var u := Loaded(t, input.body, input.stale, input.spare);
      IdleRuns(t, u);
      MuteKept(s, u);
      if input.body != [] {
        DispatchStops(u, 0, input.elapsed, timeout);
      } else {
        IdleRuns(u, u);
      }
      RunsThen(t, u, Receive(s, timeout, true).0);
    } else {
      IdleRuns(t, t);
    }
    RunsThen(s, t, Receive(s, timeout, true).0);
  }

  lemma MuteKept(s: State, t: State)
    requires Mute(s) && t.lookup == s.lookup && t.handlers == s.handlers
    ensures Mute(t)
  {
  }

  lemma {:induction false} AgainStops(s: State, elapsed: nat, timeout: int)
    requires !s.terminate && Mute(s)
    ensures Stops(s, Again(s, elapsed, timeout, true).0)
    decreases |s.inputs|, 6
  {
    hide Receive;
    IdleRuns(s, s);
    ReceiveStops(s, if timeout > 0 then Timeouts.Charge(timeout, elapsed) else timeout);
  }

  lemma {:induction false} DispatchStops(s: State, i: nat, elapsed: nat, timeout: int)
    requires !s.terminate && Mute(s) && i <= s.recvIndex
    ensures Stops(s, Dispatch(s, i, elapsed, timeout, true).0)
    decreases |s.inputs|, 9, Left(i, s.recvIndex), 0
  {
    hide Stops, DispatchSend, DispatchEvent, Mute;
    IdleRuns(s, s);
    match Word(i, s.recv)
    case Past =>
    case Got(j, command) =>
      if command == MESSAGE_SEND_ASYNC || command == MESSAGE_SEND_SYNC {
        SendStops(s, command == MESSAGE_SEND_ASYNC, j, elapsed, timeout);
      } else {
        EventStops(s, command, j, elapsed, timeout);
      }
  }

  lemma {:induction false} EventStops(s: State, command: nat, i: nat, elapsed: nat, timeout: int)
    requires !s.terminate && Mute(s)
    ensures Stops(s, DispatchEvent(s, command, i, elapsed, timeout, true).0)
    decreases |s.inputs|, 9, Left(i, s.recvIndex), 2
  {
    hide Stops, Runs, EventLoop, DispatchNext, DispatchAnswer, Mute, Terms, Observe;
    IdleRuns(s, s);
    if command == MESSAGE_TERM {
      ObserveStops(s, EventLoop(s.recv, s.recvIndex, true, command, i, Before(s)));
    } else if command == MESSAGE_REINIT {
      match ReinitAt(i, s.recv)
      case Past =>
        IdleRuns(s, s.(config := ReinitPart(i, s.recv, s.config)));
      case Got(k, e) =>
        var t := Handles(s, e);
        AddsRuns(s, t, EventEntry(e));
        MuteKept(s, t);
        NextStops(t, k, elapsed, timeout);
        RunsThen(s, t, DispatchNext(t, k, elapsed, timeout, true).0);
    } else if command == MESSAGE_KEEPALIVE {
      var t := Handles(s, KeepAlive);
      AddsRuns(s, t, EventEntry(KeepAlive));
      MuteKept(s, t);
      NextStops(t, i, elapsed, timeout);
      RunsThen(s, t, DispatchNext(t, i, elapsed, timeout, true).0);
    } else {
      AnswerStops(s, command, i);
    }
  }

  lemma AnswerStops(s: State, command: nat, i: nat)
    requires !s.terminate
    ensures Stops(s, DispatchAnswer(s, command, i, true).0)
  {
    hide Stops, Runs, Answered, Terms, InitPart, AnswerPart;
    IdleRuns(s, s);
    if command == MESSAGE_INIT || IsResponse(command) {
      match if command == MESSAGE_INIT then InitAt(i, s) else AnswerAt(command, i, s)
      case Past =>
        IdleRuns(s, if command == MESSAGE_INIT then InitPart(i, s) else AnswerPart(command, i, s));
      case Got(j, t) =>
        if command == MESSAGE_INIT {
          AddsRuns(s, t, Configured(t.config.requestTimeoutAdjustment != 0, false));
        } else {
          IdleRuns(s, t);
        }
        AnsweredStops(t, j);
        RunsThen(s, t, Answered(t, j, true).0);
    }
  }

  lemma AnsweredStops(s: State, i: nat)
    requires !s.terminate
    ensures Stops(s, Answered(s, i, true).0)
  {
    IdleRuns(s, s);
    IdleRuns(s, s.(recvIndex := 0));
  }

  lemma {:induction false} NextStops(s: State, i: nat, elapsed: nat, timeout: int)
    requires !s.terminate && Mute(s)
    ensures Stops(s, DispatchNext(s, i, elapsed, timeout, true).0)
    decreases |s.inputs|, 9, Left(i, s.recvIndex), 1
  {
    hide Stops, Runs, Again, Dispatch, Mute;
    IdleRuns(s, s);
    if i == s.recvIndex {
      var t := s.(recvIndex := 0);
      IdleRuns(s, t);
      MuteKept(s, t);
      AgainStops(t, elapsed, timeout);
      RunsThen(s, t, Again(t, elapsed, timeout, true).0);
    } else if i < s.recvIndex {
      DispatchStops(s, i, elapsed, timeout);
    }
  }

  lemma {:induction false} SendStops(s: State, async: bool, i: nat, elapsed: nat, timeout: int)
    requires !s.terminate && Mute(s)
    ensures Stops(s, DispatchSend(s, async, i, elapsed, timeout, true).0)
    decreases |s.inputs|, 8, 2
  {
    hide Stops, Runs, DispatchRequest, LayoutAt, Mute;
    var t := Copied(s);
    AddsRuns(s, t, Overwrote);
    MuteKept(s, t);
    var layout := LayoutAt(i, t.call);
    if layout.Got? {
      RequestStops(t, async, layout.value, layout.next, elapsed, timeout);
    } else {
      IdleRuns(t, t);
    }
    RunsThen(s, t, DispatchParsed(t, async, layout, elapsed, timeout, true).0);
  }

  lemma {:induction false} RequestStops(s: State, async: bool, l: Layout, i: nat, elapsed: nat, timeout: int)
    requires !s.terminate && Mute(s)
    ensures Stops(s, DispatchRequest(s, async, l, i, elapsed, timeout, true).0)
    decreases |s.inputs|, 8, 0
  {
    hide Stops, Runs, Tail, Callback, Again, Mute, Terms;
    TailStops(s, i, true);
    var (t, outcome) := Tail(s, i, true);
    if outcome == Continue {
      var u := t.(recvIndex := 0);
      RunsOn(s, t);
      IdleRuns(t, u);
      TailMute(s, i, u);
      CallbackRuns(u, async, l);
      var (v, ok) := Callback(u, async, l);
      RunsOn(u, v);
      IdleRuns(v, v);
      if ok {
        AgainStops(v, elapsed, timeout);
      }
      var end := DispatchRequest(s, async, l, i, elapsed, timeout, true).0;
      RunsThen(u, v, end);
      RunsThen(t, u, end);
      RunsThen(s, t, end);
    }
  }

  lemma RunsOn(s: State, t: State)
    requires Runs(s, t)
    ensures !t.terminate
  {
  }

  lemma TailMute(s: State, i: nat, t: State)
    requires Mute(s) && t == Tail(s, i, true).0.(recvIndex := 0)
    ensures Mute(t)
  {
    hide HandleEvents;
    MuteKept(s, t);
  }

  /**
   * A running external poll neither reads nor writes once the flag is set, whatever arrives, if no
   * handler that it can reach waits for a response; and every reply names the request it answers.
   */
  lemma MutePollIsSilent(s: State, timeout: int)
    requires !s.terminate && Mute(s)
    ensures var t := Poll(s, timeout, true).0;
            s.trace <= t.trace && Late(Since(s, t)) == 0 && Faithful(s.trace, t.trace)
  {
    hide Receive, Mute;
    var a := Announced(s, true);
    assert Runs(s, a) by {
      if !s.initialized {
        AddsRuns(s, a, Wrote(Polling));
      }
    }
    MuteKept(s, a);
    ReceiveStops(a, timeout);
    var t := Poll(s, timeout, true).0;
    RunsThen(s, a, t);
    StopsIsSilent(s, t);
  }

  lemma FlagAlone()
    ensures Terms([TermSeen]) == 1 && Late([TermSeen]) == 0 && Late([]) == 0
  {
    assert [TermSeen][1..] == [];
  }

  lemma StopsIsSilent(s: State, t: State)
    requires Stops(s, t)
    ensures Late(Since(s, t)) == 0
  {
    hide Terms, Late;
    FlagAlone();
    var since := Since(s, t);
    assert t.trace == s.trace + since;
    TermsSplit(s.trace, since);
    if t.terminate {
      var front := since[..|since| - 1];
      assert since == front + [TermSeen];
      TermsSplit(front, [TermSeen]);
      LateWithout(front, [TermSeen]);
    } else {
      assert since + [] == since;
      LateWithout(since, []);
    }
  }

  // A running poll that goes on

  ghost predicate NulFree(s: bytes) {
    forall k :: 0 <= k < |s| ==> s[k] != 0
  }

  const PATTERN_LIMIT := 0x8000_0000

  /** The patterns are C strings of a size that a message can name. */
  ghost predicate Ordinary(lookup: map<bytes, seq<nat>>) {
    forall pattern :: pattern in lookup ==> NulFree(pattern) && |pattern| < PATTERN_LIMIT
  }

  lemma {:induction false} CStringOf(m: bytes, p: bytes)
    requires NulFree(p) && |p| < |m| && m[..|p|] == p && m[|p|] == 0
    ensures CString(m) == p
    decreases |p|
  {
    if p != [] {
      assert m[0] == m[..|p|][0] == p[0] && m[1..][..|p[1..]|] == m[..|p|][1..] == p[1..];
      CStringOf(m[1..], p[1..]);
    }
  }

  /** A request for a pattern, with nothing else in it. */
  function RequestFor(pattern: bytes): Request {
    Request([0], pattern + [0], [], [], 0, 0, seq(16, _ => 0), [131])
  }

  lemma RequestForSendable(pattern: bytes)
    requires |pattern| < PATTERN_LIMIT
    ensures var r := RequestFor(pattern);
            Sendable(r) && |SendBytes(true, r)| == 50 + |pattern| <= MAX_UINT32
  {
    hide FirstFields;
    var r := RequestFor(pattern);
    FirstSizes(4, r);
    FieldsLength([r.pid], [[]]);
    assert FieldBytes([r.pid][1..], [[]][1..]) == [];
  }

  lemma PatternHere(m: bytes, pattern: bytes)
    requires NulFree(pattern) && |pattern| < PATTERN_LIMIT
    requires Describes(m, LayoutFor(4, RequestFor(pattern)), RequestFor(pattern))
    ensures PatternAt(m, LayoutFor(4, RequestFor(pattern))) == pattern
    ensures PidDecodes(m, LayoutFor(4, RequestFor(pattern)))
  {
    var l := LayoutFor(4, RequestFor(pattern));
    var at := l.pattern.at;
    assert Content(m, l.pattern) == pattern + [0];
    assert m[at..at + |pattern| + 1] == pattern + [0];
    assert m[at..][..|pattern|] == (pattern + [0])[..|pattern|] == pattern;
    assert m[at..][|pattern|] == (pattern + [0])[|pattern|];
    CStringOf(m[at..], pattern);
    assert Content(m, l.pid)[0] == m[l.pid.at];
  }

  /** TERM at an internal poll sets the flag. */
  lemma TermFrame(s: State, rest: seq<Input>)
    requires !s.terminate && s.inputs == [TERM_FRAME] + rest
    ensures var t := Poll(s, -1, false).0;
            && t.terminate && t.call == s.call && t.inputs == rest && !Throws(Poll(s, -1, false).1)
            && t.trace == s.trace + [Read(TERM_FRAME, false)] + [TermSeen]
  {
    var body := Le32(MESSAGE_TERM);
    var t := Loaded(s.(inputs := rest, trace := s.trace + [Read(TERM_FRAME, false)]), body, [], []);
    assert s.inputs[1..] == rest && body + [] == body && body[0..4] == body;
    WordHere(t.recv, 0, MESSAGE_TERM);
    assert EventTrace([], true) == [TermSeen];
    assert Receive(s, -1, false) == Dispatch(t, 0, 0, -1, false) == DispatchEvent(t, MESSAGE_TERM, 4, 0, -1, false);
  }

  const TERM_FRAME := Frame(Le32(MESSAGE_TERM), [], [], 0)

  /** After the flag is set the calls of a callback read nothing. */
  lemma {:induction false} ActTerminated(s: State, actions: seq<Action>)
    requires s.terminate
    ensures var t := Act(s, actions).0;
            t.terminate && s.trace <= t.trace && t.call == s.call && t.inputs == s.inputs
    decreases |actions|
  {
    if actions != [] {
      var t := if actions[0].Exchange? then Writes(s, Ask(actions[0].id)) else Perform(s, actions[0]);
      ActTerminated(t, actions[1..]);
    }
  }

  /** The flag is set inside a trace. */
  ghost predicate Ends(s: State, t: State) {
    && t.terminate && s.trace <= t.trace && t.call == s.call
    && exists k :: |s.trace| <= k < |t.trace| && t.trace[k].TermSeen?
  }

  lemma {:induction false} ActMeetsTerm(s: State, actions: seq<Action>, rest: seq<Input>)
    requires !s.terminate && s.inputs == [TERM_FRAME] + rest
    requires exists k :: 0 <= k < |actions| && actions[k].Exchange?
    ensures Ends(s, Act(s, actions).0) && Act(s, actions).0.inputs == rest
    decreases |actions|
  {
    hide Poll;
    if actions[0].Exchange? {
      var asking := Writes(s, Ask(actions[0].id));
      TermFrame(asking, rest);
      var t := Poll(asking, -1, false).0;
      ActTerminated(t, actions[1..]);
      assert t.trace[|s.trace| + 2] == TermSeen;
      assert Act(s, actions).0.trace[|s.trace| + 2] == TermSeen;
    } else {
      var k :| 0 <= k < |actions| && actions[k].Exchange?;
      assert actions[1..][k - 1] == actions[k];
      ActMeetsTerm(Perform(s, actions[0]), actions[1..], rest);
    }
  }

  lemma ConcludeWrites(s: State, async: bool, l: Layout, ending: Ending, elapsed: nat)
    requires PidDecodes(s.call, l)
    ensures var t := Conclude(s, async, l, ending, elapsed).0;
            && s.trace < t.trace && t.trace[|s.trace|].Wrote?
            && t.terminate == s.terminate && t.inputs == s.inputs && t.initialized == s.initialized
  {
  }

  /** What arrives: a request for the pattern, TERM, and anything. */
  function Interrupting(pattern: bytes, rest: seq<Input>): seq<Input>
    requires |pattern| < PATTERN_LIMIT
  {
    RequestForSendable(pattern);
    [Frame(SendBytes(true, RequestFor(pattern)), [], [], 0)] + ([TERM_FRAME] + rest)
  }

  /** The first request reaches the first handler, with TERM next. */
  lemma RequestArrives(s: State, timeout: int, pattern: bytes, rest: seq<Input>) returns (t: State, l: Layout)
    requires NulFree(pattern) && |pattern| < PATTERN_LIMIT && s.inputs == Interrupting(pattern, rest)
    ensures var (u, ok) := Callback(t, true, l);
            Receive(s, timeout, true) == if ok then Again(u, 0, timeout, true) else (u, AssertionFailed)
    ensures t.inputs == [TERM_FRAME] + rest && PatternAt(t.call, l) == pattern && PidDecodes(t.call, l)
    ensures t.terminate == s.terminate && t.initialized == s.initialized && s.trace <= t.trace
    ensures t.lookup == s.lookup && t.handlers == s.handlers
  {
    RequestForSendable(pattern);
    hide SendBytes, LayoutFor, RequestFor, Callback, Receive, Again, PatternAt;
    t, l := ReceivedAlone(s, timeout, true, true, RequestFor(pattern));
    PatternHere(t.call, pattern);
    assert s.inputs[1..] == [TERM_FRAME] + rest;
  }

  /**
   * TERM at a call inside a callback does not end the poll around it: the callback's reply is
   * written, and then the poll goes on with whatever arrives next.
   */
  lemma TermInsideCallback(s: State, timeout: int, pattern: bytes, rest: seq<Input>) returns (t: State, ok: bool)
    requires !s.terminate && s.initialized && NulFree(pattern) && |pattern| < PATTERN_LIMIT
    requires s.inputs == Interrupting(pattern, rest) && QueueOf(s.lookup, pattern) != []
    requires s.handlers != [] && Asks(s.handlers[0])
    ensures Receive(s, timeout, true) == if ok then Again(t, 0, timeout, true) else (t, AssertionFailed)
    ensures t.terminate && t.initialized && t.inputs == rest && s.trace <= t.trace
    ensures exists k, j :: |s.trace| <= k < j < |t.trace| && t.trace[k].TermSeen? && t.trace[j].Wrote?
  {
    hide Receive, Again, PatternAt, Conclude, Act, EnvelopeOf, Interrupting;
    var u, l := RequestArrives(s, timeout, pattern, rest);
    var b, h := Begun(u, true, l), s.handlers[0];
    assert NextHandler(u, l) == h;
    ActMeetsTerm(b, h.actions, rest);
    ActLeads(b, h.actions, Barred);
    var (v, done) := Act(b, h.actions);
    var ending := if done then h.ending else Exception;
    ConcludeWrites(v, true, l, ending, h.elapsed);
    t, ok := Conclude(v, true, l, ending, h.elapsed).0, Conclude(v, true, l, ending, h.elapsed).1;
    var k :| |b.trace| <= k < |v.trace| && v.trace[k].TermSeen?;
    assert t.trace[k].TermSeen? && t.trace[|v.trace|].Wrote?;
  }

  lemma {:induction false} LateAt(trace: seq<Entry>, k: nat, j: nat)
    requires k < j < |trace| && trace[k].TermSeen? && IsTraffic(trace[j])
    ensures Late(trace) > 0
    decreases k
  {
    assert trace[1..][j - 1] == trace[j];
    if trace[0].TermSeen? {
      TrafficAt(trace[1..], j - 1);
    } else {
      assert trace[1..][k - 1] == trace[k];
      LateAt(trace[1..], k - 1, j - 1);
    }
  }

  lemma {:induction false} TrafficAt(trace: seq<Entry>, j: nat)
    requires j < |trace| && IsTraffic(trace[j])
    ensures Traffic(trace) > 0
    decreases j
  {
    if j > 0 {
      assert trace[1..][j - 1] == trace[j];
      TrafficAt(trace[1..], j - 1);
    }
  }

  /** If the first handler waits for a response, there is an input on which the poll does not stop. */
  lemma AskingPollIsLate(s: State, timeout: int, pattern: bytes, rest: seq<Input>)
    requires !s.terminate && NulFree(pattern) && |pattern| < PATTERN_LIMIT && QueueOf(s.lookup, pattern) != []
    requires s.handlers != [] && Asks(s.handlers[0])
    ensures var u := s.(inputs := Interrupting(pattern, rest));
            Late(Since(u, Poll(u, timeout, true).0)) > 0
  {
    hide Receive, Again, Interrupting, Asks, Late;
    var u := s.(inputs := Interrupting(pattern, rest));
    var a := Announced(u, true);
    var t, ok := TermInsideCallback(a, timeout, pattern, rest);
    var end := Poll(u, timeout, true).0;
    assert Poll(u, timeout, true) == Receive(a, timeout, true);
    if ok {
      AgainLeads(t, 0, timeout, true, Settled(t));
    }
    TraceGrows(u, a, t, end);
    var k, j :| |a.trace| <= k < j < |t.trace| && t.trace[k].TermSeen? && t.trace[j].Wrote?;
    LateSince(u, t, end, k, j);
  }

  lemma LateSince(s: State, t: State, u: State, k: nat, j: nat)
    requires s.trace <= t.trace <= u.trace && |s.trace| <= k < j < |t.trace|
    requires t.trace[k].TermSeen? && t.trace[j].Wrote?
    ensures Late(Since(s, u)) > 0
  {
    hide Late;
    var n := |s.trace|;
    assert Since(s, u)[k - n] == t.trace[k] && Since(s, u)[j - n] == t.trace[j];
    LateAt(Since(s, u), k - n, j - n);
  }

  lemma TraceGrows(s: State, a: State, t: State, u: State)
    requires s.trace <= a.trace && a.trace <= t.trace && t.trace <= u.trace
    ensures s.trace <= u.trace
  {
  }

  /** What a running poll may do in the hands of any handlers of a service, on any input. */
  ghost predicate AlwaysSilent(s: State, timeout: int, may: Handler -> bool) {
    forall inputs: seq<Input>, handlers: seq<Handler> ::
      (forall k :: 0 <= k < |handlers| ==> may(handlers[k])) ==>
        var u := s.(inputs := inputs, handlers := handlers);
        Late(Since(u, Poll(u, timeout, true).0)) == 0
  }

  /**
   * A running poll neither reads nor writes after the flag is set, whatever arrives and whatever the
   * handlers of the service do, exactly when none of them ever waits for a response inside a
   * callback, or no callback is registered.
   */
  lemma SilentExactly(s: State, timeout: int, may: Handler -> bool)
    requires !s.terminate && Ordinary(s.lookup)
    ensures AlwaysSilent(s, timeout, may) <==> NoneRegistered(s.lookup) || forall h :: may(h) ==> !Asks(h)
  {
    hide Poll, Late, Since, Asks, Interrupting;
    if NoneRegistered(s.lookup) || forall h :: may(h) ==> !Asks(h) {
      forall inputs: seq<Input>, handlers: seq<Handler> | forall k :: 0 <= k < |handlers| ==> may(handlers[k])
        ensures var u := s.(inputs := inputs, handlers := handlers);
                Late(Since(u, Poll(u, timeout, true).0)) == 0
      {
        MutePollIsSilent(s.(inputs := inputs, handlers := handlers), timeout);
      }
    } else {
      var pattern :| pattern in s.lookup && s.lookup[pattern] != [];
      var h :| may(h) && Asks(h);
      var u := s.(handlers := [h]);
      AskingPollIsLate(u, timeout, pattern, []);
      var inputs := Interrupting(pattern, []);
      var v := s.(inputs := inputs, handlers := [h]);
      assert v == u.(inputs := inputs) && Late(Since(v, Poll(v, timeout, true).0)) > 0;
    }
  }
}
