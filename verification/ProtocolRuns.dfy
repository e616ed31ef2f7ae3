/** What every part of a run keeps, with callbacks that poll again inside a poll. */
module ProtocolRuns {
  import opened Bytes
  import opened Bignum
  import opened Events
  import opened Protocol
  import opened ProtocolRequests
  import opened Monitor
  import opened PatternRuns
  import Lookup

  // The automaton on the trace of a state

  ghost function WatchOf(s: State): Verdict {
    ObservesAll(START, s.trace)
  }

  ghost predicate Good(s: State) {
    WatchOf(s).Accepted? && WatchOf(s).watch.announced == s.initialized
  }

  ghost function DueAt(s: State): Due {
    if WatchOf(s).Accepted? then WatchOf(s).watch.due else Barred
  }

  ghost function OpenAt(s: State): seq<Open> {
    if WatchOf(s).Accepted? then WatchOf(s).watch.open else []
  }

  function Copies(trace: seq<Entry>): nat {
    if trace == [] then 0 else (if trace[0].Overwrote? then 1 else 0) + Copies(trace[1..])
  }

  lemma {:induction false} CopiesSplit(a: seq<Entry>, b: seq<Entry>)
    ensures Copies(a + b) == Copies(a) + Copies(b)
  {
    if a == [] {
      assert a + b == b;
    } else {
      assert (a + b)[1..] == a[1..] + b;
      CopiesSplit(a[1..], b);
    }
  }

  lemma CopiesSnoc(a: seq<Entry>, e: Entry)
    ensures Copies(a + [e]) == Copies(a) + if e.Overwrote? then 1 else 0
  {
    CopiesSplit(a, [e]);
    assert [e][1..] == [];
  }

  /** The call buffer was not overwritten between two states. */
  predicate Clean(s: State, t: State) {
    Copies(t.trace) == Copies(s.trace)
  }

  /** The open requests of s, marked if the call buffer was overwritten since. */
  ghost function OpenAfter(s: State, t: State): seq<Open> {
    if Clean(s, t) then OpenAt(s) else Soiled(OpenAt(s))
  }

  // The request timeout

  /** Whether timeouts are adjusted, and the request timeout that they are compared with. */
  datatype Clock = Clock(adjusts: bool, timeout: nat)

  function ClockOf(c: Config): Clock {
    Clock(c.requestTimeoutAdjustment != 0, c.requestTimeout)
  }

  /**
   * A callback sets it to the timeout of its request, if timeouts are adjusted; a REINIT that turns the
   * adjustment on clears it.
   */
  function Sets(c: Clock, e: Entry): Clock {
    match e
    case Called(_, _, _, timeout, _) => if c.adjusts then c.(timeout := timeout) else c
    case Configured(adjusts, clears) => Clock(adjusts, if clears then 0 else c.timeout)
    case _ => c
  }

  function ClockAfter(c: Clock, trace: seq<Entry>): Clock
    decreases |trace|
  {
    if trace == [] then c else ClockAfter(Sets(c, trace[0]), trace[1..])
  }

  lemma {:induction false} ClockSplit(c: Clock, a: seq<Entry>, b: seq<Entry>)
    ensures ClockAfter(c, a + b) == ClockAfter(ClockAfter(c, a), b)
    decreases |a|
  {
    hide Sets;
    if a == [] {
      assert a + b == b;
    } else {
      assert (a + b)[1..] == a[1..] + b;
      ClockSplit(Sets(c, a[0]), a[1..], b);
    }
  }

  /** What the trace has gained says what the request timeout has become. */
  predicate InTime(s: State, t: State) {
    s.trace <= t.trace && ClockOf(t.config) == ClockAfter(ClockOf(s.config), t.trace[|s.trace|..])
  }

  lemma InTimeThen(s: State, t: State, u: State)
    requires InTime(s, t) && InTime(t, u)
    ensures InTime(s, u)
  {
    hide ClockOf, ClockAfter;
    var a, b := t.trace[|s.trace|..], u.trace[|t.trace|..];
    ClockSplit(ClockOf(s.config), a, b);
    assert u.trace[|s.trace|..] == a + b;
  }

  lemma InTimeAdds(s: State, t: State, e: Entry)
    requires t.trace == s.trace + [e] && ClockOf(t.config) == Sets(ClockOf(s.config), e)
    ensures InTime(s, t)
  {
    hide ClockOf, Sets;
    assert t.trace[|s.trace|..] == [e] && [e][1..] == [];
    assert ClockAfter(ClockOf(s.config), [e]) == ClockAfter(Sets(ClockOf(s.config), e), []);
  }

  // Relations between states

  /**
   * What holds between any two states of a run: the trace only grows, termination stays, the call
   * buffer stays unless a request is copied over it, callbacks are taken in turn, and the request
   * timeout is the one that the trace says.
   */
  ghost predicate Grows(s: State, t: State) {
    && s.trace <= t.trace && Copies(s.trace) <= Copies(t.trace)
    && (s.terminate ==> t.terminate) && t.initialized == s.initialized
    && (Clean(s, t) ==> t.call == s.call)
    && (InTurn(s) ==> InTurn(t))
    && InTime(s, t)
  }

  /** From a frame with demand d on: the demand is met, and every request opened since is closed. */
  ghost predicate Leads(s: State, t: State, d: Due) {
    && Grows(s, t)
    && (Good(s) && DueAt(s) == d ==> Good(t) && !DueAt(t).Owed? && OpenAt(t) == OpenAfter(s, t))
  }

  /** A step that neither meets nor drops the demand. */
  ghost predicate Same(s: State, t: State) {
    && Grows(s, t)
    && (Good(s) ==> Good(t) && DueAt(t) == DueAt(s) && OpenAt(t) == OpenAfter(s, t))
  }

  /** The demand at a state from which none is left open. */
  ghost function Settled(s: State): Due {
    if DueAt(s).Owed? then Barred else DueAt(s)
  }

  lemma GrowsThen(s: State, t: State, u: State)
    requires Grows(s, t) && Grows(t, u)
    ensures Grows(s, u)
  {
    InTimeThen(s, t, u);
    hide InTime, InTurn;
  }

  lemma OpenThen(s: State, t: State, u: State)
    requires Grows(s, t) && Grows(t, u) && OpenAt(t) == OpenAfter(s, t) && OpenAt(u) == OpenAfter(t, u)
    ensures OpenAt(u) == OpenAfter(s, u)
  {
    SoiledTwice(OpenAt(s));
  }

  lemma LeadsThen(s: State, t: State, u: State, d: Due)
    requires Leads(s, t, d) && Leads(t, u, Settled(t))
    ensures Leads(s, u, d)
  {
    GrowsThen(s, t, u);
    hide Grows, Good, DueAt, OpenAt, OpenAfter;
    if Good(s) && DueAt(s) == d {
      OpenThen(s, t, u);
    }
  }

  lemma SameThen(s: State, t: State, u: State, d: Due)
    requires Same(s, t) && Leads(t, u, d)
    ensures Leads(s, u, d)
  {
    GrowsThen(s, t, u);
    hide Grows, Good, DueAt, OpenAt, OpenAfter;
    if Good(s) && DueAt(s) == d {
      OpenThen(s, t, u);
    }
  }

  lemma SameLeads(s: State, t: State, d: Due)
    requires Same(s, t) && !d.Owed?
    ensures Leads(s, t, d)
  {
  }

  // Single steps

  /** Nothing happens to the trace. */
  lemma Idle(s: State, t: State)
    requires t.trace == s.trace && t.call == s.call && t.lookup == s.lookup
    requires t.initialized == s.initialized && (s.terminate ==> t.terminate)
    requires ClockOf(t.config) == ClockOf(s.config)
    ensures Same(s, t)
  {
  }

  /** One entry, with the callbacks of all patterns as they were. */
  ghost predicate Adds(s: State, t: State, e: Entry) {
    && t.trace == s.trace + [e] && t.lookup == s.lookup && !e.Called? && !e.Subscribed? && !e.Unsubscribed?
    && t.initialized == s.initialized && (s.terminate ==> t.terminate) && (e.Overwrote? || t.call == s.call)
    && ClockOf(t.config) == Sets(ClockOf(s.config), e)
  }

  lemma AddsGrows(s: State, t: State, e: Entry)
    requires Adds(s, t, e)
    ensures Grows(s, t) && (Clean(s, t) <==> !e.Overwrote?)
    ensures WatchOf(s).Accepted? ==> WatchOf(t) == Observes(WatchOf(s).watch, e)
  {
    hide ClockAfter, ClockOf, Sets;
    CopiesSnoc(s.trace, e);
    ObservesSnoc(START, s.trace, e);
    InTimeAdds(s, t, e);
    if InTurn(s) {
      InTurnAdds(s, t, e);
    }
  }

  lemma AddsBetween(s: State, t: State, e: Entry)
    requires Adds(s, t, e) && Between(e)
    ensures Same(s, t)
  {
    hide InTurn, ObservesAll, DueOf;
    AddsGrows(s, t, e);
  }

  /** A message or a mark that has nothing to do with requests. */
  predicate Neutral(e: Entry) {
    || e.Refused? || e.TermSeen?
    || (e.Wrote? && !e.message.KeepAliveReply? && !e.message.Polling? && !e.message.Reply?)
  }

  lemma AddsNeutral(s: State, t: State, e: Entry, d: Due)
    requires Adds(s, t, e) && Neutral(e) && !d.Owed?
    ensures Leads(s, t, d)
  {
    hide InTurn, ObservesAll, DueOf;
    AddsGrows(s, t, e);
  }

  lemma WritesLeads(s: State, m: Message, d: Due)
    requires Neutral(Wrote(m)) && !d.Owed?
    ensures Leads(s, Writes(s, m), d)
  {
    AddsNeutral(s, Writes(s, m), Wrote(m), d);
  }

  /** Events before, behind or between messages, one after the other. */
  lemma {:induction false} EventsRun(s: State, t: State, es: seq<Event>)
    requires t.trace == s.trace + EventEntries(es) && ClockOf(t.config) == ClockOf(ApplyAll(s.config, es))
    requires t.call == s.call && t.lookup == s.lookup
    requires t.initialized == s.initialized && (s.terminate ==> t.terminate)
    ensures Same(s, t)
    decreases |es|
  {
    hide Same;
    if es == [] {
      assert s.trace + [] == s.trace;
      Idle(s, t);
    } else {
      var u := Handles(s, es[0]);
      EventHandled(s, es[0]);
      assert EventEntries(es) == [EventEntry(es[0])] + EventEntries(es[1..]);
      Associative(s.trace, [EventEntry(es[0])], EventEntries(es[1..]));
      EventsRun(u, t, es[1..]);
      SameTwice(s, u, t);
    }
  }

  lemma EventHandled(s: State, e: Event)
    ensures Same(s, Handles(s, e))
  {
    AddsBetween(s, Handles(s, e), EventEntry(e));
  }

  lemma SameTwice(s: State, t: State, u: State)
    requires Same(s, t) && Same(t, u)
    ensures Same(s, u)
  {
    GrowsThen(s, t, u);
    hide Grows, Good, DueAt, OpenAt, OpenAfter;
    if Good(s) {
      OpenThen(s, t, u);
    }
  }

  /** The first external poll announces itself before anything else. */
  function Announced(s: State, external: bool): State {
    if external && !s.terminate && !s.initialized then Writes(s, Polling).(initialized := true) else s
  }

  lemma AnnouncedKeeps(s: State, external: bool)
    requires Good(s) && !DueAt(s).Owed?
    ensures var t := Announced(s, external);
            Good(t) && !DueAt(t).Owed? && OpenAt(t) == OpenAt(s)
    ensures InTurn(s) ==> InTurn(Announced(s, external))
  {
    hide DueOf;
    ObservesSnoc(START, s.trace, Wrote(Polling));
    if InTurn(s) && Announced(s, external) != s {
      InTurnAdds(s, Announced(s, external), Wrote(Polling));
    }
  }

  // Events

  lemma {:induction false} EventsKeepTerminate(m: bytes, limit: nat, external: bool, i: nat, h: Handled)
    ensures var r := HandleEvents(m, limit, external, i, h);
            (h.terminate ==> r.terminate) && (r.outcome == Continue ==> r.terminate == h.terminate)
    decreases Left(i, limit), 0
  {
    if i <= limit && Word(i, m).Got? {
      LoopKeepsTerminate(m, limit, external, Word(i, m).value, i + 4, h);
    }
  }

  lemma {:induction false} LoopKeepsTerminate(m: bytes, limit: nat, external: bool, command: nat, i: nat, h: Handled)
    ensures var r := EventLoop(m, limit, external, command, i, h);
            (h.terminate ==> r.terminate) && (r.outcome == Continue ==> r.terminate == h.terminate)
    decreases Left(i, limit), 2
  {
    var e := ReinitAt(i, m);
    if command == MESSAGE_REINIT && e.Got? && e.next < limit {
      EventsKeepTerminate(m, limit, external, e.next, Step(h, e.value));
    } else if command == MESSAGE_KEEPALIVE && i < limit {
      EventsKeepTerminate(m, limit, external, i, Step(h, KeepAlive));
    }
  }

  /** Whatever the loop has handled, its configuration is as far as the request timeout goes their fold. */
  ghost predicate Folded(c: Config, h: Handled) {
    ClockOf(h.config) == ClockOf(ApplyAll(c, h.events))
  }

  lemma StepFolded(c: Config, h: Handled, e: Event)
    requires Folded(c, h)
    ensures Folded(c, Step(h, e))
  {
    ApplySnoc(c, h.events, e);
  }

  lemma {:induction false} EventsFolded(m: bytes, limit: nat, external: bool, i: nat, h: Handled, c: Config)
    requires Folded(c, h)
    ensures Folded(c, HandleEvents(m, limit, external, i, h))
    decreases Left(i, limit), 0
  {
    if i <= limit && Word(i, m).Got? {
      LoopFolded(m, limit, external, Word(i, m).value, i + 4, h, c);
    }
  }

  lemma {:induction false} LoopFolded(
    m: bytes, limit: nat, external: bool, command: nat, i: nat, h: Handled, c: Config)
    requires Folded(c, h)
    ensures Folded(c, EventLoop(m, limit, external, command, i, h))
    decreases Left(i, limit), 2
  {
    hide ApplyAll, Apply;
    var e := ReinitAt(i, m);
    if command == MESSAGE_REINIT && e.Got? {
      StepFolded(c, h, e.value);
      if e.next < limit {
        EventsFolded(m, limit, external, e.next, Step(h, e.value), c);
      }
    } else if command == MESSAGE_KEEPALIVE {
      StepFolded(c, h, KeepAlive);
      if i < limit {
        EventsFolded(m, limit, external, i, Step(h, KeepAlive), c);
      }
    }
  }

  /** Events, and then perhaps the flag. */
  lemma ObserveLeads(s: State, h: Handled, d: Due)
    requires (s.terminate ==> h.terminate) && !d.Owed? && Folded(s.config, h)
    ensures Leads(s, Observe(s, h), d)
    ensures h.terminate == s.terminate ==> Same(s, Observe(s, h))
  {
    hide Leads, Same, ObservesAll, Observes;
    var t := Observe(s, h);
    if h.terminate == s.terminate {
      assert EventEntries(h.events) + [] == EventEntries(h.events);
      EventsRun(s, t, h.events);
      SameLeads(s, t, d);
    } else {
      var u := t.(trace := s.trace + EventEntries(h.events));
      EventsRun(s, u, h.events);
      Associative(s.trace, EventEntries(h.events), [TermSeen]);
      AddsNeutral(u, t, TermSeen, d);
      SameThen(s, u, t, d);
    }
  }

  lemma TailLeads(s: State, i: nat, external: bool, d: Due)
    requires !d.Owed?
    ensures Leads(s, Tail(s, i, external).0, d)
    ensures Tail(s, i, external).1 == Continue ==> Same(s, Tail(s, i, external).0)
  {
    hide Leads, Same, HandleEvents;
    if i == s.recvIndex {
      Idle(s, s);
      SameLeads(s, s, d);
    } else {
      EventsKeepTerminate(s.recv, s.recvIndex, external, i, Before(s));
      EventsFolded(s.recv, s.recvIndex, external, i, Before(s), s.config);
      ObserveLeads(s, HandleEvents(s.recv, s.recvIndex, external, i, Before(s)), d);
    }
  }

  lemma AnsweredLeads(s: State, i: nat, external: bool, d: Due)
    requires !d.Owed?
    ensures Leads(s, Answered(s, i, external).0, d)
  {
    hide Leads, Same, Tail;
    Idle(s, s);
    SameLeads(s, s, d);
    TailLeads(s, i, external, d);
    var (t, outcome) := Tail(s, i, external);
    if outcome == Continue {
      Idle(t, t.(recvIndex := 0));
      SameTwice(s, t, t.(recvIndex := 0));
      SameLeads(s, t.(recvIndex := 0), d);
    }
  }

  // Callbacks

  lemma PerformLeads(s: State, a: Action, d: Due)
    requires !a.Exchange? && !d.Owed?
    ensures Leads(s, Perform(s, a), d)
  {
    hide Leads, Same, ObservesAll, DueOf;
    Idle(s, s);
    SameLeads(s, s, d);
    match a
    case Notify(id) =>
      WritesLeads(s, Tell(id), d);
    case Subscribe(name, f) =>
      var pattern := CString(s.identity.prefix) + CString(name);
      var queue := Lookup.After(QueueOf(s.lookup, pattern), Lookup.Insert(f));
      var t := s.(lookup := Rebind(s.lookup, pattern, queue), trace := s.trace + [Subscribed(pattern, f)]);
      RebindLeads(s, t, Subscribed(pattern, f), pattern, Lookup.Insert(f), d);
      WritesLeads(t, Subscribing, Settled(t));
      LeadsThen(s, t, Writes(t, Subscribing), d);
    case Unsubscribe(name) =>
      var pattern := CString(s.identity.prefix) + CString(name);
      var queue := QueueOf(s.lookup, pattern);
      if queue != [] {
        var t := s.(lookup := Rebind(s.lookup, pattern, Lookup.After(queue, Lookup.Remove)),
                    trace := s.trace + [Unsubscribed(pattern)]);
        RebindLeads(s, t, Unsubscribed(pattern), pattern, Lookup.Remove, d);
        WritesLeads(t, Unsubscribing, Settled(t));
        LeadsThen(s, t, Writes(t, Unsubscribing), d);
      }
  }

  lemma RebindLeads(s: State, t: State, e: Entry, pattern: bytes, op: Lookup.Op<nat>, d: Due)
    requires (e.Subscribed? && op == Lookup.Insert(e.callback)) || (e.Unsubscribed? && op == Lookup.Remove)
    requires e.pattern == pattern && !d.Owed?
    requires t == s.(lookup := Rebind(s.lookup, pattern, Lookup.After(QueueOf(s.lookup, pattern), op)),
                     trace := s.trace + [e])
    ensures Leads(s, t, d)
  {
    hide InTurn, ObservesAll, DueOf, ClockAfter;
    CopiesSnoc(s.trace, e);
    ObservesSnoc(START, s.trace, e);
    InTimeAdds(s, t, e);
    if InTurn(s) {
      InTurnTakes(s, t, e, pattern, op);
    }
  }

  lemma BegunGrows(s: State, async: bool, l: Layout)
    ensures Grows(s, Begun(s, async, l)) && Clean(s, Begun(s, async, l))
  {
    hide InTurn, ClockAfter;
    CopiesSnoc(s.trace, CalledOn(s, async, l));
    InTimeAdds(s, Begun(s, async, l), CalledOn(s, async, l));
    if InTurn(s) {
      InTurnBegun(s, async, l);
    }
  }

  /** A request is handed out: it was owed, and it is now the innermost open one. */
  lemma BegunOpens(s: State, async: bool, l: Layout)
    requires Good(s) && (DueAt(s).Unknown? || DueAt(s) == Owed(async, EnvelopeOf(s.call, l)))
    ensures var t := Begun(s, async, l);
            && Good(t) && DueAt(t) == Barred
            && OpenAt(t) == [Open(async, EnvelopeOf(s.call, l), true, false)] + OpenAt(s)
  {
    hide DueOf;
    ObservesSnoc(START, s.trace, CalledOn(s, async, l));
  }

  /** The innermost open request is closed. */
  ghost predicate Closes(s: State, t: State) {
    && Grows(s, t) && Clean(s, t)
    && (Good(s) && !DueAt(s).Owed? && OpenAt(s) != [] ==>
          Good(t) && !DueAt(t).Owed? && OpenAt(t) == OpenAt(s)[1..])
  }

  lemma AbortCloses(s: State)
    ensures Closes(s, Abort(s).0)
  {
    hide InTurn, ObservesAll, DueOf;
    AddsGrows(s, Abort(s).0, Aborted);
  }

  /** A reply of the right kind closes the request; one of the wrong kind marks it. */
  lemma ReplyWritten(s: State, forward: bool, kind: bool, l: Layout, elapsed: nat, top: Open)
    requires Good(s) && !DueAt(s).Owed? && OpenAt(s) != [] && OpenAt(s)[0] == top && !top.wrong
    requires top.clean ==> EnvelopeOf(s.call, l) == top.origin
    ensures var t := Writes(s, ReplyOf(s, forward, kind, l, elapsed));
            && Good(t) && !DueAt(t).Owed?
            && OpenAt(t) == if kind == top.async then OpenAt(s)[1..] else [top.(wrong := true)] + OpenAt(s)[1..]
  {
    hide InTurn, ObservesAll, DueOf;
    var m := ReplyOf(s, forward, kind, l, elapsed);
    AddsGrows(s, Writes(s, m), Wrote(m));
  }

  lemma ReplyGrows(s: State, forward: bool, kind: bool, l: Layout, elapsed: nat)
    ensures var t := SendReply(s, forward, kind, l, elapsed).0;
            Grows(s, t) && Clean(s, t)
  {
    hide InTurn;
    if PidDecodes(s.call, l) {
      var m := ReplyOf(s, forward, kind, l, elapsed);
      AddsGrows(s, Writes(s, m), Wrote(m));
    }
  }

  lemma ConcludeGrows(s: State, async: bool, l: Layout, ending: Ending, elapsed: nat)
    ensures var t := Conclude(s, async, l, ending, elapsed).0;
            Grows(s, t) && Clean(s, t)
  {
    hide Grows, InTurn;
    GrowsIdle(s);
    var forward, kind := ending.Answer? && ending.forward, ending.Answer? && ending.async;
    ReplyGrows(s, forward, kind, if ending.Answer? then WithDeadline(l, ending.deadline) else l, elapsed);
    var (t, thrown) := EndHandler(s, l, ending, elapsed);
    AbortGrows(t);
    GrowsThen(s, t, Abort(t).0);
    if thrown.Other? {
      ReplyGrows(t, false, async, l, elapsed);
      var (u, again) := SendReply(t, false, async, l, elapsed);
      GrowsThen(s, t, u);
      AbortGrows(u);
      GrowsThen(s, u, Abort(u).0);
    }
  }

  lemma GrowsIdle(s: State)
    ensures Grows(s, s)
  {
  }

  lemma AbortGrows(s: State)
    ensures Grows(s, Abort(s).0) && Clean(s, Abort(s).0)
  {
    AbortCloses(s);
  }

  /** A timeout of the handler's own changes nothing else. */
  lemma DeadlineSame(m: bytes, l: Layout, deadline: Deadline)
    ensures var passed := WithDeadline(l, deadline);
            EnvelopeOf(m, passed) == EnvelopeOf(m, l) && PidDecodes(m, passed) == PidDecodes(m, l)
  {
  }

  /**
   * However a handler ends, the end of its callback closes its request and no other: by one reply of
   * its kind, with its envelope if the call buffer is still the one it was given, or by a failure.
   */
  lemma ConcludeCloses(s: State, async: bool, l: Layout, ending: Ending, elapsed: nat, top: Open)
    requires Good(s) && !DueAt(s).Owed? && OpenAt(s) != [] && OpenAt(s)[0] == top
    requires top.async == async && !top.wrong && (top.clean ==> EnvelopeOf(s.call, l) == top.origin)
    ensures var t := Conclude(s, async, l, ending, elapsed).0;
            Good(t) && !DueAt(t).Owed? && OpenAt(t) == OpenAt(s)[1..]
  {
    hide Good, DueAt, OpenAt, Grows, ReplyOf, EnvelopeOf;
    AbortCloses(s);
    if PidDecodes(s.call, l) {
      ReplyWritten(s, false, async, l, elapsed, top);
      if ending.Answer? {
        var passed := WithDeadline(l, ending.deadline);
        DeadlineSame(s.call, l, ending.deadline);
        var t := Writes(s, ReplyOf(s, ending.forward, ending.async, passed, elapsed));
        ReplyWritten(s, ending.forward, ending.async, passed, elapsed, top);
        AbortCloses(t);
        if ending.async != async {
          assert ([top.(wrong := true)] + OpenAt(s)[1..])[1..] == OpenAt(s)[1..];
        }
      }
    }
  }
}
