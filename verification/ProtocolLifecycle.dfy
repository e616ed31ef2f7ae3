/** Whole runs of an instance: any calls by its user, over any input, from its creation on. */
module ProtocolLifecycle {
  import opened Bytes
  import opened Events
  import opened Protocol
  import opened ProtocolRequests
  import opened Monitor
  import opened PatternRuns
  import opened ProtocolRuns
  import opened ProtocolPolls
  import Lookup

  /** A call by the user outside of any callback. */
  datatype Call = Initialize | PollFor(timeout: int) | Inside(action: Action)

  const INIT_ID := 0

  /** The loop at the end of `cloudi_initialize`: internal polls of one second while they time out. */
  function AwaitInit(s: State): (r: (State, Status))
    decreases |s.inputs|
  {
    var (t, status) := Poll(s, 1000, false);
    if status == TimedOut then AwaitInit(t) else (t, status)
  }

  function Execute(s: State, c: Call): State {
    match c
    case Initialize => AwaitInit(Writes(s, Ask(INIT_ID))).0
    case PollFor(timeout) => Poll(s, timeout, true).0
    case Inside(action) => Act(s, [action]).0
  }

  function ExecuteAll(s: State, calls: seq<Call>): State
    decreases |calls|
  {
    if calls == [] then s else ExecuteAll(Execute(s, calls[0]), calls[1..])
  }

  /** A new instance: nothing has happened, and no callback is registered; its environment is arbitrary. */
  ghost predicate New(s: State) {
    !s.terminate && !s.initialized && s.trace == [] && s.lookup == map[]
  }

  lemma {:induction false} AwaitInitLeads(s: State, d: Due)
    requires !d.Owed?
    ensures Leads(s, AwaitInit(s).0, d)
    decreases |s.inputs|
  {
    hide Leads, Poll;
    PollLeads(s, 1000, false, d);
    var (t, status) := Poll(s, 1000, false);
    if status == TimedOut {
      AwaitInitLeads(t, Settled(t));
      LeadsThen(s, t, AwaitInit(t).0, d);
    }
  }

  lemma ExecuteLeads(s: State, c: Call, d: Due)
    requires !d.Owed?
    ensures Leads(Announced(s, c.PollFor?), Execute(s, c), d)
  {
    hide Leads, Poll, Act, AwaitInit;
    match c
    case Initialize =>
      var t := Writes(s, Ask(INIT_ID));
      WritesLeads(s, Ask(INIT_ID), d);
      AwaitInitLeads(t, Settled(t));
      LeadsThen(s, t, AwaitInit(t).0, d);
    case PollFor(timeout) =>
      PollLeads(s, timeout, true, d);
    case Inside(action) =>
      ActLeads(s, [action], d);
  }

  /** Some external poll is made before the service is told to terminate. */
  predicate Polls(s: State, calls: seq<Call>)
    decreases |calls|
  {
    calls != [] && ((calls[0].PollFor? && !s.terminate) || Polls(Execute(s, calls[0]), calls[1..]))
  }

  /** Between two calls of the user no request is open and none is owed. */
  ghost predicate AtRest(s: State) {
    Good(s) && !DueAt(s).Owed? && OpenAt(s) == [] && InTurn(s)
  }

  lemma ExecuteKeeps(s: State, c: Call)
    requires AtRest(s)
    ensures var t := Execute(s, c);
            && AtRest(t) && s.trace <= t.trace && (s.terminate ==> t.terminate)
            && t.initialized == (s.initialized || (c.PollFor? && !s.terminate))
  {
    hide Execute, InTurn, DueOf, ObservesAll, Good, DueAt, OpenAt;
    var a := Announced(s, c.PollFor?);
    AnnouncedKeeps(s, c.PollFor?);
    ExecuteLeads(s, c, Settled(a));
  }

  lemma {:induction false} RunKeeps(s: State, calls: seq<Call>)
    requires AtRest(s)
    ensures var t := ExecuteAll(s, calls);
            && AtRest(t) && s.trace <= t.trace && (s.terminate ==> t.terminate)
            && (t.initialized <==> s.initialized || Polls(s, calls))
    decreases |calls|
  {
    hide AtRest, Execute;
    if calls != [] {
      ExecuteKeeps(s, calls[0]);
      RunKeeps(Execute(s, calls[0]), calls[1..]);
    }
  }

  lemma NewAtRest(s: State)
    requires New(s)
    ensures AtRest(s)
  {
    forall pattern
      ensures TakesTurns(QueueOf(s.lookup, pattern), s.trace, pattern)
    {
      assert Ops([], pattern) == [] && Lookup.AfterAll<nat>([], []) == [];
    }
  }

  /**
   * Every run from a new instance is accepted by the automaton and leaves no request open: whatever
   * arrives and whatever the callbacks do, every request that is owed a callback is handed out at
   * once, and every request handed out is closed by one reply of its kind or by a failed assertion.
   */
  lemma WholeRun(s: State, calls: seq<Call>)
    requires New(s)
    ensures var t := ExecuteAll(s, calls);
            && ObservesAll(START, t.trace).Accepted?
            && ObservesAll(START, t.trace).watch.open == [] && !ObservesAll(START, t.trace).watch.due.Owed?
  {
    hide ExecuteAll, InTurn;
    NewAtRest(s);
    RunKeeps(s, calls);
  }

  /**
   * Exactly one reply: a run without a failed assertion has as many replies as callbacks, and as many
   * callbacks as frames were owed one; a frame that is cut off may be read as one request more.
   */
  lemma OneReplyEach(s: State, calls: seq<Call>)
    requires New(s) && Count(ExecuteAll(s, calls).trace, (e: Entry) => e.Aborted?) == 0
    ensures var trace := ExecuteAll(s, calls).trace;
            && Count(trace, IsReply) == Count(trace, (e: Entry) => e.Called?)
            && Demands(trace) <= Count(trace, IsReply) <= Demands(trace) + CutOff(trace)
  {
    hide ExecuteAll, DueOf, Observes;
    WholeRun(s, calls);
    CallsAreDemands(START, ExecuteAll(s, calls).trace);
    RepliesAreCalls(START, ExecuteAll(s, calls).trace);
  }

  /** The request that was handed out at k, and the entry that closes it. */
  lemma RequestClosed(s: State, calls: seq<Call>, k: nat) returns (j: nat)
    requires New(s) && k < |ExecuteAll(s, calls).trace| && ExecuteAll(s, calls).trace[k].Called?
    ensures var trace := ExecuteAll(s, calls).trace;
            && k < j < |trace|
            && ClosesRequest(trace[j], Open(trace[k].async, trace[k].origin, true, false), Overwrites(trace[k + 1..j]))
            && var before := ObservesAll(START, trace[..k]);
               var within := ObservesAll(START, trace[..j]);
               var behind := ObservesAll(START, trace[..j + 1]);
               && before.Accepted? && within.Accepted? && behind.Accepted?
               && |within.watch.open| == |before.watch.open| + 1 && |behind.watch.open| == |before.watch.open|
  {
    hide ExecuteAll, DueOf, ClosesRequest, Observes, ObservesAll;
    var trace := ExecuteAll(s, calls).trace;
    WholeRun(s, calls);
    var w := SplitAt(START, trace, k);
    var i := ClosedBy(w, trace[k + 1..], |w.open|);
    j := k + 1 + i;
    assert trace[..k + 1] + trace[k + 1..][..i] == trace[..j];
    assert trace[..k + 1] + trace[k + 1..][..i + 1] == trace[..j + 1];
    ObservesSplit(START, trace[..k + 1], trace[k + 1..][..i]);
    ObservesSplit(START, trace[..k + 1], trace[k + 1..][..i + 1]);
    assert trace[k + 1..][..i] == trace[k + 1..j];
  }

  /** The automaton in front of and behind the entry that hands a request out. */
  lemma SplitAt(w: Watch, trace: seq<Entry>, k: nat) returns (v: Watch)
    requires ObservesAll(w, trace).Accepted? && k < |trace| && trace[k].Called?
    ensures ObservesAll(w, trace[..k]).Accepted? && ObservesAll(w, trace[..k + 1]) == Accepted(v)
    ensures v.open == [Open(trace[k].async, trace[k].origin, true, false)] + ObservesAll(w, trace[..k]).watch.open
    ensures ObservesAll(v, trace[k + 1..]) == ObservesAll(w, trace)
  {
    hide DueOf, ObservesAll;
    assert trace == trace[..k + 1] + trace[k + 1..] && trace[..k + 1] == trace[..k] + [trace[k]];
    ObservesSplit(w, trace[..k + 1], trace[k + 1..]);
    ObservesSnoc(w, trace[..k], trace[k]);
    v := ObservesAll(w, trace[..k + 1]).watch;
  }

  /**
   * `polling` is written once if an external poll is made before termination, and never otherwise;
   * and it is written before an external poll reads anything.
   */
  lemma PollingBeforeReading(s: State, calls: seq<Call>)
    requires New(s)
    ensures var trace := ExecuteAll(s, calls).trace;
            && Count(trace, IsPolling) == One(Polls(s, calls))
            && forall k :: 0 <= k < |trace| && trace[k].Read? && trace[k].external ==>
                 exists j :: 0 <= j < k && IsPolling(trace[j])
  {
    hide ExecuteAll, Polls, DueOf, Observes, InTurn;
    NewAtRest(s);
    RunKeeps(s, calls);
    var trace := ExecuteAll(s, calls).trace;
    PollingOnce(START, trace);
    forall k | 0 <= k < |trace| && trace[k].Read? && trace[k].external
      ensures exists j :: 0 <= j < k && IsPolling(trace[j])
    {
      PollingFirst(START, trace, k);
    }
  }

  /**
   * In every run the callbacks of every pattern are called in turn: every call takes the front of the
   * pattern's queue, and all calls together are what the operations on the queue dispatch.
   */
  lemma CalledInTurn(s: State, calls: seq<Call>, pattern: bytes)
    requires New(s)
    ensures var t := ExecuteAll(s, calls);
            && TakesTurns(QueueOf(t.lookup, pattern), t.trace, pattern)
            && Callees(t.trace, pattern) == Ran(Lookup.History([], Ops(t.trace, pattern)))
  {
    hide ExecuteAll, TakesTurns, DueOf, Ops, Callees, Ran;
    NewAtRest(s);
    RunKeeps(s, calls);
    var t := ExecuteAll(s, calls);
    CallsFrom(QueueOf(t.lookup, pattern), t.trace, 0, |t.trace|, pattern);
    assert t.trace[..0] == [] && t.trace[0..|t.trace|] == t.trace;
    NothingCalled([], pattern);
  }

  /**
   * No callback waits for long: in every run, when a pattern has been called as often after a call of
   * one registration as there were others, each of these was called exactly once and in order, if
   * none is removed, and the next call is of the first one again.
   */
  lemma NoneStarves(s: State, calls: seq<Call>, i: nat, j: nat, pattern: bytes)
    requires New(s)
    requires var trace := ExecuteAll(s, calls).trace;
             && i < j < |trace|
             && trace[i].Called? && trace[i].pattern == pattern && trace[i].callee.Registered?
             && trace[j].Called? && trace[j].pattern == pattern
             && Lookup.Pops(Ops(trace[i + 1..j], pattern)) == |QueueAfter(trace[..i], pattern)| - 1
             && forall k :: i < k < j ==> !(trace[k].Unsubscribed? && trace[k].pattern == pattern)
    ensures var trace := ExecuteAll(s, calls).trace;
            && Callees(trace[i + 1..j], pattern) == QueueAfter(trace[..i], pattern)[1..]
            && trace[j].callee == trace[i].callee
  {
    hide ExecuteAll, TakesTurns, DueOf, Ops, Callees, Ran, Lookup.Pops;
    NewAtRest(s);
    RunKeeps(s, calls);
    var t := ExecuteAll(s, calls);
    var history := BetweenCalls(QueueOf(t.lookup, pattern), t.trace, i, j, pattern);
  }

  // After termination

  /** The entries that a call makes by itself when nothing is read. */
  function OwnEntries(s: State, c: Call): seq<Entry> {
    match c
    case Initialize => [Wrote(Ask(INIT_ID))]
    case PollFor(_) => []
    case Inside(action) =>
      if action.Exchange? then [Wrote(Ask(action.id))] else Perform(s, action).trace[|s.trace|..]
  }

  /** After termination no call reads: polls return at once, without a trace. */
  lemma AfterTermination(s: State, c: Call)
    requires s.terminate
    ensures var t := Execute(s, c);
            && t.terminate && t.trace == s.trace + OwnEntries(s, c)
            && t.inputs == s.inputs && t.recv == s.recv && t.call == s.call && t.config == s.config
            && forall k :: 0 <= k < |OwnEntries(s, c)| ==> !OwnEntries(s, c)[k].Read?
    ensures c.PollFor? ==> Execute(s, c) == s
  {
    match c
    case Initialize =>
    case PollFor(timeout) =>
      assert s.trace + [] == s.trace;
    case Inside(action) =>
      assert [action][1..] == [];
      if action.Exchange? {
        var t := Writes(s, Ask(action.id));
        assert Poll(t, -1, false) == (t, Success) && Act(t, []) == (t, true);
      } else {
        PerformGrows(s, action);
        assert Act(Perform(s, action), []) == (Perform(s, action), true);
      }
  }

  lemma PerformGrows(s: State, a: Action)
    requires !a.Exchange?
    ensures var t := Perform(s, a);
            && s.trace <= t.trace && t.terminate == s.terminate && t.call == s.call && t.recv == s.recv
            && t.config == s.config && forall k :: |s.trace| <= k < |t.trace| ==> !t.trace[k].Read?
  {
  }

  /** The same for any calls: nothing is read, and external polls leave the instance as it is. */
  lemma {:induction false} SilentAfterTermination(s: State, calls: seq<Call>)
    requires s.terminate
    ensures var t := ExecuteAll(s, calls);
            && t.terminate && s.trace <= t.trace && t.inputs == s.inputs
            && forall k :: |s.trace| <= k < |t.trace| ==> !t.trace[k].Read?
    ensures (forall k :: 0 <= k < |calls| ==> calls[k].PollFor?) ==> ExecuteAll(s, calls) == s
    decreases |calls|
  {
    hide Execute, OwnEntries;
    if calls != [] {
      AfterTermination(s, calls[0]);
      SilentAfterTermination(Execute(s, calls[0]), calls[1..]);
    }
  }
}
