/** The time that a request has left, along the callbacks that forward it. */
module ReplyTimeouts {
  import opened Bytes
  import opened Events
  import opened Protocol
  import opened Monitor
  import opened PatternRuns
  import opened ProtocolRuns
  import opened ProtocolPolls
  import opened ProtocolReplies
  import opened ProtocolTermination
  import Timeouts

  // One callback

  /** What happens between the call of a callback and its reply. */
  function Inside(s: State, async: bool, l: Layout): seq<Entry> {
    Since(Begun(s, async, l), Act(Begun(s, async, l), NextHandler(s, l).actions).0)
  }

  /** The request timeout with which a callback starts: that of its request, if timeouts are adjusted. */
  function AtStart(s: State, l: Layout): Clock {
    if s.config.requestTimeoutAdjustment != 0 then Clock(true, l.timeout) else Clock(false, s.config.requestTimeout)
  }

  /** Behind what has happened inside, timeouts are adjusted, and the request timeout is the given one. */
  predicate Adjusts(c: Clock, inside: seq<Entry>, given: nat) {
    ClockAfter(c, inside) == Clock(true, given)
  }

  /**
   * The reply of every callback, whatever arrives inside it: its timeout is what the callback left of
   * the one that the handler passed on, if timeouts are adjusted at its end and the request timeout is
   * then the same number; and it is unchanged otherwise. A return is emptied exactly when the timeout
   * was adjusted and the callback took longer.
   */
  lemma ReplyCharged(s: State, async: bool, l: Layout)
    requires Callback(s, async, l).1
    ensures var (t, inside) := (Callback(s, async, l).0, Inside(s, async, l));
            var (given, elapsed) := (PassedOn(l, EndingOf(s, async, l)), NextHandler(s, l).elapsed);
            && t.trace != [] && t.trace == s.trace + [CalledOn(s, async, l)] + inside + [Last(t)] && IsReply(Last(t))
            && var (m, adjusts) := (Last(t).message, Adjusts(AtStart(s, l), inside, given));
               && m.timeout == (if adjusts then Timeouts.Charge(given, elapsed) else given)
               && (m.dropped <==> !m.forward && adjusts && elapsed > given)
  {
    hide Act, Conclude, ConcludeCharge, Begun, NextHandler, AtStart, ClockAfter, ClockOf, Inside, PassedOn;
    var h, b := NextHandler(s, l), Begun(s, async, l);
    var (m, ok) := Act(b, h.actions);
    InsideTimed(s, async, l);
    var ending := if ok then h.ending else Exception;
    ConcludeCharged(m, async, l, ending, h.elapsed);
    ChargeInside(s, async, l, m, Callback(s, async, l).0, PassedOn(l, ending), h.elapsed);
  }

  lemma InsideTimed(s: State, async: bool, l: Layout)
    ensures var m := Act(Begun(s, async, l), NextHandler(s, l).actions).0;
            && m.trace == s.trace + [CalledOn(s, async, l)] + Inside(s, async, l)
            && ClockOf(m.config) == ClockAfter(AtStart(s, l), Inside(s, async, l))
  {
    hide Act, Good, DueAt, OpenAt, InTurn, ClockAfter, CalledOn, NextHandler, PatternAt;
    ActLeads(Begun(s, async, l), NextHandler(s, l).actions, Barred);
  }

  lemma ChargeInside(s: State, async: bool, l: Layout, m: State, t: State, given: nat, elapsed: nat)
    requires m.trace == s.trace + [CalledOn(s, async, l)] + Inside(s, async, l)
    requires ClockOf(m.config) == ClockAfter(AtStart(s, l), Inside(s, async, l))
    requires ConcludeCharge(m, t, given, elapsed)
    ensures t.trace != [] && t.trace == s.trace + [CalledOn(s, async, l)] + Inside(s, async, l) + [Last(t)]
    ensures IsReply(Last(t))
    ensures var (m, adjusts) := (Last(t).message, Adjusts(AtStart(s, l), Inside(s, async, l), given));
            && m.timeout == (if adjusts then Timeouts.Charge(given, elapsed) else given)
            && (m.dropped <==> !m.forward && adjusts && elapsed > given)
  {
    hide AtStart, ClockAfter, ClockOf, Inside, CalledOn;
  }

  /** The last entry of a state is a reply with the timeout that the request timeout of s allows. */
  ghost predicate ConcludeCharge(s: State, t: State, given: nat, elapsed: nat) {
    && t.trace != [] && t.trace == s.trace + [Last(t)] && IsReply(Last(t))
    && var (m, adjusts) := (Last(t).message, ClockOf(s.config) == Clock(true, given));
       && m.timeout == (if adjusts then Timeouts.Charge(given, elapsed) else given)
       && (m.dropped <==> !m.forward && adjusts && elapsed > given)
  }

  lemma ConcludeCharged(s: State, async: bool, l: Layout, ending: Ending, elapsed: nat)
    ensures var (t, ok) := Conclude(s, async, l, ending, elapsed);
            ok ==> ConcludeCharge(s, t, PassedOn(l, ending), elapsed)
  {
    hide EnvelopeOf, PidDecodes;
    if ending.Answer? {
      DeadlineSame(s.call, l, ending.deadline);
    }
  }

  // What decides

  /** An entry that may set the request timeout: a request, or a change of the configuration. */
  predicate Restarts(e: Entry) {
    e.Called? || e.Configured?
  }

  lemma {:induction false} NothingRestarts(c: Clock, trace: seq<Entry>)
    requires forall k :: 0 <= k < |trace| ==> !Restarts(trace[k])
    ensures ClockAfter(c, trace) == c
    decreases |trace|
  {
    if trace != [] {
      NothingRestarts(c, trace[1..]);
    }
  }

  /**
   * The last request or REINIT inside a callback decides: behind a request, while timeouts are adjusted,
   * only a handler that passes on the timeout of that request is charged; behind a REINIT, one that
   * passes on 0, if it turned the adjustment on, and none otherwise. Without any, the service decides,
   * and the timeout must be the one that the handler was given.
   */
  lemma LastInsideDecides(c: Clock, inside: seq<Entry>, k: nat, given: nat)
    requires k <= |inside| && forall j :: k < j < |inside| ==> !Restarts(inside[j])
    requires k == |inside| ==> forall j :: 0 <= j < |inside| ==> !Restarts(inside[j])
    ensures k == |inside| ==> (Adjusts(c, inside, given) <==> c.adjusts && given == c.timeout)
    ensures k < |inside| && inside[k].Called? ==>
              (Adjusts(c, inside, given) <==>
               ClockAfter(c, inside[..k]).adjusts && given == inside[k].timeout)
    ensures k < |inside| && inside[k].Configured? && inside[k].clears ==>
              (Adjusts(c, inside, given) <==> inside[k].adjusts && given == 0)
    ensures k < |inside| && inside[k].Configured? && !inside[k].clears ==>
              (Adjusts(c, inside, given) <==> inside[k].adjusts && given == ClockAfter(c, inside[..k]).timeout)
  {
    hide ClockAfter;
    if k == |inside| {
      NothingRestarts(c, inside);
    } else {
      var front, back := inside[..k], inside[k + 1..];
      assert inside == front + ([inside[k]] + back) && ([inside[k]] + back)[1..] == back;
      ClockSplit(c, front, [inside[k]] + back);
      ClockCons(ClockAfter(c, front), inside[k], back);
      NothingRestarts(Sets(ClockAfter(c, front), inside[k]), back);
    }
  }

  lemma ClockCons(c: Clock, e: Entry, trace: seq<Entry>)
    ensures ClockAfter(c, [e] + trace) == ClockAfter(Sets(c, e), trace)
  {
    assert ([e] + trace)[1..] == trace;
  }

  /** A handler that does not wait is charged exactly if the service adjusts and it passes on what it was given. */
  lemma MuteReplyCharged(s: State, async: bool, l: Layout)
    requires !s.terminate && !Asks(NextHandler(s, l))
    ensures var given := PassedOn(l, EndingOf(s, async, l));
            Adjusts(AtStart(s, l), Inside(s, async, l), given)
            <==> s.config.requestTimeoutAdjustment != 0 && given == l.timeout
  {
    hide Act, PatternAt, EnvelopeOf, ClockAfter;
    var h, b := NextHandler(s, l), Begun(s, async, l);
    NoExchange(h);
    ActLeaves(b, h.actions);
    var inside := Inside(s, async, l);
    assert forall k :: 0 <= k < |inside| ==> inside[k] == Act(b, h.actions).0.trace[|b.trace| + k];
    NothingRestarts(AtStart(s, l), inside);
  }

  // Chains

  /** One service on the way of a request: its state, and the request in its call buffer. */
  datatype Hop = Hop(s: State, async: bool, l: Layout)

  /** The time that its callback is charged. */
  function Took(hop: Hop): nat {
    if Adjusts(AtStart(hop.s, hop.l), Inside(hop.s, hop.async, hop.l), hop.l.timeout)
    then NextHandler(hop.s, hop.l).elapsed else 0
  }

  function TookAll(hops: seq<Hop>): seq<nat> {
    if hops == [] then [] else [Took(hops[0])] + TookAll(hops[1..])
  }

  ghost function ReplyAt(hop: Hop): Message {
    var t := Callback(hop.s, hop.async, hop.l).0;
    if t.trace != [] && IsReply(Last(t)) then Last(t).message else Polling
  }

  /** Every handler passes on the timeout it was given, and each gets the one that the reply before it carried. */
  ghost predicate Chain(hops: seq<Hop>) {
    && (forall k :: 0 <= k < |hops| ==> Passes(hops[k]))
    && (forall k :: 0 <= k < |hops| - 1 ==>
          ReplyAt(hops[k]).Reply? && ReplyAt(hops[k]).timeout == hops[k + 1].l.timeout)
  }

  ghost predicate Passes(hop: Hop) {
    && Callback(hop.s, hop.async, hop.l).1
    && PassedOn(hop.l, EndingOf(hop.s, hop.async, hop.l)) == hop.l.timeout
  }

  lemma HopCharged(hop: Hop)
    requires Passes(hop)
    ensures var m := ReplyAt(hop);
            && m.Reply? && m.timeout == Timeouts.Charge(hop.l.timeout, Took(hop))
            && (m.dropped <==> !m.forward && Took(hop) > hop.l.timeout)
  {
    hide Callback, EndingOf, Adjusts, Inside;
    ReplyCharged(hop.s, hop.async, hop.l);
  }

  /**
   * The last reply of a chain of forwards carries what all callbacks together left of the first timeout,
   * where a callback in a service that does not adjust, or that was disturbed, takes no time.
   */
  lemma {:induction false} ChainCharged(hops: seq<Hop>)
    requires hops != [] && Chain(hops)
    ensures var last := ReplyAt(hops[|hops| - 1]);
            && last.Reply?
            && last.timeout == Timeouts.Forwarded(hops[0].l.timeout, TookAll(hops))
                            == Timeouts.ChargeAll(hops[0].l.timeout, TookAll(hops))
    decreases |hops|
  {
    hide Passes, Took, ReplyAt;
    var hop := hops[0];
    HopCharged(hop);
    Timeouts.ForwardsTelescope(hop.l.timeout, TookAll(hops));
    if |hops| > 1 {
      assert forall k :: 0 <= k < |hops[1..]| ==> hops[1..][k] == hops[k + 1];
      ChainCharged(hops[1..]);
      Timeouts.ForwardsTelescope(hops[1].l.timeout, TookAll(hops[1..]));
    }
  }

  /**
   * The response at the end of a chain is emptied exactly when all callbacks together took longer than
   * the first timeout and the last one took any time at all.
   */
  lemma LateChain(hops: seq<Hop>)
    requires hops != [] && Chain(hops) && ReplyAt(hops[|hops| - 1]).Reply? && !ReplyAt(hops[|hops| - 1]).forward
    ensures var last := hops[|hops| - 1];
            ReplyAt(last).dropped <==> Timeouts.Sum(TookAll(hops)) > hops[0].l.timeout && Took(last) > 0
  {
    hide Chain, Took, TookAll, ReplyAt, Timeouts.Sum, Timeouts.Forwarded, Timeouts.ChargeAll;
    var front, last := hops[..|hops| - 1], hops[|hops| - 1];
    LastCharged(hops);
    TookSnoc(front, last);
    assert hops == front + [last];
    if front == [] {
      NoTime();
    } else {
      ChainFront(hops);
      ChainCharged(front);
      Timeouts.LateResponse(hops[0].l.timeout, TookAll(front), Took(last));
    }
  }

  lemma NoTime()
    ensures Timeouts.Sum(TookAll([])) == 0
  {
  }

  lemma LastCharged(hops: seq<Hop>)
    requires hops != [] && Chain(hops) && ReplyAt(hops[|hops| - 1]).Reply? && !ReplyAt(hops[|hops| - 1]).forward
    ensures var last := hops[|hops| - 1];
            ReplyAt(last).dropped <==> Took(last) > last.l.timeout
  {
    hide Passes, Took, ReplyAt;
    HopCharged(hops[|hops| - 1]);
  }

  lemma ChainFront(hops: seq<Hop>)
    requires |hops| > 1 && Chain(hops)
    ensures var front := hops[..|hops| - 1];
            && Chain(front) && front[0] == hops[0]
            && ReplyAt(front[|front| - 1]).Reply?
            && ReplyAt(front[|front| - 1]).timeout == hops[|hops| - 1].l.timeout
  {
    hide Passes, ReplyAt;
    var front := hops[..|hops| - 1];
    assert forall k :: 0 <= k < |front| ==> front[k] == hops[k];
  }

  lemma {:induction false} TookSnoc(hops: seq<Hop>, hop: Hop)
    ensures TookAll(hops + [hop]) == TookAll(hops) + [Took(hop)]
    ensures Timeouts.Sum(TookAll(hops + [hop])) == Timeouts.Sum(TookAll(hops)) + Took(hop)
  {
    hide Took;
    if hops == [] {
      assert hops + [hop] == [hop] && [hop][1..] == [];
      assert TookAll([hop]) == [Took(hop)] + [] == [] + [Took(hop)];
      assert [Took(hop)][1..] == [];
    } else {
      assert (hops + [hop])[1..] == hops[1..] + [hop];
      TookSnoc(hops[1..], hop);
      Associative([Took(hops[0])], TookAll(hops[1..]), [Took(hop)]);
      assert TookAll(hops + [hop])[1..] == TookAll(hops[1..] + [hop]);
      assert TookAll(hops)[1..] == TookAll(hops[1..]);
    }
  }
}
