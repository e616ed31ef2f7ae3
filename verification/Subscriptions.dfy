/** Which pattern a subscription is stored under, from the prefix in INIT to the request that is called. */
module Subscriptions {
  import opened Bytes
  import opened Bignum
  import opened Events
  import opened Protocol
  import opened ProtocolRequests
  import opened Monitor
  import opened PatternRuns
  import opened ProtocolRuns
  import opened ProtocolPolls
  import opened ProtocolReplies
  import opened ProtocolTermination
  import opened ProtocolLifecycle
  import opened ProtocolAnswers
  import opened ProtocolStatuses
  import Lookup

  // One call

  /** The bytes are a C string p, with or without its NUL and whatever is behind it. */
  ghost predicate Spells(b: bytes, p: bytes) {
    NulFree(p) && (b == p || (|p| < |b| && b[..|p|] == p && b[|p|] == 0))
  }

  lemma {:induction false} CStringSpelt(b: bytes, p: bytes)
    requires Spells(b, p)
    ensures CString(b) == p
    decreases |p|
  {
    if b == p && p != [] {
      CStringSpelt(b[1..], p[1..]);
    } else if b != p {
      CStringOf(b, p);
    }
  }

  /** The queue of one pattern has changed. */
  ghost predicate Rebinds(s: State, t: State, pattern: bytes, queue: seq<nat>) {
    && QueueOf(t.lookup, pattern) == queue
    && forall q :: q != pattern ==> QueueOf(t.lookup, q) == QueueOf(s.lookup, q)
  }

  /** The callback becomes the last of the prefix and the name, and one message is written. */
  lemma Subscribes(s: State, p: bytes, name: bytes, n: bytes, f: nat)
    requires Spells(s.identity.prefix, p) && Spells(name, n)
    ensures var t := Perform(s, Subscribe(name, f));
            && Rebinds(s, t, p + n, QueueOf(s.lookup, p + n) + [f])
            && t == s.(lookup := t.lookup, trace := s.trace + [Subscribed(p + n, f), Wrote(Subscribing)])
  {
    CStringSpelt(s.identity.prefix, p);
    CStringSpelt(name, n);
    var e := Subscribed(p + n, f);
    assert s.trace + [e] + [Wrote(Subscribing)] == s.trace + [e, Wrote(Subscribing)];
  }

  /** The first callback of the prefix and the name goes, and one message is written, if there is one. */
  lemma Unsubscribes(s: State, p: bytes, name: bytes, n: bytes)
    requires Spells(s.identity.prefix, p) && Spells(name, n)
    ensures var (t, queue) := (Perform(s, Unsubscribe(name)), QueueOf(s.lookup, p + n));
            if queue == [] then t == s
            else
              && Rebinds(s, t, p + n, queue[1..])
              && t == s.(lookup := t.lookup, trace := s.trace + [Unsubscribed(p + n), Wrote(Unsubscribing)])
  {
    CStringSpelt(s.identity.prefix, p);
    CStringSpelt(name, n);
    var e := Unsubscribed(p + n);
    assert s.trace + [e] + [Wrote(Unsubscribing)] == s.trace + [e, Wrote(Unsubscribing)];
  }

  /** A message that is not waited for is written, and nothing else happens. */
  lemma Notifies(s: State, id: nat)
    ensures Perform(s, Notify(id)) == s.(trace := s.trace + [Wrote(Tell(id))])
  {
  }

  // Any calls

  /** What a call means for the queue of a pattern, in a service with a prefix. */
  function OpFor(a: Action, p: bytes, pattern: bytes): seq<Lookup.Op<nat>> {
    match a
    case Subscribe(name, f) => if p + name == pattern then [Lookup.Insert(f)] else []
    case Unsubscribe(name) => if p + name == pattern then [Lookup.Remove] else []
    case _ => []
  }

  function OpsFor(actions: seq<Action>, p: bytes, pattern: bytes): seq<Lookup.Op<nat>> {
    if actions == [] then [] else OpFor(actions[0], p, pattern) + OpsFor(actions[1..], p, pattern)
  }

  /** A call that does not wait, with a name that is a C string. */
  ghost predicate Registers(a: Action) {
    !a.Exchange? && (a.Subscribe? || a.Unsubscribe? ==> NulFree(a.name))
  }

  /** Nothing but the registrations and the trace has changed. */
  ghost predicate OnlyRegisters(s: State, t: State) {
    s.trace <= t.trace && t == s.(lookup := t.lookup, trace := t.trace)
  }

  lemma RegistersOne(s: State, a: Action, p: bytes, pattern: bytes)
    requires Spells(s.identity.prefix, p) && Registers(a)
    ensures var t := Perform(s, a);
            && OnlyRegisters(s, t)
            && QueueOf(t.lookup, pattern) == Lookup.AfterAll(QueueOf(s.lookup, pattern), OpFor(a, p, pattern))
  {
    hide QueueOf, CString, NulFree;
    match a
    case Exchange(_) =>
    case Notify(_) =>
    case Subscribe(name, f) =>
      Subscribes(s, p, name, name, f);
      OneOp(QueueOf(s.lookup, pattern), Lookup.Insert(f));
    case Unsubscribe(name) =>
      Unsubscribes(s, p, name, name);
      OneOp(QueueOf(s.lookup, pattern), Lookup.Remove);
  }

  lemma OneOp(queue: seq<nat>, op: Lookup.Op<nat>)
    ensures Lookup.AfterAll(queue, [op]) == Lookup.After(queue, op) && Lookup.AfterAll(queue, []) == queue
  {
    assert [op][1..] == [];
    assert Lookup.AfterAll(queue, [op]) == Lookup.AfterAll(Lookup.After(queue, op), []);
  }

  /** After any calls the queue of every pattern is what the calls with that prefix and name made of it. */
  lemma {:induction false} RegistersAll(s: State, actions: seq<Action>, p: bytes, pattern: bytes)
    requires Spells(s.identity.prefix, p) && forall k :: 0 <= k < |actions| ==> Registers(actions[k])
    ensures var (t, ok) := Act(s, actions);
            && ok && OnlyRegisters(s, t)
            && QueueOf(t.lookup, pattern) == Lookup.AfterAll(QueueOf(s.lookup, pattern), OpsFor(actions, p, pattern))
    decreases |actions|
  {
    hide Perform, QueueOf, Spells, OpFor, Lookup.AfterAll;
    if actions == [] {
      OneOp(QueueOf(s.lookup, pattern), Lookup.Remove);
    } else {
      RegistersOne(s, actions[0], p, pattern);
      RegistersAll(Perform(s, actions[0]), actions[1..], p, pattern);
      AfterSplit(QueueOf(s.lookup, pattern), OpFor(actions[0], p, pattern), OpsFor(actions[1..], p, pattern));
    }
  }

  // The request

  lemma PatternSpelt(m: bytes, l: Layout, r: Request, pattern: bytes)
    requires Describes(m, l, r) && r.pattern == pattern + [0] && NulFree(pattern)
    ensures PatternAt(m, l) == pattern
  {
    var at := l.pattern.at;
    assert Content(m, l.pattern) == pattern + [0];
    assert |m| >= at + |pattern| + 1 && m[at..at + |pattern| + 1] == pattern + [0] by {
      assert Content(m, l.pattern)[|pattern|] == 0;
    }
    assert m[at..][..|pattern|] == (pattern + [0])[..|pattern|] == pattern;
    assert m[at..][|pattern|] == (pattern + [0])[|pattern|];
    CStringOf(m[at..], pattern);
  }

  /** The entry of a request for a pattern. */
  function CallOf(async: bool, r: Request, pattern: bytes, queue: seq<nat>): Entry {
    Called(async, EnvelopeFor(r), pattern, r.timeout, PatternRuns.Front(queue))
  }

  /** A request for a pattern is handed to the front of its queue. */
  lemma RequestCalls(s: State, timeout: int, external: bool, async: bool, r: Request, pattern: bytes) returns (k: nat)
    requires Sendable(r) && |SendBytes(async, r)| <= MAX_UINT32 && r.pattern == pattern + [0] && NulFree(pattern)
    requires s.inputs != [] && s.inputs[0].Frame? && s.inputs[0].body == SendBytes(async, r)
    requires external ==> s.initialized
    ensures var t := Receive(s, timeout, external).0;
            |s.trace| <= k < |t.trace| && t.trace[k] == CallOf(async, r, pattern, QueueOf(s.lookup, pattern))
  {
    hide SendBytes, LayoutFor, Callback, Receive, Again, Good, DueAt, OpenAt, InTime, PatternAt, QueueOf;
    var t, l := ReceivedAlone(s, timeout, external, async, r);
    PatternSpelt(t.call, l, r, pattern);
    k := |t.trace|;
    var (u, ok) := Callback(t, async, l);
    CalleeFirst(t, async, l, r, pattern);
    if ok {
      AgainLeads(u, s.inputs[0].elapsed, timeout, external, Settled(u));
    }
  }

  lemma CalleeFirst(s: State, async: bool, l: Layout, r: Request, pattern: bytes)
    requires Describes(s.call, l, r) && PatternAt(s.call, l) == pattern
    ensures var t := Callback(s, async, l).0;
            && s.trace < t.trace && t.trace[|s.trace|] == CallOf(async, r, pattern, QueueOf(s.lookup, pattern))
            && t.initialized == s.initialized
  {
    hide Act, Conclude, PatternAt, Content, Good, DueAt, OpenAt, InTime, QueueOf;
    var h, b := NextHandler(s, l), Begun(s, async, l);
    ActLeads(b, h.actions, Barred);
    BegunGrows(s, async, l);
    var (t, ok) := Act(b, h.actions);
    ConcludeGrows(t, async, l, if ok then h.ending else Exception, h.elapsed);
  }

  // From INIT to the call

  function Insides(actions: seq<Action>): seq<Call> {
    seq(|actions|, k requires 0 <= k < |actions| => Inside(actions[k]))
  }

  lemma {:induction false} InsidesAct(s: State, actions: seq<Action>, rest: seq<Call>)
    requires forall k :: 0 <= k < |actions| ==> Registers(actions[k])
    ensures ExecuteAll(s, Insides(actions) + rest) == ExecuteAll(Act(s, actions).0, rest)
    decreases |actions|
  {
    hide Perform, NulFree;
    if actions == [] {
      assert Insides(actions) + rest == rest;
    } else {
      var calls := Insides(actions) + rest;
      assert calls[0] == Inside(actions[0]) && calls[1..] == Insides(actions[1..]) + rest;
      assert [actions[0]][1..] == [];
      assert Act(Perform(s, actions[0]), []) == (Perform(s, actions[0]), true);
      assert Execute(s, calls[0]) == Perform(s, actions[0]);
      InsidesAct(Perform(s, actions[0]), actions[1..], rest);
    }
  }

  /**
   * From the wire to the call: after INIT with the prefix p and any registrations, the callback of a
   * request for a pattern is the front of what the registrations with p and the rest of the pattern
   * left, and the null response when they left none.
   */
  lemma SubscribedIsCalled(
    s: State, x: Init, p: bytes, actions: seq<Action>, async: bool, r: Request, pattern: bytes, timeout: int)
    returns (k: nat)
    requires New(s) && |s.inputs| >= 2 && s.inputs[0].Frame? && s.inputs[1].Frame?
    requires InitSendable(x) && |InitFrame(x)| <= MAX_UINT32 && s.inputs[0].body == InitFrame(x)
    requires x.prefix == p + [0] && NulFree(p)
    requires forall j :: 0 <= j < |actions| ==> Registers(actions[j])
    requires Sendable(r) && |SendBytes(async, r)| <= MAX_UINT32 && s.inputs[1].body == SendBytes(async, r)
    requires r.pattern == pattern + [0] && NulFree(pattern)
    ensures var t := ExecuteAll(s, [Call.Initialize] + (Insides(actions) + [PollFor(timeout)]));
            && k < |t.trace|
            && t.trace[k] == CallOf(async, r, pattern, Lookup.AfterAll([], OpsFor(actions, p, pattern)))
  {
    hide AwaitInit, Act, Receive, SendBytes, InitFrame, Lookup.AfterAll, NulFree, OpsFor, Insides;
    var asked := Writes(s, Ask(INIT_ID));
    var a := InitArrives(asked, x);
    assert Spells(a.identity.prefix, p);
    RegistersAll(a, actions, p, pattern);
    var b := Act(a, actions).0;
    var calls := Insides(actions) + [PollFor(timeout)];
    FirstCall(s, a, calls);
    InsidesAct(a, actions, [PollFor(timeout)]);
    LastCall(b, timeout);
    var c := Announced(b, true);
    k := RequestCalls(c, timeout, true, async, r, pattern);
  }

  lemma FirstCall(s: State, a: State, calls: seq<Call>)
    requires AwaitInit(Writes(s, Ask(INIT_ID))).0 == a
    ensures ExecuteAll(s, [Call.Initialize] + calls) == ExecuteAll(a, calls)
  {
    hide AwaitInit;
    assert ([Call.Initialize] + calls)[1..] == calls;
  }

  lemma LastCall(s: State, timeout: int)
    ensures ExecuteAll(s, [PollFor(timeout)]) == Poll(s, timeout, true).0
    ensures !s.terminate ==> Poll(s, timeout, true) == Receive(Announced(s, true), timeout, true)
  {
    hide Receive;
    assert [PollFor(timeout)][1..] == [];
    assert ExecuteAll(s, [PollFor(timeout)]) == ExecuteAll(Execute(s, PollFor(timeout)), []);
  }
}
