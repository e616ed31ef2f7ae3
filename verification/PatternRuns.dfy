/** Over whole runs the callbacks of every pattern are called in turn. */
module PatternRuns {
  import opened Bytes
  import opened Protocol
  import Lookup

  /** The operations of a trace on one pattern. */
  function OpOf(e: Entry, pattern: bytes): seq<Lookup.Op<nat>> {
    if e.Called? && e.pattern == pattern then [Lookup.Find]
    else if e.Subscribed? && e.pattern == pattern then [Lookup.Insert(e.callback)]
    else if e.Unsubscribed? && e.pattern == pattern then [Lookup.Remove]
    else []
  }

  function Ops(trace: seq<Entry>, pattern: bytes): seq<Lookup.Op<nat>> {
    if trace == [] then [] else OpOf(trace[0], pattern) + Ops(trace[1..], pattern)
  }

  /** What the calls and removals of a trace took from the pattern's queue. */
  function TakenBy(e: Entry, pattern: bytes): seq<nat> {
    if e.Called? && e.pattern == pattern && e.callee.Registered? then [e.callee.callback] else []
  }

  function Callees(trace: seq<Entry>, pattern: bytes): seq<nat> {
    if trace == [] then [] else TakenBy(trace[0], pattern) + Callees(trace[1..], pattern)
  }

  /** The callbacks that a history dispatched. */
  function Ran(events: seq<Lookup.Event<nat>>): seq<nat> {
    if events == [] then [] else (if events[0].Ran? then [events[0].f] else []) + Ran(events[1..])
  }

  lemma {:induction false} OpsSnoc(trace: seq<Entry>, e: Entry, pattern: bytes)
    ensures Ops(trace + [e], pattern) == Ops(trace, pattern) + OpOf(e, pattern)
    ensures Callees(trace + [e], pattern) == Callees(trace, pattern) + TakenBy(e, pattern)
  {
    hide OpOf, TakenBy;
    if trace == [] {
      assert [] + [e] == [e] && [e][1..] == [];
      assert OpOf(e, pattern) + [] == [] + OpOf(e, pattern);
      assert TakenBy(e, pattern) + [] == [] + TakenBy(e, pattern);
    } else {
      assert (trace + [e])[1..] == trace[1..] + [e];
      OpsSnoc(trace[1..], e, pattern);
      Associative(OpOf(trace[0], pattern), Ops(trace[1..], pattern), OpOf(e, pattern));
      Associative(TakenBy(trace[0], pattern), Callees(trace[1..], pattern), TakenBy(e, pattern));
    }
  }

  lemma {:induction false} AfterSnoc(q: seq<nat>, ops: seq<Lookup.Op<nat>>, op: Lookup.Op<nat>)
    ensures Lookup.AfterAll(q, ops + [op]) == Lookup.After(Lookup.AfterAll(q, ops), op)
    ensures Lookup.History(q, ops + [op])
         == Lookup.History(q, ops) + Lookup.EventsOf(Lookup.AfterAll(q, ops), op)
    decreases |ops|
  {
    hide Lookup.After, Lookup.EventsOf;
    if ops == [] {
      assert [] + [op] == [op] && [op][1..] == [];
      var events := Lookup.EventsOf(q, op);
      assert events + [] == [] + events;
    } else {
      assert (ops + [op])[1..] == ops[1..] + [op];
      var rest := Lookup.After(q, ops[0]);
      AfterSnoc(rest, ops[1..], op);
      Associative(Lookup.EventsOf(q, ops[0]), Lookup.History(rest, ops[1..]),
                  Lookup.EventsOf(Lookup.AfterAll(q, ops), op));
    }
  }

  lemma {:induction false} RanSplit(a: seq<Lookup.Event<nat>>, b: seq<Lookup.Event<nat>>)
    ensures Ran(a + b) == Ran(a) + Ran(b)
  {
    if a == [] {
      assert a + b == b;
    } else {
      assert (a + b)[1..] == a[1..] + b;
      RanSplit(a[1..], b);
      Associative(if a[0].Ran? then [a[0].f] else [], Ran(a[1..]), Ran(b));
    }
  }

  /** What a lookup returns from a queue. */
  function Front(queue: seq<nat>): Callee {
    if queue == [] then NullResponse else Registered(queue[0])
  }

  /** The queue of a pattern after a trace. */
  function QueueAfter(trace: seq<Entry>, pattern: bytes): seq<nat> {
    Lookup.AfterAll([], Ops(trace, pattern))
  }

  /** One pattern: its queue is what its operations leave, and every call takes the front of that moment. */
  predicate TakesTurns(queue: seq<nat>, trace: seq<Entry>, pattern: bytes) {
    && queue == QueueAfter(trace, pattern)
    && forall k :: 0 <= k < |trace| && trace[k].Called? && trace[k].pattern == pattern ==>
         trace[k].callee == Front(QueueAfter(trace[..k], pattern))
  }

  ghost predicate InTurn(s: State) {
    forall pattern :: TakesTurns(QueueOf(s.lookup, pattern), s.trace, pattern)
  }

  lemma TurnIdle(queue: seq<nat>, trace: seq<Entry>, e: Entry, pattern: bytes)
    requires TakesTurns(queue, trace, pattern) && OpOf(e, pattern) == []
    ensures TakesTurns(queue, trace + [e], pattern)
  {
    hide Ops;
    OpsSnoc(trace, e, pattern);
    assert Ops(trace, pattern) + [] == Ops(trace, pattern);
    assert forall k :: 0 <= k < |trace| ==> (trace + [e])[..k] == trace[..k];
  }

  lemma TurnTaken(queue: seq<nat>, trace: seq<Entry>, e: Entry, pattern: bytes, op: Lookup.Op<nat>)
    requires TakesTurns(queue, trace, pattern) && OpOf(e, pattern) == [op]
    requires e.Called? ==> e.callee == Front(queue)
    ensures TakesTurns(Lookup.After(queue, op), trace + [e], pattern)
  {
    hide Lookup.After, OpOf, Ops;
    OpsSnoc(trace, e, pattern);
    AfterSnoc([], Ops(trace, pattern), op);
    assert (trace + [e])[..|trace|] == trace;
    assert forall k :: 0 <= k < |trace| ==> (trace + [e])[..k] == trace[..k];
  }

  /** An entry that is no operation on a pattern. */
  lemma InTurnAdds(s: State, t: State, e: Entry)
    requires InTurn(s) && t.trace == s.trace + [e] && t.lookup == s.lookup
    requires !e.Called? && !e.Subscribed? && !e.Unsubscribed?
    ensures InTurn(t)
  {
    hide TakesTurns;
    forall pattern
      ensures TakesTurns(QueueOf(t.lookup, pattern), t.trace, pattern)
    {
      assert TakesTurns(QueueOf(s.lookup, pattern), s.trace, pattern);
      TurnIdle(QueueOf(s.lookup, pattern), s.trace, e, pattern);
    }
  }

  /** An operation on one pattern leaves the others alone. */
  lemma InTurnTakes(s: State, t: State, e: Entry, pattern: bytes, op: Lookup.Op<nat>)
    requires InTurn(s) && t.trace == s.trace + [e]
    requires OpOf(e, pattern) == [op] && forall p :: p != pattern ==> OpOf(e, p) == []
    requires e.Called? ==> e.callee == Front(QueueOf(s.lookup, pattern))
    requires t.lookup == Rebind(s.lookup, pattern, Lookup.After(QueueOf(s.lookup, pattern), op))
    ensures InTurn(t)
  {
    hide TakesTurns, OpOf, Lookup.After;
    forall p
      ensures TakesTurns(QueueOf(t.lookup, p), t.trace, p)
    {
      assert TakesTurns(QueueOf(s.lookup, p), s.trace, p);
      if p == pattern {
        TurnTaken(QueueOf(s.lookup, p), s.trace, e, p, op);
      } else {
        TurnIdle(QueueOf(s.lookup, p), s.trace, e, p);
      }
    }
  }

  /** The call of a request's callback takes the front of its pattern's queue. */
  lemma InTurnBegun(s: State, async: bool, l: Layout)
    requires InTurn(s)
    ensures InTurn(Begun(s, async, l))
  {
    var pattern, callee := PatternAt(s.call, l), CalleeOf(s, l);
    var e := CalledOn(s, async, l);
    InTurnTakes(s, Begun(s, async, l), e, pattern, Lookup.Find);
  }

  // What taking turns means

  lemma {:induction false} OpsSplit(a: seq<Entry>, b: seq<Entry>, pattern: bytes)
    ensures Ops(a + b, pattern) == Ops(a, pattern) + Ops(b, pattern)
  {
    hide OpOf;
    if a == [] {
      assert a + b == b;
    } else {
      assert (a + b)[1..] == a[1..] + b;
      OpsSplit(a[1..], b, pattern);
      Associative(OpOf(a[0], pattern), Ops(a[1..], pattern), Ops(b, pattern));
    }
  }

  lemma {:induction false} AfterSplit(q: seq<nat>, a: seq<Lookup.Op<nat>>, b: seq<Lookup.Op<nat>>)
    ensures Lookup.AfterAll(q, a + b) == Lookup.AfterAll(Lookup.AfterAll(q, a), b)
    decreases |a|
  {
    hide Lookup.After;
    if a == [] {
      assert a + b == b;
    } else {
      assert (a + b)[1..] == a[1..] + b;
      AfterSplit(Lookup.After(q, a[0]), a[1..], b);
    }
  }

  /** From any point on the calls of a pattern are what its operations dispatch from the queue of that point. */
  lemma {:induction false} CallsFrom(queue: seq<nat>, trace: seq<Entry>, i: nat, j: nat, pattern: bytes)
    requires TakesTurns(queue, trace, pattern) && i <= j <= |trace|
    ensures var (q, ops) := (QueueAfter(trace[..i], pattern), Ops(trace[i..j], pattern));
            && QueueAfter(trace[..j], pattern) == Lookup.AfterAll(q, ops)
            && Callees(trace[i..j], pattern) == Ran(Lookup.History(q, ops))
    decreases j - i
  {
    hide Ops, Callees, OpOf, TakenBy, Lookup.EventsOf, Lookup.After, TakesTurns;
    if i == j {
      assert trace[i..j] == [];
      NothingCalled(QueueAfter(trace[..i], pattern), pattern);
    } else {
      var e := trace[j - 1];
      CallsFrom(queue, trace, i, j - 1, pattern);
      assert trace[i..j] == trace[i..j - 1] + [e] && trace[..j] == trace[..j - 1] + [e];
      OpsSnoc(trace[i..j - 1], e, pattern);
      OpsSnoc(trace[..j - 1], e, pattern);
      TurnAt(queue, trace, j - 1, pattern);
      EntryCalls(QueueAfter(trace[..i], pattern), Ops(trace[i..j - 1], pattern), e, pattern);
      EntryMoves(Ops(trace[..j - 1], pattern), e, pattern);
    }
  }

  lemma NothingCalled(q: seq<nat>, pattern: bytes)
    ensures Ops([], pattern) == [] && Callees([], pattern) == [] && Lookup.AfterAll(q, []) == q
    ensures Ran(Lookup.History(q, [])) == []
  {
  }

  lemma TurnAt(queue: seq<nat>, trace: seq<Entry>, k: nat, pattern: bytes)
    requires TakesTurns(queue, trace, pattern) && k < |trace|
    ensures trace[k].Called? && trace[k].pattern == pattern ==>
              trace[k].callee == Front(QueueAfter(trace[..k], pattern))
  {
  }

  lemma EntryMoves(ops: seq<Lookup.Op<nat>>, e: Entry, pattern: bytes)
    ensures var all := Lookup.AfterAll([], ops);
            Lookup.AfterAll([], ops + OpOf(e, pattern))
            == if OpOf(e, pattern) == [] then all else Lookup.After(all, OpOf(e, pattern)[0])
  {
    hide Lookup.After;
    if OpOf(e, pattern) == [] {
      assert ops + [] == ops;
    } else {
      AfterSnoc([], ops, OpOf(e, pattern)[0]);
    }
  }

  lemma EntryCalls(q: seq<nat>, ops: seq<Lookup.Op<nat>>, e: Entry, pattern: bytes)
    requires e.Called? && e.pattern == pattern ==> e.callee == Front(Lookup.AfterAll(q, ops))
    ensures var (all, op) := (Lookup.AfterAll(q, ops), OpOf(e, pattern));
            && Lookup.AfterAll(q, ops + op) == (if op == [] then all else Lookup.After(all, op[0]))
            && Ran(Lookup.History(q, ops + op)) == Ran(Lookup.History(q, ops)) + TakenBy(e, pattern)
  {
    hide Lookup.After, Lookup.AfterAll, Lookup.History, Ran;
    var all, op := Lookup.AfterAll(q, ops), OpOf(e, pattern);
    if op == [] {
      assert ops + [] == ops;
      var ran := Ran(Lookup.History(q, ops));
      assert ran + [] == ran;
    } else {
      AfterSnoc(q, ops, op[0]);
      RanSplit(Lookup.History(q, ops), Lookup.EventsOf(all, op[0]));
      EntryRan(all, e, pattern);
    }
  }

  lemma EntryRan(queue: seq<nat>, e: Entry, pattern: bytes)
    requires OpOf(e, pattern) != [] && (e.Called? ==> e.callee == Front(queue))
    ensures Ran(Lookup.EventsOf(queue, OpOf(e, pattern)[0])) == TakenBy(e, pattern)
  {
  }

  /** Without removals everything that a history takes is dispatched. */
  lemma {:induction false} AllRan(q: seq<nat>, ops: seq<Lookup.Op<nat>>)
    requires forall k :: 0 <= k < |ops| ==> !ops[k].Remove?
    ensures |Ran(Lookup.History(q, ops))| == |Lookup.History(q, ops)|
    ensures forall k :: 0 <= k < |Lookup.History(q, ops)| ==>
              Ran(Lookup.History(q, ops))[k] == Lookup.History(q, ops)[k].f
    decreases |ops|
  {
    if ops != [] {
      AllRan(Lookup.After(q, ops[0]), ops[1..]);
      RanSplit(Lookup.EventsOf(q, ops[0]), Lookup.History(Lookup.After(q, ops[0]), ops[1..]));
    }
  }

  /**
   * Bounded waiting: between a call at i of the pattern's front and a later point j, with as many
   * calls and removals of the pattern in between as other callbacks were registered, every one of
   * these was taken once, in the order of the queue: it was called, unless it was removed. The next
   * call at j is of the same registration as the one at i.
   */
  lemma BetweenCalls(queue: seq<nat>, trace: seq<Entry>, i: nat, j: nat, pattern: bytes)
    returns (history: seq<Lookup.Event<nat>>)
    requires TakesTurns(queue, trace, pattern) && i < j < |trace|
    requires trace[i].Called? && trace[i].pattern == pattern && trace[i].callee.Registered?
    requires trace[j].Called? && trace[j].pattern == pattern
    requires Lookup.Pops(Ops(trace[i + 1..j], pattern)) == |QueueAfter(trace[..i], pattern)| - 1
    ensures var q := QueueAfter(trace[..i], pattern);
            && |history| == |q| - 1 && (forall k :: 0 <= k < |history| ==> history[k].f == q[1 + k])
            && Callees(trace[i + 1..j], pattern) == Ran(history)
            && ((forall k :: i < k < j ==> !(trace[k].Unsubscribed? && trace[k].pattern == pattern)) ==>
                  Callees(trace[i + 1..j], pattern) == q[1..])
            && trace[j].callee == trace[i].callee
  {
    hide Ops, Callees, Ran, Lookup.History, Lookup.Pops, TakesTurns;
    var q, ops := QueueAfter(trace[..i], pattern), Ops(trace[i + 1..j], pattern);
    TurnAt(queue, trace, i, pattern);
    TurnAt(queue, trace, j, pattern);
    CallsFrom(queue, trace, i, i + 1, pattern);
    CallsFrom(queue, trace, i + 1, j, pattern);
    var first := Lookup.After(q, Lookup.Find);
    CallOp(trace, i, pattern, q);
    Lookup.BetweenDispatches(q, ops);
    history := Lookup.History(first, ops);
    if forall k :: i < k < j ==> !(trace[k].Unsubscribed? && trace[k].pattern == pattern) {
      NoRemovals(trace[i + 1..j], pattern);
      AllRan(first, ops);
      assert Ran(history) == q[1..];
    }
  }

  lemma CallOp(trace: seq<Entry>, i: nat, pattern: bytes, q: seq<nat>)
    requires i < |trace| && trace[i].Called? && trace[i].pattern == pattern
    ensures Lookup.AfterAll(q, Ops(trace[i..i + 1], pattern)) == Lookup.After(q, Lookup.Find)
  {
    assert trace[i..i + 1] == [trace[i]] && [trace[i]][1..] == [];
    var ops: seq<Lookup.Op<nat>> := [Lookup.Find];
    assert Ops([trace[i]], pattern) == ops + [] == ops && ops[1..] == [];
  }

  lemma {:induction false} NoRemovals(trace: seq<Entry>, pattern: bytes)
    requires forall k :: 0 <= k < |trace| ==> !(trace[k].Unsubscribed? && trace[k].pattern == pattern)
    ensures forall k :: 0 <= k < |Ops(trace, pattern)| ==> !Ops(trace, pattern)[k].Remove?
  {
    if trace != [] {
      NoRemovals(trace[1..], pattern);
    }
  }
}
