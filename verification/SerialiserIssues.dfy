/** Nothing is lost: what the callbacks of a run ask for is issued, all of it and in order. */
module SerialiserIssues {
  import opened Serialiser

  // What a run asks for

  /** A request and everything that is issued because of it. */
  function Flat(f: Request): seq<Request> {
    [f] + FlatAll(f.nested)
  }

  function FlatAll(fs: seq<Request>): seq<Request> {
    if fs == [] then [] else Flat(fs[0]) + FlatAll(fs[1..])
  }

  /** No request in it throws. */
  predicate Calm(f: Request) {
    !f.kind.Throwing? && CalmAll(f.nested)
  }

  predicate CalmAll(fs: seq<Request>) {
    fs == [] || (Calm(fs[0]) && CalmAll(fs[1..]))
  }

  /** What will be issued when the callbacks of some requests are called. */
  function Inner(fs: seq<Request>): multiset<Request> {
    if fs == [] then multiset{} else multiset(FlatAll(fs[0].nested)) + Inner(fs[1..])
  }

  /** What has been issued, and what the waiting requests and the one in the slot will issue. */
  function Total(s: State): multiset<Request> {
    multiset(s.issued) + Inner(s.pending)
    + if s.callback.Some? then multiset(FlatAll(s.callback.value.nested)) else multiset{}
  }

  lemma FlatIs(f: Request)
    ensures multiset(Flat(f)) == multiset{f} + multiset(FlatAll(f.nested))
  {
  }

  lemma FlatCons(fs: seq<Request>)
    requires fs != []
    ensures multiset(FlatAll(fs)) == multiset(Flat(fs[0])) + multiset(FlatAll(fs[1..]))
  {
    hide Flat;
  }

  lemma {:induction false} InnerSnoc(fs: seq<Request>, f: Request)
    ensures Inner(fs + [f]) == Inner(fs) + multiset(FlatAll(f.nested))
  {
    hide FlatAll;
    if fs == [] {
      assert fs + [f] == [f] && [f][1..] == [];
    } else {
      assert (fs + [f])[1..] == fs[1..] + [f];
      InnerSnoc(fs[1..], f);
    }
  }

  lemma InnerCons(fs: seq<Request>)
    requires fs != []
    ensures Inner(fs) == multiset(FlatAll(fs[0].nested)) + Inner(fs[1..])
  {
  }

  lemma {:induction false} CalmSnoc(fs: seq<Request>, f: Request)
    requires CalmAll(fs) && Calm(f)
    ensures CalmAll(fs + [f])
  {
    hide Calm;
    if fs == [] {
      assert fs + [f] == [f] && [f][1..] == [];
    } else {
      assert (fs + [f])[1..] == fs[1..] + [f];
      CalmSnoc(fs[1..], f);
    }
  }

  // Every part of a run

  /** Nothing in the state throws, and it has not ended. */
  ghost predicate Quiet(s: State) {
    !s.terminate && CalmAll(s.pending) && (s.callback.Some? ==> Calm(s.callback.value))
  }

  /** Some requests have been asked for: each is issued, or will be, exactly once; nothing else is. */
  ghost predicate Gains(s: State, t: State, asked: multiset<Request>) {
    Quiet(t) && Total(t) == Total(s) + asked
  }

  lemma {:induction false} SubmitGains(s: State, f: Request)
    requires Quiet(s) && Calm(f)
    ensures var (t, threw) := Submit(s, f);
            !threw && Gains(s, t, multiset(Flat(f)))
    decreases f, 1
  {
    hide Flat, FlatAll, Calm;
    var u := s.(issued := s.issued + [f]);
    FlatIs(f);
    if s.callback.None? && s.pending == [] {
      PerformGains(u, f);
    } else {
      InnerSnoc(s.pending, f);
      CalmSnoc(s.pending, f);
    }
  }

  /** The closure of a request that has been issued. */
  lemma {:induction false} PerformGains(s: State, f: Request)
    requires Quiet(s) && Calm(f) && s.callback.None?
    ensures var (t, threw) := Perform(s, f);
            !threw && Gains(s, t, multiset(FlatAll(f.nested)))
    decreases f, 0
  {
    hide FlatAll;
    if f.kind.Immediate? {
      IssueAllGains(s.(ran := s.ran + [f]), f.nested);
    }
  }

  lemma {:induction false} IssueAllGains(s: State, fs: seq<Request>)
    requires Quiet(s) && CalmAll(fs)
    ensures var (t, threw) := IssueAll(s, fs);
            !threw && Gains(s, t, multiset(FlatAll(fs)))
    decreases fs
  {
    hide Flat, Calm;
    if fs != [] {
      SubmitGains(s, fs[0]);
      IssueAllGains(Submit(s, fs[0]).0, fs[1..]);
      FlatCons(fs);
    }
  }

  lemma FireGains(s: State, k: nat)
    requires Invariant(s, false) && Quiet(s) && k < |s.timers|
    ensures Gains(s, Fire(s, k), multiset{})
  {
    hide FlatAll, Calm;
    if s.callback.None? {
      var t := s.(timers := Without(s.timers, k), pending := s.pending[1..]);
      InnerCons(s.pending);
      PerformGains(t, s.pending[0]);
    }
  }

  lemma DeliverGains(s: State)
    requires Invariant(s, false) && Quiet(s) && s.awaiting != []
    ensures Gains(s, Deliver(s), multiset{})
  {
    hide FlatAll, Inner, IssueAll;
    ReceivedKeeps(s);
    var nested := s.callback.value.nested;
    QueuesAll(Received(s), nested);
    IssueAllGains(Received(s), nested);
    SlotEmptied(s, IssueAll(Received(s), nested).0);
  }

  /** What the slot was to issue is issued or waits. */
  lemma SlotEmptied(s: State, t: State)
    requires t.callback.Some? && Total(t) == Total(s) + multiset(FlatAll(t.callback.value.nested))
    ensures Total(t.(callback := None)) == Total(s)
  {
    hide FlatAll, Inner;
    var nested := multiset(FlatAll(t.callback.value.nested));
    var rest := Total(t.(callback := None));
    assert rest + nested == Total(s) + nested;
    assert rest == (rest + nested) - nested && Total(s) == (Total(s) + nested) - nested;
  }

  // Whole runs

  /** The requests that the user of the object issues. */
  function Calls(steps: seq<Step>): seq<Request> {
    if steps == [] then []
    else
      var (front, last) := (steps[..|steps| - 1], steps[|steps| - 1]);
      Calls(front) + if last.Call? then [last.f] else []
  }

  /** Nothing that is asked for throws, and the service is not told to terminate. */
  ghost predicate CalmRun(init: Request, steps: seq<Step>) {
    && init.kind.Replying? && Calm(init)
    && forall k :: 0 <= k < |steps| ==> !steps[k].Terminates? && (steps[k].Call? ==> Calm(steps[k].f))
  }

  lemma {:induction false} FlatSnoc(fs: seq<Request>, f: Request)
    ensures multiset(FlatAll(fs + [f])) == multiset(FlatAll(fs)) + multiset(Flat(f))
  {
    hide Flat;
    if fs == [] {
      assert fs + [f] == [f] && [f][1..] == [];
      assert Flat(f) + [] == Flat(f);
    } else {
      assert (fs + [f])[1..] == fs[1..] + [f];
      FlatSnoc(fs[1..], f);
      FlatCons(fs);
      FlatCons(fs + [f]);
    }
  }

  /**
   * Conservation: in every state of such a run, what has been issued and what the waiting requests
   * and the one in the slot will issue is what was asked for: `init`, the calls, and everything inside.
   */
  lemma {:induction false} RunConserves(init: Request, steps: seq<Step>)
    requires CalmRun(init, steps)
    ensures Quiet(Run(init, steps))
    ensures Total(Run(init, steps)) == multiset(FlatAll([init] + Calls(steps)))
  {
    hide FlatAll, Total, Flat, Calm, Invariant;
    if steps == [] {
      InitialTotal(init);
    } else {
      var front, last := steps[..|steps| - 1], steps[|steps| - 1];
      RunConserves(init, front);
      RunKeeps(init, front);
      StepConserves(Run(init, front), last);
      if last.Call? {
        assert [init] + Calls(steps) == [init] + Calls(front) + [last.f];
        FlatSnoc([init] + Calls(front), last.f);
      } else {
        assert Calls(steps) == Calls(front) + [] == Calls(front);
      }
    }
  }

  lemma StepConserves(s: State, step: Step)
    requires Invariant(s, false) && Quiet(s) && !step.Terminates? && (step.Call? ==> Calm(step.f))
    ensures Gains(s, Next(s, step), if step.Call? then multiset(Flat(step.f)) else multiset{})
  {
    hide Flat, Total, Calm, Submit, Fire, Deliver;
    match step
    case Call(f) =>
      SubmitGains(s, f);
    case TimerFires(k) =>
      if k < |s.timers| {
        FireGains(s, k);
      }
    case ReplyArrives =>
      if s.awaiting != [] {
        DeliverGains(s);
      }
    case Terminates =>
  }

  lemma InitialTotal(init: Request)
    requires Calm(init)
    ensures Quiet(Initial(init)) && Total(Initial(init)) == multiset(FlatAll([init] + Calls([])))
  {
    assert [init] + Calls([]) == [init] && [init][1..] == [];
    assert FlatAll([init]) == Flat(init) + [] == Flat(init);
    FlatIs(init);
  }

  lemma {:induction false} DrainConserves(s: State)
    requires Invariant(s, false) && Quiet(s)
    ensures Total(Drain(s)) == Total(s) && Quiet(Drain(s))
    ensures Drain(s).pending == [] && Drain(s).awaiting == [] && Invariant(Drain(s), false)
    decreases Weight(s)
  {
    hide Invariant, Total, Next, Weight, CalmAll, Calm;
    if s.pending != [] || s.awaiting != [] {
      UsefulStep(s);
      StepConserves(s, Useful(s));
      DrainConserves(Next(s, Useful(s)));
    }
  }

  /**
   * Complete issue: when everything that waits has run and everything that is due has been answered,
   * exactly what was asked for has been issued, each request as often as it was asked for, and all of
   * it has run.
   */
  lemma EverythingIssued(init: Request, steps: seq<Step>)
    requires CalmRun(init, steps)
    ensures var s := Run(init, steps);
            && Invariant(s, false) && !s.terminate
            && multiset(Drain(s).issued) == multiset(FlatAll([init] + Calls(steps)))
            && Drain(s).ran == Drain(s).issued
  {
    hide Run, FlatAll, Drain;
    RunConserves(init, steps);
    RunKeeps(init, steps);
    DrainConserves(Run(init, steps));
    DrainCompletes(Run(init, steps));
  }

  // Order

  /** The elements of a stand in w, in their order. */
  predicate InOrder(a: seq<Request>, w: seq<Request>)
    decreases |w|
  {
    a == [] || (w != [] && if w[0] == a[0] then InOrder(a[1..], w[1..]) else InOrder(a, w[1..]))
  }

  lemma {:induction false} InOrderTail(a: seq<Request>, w: seq<Request>)
    requires a != [] && InOrder(a, w)
    ensures InOrder(a[1..], w)
    decreases |w|, 0
  {
    if w[0] == a[0] {
      InOrderLater(a[1..], w[1..], w[0]);
    } else {
      InOrderTail(a, w[1..]);
      InOrderLater(a[1..], w[1..], w[0]);
    }
  }

  lemma {:induction false} InOrderLater(a: seq<Request>, w: seq<Request>, e: Request)
    requires InOrder(a, w)
    ensures InOrder(a, [e] + w)
    decreases |w|, 1
  {
    assert ([e] + w)[1..] == w;
    if a != [] && e == a[0] {
      InOrderTail(a, w);
    }
  }

  lemma {:induction false} InOrderMore(a: seq<Request>, w: seq<Request>, v: seq<Request>)
    requires InOrder(a, w)
    ensures InOrder(a, w + v)
    decreases |w|
  {
    if a != [] {
      assert (w + v)[1..] == w[1..] + v;
      if w[0] == a[0] {
        InOrderMore(a[1..], w[1..], v);
      } else {
        InOrderMore(a, w[1..], v);
      }
    }
  }

  lemma {:induction false} InOrderJoin(a: seq<Request>, w: seq<Request>, b: seq<Request>, v: seq<Request>)
    requires InOrder(a, w) && InOrder(b, v)
    ensures InOrder(a + b, w + v)
    decreases |w|
  {
    if w == [] {
      assert a + b == b && w + v == v;
    } else {
      assert (w + v)[1..] == w[1..] + v;
      if a == [] {
        assert a + b == b;
        InOrderJoin(a, w[1..], b, v);
        assert [w[0]] + (w[1..] + v) == w + v;
        InOrderLater(b, w[1..] + v, w[0]);
      } else {
        assert (a + b)[0] == a[0] && (a + b)[1..] == a[1..] + b;
        if w[0] == a[0] {
          InOrderJoin(a[1..], w[1..], b, v);
        } else {
          InOrderJoin(a, w[1..], b, v);
        }
      }
    }
  }

  lemma {:induction false} InOrderOne(f: Request, w: seq<Request>)
    requires f in w
    ensures InOrder([f], w)
    decreases |w|
  {
    assert [f][1..] == [];
    if w[0] != f {
      InOrderOne(f, w[1..]);
    }
  }

  /** A request whose callback has been called: itself, and then what its callback asks for, in its order. */
  ghost predicate Done(f: Request, issued: seq<Request>) {
    InOrder([f] + f.nested, issued)
  }

  lemma DoneStays(f: Request, issued: seq<Request>, more: seq<Request>)
    requires Done(f, issued) && issued <= more
    ensures Done(f, more)
  {
    InOrderMore([f] + f.nested, issued, more[|issued|..]);
    assert more == issued + more[|issued|..];
  }

  /** The immediate requests that have run since are done. */
  ghost predicate DoneSince(s: State, t: State) {
    && s.issued <= t.issued && s.ran <= t.ran
    && forall k :: |s.ran| <= k < |t.ran| && t.ran[k].kind.Immediate? ==> Done(t.ran[k], t.issued)
  }

  lemma DoneThen(s: State, t: State, u: State)
    requires DoneSince(s, t) && DoneSince(t, u)
    ensures DoneSince(s, u)
  {
    hide Done;
    forall k | |s.ran| <= k < |u.ran| && u.ran[k].kind.Immediate?
      ensures Done(u.ran[k], u.issued)
    {
      if k < |t.ran| {
        DoneStays(t.ran[k], t.issued, u.issued);
      }
    }
  }

  lemma {:induction false} SubmitOrdered(s: State, f: Request)
    requires !s.terminate && !Submit(s, f).1
    ensures var t := Submit(s, f).0;
            && DoneSince(s, t) && s.issued + [f] <= t.issued && !t.terminate
    decreases f, 1
  {
    PollWaitRuns(s, f);
    var u := s.(issued := s.issued + [f]);
    if s.callback.None? && s.pending == [] {
      PerformOrdered(u, f);
    }
  }

  lemma {:induction false} PerformOrdered(s: State, f: Request)
    requires !s.terminate && f in s.issued && !Perform(s, f).1
    ensures DoneSince(s, Perform(s, f).0)
    decreases f, 0
  {
    if f.kind.Immediate? {
      var u := s.(ran := s.ran + [f]);
      IssueAllOrdered(u, f.nested);
      var t := IssueAll(u, f.nested).0;
      var since := t.issued[|s.issued|..];
      InOrderOne(f, s.issued);
      InOrderJoin([f], s.issued, f.nested, since);
      assert t.issued == s.issued + since;
      assert Done(f, t.issued);
      assert t.ran[|s.ran|] == f;
    }
  }

  lemma {:induction false} IssueAllOrdered(s: State, fs: seq<Request>)
    requires !s.terminate && !IssueAll(s, fs).1
    ensures var t := IssueAll(s, fs).0;
            && DoneSince(s, t) && InOrder(fs, t.issued[|s.issued|..]) && !t.terminate
    decreases fs
  {
    hide Done, Submit;
    if fs != [] {
      var u := Submit(s, fs[0]).0;
      SubmitOrdered(s, fs[0]);
      IssueAllOrdered(u, fs[1..]);
      var t := IssueAll(u, fs[1..]).0;
      DoneThen(s, u, t);
      var first, rest := u.issued[|s.issued|..], t.issued[|u.issued|..];
      assert first[0] == u.issued[|s.issued|] == fs[0];
      InOrderOne(fs[0], first);
      InOrderJoin([fs[0]], first, fs[1..], rest);
      assert [fs[0]] + fs[1..] == fs && first + rest == t.issued[|s.issued|..];
    }
  }

  /** Everything whose callback has been called, at once or by its reply, is done. */
  ghost predicate AllDone(s: State) {
    && (forall k :: 0 <= k < |s.ran| && s.ran[k].kind.Immediate? ==> Done(s.ran[k], s.issued))
    && (forall k :: 0 <= k < |s.delivered| ==> Done(s.delivered[k].receiver, s.issued))
  }

  lemma AllDoneThen(s: State, t: State)
    requires AllDone(s) && DoneSince(s, t) && t.delivered == s.delivered
    ensures AllDone(t)
  {
    hide Done;
    forall k | 0 <= k < |t.ran| && t.ran[k].kind.Immediate?
      ensures Done(t.ran[k], t.issued)
    {
      if k < |s.ran| {
        DoneStays(s.ran[k], s.issued, t.issued);
      }
    }
    forall k | 0 <= k < |t.delivered|
      ensures Done(t.delivered[k].receiver, t.issued)
    {
      DoneStays(s.delivered[k].receiver, s.issued, t.issued);
    }
  }

  lemma {:induction false} SubmitDelivers(s: State, f: Request)
    ensures Submit(s, f).0.delivered == s.delivered
    decreases f, 1
  {
    if !s.terminate && s.callback.None? && s.pending == [] {
      PerformDelivers(s.(issued := s.issued + [f]), f);
    }
  }

  lemma {:induction false} PerformDelivers(s: State, f: Request)
    ensures Perform(s, f).0.delivered == s.delivered
    decreases f, 0
  {
    if f.kind.Immediate? {
      IssueAllDelivers(s.(ran := s.ran + [f]), f.nested);
    }
  }

  lemma {:induction false} IssueAllDelivers(s: State, fs: seq<Request>)
    ensures IssueAll(s, fs).0.delivered == s.delivered
    decreases fs
  {
    if fs != [] {
      SubmitDelivers(s, fs[0]);
      if !Submit(s, fs[0]).1 {
        IssueAllDelivers(Submit(s, fs[0]).0, fs[1..]);
      }
    }
  }

  lemma FireDone(s: State, k: nat)
    requires Invariant(s, false) && Quiet(s) && AllDone(s) && k < |s.timers|
    ensures AllDone(Fire(s, k))
  {
    hide Done, Calm, Perform;
    if s.callback.None? {
      var f := s.pending[0];
      var t := s.(timers := Without(s.timers, k), pending := s.pending[1..]);
      assert f in s.issued by {
        assert s.issued[|s.ran|] == f;
      }
      PerformGains(t, f);
      PerformOrdered(t, f);
      PerformDelivers(t, f);
      AllDoneThen(t, Perform(t, f).0);
    }
  }

  lemma DeliverDone(s: State)
    requires Invariant(s, false) && Quiet(s) && AllDone(s) && s.awaiting != []
    ensures AllDone(Deliver(s))
  {
    hide Done, IssueAll;
    ReceivedKeeps(s);
    SlotHoldsReply(s);
    var f, u := s.callback.value, Received(s);
    QueuesAll(u, f.nested);
    IssueAllOrdered(u, f.nested);
    var t := IssueAll(u, f.nested).0;
    var since := t.issued[|s.issued|..];
    AnsweredRan(s, f);
    InOrderOne(f, s.issued);
    InOrderJoin([f], s.issued, f.nested, since);
    assert t.issued == s.issued + since;
    DeliveredDone(s, t, f);
  }

  /** The request in the slot has been issued. */
  lemma AnsweredRan(s: State, f: Request)
    requires Invariant(s, false) && s.callback == Some(f)
    ensures f in s.issued
  {
    var replies := RepliesOf(s.ran);
    assert replies[|replies| - 1] == f;
    RepliesRan(s.ran, f);
  }

  lemma {:induction false} RepliesRan(fs: seq<Request>, f: Request)
    requires f in RepliesOf(fs)
    ensures f in fs
  {
    if !(fs[0].kind.Replying? && fs[0] == f) {
      RepliesRan(fs[1..], f);
    }
  }

  lemma DeliveredDone(s: State, t: State, f: Request)
    requires AllDone(s) && s.issued <= t.issued && t.ran == s.ran && InOrder([f] + f.nested, t.issued)
    requires t.delivered == s.delivered + [Delivery(f, f)]
    ensures AllDone(t)
  {
    assert Done(f, t.issued);
    hide Done;
    forall k | 0 <= k < |t.ran| && t.ran[k].kind.Immediate?
      ensures Done(t.ran[k], t.issued)
    {
      DoneStays(s.ran[k], s.issued, t.issued);
    }
    forall k | 0 <= k < |t.delivered|
      ensures Done(t.delivered[k].receiver, t.issued)
    {
      if k < |s.delivered| {
        DoneStays(s.delivered[k].receiver, s.issued, t.issued);
      }
    }
  }

  /**
   * Order of issue: in every such run each callback that has been called, at once for an immediate
   * request or by the reply to a replying one, has issued its requests in their order, behind the
   * request itself.
   */
  lemma {:induction false} IssuedInOrder(init: Request, steps: seq<Step>)
    requires CalmRun(init, steps)
    ensures AllDone(Run(init, steps))
  {
    hide Done, Invariant, Calm;
    if steps != [] {
      var front, last := steps[..|steps| - 1], steps[|steps| - 1];
      IssuedInOrder(init, front);
      RunConserves(init, front);
      RunKeeps(init, front);
      StepDone(Run(init, front), last);
    }
  }

  lemma StepDone(s: State, step: Step)
    requires Invariant(s, false) && Quiet(s) && AllDone(s) && !step.Terminates? && (step.Call? ==> Calm(step.f))
    ensures AllDone(Next(s, step))
  {
    hide Done, Calm, Submit, Fire, Deliver, AllDone;
    match step
    case Call(f) =>
      SubmitGains(s, f);
      SubmitOrdered(s, f);
      SubmitDelivers(s, f);
      AllDoneThen(s, Submit(s, f).0);
    case TimerFires(k) =>
      if k < |s.timers| {
        FireDone(s, k);
      }
    case ReplyArrives =>
      if s.awaiting != [] {
        DeliverDone(s);
      }
    case Terminates =>
  }

  // Exceptions

  /** The last request that was issued has run, and it is one that throws. */
  ghost predicate Thrown(s: State) {
    && s.issued != [] && s.ran != [] && s.issued[|s.issued| - 1] == s.ran[|s.ran| - 1]
    && s.ran[|s.ran| - 1].kind.Throwing?
  }

  /** Nothing is issued or run behind an exception, by any of the callbacks that it leaves. */
  lemma {:induction false} SubmitThrows(s: State, f: Request)
    requires Submit(s, f).1
    ensures Thrown(Submit(s, f).0)
    decreases f, 1
  {
    var u := s.(issued := s.issued + [f]);
    if f.kind.Immediate? {
      IssueAllThrows(u.(ran := u.ran + [f]), f.nested);
    }
  }

  lemma {:induction false} IssueAllThrows(s: State, fs: seq<Request>)
    requires IssueAll(s, fs).1
    ensures Thrown(IssueAll(s, fs).0)
    decreases fs
  {
    hide Thrown;
    var (t, threw) := Submit(s, fs[0]);
    if threw {
      SubmitThrows(s, fs[0]);
    } else {
      IssueAllThrows(t, fs[1..]);
    }
  }
}
