/**
 * The request serialiser of src/api/javascript/CloudI.js as a state machine: one reply slot
 * (`_poll_callback`), a queue of requests that wait for it, and one retry timer for each of them.
 */
module Serialiser {

  datatype Option<+T> = None | Some(value: T)

  /**
   * What the closure given to `_poll_wait` does. A replying request occupies the reply slot; an
   * immediate one (subscribe, unsubscribe) calls its callback at once; a throwing one (forward,
   * return) ends by raising an exception.
   */
  datatype Kind = Replying | Immediate | Throwing

  /**
   * A request, the error domain of the call that issues it, and the requests that its callback
   * issues, in order, when it is called.
   */
  datatype Request = Request(id: nat, kind: Kind, domain: nat, nested: seq<Request>)

  /** A reply: the request that the service answered and the callback that received it. */
  datatype Delivery = Delivery(answered: Request, receiver: Request)

  /** An exception that left a retry timer: the request that was run, and the domain that gets it. */
  datatype Escape = Escape(ran: Request, domain: nat)

  /**
   * `callback`, `pending`, `timers` and `terminate` are the state of the API object; a timer keeps
   * the domain in which it was armed. `awaiting` holds the requests that the service has received
   * and not answered. `faulted` is set when a call of an undefined value ends the process. The other
   * fields record the run: the requests in the order of their `_poll_wait`, in the order their
   * closures ran, the replies, and the exceptions that left a timer.
   */
  datatype State = State(
    terminate: bool,
    faulted: bool,
    callback: Option<Request>,
    pending: seq<Request>,
    timers: seq<nat>,
    awaiting: seq<Request>,
    issued: seq<Request>,
    ran: seq<Request>,
    delivered: seq<Delivery>,
    escaped: seq<Escape>)

  /** A new API object has sent `init`, whose reply the constructor's callback receives. */
  function Initial(init: Request): State {
    State(false, false, Some(init), [], [], [init], [init], [init], [], [])
  }

  // The functions return the new state and whether an exception left the call.

  function Submit(s: State, f: Request): (State, bool)
    decreases f, 1
  {
    if s.terminate then (s, false)
    else
      var s := s.(issued := s.issued + [f]);
      if s.callback.None? && s.pending == [] then Perform(s, f)
      else (s.(pending := s.pending + [f], timers := s.timers + [f.domain]), false)
  }

  /** The closure of request f. */
  function Perform(s: State, f: Request): (State, bool)
    decreases f, 0
  {
    var s := s.(ran := s.ran + [f]);
    match f.kind
    case Replying => (s.(callback := Some(f), awaiting := s.awaiting + [f]), false)
    case Immediate => IssueAll(s, f.nested)
    case Throwing => (s, true)
  }

  /** A callback issues requests until one of them throws. */
  function IssueAll(s: State, fs: seq<Request>): (State, bool)
    decreases fs
  {
    if fs == [] then (s, false)
    else
      var (s, threw) := Submit(s, fs[0]);
      if threw then (s, true) else IssueAll(s, fs[1..])
  }

  function Without(timers: seq<nat>, k: nat): seq<nat>
    requires k < |timers|
  {
    timers[..k] + timers[k + 1..]
  }

  /**
   * The k-th retry timer fires: `_poll_wait_retry`. It runs the oldest waiting request, whoever
   * armed it, and an exception from there reaches the domain of the timer.
   */
  function Fire(s: State, k: nat): State
    requires k < |s.timers|
  {
    var domain := s.timers[k];
    var s := s.(timers := Without(s.timers, k));
    if s.terminate then s
    else if s.callback.Some? then s.(timers := s.timers + [domain])
    else if s.pending == [] then s.(faulted := true)
    else
      var f := s.pending[0];
      var (t, threw) := Perform(s.(pending := s.pending[1..]), f);
      if threw then t.(escaped := t.escaped + [Escape(f, domain)]) else t
  }

  /**
   * The reply to the oldest unanswered request arrives. The slot is emptied after the callback, unless
   * the callback throws, which ends the service.
   */
  function Deliver(s: State): State
    requires !s.terminate && s.awaiting != []
  {
    if s.callback.None? then s.(faulted := true)
    else
      var (t, threw) := IssueAll(Received(s), s.callback.value.nested);
      if threw then t.(terminate := true) else t.(callback := None)
  }

  /** The reply has been read and its callback is about to be called. */
  function Received(s: State): State
    requires s.awaiting != [] && s.callback.Some?
  {
    s.(awaiting := s.awaiting[1..],
       delivered := s.delivered + [Delivery(s.awaiting[0], s.callback.value)])
  }

  datatype Step = Call(f: Request) | TimerFires(k: nat) | ReplyArrives | Terminates

  predicate Enabled(s: State, step: Step) {
    match step
    case TimerFires(k) => k < |s.timers|
    case ReplyArrives => !s.terminate && s.awaiting != []
    case _ => true
  }

  // Invariants

  function RepliesOf(fs: seq<Request>): seq<Request> {
    if fs == [] then []
    else if fs[0].kind.Replying? then [fs[0]] + RepliesOf(fs[1..])
    else RepliesOf(fs[1..])
  }

  function Answered(ds: seq<Delivery>): (fs: seq<Request>)
    ensures |fs| == |ds|
  {
    if ds == [] then [] else [ds[0].answered] + Answered(ds[1..])
  }

  /**
   * One timer for each waiting request; requests run in the order in which they were issued; every
   * reply reached the callback of the request it answers; replying requests are answered in order
   * and at most one is unanswered. While a reply is being delivered its request is still in the
   * slot and no longer unanswered.
   */
  ghost predicate Invariant(s: State, delivering: bool) {
    && !s.faulted
    && (!s.terminate ==> |s.timers| == |s.pending|)
    && s.issued == s.ran + s.pending
    && (forall k :: 0 <= k < |s.delivered| ==> s.delivered[k].answered == s.delivered[k].receiver)
    && RepliesOf(s.ran) == Answered(s.delivered) + s.awaiting
    && s.awaiting == (if s.callback.Some? && !delivering then [s.callback.value] else [])
    && (delivering ==> s.callback.Some?)
  }

  lemma {:induction false} RepliesSnoc(fs: seq<Request>, f: Request)
    ensures RepliesOf(fs + [f]) == if f.kind.Replying? then RepliesOf(fs) + [f] else RepliesOf(fs)
  {
    if fs == [] {
      assert fs + [f] == [f];
    } else {
      assert (fs + [f])[1..] == fs[1..] + [f];
      RepliesSnoc(fs[1..], f);
      assert [fs[0]] + (RepliesOf(fs[1..]) + [f]) == [fs[0]] + RepliesOf(fs[1..]) + [f];
    }
  }

  lemma {:induction false} AnsweredSnoc(ds: seq<Delivery>, d: Delivery)
    ensures Answered(ds + [d]) == Answered(ds) + [d.answered]
  {
    if ds == [] {
      assert ds + [d] == [d];
    } else {
      assert (ds + [d])[1..] == ds[1..] + [d];
      AnsweredSnoc(ds[1..], d);
    }
  }

  /** While the slot is taken a request is queued, whatever it is, and the slot stays as it is. */
  ghost predicate Queues(s: State, t: State, threw: bool) {
    s.callback.Some? ==>
      !threw && t.callback == s.callback && t.ran == s.ran && t.awaiting == s.awaiting && t.delivered == s.delivered
  }

  lemma {:induction false} PollWaitKeeps(s: State, f: Request, delivering: bool)
    requires Invariant(s, delivering)
    ensures Invariant(Submit(s, f).0, delivering) && Queues(s, Submit(s, f).0, Submit(s, f).1)
    decreases f, 1
  {
    if !s.terminate {
      var s' := s.(issued := s.issued + [f]);
      if s.callback.None? && s.pending == [] {
        ExecuteKeeps(s', f);
      } else {
        assert s.ran + s.pending + [f] == s.ran + (s.pending + [f]);
      }
    }
  }

  /** The closure of a request that was issued and is next in order. */
  lemma {:induction false} ExecuteKeeps(s: State, f: Request)
    requires !s.terminate && s.callback.None? && |s.timers| == |s.pending|
    requires s.issued == s.ran + [f] + s.pending
    requires Invariant(s.(issued := s.ran + s.pending), false)
    ensures Invariant(Perform(s, f).0, false)
    decreases f, 0
  {
    RepliesSnoc(s.ran, f);
    if f.kind.Immediate? {
      IssueAllKeeps(s.(ran := s.ran + [f]), f.nested, false);
    }
  }

  lemma {:induction false} IssueAllKeeps(s: State, fs: seq<Request>, delivering: bool)
    requires Invariant(s, delivering)
    ensures Invariant(IssueAll(s, fs).0, delivering) && Queues(s, IssueAll(s, fs).0, IssueAll(s, fs).1)
    decreases fs
  {
    if fs != [] {
      PollWaitKeeps(s, fs[0], delivering);
      var (t, threw) := Submit(s, fs[0]);
      if !threw {
        IssueAllKeeps(t, fs[1..], delivering);
      }
    }
  }

  lemma FireKeeps(s: State, k: nat)
    requires Invariant(s, false) && k < |s.timers|
    ensures Invariant(Fire(s, k), false)
  {
    if !s.terminate && s.callback.None? {
      var f := s.pending[0];
      var t := s.(timers := Without(s.timers, k), pending := s.pending[1..]);
      assert s.ran + s.pending == s.ran + [f] + s.pending[1..];
      ExecuteKeeps(t, f);
    }
  }

  lemma ReceivedKeeps(s: State)
    requires Invariant(s, false) && s.awaiting != []
    ensures s.callback.Some? && Invariant(Received(s), true)
  {
    AnsweredSnoc(s.delivered, Delivery(s.awaiting[0], s.callback.value));
  }

  lemma DeliverKeeps(s: State)
    requires Invariant(s, false) && !s.terminate && s.awaiting != []
    ensures Invariant(Deliver(s), false)
  {
    ReceivedKeeps(s);
    IssueAllKeeps(Received(s), s.callback.value.nested, true);
  }

  // Whole runs

  /** One step of the environment; a step that is not enabled does not happen. */
  function Next(s: State, step: Step): State {
    if s.faulted || !Enabled(s, step) then s
    else match step
      case Call(f) => Submit(s, f).0
      case TimerFires(k) => Fire(s, k)
      case ReplyArrives => Deliver(s)
      case Terminates => s.(terminate := true)
  }

  /** The state after the given calls, timers, replies and termination, in that order. */
  function Run(init: Request, steps: seq<Step>): State {
    if steps == [] then Initial(init)
    else Next(Run(init, steps[..|steps| - 1]), steps[|steps| - 1])
  }

  /** Every state of every run satisfies the invariant, whatever steps interleave. */
  lemma {:induction false} RunKeeps(init: Request, steps: seq<Step>)
    requires init.kind.Replying?
    ensures Invariant(Run(init, steps), false)
  {
    if steps != [] {
      RunKeeps(init, steps[..|steps| - 1]);
      var s, step := Run(init, steps[..|steps| - 1]), steps[|steps| - 1];
      if Enabled(s, step) {
        match step
        case Call(f) => PollWaitKeeps(s, f, false);
        case TimerFires(k) => FireKeeps(s, k);
        case ReplyArrives => DeliverKeeps(s);
        case Terminates =>
      }
    }
  }

  /** The n-th reply of any run goes to the callback of the n-th replying request of that run. */
  lemma NthReply(init: Request, steps: seq<Step>, n: nat)
    requires init.kind.Replying?
    ensures var s := Run(init, steps);
            n < |s.delivered| ==>
              n < |RepliesOf(s.ran)| && s.delivered[n].receiver == RepliesOf(s.ran)[n]
  {
    RunKeeps(init, steps);
    var s := Run(init, steps);
    if n < |s.delivered| {
      AnsweredAt(s.delivered, n);
    }
  }

  lemma {:induction false} AnsweredAt(ds: seq<Delivery>, n: nat)
    requires n < |ds|
    ensures Answered(ds)[n] == ds[n].answered
  {
    if n > 0 {
      AnsweredAt(ds[1..], n - 1);
    }
  }

  /** Nothing runs and no reply is delivered after termination. */
  lemma TerminationIsFinal(s: State, step: Step)
    requires s.terminate
    ensures var t := Next(s, step);
            t.terminate && t.ran == s.ran && t.delivered == s.delivered && t.issued == s.issued
  {
  }

  // Progress

  /** The requests still to be issued or run; a request in the slot counts one less than a waiting one. */
  function Weight(s: State): nat {
    Sizes(s.pending) + if s.callback.Some? then 1 + Sizes(s.callback.value.nested) else 0
  }

  function Size(f: Request): nat {
    2 + Sizes(f.nested)
  }

  function Sizes(fs: seq<Request>): nat {
    if fs == [] then 0 else Size(fs[0]) + Sizes(fs[1..])
  }

  lemma {:induction false} SizesSnoc(fs: seq<Request>, f: Request)
    ensures Sizes(fs + [f]) == Sizes(fs) + Size(f)
  {
    if fs == [] {
      assert fs + [f] == [f];
    } else {
      assert (fs + [f])[1..] == fs[1..] + [f];
      SizesSnoc(fs[1..], f);
    }
  }

  lemma {:induction false} PollWaitWeight(s: State, f: Request)
    ensures Weight(Submit(s, f).0) <= Weight(s) + Size(f)
    decreases f, 1
  {
    SizesSnoc(s.pending, f);
    if !s.terminate && s.callback.None? && s.pending == [] {
      ExecuteWeight(s.(issued := s.issued + [f]), f);
    }
  }

  lemma {:induction false} ExecuteWeight(s: State, f: Request)
    requires s.callback.None?
    ensures Weight(Perform(s, f).0) < Weight(s) + Size(f)
    decreases f, 0
  {
    if f.kind.Immediate? {
      IssueAllWeight(s.(ran := s.ran + [f]), f.nested);
    }
  }

  lemma {:induction false} IssueAllWeight(s: State, fs: seq<Request>)
    ensures Weight(IssueAll(s, fs).0) <= Weight(s) + Sizes(fs)
    decreases fs
  {
    if fs != [] {
      PollWaitWeight(s, fs[0]);
      var (t, threw) := Submit(s, fs[0]);
      if !threw {
        IssueAllWeight(t, fs[1..]);
      }
    }
  }

  /** The step that makes progress: the reply when the slot is taken, a retry timer when it is free. */
  function Useful(s: State): Step {
    if s.callback.Some? then ReplyArrives else TimerFires(0)
  }

  /**
   * No wakeup is lost: until everything issued has run and been answered, a useful step is enabled
   * and brings that moment nearer.
   */
  lemma UsefulStep(s: State)
    requires Invariant(s, false) && !s.terminate
    requires s.pending != [] || s.awaiting != []
    ensures Enabled(s, Useful(s)) && Weight(Next(s, Useful(s))) < Weight(s)
    ensures Invariant(Next(s, Useful(s)), false) && !Next(s, Useful(s)).terminate
  {
    if s.callback.Some? {
      DeliverKeeps(s);
      ReceivedKeeps(s);
      var nested := s.callback.value.nested;
      IssueAllKeeps(Received(s), nested, true);
      IssueAllWeight(Received(s), nested);
      NeverTerminates(Received(s), nested);
    } else {
      FireKeeps(s, 0);
      var t := s.(timers := Without(s.timers, 0), pending := s.pending[1..]);
      ExecuteWeight(t, s.pending[0]);
      ExecuteRuns(t, s.pending[0]);
    }
  }

  lemma {:induction false} PollWaitRuns(s: State, f: Request)
    ensures Submit(s, f).0.terminate == s.terminate
    decreases f, 1
  {
    if !s.terminate && s.callback.None? && s.pending == [] {
      ExecuteRuns(s.(issued := s.issued + [f]), f);
    }
  }

  lemma {:induction false} ExecuteRuns(s: State, f: Request)
    ensures Perform(s, f).0.terminate == s.terminate
    decreases f, 0
  {
    if f.kind.Immediate? {
      NeverTerminates(s.(ran := s.ran + [f]), f.nested);
    }
  }

  lemma {:induction false} NeverTerminates(s: State, fs: seq<Request>)
    ensures IssueAll(s, fs).0.terminate == s.terminate
    decreases fs
  {
    if fs != [] {
      PollWaitRuns(s, fs[0]);
      if !Submit(s, fs[0]).1 {
        NeverTerminates(Submit(s, fs[0]).0, fs[1..]);
      }
    }
  }

  /** The run continued by useful steps only. */
  function Drain(s: State): State
    requires Invariant(s, false) && !s.terminate
    decreases Weight(s)
  {
    if s.pending == [] && s.awaiting == [] then s
    else
      UsefulStep(s);
      Drain(Next(s, Useful(s)))
  }

  /** From every reachable state, timers and replies alone lead to all requests run and answered. */
  lemma {:induction false} DrainCompletes(s: State)
    requires Invariant(s, false) && !s.terminate
    ensures var t := Drain(s);
            && t.ran == t.issued && RepliesOf(t.ran) == Answered(t.delivered)
            && t.timers == [] && t.callback.None?
    decreases Weight(s)
  {
    if s.pending != [] || s.awaiting != [] {
      UsefulStep(s);
      DrainCompletes(Next(s, Useful(s)));
    } else {
      assert s.ran + s.pending == s.ran;
    }
  }

  // Exceptions

  /** Every request, timer and exception so far belongs to one of the domains. */
  ghost predicate Within(s: State, domains: set<nat>) {
    && (forall d :: d in s.timers ==> d in domains)
    && (forall k :: 0 <= k < |s.pending| ==> AllOf(s.pending[k], domains))
    && (s.callback.Some? ==> AllOf(s.callback.value, domains))
    && (forall k :: 0 <= k < |s.escaped| ==> s.escaped[k].ran.domain in domains && s.escaped[k].domain in domains)
  }

  /** A request and everything that is issued inside it. */
  ghost predicate AllOf(f: Request, domains: set<nat>) {
    f.domain in domains && forall k :: 0 <= k < |f.nested| ==> AllOf(f.nested[k], domains)
  }

  lemma {:induction false} SubmitWithin(s: State, f: Request, domains: set<nat>)
    requires Within(s, domains) && AllOf(f, domains)
    ensures Within(Submit(s, f).0, domains)
    decreases f, 1
  {
    if !s.terminate && s.callback.None? && s.pending == [] {
      PerformWithin(s.(issued := s.issued + [f]), f, domains);
    }
  }

  lemma {:induction false} PerformWithin(s: State, f: Request, domains: set<nat>)
    requires Within(s, domains) && AllOf(f, domains)
    ensures Within(Perform(s, f).0, domains)
    decreases f, 0
  {
    if f.kind.Immediate? {
      IssueAllWithin(s.(ran := s.ran + [f]), f.nested, domains);
    }
  }

  lemma {:induction false} IssueAllWithin(s: State, fs: seq<Request>, domains: set<nat>)
    requires Within(s, domains) && forall k :: 0 <= k < |fs| ==> AllOf(fs[k], domains)
    ensures Within(IssueAll(s, fs).0, domains)
    decreases fs
  {
    hide Within, AllOf;
    if fs != [] {
      SubmitWithin(s, fs[0], domains);
      if !Submit(s, fs[0]).1 {
        IssueAllWithin(Submit(s, fs[0]).0, fs[1..], domains);
      }
    }
  }

  lemma NextWithin(s: State, step: Step, domains: set<nat>)
    requires Within(s, domains) && (step.Call? ==> AllOf(step.f, domains))
    ensures Within(Next(s, step), domains)
  {
    if !s.faulted && Enabled(s, step) {
      match step
      case Call(f) => SubmitWithin(s, f, domains);
      case TimerFires(k) => FireWithin(s, k, domains);
      case ReplyArrives =>
        if s.callback.Some? {
          IssueAllWithin(Received(s), s.callback.value.nested, domains);
        }
      case Terminates =>
    }
  }

  lemma FireWithin(s: State, k: nat, domains: set<nat>)
    requires Within(s, domains) && k < |s.timers|
    ensures Within(Fire(s, k), domains)
  {
    var t := s.(timers := Without(s.timers, k));
    assert s.timers[k] in s.timers;
    if !s.terminate && s.callback.None? && s.pending != [] {
      PerformWithin(t.(pending := s.pending[1..]), s.pending[0], domains);
    }
  }

  /** All requests of a run belong to the domains. */
  ghost predicate RunOf(init: Request, steps: seq<Step>, domains: set<nat>) {
    AllOf(init, domains) && forall k :: 0 <= k < |steps| && steps[k].Call? ==> AllOf(steps[k].f, domains)
  }

  lemma {:induction false} RunWithin(init: Request, steps: seq<Step>, domains: set<nat>)
    requires RunOf(init, steps, domains)
    ensures Within(Run(init, steps), domains)
  {
    if steps != [] {
      RunWithin(init, steps[..|steps| - 1], domains);
      NextWithin(Run(init, steps[..|steps| - 1]), steps[|steps| - 1], domains);
    }
  }

  /** Every exception that left a timer reached the domain of the call that had issued the request. */
  ghost predicate AtHome(s: State) {
    forall k :: 0 <= k < |s.escaped| ==> s.escaped[k].domain == s.escaped[k].ran.domain
  }

  /**
   * Two forwards or returns that wait, from different domains: the first timer finds the slot taken
   * and is armed again behind the second, which then runs the first request.
   */
  lemma Misdirected(init: Request, a: nat, b: nat)
    requires init == Request(0, Replying, a, []) && a != b
    ensures var f := Request(1, Throwing, a, []);
            var g := Request(2, Throwing, b, []);
            var s := Run(init, [Call(f), Call(g), TimerFires(0), ReplyArrives, TimerFires(0)]);
            s.escaped == [Escape(f, b)]
  {
    hide Run;
    var f := Request(1, Throwing, a, []);
    var g := Request(2, Throwing, b, []);
    var s1 := After(init, [], Call(f), [Call(f)]);
    var s2 := After(init, [Call(f)], Call(g), [Call(f), Call(g)]);
    assert s2.pending == [f, g] && s2.timers == [a, b];
    var s3 := After(init, [Call(f), Call(g)], TimerFires(0), [Call(f), Call(g), TimerFires(0)]);
    assert Without([a, b], 0) + [a] == [b, a];
    var s4 := After(init, [Call(f), Call(g), TimerFires(0)], ReplyArrives,
      [Call(f), Call(g), TimerFires(0), ReplyArrives]);
    assert s4.pending == [f, g] && s4.timers == [b, a] && s4.callback.None? && s4.escaped == [] && !s4.terminate;
    var s5 := After(init, [Call(f), Call(g), TimerFires(0), ReplyArrives], TimerFires(0),
      [Call(f), Call(g), TimerFires(0), ReplyArrives, TimerFires(0)]);
  }

  lemma After(init: Request, before: seq<Step>, step: Step, steps: seq<Step>) returns (s: State)
    requires steps == before + [step]
    ensures s == Run(init, steps) == Next(Run(init, before), step)
    ensures before == [] ==> Run(init, before) == Initial(init)
  {
    assert steps[..|steps| - 1] == before;
    s := Run(init, steps);
  }

  /**
   * Exceptions that leave a timer reach the domain of their caller in every run over some domains
   * exactly when these are no more than one.
   */
  lemma HomeExactly(domains: set<nat>)
    ensures (forall init: Request, steps: seq<Step> ::
               init.kind.Replying? && RunOf(init, steps, domains) ==> AtHome(Run(init, steps)))
       <==> forall a: nat, b: nat :: a in domains && b in domains ==> a == b
  {
    hide Run;
    if forall a: nat, b: nat :: a in domains && b in domains ==> a == b {
      forall init: Request, steps: seq<Step> | init.kind.Replying? && RunOf(init, steps, domains)
        ensures AtHome(Run(init, steps))
      {
        RunWithin(init, steps, domains);
      }
    } else {
      var a: nat, b: nat :| a in domains && b in domains && a != b;
      var init := Request(0, Replying, a, []);
      var f, g := Request(1, Throwing, a, []), Request(2, Throwing, b, []);
      var steps := [Call(f), Call(g), TimerFires(0), ReplyArrives, TimerFires(0)];
      Misdirected(init, a, b);
      assert RunOf(init, steps, domains) && Run(init, steps).escaped[0].domain != a;
    }
  }

  // What runs

  lemma {:induction false} SubmitRuns(s: State, f: Request)
    ensures s.ran <= Submit(s, f).0.ran
    decreases f, 1
  {
    if !s.terminate && s.callback.None? && s.pending == [] {
      PerformRuns(s.(issued := s.issued + [f]), f);
    }
  }

  lemma {:induction false} PerformRuns(s: State, f: Request)
    ensures s.ran + [f] <= Perform(s, f).0.ran
    decreases f, 0
  {
    if f.kind.Immediate? {
      IssueAllRuns(s.(ran := s.ran + [f]), f.nested);
    }
  }

  lemma {:induction false} IssueAllRuns(s: State, fs: seq<Request>)
    ensures s.ran <= IssueAll(s, fs).0.ran
    decreases fs
  {
    if fs != [] {
      SubmitRuns(s, fs[0]);
      if !Submit(s, fs[0]).1 {
        IssueAllRuns(Submit(s, fs[0]).0, fs[1..]);
      }
    }
  }

  // The object

  /** The API object. It never calls an undefined value: its invariant leaves no such state. */
  class Api {
    var terminate: bool
    var pollCallback: Option<Request>
    var pollCallbacksPending: seq<Request>
    var timers: seq<nat>
    var awaiting: seq<Request>
    ghost var issued: seq<Request>
    ghost var ran: seq<Request>
    ghost var delivered: seq<Delivery>
    ghost var escaped: seq<Escape>

    ghost function View(): State
      reads this
    {
      State(terminate, false, pollCallback, pollCallbacksPending, timers, awaiting, issued, ran, delivered, escaped)
    }

    /**
     * One timer for each waiting request, requests run in the order of issue, replies reach the
     * requests they answer, and at most one is due; `delivering` while a reply's callback runs.
     */
    ghost predicate Valid(delivering: bool)
      reads this
    {
      Invariant(View(), delivering)
    }

    constructor (init: Request)
      requires init.kind.Replying?
      ensures Valid(false) && View() == Initial(init)
    {
      terminate := false;
      pollCallback, pollCallbacksPending := Some(init), [];
      timers, awaiting := [], [init];
      issued, ran, delivered, escaped := [init], [init], [], [];
      new;
      RunKeeps(init, []);
    }

    /**
     * `_poll_wait`. A request waits with a timer of its own if the reply slot is taken or another
     * request waits, also when it is issued inside a callback; otherwise it runs at once.
     */
    method PollWait(f: Request, ghost delivering: bool) returns (threw: bool)
      requires Valid(delivering)
      modifies this
      ensures Valid(delivering) && (View(), threw) == Submit(old(View()), f)
      ensures old(terminate) ==> View() == old(View()) && !threw
      ensures !old(terminate) && (old(pollCallback).Some? || old(pollCallbacksPending) != []) ==>
                && !threw && ran == old(ran)
                && pollCallbacksPending == old(pollCallbacksPending) + [f] && timers == old(timers) + [f.domain]
      ensures !old(terminate) && old(pollCallback).None? && old(pollCallbacksPending) == [] ==>
                old(ran) + [f] <= ran
      decreases f, 2
    {
      PollWaitKeeps(View(), f, delivering);
      threw := Enqueue(f);
    }

    method Enqueue(f: Request) returns (threw: bool)
      modifies this
      ensures (View(), threw) == Submit(old(View()), f)
      ensures !old(terminate) && old(pollCallback).None? && old(pollCallbacksPending) == [] ==> old(ran) + [f] <= ran
      decreases f, 1
    {
      threw := false;
      if terminate {
        return;
      }
      issued := issued + [f];
      if pollCallback.None? && |pollCallbacksPending| == 0 {
        PerformRuns(View(), f);
        threw := Execute(f);
      } else {
        pollCallbacksPending := pollCallbacksPending + [f];
        timers := timers + [f.domain];
      }
    }

    /** The closure of a request. */
    method Execute(f: Request) returns (threw: bool)
      modifies this
      ensures (View(), threw) == Perform(old(View()), f)
      decreases f, 0
    {
      ran := ran + [f];
      match f.kind {
        case Replying =>
          pollCallback := Some(f);
          awaiting := awaiting + [f];
          threw := false;
        case Immediate =>
          threw := CallBack(f.nested);
        case Throwing =>
          threw := true;
      }
    }

    /** A callback that issues requests until one throws. */
    method CallBack(fs: seq<Request>) returns (threw: bool)
      modifies this
      ensures (View(), threw) == IssueAll(old(View()), fs)
      decreases fs
    {
      threw := false;
      if fs != [] {
        threw := Enqueue(fs[0]);
        if !threw {
          threw := CallBack(fs[1..]);
        }
      }
    }

    /**
     * `_poll_wait_retry`, called by the k-th timer. While the slot is taken the timer is only armed
     * again; when it is free a request is waiting, and the oldest one runs.
     */
    method PollWaitRetry(k: nat)
      requires Valid(false) && k < |timers|
      modifies this
      ensures Valid(false) && View() == Fire(old(View()), k)
      ensures !old(terminate) && old(pollCallback).Some? ==>
                ran == old(ran) && pollCallbacksPending == old(pollCallbacksPending)
                && timers == Without(old(timers), k) + [old(timers[k])]
      ensures !old(terminate) && old(pollCallback).None? ==>
                old(pollCallbacksPending) != [] && old(ran) + [old(pollCallbacksPending[0])] <= ran
      ensures old(terminate) ==> ran == old(ran) && timers == Without(old(timers), k)
    {
      FireKeeps(View(), k);
      var domain := timers[k];
      timers := timers[..k] + timers[k + 1..];
      if terminate {
        return;
      } else if pollCallback.None? {
        var f := pollCallbacksPending[0];
        pollCallbacksPending := pollCallbacksPending[1..];
        PerformRuns(View(), f);
        var threw := Execute(f);
        if threw {
          escaped := escaped + [Escape(f, domain)];
        }
      } else {
        timers := timers + [domain];
      }
    }

    /**
     * The reply branches of `_poll_request`: the reply reaches the callback of the request that it
     * answers, whatever that callback issues waits, and the slot is empty afterwards.
     */
    method PollRequest()
      requires Valid(false) && !terminate && awaiting != []
      modifies this
      ensures Valid(false) && View() == Deliver(old(View()))
      ensures delivered == old(delivered) + [Delivery(old(awaiting[0]), old(awaiting[0]))]
      ensures !terminate && pollCallback == None && ran == old(ran)
      ensures old(pollCallbacksPending) + old(awaiting[0]).nested == pollCallbacksPending
    {
      hide Invariant, Perform;
      DeliverKeeps(View());
      ReceivedKeeps(View());
      SlotHoldsReply(View());
      var receiver := pollCallback.value;
      delivered := delivered + [Delivery(awaiting[0], receiver)];
      awaiting := awaiting[1..];
      QueuesAll(View(), receiver.nested);
      var threw := CallBack(receiver.nested);
      assert !threw;
      pollCallback := None;
    }
  }

  /** The one unanswered request is the one in the slot. */
  lemma SlotHoldsReply(s: State)
    requires Invariant(s, false) && s.awaiting != []
    ensures s.callback == Some(s.awaiting[0])
  {
  }

  /** While the slot is taken everything that is issued waits. */
  lemma {:induction false} QueuesAll(s: State, fs: seq<Request>)
    requires s.callback.Some? && !s.terminate
    ensures var (t, threw) := IssueAll(s, fs);
            && !threw && !t.terminate && t.pending == s.pending + fs && t.ran == s.ran && t.callback == s.callback
            && t.delivered == s.delivered
    decreases fs
  {
    if fs == [] {
      assert s.pending + [] == s.pending;
    } else {
      QueuesAll(Submit(s, fs[0]).0, fs[1..]);
      Concatenated(s.pending, fs);
    }
  }

  lemma Concatenated(pending: seq<Request>, fs: seq<Request>)
    requires fs != []
    ensures pending + [fs[0]] + fs[1..] == pending + fs
  {
  }
}
