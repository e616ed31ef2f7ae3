/**
 * `cloudi_instance_t` and the functions of src/api/c/cloudi.cpp that update it in place. Every method
 * does what the corresponding function of `Protocol` says.
 */
module Instance {
  import opened Bytes
  import opened Bignum
  import opened Events
  import opened Protocol
  import opened Monitor
  import opened ProtocolRuns
  import opened ProtocolPolls
  import opened ProtocolLifecycle
  import opened Timeouts
  import Lookup

  class CloudiInstance {
    var terminate: bool
    var initializationComplete: bool
    var bufferRecv: bytes
    var bufferRecvIndex: nat
    var bufferCall: bytes
    var config: Config
    var identity: Identity
    var response: Response
    var lookup: map<bytes, seq<nat>>
    // The environment: what will be received and allocated, and what the callbacks will do.
    var inputs: seq<Input>
    var spare: bytes
    var handlers: seq<Handler>
    ghost var trace: seq<Entry>

    ghost function View(): State
      reads this
    {
      State(terminate, initializationComplete, bufferRecv, bufferRecvIndex, spare, bufferCall, config, identity,
            response, lookup, inputs, handlers, trace)
    }

    constructor (inputs: seq<Input>, handlers: seq<Handler>)
      ensures New(View()) && AtRest(View())
      ensures View().inputs == inputs && View().handlers == handlers
      ensures identity.timeoutTerminate == 1000 && config == Config(0, 0, 0, 0, 0, 0)
    {
      terminate, initializationComplete := false, false;
      bufferRecv, bufferRecvIndex, bufferCall, spare := [], 0, [], [];
      config := Config(0, 0, 0, 0, 0, 0);
      identity := Identity(0, 0, 0, [], 0, 1000);
      response := Response(Span(0, 0), Span(0, 0), Span(0, 0), 0, 0);
      lookup := map[];
      this.inputs, this.handlers, trace := inputs, handlers, [];
      new;
      NewAtRest(View());
    }

    method Write(m: Message)
      modifies `trace
      ensures View() == Writes(old(View()), m)
    {
      trace := trace + [Wrote(m)];
    }

    /** The fields of REINIT, stored one after the other; an exception leaves those that came before it. */
    method StoreReinit(index: nat) returns (r: Read<()>)
      modifies `config
      ensures match ReinitAt(index, bufferRecv)
              case Past => r.Past? && config == ReinitPart(index, bufferRecv, old(config))
              case Got(j, e) => r == Got(j, ()) && config == Apply(old(config), e)
    {
      hide Word, Octet;
      var count := Word(index, bufferRecv);
      if count.Past? { return Past; }
      config := config.(processCount := count.value);
      var async := Word(count.next, bufferRecv);
      if async.Past? { return Past; }
      config := config.(timeoutAsync := async.value);
      var sync := Word(async.next, bufferRecv);
      if sync.Past? { return Past; }
      config := config.(timeoutSync := sync.value);
      var priority := Octet(sync.next, bufferRecv);
      if priority.Past? { return Past; }
      config := config.(priorityDefault := Int8(priority.value));
      var adjustment := Octet(priority.next, bufferRecv);
      if adjustment.Past? { return Past; }
      config := config.(requestTimeoutAdjustment := adjustment.value);
      if config.requestTimeoutAdjustment != 0 {
        config := config.(requestTimeout := 0);
      }
      r := Got(adjustment.next, ());
    }

    /** The switch of `handle_events`: one event, in a run of the loop that has done h to the state s. */
    method HandleEvent(external: bool, command: nat, index: nat, ghost s: State, ghost h: Handled)
      returns (outcome: Outcome, next: nat, ghost done: Handled)
      requires View() == Observe(s, h) && h.outcome == Continue && h.terminate == s.terminate
      modifies `config, `terminate, `trace
      ensures View() == Observe(s, done) && outcome == done.outcome
      ensures EventLoop(bufferRecv, bufferRecvIndex, external, command, index, h)
           == if outcome == Continue then EventNext(bufferRecv, bufferRecvIndex, external, next, done) else done
      ensures outcome == Continue ==> next >= index && done.terminate == s.terminate
    {
      hide ReinitAt, EventNext, EventEntries;
      next := index;
      if command == MESSAGE_TERM {
        ObservedTerm(s, h);
        if !terminate {
          trace := trace + [TermSeen];
        }
        terminate := true;
        outcome := Stop(if external then Success else Terminated);
        done := h.(outcome := outcome, terminate := true);
      } else if command == MESSAGE_REINIT {
        var r := StoreReinit(index);
        outcome := if r.Got? then Continue else Stop(PastBuffer);
        next := if r.Got? then r.next else index;
        if r.Got? {
          ghost var e := ReinitAt(index, bufferRecv).value;
          ObservedEvent(s, h, e);
          trace := trace + [EventEntry(e)];
          done := Step(h, e);
        } else {
          done := h.(outcome := outcome, config := config);
        }
      } else if command == MESSAGE_KEEPALIVE {
        ObservedEvent(s, h, KeepAlive);
        Write(KeepAliveReply);
        outcome, done := Continue, Step(h, KeepAlive);
      } else {
        outcome := Stop(Underflow);
        done := h.(outcome := outcome);
      }
    }

    static lemma ObservedTerm(s: State, h: Handled)
      requires h.terminate == s.terminate
      ensures Observe(s, h.(terminate := true)).trace
           == Observe(s, h).trace + if s.terminate then [] else [TermSeen]
    {
      assert EventTrace(h.events, false) == EventEntries(h.events);
      Associative(s.trace, EventEntries(h.events), [TermSeen]);
      assert Observe(s, h).trace + [] == Observe(s, h).trace;
    }

    static lemma ObservedEvent(s: State, h: Handled, e: Event)
      requires h.terminate == s.terminate
      ensures Observe(s, Step(h, e)).trace == Observe(s, h).trace + [EventEntry(e)]
    {
      var es := h.events;
      assert EventTrace(es, false) == EventEntries(es) && EventTrace(es + [e], false) == EventEntries(es + [e]);
      assert EventEntries(es) + [EventEntry(e)] == EventEntries(es + [e]);
      Associative(s.trace, EventEntries(es), [EventEntry(e)]);
    }

    static lemma ObservedNone(s: State)
      ensures Observe(s, Before(s)) == s
    {
      assert EventTrace([], false) == [] && s.trace + [] == s.trace;
    }

    static lemma ObservedOutcome(s: State, h: Handled, outcome: Outcome)
      ensures Observe(s, h.(outcome := outcome)) == Observe(s, h)
    {
    }

    /** `handle_events` on the receive buffer; a command of 0 is read first. */
    method HandleEvents(external: bool, index: nat, command: nat) returns (outcome: Outcome)
      modifies `config, `terminate, `trace
      ensures var h := if command == 0
                       then Events.HandleEvents(bufferRecv, bufferRecvIndex, external, index, Before(old(View())))
                       else EventLoop(bufferRecv, bufferRecvIndex, external, command, index, Before(old(View())));
              View() == Observe(old(View()), h) && outcome == h.outcome
    {
      hide ReinitAt, Word, Observe, EventEntries;
      ghost var s, h := View(), Before(View());
      ObservedNone(s);
      ObservedOutcome(s, h, Stop(Underflow));
      ObservedOutcome(s, h, Stop(PastBuffer));
      var i: nat, command: nat := index, command;
      if command == 0 {
        if i > bufferRecvIndex {
          return Stop(Underflow);
        }
        match Word(i, bufferRecv) {
          case Past => return Stop(PastBuffer);
          case Got(j, c) => i, command := j, c;
        }
      }
      ghost var all := EventLoop(bufferRecv, bufferRecvIndex, external, command, i, h);
      while true
        invariant View() == Observe(s, h) && h.outcome == Continue && h.terminate == s.terminate
        invariant EventLoop(bufferRecv, bufferRecvIndex, external, command, i, h) == all
        decreases Left(i, bufferRecvIndex)
      {
        outcome, i, h := HandleEvent(external, command, i, s, h);
        if outcome != Continue {
          return;
        }
        ObservedOutcome(s, h, Stop(Underflow));
        ObservedOutcome(s, h, Stop(PastBuffer));
        if i > bufferRecvIndex {
          return Stop(Underflow);
        } else if i == bufferRecvIndex {
          return;
        }
        match Word(i, bufferRecv) {
          case Past => return Stop(PastBuffer);
          case Got(j, c) => i, command := j, c;
        }
      }
    }

    /** The end of a message that answers an internal call. */
    method Complete(index: nat, external: bool) returns (status: Status)
      modifies `config, `terminate, `trace, `bufferRecvIndex
      ensures (View(), status) == Answered(old(View()), index, external)
    {
      if index != bufferRecvIndex {
        if external {
          return AssertionFailed;
        }
        var outcome := HandleEvents(external, index, 0);
        if outcome.Stop? {
          return outcome.status;
        }
      }
      bufferRecvIndex := 0;
      status := Success;
    }

    /** Waiting for a message, reading all of it, and the check that it is not empty. */
    method ReadMessage(timeout: int, external: bool) returns (status: Status, elapsed: nat)
      modifies `inputs, `bufferRecv, `bufferRecvIndex, `spare, `trace
      ensures Receive(old(View()), timeout, external)
           == if status == Success then Dispatch(View(), 0, elapsed, timeout, external) else (View(), status)
      ensures status == Success ==> |inputs| < |old(inputs)|
    {
      hide Dispatch, Again;
      elapsed := 0;
      var input := PollFails;
      if inputs != [] {
        input := inputs[0];
        inputs := inputs[1..];
      }
      trace := trace + [Read(input, external)];
      match input
      case Quiet => status := TimedOut;
      case PollFails => status := PollErrno;
      case ReadFails => status := ReadErrno;
      case NoMemory => status := OutOfMemory;
      case Frame(body, stale, behind, ms) =>
        if |body| > MAX_UINT32 {
          return OutOfMemory, 0;
        }
        bufferRecv, bufferRecvIndex, spare := body + stale, |body|, behind;
        status, elapsed := if bufferRecvIndex == 0 then Underflow else Success, ms;
    }

    /** The end of a round: the budget is charged, and the next message is read. */
    method NextRound(elapsed: nat, timeout: int, external: bool) returns (status: Status, next: nat, left: int)
      modifies `inputs, `bufferRecv, `bufferRecvIndex, `spare, `trace
      ensures Again(old(View()), elapsed, timeout, external)
           == if status == Success then Dispatch(View(), 0, next, left, external) else (View(), status)
      ensures status == Success ==> |inputs| < |old(inputs)|
    {
      hide Receive, Dispatch;
      left, next := timeout, 0;
      if left > 0 {
        left := left - if elapsed < left then elapsed else left;
      }
      if left == 0 {
        return TimedOut, 0, 0;
      }
      status, next := ReadMessage(left, external);
    }

    /** The cases of `poll_request` other than requests; Continue goes on at `next`. */
    method HandleMessage(command: nat, index: nat, ghost elapsed: nat, ghost timeout: int, external: bool)
      returns (outcome: Outcome, next: nat)
      modifies `config, `terminate, `trace, `identity, `response, `bufferRecvIndex
      ensures DispatchEvent(old(View()), command, index, elapsed, timeout, external)
           == if outcome == Continue then DispatchNext(View(), next, elapsed, timeout, external)
              else (View(), outcome.status)
      ensures outcome == Continue ==> bufferRecvIndex == old(bufferRecvIndex) && next >= index
    {
      next := index;
      if command == MESSAGE_TERM {
        outcome := HandleEvents(external, index, command);
        if outcome == Continue {
          outcome := Stop(AssertionFailed);
        }
      } else if command == MESSAGE_REINIT {
        var r := StoreReinit(index);
        outcome := if r.Got? then Continue else Stop(PastBuffer);
        next := if r.Got? then r.next else index;
        if r.Got? {
          trace := trace + [EventEntry(ReinitAt(index, bufferRecv).value)];
        }
      } else if command == MESSAGE_KEEPALIVE {
        Write(KeepAliveReply);
        outcome := Continue;
      } else {
        var status := HandleAnswer(command, index, external);
        outcome := Stop(status);
      }
    }

    /** INIT and the responses; any other command is unknown. */
    method HandleAnswer(command: nat, index: nat, external: bool) returns (status: Status)
      modifies `config, `terminate, `trace, `identity, `response, `bufferRecvIndex
      ensures (View(), status) == DispatchAnswer(old(View()), command, index, external)
    {
      hide InitAt, AnswerAt, InitPart, AnswerPart, Answered;
      var r := Past;
      if command == MESSAGE_INIT {
        r := StoreInit(index);
      } else if command == MESSAGE_RECV_ASYNC || command == MESSAGE_RETURN_SYNC {
        r := StoreResponse(command, index);
      } else if IsResponse(command) {
        r := StoreResult(command, index);
      } else {
        return Underflow;
      }
      if r.Past? {
        return PastBuffer;
      }
      status := Complete(r.next, external);
    }

    /** The fields of INIT, stored one after the other; an exception leaves those that came before it. */
    method StoreInit(index: nat) returns (r: Read<()>)
      modifies `config, `identity, `trace
      ensures match InitAt(index, old(View()))
              case Past => r.Past? && View() == InitPart(index, old(View()))
              case Got(j, t) => r == Got(j, ()) && View() == t
    {
      hide Content, InitEndAt, InitEndPart, Word;
      var m := bufferRecv;
      var i := Word(index, m);
      if i.Past? { return Past; }
      identity := identity.(processIndex := i.value);
      var count := Word(i.next, m);
      if count.Past? { return Past; }
      config := config.(processCount := count.value);
      var countMax := Word(count.next, m);
      if countMax.Past? { return Past; }
      identity := identity.(processCountMax := countMax.value);
      var countMin := Word(countMax.next, m);
      if countMin.Past? { return Past; }
      identity := identity.(processCountMin := countMin.value);
      var prefix := SpanAt(countMin.next, m);
      if prefix.Past? || prefix.next + prefix.value.size > |m| { return Past; }
      identity := identity.(prefix := Content(m, prefix.value));
      r := StoreInitEnd(prefix.next + prefix.value.size);
      if r.Got? {
        trace := trace + [Configured(config.requestTimeoutAdjustment != 0, false)];
      }
    }

    /** The fields of INIT behind the prefix. */
    method StoreInitEnd(index: nat) returns (r: Read<()>)
      modifies `config, `identity
      ensures match InitEndAt(index, bufferRecv)
              case Past => r.Past? && View() == InitEndPart(index, old(View()))
              case Got(j, e) =>
                && r == Got(j, ())
                && identity == old(identity).(timeoutInitialize := e.initialize, timeoutTerminate := e.terminate)
                && config == old(config).(timeoutAsync := e.async, timeoutSync := e.sync,
                                          priorityDefault := Int8(e.priority),
                                          requestTimeoutAdjustment := e.adjustment)
    {
      hide Word, Octet;
      var m := bufferRecv;
      var initialize := Word(index, m);
      if initialize.Past? { return Past; }
      identity := identity.(timeoutInitialize := initialize.value);
      var async := Word(initialize.next, m);
      if async.Past? { return Past; }
      config := config.(timeoutAsync := async.value);
      var sync := Word(async.next, m);
      if sync.Past? { return Past; }
      config := config.(timeoutSync := sync.value);
      var end := Word(sync.next, m);
      if end.Past? { return Past; }
      identity := identity.(timeoutTerminate := end.value);
      var priority := Octet(end.next, m);
      if priority.Past? { return Past; }
      config := config.(priorityDefault := Int8(priority.value));
      var adjustment := Octet(priority.next, m);
      if adjustment.Past? { return Past; }
      config := config.(requestTimeoutAdjustment := adjustment.value);
      r := Got(adjustment.next, ());
    }

    /** RECV_ASYNC and RETURN_SYNC: pointers into the receive buffer, each behind its size, and one trans_id. */
    method StoreResponse(command: nat, index: nat) returns (r: Read<()>)
      requires command == MESSAGE_RECV_ASYNC || command == MESSAGE_RETURN_SYNC
      modifies `response
      ensures match AnswerAt(command, index, old(View()))
              case Past => r.Past? && View() == AnswerPart(command, index, old(View()))
              case Got(j, t) => r == Got(j, ()) && View() == t
    {
      hide Word;
      var m := bufferRecv;
      var size := Word(index, m);
      if size.Past? { return Past; }
      if size.next >= |m| {
        response := response.(info := response.info.(size := size.value));
        return Past;
      }
      response := response.(info := Span(size.next, size.value));
      var i := Advance(size.next, size.value + 1);
      var bodySize := Word(i, m);
      ghost var after := if bodySize.Got? then Advance(bodySize.next, bodySize.value + 1) else 0;
      TwoSpans(index, m, SpanAt(index, m), SpanAt(i, m), after);
      if bodySize.Past? { return Past; }
      if bodySize.next >= |m| {
        response := response.(body := response.body.(size := bodySize.value));
        return Past;
      }
      response := response.(body := Span(bodySize.next, bodySize.value), transIdCount := 1);
      i := Advance(bodySize.next, bodySize.value + 1);
      if i >= |m| { return Past; }
      response := response.(transIds := Span(i, TRANS_ID_SIZE));
      r := Got(Advance(i, TRANS_ID_SIZE), ());
    }

    static lemma TwoSpans(index: nat, m: bytes, info: Read<Span>, body: Read<Span>, i: nat)
      requires info == SpanAt(index, m) && info.Got?
      requires body == SpanAt(Advance(info.next, info.value.size + 1), m)
      requires body.Got? ==> i == Advance(body.next, body.value.size + 1)
      ensures SpansAt(index, m, RESPONSE_PADDING)
           == if body.Got? then Got(i, [info.value, body.value]) else Past
    {
      var pads: seq<nat> := [1, 1];
      var one: seq<nat> := [1];
      assert pads[1..] == one && |one[1..]| == 0;
      var j := Advance(info.next, info.value.size + 1);
      if body.Got? {
        assert SpansAt(j, m, one) == Got(i, [body.value] + []);
        assert [info.value] + ([body.value] + []) == [info.value, body.value];
      } else {
        assert SpansAt(j, m, one).Past?;
      }
    }

    /** RETURN_ASYNC, RETURNS_ASYNC and SUBSCRIBE_COUNT. */
    method StoreResult(command: nat, index: nat) returns (r: Read<()>)
      requires IsResponse(command) && command != MESSAGE_RECV_ASYNC && command != MESSAGE_RETURN_SYNC
      modifies `response
      ensures match AnswerAt(command, index, old(View()))
              case Past => r.Past? && View() == AnswerPart(command, index, old(View()))
              case Got(j, t) => r == Got(j, ()) && View() == t
    {
      var m := bufferRecv;
      if command == MESSAGE_RETURN_ASYNC {
        response := response.(transIdCount := 1);
        if index >= |m| { return Past; }
        response := response.(transIds := Span(index, TRANS_ID_SIZE));
        r := Got(Advance(index, TRANS_ID_SIZE), ());
      } else if command == MESSAGE_RETURNS_ASYNC {
        var count := Word(index, m);
        if count.Past? { return Past; }
        response := response.(transIdCount := count.value);
        if count.next >= |m| { return Past; }
        var size := Advance(0, TRANS_ID_SIZE * count.value);
        response := response.(transIds := Span(count.next, size));
        r := Got(Advance(count.next, size), ());
      } else {
        var count := Word(index, m);
        if count.Past? { return Past; }
        response := response.(subscribeCount := count.value);
        r := Got(count.next, ());
      }
    }

    /** SEND_ASYNC and SEND_SYNC. */
    method HandleRequest(async: bool, index: nat, ghost elapsed: nat, ghost timeout: int, external: bool)
      returns (outcome: Outcome)
      modifies this
      ensures DispatchSend(old(View()), async, index, elapsed, timeout, external)
           == if outcome == Continue then Again(View(), elapsed, timeout, external) else (View(), outcome.status)
      ensures |inputs| <= |old(inputs)|
      decreases |inputs|, 8
    {
      hide LayoutAt, SpansAt, DispatchRequest, Again;
      bufferCall := bufferRecv + if |bufferRecv| < |bufferCall| then bufferCall[|bufferRecv|..] else spare;
      trace := trace + [Overwrote];
      match LayoutAt(index, bufferCall)
      case Past => outcome := Stop(PastBuffer);
      case Got(j, l) => outcome := DeliverRequest(async, l, j, elapsed, timeout, external);
    }

    /** The events behind a request, and its callback. */
    method DeliverRequest(
      async: bool, l: Layout, index: nat, ghost elapsed: nat, ghost timeout: int, external: bool)
      returns (outcome: Outcome)
      modifies this
      ensures DispatchRequest(old(View()), async, l, index, elapsed, timeout, external)
           == if outcome == Continue then Again(View(), elapsed, timeout, external) else (View(), outcome.status)
      ensures |inputs| <= |old(inputs)|
      decreases |inputs|, 8, 0
    {
      hide Again, Observe, Events.HandleEvents, Protocol.Callback;
      if index != bufferRecvIndex {
        if !external {
          trace := trace + [Refused];
          return Stop(AssertionFailed);
        }
        outcome := HandleEvents(external, index, 0);
        if outcome.Stop? {
          return;
        }
      }
      bufferRecvIndex := 0;
      var ok := Callback(async, l);
      outcome := if ok then Continue else Stop(AssertionFailed);
    }

    /** `lookup.find`: the front of the pattern's queue is called and becomes the last. */
    method Find(pattern: bytes) returns (callee: Callee)
      modifies `lookup
      ensures var queue := QueueOf(old(lookup), pattern);
              && callee == (if queue == [] then NullResponse else Registered(queue[0]))
              && lookup == Rebind(old(lookup), pattern, Lookup.After(queue, Lookup.Find))
    {
      if pattern !in lookup || lookup[pattern] == [] {
        lookup := lookup - {pattern};
        return NullResponse;
      }
      var queue := lookup[pattern];
      callee := Registered(queue[0]);
      lookup := lookup[pattern := queue[1..] + [queue[0]]];
    }

    /** `callback`: false when an assertion failed. */
    method Callback(async: bool, l: Layout) returns (ok: bool)
      modifies this
      ensures (View(), ok) == Protocol.Callback(old(View()), async, l)
      decreases |inputs|, 7, 1
    {
      hide PatternAt, EnvelopeOf, Act, Protocol.Conclude, Rebind;
      if config.requestTimeoutAdjustment != 0 {
        config := config.(requestTimeout := l.timeout);
      }
      var pattern := PatternAt(bufferCall, l);
      var callee := Find(pattern);
      var handler := Handler([], Finish, 0);
      if callee.Registered? && handlers != [] {
        handler := handlers[0];
        handlers := handlers[1..];
      }
      trace := trace + [Called(async, EnvelopeOf(bufferCall, l), pattern, l.timeout, callee)];
      assert View() == Begun(old(View()), async, l);
      ok := RunActions(handler.actions);
      ok := Conclude(async, l, if ok then handler.ending else Exception, handler.elapsed);
    }

    /** The calls of a callback, one after the other. */
    method RunActions(actions: seq<Action>) returns (ok: bool)
      modifies this
      ensures (View(), ok) == Act(old(View()), actions)
      decreases |inputs|, 7, 0
    {
      hide Poll, Perform;
      var k := 0;
      while k < |actions|
        invariant k <= |actions| && |inputs| <= |old(inputs)|
        invariant Act(old(View()), actions) == Act(View(), actions[k..])
      {
        if actions[k].Exchange? {
          Write(Ask(actions[k].id));
          var status := PollRequest(-1, false);
          if Throws(status) {
            return false;
          }
        } else {
          RunAction(actions[k]);
        }
        k := k + 1;
      }
      ok := true;
    }

    /** A message, `cloudi_subscribe`, or `cloudi_unsubscribe`. */
    method RunAction(action: Action)
      requires !action.Exchange?
      modifies `lookup, `trace
      ensures View() == Perform(old(View()), action)
    {
      match action
      case Notify(id) =>
        Write(Tell(id));
      case Subscribe(name, f) =>
        var pattern := CString(identity.prefix) + CString(name);
        var queue := if pattern in lookup then lookup[pattern] + [f] else [f];
        assert queue == QueueOf(lookup, pattern) + [f];
        lookup := lookup[pattern := queue];
        trace := trace + [Subscribed(pattern, f)];
        Write(Subscribing);
      case Unsubscribe(name) =>
        var pattern := CString(identity.prefix) + CString(name);
        if pattern in lookup && lookup[pattern] != [] {
          var queue := lookup[pattern][1..];
          lookup := if queue == [] then lookup - {pattern} else lookup[pattern := queue];
          trace := trace + [Unsubscribed(pattern)];
          Write(Unsubscribing);
        }
    }

    /** `cloudi_return_` and `cloudi_forward_`; true when the exception of success is thrown. */
    method Answer(forward: bool, async: bool, l: Layout, elapsed: nat) returns (thrown: bool)
      modifies `trace
      ensures (View(), if thrown then Sent(async) else Other) == SendReply(old(View()), forward, async, l, elapsed)
    {
      if !PidDecodes(bufferCall, l) {
        return false;
      }
      var timeout, dropped := l.timeout, false;
      if config.requestTimeoutAdjustment != 0 && timeout == config.requestTimeout {
        if elapsed > timeout {
          timeout, dropped := 0, !forward;
        } else {
          timeout := timeout - elapsed;
        }
      }
      Write(Reply(forward, async, EnvelopeOf(bufferCall, l), timeout, dropped));
      thrown := true;
    }

    /** The end of the handler and of `callback`: its own answer, and the empty return behind it. */
    method Conclude(async: bool, l: Layout, ending: Ending, elapsed: nat) returns (ok: bool)
      modifies `trace
      ensures (View(), ok) == Protocol.Conclude(old(View()), async, l, ending, elapsed)
    {
      hide ReplyOf, EnvelopeOf, PidDecodes;
      if ending.Answer? {
        var thrown := Answer(ending.forward, ending.async, WithDeadline(l, ending.deadline), elapsed);
        if thrown {
          if ending.async != async {
            trace := trace + [Aborted];
          }
          return ending.async == async;
        }
      }
      ok := Answer(false, async, l, elapsed);
      if !ok {
        trace := trace + [Aborted];
      }
    }

    /** One turn of the loop of `poll_request`: Continue goes on at `next`, or with a new round if it is 0. */
    method HandleCommand(index: nat, ghost elapsed: nat, ghost timeout: int, external: bool)
      returns (outcome: Outcome, next: nat)
      requires index <= bufferRecvIndex
      modifies this
      ensures outcome == Continue && next > 0 ==> index < next <= bufferRecvIndex == old(bufferRecvIndex)
      ensures Dispatch(old(View()), index, elapsed, timeout, external)
           == if outcome.Stop? then (View(), outcome.status)
              else if next > 0 then Dispatch(View(), next, elapsed, timeout, external)
              else Again(View(), elapsed, timeout, external)
      ensures |inputs| <= |old(inputs)|
      decreases |inputs|, 9
    {
      next := 0;
      var i: nat, command: nat := 0, 0;
      match Word(index, bufferRecv) {
        case Past => return Stop(PastBuffer), 0;
        case Got(j, c) => i, command := j, c;
      }
      if command == MESSAGE_SEND_ASYNC || command == MESSAGE_SEND_SYNC {
        outcome := HandleRequest(command == MESSAGE_SEND_ASYNC, i, elapsed, timeout, external);
      } else {
        outcome, next := HandleMessage(command, i, elapsed, timeout, external);
        if outcome == Continue && next > bufferRecvIndex {
          outcome := Stop(Underflow);
        } else if outcome == Continue && next == bufferRecvIndex {
          bufferRecvIndex, next := 0, 0;
        }
      }
    }

    /** `poll_request`. */
    method PollRequest(timeout: int, external: bool) returns (status: Status)
      modifies this
      ensures (View(), status) == Poll(old(View()), timeout, external)
      decreases |inputs|, 5
    {
      hide Dispatch, Word;
      if terminate {
        return Success;
      } else if external && !initializationComplete {
        Write(Polling);
        initializationComplete := true;
      }
      var elapsed: nat, left := 0, timeout;
      status, elapsed := ReadMessage(left, external);
      if status != Success {
        return;
      }
      var index: nat := 0;
      while true
        invariant index <= bufferRecvIndex && |inputs| < |old(inputs)|
        invariant Dispatch(View(), index, elapsed, left, external) == Poll(old(View()), timeout, external)
        decreases |inputs|, Left(index, bufferRecvIndex)
      {
        var outcome, next := HandleCommand(index, elapsed, left, external);
        if outcome.Stop? {
          return outcome.status;
        } else if next > 0 {
          index := next;
          continue;
        }
        status, elapsed, left := NextRound(elapsed, left, external);
        if status != Success {
          return;
        }
        index := 0;
      }
    }

    /**
     * `cloudi_poll`. Whatever arrives, its trace is accepted, no request is left open or owed, and
     * the callbacks of every pattern are called in turn.
     */
    method PollExternal(timeout: int) returns (status: Status)
      requires AtRest(View())
      modifies this
      ensures (View(), status) == Poll(old(View()), timeout, true)
      ensures AtRest(View()) && old(trace) <= trace && (old(terminate) ==> terminate)
    {
      hide Poll, AtRest;
      ghost var s := View();
      status := PollRequest(timeout, true);
      ExecuteKeeps(s, PollFor(timeout));
    }

    /** The end of `cloudi_initialize`: `init`, then internal polls until one does not time out. */
    method Initialize() returns (status: Status)
      requires AtRest(View())
      modifies this
      ensures (View(), status) == AwaitInit(Writes(old(View()), Ask(INIT_ID)))
      ensures AtRest(View())
    {
      hide Poll, AtRest;
      ghost var before := View();
      Write(Ask(INIT_ID));
      ghost var s := View();
      status := PollRequest(1000, false);
      while status == TimedOut
        invariant AwaitInit(s) == if status == TimedOut then AwaitInit(View()) else (View(), status)
        decreases |inputs|, if status == TimedOut then 1 else 0
      {
        status := PollRequest(1000, false);
      }
      ExecuteKeeps(before, Call.Initialize);
    }
  }
}
