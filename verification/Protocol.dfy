/**
 * The instance of src/api/c/cloudi.cpp as a state machine: `poll_request`, `callback`, and the calls
 * that a callback makes. Each function returns the new state.
 */
module Protocol {
  import opened Bytes
  import opened Bignum
  import opened Events
  import opened Timeouts
  import Lookup

  // Pointers into a buffer

  /** A pointer and a length that was read in front of what it points to. */
  datatype Span = Span(at: nat, size: nat)

  /** An index is a uint32_t. */
  function Advance(i: nat, n: nat): (j: nat)
    ensures j <= MAX_UINT32
  {
    (i + n) % 0x1_0000_0000
  }

  /** A size by `store_incoming_uint32`, then `&buffer[index]`. */
  function SpanAt(i: nat, m: bytes): (r: Read<Span>)
    ensures r.Got? ==> r.next == r.value.at == i + 4 < |m|
  {
    var (i, size) :- Word(i, m);
    if i < |m| then Got(i, Span(i, size)) else Past
  }

  /** The bytes that a span covers. */
  function Content(m: bytes, s: Span): bytes {
    if s.at >= |m| then [] else if s.at + s.size <= |m| then m[s.at..s.at + s.size] else m[s.at..]
  }

  /** The pointers that are handed to a callback. */
  datatype Layout = Layout(
    name: Span,
    pattern: Span,
    requestInfo: Span,
    request: Span,
    timeout: nat,
    priority: byte,
    transId: Span,
    pid: Span)

  const TRANS_ID_SIZE := 16

  /** Sized fields one after the other; each is followed by as many more bytes as `extras` says. */
  function SpansAt(i: nat, m: bytes, extras: seq<nat>): (r: Read<seq<Span>>)
    ensures r.Got? ==> |r.value| == |extras|
    decreases |extras|
  {
    if extras == [] then Got(i, [])
    else
      var (i, span) :- SpanAt(i, m);
      var (i, spans) :- SpansAt(Advance(i, span.size + extras[0]), m, extras[1..]);
      Got(i, [span] + spans)
  }

  /** Name and pattern carry their NUL in their size; a binary is followed by one more byte. */
  const REQUEST_PADDING: seq<nat> := [0, 0, 1, 1]
  const RESPONSE_PADDING: seq<nat> := [1, 1]
  const PID_PADDING: seq<nat> := [0]

  /** The fields of SEND_ASYNC and SEND_SYNC behind the command. */
  function LayoutAt(i: nat, m: bytes): Read<Layout> {
    var (i, f) :- SpansAt(i, m, REQUEST_PADDING);
    LayoutEnd(f, i, m)
  }

  function LayoutEnd(f: seq<Span>, i: nat, m: bytes): Read<Layout>
    requires |f| == 4
  {
    var (i, timeout) :- Word(i, m);
    var (i, priority) :- Octet(i, m);
    if i >= |m| then Past
    else
      var transId := Span(i, TRANS_ID_SIZE);
      var (i, pid) :- SpansAt(Advance(i, TRANS_ID_SIZE), m, PID_PADDING);
      Got(i, Layout(f[0], f[1], f[2], f[3], timeout, priority, transId, pid[0]))
  }

  // The state

  /** What the reply to a request must name: where it was sent to and where it came from. */
  datatype Envelope = Envelope(name: bytes, pattern: bytes, transId: bytes, pid: bytes)

  function EnvelopeOf(m: bytes, l: Layout): Envelope {
    Envelope(Content(m, l.name), Content(m, l.pattern), Content(m, l.transId), Content(m, l.pid))
  }

  /**
   * Messages to the service. `origin` is what the pointers of the callback point to when the reply is
   * written; `dropped` says that the response was emptied because the time was over.
   */
  datatype Message =
    | Polling
    | KeepAliveReply
    | Ask(id: nat)
    | Tell(id: nat)
    | Subscribing
    | Unsubscribing
    | Reply(forward: bool, async: bool, origin: Envelope, timeout: nat, dropped: bool)

  /**
   * What poll(2) and `read_all` yield next. A frame comes with the stale bytes behind it in the
   * buffer, the bytes that lie behind its copy if the call buffer has to grow for it, and the
   * milliseconds that have passed when its round is over.
   */
  datatype Input =
    | Quiet
    | PollFails
    | ReadFails
    | NoMemory
    | Frame(body: bytes, stale: bytes, spare: bytes, elapsed: nat)

  /**
   * A call inside a callback: one that waits for its response, one that only writes, or a change of
   * the callbacks of a pattern.
   */
  datatype Action =
    | Exchange(id: nat)
    | Notify(id: nat)
    | Subscribe(name: bytes, callback: nat)
    | Unsubscribe(name: bytes)

  /** The timeout that a handler passes on: the one it was given, or one of its own. */
  datatype Deadline = Given | Own(timeout: nat)

  /** How a callback ends: a return or forward call, a plain end, or an exception of its own. */
  datatype Ending = Answer(forward: bool, async: bool, deadline: Deadline) | Finish | Exception

  datatype Handler = Handler(actions: seq<Action>, ending: Ending, elapsed: nat)

  /** What the lookup of a pattern returned. */
  datatype Callee = NullResponse | Registered(callback: nat)

  /**
   * The trace of a run: what was read by an external or internal poll, what was written, when the
   * call buffer was overwritten, which request was handed to which callback, which callback ended in
   * a failed assertion, which request was refused by one, when the terminate flag was set, and when
   * REINIT or INIT said whether timeouts are adjusted, and whether that cleared the request timeout.
   */
  datatype Entry =
    | Read(input: Input, external: bool)
    | Wrote(message: Message)
    | Overwrote
    | Called(async: bool, origin: Envelope, pattern: bytes, timeout: nat, callee: Callee)
    | Aborted
    | Refused
    | TermSeen
    | Subscribed(pattern: bytes, callback: nat)
    | Unsubscribed(pattern: bytes)
    | Configured(adjusts: bool, clears: bool)

  datatype Identity = Identity(
    processIndex: nat,
    processCountMax: nat,
    processCountMin: nat,
    prefix: bytes,
    timeoutInitialize: nat,
    timeoutTerminate: nat)

  datatype Response = Response(info: Span, body: Span, transIds: Span, transIdCount: nat, subscribeCount: nat)

  /** The fields of the instance, what the environment will do next, and the trace so far. */
  datatype State = State(
    terminate: bool,
    initialized: bool,
    recv: bytes,
    recvIndex: nat,
    spare: bytes,
    call: bytes,
    config: Config,
    identity: Identity,
    response: Response,
    lookup: map<bytes, seq<nat>>,
    inputs: seq<Input>,
    handlers: seq<Handler>,
    trace: seq<Entry>)

  /** `buffer_call.copy(buffer_recv)`: all of the receive buffer, over the front of the call buffer. */
  function Overlay(recv: bytes, call: bytes, spare: bytes): bytes {
    recv + if |recv| < |call| then call[|recv|..] else spare
  }

  function Writes(s: State, m: Message): State {
    s.(trace := s.trace + [Wrote(m)])
  }

  /** A KEEPALIVE is answered; a REINIT clears the request timeout when it turns the adjustment on. */
  function EventEntry(e: Event): Entry {
    match e
    case KeepAlive => Wrote(KeepAliveReply)
    case Reinit(_, _, _, _, adjustment) => Configured(adjustment != 0, adjustment != 0)
  }

  function EventEntries(es: seq<Event>): seq<Entry> {
    seq(|es|, k requires 0 <= k < |es| => EventEntry(es[k]))
  }

  /** The entries of some events, and the end of the run if there was a TERM. */
  function EventTrace(es: seq<Event>, terminates: bool): seq<Entry> {
    EventEntries(es) + if terminates then [TermSeen] else []
  }

  function Observe(s: State, h: Handled): State {
    s.(config := h.config, terminate := h.terminate,
       trace := s.trace + EventTrace(h.events, h.terminate && !s.terminate))
  }

  /** One event in front of a message. */
  function Handles(s: State, e: Event): State {
    s.(config := Apply(s.config, e), trace := s.trace + [EventEntry(e)])
  }

  function Before(s: State): Handled {
    Handled(Continue, s.config, [], s.terminate)
  }

  /** `handle_events` on the receive buffer from index i on, if there is anything behind i. */
  function Tail(s: State, i: nat, external: bool): (r: (State, Outcome))
    ensures r.0.inputs == s.inputs
  {
    if i == s.recvIndex then (s, Continue)
    else
      var h := HandleEvents(s.recv, s.recvIndex, external, i, Before(s));
      (Observe(s, h), h.outcome)
  }

  /** The end of a message that answers an internal call; events may follow it only then. */
  function Answered(s: State, i: nat, external: bool): (r: (State, Status))
    ensures r.0.inputs == s.inputs
  {
    if i != s.recvIndex && external then (s, AssertionFailed)
    else
      match Tail(s, i, external)
      case (t, Continue) => (t.(recvIndex := 0), Success)
      case (t, Stop(status)) => (t, status)
  }

  // poll_request

  /** `poll_request`; an external poll announces itself once. */
  function Poll(s: State, timeout: int, external: bool): (r: (State, Status))
    ensures |r.0.inputs| <= |s.inputs|
    ensures r.1 == TimedOut ==> |r.0.inputs| < |s.inputs|
    decreases |s.inputs|, 5
  {
    if s.terminate then (s, Success)
    else if external && !s.initialized then
      Receive(Writes(s, Polling).(initialized := true), timeout, external)
    else Receive(s, timeout, external)
  }

  /** Wait for the next message and read it. */
  function Receive(s: State, timeout: int, external: bool): (r: (State, Status))
    ensures |r.0.inputs| <= |s.inputs|
    ensures r.1 == TimedOut ==> |r.0.inputs| < |s.inputs|
    decreases |s.inputs|, 4
  {
    var input := if s.inputs == [] then PollFails else s.inputs[0];
    var s := s.(inputs := if s.inputs == [] then [] else s.inputs[1..], trace := s.trace + [Read(input, external)]);
    match input
    case Quiet => (s, TimedOut)
    case PollFails => (s, PollErrno)
    case ReadFails => (s, ReadErrno)
    case NoMemory => (s, OutOfMemory)
    case Frame(body, stale, spare, elapsed) =>
      if |body| > MAX_UINT32 then (s, OutOfMemory)
      else
        var s := s.(recv := body + stale, recvIndex := |body|, spare := spare);
        if body == [] then (s, Underflow)
        else Dispatch(s, 0, elapsed, timeout, external)
  }

  /** The rest of the budget, and the next round. */
  function Again(s: State, elapsed: nat, timeout: int, external: bool): (r: (State, Status))
    ensures |r.0.inputs| <= |s.inputs|
    decreases |s.inputs|, 6
  {
    var timeout := if timeout > 0 then Charge(timeout, elapsed) else timeout;
    if timeout == 0 then (s, TimedOut) else Receive(s, timeout, external)
  }

  /** The switch of `poll_request`. */
  function Dispatch(s: State, i: nat, elapsed: nat, timeout: int, external: bool): (r: (State, Status))
    requires i <= s.recvIndex
    ensures |r.0.inputs| <= |s.inputs|
    decreases |s.inputs|, 9, Left(i, s.recvIndex), 0
  {
    match Word(i, s.recv)
    case Past => (s, PastBuffer)
    case Got(j, command) =>
      if command == MESSAGE_SEND_ASYNC || command == MESSAGE_SEND_SYNC then
        DispatchSend(s, command == MESSAGE_SEND_ASYNC, j, elapsed, timeout, external)
      else
        DispatchEvent(s, command, j, elapsed, timeout, external)
  }

  /** TERM, REINIT and KEEPALIVE in front of a message, and the other messages. */
  function DispatchEvent(s: State, command: nat, i: nat, elapsed: nat, timeout: int, external: bool)
    : (r: (State, Status))
    ensures |r.0.inputs| <= |s.inputs|
    decreases |s.inputs|, 9, Left(i, s.recvIndex), 2
  {
    if command == MESSAGE_TERM then
      var h := EventLoop(s.recv, s.recvIndex, external, command, i, Before(s));
      (Observe(s, h), if h.outcome.Stop? then h.outcome.status else AssertionFailed)
    else if command == MESSAGE_REINIT then
      match ReinitAt(i, s.recv)
      case Past => (s.(config := ReinitPart(i, s.recv, s.config)), PastBuffer)
      case Got(k, e) => DispatchNext(Handles(s, e), k, elapsed, timeout, external)
    else if command == MESSAGE_KEEPALIVE then
      DispatchNext(Handles(s, KeepAlive), i, elapsed, timeout, external)
    else
      DispatchAnswer(s, command, i, external)
  }

  /** Behind a leading REINIT or KEEPALIVE: the next round, or what follows in the same message. */
  function DispatchNext(s: State, i: nat, elapsed: nat, timeout: int, external: bool): (r: (State, Status))
    ensures |r.0.inputs| <= |s.inputs|
    decreases |s.inputs|, 9, Left(i, s.recvIndex), 1
  {
    if i == s.recvIndex then Again(s.(recvIndex := 0), elapsed, timeout, external)
    else if i < s.recvIndex then Dispatch(s, i, elapsed, timeout, external)
    else (s, Underflow)
  }

  /** The messages that end the poll. */
  function DispatchAnswer(s: State, command: nat, i: nat, external: bool): (r: (State, Status))
    ensures r.0.inputs == s.inputs
  {
    if command == MESSAGE_INIT || IsResponse(command) then
      match if command == MESSAGE_INIT then InitAt(i, s) else AnswerAt(command, i, s)
      case Past => (if command == MESSAGE_INIT then InitPart(i, s) else AnswerPart(command, i, s), PastBuffer)
      case Got(j, t) => Answered(t, j, external)
    else (s, Underflow)
  }

  predicate IsResponse(command: nat) {
    || command == MESSAGE_RECV_ASYNC || command == MESSAGE_RETURN_SYNC || command == MESSAGE_RETURN_ASYNC
    || command == MESSAGE_RETURNS_ASYNC || command == MESSAGE_SUBSCRIBE_COUNT
  }

  /** The responses to internal calls leave pointers into the receive buffer. */
  function AnswerAt(command: nat, i: nat, s: State): (r: Read<State>)
    requires IsResponse(command)
    ensures r.Got? ==> r.value == s.(response := r.value.response)
  {
    var p := s.response;
    if command == MESSAGE_RECV_ASYNC || command == MESSAGE_RETURN_SYNC then
      var (i, r) :- ResponseAt(i, s.recv);
      Got(i, s.(response := Response(r.0, r.1, r.2, 1, p.subscribeCount)))
    else if command == MESSAGE_RETURN_ASYNC then
      if i >= |s.recv| then Past
      else
        Got(Advance(i, TRANS_ID_SIZE),
            s.(response := p.(transIds := Span(i, TRANS_ID_SIZE), transIdCount := 1)))
    else if command == MESSAGE_RETURNS_ASYNC then
      var (i, count) :- SpanAt(i, s.recv);
      var size := Advance(0, TRANS_ID_SIZE * count.size);
      Got(Advance(i, size), s.(response := p.(transIds := Span(i, size), transIdCount := count.size)))
    else
      var (i, count) :- Word(i, s.recv);
      Got(i, s.(response := p.(subscribeCount := count)))
  }

  /**
   * What a response has stored when the buffer ends inside it: a size comes before its pointer, and
   * the count of the trans_ids before theirs.
   */
  function AnswerPart(command: nat, i: nat, s: State): (t: State)
    requires IsResponse(command)
    ensures t == s.(response := t.response)
  {
    var r := s.response;
    if command == MESSAGE_RECV_ASYNC || command == MESSAGE_RETURN_SYNC then
      s.(response := ResponsePart(i, s.recv, r))
    else if command == MESSAGE_RETURN_ASYNC then
      s.(response := r.(transIdCount := 1))
    else if command == MESSAGE_RETURNS_ASYNC then
      match Word(i, s.recv)
      case Past => s
      case Got(_, count) => s.(response := r.(transIdCount := count))
    else
      s
  }

  function ResponsePart(i: nat, m: bytes, r: Response): Response {
    match Word(i, m)
    case Past => r
    case Got(i, size) =>
      if i >= |m| then r.(info := r.info.(size := size))
      else
        var r := r.(info := Span(i, size));
        var i := Advance(i, size + 1);
        match Word(i, m)
        case Past => r
        case Got(i, size) =>
          if i >= |m| then r.(body := r.body.(size := size)) else r.(body := Span(i, size), transIdCount := 1)
  }

  function ResponseAt(i: nat, m: bytes): Read<(Span, Span, Span)> {
    var (i, f) :- SpansAt(i, m, RESPONSE_PADDING);
    if i < |m| then Got(Advance(i, TRANS_ID_SIZE), (f[0], f[1], Span(i, TRANS_ID_SIZE))) else Past
  }

  /** The fields of INIT behind the prefix. */
  datatype InitEnd = InitEnd(initialize: nat, async: nat, sync: nat, terminate: nat, priority: byte, adjustment: byte)

  function InitEndAt(i: nat, m: bytes): Read<InitEnd> {
    var (i, initialize) :- Word(i, m);
    var (i, async) :- Word(i, m);
    var (i, sync) :- Word(i, m);
    var (i, terminate) :- Word(i, m);
    var (i, priority) :- Octet(i, m);
    var (i, adjustment) :- Octet(i, m);
    Got(i, InitEnd(initialize, async, sync, terminate, priority, adjustment))
  }

  /** The fields of INIT. */
  function InitAt(i: nat, s: State): (r: Read<State>)
    ensures r.Got? ==> r.value == s.(identity := r.value.identity, config := r.value.config, trace := r.value.trace)
  {
    var m := s.recv;
    var (i, processIndex) :- Word(i, m);
    var (i, processCount) :- Word(i, m);
    var (i, countMax) :- Word(i, m);
    var (i, countMin) :- Word(i, m);
    var (i, prefix) :- SpanAt(i, m);
    if i + prefix.size > |m| then Past
    else
      var (i, e) :- InitEndAt(i + prefix.size, m);
      var identity := Identity(processIndex, countMax, countMin, Content(m, prefix), e.initialize, e.terminate);
      var config :=
        Config(processCount, e.async, e.sync, Int8(e.priority), e.adjustment, s.config.requestTimeout);
      Got(i, s.(identity := identity, config := config, trace := s.trace + [Configured(e.adjustment != 0, false)]))
  }

  /** The fields that INIT has stored when the buffer ends inside it. */
  function InitPart(i: nat, s: State): (t: State)
    ensures t == s.(identity := t.identity, config := t.config)
    ensures t.config.requestTimeoutAdjustment == s.config.requestTimeoutAdjustment
    ensures t.config.requestTimeout == s.config.requestTimeout
  {
    var m := s.recv;
    match Word(i, m)
    case Past => s
    case Got(i, processIndex) =>
      var s := s.(identity := s.identity.(processIndex := processIndex));
      match Word(i, m)
      case Past => s
      case Got(i, processCount) =>
        var s := s.(config := s.config.(processCount := processCount));
        match Word(i, m)
        case Past => s
        case Got(i, countMax) =>
          var s := s.(identity := s.identity.(processCountMax := countMax));
          match Word(i, m)
          case Past => s
          case Got(i, countMin) =>
            var s := s.(identity := s.identity.(processCountMin := countMin));
            match SpanAt(i, m)
            case Past => s
            case Got(i, prefix) =>
              if i + prefix.size > |m| then s
              else InitEndPart(i + prefix.size, s.(identity := s.identity.(prefix := Content(m, prefix))))
  }

  function InitEndPart(i: nat, s: State): (t: State)
    ensures t == s.(identity := t.identity, config := t.config)
    ensures t.config.requestTimeoutAdjustment == s.config.requestTimeoutAdjustment
    ensures t.config.requestTimeout == s.config.requestTimeout
  {
    var m := s.recv;
    match Word(i, m)
    case Past => s
    case Got(i, initialize) =>
      var s := s.(identity := s.identity.(timeoutInitialize := initialize));
      match Word(i, m)
      case Past => s
      case Got(i, async) =>
        var s := s.(config := s.config.(timeoutAsync := async));
        match Word(i, m)
        case Past => s
        case Got(i, sync) =>
          var s := s.(config := s.config.(timeoutSync := sync));
          match Word(i, m)
          case Past => s
          case Got(i, terminate) =>
            var s := s.(identity := s.identity.(timeoutTerminate := terminate));
            match Octet(i, m)
            case Past => s
            case Got(_, priority) => s.(config := s.config.(priorityDefault := Int8(priority)))
  }

  /** SEND_ASYNC and SEND_SYNC: copied to the call buffer, taken apart there, and handed to a callback. */
  function DispatchSend(s: State, async: bool, i: nat, elapsed: nat, timeout: int, external: bool): (r: (State, Status))
    ensures |r.0.inputs| <= |s.inputs|
    decreases |s.inputs|, 8, 2
  {
    var s := Copied(s);
    DispatchParsed(s, async, LayoutAt(i, s.call), elapsed, timeout, external)
  }

  /** The message is now in the call buffer too; if a callback is running, its pointers point there. */
  function Copied(s: State): State {
    s.(call := Overlay(s.recv, s.call, s.spare), trace := s.trace + [Overwrote])
  }

  function DispatchParsed(s: State, async: bool, layout: Read<Layout>, elapsed: nat, timeout: int, external: bool)
    : (r: (State, Status))
    ensures |r.0.inputs| <= |s.inputs|
    decreases |s.inputs|, 8, 1
  {
    match layout
    case Past => (s, PastBuffer)
    case Got(j, l) => DispatchRequest(s, async, l, j, elapsed, timeout, external)
  }

  /** The events behind a request come before its callback; only an external poll may get them. */
  function DispatchRequest(s: State, async: bool, l: Layout, i: nat, elapsed: nat, timeout: int, external: bool)
    : (r: (State, Status))
    ensures |r.0.inputs| <= |s.inputs|
    decreases |s.inputs|, 8, 0
  {
    if i != s.recvIndex && !external then (s.(trace := s.trace + [Refused]), AssertionFailed)
    else
      match Tail(s, i, external)
      case (t, Stop(status)) => (t, status)
      case (t, Continue) =>
        var (u, ok) := Callback(t.(recvIndex := 0), async, l);
        if ok then Again(u, elapsed, timeout, external) else (u, AssertionFailed)
  }

  // callback

  function QueueOf(lookup: map<bytes, seq<nat>>, pattern: bytes): seq<nat> {
    if pattern in lookup then lookup[pattern] else []
  }

  /** A pattern is stored only with a queue that is not empty. */
  function Rebind(lookup: map<bytes, seq<nat>>, pattern: bytes, queue: seq<nat>): map<bytes, seq<nat>> {
    if queue == [] then lookup - {pattern} else lookup[pattern := queue]
  }

  /** The bytes of a C string: up to its NUL. */
  function CString(s: bytes): bytes {
    if s == [] || s[0] == 0 then [] else [s[0]] + CString(s[1..])
  }

  /** `std::string(pattern)`. */
  function PatternAt(m: bytes, l: Layout): bytes {
    if l.pattern.at < |m| then CString(m[l.pattern.at..]) else []
  }

  function CalleeOf(s: State, l: Layout): Callee {
    var queue := QueueOf(s.lookup, PatternAt(s.call, l));
    if queue == [] then NullResponse else Registered(queue[0])
  }

  /** What the callback does; the null response only ends plainly. */
  function NextHandler(s: State, l: Layout): Handler {
    if CalleeOf(s, l).NullResponse? || s.handlers == [] then Handler([], Finish, 0) else s.handlers[0]
  }

  /** `callback`: false when an assertion failed, which is an exception. */
  function Callback(s: State, async: bool, l: Layout): (r: (State, bool))
    ensures |r.0.inputs| <= |s.inputs|
    decreases |s.inputs|, 7, 1
  {
    var h := NextHandler(s, l);
    var (t, ok) := Act(Begun(s, async, l), h.actions);
    Conclude(t, async, l, if ok then h.ending else Exception, h.elapsed)
  }

  /** The entry with which a callback starts. */
  function CalledOn(s: State, async: bool, l: Layout): Entry {
    Called(async, EnvelopeOf(s.call, l), PatternAt(s.call, l), l.timeout, CalleeOf(s, l))
  }

  /**
   * A callback starts: the front of its pattern's queue is called and becomes the last, and the
   * timeout is the one that later calls adjust.
   */
  function Begun(s: State, async: bool, l: Layout): State {
    var pattern, callee := PatternAt(s.call, l), CalleeOf(s, l);
    var queue := QueueOf(s.lookup, pattern);
    s.(handlers := if callee.NullResponse? || s.handlers == [] then s.handlers else s.handlers[1..],
       lookup := Rebind(s.lookup, pattern, Lookup.After(queue, Lookup.Find)),
       config := if s.config.requestTimeoutAdjustment != 0
                 then s.config.(requestTimeout := l.timeout) else s.config,
       trace := s.trace + [CalledOn(s, async, l)])
  }

  /** A failed assertion is an exception; so is an index behind the allocation of a buffer. */
  predicate Throws(status: Status) {
    status == AssertionFailed || status == PastBuffer
  }

  /** The calls that the callback makes. What one of them throws is an exception in the callback. */
  function Act(s: State, actions: seq<Action>): (r: (State, bool))
    ensures |r.0.inputs| <= |s.inputs|
    decreases |s.inputs|, 7, 0, |actions|
  {
    if actions == [] then (s, true)
    else if actions[0].Exchange? then
      var (t, status) := Poll(Writes(s, Ask(actions[0].id)), -1, false);
      if Throws(status) then (t, false) else Act(t, actions[1..])
    else
      Act(Perform(s, actions[0]), actions[1..])
  }

  /** The calls that do not wait: a message, `cloudi_subscribe`, `cloudi_unsubscribe`. */
  function Perform(s: State, a: Action): (t: State)
    requires !a.Exchange?
    ensures t.inputs == s.inputs
  {
    match a
    case Notify(id) => Writes(s, Tell(id))
    case Subscribe(name, f) =>
      var pattern := CString(s.identity.prefix) + CString(name);
      var queue := Lookup.After(QueueOf(s.lookup, pattern), Lookup.Insert(f));
      Writes(s.(lookup := Rebind(s.lookup, pattern, queue), trace := s.trace + [Subscribed(pattern, f)]), Subscribing)
    case Unsubscribe(name) =>
      var pattern := CString(s.identity.prefix) + CString(name);
      var queue := QueueOf(s.lookup, pattern);
      if queue == [] then s
      else
        var s := s.(lookup := Rebind(s.lookup, pattern, Lookup.After(queue, Lookup.Remove)),
                    trace := s.trace + [Unsubscribed(pattern)]);
        Writes(s, Unsubscribing)
  }

  /** `ei_decode_version` on the pid. */
  predicate PidDecodes(m: bytes, l: Layout) {
    l.pid.at < |m| && m[l.pid.at] == 131
  }

  function ReplyOf(s: State, forward: bool, async: bool, l: Layout, elapsed: nat): Message {
    var adjustment := s.config.requestTimeoutAdjustment != 0;
    Reply(forward, async, EnvelopeOf(s.call, l),
          Adjusted(adjustment, l.timeout, s.config.requestTimeout, elapsed),
          !forward && Emptied(adjustment, l.timeout, s.config.requestTimeout, elapsed))
  }

  /** What leaves the handler: the exception of a successful return or forward, or anything else. */
  datatype Thrown = Sent(async: bool) | Other

  /** `cloudi_return` and `cloudi_forward`: they throw when they succeed, and only then. */
  function SendReply(s: State, forward: bool, async: bool, l: Layout, elapsed: nat): (r: (State, Thrown))
    ensures r.0.inputs == s.inputs
  {
    if PidDecodes(s.call, l) then (Writes(s, ReplyOf(s, forward, async, l, elapsed)), Sent(async))
    else (s, Other)
  }

  function WithDeadline(l: Layout, deadline: Deadline): Layout {
    if deadline.Own? then l.(timeout := deadline.timeout) else l
  }

  /** The last thing that the handler does. */
  function EndHandler(s: State, l: Layout, ending: Ending, elapsed: nat): (r: (State, Thrown))
    ensures r.0.inputs == s.inputs
  {
    match ending
    case Answer(forward, async, deadline) => SendReply(s, forward, async, WithDeadline(l, deadline), elapsed)
    case Finish => (s, Other)
    case Exception => (s, Other)
  }

  function Abort(s: State): (State, bool) {
    (s.(trace := s.trace + [Aborted]), false)
  }

  /**
   * The end of `callback`: the exception of an answer must be of the request's kind; everything else
   * falls through to an empty return, which must succeed.
   */
  function Conclude(s: State, async: bool, l: Layout, ending: Ending, elapsed: nat): (r: (State, bool))
    ensures r.0.inputs == s.inputs
  {
    match EndHandler(s, l, ending, elapsed)
    case (t, Sent(kind)) => if kind == async then (t, true) else Abort(t)
    case (t, Other) =>
      match SendReply(t, false, async, l, elapsed)
      case (u, Sent(_)) => (u, true)
      case (u, Other) => Abort(u)
  }
}
