/** The messages that end an internal call: INIT and the responses, with the events behind them. */
module ProtocolAnswers {
  import opened Bytes
  import opened Bignum
  import opened Events
  import opened Protocol
  import opened ProtocolRequests

  function Words(ns: seq<nat>): bytes
    requires forall k :: 0 <= k < |ns| ==> ns[k] <= MAX_UINT32
  {
    if ns == [] then [] else Le32(ns[0]) + Words(ns[1..])
  }

  lemma WordThen(m: bytes, i: nat, j: nat, n: nat, rest: bytes)
    requires n <= MAX_UINT32 && i <= j <= |m| && m[i..j] == Le32(n) + rest
    ensures i + 4 <= j && Word(i, m) == Got(i + 4, n) && m[i + 4..j] == rest
  {
    Cut(m, i, j, Le32(n), rest);
    WordHere(m, i, n);
  }

  lemma {:induction false} WordsThen(m: bytes, i: nat, j: nat, ns: seq<nat>, rest: bytes)
    requires forall k :: 0 <= k < |ns| ==> ns[k] <= MAX_UINT32
    requires i <= j <= |m| && m[i..j] == Words(ns) + rest
    ensures i + 4 * |ns| <= j && m[i + 4 * |ns|..j] == rest
    ensures forall k :: 0 <= k < |ns| ==> Word(i + 4 * k, m) == Got(i + 4 * k + 4, ns[k])
    decreases |ns|
  {
    hide Word;
    if ns == [] {
      assert Words(ns) + rest == rest;
    } else {
      assert Words(ns) + rest == Le32(ns[0]) + (Words(ns[1..]) + rest);
      WordThen(m, i, j, ns[0], Words(ns[1..]) + rest);
      WordsThen(m, i + 4, j, ns[1..], rest);
      forall k | 0 <= k < |ns|
        ensures Word(i + 4 * k, m) == Got(i + 4 * k + 4, ns[k])
      {
        if k > 0 {
          assert i + 4 + 4 * (k - 1) == i + 4 * k && ns[1..][k - 1] == ns[k];
        }
      }
    }
  }

  // INIT

  datatype Init = Init(
    processIndex: nat,
    processCount: nat,
    processCountMax: nat,
    processCountMin: nat,
    prefix: bytes,
    timeoutInitialize: nat,
    timeoutAsync: nat,
    timeoutSync: nat,
    timeoutTerminate: nat,
    priority: byte,
    adjustment: byte)

  function Front(x: Init): seq<nat> {
    [x.processIndex, x.processCount, x.processCountMax, x.processCountMin, |x.prefix|]
  }

  function Back(x: Init): seq<nat> {
    [x.timeoutInitialize, x.timeoutAsync, x.timeoutSync, x.timeoutTerminate]
  }

  predicate InitSendable(x: Init) {
    (forall k :: 0 <= k < 5 ==> Front(x)[k] <= MAX_UINT32) && (forall k :: 0 <= k < 4 ==> Back(x)[k] <= MAX_UINT32)
  }

  /** The fields of INIT in the order of the wire: the async timeout is before the sync timeout. */
  function InitBytes(x: Init): bytes
    requires InitSendable(x)
  {
    Words(Front(x)) + (x.prefix + (Words(Back(x)) + [x.priority, x.adjustment]))
  }

  function Initialised(s: State, x: Init): State {
    s.(identity := Identity(x.processIndex, x.processCountMax, x.processCountMin, x.prefix,
                            x.timeoutInitialize, x.timeoutTerminate),
       config := Config(x.processCount, x.timeoutAsync, x.timeoutSync, Int8(x.priority), x.adjustment,
                        s.config.requestTimeout),
       trace := s.trace + [Configured(x.adjustment != 0, false)])
  }

  /** Every field of INIT reaches the field of the instance that it is meant for. */
  lemma InitOf(s: State, i: nat, j: nat, x: Init)
    requires InitSendable(x) && i <= j <= |s.recv| && s.recv[i..j] == InitBytes(x)
    ensures InitAt(i, s) == Got(j, Initialised(s, x))
  {
    hide Words, Word;
    var m := s.recv;
    var ending := Words(Back(x)) + [x.priority, x.adjustment];
    WordsThen(m, i, j, Front(x), x.prefix + ending);
    Cut(m, i + 20, j, x.prefix, ending);
    var k := i + 20 + |x.prefix|;
    WordsThen(m, k, j, Back(x), [x.priority, x.adjustment]);
    assert m[k + 16] == m[k + 16..j][0] && m[k + 17] == m[k + 16..j][1];
    FrontWords(m, i, x);
    BackWords(m, k, x);
    assert SpanAt(i + 16, m) == Got(i + 20, Span(i + 20, |x.prefix|));
    assert Content(m, Span(i + 20, |x.prefix|)) == x.prefix;
  }

  lemma FrontWords(m: bytes, i: nat, x: Init)
    requires forall k :: 0 <= k < 5 ==> Word(i + 4 * k, m) == Got(i + 4 * k + 4, Front(x)[k])
    ensures Word(i, m) == Got(i + 4, x.processIndex) && Word(i + 4, m) == Got(i + 8, x.processCount)
    ensures Word(i + 8, m) == Got(i + 12, x.processCountMax) && Word(i + 12, m) == Got(i + 16, x.processCountMin)
    ensures Word(i + 16, m) == Got(i + 20, |x.prefix|)
  {
    hide Word;
    assert Word(i + 4 * 0, m) == Got(i + 4, Front(x)[0]) && Word(i + 4 * 1, m) == Got(i + 8, Front(x)[1]);
    assert Word(i + 4 * 2, m) == Got(i + 12, Front(x)[2]) && Word(i + 4 * 3, m) == Got(i + 16, Front(x)[3]);
    assert Word(i + 4 * 4, m) == Got(i + 20, Front(x)[4]);
  }

  lemma BackWords(m: bytes, i: nat, x: Init)
    requires forall k :: 0 <= k < 4 ==> Word(i + 4 * k, m) == Got(i + 4 * k + 4, Back(x)[k])
    ensures Word(i, m) == Got(i + 4, x.timeoutInitialize) && Word(i + 4, m) == Got(i + 8, x.timeoutAsync)
    ensures Word(i + 8, m) == Got(i + 12, x.timeoutSync) && Word(i + 12, m) == Got(i + 16, x.timeoutTerminate)
  {
    hide Word;
    assert Word(i + 4 * 0, m) == Got(i + 4, Back(x)[0]) && Word(i + 4 * 1, m) == Got(i + 8, Back(x)[1]);
    assert Word(i + 4 * 2, m) == Got(i + 12, Back(x)[2]) && Word(i + 4 * 3, m) == Got(i + 16, Back(x)[3]);
  }

  // Responses

  /** The responses to internal calls; `transIds` holds sixteen bytes for each id. */
  datatype Answer =
    | Responded(sync: bool, info: bytes, body: bytes, transId: bytes)
    | ReturnedAsync(transId: bytes)
    | ReturnedAsyncs(count: nat, transIds: bytes)
    | SubscribeCount(count: nat)

  predicate AnswerSendable(a: Answer) {
    match a
    case Responded(_, info, body, transId) => |info| <= MAX_UINT32 && |body| <= MAX_UINT32 && |transId| == TRANS_ID_SIZE
    case ReturnedAsync(transId) => |transId| == TRANS_ID_SIZE
    case ReturnedAsyncs(count, transIds) => count <= MAX_UINT32 && |transIds| == TRANS_ID_SIZE * count
    case SubscribeCount(count) => count <= MAX_UINT32
  }

  function Command(a: Answer): nat {
    match a
    case Responded(sync, _, _, _) => if sync then MESSAGE_RETURN_SYNC else MESSAGE_RECV_ASYNC
    case ReturnedAsync(_) => MESSAGE_RETURN_ASYNC
    case ReturnedAsyncs(_, _) => MESSAGE_RETURNS_ASYNC
    case SubscribeCount(_) => MESSAGE_SUBSCRIBE_COUNT
  }

  function AnswerBytes(a: Answer): bytes
    requires AnswerSendable(a)
  {
    match a
    case Responded(_, info, body, transId) => FieldBytes([info, body], [[0], [0]]) + transId
    case ReturnedAsync(transId) => transId
    case ReturnedAsyncs(count, transIds) => Le32(count) + transIds
    case SubscribeCount(count) => Le32(count)
  }

  /** The response fields of the instance say what the answer said; p is what they said before. */
  ghost predicate Says(m: bytes, r: Response, a: Answer, p: Response) {
    match a
    case Responded(_, info, body, transId) =>
      && Content(m, r.info) == info && Content(m, r.body) == body
      && Content(m, r.transIds) == transId && r.transIdCount == 1 && r.subscribeCount == p.subscribeCount
    case ReturnedAsync(transId) =>
      && r.info == p.info && r.body == p.body
      && Content(m, r.transIds) == transId && r.transIdCount == 1 && r.subscribeCount == p.subscribeCount
    case ReturnedAsyncs(count, transIds) =>
      && r.info == p.info && r.body == p.body
      && Content(m, r.transIds) == transIds && r.transIdCount == count && r.subscribeCount == p.subscribeCount
    case SubscribeCount(count) =>
      r == p.(subscribeCount := count)
  }

  /** Each response is taken apart into exactly its parts, in a buffer that is never as short as nine bytes. */
  lemma AnswerOf(s: State, i: nat, j: nat, a: Answer) returns (t: State)
    requires AnswerSendable(a) && j <= MAX_UINT32
    requires i <= j <= |s.recv| && s.recv[i..j] == AnswerBytes(a)
    requires i + 4 < |s.recv|
    ensures AnswerAt(Command(a), i, s) == Got(j, t) && t == s.(response := t.response)
    ensures Says(s.recv, t.response, a, s.response)
  {
    hide Word, ResponseAt, FieldBytes, Le32, Content;
    var m := s.recv;
    match a
    case Responded(_, info, body, transId) =>
      var r := ResponseOf(m, i, j, info, body, transId);
      t := s.(response := Response(r.0, r.1, r.2, 1, s.response.subscribeCount));
    case ReturnedAsync(transId) =>
      ContentHere(m, i, transId);
      t := s.(response := s.response.(transIds := Span(i, TRANS_ID_SIZE), transIdCount := 1));
    case ReturnedAsyncs(count, transIds) =>
      t := IdsOf(s, i, j, count, transIds);
    case SubscribeCount(count) =>
      assert Le32(count) + [] == Le32(count);
      WordThen(m, i, j, count, []);
      t := s.(response := s.response.(subscribeCount := count));
  }

  lemma IdsOf(s: State, i: nat, j: nat, count: nat, transIds: bytes) returns (t: State)
    requires count <= MAX_UINT32 && |transIds| == TRANS_ID_SIZE * count && j <= MAX_UINT32
    requires i <= j <= |s.recv| && s.recv[i..j] == Le32(count) + transIds && i + 4 < |s.recv|
    ensures AnswerAt(MESSAGE_RETURNS_ASYNC, i, s) == Got(j, t)
    ensures t == s.(response := s.response.(transIds := Span(i + 4, |transIds|), transIdCount := count))
    ensures Content(s.recv, t.response.transIds) == transIds
  {
    hide Word, Content, Le32;
    WordThen(s.recv, i, j, count, transIds);
    ContentHere(s.recv, i + 4, transIds);
    t := s.(response := s.response.(transIds := Span(i + 4, |transIds|), transIdCount := count));
  }

  lemma ResponseOf(m: bytes, i: nat, j: nat, info: bytes, body: bytes, transId: bytes) returns (r: (Span, Span, Span))
    requires |info| <= MAX_UINT32 && |body| <= MAX_UINT32 && |transId| == TRANS_ID_SIZE && j <= MAX_UINT32
    requires i <= j <= |m| && m[i..j] == FieldBytes([info, body], [[0], [0]]) + transId
    ensures ResponseAt(i, m) == Got(j, r)
    ensures Content(m, r.0) == info && Content(m, r.1) == body && Content(m, r.2) == transId
  {
    hide SpansAt, FieldBytes;
    var head := FieldBytes([info, body], [[0], [0]]);
    Cut(m, i, j, head, transId);
    var k := i + |head|;
    SizesOfResponse();
    var spans := SpansOf(m, i, k, [info, body], [[0], [0]]);
    assert Content(m, spans[0]) == [info, body][0] && Content(m, spans[1]) == [info, body][1];
    r := (spans[0], spans[1], Span(k, TRANS_ID_SIZE));
  }

  lemma SizesOfResponse()
    ensures Sizes([[0], [0]]) == RESPONSE_PADDING
  {
    assert Sizes([[0]]) == [1] + Sizes([]);
    assert Sizes([[0], [0]]) == [1] + Sizes([[0]]);
  }

  // The poll that they end

  /** The receive buffer holds a command, x and whole events, then stale bytes. */
  ghost predicate Holds(s: State, command: nat, x: bytes, es: seq<Event>) {
    && command <= MAX_UINT32 && s.recvIndex <= MAX_UINT32 && 4 + |x| <= s.recvIndex <= |s.recv|
    && s.recv[0..4] == Le32(command) && s.recv[4..4 + |x|] == x
    && (forall k :: 0 <= k < |es| ==> Encodable(es[k])) && s.recv[4 + |x|..s.recvIndex] == TailBytes(es)
  }

  /** What the events behind a message do, and the empty receive index that ends the poll. */
  lemma AnsweredWithEvents(s: State, i: nat, es: seq<Event>)
    requires forall k :: 0 <= k < |es| ==> Encodable(es[k])
    requires i <= s.recvIndex <= |s.recv| && s.recv[i..s.recvIndex] == TailBytes(es)
    ensures Answered(s, i, false) == (AfterEvents(s, es), Success)
  {
    hide Tail, TailBytes;
    TailOfEvents(s, i, es, false);
  }

  /** INIT ends an internal poll; a REINIT behind it wins over it, the last one over all. */
  lemma InitDelivered(s: State, x: Init, es: seq<Event>, elapsed: nat, timeout: int)
    requires InitSendable(x) && Holds(s, MESSAGE_INIT, InitBytes(x), es)
    ensures Dispatch(s, 0, elapsed, timeout, false) == (AfterEvents(Initialised(s, x), es), Success)
  {
    hide InitAt, Answered, TailBytes, InitBytes, AfterEvents, Le32;
    WordHere(s.recv, 0, MESSAGE_INIT);
    var n := 4 + |InitBytes(x)|;
    InitOf(s, 4, n, x);
    AnsweredWithEvents(Initialised(s, x), n, es);
    assert Dispatch(s, 0, elapsed, timeout, false) == DispatchEvent(s, MESSAGE_INIT, 4, elapsed, timeout, false);
    assert DispatchEvent(s, MESSAGE_INIT, 4, elapsed, timeout, false) == DispatchAnswer(s, MESSAGE_INIT, 4, false);
  }

  /** The last REINIT behind INIT decides over the configuration; without one INIT does. */
  lemma InitConfigured(s: State, x: Init, es: seq<Event>, elapsed: nat, timeout: int, k: nat)
    requires InitSendable(x) && Holds(s, MESSAGE_INIT, InitBytes(x), es)
    requires k <= |es| && (k < |es| ==> es[k].Reinit?) && forall j :: k < j < |es| ==> es[j].KeepAlive?
    requires k == |es| ==> forall j :: 0 <= j < |es| ==> es[j].KeepAlive?
    ensures var c := Dispatch(s, 0, elapsed, timeout, false).0.config;
            && c.timeoutAsync == (if k < |es| then es[k].timeoutAsync else x.timeoutAsync)
            && c.timeoutSync == (if k < |es| then es[k].timeoutSync else x.timeoutSync)
            && c.processCount == (if k < |es| then es[k].processCount else x.processCount)
            && c.priorityDefault == Int8(if k < |es| then es[k].priority else x.priority)
            && c.requestTimeoutAdjustment == (if k < |es| then es[k].adjustment else x.adjustment)
  {
    hide Dispatch, InitBytes, TailBytes, ApplyAll;
    InitDelivered(s, x, es, elapsed, timeout);
    if k < |es| {
      LastReinitDecides(Initialised(s, x).config, es, k);
    } else {
      KeepAlivesLeave(Initialised(s, x).config, es);
    }
  }

  /** A response ends an internal poll: its parts are in place, and the events behind it are applied. */
  lemma AnswerDelivered(s: State, a: Answer, es: seq<Event>, elapsed: nat, timeout: int) returns (t: State)
    requires AnswerSendable(a) && Holds(s, Command(a), AnswerBytes(a), es) && |s.recv| > 8
    ensures Dispatch(s, 0, elapsed, timeout, false) == (AfterEvents(t, es), Success)
    ensures t == s.(response := t.response) && Says(s.recv, t.response, a, s.response)
  {
    hide AnswerAt, Answered, TailBytes, AnswerBytes, AfterEvents, Says, Le32;
    WordHere(s.recv, 0, Command(a));
    var n := 4 + |AnswerBytes(a)|;
    t := AnswerOf(s, 4, n, a);
    AnsweredWithEvents(t, n, es);
    assert Dispatch(s, 0, elapsed, timeout, false) == DispatchEvent(s, Command(a), 4, elapsed, timeout, false);
    assert DispatchEvent(s, Command(a), 4, elapsed, timeout, false) == DispatchAnswer(s, Command(a), 4, false);
  }
}
