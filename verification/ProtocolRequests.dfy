/** What a request on the wire becomes: the bytes that its callback is given. */
module ProtocolRequests {
  import opened Bytes
  import opened Bignum
  import opened Events
  import opened Protocol

  // Layout of a request

  /** Sized fields, each followed by its padding. */
  function FieldBytes(fields: seq<bytes>, pads: seq<bytes>): bytes
    requires |pads| == |fields| && forall k :: 0 <= k < |fields| ==> |fields[k]| <= MAX_UINT32
  {
    if fields == [] then [] else Le32(|fields[0]|) + fields[0] + pads[0] + FieldBytes(fields[1..], pads[1..])
  }

  function Sizes(pads: seq<bytes>): (sizes: seq<nat>)
    ensures |sizes| == |pads|
  {
    if pads == [] then [] else [|pads[0]|] + Sizes(pads[1..])
  }

  ghost predicate Spell(m: bytes, spans: seq<Span>, fields: seq<bytes>) {
    |spans| == |fields| && forall k :: 0 <= k < |fields| ==> Content(m, spans[k]) == fields[k]
  }

  lemma WordHere(m: bytes, i: nat, n: nat)
    requires n <= MAX_UINT32 && i + 4 <= |m| && m[i..i + 4] == Le32(n)
    ensures Word(i, m) == Got(i + 4, n)
  {
    Le32Inverse(n, Le32(n));
  }

  /** The first of some sized fields that stand between i and j, and where the others start. */
  lemma FirstField(m: bytes, i: nat, j: nat, fields: seq<bytes>, pads: seq<bytes>) returns (k: nat)
    requires |pads| == |fields| > 0 && forall k :: 0 <= k < |fields| ==> |fields[k]| <= MAX_UINT32
    requires i <= j <= |m| && m[i..j] == FieldBytes(fields, pads)
    ensures k == i + 4 + |fields[0]| + |pads[0]| <= j
    ensures m[i..i + 4] == Le32(|fields[0]|) && m[i + 4..i + 4 + |fields[0]|] == fields[0]
    ensures m[k..j] == FieldBytes(fields[1..], pads[1..])
  {
    var x, pad, rest := fields[0], pads[0], FieldBytes(fields[1..], pads[1..]);
    k := i + 4 + |x| + |pad|;
    var w := m[i..j];
    assert w == Le32(|x|) + x + pad + rest;
    assert w[..4] == Le32(|x|) && w[4..4 + |x|] == x && w[4 + |x| + |pad|..] == rest;
    assert m[i..i + 4] == w[..4];
    assert forall t :: 0 <= t < |x| ==> m[i + 4 + t] == w[4 + t] == x[t];
    assert m[k..j] == w[4 + |x| + |pad|..];
  }

  /** A sized field at i, with something behind its size. */
  lemma SpanHere(m: bytes, i: nat, x: bytes)
    requires |x| <= MAX_UINT32 && i + 4 + |x| <= |m| && i + 4 < |m|
    requires m[i..i + 4] == Le32(|x|) && m[i + 4..i + 4 + |x|] == x
    ensures SpanAt(i, m) == Got(i + 4, Span(i + 4, |x|)) && Content(m, Span(i + 4, |x|)) == x
  {
    WordHere(m, i, |x|);
  }

  lemma SpansCons(m: bytes, i: nat, k: nat, j: nat, x: bytes, extras: seq<nat>, spans: seq<Span>)
    requires extras != [] && SpanAt(i, m) == Got(i + 4, Span(i + 4, |x|))
    requires k == i + 4 + |x| + extras[0] <= MAX_UINT32
    requires SpansAt(k, m, extras[1..]) == Got(j, spans)
    ensures SpansAt(i, m, extras) == Got(j, [Span(i + 4, |x|)] + spans)
  {
    assert Advance(i + 4, |x| + extras[0]) == k;
  }

  lemma SpellCons(m: bytes, span: Span, spans: seq<Span>, fields: seq<bytes>)
    requires fields != [] && Content(m, span) == fields[0] && Spell(m, spans, fields[1..])
    ensures Spell(m, [span] + spans, fields)
  {
    forall k | 0 <= k < |fields|
      ensures Content(m, ([span] + spans)[k]) == fields[k]
    {
      if k > 0 {
        assert fields[k] == fields[1..][k - 1];
      }
    }
  }

  /** Where sized fields of these sizes stand. */
  function SpansFor(i: nat, sizes: seq<nat>, extras: seq<nat>): (spans: seq<Span>)
    requires |extras| == |sizes|
    ensures |spans| == |sizes|
    decreases |sizes|
  {
    if sizes == [] then []
    else [Span(i + 4, sizes[0])] + SpansFor(i + 4 + sizes[0] + extras[0], sizes[1..], extras[1..])
  }

  lemma SizesCons(pads: seq<bytes>)
    requires pads != []
    ensures Sizes(pads)[0] == |pads[0]| && Sizes(pads)[1..] == Sizes(pads[1..])
  {
  }

  lemma SpansForCons(i: nat, fields: seq<bytes>, pads: seq<bytes>)
    requires |fields| == |pads| > 0
    ensures SpansFor(i, Sizes(fields), Sizes(pads))
         == [Span(i + 4, |fields[0]|)] + SpansFor(i + 4 + |fields[0]| + |pads[0]|, Sizes(fields[1..]), Sizes(pads[1..]))
  {
    SizesCons(fields);
    SizesCons(pads);
  }

  /** Sized fields are found one after the other, with exactly their bytes. */
  lemma {:induction false} SpansOf(m: bytes, i: nat, j: nat, fields: seq<bytes>, pads: seq<bytes>)
    returns (spans: seq<Span>)
    requires |pads| == |fields| && j <= MAX_UINT32
    requires forall k :: 0 <= k < |fields| ==> |fields[k]| <= MAX_UINT32
    requires j < |m| || forall k :: 0 <= k < |fields| ==> fields[k] != []
    requires i <= j <= |m| && m[i..j] == FieldBytes(fields, pads)
    ensures SpansAt(i, m, Sizes(pads)) == Got(j, spans)
    ensures Spell(m, spans, fields) && spans == SpansFor(i, Sizes(fields), Sizes(pads))
    decreases |fields|
  {
    if fields == [] {
      spans := [];
    } else {
      var k := FirstField(m, i, j, fields, pads);
      assert forall x :: 0 <= x < |fields[1..]| ==> fields[1..][x] == fields[x + 1];
      var others := SpansOf(m, k, j, fields[1..], pads[1..]);
      spans := [Span(i + 4, |fields[0]|)] + others;
      SpansMore(m, i, k, j, fields, pads, others);
    }
  }

  lemma SpansMore(m: bytes, i: nat, k: nat, j: nat, fields: seq<bytes>, pads: seq<bytes>, others: seq<Span>)
    requires |pads| == |fields| > 0 && j <= MAX_UINT32 && |fields[0]| <= MAX_UINT32
    requires k == i + 4 + |fields[0]| + |pads[0]| <= j <= |m| && i + 4 < |m|
    requires m[i..i + 4] == Le32(|fields[0]|) && m[i + 4..i + 4 + |fields[0]|] == fields[0]
    requires SpansAt(k, m, Sizes(pads[1..])) == Got(j, others) && Spell(m, others, fields[1..])
    requires others == SpansFor(k, Sizes(fields[1..]), Sizes(pads[1..]))
    ensures var spans := [Span(i + 4, |fields[0]|)] + others;
            && SpansAt(i, m, Sizes(pads)) == Got(j, spans) && Spell(m, spans, fields)
            && spans == SpansFor(i, Sizes(fields), Sizes(pads))
  {
    hide Content, SpansAt, SpanAt, SpansFor, Sizes, Le32;
    SpanHere(m, i, fields[0]);
    SizesCons(pads);
    SpansForCons(i, fields, pads);
    SpansCons(m, i, k, j, fields[0], Sizes(pads), others);
    SpellCons(m, Span(i + 4, |fields[0]|), others, fields);
  }

  /** A request as the service sends it; name and pattern end with their NUL. */
  datatype Request = Request(
    name: bytes,
    pattern: bytes,
    requestInfo: bytes,
    request: bytes,
    timeout: nat,
    priority: byte,
    transId: bytes,
    pid: bytes)

  predicate Sendable(r: Request) {
    && |r.name| <= MAX_UINT32 && |r.pattern| <= MAX_UINT32
    && |r.requestInfo| <= MAX_UINT32 && |r.request| <= MAX_UINT32
    && r.timeout <= MAX_UINT32 && |r.transId| == TRANS_ID_SIZE
    && 0 < |r.pid| <= MAX_UINT32
  }

  /** The four sized fields that come first. */
  function FirstFields(r: Request): bytes
    requires Sendable(r)
  {
    FieldBytes([r.name, r.pattern, r.requestInfo, r.request], [[], [], [0], [0]])
  }

  function PidField(r: Request): bytes
    requires Sendable(r)
  {
    FieldBytes([r.pid], [[]])
  }

  /** The fields of a request behind its command. */
  function Body(r: Request): bytes
    requires Sendable(r)
  {
    FirstFields(r) + Le32(r.timeout) + [r.priority] + r.transId + PidField(r)
  }

  function SendBytes(async: bool, r: Request): bytes
    requires Sendable(r)
  {
    Le32(if async then MESSAGE_SEND_ASYNC else MESSAGE_SEND_SYNC) + Body(r)
  }

  /** What the reply to a request must name. */
  function EnvelopeFor(r: Request): Envelope {
    Envelope(r.name, r.pattern, r.transId, r.pid)
  }

  /** The pointers point to the fields of the request. */
  ghost predicate Describes(m: bytes, l: Layout, r: Request) {
    && Content(m, l.name) == r.name && Content(m, l.pattern) == r.pattern
    && Content(m, l.requestInfo) == r.requestInfo && Content(m, l.request) == r.request
    && l.timeout == r.timeout && l.priority == r.priority
    && Content(m, l.transId) == r.transId && Content(m, l.pid) == r.pid
  }

  lemma BodyParts(m: bytes, i: nat, j: nat, r: Request) returns (k: nat)
    requires Sendable(r) && i <= j <= |m| && m[i..j] == Body(r)
    ensures i <= k && k + 21 <= j && m[i..k] == FirstFields(r)
    ensures m[k..k + 4] == Le32(r.timeout) && m[k + 4] == r.priority && m[k + 5..k + 21] == r.transId
    ensures m[k + 21..j] == PidField(r)
  {
    hide FieldBytes;
    var timeout, priority := Le32(r.timeout), [r.priority];
    var head, tail := FirstFields(r), PidField(r);
    hide Le32;
    assert m[i..j] == head + timeout + priority + r.transId + tail;
    Cut(m, i, j, head + timeout + priority + r.transId, tail);
    k := i + |head|;
    Cut(m, i, k + 21, head + timeout + priority, r.transId);
    Cut(m, i, k + 5, head + timeout, priority);
    Cut(m, i, k + 4, head, timeout);
  }

  /** The layout of a request at i; it depends on the sizes of its fields alone. */
  function LayoutFor(i: nat, r: Request): Layout {
    var pattern := i + 8 + |r.name|;
    var info := pattern + |r.pattern| + 4;
    var request := info + |r.requestInfo| + 5;
    var k := request + |r.request| + 1;
    Layout(Span(i + 4, |r.name|), Span(pattern, |r.pattern|), Span(info, |r.requestInfo|), Span(request, |r.request|),
           r.timeout, r.priority, Span(k + 5, TRANS_ID_SIZE), Span(k + 25, |r.pid|))
  }

  lemma FirstSizes(i: nat, r: Request)
    requires Sendable(r)
    ensures var l := LayoutFor(i, r);
            && SpansFor(i, Sizes([r.name, r.pattern, r.requestInfo, r.request]), Sizes([[], [], [0], [0]]))
               == [l.name, l.pattern, l.requestInfo, l.request]
            && i + |FirstFields(r)| + 5 == l.transId.at
  {
    hide FieldBytes, SpansFor, Sizes;
    SizesOfPads();
    FourSizes(r.name, r.pattern, r.requestInfo, r.request);
    FourLengths(r.name, r.pattern, r.requestInfo, r.request);
    FourSpans(i, |r.name|, |r.pattern|, |r.requestInfo|, |r.request|);
  }

  lemma FourSizes(a: bytes, b: bytes, c: bytes, d: bytes)
    ensures Sizes([a, b, c, d]) == [|a|, |b|, |c|, |d|]
  {
    assert [a, b, c, d][1..] == [b, c, d] && [b, c, d][1..] == [c, d] && [c, d][1..] == [d];
    assert Sizes([d]) == [|d|] && Sizes([c, d]) == [|c|, |d|] && Sizes([b, c, d]) == [|b|, |c|, |d|];
  }

  lemma FourLengths(a: bytes, b: bytes, c: bytes, d: bytes)
    requires |a| <= MAX_UINT32 && |b| <= MAX_UINT32 && |c| <= MAX_UINT32 && |d| <= MAX_UINT32
    ensures |FieldBytes([a, b, c, d], [[], [], [0], [0]])| == 18 + |a| + |b| + |c| + |d|
  {
    hide FieldBytes;
    assert [a, b, c, d][1..] == [b, c, d] && [b, c, d][1..] == [c, d] && [c, d][1..] == [d] && [d][1..] == [];
    var pads: seq<bytes> := [[], [], [0], [0]];
    assert pads[1..] == [[], [0], [0]] && pads[1..][1..] == [[0], [0]];
    FieldsLength([d], [[0]]);
    FieldsLength([c, d], [[0], [0]]);
    FieldsLength([b, c, d], [[], [0], [0]]);
    FieldsLength([a, b, c, d], pads);
  }

  lemma FieldsLength(fields: seq<bytes>, pads: seq<bytes>)
    requires |pads| == |fields| > 0 && forall k :: 0 <= k < |fields| ==> |fields[k]| <= MAX_UINT32
    ensures |FieldBytes(fields, pads)| == 4 + |fields[0]| + |pads[0]| + |FieldBytes(fields[1..], pads[1..])|
    ensures FieldBytes([], []) == []
  {
  }

  lemma FourSpans(i: nat, a: nat, b: nat, c: nat, d: nat)
    ensures SpansFor(i, [a, b, c, d], REQUEST_PADDING)
         == [Span(i + 4, a), Span(i + 8 + a, b), Span(i + 12 + a + b, c), Span(i + 17 + a + b + c, d)]
  {
    assert [a, b, c, d][1..] == [b, c, d] && [b, c, d][1..] == [c, d] && [c, d][1..] == [d];
    var pads: seq<nat> := [0, 0, 1, 1];
    assert pads[1..] == [0, 1, 1] && pads[1..][1..] == [1, 1] && pads[1..][1..][1..] == [1];
    var j := i + 13 + a + b + c;
    assert SpansFor(j, [d], [1]) == [Span(j + 4, d)] + SpansFor(j + 5 + d, [], []);
    var k := i + 8 + a + b;
    assert SpansFor(k, [c, d], [1, 1]) == [Span(k + 4, c)] + SpansFor(k + 4 + c + 1, [d], [1]);
    assert SpansFor(i + 4 + a, [b, c, d], [0, 1, 1]) == [Span(i + 8 + a, b)] + SpansFor(k, [c, d], [1, 1]);
    assert SpansFor(i, [a, b, c, d], pads) == [Span(i + 4, a)] + SpansFor(i + 4 + a, [b, c, d], [0, 1, 1]);
  }

  /** A request is taken apart into exactly its fields, wherever it stands and whatever follows it. */
  lemma LayoutOf(m: bytes, i: nat, j: nat, r: Request) returns (l: Layout)
    requires Sendable(r) && j <= MAX_UINT32 && i <= j <= |m| && m[i..j] == Body(r)
    ensures LayoutAt(i, m) == Got(j, l) && Describes(m, l, r) && l == LayoutFor(i, r)
  {
    hide Content, SpansAt, FieldBytes, Le32, Word, FirstFields;
    var k := BodyParts(m, i, j, r);
    FirstSpans(m, i, k, r);
    PidSpan(m, k + 21, j, r);
    WordHere(m, k, r.timeout);
    FirstSizes(i, r);
    l := LayoutFor(i, r);
    LayoutParts(m, k, j, [l.name, l.pattern, l.requestInfo, l.request], [l.pid], l);
    ContentHere(m, k + 5, r.transId);
  }

  lemma FirstSpans(m: bytes, i: nat, k: nat, r: Request)
    requires Sendable(r) && k <= MAX_UINT32 && i <= k < |m| && m[i..k] == FirstFields(r)
    ensures var l := LayoutFor(i, r);
            && SpansAt(i, m, REQUEST_PADDING) == Got(k, [l.name, l.pattern, l.requestInfo, l.request])
            && Content(m, l.name) == r.name && Content(m, l.pattern) == r.pattern
            && Content(m, l.requestInfo) == r.requestInfo && Content(m, l.request) == r.request
  {
    hide Content, SpansAt, FieldBytes, SpansFor;
    var fields := [r.name, r.pattern, r.requestInfo, r.request];
    SizesOfPads();
    var f := SpansOf(m, i, k, fields, [[], [], [0], [0]]);
    FirstSizes(i, r);
    assert Content(m, f[0]) == fields[0] && Content(m, f[1]) == fields[1];
    assert Content(m, f[2]) == fields[2] && Content(m, f[3]) == fields[3];
  }

  lemma PidSpan(m: bytes, i: nat, j: nat, r: Request)
    requires Sendable(r) && j <= MAX_UINT32 && i <= j <= |m| && m[i..j] == PidField(r)
    ensures var pid := Span(i + 4, |r.pid|);
            SpansAt(i, m, PID_PADDING) == Got(j, [pid]) && Content(m, pid) == r.pid
  {
    hide Content, SpansAt, FieldBytes;
    SizesOfPads();
    var spans := SpansOf(m, i, j, [r.pid], [[]]);
    assert Sizes([r.pid]) == [|r.pid|] + Sizes([]);
    assert SpansFor(i, [|r.pid|], [0]) == [Span(i + 4, |r.pid|)] + SpansFor(i + 4 + |r.pid|, [], []);
    assert spans == SpansFor(i, [|r.pid|], [0]) == [Span(i + 4, |r.pid|)];
    assert Content(m, spans[0]) == [r.pid][0];
  }

  lemma ContentHere(m: bytes, i: nat, x: bytes)
    requires i + |x| <= |m| && m[i..i + |x|] == x
    ensures Content(m, Span(i, |x|)) == x
  {
  }

  lemma LayoutParts(m: bytes, k: nat, j: nat, f: seq<Span>, pid: seq<Span>, l: Layout)
    requires k + 21 <= |m| && k + 21 <= MAX_UINT32 && |f| == 4 && |pid| == 1
    requires SpansAt(k + 21, m, PID_PADDING) == Got(j, pid)
    requires Word(k, m) == Got(k + 4, l.timeout)
    requires l == Layout(f[0], f[1], f[2], f[3], l.timeout, m[k + 4], Span(k + 5, TRANS_ID_SIZE), pid[0])
    ensures LayoutEnd(f, k, m) == Got(j, l)
  {
    assert Advance(k + 5, TRANS_ID_SIZE) == k + 21;
  }

  lemma SizesOfPads()
    ensures Sizes([[], [], [0], [0]]) == REQUEST_PADDING && Sizes([[]]) == PID_PADDING
  {
    assert Sizes([[0]]) == [1] + Sizes([]);
    assert Sizes([[0], [0]]) == [1] + Sizes([[0]]);
    assert Sizes([[], [0], [0]]) == [0] + Sizes([[0], [0]]);
    assert Sizes([[], [], [0], [0]]) == [0] + Sizes([[], [0], [0]]);
    assert Sizes([[]]) == [0] + Sizes([]);
  }

  // From the message to the callback

  /** The receive buffer holds the request at i, then a tail up to the receive index, then stale bytes. */
  ghost predicate Received(s: State, i: nat, async: bool, r: Request) {
    && Sendable(r) && i + |SendBytes(async, r)| <= s.recvIndex <= |s.recv| && s.recvIndex <= MAX_UINT32
    && s.recv[i..i + |SendBytes(async, r)|] == SendBytes(async, r)
  }

  lemma CommandFirst(m: bytes, i: nat, async: bool, r: Request)
    requires Sendable(r) && i + |SendBytes(async, r)| <= |m|
    requires m[i..i + |SendBytes(async, r)|] == SendBytes(async, r)
    ensures Word(i, m) == Got(i + 4, if async then MESSAGE_SEND_ASYNC else MESSAGE_SEND_SYNC)
    ensures |SendBytes(async, r)| >= 4 && m[i + 4..i + |SendBytes(async, r)|] == Body(r)
  {
    hide Body;
    var command := if async then MESSAGE_SEND_ASYNC else MESSAGE_SEND_SYNC;
    Cut(m, i, i + |SendBytes(async, r)|, Le32(command), Body(r));
    WordHere(m, i, command);
  }

  /** The request is taken apart in the call buffer; the pointers describe it exactly. */
  lemma RequestParsed(s: State, i: nat, async: bool, r: Request, elapsed: nat, timeout: int, external: bool)
    returns (l: Layout)
    requires Received(s, i, async, r)
    ensures Describes(Copied(s).call, l, r) && l == LayoutFor(i + 4, r)
    ensures Dispatch(s, i, elapsed, timeout, external)
         == DispatchRequest(Copied(s), async, l, i + |SendBytes(async, r)|, elapsed, timeout, external)
  {
    hide SendBytes, Body, LayoutAt, LayoutFor, Describes, Dispatch, DispatchRequest;
    var j, t := i + |SendBytes(async, r)|, Copied(s);
    CommandFirst(s.recv, i, async, r);
    assert t.call[i..j] == s.recv[i..j];
    CommandFirst(t.call, i, async, r);
    l := LayoutOf(t.call, i + 4, j, r);
    SendDispatched(s, i, async, j, l, elapsed, timeout, external);
  }

  lemma SendDispatched(
    s: State, i: nat, async: bool, j: nat, l: Layout, elapsed: nat, timeout: int, external: bool)
    requires i <= s.recvIndex && LayoutAt(i + 4, Copied(s).call) == Got(j, l)
    requires Word(i, s.recv) == Got(i + 4, if async then MESSAGE_SEND_ASYNC else MESSAGE_SEND_SYNC)
    ensures Dispatch(s, i, elapsed, timeout, external)
         == DispatchRequest(Copied(s), async, l, j, elapsed, timeout, external)
  {
    hide LayoutAt, DispatchRequest, DispatchEvent, Copied;
    assert Dispatch(s, i, elapsed, timeout, external) == DispatchSend(s, async, i + 4, elapsed, timeout, external);
    assert DispatchSend(s, async, i + 4, elapsed, timeout, external)
        == DispatchParsed(Copied(s), async, Got(j, l), elapsed, timeout, external);
    assert DispatchParsed(Copied(s), async, Got(j, l), elapsed, timeout, external)
        == DispatchRequest(Copied(s), async, l, j, elapsed, timeout, external);
  }

  /** The state in which the callback of a request starts: the events behind the request come first. */
  function AfterEvents(s: State, es: seq<Event>): State {
    Observe(s, Handled(Continue, ApplyAll(s.config, es), es, s.terminate)).(recvIndex := 0)
  }

  lemma NoEvents(c: Config)
    ensures TailBytes([]) == [] && ApplyAll(c, []) == c && EventEntries([]) == []
  {
  }

  lemma SomeEvents(es: seq<Event>)
    requires es != [] && forall k :: 0 <= k < |es| ==> Encodable(es[k])
    ensures TailBytes(es) != []
  {
    EventBytesNonEmpty(es[0]);
  }

  /** Whole events behind a message are all applied. */
  lemma TailOfEvents(s: State, i: nat, es: seq<Event>, external: bool)
    requires forall k :: 0 <= k < |es| ==> Encodable(es[k])
    requires i <= s.recvIndex <= |s.recv| && s.recv[i..s.recvIndex] == TailBytes(es)
    ensures Tail(s, i, external)
         == (Observe(s, Handled(Continue, ApplyAll(s.config, es), es, s.terminate)), Continue)
  {
    hide HandleEvents, EventBytes, TailBytes, EventEntries, ApplyAll;
    if es == [] {
      NoEvents(s.config);
      assert s.trace + EventTrace([], false) == s.trace;
    } else {
      SomeEvents(es);
      WholeEventsAccepted(es, s.recv, i, s.recvIndex, external, Before(s));
      assert [] + es == es;
    }
  }

  /** A request in front of whole events reaches a callback, with its own bytes, after the events. */
  lemma RequestDelivered(
    s: State, i: nat, async: bool, r: Request, es: seq<Event>, elapsed: nat, timeout: int, external: bool)
    returns (l: Layout)
    requires Received(s, i, async, r) && forall k :: 0 <= k < |es| ==> Encodable(es[k])
    requires s.recv[i + |SendBytes(async, r)|..s.recvIndex] == TailBytes(es)
    requires external || es == []
    ensures Describes(AfterEvents(Copied(s), es).call, l, r) && l == LayoutFor(i + 4, r)
    ensures var (u, ok) := Callback(AfterEvents(Copied(s), es), async, l);
            Dispatch(s, i, elapsed, timeout, external)
            == if ok then Again(u, elapsed, timeout, external) else (u, AssertionFailed)
  {
    hide LayoutAt, Callback, SendBytes;
    l := RequestParsed(s, i, async, r, elapsed, timeout, external);
    TailOfEvents(Copied(s), i + |SendBytes(async, r)|, es, external);
  }

  /** An internal poll refuses a request with anything behind it: no callback is called. */
  lemma RequestRefused(s: State, i: nat, async: bool, r: Request, elapsed: nat, timeout: int)
    requires Received(s, i, async, r) && i + |SendBytes(async, r)| < s.recvIndex
    ensures Dispatch(s, i, elapsed, timeout, false)
         == (Copied(s).(trace := Copied(s).trace + [Refused]), AssertionFailed)
  {
    hide LayoutAt, Callback, SendBytes;
    var l := RequestParsed(s, i, async, r, elapsed, timeout, false);
  }

  ghost predicate WholeEvents(tail: bytes) {
    exists es :: (forall k :: 0 <= k < |es| ==> Encodable(es[k])) && tail == TailBytes(es)
  }

  /** An external poll ends at a request with anything but whole events behind it: no callback is called. */
  lemma RequestDropped(s: State, i: nat, async: bool, r: Request, elapsed: nat, timeout: int)
    requires Received(s, i, async, r) && i + |SendBytes(async, r)| < s.recvIndex
    requires !WholeEvents(s.recv[i + |SendBytes(async, r)|..s.recvIndex])
    ensures var (t, outcome) := Tail(Copied(s), i + |SendBytes(async, r)|, true);
            outcome.Stop? && Dispatch(s, i, elapsed, timeout, true) == (t, outcome.status)
  {
    hide LayoutAt, LayoutFor, Describes, Callback, Dispatch, SendBytes, HandleEvents, Observe, TailBytes, Again;
    var l := RequestParsed(s, i, async, r, elapsed, timeout, true);
    TrueExactlyOnWholeEvents(s.recv, s.recvIndex, true, i + |SendBytes(async, r)|, Before(Copied(s)));
  }

  /** A request whose message also carries TERM gets no callback and no reply; the service terminates. */
  lemma TerminatedRequest(
    s: State, i: nat, async: bool, r: Request, es: seq<Event>, j: nat, elapsed: nat, timeout: int)
    requires Received(s, i, async, r) && forall k :: 0 <= k < |es| ==> Encodable(es[k])
    requires i + |SendBytes(async, r)| <= j && j + 4 <= s.recvIndex
    requires s.recv[i + |SendBytes(async, r)|..j] == TailBytes(es) && s.recv[j..j + 4] == Le32(MESSAGE_TERM)
    ensures Dispatch(s, i, elapsed, timeout, true) == (Ended(Copied(s), es), Success)
  {
    hide LayoutAt, LayoutFor, Describes, Callback, Dispatch, HandleEvents, SendBytes, TailBytes, EventTrace, Le32,
      ApplyAll, EventEntries, Again;
    var l := RequestParsed(s, i, async, r, elapsed, timeout, true);
    var n, u := i + |SendBytes(async, r)|, Copied(s);
    TermAfterEvents(es, u.recv, n, j, u.recvIndex, true, Before(u));
    assert [] + es == es;
  }

  /** Whole events and TERM: the events are handled in order, then the flag is set. */
  function Ended(s: State, es: seq<Event>): State {
    s.(config := ApplyAll(s.config, es), terminate := true, trace := s.trace + EventTrace(es, !s.terminate))
  }

  // Frames

  /** The bytes are a request and a tail. */
  ghost predicate IsRequest(rest: bytes, async: bool, r: Request, tail: bytes) {
    Sendable(r) && rest == SendBytes(async, r) + tail
  }

  /** The frame is in the buffer. */
  function Loaded(s: State, body: bytes, stale: bytes, spare: bytes): State {
    s.(recv := body + stale, recvIndex := |body|, spare := spare)
  }

  lemma RequestLoaded(s: State, body: bytes, stale: bytes, i: nat, async: bool, r: Request, tail: bytes)
    requires i <= |body| <= MAX_UINT32 && IsRequest(body[i..], async, r, tail)
    requires s.recv == body + stale && s.recvIndex == |body|
    ensures Received(s, i, async, r) && s.recv[i + |SendBytes(async, r)|..s.recvIndex] == tail
  {
    hide SendBytes;
    assert s.recv[i..|body|] == body[i..];
    Cut(s.recv, i, |body|, SendBytes(async, r), tail);
  }

  /** Nothing else is a request with the same bytes. */
  lemma RequestUnique(rest: bytes, async: bool, r: Request, tail: bytes, kind: bool, q: Request, end: bytes)
    requires |rest| <= MAX_UINT32 && IsRequest(rest, async, r, tail) && IsRequest(rest, kind, q, end)
    ensures kind == async && q == r && end == tail
  {
    hide SendBytes, Body, LayoutFor, LayoutAt, Content;
    Cut(rest, 0, |rest|, SendBytes(async, r), tail);
    Cut(rest, 0, |rest|, SendBytes(kind, q), end);
    CommandFirst(rest, 0, async, r);
    CommandFirst(rest, 0, kind, q);
    var l := LayoutOf(rest, 4, |SendBytes(async, r)|, r);
    var k := LayoutOf(rest, 4, |SendBytes(kind, q)|, q);
  }

  /** A word of a frame. */
  lemma WordInside(body: bytes, stale: bytes, i: nat)
    requires i + 4 <= |body|
    ensures Word(i, body + stale) == Got(i + 4, Word(0, body[i..]).value)
  {
    assert (body + stale)[i..i + 4] == body[i..][0..4];
  }
}
