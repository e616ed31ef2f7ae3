/** Messages that end too early: what of them is stored, and how the events behind a message end. */
module ProtocolParts {
  import opened Bytes
  import opened Bignum
  import opened Events
  import opened Protocol
  import opened ProtocolRequests
  import opened ProtocolAnswers

  // The index operator

  /** A read fails exactly at the end of the allocation. */
  lemma ReadsInside(i: nat, m: bytes)
    ensures Word(i, m).Got? <==> i + 4 <= |m|
    ensures Octet(i, m).Got? <==> i < |m|
    ensures SpanAt(i, m).Got? <==> i + 4 < |m|
  {
  }

  /** An int8_t has the bits of its byte. */
  lemma SignedByte(b: byte)
    ensures -128 <= Int8(b) < 128 && (b - Int8(b)) % 256 == 0
  {
  }

  // The end of `handle_events`

  /** Whole events are handled one after the other. */
  lemma {:induction false} EventsThen(
    es: seq<Event>, m: bytes, i: nat, j: nat, limit: nat, external: bool, h: Handled)
    requires forall k :: 0 <= k < |es| ==> Encodable(es[k])
    requires i <= j < limit <= |m| && m[i..j] == TailBytes(es)
    ensures HandleEvents(m, limit, external, i, h)
         == HandleEvents(m, limit, external, j, h.(config := ApplyAll(h.config, es), events := h.events + es))
    decreases |es|
  {
    hide HandleEvents;
    if es == [] {
      assert h.events + es == h.events;
    } else {
      assert h.events + es == (h.events + [es[0]]) + es[1..];
      var k := TailCons(es, m, i, j);
      EventAt(es[0], m, i, k, limit, external, h);
      EventsThen(es[1..], m, k, j, limit, external, Step(h, es[0]));
    }
  }

  /** Whole events, and one more that goes on in the older bytes behind the limit. */
  lemma EventBeyond(
    es: seq<Event>, e: Event, m: bytes, i: nat, j: nat, k: nat, limit: nat, external: bool, h: Handled)
    requires Encodable(e) && forall k :: 0 <= k < |es| ==> Encodable(es[k])
    requires i <= j < limit < k <= |m| && m[i..j] == TailBytes(es) && m[j..k] == EventBytes(e)
    ensures HandleEvents(m, limit, external, i, h)
         == Handled(Stop(Underflow), ApplyAll(h.config, es + [e]), h.events + es + [e], h.terminate)
  {
    hide HandleEvents, EventBytes, TailBytes, Apply;
    EventsThen(es, m, i, j, limit, external, h);
    var g := h.(config := ApplyAll(h.config, es), events := h.events + es);
    EventAt(e, m, j, k, limit, external, g);
    ApplySnoc(h.config, es, e);
  }

  /**
   * Behind whole events the loop ends at the first thing that is none: with an underflow at another
   * message, and with an exception where the buffer ends inside a word or a REINIT.
   */
  lemma EventsEnd(es: seq<Event>, m: bytes, i: nat, j: nat, limit: nat, external: bool, h: Handled)
    requires forall k :: 0 <= k < |es| ==> Encodable(es[k])
    requires i <= j < limit <= |m| && m[i..j] == TailBytes(es)
    ensures var r := HandleEvents(m, limit, external, i, h);
            var c := ApplyAll(h.config, es);
            && (j + 4 <= |m| && Word(j, m).value !in {MESSAGE_KEEPALIVE, MESSAGE_REINIT, MESSAGE_TERM} ==>
                  r == Handled(Stop(Underflow), c, h.events + es, h.terminate))
            && (j + 4 > |m| ==> r == Handled(Stop(PastBuffer), c, h.events + es, h.terminate))
            && (j + 4 <= |m| < j + 18 && Word(j, m).value == MESSAGE_REINIT ==>
                  r == Handled(Stop(PastBuffer), ReinitPart(j + 4, m, c), h.events + es, h.terminate))
  {
    hide TailBytes, ApplyAll, ReinitPart;
    EventsThen(es, m, i, j, limit, external, h);
  }

  // Partial stores

  lemma WordOfPrefix(m: bytes, i: nat, whole: bytes, n: nat, k: nat, v: nat)
    requires n <= |whole| && |m| == i + n && m[i..] == whole[..n]
    requires v <= MAX_UINT32 && k + 4 <= |whole| && whole[k..k + 4] == Le32(v)
    ensures Word(i + k, m) == if k + 4 <= n then Got(i + k + 4, v) else Past
  {
    if k + 4 <= n {
      assert m[i + k..i + k + 4] == m[i..][k..k + 4] == whole[..n][k..k + 4] == whole[k..k + 4];
      WordHere(m, i + k, v);
    }
  }

  lemma OctetOfPrefix(m: bytes, i: nat, whole: bytes, n: nat, k: nat)
    requires n <= |whole| && |m| == i + n && m[i..] == whole[..n] && k < |whole|
    ensures Octet(i + k, m) == if k < n then Got(i + k + 1, whole[k]) else Past
  {
    if k < n {
      assert m[i + k] == m[i..][k] == whole[..n][k];
    }
  }

  /** A REINIT of which n bytes arrive stores exactly the fields that are whole, and never the adjustment. */
  lemma ReinitCutOff(e: Event, m: bytes, i: nat, n: nat, c: Config)
    requires e.Reinit? && Encodable(e) && n < 14 && |m| == i + n
    requires m[i..] == Fields(e.processCount, e.timeoutAsync, e.timeoutSync, e.priority, e.adjustment)[..n]
    ensures ReinitAt(i, m).Past?
    ensures ReinitPart(i, m, c)
         == c.(processCount := if n >= 4 then e.processCount else c.processCount,
               timeoutAsync := if n >= 8 then e.timeoutAsync else c.timeoutAsync,
               timeoutSync := if n >= 12 then e.timeoutSync else c.timeoutSync,
               priorityDefault := if n >= 13 then Int8(e.priority) else c.priorityDefault)
  {
    hide Word, Octet, Le32, Int8;
    var whole := Fields(e.processCount, e.timeoutAsync, e.timeoutSync, e.priority, e.adjustment);
    assert whole[0..4] == Le32(e.processCount) && whole[4..8] == Le32(e.timeoutAsync);
    assert whole[8..12] == Le32(e.timeoutSync) && whole[12] == e.priority;
    WordOfPrefix(m, i, whole, n, 0, e.processCount);
    WordOfPrefix(m, i, whole, n, 4, e.timeoutAsync);
    WordOfPrefix(m, i, whole, n, 8, e.timeoutSync);
    OctetOfPrefix(m, i, whole, n, 12);
    OctetOfPrefix(m, i, whole, n, 13);
  }

  predicate Small(x: Init) {
    && x.processIndex <= MAX_UINT32 && x.processCount <= MAX_UINT32 && x.processCountMax <= MAX_UINT32
    && x.processCountMin <= MAX_UINT32 && |x.prefix| <= MAX_UINT32 && x.timeoutInitialize <= MAX_UINT32
    && x.timeoutAsync <= MAX_UINT32 && x.timeoutSync <= MAX_UINT32 && x.timeoutTerminate <= MAX_UINT32
  }

  lemma InitSmall(x: Init)
    requires InitSendable(x)
    ensures Small(x)
  {
    var f, b := Front(x), Back(x);
    assert f[0] <= MAX_UINT32 && f[1] <= MAX_UINT32 && f[2] <= MAX_UINT32 && f[3] <= MAX_UINT32 && f[4] <= MAX_UINT32;
    assert b[0] <= MAX_UINT32 && b[1] <= MAX_UINT32 && b[2] <= MAX_UINT32 && b[3] <= MAX_UINT32;
  }

  /** The words of INIT, and where its prefix ends. */
  lemma InitWords(x: Init)
    requires InitSendable(x) && Small(x)
    ensures var (w, k) := (InitBytes(x), 20 + |x.prefix|);
            && |w| == k + 18
            && w[0..4] == Le32(x.processIndex) && w[4..8] == Le32(x.processCount)
            && w[8..12] == Le32(x.processCountMax) && w[12..16] == Le32(x.processCountMin)
            && w[16..20] == Le32(|x.prefix|) && w[20..k] == x.prefix
            && w[k..k + 4] == Le32(x.timeoutInitialize) && w[k + 4..k + 8] == Le32(x.timeoutAsync)
            && w[k + 8..k + 12] == Le32(x.timeoutSync) && w[k + 12..k + 16] == Le32(x.timeoutTerminate)
            && w[k + 16] == x.priority && w[k + 17] == x.adjustment
  {
    hide Le32;
    FiveWords(x.processIndex, x.processCount, x.processCountMax, x.processCountMin, |x.prefix|);
    FourWords(x.timeoutInitialize, x.timeoutAsync, x.timeoutSync, x.timeoutTerminate);
    var a := Le32(x.processIndex) + Le32(x.processCount) + Le32(x.processCountMax) + Le32(x.processCountMin)
             + Le32(|x.prefix|);
    var b := Le32(x.timeoutInitialize) + Le32(x.timeoutAsync) + Le32(x.timeoutSync) + Le32(x.timeoutTerminate);
    var k := 20 + |x.prefix|;
    var w := a + (x.prefix + (b + [x.priority, x.adjustment]));
    assert InitBytes(x) == w;
    Pieces(a, x.prefix, b, [x.priority, x.adjustment]);
    assert w[k + 16] == w[k + 16..][0] && w[k + 17] == w[k + 16..][1];
    assert a[0..4] == Le32(x.processIndex) && a[4..8] == Le32(x.processCount);
    assert a[8..12] == Le32(x.processCountMax) && a[12..16] == Le32(x.processCountMin);
    assert a[16..20] == Le32(|x.prefix|);
    assert b[0..4] == Le32(x.timeoutInitialize) && b[4..8] == Le32(x.timeoutAsync);
    assert b[8..12] == Le32(x.timeoutSync) && b[12..16] == Le32(x.timeoutTerminate);
  }

  lemma FiveWords(a: nat, b: nat, c: nat, d: nat, e: nat)
    requires a <= MAX_UINT32 && b <= MAX_UINT32 && c <= MAX_UINT32 && d <= MAX_UINT32 && e <= MAX_UINT32
    ensures Words([a, b, c, d, e]) == Le32(a) + Le32(b) + Le32(c) + Le32(d) + Le32(e)
  {
    hide Le32;
    FourWords(b, c, d, e);
    assert [a, b, c, d, e][1..] == [b, c, d, e];
    assert Le32(a) + (Le32(b) + Le32(c) + Le32(d) + Le32(e)) == Le32(a) + Le32(b) + Le32(c) + Le32(d) + Le32(e);
  }

  lemma FourWords(b: nat, c: nat, d: nat, e: nat)
    requires b <= MAX_UINT32 && c <= MAX_UINT32 && d <= MAX_UINT32 && e <= MAX_UINT32
    ensures Words([b, c, d, e]) == Le32(b) + Le32(c) + Le32(d) + Le32(e)
  {
    hide Le32;
    assert [b, c, d, e][1..] == [c, d, e] && [c, d, e][1..] == [d, e] && [d, e][1..] == [e] && [e][1..] == [];
    assert Words([e]) == Le32(e) + [] == Le32(e);
    assert Words([d, e]) == Le32(d) + Le32(e);
    assert Words([c, d, e]) == Le32(c) + (Le32(d) + Le32(e));
    assert Le32(b) + (Le32(c) + (Le32(d) + Le32(e))) == Le32(b) + Le32(c) + Le32(d) + Le32(e);
  }

  /** Parts of a string of four parts, as parts of the first and the third. */
  lemma Pieces(a: bytes, p: bytes, b: bytes, z: bytes)
    ensures var (w, k) := (a + (p + (b + z)), |a| + |p|);
            && |w| == k + |b| + |z|
            && (forall i, j :: 0 <= i <= j <= |a| ==> w[i..j] == a[i..j]) && w[|a|..k] == p
            && (forall i, j :: 0 <= i <= j <= |b| ==> w[k + i..k + j] == b[i..j])
            && w[k + |b|..] == z
  {
    var w, k := a + (p + (b + z)), |a| + |p|;
    forall i, j | 0 <= i <= j <= |b|
      ensures w[k + i..k + j] == b[i..j]
    {
      assert forall t :: i <= t < j ==> w[k + t] == b[t];
    }
  }

  /** The fields of the identity that are whole in the first n bytes of INIT. */
  function InitIdentity(x: Init, n: nat, d: Identity): Identity {
    var k := 20 + |x.prefix|;
    Identity(
      if n >= 4 then x.processIndex else d.processIndex,
      if n >= 12 then x.processCountMax else d.processCountMax,
      if n >= 16 then x.processCountMin else d.processCountMin,
      if n > 20 && n >= k then x.prefix else d.prefix,
      if n >= k + 4 then x.timeoutInitialize else d.timeoutInitialize,
      if n >= k + 16 then x.timeoutTerminate else d.timeoutTerminate)
  }

  /** The fields of the configuration that are. */
  function InitConfig(x: Init, n: nat, c: Config): Config {
    var k := 20 + |x.prefix|;
    c.(processCount := if n >= 8 then x.processCount else c.processCount,
       timeoutAsync := if n >= k + 8 then x.timeoutAsync else c.timeoutAsync,
       timeoutSync := if n >= k + 12 then x.timeoutSync else c.timeoutSync,
       priorityDefault := if n >= k + 17 then Int8(x.priority) else c.priorityDefault)
  }

  lemma SliceOfPrefix(m: bytes, i: nat, whole: bytes, n: nat, k: nat, j: nat)
    requires n <= |whole| && |m| == i + n && m[i..] == whole[..n] && k <= j <= n
    ensures m[i + k..i + j] == whole[k..j]
  {
    var rest := m[i..];
    forall t | 0 <= t < j - k
      ensures m[i + k..i + j][t] == whole[k..j][t]
    {
      assert m[i + (k + t)] == rest[k + t] == whole[..n][k + t] == whole[k + t];
    }
    assert |m[i + k..i + j]| == |whole[k..j]|;
  }

  /** The words in front of the prefix, of which n bytes arrive. */
  ghost predicate FrontRead(m: bytes, i: nat, n: nat, x: Init) {
    && Word(i, m) == (if n >= 4 then Got(i + 4, x.processIndex) else Past)
    && Word(i + 4, m) == (if n >= 8 then Got(i + 8, x.processCount) else Past)
    && Word(i + 8, m) == (if n >= 12 then Got(i + 12, x.processCountMax) else Past)
    && Word(i + 12, m) == (if n >= 16 then Got(i + 16, x.processCountMin) else Past)
    && SpanAt(i + 16, m) == (if n > 20 then Got(i + 20, Span(i + 20, |x.prefix|)) else Past)
  }

  lemma FrontCutOff(m: bytes, i: nat, n: nat, x: Init)
    requires InitSendable(x) && n <= |InitBytes(x)| && |m| == i + n && m[i..] == InitBytes(x)[..n]
    ensures FrontRead(m, i, n, x)
  {
    hide Word, Le32, InitBytes;
    InitSmall(x);
    InitWords(x);
    var w := InitBytes(x);
    WordOfPrefix(m, i, w, n, 0, x.processIndex);
    WordOfPrefix(m, i, w, n, 4, x.processCount);
    WordOfPrefix(m, i, w, n, 8, x.processCountMax);
    WordOfPrefix(m, i, w, n, 12, x.processCountMin);
    WordOfPrefix(m, i, w, n, 16, |x.prefix|);
  }

  /** An INIT of which n bytes arrive stores exactly the fields that are whole, and never the adjustment. */
  lemma InitCutOff(s: State, x: Init, i: nat, n: nat)
    requires InitSendable(x) && n < |InitBytes(x)| && |s.recv| == i + n && s.recv[i..] == InitBytes(x)[..n]
    ensures InitAt(i, s).Past?
    ensures InitPart(i, s) == s.(identity := InitIdentity(x, n, s.identity), config := InitConfig(x, n, s.config))
  {
    hide Word, SpanAt, InitBytes, InitEndAt, InitEndPart, Content, Int8;
    var k := 20 + |x.prefix|;
    FrontCutOff(s.recv, i, n, x);
    if n > 20 && n >= k {
      PrefixArrives(s, x, i, n);
      InitEndCutOff(InitFront(s, x), x, i, n);
    } else if n < 8 {
      assert InitAt(i, s).Past?;
    } else if n < 16 {
      assert InitAt(i, s).Past?;
    } else {
      assert InitAt(i, s).Past?;
    }
  }

  /** The fields up to the prefix. */
  function InitFront(s: State, x: Init): State {
    s.(identity := s.identity.(processIndex := x.processIndex, processCountMax := x.processCountMax,
                               processCountMin := x.processCountMin, prefix := x.prefix),
       config := s.config.(processCount := x.processCount))
  }

  lemma PrefixArrives(s: State, x: Init, i: nat, n: nat)
    requires InitSendable(x) && n < |InitBytes(x)| && |s.recv| == i + n && s.recv[i..] == InitBytes(x)[..n]
    requires n > 20 && n >= 20 + |x.prefix| && FrontRead(s.recv, i, n, x)
    ensures var k := 20 + |x.prefix|;
            && InitAt(i, s).Got? == InitEndAt(i + k, s.recv).Got?
            && InitPart(i, s)
               == InitEndPart(i + k, InitFront(s, x))
  {
    hide Word, SpanAt, InitBytes, InitEndAt, InitEndPart, Int8, Content, Le32;
    var k := 20 + |x.prefix|;
    InitSmall(x);
    InitWords(x);
    SliceOfPrefix(s.recv, i, InitBytes(x), n, 20, k);
    ContentHere(s.recv, i + 20, x.prefix);
  }

  lemma InitEndCutOff(s: State, x: Init, i: nat, n: nat)
    requires InitSendable(x) && n < |InitBytes(x)| && |s.recv| == i + n && s.recv[i..] == InitBytes(x)[..n]
    requires n >= 20 + |x.prefix|
    ensures InitEndAt(i + 20 + |x.prefix|, s.recv).Past?
    ensures var k := 20 + |x.prefix|;
            InitEndPart(i + k, s)
            == s.(identity := s.identity.(
                    timeoutInitialize := if n >= k + 4 then x.timeoutInitialize else s.identity.timeoutInitialize,
                    timeoutTerminate := if n >= k + 16 then x.timeoutTerminate else s.identity.timeoutTerminate),
                  config := s.config.(
                    timeoutAsync := if n >= k + 8 then x.timeoutAsync else s.config.timeoutAsync,
                    timeoutSync := if n >= k + 12 then x.timeoutSync else s.config.timeoutSync,
                    priorityDefault := if n >= k + 17 then Int8(x.priority) else s.config.priorityDefault))
  {
    hide Word, Octet, Le32, Int8, InitBytes;
    var m, w, k := s.recv, InitBytes(x), 20 + |x.prefix|;
    InitSmall(x);
    InitWords(x);
    WordOfPrefix(m, i, w, n, k, x.timeoutInitialize);
    WordOfPrefix(m, i, w, n, k + 4, x.timeoutAsync);
    WordOfPrefix(m, i, w, n, k + 8, x.timeoutSync);
    WordOfPrefix(m, i, w, n, k + 12, x.timeoutTerminate);
    OctetOfPrefix(m, i, w, n, k + 16);
    OctetOfPrefix(m, i, w, n, k + 17);
  }

  /** Where the trans_id of a response starts, and what is stored of the parts in front of it. */
  function IdAt(info: bytes, body: bytes): nat {
    |info| + |body| + 10
  }

  function ResponseParts(info: bytes, body: bytes, i: nat, n: nat, r: Response): Response {
    var j := |info| + 5;
    var front := if n > 4 then r.(info := Span(i + 4, |info|))
                 else if n == 4 then r.(info := r.info.(size := |info|)) else r;
    if n > j + 4 then front.(body := Span(i + j + 4, |body|), transIdCount := 1)
    else if n == j + 4 then front.(body := front.body.(size := |body|)) else front
  }

  lemma ResponseWords(info: bytes, body: bytes, transId: bytes)
    requires |info| <= MAX_UINT32 && |body| <= MAX_UINT32
    ensures var (w, j) := (FieldBytes([info, body], [[0], [0]]) + transId, |info| + 5);
            && |w| == IdAt(info, body) + |transId| && w[0..4] == Le32(|info|) && w[j..j + 4] == Le32(|body|)
  {
    hide Le32;
    assert [info, body][1..] == [body] && [body][1..] == [] && [[0], [0]][1..] == [[0]];
    assert FieldBytes([body], [[0]]) == Le32(|body|) + body + [0] + [];
    var first, second := Le32(|info|) + info + [0], Le32(|body|) + body + [0];
    var w := first + second + transId;
    assert FieldBytes([info, body], [[0], [0]]) + transId == w;
    assert w[0..4] == Le32(|info|) && w[|first|..|first| + 4] == second[0..4] == Le32(|body|);
  }

  /**
   * A response of which n bytes arrive in front of its trans_id: a size is stored before its pointer,
   * the count of the trans_ids with the second pointer. A trans_id that is cut off is not noticed.
   */
  lemma ResponseCutOff(
    s: State, command: nat, info: bytes, body: bytes, transId: bytes, i: nat, n: nat)
    requires command == MESSAGE_RECV_ASYNC || command == MESSAGE_RETURN_SYNC
    requires |info| <= MAX_UINT32 && |body| <= MAX_UINT32
    requires |s.recv| == i + n && i + IdAt(info, body) <= MAX_UINT32
    requires var w := FieldBytes([info, body], [[0], [0]]) + transId; n <= |w| && s.recv[i..] == w[..n]
    ensures AnswerAt(command, i, s).Past? <==> n <= IdAt(info, body)
    ensures n <= IdAt(info, body) ==>
              AnswerPart(command, i, s) == s.(response := ResponseParts(info, body, i, n, s.response))
  {
    hide Word, Le32, FieldBytes, SpansAt;
    var m, w, j := s.recv, FieldBytes([info, body], [[0], [0]]) + transId, |info| + 5;
    ResponseWords(info, body, transId);
    WordOfPrefix(m, i, w, n, 0, |info|);
    WordOfPrefix(m, i, w, n, j, |body|);
    if n > 4 {
      assert Advance(i + 4, |info| + 1) == i + j;
      assert n > j + 4 ==> Advance(i + j + 4, |body| + 1) == i + IdAt(info, body);
    }
    TwoSpansCutOff(m, i, n, |info|, |body|);
  }

  lemma TwoSpansCutOff(m: bytes, i: nat, n: nat, info: nat, body: nat)
    requires |m| == i + n && i + info + body + 10 <= MAX_UINT32
    requires Word(i, m) == (if n >= 4 then Got(i + 4, info) else Past)
    requires Word(i + info + 5, m) == (if n >= info + 9 then Got(i + info + 9, body) else Past)
    ensures var r := SpansAt(i, m, RESPONSE_PADDING);
            if n > info + 9
            then r == Got(i + info + body + 10, [Span(i + 4, info), Span(i + info + 9, body)]) else r.Past?
  {
    hide Word;
    var pads: seq<nat> := [1, 1];
    var one: seq<nat> := [1];
    assert pads[1..] == one && |one[1..]| == 0;
    if n > 4 {
      var j := i + info + 5;
      assert Advance(i + 4, info + 1) == j;
      if n > info + 9 {
        assert Advance(j + 4, body + 1) == i + info + body + 10;
        assert SpansAt(j, m, one) == Got(i + info + body + 10, [Span(j + 4, body)] + []);
        assert [Span(i + 4, info)] + ([Span(j + 4, body)] + []) == [Span(i + 4, info), Span(i + info + 9, body)];
      } else {
        assert SpansAt(j, m, one).Past?;
      }
    }
  }

  /** The other responses: the count of the trans_ids comes before their pointer. */
  lemma ResultCutOff(s: State, i: nat, n: nat, count: nat)
    requires |s.recv| == i + n && count <= MAX_UINT32
    ensures AnswerAt(MESSAGE_RETURN_ASYNC, i, s).Past? <==> n == 0
    ensures n == 0 ==> AnswerPart(MESSAGE_RETURN_ASYNC, i, s) == s.(response := s.response.(transIdCount := 1))
    ensures n < 4 ==>
              && AnswerAt(MESSAGE_RETURNS_ASYNC, i, s).Past? && AnswerAt(MESSAGE_SUBSCRIBE_COUNT, i, s).Past?
              && AnswerPart(MESSAGE_RETURNS_ASYNC, i, s) == s && AnswerPart(MESSAGE_SUBSCRIBE_COUNT, i, s) == s
    ensures n == 4 && s.recv[i..] == Le32(count) ==>
              && AnswerAt(MESSAGE_RETURNS_ASYNC, i, s).Past?
              && AnswerPart(MESSAGE_RETURNS_ASYNC, i, s) == s.(response := s.response.(transIdCount := count))
  {
    hide Le32;
    if n == 4 && s.recv[i..] == Le32(count) {
      assert s.recv[i..i + 4] == s.recv[i..];
      WordHere(s.recv, i, count);
    }
  }

  // The call buffer

  /** A copy replaces the front of the call buffer; older bytes stay behind it, or new ones come with more room. */
  lemma CopyKeeps(s: State, k: nat)
    requires k < |Copied(s).call|
    ensures Copied(s).call[k] == if k < |s.recv| then s.recv[k]
                                 else if |s.recv| < |s.call| then s.call[k] else s.spare[k - |s.recv|]
    ensures |Copied(s).call| == if |s.recv| < |s.call| then |s.call| else |s.recv| + |s.spare|
  {
  }
}
