/** The events behind a message, and `handle_events` of src/api/c/cloudi.cpp. */
module Events {
  import opened Bytes
  import opened Bignum

  const MESSAGE_INIT := 1
  const MESSAGE_SEND_ASYNC := 2
  const MESSAGE_SEND_SYNC := 3
  const MESSAGE_RECV_ASYNC := 4
  const MESSAGE_RETURN_ASYNC := 5
  const MESSAGE_RETURN_SYNC := 6
  const MESSAGE_RETURNS_ASYNC := 7
  const MESSAGE_KEEPALIVE := 8
  const MESSAGE_REINIT := 9
  const MESSAGE_SUBSCRIBE_COUNT := 10
  const MESSAGE_TERM := 11

  datatype Status =
    | Success | TimedOut | Terminated | Underflow | OutOfMemory
    | PollErrno | ReadErrno | AssertionFailed | PastBuffer

  /** A read through a buffer's index operator: the value and the next index, or past the allocation. */
  datatype Read<+T> = Got(next: nat, value: T) | Past {
    predicate IsFailure() {
      Past?
    }

    function PropagateFailure<U>(): Read<U>
      requires Past?
    {
      Past
    }

    function Extract(): (nat, T)
      requires Got?
    {
      (next, value)
    }
  }

  /** `store_incoming_uint32`. */
  function Word(i: nat, m: bytes): (r: Read<nat>)
    ensures r.Got? ==> r.next == i + 4 <= |m| && r.value <= MAX_UINT32
  {
    if i + 4 <= |m| then Got(i + 4, FromLe32(m[i..i + 4])) else Past
  }

  /** `store_incoming_int8` and `store_incoming_uint8`. */
  function Octet(i: nat, m: bytes): (r: Read<byte>)
    ensures r.Got? ==> r.next == i + 1 <= |m|
  {
    if i < |m| then Got(i + 1, m[i]) else Past
  }

  function Int8(b: byte): int {
    if b < 128 then b else b - 256
  }

  /** The part of the instance that REINIT changes. */
  datatype Config = Config(
    processCount: nat,
    timeoutAsync: nat,
    timeoutSync: nat,
    priorityDefault: int,
    requestTimeoutAdjustment: byte,
    requestTimeout: nat)

  datatype Event =
    | Reinit(processCount: nat, timeoutAsync: nat, timeoutSync: nat, priority: byte, adjustment: byte)
    | KeepAlive

  /** The fields of REINIT, and the request timeout it clears when it turns the adjustment on. */
  function Apply(c: Config, e: Event): Config {
    match e
    case KeepAlive => c
    case Reinit(count, async, sync, priority, adjustment) =>
      Config(count, async, sync, Int8(priority), adjustment, if adjustment != 0 then 0 else c.requestTimeout)
  }

  function ApplyAll(c: Config, es: seq<Event>): Config
    decreases |es|
  {
    if es == [] then c else ApplyAll(Apply(c, es[0]), es[1..])
  }

  predicate Encodable(e: Event) {
    e.Reinit? ==> e.processCount <= MAX_UINT32 && e.timeoutAsync <= MAX_UINT32 && e.timeoutSync <= MAX_UINT32
  }

  function EventBytes(e: Event): bytes
    requires Encodable(e)
  {
    match e
    case KeepAlive => Le32(MESSAGE_KEEPALIVE)
    case Reinit(count, async, sync, priority, adjustment) =>
      Le32(MESSAGE_REINIT) + Fields(count, async, sync, priority, adjustment)
  }

  function Fields(count: nat, async: nat, sync: nat, priority: byte, adjustment: byte): (s: bytes)
    requires count <= MAX_UINT32 && async <= MAX_UINT32 && sync <= MAX_UINT32
    ensures |s| == 14
  {
    Le32(count) + Le32(async) + Le32(sync) + [priority, adjustment]
  }

  function TailBytes(es: seq<Event>): bytes
    requires forall k :: 0 <= k < |es| ==> Encodable(es[k])
  {
    if es == [] then [] else EventBytes(es[0]) + TailBytes(es[1..])
  }

  /** The fields of REINIT at i. */
  function ReinitAt(i: nat, m: bytes): (r: Read<Event>)
    ensures r.Got? ==> r.next == i + 14 <= |m| && r.value.Reinit? && Encodable(r.value)
  {
    var (i, count) :- Word(i, m);
    var (i, async) :- Word(i, m);
    var (i, sync) :- Word(i, m);
    var (i, priority) :- Octet(i, m);
    var (i, adjustment) :- Octet(i, m);
    Got(i, Reinit(count, async, sync, priority, adjustment))
  }

  /** The fields that REINIT at i has stored when the buffer ends inside it. */
  function ReinitPart(i: nat, m: bytes, c: Config): (d: Config)
    ensures d.requestTimeoutAdjustment == c.requestTimeoutAdjustment && d.requestTimeout == c.requestTimeout
  {
    match Word(i, m)
    case Past => c
    case Got(i, count) =>
      var c := c.(processCount := count);
      match Word(i, m)
      case Past => c
      case Got(i, async) =>
        var c := c.(timeoutAsync := async);
        match Word(i, m)
        case Past => c
        case Got(i, sync) =>
          var c := c.(timeoutSync := sync);
          match Octet(i, m)
          case Past => c
          case Got(_, priority) => c.(priorityDefault := Int8(priority))
  }

  /** How `handle_events` ends: with true, or with false and a status. */
  datatype Outcome = Continue | Stop(status: Status)

  /** What it leaves behind: the outcome, the configuration, the events it has handled, the terminate flag. */
  datatype Handled = Handled(outcome: Outcome, config: Config, events: seq<Event>, terminate: bool)

  /** One event has been handled. */
  function Step(h: Handled, e: Event): Handled {
    h.(config := Apply(h.config, e), events := h.events + [e])
  }

  function Left(i: nat, limit: nat): nat {
    if i <= limit then limit - i + 1 else 0
  }

  /**
   * `handle_events` without a command: it reads the next one itself. The buffer m may hold stale
   * bytes behind the limit; nothing stops the loop from reading them.
   */
  function HandleEvents(m: bytes, limit: nat, external: bool, i: nat, h: Handled): Handled
    decreases Left(i, limit), 0
  {
    if i > limit then h.(outcome := Stop(Underflow))
    else
      match Word(i, m)
      case Past => h.(outcome := Stop(PastBuffer))
      case Got(j, command) => EventLoop(m, limit, external, command, j, h)
  }

  /** The body of the loop, with the command read and the index behind it. */
  function EventLoop(m: bytes, limit: nat, external: bool, command: nat, i: nat, h: Handled): Handled
    decreases Left(i, limit), 2
  {
    if command == MESSAGE_TERM then
      h.(outcome := Stop(if external then Success else Terminated), terminate := true)
    else if command == MESSAGE_REINIT then
      match ReinitAt(i, m)
      case Past => h.(outcome := Stop(PastBuffer), config := ReinitPart(i, m, h.config))
      case Got(j, e) => EventNext(m, limit, external, j, Step(h, e))
    else if command == MESSAGE_KEEPALIVE then
      EventNext(m, limit, external, i, Step(h, KeepAlive))
    else
      h.(outcome := Stop(Underflow))
  }

  /** The check behind an event; another event follows unless the limit is reached. */
  function EventNext(m: bytes, limit: nat, external: bool, i: nat, h: Handled): Handled
    decreases Left(i, limit), 1
  {
    if i > limit then h.(outcome := Stop(Underflow))
    else if i == limit then h.(outcome := Continue)
    else HandleEvents(m, limit, external, i, h)
  }

  /** A stretch of a buffer that is two strings one after the other. */
  lemma Cut(m: bytes, i: nat, j: nat, x: bytes, y: bytes)
    requires i <= j <= |m| && m[i..j] == x + y
    ensures i + |x| <= j && m[i..i + |x|] == x && m[i + |x|..j] == y
  {
    assert m[i..j][..|x|] == x && m[i..j][|x|..] == y;
    assert m[i..j][..|x|] == m[i..i + |x|] && m[i..j][|x|..] == m[i + |x|..j];
  }

  // Acceptance: exactly the concatenations of whole events

  lemma WordOf(n: nat, p: bytes, s: bytes)
    requires n <= MAX_UINT32
    ensures Word(|p|, p + Le32(n) + s) == Got(|p| + 4, n)
  {
    assert (p + Le32(n) + s)[|p|..|p| + 4] == Le32(n);
    Le32Inverse(n, Le32(n));
  }

  lemma WordBytes(i: nat, m: bytes)
    requires Word(i, m).Got?
    ensures m[i..i + 4] == Le32(Word(i, m).value)
  {
    Le32Inverse(0, m[i..i + 4]);
  }

  lemma ThreeWords(p: bytes, a: nat, b: nat, c: nat, s: bytes)
    requires a <= MAX_UINT32 && b <= MAX_UINT32 && c <= MAX_UINT32
    ensures var m := p + Le32(a) + Le32(b) + Le32(c) + s;
            && Word(|p|, m) == Got(|p| + 4, a) && Word(|p| + 4, m) == Got(|p| + 8, b)
            && Word(|p| + 8, m) == Got(|p| + 12, c)
  {
    var m := p + Le32(a) + Le32(b) + Le32(c) + s;
    assert m == p + Le32(a) + (Le32(b) + Le32(c) + s);
    WordOf(a, p, Le32(b) + Le32(c) + s);
    assert m == (p + Le32(a)) + Le32(b) + (Le32(c) + s);
    WordOf(b, p + Le32(a), Le32(c) + s);
    WordOf(c, p + Le32(a) + Le32(b), s);
  }

  lemma FieldsOf(e: Event, p: bytes, s: bytes)
    requires e.Reinit? && Encodable(e)
    ensures var m := p + Fields(e.processCount, e.timeoutAsync, e.timeoutSync, e.priority, e.adjustment) + s;
            ReinitAt(|p|, m) == Got(|p| + 14, e)
  {
    var m := p + Fields(e.processCount, e.timeoutAsync, e.timeoutSync, e.priority, e.adjustment) + s;
    var s' := [e.priority, e.adjustment] + s;
    assert m == p + Le32(e.processCount) + Le32(e.timeoutAsync) + Le32(e.timeoutSync) + s';
    ThreeWords(p, e.processCount, e.timeoutAsync, e.timeoutSync, s');
    assert m[|p| + 12..] == s';
    assert m[|p| + 12] == s'[0] && m[|p| + 13] == s'[1];
  }

  lemma ReinitOf(e: Event, p: bytes, s: bytes, m: bytes)
    requires e.Reinit? && Encodable(e) && m == p + EventBytes(e) + s
    ensures Word(|p|, m) == Got(|p| + 4, MESSAGE_REINIT) && ReinitAt(|p| + 4, m) == Got(|p| + |EventBytes(e)|, e)
  {
    var fields := Fields(e.processCount, e.timeoutAsync, e.timeoutSync, e.priority, e.adjustment);
    assert m == p + Le32(MESSAGE_REINIT) + (fields + s) == (p + Le32(MESSAGE_REINIT)) + fields + s;
    WordOf(MESSAGE_REINIT, p, fields + s);
    FieldsOf(e, p + Le32(MESSAGE_REINIT), s);
  }

  /** One whole event is consumed and applied, and the next check stands behind it. */
  lemma EventStep(e: Event, p: bytes, s: bytes, m: bytes, limit: nat, external: bool, h: Handled)
    requires Encodable(e) && |p| <= limit && m == p + EventBytes(e) + s
    ensures HandleEvents(m, limit, external, |p|, h)
         == EventNext(m, limit, external, |p| + |EventBytes(e)|, Step(h, e))
  {
    match e
    case KeepAlive =>
      WordOf(MESSAGE_KEEPALIVE, p, s);
    case Reinit(_, _, _, _, _) =>
      ReinitOf(e, p, s, m);
  }

  lemma EventBytesNonEmpty(e: Event)
    requires Encodable(e)
    ensures |EventBytes(e)| == if e.Reinit? then 18 else 4
  {
  }

  lemma EventAt(e: Event, m: bytes, i: nat, j: nat, limit: nat, external: bool, h: Handled)
    requires Encodable(e) && i <= j <= |m| && i <= limit && m[i..j] == EventBytes(e)
    ensures HandleEvents(m, limit, external, i, h) == EventNext(m, limit, external, j, Step(h, e))
  {
    assert m == m[..i] + EventBytes(e) + m[j..];
    EventStep(e, m[..i], m[j..], m, limit, external, h);
  }

  lemma TailCons(es: seq<Event>, m: bytes, i: nat, limit: nat) returns (j: nat)
    requires es != [] && forall k :: 0 <= k < |es| ==> Encodable(es[k])
    requires i <= limit <= |m| && m[i..limit] == TailBytes(es)
    ensures i < j <= limit && m[i..j] == EventBytes(es[0]) && m[j..limit] == TailBytes(es[1..])
    ensures j == limit <==> es[1..] == []
  {
    hide EventBytes;
    var x, y := EventBytes(es[0]), TailBytes(es[1..]);
    EventBytesNonEmpty(es[0]);
    j := i + |x|;
    Cut(m, i, limit, x, y);
    if es[1..] != [] {
      EventBytesNonEmpty(es[1..][0]);
    }
  }

  /**
   * A non-empty concatenation of whole events is accepted, whatever lies behind it. All of them have
   * then been handled in order, the configuration is their fold, and the terminate flag stays as it was.
   */
  lemma {:induction false} WholeEventsAccepted(
    es: seq<Event>, m: bytes, i: nat, limit: nat, external: bool, h: Handled)
    requires es != [] && forall k :: 0 <= k < |es| ==> Encodable(es[k])
    requires i <= limit <= |m| && m[i..limit] == TailBytes(es)
    ensures HandleEvents(m, limit, external, i, h)
         == Handled(Continue, ApplyAll(h.config, es), h.events + es, h.terminate)
    decreases |es|
  {
    assert h.events + es == (h.events + [es[0]]) + es[1..];
    var j := TailCons(es, m, i, limit);
    EventAt(es[0], m, i, j, limit, external, h);
    if j < limit {
      WholeEventsAccepted(es[1..], m, j, limit, external, Step(h, es[0]));
    }
  }

  /** A TERM behind whole events ends the loop; the events before it have been applied. */
  lemma {:induction false} TermAfterEvents(
    es: seq<Event>, m: bytes, i: nat, j: nat, limit: nat, external: bool, h: Handled)
    requires forall k :: 0 <= k < |es| ==> Encodable(es[k])
    requires i <= j && j + 4 <= limit <= |m|
    requires m[i..j] == TailBytes(es) && m[j..j + 4] == Le32(MESSAGE_TERM)
    ensures HandleEvents(m, limit, external, i, h)
         == Handled(Stop(if external then Success else Terminated), ApplyAll(h.config, es),
                    h.events + es, true)
    decreases |es|
  {
    if es == [] {
      assert h.events + es == h.events;
      Le32Inverse(MESSAGE_TERM, Le32(MESSAGE_TERM));
      assert Word(i, m) == Got(i + 4, MESSAGE_TERM);
      assert EventLoop(m, limit, external, MESSAGE_TERM, i + 4, h)
          == h.(outcome := Stop(if external then Success else Terminated), terminate := true);
    } else {
      assert h.events + es == (h.events + [es[0]]) + es[1..];
      var k := TailCons(es, m, i, j);
      EventAt(es[0], m, i, k, limit, external, h);
      TermAfterEvents(es[1..], m, k, j, limit, external, Step(h, es[0]));
    }
  }

  lemma ReinitBytes(i: nat, m: bytes)
    requires ReinitAt(i, m).Got? && i >= 4 && m[i - 4..i] == Le32(MESSAGE_REINIT)
    ensures m[i - 4..i + 14] == EventBytes(ReinitAt(i, m).value)
  {
    WordBytes(i, m);
    WordBytes(i + 4, m);
    WordBytes(i + 8, m);
    var e := ReinitAt(i, m).value;
    assert m[i..i + 14] == m[i..i + 4] + m[i + 4..i + 8] + m[i + 8..i + 12] + [m[i + 12], m[i + 13]];
    assert m[i - 4..i + 14] == m[i - 4..i] + m[i..i + 14];
  }

  /** The event that an accepted run of the loop starts with. */
  lemma FirstEvent(m: bytes, limit: nat, external: bool, i: nat, h: Handled) returns (e: Event, j: nat)
    requires limit <= |m| && HandleEvents(m, limit, external, i, h).outcome == Continue
    ensures Encodable(e) && i < j <= limit && m[i..j] == EventBytes(e)
    ensures HandleEvents(m, limit, external, i, h) == EventNext(m, limit, external, j, Step(h, e))
  {
    var command := Word(i, m).value;
    var r := EventLoop(m, limit, external, command, i + 4, h);
    assert HandleEvents(m, limit, external, i, h) == r;
    if command == MESSAGE_REINIT {
      e := ReinitAt(i + 4, m).value;
      j := i + 18;
      assert r == EventNext(m, limit, external, j, Step(h, e));
      assert m[i..j] == EventBytes(e) by {
        WordBytes(i, m);
        ReinitBytes(i + 4, m);
      }
    } else {
      e := KeepAlive;
      j := i + 4;
      assert r == EventNext(m, limit, external, j, Step(h, e));
      WordBytes(i, m);
    }
  }

  lemma TailJoin(m: bytes, i: nat, j: nat, limit: nat, e: Event, rest: seq<Event>)
    requires Encodable(e) && forall k :: 0 <= k < |rest| ==> Encodable(rest[k])
    requires i <= j <= limit <= |m| && m[i..j] == EventBytes(e) && m[j..limit] == TailBytes(rest)
    ensures forall k :: 0 <= k < |[e] + rest| ==> Encodable(([e] + rest)[k])
    ensures m[i..limit] == TailBytes([e] + rest)
  {
    assert ([e] + rest)[1..] == rest;
    assert m[i..limit] == m[i..j] + m[j..limit];
  }

  /** What is accepted is a non-empty concatenation of whole events, also with stale bytes behind it. */
  lemma {:induction false} AcceptedIsWholeEvents(m: bytes, limit: nat, external: bool, i: nat, h: Handled)
    returns (es: seq<Event>)
    requires limit <= |m| && HandleEvents(m, limit, external, i, h).outcome == Continue
    ensures es != [] && (forall k :: 0 <= k < |es| ==> Encodable(es[k]))
    ensures i <= limit && m[i..limit] == TailBytes(es)
    decreases if i < limit then limit - i else 0
  {
    var e, j := FirstEvent(m, limit, external, i, h);
    var rest := [];
    if j < limit {
      rest := AcceptedIsWholeEvents(m, limit, external, j, Step(h, e));
    }
    es := [e] + rest;
    TailJoin(m, i, j, limit, e, rest);
  }

  /**
   * `handle_events` returns true exactly when the bytes between the index and the limit are a
   * non-empty concatenation of whole REINIT and KEEPALIVE events, whatever lies behind the limit.
   */
  lemma TrueExactlyOnWholeEvents(m: bytes, limit: nat, external: bool, i: nat, h: Handled)
    requires i <= limit <= |m|
    ensures HandleEvents(m, limit, external, i, h).outcome == Continue
       <==> exists es :: es != [] && (forall k :: 0 <= k < |es| ==> Encodable(es[k])) && m[i..limit] == TailBytes(es)
  {
    if HandleEvents(m, limit, external, i, h).outcome == Continue {
      var es := AcceptedIsWholeEvents(m, limit, external, i, h);
    }
    forall es | es != [] && (forall k :: 0 <= k < |es| ==> Encodable(es[k])) && m[i..limit] == TailBytes(es)
      ensures HandleEvents(m, limit, external, i, h).outcome == Continue
    {
      WholeEventsAccepted(es, m, i, limit, external, h);
    }
  }

  // What the events leave

  lemma {:induction false} ApplySnoc(c: Config, es: seq<Event>, e: Event)
    ensures ApplyAll(c, es + [e]) == Apply(ApplyAll(c, es), e)
    decreases |es|
  {
    hide Apply;
    if es == [] {
      assert es + [e] == [e] && [e][1..] == [];
      assert ApplyAll(c, [e]) == ApplyAll(Apply(c, e), []);
    } else {
      assert (es + [e])[1..] == es[1..] + [e];
      ApplySnoc(Apply(c, es[0]), es[1..], e);
    }
  }

  /** Events without REINIT leave the configuration alone. */
  lemma {:induction false} KeepAlivesLeave(c: Config, es: seq<Event>)
    requires forall k :: 0 <= k < |es| ==> es[k].KeepAlive?
    ensures ApplyAll(c, es) == c
    decreases |es|
  {
    if es != [] {
      KeepAlivesLeave(c, es[1..]);
    }
  }

  /** A REINIT somewhere in the events turned the timeout adjustment on. */
  ghost predicate Adjusts(es: seq<Event>) {
    exists k :: 0 <= k < |es| && es[k].Reinit? && es[k].adjustment != 0
  }

  /**
   * The last REINIT decides: the configuration after any events holds its fields, whatever it was
   * before. Only the request timeout remembers earlier ones, which cleared it or did not.
   */
  lemma {:induction false} LastReinitDecides(c: Config, es: seq<Event>, k: nat)
    requires k < |es| && es[k].Reinit? && forall j :: k < j < |es| ==> es[j].KeepAlive?
    ensures ApplyAll(c, es) == Config(es[k].processCount, es[k].timeoutAsync, es[k].timeoutSync,
                                      Int8(es[k].priority), es[k].adjustment,
                                      if Adjusts(es) then 0 else c.requestTimeout)
    decreases |es|
  {
    var rest := es[1..];
    assert forall j :: 0 <= j < |rest| ==> rest[j] == es[j + 1];
    if k > 0 {
      assert rest[k - 1] == es[k];
      LastReinitDecides(Apply(c, es[0]), rest, k - 1);
      AdjustsCons(es);
    } else {
      KeepAlivesLeave(Apply(c, es[0]), rest);
      AdjustsCons(es);
      assert !Adjusts(rest);
    }
  }

  lemma AdjustsCons(es: seq<Event>)
    requires es != []
    ensures Adjusts(es) <==> (es[0].Reinit? && es[0].adjustment != 0) || Adjusts(es[1..])
  {
    assert forall j :: 0 <= j < |es[1..]| ==> es[1..][j] == es[j + 1];
    if Adjusts(es) && !(es[0].Reinit? && es[0].adjustment != 0) {
      var k :| 0 <= k < |es| && es[k].Reinit? && es[k].adjustment != 0;
      assert es[1..][k - 1] == es[k];
    }
    if Adjusts(es[1..]) {
      var k :| 0 <= k < |es[1..]| && es[1..][k].Reinit? && es[1..][k].adjustment != 0;
      assert es[k + 1] == es[1..][k];
    }
  }
}
