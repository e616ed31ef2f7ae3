/** How a poll ends, by what arrives: the statuses, and the numbers of the messages. */
module ProtocolStatuses {
  import opened Bytes
  import opened Bignum
  import opened Events
  import opened Protocol
  import opened ProtocolRequests
  import opened ProtocolRuns
  import opened ProtocolAnswers
  import opened ProtocolLifecycle
  import opened PollBudgets

  /** The messages of the service by their first word. */
  lemma MessageWords()
    ensures Le32(MESSAGE_INIT) == [1, 0, 0, 0] && Le32(MESSAGE_SEND_ASYNC) == [2, 0, 0, 0]
    ensures Le32(MESSAGE_SEND_SYNC) == [3, 0, 0, 0] && Le32(MESSAGE_RECV_ASYNC) == [4, 0, 0, 0]
    ensures Le32(MESSAGE_RETURN_ASYNC) == [5, 0, 0, 0] && Le32(MESSAGE_RETURN_SYNC) == [6, 0, 0, 0]
    ensures Le32(MESSAGE_RETURNS_ASYNC) == [7, 0, 0, 0] && Le32(MESSAGE_KEEPALIVE) == [8, 0, 0, 0]
    ensures Le32(MESSAGE_REINIT) == [9, 0, 0, 0] && Le32(MESSAGE_SUBSCRIBE_COUNT) == [10, 0, 0, 0]
    ensures Le32(MESSAGE_TERM) == [11, 0, 0, 0]
  {
  }

  /** The input that the next poll gets; behind all of them poll(2) fails. */
  function NextInput(s: State): Input {
    if s.inputs == [] then PollFails else s.inputs[0]
  }

  /** What a poll of s has read, as far as the trace tells. */
  function ReadOf(s: State, external: bool): seq<Entry> {
    Announced(s, external).trace + [Read(NextInput(s), external)]
  }

  /** Without a message that fits the poll ends at once, and says why. */
  lemma NothingRead(s: State, timeout: int, external: bool)
    requires !s.terminate
    requires var x := NextInput(s); !x.Frame? || x.body == [] || |x.body| > MAX_UINT32
    ensures var (t, status) := Poll(s, timeout, external);
            && t.trace == ReadOf(s, external) && t.config == s.config && t.lookup == s.lookup && t.call == s.call
            && status == match NextInput(s)
                         case Quiet => TimedOut
                         case PollFails => PollErrno
                         case ReadFails => ReadErrno
                         case NoMemory => OutOfMemory
                         case Frame(body, _, _, _) => if body == [] then Underflow else OutOfMemory
  {
  }

  /** A message behind some events: the poll goes on at its first byte, with the events handled. */
  lemma Arrives(s: State, lead: seq<Event>, rest: bytes, timeout: int, external: bool) returns (w: State, j: nat)
    requires !s.terminate && s.inputs != [] && s.inputs[0].Frame? && |s.inputs[0].body| <= MAX_UINT32
    requires (forall k :: 0 <= k < |lead| ==> Encodable(lead[k])) && rest != []
    requires s.inputs[0].body == TailBytes(lead) + rest
    ensures j < w.recvIndex == j + |rest| <= |w.recv| == w.recvIndex + |s.inputs[0].stale|
    ensures w.recvIndex <= MAX_UINT32 && w.recv[j..w.recvIndex] == rest
    ensures w.recv == s.inputs[0].body + s.inputs[0].stale
    ensures Poll(s, timeout, external) == Dispatch(w, j, s.inputs[0].elapsed, timeout, external)
    ensures !w.terminate && w.config == ApplyAll(s.config, lead) && w.response == s.response && w.lookup == s.lookup
    ensures w.identity == s.identity && w.inputs == s.inputs[1..] && w.call == s.call && w.handlers == s.handlers
    ensures w.trace == ReadOf(s, external) + EventEntries(lead)
  {
    hide Dispatch, Receive, TailBytes, EventEntries, ApplyAll;
    var input, a := s.inputs[0], Announced(s, external);
    var t := a.(inputs := a.inputs[1..], trace := a.trace + [Read(input, external)]);
    var v := Loaded(t, input.body, input.stale, input.spare);
    j := |TailBytes(lead)|;
    assert v.recv[0..j] == TailBytes(lead) && v.recv[j..v.recvIndex] == rest;
    ReceiveFrame(a, t, timeout, external);
    LeadingDone(v, j, lead, input.elapsed, timeout, external);
    w := Led(v, lead);
  }

  /** TERM ends the poll, whatever is behind it: with success for the user, as terminated inside a call. */
  lemma TermArrives(s: State, lead: seq<Event>, rest: bytes, timeout: int, external: bool)
    requires !s.terminate && s.inputs != [] && s.inputs[0].Frame? && |s.inputs[0].body| <= MAX_UINT32
    requires forall k :: 0 <= k < |lead| ==> Encodable(lead[k])
    requires s.inputs[0].body == TailBytes(lead) + (Le32(MESSAGE_TERM) + rest)
    ensures var (t, status) := Poll(s, timeout, external);
            && t.terminate && status == (if external then Success else Terminated)
            && t.trace == ReadOf(s, external) + EventEntries(lead) + [TermSeen]
            && t.config == ApplyAll(s.config, lead) && t.inputs == s.inputs[1..]
  {
    hide Dispatch, Poll, TailBytes, EventEntries, ApplyAll, ReadOf, Le32;
    var w, j := Arrives(s, lead, Le32(MESSAGE_TERM) + rest, timeout, external);
    Cut(w.recv, j, w.recvIndex, Le32(MESSAGE_TERM), rest);
    WordHere(w.recv, j, MESSAGE_TERM);
    TermDispatched(w, j, s.inputs[0].elapsed, timeout, external);
  }

  lemma TermDispatched(s: State, i: nat, elapsed: nat, timeout: int, external: bool)
    requires i <= s.recvIndex && Word(i, s.recv) == Got(i + 4, MESSAGE_TERM) && !s.terminate
    ensures Dispatch(s, i, elapsed, timeout, external)
         == (s.(terminate := true, trace := s.trace + [TermSeen]), if external then Success else Terminated)
  {
    assert EventTrace([], true) == [TermSeen];
    assert Dispatch(s, i, elapsed, timeout, external)
        == DispatchEvent(s, MESSAGE_TERM, i + 4, elapsed, timeout, external);
  }

  /** A message of any other number is refused as an underflow, and nothing of it is handled. */
  lemma UnknownArrives(s: State, lead: seq<Event>, command: nat, rest: bytes, timeout: int, external: bool)
    requires !s.terminate && s.inputs != [] && s.inputs[0].Frame? && |s.inputs[0].body| <= MAX_UINT32
    requires forall k :: 0 <= k < |lead| ==> Encodable(lead[k])
    requires (command == 0 || 11 < command <= MAX_UINT32)
    requires s.inputs[0].body == TailBytes(lead) + (Le32(command) + rest)
    ensures var (t, status) := Poll(s, timeout, external);
            && status == Underflow && !t.terminate && t.trace == ReadOf(s, external) + EventEntries(lead)
            && t.config == ApplyAll(s.config, lead) && t.response == s.response && t.lookup == s.lookup
  {
    hide Dispatch, Poll, TailBytes, EventEntries, ApplyAll, ReadOf, Le32;
    var w, j := Arrives(s, lead, Le32(command) + rest, timeout, external);
    Cut(w.recv, j, w.recvIndex, Le32(command), rest);
    WordHere(w.recv, j, command);
    UnknownDispatched(w, j, command, s.inputs[0].elapsed, timeout, external);
  }

  lemma UnknownDispatched(s: State, i: nat, command: nat, elapsed: nat, timeout: int, external: bool)
    requires i <= s.recvIndex && Word(i, s.recv) == Got(i + 4, command) && (command == 0 || command > 11)
    ensures Dispatch(s, i, elapsed, timeout, external) == (s, Underflow)
  {
    assert Dispatch(s, i, elapsed, timeout, external)
        == DispatchEvent(s, command, i + 4, elapsed, timeout, external);
  }

  /** Less than a word is an index behind the allocation, if no older bytes are there to be read instead. */
  lemma CutOffArrives(s: State, lead: seq<Event>, rest: bytes, timeout: int, external: bool)
    requires !s.terminate && s.inputs != [] && s.inputs[0].Frame? && |s.inputs[0].body| <= MAX_UINT32
    requires forall k :: 0 <= k < |lead| ==> Encodable(lead[k])
    requires s.inputs[0].body == TailBytes(lead) + rest && 0 < |rest| && |rest| + |s.inputs[0].stale| < 4
    ensures var (t, status) := Poll(s, timeout, external);
            status == PastBuffer && t.trace == ReadOf(s, external) + EventEntries(lead)
  {
    hide Poll, TailBytes, EventEntries, ApplyAll, ReadOf, DispatchEvent, DispatchSend;
    var w, j := Arrives(s, lead, rest, timeout, external);
    assert Word(j, w.recv).Past?;
  }

  /** An event that goes on in older bytes of the buffer is handled, and the poll then ends with an underflow. */
  lemma BeyondArrives(
    s: State, lead: seq<Event>, e: Event, rest: bytes, older: bytes, timeout: int, external: bool)
    requires !s.terminate && s.inputs != [] && s.inputs[0].Frame? && |s.inputs[0].body| <= MAX_UINT32
    requires Encodable(e) && forall k :: 0 <= k < |lead| ==> Encodable(lead[k])
    requires s.inputs[0].body == TailBytes(lead) + rest && rest != [] && older != []
    requires rest + older == EventBytes(e) && older <= s.inputs[0].stale
    ensures var (t, status) := Poll(s, timeout, external);
            && status == Underflow && t.config == Apply(ApplyAll(s.config, lead), e)
            && t.trace == ReadOf(s, external) + EventEntries(lead) + [EventEntry(e)]
  {
    hide Dispatch, Poll, TailBytes, EventEntries, ApplyAll, Apply, ReadOf, EventBytes;
    var w, j := ArrivesWith(s, lead, rest, older, timeout, external);
    var k := j + |rest| + |older|;
    FirstDispatched(w, j, k, e, s.inputs[0].elapsed, timeout, external);
    assert Dispatch(w, j, s.inputs[0].elapsed, timeout, external) == (Handles(w, e), Underflow);
  }

  lemma ArrivesWith(s: State, lead: seq<Event>, rest: bytes, older: bytes, timeout: int, external: bool)
    returns (w: State, j: nat)
    requires !s.terminate && s.inputs != [] && s.inputs[0].Frame? && |s.inputs[0].body| <= MAX_UINT32
    requires (forall k :: 0 <= k < |lead| ==> Encodable(lead[k])) && rest != []
    requires s.inputs[0].body == TailBytes(lead) + rest && older <= s.inputs[0].stale
    ensures j + |rest| == w.recvIndex && w.recvIndex + |older| <= |w.recv|
    ensures w.recv[j..w.recvIndex + |older|] == rest + older
    ensures Poll(s, timeout, external) == Dispatch(w, j, s.inputs[0].elapsed, timeout, external)
    ensures w.config == ApplyAll(s.config, lead) && w.trace == ReadOf(s, external) + EventEntries(lead)
  {
    hide Dispatch, Poll, TailBytes, EventEntries, ApplyAll, ReadOf;
    w, j := Arrives(s, lead, rest, timeout, external);
    assert w.recv == s.inputs[0].body + s.inputs[0].stale;
    assert w.recv[j..w.recvIndex + |older|] == w.recv[j..w.recvIndex] + w.recv[w.recvIndex..w.recvIndex + |older|];
    assert w.recv[w.recvIndex..w.recvIndex + |older|] == s.inputs[0].stale[..|older|];
  }

  /**
   * Where the buffer ends inside a message the poll ends with an exception, and what the message has
   * stored by then stays; nothing is handed to a callback.
   */
  lemma EndsInside(s: State, i: nat, command: nat, elapsed: nat, timeout: int, external: bool)
    requires i <= s.recvIndex && Word(i, s.recv) == Got(i + 4, command)
    ensures var r := Dispatch(s, i, elapsed, timeout, external);
            && (command == MESSAGE_REINIT && |s.recv| < i + 18 ==>
                  r == (s.(config := ReinitPart(i + 4, s.recv, s.config)), PastBuffer))
            && (command == MESSAGE_INIT && InitAt(i + 4, s).Past? ==> r == (InitPart(i + 4, s), PastBuffer))
            && (IsResponse(command) && AnswerAt(command, i + 4, s).Past? ==>
                  r == (AnswerPart(command, i + 4, s), PastBuffer))
            && (command in {MESSAGE_SEND_ASYNC, MESSAGE_SEND_SYNC} && LayoutAt(i + 4, Copied(s).call).Past? ==>
                  r == (Copied(s), PastBuffer))
  {
    hide InitAt, AnswerAt, LayoutAt, InitPart, AnswerPart, ReinitPart, Copied;
    if command in {MESSAGE_SEND_ASYNC, MESSAGE_SEND_SYNC} {
      var async := command == MESSAGE_SEND_ASYNC;
      var t, layout := Copied(s), LayoutAt(i + 4, Copied(s).call);
      assert Dispatch(s, i, elapsed, timeout, external) == DispatchSend(s, async, i + 4, elapsed, timeout, external)
          == DispatchParsed(t, async, layout, elapsed, timeout, external);
    } else {
      assert Dispatch(s, i, elapsed, timeout, external)
          == DispatchEvent(s, command, i + 4, elapsed, timeout, external);
    }
  }

  /** A response in an external poll: its parts are stored, and it succeeds exactly if nothing is behind it. */
  lemma AnswerArrives(s: State, lead: seq<Event>, a: Answer, rest: bytes, timeout: int)
    returns (r: Response)
    requires !s.terminate && s.inputs != [] && s.inputs[0].Frame? && |s.inputs[0].body| <= MAX_UINT32
    requires (forall k :: 0 <= k < |lead| ==> Encodable(lead[k])) && AnswerSendable(a)
    requires s.inputs[0].body == TailBytes(lead) + (Le32(Command(a)) + AnswerBytes(a) + rest)
    requires |AnswerBytes(a)| + |rest| + |s.inputs[0].stale| > 4
    ensures var (t, status) := Poll(s, timeout, true);
            && status == (if rest == [] then Success else AssertionFailed)
            && t.trace == ReadOf(s, true) + EventEntries(lead)
            && t.response == r && Says(t.recv, r, a, s.response)
  {
    hide Dispatch, Poll, TailBytes, EventEntries, ApplyAll, ReadOf, Le32, AnswerBytes, AnswerAt, Answered, Says;
    var command, x := Le32(Command(a)), AnswerBytes(a);
    var w, j := Arrives(s, lead, command + x + rest, timeout, true);
    Cut(w.recv, j, w.recvIndex, command + x, rest);
    var n := j + |command + x|;
    Cut(w.recv, j, n, command, x);
    WordHere(w.recv, j, Command(a));
    var t := AnswerOf(w, j + 4, n, a);
    r := t.response;
    AnswerDispatched(w, j, n, Command(a), t, s.inputs[0].elapsed, timeout);
  }

  lemma AnswerDispatched(s: State, i: nat, n: nat, command: nat, t: State, elapsed: nat, timeout: int)
    requires i <= s.recvIndex && Word(i, s.recv) == Got(i + 4, command) && IsResponse(command)
    requires AnswerAt(command, i + 4, s) == Got(n, t) && t.recvIndex == s.recvIndex
    ensures Dispatch(s, i, elapsed, timeout, true)
         == if n == s.recvIndex then (t.(recvIndex := 0), Success) else (t, AssertionFailed)
  {
    hide AnswerAt;
    assert Dispatch(s, i, elapsed, timeout, true) == DispatchEvent(s, command, i + 4, elapsed, timeout, true);
    assert DispatchEvent(s, command, i + 4, elapsed, timeout, true) == DispatchAnswer(s, command, i + 4, true);
  }

  /** Whole events and TERM behind a message that answers an internal call: it ends as terminated. */
  lemma TermBehind(s: State, i: nat, j: nat, es: seq<Event>)
    requires forall k :: 0 <= k < |es| ==> Encodable(es[k])
    requires i <= j && j + 4 <= s.recvIndex <= |s.recv|
    requires s.recv[i..j] == TailBytes(es) && s.recv[j..j + 4] == Le32(MESSAGE_TERM)
    ensures Answered(s, i, false) == (Ended(s, es), Terminated)
  {
    hide HandleEvents, TailBytes, EventEntries, ApplyAll, Le32;
    TermAfterEvents(es, s.recv, i, j, s.recvIndex, false, Before(s));
    assert [] + es == es;
  }

  // Waiting for INIT

  function InitFrame(x: Init): bytes
    requires InitSendable(x)
  {
    Le32(MESSAGE_INIT) + InitBytes(x)
  }

  /** The instance has its prefix, and has forgotten nothing else. */
  lemma InitArrives(s: State, x: Init) returns (t: State)
    requires InitSendable(x) && |InitFrame(x)| <= MAX_UINT32 && !s.terminate
    requires s.inputs != [] && s.inputs[0].Frame? && s.inputs[0].body == InitFrame(x)
    ensures AwaitInit(s) == (t, Success)
    ensures t.identity.prefix == x.prefix && t.inputs == s.inputs[1..]
    ensures t.lookup == s.lookup && !t.terminate && t.initialized == s.initialized
  {
    hide InitBytes, Dispatch;
    var input := s.inputs[0];
    var v := s.(inputs := s.inputs[1..], trace := s.trace + [Read(input, false)]);
    var u := Loaded(v, input.body, input.stale, input.spare);
    var n := 4 + |InitBytes(x)|;
    assert u.recv[0..4] == Le32(MESSAGE_INIT) && u.recv[4..n] == InitBytes(x);
    assert u.recv[n..u.recvIndex] == [] == TailBytes([]);
    InitDelivered(u, x, [], input.elapsed, 1000);
    t := AfterEvents(Initialised(u, x), []);
    assert Poll(s, 1000, false) == Receive(s, 1000, false) == (t, Success);
  }

  /** `cloudi_initialize` never gives up because of time. */
  lemma {:induction false} AwaitsWithoutEnd(s: State)
    ensures AwaitInit(s).1 != TimedOut
    decreases |s.inputs|
  {
    hide Poll;
    var (t, status) := Poll(s, 1000, false);
    if status == TimedOut {
      AwaitsWithoutEnd(t);
    }
  }

  /** However often nothing comes for a second, INIT is waited for, and its prefix is the instance's. */
  lemma {:induction false} InitAwaited(s: State, n: nat, x: Init) returns (t: State)
    requires InitSendable(x) && |InitFrame(x)| <= MAX_UINT32 && !s.terminate && n < |s.inputs|
    requires forall k :: 0 <= k < n ==> s.inputs[k] == Quiet
    requires s.inputs[n].Frame? && s.inputs[n].body == InitFrame(x)
    ensures AwaitInit(s) == (t, Success)
    ensures t.identity.prefix == x.prefix && t.inputs == s.inputs[n + 1..]
    ensures t.lookup == s.lookup && !t.terminate && t.initialized == s.initialized
    decreases n
  {
    hide InitFrame, AwaitInit;
    if n == 0 {
      t := InitArrives(s, x);
    } else {
      var u := s.(inputs := s.inputs[1..], trace := s.trace + [Read(Quiet, false)]);
      QuietSecond(s, u);
      t := InitAwaited(u, n - 1, x);
    }
  }

  lemma QuietSecond(s: State, u: State)
    requires !s.terminate && s.inputs != [] && s.inputs[0] == Quiet
    requires u == s.(inputs := s.inputs[1..], trace := s.trace + [Read(Quiet, false)])
    ensures AwaitInit(s) == AwaitInit(u)
  {
    assert Poll(s, 1000, false) == Receive(s, 1000, false) == (u, TimedOut);
  }

  // A call that throws

  /** What one call of a handler throws ends the handler: nothing behind the call is done. */
  lemma {:induction false} ThrowEnds(s: State, before: seq<Action>, id: nat, behind: seq<Action>)
    requires Act(s, before).1
    ensures var asking := Writes(Act(s, before).0, Ask(id));
            var (t, status) := Poll(asking, -1, false);
            Act(s, before + [Exchange(id)] + behind)
            == if status == AssertionFailed || status == PastBuffer then (t, false) else Act(t, behind)
    decreases |before|
  {
    hide Poll, Perform;
    var all := before + [Exchange(id)] + behind;
    if before == [] {
      assert all == [Exchange(id)] + behind && all[1..] == behind;
    } else {
      assert all[0] == before[0] && all[1..] == before[1..] + [Exchange(id)] + behind;
      var t := if before[0].Exchange? then Poll(Writes(s, Ask(before[0].id)), -1, false).0 else Perform(s, before[0]);
      ThrowEnds(t, before[1..], id, behind);
    }
  }

  /**
   * A request with something behind it that arrives while a handler waits is refused, and the refusal
   * is an exception in the handler: nothing more of it is done.
   */
  lemma RefusalEndsHandler(
    s: State, before: seq<Action>, id: nat, behind: seq<Action>, async: bool, r: Request, tail: bytes)
    requires Act(s, before).1 && Sendable(r) && tail != []
    requires var t := Act(s, before).0;
             && !t.terminate && t.inputs != [] && t.inputs[0].Frame? && |t.inputs[0].body| <= MAX_UINT32
             && t.inputs[0].body == SendBytes(async, r) + tail
    ensures var t := Act(s, before).0;
            var (u, ok) := Act(s, before + [Exchange(id)] + behind);
            && !ok && u.trace == t.trace + [Wrote(Ask(id)), Read(t.inputs[0], false), Overwrote, Refused]
            && u.inputs == t.inputs[1..]
  {
    hide Act, Poll, Dispatch, SendBytes, Receive;
    var t := Act(s, before).0;
    var asking := Writes(t, Ask(id));
    var input := t.inputs[0];
    ThrowEnds(s, before, id, behind);
    RequestMeets(asking, async, r, tail);
    var u := Poll(asking, -1, false).0;
    assert u.trace == t.trace + [Wrote(Ask(id))] + [Read(input, false)] + [Overwrote] + [Refused];
  }

  lemma RequestMeets(s: State, async: bool, r: Request, tail: bytes)
    requires Sendable(r) && tail != [] && !s.terminate && s.inputs != [] && s.inputs[0].Frame?
    requires |s.inputs[0].body| <= MAX_UINT32 && s.inputs[0].body == SendBytes(async, r) + tail
    ensures var (u, status) := Poll(s, -1, false);
            && status == AssertionFailed && u.inputs == s.inputs[1..]
            && u.trace == s.trace + [Read(s.inputs[0], false)] + [Overwrote] + [Refused]
  {
    hide Dispatch, SendBytes, Receive;
    var input := s.inputs[0];
    var v := s.(inputs := s.inputs[1..], trace := s.trace + [Read(input, false)]);
    var w := Loaded(v, input.body, input.stale, input.spare);
    ReceiveFrame(s, v, -1, false);
    assert input.body[0..] == input.body;
    RequestLoaded(w, input.body, input.stale, 0, async, r, tail);
    RequestRefused(w, 0, async, r, input.elapsed, -1);
    assert Poll(s, -1, false) == Receive(s, -1, false);
  }
}
