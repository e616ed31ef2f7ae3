/**
 * What the trace of an instance must look like, as an automaton that reads the trace entry by entry:
 * `polling` before the first external read, every request answered once, innermost first.
 */
module Monitor {
  import opened Bytes
  import opened Bignum
  import opened Events
  import opened Protocol
  import opened ProtocolRequests

  /**
   * What the last frame demands: its request must now be handed to a callback, no request may be, or
   * the frame is cut off inside a message, and what is read depends on older bytes of the buffer.
   */
  datatype Due = Owed(async: bool, origin: Envelope) | Barred | Unknown

  /** What follows the whole events at the front. */
  function BehindEvents(body: bytes): (rest: bytes)
    ensures |rest| <= |body|
  {
    if |body| < 4 then body
    else if Word(0, body).value == MESSAGE_KEEPALIVE then BehindEvents(body[4..])
    else if Word(0, body).value == MESSAGE_REINIT && |body| >= 18 then BehindEvents(body[18..])
    else body
  }

  ghost predicate CarriesRequest(rest: bytes) {
    exists async, r, tail :: IsRequest(rest, async, r, tail)
  }

  /** A message that is neither a request nor an event. */
  predicate IsAnswer(rest: bytes) {
    |rest| >= 4 && Word(0, rest).value !in {MESSAGE_SEND_ASYNC, MESSAGE_SEND_SYNC, MESSAGE_REINIT, MESSAGE_KEEPALIVE}
  }

  /**
   * What a frame demands behind its leading events. A request alone is owed a callback, and a
   * request with whole events behind it in an external poll. With anything else behind it, such as
   * TERM, it is not; nor is a response, nor nothing at all.
   */
  ghost function Demand(rest: bytes, external: bool): Due {
    if rest == [] || IsAnswer(rest) then Barred
    else if CarriesRequest(rest) then
      var async, r, tail :| IsRequest(rest, async, r, tail);
      if tail == [] || (external && WholeEvents(tail)) then Owed(async, EnvelopeFor(r)) else Barred
    else Unknown
  }

  ghost function DueOf(input: Input, external: bool): Due {
    if !input.Frame? || |input.body| > MAX_UINT32 then Barred else Demand(BehindEvents(input.body), external)
  }

  /**
   * A request that was handed out and is not answered yet: whether the call buffer is still the one
   * of that moment, and whether an answer of the wrong kind was written for it.
   */
  datatype Open = Open(async: bool, origin: Envelope, clean: bool, wrong: bool)

  /** The state of the automaton; open requests are innermost first. */
  datatype Watch = Watch(announced: bool, due: Due, open: seq<Open>)

  const START := Watch(false, Barred, [])

  function Soiled(open: seq<Open>): (r: seq<Open>)
    ensures |r| == |open|
  {
    if open == [] then [] else [open[0].(clean := false)] + Soiled(open[1..])
  }

  datatype Verdict = Accepted(watch: Watch) | Rejected

  /** Entries that may stand between a frame and its callback. */
  predicate Between(e: Entry) {
    e == Wrote(KeepAliveReply) || e == Overwrote || e.Configured?
  }

  /**
   * One entry. A frame's request is handed out before anything else happens, and at most once. A
   * reply belongs to the innermost open request: it must be of its kind, carry its envelope unless
   * the call buffer was overwritten, and closes it. A failed assertion closes it too; only then may
   * an answer of the wrong kind have been written.
   */
  ghost function Observes(w: Watch, e: Entry): Verdict {
    if w.due.Owed? && !Between(e) && e.Called? then
      if w.due == Owed(e.async, e.origin) then Accepted(Opened(w, e)) else Rejected
    else if Between(e) then
      Accepted(if e.Overwrote? then w.(open := Soiled(w.open)) else w)
    else if w.due.Owed? then Rejected
    else
      match e
      case Called(_, _, _, _, _) => if w.due.Barred? then Rejected else Accepted(Opened(w, e))
      case Read(input, external) =>
        if external && !w.announced then Rejected else Accepted(w.(due := DueOf(input, external)))
      case Aborted => if w.open == [] then Rejected else Accepted(w.(due := Barred, open := w.open[1..]))
      case Wrote(m) => Observed(w.(due := Barred), m)
      case _ => Accepted(w.(due := Barred))
  }

  function Opened(w: Watch, e: Entry): Watch
    requires e.Called?
  {
    w.(due := Barred, open := [Open(e.async, e.origin, true, false)] + w.open)
  }

  /** A message other than a keepalive. */
  function Observed(w: Watch, m: Message): Verdict {
    match m
    case Polling => if w.announced then Rejected else Accepted(w.(announced := true))
    case Reply(_, async, origin, _, _) =>
      if w.open == [] || w.open[0].wrong then Rejected
      else if async != w.open[0].async then Accepted(w.(open := [w.open[0].(wrong := true)] + w.open[1..]))
      else if w.open[0].clean && origin != w.open[0].origin then Rejected
      else Accepted(w.(open := w.open[1..]))
    case _ => Accepted(w)
  }

  ghost function ObservesAll(w: Watch, trace: seq<Entry>): Verdict
    decreases |trace|
  {
    if trace == [] then Accepted(w)
    else
      match Observes(w, trace[0])
      case Rejected => Rejected
      case Accepted(v) => ObservesAll(v, trace[1..])
  }

  lemma {:induction false} ObservesSplit(w: Watch, a: seq<Entry>, b: seq<Entry>)
    ensures ObservesAll(w, a + b)
         == match ObservesAll(w, a)
            case Rejected => Rejected
            case Accepted(v) => ObservesAll(v, b)
    decreases |a|
  {
    hide Observes;
    if a == [] {
      assert a + b == b;
    } else {
      assert (a + b)[1..] == a[1..] + b;
      if Observes(w, a[0]).Accepted? {
        ObservesSplit(Observes(w, a[0]).watch, a[1..], b);
      }
    }
  }

  lemma ObservesSnoc(w: Watch, a: seq<Entry>, e: Entry)
    ensures ObservesAll(w, a + [e])
         == match ObservesAll(w, a)
            case Rejected => Rejected
            case Accepted(v) => Observes(v, e)
  {
    hide Observes;
    ObservesSplit(w, a, [e]);
    if ObservesAll(w, a).Accepted? {
      var v := ObservesAll(w, a).watch;
      assert [e][0] == e && [e][1..] == [];
      if Observes(v, e).Accepted? {
        assert ObservesAll(Observes(v, e).watch, []) == Observes(v, e);
      }
    }
  }

  lemma {:induction false} SoiledTwice(open: seq<Open>)
    ensures Soiled(Soiled(open)) == Soiled(open)
  {
    if open != [] {
      SoiledTwice(open[1..]);
      assert Soiled(open)[1..] == Soiled(open[1..]);
    }
  }

  // What acceptance means

  function Count(trace: seq<Entry>, p: Entry -> bool): nat {
    if trace == [] then 0 else (if p(trace[0]) then 1 else 0) + Count(trace[1..], p)
  }

  predicate IsReply(e: Entry) {
    e.Wrote? && e.message.Reply?
  }

  /** The frames of a trace that are owed a callback. */
  ghost function Demands(trace: seq<Entry>): nat {
    if trace == [] then 0
    else (if trace[0].Read? && DueOf(trace[0].input, trace[0].external).Owed? then 1 else 0) + Demands(trace[1..])
  }

  /** The frames of a trace that are cut off inside a message. */
  ghost function CutOff(trace: seq<Entry>): nat {
    if trace == [] then 0
    else (if trace[0].Read? && DueOf(trace[0].input, trace[0].external).Unknown? then 1 else 0) + CutOff(trace[1..])
  }

  function OwedNow(w: Watch): nat {
    if w.due.Owed? then 1 else 0
  }

  function UnknownNow(w: Watch): nat {
    if w.due.Unknown? then 1 else 0
  }

  /** As many requests are handed out as frames are owed a callback, and at most one more for each cut off. */
  lemma {:induction false} CallsAreDemands(w: Watch, trace: seq<Entry>)
    requires ObservesAll(w, trace).Accepted?
    ensures var (calls, v) := (Count(trace, (e: Entry) => e.Called?), ObservesAll(w, trace).watch);
            && Demands(trace) + OwedNow(w) <= calls + OwedNow(v)
            && calls + OwedNow(v) <= Demands(trace) + OwedNow(w) + CutOff(trace) + UnknownNow(w)
    decreases |trace|
  {
    hide DueOf;
    if trace != [] {
      var v := Observes(w, trace[0]).watch;
      CallsAreDemands(v, trace[1..]);
    }
  }

  ghost predicate NoneWrong(open: seq<Open>) {
    forall k :: 0 <= k < |open| ==> !open[k].wrong
  }

  lemma {:induction false} SoiledKeepsWrong(open: seq<Open>)
    ensures NoneWrong(Soiled(open)) <==> NoneWrong(open)
  {
    if open != [] {
      SoiledKeepsWrong(open[1..]);
      var soiled := Soiled(open);
      assert soiled[0].wrong == open[0].wrong && soiled[1..] == Soiled(open[1..]);
      assert forall k :: 0 < k < |open| ==> open[k] == open[1..][k - 1] && soiled[k] == soiled[1..][k - 1];
    }
  }

  function One(b: bool): nat {
    if b then 1 else 0
  }

  lemma WrongStays(w: Watch, e: Entry)
    requires IsReply(e) && Observes(w, e).Accepted? && e.message.async != w.open[0].async
    ensures var v := Observes(w, e).watch; |v.open| == |w.open| > 0 && v.open[0].wrong
  {
  }

  lemma ReplyCase(w: Watch, e: Entry)
    requires IsReply(e) && Observes(w, e).Accepted? && NoneWrong(Observes(w, e).watch.open)
    ensures NoneWrong(w.open) && 1 + |Observes(w, e).watch.open| == |w.open|
  {
    hide DueOf;
    if e.message.async != w.open[0].async {
      WrongStays(w, e);
      assert false;
    }
    assert Observes(w, e).watch.open == w.open[1..];
    assert forall k :: 1 <= k < |w.open| ==> w.open[k] == w.open[1..][k - 1];
  }

  lemma OpenCase(open: seq<Open>, top: Open)
    requires NoneWrong([top] + open)
    ensures NoneWrong(open)
  {
    assert forall k :: 0 <= k < |open| ==> open[k] == ([top] + open)[k + 1];
  }

  lemma ReplyClosesCall(w: Watch, e: Entry)
    requires Observes(w, e).Accepted? && !e.Aborted? && NoneWrong(Observes(w, e).watch.open)
    ensures NoneWrong(w.open)
    ensures One(IsReply(e)) + |Observes(w, e).watch.open| == One(e.Called?) + |w.open|
  {
    hide DueOf, NoneWrong;
    if e.Overwrote? {
      SoiledKeepsWrong(w.open);
    } else if e.Called? {
      OpenCase(w.open, Open(e.async, e.origin, true, false));
    } else if IsReply(e) {
      ReplyCase(w, e);
    }
  }

  /** Without a failed assertion every closed request has exactly one reply, and no other is written. */
  lemma {:induction false} RepliesAreCalls(w: Watch, trace: seq<Entry>)
    requires ObservesAll(w, trace).Accepted? && Count(trace, (e: Entry) => e.Aborted?) == 0
    requires NoneWrong(ObservesAll(w, trace).watch.open)
    ensures Count(trace, IsReply) + |ObservesAll(w, trace).watch.open|
         == Count(trace, (e: Entry) => e.Called?) + |w.open|
    ensures NoneWrong(w.open)
    decreases |trace|
  {
    hide Observes, NoneWrong;
    if trace != [] {
      RepliesAreCalls(Observes(w, trace[0]).watch, trace[1..]);
      ReplyClosesCall(w, trace[0]);
    }
  }

  // Whom a reply names

  /** A reply names the request that is innermost when it is written. */
  ghost predicate Addressed(trace: seq<Entry>, k: nat)
    requires k < |trace|
  {
    var v := ObservesAll(START, trace[..k]);
    IsReply(trace[k]) && v.Accepted? && v.watch.open != [] ==> trace[k].message.origin == v.watch.open[0].origin
  }

  /** So do all replies that were written between two points of a run. */
  ghost predicate Faithful(before: seq<Entry>, after: seq<Entry>) {
    forall k :: |before| <= k < |after| ==> Addressed(after, k)
  }

  lemma FaithfulThen(a: seq<Entry>, b: seq<Entry>, c: seq<Entry>)
    requires a <= b <= c && Faithful(a, b) && Faithful(b, c)
    ensures Faithful(a, c)
  {
    hide ObservesAll;
    forall k | |a| <= k < |c|
      ensures Addressed(c, k)
    {
      if k < |b| {
        assert Addressed(b, k) && c[..k] == b[..k];
      }
    }
  }

  lemma NoReplies(a: seq<Entry>, b: seq<Entry>)
    requires a <= b && forall k :: |a| <= k < |b| ==> !IsReply(b[k])
    ensures Faithful(a, b)
  {
  }

  /** Entries that leave the open requests, and their envelopes, as they are. */
  predicate Aside(e: Entry) {
    !e.Called? && !e.Aborted? && !IsReply(e) && !e.Overwrote?
  }

  lemma {:induction false} AsideKeepsOpen(w: Watch, trace: seq<Entry>)
    requires ObservesAll(w, trace).Accepted? && forall k :: 0 <= k < |trace| ==> Aside(trace[k])
    ensures ObservesAll(w, trace).watch.open == w.open
    decreases |trace|
  {
    hide DueOf;
    if trace != [] {
      AsideKeepsOpen(Observes(w, trace[0]).watch, trace[1..]);
    }
  }

  /** Behind a call and such entries the innermost request is the one that was handed out. */
  lemma TopIsCalled(before: seq<Entry>, e: Entry, since: seq<Entry>)
    requires e.Called? && (forall k :: 0 <= k < |since| ==> Aside(since[k]))
    requires ObservesAll(START, before + [e] + since).Accepted?
    ensures var open := ObservesAll(START, before + [e] + since).watch.open;
            open != [] && open[0].origin == e.origin
  {
    hide DueOf;
    ObservesSplit(START, before + [e], since);
    ObservesSnoc(START, before, e);
    AsideKeepsOpen(ObservesAll(START, before + [e]).watch, since);
  }

  // `polling`

  predicate IsPolling(e: Entry) {
    e == Wrote(Polling)
  }

  /** `polling` is written at most once, and the automaton knows whether it was. */
  lemma {:induction false} PollingOnce(w: Watch, trace: seq<Entry>)
    requires ObservesAll(w, trace).Accepted?
    ensures Count(trace, IsPolling) + One(w.announced) == One(ObservesAll(w, trace).watch.announced)
    decreases |trace|
  {
    hide DueOf;
    if trace != [] {
      PollingOnce(Observes(w, trace[0]).watch, trace[1..]);
    }
  }

  /** Whatever an external poll reads, `polling` was written before. */
  lemma {:induction false} PollingFirst(w: Watch, trace: seq<Entry>, k: nat)
    requires ObservesAll(w, trace).Accepted? && !w.announced
    requires k < |trace| && trace[k].Read? && trace[k].external
    ensures exists j :: 0 <= j < k && IsPolling(trace[j])
    decreases |trace|
  {
    hide DueOf;
    if IsPolling(trace[0]) {
      assert k > 0;
    } else {
      assert trace[1..][k - 1] == trace[k];
      PollingFirst(Observes(w, trace[0]).watch, trace[1..], k - 1);
      var j :| 0 <= j < k - 1 && IsPolling(trace[1..][j]);
      assert trace[j + 1] == trace[1..][j];
    }
  }

  // The entry that closes a request

  /** The open request at a given height of the stack. */
  function At(w: Watch, height: nat): Open
    requires 0 < height <= |w.open|
  {
    w.open[|w.open| - height]
  }

  function Overwrites(trace: seq<Entry>): nat {
    if trace == [] then 0 else One(trace[0].Overwrote?) + Overwrites(trace[1..])
  }

  /**
   * The entry answers the request: by a reply of its kind, with its envelope if the call buffer has
   * not been overwritten; or its callback ended in a failed assertion.
   */
  predicate ClosesRequest(e: Entry, o: Open, overwrites: nat) {
    || e.Aborted?
    || (IsReply(e) && e.message.async == o.async && (o.clean && overwrites == 0 ==> e.message.origin == o.origin))
  }

  /** An entry closes the innermost request or leaves all that are open in their places. */
  lemma HeightStep(w: Watch, e: Entry, height: nat)
    requires Observes(w, e).Accepted? && 0 < height <= |w.open|
    ensures var v := Observes(w, e).watch;
            if |v.open| < height then |v.open| + 1 == height == |w.open| && ClosesRequest(e, At(w, height), 0)
            else
              && At(v, height).async == At(w, height).async && At(v, height).origin == At(w, height).origin
              && (At(w, height).clean && !e.Overwrote? ==> At(v, height).clean)
  {
    hide DueOf;
    if e.Overwrote? {
      SoiledAt(w.open, |w.open| - height);
    }
  }

  lemma {:induction false} SoiledAt(open: seq<Open>, k: nat)
    requires k < |open|
    ensures Soiled(open)[k] == open[k].(clean := false)
  {
    if k > 0 {
      SoiledAt(open[1..], k - 1);
    }
  }

  /**
   * An open request that is closed at the end of a trace is closed by exactly one entry: up to it
   * the request was open, behind it it is not, and the entry answers it.
   */
  lemma {:induction false} ClosedBy(w: Watch, trace: seq<Entry>, height: nat) returns (j: nat)
    requires ObservesAll(w, trace).Accepted? && 0 < height <= |w.open|
    requires |ObservesAll(w, trace).watch.open| < height
    ensures j < |trace| && ObservesAll(w, trace[..j]).Accepted? && ObservesAll(w, trace[..j + 1]).Accepted?
    ensures |ObservesAll(w, trace[..j]).watch.open| == height
    ensures |ObservesAll(w, trace[..j + 1]).watch.open| == height - 1
    ensures ClosesRequest(trace[j], At(w, height), Overwrites(trace[..j]))
    decreases |trace|
  {
    hide DueOf, Observes, ClosesRequest;
    var v := Observes(w, trace[0]).watch;
    HeightStep(w, trace[0], height);
    if |v.open| < height {
      j := 0;
      assert trace[..0] == [] && trace[..1] == [trace[0]] && trace[..1][1..] == [];
    } else {
      var k := ClosedBy(v, trace[1..], height);
      j := k + 1;
      assert trace[..j][1..] == trace[1..][..k] && trace[..j + 1][1..] == trace[1..][..k + 1];
      CloserKept(trace[j], At(w, height), At(v, height), trace[0], Overwrites(trace[1..][..k]));
    }
  }

  lemma CloserKept(e: Entry, o: Open, p: Open, first: Entry, overwrites: nat)
    requires ClosesRequest(e, p, overwrites) && p.async == o.async && p.origin == o.origin
    requires o.clean && !first.Overwrote? ==> p.clean
    ensures ClosesRequest(e, o, One(first.Overwrote?) + overwrites)
  {
  }
}
