/** Length-prefixed messages over short reads and writes (src/api/c/cloudi.cpp). */
module Framing {
  import opened Bytes
  import opened ReallocPtrs

  datatype Status = Success | OutOfMemory | ReadErrno | ReadNull | WriteErrno | WriteNull

  /**
   * A file descriptor. Each system call on it consults the next entry of the schedule: a negative
   * entry is an errno, zero is the null result, and a positive one bounds the bytes transferred. A
   * read of an exhausted stream also returns zero.
   */
  class Descriptor {
    var incoming: bytes
    var outgoing: bytes
    var calls: nat
    const schedule: nat -> int

    constructor (incoming: bytes, schedule: nat -> int)
      ensures this.incoming == incoming && this.schedule == schedule && outgoing == [] && calls == 0
    {
      this.incoming, this.schedule := incoming, schedule;
      outgoing, calls := [], 0;
    }

    /** `::read(fd, buffer + at, length)`. */
    method Read(buffer: array<byte>, at: nat, length: nat) returns (i: int)
      requires at + length <= buffer.Length
      modifies this`incoming, this`calls, buffer
      ensures -1 <= i <= length && calls == old(calls) + 1
      ensures i == -1 <==> schedule(old(calls)) < 0
      ensures i == 0 && length > 0 ==> schedule(old(calls)) == 0 || old(incoming) == []
      ensures i <= 0 ==> incoming == old(incoming)
      ensures i > 0 ==> i <= |old(incoming)| && incoming == old(incoming)[i..]
      ensures i > 0 ==> buffer[at..at + i] == old(incoming)[..i]
      ensures forall k :: 0 <= k < buffer.Length && !(at <= k < at + i) ==> buffer[k] == old(buffer[k])
      ensures schedule(old(calls)) > 0 && length > 0 ==> (i > 0 <==> old(incoming) != []) && i >= 0
    {
      var granted := schedule(calls);
      calls := calls + 1;
      if granted < 0 {
        return -1;
      }
      var n := if granted < length then granted else length;
      n := if n < |incoming| then n else |incoming|;
      forall k | 0 <= k < n {
        buffer[at + k] := incoming[k];
      }
      incoming := incoming[n..];
      i := n;
    }

    /** `::write(fd, buffer + at, length)`. */
    method Write(buffer: array<byte>, at: nat, length: nat) returns (i: int)
      requires at + length <= buffer.Length
      modifies this`outgoing, this`calls
      ensures -1 <= i <= length && calls == old(calls) + 1
      ensures i == -1 <==> schedule(old(calls)) < 0
      ensures i == 0 && length > 0 ==> schedule(old(calls)) == 0
      ensures outgoing == if i > 0 then old(outgoing) + buffer[at..at + i] else old(outgoing)
      ensures schedule(old(calls)) > 0 && length > 0 ==> i > 0
    {
      var granted := schedule(calls);
      calls := calls + 1;
      if granted < 0 {
        return -1;
      }
      i := if granted < length then granted else length;
      if i > 0 {
        outgoing := outgoing + buffer[at..at + i];
      }
    }
  }

  /** No system call fails, though each may transfer as little as one byte. */
  ghost predicate Flowing(schedule: nat -> int) {
    forall n: nat :: schedule(n) > 0
  }

  /** The last of some calls has returned an errno. */
  ghost predicate Refused(schedule: nat -> int, before: nat, after: nat) {
    after > before && schedule(after - 1) < 0
  }

  lemma RefusedThen(schedule: nat -> int, before: nat, between: nat, after: nat)
    requires before <= between <= after && !Refused(schedule, before, between)
    ensures Refused(schedule, before, after) <==> Refused(schedule, between, after)
  {
  }

  /**
   * The bytes arrive in the order of the stream, all of them or as many as were read before the call
   * that failed; its errno is told from a null result.
   */
  method ReadExact(fd: Descriptor, buffer: array<byte>, length: nat) returns (status: Status)
    requires length <= buffer.Length
    modifies fd`incoming, fd`calls, buffer
    ensures status in {Success, ReadErrno, ReadNull}
    ensures status == Success ==>
              && length <= |old(fd.incoming)|
              && buffer[..length] == old(fd.incoming)[..length]
              && fd.incoming == old(fd.incoming)[length..]
    ensures forall k :: length <= k < buffer.Length ==> buffer[k] == old(buffer[k])
    ensures status != Success ==>
              var n := |old(fd.incoming)| - |fd.incoming|;
              && 0 <= n < length && buffer[..n] == old(fd.incoming)[..n] && fd.incoming == old(fd.incoming)[n..]
    ensures fd.calls >= old(fd.calls) && (status == ReadErrno <==> Refused(fd.schedule, old(fd.calls), fd.calls))
    ensures status == ReadNull ==>
              fd.calls > old(fd.calls) && (fd.schedule(fd.calls - 1) == 0 || fd.incoming == [])
    ensures Flowing(fd.schedule) ==>
              status == if length <= |old(fd.incoming)| then Success else ReadNull
  {
    var total := 0;
    ghost var stream := fd.incoming;
    while total < length
      invariant 0 <= total <= length && total <= |stream|
      invariant buffer[..total] == stream[..total] && fd.incoming == stream[total..]
      invariant forall k :: length <= k < buffer.Length ==> buffer[k] == old(buffer[k])
      invariant fd.calls >= old(fd.calls) && !Refused(fd.schedule, old(fd.calls), fd.calls)
    {
      ghost var before := buffer[..total];
      var i := fd.Read(buffer, total, length - total);
      if i <= 0 {
        return if i == -1 then ReadErrno else ReadNull;
      }
      assert buffer[..total] == before;
      assert buffer[..total + i] == buffer[..total] + buffer[total..total + i];
      assert stream[..total + i] == stream[..total] + stream[total..][..i];
      total := total + i;
    }
    status := Success;
  }

  /** A message on the wire: its length in four big-endian bytes, then its body. */
  function Frame(body: bytes): bytes
    requires |body| <= MAX_UINT32
  {
    Be32(|body|) + body
  }

  /** The length that the first four bytes of a stream announce. */
  function Announced(stream: bytes): nat
    requires |stream| >= 4
  {
    FromBe32(stream[..4])
  }

  /** The outcome of `read_all` on a descriptor without failing calls. */
  function Expected(stream: bytes, size: nat, maxSize: nat, granted: bool): Status
    requires size > 0
  {
    if |stream| < 4 then ReadNull
    else if !Takes(size, maxSize, granted, Announced(stream)) then OutOfMemory
    else if |stream| < 4 + Announced(stream) then ReadNull
    else Success
  }

  /** `read_all` with a header. */
  method ReadAll(fd: Descriptor, buffer: ReallocPtr, granted: bool) returns (status: Status, total: nat)
    requires buffer.Valid()
    modifies fd`incoming, fd`calls, buffer`size, buffer`data, buffer`moved, buffer.data
    ensures buffer.Valid()
    ensures status == Success ==>
              && Expected(old(fd.incoming), old(buffer.size), buffer.maxSize, granted) == Success
              && total == Announced(old(fd.incoming)) && total < buffer.size
              && buffer.data[..total] == old(fd.incoming)[4..4 + total]
              && fd.incoming == old(fd.incoming)[4 + total..]
    ensures status == ReadErrno <==> Refused(fd.schedule, old(fd.calls), fd.calls)
    ensures Flowing(fd.schedule) ==>
              status == Expected(old(fd.incoming), old(buffer.size), buffer.maxSize, granted)
    ensures buffer.data != old(buffer.data) ==> fresh(buffer.data)
  {
    hide Refused, Takes, FromBe32, ReallocPtr.Valid, Grown;
    total := 0;
    ghost var stream := fd.incoming;
    var header := new byte[4];
    status := ReadExact(fd, header, 4);
    if status != Success {
      return;
    }
    assert header[..] == stream[..4];
    ghost var calls := fd.calls;
    var length := FromBe32(header[..]);
    var reserved := buffer.Reserve(length, granted);
    if !reserved {
      return OutOfMemory, 0;
    }
    total := length;
    status := ReadExact(fd, buffer.data, length);
    RefusedThen(fd.schedule, old(fd.calls), calls, fd.calls);
  }

  /** A whole frame that fits is read in one call and the stream is left at the next frame. */
  lemma FrameIsExpected(body: bytes, rest: bytes, size: nat, maxSize: nat, granted: bool)
    requires |body| <= MAX_UINT32 && size > 0
    ensures var stream := Frame(body) + rest;
            && Announced(stream) == |body|
            && stream[4..4 + |body|] == body && stream[4 + |body|..] == rest
            && (Expected(stream, size, maxSize, granted) == Success <==> Takes(size, maxSize, granted, |body|))
  {
    assert (Frame(body) + rest)[..4] == Be32(|body|);
    Be32Inverse(|body|, Be32(|body|));
  }

  /** `write_exact` without a header, and the loop of both forms. */
  method WriteBytes(fd: Descriptor, buffer: array<byte>, length: nat) returns (status: Status)
    requires length <= buffer.Length
    modifies fd`outgoing, fd`calls
    ensures status in {Success, WriteErrno, WriteNull}
    ensures exists n :: 0 <= n <= length && fd.outgoing == old(fd.outgoing) + buffer[..n]
                        && (status == Success <==> n == length)
    ensures status == WriteErrno <==> Refused(fd.schedule, old(fd.calls), fd.calls)
    ensures Flowing(fd.schedule) ==> status == Success
  {
    var total := 0;
    ghost var sent := fd.outgoing;
    while total < length
      invariant 0 <= total <= length
      invariant fd.outgoing == sent + buffer[..total]
      invariant fd.calls >= old(fd.calls) && !Refused(fd.schedule, old(fd.calls), fd.calls)
    {
      var i := fd.Write(buffer, total, length - total);
      if i <= 0 {
        assert fd.outgoing == old(fd.outgoing) + buffer[..total];
        return if i == -1 then WriteErrno else WriteNull;
      }
      assert buffer[..total + i] == buffer[..total] + buffer[total..total + i];
      total := total + i;
    }
    status := Success;
  }

  /** `write_exact` with a header: the first four bytes of the buffer are its place. */
  method WriteExact(fd: Descriptor, buffer: array<byte>, length: nat) returns (status: Status)
    requires 4 <= length <= buffer.Length && length - 4 <= MAX_UINT32
    modifies fd`outgoing, fd`calls, buffer
    ensures status in {Success, WriteErrno, WriteNull}
    ensures buffer[..length] == Frame(old(buffer[4..length])) && buffer[length..] == old(buffer[length..])
    ensures exists n :: 0 <= n <= length && fd.outgoing == old(fd.outgoing) + buffer[..n]
                        && (status == Success <==> n == length)
    ensures status == WriteErrno <==> Refused(fd.schedule, old(fd.calls), fd.calls)
    ensures Flowing(fd.schedule) ==> status == Success
  {
    var header := Be32(length - 4);
    buffer[0], buffer[1], buffer[2], buffer[3] := header[0], header[1], header[2], header[3];
    assert buffer[..4] == header;
    assert buffer[..length] == buffer[..4] + buffer[4..length];
    status := WriteBytes(fd, buffer, length);
  }

  // Whole conversations

  ghost predicate Framable(bodies: seq<bytes>) {
    forall k :: 0 <= k < |bodies| ==> |bodies[k]| <= MAX_UINT32
  }

  function Frames(bodies: seq<bytes>): bytes
    requires Framable(bodies)
  {
    if bodies == [] then [] else Frame(bodies[0]) + Frames(bodies[1..])
  }

  lemma {:induction false} FramesSnoc(bodies: seq<bytes>, body: bytes)
    requires Framable(bodies) && |body| <= MAX_UINT32 && Framable(bodies + [body])
    ensures Frames(bodies + [body]) == Frames(bodies) + Frame(body)
  {
    if bodies == [] {
      assert bodies + [body] == [body];
      assert [body][1..] == [];
      assert Frames([body]) == Frame(body) + [];
    } else {
      assert (bodies + [body])[1..] == bodies[1..] + [body];
      FramesSnoc(bodies[1..], body);
    }
  }

  /** A stream is the frames of at most one list of messages: no boundary is lost. */
  lemma {:induction false} FramesInjective(a: seq<bytes>, b: seq<bytes>)
    requires Framable(a) && Framable(b) && Frames(a) == Frames(b)
    ensures a == b
  {
    if a != [] && b != [] {
      FrameIsExpected(a[0], Frames(a[1..]), 1, 0, false);
      FrameIsExpected(b[0], Frames(b[1..]), 1, 0, false);
      FramesInjective(a[1..], b[1..]);
    }
  }

  /** A message is assembled behind the four bytes of its header and written. */
  method SendMessage(fd: Descriptor, body: bytes)
    requires |body| <= MAX_UINT32 && Flowing(fd.schedule)
    modifies fd`outgoing, fd`calls
    ensures fd.outgoing == old(fd.outgoing) + Frame(body)
  {
    var message := new byte[4 + |body|];
    forall j | 0 <= j < |body| {
      message[4 + j] := body[j];
    }
    assert message[4..4 + |body|] == body;
    var _ := WriteExact(fd, message, 4 + |body|);
    assert message[..4 + |body|] == Frame(body);
  }

  method SendAll(fd: Descriptor, bodies: seq<bytes>)
    requires Framable(bodies) && Flowing(fd.schedule)
    modifies fd`outgoing, fd`calls
    ensures fd.outgoing == old(fd.outgoing) + Frames(bodies)
  {
    for k := 0 to |bodies|
      invariant fd.outgoing == old(fd.outgoing) + Frames(bodies[..k])
    {
      var body := bodies[k];
      SendMessage(fd, body);
      assert bodies[..k + 1] == bodies[..k] + [body];
      FramesSnoc(bodies[..k], body);
    }
    assert bodies[..|bodies|] == bodies;
  }

  method ReceiveMessage(fd: Descriptor, buffer: ReallocPtr, ghost body: bytes, ghost rest: bytes)
    returns (received: bytes)
    requires |body| <= MAX_UINT32 && |body| <= buffer.maxSize
    requires Flowing(fd.schedule) && fd.incoming == Frame(body) + rest && buffer.Valid()
    modifies fd`incoming, fd`calls, buffer`size, buffer`data, buffer`moved, buffer.data
    ensures received == body && fd.incoming == rest
    ensures buffer.Valid() && (buffer.data != old(buffer.data) ==> fresh(buffer.data))
  {
    hide Frame, Takes, Expected, Announced;
    FrameIsExpected(body, rest, buffer.size, buffer.maxSize, true);
    TakesExactly(buffer.size, buffer.maxSize, true, |body|);
    var _, total := ReadAll(fd, buffer, true);
    received := buffer.data[..total];
  }

  method ReceiveAll(fd: Descriptor, buffer: ReallocPtr, ghost bodies: seq<bytes>, count: nat)
    returns (received: seq<bytes>)
    requires Framable(bodies) && Flowing(fd.schedule) && fd.incoming == Frames(bodies)
    requires count == |bodies| && buffer.Valid()
    requires forall k :: 0 <= k < |bodies| ==> |bodies[k]| <= buffer.maxSize
    modifies fd`incoming, fd`calls, buffer, buffer.data
    ensures received == bodies && fd.incoming == []
  {
    received := [];
    for k := 0 to count
      invariant fd.incoming == Frames(bodies[k..])
      invariant received == bodies[..k]
      invariant buffer.Valid() && (buffer.data == old(buffer.data) || fresh(buffer.data))
    {
      assert bodies[k..][1..] == bodies[k + 1..];
      var body := ReceiveMessage(fd, buffer, bodies[k], Frames(bodies[k + 1..]));
      received := received + [body];
      assert bodies[..k + 1] == bodies[..k] + [bodies[k]];
    }
  }

  /**
   * Messages written one after the other and read one after the other arrive unchanged, in order
   * and completely, whatever short writes and short reads happen on the way.
   */
  method Converse(bodies: seq<bytes>, sending: nat -> int, receiving: nat -> int, buffer: ReallocPtr)
    returns (received: seq<bytes>)
    requires Framable(bodies) && Flowing(sending) && Flowing(receiving)
    requires buffer.Valid()
    requires forall k :: 0 <= k < |bodies| ==> |bodies[k]| <= buffer.maxSize
    modifies buffer, buffer.data
    ensures received == bodies
  {
    var sender := new Descriptor([], sending);
    SendAll(sender, bodies);
    var receiver := new Descriptor(sender.outgoing, receiving);
    received := ReceiveAll(receiver, buffer, bodies, |bodies|);
  }
}
