/**
 * `cloudi_forward_` and `cloudi_return_` end their tuple with the raw bytes of the source pid.
 * That frame decodes as if the pid had been decoded and encoded again.
 */
module Splice {
  import opened Bytes
  import opened Terms
  import opened Encoder
  import opened Decoder
  import opened NormalForm
  import RoundTrip
  import Locality
  import Acceptance

  /** A version byte, a small tuple header, encoded elements and one more element as raw bytes. */
  function Frame(elements: bytes, arity: byte, raw: bytes): bytes {
    [TAG_VERSION, TAG_SMALL_TUPLE_EXT, arity] + elements + raw
  }

  lemma {:induction false} SequenceSnoc(i: nat, length: nat, d: bytes)
    requires DecodeSequence(i, length, d).Done?
    requires Decode(DecodeSequence(i, length, d).next, d).Done?
    ensures var ts := DecodeSequence(i, length, d);
            var t := Decode(ts.next, d);
            DecodeSequence(i, length + 1, d) == Done(t.next, ts.value + [t.value])
    decreases length
  {
    hide Decode;
    if length > 0 {
      var head := Decode(i, d);
      SequenceSnoc(head.next, length - 1, d);
      var ts := DecodeSequence(head.next, length - 1, d);
      var t := Decode(ts.next, d);
      assert [head.value] + (ts.value + [t.value]) == [head.value] + ts.value + [t.value];
      assert DecodeSequence(head.next, length, d) == Done(t.next, ts.value + [t.value]);
    } else {
      var t := Decode(i, d);
      assert DecodeSequence(i, 0, d) == Done(i, []) && DecodeSequence(t.next, 0, d) == Done(t.next, []);
      assert [t.value] + [] == [] + [t.value];
    }
  }

  /**
   * Raw bytes that were accepted alone are accepted as the last element of any such frame. The
   * elements in front of them may be encoded in any of the formats that the decoder reads.
   */
  lemma SpliceDecodes(count: nat, elements: bytes, us: seq<Term>, raw: bytes, q: Term)
    requires count < MAX_UINT8 && DecodeSequence(0, count, elements) == Done(|elements|, us)
    requires BinaryToTerm([TAG_VERSION] + raw) == Ok(q)
    ensures BinaryToTerm(Frame(elements, count + 1, raw)) == Ok(Tuple(us + [q]))
  {
    hide Decode, DecodeSequence, Frame;
    SpliceSequence(count, elements, us, raw, q);
    FrameDispatch(elements, count + 1, raw, us + [q]);
  }

  lemma FrameDispatch(elements: bytes, arity: byte, raw: bytes, ts: seq<Term>)
    requires var frame := Frame(elements, arity, raw); DecodeSequence(3, arity, frame) == Done(|frame|, ts)
    ensures BinaryToTerm(Frame(elements, arity, raw)) == Ok(Tuple(ts))
  {
    hide Decode, NumberAt;
    var frame := Frame(elements, arity, raw);
    RoundTrip.Number8([TAG_VERSION, TAG_SMALL_TUPLE_EXT], arity, elements + raw);
    assert [TAG_VERSION, TAG_SMALL_TUPLE_EXT] + [arity] + (elements + raw) == frame;
    TupleDispatch(frame, arity, |frame|, ts);
  }

  lemma SpliceSequence(count: nat, elements: bytes, us: seq<Term>, raw: bytes, q: Term)
    requires count < MAX_UINT8 && DecodeSequence(0, count, elements) == Done(|elements|, us)
    requires BinaryToTerm([TAG_VERSION] + raw) == Ok(q)
    ensures var frame := Frame(elements, count + 1, raw);
            DecodeSequence(3, count + 1, frame) == Done(|frame|, us + [q])
  {
    hide DecodeSequence, Decode;
    var frame := Frame(elements, count + 1, raw);
    assert DecodeSequence(3, count, frame) == Done(3 + |elements|, us) by {
      Locality.SequenceInContext([TAG_VERSION, TAG_SMALL_TUPLE_EXT, count + 1], count, elements, raw);
    }
    LastElement(frame, 3 + |elements|, raw, q);
    SequenceSnoc(3, count, frame);
  }

  lemma LastElement(frame: bytes, at: nat, raw: bytes, q: Term)
    requires at <= |frame| && frame[at..] == raw
    requires BinaryToTerm([TAG_VERSION] + raw) == Ok(q)
    ensures Decode(at, frame) == Done(|frame|, q)
  {
    hide Decode, Locality.Short;
    var d := [TAG_VERSION] + raw;
    Locality.FollowedIsNotShort(1, d);
    assert d[1..1 + |raw|] == raw == frame[at..at + |raw|];
    Locality.DecodeMoves(1, d, at, frame);
  }

  lemma TupleDispatch(d: bytes, arity: nat, end: nat, ts: seq<Term>)
    requires |d| > 2 && d[1] == TAG_SMALL_TUPLE_EXT
    requires NumberAt(1, 2, d) == Done(3, arity) && DecodeSequence(3, arity, d) == Done(end, ts)
    ensures Decode(1, d) == Done(end, Tuple(ts))
  {
    var tag := TAG_SMALL_TUPLE_EXT;
    assert DecodeCompound(tag, 2, d) == Done(end, Tuple(ts));
    assert DecodePayload(tag, 2, d) == DecodeCompound(tag, 2, d);
    assert Decode(1, d) == DecodeTagged(tag, 2, d) == DecodePayload(tag, 2, d);
  }

  /** The frame with the copied pid and the frame with the re-encoded pid decode to the same tuple. */
  lemma SpliceEqualsReencoding(count: nat, elements: bytes, us: seq<Term>, raw: bytes, q: Term, again: bytes)
    requires count < MAX_UINT8 && DecodeSequence(0, count, elements) == Done(|elements|, us)
    requires BinaryToTerm([TAG_VERSION] + raw) == Ok(q) && q.Pid?
    requires Encode(q) == Ok(again)
    ensures BinaryToTerm(Frame(elements, count + 1, raw)) == Ok(Tuple(us + [q]))
    ensures BinaryToTerm(Frame(elements, count + 1, again)) == Ok(Tuple(us + [q]))
  {
    hide Decode, DecodeSequence, Frame;
    SpliceDecodes(count, elements, us, raw, q);
    Acceptance.AcceptedIsWellFormed([TAG_VERSION] + raw);
    RoundTrip.BytesRoundTrip(q, [TAG_VERSION] + again);
    SpliceDecodes(count, elements, us, again, q);
  }

  /** Elements that this encoder wrote are one such case. */
  lemma EncodedElements(ts: seq<Term>, elements: bytes)
    requires EncodeAll(ts) == Ok(elements) && forall k :: 0 <= k < |ts| ==> WellFormed(ts[k])
    ensures DecodeSequence(0, |ts|, elements) == Done(|elements|, NormAll(ts))
  {
    RoundTrip.RoundTripAll(ts, elements);
  }

  /** So is a command name as C's `ei` writes it, in the format with two bytes of length. */
  lemma WideName(name: bytes)
    requires |name| <= MAX_UINT16
    ensures var element := [TAG_ATOM_EXT] + Be16(|name|) + name;
            DecodeSequence(0, 1, element) == Done(|element|, [AtomTerm(Latin(name))])
  {
    var element := [TAG_ATOM_EXT] + Be16(|name|) + name;
    assert Decode(0, element) == Done(|element|, AtomTerm(Latin(name))) by {
      RoundTrip.AtomBodyRoundTrip(TAG_ATOM_EXT, Latin(name), Be16(|name|));
      assert Decode(0, element) == DecodeTagged(TAG_ATOM_EXT, 1, element);
    }
    hide Decode;
    assert DecodeSequence(|element|, 0, element) == Done(|element|, []);
    var t := AtomTerm(Latin(name));
    assert [t] + [] == [t];
    assert DecodeSequence(0, 1, element) == Done(|element|, [t] + []);
  }
}
