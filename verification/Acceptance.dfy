/** What an accepted input guarantees about the term that was read from it. */
module Acceptance {
  import opened Bytes
  import opened Terms
  import opened Encoder
  import opened Decoder
  import opened NormalForm
  import opened Locality
  import Functions
  import RoundTrip

  // The work and the size of the result are bounded by the input

  function End(i: nat, d: bytes): nat {
    if i < |d| then i else |d|
  }

  /**
   * Every node of a decoded term stands on a tag byte of its own inside the input, whatever counts
   * the input declares: no list, tuple or map has more elements than there are bytes.
   */
  lemma {:induction false} NodesBound(i: nat, d: bytes)
    requires Decode(i, d).Done?
    ensures Nodes(Decode(i, d).value) <= End(Decode(i, d).next, d) - i
    decreases Remaining(i, d), 0
  {
    var tag := d[i];
    if IsCompoundTag(tag) {
      assert Decode(i, d) == DecodeTagged(tag, i + 1, d) == DecodePayload(tag, i + 1, d);
      assert DecodePayload(tag, i + 1, d) == DecodeCompound(tag, i + 1, d);
      CompoundNodes(tag, i + 1, d);
    } else {
      FlatNodes(tag, i + 1, d);
    }
  }

  lemma FlatNodes(tag: byte, i: nat, d: bytes)
    requires DecodeTagged(tag, i, d).Done? && !IsCompoundTag(tag)
    ensures Nodes(DecodeTagged(tag, i, d).value) == 1
  {
    hide DecodePayload, DecodeAtomBody, DecodeIntegerBody;
    if !IsAtomTag(tag) && !IsIntegerTag(tag) && !IsNodeTag(tag) {
      assert DecodeTagged(tag, i, d) == DecodePayload(tag, i, d);
      PayloadNodes(tag, i, d);
    }
  }

  lemma PayloadNodes(tag: byte, i: nat, d: bytes)
    requires DecodePayload(tag, i, d).Done? && !IsCompoundTag(tag)
    ensures Nodes(DecodePayload(tag, i, d).value) == 1
  {
    hide FieldAt, NumberAt, Slice;
  }

  lemma {:induction false} CompoundNodes(tag: byte, i: nat, d: bytes)
    requires DecodeCompound(tag, i, d).Done? && IsCompoundTag(tag)
    ensures Nodes(DecodeCompound(tag, i, d).value) <= 1 + End(DecodeCompound(tag, i, d).next, d) - End(i, d)
    decreases Remaining(i, d), 3
  {
    hide NumberAt, Decode;
    var count := NumberAt(CountWidth(tag), i, d);
    var length := if tag == TAG_MAP_EXT then 2 * count.value else count.value;
    SequenceNodes(count.next, length, d);
    if tag == TAG_LIST_EXT {
      var ts := DecodeSequence(count.next, length, d);
      NodesBound(ts.next, d);
      NodesSnoc(ts.value, Decode(ts.next, d).value);
    }
  }

  lemma {:induction false} SequenceNodes(i: nat, length: nat, d: bytes)
    requires DecodeSequence(i, length, d).Done?
    ensures NodesAll(DecodeSequence(i, length, d).value) <= End(DecodeSequence(i, length, d).next, d) - End(i, d)
    decreases Remaining(i, d), 1, length
  {
    hide Decode;
    if length > 0 {
      NodesBound(i, d);
      var j := Decode(i, d).next;
      SequenceNodes(j, length - 1, d);
      var r := DecodeSequence(i, length, d).value;
      assert r[0] == Decode(i, d).value && r[1..] == DecodeSequence(j, length - 1, d).value;
    }
  }

  lemma {:induction false} NodesSnoc(ts: seq<Term>, t: Term)
    ensures NodesAll(ts + [t]) == NodesAll(ts) + Nodes(t)
  {
    if ts == [] {
      assert ts + [t] == [t];
    } else {
      assert (ts + [t])[1..] == ts[1..] + [t];
      NodesSnoc(ts[1..], t);
    }
  }

  // Accepted terms are well-formed

  /** No reference has the empty id, which only a NEW_REFERENCE_EXT of zero words decodes to. */
  ghost predicate NoEmptyIds(t: Term) {
    match t
    case PlainList(ts) => forall k :: 0 <= k < |ts| ==> NoEmptyIds(ts[k])
    case Tuple(ts) => forall k :: 0 <= k < |ts| ==> NoEmptyIds(ts[k])
    case Map(ts) => forall k :: 0 <= k < |ts| ==> NoEmptyIds(ts[k])
    case ErlangList(ts, _) => forall k :: 0 <= k < |ts| ==> NoEmptyIds(ts[k])
    case Reference(_, id, _) => id != []
    case _ => true
  }

  /** Well-formed but for the ids of references, which may be empty. */
  ghost predicate Sound(t: Term) {
    match t
    case PlainList(ts) => forall k :: 0 <= k < |ts| ==> Sound(ts[k])
    case Tuple(ts) => forall k :: 0 <= k < |ts| ==> Sound(ts[k])
    case Map(ts) => forall k :: 0 <= k < |ts| ==> Sound(ts[k])
    case ErlangList(ts, _) => forall k :: 0 <= k < |ts| ==> Sound(ts[k])
    case Reference(node, id, creation) => WellFormedAtom(node) && |id| % 4 == 0 && |creation| == 1
    case _ => WellFormed(t)
  }

  lemma {:induction false} SoundIsWellFormed(t: Term)
    requires Sound(t)
    ensures WellFormed(t) <==> NoEmptyIds(t)
    decreases t, 0
  {
    match t
    case PlainList(ts) => SoundAll(ts);
    case Tuple(ts) => SoundAll(ts);
    case Map(ts) => SoundAll(ts);
    case ErlangList(ts, _) => SoundAll(ts);
    case _ =>
  }

  lemma {:induction false} SoundAll(ts: seq<Term>)
    requires forall k :: 0 <= k < |ts| ==> Sound(ts[k])
    ensures forall k :: 0 <= k < |ts| ==> (WellFormed(ts[k]) <==> NoEmptyIds(ts[k]))
    decreases ts, 0
  {
    forall k | 0 <= k < |ts|
      ensures WellFormed(ts[k]) <==> NoEmptyIds(ts[k])
    {
      SoundIsWellFormed(ts[k]);
    }
  }

  lemma FullSlice(i: nat, n: nat, d: bytes)
    requires i + n <= |d|
    ensures |Slice(i, n, d)| == n
  {
  }

  lemma AtomWellFormed(i: nat, d: bytes)
    requires DecodeAtom(i, d).Done?
    ensures WellFormedAtom(DecodeAtom(i, d).value)
  {
    hide FieldAt;
  }

  lemma NodeTermSound(tag: byte, i: nat, d: bytes)
    requires IsNodeTag(tag) && Within(|d|, DecodeNodeTerm(tag, i, d))
    ensures Sound(DecodeNodeTerm(tag, i, d).value)
  {
    hide Slice, DecodeAtom, NumberAt, WellFormedAtom;
    if tag == TAG_NEW_REFERENCE_EXT {
      AtomWellFormed(i + 2, d);
      var a := DecodeAtom(i + 2, d);
      FullSlice(a.next, 1, d);
      FullSlice(a.next + 1, 4 * NumberAt(2, i, d).value, d);
    } else {
      AtomWellFormed(i, d);
      var j := DecodeAtom(i, d).next;
      FullSlice(j, 4, d);
      FullSlice(j + 4, 1, d);
      if tag == TAG_PID_EXT {
        FullSlice(j + 4, 4, d);
        FullSlice(j + 8, 1, d);
      }
    }
  }

  /** A term that was read inside the input, and not short, has fixed-size fields of full size. */
  lemma {:induction false} DecodedSound(i: nat, d: bytes)
    requires Within(|d|, Decode(i, d)) && !Short(i, d)
    ensures Sound(Decode(i, d).value)
    decreases Remaining(i, d), 0
  {
    hide DecodeTagged, ShortTagged, Sound, WellFormed;
    var r := Decode(i, d);
    if r.value.Function? {
      Functions.FunctionFound(i, d);
      FunctionSound(r.value);
    } else {
      TaggedSound(d[i], i + 1, d);
    }
  }

  lemma FunctionSound(t: Term)
    requires t.Function? && WellFormedFunction(t.tag, t.body)
    ensures Sound(t)
  {
  }

  lemma {:induction false} TaggedSound(tag: byte, i: nat, d: bytes)
    requires Within(|d|, DecodeTagged(tag, i, d)) && !ShortTagged(tag, i, d)
    requires !DecodeTagged(tag, i, d).value.Function?
    ensures Sound(DecodeTagged(tag, i, d).value)
    decreases Remaining(i, d), 5
  {
    hide DecodeNodeTerm, DecodeIntegerBody, FieldAt, ShortTagged;
    if IsNodeTag(tag) {
      NodeTermSound(tag, i, d);
    } else if IsCompoundTag(tag) {
      assert DecodeTagged(tag, i, d) == DecodePayload(tag, i, d) == DecodeCompound(tag, i, d);
      CompoundSound(tag, i, d);
    } else if !IsAtomTag(tag) && !IsIntegerTag(tag) {
      assert DecodeTagged(tag, i, d) == DecodePayload(tag, i, d);
      PayloadIsPlain(tag, i, d);
      PlainPayloadSound(DecodePayload(tag, i, d).value);
    }
  }

  /** What the tags without node, name or nested term decode to, funs aside. */
  predicate PlainPayload(t: Term) {
    t.Str? || t.Binary? || t == PlainList([]) || (t.Float? && |t.ieee| == 8)
  }

  lemma PayloadIsPlain(tag: byte, i: nat, d: bytes)
    requires DecodePayload(tag, i, d).Done? && !IsCompoundTag(tag)
    requires !DecodePayload(tag, i, d).value.Function?
    ensures PlainPayload(DecodePayload(tag, i, d).value)
  {
    hide FieldAt, NumberAt, Slice;
  }

  lemma PlainPayloadSound(t: Term)
    requires PlainPayload(t)
    ensures Sound(t)
  {
  }

  lemma {:induction false} CompoundSound(tag: byte, i: nat, d: bytes)
    requires Within(|d|, DecodeCompound(tag, i, d)) && !ShortTagged(tag, i, d)
    requires IsCompoundTag(tag)
    ensures Sound(DecodeCompound(tag, i, d).value)
    decreases Remaining(i, d), 3
  {
    hide NumberAt, Decode, DecodeSequence, Short, ShortSequence;
    var count := NumberAt(CountWidth(tag), i, d);
    var length := if tag == TAG_MAP_EXT then 2 * count.value else count.value;
    var ts := DecodeSequence(count.next, length, d);
    if tag == TAG_LIST_EXT {
      FollowedSequence(count.next, length, d);
      DecodedSound(ts.next, d);
    }
    SequenceSound(count.next, length, d);
  }

  lemma {:induction false} SequenceSound(i: nat, length: nat, d: bytes)
    requires Within(|d|, DecodeSequence(i, length, d)) && !ShortSequence(i, length, d)
    ensures forall k :: 0 <= k < length ==> Sound(DecodeSequence(i, length, d).value[k])
    decreases Remaining(i, d), 1, length
  {
    hide Decode, Short, Sound;
    if length > 0 {
      var j := Decode(i, d).next;
      if length > 1 {
        assert DecodeSequence(j, length - 1, d).Done?;
        FollowedIsNotShort(i, d);
        SequenceSound(j, length - 1, d);
      }
      DecodedSound(i, d);
    }
  }

  lemma AcceptedIsSound(d: bytes)
    requires BinaryToTerm(d).Ok?
    ensures Sound(BinaryToTerm(d).value)
  {
    hide Decode, Short, Sound;
    FollowedIsNotShort(1, d);
    DecodedSound(1, d);
  }

  /** An accepted term is well-formed exactly when it holds no reference with an empty id. */
  lemma AcceptedIsWellFormed(d: bytes)
    requires BinaryToTerm(d).Ok?
    ensures WellFormed(BinaryToTerm(d).value) <==> NoEmptyIds(BinaryToTerm(d).value)
  {
    hide BinaryToTerm, Sound, WellFormed, NoEmptyIds;
    AcceptedIsSound(d);
    SoundIsWellFormed(BinaryToTerm(d).value);
  }

  // A term with an empty id does not come back

  lemma ListOfInjective(ts: seq<Term>, t: Term, us: seq<Term>, u: Term)
    requires |ts| == |us| && ListOf(ts, t) == ListOf(us, u)
    ensures ts == us && t == u
  {
    if t != PlainList([]) {
      assert (ts + [t])[..|ts|] == ts && (us + [u])[..|us|] == us;
      assert (ts + [t])[|ts|] == t && (us + [u])[|us|] == u;
    }
  }

  lemma CompoundAt(tag: byte, p: bytes, count: nat, header: bytes, rest: bytes)
    requires IsCompoundTag(tag) && RoundTrip.Framed(CountWidth(tag), count, header)
    ensures var d := p + [tag] + header + rest;
            && Decode(|p|, d) == DecodeCompound(tag, |p| + 1, d)
            && NumberAt(CountWidth(tag), |p| + 1, d) == Done(|p| + 1 + |header|, count)
  {
    hide NumberAt, DecodeCompound, Decode, RoundTrip.Framed;
    RoundTrip.NumberRoundTrip(CountWidth(tag), p + [tag], count, header, rest);
    CompoundDispatchAt(tag, |p|, p + [tag] + header + rest);
  }

  lemma CompoundDispatchAt(tag: byte, i: nat, d: bytes)
    requires i < |d| && d[i] == tag && IsCompoundTag(tag)
    ensures Decode(i, d) == DecodeCompound(tag, i + 1, d)
  {
    hide DecodeAtomBody, DecodeIntegerBody, DecodeNodeTerm, DecodeExport, FieldAt, NumberAt, Slice, DecodeCompound;
    assert Decode(i, d) == DecodeTagged(tag, i + 1, d) == DecodePayload(tag, i + 1, d);
  }

  /** The old format takes the creation for the start of an id, which is not empty then. */
  lemma EmptyIdLost(t: Term, b: bytes, p: bytes, s: bytes)
    requires t.Reference? && t.id == [] && Sound(t) && Encode(t) == Ok(b)
    ensures var r := Decode(|p|, p + b + s);
            r.Done? ==> r.value != t
  {
    hide DecodeAtom, EncodeAtom, WellFormedAtom;
    var n := EncodeAtom(t.node).value;
    var d := p + b + s;
    assert b == [TAG_REFERENCE_EXT] + n + t.creation;
    assert d == (p + [TAG_REFERENCE_EXT]) + n + (t.creation + s);
    RoundTrip.AtomRoundTrip(t.node, n);
    Locality.AtomInContext(p + [TAG_REFERENCE_EXT], n, t.creation + s);
    assert d[|p|] == TAG_REFERENCE_EXT;
    assert Decode(|p|, d) == DecodeTagged(TAG_REFERENCE_EXT, |p| + 1, d)
        == DecodeNodeTerm(TAG_REFERENCE_EXT, |p| + 1, d);
    var j := |p| + 1 + |n|;
    assert j < |d| && |Slice(j, 4, d)| > 0;
  }

  /** Wherever the encoding of a term with an empty id stands, something else is read there. */
  lemma {:induction false} NeverBack(t: Term, b: bytes, p: bytes, s: bytes)
    requires Sound(t) && !NoEmptyIds(t) && Encode(t) == Ok(b)
    ensures var r := Decode(|p|, p + b + s);
            r.Done? ==> r.value != Norm(t)
    decreases t, 0
  {
    hide Decode, DecodeSequence, NumberAt, Be32;
    match t
    case Reference(_, _, _) => EmptyIdLost(t, b, p, s);
    case PlainList(ts) => ListNeverBack(ts, b, p, s);
    case ErlangList(ts, improper) =>
      if improper {
        ImproperNeverBack(ts, b, p, s);
      } else {
        ListNeverBack(ts, b, p, s);
      }
    case Tuple(ts) =>
      var header := if |ts| <= MAX_UINT8 then [|ts| as byte] else Be32(|ts|);
      var tag := if |ts| <= MAX_UINT8 then TAG_SMALL_TUPLE_EXT else TAG_LARGE_TUPLE_EXT;
      CountedNeverBack(tag, |ts|, header, ts, EncodeAll(ts).value, p, s);
      assert b == [tag] + header + EncodeAll(ts).value;
    case Map(ts) =>
      CountedNeverBack(TAG_MAP_EXT, |ts| / 2, Be32(|ts| / 2), ts, EncodeAll(ts).value, p, s);
  }

  ghost predicate SomeEmptyId(ts: seq<Term>) {
    exists k :: 0 <= k < |ts| && !NoEmptyIds(ts[k])
  }

  /** Tuples and maps: a count and that many terms. */
  lemma {:induction false} CountedNeverBack(
    tag: byte, count: nat, header: bytes, ts: seq<Term>, body: bytes, p: bytes, s: bytes)
    requires (forall k :: 0 <= k < |ts| ==> Sound(ts[k])) && SomeEmptyId(ts) && EncodeAll(ts) == Ok(body)
    requires IsCompoundTag(tag) && tag != TAG_LIST_EXT && RoundTrip.Framed(CountWidth(tag), count, header)
    requires |ts| == if tag == TAG_MAP_EXT then 2 * count else count
    ensures var r := Decode(|p|, p + ([tag] + header + body) + s);
            r.Done? ==> r.value != Tuple(NormAll(ts)) && r.value != Map(NormAll(ts))
    decreases ts, 1
  {
    hide Decode, DecodeSequence, NumberAt, Sound, NoEmptyIds, RoundTrip.Framed;
    var d := p + ([tag] + header + body) + s;
    assert d == p + [tag] + header + (body + s) && d == (p + [tag] + header) + body + s;
    CompoundAt(tag, p, count, header, body + s);
    HeaderSize(tag, count, header);
    AllNeverBack(ts, body, p + [tag] + header, s);
  }

  lemma HeaderSize(tag: byte, count: nat, header: bytes)
    requires RoundTrip.Framed(CountWidth(tag), count, header)
    ensures |header| == CountWidth(tag)
  {
  }

  lemma {:induction false} ListNeverBack(ts: seq<Term>, b: bytes, p: bytes, s: bytes)
    requires (forall k :: 0 <= k < |ts| ==> Sound(ts[k])) && SomeEmptyId(ts) && EncodeList(ts, false) == Ok(b)
    ensures var r := Decode(|p|, p + b + s);
            r.Done? ==> r.value != PlainList(NormAll(ts))
    decreases ts, 1
  {
    hide Decode, DecodeSequence, NumberAt, Sound, NoEmptyIds, Be32;
    var body, header, end := EncodeAll(ts).value, Be32(|ts|), [TAG_NIL_EXT];
    var d := p + b + s;
    assert d == p + [TAG_LIST_EXT] + header + (body + (end + s));
    assert d == (p + [TAG_LIST_EXT] + header) + body + (end + s);
    CompoundAt(TAG_LIST_EXT, p, |ts|, header, body + (end + s));
    AllNeverBack(ts, body, p + [TAG_LIST_EXT] + header, end + s);
  }

  lemma {:induction false} ImproperNeverBack(ts: seq<Term>, b: bytes, p: bytes, s: bytes)
    requires (forall k :: 0 <= k < |ts| ==> Sound(ts[k])) && SomeEmptyId(ts) && EncodeList(ts, true) == Ok(b)
    ensures var r := Decode(|p|, p + b + s);
            r.Done? ==> r.value != NormList(ts, true)
    decreases ts, 1
  {
    hide Decode, DecodeSequence, Sound, NoEmptyIds, EncodeList, EncodeAll, Encode, ListOf, Norm, NormAll, NormList,
      Be32;
    var front, last, body, tail := ImproperParts(ts, b);
    var d, q := p + b + s, p + [TAG_LIST_EXT] + Be32(|front|);
    Associative(p, [TAG_LIST_EXT], Be32(|front|));
    ImproperSplit(p, [TAG_LIST_EXT] + Be32(|front|), body, tail, s);
    ListRead(p, |front|, d);
    if SomeEmptyId(front) {
      AllNeverBack(front, body, q, tail + s);
    } else {
      FrontBack(front, body, q, tail + s);
      LastEmpty(front, last);
      NeverBack(last, tail, q + body, s);
    }
    var vs := DecodeSequence(|q|, |front|, d);
    if vs.Done? && Decode(vs.next, d).Done? && ListOf(vs.value, Decode(vs.next, d).value) == NormList(ts, true) {
      ListOfInjective(vs.value, Decode(vs.next, d).value, NormAll(front), Norm(last));
      assert false;
    }
  }

  lemma ImproperParts(ts: seq<Term>, b: bytes) returns (front: seq<Term>, last: Term, body: bytes, tail: bytes)
    requires ts != [] && EncodeList(ts, true) == Ok(b)
    ensures front == ts[..|ts| - 1] && last == ts[|ts| - 1] && ts == front + [last] && |front| <= MAX_UINT32
    ensures EncodeAll(front) == Ok(body) && Encode(last) == Ok(tail)
    ensures b == [TAG_LIST_EXT] + Be32(|front|) + body + tail
    ensures NormList(ts, true) == ListOf(NormAll(front), Norm(last))
  {
    hide Encode, EncodeAll, ListOf, Norm, NormAll, Be32;
    front, last := ts[..|ts| - 1], ts[|ts| - 1];
    assert ts == front + [last];
    RoundTrip.EncodeSnoc(front, last);
    RoundTrip.ImproperNorm(front, last);
    body, tail := EncodeAll(front).value, Encode(last).value;
    Associative([TAG_LIST_EXT] + Be32(|front|), body, tail);
  }

  lemma ImproperSplit(p: bytes, header: bytes, body: bytes, tail: bytes, s: bytes)
    ensures var d := p + (header + body + tail) + s;
            && d == p + header + body + (tail + s)
            && d == (p + header + body) + tail + s
  {
  }

  /** What a list frame decodes to, if it does. */
  lemma ListRead(p: bytes, count: nat, d: bytes)
    requires count <= MAX_UINT32 && p + [TAG_LIST_EXT] + Be32(count) <= d
    ensures Decode(|p|, d).Done? ==>
              var vs := DecodeSequence(|p + [TAG_LIST_EXT] + Be32(count)|, count, d);
              && vs.Done? && Decode(vs.next, d).Done?
              && Decode(|p|, d).value == ListOf(vs.value, Decode(vs.next, d).value)
  {
    hide DecodeSequence, NumberAt, ListOf;
    var header := Be32(count);
    var rest := d[|p| + 5..];
    assert d == p + [TAG_LIST_EXT] + header + rest;
    CompoundAt(TAG_LIST_EXT, p, count, header, rest);
  }

  lemma LastEmpty(front: seq<Term>, last: Term)
    requires SomeEmptyId(front + [last]) && !SomeEmptyId(front)
    ensures !NoEmptyIds(last)
  {
    hide NoEmptyIds;
    var k :| 0 <= k < |front + [last]| && !NoEmptyIds((front + [last])[k]);
    assert forall j :: 0 <= j < |front| ==> (front + [last])[j] == front[j];
  }

  /** Terms without an empty id come back in any context. */
  lemma FrontBack(ts: seq<Term>, b: bytes, p: bytes, s: bytes)
    requires (forall k :: 0 <= k < |ts| ==> Sound(ts[k])) && !SomeEmptyId(ts) && EncodeAll(ts) == Ok(b)
    ensures DecodeSequence(|p|, |ts|, p + b + s) == Done(|p| + |b|, NormAll(ts))
  {
    hide DecodeSequence, EncodeAll, Sound, NoEmptyIds, WellFormed;
    SoundAll(ts);
    RoundTrip.RoundTripAll(ts, b);
    Locality.SequenceInContext(p, |ts|, b, s);
  }

  lemma {:induction false} AllNeverBack(ts: seq<Term>, b: bytes, p: bytes, s: bytes)
    requires (forall k :: 0 <= k < |ts| ==> Sound(ts[k])) && SomeEmptyId(ts) && EncodeAll(ts) == Ok(b)
    ensures var r := DecodeSequence(|p|, |ts|, p + b + s);
            r.Done? ==> r.value != NormAll(ts)
    decreases ts, 0
  {
    hide Decode, Sound, NoEmptyIds, WellFormed;
    var d, head, tail := p + b + s, Encode(ts[0]).value, EncodeAll(ts[1..]).value;
    assert b == head + tail;
    assert d == p + head + (tail + s) && d == (p + head) + tail + s;
    if !NoEmptyIds(ts[0]) {
      NeverBack(ts[0], head, p, tail + s);
    } else {
      SoundIsWellFormed(ts[0]);
      RoundTrip.RoundTripInContext(p, ts[0], head, tail + s);
      RestEmpty(ts);
      AllNeverBack(ts[1..], tail, p + head, s);
    }
    assert NormAll(ts)[0] == Norm(ts[0]) && NormAll(ts)[1..] == NormAll(ts[1..]);
    var r := DecodeSequence(|p|, |ts|, d);
    if r.Done? {
      assert r.value[0] == Decode(|p|, d).value;
      assert r.value[1..] == DecodeSequence(Decode(|p|, d).next, |ts| - 1, d).value;
    }
  }

  lemma RestEmpty(ts: seq<Term>)
    requires SomeEmptyId(ts) && NoEmptyIds(ts[0])
    ensures SomeEmptyId(ts[1..])
  {
    hide NoEmptyIds;
    var k :| 0 <= k < |ts| && !NoEmptyIds(ts[k]);
    assert ts[1..][k - 1] == ts[k];
  }

  /**
   * The bytes of an accepted term are accepted and give its normal form exactly when no reference in
   * it has an empty id.
   */
  lemma ReencodedComesBack(d: bytes, b: bytes)
    requires BinaryToTerm(d).Ok? && TermToBinary(BinaryToTerm(d).value) == Ok(b)
    ensures BinaryToTerm(b) == Ok(Norm(BinaryToTerm(d).value)) <==> NoEmptyIds(BinaryToTerm(d).value)
  {
    hide Decode, Sound, NoEmptyIds, WellFormed;
    var t := BinaryToTerm(d).value;
    AcceptedIsSound(d);
    SoundIsWellFormed(t);
    if NoEmptyIds(t) {
      RoundTrip.BytesRoundTrip(t, b);
    } else {
      var x := Encode(t).value;
      NeverBack(t, x, [TAG_VERSION], []);
      assert [TAG_VERSION] + x + [] == b;
    }
  }

  /** A reference of zero words is accepted, but its re-encoding selects the old format and is not. */
  lemma EmptyIdExample()
    ensures var d: bytes := [TAG_VERSION, TAG_NEW_REFERENCE_EXT, 0, 0, TAG_ATOM_CACHE_REF, 5, 7];
            var t := Reference(CacheRef(5), [], [7]);
            && BinaryToTerm(d) == Ok(t)
            && TermToBinary(t).Ok? && BinaryToTerm(TermToBinary(t).value) == Err(UnparsedData)
  {
    var d: bytes := [TAG_VERSION, TAG_NEW_REFERENCE_EXT, 0, 0, TAG_ATOM_CACHE_REF, 5, 7];
    var t := Reference(CacheRef(5), [], [7]);
    RoundTrip.Number16([TAG_VERSION, TAG_NEW_REFERENCE_EXT], 0, [TAG_ATOM_CACHE_REF, 5, 7]);
    assert [TAG_VERSION, TAG_NEW_REFERENCE_EXT] + Be16(0) + [TAG_ATOM_CACHE_REF, 5, 7] == d;
    assert Slice(6, 1, d) == [7] && Slice(7, 0, d) == [];
    assert Decode(1, d) == DecodeTagged(TAG_NEW_REFERENCE_EXT, 2, d) == DecodeNewReference(2, d);
    var e := TermToBinary(t).value;
    assert e == [TAG_VERSION, TAG_REFERENCE_EXT, TAG_ATOM_CACHE_REF, 5, 7];
    assert Decode(1, e) == DecodeTagged(TAG_REFERENCE_EXT, 2, e) == DecodeNodeTerm(TAG_REFERENCE_EXT, 2, e);
  }
}
