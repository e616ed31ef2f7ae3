/** Decoding what was encoded, in any context, gives the normal form of the term. */
module RoundTrip {
  import opened Bytes
  import opened Terms
  import opened Encoder
  import opened Decoder
  import opened NormalForm
  import Bignum
  import Encodability
  import Functions
  import Locality

  // Single fields

  lemma SliceMiddle(p: bytes, x: bytes, s: bytes)
    ensures Slice(|p|, |x|, p + x + s) == x
  {
    if x != [] {
      assert (p + x + s)[|p|..|p| + |x|] == x;
    }
  }

  lemma Number8(p: bytes, n: byte, s: bytes)
    ensures NumberAt(1, |p|, p + [n] + s) == Done(|p| + 1, n)
  {
    SliceMiddle(p, [n], s);
    assert Bignum.BigEndianValue([n]) == Bignum.BigEndianValue([]) * 256 + n;
  }

  lemma Number16(p: bytes, n: nat, s: bytes)
    requires n <= MAX_UINT16
    ensures NumberAt(2, |p|, p + Be16(n) + s) == Done(|p| + 2, n)
  {
    SliceMiddle(p, Be16(n), s);
    Bignum.BigEndian16(Be16(n));
    Be16Inverse(n, Be16(n));
  }

  lemma Number32(p: bytes, n: nat, s: bytes)
    requires n <= MAX_UINT32
    ensures NumberAt(4, |p|, p + Be32(n) + s) == Done(|p| + 4, n)
  {
    SliceMiddle(p, Be32(n), s);
    Bignum.BigEndian32(Be32(n));
    Be32Inverse(n, Be32(n));
  }

  /** A length as `Number8`, `Number16` or `Number32` frame it. */
  ghost predicate Framed(width: nat, n: nat, header: bytes) {
    || (width == 1 && n <= MAX_UINT8 && header == [n])
    || (width == 2 && n <= MAX_UINT16 && header == Be16(n))
    || (width == 4 && n <= MAX_UINT32 && header == Be32(n))
  }

  lemma NumberRoundTrip(width: nat, p: bytes, n: nat, header: bytes, s: bytes)
    requires Framed(width, n, header)
    ensures |header| == width
    ensures NumberAt(width, |p|, p + header + s) == Done(|p| + width, n)
  {
    if width == 1 {
      Number8(p, n, s);
    } else if width == 2 {
      Number16(p, n, s);
    } else {
      Number32(p, n, s);
    }
  }

  lemma FieldRoundTrip(width: nat, p: bytes, x: bytes, header: bytes, s: bytes)
    requires Framed(width, |x|, header)
    ensures FieldAt(width, |p|, p + header + x + s) == Done(|p| + width + |x|, x)
  {
    NumberRoundTrip(width, p, |x|, header, x + s);
    assert p + header + (x + s) == p + header + x + s;
    SliceMiddle(p + header, x, s);
  }

  // Atoms

  lemma AtomBodyRoundTrip(tag: byte, a: Atom, header: bytes)
    requires WellFormedAtom(a) && !a.CacheRef?
    requires tag == if a.Latin? then (if |header| == 1 then TAG_SMALL_ATOM_EXT else TAG_ATOM_EXT)
                    else if |header| == 1 then TAG_SMALL_ATOM_UTF8_EXT else TAG_ATOM_UTF8_EXT
    requires |header| in {1, 2} && Framed(|header|, |a.name|, header)
    ensures var b := [tag] + header + a.name;
            DecodeAtomBody(tag, 1, b) == Done(|b|, a)
  {
    FieldRoundTrip(|header|, [tag], a.name, header, []);
    assert [tag] + header + a.name + [] == [tag] + header + a.name;
  }

  lemma AtomRoundTrip(a: Atom, b: bytes)
    requires WellFormedAtom(a) && EncodeAtom(a) == Ok(b)
    ensures DecodeAtom(0, b) == Done(|b|, a)
    ensures |b| > 0 && IsAtomTag(b[0]) && DecodeAtomBody(b[0], 1, b) == Done(|b|, a)
    ensures b[0] == TAG_SMALL_ATOM_EXT <==> a.Latin? && |a.name| <= MAX_UINT8
  {
    if !a.CacheRef? {
      var header := if |a.name| <= MAX_UINT8 then [|a.name| as byte] else Be16(|a.name|);
      assert b == [b[0]] + header + a.name;
      AtomBodyRoundTrip(b[0], a, header);
    }
  }

  lemma AtomTermRoundTrip(a: Atom, b: bytes)
    requires WellFormedAtom(a) && EncodeAtom(a) == Ok(b)
    ensures Decode(0, b) == Done(|b|, if a.Latin? then AtomOrBool(a.name) else AtomTerm(a))
  {
    AtomRoundTrip(a, b);
    if a.Latin? && |a.name| > MAX_UINT8 {
      assert AtomOrBool(a.name) == AtomTerm(a);
    }
  }

  // Integers

  lemma DigitsRoundTrip(n: int, digits: bytes, header: bytes, b: bytes, tag: byte)
    requires digits == Bignum.Digits(if n < 0 then -n else n)
    requires (tag == TAG_SMALL_BIG_EXT && |header| == 1) || (tag == TAG_LARGE_BIG_EXT && |header| == 4)
    requires Framed(|header|, |digits|, header)
    requires b == [tag] + header + [if n < 0 then 1 else 0] + digits
    ensures DecodeIntegerBody(tag, 1, b) == Done(|b|, n)
  {
    hide Slice, NumberAt, Be32, Be16, Bignum.Digits, Bignum.Value;
    var sign: byte := if n < 0 then 1 else 0;
    assert b == [tag] + header + ([sign] + digits);
    NumberRoundTrip(|header|, [tag], |digits|, header, [sign] + digits);
    assert b == ([tag] + header + [sign]) + digits + [];
    SliceMiddle([tag] + header + [sign], digits, []);
    Bignum.ValueOfDigits(if n < 0 then -n else n);
    assert b[1 + |header|] == sign;
  }

  lemma IntegerBodyRoundTrip(n: int, b: bytes)
    requires EncodeInteger(n) == Ok(b)
    ensures IsIntegerTag(b[0]) && DecodeIntegerBody(b[0], 1, b) == Done(|b|, n)
  {
    if 0 <= n <= MAX_UINT8 {
      assert b == [TAG_SMALL_INTEGER_EXT] + [n] + [];
      Number8([TAG_SMALL_INTEGER_EXT], n, []);
    } else if -0x8000_0000 <= n < 0x8000_0000 {
      assert b == [TAG_INTEGER_EXT] + Be32(Unsigned32(n)) + [];
      Number32([TAG_INTEGER_EXT], Unsigned32(n), []);
    } else {
      var digits := Bignum.Digits(if n < 0 then -n else n);
      var header := if |digits| <= MAX_UINT8 then [|digits| as byte] else Be32(|digits|);
      assert Framed(|header|, |digits|, header);
      assert b == [b[0]] + header + [if n < 0 then 1 else 0] + digits;
      DigitsRoundTrip(n, digits, header, b, b[0]);
    }
  }

  /**
   * Every integer that a digit string of the large format denotes has bytes and comes back, with the
   * sign kept apart from the magnitude; no other integer has bytes.
   */
  lemma IntegerRoundTrip(n: int)
    ensures EncodeInteger(n).Ok? <==> Encodability.Representable(if n < 0 then -n else n)
    ensures var r := EncodeInteger(n);
            r.Ok? ==> Decode(0, r.value) == Done(|r.value|, Integer(n))
  {
    hide Decode, EncodeInteger;
    Encodability.IntegerAnswers(n);
    if EncodeInteger(n).Ok? {
      EncodedIntegerRoundTrip(n, EncodeInteger(n).value);
    }
  }

  lemma EncodedIntegerRoundTrip(n: int, b: bytes)
    requires EncodeInteger(n) == Ok(b)
    ensures Decode(0, b) == Done(|b|, Integer(n))
  {
    IntegerBodyRoundTrip(n, b);
    assert Decode(0, b) == DecodeTagged(b[0], 1, b);
  }

  // References, ports and pids

  lemma NodeTermRoundTrip(tag: byte, node: Atom, n: bytes, fields: bytes, b: bytes)
    requires WellFormedAtom(node) && EncodeAtom(node) == Ok(n)
    requires tag == TAG_PORT_EXT || tag == TAG_PID_EXT
    requires b == [tag] + n + fields
    ensures Decode(0, b) == Done(1 + |n| + if tag == TAG_PID_EXT then 9 else 5, NodeTerm(tag, node, 1 + |n|, b))
  {
    hide Decode, EncodeAtom, DecodeAtom, NodeTerm, Slice;
    AtomRoundTrip(node, n);
    Locality.AtomInContext([tag], n, fields);
    NodeTermDispatch(b);
  }

  /** Consecutive fields are found one after the other. */
  lemma FieldsMiddle(p: bytes, x: bytes, y: bytes, z: bytes)
    ensures var b := p + x + y + z;
            && Slice(|p|, |x|, b) == x
            && Slice(|p| + |x|, |y|, b) == y
            && Slice(|p| + |x| + |y|, |z|, b) == z
  {
    SliceMiddle(p, x, y + z);
    assert p + x + (y + z) == p + x + y + z;
    SliceMiddle(p + x, y, z);
    SliceMiddle(p + x + y, z, []);
    assert p + x + y + z + [] == p + x + y + z;
  }

  lemma PidFields(t: Term, p: bytes)
    requires t.Pid? && |t.id| == 4 && |t.serial| == 4 && |t.creation| == 1
    ensures NodeTerm(TAG_PID_EXT, t.node, |p|, p + (t.id + t.serial + t.creation)) == t
  {
    FieldsMiddle(p, t.id, t.serial, t.creation);
    assert p + (t.id + t.serial + t.creation) == p + t.id + t.serial + t.creation;
  }

  lemma PortFields(t: Term, p: bytes)
    requires t.Port? && |t.id| == 4 && |t.creation| == 1
    ensures NodeTerm(TAG_PORT_EXT, t.node, |p|, p + (t.id + t.creation)) == t
  {
    FieldsMiddle(p, t.id, t.creation, []);
    assert p + (t.id + t.creation) == p + t.id + t.creation + [];
  }

  lemma PidRoundTrip(t: Term, b: bytes)
    requires t.Pid? && WellFormed(t) && Encode(t) == Ok(b)
    ensures Decode(0, b) == Done(|b|, t)
  {
    hide EncodeAtom, Decode, Slice;
    var n, fields := EncodeAtom(t.node).value, t.id + t.serial + t.creation;
    assert b == [TAG_PID_EXT] + n + fields;
    PidFields(t, [TAG_PID_EXT] + n);
    NodeTermRoundTrip(TAG_PID_EXT, t.node, n, fields, b);
  }

  lemma NodeTermDispatch(b: bytes)
    requires |b| > 0 && IsNodeTag(b[0])
    ensures Decode(0, b) == DecodeNodeTerm(b[0], 1, b)
  {
    assert Decode(0, b) == DecodeTagged(b[0], 1, b);
  }

  lemma PortRoundTrip(t: Term, b: bytes)
    requires t.Port? && WellFormed(t) && Encode(t) == Ok(b)
    ensures Decode(0, b) == Done(|b|, t)
  {
    hide EncodeAtom, Decode, Slice;
    var n, fields := EncodeAtom(t.node).value, t.id + t.creation;
    assert b == [TAG_PORT_EXT] + n + fields;
    PortFields(t, [TAG_PORT_EXT] + n);
    NodeTermRoundTrip(TAG_PORT_EXT, t.node, n, fields, b);
  }

  /** The number of words and the node of a reference are found before its creation and id. */
  lemma ReferenceHeader(words: nat, node: Atom, n: bytes, rest: bytes)
    requires words <= MAX_UINT16 && WellFormedAtom(node) && EncodeAtom(node) == Ok(n)
    ensures var b := [TAG_NEW_REFERENCE_EXT] + Be16(words) + n + rest;
            && NumberAt(2, 1, b) == Done(3, words)
            && DecodeAtom(3, b) == Done(3 + |n|, node)
  {
    var p := [TAG_NEW_REFERENCE_EXT] + Be16(words);
    Number16([TAG_NEW_REFERENCE_EXT], words, n + rest);
    assert p + n + rest == p + (n + rest);
    AtomRoundTrip(node, n);
    Locality.AtomInContext(p, n, rest);
  }

  lemma ReferenceRoundTrip(t: Term, b: bytes)
    requires t.Reference? && WellFormed(t) && Encode(t) == Ok(b)
    ensures Decode(0, b) == Done(|b|, t)
  {
    hide Slice, NumberAt, DecodeAtom, EncodeAtom, Be16, Decode;
    var n := EncodeAtom(t.node).value;
    var words := |t.id| / 4;
    var p := [TAG_NEW_REFERENCE_EXT] + Be16(words) + n;
    assert b == p + (t.creation + t.id);
    ReferenceHeader(words, t.node, n, t.creation + t.id);
    assert NewReference(t.node, 4 * words, |p|, b) == t by {
      FieldsMiddle(p, t.creation, t.id, []);
      assert b == p + t.creation + t.id + [];
    }
    NodeTermDispatch(b);
  }

  // Strings, binaries, floats

  lemma PayloadDispatch(tag: byte, b: bytes)
    requires |b| > 0 && b[0] == tag
    requires !IsAtomTag(tag) && !IsIntegerTag(tag) && !IsNodeTag(tag)
    ensures Decode(0, b) == DecodePayload(tag, 1, b)
  {
    assert Decode(0, b) == DecodeTagged(tag, 1, b);
  }

  lemma StringRoundTrip(s: bytes, b: bytes)
    requires |s| <= MAX_UINT16 && EncodeString(s) == Ok(b)
    ensures Decode(0, b) == Done(|b|, if s == [] then PlainList([]) else Str(s))
  {
    PayloadDispatch(b[0], b);
    if s != [] {
      FieldRoundTrip(2, [TAG_STRING_EXT], s, Be16(|s|), []);
      assert b == [TAG_STRING_EXT] + Be16(|s|) + s + [];
    }
  }

  lemma BitBinaryRoundTrip(octets: bytes, bits: byte, b: bytes)
    requires |octets| <= MAX_UINT32
    requires b == [TAG_BIT_BINARY_EXT] + Be32(|octets|) + [bits] + octets
    ensures NumberAt(4, 1, b) == Done(5, |octets|)
    ensures |b| == 6 + |octets| && b[5] == bits && Slice(6, |octets|, b) == octets
  {
    assert b == [TAG_BIT_BINARY_EXT] + Be32(|octets|) + ([bits] + octets);
    Number32([TAG_BIT_BINARY_EXT], |octets|, [bits] + octets);
    var p := [TAG_BIT_BINARY_EXT] + Be32(|octets|) + [bits];
    assert b == p + octets + [];
    SliceMiddle(p, octets, []);
  }

  lemma BinaryRoundTrip(octets: bytes, bits: byte, b: bytes)
    requires EncodeBinary(octets, bits) == Ok(b)
    ensures Decode(0, b) == Done(|b|, Binary(octets, bits))
  {
    hide Slice, NumberAt, Be32, Decode;
    PayloadDispatch(b[0], b);
    if bits == 8 {
      FieldRoundTrip(4, [TAG_BINARY_EXT], octets, Be32(|octets|), []);
      assert b == [TAG_BINARY_EXT] + Be32(|octets|) + octets + [];
    } else {
      BitBinaryRoundTrip(octets, bits, b);
    }
  }

  lemma FloatRoundTrip(ieee: bytes, b: bytes)
    requires |ieee| == 8 && b == [TAG_NEW_FLOAT_EXT] + ieee
    ensures Decode(0, b) == Done(|b|, Float(ieee))
  {
    PayloadDispatch(TAG_NEW_FLOAT_EXT, b);
    assert b == [TAG_NEW_FLOAT_EXT] + ieee + [];
    SliceMiddle([TAG_NEW_FLOAT_EXT], ieee, []);
  }

  // Sequences of terms

  lemma {:induction false} EncodeAllSplit(ts: seq<Term>, us: seq<Term>)
    requires EncodeAll(ts + us).Ok?
    ensures EncodeAll(ts).Ok? && EncodeAll(us).Ok?
    ensures EncodeAll(ts + us).value == EncodeAll(ts).value + EncodeAll(us).value
  {
    if ts == [] {
      assert ts + us == us;
    } else {
      assert (ts + us)[1..] == ts[1..] + us;
      EncodeAllSplit(ts[1..], us);
    }
  }

  lemma {:induction false} NormAllSplit(ts: seq<Term>, us: seq<Term>)
    ensures NormAll(ts + us) == NormAll(ts) + NormAll(us)
  {
    if ts == [] {
      assert ts + us == us;
    } else {
      assert (ts + us)[1..] == ts[1..] + us;
      NormAllSplit(ts[1..], us);
    }
  }

  lemma SequenceJoin(x: bytes, length: nat, y: bytes)
    requires Decode(0, x).Done? && Decode(0, x).next == |x|
    requires DecodeSequence(0, length, y).Done? && DecodeSequence(0, length, y).next == |y|
    ensures DecodeSequence(0, length + 1, x + y)
         == Done(|x + y|, [Decode(0, x).value] + DecodeSequence(0, length, y).value)
  {
    Locality.DecodeInContext([], x, y);
    assert [] + x + y == x + y;
    Locality.SequenceInContext(x, length, y, []);
    assert x + y + [] == x + y;
  }

  lemma {:induction false} IntegersRoundTrip(s: bytes)
    ensures DecodeSequence(0, |s|, SmallIntegers(s)) == Done(|SmallIntegers(s)|, IntegersOf(s))
  {
    if s != [] {
      IntegersRoundTrip(s[1..]);
      EncodedIntegerRoundTrip(s[0], [TAG_SMALL_INTEGER_EXT, s[0]]);
      SequenceJoin([TAG_SMALL_INTEGER_EXT, s[0]], |s| - 1, SmallIntegers(s[1..]));
    }
  }

  /** A count, then that many terms, as tuples, lists and maps carry them; s follows them. */
  lemma CountedRoundTrip(tag: byte, count: nat, header: bytes, length: nat, body: bytes, s: bytes)
    requires Framed(CountWidth(tag), count, header)
    requires DecodeSequence(0, length, body).Done? && DecodeSequence(0, length, body).next == |body|
    ensures var b := [tag] + header + body + s;
            && NumberAt(CountWidth(tag), 1, b) == Done(1 + |header|, count)
            && DecodeSequence(1 + |header|, length, b)
               == Done(|b| - |s|, DecodeSequence(0, length, body).value)
  {
    hide NumberAt, DecodeSequence, Framed;
    FramedWidth(CountWidth(tag), count, header);
    NumberRoundTrip(CountWidth(tag), [tag], count, header, body + s);
    Associative([tag] + header, body, s);
    Locality.SequenceInContext([tag] + header, length, body, s);
  }

  lemma FramedWidth(width: nat, count: nat, header: bytes)
    requires Framed(width, count, header)
    ensures |header| == width
  {
  }

  lemma CompoundDispatch(tag: byte, b: bytes)
    requires |b| > 0 && b[0] == tag && IsCompoundTag(tag)
    ensures Decode(0, b) == DecodeCompound(tag, 1, b)
  {
    PayloadDispatch(tag, b);
    assert DecodePayload(tag, 1, b) == DecodeCompound(tag, 1, b);
  }

  /** A list frame decodes to its elements and its tail. */
  lemma ListFrameRoundTrip(length: nat, body: bytes, tail: bytes)
    requires length <= MAX_UINT32
    requires DecodeSequence(0, length, body).Done? && DecodeSequence(0, length, body).next == |body|
    requires Decode(0, tail).Done? && Decode(0, tail).next == |tail|
    ensures var b := [TAG_LIST_EXT] + Be32(length) + body + tail;
            Decode(0, b) == Done(|b|, ListOf(DecodeSequence(0, length, body).value, Decode(0, tail).value))
  {
    var b := [TAG_LIST_EXT] + Be32(length) + body + tail;
    CompoundDispatch(TAG_LIST_EXT, b);
    CountedRoundTrip(TAG_LIST_EXT, length, Be32(length), length, body, tail);
    Locality.DecodeInContext([TAG_LIST_EXT] + Be32(length) + body, tail, []);
    assert b + [] == b;
  }

  lemma NilRoundTrip()
    ensures Decode(0, [TAG_NIL_EXT]) == Done(1, PlainList([]))
  {
    PayloadDispatch(TAG_NIL_EXT, [TAG_NIL_EXT]);
  }

  lemma LongStringRoundTrip(s: bytes, b: bytes)
    requires |s| > MAX_UINT16 && EncodeString(s) == Ok(b)
    ensures Decode(0, b) == Done(|b|, PlainList(IntegersOf(s)))
  {
    IntegersRoundTrip(s);
    NilRoundTrip();
    ListFrameRoundTrip(|s|, SmallIntegers(s), [TAG_NIL_EXT]);
  }

  // All terms

  lemma {:induction false} TupleRoundTrip(ts: seq<Term>, b: bytes)
    requires forall k :: 0 <= k < |ts| ==> WellFormed(ts[k])
    requires EncodeTuple(ts) == Ok(b)
    ensures Decode(0, b) == Done(|b|, Tuple(NormAll(ts)))
    decreases ts, 1
  {
    hide Be32, NumberAt, EncodeAll, Decode, DecodeSequence, WellFormed, NormAll;
    var body := EncodeAll(ts).value;
    RoundTripAll(ts, body);
    var header := if |ts| <= MAX_UINT8 then [|ts| as byte] else Be32(|ts|);
    assert b == [b[0]] + header + body + [];
    CompoundDispatch(b[0], b);
    CountedRoundTrip(b[0], |ts|, header, |ts|, body, []);
  }

  lemma {:induction false} MapRoundTrip(entries: seq<Term>, b: bytes)
    requires forall k :: 0 <= k < |entries| ==> WellFormed(entries[k])
    requires EncodeMap(entries) == Ok(b)
    ensures Decode(0, b) == Done(|b|, Map(NormAll(entries)))
    decreases entries, 1
  {
    hide Be32, NumberAt, EncodeAll, Decode;
    var body := EncodeAll(entries).value;
    RoundTripAll(entries, body);
    var count := |entries| / 2;
    assert b == [TAG_MAP_EXT] + Be32(count) + body + [];
    CompoundDispatch(TAG_MAP_EXT, b);
    CountedRoundTrip(TAG_MAP_EXT, count, Be32(count), 2 * count, body, []);
  }

  lemma {:induction false} ListRoundTrip(ts: seq<Term>, improper: bool, b: bytes)
    requires forall k :: 0 <= k < |ts| ==> WellFormed(ts[k])
    requires EncodeList(ts, improper) == Ok(b)
    ensures Decode(0, b) == Done(|b|, NormList(ts, improper))
    decreases ts, 1
  {
    NilRoundTrip();
    if ts != [] && !improper {
      var body := EncodeAll(ts).value;
      RoundTripAll(ts, body);
      ListFrameRoundTrip(|ts|, body, [TAG_NIL_EXT]);
    } else if ts != [] {
      var front, last := ts[..|ts| - 1], ts[|ts| - 1];
      assert ts == front + [last];
      ImproperRoundTrip(front, last, b);
    }
  }

  lemma EncodeSnoc(front: seq<Term>, last: Term)
    requires EncodeAll(front + [last]).Ok?
    ensures EncodeAll(front).Ok? && Encode(last).Ok?
    ensures EncodeAll(front + [last]).value == EncodeAll(front).value + Encode(last).value
  {
    EncodeAllSplit(front, [last]);
    assert EncodeAll([last]).value == Encode(last).value + [];
  }

  lemma ImproperEncoding(front: seq<Term>, last: Term, header: bytes)
    requires EncodeList(front + [last], true).Ok?
    requires |front| <= MAX_UINT32 ==> header == [TAG_LIST_EXT] + Be32(|front|)
    ensures EncodeAll(front).Ok? && Encode(last).Ok? && |front| <= MAX_UINT32
    ensures EncodeList(front + [last], true).value == header + EncodeAll(front).value + Encode(last).value
  {
    hide Encode, EncodeAll, Be32;
    EncodeSnoc(front, last);
    var body, tail := EncodeAll(front).value, Encode(last).value;
    assert EncodeList(front + [last], true).value == header + (body + tail);
    assert header + (body + tail) == header + body + tail;
  }

  lemma ImproperNorm(front: seq<Term>, last: Term)
    ensures NormList(front + [last], true) == ListOf(NormAll(front), Norm(last))
  {
    NormAllSplit(front, [last]);
    assert NormAll(front + [last]) == NormAll(front) + [Norm(last)];
  }

  lemma {:induction false} ImproperRoundTrip(front: seq<Term>, last: Term, b: bytes)
    requires WellFormed(last) && forall k :: 0 <= k < |front| ==> WellFormed(front[k])
    requires EncodeList(front + [last], true) == Ok(b)
    ensures Decode(0, b) == Done(|b|, NormList(front + [last], true))
    decreases front + [last], 0
  {
    ImproperEncoding(front, last, if |front| <= MAX_UINT32 then [TAG_LIST_EXT] + Be32(|front|) else []);
    ImproperNorm(front, last);
    var body, tail := EncodeAll(front).value, Encode(last).value;
    assert front == (front + [last])[..|front|] && last == (front + [last])[|front|];
    RoundTripAll(front, body);
    RoundTrip(last, tail);
    ListFrameRoundTrip(|front|, body, tail);
  }

  lemma {:induction false} RoundTrip(t: Term, b: bytes)
    requires WellFormed(t) && Encode(t) == Ok(b)
    ensures Decode(0, b) == Done(|b|, Norm(t))
    decreases t, 0
  {
    match t
    case Str(s) => if |s| <= MAX_UINT16 { StringRoundTrip(s, b); } else { LongStringRoundTrip(s, b); }
    case PlainList(ts) => ListRoundTrip(ts, false, b);
    case Tuple(ts) => TupleRoundTrip(ts, b);
    case Integer(n) => EncodedIntegerRoundTrip(n, b);
    case Float(ieee) => FloatRoundTrip(ieee, b);
    case Map(ts) => MapRoundTrip(ts, b);
    case Bool(truth) => AtomTermRoundTrip(Latin(BoolName(truth)), b);
    case AtomTerm(a) => AtomTermRoundTrip(a, b);
    case ErlangList(ts, improper) => ListRoundTrip(ts, improper, b);
    case Binary(octets, bits) => BinaryRoundTrip(octets, bits, b);
    case Function(tag, body) => Functions.FunctionRoundTrip(tag, body);
    case Reference(_, _, _) => ReferenceRoundTrip(t, b);
    case Port(_, _, _) => PortRoundTrip(t, b);
    case Pid(_, _, _, _) => PidRoundTrip(t, b);
  }

  lemma {:induction false} RoundTripAll(ts: seq<Term>, b: bytes)
    requires forall k :: 0 <= k < |ts| ==> WellFormed(ts[k])
    requires EncodeAll(ts) == Ok(b)
    ensures DecodeSequence(0, |ts|, b) == Done(|b|, NormAll(ts))
    decreases ts, 0
  {
    if ts != [] {
      var x, y := Encode(ts[0]).value, EncodeAll(ts[1..]).value;
      RoundTrip(ts[0], x);
      RoundTripAll(ts[1..], y);
      SequenceJoin(x, |ts| - 1, y);
    }
  }

  /** The round trip in any context: prefix p, suffix s. */
  lemma RoundTripInContext(p: bytes, t: Term, b: bytes, s: bytes)
    requires WellFormed(t) && Encode(t) == Ok(b)
    ensures Decode(|p|, p + b + s) == Done(|p| + |b|, Norm(t))
  {
    RoundTrip(t, b);
    Locality.DecodeInContext(p, b, s);
  }

  /**
   * `binary_to_term(term_to_binary(t))` is the normal form of t, for every well-formed term whose
   * sizes fit their formats; no other term has bytes.
   */
  lemma BinaryRoundTripOfTerm(t: Term)
    requires WellFormed(t)
    ensures TermToBinary(t).Ok? <==> Encodability.Encodable(t)
    ensures TermToBinary(t).Ok? ==> BinaryToTerm(TermToBinary(t).value) == Ok(Norm(t))
  {
    hide WellFormed, TermToBinary, BinaryToTerm, Norm;
    Encodability.EncodesExactly(t);
    if TermToBinary(t).Ok? {
      BytesRoundTrip(t, TermToBinary(t).value);
    }
  }

  lemma BytesRoundTrip(t: Term, b: bytes)
    requires WellFormed(t) && TermToBinary(t) == Ok(b)
    ensures BinaryToTerm(b) == Ok(Norm(t))
  {
    RoundTripInContext([TAG_VERSION], t, b[1..], []);
    assert b == [TAG_VERSION] + b[1..] + [];
  }

  /** The free variables of a fun may be any terms that were encoded. */
  lemma FreeTerms(ts: seq<Term>, free: bytes)
    requires EncodeAll(ts) == Ok(free) && forall k :: 0 <= k < |ts| ==> WellFormed(ts[k])
    ensures FreeBytes(|ts|, free)
  {
    RoundTripAll(ts, free);
  }
}
