/**
 * The decoder with every slice checked against the end of the input. The final comparison of the
 * unchecked decoder makes it accept the same inputs with the same terms.
 */
module CheckedDecoder {
  import opened Bytes
  import opened Terms
  import opened Decoder
  import Bignum

  /** `data[i:i + n]`, or an error when it reaches past the end. */
  function Take(i: nat, n: nat, data: bytes): (r: Parse<bytes>)
    ensures r.Done? ==> r.next == i + n
  {
    if i + n <= |data| then Done(i + n, data[i..i + n]) else Fail(MissingData)
  }

  function Field(width: nat, i: nat, data: bytes): (r: Parse<bytes>)
    ensures r.Done? ==> i + width <= r.next
  {
    var (i, n) :- NumberAt(width, i, data);
    Take(i, n, data)
  }

  function AtomBody(tag: byte, i: nat, data: bytes): (r: Parse<Atom>)
    requires IsAtomTag(tag)
    ensures r.Done? ==> i < r.next
    ensures r.Done? && tag == TAG_SMALL_ATOM_EXT ==> r.value.Latin?
  {
    if tag == TAG_ATOM_CACHE_REF then
      var (i, index) :- ByteAt(i, data);
      Done(i, CacheRef(index))
    else
      var (i, name) :- Field(if tag == TAG_ATOM_EXT || tag == TAG_ATOM_UTF8_EXT then 2 else 1, i, data);
      if tag == TAG_ATOM_EXT || tag == TAG_SMALL_ATOM_EXT then Done(i, Latin(name))
      else if ValidUtf8(name) then Done(i, Utf8(name))
      else Fail(InvalidUtf8)
  }

  function AtomAt(i: nat, data: bytes): (r: Parse<Atom>)
    ensures r.Done? ==> i < r.next
  {
    var (i, tag) :- ByteAt(i, data);
    if IsAtomTag(tag) then AtomBody(tag, i, data) else Fail(InvalidAtomTag)
  }

  function NodeTermAt(tag: byte, i: nat, data: bytes): (r: Parse<Term>)
    requires IsNodeTag(tag)
    ensures r.Done? ==> i < r.next
  {
    if tag == TAG_NEW_REFERENCE_EXT then
      var (i, words) :- NumberAt(2, i, data);
      var (i, node) :- AtomAt(i, data);
      var (i, creation) :- Take(i, 1, data);
      var (i, id) :- Take(i, 4 * words, data);
      Done(i, Reference(node, id, creation))
    else
      var (i, node) :- AtomAt(i, data);
      var (i, id) :- Take(i, 4, data);
      if tag == TAG_PID_EXT then
        var (i, serial) :- Take(i, 4, data);
        var (i, creation) :- Take(i, 1, data);
        Done(i, Pid(node, id, serial, creation))
      else
        var (i, creation) :- Take(i, 1, data);
        Done(i, if tag == TAG_PORT_EXT then Port(node, id, creation) else Reference(node, id, creation))
  }

  function PidAt(i: nat, data: bytes): (r: Parse<Term>)
    ensures r.Done? ==> i < r.next
  {
    var (i, tag) :- ByteAt(i, data);
    if tag == TAG_PID_EXT then NodeTermAt(tag, i, data) else Fail(InvalidPidTag)
  }

  function FunHeaderAt(i: nat, data: bytes): (r: Parse<nat>)
    ensures r.Done? ==> i < r.next
  {
    var (i, numFree) :- NumberAt(4, i, data);
    var (i, _) :- PidAt(i, data);
    var (i, _) :- AtomAt(i, data);
    var (i, _) :- DecodeInteger(i, data);
    var (i, _) :- DecodeInteger(i, data);
    Done(i, numFree)
  }

  function ExportAt(start: nat, data: bytes): (r: Parse<Term>)
    ensures r.Done? ==> start <= r.next
  {
    var (i, _) :- AtomAt(start, data);
    var (i, _) :- AtomAt(i, data);
    var (i, arityTag) :- ByteAt(i, data);
    if arityTag != TAG_SMALL_INTEGER_EXT then Fail(InvalidSmallIntegerTag)
    else
      var (i, _) :- ByteAt(i, data);
      FunctionAt(TAG_EXPORT_EXT, start, i, data)
  }

  /** A fun is the bytes between two cursors. */
  function FunctionAt(tag: byte, start: nat, i: nat, data: bytes): (r: Parse<Term>)
    requires start <= i
    ensures r.Done? ==> r.next == i
  {
    var (i, body) :- Take(start, i - start, data);
    Done(i, Function(tag, body))
  }

  function CheckedBinaryToTerm(data: bytes): Result<Term, ParseError> {
    if |data| <= 1 then Err(NullInput)
    else if data[0] != TAG_VERSION then Err(InvalidVersion)
    else match TermAt(1, data)
      case Done(i, term) => if i != |data| then Err(UnparsedData) else Ok(term)
      case Fail(error) => Err(error)
  }

  function TermAt(i: nat, data: bytes): (r: Parse<Term>)
    ensures r.Done? ==> i < r.next
    decreases Remaining(i, data), 0
  {
    var (i, tag) :- ByteAt(i, data);
    TaggedAt(tag, i, data)
  }

  function TaggedAt(tag: byte, i: nat, data: bytes): (r: Parse<Term>)
    ensures r.Done? ==> i <= r.next
    decreases Remaining(i, data), 5
  {
    if IsAtomTag(tag) then
      var (i, a) :- AtomBody(tag, i, data);
      Done(i, if tag == TAG_SMALL_ATOM_EXT then AtomOrBool(a.name) else AtomTerm(a))
    else if IsIntegerTag(tag) then
      var (i, n) :- DecodeIntegerBody(tag, i, data);
      Done(i, Integer(n))
    else if IsNodeTag(tag) then
      NodeTermAt(tag, i, data)
    else
      PayloadAt(tag, i, data)
  }

  function PayloadAt(tag: byte, i: nat, data: bytes): (r: Parse<Term>)
    ensures r.Done? ==> i <= r.next
    decreases Remaining(i, data), 4
  {
    if tag == TAG_NIL_EXT then
      Done(i, PlainList([]))
    else if tag == TAG_STRING_EXT then
      var (i, s) :- Field(2, i, data);
      Done(i, Str(s))
    else if tag == TAG_BINARY_EXT then
      var (i, s) :- Field(4, i, data);
      Done(i, Binary(s, 8))
    else if tag == TAG_BIT_BINARY_EXT then
      var (i, j) :- NumberAt(4, i, data);
      var (i, bits) :- ByteAt(i, data);
      var (i, octets) :- Take(i, j, data);
      Done(i, Binary(octets, bits))
    else if tag == TAG_NEW_FLOAT_EXT then
      var (i, ieee) :- Take(i, 8, data);
      Done(i, Float(ieee))
    else if tag == TAG_NEW_FUN_EXT then
      var (_, length) :- NumberAt(4, i, data);
      FunctionAt(tag, i, i + length, data)
    else if tag == TAG_EXPORT_EXT then
      ExportAt(i, data)
    else
      CompoundAt(tag, i, data)
  }

  function CompoundAt(tag: byte, i: nat, data: bytes): (r: Parse<Term>)
    ensures r.Done? ==> i <= r.next
    decreases Remaining(i, data), 3
  {
    if tag == TAG_FUN_EXT then
      var (j, numFree) :- FunHeaderAt(i, data);
      var (k, _) :- SequenceAt(j, numFree, data);
      FunctionAt(tag, i, k, data)
    else if !IsCompoundTag(tag) then Fail(InvalidTag)
    else
      var (i, length) :- NumberAt(CountWidth(tag), i, data);
      var (i, ts) :- SequenceAt(i, if tag == TAG_MAP_EXT then 2 * length else length, data);
      if tag == TAG_MAP_EXT then Done(i, Map(ts))
      else if tag == TAG_LIST_EXT then
        var (i, tail) :- TermAt(i, data);
        Done(i, ListOf(ts, tail))
      else Done(i, Tuple(ts))
  }

  function SequenceAt(i: nat, length: nat, data: bytes): (r: Parse<seq<Term>>)
    ensures r.Done? ==> i <= r.next
    decreases Remaining(i, data), 1, length
  {
    if length == 0 then Done(i, [])
    else
      var (i, head) :- TermAt(i, data);
      var (i, tail) :- SequenceAt(i, length - 1, data);
      Done(i, [head] + tail)
  }

  // The checked parse is the unchecked one, when that ends inside the input

  ghost predicate Checks<T(!new)>(n: nat, r: Parse<T>, c: Parse<T>) {
    (c.Done? <==> r.Done? && r.next <= n) && (c.Done? ==> c == r)
  }

  lemma TakeChecks(i: nat, n: nat, d: bytes)
    ensures i + n <= |d| ==> Take(i, n, d) == Done(i + n, Slice(i, n, d))
    ensures i + n > |d| ==> Take(i, n, d).Fail?
  {
    if i == |d| && n == 0 {
      assert d[i..i + n] == [];
    }
  }

  lemma FieldChecks(width: nat, i: nat, d: bytes)
    ensures Checks(|d|, FieldAt(width, i, d), Field(width, i, d))
  {
    hide NumberAt, Slice, Take;
    if NumberAt(width, i, d).Done? {
      TakeChecks(i + width, NumberAt(width, i, d).value, d);
    }
  }

  /** A number is read only inside the input. */
  lemma NumberInside(width: nat, i: nat, d: bytes)
    requires NumberAt(width, i, d).Done? && width > 0
    ensures i + width <= |d|
  {
  }

  lemma AtomBodyChecks(tag: byte, i: nat, d: bytes)
    requires IsAtomTag(tag)
    ensures Checks(|d|, DecodeAtomBody(tag, i, d), AtomBody(tag, i, d))
  {
    hide FieldAt, Field, ValidUtf8;
    if tag != TAG_ATOM_CACHE_REF {
      FieldChecks(if tag == TAG_ATOM_EXT || tag == TAG_ATOM_UTF8_EXT then 2 else 1, i, d);
    }
  }

  lemma AtomChecks(i: nat, d: bytes)
    ensures Checks(|d|, DecodeAtom(i, d), AtomAt(i, d))
  {
    hide DecodeAtomBody, AtomBody;
    if i < |d| && IsAtomTag(d[i]) {
      AtomBodyChecks(d[i], i + 1, d);
    }
  }

  /** The integer formats index every byte they use. */
  lemma IntegerInside(tag: byte, i: nat, d: bytes)
    requires IsIntegerTag(tag) && DecodeIntegerBody(tag, i, d).Done?
    ensures DecodeIntegerBody(tag, i, d).next <= |d|
  {
    hide Bignum.Value, Bignum.BigEndianValue;
  }

  lemma IntegerAtInside(i: nat, d: bytes)
    requires DecodeInteger(i, d).Done?
    ensures DecodeInteger(i, d).next <= |d|
  {
    hide DecodeIntegerBody;
    IntegerInside(d[i], i + 1, d);
  }

  lemma NewReferenceChecks(i: nat, d: bytes)
    ensures Checks(|d|, DecodeNewReference(i, d), NodeTermAt(TAG_NEW_REFERENCE_EXT, i, d))
  {
    hide NumberAt, DecodeAtom, AtomAt, Take, Slice;
    if NumberAt(2, i, d).Done? {
      AtomChecks(i + 2, d);
      var a := DecodeAtom(i + 2, d);
      if a.Done? {
        TakeChecks(a.next, 1, d);
        TakeChecks(a.next + 1, 4 * NumberAt(2, i, d).value, d);
      }
    }
  }

  lemma NodeTermChecks(tag: byte, i: nat, d: bytes)
    requires IsNodeTag(tag)
    ensures Checks(|d|, DecodeNodeTerm(tag, i, d), NodeTermAt(tag, i, d))
  {
    hide DecodeAtom, AtomAt, Take, Slice, DecodeNewReference;
    if tag == TAG_NEW_REFERENCE_EXT {
      NewReferenceChecks(i, d);
    } else {
      AtomChecks(i, d);
      var a := DecodeAtom(i, d);
      if a.Done? {
        TakeChecks(a.next, 4, d);
        TakeChecks(a.next + 4, 4, d);
        TakeChecks(a.next + 4, 1, d);
        TakeChecks(a.next + 8, 1, d);
      }
    }
  }

  lemma PidChecks(i: nat, d: bytes)
    ensures Checks(|d|, DecodePid(i, d), PidAt(i, d))
  {
    hide DecodeNodeTerm, NodeTermAt;
    if i < |d| && d[i] == TAG_PID_EXT {
      NodeTermChecks(d[i], i + 1, d);
    }
  }

  lemma FunHeaderChecks(i: nat, d: bytes)
    ensures Checks(|d|, FunHeader(i, d), FunHeaderAt(i, d))
  {
    hide NumberAt, DecodePid, PidAt, DecodeAtom, AtomAt, DecodeInteger;
    if NumberAt(4, i, d).Done? {
      PidChecks(i + 4, d);
      var pid := DecodePid(i + 4, d);
      if pid.Done? {
        AtomChecks(pid.next, d);
        var m := DecodeAtom(pid.next, d);
        if m.Done? && DecodeInteger(m.next, d).Done? {
          var index := DecodeInteger(m.next, d);
          IntegerAtInside(m.next, d);
          if DecodeInteger(index.next, d).Done? {
            IntegerAtInside(index.next, d);
          }
        }
      }
    }
  }

  lemma ExportChecks(i: nat, d: bytes)
    ensures Checks(|d|, DecodeExport(i, d), ExportAt(i, d))
  {
    hide DecodeAtom, AtomAt, Take, Slice;
    AtomChecks(i, d);
    var m := DecodeAtom(i, d);
    if m.Done? {
      AtomChecks(m.next, d);
      var f := DecodeAtom(m.next, d);
      if f.Done? {
        TakeChecks(i, f.next + 2 - i, d);
      }
    }
  }

  lemma {:induction false} TermChecks(i: nat, d: bytes)
    ensures Checks(|d|, Decode(i, d), TermAt(i, d))
    decreases Remaining(i, d), 0
  {
    hide DecodeTagged, TaggedAt;
    if i < |d| {
      TaggedChecks(d[i], i + 1, d);
    }
  }

  lemma {:induction false} TaggedChecks(tag: byte, i: nat, d: bytes)
    requires i <= |d|
    ensures Checks(|d|, DecodeTagged(tag, i, d), TaggedAt(tag, i, d))
    decreases Remaining(i, d), 5
  {
    hide DecodeAtomBody, AtomBody, DecodeIntegerBody, DecodeNodeTerm, NodeTermAt, DecodePayload, PayloadAt;
    if IsAtomTag(tag) {
      AtomBodyChecks(tag, i, d);
    } else if IsIntegerTag(tag) {
      if DecodeIntegerBody(tag, i, d).Done? {
        IntegerInside(tag, i, d);
      }
    } else if IsNodeTag(tag) {
      NodeTermChecks(tag, i, d);
    } else {
      PayloadChecks(tag, i, d);
    }
  }

  lemma {:induction false} PayloadChecks(tag: byte, i: nat, d: bytes)
    requires i <= |d|
    ensures Checks(|d|, DecodePayload(tag, i, d), PayloadAt(tag, i, d))
    decreases Remaining(i, d), 4
  {
    hide NumberAt, FieldAt, Field, Take, Slice, DecodeExport, ExportAt, DecodeCompound, CompoundAt;
    if tag == TAG_STRING_EXT {
      FieldChecks(2, i, d);
    } else if tag == TAG_BINARY_EXT {
      FieldChecks(4, i, d);
    } else if tag == TAG_BIT_BINARY_EXT {
      if NumberAt(4, i, d).Done? {
        TakeChecks(i + 5, NumberAt(4, i, d).value, d);
      }
    } else if tag == TAG_NEW_FLOAT_EXT {
      FloatChecks(i, d);
    } else if tag == TAG_NEW_FUN_EXT {
      if NumberAt(4, i, d).Done? {
        TakeChecks(i, NumberAt(4, i, d).value, d);
      }
    } else if tag == TAG_EXPORT_EXT {
      ExportChecks(i, d);
    } else if tag != TAG_NIL_EXT {
      CompoundChecks(tag, i, d);
    }
  }

  lemma FloatChecks(i: nat, d: bytes)
    ensures |Slice(i, 8, d)| == 8 <==> i + 8 <= |d|
    ensures Take(i, 8, d) == if i + 8 <= |d| then Done(i + 8, Slice(i, 8, d)) else Fail(MissingData)
  {
  }

  lemma {:induction false} CompoundChecks(tag: byte, i: nat, d: bytes)
    requires i <= |d|
    ensures Checks(|d|, DecodeCompound(tag, i, d), CompoundAt(tag, i, d))
    decreases Remaining(i, d), 3
  {
    hide NumberAt, FunHeader, FunHeaderAt, Decode, DecodeSequence, TermAt, SequenceAt, Take, Slice;
    if tag == TAG_FUN_EXT {
      FunHeaderChecks(i, d);
      var h := FunHeader(i, d);
      if h.Done? {
        assert DecodeCompound(tag, i, d) == DecodeFree(i, h.next, h.value, d);
        SequenceChecks(h.next, h.value, d);
        if DecodeSequence(h.next, h.value, d).Done? {
          TakeChecks(i, DecodeSequence(h.next, h.value, d).next - i, d);
        }
      }
    } else if IsCompoundTag(tag) {
      var count := NumberAt(CountWidth(tag), i, d);
      if count.Done? {
        var length := if tag == TAG_MAP_EXT then 2 * count.value else count.value;
        NumberInside(CountWidth(tag), i, d);
        SequenceChecks(count.next, length, d);
        var ts := DecodeSequence(count.next, length, d);
        if tag == TAG_LIST_EXT && ts.Done? {
          TermChecks(ts.next, d);
        }
      }
    }
  }

  lemma {:induction false} SequenceChecks(i: nat, length: nat, d: bytes)
    ensures i <= |d| || length > 0 ==> Checks(|d|, DecodeSequence(i, length, d), SequenceAt(i, length, d))
    ensures SequenceAt(i, length, d).Done? ==> SequenceAt(i, length, d) == DecodeSequence(i, length, d)
    decreases Remaining(i, d), 1, length
  {
    hide Decode, TermAt;
    if length > 0 {
      TermChecks(i, d);
      if Decode(i, d).Done? {
        SequenceChecks(Decode(i, d).next, length - 1, d);
      }
    }
  }

  /**
   * Slicing without bounds checks is sound: an input is accepted, with a term, exactly when it is
   * accepted with that term and every slice checked.
   */
  lemma UncheckedIsSound(d: bytes, t: Term)
    ensures BinaryToTerm(d) == Ok(t) <==> CheckedBinaryToTerm(d) == Ok(t)
  {
    hide Decode, TermAt;
    if |d| > 1 {
      TermChecks(1, d);
    }
  }
}
