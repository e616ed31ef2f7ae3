/** Putting bytes in front of the input moves every successful parse by their number. */
module Shifting {
  import opened Bytes
  import opened Terms
  import opened Decoder

  /** From position lo on, d is found in e at a distance of gap, up to the end of both. */
  ghost predicate Aligned(gap: int, lo: nat, d: bytes, e: bytes)
    decreases |d| - lo
  {
    if lo >= |d| then |e| == gap + |d|
    else 0 <= gap + lo < |e| && e[gap + lo] == d[lo] && Aligned(gap, lo + 1, d, e)
  }

  /** The parse s is the parse r, gap bytes further on. */
  ghost predicate Moved<T(!new)>(gap: int, r: Parse<T>, s: Parse<T>) {
    r.Done? && s.Done? && s.next == gap + r.next && s.value == r.value
  }

  lemma {:induction false} AlignedAt(gap: int, lo: nat, d: bytes, e: bytes, i: nat)
    requires Aligned(gap, lo, d, e) && lo <= i
    ensures |e| == gap + |d|
    ensures i < |d| ==> 0 <= gap + i < |e| && e[gap + i] == d[i]
    decreases |d| - lo
  {
    if lo < |d| {
      AlignedAt(gap, lo + 1, d, e, if i == lo then i + 1 else i);
    }
  }

  lemma {:induction false} AlignedBySuffix(gap: int, lo: nat, d: bytes, e: bytes)
    requires lo <= |d| && gap + lo >= 0 && gap + lo <= |e| && e[gap + lo..] == d[lo..]
    ensures Aligned(gap, lo, d, e)
    decreases |d| - lo
  {
    if lo < |d| {
      assert e[gap + lo] == e[gap + lo..][0] == d[lo..][0] == d[lo];
      assert e[gap + lo + 1..] == e[gap + lo..][1..] == d[lo..][1..] == d[lo + 1..];
      AlignedBySuffix(gap, lo + 1, d, e);
    }
  }

  lemma {:induction false} AlignedRange(gap: int, lo: nat, i: nat, j: nat, d: bytes, k: nat, l: nat, e: bytes)
    requires Aligned(gap, lo, d, e) && lo <= i <= j <= |d| && k == gap + i && l == gap + j
    ensures l <= |e| && e[k..l] == d[i..j]
    decreases j
  {
    if i < j {
      AlignedRange(gap, lo, i, j - 1, d, k, l - 1, e);
      AlignedAt(gap, lo, d, e, j - 1);
      assert e[k..l] == e[k..l - 1] + [e[l - 1]] && d[i..j] == d[i..j - 1] + [d[j - 1]];
    } else {
      AlignedAt(gap, lo, d, e, i);
    }
  }

  lemma SliceShift(gap: int, lo: nat, i: nat, n: nat, d: bytes, k: nat, e: bytes)
    requires Aligned(gap, lo, d, e) && lo <= i && k == gap + i
    ensures Slice(k, n, e) == Slice(i, n, d)
  {
    hide Aligned;
    AlignedAt(gap, lo, d, e, i);
    if i < |d| {
      if i + n <= |d| {
        AlignedRange(gap, lo, i, i + n, d, k, k + n, e);
      } else {
        AlignedRange(gap, lo, i, |d|, d, k, |e|, e);
        assert e[k..|e|] == e[k..] && d[i..|d|] == d[i..];
      }
    }
  }

  lemma ByteShift(gap: int, lo: nat, i: nat, d: bytes, k: nat, e: bytes)
    requires Aligned(gap, lo, d, e) && lo <= i && k == gap + i && i < |d|
    ensures k < |e| && e[k] == d[i]
  {
    AlignedAt(gap, lo, d, e, i);
  }

  lemma NumberShift(gap: int, lo: nat, width: nat, i: nat, d: bytes, k: nat, e: bytes)
    requires Aligned(gap, lo, d, e) && lo <= i && k == gap + i && NumberAt(width, i, d).Done?
    ensures Moved(gap, NumberAt(width, i, d), NumberAt(width, k, e))
  {
    hide Slice;
    SliceShift(gap, lo, i, width, d, k, e);
  }

  lemma FieldShift(gap: int, lo: nat, width: nat, i: nat, d: bytes, k: nat, e: bytes)
    requires Aligned(gap, lo, d, e) && lo <= i && k == gap + i && FieldAt(width, i, d).Done?
    ensures Moved(gap, FieldAt(width, i, d), FieldAt(width, k, e))
  {
    hide Slice, NumberAt;
    NumberShift(gap, lo, width, i, d, k, e);
    SliceShift(gap, lo, i + width, NumberAt(width, i, d).value, d, k + width, e);
  }

  lemma AtomBodyShift(gap: int, lo: nat, tag: byte, i: nat, d: bytes, k: nat, e: bytes)
    requires Aligned(gap, lo, d, e) && lo <= i && k == gap + i && IsAtomTag(tag) && DecodeAtomBody(tag, i, d).Done?
    ensures Moved(gap, DecodeAtomBody(tag, i, d), DecodeAtomBody(tag, k, e))
  {
    hide FieldAt;
    if tag == TAG_ATOM_CACHE_REF {
      ByteShift(gap, lo, i, d, k, e);
    } else {
      FieldShift(gap, lo, if tag == TAG_ATOM_EXT || tag == TAG_ATOM_UTF8_EXT then 2 else 1, i, d, k, e);
    }
  }

  lemma AtomShift(gap: int, lo: nat, i: nat, d: bytes, k: nat, e: bytes)
    requires Aligned(gap, lo, d, e) && lo <= i && k == gap + i && DecodeAtom(i, d).Done?
    ensures Moved(gap, DecodeAtom(i, d), DecodeAtom(k, e))
  {
    hide DecodeAtomBody;
    ByteShift(gap, lo, i, d, k, e);
    AtomBodyShift(gap, lo, d[i], i + 1, d, k + 1, e);
  }

  lemma DigitsShift(gap: int, lo: nat, i: nat, j: nat, d: bytes, k: nat, e: bytes)
    requires Aligned(gap, lo, d, e) && lo <= i && k == gap + i && DecodeDigits(i, j, d).Done?
    ensures Moved(gap, DecodeDigits(i, j, d), DecodeDigits(k, j, e))
  {
    hide Slice;
    ByteShift(gap, lo, i, d, k, e);
    AlignedAt(gap, lo, d, e, i + j);
    SliceShift(gap, lo, i + 1, j, d, k + 1, e);
  }

  lemma IntegerBodyShift(gap: int, lo: nat, tag: byte, i: nat, d: bytes, k: nat, e: bytes)
    requires Aligned(gap, lo, d, e) && lo <= i && k == gap + i
    requires IsIntegerTag(tag) && DecodeIntegerBody(tag, i, d).Done?
    ensures Moved(gap, DecodeIntegerBody(tag, i, d), DecodeIntegerBody(tag, k, e))
  {
    hide NumberAt, DecodeDigits;
    if tag == TAG_SMALL_BIG_EXT || tag == TAG_LARGE_BIG_EXT {
      var width := if tag == TAG_SMALL_BIG_EXT then 1 else 4;
      NumberShift(gap, lo, width, i, d, k, e);
      DigitsShift(gap, lo, i + width, NumberAt(width, i, d).value, d, k + width, e);
    } else {
      NumberShift(gap, lo, if tag == TAG_SMALL_INTEGER_EXT then 1 else 4, i, d, k, e);
    }
  }

  lemma IntegerShift(gap: int, lo: nat, i: nat, d: bytes, k: nat, e: bytes)
    requires Aligned(gap, lo, d, e) && lo <= i && k == gap + i && DecodeInteger(i, d).Done?
    ensures Moved(gap, DecodeInteger(i, d), DecodeInteger(k, e))
  {
    hide DecodeIntegerBody;
    ByteShift(gap, lo, i, d, k, e);
    IntegerBodyShift(gap, lo, d[i], i + 1, d, k + 1, e);
  }

  lemma IdShift(gap: int, lo: nat, node: Atom, size: nat, i: nat, d: bytes, k: nat, e: bytes)
    requires Aligned(gap, lo, d, e) && lo <= i && k == gap + i
    ensures NewReference(node, size, k, e) == NewReference(node, size, i, d)
  {
    hide Slice;
    SliceShift(gap, lo, i, 1, d, k, e);
    SliceShift(gap, lo, i + 1, size, d, k + 1, e);
  }

  lemma NewReferenceShift(gap: int, lo: nat, i: nat, d: bytes, k: nat, e: bytes)
    requires Aligned(gap, lo, d, e) && lo <= i && k == gap + i && DecodeNewReference(i, d).Done?
    ensures Moved(gap, DecodeNewReference(i, d), DecodeNewReference(k, e))
  {
    hide NumberAt, DecodeAtom, NewReference;
    NumberShift(gap, lo, 2, i, d, k, e);
    AtomShift(gap, lo, i + 2, d, k + 2, e);
    var a := DecodeAtom(i + 2, d);
    IdShift(gap, lo, a.value, 4 * NumberAt(2, i, d).value, a.next, d, DecodeAtom(k + 2, e).next, e);
  }

  lemma NodeFieldsShift(gap: int, lo: nat, tag: byte, node: Atom, i: nat, d: bytes, k: nat, e: bytes)
    requires Aligned(gap, lo, d, e) && lo <= i && k == gap + i
    ensures NodeTerm(tag, node, k, e) == NodeTerm(tag, node, i, d)
  {
    hide Slice;
    SliceShift(gap, lo, i, 4, d, k, e);
    SliceShift(gap, lo, i + 4, 4, d, k + 4, e);
    SliceShift(gap, lo, i + 4, 1, d, k + 4, e);
    SliceShift(gap, lo, i + 8, 1, d, k + 8, e);
  }

  lemma NodeTermShift(gap: int, lo: nat, tag: byte, i: nat, d: bytes, k: nat, e: bytes)
    requires Aligned(gap, lo, d, e) && lo <= i && k == gap + i && IsNodeTag(tag) && DecodeNodeTerm(tag, i, d).Done?
    ensures Moved(gap, DecodeNodeTerm(tag, i, d), DecodeNodeTerm(tag, k, e))
  {
    hide DecodeAtom, NodeTerm, DecodeNewReference;
    if tag == TAG_NEW_REFERENCE_EXT {
      NewReferenceShift(gap, lo, i, d, k, e);
    } else {
      AtomShift(gap, lo, i, d, k, e);
      var a := DecodeAtom(i, d);
      NodeFieldsShift(gap, lo, tag, a.value, a.next, d, DecodeAtom(k, e).next, e);
    }
  }

  lemma PidShift(gap: int, lo: nat, i: nat, d: bytes, k: nat, e: bytes)
    requires Aligned(gap, lo, d, e) && lo <= i && k == gap + i && DecodePid(i, d).Done?
    ensures Moved(gap, DecodePid(i, d), DecodePid(k, e))
  {
    hide DecodeNodeTerm;
    ByteShift(gap, lo, i, d, k, e);
    NodeTermShift(gap, lo, d[i], i + 1, d, k + 1, e);
  }

  lemma ArityShift(gap: int, lo: nat, start: nat, i: nat, d: bytes, at: nat, k: nat, e: bytes)
    requires Aligned(gap, lo, d, e) && lo <= start <= i && at == gap + start && k == gap + i
    requires DecodeArity(start, i, d).Done?
    ensures Moved(gap, DecodeArity(start, i, d), DecodeArity(at, k, e))
  {
    hide Slice;
    ByteShift(gap, lo, i, d, k, e);
    ByteShift(gap, lo, i + 1, d, k + 1, e);
    SliceShift(gap, lo, start, i + 2 - start, d, at, e);
  }

  lemma ExportShift(gap: int, lo: nat, i: nat, d: bytes, k: nat, e: bytes)
    requires Aligned(gap, lo, d, e) && lo <= i && k == gap + i && DecodeExport(i, d).Done?
    ensures Moved(gap, DecodeExport(i, d), DecodeExport(k, e))
  {
    hide DecodeAtom, DecodeArity;
    AtomShift(gap, lo, i, d, k, e);
    var j, l := DecodeAtom(i, d).next, DecodeAtom(k, e).next;
    AtomShift(gap, lo, j, d, l, e);
    ArityShift(gap, lo, i, DecodeAtom(j, d).next, d, k, DecodeAtom(l, e).next, e);
  }

  lemma FunHeaderShift(gap: int, lo: nat, i: nat, d: bytes, k: nat, e: bytes)
    requires Aligned(gap, lo, d, e) && lo <= i && k == gap + i
    ensures FunHeader(i, d).Done? ==> Moved(gap, FunHeader(i, d), FunHeader(k, e))
  {
    hide NumberAt, DecodePid, DecodeAtom, DecodeInteger;
    if FunHeader(i, d).Done? {
      NumberShift(gap, lo, 4, i, d, k, e);
      PidShift(gap, lo, i + 4, d, k + 4, e);
      var i2, k2 := DecodePid(i + 4, d).next, DecodePid(k + 4, e).next;
      AtomShift(gap, lo, i2, d, k2, e);
      var i3, k3 := DecodeAtom(i2, d).next, DecodeAtom(k2, e).next;
      IntegerShift(gap, lo, i3, d, k3, e);
      IntegerShift(gap, lo, DecodeInteger(i3, d).next, d, DecodeInteger(k3, e).next, e);
    }
  }

  /** Decoding moves with its bytes: the cursor is only ever an offset. */
  lemma {:induction false} DecodeShift(gap: int, lo: nat, i: nat, d: bytes, k: nat, e: bytes)
    requires Aligned(gap, lo, d, e) && lo <= i && k == gap + i && Decode(i, d).Done?
    ensures Moved(gap, Decode(i, d), Decode(k, e))
    decreases Remaining(i, d), 0
  {
    hide DecodeTagged;
    ByteShift(gap, lo, i, d, k, e);
    TaggedShift(gap, lo, d[i], i + 1, d, k + 1, e);
  }

  lemma {:induction false} TaggedShift(gap: int, lo: nat, tag: byte, i: nat, d: bytes, k: nat, e: bytes)
    requires Aligned(gap, lo, d, e) && lo <= i && k == gap + i && DecodeTagged(tag, i, d).Done?
    ensures Moved(gap, DecodeTagged(tag, i, d), DecodeTagged(tag, k, e))
    decreases Remaining(i, d), 5
  {
    hide DecodeAtomBody, DecodeIntegerBody, DecodeNodeTerm;
    if IsAtomTag(tag) {
      AtomBodyShift(gap, lo, tag, i, d, k, e);
    } else if IsIntegerTag(tag) {
      IntegerBodyShift(gap, lo, tag, i, d, k, e);
    } else if IsNodeTag(tag) {
      NodeTermShift(gap, lo, tag, i, d, k, e);
    } else {
      PayloadShift(gap, lo, tag, i, d, k, e);
    }
  }

  lemma {:induction false} PayloadShift(gap: int, lo: nat, tag: byte, i: nat, d: bytes, k: nat, e: bytes)
    requires Aligned(gap, lo, d, e) && lo <= i && k == gap + i && DecodePayload(tag, i, d).Done?
    ensures Moved(gap, DecodePayload(tag, i, d), DecodePayload(tag, k, e))
    decreases Remaining(i, d), 4
  {
    hide Slice, NumberAt, FieldAt, DecodeExport;
    if tag == TAG_STRING_EXT {
      FieldShift(gap, lo, 2, i, d, k, e);
    } else if tag == TAG_BINARY_EXT {
      FieldShift(gap, lo, 4, i, d, k, e);
    } else if tag == TAG_BIT_BINARY_EXT {
      NumberShift(gap, lo, 4, i, d, k, e);
      ByteShift(gap, lo, i + 4, d, k + 4, e);
      SliceShift(gap, lo, i + 5, NumberAt(4, i, d).value, d, k + 5, e);
    } else if tag == TAG_NEW_FLOAT_EXT {
      SliceShift(gap, lo, i, 8, d, k, e);
    } else if tag == TAG_NEW_FUN_EXT {
      NumberShift(gap, lo, 4, i, d, k, e);
      SliceShift(gap, lo, i, NumberAt(4, i, d).value, d, k, e);
    } else if tag == TAG_EXPORT_EXT {
      ExportShift(gap, lo, i, d, k, e);
    } else if tag != TAG_NIL_EXT {
      CompoundShift(gap, lo, tag, i, d, k, e);
    }
  }

  lemma {:induction false} CompoundShift(gap: int, lo: nat, tag: byte, i: nat, d: bytes, k: nat, e: bytes)
    requires Aligned(gap, lo, d, e) && lo <= i && k == gap + i && DecodeCompound(tag, i, d).Done?
    ensures Moved(gap, DecodeCompound(tag, i, d), DecodeCompound(tag, k, e))
    decreases Remaining(i, d), 3
  {
    hide FunHeader, NumberAt;
    if tag == TAG_FUN_EXT {
      FunHeaderShift(gap, lo, i, d, k, e);
      var h := FunHeader(i, d);
      FreeShift(gap, lo, i, h.next, h.value, d, k, FunHeader(k, e).next, e);
    } else {
      NumberShift(gap, lo, CountWidth(tag), i, d, k, e);
      var count := NumberAt(CountWidth(tag), i, d);
      var length := if tag == TAG_MAP_EXT then 2 * count.value else count.value;
      var k2 := NumberAt(CountWidth(tag), k, e).next;
      SequenceShift(gap, lo, count.next, length, d, k2, e);
      if tag == TAG_LIST_EXT {
        DecodeShift(gap, lo, DecodeSequence(count.next, length, d).next, d, DecodeSequence(k2, length, e).next, e);
      }
    }
  }

  lemma {:induction false} FreeShift(
    gap: int, lo: nat, start: nat, i: nat, numFree: nat, d: bytes, at: nat, k: nat, e: bytes)
    requires Aligned(gap, lo, d, e) && lo <= start <= i && at == gap + start && k == gap + i
    requires DecodeFree(start, i, numFree, d).Done?
    ensures Moved(gap, DecodeFree(start, i, numFree, d), DecodeFree(at, k, numFree, e))
    decreases Remaining(i, d), 2
  {
    hide Slice;
    SequenceShift(gap, lo, i, numFree, d, k, e);
    SliceShift(gap, lo, start, DecodeSequence(i, numFree, d).next - start, d, at, e);
  }

  lemma {:induction false} SequenceShift(gap: int, lo: nat, i: nat, length: nat, d: bytes, k: nat, e: bytes)
    requires Aligned(gap, lo, d, e) && lo <= i && k == gap + i && DecodeSequence(i, length, d).Done?
    ensures Moved(gap, DecodeSequence(i, length, d), DecodeSequence(k, length, e))
    decreases Remaining(i, d), 1, length
  {
    hide Decode;
    if length > 0 {
      DecodeShift(gap, lo, i, d, k, e);
      SequenceShift(gap, lo, Decode(i, d).next, length - 1, d, Decode(k, e).next, e);
    }
  }
}
