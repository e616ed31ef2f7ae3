/**
 * The decoder is local: when the bytes it consumed lie inside the input, the same bytes decode to
 * the same value whatever surrounds them.
 */
module Locality {
  import opened Bytes
  import opened Terms
  import opened Decoder
  import Bignum
  import Shifting

  /** d and e agree on their first n bytes. */
  ghost predicate Agree(n: nat, d: bytes, e: bytes) {
    n <= |d| && n <= |e| && forall x :: 0 <= x < n ==> d[x] == e[x]
  }

  /** The parse ended within the first n bytes. */
  ghost predicate Within<T(!new)>(n: nat, r: Parse<T>) {
    r.Done? && r.next <= n
  }

  lemma SliceAgrees(n: nat, i: nat, m: nat, d: bytes, e: bytes)
    requires Agree(n, d, e) && i + m <= n
    ensures Slice(i, m, d) == Slice(i, m, e)
  {
  }

  lemma NumberAgrees(n: nat, width: nat, i: nat, d: bytes, e: bytes)
    requires Agree(n, d, e) && i + width <= n
    ensures NumberAt(width, i, d) == NumberAt(width, i, e)
  {
    hide Slice;
    SliceAgrees(n, i, width, d, e);
  }

  lemma FieldAgrees(n: nat, width: nat, i: nat, d: bytes, e: bytes)
    requires Agree(n, d, e) && Within(n, FieldAt(width, i, d))
    ensures FieldAt(width, i, e) == FieldAt(width, i, d)
  {
    hide NumberAt, Slice;
    NumberAgrees(n, width, i, d, e);
    SliceAgrees(n, i + width, NumberAt(width, i, d).value, d, e);
  }

  lemma AtomBodyAgrees(n: nat, tag: byte, i: nat, d: bytes, e: bytes)
    requires Agree(n, d, e) && IsAtomTag(tag) && Within(n, DecodeAtomBody(tag, i, d))
    ensures DecodeAtomBody(tag, i, e) == DecodeAtomBody(tag, i, d)
  {
    hide FieldAt;
    if tag != TAG_ATOM_CACHE_REF {
      FieldAgrees(n, if tag == TAG_ATOM_EXT || tag == TAG_ATOM_UTF8_EXT then 2 else 1, i, d, e);
    }
  }

  lemma AtomAgrees(n: nat, i: nat, d: bytes, e: bytes)
    requires Agree(n, d, e) && Within(n, DecodeAtom(i, d))
    ensures DecodeAtom(i, e) == DecodeAtom(i, d)
  {
    hide DecodeAtomBody;
    AtomBodyAgrees(n, d[i], i + 1, d, e);
  }

  lemma DigitsAgree(n: nat, i: nat, j: nat, d: bytes, e: bytes)
    requires Agree(n, d, e) && Within(n, DecodeDigits(i, j, d))
    ensures DecodeDigits(i, j, e) == DecodeDigits(i, j, d)
  {
    hide Slice;
    SliceAgrees(n, i + 1, j, d, e);
  }

  lemma IntegerBodyAgrees(n: nat, tag: byte, i: nat, d: bytes, e: bytes)
    requires Agree(n, d, e) && IsIntegerTag(tag) && Within(n, DecodeIntegerBody(tag, i, d))
    ensures DecodeIntegerBody(tag, i, e) == DecodeIntegerBody(tag, i, d)
  {
    hide NumberAt, DecodeDigits;
    if tag == TAG_SMALL_BIG_EXT || tag == TAG_LARGE_BIG_EXT {
      var width := if tag == TAG_SMALL_BIG_EXT then 1 else 4;
      NumberAgrees(n, width, i, d, e);
      DigitsAgree(n, i + width, NumberAt(width, i, d).value, d, e);
    } else {
      NumberAgrees(n, if tag == TAG_SMALL_INTEGER_EXT then 1 else 4, i, d, e);
    }
  }

  lemma IntegerAgrees(n: nat, i: nat, d: bytes, e: bytes)
    requires Agree(n, d, e) && Within(n, DecodeInteger(i, d))
    ensures DecodeInteger(i, e) == DecodeInteger(i, d)
  {
    hide DecodeIntegerBody;
    IntegerBodyAgrees(n, d[i], i + 1, d, e);
  }

  lemma NewReferenceAgrees(n: nat, i: nat, d: bytes, e: bytes)
    requires Agree(n, d, e) && Within(n, DecodeNewReference(i, d))
    ensures DecodeNewReference(i, e) == DecodeNewReference(i, d)
  {
    hide NumberAt, DecodeAtom, NewReference;
    NumberAgrees(n, 2, i, d, e);
    AtomAgrees(n, i + 2, d, e);
    var words := NumberAt(2, i, d).value;
    var a := DecodeAtom(i + 2, d);
    IdAgrees(n, a.value, 4 * words, a.next, d, e);
  }

  lemma IdAgrees(n: nat, node: Atom, size: nat, i: nat, d: bytes, e: bytes)
    requires Agree(n, d, e) && i + 1 + size <= n
    ensures NewReference(node, size, i, e) == NewReference(node, size, i, d)
  {
    hide Slice;
    SliceAgrees(n, i, 1, d, e);
    SliceAgrees(n, i + 1, size, d, e);
  }

  lemma NodeFieldsAgree(n: nat, tag: byte, node: Atom, i: nat, d: bytes, e: bytes)
    requires Agree(n, d, e) && (if tag == TAG_PID_EXT then i + 9 else i + 5) <= n
    ensures NodeTerm(tag, node, i, e) == NodeTerm(tag, node, i, d)
  {
    hide Slice;
    SliceAgrees(n, i, 4, d, e);
    SliceAgrees(n, i + 4, 1, d, e);
    if tag == TAG_PID_EXT {
      SliceAgrees(n, i + 4, 4, d, e);
      SliceAgrees(n, i + 8, 1, d, e);
    }
  }

  lemma NodeTermAgrees(n: nat, tag: byte, i: nat, d: bytes, e: bytes)
    requires Agree(n, d, e) && IsNodeTag(tag) && Within(n, DecodeNodeTerm(tag, i, d))
    ensures DecodeNodeTerm(tag, i, e) == DecodeNodeTerm(tag, i, d)
  {
    hide DecodeAtom, NodeTerm, DecodeNewReference;
    if tag == TAG_NEW_REFERENCE_EXT {
      NewReferenceAgrees(n, i, d, e);
    } else {
      AtomAgrees(n, i, d, e);
      var a := DecodeAtom(i, d);
      NodeFieldsAgree(n, tag, a.value, a.next, d, e);
    }
  }

  lemma PidAgrees(n: nat, i: nat, d: bytes, e: bytes)
    requires Agree(n, d, e) && Within(n, DecodePid(i, d))
    ensures DecodePid(i, e) == DecodePid(i, d)
  {
    hide DecodeNodeTerm;
    NodeTermAgrees(n, d[i], i + 1, d, e);
  }

  lemma ExportAgrees(n: nat, i: nat, d: bytes, e: bytes)
    requires Agree(n, d, e) && Within(n, DecodeExport(i, d))
    ensures DecodeExport(i, e) == DecodeExport(i, d)
  {
    hide DecodeAtom, Slice;
    AtomAgrees(n, i, d, e);
    var j := DecodeAtom(i, d).next;
    AtomAgrees(n, j, d, e);
    SliceAgrees(n, i, DecodeExport(i, d).next - i, d, e);
  }

  /**
   * NEW_FUN_EXT reads a four-byte length even when that length is below four, so it looks past the
   * bytes it consumes. A parse is short when that is how it ends: such a fun, or a list, tuple, map
   * or fun whose last term is short.
   */
  ghost predicate Short(i: nat, d: bytes)
    decreases Remaining(i, d), 0
  {
    i < |d| && ShortTagged(d[i], i + 1, d)
  }

  ghost predicate ShortTagged(tag: byte, i: nat, d: bytes)
    decreases Remaining(i, d), 2
  {
    if tag == TAG_NEW_FUN_EXT then
      NumberAt(4, i, d).Done? && NumberAt(4, i, d).value < 4
    else if tag == TAG_FUN_EXT then
      FunHeader(i, d).Done? && ShortSequence(FunHeader(i, d).next, FunHeader(i, d).value, d)
    else
      && IsCompoundTag(tag) && NumberAt(CountWidth(tag), i, d).Done?
      && var count := NumberAt(CountWidth(tag), i, d);
         if tag == TAG_LIST_EXT then
           && DecodeSequence(count.next, count.value, d).Done?
           && Short(DecodeSequence(count.next, count.value, d).next, d)
         else ShortSequence(count.next, if tag == TAG_MAP_EXT then 2 * count.value else count.value, d)
  }

  /** The last of the terms is short. */
  ghost predicate ShortSequence(i: nat, length: nat, d: bytes)
    decreases Remaining(i, d), 1, length
  {
    && length > 0 && Decode(i, d).Done?
    && if length == 1 then Short(i, d) else ShortSequence(Decode(i, d).next, length - 1, d)
  }

  /**
   * What a short parse leaves behind starts with one of two bytes, and neither is a tag. A settled
   * cursor has no such leftover after it.
   */
  ghost predicate Settled(i: nat, d: bytes) {
    i < |d| ==> d[i] != 0 && d[i] != 3
  }

  lemma ShortFunUnsettled(i: nat, d: bytes)
    requires NumberAt(4, i, d).Done? && NumberAt(4, i, d).value < 4
    ensures !Settled(i + NumberAt(4, i, d).value, d)
  {
    var s := Slice(i, 4, d);
    BigEndianSmall(s);
    assert forall x :: 0 <= x < 4 ==> s[x] == d[i + x];
  }

  lemma BigEndianSmall(s: bytes)
    requires |s| == 4 && Bignum.BigEndianValue(s) < 4
    ensures s[0] == 0 && s[1] == 0 && s[2] == 0 && s[3] == Bignum.BigEndianValue(s)
  {
    Bignum.BigEndian32(s);
  }

  lemma NewFunAgrees(n: nat, i: nat, d: bytes, e: bytes)
    requires Agree(n, d, e)
    requires Within(n, DecodePayload(TAG_NEW_FUN_EXT, i, d))
    requires !ShortTagged(TAG_NEW_FUN_EXT, i, d)
    ensures DecodePayload(TAG_NEW_FUN_EXT, i, e) == DecodePayload(TAG_NEW_FUN_EXT, i, d)
  {
    hide NumberAt, Slice;
    NumberAgrees(n, 4, i, d, e);
    SliceAgrees(n, i, NumberAt(4, i, d).value, d, e);
  }

  lemma FunHeaderAgrees(n: nat, i: nat, d: bytes, e: bytes)
    requires Agree(n, d, e) && Within(n, FunHeader(i, d))
    ensures FunHeader(i, e) == FunHeader(i, d)
  {
    hide NumberAt, DecodePid, DecodeAtom, DecodeInteger;
    NumberAgrees(n, 4, i, d, e);
    PidAgrees(n, i + 4, d, e);
    var j := DecodePid(i + 4, d).next;
    AtomAgrees(n, j, d, e);
    var k := DecodeAtom(j, d).next;
    IntegerAgrees(n, k, d, e);
    IntegerAgrees(n, DecodeInteger(k, d).next, d, e);
  }

  lemma LeftoverIsNoTag(tag: byte, i: nat, d: bytes)
    requires tag == 0 || tag == 3
    ensures DecodeTagged(tag, i, d) == Fail(InvalidTag)
  {
    assert DecodePayload(tag, i, d) == DecodeCompound(tag, i, d);
  }

  /** Decoding starts at a tag, and 0 and 3 are not tags. */
  lemma DecodedIsSettled(i: nat, d: bytes)
    requires Decode(i, d).Done?
    ensures Settled(i, d)
  {
    if d[i] == 0 || d[i] == 3 {
      LeftoverIsNoTag(d[i], i + 1, d);
    }
  }

  // A short parse is unsettled

  lemma {:induction false} ShortIsUnsettled(i: nat, d: bytes)
    requires Decode(i, d).Done? && Short(i, d)
    ensures !Settled(Decode(i, d).next, d)
    decreases Remaining(i, d), 0
  {
    hide DecodeTagged, Settled, ShortTagged;
    ShortTaggedIsUnsettled(d[i], i + 1, d);
  }

  lemma {:induction false} ShortTaggedIsUnsettled(tag: byte, i: nat, d: bytes)
    requires DecodeTagged(tag, i, d).Done? && ShortTagged(tag, i, d)
    ensures !Settled(DecodeTagged(tag, i, d).next, d)
    decreases Remaining(i, d), 5
  {
    hide NumberAt, FunHeader, Slice, Settled, Decode, DecodeSequence, Short, ShortSequence;
    assert DecodeTagged(tag, i, d) == DecodePayload(tag, i, d);
    if tag == TAG_NEW_FUN_EXT {
      ShortFunUnsettled(i, d);
    } else {
      assert DecodePayload(tag, i, d) == DecodeCompound(tag, i, d);
      if tag == TAG_FUN_EXT {
        var h := FunHeader(i, d);
        assert DecodeCompound(tag, i, d) == DecodeFree(i, h.next, h.value, d);
        ShortSequenceIsUnsettled(h.next, h.value, d);
      } else {
        var count := NumberAt(CountWidth(tag), i, d);
        if tag == TAG_LIST_EXT {
          ShortIsUnsettled(DecodeSequence(count.next, count.value, d).next, d);
        } else {
          ShortSequenceIsUnsettled(count.next, if tag == TAG_MAP_EXT then 2 * count.value else count.value, d);
        }
      }
    }
  }

  lemma {:induction false} ShortSequenceIsUnsettled(i: nat, length: nat, d: bytes)
    requires DecodeSequence(i, length, d).Done? && ShortSequence(i, length, d)
    ensures !Settled(DecodeSequence(i, length, d).next, d)
    decreases Remaining(i, d), 1, length
  {
    hide Decode, Short, Settled;
    if length == 1 {
      ShortIsUnsettled(i, d);
      assert DecodeSequence(Decode(i, d).next, 0, d) == Done(Decode(i, d).next, []);
    } else {
      ShortSequenceIsUnsettled(Decode(i, d).next, length - 1, d);
    }
  }

  /** A term that another one follows, or nothing, is not short. */
  lemma FollowedIsNotShort(i: nat, d: bytes)
    requires Decode(i, d).Done?
    requires Decode(i, d).next >= |d| || Decode(Decode(i, d).next, d).Done?
    ensures !Short(i, d)
  {
    hide Decode, Short;
    var j := Decode(i, d).next;
    if Short(i, d) {
      ShortIsUnsettled(i, d);
      if Decode(j, d).Done? {
        DecodedIsSettled(j, d);
      }
      assert false;
    }
  }

  lemma FollowedSequence(i: nat, length: nat, d: bytes)
    requires DecodeSequence(i, length, d).Done?
    requires DecodeSequence(i, length, d).next >= |d| || Decode(DecodeSequence(i, length, d).next, d).Done?
    ensures !ShortSequence(i, length, d)
  {
    hide Decode, DecodeSequence, ShortSequence;
    var j := DecodeSequence(i, length, d).next;
    if ShortSequence(i, length, d) {
      ShortSequenceIsUnsettled(i, length, d);
      if Decode(j, d).Done? {
        DecodedIsSettled(j, d);
      }
      assert false;
    }
  }

  // Locality

  /** The decoder looks at nothing but the bytes it consumes, if the parse is not short. */
  lemma {:induction false} DecodeAgrees(n: nat, i: nat, d: bytes, e: bytes)
    requires Agree(n, d, e) && Within(n, Decode(i, d)) && !Short(i, d)
    ensures Decode(i, e) == Decode(i, d)
    decreases Remaining(i, d), 0
  {
    hide DecodeTagged, ShortTagged;
    TaggedAgrees(n, d[i], i + 1, d, e);
  }

  lemma {:induction false} TaggedAgrees(n: nat, tag: byte, i: nat, d: bytes, e: bytes)
    requires Agree(n, d, e) && Within(n, DecodeTagged(tag, i, d)) && !ShortTagged(tag, i, d)
    ensures DecodeTagged(tag, i, e) == DecodeTagged(tag, i, d)
    decreases Remaining(i, d), 5
  {
    hide DecodeAtomBody, DecodeIntegerBody, DecodeNodeTerm, DecodePayload, ShortTagged;
    if IsAtomTag(tag) {
      AtomBodyAgrees(n, tag, i, d, e);
    } else if IsIntegerTag(tag) {
      IntegerBodyAgrees(n, tag, i, d, e);
    } else if IsNodeTag(tag) {
      NodeTermAgrees(n, tag, i, d, e);
    } else {
      PayloadAgrees(n, tag, i, d, e);
    }
  }

  lemma {:induction false} PayloadAgrees(n: nat, tag: byte, i: nat, d: bytes, e: bytes)
    requires Agree(n, d, e) && Within(n, DecodePayload(tag, i, d)) && !ShortTagged(tag, i, d)
    ensures DecodePayload(tag, i, e) == DecodePayload(tag, i, d)
    decreases Remaining(i, d), 4
  {
    hide Slice, NumberAt, FieldAt, DecodeExport, DecodeCompound, ShortTagged;
    if tag == TAG_STRING_EXT {
      FieldAgrees(n, 2, i, d, e);
    } else if tag == TAG_BINARY_EXT {
      FieldAgrees(n, 4, i, d, e);
    } else if tag == TAG_BIT_BINARY_EXT {
      NumberAgrees(n, 4, i, d, e);
      SliceAgrees(n, i + 5, NumberAt(4, i, d).value, d, e);
    } else if tag == TAG_NEW_FLOAT_EXT {
      SliceAgrees(n, i, 8, d, e);
    } else if tag == TAG_NEW_FUN_EXT {
      NewFunAgrees(n, i, d, e);
    } else if tag == TAG_EXPORT_EXT {
      ExportAgrees(n, i, d, e);
    } else if tag != TAG_NIL_EXT {
      CompoundAgrees(n, tag, i, d, e);
    }
  }

  lemma {:induction false} CompoundAgrees(n: nat, tag: byte, i: nat, d: bytes, e: bytes)
    requires Agree(n, d, e) && Within(n, DecodeCompound(tag, i, d)) && !ShortTagged(tag, i, d)
    requires tag != TAG_NEW_FUN_EXT
    ensures DecodeCompound(tag, i, e) == DecodeCompound(tag, i, d)
    decreases Remaining(i, d), 3
  {
    hide FunHeader, NumberAt, Decode, DecodeSequence, Short, ShortSequence;
    if tag == TAG_FUN_EXT {
      FunHeaderAgrees(n, i, d, e);
      var h := FunHeader(i, d);
      FreeAgrees(n, i, h.next, h.value, d, e);
    } else {
      NumberAgrees(n, CountWidth(tag), i, d, e);
      var count := NumberAt(CountWidth(tag), i, d);
      var length := if tag == TAG_MAP_EXT then 2 * count.value else count.value;
      if tag == TAG_LIST_EXT {
        var j := DecodeSequence(count.next, length, d).next;
        FollowedSequence(count.next, length, d);
        SequenceAgrees(n, count.next, length, d, e);
        DecodeAgrees(n, j, d, e);
      } else {
        SequenceAgrees(n, count.next, length, d, e);
      }
    }
  }

  lemma {:induction false} FreeAgrees(n: nat, start: nat, i: nat, numFree: nat, d: bytes, e: bytes)
    requires Agree(n, d, e) && start <= i
    requires Within(n, DecodeFree(start, i, numFree, d)) && !ShortSequence(i, numFree, d)
    ensures DecodeFree(start, i, numFree, e) == DecodeFree(start, i, numFree, d)
    decreases Remaining(i, d), 2
  {
    hide Slice, DecodeSequence, ShortSequence;
    SequenceAgrees(n, i, numFree, d, e);
    SliceAgrees(n, start, DecodeSequence(i, numFree, d).next - start, d, e);
  }

  lemma {:induction false} SequenceAgrees(n: nat, i: nat, length: nat, d: bytes, e: bytes)
    requires Agree(n, d, e) && Within(n, DecodeSequence(i, length, d)) && !ShortSequence(i, length, d)
    ensures DecodeSequence(i, length, e) == DecodeSequence(i, length, d)
    decreases Remaining(i, d), 1, length
  {
    hide Decode, Short;
    if length > 0 {
      var j := Decode(i, d).next;
      if length > 1 {
        assert DecodeSequence(j, length - 1, d).Done?;
        FollowedIsNotShort(i, d);
        DecodeAgrees(n, i, d, e);
        SequenceAgrees(n, j, length - 1, d, e);
      } else {
        DecodeAgrees(n, i, d, e);
        assert DecodeSequence(j, 0, d) == Done(j, []) == DecodeSequence(j, 0, e);
      }
    }
  }

  // A short parse is not local

  /** Without the bytes behind it a short parse fails. */
  lemma {:induction false} ShortFails(i: nat, d: bytes, e: bytes)
    requires Decode(i, d).Done? && Short(i, d) && Agree(|e|, d, e) && |e| == Decode(i, d).next
    ensures Decode(i, e).Fail?
    decreases Remaining(i, d), 0
  {
    hide DecodeTagged, ShortTagged;
    ShortTaggedFails(d[i], i + 1, d, e);
  }

  lemma {:induction false} ShortTaggedFails(tag: byte, i: nat, d: bytes, e: bytes)
    requires DecodeTagged(tag, i, d).Done? && ShortTagged(tag, i, d)
    requires Agree(|e|, d, e) && |e| == DecodeTagged(tag, i, d).next
    ensures DecodeTagged(tag, i, e).Fail?
    decreases Remaining(i, d), 5
  {
    hide NumberAt, FunHeader, Slice, Decode, DecodeSequence, Short, ShortSequence, Agree;
    assert DecodeTagged(tag, i, d) == DecodePayload(tag, i, d) && DecodeTagged(tag, i, e) == DecodePayload(tag, i, e);
    if tag == TAG_NEW_FUN_EXT {
      NumberTooShort(i, e);
    } else {
      assert DecodePayload(tag, i, d) == DecodeCompound(tag, i, d);
      assert DecodePayload(tag, i, e) == DecodeCompound(tag, i, e);
      ShortCompoundFails(tag, i, d, e);
    }
  }

  lemma NumberTooShort(i: nat, e: bytes)
    requires |e| < i + 4
    ensures NumberAt(4, i, e).Fail?
  {
  }

  lemma {:induction false} ShortCompoundFails(tag: byte, i: nat, d: bytes, e: bytes)
    requires DecodeCompound(tag, i, d).Done? && ShortTagged(tag, i, d) && tag != TAG_NEW_FUN_EXT
    requires Agree(|e|, d, e) && |e| == DecodeCompound(tag, i, d).next
    ensures DecodeCompound(tag, i, e).Fail?
    decreases Remaining(i, d), 4
  {
    hide NumberAt, FunHeader, Slice, Decode, DecodeSequence, Short, ShortSequence, Agree;
    if tag == TAG_FUN_EXT {
      var h := FunHeader(i, d);
      assert DecodeCompound(tag, i, d) == DecodeFree(i, h.next, h.value, d);
      ShortSequenceFails(h.next, h.value, d, e);
      FunHeaderAgrees(|e|, i, d, e);
      assert DecodeCompound(tag, i, e) == DecodeFree(i, h.next, h.value, e);
    } else {
      var count := NumberAt(CountWidth(tag), i, d);
      var length := if tag == TAG_MAP_EXT then 2 * count.value else count.value;
      NumberAgrees(|e|, CountWidth(tag), i, d, e);
      if tag == TAG_LIST_EXT {
        FollowedSequence(count.next, length, d);
        SequenceAgrees(|e|, count.next, length, d, e);
        ShortFails(DecodeSequence(count.next, length, d).next, d, e);
      } else {
        ShortSequenceFails(count.next, length, d, e);
      }
    }
  }

  lemma {:induction false} ShortSequenceFails(i: nat, length: nat, d: bytes, e: bytes)
    requires DecodeSequence(i, length, d).Done? && ShortSequence(i, length, d)
    requires Agree(|e|, d, e) && |e| == DecodeSequence(i, length, d).next
    ensures DecodeSequence(i, length, e).Fail?
    decreases Remaining(i, d), 1, length
  {
    hide Decode, Short, Agree;
    var j := Decode(i, d).next;
    if length == 1 {
      assert DecodeSequence(j, 0, d) == Done(j, []);
      ShortFails(i, d, e);
    } else {
      assert DecodeSequence(j, length - 1, d).Done?;
      FollowedIsNotShort(i, d);
      DecodeAgrees(|e|, i, d, e);
      ShortSequenceFails(j, length - 1, d, e);
    }
  }

  /**
   * A parse that ends inside the input depends on the bytes it consumed alone exactly when it does
   * not end in a NEW_FUN_EXT whose declared length is below four.
   */
  lemma LocalExactly(i: nat, d: bytes)
    requires Within(|d|, Decode(i, d))
    ensures (forall e :: Agree(Decode(i, d).next, d, e) ==> Decode(i, e) == Decode(i, d)) <==> !Short(i, d)
  {
    hide Decode, Short;
    var n := Decode(i, d).next;
    if Short(i, d) {
      assert Agree(n, d, d[..n]);
      ShortFails(i, d, d[..n]);
    } else {
      forall e | Agree(n, d, e)
        ensures Decode(i, e) == Decode(i, d)
      {
        DecodeAgrees(n, i, d, e);
      }
    }
  }

  /** One consumed byte, and two different terms: the length is read from the bytes behind it. */
  lemma ShortExample()
    ensures var d: bytes := [TAG_NEW_FUN_EXT, 0, 0, 0, 0];
            var e: bytes := [TAG_NEW_FUN_EXT, 0, 0, 0, 9];
            && Short(0, d) && Decode(0, d).Done? && Decode(0, d).next == 1 && Agree(1, d, e)
            && Decode(0, e).Done? && Decode(0, e) != Decode(0, d)
  {
    var d: bytes := [TAG_NEW_FUN_EXT, 0, 0, 0, 0];
    var e: bytes := [TAG_NEW_FUN_EXT, 0, 0, 0, 9];
    Bignum.BigEndian32(d[1..5]);
    Bignum.BigEndian32(e[1..5]);
    assert Slice(1, 4, d) == d[1..5] && Slice(1, 4, e) == e[1..5];
    assert Decode(0, d) == DecodeTagged(TAG_NEW_FUN_EXT, 1, d) == DecodePayload(TAG_NEW_FUN_EXT, 1, d);
    assert Decode(0, e) == DecodeTagged(TAG_NEW_FUN_EXT, 1, e) == DecodePayload(TAG_NEW_FUN_EXT, 1, e);
  }

  /**
   * Locality: a parse that ends inside the input and is not short depends on the bytes it consumed
   * and on nothing else. The same bytes anywhere in e give the same value.
   */
  lemma DecodeMoves(i: nat, d: bytes, k: nat, e: bytes)
    requires Within(|d|, Decode(i, d)) && !Short(i, d)
    requires var n := Decode(i, d).next - i; k + n <= |e| && e[k..k + n] == d[i..i + n]
    ensures Decode(k, e) == Done(k + (Decode(i, d).next - i), Decode(i, d).value)
  {
    hide Decode, Short;
    var j := Decode(i, d).next;
    var d', e' := d[..j], e[..k + (j - i)];
    DecodeAgrees(j, i, d, d');
    assert d'[i..] == d[i..j] && e'[k..] == e[k..k + (j - i)];
    Shifting.AlignedBySuffix(k - i, i, d', e');
    Shifting.DecodeShift(k - i, i, i, d', k, e');
    FollowedIsNotShort(k, e');
    DecodeAgrees(|e'|, k, e', e);
  }

  /** What decodes alone decodes to the same value between any two other byte strings. */
  lemma DecodeInContext(p: bytes, x: bytes, s: bytes)
    requires Decode(0, x).Done? && Decode(0, x).next == |x|
    ensures Decode(|p|, p + x + s) == Done(|p| + |x|, Decode(0, x).value)
  {
    hide Decode, Short;
    FollowedIsNotShort(0, x);
    assert (p + x + s)[|p|..|p| + |x|] == x[0..|x|];
    DecodeMoves(0, x, |p|, p + x + s);
  }

  lemma SequenceInContext(p: bytes, length: nat, x: bytes, s: bytes)
    requires DecodeSequence(0, length, x).Done? && DecodeSequence(0, length, x).next == |x|
    ensures DecodeSequence(|p|, length, p + x + s) == Done(|p| + |x|, DecodeSequence(0, length, x).value)
  {
    hide DecodeSequence, ShortSequence;
    FollowedSequence(0, length, x);
    SequenceAgrees(|x|, 0, length, x, x + s);
    assert (p + (x + s))[|p|..] == x + s;
    Shifting.AlignedBySuffix(|p|, 0, x + s, p + (x + s));
    Shifting.SequenceShift(|p|, 0, 0, length, x + s, |p|, p + (x + s));
    assert p + (x + s) == p + x + s;
  }

  lemma AtomInContext(p: bytes, x: bytes, s: bytes)
    requires DecodeAtom(0, x).Done? && DecodeAtom(0, x).next == |x|
    ensures DecodeAtom(|p|, p + x + s) == Done(|p| + |x|, DecodeAtom(0, x).value)
  {
    hide DecodeAtom;
    AtomAgrees(|x|, 0, x, x + s);
    assert (p + (x + s))[|p|..] == x + s;
    Shifting.AlignedBySuffix(|p|, 0, x + s, p + (x + s));
    Shifting.AtomShift(|p|, 0, 0, x + s, |p|, p + (x + s));
    assert p + (x + s) == p + x + s;
  }

  /**
   * The accepted inputs are prefix-free: a strict prefix and a strict extension of an accepted
   * input are both rejected, so no accepted term was read from a slice that was cut short.
   */
  lemma AcceptedArePrefixFree(d: bytes, e: bytes)
    requires BinaryToTerm(d).Ok? && BinaryToTerm(e).Ok?
    requires d <= e
    ensures d == e
  {
    hide Decode, Short;
    FollowedIsNotShort(1, d);
    DecodeAgrees(|d|, 1, d, e);
  }
}
