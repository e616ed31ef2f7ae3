/** Which accepted terms have bytes again, and what these are read as. */
module Reencoding {
  import opened Bytes
  import opened Terms
  import opened Encoder
  import opened Decoder
  import opened NormalForm
  import opened Encodability
  import Acceptance
  import Bignum

  /**
   * No improper list has 2^32 elements. Its frame counts one less, so it is read, but the encoder
   * refuses to write it.
   */
  ghost predicate NoFullLists(t: Term)
    decreases t, 0
  {
    match t
    case PlainList(ts) => AllFree(ts)
    case Tuple(ts) => AllFree(ts)
    case Map(ts) => AllFree(ts)
    case ErlangList(ts, _) => |ts| <= MAX_UINT32 && AllFree(ts)
    case _ => true
  }

  ghost predicate AllFree(ts: seq<Term>)
    decreases ts, 0
  {
    forall k :: 0 <= k < |ts| ==> NoFullLists(ts[k])
  }

  /** What a read term can lack is only the size of an improper list. */
  ghost predicate Bounded(t: Term) {
    Fits(t, Uint16Overflow) && Fits(t, UnpairedMap) && (NoFullLists(t) ==> Fits(t, Uint32Overflow))
  }

  ghost predicate AllBounded(ts: seq<Term>) {
    forall k :: 0 <= k < |ts| ==> Bounded(ts[k])
  }

  lemma {:induction false} FitsHasNoFullLists(t: Term)
    requires Fits(t, Uint32Overflow)
    ensures NoFullLists(t)
    decreases t, 0
  {
    match t
    case PlainList(ts) => AllFitFree(ts);
    case Tuple(ts) => AllFitFree(ts);
    case Map(ts) => AllFitFree(ts);
    case ErlangList(ts, _) => AllFitFree(ts);
    case _ =>
  }

  lemma {:induction false} AllFitFree(ts: seq<Term>)
    requires AllFit(ts, Uint32Overflow)
    ensures AllFree(ts)
    decreases ts, 0
  {
    forall k | 0 <= k < |ts|
      ensures NoFullLists(ts[k])
    {
      FitsHasNoFullLists(ts[k]);
    }
  }

  lemma {:induction false} SmallHasNoFullLists(t: Term)
    requires Nodes(t) <= MAX_UINT32
    ensures NoFullLists(t)
    decreases t, 0
  {
    match t
    case PlainList(ts) => AllSmallFree(ts);
    case Tuple(ts) => AllSmallFree(ts);
    case Map(ts) => AllSmallFree(ts);
    case ErlangList(ts, _) => AllSmallFree(ts);
    case _ =>
  }

  lemma {:induction false} AllSmallFree(ts: seq<Term>)
    requires NodesAll(ts) <= MAX_UINT32
    ensures AllFree(ts)
    decreases ts, 0
  {
    hide Nodes, NoFullLists;
    if ts != [] {
      SmallHasNoFullLists(ts[0]);
      AllSmallFree(ts[1..]);
      assert forall k :: 0 < k < |ts| ==> ts[k] == ts[1..][k - 1];
    }
  }

  // What is read is bounded

  lemma NumberBound(width: nat, i: nat, d: bytes)
    requires NumberAt(width, i, d).Done? && width in {1, 2, 4}
    ensures NumberAt(width, i, d).value
         <= if width == 1 then MAX_UINT8 else if width == 2 then MAX_UINT16 else MAX_UINT32
  {
    var s := Slice(i, width, d);
    if width == 1 {
      assert Bignum.BigEndianValue(s[..0]) == 0;
    } else if width == 2 {
      Bignum.BigEndian16(s);
    } else if width == 4 {
      Bignum.BigEndian32(s);
    }
  }

  lemma AtomBodyBound(tag: byte, i: nat, d: bytes)
    requires IsAtomTag(tag) && DecodeAtomBody(tag, i, d).Done?
    ensures NameFits(DecodeAtomBody(tag, i, d).value)
  {
    hide NumberAt, Slice, ValidUtf8;
    if tag != TAG_ATOM_CACHE_REF {
      NumberBound(if tag == TAG_ATOM_EXT || tag == TAG_ATOM_UTF8_EXT then 2 else 1, i, d);
    }
  }

  lemma AtomBound(i: nat, d: bytes)
    requires DecodeAtom(i, d).Done?
    ensures NameFits(DecodeAtom(i, d).value)
  {
    hide DecodeAtomBody;
    AtomBodyBound(d[i], i + 1, d);
  }

  lemma IntegerBound(tag: byte, i: nat, d: bytes)
    requires IsIntegerTag(tag) && DecodeIntegerBody(tag, i, d).Done?
    ensures Bounded(Integer(DecodeIntegerBody(tag, i, d).value))
  {
    hide NumberAt, Slice;
    var n := DecodeIntegerBody(tag, i, d).value;
    if tag == TAG_SMALL_BIG_EXT || tag == TAG_LARGE_BIG_EXT {
      var width := if tag == TAG_SMALL_BIG_EXT then 1 else 4;
      NumberBound(width, i, d);
      var j := NumberAt(width, i, d);
      assert Bignum.Value(Slice(j.next + 1, j.value, d)) == if n < 0 then -n else n;
    } else {
      NumberBound(if tag == TAG_SMALL_INTEGER_EXT then 1 else 4, i, d);
      SmallRepresentable(if n < 0 then -n else n);
    }
  }

  lemma NodeBound(tag: byte, i: nat, d: bytes)
    requires IsNodeTag(tag) && DecodeNodeTerm(tag, i, d).Done?
    ensures Bounded(DecodeNodeTerm(tag, i, d).value)
  {
    hide NumberAt, DecodeAtom, Slice;
    if tag == TAG_NEW_REFERENCE_EXT {
      NumberBound(2, i, d);
      AtomBound(i + 2, d);
    } else {
      AtomBound(i, d);
    }
  }

  lemma {:induction false} DecodedBounded(i: nat, d: bytes)
    requires Decode(i, d).Done?
    ensures Bounded(Decode(i, d).value)
    decreases Remaining(i, d), 0
  {
    hide DecodeTagged, Bounded;
    TaggedBounded(d[i], i + 1, d);
  }

  lemma {:induction false} TaggedBounded(tag: byte, i: nat, d: bytes)
    requires DecodeTagged(tag, i, d).Done?
    ensures Bounded(DecodeTagged(tag, i, d).value)
    decreases Remaining(i, d), 5
  {
    hide DecodeAtomBody, DecodeIntegerBody, DecodeNodeTerm, DecodePayload, AtomOrBool;
    if IsAtomTag(tag) {
      AtomBodyBound(tag, i, d);
      AtomOrBoolBounded(DecodeAtomBody(tag, i, d).value);
    } else if IsIntegerTag(tag) {
      IntegerBound(tag, i, d);
    } else if IsNodeTag(tag) {
      NodeBound(tag, i, d);
    } else {
      PayloadBounded(tag, i, d);
    }
  }

  lemma AtomOrBoolBounded(a: Atom)
    requires NameFits(a)
    ensures Bounded(AtomTerm(a)) && (a.Latin? ==> Bounded(AtomOrBool(a.name)))
  {
  }

  lemma {:induction false} PayloadBounded(tag: byte, i: nat, d: bytes)
    requires DecodePayload(tag, i, d).Done?
    ensures Bounded(DecodePayload(tag, i, d).value)
    decreases Remaining(i, d), 4
  {
    hide NumberAt, Slice, DecodeCompound, DecodeExport;
    if tag == TAG_STRING_EXT {
      NumberBound(2, i, d);
    } else if tag == TAG_BINARY_EXT || tag == TAG_BIT_BINARY_EXT {
      NumberBound(4, i, d);
    } else if tag == TAG_NIL_EXT || tag == TAG_NEW_FLOAT_EXT || tag == TAG_NEW_FUN_EXT {
    } else if tag == TAG_EXPORT_EXT {
      ExportBounded(i, d);
    } else {
      CompoundBounded(tag, i, d);
    }
  }

  lemma ExportBounded(i: nat, d: bytes)
    requires DecodeExport(i, d).Done?
    ensures Bounded(DecodeExport(i, d).value)
  {
    hide DecodeAtom, Slice;
  }

  lemma {:induction false} CompoundBounded(tag: byte, i: nat, d: bytes)
    requires DecodeCompound(tag, i, d).Done?
    ensures Bounded(DecodeCompound(tag, i, d).value)
    decreases Remaining(i, d), 3
  {
    hide NumberAt, Decode, DecodeSequence, Bounded, DecodeFree, FunHeader;
    if tag == TAG_FUN_EXT {
      FunctionBounded(DecodeCompound(tag, i, d).value);
    } else {
      var count := NumberAt(CountWidth(tag), i, d);
      NumberBound(CountWidth(tag), i, d);
      var length := if tag == TAG_MAP_EXT then 2 * count.value else count.value;
      var ts := DecodeSequence(count.next, length, d);
      SequenceBounded(count.next, length, d);
      if tag == TAG_LIST_EXT {
        DecodedBounded(ts.next, d);
        ListOfBounded(ts.value, Decode(ts.next, d).value);
      } else {
        CountedBounded(ts.value);
      }
    }
  }

  lemma FunctionBounded(t: Term)
    requires t.Function?
    ensures Bounded(t)
  {
  }

  lemma AllBoundedFit(ts: seq<Term>)
    requires AllBounded(ts)
    ensures AllFit(ts, Uint16Overflow) && AllFit(ts, UnpairedMap) && (AllFree(ts) ==> AllFit(ts, Uint32Overflow))
  {
    hide Fits, NoFullLists;
  }

  lemma CountedBounded(ts: seq<Term>)
    requires AllBounded(ts)
    ensures |ts| <= MAX_UINT32 ==> Bounded(Tuple(ts)) && Bounded(PlainList(ts))
    ensures |ts| % 2 == 0 && |ts| / 2 <= MAX_UINT32 ==> Bounded(Map(ts))
  {
    hide AllFit, AllFree, AllBounded;
    AllBoundedFit(ts);
  }

  lemma ListOfBounded(ts: seq<Term>, t: Term)
    requires AllBounded(ts) && Bounded(t) && |ts| <= MAX_UINT32
    ensures Bounded(ListOf(ts, t))
  {
    hide Fits, NoFullLists, AllFit, AllFree;
    CountedBounded(ts);
    assert AllBounded(ts + [t]);
    AllBoundedFit(ts + [t]);
    ImproperBounded(ts + [t]);
  }

  lemma ImproperBounded(ts: seq<Term>)
    requires AllFit(ts, Uint16Overflow) && AllFit(ts, UnpairedMap) && (AllFree(ts) ==> AllFit(ts, Uint32Overflow))
    ensures Bounded(ErlangList(ts, true))
  {
    hide AllFit, AllFree;
  }

  lemma {:induction false} SequenceBounded(i: nat, length: nat, d: bytes)
    requires DecodeSequence(i, length, d).Done?
    ensures AllBounded(DecodeSequence(i, length, d).value)
    decreases Remaining(i, d), 1, length
  {
    hide Decode, Bounded;
    if length > 0 {
      DecodedBounded(i, d);
      SequenceBounded(Decode(i, d).next, length - 1, d);
    }
  }

  /**
   * Re-encoding an accepted term: it has bytes exactly when no improper list in it has 2^32 elements,
   * which no input below 4 GB holds; and these are accepted and give its normal form exactly when no
   * reference in it has an empty id.
   */
  lemma AcceptedReencodes(d: bytes)
    requires BinaryToTerm(d).Ok?
    ensures var t := BinaryToTerm(d).value;
            && (TermToBinary(t).Ok? <==> NoFullLists(t))
            && (|d| <= MAX_UINT32 ==> TermToBinary(t).Ok?)
            && (TermToBinary(t).Ok? ==>
                  (BinaryToTerm(TermToBinary(t).value) == Ok(Norm(t)) <==> Acceptance.NoEmptyIds(t)))
  {
    hide Decode, TermToBinary, NoFullLists, Fits, Norm, Nodes, Acceptance.NoEmptyIds;
    var t := BinaryToTerm(d).value;
    DecodedBounded(1, d);
    EncodesExactly(t);
    if Fits(t, Uint32Overflow) {
      FitsHasNoFullLists(t);
    }
    if |d| <= MAX_UINT32 {
      Acceptance.NodesBound(1, d);
      SmallHasNoFullLists(t);
    }
    if TermToBinary(t).Ok? {
      Acceptance.ReencodedComesBack(d, TermToBinary(t).value);
    }
  }
}
