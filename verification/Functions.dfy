/** Funs are carried as raw bytes: their parts, laid out as the format says, decode to the same bytes. */
module Functions {
  import opened Bytes
  import opened Terms
  import opened Decoder
  import opened NormalForm
  import Bignum
  import Locality
  import Shifting

  // Parts alone

  lemma AtomAlone(b: bytes)
    requires AtomBytes(b)
    ensures DecodeAtom(0, b).Done? && DecodeAtom(0, b).next == |b|
  {
    if b[0] == TAG_ATOM_CACHE_REF {
    } else if b[0] == TAG_SMALL_ATOM_EXT || b[0] == TAG_SMALL_ATOM_UTF8_EXT {
      NarrowField(b);
    } else {
      WideField(b);
    }
  }

  lemma NarrowField(b: bytes)
    requires |b| >= 2 && |b| == 2 + b[1] as int
    ensures FieldAt(1, 1, b) == Done(|b|, b[2..])
  {
    OneByte(b, 1);
    assert b[2..|b|] == b[2..];
  }

  lemma OneByte(b: bytes, i: nat)
    requires i < |b|
    ensures NumberAt(1, i, b) == Done(i + 1, b[i])
  {
    var s := Slice(i, 1, b);
    assert s == [b[i]] && s[..0] == [];
    assert Bignum.BigEndianValue(s) == Bignum.BigEndianValue(s[..0]) * 256 + b[i];
  }

  lemma WideField(b: bytes)
    requires |b| >= 3 && |b| == 3 + Bignum.BigEndianValue(b[1..3])
    ensures FieldAt(2, 1, b) == Done(|b|, b[3..])
  {
    assert Slice(1, 2, b) == b[1..3] && b[3..|b|] == b[3..];
  }

  lemma IntegerAlone(b: bytes)
    requires IntegerBytes(b)
    ensures DecodeInteger(0, b).Done? && DecodeInteger(0, b).next == |b|
  {
    if b[0] == TAG_SMALL_INTEGER_EXT {
      OneByte(b, 1);
    } else {
      assert |Slice(1, 4, b)| == 4;
    }
  }

  lemma PidAlone(b: bytes)
    requires PidBytes(b)
    ensures DecodePid(0, b).Done? && DecodePid(0, b).next == |b|
  {
    hide AtomBytes, DecodeAtom;
    var node, fields := b[1..|b| - 9], b[|b| - 9..];
    AtomAlone(node);
    assert b == [b[0]] + node + fields;
    Locality.AtomInContext([b[0]], node, fields);
  }

  // Parts in context

  lemma IntegerInContext(p: bytes, x: bytes, s: bytes)
    requires IntegerBytes(x)
    ensures DecodeInteger(|p|, p + x + s).Done? && DecodeInteger(|p|, p + x + s).next == |p| + |x|
  {
    hide DecodeInteger, IntegerBytes;
    IntegerAlone(x);
    Locality.IntegerAgrees(|x|, 0, x, x + s);
    Aligns(p, x + s);
    Shifting.IntegerShift(|p|, 0, 0, x + s, |p|, p + (x + s));
    Associative(p, x, s);
  }

  lemma PidInContext(p: bytes, x: bytes, s: bytes)
    requires PidBytes(x)
    ensures DecodePid(|p|, p + x + s).Done? && DecodePid(|p|, p + x + s).next == |p| + |x|
  {
    hide DecodePid, PidBytes;
    PidAlone(x);
    Locality.PidAgrees(|x|, 0, x, x + s);
    Aligns(p, x + s);
    Shifting.PidShift(|p|, 0, 0, x + s, |p|, p + (x + s));
    Associative(p, x, s);
  }

  lemma Aligns(p: bytes, x: bytes)
    ensures Shifting.Aligned(|p|, 0, x, p + x)
  {
    assert (p + x)[|p|..] == x && x[0..] == x;
    Shifting.AlignedBySuffix(|p|, 0, x, p + x);
  }

  lemma AtomPart(p: bytes, x: bytes, s: bytes)
    requires AtomBytes(x)
    ensures DecodeAtom(|p|, p + x + s).Done? && DecodeAtom(|p|, p + x + s).next == |p| + |x|
  {
    hide DecodeAtom, AtomBytes;
    AtomAlone(x);
    Locality.AtomInContext(p, x, s);
  }

  // Funs

  lemma BodySlice(tag: byte, body: bytes)
    ensures Slice(1, |body|, [tag] + body) == body
  {
    if body != [] {
      assert ([tag] + body)[1..1 + |body|] == body;
    }
  }

  lemma ExportDecodes(body: bytes, m: bytes, f: bytes, arity: byte)
    requires IsExport(body, m, f, arity)
    ensures DecodeExport(1, [TAG_EXPORT_EXT] + body) == Done(1 + |body|, Function(TAG_EXPORT_EXT, body))
  {
    hide AtomBytes, DecodeAtom, Slice;
    var t := [TAG_EXPORT_EXT];
    var end := [TAG_SMALL_INTEGER_EXT, arity];
    var b := t + body;
    assert b == t + m + (f + end) && b == t + m + f + end;
    AtomPart(t, m, f + end);
    AtomPart(t + m, f, end);
    BodySlice(TAG_EXPORT_EXT, body);
    var k := 1 + |m| + |f|;
    assert b[k] == TAG_SMALL_INTEGER_EXT && |b| == k + 2;
  }

  lemma NewFunDecodes(body: bytes)
    requires |body| >= 4 && Bignum.BigEndianValue(body[..4]) == |body|
    ensures var b := [TAG_NEW_FUN_EXT] + body;
            DecodePayload(TAG_NEW_FUN_EXT, 1, b) == Done(|b|, Function(TAG_NEW_FUN_EXT, body))
  {
    var b := [TAG_NEW_FUN_EXT] + body;
    assert Slice(1, 4, b) == b[1..5] == body[..4];
    BodySlice(TAG_NEW_FUN_EXT, body);
  }

  lemma FunHeaderDecodes(
    t: bytes, count: bytes, pid: bytes, m: bytes, index: bytes, uniq: bytes, free: bytes, b: bytes)
    requires |count| == 4 && PidBytes(pid) && AtomBytes(m) && IntegerBytes(index) && IntegerBytes(uniq)
    requires b == t + count + pid + m + index + uniq + free
    ensures FunHeader(|t|, b) == Done(|b| - |free|, Bignum.BigEndianValue(count))
  {
    hide AtomBytes, PidBytes, IntegerBytes, DecodeAtom, DecodePid, DecodeInteger, NumberAt, FunHeader;
    Regrouped(t, count, pid, m, index, uniq, free);
    CountHere(t, count, pid + m + index + uniq + free);
    PidInContext(t + count, pid, m + index + uniq + free);
    AtomPart(t + count + pid, m, index + uniq + free);
    IntegerInContext(t + count + pid + m, index, uniq + free);
    IntegerInContext(t + count + pid + m + index, uniq, free);
    HeaderOf(|t|, |t + count|, |t + count + pid|, |t + count + pid + m|, |t + count + pid + m + index|, b,
             Bignum.BigEndianValue(count));
  }

  /** The header is read field by field. */
  lemma HeaderOf(i: nat, i1: nat, i2: nat, i3: nat, i4: nat, b: bytes, n: nat)
    requires NumberAt(4, i, b) == Done(i1, n)
    requires DecodePid(i1, b).Done? && DecodePid(i1, b).next == i2
    requires DecodeAtom(i2, b).Done? && DecodeAtom(i2, b).next == i3
    requires DecodeInteger(i3, b).Done? && DecodeInteger(i3, b).next == i4
    requires DecodeInteger(i4, b).Done?
    ensures FunHeader(i, b) == Done(DecodeInteger(i4, b).next, n)
  {
    hide NumberAt, DecodePid, DecodeAtom, DecodeInteger;
  }

  lemma CountHere(t: bytes, count: bytes, rest: bytes)
    requires |count| == 4
    ensures NumberAt(4, |t|, t + count + rest) == Done(|t| + 4, Bignum.BigEndianValue(count))
  {
    assert (t + count + rest)[|t|..|t| + 4] == count;
  }

  lemma Regrouped(t: bytes, count: bytes, pid: bytes, m: bytes, index: bytes, uniq: bytes, free: bytes)
    ensures var b := t + count + pid + m + index + uniq + free;
            && b == t + count + (pid + m + index + uniq + free)
            && b == (t + count) + pid + (m + index + uniq + free)
            && b == (t + count + pid) + m + (index + uniq + free)
            && b == (t + count + pid + m) + index + (uniq + free)
  {
    Associative(t + count + pid + m + index, uniq, free);
    Associative(t + count + pid + m, index, uniq + free);
    Associative(index, uniq, free);
    Associative(t + count + pid, m, index + uniq + free);
    assert m + (index + uniq + free) == m + index + uniq + free;
    Associative(t + count, pid, m + index + uniq + free);
    assert pid + (m + index + uniq + free) == pid + m + index + uniq + free;
  }

  lemma FunDecodes(body: bytes, count: bytes, pid: bytes, m: bytes, index: bytes, uniq: bytes, free: bytes)
    requires IsFun(body, count, pid, m, index, uniq, free)
    ensures var b := [TAG_FUN_EXT] + body;
            DecodeCompound(TAG_FUN_EXT, 1, b) == Done(|b|, Function(TAG_FUN_EXT, body))
  {
    hide AtomBytes, PidBytes, IntegerBytes, FunHeader, Slice, DecodeSequence;
    var t := [TAG_FUN_EXT];
    var b := t + body;
    var front := count + pid + m + index + uniq;
    assert b == t + count + pid + m + index + uniq + free;
    FunHeaderDecodes(t, count, pid, m, index, uniq, free, b);
    var numFree := Bignum.BigEndianValue(count);
    assert b == (t + front) + free + [];
    Locality.SequenceInContext(t + front, numFree, free, []);
    BodySlice(TAG_FUN_EXT, body);
    assert DecodeCompound(TAG_FUN_EXT, 1, b) == DecodeFree(1, |b| - |free|, numFree, b);
  }

  /** A fun whose parts are in place decodes to its tag and its bytes, and nothing more is consumed. */
  lemma FunctionRoundTrip(tag: byte, body: bytes)
    requires WellFormedFunction(tag, body)
    ensures Decode(0, [tag] + body) == Done(1 + |body|, Function(tag, body))
  {
    hide IsExport, IsFun, DecodeExport, DecodeCompound, Slice, NumberAt;
    var b := [tag] + body;
    assert b[0] == tag;
    assert Decode(0, b) == DecodeTagged(tag, 1, b) == DecodePayload(tag, 1, b);
    if tag == TAG_EXPORT_EXT {
      var m, f, arity :| IsExport(body, m, f, arity);
      ExportDecodes(body, m, f, arity);
    } else if tag == TAG_NEW_FUN_EXT {
      NewFunDecodes(body);
    } else {
      var count, pid, m, index, uniq, free :| IsFun(body, count, pid, m, index, uniq, free);
      FunDecodes(body, count, pid, m, index, uniq, free);
    }
  }

  // What was decoded has its parts in place

  lemma AtomFound(i: nat, d: bytes)
    requires DecodeAtom(i, d).Done? && DecodeAtom(i, d).next <= |d|
    ensures AtomBytes(d[i..DecodeAtom(i, d).next])
  {
    var j := DecodeAtom(i, d).next;
    var b := d[i..j];
    assert b[0] == d[i];
    if d[i] == TAG_ATOM_CACHE_REF {
    } else if d[i] == TAG_SMALL_ATOM_EXT || d[i] == TAG_SMALL_ATOM_UTF8_EXT {
      OneByte(d, i + 1);
      assert b[1] == d[i + 1] && b[2..] == d[i + 2..j];
    } else {
      assert Slice(i + 1, 2, d) == d[i + 1..i + 3] == b[1..3];
      assert b[3..] == d[i + 3..j];
    }
  }

  lemma IntegerFound(i: nat, d: bytes)
    requires DecodeInteger(i, d).Done? && DecodeInteger(i, d).next <= |d|
    ensures IntegerBytes(d[i..DecodeInteger(i, d).next])
  {
  }

  lemma PidFound(i: nat, d: bytes)
    requires DecodePid(i, d).Done? && DecodePid(i, d).next <= |d|
    ensures PidBytes(d[i..DecodePid(i, d).next])
  {
    hide AtomBytes, DecodeAtom;
    AtomFound(i + 1, d);
    var j, k := DecodePid(i, d).next, DecodeAtom(i + 1, d).next;
    assert d[i..j][1..j - i - 9] == d[i + 1..k];
  }

  lemma ExportFound(i: nat, d: bytes)
    requires DecodeExport(i, d).Done? && DecodeExport(i, d).next <= |d|
    ensures WellFormedFunction(TAG_EXPORT_EXT, DecodeExport(i, d).value.body)
  {
    hide AtomBytes, DecodeAtom;
    var j := DecodeAtom(i, d).next;
    var k := DecodeAtom(j, d).next;
    AtomFound(i, d);
    AtomFound(j, d);
    var body := d[i..k + 2];
    assert body == d[i..j] + d[j..k] + [d[k], d[k + 1]];
    assert IsExport(body, d[i..j], d[j..k], d[k + 1]);
  }

  lemma NewFunFound(i: nat, d: bytes)
    requires DecodePayload(TAG_NEW_FUN_EXT, i, d).Done? && DecodePayload(TAG_NEW_FUN_EXT, i, d).next <= |d|
    requires !Locality.ShortTagged(TAG_NEW_FUN_EXT, i, d)
    ensures WellFormedFunction(TAG_NEW_FUN_EXT, DecodePayload(TAG_NEW_FUN_EXT, i, d).value.body)
  {
    var length := NumberAt(4, i, d).value;
    assert Slice(i, 4, d) == d[i..i + 4] == d[i..i + length][..4];
  }

  lemma FunHeaderFound(i: nat, d: bytes)
    returns (count: bytes, pid: bytes, m: bytes, index: bytes, uniq: bytes)
    requires FunHeader(i, d).Done? && FunHeader(i, d).next <= |d|
    ensures |count| == 4 && PidBytes(pid) && AtomBytes(m) && IntegerBytes(index) && IntegerBytes(uniq)
    ensures Bignum.BigEndianValue(count) == FunHeader(i, d).value
    ensures i <= FunHeader(i, d).next && d[i..FunHeader(i, d).next] == count + pid + m + index + uniq
  {
    hide AtomBytes, PidBytes, IntegerBytes, DecodeAtom, DecodePid, DecodeInteger;
    var i1 := i + 4;
    var i2 := DecodePid(i1, d).next;
    var i3 := DecodeAtom(i2, d).next;
    var i4 := DecodeInteger(i3, d).next;
    var i5 := DecodeInteger(i4, d).next;
    PidFound(i1, d);
    AtomFound(i2, d);
    IntegerFound(i3, d);
    IntegerFound(i4, d);
    count, pid, m, index, uniq := d[i..i1], d[i1..i2], d[i2..i3], d[i3..i4], d[i4..i5];
    FiveParts(d, i, i1, i2, i3, i4, i5);
    assert Slice(i, 4, d) == count;
  }

  lemma FiveParts(d: bytes, i: nat, i1: nat, i2: nat, i3: nat, i4: nat, i5: nat)
    requires i <= i1 <= i2 <= i3 <= i4 <= i5 <= |d|
    ensures d[i..i5] == d[i..i1] + d[i1..i2] + d[i2..i3] + d[i3..i4] + d[i4..i5]
  {
    assert d[i..i2] == d[i..i1] + d[i1..i2];
    assert d[i..i3] == d[i..i2] + d[i2..i3];
    assert d[i..i4] == d[i..i3] + d[i3..i4];
    assert d[i..i5] == d[i..i4] + d[i4..i5];
  }

  /** Terms that were read one after the other, taken out of their input, are still read so. */
  lemma SequenceFound(i: nat, length: nat, d: bytes)
    requires DecodeSequence(i, length, d).Done? && DecodeSequence(i, length, d).next <= |d|
    requires !Locality.ShortSequence(i, length, d) && i <= |d|
    ensures FreeBytes(length, d[i..DecodeSequence(i, length, d).next])
  {
    hide DecodeSequence, Locality.ShortSequence;
    var j := DecodeSequence(i, length, d).next;
    var d', x := d[..j], d[i..j];
    Locality.SequenceAgrees(j, i, length, d, d');
    assert x[0..] == x == d'[i..];
    var gap: int := 0 - i;
    Shifting.AlignedBySuffix(gap, i, d', x);
    Shifting.SequenceShift(gap, i, i, length, d', 0, x);
  }

  lemma FunFound(i: nat, d: bytes)
    requires DecodeCompound(TAG_FUN_EXT, i, d).Done? && DecodeCompound(TAG_FUN_EXT, i, d).next <= |d|
    requires !Locality.ShortTagged(TAG_FUN_EXT, i, d)
    ensures WellFormedFunction(TAG_FUN_EXT, DecodeCompound(TAG_FUN_EXT, i, d).value.body)
  {
    hide AtomBytes, PidBytes, IntegerBytes, FunHeader, DecodeSequence, Locality.ShortSequence, FreeBytes;
    var h := FunHeader(i, d);
    assert DecodeCompound(TAG_FUN_EXT, i, d) == DecodeFree(i, h.next, h.value, d);
    var j := DecodeSequence(h.next, h.value, d).next;
    var count, pid, m, index, uniq := FunHeaderFound(i, d);
    SequenceFound(h.next, h.value, d);
    var free := d[h.next..j];
    assert d[i..j] == d[i..h.next] + free;
    assert IsFun(d[i..j], count, pid, m, index, uniq, free);
  }

  /** A fun that was read inside the input, and not short, has its parts in place. */
  lemma FunctionFound(i: nat, d: bytes)
    requires Decode(i, d).Done? && Decode(i, d).next <= |d| && Decode(i, d).value.Function?
    requires !Locality.Short(i, d)
    ensures WellFormedFunction(Decode(i, d).value.tag, Decode(i, d).value.body)
  {
    hide DecodeExport, DecodeCompound, Slice, NumberAt, FieldAt, WellFormedFunction;
    hide DecodeAtomBody, DecodeIntegerBody, DecodeNodeTerm;
    var tag := d[i];
    assert Decode(i, d) == DecodeTagged(tag, i + 1, d);
    FunctionTag(tag, i + 1, d);
    assert DecodeTagged(tag, i + 1, d) == DecodePayload(tag, i + 1, d);
    if tag == TAG_EXPORT_EXT {
      ExportFound(i + 1, d);
    } else if tag == TAG_NEW_FUN_EXT {
      NewFunFound(i + 1, d);
    } else {
      assert DecodePayload(tag, i + 1, d) == DecodeCompound(tag, i + 1, d);
      FunFound(i + 1, d);
    }
  }

  lemma FunctionTag(tag: byte, i: nat, d: bytes)
    requires DecodeTagged(tag, i, d).Done? && DecodeTagged(tag, i, d).value.Function?
    ensures tag == TAG_EXPORT_EXT || tag == TAG_NEW_FUN_EXT || tag == TAG_FUN_EXT
    ensures DecodeTagged(tag, i, d).value.tag == tag
  {
    hide DecodeAtomBody, DecodeIntegerBody, FieldAt, NumberAt, Slice;
  }
}
