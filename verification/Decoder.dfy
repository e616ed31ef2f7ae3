/**
 * `binary_to_term` of src/api/python/erlang.py. Slices are not checked against the input: a slice
 * that reaches past the end is cut short while the cursor still moves by the declared length.
 */
module Decoder {
  import opened Bytes
  import opened Terms
  import Bignum

  datatype ParseError =
    | NullInput | InvalidVersion | UnparsedData | MissingData
    | InvalidTag | InvalidAtomTag | InvalidPidTag | InvalidIntegerTag | InvalidSmallIntegerTag
    | InvalidUtf8

  /** The pair (cursor, value) that every decoding function returns, or the exception it raises. */
  datatype Parse<+T> = Done(next: nat, value: T) | Fail(error: ParseError) {
    predicate IsFailure() {
      Fail?
    }

    function PropagateFailure<U>(): Parse<U>
      requires Fail?
    {
      Fail(error)
    }

    function Extract(): (nat, T)
      requires Done?
    {
      (next, value)
    }
  }

  /** `data[i:i + n]`, cut short at the end of the data. */
  function Slice(i: nat, n: nat, data: bytes): (s: bytes)
    ensures |s| <= n
  {
    if i >= |data| then [] else if i + n <= |data| then data[i..i + n] else data[i..]
  }

  function ByteAt(i: nat, data: bytes): Parse<byte> {
    if i < |data| then Done(i + 1, data[i]) else Fail(MissingData)
  }

  /** A big-endian number of the given width: `b_ord(data[i])`, `'>H'` or `'>I'`. */
  function NumberAt(width: nat, i: nat, data: bytes): (r: Parse<nat>)
    ensures r.Done? ==> r.next == i + width
  {
    var s := Slice(i, width, data);
    if |s| == width then Done(i + width, Bignum.BigEndianValue(s)) else Fail(MissingData)
  }

  /** A length of the given width, then that many bytes by an unchecked slice. */
  function FieldAt(width: nat, i: nat, data: bytes): (r: Parse<bytes>)
    ensures r.Done? ==> i + width <= r.next
  {
    var (i, j) :- NumberAt(width, i, data);
    Done(i + j, Slice(i, j, data))
  }

  function Remaining(i: nat, data: bytes): nat {
    if i < |data| then |data| - i else 0
  }

  function BinaryToTerm(data: bytes): Result<Term, ParseError> {
    if |data| <= 1 then Err(NullInput)
    else if data[0] != TAG_VERSION then Err(InvalidVersion)
    else match Decode(1, data)
      case Done(i, term) => if i != |data| then Err(UnparsedData) else Ok(term)
      case Fail(error) => Err(error)
  }

  function Decode(i: nat, data: bytes): (r: Parse<Term>)
    ensures r.Done? ==> i < |data| && i < r.next
    decreases Remaining(i, data), 0
  {
    var (i, tag) :- ByteAt(i, data);
    DecodeTagged(tag, i, data)
  }

  /** The branches of `_binary_to_term` for atoms, integers, references, ports and pids, then the others. */
  function DecodeTagged(tag: byte, i: nat, data: bytes): (r: Parse<Term>)
    ensures r.Done? ==> i <= r.next
    ensures r.Done? && r.value.Function? ==> r.value == Function(tag, Slice(i, r.next - i, data))
    decreases Remaining(i, data), 5
  {
    if IsAtomTag(tag) then
      var (i, a) :- DecodeAtomBody(tag, i, data);
      Done(i, if tag == TAG_SMALL_ATOM_EXT then AtomOrBool(a.name) else AtomTerm(a))
    else if IsIntegerTag(tag) then
      var (i, n) :- DecodeIntegerBody(tag, i, data);
      Done(i, Integer(n))
    else if IsNodeTag(tag) then
      DecodeNodeTerm(tag, i, data)
    else
      DecodePayload(tag, i, data)
  }

  /** Floats, binaries, strings, the empty list, and the funs whose body stays unparsed, then the others. */
  function DecodePayload(tag: byte, i: nat, data: bytes): (r: Parse<Term>)
    ensures r.Done? ==> i <= r.next
    ensures r.Done? && r.value.Function? ==> r.value == Function(tag, Slice(i, r.next - i, data))
    decreases Remaining(i, data), 4
  {
    if tag == TAG_NIL_EXT then
      Done(i, PlainList([]))
    else if tag == TAG_STRING_EXT then
      var (i, s) :- FieldAt(2, i, data);
      Done(i, Str(s))
    else if tag == TAG_BINARY_EXT then
      var (i, s) :- FieldAt(4, i, data);
      Done(i, Binary(s, 8))
    else if tag == TAG_BIT_BINARY_EXT then
      var (i, j) :- NumberAt(4, i, data);
      var (i, bits) :- ByteAt(i, data);
      Done(i + j, Binary(Slice(i, j, data), bits))
    else if tag == TAG_NEW_FLOAT_EXT then
      var ieee := Slice(i, 8, data);
      if |ieee| == 8 then Done(i + 8, Float(ieee)) else Fail(MissingData)
    else if tag == TAG_NEW_FUN_EXT then
      var (_, length) :- NumberAt(4, i, data);
      Done(i + length, Function(tag, Slice(i, length, data)))
    else if tag == TAG_EXPORT_EXT then
      DecodeExport(i, data)
    else
      DecodeCompound(tag, i, data)
  }

  /** The branches that decode terms again: tuples, lists, maps and FUN_EXT. Any other tag is invalid. */
  function DecodeCompound(tag: byte, i: nat, data: bytes): (r: Parse<Term>)
    ensures r.Done? ==> i <= r.next
    ensures r.Done? && r.value.Function? ==> r.value == Function(tag, Slice(i, r.next - i, data))
    ensures r.Done? ==> (r.value.Function? <==> tag == TAG_FUN_EXT)
    decreases Remaining(i, data), 3
  {
    if tag == TAG_FUN_EXT then
      var (j, numFree) :- FunHeader(i, data);
      DecodeFree(i, j, numFree, data)
    else if !IsCompoundTag(tag) then Fail(InvalidTag)
    else
      var (i, length) :- NumberAt(CountWidth(tag), i, data);
      var (i, ts) :- DecodeSequence(i, if tag == TAG_MAP_EXT then 2 * length else length, data);
      if tag == TAG_MAP_EXT then Done(i, Map(ts))
      else if tag == TAG_LIST_EXT then
        var (i, tail) :- Decode(i, data);
        Done(i, ListOf(ts, tail))
      else Done(i, Tuple(ts))
  }

  /** The free variables of a FUN_EXT that starts at `start`; they are decoded only to find their end. */
  function DecodeFree(start: nat, i: nat, numFree: nat, data: bytes): (r: Parse<Term>)
    requires start <= i
    ensures r.Done? ==> i <= r.next
    ensures r.Done? ==> r.value == Function(TAG_FUN_EXT, Slice(start, r.next - start, data))
    decreases Remaining(i, data), 2
  {
    var (i, _) :- DecodeSequence(i, numFree, data);
    Done(i, Function(TAG_FUN_EXT, Slice(start, i - start, data)))
  }

  predicate IsCompoundTag(tag: byte) {
    || tag == TAG_SMALL_TUPLE_EXT || tag == TAG_LARGE_TUPLE_EXT
    || tag == TAG_LIST_EXT || tag == TAG_MAP_EXT
  }

  function CountWidth(tag: byte): nat {
    if tag == TAG_SMALL_TUPLE_EXT then 1 else 4
  }

  function DecodeSequence(i: nat, length: nat, data: bytes): (r: Parse<seq<Term>>)
    ensures r.Done? ==> i <= r.next && |r.value| == length
    decreases Remaining(i, data), 1, length
  {
    if length == 0 then Done(i, [])
    else
      var (i, head) :- Decode(i, data);
      var (i, tail) :- DecodeSequence(i, length - 1, data);
      Done(i, [head] + tail)
  }

  /** A list is improper exactly when its tail is not the empty plain list. */
  function ListOf(ts: seq<Term>, tail: Term): Term {
    if tail == PlainList([]) then PlainList(ts) else ErlangList(ts + [tail], true)
  }

  /** The fixed part of FUN_EXT: the number of free variables, pid, module, index and uniq. */
  function FunHeader(i: nat, data: bytes): (r: Parse<nat>)
    ensures r.Done? ==> i < r.next
  {
    var (i, numFree) :- NumberAt(4, i, data);
    var (i, _) :- DecodePid(i, data);
    var (i, _) :- DecodeAtom(i, data);
    var (i, _) :- DecodeInteger(i, data);
    var (i, _) :- DecodeInteger(i, data);
    Done(i, numFree)
  }

  predicate IsAtomTag(tag: byte) {
    || tag == TAG_ATOM_CACHE_REF || tag == TAG_ATOM_EXT || tag == TAG_SMALL_ATOM_EXT
    || tag == TAG_ATOM_UTF8_EXT || tag == TAG_SMALL_ATOM_UTF8_EXT
  }

  predicate IsIntegerTag(tag: byte) {
    || tag == TAG_SMALL_INTEGER_EXT || tag == TAG_INTEGER_EXT
    || tag == TAG_SMALL_BIG_EXT || tag == TAG_LARGE_BIG_EXT
  }

  predicate IsNodeTag(tag: byte) {
    || tag == TAG_REFERENCE_EXT || tag == TAG_PORT_EXT || tag == TAG_PID_EXT
    || tag == TAG_NEW_REFERENCE_EXT
  }

  /** The atom branches, shared with `_binary_to_atom`. */
  function DecodeAtomBody(tag: byte, i: nat, data: bytes): (r: Parse<Atom>)
    requires IsAtomTag(tag)
    ensures r.Done? ==> i < r.next
    ensures r.Done? && tag == TAG_SMALL_ATOM_EXT ==> r.value.Latin?
  {
    if tag == TAG_ATOM_CACHE_REF then
      var (i, index) :- ByteAt(i, data);
      Done(i, CacheRef(index))
    else
      var wide := tag == TAG_ATOM_EXT || tag == TAG_ATOM_UTF8_EXT;
      var (i, name) :- FieldAt(if wide then 2 else 1, i, data);
      if tag == TAG_ATOM_EXT || tag == TAG_SMALL_ATOM_EXT then Done(i, Latin(name))
      else if ValidUtf8(name) then Done(i, Utf8(name))
      else Fail(InvalidUtf8)
  }

  function AtomOrBool(name: bytes): Term {
    if name == BoolName(true) then Bool(true)
    else if name == BoolName(false) then Bool(false)
    else AtomTerm(Latin(name))
  }

  function DecodeAtom(i: nat, data: bytes): (r: Parse<Atom>)
    ensures r.Done? ==> i < r.next
  {
    var (i, tag) :- ByteAt(i, data);
    if IsAtomTag(tag) then DecodeAtomBody(tag, i, data) else Fail(InvalidAtomTag)
  }

  /** The integer branches; the first two are shared with `_binary_to_integer`. */
  function DecodeIntegerBody(tag: byte, i: nat, data: bytes): (r: Parse<int>)
    requires IsIntegerTag(tag)
    ensures r.Done? ==> i < r.next
  {
    if tag == TAG_SMALL_BIG_EXT || tag == TAG_LARGE_BIG_EXT then
      var (i, j) :- NumberAt(if tag == TAG_SMALL_BIG_EXT then 1 else 4, i, data);
      DecodeDigits(i, j, data)
    else if tag == TAG_SMALL_INTEGER_EXT then
      NumberAt(1, i, data)
    else
      var (i, n) :- NumberAt(4, i, data);
      Done(i, if n < 0x8000_0000 then n else n - 0x1_0000_0000)
  }

  /** The sign byte, then the digits data[i + 1..i + 1 + j]; every digit is indexed, not sliced. */
  function DecodeDigits(i: nat, j: nat, data: bytes): (r: Parse<int>)
    ensures r.Done? ==> i < r.next
  {
    if i >= |data| || i + j >= |data| then Fail(MissingData)
    else
      var n: int := Bignum.Value(Slice(i + 1, j, data));
      Done(i + 1 + j, if data[i] == 1 then -n else n)
  }

  function DecodeInteger(i: nat, data: bytes): (r: Parse<int>)
    ensures r.Done? ==> i < r.next
  {
    var (i, tag) :- ByteAt(i, data);
    if tag == TAG_SMALL_INTEGER_EXT || tag == TAG_INTEGER_EXT then DecodeIntegerBody(tag, i, data)
    else Fail(InvalidIntegerTag)
  }

  /** References, ports and pids: a node, then fixed-size fields by unchecked slices. */
  function DecodeNodeTerm(tag: byte, i: nat, data: bytes): (r: Parse<Term>)
    requires IsNodeTag(tag)
    ensures r.Done? ==> i < r.next
  {
    if tag == TAG_NEW_REFERENCE_EXT then
      DecodeNewReference(i, data)
    else
      var (i, node) :- DecodeAtom(i, data);
      Done(if tag == TAG_PID_EXT then i + 9 else i + 5, NodeTerm(tag, node, i, data))
  }

  function NodeTerm(tag: byte, node: Atom, i: nat, data: bytes): Term {
    var id := Slice(i, 4, data);
    if tag == TAG_PID_EXT then Pid(node, id, Slice(i + 4, 4, data), Slice(i + 8, 1, data))
    else if tag == TAG_PORT_EXT then Port(node, id, Slice(i + 4, 1, data))
    else Reference(node, id, Slice(i + 4, 1, data))
  }

  function DecodeNewReference(i: nat, data: bytes): (r: Parse<Term>)
    ensures r.Done? ==> i < r.next
  {
    var (i, words) :- NumberAt(2, i, data);
    var (i, node) :- DecodeAtom(i, data);
    Done(i + 1 + 4 * words, NewReference(node, 4 * words, i, data))
  }

  function NewReference(node: Atom, size: nat, i: nat, data: bytes): Term {
    Reference(node, Slice(i + 1, size, data), Slice(i, 1, data))
  }

  function DecodePid(i: nat, data: bytes): (r: Parse<Term>)
    ensures r.Done? ==> i < r.next
  {
    var (i, tag) :- ByteAt(i, data);
    if tag == TAG_PID_EXT then DecodeNodeTerm(tag, i, data) else Fail(InvalidPidTag)
  }

  function DecodeExport(start: nat, data: bytes): (r: Parse<Term>)
    ensures r.Done? ==> start <= r.next
  {
    var (i, _) :- DecodeAtom(start, data);
    var (i, _) :- DecodeAtom(i, data);
    DecodeArity(start, i, data)
  }

  function DecodeArity(start: nat, i: nat, data: bytes): (r: Parse<Term>)
    requires start <= i
    ensures r.Done? ==> i <= r.next
  {
    var (i, arityTag) :- ByteAt(i, data);
    if arityTag != TAG_SMALL_INTEGER_EXT then Fail(InvalidSmallIntegerTag)
    else
      var (i, _) :- ByteAt(i, data);
      Done(i, Function(TAG_EXPORT_EXT, Slice(start, i - start, data)))
  }
}
