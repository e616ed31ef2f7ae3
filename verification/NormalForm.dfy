/** What a term becomes on the wire: the normal form that `binary_to_term(term_to_binary(t))` returns. */
module NormalForm {
  import opened Bytes
  import opened Terms
  import opened Encoder
  import opened Decoder
  import Bignum

  /** The integers that the bytes of a string over 65535 bytes decode to. */
  function IntegersOf(s: bytes): (ts: seq<Term>)
    ensures |ts| == |s|
  {
    if s == [] then [] else [Integer(s[0])] + IntegersOf(s[1..])
  }

  function Norm(t: Term): Term
    decreases t, 0
  {
    match t
    case Str(s) =>
      if s == [] then PlainList([])
      else if |s| <= MAX_UINT16 then t
      else PlainList(IntegersOf(s))
    case PlainList(ts) => PlainList(NormAll(ts))
    case Tuple(ts) => Tuple(NormAll(ts))
    case Map(ts) => Map(NormAll(ts))
    case AtomTerm(a) => if a.Latin? then AtomOrBool(a.name) else t
    case ErlangList(ts, improper) => NormList(ts, improper)
    case _ => t
  }

  function NormAll(ts: seq<Term>): (ns: seq<Term>)
    ensures |ns| == |ts|
    decreases ts, 0
  {
    if ts == [] then [] else [Norm(ts[0])] + NormAll(ts[1..])
  }

  /** A proper list becomes plain; an improper one loses a last element that normalises to []. */
  function NormList(ts: seq<Term>, improper: bool): Term
    decreases ts, 1
  {
    var ns := NormAll(ts);
    if ns == [] || !improper then PlainList(ns)
    else ListOf(ns[..|ns| - 1], ns[|ns| - 1])
  }

  /** The fields that the wire format gives a fixed size have that size, and names are what they claim. */
  ghost predicate WellFormed(t: Term) {
    match t
    case PlainList(ts) => forall k :: 0 <= k < |ts| ==> WellFormed(ts[k])
    case Tuple(ts) => forall k :: 0 <= k < |ts| ==> WellFormed(ts[k])
    case Map(ts) => forall k :: 0 <= k < |ts| ==> WellFormed(ts[k])
    case ErlangList(ts, _) => forall k :: 0 <= k < |ts| ==> WellFormed(ts[k])
    case Float(ieee) => |ieee| == 8
    case AtomTerm(a) => WellFormedAtom(a)
    case Function(tag, body) => WellFormedFunction(tag, body)
    case Reference(node, id, creation) =>
      WellFormedAtom(node) && |id| > 0 && |id| % 4 == 0 && |creation| == 1
    case Port(node, id, creation) => WellFormedAtom(node) && |id| == 4 && |creation| == 1
    case Pid(node, id, serial, creation) =>
      WellFormedAtom(node) && |id| == 4 && |serial| == 4 && |creation| == 1
    case _ => true
  }

  ghost predicate WellFormedAtom(a: Atom) {
    a.Utf8? ==> ValidUtf8(a.name)
  }

  // Funs are carried as raw bytes

  /** An atom in any of its five formats. */
  predicate AtomBytes(b: bytes) {
    && |b| >= 2
    && if b[0] == TAG_ATOM_CACHE_REF then |b| == 2
       else if b[0] == TAG_SMALL_ATOM_EXT then |b| == 2 + b[1] as int
       else if b[0] == TAG_SMALL_ATOM_UTF8_EXT then |b| == 2 + b[1] as int && ValidUtf8(b[2..])
       else
         && (b[0] == TAG_ATOM_EXT || b[0] == TAG_ATOM_UTF8_EXT)
         && |b| >= 3 && |b| == 3 + Bignum.BigEndianValue(b[1..3])
         && (b[0] == TAG_ATOM_UTF8_EXT ==> ValidUtf8(b[3..]))
  }

  /** A small or a 32-bit integer. */
  predicate IntegerBytes(b: bytes) {
    (|b| == 2 && b[0] == TAG_SMALL_INTEGER_EXT) || (|b| == 5 && b[0] == TAG_INTEGER_EXT)
  }

  /** A node between the tag and the nine bytes of id, serial and creation. */
  predicate PidBytes(b: bytes) {
    |b| >= 10 && b[0] == TAG_PID_EXT && AtomBytes(b[1..|b| - 9])
  }

  /** So many encoded terms, in any formats. */
  predicate FreeBytes(count: nat, b: bytes) {
    DecodeSequence(0, count, b).Done? && DecodeSequence(0, count, b).next == |b|
  }

  /** EXPORT_EXT: module, function, arity. */
  ghost predicate IsExport(body: bytes, m: bytes, f: bytes, arity: byte) {
    AtomBytes(m) && AtomBytes(f) && body == m + f + [TAG_SMALL_INTEGER_EXT, arity]
  }

  /** FUN_EXT: the number of free variables, pid, module, index, uniq, and the free variables. */
  ghost predicate IsFun(
    body: bytes, count: bytes, pid: bytes, m: bytes, index: bytes, uniq: bytes, free: bytes)
  {
    && |count| == 4 && PidBytes(pid) && AtomBytes(m) && IntegerBytes(index) && IntegerBytes(uniq)
    && FreeBytes(Bignum.BigEndianValue(count), free)
    && body == count + pid + m + index + uniq + free
  }

  /** The parts of a fun, as the External Term Format lays them out. */
  ghost predicate WellFormedFunction(tag: byte, body: bytes) {
    || (tag == TAG_EXPORT_EXT && exists m, f, arity :: IsExport(body, m, f, arity))
    || (tag == TAG_NEW_FUN_EXT && |body| >= 4 && Bignum.BigEndianValue(body[..4]) == |body|)
    || (tag == TAG_FUN_EXT && exists count, pid, m, index, uniq, free :: IsFun(body, count, pid, m, index, uniq, free))
  }

  /** How many improper lists of one element have an element that normalises to []. */
  function NilSingletons(t: Term): nat
    decreases t, 0
  {
    match t
    case PlainList(ts) => NilSingletonsAll(ts)
    case Tuple(ts) => NilSingletonsAll(ts)
    case Map(ts) => NilSingletonsAll(ts)
    case ErlangList(ts, improper) =>
      NilSingletonsAll(ts) + if improper && |ts| == 1 && Norm(ts[0]) == PlainList([]) then 1 else 0
    case _ => 0
  }

  function NilSingletonsAll(ts: seq<Term>): nat
    decreases ts, 0
  {
    if ts == [] then 0 else NilSingletons(ts[0]) + NilSingletonsAll(ts[1..])
  }
}
