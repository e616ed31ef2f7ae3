/** `term_to_binary` of src/api/python/erlang.py, without compression. */
module Encoder {
  import opened Bytes
  import opened Terms
  import Bignum

  datatype OutputError = Uint16Overflow | Uint32Overflow | UnpairedMap

  type Output = Result<bytes, OutputError>

  /** `term_to_binary(term)`. */
  function TermToBinary(t: Term): Output {
    var b :- Encode(t);
    Ok([TAG_VERSION] + b)
  }

  function Encode(t: Term): Output
    decreases t, 0
  {
    match t
    case Str(s) => EncodeString(s)
    case PlainList(ts) => EncodeList(ts, false)
    case Tuple(ts) => EncodeTuple(ts)
    case Integer(n) => EncodeInteger(n)
    case Float(ieee) => Ok([TAG_NEW_FLOAT_EXT] + ieee)
    case Map(ts) => EncodeMap(ts)
    case Bool(truth) => EncodeAtom(Latin(BoolName(truth)))
    case AtomTerm(a) => EncodeAtom(a)
    case ErlangList(ts, improper) => EncodeList(ts, improper)
    case Binary(octets, bits) => EncodeBinary(octets, bits)
    case Function(tag, body) => Ok([tag] + body)
    case Reference(node, id, creation) => EncodeReference(node, id, creation)
    case Port(node, id, creation) =>
      var n :- EncodeAtom(node);
      Ok([TAG_PORT_EXT] + n + id + creation)
    case Pid(node, id, serial, creation) =>
      var n :- EncodeAtom(node);
      Ok([TAG_PID_EXT] + n + id + serial + creation)
  }

  /** `b''.join([_term_to_binary(element) for element in ts])`. */
  function EncodeAll(ts: seq<Term>): Output
    decreases ts, 0
  {
    if ts == [] then Ok([])
    else
      var head :- Encode(ts[0]);
      var tail :- EncodeAll(ts[1..]);
      Ok(head + tail)
  }

  function EncodeList(ts: seq<Term>, improper: bool): Output
    decreases ts, 1
  {
    if ts == [] then Ok([TAG_NIL_EXT])
    else if |ts| > MAX_UINT32 then Err(Uint32Overflow)
    else
      var elements :- EncodeAll(ts);
      if improper then Ok([TAG_LIST_EXT] + Be32(|ts| - 1) + elements)
      else Ok([TAG_LIST_EXT] + Be32(|ts|) + elements + [TAG_NIL_EXT])
  }

  function EncodeTuple(ts: seq<Term>): Output
    decreases ts, 1
  {
    if |ts| > MAX_UINT32 then Err(Uint32Overflow)
    else
      var elements :- EncodeAll(ts);
      if |ts| <= MAX_UINT8 then Ok([TAG_SMALL_TUPLE_EXT, |ts|] + elements)
      else Ok([TAG_LARGE_TUPLE_EXT] + Be32(|ts|) + elements)
  }

  /** A flat entry sequence of odd length stands for no PHP pair list. */
  function EncodeMap(entries: seq<Term>): Output
    decreases entries, 1
  {
    if |entries| % 2 != 0 then Err(UnpairedMap)
    else if |entries| / 2 > MAX_UINT32 then Err(Uint32Overflow)
    else
      var elements :- EncodeAll(entries);
      Ok([TAG_MAP_EXT] + Be32(|entries| / 2) + elements)
  }

  function EncodeAtom(a: Atom): Output {
    match a
    case CacheRef(index) => Ok([TAG_ATOM_CACHE_REF, index])
    case Latin(name) =>
      if |name| <= MAX_UINT8 then Ok([TAG_SMALL_ATOM_EXT, |name|] + name)
      else if |name| <= MAX_UINT16 then Ok([TAG_ATOM_EXT] + Be16(|name|) + name)
      else Err(Uint16Overflow)
    case Utf8(name) =>
      if |name| <= MAX_UINT8 then Ok([TAG_SMALL_ATOM_UTF8_EXT, |name|] + name)
      else if |name| <= MAX_UINT16 then Ok([TAG_ATOM_UTF8_EXT] + Be16(|name|) + name)
      else Err(Uint16Overflow)
  }

  function EncodeBinary(octets: bytes, bits: byte): Output {
    if |octets| > MAX_UINT32 then Err(Uint32Overflow)
    else if bits != 8 then Ok([TAG_BIT_BINARY_EXT] + Be32(|octets|) + [bits] + octets)
    else Ok([TAG_BINARY_EXT] + Be32(|octets|) + octets)
  }

  /** An id shorter than four bytes selects the old format, which then carries that short id. */
  function EncodeReference(node: Atom, id: bytes, creation: bytes): Output {
    var n :- EncodeAtom(node);
    if |id| / 4 == 0 then Ok([TAG_REFERENCE_EXT] + n + id + creation)
    else if |id| / 4 <= MAX_UINT16 then
      Ok([TAG_NEW_REFERENCE_EXT] + Be16(|id| / 4) + n + creation + id)
    else Err(Uint16Overflow)
  }

  function EncodeString(s: bytes): Output {
    if s == [] then Ok([TAG_NIL_EXT])
    else if |s| <= MAX_UINT16 then Ok([TAG_STRING_EXT] + Be16(|s|) + s)
    else if |s| <= MAX_UINT32 then
      Ok([TAG_LIST_EXT] + Be32(|s|) + SmallIntegers(s) + [TAG_NIL_EXT])
    else Err(Uint32Overflow)
  }

  function SmallIntegers(s: bytes): bytes {
    if s == [] then [] else [TAG_SMALL_INTEGER_EXT, s[0]] + SmallIntegers(s[1..])
  }

  function EncodeInteger(n: int): Output {
    if 0 <= n <= MAX_UINT8 then Ok([TAG_SMALL_INTEGER_EXT, n])
    else if -0x8000_0000 <= n < 0x8000_0000 then Ok([TAG_INTEGER_EXT] + Be32(Unsigned32(n)))
    else EncodeBignum(n < 0, Bignum.Digits(if n < 0 then -n else n))
  }

  /** The frame around the little-endian digits of a bignum. */
  function EncodeBignum(negative: bool, digits: bytes): Output {
    var sign: byte := if negative then 1 else 0;
    if |digits| <= MAX_UINT8 then Ok([TAG_SMALL_BIG_EXT, |digits|, sign] + digits)
    else if |digits| <= MAX_UINT32 then Ok([TAG_LARGE_BIG_EXT] + Be32(|digits|) + [sign] + digits)
    else Err(Uint32Overflow)
  }

  /** `_bignum_to_binary`: the digit loop framed. */
  method BignumToBinary(n: int) returns (r: Output)
    ensures r == EncodeBignum(n < 0, Bignum.Digits(if n < 0 then -n else n))
  {
    var digits := Bignum.DigitLoop(if n < 0 then -n else n);
    r := EncodeBignum(n < 0, digits);
  }

  /**
   * Go's `bignumToBinary`: the minimal big-endian magnitude is reversed in place and framed.
   * The bytes are those of the Python digit loop.
   */
  method GoBignumToBinary(n: int, magnitude: array<byte>) returns (r: Output)
    requires Bignum.BigEndianValue(magnitude[..]) == if n < 0 then -n else n
    requires magnitude.Length > 0 ==> magnitude[0] != 0
    modifies magnitude
    ensures r == EncodeBignum(n < 0, Bignum.Digits(if n < 0 then -n else n))
  {
    Bignum.ReversedMagnitude(if n < 0 then -n else n, magnitude[..]);
    Bignum.ReverseInPlace(magnitude);
    r := EncodeBignum(n < 0, magnitude[..]);
  }
}
