/**
 * The Erlang terms of src/api/python/erlang.py. Maps follow src/api/php/Erlang.php, which keeps
 * an ordered list of key/value pairs; here the pairs are laid out flat, each key before its value.
 */
module Terms {
  import opened Bytes

  // Tags of the External Term Format (chapter "External Term Format" of the ERTS User's Guide).
  const TAG_VERSION: byte := 131
  const TAG_NEW_FLOAT_EXT: byte := 70
  const TAG_BIT_BINARY_EXT: byte := 77
  const TAG_ATOM_CACHE_REF: byte := 78
  const TAG_SMALL_INTEGER_EXT: byte := 97
  const TAG_INTEGER_EXT: byte := 98
  const TAG_ATOM_EXT: byte := 100
  const TAG_REFERENCE_EXT: byte := 101
  const TAG_PORT_EXT: byte := 102
  const TAG_PID_EXT: byte := 103
  const TAG_SMALL_TUPLE_EXT: byte := 104
  const TAG_LARGE_TUPLE_EXT: byte := 105
  const TAG_NIL_EXT: byte := 106
  const TAG_STRING_EXT: byte := 107
  const TAG_LIST_EXT: byte := 108
  const TAG_BINARY_EXT: byte := 109
  const TAG_SMALL_BIG_EXT: byte := 110
  const TAG_LARGE_BIG_EXT: byte := 111
  const TAG_NEW_FUN_EXT: byte := 112
  const TAG_EXPORT_EXT: byte := 113
  const TAG_NEW_REFERENCE_EXT: byte := 114
  const TAG_SMALL_ATOM_EXT: byte := 115
  const TAG_MAP_EXT: byte := 116
  const TAG_FUN_EXT: byte := 117
  const TAG_ATOM_UTF8_EXT: byte := 118
  const TAG_SMALL_ATOM_UTF8_EXT: byte := 119

  /** The three value types of `OtpErlangAtom`: int, bytes, and unicode (as its UTF-8 bytes). */
  datatype Atom = CacheRef(index: byte) | Latin(name: bytes) | Utf8(name: bytes)

  datatype Term =
    | Str(chars: bytes)
    | PlainList(elements: seq<Term>)
    | Tuple(elements: seq<Term>)
    | Integer(number: int)
    | Float(ieee: bytes)
    | Map(entries: seq<Term>)
    | Bool(truth: bool)
    | AtomTerm(atom: Atom)
    | ErlangList(value: seq<Term>, improper: bool)
    | Binary(octets: bytes, bits: byte)
    | Function(tag: byte, body: bytes)
    | Reference(node: Atom, id: bytes, creation: bytes)
    | Port(node: Atom, id: bytes, creation: bytes)
    | Pid(node: Atom, id: bytes, serial: bytes, creation: bytes)

  /** The atoms `true` and `false`, as their Latin-1 bytes. */
  function BoolName(truth: bool): bytes {
    if truth then [116, 114, 117, 101] else [102, 97, 108, 115, 101]
  }

  /** The number of nodes of a term; elements of a string are not nodes. */
  function Nodes(t: Term): (n: nat)
    ensures n >= 1
  {
    match t
    case PlainList(ts) => 1 + NodesAll(ts)
    case Tuple(ts) => 1 + NodesAll(ts)
    case Map(ts) => 1 + NodesAll(ts)
    case ErlangList(ts, _) => 1 + NodesAll(ts)
    case _ => 1
  }

  function NodesAll(ts: seq<Term>): (n: nat)
    ensures n >= |ts|
  {
    if ts == [] then 0 else Nodes(ts[0]) + NodesAll(ts[1..])
  }

  /** Well-formed UTF-8 as section 4 of RFC 3629 defines it. */
  predicate ValidUtf8(s: bytes) {
    Utf8From(s, 0, 0x80, 0xC0)
  }

  /** The rest of a UTF-8 string inside a character that lacks `need` bytes, the next one in [low, high). */
  predicate Utf8From(s: bytes, need: nat, low: int, high: int) {
    if s == [] then need == 0
    else if need > 0 then low <= s[0] < high && Utf8From(s[1..], need - 1, 0x80, 0xC0)
    else
      var (more, lo, hi) := Utf8Lead(s[0]);
      more >= 0 && Utf8From(s[1..], more, lo, hi)
  }

  /** How many bytes follow a lead byte (-1 when it is none), and the range of the first of them. */
  function Utf8Lead(b: byte): (int, int, int) {
    if b < 0x80 then (0, 0x80, 0xC0)
    else if b < 0xC2 || b > 0xF4 then (-1, 0x80, 0xC0)
    else if b < 0xE0 then (1, 0x80, 0xC0)
    else if b < 0xF0 then (2, if b == 0xE0 then 0xA0 else 0x80, if b == 0xED then 0xA0 else 0xC0)
    else (3, if b == 0xF0 then 0x90 else 0x80, if b == 0xF4 then 0x90 else 0xC0)
  }
}
