/**
 * The External Term Format by its numbers: what the decoder makes of every format, also of those that
 * the encoder does not choose, and which format the encoder writes.
 */
module Formats {
  import opened Bytes
  import opened Terms
  import opened Encoder
  import opened Decoder
  import opened NormalForm
  import opened RoundTrip
  import Bignum
  import Encodability
  import Functions
  import Locality

  // Reading

  /** 131 in front, and nothing behind the term; everything else is an exception of its own. */
  lemma VersionFormat(d: bytes, t: Term)
    ensures BinaryToTerm(d) == Ok(t) <==> |d| > 1 && d[0] == 131 && Decode(1, d) == Done(|d|, t)
    ensures |d| <= 1 ==> BinaryToTerm(d) == Err(NullInput)
    ensures |d| > 1 && d[0] != 131 ==> BinaryToTerm(d) == Err(InvalidVersion)
    ensures |d| > 1 && d[0] == 131 && Decode(1, d).Done? && Decode(1, d).next != |d| ==>
              BinaryToTerm(d) == Err(UnparsedData)
    ensures |d| > 1 && d[0] == 131 && Decode(1, d).Fail? ==> BinaryToTerm(d) == Err(Decode(1, d).error)
  {
  }

  /** 100 and 115 are Latin-1 names of two and one bytes of length, 118 and 119 those in UTF-8, 78 a cache index. */
  lemma AtomFormats(name: bytes, index: byte)
    ensures Decode(0, [78, index]) == Done(2, AtomTerm(CacheRef(index)))
    ensures |name| <= MAX_UINT16 ==>
              var b := [100] + Be16(|name|) + name;
              Decode(0, b) == Done(|b|, AtomTerm(Latin(name)))
    ensures |name| <= MAX_UINT8 ==>
              var b := [115] + [|name| as byte] + name;
              Decode(0, b) == Done(|b|, if name == [116, 114, 117, 101] then Bool(true)
                                        else if name == [102, 97, 108, 115, 101] then Bool(false)
                                        else AtomTerm(Latin(name)))
    ensures |name| <= MAX_UINT16 ==>
              var b := [118] + Be16(|name|) + name;
              Decode(0, b) == if ValidUtf8(name) then Done(|b|, AtomTerm(Utf8(name))) else Fail(InvalidUtf8)
    ensures |name| <= MAX_UINT8 ==>
              var b := [119] + [|name| as byte] + name;
              Decode(0, b) == if ValidUtf8(name) then Done(|b|, AtomTerm(Utf8(name))) else Fail(InvalidUtf8)
  {
    hide ValidUtf8, Be16, FieldAt;
    if |name| <= MAX_UINT16 {
      AtomField(100, Be16(|name|), name);
      AtomField(118, Be16(|name|), name);
    }
    if |name| <= MAX_UINT8 {
      AtomField(115, [|name| as byte], name);
      AtomField(119, [|name| as byte], name);
    }
  }

  lemma AtomField(tag: byte, header: bytes, name: bytes)
    requires |header| in {1, 2} && Framed(|header|, |name|, header)
    ensures var b := [tag] + header + name;
            FieldAt(|header|, 1, b) == Done(|b|, name)
  {
    FieldRoundTrip(|header|, [tag], name, header, []);
    assert [tag] + header + name + [] == [tag] + header + name;
  }

  /** A sign byte of 1 is a minus. */
  function Signed(sign: byte, magnitude: nat): int {
    if sign == 1 then (-1) * magnitude else magnitude
  }

  /** 97 is a byte, 98 a 32-bit number in two's complement, 110 and 111 a sign and any digits, least first. */
  lemma IntegerFormats(n: byte, word: nat, sign: byte, digits: bytes)
    ensures Decode(0, [97, n]) == Done(2, Integer(n))
    ensures word <= MAX_UINT32 ==> Decode(0, [98] + Be32(word)) == Done(5, Integer(Signed32(word)))
    ensures |digits| <= MAX_UINT8 ==>
              var b := [110] + [|digits| as byte] + [sign] + digits;
              Decode(0, b) == Done(|b|, Integer(Signed(sign, Bignum.Value(digits))))
    ensures |digits| <= MAX_UINT32 ==>
              var b := [111] + Be32(|digits|) + [sign] + digits;
              Decode(0, b) == Done(|b|, Integer(Signed(sign, Bignum.Value(digits))))
  {
    hide Be32, Slice, NumberAt, Bignum.Value;
    assert [97] + [n] + [] == [97, n];
    Number8([97], n, []);
    if word <= MAX_UINT32 {
      assert [98] + Be32(word) + [] == [98] + Be32(word);
      Number32([98], word, []);
    }
    if |digits| <= MAX_UINT8 {
      DigitsRead(110, [|digits| as byte], sign, digits);
    }
    if |digits| <= MAX_UINT32 {
      DigitsRead(111, Be32(|digits|), sign, digits);
    }
  }

  lemma DigitsRead(tag: byte, header: bytes, sign: byte, digits: bytes)
    requires (tag == 110 && |header| == 1) || (tag == 111 && |header| == 4)
    requires Framed(|header|, |digits|, header)
    ensures var b := [tag] + header + [sign] + digits;
            DecodeIntegerBody(tag, 1, b)
            == Done(|b|, Signed(sign, Bignum.Value(digits)))
  {
    hide Slice, NumberAt, Be32, Be16, Bignum.Value;
    var b := [tag] + header + [sign] + digits;
    assert b == [tag] + header + ([sign] + digits);
    NumberRoundTrip(|header|, [tag], |digits|, header, [sign] + digits);
    assert b == ([tag] + header + [sign]) + digits + [];
    SliceMiddle([tag] + header + [sign], digits, []);
    assert b[1 + |header|] == sign;
  }

  /** A node in any of the atom formats. */
  ghost predicate Names(n: bytes, node: Atom) {
    DecodeAtom(0, n) == Done(|n|, node)
  }

  /** 101 and 114 are references of four bytes and of any number of words, 102 is a port, 103 a pid. */
  lemma NodeFormats(n: bytes, node: Atom, id: bytes, serial: bytes, creation: byte, words: bytes)
    requires Names(n, node) && |id| == 4 && |serial| == 4 && |words| % 4 == 0 && |words| / 4 <= MAX_UINT16
    ensures Decode(0, [101] + n + id + [creation]) == Done(6 + |n|, Reference(node, id, [creation]))
    ensures Decode(0, [102] + n + id + [creation]) == Done(6 + |n|, Port(node, id, [creation]))
    ensures Decode(0, [103] + n + id + serial + [creation]) == Done(10 + |n|, Pid(node, id, serial, [creation]))
    ensures var b := [114] + Be16(|words| / 4) + n + [creation] + words;
            Decode(0, b) == Done(|b|, Reference(node, words, [creation]))
  {
    ShortNodes(101, n, node, id, creation);
    ShortNodes(102, n, node, id, creation);
    PidRead(n, node, id, serial, creation);
    WordsRead(n, node, creation, words);
  }

  lemma ShortNodes(tag: byte, n: bytes, node: Atom, id: bytes, creation: byte)
    requires Names(n, node) && |id| == 4 && tag in {101, 102}
    ensures Decode(0, [tag] + n + id + [creation])
         == Done(6 + |n|, if tag == 101 then Reference(node, id, [creation]) else Port(node, id, [creation]))
  {
    hide Decode, DecodeAtom, Slice;
    var p, b := [tag] + n, [tag] + n + id + [creation];
    assert b == p + (id + [creation]) == p + id + [creation] + [];
    Locality.AtomInContext([tag], n, id + [creation]);
    FieldsMiddle(p, id, [creation], []);
    NodeTermDispatch(b);
  }

  lemma PidRead(n: bytes, node: Atom, id: bytes, serial: bytes, creation: byte)
    requires Names(n, node) && |id| == 4 && |serial| == 4
    ensures Decode(0, [103] + n + id + serial + [creation]) == Done(10 + |n|, Pid(node, id, serial, [creation]))
  {
    hide Decode, DecodeAtom, Slice;
    var p, b := [103] + n, [103] + n + id + serial + [creation];
    assert b == p + (id + serial + [creation]);
    Locality.AtomInContext([103], n, id + serial + [creation]);
    FieldsMiddle(p, id, serial, [creation]);
    NodeTermDispatch(b);
  }

  lemma WordsRead(n: bytes, node: Atom, creation: byte, words: bytes)
    requires Names(n, node) && |words| % 4 == 0 && |words| / 4 <= MAX_UINT16
    ensures var b := [114] + Be16(|words| / 4) + n + [creation] + words;
            Decode(0, b) == Done(|b|, Reference(node, words, [creation]))
  {
    hide Decode, DecodeAtom, Slice, NumberAt, Be16;
    var count := |words| / 4;
    var p, rest := [114] + Be16(count), [creation] + words;
    var b := [114] + Be16(count) + n + [creation] + words;
    assert b == [114] + Be16(count) + (n + rest) == p + n + rest == (p + n) + [creation] + words + [];
    Number16([114], count, n + rest);
    Locality.AtomInContext(p, n, rest);
    FieldsMiddle(p + n, [creation], words, []);
    NodeTermDispatch(b);
  }

  /** 106 is the empty list, 107 a short string, 109 a binary, 77 one with a bit count, 70 a float. */
  lemma PlainFormats(s: bytes, bits: byte, ieee: bytes)
    ensures Decode(0, [106]) == Done(1, PlainList([]))
    ensures |s| <= MAX_UINT16 ==>
              var b := [107] + Be16(|s|) + s;
              Decode(0, b) == Done(|b|, Str(s))
    ensures |s| <= MAX_UINT32 ==>
              var b := [109] + Be32(|s|) + s;
              Decode(0, b) == Done(|b|, Binary(s, 8))
    ensures |s| <= MAX_UINT32 ==>
              var b := [77] + Be32(|s|) + [bits] + s;
              Decode(0, b) == Done(|b|, Binary(s, bits))
    ensures |ieee| == 8 ==> Decode(0, [70] + ieee) == Done(9, Float(ieee))
  {
    hide Slice, NumberAt, FieldAt, Be32, Be16, Decode;
    PayloadDispatch(106, [106]);
    if |s| <= MAX_UINT16 {
      AtomField(107, Be16(|s|), s);
      PayloadDispatch(107, [107] + Be16(|s|) + s);
    }
    if |s| <= MAX_UINT32 {
      FieldRoundTrip(4, [109], s, Be32(|s|), []);
      assert [109] + Be32(|s|) + s + [] == [109] + Be32(|s|) + s;
      PayloadDispatch(109, [109] + Be32(|s|) + s);
      BitBinaryRoundTrip(s, bits, [77] + Be32(|s|) + [bits] + s);
      PayloadDispatch(77, [77] + Be32(|s|) + [bits] + s);
    }
    if |ieee| == 8 {
      FloatRoundTrip(ieee, [70] + ieee);
    }
  }

  /**
   * 104 and 105 are tuples with one and four bytes of count, 116 a map with a count of pairs, and 108
   * a list of a count of elements and a tail, proper exactly when the tail is the empty list.
   */
  lemma CompoundFormats(body: bytes, ts: seq<Term>, tail: bytes, t: Term)
    requires DecodeSequence(0, |ts|, body) == Done(|body|, ts) && Decode(0, tail) == Done(|tail|, t)
    ensures |ts| <= MAX_UINT8 ==>
              var b := [104] + [|ts| as byte] + body;
              Decode(0, b) == Done(|b|, Tuple(ts))
    ensures |ts| <= MAX_UINT32 ==>
              var b := [105] + Be32(|ts|) + body;
              Decode(0, b) == Done(|b|, Tuple(ts))
    ensures |ts| % 2 == 0 && |ts| / 2 <= MAX_UINT32 ==>
              var b := [116] + Be32(|ts| / 2) + body;
              Decode(0, b) == Done(|b|, Map(ts))
    ensures |ts| <= MAX_UINT32 ==>
              var b := [108] + Be32(|ts|) + body + tail;
              Decode(0, b) == Done(|b|, if t == PlainList([]) then PlainList(ts) else ErlangList(ts + [t], true))
  {
    hide Be32, Decode, DecodeSequence, NumberAt;
    if |ts| <= MAX_UINT8 {
      CountedRead(104, |ts|, [|ts| as byte], ts, body);
    }
    if |ts| <= MAX_UINT32 {
      CountedRead(105, |ts|, Be32(|ts|), ts, body);
      ListFrameRoundTrip(|ts|, body, tail);
    }
    if |ts| % 2 == 0 && |ts| / 2 <= MAX_UINT32 {
      CountedRead(116, |ts| / 2, Be32(|ts| / 2), ts, body);
    }
  }

  lemma CountedRead(tag: byte, count: nat, header: bytes, ts: seq<Term>, body: bytes)
    requires tag in {104, 105, 116} && Framed(CountWidth(tag), count, header)
    requires |ts| == (if tag == 116 then 2 * count else count) && DecodeSequence(0, |ts|, body) == Done(|body|, ts)
    ensures var b := [tag] + header + body;
            Decode(0, b) == Done(|b|, if tag == 116 then Map(ts) else Tuple(ts))
  {
    hide NumberAt, DecodeSequence, Decode, Framed;
    CountedRoundTrip(tag, count, header, |ts|, body, []);
    FramedWidth(CountWidth(tag), count, header);
    assert [tag] + header + body + [] == [tag] + header + body;
    CompoundDispatch(tag, [tag] + header + body);
  }

  /** 112, 113 and 117 are the funs, kept as bytes. */
  lemma FunFormats(body: bytes, tag: byte)
    requires tag in {112, 113, 117} && WellFormedFunction(tag, body)
    ensures Decode(0, [tag] + body) == Done(1 + |body|, Function(tag, body))
  {
    Functions.FunctionRoundTrip(tag, body);
  }

  const TAGS: set<int> := {
    70, 77, 78, 97, 98, 100, 101, 102, 103, 104, 105, 106, 107, 108, 109, 110, 111, 112, 113, 114, 115, 116, 117,
    118, 119
  }

  /** No other byte begins a term. */
  lemma NoOtherFormat(b: bytes)
    requires b != [] && b[0] as int !in TAGS
    ensures Decode(0, b) == Fail(InvalidTag)
  {
    assert Decode(0, b) == DecodeTagged(b[0], 1, b);
    assert DecodeTagged(b[0], 1, b) == DecodePayload(b[0], 1, b) == DecodeCompound(b[0], 1, b);
  }

  /** A format that ends in front of or inside its first number, or inside the eight bytes of a float. */
  predicate CutsOff(tag: byte, x: bytes) {
    || (tag as int in TAGS && tag != 106 && x == [])
    || (tag in {100, 107, 114, 118} && |x| < 2)
    || (tag in {77, 98, 105, 108, 109, 111, 112, 116, 117} && |x| < 4)
    || (tag == 70 && |x| < 8)
  }

  lemma CutOffFormats(tag: byte, x: bytes)
    requires CutsOff(tag, x)
    ensures Decode(0, [tag] + x) == Fail(MissingData)
  {
    hide DecodeSequence, Slice, NumberAt, DecodePayload, DecodeAtom;
    var b := [tag] + x;
    assert Decode(0, b) == DecodeTagged(tag, 1, b);
    if IsAtomTag(tag) || IsIntegerTag(tag) {
      NumbersCutOff(tag, x);
    } else if IsNodeTag(tag) {
      NumbersCutOff(tag, x);
      AtomCutOff(tag, x);
    } else {
      assert Decode(0, b) == DecodePayload(tag, 1, b);
      PayloadCutOff(tag, x);
    }
  }

  lemma NumbersCutOff(tag: byte, x: bytes)
    ensures |x| < 1 ==> NumberAt(1, 1, [tag] + x) == Fail(MissingData)
    ensures |x| < 2 ==> NumberAt(2, 1, [tag] + x) == Fail(MissingData)
    ensures |x| < 4 ==> NumberAt(4, 1, [tag] + x) == Fail(MissingData)
  {
    var b := [tag] + x;
    assert |x| < 4 ==> |Slice(1, 4, b)| == |x|;
    assert |x| < 2 ==> |Slice(1, 2, b)| == |x|;
  }

  lemma AtomCutOff(tag: byte, x: bytes)
    ensures x == [] ==> DecodeAtom(1, [tag] + x) == Fail(MissingData)
  {
  }

  lemma PayloadCutOff(tag: byte, x: bytes)
    requires CutsOff(tag, x) && !IsAtomTag(tag) && !IsIntegerTag(tag) && !IsNodeTag(tag)
    ensures DecodePayload(tag, 1, [tag] + x) == Fail(MissingData)
  {
    hide DecodeSequence, NumberAt, DecodeCompound, DecodeAtom;
    var b := [tag] + x;
    NumbersCutOff(tag, x);
    AtomCutOff(tag, x);
    if tag in {104, 105, 108, 116, 117} {
      assert DecodePayload(tag, 1, b) == DecodeCompound(tag, 1, b);
      CompoundCutOff(tag, x);
    }
  }

  lemma CompoundCutOff(tag: byte, x: bytes)
    requires tag in {104, 105, 108, 116, 117} && |x| < (if tag == 104 then 1 else 4)
    ensures DecodeCompound(tag, 1, [tag] + x) == Fail(MissingData)
  {
    hide DecodeSequence, NumberAt;
    NumbersCutOff(tag, x);
  }

  /** Digits are indexed one by one: 110 and 111 need all that they announce. */
  lemma CutOffDigits(count: nat, sign: byte, digits: bytes)
    requires |digits| < count
    ensures count <= MAX_UINT8 ==> Decode(0, [110, count as byte, sign] + digits) == Fail(MissingData)
    ensures count <= MAX_UINT32 ==> Decode(0, [111] + Be32(count) + [sign] + digits) == Fail(MissingData)
  {
    hide Be32, NumberAt, Decode;
    if count <= MAX_UINT8 {
      assert [110, count as byte, sign] + digits == [110] + [count as byte] + ([sign] + digits);
      Number8([110], count, [sign] + digits);
      DigitsCutOff(110, count, [110, count as byte, sign] + digits, 2);
    }
    if count <= MAX_UINT32 {
      assert [111] + Be32(count) + [sign] + digits == [111] + Be32(count) + ([sign] + digits);
      Number32([111], count, [sign] + digits);
      DigitsCutOff(111, count, [111] + Be32(count) + [sign] + digits, 5);
    }
  }

  lemma DigitsCutOff(tag: byte, count: nat, b: bytes, i: nat)
    requires (tag == 110 && i == 2) || (tag == 111 && i == 5)
    requires i < |b| <= i + count && b[0] == tag && NumberAt(i - 1, 1, b) == Done(i, count)
    ensures Decode(0, b) == Fail(MissingData)
  {
    hide NumberAt, Bignum.Value;
    assert DecodeDigits(i, count, b) == Fail(MissingData);
    assert Decode(0, b) == DecodeTagged(tag, 1, b);
  }

  predicate AtomTag(y: byte) {
    y in {78, 100, 115, 118, 119}
  }

  /** A node must be an atom, and so must the module of an export. */
  lemma WrongNodes(y: byte, rest: bytes, words: nat)
    requires !AtomTag(y) && words <= MAX_UINT16
    ensures Decode(0, [101, y] + rest) == Fail(InvalidAtomTag)
    ensures Decode(0, [102, y] + rest) == Fail(InvalidAtomTag)
    ensures Decode(0, [103, y] + rest) == Fail(InvalidAtomTag)
    ensures Decode(0, [113, y] + rest) == Fail(InvalidAtomTag)
    ensures Decode(0, [114] + Be16(words) + ([y] + rest)) == Fail(InvalidAtomTag)
  {
    hide DecodeAtom, Be16, DecodeCompound, NumberAt;
    WrongNode(101, y, rest);
    WrongNode(102, y, rest);
    WrongNode(103, y, rest);
    WrongNode(113, y, rest);
    WrongReference(y, rest, words);
  }

  lemma WrongNode(tag: byte, y: byte, rest: bytes)
    requires !AtomTag(y) && tag in {101, 102, 103, 113}
    ensures Decode(0, [tag, y] + rest) == Fail(InvalidAtomTag)
  {
    hide DecodeCompound, DecodeAtomBody;
    var b := [tag, y] + rest;
    assert DecodeAtom(1, b) == Fail(InvalidAtomTag);
    hide DecodeAtom;
    assert Decode(0, b) == DecodeTagged(tag, 1, b);
    if tag == 113 {
      assert DecodeTagged(tag, 1, b) == DecodePayload(tag, 1, b) == DecodeExport(1, b);
    }
  }

  lemma WrongReference(y: byte, rest: bytes, words: nat)
    requires !AtomTag(y) && words <= MAX_UINT16
    ensures Decode(0, [114] + Be16(words) + ([y] + rest)) == Fail(InvalidAtomTag)
  {
    hide Be16, NumberAt, DecodeAtomBody;
    Number16([114], words, [y] + rest);
    var b := [114] + Be16(words) + ([y] + rest);
    assert b[3] == y;
    assert DecodeAtom(3, b) == Fail(InvalidAtomTag);
    hide DecodeAtom;
    assert Decode(0, b) == DecodeTagged(114, 1, b);
  }

  /** The pid of an old fun, its index and uniq, and the arity of an export must be what they are called. */
  lemma WrongParts(m: bytes, f: bytes, first: Atom, second: Atom, y: byte, rest: bytes, free: nat)
    requires Names(m, first) && Names(f, second) && free <= MAX_UINT32
    ensures y != 103 ==> Decode(0, [117] + Be32(free) + ([y] + rest)) == Fail(InvalidPidTag)
    ensures y != 97 ==> Decode(0, [113] + m + f + ([y] + rest)) == Fail(InvalidSmallIntegerTag)
    ensures y !in {97, 98} ==> DecodeInteger(0, [y] + rest) == Fail(InvalidIntegerTag)
  {
    hide Be32, DecodeAtom, Decode;
    if y != 103 {
      WrongPid(y, rest, free);
    }
    if y != 97 {
      WrongArity(m, f, first, second, y, rest);
    }
  }

  lemma WrongPid(y: byte, rest: bytes, free: nat)
    requires y != 103 && free <= MAX_UINT32
    ensures Decode(0, [117] + Be32(free) + ([y] + rest)) == Fail(InvalidPidTag)
  {
    hide Be32, NumberAt, DecodeSequence, DecodeNodeTerm;
    Number32([117], free, [y] + rest);
    var b := [117] + Be32(free) + ([y] + rest);
    assert b[5] == y;
    assert Decode(0, b) == DecodeTagged(117, 1, b) == DecodePayload(117, 1, b) == DecodeCompound(117, 1, b);
  }

  lemma WrongArity(m: bytes, f: bytes, first: Atom, second: Atom, y: byte, rest: bytes)
    requires Names(m, first) && Names(f, second) && y != 97
    ensures Decode(0, [113] + m + f + ([y] + rest)) == Fail(InvalidSmallIntegerTag)
  {
    hide DecodeAtom;
    var b := [113] + m + f + ([y] + rest);
    assert b == [113] + m + (f + ([y] + rest)) == ([113] + m) + f + ([y] + rest);
    Locality.AtomInContext([113], m, f + ([y] + rest));
    Locality.AtomInContext([113] + m, f, [y] + rest);
    assert b[|[113] + m + f|] == y;
    assert Decode(0, b) == DecodeTagged(113, 1, b) == DecodePayload(113, 1, b);
  }

  // Writing

  /** Some digit string of at most 255 bytes denotes the number. */
  ghost predicate Short(n: nat) {
    exists digits: bytes :: |digits| <= MAX_UINT8 && Bignum.Value(digits) == n
  }

  lemma ShortDigits(n: nat)
    ensures Short(n) <==> |Bignum.Digits(n)| <= MAX_UINT8
  {
    Bignum.ValueOfDigits(n);
    if Short(n) {
      var digits: bytes :| |digits| <= MAX_UINT8 && Bignum.Value(digits) == n;
      Bignum.DigitsAreMinimal(digits);
    }
  }

  /** The number of the format in which a term is written: the smallest that carries it. */
  ghost function FormatOf(t: Term): int {
    match t
    case Str(s) => if s == [] then 106 else if |s| <= 65535 then 107 else 108
    case PlainList(ts) => if ts == [] then 106 else 108
    case ErlangList(ts, _) => if ts == [] then 106 else 108
    case Tuple(ts) => if |ts| <= 255 then 104 else 105
    case Map(_) => 116
    case Integer(n) =>
      if 0 <= n <= 255 then 97
      else if -2147483648 <= n <= 2147483647 then 98
      else if Short(if n < 0 then -n else n) then 110
      else 111
    case Float(_) => 70
    case Bool(_) => 115
    case AtomTerm(a) => AtomFormatOf(a)
    case Binary(_, bits) => if bits == 8 then 109 else 77
    case Function(tag, _) => tag
    case Reference(_, id, _) => if |id| < 4 then 101 else 114
    case Port(_, _, _) => 102
    case Pid(_, _, _, _) => 103
  }

  function AtomFormatOf(a: Atom): int {
    match a
    case CacheRef(_) => 78
    case Latin(name) => if |name| <= 255 then 115 else 100
    case Utf8(name) => if |name| <= 255 then 119 else 118
  }

  lemma FormatWritten(t: Term, b: bytes)
    requires TermToBinary(t) == Ok(b)
    ensures |b| > 1 && b[0] == 131 && b[1] == FormatOf(t)
  {
    hide EncodeAll, Short, Be32, Be16, SmallIntegers;
    if t.Integer? {
      ShortDigits(if t.number < 0 then -t.number else t.number);
    }
    assert Encode(t).Ok? && b == [TAG_VERSION] + Encode(t).value;
    assert Encode(t).value != [] && Encode(t).value[0] == FormatOf(t);
  }
}
