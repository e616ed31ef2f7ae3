/** When `term_to_binary` of src/api/python/erlang.py has bytes for a term, and when it raises which exception. */
module Encodability {
  import opened Bytes
  import opened Terms
  import opened Encoder
  import Bignum

  /** Some digit string of a length that the large format can name denotes the number. */
  ghost predicate Representable(n: nat) {
    exists digits: bytes :: |digits| <= MAX_UINT32 && Bignum.Value(digits) == n
  }

  /** Names are short enough for two bytes of length. */
  predicate NameFits(a: Atom) {
    !a.CacheRef? ==> |a.name| <= MAX_UINT16
  }

  /**
   * No size in the term is beyond its format for one of the three reasons: names and reference ids
   * of more than 65535 bytes or words; strings, binaries, digits and counts of more than 2^32 - 1;
   * and a flat sequence of map entries that lacks a value.
   */
  ghost predicate Fits(t: Term, e: OutputError)
    decreases t, 0
  {
    match t
    case Str(s) => e.Uint32Overflow? ==> |s| <= MAX_UINT32
    case PlainList(ts) => (e.Uint32Overflow? ==> |ts| <= MAX_UINT32) && AllFit(ts, e)
    case Tuple(ts) => (e.Uint32Overflow? ==> |ts| <= MAX_UINT32) && AllFit(ts, e)
    case ErlangList(ts, _) => (e.Uint32Overflow? ==> |ts| <= MAX_UINT32) && AllFit(ts, e)
    case Map(ts) =>
      && (e.UnpairedMap? ==> |ts| % 2 == 0) && (e.Uint32Overflow? ==> |ts| / 2 <= MAX_UINT32)
      && AllFit(ts, e)
    case Integer(n) => e.Uint32Overflow? ==> Representable(if n < 0 then -n else n)
    case AtomTerm(a) => e.Uint16Overflow? ==> NameFits(a)
    case Binary(octets, _) => e.Uint32Overflow? ==> |octets| <= MAX_UINT32
    case Reference(node, id, _) => e.Uint16Overflow? ==> NameFits(node) && |id| / 4 <= MAX_UINT16
    case Port(node, _, _) => e.Uint16Overflow? ==> NameFits(node)
    case Pid(node, _, _, _) => e.Uint16Overflow? ==> NameFits(node)
    case _ => true
  }

  ghost predicate AllFit(ts: seq<Term>, e: OutputError)
    decreases ts, 0
  {
    forall k :: 0 <= k < |ts| ==> Fits(ts[k], e)
  }

  ghost predicate Encodable(t: Term) {
    Fits(t, Uint16Overflow) && Fits(t, Uint32Overflow) && Fits(t, UnpairedMap)
  }

  ghost predicate AllEncodable(ts: seq<Term>) {
    AllFit(ts, Uint16Overflow) && AllFit(ts, Uint32Overflow) && AllFit(ts, UnpairedMap)
  }

  lemma RepresentableDigits(n: nat)
    ensures Representable(n) <==> |Bignum.Digits(n)| <= MAX_UINT32
  {
    Bignum.ValueOfDigits(n);
    if Representable(n) {
      var digits: bytes :| |digits| <= MAX_UINT32 && Bignum.Value(digits) == n;
      Bignum.DigitsAreMinimal(digits);
    }
  }

  lemma SmallRepresentable(n: nat)
    requires n <= 0x8000_0000
    ensures Representable(n)
  {
    RepresentableDigits(n);
    DigitsOfSmall(n);
  }

  lemma DigitsOfSmall(n: nat)
    requires n <= 0x8000_0000
    ensures |Bignum.Digits(n)| <= 4
  {
    var a, b, c, d := n / 256, n / 256 / 256, n / 256 / 256 / 256, n / 256 / 256 / 256 / 256;
    assert d == 0 && Bignum.Digits(d) == [];
    assert |Bignum.Digits(c)| <= 1 && |Bignum.Digits(b)| <= 2 && |Bignum.Digits(a)| <= 3;
  }

  lemma IntegerAnswers(n: int)
    ensures EncodeInteger(n).Ok? <==> Representable(if n < 0 then -n else n)
    ensures EncodeInteger(n).Err? ==> EncodeInteger(n).error.Uint32Overflow?
  {
    var m := if n < 0 then -n else n;
    RepresentableDigits(m);
    if -0x8000_0000 <= n < 0x8000_0000 {
      SmallRepresentable(m);
    }
  }

  lemma AtomAnswers(a: Atom)
    ensures EncodeAtom(a).Ok? <==> NameFits(a)
    ensures EncodeAtom(a).Err? ==> EncodeAtom(a).error.Uint16Overflow?
  {
  }

  /** Every term: bytes when every size fits, and an exception only for a reason that holds. */
  lemma {:induction false} EncodeAnswers(t: Term)
    ensures Encode(t).Ok? ==> Encodable(t)
    ensures Encode(t).Err? ==> !Fits(t, Encode(t).error)
    decreases t, 0
  {
    hide Representable;
    match t
    case PlainList(ts) =>
      ListAnswers(ts);
      assert Encode(t) == EncodeList(ts, false);
    case Tuple(ts) =>
      ListAnswers(ts);
      assert Encode(t) == EncodeTuple(ts);
    case Map(ts) =>
      ListAnswers(ts);
      assert Encode(t) == EncodeMap(ts);
    case ErlangList(ts, improper) =>
      ListAnswers(ts);
      assert Encode(t) == EncodeList(ts, improper);
    case Integer(n) => IntegerAnswers(n);
    case AtomTerm(a) => AtomAnswers(a);
    case Reference(node, _, _) => AtomAnswers(node);
    case Port(node, _, _) => AtomAnswers(node);
    case Pid(node, _, _, _) => AtomAnswers(node);
    case _ =>
  }

  lemma {:induction false} ListAnswers(ts: seq<Term>)
    ensures EncodeAll(ts).Ok? ==> AllEncodable(ts)
    ensures EncodeAll(ts).Err? ==> !AllFit(ts, EncodeAll(ts).error)
    decreases ts, 0
  {
    hide Encode, Fits;
    if ts != [] {
      EncodeAnswers(ts[0]);
      ListAnswers(ts[1..]);
      AllFitCons(ts, Uint16Overflow);
      AllFitCons(ts, Uint32Overflow);
      AllFitCons(ts, UnpairedMap);
    }
  }

  lemma AllFitCons(ts: seq<Term>, e: OutputError)
    requires ts != []
    ensures AllFit(ts, e) <==> Fits(ts[0], e) && AllFit(ts[1..], e)
  {
    hide Fits;
    assert forall k :: 0 < k < |ts| ==> ts[k] == ts[1..][k - 1];
  }

  /**
   * `term_to_binary` has bytes for a term exactly when every size in it fits its format, and raises
   * the exception of a size that does not.
   */
  lemma EncodesExactly(t: Term)
    ensures Encode(t).Ok? <==> Encodable(t)
    ensures TermToBinary(t).Ok? <==> Encodable(t)
    ensures TermToBinary(t).Err? ==> !Fits(t, TermToBinary(t).error)
  {
    hide Encode, Fits;
    EncodeAnswers(t);
    if Encode(t).Err? {
      match Encode(t).error
      case Uint16Overflow =>
      case Uint32Overflow =>
      case UnpairedMap =>
    }
  }
}
