/** The loops of `_binary_to_term_sequence` and of the map branch, with their cursor and their list. */
module DecoderLoops {
  import opened Bytes
  import opened Terms
  import opened Decoder

  function Prepend(sequence: seq<Term>, r: Parse<seq<Term>>): Parse<seq<Term>> {
    match r
    case Done(i, ts) => Done(i, sequence + ts)
    case Fail(e) => Fail(e)
  }

  lemma PrependNil(r: Parse<seq<Term>>)
    ensures Prepend([], r) == r
  {
    if r.Done? {
      assert [] + r.value == r.value;
    }
  }

  method BinaryToTermSequence(start: nat, length: nat, data: bytes) returns (r: Parse<seq<Term>>)
    ensures r == DecodeSequence(start, length, data)
  {
    hide Decode;
    var i := start;
    var sequence := [];
    PrependNil(DecodeSequence(start, length, data));
    for lengthIndex := 0 to length
      invariant DecodeSequence(start, length, data)
             == Prepend(sequence, DecodeSequence(i, length - lengthIndex, data))
    {
      SequenceStep(i, length - lengthIndex, data, sequence);
      match Decode(i, data)
      case Fail(error) => return Fail(error);
      case Done(next, element) =>
        i := next;
        sequence := sequence + [element];
    }
    assert sequence + [] == sequence;
    r := Done(i, sequence);
  }

  lemma SequenceStep(i: nat, length: nat, data: bytes, s: seq<Term>)
    requires length > 0
    ensures match Decode(i, data)
            case Done(j, t) => Prepend(s, DecodeSequence(i, length, data))
                            == Prepend(s + [t], DecodeSequence(j, length - 1, data))
            case Fail(e) => DecodeSequence(i, length, data) == Fail(e)
  {
    hide Decode;
    var head := Decode(i, data);
    if head.Done? {
      var rest := DecodeSequence(head.next, length - 1, data);
      if rest.Done? {
        assert s + ([head.value] + rest.value) == s + [head.value] + rest.value;
      }
    }
  }

  lemma PairStep(i: nat, length: nat, data: bytes, s: seq<Term>)
    requires length >= 2
    ensures match Decode(i, data)
            case Fail(e) => DecodeSequence(i, length, data) == Fail(e)
            case Done(j, key) =>
              match Decode(j, data)
              case Fail(e) => DecodeSequence(i, length, data) == Fail(e)
              case Done(n, value) =>
                Prepend(s, DecodeSequence(i, length, data))
                == Prepend(s + [key, value], DecodeSequence(n, length - 2, data))
  {
    hide Decode, DecodeSequence;
    SequenceStep(i, length, data, s);
    var key := Decode(i, data);
    if key.Done? {
      SequenceStep(key.next, length - 1, data, s + [key.value]);
      var value := Decode(key.next, data);
      if value.Done? {
        assert s + [key.value] + [value.value] == s + [key.value, value.value];
      }
    }
  }

  /** The PHP loop over `range(0, $length - 1)`: a key and its value in every round. */
  method BinaryToPairs(start: nat, length: nat, data: bytes) returns (r: Parse<seq<Term>>)
    ensures r == DecodeSequence(start, 2 * length, data)
  {
    hide Decode;
    var i := start;
    var pairs := [];
    PrependNil(DecodeSequence(start, 2 * length, data));
    for lengthIndex := 0 to length
      invariant DecodeSequence(start, 2 * length, data)
             == Prepend(pairs, DecodeSequence(i, 2 * (length - lengthIndex), data))
    {
      PairStep(i, 2 * (length - lengthIndex), data, pairs);
      var key := Decode(i, data);
      if key.Fail? {
        return Fail(key.error);
      }
      var value := Decode(key.next, data);
      if value.Fail? {
        return Fail(value.error);
      }
      i, pairs := value.next, pairs + [key.value, value.value];
      assert 2 * (length - lengthIndex) - 2 == 2 * (length - (lengthIndex + 1));
    }
    assert pairs + [] == pairs;
    r := Done(i, pairs);
  }
}
