/** Big integers as little-endian digit strings (src/api/python/erlang.py, src/api/go/erlang/erlang.go). */
module Bignum {
  import opened Bytes

  /** The little-endian base-256 digits of n, without leading zeros. */
  function Digits(n: nat): (ds: bytes) {
    if n == 0 then [] else [n % 256] + Digits(n / 256)
  }

  /** The number that a little-endian digit string denotes. */
  function Value(ds: bytes): (n: nat) {
    if ds == [] then 0 else ds[0] + 256 * Value(ds[1..])
  }

  /** The number that a big-endian digit string denotes. */
  function BigEndianValue(ds: bytes): (n: nat) {
    if ds == [] then 0 else BigEndianValue(ds[..|ds| - 1]) * 256 + ds[|ds| - 1]
  }

  /** `struct.unpack` of the formats '>H' and '>I' is the big-endian value. */
  lemma BigEndian16(s: bytes)
    requires |s| == 2
    ensures BigEndianValue(s) == FromBe16(s)
  {
    assert BigEndianValue(s[..1]) == BigEndianValue(s[..1][..0]) * 256 + s[0];
  }

  lemma BigEndian32(s: bytes)
    requires |s| == 4
    ensures BigEndianValue(s) == FromBe32(s)
    ensures BigEndianValue(s) < 256 ==> s[0] == 0 && s[1] == 0 && s[2] == 0 && s[3] == BigEndianValue(s)
  {
    BigEndian16(s[..2]);
    assert s[..3][..2] == s[..2];
    assert BigEndianValue(s) == (BigEndianValue(s[..2]) * 256 + s[2]) * 256 + s[3];
  }

  /** A host-order (little-endian) 32-bit word, as the instance protocol reads it. */
  function Le32(n: nat): (s: bytes)
    requires n <= MAX_UINT32
    ensures |s| == 4
  {
    Reversed(Be32(n))
  }

  function FromLe32(s: bytes): (n: nat)
    requires |s| == 4
    ensures n <= MAX_UINT32
  {
    Le32IsReversedBe32(s);
    Value(s)
  }

  lemma Le32IsReversedBe32(s: bytes)
    requires |s| == 4
    ensures Value(s) == FromBe32(Reversed(s))
  {
    BigEndian32(Reversed(s));
    BigEndianIsReversedLittle(Reversed(s));
    assert Reversed(Reversed(s)) == s;
  }

  /** Host-order packing and unpacking are inverse on 32 bits, in both directions. */
  lemma Le32Inverse(n: nat, s: bytes)
    requires n <= MAX_UINT32 && |s| == 4
    ensures FromLe32(Le32(n)) == n
    ensures Le32(FromLe32(s)) == s
  {
    Le32IsReversedBe32(Le32(n));
    Le32IsReversedBe32(s);
    assert Reversed(Le32(n)) == Be32(n);
    Be32Inverse(n, Reversed(s));
    assert Reversed(Reversed(s)) == s;
  }

  function Reversed(s: bytes): (r: bytes)
    ensures |r| == |s|
    ensures forall k :: 0 <= k < |s| ==> r[k] == s[|s| - 1 - k]
  {
    seq(|s|, k requires 0 <= k < |s| => s[|s| - 1 - k])
  }

  lemma {:induction false} ValueOfDigits(n: nat)
    ensures Value(Digits(n)) == n
  {
    if n != 0 {
      ValueOfDigits(n / 256);
      assert Digits(n)[1..] == Digits(n / 256);
    }
  }

  /** A digit string without a leading zero is the one `Digits` computes. */
  lemma {:induction false} DigitsOfValue(ds: bytes)
    requires ds == [] || ds[|ds| - 1] != 0
    ensures Digits(Value(ds)) == ds
    ensures ds != [] ==> Value(ds) > 0
  {
    if ds != [] {
      DigitsOfValue(ds[1..]);
      assert Value(ds) % 256 == ds[0] && Value(ds) / 256 == Value(ds[1..]);
      assert ds == [ds[0]] + ds[1..];
    }
  }

  /** No digit string that denotes n is shorter than Digits(n). */
  lemma {:induction false} DigitsAreMinimal(ds: bytes)
    ensures |Digits(Value(ds))| <= |ds|
  {
    if ds != [] {
      DigitsAreMinimal(ds[1..]);
      assert Value(ds) / 256 == Value(ds[1..]);
    }
  }

  lemma {:induction false} ValueSnoc(ds: bytes, d: byte)
    ensures Value([d] + ds) == d + 256 * Value(ds)
  {
    assert ([d] + ds)[1..] == ds;
  }

  lemma {:induction false} BigEndianIsReversedLittle(ds: bytes)
    ensures BigEndianValue(ds) == Value(Reversed(ds))
  {
    if ds != [] {
      var front, last := ds[..|ds| - 1], ds[|ds| - 1];
      BigEndianIsReversedLittle(front);
      assert Reversed(ds) == [last] + Reversed(front);
      ValueSnoc(Reversed(front), last);
    }
  }

  /**
   * Reversing the minimal big-endian magnitude of n (what `big.Int.Bytes` returns) gives exactly
   * the digits that the Python loop appends.
   */
  lemma {:induction false} ReversedMagnitude(n: nat, magnitude: bytes)
    requires BigEndianValue(magnitude) == n
    requires magnitude == [] || magnitude[0] != 0
    ensures Reversed(magnitude) == Digits(n)
  {
    BigEndianIsReversedLittle(magnitude);
    DigitsOfValue(Reversed(magnitude));
  }

  /** The `while bignum > 0` loop of `_bignum_to_binary`. */
  method DigitLoop(n: nat) returns (digits: bytes)
    ensures digits == Digits(n)
  {
    var bignum := n;
    digits := [];
    while bignum > 0
      invariant digits + Digits(bignum) == Digits(n)
    {
      digits := digits + [bignum % 256];
      bignum := bignum / 256;
    }
  }

  /** The Horner loop of the SMALL_BIG and LARGE_BIG branches: it reads data[i + j] down to data[i + 1]. */
  method HornerLoop(i: nat, j: nat, data: bytes) returns (bignum: nat)
    requires i + j < |data|
    ensures bignum == Value(data[i + 1..i + 1 + j])
  {
    bignum := 0;
    for bignumIndex := 0 to j
      invariant bignum == Value(data[i + 1 + j - bignumIndex..i + 1 + j])
    {
      var digit := data[i + j - bignumIndex];
      assert data[i + j - bignumIndex..i + 1 + j] == [digit] + data[i + 1 + j - bignumIndex..i + 1 + j];
      ValueSnoc(data[i + 1 + j - bignumIndex..i + 1 + j], digit);
      bignum := bignum * 256 + digit;
    }
  }

  /** The in-place reversal of Go's `bignumToBinary`. */
  method ReverseInPlace(value: array<byte>)
    modifies value
    ensures value[..] == Reversed(old(value[..]))
  {
    var length := value.Length;
    var half := length / 2;
    var iLast := length - 1;
    for i := 0 to half
      invariant forall k :: 0 <= k < i ==> value[k] == old(value[iLast - k])
      invariant forall k :: 0 <= k < i ==> value[iLast - k] == old(value[k])
      invariant forall k :: i <= k < length - i ==> value[k] == old(value[k])
    {
      var j := iLast - i;
      value[i], value[j] := value[j], value[i];
    }
    forall k | 0 <= k < length
      ensures value[k] == old(value[iLast - k])
    {
      if k >= half {
        assert value[iLast - (iLast - k)] == value[k];
      }
    }
  }
}
