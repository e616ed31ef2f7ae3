/** Bytes, fixed-width integers and the result types shared by every module. */
module Bytes {

  type byte = b: int | 0 <= b < 256

  type bytes = seq<byte>

  const MAX_UINT8 := 0xFF
  const MAX_UINT16 := 0xFFFF
  const MAX_UINT32 := 0xFFFF_FFFF

  /** A computation that yields a value or the error that the source raises. */
  datatype Result<+T, +E> = Ok(value: T) | Err(error: E) {
    predicate IsFailure() {
      Err?
    }

    function PropagateFailure<U>(): Result<U, E>
      requires Err?
    {
      Err(error)
    }

    function Extract(): T
      requires Ok?
    {
      value
    }
  }

  /** `struct.pack('>H', n)`. */
  function Be16(n: nat): (s: bytes)
    requires n <= MAX_UINT16
    ensures |s| == 2
  {
    [n / 256, n % 256]
  }

  /** `struct.pack('>I', n)`. */
  function Be32(n: nat): (s: bytes)
    requires n <= MAX_UINT32
    ensures |s| == 4
  {
    Be16(n / 0x1_0000) + Be16(n % 0x1_0000)
  }

  /** `struct.unpack('>H', s)`. */
  function FromBe16(s: bytes): (n: nat)
    requires |s| == 2
    ensures n <= MAX_UINT16
  {
    var high: nat := s[0];
    high * 256 + s[1]
  }

  /** `struct.unpack('>I', s)`. */
  function FromBe32(s: bytes): (n: nat)
    requires |s| == 4
    ensures n <= MAX_UINT32
  {
    FromBe16(s[..2]) * 0x1_0000 + FromBe16(s[2..])
  }

  /** A 32-bit pattern read as a two's complement number: the `'>i'` format. */
  function Signed32(n: nat): (i: int)
    requires n <= MAX_UINT32
    ensures -0x8000_0000 <= i < 0x8000_0000
  {
    if n < 0x8000_0000 then n else n - 0x1_0000_0000
  }

  function Unsigned32(i: int): (n: nat)
    requires -0x8000_0000 <= i < 0x8000_0000
    ensures n <= MAX_UINT32
    ensures Signed32(n) == i
  {
    if i < 0 then i + 0x1_0000_0000 else i
  }

  /** Header packing and unpacking are inverse on all of 16 and 32 bits, in both directions. */
  lemma Be16Inverse(n: nat, s: bytes)
    requires n <= MAX_UINT16 && |s| == 2
    ensures FromBe16(Be16(n)) == n
    ensures Be16(FromBe16(s)) == s
  {
  }

  lemma Be32Inverse(n: nat, s: bytes)
    requires n <= MAX_UINT32 && |s| == 4
    ensures FromBe32(Be32(n)) == n
    ensures Be32(FromBe32(s)) == s
  {
    assert Be32(n)[..2] == Be16(n / 0x1_0000) && Be32(n)[2..] == Be16(n % 0x1_0000);
    Be16Inverse(n / 0x1_0000, s[..2]);
    Be16Inverse(n % 0x1_0000, s[2..]);
    var high, low := FromBe16(s[..2]), FromBe16(s[2..]);
    assert FromBe32(s) / 0x1_0000 == high && FromBe32(s) % 0x1_0000 == low;
    assert s == s[..2] + s[2..];
  }

  lemma Associative<T>(a: seq<T>, b: seq<T>, c: seq<T>)
    ensures a + b + c == a + (b + c)
  {
  }
}
