/** The growable buffer of src/api/c/realloc_ptr.hpp, with a `size_t` of 64 bits and an `int` of 32. */
module ReallocPtrs {
  import opened Bytes

  const SIZE_RANGE := 0x1_0000_0000_0000_0000
  const HALF_RANGE := 0x8000_0000_0000_0000

  /** c doubled k times. */
  function Doubled(c: nat, k: nat): (p: nat)
    ensures p >= c
    decreases k
  {
    if k == 0 then c else Doubled(2 * c, k - 1)
  }

  function Pow2(k: nat): nat {
    Doubled(1, k)
  }

  ghost predicate IsPow2(n: nat) {
    exists k: nat :: n == Pow2(k)
  }

  /** The least doubling of a capacity that is above n. */
  function Grown(capacity: nat, n: nat): (grown: nat)
    requires capacity > 0
    ensures grown >= capacity && grown > n
    decreases if n >= capacity then n - capacity + 1 else 0
  {
    if n < capacity then capacity else Grown(2 * capacity, n)
  }

  lemma {:induction false} DoubledStep(c: nat, k: nat)
    ensures Doubled(c, k + 1) == 2 * Doubled(c, k)
    decreases k
  {
    if k > 0 {
      DoubledStep(2 * c, k - 1);
    }
  }

  lemma {:induction false} DoubledTwice(c: nat, j: nat, k: nat)
    ensures Doubled(Doubled(c, j), k) == Doubled(c, j + k)
    decreases j
  {
    if j > 0 {
      DoubledTwice(2 * c, j - 1, k);
    }
  }

  /** `Grown` is a doubling of the capacity, at most 2n, and no doubling above n is smaller. */
  lemma {:induction false} GrownIsLeast(capacity: nat, n: nat, k: nat)
    requires capacity > 0
    ensures exists j: nat :: Grown(capacity, n) == Doubled(capacity, j)
    ensures n >= capacity ==> 2 * capacity <= Grown(capacity, n) <= 2 * n
    ensures Doubled(capacity, k) > n ==> Grown(capacity, n) <= Doubled(capacity, k)
    decreases if n >= capacity then n - capacity + 1 else 0
  {
    if n < capacity {
      assert Grown(capacity, n) == Doubled(capacity, 0);
    } else {
      GrownIsLeast(2 * capacity, n, if k > 0 then k - 1 else 0);
      var j: nat :| Grown(2 * capacity, n) == Doubled(2 * capacity, j);
      assert Grown(capacity, n) == Doubled(capacity, j + 1);
    }
  }

  /**
   * With a maximum that is itself a doubling of the capacity, a request up to the maximum gets more
   * than the maximum exactly when it asks for the maximum.
   */
  lemma GrownExceedsMaximum(capacity: nat, k: nat, n: nat)
    requires capacity > 0 && n <= Doubled(capacity, k)
    ensures Grown(capacity, n) > Doubled(capacity, k) <==> n == Doubled(capacity, k)
  {
    GrownIsLeast(capacity, n, k);
  }

  /** Growing in two steps is growing once. */
  lemma {:induction false} GrownTwice(capacity: nat, m: nat, n: nat)
    requires capacity > 0 && m <= n
    ensures Grown(Grown(capacity, m), n) == Grown(capacity, n)
    decreases if m >= capacity then m - capacity + 1 else 0
  {
    if m >= capacity {
      GrownTwice(2 * capacity, m, n);
    }
  }

  lemma GrownIsPow2(capacity: nat, n: nat)
    requires capacity > 0 && IsPow2(capacity)
    ensures IsPow2(Grown(capacity, n))
  {
    GrownIsLeast(capacity, n, 0);
    var k: nat :| capacity == Pow2(k);
    var j: nat :| Grown(capacity, n) == Doubled(capacity, j);
    DoubledTwice(1, k, j);
    assert Grown(capacity, n) == Pow2(k + j);
  }

  /** Doubling beyond the range of `size_t` leaves zero. */
  lemma {:induction false} PowWraps(k: nat)
    requires k >= 64
    ensures Pow2(k) % SIZE_RANGE == 0
    decreases k
  {
    hide Doubled;
    Powers();
    if k > 64 {
      DoubledStep(1, k - 1);
      PowWraps(k - 1);
      TwiceWraps(Pow2(k - 1), Pow2(k));
    }
  }

  lemma TwiceWraps(a: nat, b: nat)
    requires b == 2 * a && a % SIZE_RANGE == 0
    ensures b % SIZE_RANGE == 0
  {
  }

  lemma {:induction false} DoubledScales(c: nat, k: nat)
    ensures Doubled(c, k) == c * Pow2(k)
    decreases k
  {
    if k > 0 {
      DoubledScales(2 * c, k - 1);
      DoubledScales(2, k - 1);
    }
  }

  lemma PowSum(j: nat, k: nat)
    ensures Pow2(j + k) == Pow2(j) * Pow2(k)
  {
    DoubledTwice(1, j, k);
    DoubledScales(Pow2(j), k);
  }

  lemma Powers()
    ensures Pow2(0) == 1 && Pow2(1) == 2
    ensures Pow2(30) == 0x4000_0000 && Pow2(31) == 0x8000_0000 && Pow2(32) == 0x1_0000_0000
    ensures Pow2(63) == HALF_RANGE && Pow2(64) == SIZE_RANGE
  {
    assert Pow2(5) == 32;
    PowSum(5, 5);
    PowSum(10, 10);
    PowSum(20, 10);
    DoubledStep(1, 30);
    DoubledStep(1, 31);
    PowSum(32, 31);
    PowSum(32, 32);
  }

  /**
   * The loop of `reserve` doubles in a `size_t`. It finds a size above n exactly when n is below
   * half of the range; for any other n the size becomes zero and stays zero.
   */
  lemma ReserveEnds(a: nat, n: nat)
    requires a < 64 && n < SIZE_RANGE
    ensures (exists k: nat :: Doubled(Pow2(a), k) % SIZE_RANGE > n) <==> n < HALF_RANGE
  {
    Powers();
    if n < HALF_RANGE {
      DoubledTwice(1, a, 63 - a);
      assert Doubled(Pow2(a), 63 - a) % SIZE_RANGE > n;
    } else {
      forall k: nat
        ensures Doubled(Pow2(a), k) % SIZE_RANGE <= n
      {
        DoubledTwice(1, a, k);
        if a + k < 64 {
          PowOrder(a + k, 63);
        } else {
          PowWraps(a + k);
        }
      }
    }
  }

  /**
   * `1 << bits` for an `int`, converted to `size_t`: the shift by 31 gives the least `int`, whose
   * sign bit is extended.
   */
  function ShiftedInt(bits: nat): (value: nat)
    requires bits < 32
    ensures value < SIZE_RANGE
  {
    if bits < 31 then
      PowOrder(bits, 30);
      Powers();
      Pow2(bits)
    else SIZE_RANGE - 0x8000_0000
  }

  /**
   * The least power of two that is not below a number of bytes, and 2 for none. From 2^31 bytes on
   * the shift overflows, and the result is the same for all of them.
   */
  ghost predicate LeastPow2(value: nat, total: nat) {
    && (total < 0x8000_0000 ==> IsPow2(value) && total <= value <= 0x8000_0000)
    && (total < 0x8000_0000 ==> forall k: nat :: Pow2(k) >= total > 0 ==> value <= Pow2(k))
    && (total == 0 ==> value == 2)
    && (total >= 0x8000_0000 ==> value == SIZE_RANGE - 0x1_0000_0000)
  }

  /** `greater_pow2`. */
  method GreaterPow2(n: nat, elementSize: nat) returns (value: nat)
    requires n * elementSize < 0x1_0000_0000
    ensures LeastPow2(value, n * elementSize)
  {
    hide LeastPow2, Between, Pow2, ShiftedInt;
    var totalSize := n * elementSize;
    var bits := 0;
    var div2 := totalSize;
    BetweenFirst(totalSize);
    while div2 > 1
      invariant if totalSize > 0 then div2 > 0 else div2 == 0 && bits == 0
      invariant Between(bits, div2, totalSize)
    {
      Halving(bits, div2, totalSize);
      div2 := div2 / 2;
      bits := bits + 1;
    }
    BitsOf(totalSize, bits, div2);
    ShiftIsLeast(totalSize, bits);
    value := ShiftedInt(bits);
    if value != totalSize {
      value := 2 * value % SIZE_RANGE;
    }
  }

  /** The number of bytes, shifted right by `bits`, is `div2`. */
  ghost predicate Between(bits: nat, div2: nat, total: nat) {
    Pow2(bits) * div2 <= total < Pow2(bits) * (div2 + 1)
  }

  lemma BetweenFirst(total: nat)
    ensures Between(0, total, total)
  {
  }

  lemma Halving(bits: nat, div2: nat, total: nat)
    requires Between(bits, div2, total)
    ensures Between(bits + 1, div2 / 2, total)
  {
    DoubledStep(1, bits);
    HalvingBy(Pow2(bits), div2, total);
  }

  /** After the loop the number of bytes is between two successive powers of two. */
  lemma BitsOf(total: nat, bits: nat, div2: nat)
    requires total < 0x1_0000_0000 && div2 <= 1 && Between(bits, div2, total)
    requires if total > 0 then div2 > 0 else div2 == 0 && bits == 0
    ensures bits < 32 && (bits == 31 <==> total >= 0x8000_0000)
    ensures if total > 0 then Pow2(bits) <= total < 2 * Pow2(bits) else bits == 0
  {
    Powers();
    PowOrder(bits, 32);
    PowOrder(bits, 31);
  }

  lemma ShiftIsLeast(total: nat, bits: nat)
    requires bits < 32 && (bits == 31 <==> total >= 0x8000_0000)
    requires if total > 0 then Pow2(bits) <= total < 2 * Pow2(bits) else bits == 0
    ensures var value := ShiftedInt(bits);
            LeastPow2(if value == total then value else 2 * value % SIZE_RANGE, total)
  {
    hide Doubled;
    Powers();
    PowOrder(bits, 30);
    DoubledStep(1, bits);
    assert IsPow2(Pow2(bits)) && IsPow2(Pow2(bits + 1));
    forall k: nat | Pow2(k) >= total > 0
      ensures Pow2(k) == Pow2(bits) || Pow2(k) >= 2 * Pow2(bits)
    {
      PowOrder(bits, k);
    }
  }

  lemma HalvingBy(value: nat, div2: nat, total: nat)
    requires value * div2 <= total < value * (div2 + 1)
    ensures (2 * value) * (div2 / 2) <= total < (2 * value) * (div2 / 2 + 1)
  {
    var h := div2 / 2;
    assert (2 * value) * h == value * (2 * h);
    assert (2 * value) * (h + 1) == value * (2 * h + 2);
    MulOrder(value, 2 * h, div2);
    MulOrder(value, div2 + 1, 2 * h + 2);
  }

  lemma MulOrder(a: nat, b: nat, c: nat)
    requires b <= c
    ensures a * b <= a * c
  {
  }

  lemma {:induction false} PowOrder(j: nat, k: nat)
    ensures j <= k ==> Pow2(j) <= Pow2(k)
    ensures j < k ==> 2 * Pow2(j) <= Pow2(k)
    ensures k < j ==> 2 * Pow2(k) <= Pow2(j)
    decreases j + k
  {
    if j < k {
      DoubledStep(1, k - 1);
      PowOrder(j, k - 1);
    } else if k < j {
      DoubledStep(1, j - 1);
      PowOrder(j - 1, k);
    }
  }

  /** Whether a buffer of this capacity and maximum takes n bytes, given the answer of the allocator. */
  predicate Takes(size: nat, maxSize: nat, granted: bool, n: nat)
    requires size > 0
  {
    n < size || (n <= maxSize && granted && Grown(size, n) < HALF_RANGE)
  }

  /** Requests below a quarter of the address range depend on the maximum and the allocator alone. */
  lemma TakesExactly(size: nat, maxSize: nat, granted: bool, n: nat)
    requires size > 0 && n < HALF_RANGE / 2
    ensures Takes(size, maxSize, granted, n) <==> n < size || (n <= maxSize && granted)
  {
    GrownIsLeast(size, n, 0);
  }

  class ReallocPtr {
    const initialSize: nat
    const maxSize: nat
    var size: nat
    var data: array<byte>
    /** The bytes that all reallocations so far had to move. */
    ghost var moved: nat

    /**
     * The capacity is a power of two that grew from the initial one; everything ever moved is less
     * than the present capacity; the capacity stays within twice the maximum. No allocator gives out
     * half of the address range.
     */
    ghost predicate Valid()
      reads this
    {
      && size == data.Length && size > 0 && initialSize > 0
      && IsPow2(size) && size < HALF_RANGE
      && moved + initialSize <= size
      && (size == initialSize || size <= 2 * maxSize)
    }

    constructor (initial: nat, max: nat, elementSize: nat)
      requires elementSize > 0
      requires initial * elementSize < 0x8000_0000 && max * elementSize < 0x1_0000_0000
      ensures Valid() && fresh(data)
      ensures initialSize >= initial * elementSize && maxSize >= max * elementSize
      ensures max * elementSize < 0x8000_0000 ==> IsPow2(maxSize) && maxSize <= 0x8000_0000
      ensures max * elementSize >= 0x8000_0000 ==> maxSize == SIZE_RANGE - 0x1_0000_0000
      ensures size == initialSize && moved == 0
    {
      var i := GreaterPow2(initial, elementSize);
      var m := GreaterPow2(max, elementSize);
      initialSize, maxSize := i, m;
      size := i;
      data := new byte[i];
      moved := 0;
    }

    /** realloc: a larger block with the old contents in front, unless the allocator refuses. */
    method Realloc(newSize: nat, granted: bool) returns (ok: bool)
      requires Valid() && newSize >= 2 * size && IsPow2(newSize) && newSize <= 2 * maxSize
      modifies this`size, this`data, this`moved
      ensures Valid() && ok == (granted && newSize < HALF_RANGE)
      ensures ok ==> fresh(data) && size == newSize && data[..old(size)] == old(data[..])
      ensures ok ==> moved == old(moved + size)
      ensures !ok ==> data == old(data) && size == old(size) && moved == old(moved)
      ensures data != old(data) ==> fresh(data)
    {
      ok := granted && newSize < HALF_RANGE;
      if ok {
        var tmp := new byte[newSize];
        forall k | 0 <= k < size {
          tmp[k] := data[k];
        }
        assert tmp[..size] == data[..];
        moved := moved + size;
        data := tmp;
        size := newSize;
      }
    }

    method Reserve(n: nat, granted: bool) returns (ok: bool)
      requires Valid() && n < HALF_RANGE
      modifies this`size, this`data, this`moved
      ensures Valid()
      ensures ok <==> Takes(old(size), maxSize, granted, n)
      ensures ok ==> size == Grown(old(size), n) && size > n && data[..old(size)] == old(data[..])
      ensures n < old(size) || !ok ==> data == old(data) && size == old(size) && moved == old(moved)
      ensures data[..] == old(data[..]) || fresh(data)
      ensures data != old(data) ==> fresh(data)
    {
      if n < size {
        return true;
      }
      if n > maxSize {
        return false;
      }
      var newSize := size;
      while n >= newSize
        invariant newSize >= size && newSize > 0
        invariant newSize > size ==> newSize >= 2 * size && newSize <= 2 * n
        invariant Grown(newSize, n) == Grown(size, n)
        decreases n - newSize
      {
        newSize := 2 * newSize;
      }
      GrownIsPow2(size, n);
      ok := Realloc(newSize, granted);
    }

    method Grow(granted: bool) returns (ok: bool)
      requires Valid()
      modifies this`size, this`data, this`moved
      ensures Valid()
      ensures ok <==> 2 * old(size) <= maxSize && granted && 2 * old(size) < HALF_RANGE
      ensures ok ==> size == 2 * old(size) && data[..old(size)] == old(data[..])
      ensures !ok ==> data == old(data) && size == old(size) && moved == old(moved)
      ensures data != old(data) ==> fresh(data)
    {
      var newSize := 2 * size;
      if newSize > maxSize {
        return false;
      }
      ghost var k: nat :| size == Pow2(k);
      DoubledStep(1, k);
      assert newSize == Pow2(k + 1);
      ok := Realloc(newSize, granted);
    }

    /** `copy(src, iSrc, nSrc, iDst)`; the other two overloads copy from 0, or all of src. */
    method Copy(src: ReallocPtr, iSrc: nat, nSrc: nat, iDst: nat, granted: bool) returns (ok: bool)
      requires Valid() && src.Valid() && src != this && src.data != data
      requires iSrc + nSrc <= src.size && iDst + nSrc < HALF_RANGE
      modifies this`size, this`data, this`moved, data
      ensures Valid()
      ensures ok <==> Takes(old(size), maxSize, granted, iDst + nSrc)
      ensures ok ==> size == Grown(old(size), iDst + nSrc)
      ensures ok ==> data[iDst..iDst + nSrc] == src.data[iSrc..iSrc + nSrc]
      ensures ok ==> forall k :: 0 <= k < old(size) && !(iDst <= k < iDst + nSrc) ==> data[k] == old(data[k])
      ensures !ok ==> data == old(data) && data[..] == old(data[..])
      ensures data != old(data) ==> fresh(data)
    {
      ok := Reserve(iDst + nSrc, granted);
      if ok {
        assert forall k :: 0 <= k < old(size) ==> data[k] == data[..old(size)][k] == old(data[k]);
        forall k | 0 <= k < nSrc {
          data[iDst + k] := src.data[iSrc + k];
        }
      }
    }

    /** `move`: the source range is read before it is written, as by memmove. */
    method Move(iSrc: nat, nSrc: nat, iDst: nat, granted: bool) returns (ok: bool)
      requires Valid() && iSrc + nSrc <= size && iDst + nSrc < HALF_RANGE
      modifies this`size, this`data, this`moved, data
      ensures Valid()
      ensures ok <==> Takes(old(size), maxSize, granted, iDst + nSrc)
      ensures ok ==> size == Grown(old(size), iDst + nSrc)
      ensures ok ==> data[iDst..iDst + nSrc] == old(data[iSrc..iSrc + nSrc])
      ensures ok ==> forall k :: 0 <= k < old(size) && !(iDst <= k < iDst + nSrc) ==> data[k] == old(data[k])
      ensures !ok ==> data == old(data) && data[..] == old(data[..])
      ensures data != old(data) ==> fresh(data)
    {
      ok := Reserve(iDst + nSrc, granted);
      if ok {
        assert forall k :: 0 <= k < old(size) ==> data[k] == data[..old(size)][k] == old(data[k]);
        forall k | 0 <= k < nSrc {
          data[iDst + k] := data[iSrc + k];
        }
      }
    }
  }
}
