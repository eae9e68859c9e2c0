/** The size classes of the kernel heap (sys/kheap.cpp). Sizes are in bytes. */
module HeapBins {
  import opened Powers

  const NUM_BINS := 256
  const GRANULE := 32
  /** Below this heap size, every bin has its own bit in the 64-bit bitmap. */
  const BITMAP_LIMIT := 0x400_0000
  const PMM_THRESHOLD := 0x4000
  const HEADER := 32

  /** Bins 32 bytes apart below 1 KiB, then two for every power of two. */
  function BinIndex(size: nat): nat
  {
    if size < 1024 then size / 32
    else
      assert BitLength(size) >= 11 by { BitLengthMonotone(1024, size); }
      32 + (BitLength(size) - 11) * 2 + (size / Pow2(BitLength(size) - 2)) % 2
  }

  /** The bit below the highest one. */
  lemma SecondBit(size: nat)
    requires size >= 1024
    ensures BitLength(size) >= 11
    ensures (size / Pow2(BitLength(size) - 2)) % 2 == size / Pow2(BitLength(size) - 2) - 2
  {
    BitLengthMonotone(1024, size);
    BitLengthBounds(size);
    var p := Pow2(BitLength(size) - 2);
    assert 2 * p <= size < 4 * p;
    Quotient(size, p);
  }

  lemma Quotient(n: nat, p: nat)
    requires p > 0 && 2 * p <= n < 4 * p
    ensures 2 <= n / p < 4
  {
    assert n == p * (n / p) + n % p;
  }

  lemma QuotientMonotone(a: nat, b: nat, p: nat)
    requires p > 0 && a <= b
    ensures a / p <= b / p
  {
    assert p * (a / p) <= a && b < p * (b / p) + p == p * (b / p + 1);
    MulLess(p, a / p, b / p + 1);
  }

  lemma MulLess(p: nat, x: nat, y: nat)
    requires p * x < p * y
    ensures x < y
  {
    assert p * y - p * x == p * (y - x);
  }

  lemma BinMonotone(a: nat, b: nat)
    requires a <= b
    ensures BinIndex(a) <= BinIndex(b)
  {
    if 1024 <= a {
      SecondBit(a);
      SecondBit(b);
      BitLengthMonotone(a, b);
      if BitLength(a) == BitLength(b) {
        QuotientMonotone(a, b, Pow2(BitLength(a) - 2));
      }
    } else if 1024 <= b {
      SecondBit(b);
    }
  }

  lemma BinBound(size: nat)
    requires size < BITMAP_LIMIT
    ensures BinIndex(size) < 64
  {
    if size >= 1024 {
      SecondBit(size);
      assert Pow2(13) == 0x2000;
      Pow2Sum(13, 13);
      BitLengthAtMost(size, 26);
    }
  }

  /** A chunk of `a` bytes is in no higher class than one of `b` bytes: below 1 KiB, it is not larger by
      a granule; from there on, no power of two lies between them, and no three times one. */
  ghost predicate NoHigher(a: nat, b: nat) {
    if b < 1024 then a / 32 <= b / 32 else forall e: nat :: !Parts(b, a, e)
  }

  predicate Parts(b: nat, a: nat, e: nat) { b < Pow2(e) <= a || b < 3 * Pow2(e) <= a }

  /** The bins are in the order of the classes. */
  lemma BinsInOrder(a: nat, b: nat)
    ensures BinIndex(a) <= BinIndex(b) <==> NoHigher(a, b)
  {
    hide BinIndex, Parts;
    if b < 1024 {
      SmallBin(b);
      if a < 1024 {
        SmallBin(a);
      } else {
        LargeBin(a);
      }
    } else if a <= b {
      BinMonotone(a, b);
      forall e: nat
        ensures !Parts(b, a, e)
      {
        NotParted(b, a, e);
      }
    } else {
      LargeInOrder(a, b);
    }
  }

  lemma NotParted(b: nat, a: nat, e: nat)
    requires a <= b
    ensures !Parts(b, a, e)
  {
  }

  lemma SmallBin(size: nat)
    requires size < 1024
    ensures BinIndex(size) == size / 32 < 32
  {
  }

  lemma LargeInOrder(a: nat, b: nat)
    requires 1024 <= b < a
    ensures BinIndex(a) <= BinIndex(b) <==> forall e: nat :: !Parts(b, a, e)
  {
    LargeBin(a);
    LargeBin(b);
    var m, n := BitLength(a), BitLength(b);
    BitLengthMonotone(b, a);
    hide BinIndex, BitLength, Pow2, Parts;
    if n < m {
      Pow2Monotone(n, m - 1);
      Parted(b, a, n);
      assert Parts(b, a, n);
    } else if 3 * Pow2(n - 2) <= a && b < 3 * Pow2(n - 2) {
      Parted(b, a, n - 2);
      assert Parts(b, a, n - 2);
    } else {
      forall e: nat
        ensures !Parts(b, a, e)
      {
        NoneBetween(a, b, n, e);
      }
    }
  }

  lemma Parted(b: nat, a: nat, e: nat)
    requires b < Pow2(e) <= a || b < 3 * Pow2(e) <= a
    ensures Parts(b, a, e)
  {
  }

  /** The bin of a large chunk, by the powers of two around its size. */
  lemma LargeBin(size: nat)
    requires size >= 1024
    ensures var n := BitLength(size);
            && n >= 11 && Pow2(n - 1) <= size < Pow2(n) && Pow2(n) == 4 * Pow2(n - 2) && Pow2(n - 1) == 2 * Pow2(n - 2)
            && BinIndex(size) == 32 + 2 * (n - 11) + if size < 3 * Pow2(n - 2) then 0 else 1
  {
    var n := BitLength(size);
    BitLengthBounds(size);
    SecondBit(size);
    Doubled(n);
    hide Pow2, BitLength;
    HalfOrMore(size, Pow2(n - 2));
  }

  lemma Doubled(n: nat)
    requires n >= 2
    ensures Pow2(n) == 4 * Pow2(n - 2) && Pow2(n - 1) == 2 * Pow2(n - 2)
  {
  }

  lemma HalfOrMore(n: nat, p: nat)
    requires p > 0 && 2 * p <= n < 4 * p
    ensures n / p - 2 == if n < 3 * p then 0 else 1
  {
    Quotient(n, p);
    assert n == p * (n / p) + n % p;
  }

  lemma NoneBetween(a: nat, b: nat, n: nat, e: nat)
    requires n >= 2 && 2 * Pow2(n - 2) <= b <= a < 4 * Pow2(n - 2)
    requires a < 3 * Pow2(n - 2) || 3 * Pow2(n - 2) <= b
    ensures !Parts(b, a, e)
  {
    Doubled(n);
    if e <= n - 1 {
      Pow2Monotone(e, n - 1);
    } else {
      Pow2Monotone(n, e);
    }
    if e <= n - 3 {
      Pow2Monotone(e + 1, n - 2);
    } else if e >= n - 1 {
      Pow2Monotone(n - 1, e);
    }
  }
}
