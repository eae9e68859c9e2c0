/** Powers of two and bit lengths. */
module Powers {

  function Pow2(n: nat): (p: nat)
    ensures p >= 1
  {
    if n == 0 then 1 else 2 * Pow2(n - 1)
  }

  lemma {:induction false} Pow2Sum(m: nat, n: nat)
    ensures Pow2(m + n) == Pow2(m) * Pow2(n)
  {
    if m > 0 {
      Pow2Sum(m - 1, n);
      assert Pow2(m + n) == 2 * (Pow2(m - 1) * Pow2(n)) == Pow2(m) * Pow2(n);
    }
  }

  lemma {:induction false} Pow2Monotone(m: nat, n: nat)
    requires m <= n
    ensures Pow2(m) <= Pow2(n)
    decreases n - m
  {
    if m < n {
      Pow2Monotone(m, n - 1);
    }
  }

  /** The number of binary digits: one more than the index of the highest set bit. */
  function BitLength(n: nat): nat {
    if n == 0 then 0 else 1 + BitLength(n / 2)
  }

  lemma {:induction false} BitLengthBounds(n: nat)
    requires n > 0
    ensures BitLength(n) > 0 && Pow2(BitLength(n) - 1) <= n < Pow2(BitLength(n))
  {
    if n > 1 {
      BitLengthBounds(n / 2);
    }
  }

  lemma {:induction false} BitLengthMonotone(a: nat, b: nat)
    requires a <= b
    ensures BitLength(a) <= BitLength(b)
  {
    if a > 0 {
      BitLengthMonotone(a / 2, b / 2);
    }
  }

  lemma {:induction false} BitLengthAtMost(n: nat, k: nat)
    requires n < Pow2(k)
    ensures BitLength(n) <= k
  {
    if n > 0 {
      BitLengthAtMost(n / 2, k - 1);
    }
  }
}
