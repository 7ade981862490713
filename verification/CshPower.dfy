// Powers of two.
module CshPower {

  function Pow2(n: nat): nat {
    if n == 0 then 1 else 2 * Pow2(n - 1)
  }

  lemma {:induction false} PowMonotone(m: nat, n: nat)
    requires m <= n
    ensures Pow2(m) <= Pow2(n)
    decreases n - m
  {
    if m < n {
      PowMonotone(m + 1, n);
    }
  }

  lemma {:induction false} PowSum(m: nat, n: nat)
    ensures Pow2(m + n) == Pow2(m) * Pow2(n)
  {
    if m > 0 {
      PowSum(m - 1, n);
    }
  }

  // The largest k with Pow2(k) <= x, for x at least 1.
  function Log2(x: nat): nat {
    if x <= 1 then 0 else 1 + Log2(x / 2)
  }

  lemma {:induction false} LogPow(x: nat)
    requires x >= 1
    ensures Pow2(Log2(x)) <= x < Pow2(Log2(x) + 1)
  {
    if x > 1 {
      LogPow(x / 2);
    }
  }

  // The bounds determine the logarithm.
  lemma LogIs(x: nat, k: nat)
    requires Pow2(k) <= x < Pow2(k + 1)
    ensures x >= 1 && Log2(x) == k
  {
    PowMonotone(0, k);
    LogPow(x);
    if k < Log2(x) {
      PowMonotone(k + 1, Log2(x));
    } else if Log2(x) < k {
      PowMonotone(Log2(x) + 1, k);
    }
  }
}
