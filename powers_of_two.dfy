/**
  Powers of two and the integer base-2 logarithm the allocator computes with
  `System.Numerics.BitOperations.Log2` and left shifts `1 << n`.
 */
module PowersOfTwo {

  /** 2^n, the value of `1 << n` while it fits. */
  function Pow2(n: nat): (r: nat)
    ensures r >= 1
  {
    if n == 0 then 1 else 2 * Pow2(n - 1)
  }

  /** floor(log2(x)); as in BitOperations.Log2, the logarithm of 0 is 0. */
  function Log2(x: nat): (r: nat)
    ensures x >= 1 ==> Pow2(r) <= x < Pow2(r + 1)
  {
    if x <= 1 then 0 else 1 + Log2(x / 2)
  }

  lemma {:induction false} Pow2Monotone(a: nat, b: nat)
    requires a <= b
    ensures Pow2(a) <= Pow2(b)
  {
    if a < b {
      Pow2Monotone(a, b - 1);
    }
  }

  /** The logarithm is determined by the power-of-two interval the argument lies in. */
  lemma Log2Unique(x: nat, k: nat)
    requires Pow2(k) <= x < Pow2(k + 1)
    ensures Log2(x) == k
  {
    var r := Log2(x);
    if r < k {
      Pow2Monotone(r + 1, k);
    } else if r > k {
      Pow2Monotone(k + 1, r);
    }
  }

  /** `Log2(x) > s` is the same test as `x >= 2^(s+1)`, also for x == 0. */
  lemma Log2Exceeds(x: nat, s: nat)
    ensures Log2(x) > s <==> x >= Pow2(s + 1)
  {
    if x >= 1 {
      var r := Log2(x);
      if r > s {
        Pow2Monotone(s + 1, r);
      } else {
        Pow2Monotone(r + 1, s + 1);
      }
    }
  }

  /** The logarithm of an `x` in [2^lo, 2^hi) lies in [lo, hi). */
  lemma Log2Between(x: nat, lo: nat, hi: nat)
    requires lo < hi && Pow2(lo) <= x < Pow2(hi)
    ensures lo <= Log2(x) < hi
  {
    if lo > 0 {
      Log2Exceeds(x, lo - 1);
    }
    Log2Exceeds(x, hi - 1);
  }
}
