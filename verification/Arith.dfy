/** Division by a variable, which the verifier does not reason about on its own. */
module Arith {

  lemma MulAtLeast(k: int, d: int)
    requires k >= 1 && d > 0
    ensures k * d >= d
  {
  }

  lemma DivModUnique(n: int, d: int, q: int, r: int)
    requires 0 <= r < d && n == q * d + r
    ensures n / d == q && n % d == r
  {
    var q', r' := n / d, n % d;
    assert (q - q') * d == r' - r by {
      assert n == q' * d + r';
      assert (q - q') * d == q * d - q' * d;
    }
    if q > q' {
      MulAtLeast(q - q', d);
    } else if q < q' {
      MulAtLeast(q' - q, d);
    }
  }

  lemma MulMonotone(a: nat, b: nat, d: nat)
    requires a <= b
    ensures a * d <= b * d
  {
    assert (b - a) * d >= 0;
    assert b * d == a * d + (b - a) * d;
  }

  lemma DivAtMost(n: nat, d: nat)
    requires d > 0
    ensures n / d <= n
  {
    MulMonotone(1, d, n / d);
    assert n == n / d * d + n % d;
  }

  /** The position after `k % d` in a buffer of `d` elements. */
  lemma ModSucc(k: nat, d: nat)
    requires d > 0
    ensures k % d < d && (k + 1) % d == if k % d + 1 == d then 0 else k % d + 1
  {
    var q, r := k / d, k % d;
    if r + 1 == d {
      assert (q + 1) * d == q * d + d;
      DivModUnique(k + 1, d, q + 1, 0);
    } else {
      DivModUnique(k + 1, d, q, r + 1);
    }
  }

  /** Positions less than `d` apart do not coincide. */
  lemma ModDistinct(j: nat, k: nat, d: nat)
    requires d > 0 && j < k < j + d
    ensures j % d != k % d
  {
    if j % d == k % d {
      assert (k / d - j / d) * d == k - j by {
        assert k == k / d * d + k % d && j == j / d * d + j % d;
      }
      if k / d - j / d >= 1 {
        MulAtLeast(k / d - j / d, d);
      } else {
        MulAtLeast(1 + j / d - k / d, d);
      }
    }
  }

  function Pow2(k: nat): (p: nat)
    ensures p > 0
  {
    if k == 0 then 1 else 2 * Pow2(k - 1)
  }

  lemma {:induction false} Pow2Monotone(a: nat, b: nat)
    requires a <= b
    ensures Pow2(a) <= Pow2(b)
    decreases b
  {
    if a < b { Pow2Monotone(a, b - 1); }
  }

  lemma Pow64()
    ensures Pow2(64) == 0x1_0000_0000_0000_0000
  {
    assert Pow2(8) == 0x100;
    assert Pow2(16) == 0x1_0000;
    assert Pow2(24) == 0x100_0000;
    assert Pow2(32) == 0x1_0000_0000;
    assert Pow2(40) == 0x100_0000_0000;
    assert Pow2(48) == 0x1_0000_0000_0000;
    assert Pow2(56) == 0x100_0000_0000_0000;
  }
}
