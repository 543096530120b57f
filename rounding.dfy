/** `Math.round(k / n * 100)` on a ratio of counts, the rounding every percentage of the core
    uses, computed on integers. */
module Rounding {

  /** The percentage `k / n * 100` rounded to the nearest integer, halves rounding up
      (`Math.round` on a non-negative value). */
  function RoundPercent(k: nat, n: nat): (p: nat)
    requires n > 0
    ensures 2 * n * p <= 200 * k + n < 2 * n * (p + 1)
  {
    (200 * k + n) / (2 * n)
  }

  /** `a * p < a * q` for positive `a` forces `p < q`. */
  lemma CancelFactor(a: int, p: int, q: int)
    requires a > 0 && a * p < a * q
    ensures p < q
  {
  }

  /** A share of at most the whole is at most 100, the whole is exactly 100 and nothing is 0. */
  lemma RoundPercentRange(k: nat, n: nat)
    requires n > 0
    ensures k <= n ==> RoundPercent(k, n) <= 100
    ensures k == n ==> RoundPercent(k, n) == 100
    ensures k == 0 ==> RoundPercent(k, n) == 0
  {
    var p := RoundPercent(k, n);
    var m := 2 * n;
    assert m * p <= 200 * k + n < m * (p + 1);
    assert m * 101 == 202 * n && m * 100 == 200 * n && m * 1 == 2 * n;
    if k <= n {
      CancelFactor(m, p, 101);
    }
    if k == n {
      CancelFactor(m, 100, p + 1);
    }
    if k == 0 {
      CancelFactor(m, p, 1);
    }
  }

  /** More completed items never give a smaller percentage. */
  lemma RoundPercentMonotone(k1: nat, k2: nat, n: nat)
    requires n > 0 && k1 <= k2
    ensures RoundPercent(k1, n) <= RoundPercent(k2, n)
  {
    var p1, p2 := RoundPercent(k1, n), RoundPercent(k2, n);
    var m := 2 * n;
    assert m * p1 <= 200 * k1 + n <= 200 * k2 + n < m * (p2 + 1);
    CancelFactor(m, p1, p2 + 1);
  }
}
