/**
 * The normalisation shared by `getLongestCommonSubstring` and
 * `getLongestCommonSubsequence` in Features/src/Method.java: an integer
 * length divided by the average `(m+n)/2f` of the two string lengths.
 * The quotient is stated over the reals (the source computes it in
 * `float`); `0/0f`, which the source produces for two empty strings, is
 * the value `NaN`.
 */
module Ratio {

  datatype Quotient = NaN | Finite(value: real)

  /** `k / ((m + n) / 2)`, or `NaN` when both lengths are zero. */
  function OverAverageLength(k: nat, m: nat, n: nat): (r: Quotient)
    ensures r.NaN? <==> m + n == 0
    ensures r.Finite? ==> r.value * (m + n) as real == 2.0 * k as real
    ensures r.Finite? && k <= m && k <= n ==> 0.0 <= r.value <= 1.0
    ensures k == m == n > 0 ==> r == Finite(1.0)
  {
    if m + n == 0 then NaN
    else
      var avg := (m + n) as real / 2.0;
      QuotientAtMostOne(k as real, avg);
      Finite(k as real / avg)
  }

  /** A quotient of a non-negative number by a larger positive one lies in [0, 1]. */
  lemma QuotientAtMostOne(x: real, y: real)
    requires y > 0.0
    ensures 0.0 <= x <= y ==> 0.0 <= x / y <= 1.0
  {
    assert x / y * y == x;
  }
}
