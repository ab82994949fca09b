/**
 * Normalised longest common subsequence, `getLongestCommonSubsequence` in
 * Features/src/Method.java: an (m+1) x (n+1) table whose last cell is the
 * length of the longest common subsequence, divided by the average length.
 */
module CommonSubsequence {
  import Ratio
  import opened Extrema

  /**
   * `s` can be obtained from `t` by deleting characters: either the last
   * character of `t` is deleted, or it supplies the last character of `s`.
   */
  predicate IsSubsequence(s: seq<char>, t: seq<char>)
    decreases |t|
  {
    |s| == 0 ||
    (|t| > 0 &&
     (IsSubsequence(s, t[..|t| - 1]) ||
      (s[|s| - 1] == t[|t| - 1] && IsSubsequence(s[..|s| - 1], t[..|t| - 1]))))
  }

  predicate IsCommonSubsequence(s: seq<char>, a: seq<char>, b: seq<char>)
  {
    IsSubsequence(s, a) && IsSubsequence(s, b)
  }

  /**
   * The recurrence of the table in `getLongestCommonSubsequence`, on the
   * prefixes a[..i] and b[..j]: zero on an empty prefix, one more than the
   * diagonal when the last characters match, else the larger neighbour.
   */
  function Lcs(a: seq<char>, b: seq<char>): nat
    decreases |a| + |b|
  {
    if |a| == 0 || |b| == 0 then 0
    else if a[|a| - 1] == b[|b| - 1] then 1 + Lcs(a[..|a| - 1], b[..|b| - 1])
    else Max(Lcs(a[..|a| - 1], b), Lcs(a, b[..|b| - 1]))
  }

  /** A common subsequence as long as `Lcs` says, built along the recurrence. */
  function LcsWitness(a: seq<char>, b: seq<char>): (w: seq<char>)
    ensures |w| == Lcs(a, b)
    ensures IsCommonSubsequence(w, a, b)
    decreases |a| + |b|
  {
    if |a| == 0 || |b| == 0 then []
    else if a[|a| - 1] == b[|b| - 1] then
      var w' := LcsWitness(a[..|a| - 1], b[..|b| - 1]);
      var w := w' + [a[|a| - 1]];
      assert w[..|w| - 1] == w';
      w
    else if Lcs(a[..|a| - 1], b) >= Lcs(a, b[..|b| - 1]) then
      LcsWitness(a[..|a| - 1], b)
    else
      LcsWitness(a, b[..|b| - 1])
  }

  /** Dropping the last character of a subsequence leaves a subsequence. */
  lemma {:induction false} DropLast(s: seq<char>, t: seq<char>)
    requires |s| > 0 && IsSubsequence(s, t)
    ensures IsSubsequence(s[..|s| - 1], t)
    decreases |t|
  {
    if IsSubsequence(s, t[..|t| - 1]) {
      DropLast(s, t[..|t| - 1]);
    }
  }

  /** No common subsequence is longer than `Lcs`. */
  lemma {:induction false} LcsIsUpperBound(s: seq<char>, a: seq<char>, b: seq<char>)
    requires IsCommonSubsequence(s, a, b)
    ensures |s| <= Lcs(a, b)
    decreases |a| + |b|
  {
    if |s| > 0 {
      var a', b', s' := a[..|a| - 1], b[..|b| - 1], s[..|s| - 1];
      var inA', inB' := IsSubsequence(s, a'), IsSubsequence(s, b');
      if a[|a| - 1] == b[|b| - 1] {
        if inA' && inB' {
          LcsIsUpperBound(s, a', b');
        } else if inA' {
          DropLast(s, a');
          LcsIsUpperBound(s', a', b');
        } else if inB' {
          DropLast(s, b');
          LcsIsUpperBound(s', a', b');
        } else {
          LcsIsUpperBound(s', a', b');
        }
      } else if inA' {
        LcsIsUpperBound(s, a', b);
      } else {
        LcsIsUpperBound(s, a, b');
      }
    }
  }

  /** `Lcs` is the length of a longest common subsequence of `a` and `b`. */
  lemma LcsIsLongest(a: seq<char>, b: seq<char>)
    ensures exists w :: IsCommonSubsequence(w, a, b) && |w| == Lcs(a, b)
    ensures forall s :: IsCommonSubsequence(s, a, b) ==> |s| <= Lcs(a, b)
  {
    var w := LcsWitness(a, b);
    forall s | IsCommonSubsequence(s, a, b) ensures |s| <= Lcs(a, b) {
      LcsIsUpperBound(s, a, b);
    }
  }

  /** The common subsequence length does not depend on the argument order. */
  lemma {:induction false} Symmetric(a: seq<char>, b: seq<char>)
    ensures Lcs(a, b) == Lcs(b, a)
  {
    var w, v := LcsWitness(a, b), LcsWitness(b, a);
    LcsIsUpperBound(w, b, a);
    LcsIsUpperBound(v, a, b);
  }

  /** A subsequence is never longer than the string it is taken from. */
  lemma {:induction false} SubsequenceLength(s: seq<char>, t: seq<char>)
    requires IsSubsequence(s, t)
    ensures |s| <= |t|
    decreases |t|
  {
    if |s| > 0 {
      if IsSubsequence(s, t[..|t| - 1]) {
        SubsequenceLength(s, t[..|t| - 1]);
      } else {
        SubsequenceLength(s[..|s| - 1], t[..|t| - 1]);
      }
    }
  }

  /** Every string is a subsequence of itself. */
  lemma {:induction false} SubsequenceOfItself(s: seq<char>)
    ensures IsSubsequence(s, s)
    decreases |s|
  {
    if |s| > 0 {
      SubsequenceOfItself(s[..|s| - 1]);
    }
  }

  /** 0 <= Lcs(a, b) <= min(|a|, |b|), and Lcs(a, a) == |a|. */
  lemma {:induction false} Bounds(a: seq<char>, b: seq<char>)
    ensures Lcs(a, b) <= |a| && Lcs(a, b) <= |b|
    ensures Lcs(a, a) == |a|
  {
    var w := LcsWitness(a, b);
    SubsequenceLength(w, a);
    SubsequenceLength(w, b);
    SubsequenceOfItself(a);
    LcsIsUpperBound(a, a, a);
    var v := LcsWitness(a, a);
    SubsequenceLength(v, a);
  }

  /**
   * `getLongestCommonSubsequence`: the loops fill dp[i][j] for
   * 0 <= i <= m, 0 <= j <= n, and dp[m][n] is divided by the average
   * length. Two empty strings give `NaN`. The source returns only the
   * quotient; the numerator dp[m][n] is returned here as `len` as well.
   */
  method GetLongestCommonSubsequence(a: seq<char>, b: seq<char>) returns (len: int, value: Ratio.Quotient)
    ensures len == Lcs(a, b)
    ensures value == SubsequenceRatio(a, b)
  {
    var m, n := |a|, |b|;
    var dp := new int[m + 1, n + 1]((i, j) => 0);
    for i := 0 to m + 1
      invariant forall k, l :: 0 <= k < i && 0 <= l <= n ==> dp[k, l] == Lcs(a[..k], b[..l])
    {
      FillRow(dp, a, b, i);
    }
    assert a[..m] == a && b[..n] == b;
    len := dp[m, n];
    value := Ratio.OverAverageLength(len, m, n);
  }

  /** Cells dp[r][0..n) hold the values `Lcs` gives the prefixes a[..r], b[..l]. */
  ghost predicate RowHolds(dp: array2<int>, a: seq<char>, b: seq<char>, r: nat, n: nat)
    requires dp.Length0 == |a| + 1 && dp.Length1 == |b| + 1 && r <= |a| && n <= |b| + 1
    reads dp
  {
    forall l :: 0 <= l < n ==> dp[r, l] == Lcs(a[..r], b[..l])
  }

  /**
   * One pass of the inner loop of `getLongestCommonSubsequence`: row i is
   * filled left to right from row i-1 and its own earlier cells; no other
   * cell changes.
   */
  method FillRow(dp: array2<int>, a: seq<char>, b: seq<char>, i: nat)
    requires dp.Length0 == |a| + 1 && dp.Length1 == |b| + 1 && i <= |a|
    requires i > 0 ==> RowHolds(dp, a, b, i - 1, |b| + 1)
    modifies dp
    ensures RowHolds(dp, a, b, i, |b| + 1)
    ensures forall k, l :: 0 <= k <= |a| && 0 <= l <= |b| && k != i ==> dp[k, l] == old(dp[k, l])
  {
    for j := 0 to |b| + 1
      invariant RowHolds(dp, a, b, i, j)
      invariant forall k, l :: 0 <= k <= |a| && 0 <= l <= |b| && k != i ==> dp[k, l] == old(dp[k, l])
    {
      if i == 0 || j == 0 {
        dp[i, j] := 0;
      } else {
        PrefixStep(a, b, i - 1, j - 1);
        assert dp[i - 1, j - 1] == Lcs(a[..i - 1], b[..j - 1]);
        assert dp[i - 1, j] == Lcs(a[..i - 1], b[..j]);
        assert dp[i, j - 1] == Lcs(a[..i], b[..j - 1]);
        if a[i - 1] == b[j - 1] {
          dp[i, j] := 1 + dp[i - 1, j - 1];
        } else {
          dp[i, j] := Max(dp[i - 1, j], dp[i, j - 1]);
        }
      }
    }
  }

  /** The recurrence of `Lcs` on the prefixes of lengths i+1 and j+1. */
  lemma PrefixStep(a: seq<char>, b: seq<char>, i: nat, j: nat)
    requires i < |a| && j < |b|
    ensures Lcs(a[..i + 1], b[..j + 1]) ==
      if a[i] == b[j] then 1 + Lcs(a[..i], b[..j])
      else Max(Lcs(a[..i], b[..j + 1]), Lcs(a[..i + 1], b[..j]))
  {
    assert a[..i + 1][..i] == a[..i];
    assert b[..j + 1][..j] == b[..j];
  }

  /**
   * The value `getLongestCommonSubsequence` returns, over the reals: the longest common
   * subsequence length over the average length, `NaN` for two empty strings.
   */
  function SubsequenceRatio(a: seq<char>, b: seq<char>): Ratio.Quotient
  {
    Ratio.OverAverageLength(Lcs(a, b), |a|, |b|)
  }

  /**
   * The ratio is `NaN` only for two empty strings, otherwise lies in
   * [0, 1]; it is symmetric, and 1 for equal non-empty strings.
   */
  lemma RatioProperties(a: seq<char>, b: seq<char>)
    ensures SubsequenceRatio(a, b).NaN? <==> |a| == 0 && |b| == 0
    ensures SubsequenceRatio(a, b).Finite? ==> 0.0 <= SubsequenceRatio(a, b).value <= 1.0
    ensures SubsequenceRatio(a, b) == SubsequenceRatio(b, a)
    ensures a == b && |a| > 0 ==> SubsequenceRatio(a, b) == Ratio.Finite(1.0)
  {
    Bounds(a, b);
    Symmetric(a, b);
  }
}
