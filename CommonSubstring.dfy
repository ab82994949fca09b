/**
 * Normalised longest common substring, `getLongestCommonSubstring` in
 * Features/src/Method.java: an m x n table (no padding row or column) of
 * common-suffix lengths, a running maximum over it, and that maximum
 * divided by the average length.
 */
module CommonSubstring {
  import Ratio
  import opened Extrema

  /** The length of the longest common suffix of `a` and `b`. */
  function SuffixMatch(a: seq<char>, b: seq<char>): nat
    decreases |a|
  {
    if |a| == 0 || |b| == 0 || a[|a| - 1] != b[|b| - 1] then 0
    else 1 + SuffixMatch(a[..|a| - 1], b[..|b| - 1])
  }

  /** The run of `k` characters ending just before a[i] equals the one ending just before b[j]. */
  predicate CommonRun(a: seq<char>, b: seq<char>, i: nat, j: nat, k: nat)
  {
    k <= i <= |a| && k <= j <= |b| && a[i - k..i] == b[j - k..j]
  }

  /** The largest `SuffixMatch(a, b[..j])` over all 0 <= j <= |b|. */
  function BestInRow(a: seq<char>, b: seq<char>): nat
    decreases |b|
  {
    if |b| == 0 then 0 else Max(BestInRow(a, b[..|b| - 1]), SuffixMatch(a, b))
  }

  /**
   * The largest `SuffixMatch(a[..i], b[..j])` over all prefixes, which the
   * source accumulates as `max` row by row.
   */
  function Longest(a: seq<char>, b: seq<char>): nat
    decreases |a|
  {
    if |a| == 0 then 0 else Max(Longest(a[..|a| - 1], b), BestInRow(a, b))
  }

  /** `SuffixMatch` is the length of a common suffix ... */
  lemma {:induction false} SuffixMatchIsCommon(a: seq<char>, b: seq<char>)
    ensures CommonRun(a, b, |a|, |b|, SuffixMatch(a, b))
    decreases |a|
  {
    var k := SuffixMatch(a, b);
    if k > 0 {
      var a', b' := a[..|a| - 1], b[..|b| - 1];
      SuffixMatchIsCommon(a', b');
      assert a[|a| - k..|a|] == a'[|a'| - (k - 1)..|a'|] + [a[|a| - 1]];
      assert b[|b| - k..|b|] == b'[|b'| - (k - 1)..|b'|] + [b[|b| - 1]];
    }
  }

  /** ... and no common suffix is longer. */
  lemma {:induction false} SuffixMatchIsLongest(a: seq<char>, b: seq<char>, k: nat)
    requires CommonRun(a, b, |a|, |b|, k)
    ensures k <= SuffixMatch(a, b)
    decreases |a|
  {
    if k > 0 {
      var a', b' := a[..|a| - 1], b[..|b| - 1];
      assert a[|a| - k..|a|][k - 1] == a[|a| - 1];
      assert b[|b| - k..|b|][k - 1] == b[|b| - 1];
      assert a'[|a'| - (k - 1)..|a'|] == a[|a| - k..|a|][..k - 1];
      assert b'[|b'| - (k - 1)..|b'|] == b[|b| - k..|b|][..k - 1];
      SuffixMatchIsLongest(a', b', k - 1);
    }
  }

  /** A common run ending at a[i], b[j] is a common suffix of the prefixes a[..i], b[..j]. */
  lemma RunIsPrefixSuffix(a: seq<char>, b: seq<char>, i: nat, j: nat, k: nat)
    requires i <= |a| && j <= |b|
    ensures CommonRun(a, b, i, j, k) <==> CommonRun(a[..i], b[..j], i, j, k)
  {
    if k <= i && k <= j {
      assert a[..i][i - k..i] == a[i - k..i];
      assert b[..j][j - k..j] == b[j - k..j];
    }
  }

  /** `BestInRow` is attained by some prefix of `b` and bounds all of them. */
  lemma {:induction false} BestInRowIsMax(a: seq<char>, b: seq<char>)
    ensures exists j :: 0 <= j <= |b| && BestInRow(a, b) == SuffixMatch(a, b[..j])
    ensures forall j :: 0 <= j <= |b| ==> SuffixMatch(a, b[..j]) <= BestInRow(a, b)
    decreases |b|
  {
    if |b| == 0 {
      assert b[..0] == b;
    } else {
      var b' := b[..|b| - 1];
      BestInRowIsMax(a, b');
      assert b[..|b|] == b;
      forall j | 0 <= j <= |b'| ensures b'[..j] == b[..j] { }
    }
  }

  /** `Longest` is attained by some pair of prefixes and bounds all of them. */
  lemma {:induction false} LongestIsMax(a: seq<char>, b: seq<char>)
    ensures exists i, j :: 0 <= i <= |a| && 0 <= j <= |b| && Longest(a, b) == SuffixMatch(a[..i], b[..j])
    ensures forall i, j :: 0 <= i <= |a| && 0 <= j <= |b| ==> SuffixMatch(a[..i], b[..j]) <= Longest(a, b)
    decreases |a|
  {
    if |a| == 0 {
      assert a[..0] == a;
      assert SuffixMatch(a[..0], b[..0]) == 0;
    } else {
      var a' := a[..|a| - 1];
      LongestIsMax(a', b);
      BestInRowIsMax(a, b);
      assert a[..|a|] == a;
      forall i | 0 <= i <= |a'| ensures a'[..i] == a[..i] { }
      forall i, j | 0 <= i <= |a| && 0 <= j <= |b|
        ensures SuffixMatch(a[..i], b[..j]) <= Longest(a, b)
      {
        if i == |a| {
          assert a[..i] == a;
        } else {
          assert a'[..i] == a[..i];
        }
      }
    }
  }

  /**
   * `Longest` is the length of the longest contiguous substring common to
   * `a` and `b`: such a run exists, and no common run is longer.
   */
  lemma LongestIsLongestCommonRun(a: seq<char>, b: seq<char>)
    ensures exists i, j :: CommonRun(a, b, i, j, Longest(a, b))
    ensures forall i: nat, j: nat, k: nat :: CommonRun(a, b, i, j, k) ==> k <= Longest(a, b)
  {
    LongestIsMax(a, b);
    var i, j :| 0 <= i <= |a| && 0 <= j <= |b| && Longest(a, b) == SuffixMatch(a[..i], b[..j]);
    SuffixMatchIsCommon(a[..i], b[..j]);
    RunIsPrefixSuffix(a, b, i, j, Longest(a, b));
    forall i: nat, j: nat, k: nat | CommonRun(a, b, i, j, k) ensures k <= Longest(a, b) {
      RunIsPrefixSuffix(a, b, i, j, k);
      SuffixMatchIsLongest(a[..i], b[..j], k);
    }
  }

  /** The longest common substring does not depend on the argument order. */
  lemma Symmetric(a: seq<char>, b: seq<char>)
    ensures Longest(a, b) == Longest(b, a)
  {
    LongestIsLongestCommonRun(a, b);
    LongestIsLongestCommonRun(b, a);
    var i, j :| CommonRun(a, b, i, j, Longest(a, b));
    assert CommonRun(b, a, j, i, Longest(a, b));
    var i', j' :| CommonRun(b, a, i', j', Longest(b, a));
    assert CommonRun(a, b, j', i', Longest(b, a));
  }

  /** 0 <= Longest(a, b) <= min(|a|, |b|), and a string shares all of itself with itself. */
  lemma Bounds(a: seq<char>, b: seq<char>)
    ensures Longest(a, b) <= |a| && Longest(a, b) <= |b|
    ensures Longest(a, a) == |a|
  {
    LongestIsLongestCommonRun(a, b);
    LongestIsLongestCommonRun(a, a);
    assert CommonRun(a, a, |a|, |a|, |a|);
  }

  /**
   * `getLongestCommonSubstring`: the table yields the numerator `max`,
   * which is divided by the average length; the source returns only the
   * quotient, `max` is returned here as well. Java
   * zero-fills the table, so a cell whose characters differ stays 0;
   * dp[i][j] covers the prefixes of lengths i+1 and j+1, and the first row
   * and column are set to 1 on a match instead of reading a padding cell.
   * An empty string gives an empty table and `max` stays 0.
   */
  method GetLongestCommonSubstring(a: seq<char>, b: seq<char>) returns (max: int, value: Ratio.Quotient)
    ensures max == Longest(a, b)
    ensures value == SubstringRatio(a, b)
  {
    var m, n := |a|, |b|;
    max := 0;
    var dp := new int[m, n]((i, j) => 0);
    for i := 0 to m
      invariant forall k, l :: 0 <= k < i && 0 <= l < n ==> dp[k, l] == SuffixMatch(a[..k + 1], b[..l + 1])
      invariant forall k, l :: i <= k < m && 0 <= l < n ==> dp[k, l] == 0
      invariant max == Longest(a[..i], b)
    {
      for j := 0 to n
        invariant forall k, l :: 0 <= k < i && 0 <= l < n ==> dp[k, l] == SuffixMatch(a[..k + 1], b[..l + 1])
        invariant forall k, l :: i < k < m && 0 <= l < n ==> dp[k, l] == 0
        invariant forall l :: j <= l < n ==> dp[i, l] == 0
        invariant forall l :: 0 <= l < j ==> dp[i, l] == SuffixMatch(a[..i + 1], b[..l + 1])
        invariant max == Max(Longest(a[..i], b), BestInRow(a[..i + 1], b[..j]))
      {
        CellStep(a, b, i, j);
        if a[i] == b[j] {
          if i == 0 || j == 0 {
            dp[i, j] := 1;
          } else {
            dp[i, j] := dp[i - 1, j - 1] + 1;
          }
          if max < dp[i, j] {
            max := dp[i, j];
          }
        }
      }
      assert b[..n] == b;
      RowStep(a, b, i);
    }
    assert a[..m] == a;
    value := Ratio.OverAverageLength(max, m, n);
  }

  /** One cell: its common-suffix length and how it extends the row's best value. */
  lemma CellStep(a: seq<char>, b: seq<char>, i: nat, j: nat)
    requires i < |a| && j < |b|
    ensures SuffixMatch(a[..i + 1], b[..j + 1]) ==
      if a[i] != b[j] then 0
      else if i == 0 || j == 0 then 1
      else SuffixMatch(a[..i], b[..j]) + 1
    ensures BestInRow(a[..i + 1], b[..j + 1]) ==
      Max(BestInRow(a[..i + 1], b[..j]), SuffixMatch(a[..i + 1], b[..j + 1]))
  {
    assert a[..i + 1][..i] == a[..i];
    assert b[..j + 1][..j] == b[..j];
  }

  /** A finished row extends `Longest` by one prefix of `a`. */
  lemma RowStep(a: seq<char>, b: seq<char>, i: nat)
    requires i < |a|
    ensures Longest(a[..i + 1], b) == Max(Longest(a[..i], b), BestInRow(a[..i + 1], b))
  {
    assert a[..i + 1][..i] == a[..i];
  }

  /**
   * The value `getLongestCommonSubstring` returns, over the reals: the longest common
   * substring length over the average length, `NaN` for two empty strings.
   */
  function SubstringRatio(a: seq<char>, b: seq<char>): Ratio.Quotient
  {
    Ratio.OverAverageLength(Longest(a, b), |a|, |b|)
  }

  /**
   * The ratio is `NaN` only for two empty strings, otherwise lies in
   * [0, 1]; it is symmetric, and 1 for equal non-empty strings.
   */
  lemma RatioProperties(a: seq<char>, b: seq<char>)
    ensures SubstringRatio(a, b).NaN? <==> |a| == 0 && |b| == 0
    ensures SubstringRatio(a, b).Finite? ==> 0.0 <= SubstringRatio(a, b).value <= 1.0
    ensures SubstringRatio(a, b) == SubstringRatio(b, a)
    ensures a == b && |a| > 0 ==> SubstringRatio(a, b) == Ratio.Finite(1.0)
  {
    Bounds(a, b);
    Symmetric(a, b);
  }
}
