/**
 * Levenshtein edit distance between two strings, filled in an
 * (m+1) x (n+1) table as `editDistance` in Features/src/Method.java does.
 */
module EditDistance {
  import opened Extrema

  /**
   * The Levenshtein distance: the fewest single-character insertions,
   * deletions and substitutions, each costing 1, that turn `a` into `b`.
   * Every step looks at the last characters and takes the cheapest of
   * substituting the last character (free when the two already agree),
   * deleting the last character of `a` and inserting the last one of `b`.
   */
  function Levenshtein(a: seq<char>, b: seq<char>): nat
    decreases |a| + |b|
  {
    if |a| == 0 then |b|
    else if |b| == 0 then |a|
    else
      Min3(Levenshtein(a[..|a| - 1], b[..|b| - 1]) + (if a[|a| - 1] == b[|b| - 1] then 0 else 1),
           Levenshtein(a[..|a| - 1], b) + 1,
           Levenshtein(a, b[..|b| - 1]) + 1)
  }

  /** Deleting the last character of `x` costs at most one edit. */
  lemma DeleteLast(x: seq<char>, y: seq<char>)
    requires |x| > 0
    ensures Levenshtein(x, y) <= Levenshtein(x[..|x| - 1], y) + 1
  {
  }

  /** Inserting the last character of `y` costs at most one edit. */
  lemma InsertLast(x: seq<char>, y: seq<char>)
    requires |y| > 0
    ensures Levenshtein(x, y) <= Levenshtein(x, y[..|y| - 1]) + 1
  {
  }

  /** Dropping the last character of the second string lowers the distance by at most one. */
  lemma {:induction false} DropLastSecond(x: seq<char>, y: seq<char>)
    requires |y| > 0
    ensures Levenshtein(x, y[..|y| - 1]) <= Levenshtein(x, y) + 1
    decreases |x|
  {
    if |x| > 0 {
      DeleteLast(x, y[..|y| - 1]);
      DropLastSecond(x[..|x| - 1], y);
    }
  }

  /** Dropping the last character of the first string lowers the distance by at most one. */
  lemma {:induction false} DropLastFirst(x: seq<char>, y: seq<char>)
    requires |x| > 0
    ensures Levenshtein(x[..|x| - 1], y) <= Levenshtein(x, y) + 1
    decreases |y|
  {
    if |y| > 0 {
      InsertLast(x[..|x| - 1], y);
      DropLastFirst(x, y[..|y| - 1]);
    }
  }

  /**
   * The recurrence of the table in `editDistance`: when the last characters
   * agree the distance is the diagonal predecessor's, with no minimum taken;
   * otherwise one more than the least of the three neighbours.
   */
  lemma TableStep(a: seq<char>, b: seq<char>)
    requires |a| > 0 && |b| > 0
    ensures Levenshtein(a, b) ==
      if a[|a| - 1] == b[|b| - 1] then Levenshtein(a[..|a| - 1], b[..|b| - 1])
      else 1 + Min3(Levenshtein(a[..|a| - 1], b[..|b| - 1]),
                    Levenshtein(a[..|a| - 1], b),
                    Levenshtein(a, b[..|b| - 1]))
  {
    if a[|a| - 1] == b[|b| - 1] {
      DropLastSecond(a[..|a| - 1], b);
      DropLastFirst(a, b[..|b| - 1]);
    }
  }

  /**
   * What dp[i][j] of `editDistance` holds: i in column 0, j in row 0, the
   * diagonal predecessor when word1[i-1] == word2[j-1], and otherwise one
   * more than the least of replace (diagonal), insert (above) and delete
   * (left).
   */
  function Table(a: seq<char>, b: seq<char>, i: nat, j: nat): nat
    requires i <= |a| && j <= |b|
    decreases i + j
  {
    if i == 0 then j
    else if j == 0 then i
    else if a[i - 1] == b[j - 1] then Table(a, b, i - 1, j - 1)
    else 1 + Min3(Table(a, b, i - 1, j - 1), Table(a, b, i - 1, j), Table(a, b, i, j - 1))
  }

  /** Every cell of the table holds the Levenshtein distance of the two prefixes. */
  lemma {:induction false} TableIsLevenshtein(a: seq<char>, b: seq<char>, i: nat, j: nat)
    requires i <= |a| && j <= |b|
    ensures Table(a, b, i, j) == Levenshtein(a[..i], b[..j])
    decreases i + j
  {
    if i == 0 {
      assert a[..i] == [];
    } else if j == 0 {
      assert b[..j] == [];
    } else {
      TableIsLevenshtein(a, b, i - 1, j - 1);
      TableIsLevenshtein(a, b, i - 1, j);
      TableIsLevenshtein(a, b, i, j - 1);
      PrefixStep(a, b, i, j);
      if a[i - 1] == b[j - 1] {
        assert Table(a, b, i, j) == Table(a, b, i - 1, j - 1);
      } else {
        assert Table(a, b, i, j) ==
          1 + Min3(Table(a, b, i - 1, j - 1), Table(a, b, i - 1, j), Table(a, b, i, j - 1));
      }
    }
  }

  /** `TableStep` on the prefixes a[..i] and b[..j]. */
  lemma PrefixStep(a: seq<char>, b: seq<char>, i: nat, j: nat)
    requires 0 < i <= |a| && 0 < j <= |b|
    ensures Levenshtein(a[..i], b[..j]) ==
      if a[i - 1] == b[j - 1] then Levenshtein(a[..i - 1], b[..j - 1])
      else 1 + Min3(Levenshtein(a[..i - 1], b[..j - 1]),
                    Levenshtein(a[..i - 1], b[..j]),
                    Levenshtein(a[..i], b[..j - 1]))
  {
    assert a[..i][..i - 1] == a[..i - 1];
    assert b[..j][..j - 1] == b[..j - 1];
    TableStep(a[..i], b[..j]);
  }

  /**
   * `editDistance`: row 0 and column 0 hold their index, every inner cell
   * dp[i+1][j+1] is filled from its three neighbours, and dp[len1][len2]
   * is returned.  Empty strings are accepted.
   */
  method EditDistance(word1: seq<char>, word2: seq<char>) returns (d: int)
    ensures d == Levenshtein(word1, word2)
  {
    var len1, len2 := |word1|, |word2|;
    var dp := new int[len1 + 1, len2 + 1]((i, j) => 0);

    for i := 0 to len1 + 1
      invariant forall k :: 0 <= k < i ==> dp[k, 0] == k
    {
      dp[i, 0] := i;
    }

    for j := 0 to len2 + 1
      invariant forall k :: 0 <= k <= len1 ==> dp[k, 0] == k
      invariant forall l :: 0 <= l < j ==> dp[0, l] == l
    {
      dp[0, j] := j;
    }
    forall k, l | 0 <= k <= len1 && 0 <= l <= len2 && (k == 0 || l == 0)
      ensures dp[k, l] == Table(word1, word2, k, l)
    {
      if k == 0 {
        assert dp[0, l] == l;
      } else {
        assert dp[k, 0] == k;
      }
    }

    for i := 0 to len1
      invariant forall k, l :: 0 <= k <= len1 && 0 <= l <= len2 && (k <= i || l == 0) ==>
        dp[k, l] == Table(word1, word2, k, l)
    {
      assert RowHolds(dp, word1, word2, i, len2 + 1);
      FillRow(dp, word1, word2, i);
      forall k, l | 0 <= k <= len1 && 0 <= l <= len2 && (k <= i + 1 || l == 0)
        ensures dp[k, l] == Table(word1, word2, k, l)
      {
        if k == i + 1 {
          assert RowHolds(dp, word1, word2, i + 1, len2 + 1);
        }
      }
    }

    d := dp[len1, len2];
    TableIsLevenshtein(word1, word2, len1, len2);
    assert word1[..len1] == word1 && word2[..len2] == word2;
  }

  /** Cells dp[r][0..n) hold the values `Table` gives them. */
  ghost predicate RowHolds(dp: array2<int>, a: seq<char>, b: seq<char>, r: nat, n: nat)
    requires dp.Length0 == |a| + 1 && dp.Length1 == |b| + 1 && r <= |a| && n <= |b| + 1
    reads dp
  {
    forall l :: 0 <= l < n ==> dp[r, l] == Table(a, b, r, l)
  }

  /**
   * One pass of the inner loop of `editDistance`: row i+1 of the table is
   * filled from row i and its own column-0 cell, left to right; no other
   * cell changes.
   */
  method FillRow(dp: array2<int>, word1: seq<char>, word2: seq<char>, i: nat)
    requires dp.Length0 == |word1| + 1 && dp.Length1 == |word2| + 1 && i < |word1|
    requires RowHolds(dp, word1, word2, i, |word2| + 1)
    requires dp[i + 1, 0] == i + 1
    modifies dp
    ensures RowHolds(dp, word1, word2, i + 1, |word2| + 1)
    ensures forall k, l :: 0 <= k <= |word1| && 0 <= l <= |word2| && k != i + 1 ==> dp[k, l] == old(dp[k, l])
  {
    var c1 := word1[i];
    for j := 0 to |word2|
      invariant RowHolds(dp, word1, word2, i, |word2| + 1)
      invariant RowHolds(dp, word1, word2, i + 1, j + 1)
      invariant forall k, l :: 0 <= k <= |word1| && 0 <= l <= |word2| && k != i + 1 ==> dp[k, l] == old(dp[k, l])
    {
      var c2 := word2[j];
      assert dp[i, j] == Table(word1, word2, i, j);
      assert dp[i, j + 1] == Table(word1, word2, i, j + 1);
      assert dp[i + 1, j] == Table(word1, word2, i + 1, j);
      if c1 == c2 {
        dp[i + 1, j + 1] := dp[i, j];
      } else {
        var replace := dp[i, j] + 1;
        var insert := dp[i, j + 1] + 1;
        var delete := dp[i + 1, j] + 1;
        var min := if replace > insert then insert else replace;
        min := if delete > min then min else delete;
        dp[i + 1, j + 1] := min;
      }
    }
  }

  /** The distance does not depend on which string is edited into which. */
  lemma {:induction false} Symmetric(a: seq<char>, b: seq<char>)
    ensures Levenshtein(a, b) == Levenshtein(b, a)
    decreases |a| + |b|
  {
    if |a| > 0 && |b| > 0 {
      var a', b' := a[..|a| - 1], b[..|b| - 1];
      Symmetric(a', b');
      Symmetric(a', b);
      Symmetric(a, b');
    }
  }

  /** The distance is at least the difference of the lengths and at most the longer length. */
  lemma {:induction false} Bounds(a: seq<char>, b: seq<char>)
    ensures |a| - |b| <= Levenshtein(a, b) && |b| - |a| <= Levenshtein(a, b)
    ensures Levenshtein(a, b) <= if |a| >= |b| then |a| else |b|
    decreases |a| + |b|
  {
    if |a| > 0 && |b| > 0 {
      var a', b' := a[..|a| - 1], b[..|b| - 1];
      Bounds(a', b');
      Bounds(a', b);
      Bounds(a, b');
    }
  }

  /** The distance is zero exactly when the strings are equal. */
  lemma {:induction false} ZeroIffEqual(a: seq<char>, b: seq<char>)
    ensures Levenshtein(a, b) == 0 <==> a == b
    decreases |a| + |b|
  {
    if |a| > 0 && |b| > 0 {
      var a', b' := a[..|a| - 1], b[..|b| - 1];
      ZeroIffEqual(a', b');
      assert a == a' + [a[|a| - 1]];
      assert b == b' + [b[|b| - 1]];
      if a == b {
        assert a' == b';
      }
    }
  }

  /** Editing from or to the empty string costs the other string's length. */
  lemma EmptyString(b: seq<char>)
    ensures Levenshtein([], b) == |b| && Levenshtein(b, []) == |b|
  {
  }
}
