# String-similarity features, modelled in Dafny

The repository turns pairs of names into feature vectors. Its core is four
string-similarity routines in `Features/src/Method.java`. Each takes two
strings and returns one number:

- `ngram` builds a boundary-marked bigram list for each string: `"#"+s[0]`,
  then every adjacent pair, then `s[last]+"#"`. It counts the matching
  element pairs across the two lists and returns
  `|sub1| + |sub2| - 2*count`, floored at 0.
- `getLongestCommonSubstring` fills an `m x n` common-suffix table with no
  padding row or column. It keeps a running maximum and returns that
  maximum divided by the average length `(m+n)/2`.
- `editDistance` is the Levenshtein distance, filled into an
  `(m+1) x (n+1)` table.
- `getLongestCommonSubsequence` is the longest-common-subsequence length
  from an `(m+1) x (n+1)` table, divided by the average length.

The project has one module per routine: `NGram`, `CommonSubstring`,
`EditDistance` and `CommonSubsequence`. Two small shared modules complete
it: `Ratio` holds the division by the average length, and `Extrema` holds
the maximum and three-way minimum that the tables take.

Each routine is an imperative method with the source's own loops and
tables:

- The `ArrayList`s of `ngram` are `seq` variables that the loops append to.
- Each `int[][]` table is an `array2<int>`. It is allocated zero-filled,
  as Java does, and `getLongestCommonSubstring` relies on those zeros.
- The inner loop of `editDistance` and of `getLongestCommonSubsequence` is
  its own method, `FillRow`. It fills one row of the table and leaves
  every other cell unchanged.

Every method is proved against an independent reference definition, and
the properties the routines promise are proved about that reference:

- **Levenshtein**: the cheapest of substitution, deletion and insertion at
  every step. The source copies the diagonal cell when the characters
  match and takes no minimum. `TableStep` proves that this shortcut gives
  the same value.
- **Longest common subsequence**: defined through `IsSubsequence`. The
  table's recurrence is proved to give the length of a longest common
  subsequence: one exists, and none is longer.
- **Longest common substring**: defined through `CommonRun`, equal runs
  `a[i-k..i] == b[j-k..j]`. The table's running maximum is proved to be
  the length of the longest such run.
- **`ngram`'s count**: the number of index pairs `(i, j)` with
  `sub1[i] == sub2[j]`, and also a sum of multiset multiplicities.

Both ratio routines accept empty arguments and the model has no
precondition on them:

- **One empty argument.** No two characters are ever compared, so the
  numerator stays 0 and the result is 0. The substring table is empty.
  The subsequence loops still run, but only through their
  `i==0 || j==0` branch.
- **Two empty strings.** The source returns `0/0f`, which is NaN. The
  model makes that the `Ratio.NaN` value, and `RatioProperties` proves it
  is the only case that gives NaN.

## Model

| member | source | states |
|---|---|---|
| NGram.BigramsShape | Features/src/Method.java:33-38 | the pair loop yields \|s\|-1 elements, the i-th being s[i]s[i+1] |
| NGram.BoundaryListShape | Features/src/Method.java:24-54 | the list starts with "#"+s[0], holds s[i-1]s[i] at position i and ends with s[last]+"#"; a one-character string gets only the start element (length 1, else \|s\|+1) |
| NGram.BuildBoundaryList | Features/src/Method.java:24-54 | the appends of one string's list (written twice in the source, for sub1 and sub2) produce exactly the boundary list |
| NGram.OccurrencesIsMultiplicity | Features/src/Method.java:57-65 | the inner loop's count for one element of sub1 is that element's multiplicity in sub2 |
| NGram.MatchCountStep | Features/src/Method.java:56-66 | each outer iteration adds the multiplicity of sub1[i] in sub2 to the count |
| NGram.MatchCountIsPairCount | Features/src/Method.java:56-66 | the count is the number of index pairs (i, j) with sub1[i] == sub2[j], a pairwise count rather than a set intersection |
| NGram.CountMatches | Features/src/Method.java:56-66 | the nested loops leave count equal to the pairwise match count |
| NGram.MatchCountSymmetric | Features/src/Method.java:56-66 | swapping the two lists does not change the count |
| NGram.MatchCountSelf | Features/src/Method.java:56-66 | a list matched against itself counts at least one match per element |
| NGram.NGram | Features/src/Method.java:16-75 | for non-empty strings the result is \|sub1\| + \|sub2\| - 2*count over the two boundary lists, clamped at 0 |
| NGram.DistanceBounds | Features/src/Method.java:68-72 | the result is never negative and never exceeds \|sub1\| + \|sub2\| |
| NGram.DistanceWhenNothingShared | Features/src/Method.java:68-72 | lists with no common element give the full \|sub1\| + \|sub2\| |
| NGram.DistanceSymmetric | Features/src/Method.java:16-75 | the result does not depend on the argument order |
| NGram.DistanceSelf | Features/src/Method.java:16-75 | a string is at distance 0 from itself |
| NGram.ClampReachable | Features/src/Method.java:68-72 | "AAA" against itself gives 4 + 4 - 12 = -4 before the clamp, so the clamp fires |
| NGram.DifferentStringsAtZero | Features/src/Method.java:68-72 | the distinct strings "AAA" and "AA" are at distance 0 |
| NGram.CatCats | Features/src/Method.java:16-75 | "CAT" against "CATS" is 4 + 5 - 2*3 = 3 |
| NGram.SingleCharacter | Features/src/Method.java:32-54 | one-character strings get only the start element: ("A","A") gives 0 and ("A","AB") gives 2 |
| CommonSubstring.SuffixMatchIsCommon | Features/src/Method.java:89-94 | the value a cell holds is the length of a common suffix of the two prefixes |
| CommonSubstring.SuffixMatchIsLongest | Features/src/Method.java:89-94 | no common suffix of the two prefixes is longer than that value |
| CommonSubstring.CellStep | Features/src/Method.java:89-97 | a cell is 0 when a[i] != b[j], 1 on the first row or column, else the diagonal plus 1; the row maximum grows by that cell |
| CommonSubstring.BestInRowIsMax | Features/src/Method.java:88-100 | the running maximum over one row is attained by some cell and bounds every cell of the row |
| CommonSubstring.LongestIsMax | Features/src/Method.java:87-101 | the final maximum is attained by some cell and bounds every cell of the table |
| CommonSubstring.LongestIsLongestCommonRun | Features/src/Method.java:83-101 | `max` is the length of a contiguous run common to a and b, and no common run is longer |
| CommonSubstring.GetLongestCommonSubstring | Features/src/Method.java:78-106 | the returned numerator `max` is the longest common substring length, and the returned value is it over (m+n)/2 (NaN when both are empty) |
| CommonSubstring.Symmetric | Features/src/Method.java:83-101 | the longest common substring length does not depend on the argument order |
| CommonSubstring.Bounds | Features/src/Method.java:83-101 | 0 <= max <= min(m, n), and max == m when a == b |
| CommonSubstring.RatioProperties | Features/src/Method.java:81-105 | the value is NaN exactly when both strings are empty; otherwise it lies in [0, 1]; it is symmetric and is 1 for equal non-empty strings |
| Extrema.Min3 | Features/src/Method.java:138-139 | the two conditional expressions pick the least of replace, insert and delete: a value no larger than any of them and equal to one of them |
| Extrema.Max | Features/src/Method.java:163 | `Math.max` of the two neighbouring cells: no smaller than either and equal to one of them |
| EditDistance.TableStep | Features/src/Method.java:130-141 | copying the diagonal on a match, and taking 1 + the least neighbour otherwise, agrees with the full Levenshtein minimum |
| EditDistance.TableIsLevenshtein | Features/src/Method.java:113-143 | every cell dp[i][j] (i on column 0, j on row 0) is the Levenshtein distance of word1[..i] and word2[..j] |
| EditDistance.FillRow | Features/src/Method.java:126-142 | one pass of the inner loop fills row i+1 from row i and changes no other cell |
| EditDistance.EditDistance | Features/src/Method.java:108-146 | the returned dp[len1][len2] is the Levenshtein distance of word1 and word2; empty strings are accepted |
| EditDistance.Symmetric | Features/src/Method.java:108-146 | the distance does not depend on the argument order |
| EditDistance.Bounds | Features/src/Method.java:108-146 | \|m - n\| <= d <= max(m, n) |
| EditDistance.ZeroIffEqual | Features/src/Method.java:108-146 | the distance is 0 exactly when the strings are equal |
| EditDistance.EmptyString | Features/src/Method.java:115-121 | from or to the empty string the distance is the other string's length |
| CommonSubsequence.LcsWitness | Features/src/Method.java:154-166 | the table's recurrence value is the length of an actual common subsequence |
| CommonSubsequence.LcsIsUpperBound | Features/src/Method.java:154-166 | no common subsequence is longer than the table's recurrence value |
| CommonSubsequence.LcsIsLongest | Features/src/Method.java:154-166 | the recurrence value is the length of a longest common subsequence |
| CommonSubsequence.PrefixStep | Features/src/Method.java:158-164 | one more cell of the table follows the match / Math.max recurrence on the prefixes |
| CommonSubsequence.FillRow | Features/src/Method.java:157-165 | one pass of the inner loop fills row i (0 in column 0 and row 0) and changes no other cell |
| CommonSubsequence.GetLongestCommonSubsequence | Features/src/Method.java:148-171 | the returned numerator dp[m][n] is the longest common subsequence length, and the returned value is it over (m+n)/2 (NaN when both are empty) |
| CommonSubsequence.Symmetric | Features/src/Method.java:154-166 | the longest common subsequence length does not depend on the argument order |
| CommonSubsequence.Bounds | Features/src/Method.java:154-166 | 0 <= dp[m][n] <= min(m, n), and dp[m][n] == m when a == b |
| CommonSubsequence.RatioProperties | Features/src/Method.java:152-170 | the value is NaN exactly when both strings are empty; otherwise it lies in [0, 1]; it is symmetric and is 1 for equal non-empty strings |
| Ratio.OverAverageLength | Features/src/Method.java:168 | the averages at 81 and 152 and the divisions at 103 and 168: k / ((m+n)/2): NaN exactly when m + n == 0, otherwise times (m+n) it gives 2k; it lies in [0, 1] when k <= m, n and is 1 when k == m == n > 0 |

## Left out

- `main` (Features/src/Method.java:173-239) is file and CSV input/output. It reads records, upper-cases them, splits on commas, skips blank fields and writes the feature vectors; none of it is modelled.
- The ratios of `getLongestCommonSubstring` and `getLongestCommonSubsequence` are exact real quotients. The model has no IEEE `float` rounding of `(m+n)/2f` or of the division.
- NGram.NGram: does not model 32-bit `int` wrap-around of `count` and `distance`, because Dafny integers are unbounded. Java's result can differ from the model once `2*count` exceeds 2^31-1. While `count` < 2^31 it differs exactly when `2*count` > 2^31 + |sub1| + |sub2|. For example, 32770 equal characters against themselves give `count` = 1073807363, so Java returns 2147418112 where the model gives 0.
- NGram.NGram: requires both strings to be non-empty. The source reads `charAt(0)` unconditionally and throws `StringIndexOutOfBoundsException` on an empty string; that exception is not modelled as a value.
- The variable `ms` (Features/src/Method.java:20, 60) is assigned but never read, so it is not modelled.
- Java strings are `seq<char>`. The bigram elements are two-character sequences compared by value, like `String.equals`. Surrogate pairs and other UTF-16 details of `charAt` are not modelled.
