/**
 * Boundary-marked bigram distance, `ngram` in Features/src/Method.java.
 * Each string becomes a list of two-character elements ("#" + first
 * character, every adjacent pair, last character + "#"); the distance is
 * the two list sizes minus twice the number of matching element pairs,
 * floored at zero.
 */
module NGram {

  /** The adjacent pairs s[i-1]s[i] for 1 <= i < |s|, in order. */
  function Bigrams(s: seq<char>): seq<seq<char>>
    decreases |s|
  {
    if |s| < 2 then [] else Bigrams(s[..|s| - 1]) + [[s[|s| - 2], s[|s| - 1]]]
  }

  /** There are |s| - 1 adjacent pairs and the i-th is s[i]s[i+1]. */
  lemma {:induction false} BigramsShape(s: seq<char>)
    ensures |Bigrams(s)| == if |s| == 0 then 0 else |s| - 1
    ensures forall i :: 0 <= i < |Bigrams(s)| ==> Bigrams(s)[i] == [s[i], s[i + 1]]
    decreases |s|
  {
    if |s| >= 2 {
      BigramsShape(s[..|s| - 1]);
    }
  }

  /**
   * The list `ngram` builds for one string: "#" + s[0]; then, only when s
   * has more than one character, every adjacent pair and s[last] + "#".
   */
  function BoundaryList(s: seq<char>): seq<seq<char>>
    requires |s| > 0
  {
    [['#', s[0]]] + (if |s| > 1 then Bigrams(s) + [[s[|s| - 1], '#']] else [])
  }

  /**
   * The boundary list starts with "#" + s[0], holds s[i-1]s[i] at position
   * i, and ends with s[last] + "#"; a one-character string gets the start
   * marker alone, so its list has one element, not |s| + 1.
   */
  lemma BoundaryListShape(s: seq<char>)
    requires |s| > 0
    ensures |BoundaryList(s)| == if |s| == 1 then 1 else |s| + 1
    ensures BoundaryList(s)[0] == ['#', s[0]]
    ensures forall i :: 1 <= i < |s| ==> BoundaryList(s)[i] == [s[i - 1], s[i]]
    ensures |s| > 1 ==> BoundaryList(s)[|s|] == [s[|s| - 1], '#']
  {
    BigramsShape(s);
  }

  /** The number of positions j with ys[j] == x. */
  function Occurrences(ys: seq<seq<char>>, x: seq<char>): nat
    decreases |ys|
  {
    if |ys| == 0 then 0
    else Occurrences(ys[..|ys| - 1], x) + (if ys[|ys| - 1] == x then 1 else 0)
  }

  /**
   * The count the nested loops of `ngram` reach: for every element of
   * `xs`, in order, the number of equal elements of `ys`.
   */
  function MatchCount(xs: seq<seq<char>>, ys: seq<seq<char>>): nat
    decreases |xs|
  {
    if |xs| == 0 then 0
    else MatchCount(xs[..|xs| - 1], ys) + Occurrences(ys, xs[|xs| - 1])
  }

  /** `Occurrences` is the multiplicity of `x` in `ys`. */
  lemma {:induction false} OccurrencesIsMultiplicity(ys: seq<seq<char>>, x: seq<char>)
    ensures Occurrences(ys, x) == multiset(ys)[x]
    decreases |ys|
  {
    if |ys| > 0 {
      var ys' := ys[..|ys| - 1];
      assert ys == ys' + [ys[|ys| - 1]];
      OccurrencesIsMultiplicity(ys', x);
    }
  }

  /** One more element of `ys` adds one when it equals `x`. */
  lemma OccurrencesStep(ys: seq<seq<char>>, j: nat, x: seq<char>)
    requires j < |ys|
    ensures Occurrences(ys[..j + 1], x) == Occurrences(ys[..j], x) + if ys[j] == x then 1 else 0
  {
    assert ys[..j + 1][..j] == ys[..j];
  }

  lemma MatchCountPrefixStep(xs: seq<seq<char>>, ys: seq<seq<char>>, k: nat)
    requires k < |xs|
    ensures MatchCount(xs[..k + 1], ys) == MatchCount(xs[..k], ys) + Occurrences(ys, xs[k])
  {
    assert xs[..k + 1][..k] == xs[..k];
  }

  /** One more element of `xs` adds its multiplicity in `ys` to the count. */
  lemma MatchCountStep(xs: seq<seq<char>>, ys: seq<seq<char>>, k: nat)
    requires k < |xs|
    ensures MatchCount(xs[..k + 1], ys) == MatchCount(xs[..k], ys) + multiset(ys)[xs[k]]
  {
    MatchCountPrefixStep(xs, ys, k);
    OccurrencesIsMultiplicity(ys, xs[k]);
  }

  /** All index pairs (i, j) with xs[i] == ys[j]. */
  function MatchingPairs(xs: seq<seq<char>>, ys: seq<seq<char>>): set<(nat, nat)>
  {
    set i: nat, j: nat | i < |xs| && j < |ys| && xs[i] == ys[j] :: (i, j)
  }

  /** The pairs of `MatchingPairs` whose first index is `i`. */
  function RowPairs(i: nat, ys: seq<seq<char>>, x: seq<char>): set<(nat, nat)>
  {
    set j: nat | j < |ys| && ys[j] == x :: (i, j)
  }

  lemma {:induction false} RowPairsSize(i: nat, ys: seq<seq<char>>, x: seq<char>)
    ensures |RowPairs(i, ys, x)| == Occurrences(ys, x)
    decreases |ys|
  {
    if |ys| > 0 {
      var ys' := ys[..|ys| - 1];
      RowPairsSize(i, ys', x);
      var extra: set<(nat, nat)> := if ys[|ys| - 1] == x then {(i, |ys'|)} else {};
      assert RowPairs(i, ys, x) == RowPairs(i, ys', x) + extra;
      assert RowPairs(i, ys', x) * extra == {};
    }
  }

  /**
   * `MatchCount` is a pairwise count, not the size of a set intersection:
   * it is the number of index pairs (i, j) with xs[i] == ys[j].
   */
  lemma {:induction false} MatchCountIsPairCount(xs: seq<seq<char>>, ys: seq<seq<char>>)
    ensures MatchCount(xs, ys) == |MatchingPairs(xs, ys)|
    decreases |xs|
  {
    if |xs| > 0 {
      var xs' := xs[..|xs| - 1];
      MatchCountIsPairCount(xs', ys);
      RowPairsSize(|xs'|, ys, xs[|xs| - 1]);
      MatchingPairsLast(xs, ys);
    }
  }

  /** The matching pairs of `xs` split into those of its prefix and those of its last element. */
  lemma MatchingPairsLast(xs: seq<seq<char>>, ys: seq<seq<char>>)
    requires |xs| > 0
    ensures MatchingPairs(xs, ys) ==
      MatchingPairs(xs[..|xs| - 1], ys) + RowPairs(|xs| - 1, ys, xs[|xs| - 1])
    ensures MatchingPairs(xs[..|xs| - 1], ys) * RowPairs(|xs| - 1, ys, xs[|xs| - 1]) == {}
  {
    var xs' := xs[..|xs| - 1];
    var all, front, row := MatchingPairs(xs, ys), MatchingPairs(xs', ys), RowPairs(|xs'|, ys, xs[|xs| - 1]);
    forall p | p in all ensures p in front + row {
      var i: nat, j: nat :| i < |xs| && j < |ys| && xs[i] == ys[j] && p == (i, j);
      if i < |xs'| {
        assert xs'[i] == xs[i];
      }
    }
    forall p | p in front ensures p in all && p !in row {
      var i: nat, j: nat :| i < |xs'| && j < |ys| && xs'[i] == ys[j] && p == (i, j);
      assert xs[i] == xs'[i];
    }
    forall p | p in row ensures p in all {
      var j: nat :| j < |ys| && ys[j] == xs[|xs| - 1] && p == (|xs'|, j);
    }
  }

  lemma {:induction false} AppendSecond(xs: seq<seq<char>>, ys: seq<seq<char>>, y: seq<char>)
    ensures MatchCount(xs, ys + [y]) == MatchCount(xs, ys) + Occurrences(xs, y)
    decreases |xs|
  {
    assert (ys + [y])[..|ys|] == ys;
    if |xs| > 0 {
      AppendSecond(xs[..|xs| - 1], ys, y);
    }
  }

  lemma {:induction false} MatchCountEmpty(xs: seq<seq<char>>)
    ensures MatchCount(xs, []) == 0
    decreases |xs|
  {
    if |xs| > 0 {
      MatchCountEmpty(xs[..|xs| - 1]);
    }
  }

  /** Counting the matches of `xs` in `ys` or of `ys` in `xs` gives the same number. */
  lemma {:induction false} MatchCountSymmetric(xs: seq<seq<char>>, ys: seq<seq<char>>)
    ensures MatchCount(xs, ys) == MatchCount(ys, xs)
    decreases |ys|
  {
    if |ys| == 0 {
      MatchCountEmpty(xs);
    } else {
      var ys' := ys[..|ys| - 1];
      var y := ys[|ys| - 1];
      assert ys == ys' + [y];
      AppendSecond(xs, ys', y);
      assert MatchCount(xs, ys) == MatchCount(xs, ys') + Occurrences(xs, y);
      MatchCountSymmetric(xs, ys');
      assert MatchCount(ys, xs) == MatchCount(ys', xs) + Occurrences(xs, y);
    }
  }

  /** Every element of a list matches at least itself. */
  lemma {:induction false} MatchCountSelf(xs: seq<seq<char>>)
    ensures MatchCount(xs, xs) >= |xs|
    decreases |xs|
  {
    if |xs| > 0 {
      var xs' := xs[..|xs| - 1];
      var x := xs[|xs| - 1];
      assert xs == xs' + [x];
      MatchCountSelf(xs');
      AppendSecond(xs', xs', x);
    }
  }

  /** The difference before the clamp: |sub1| + |sub2| - 2 * count. */
  function RawDistance(s1: seq<char>, s2: seq<char>): int
    requires |s1| > 0 && |s2| > 0
  {
    var sub1, sub2 := BoundaryList(s1), BoundaryList(s2);
    |sub1| + |sub2| - 2 * MatchCount(sub1, sub2)
  }

  /** The value `ngram` returns: the raw difference, floored at 0. */
  function Distance(s1: seq<char>, s2: seq<char>): int
    requires |s1| > 0 && |s2| > 0
  {
    var raw := RawDistance(s1, s2);
    if raw < 0 then 0 else raw
  }

  /**
   * The list-building part of `ngram`, which the source writes out once
   * for `str1` (into `sub1`) and once for `str2` (into `sub2`): add
   * "#" + s[0]; when s has more than one character, append each adjacent
   * pair in a loop and then s[last] + "#".
   */
  method BuildBoundaryList(s: seq<char>) returns (sub: seq<seq<char>>)
    requires |s| > 0
    ensures sub == BoundaryList(s)
  {
    sub := [];
    var first := ['#', s[0]];
    var last := [s[|s| - 1], '#'];
    sub := sub + [first];
    if |s| > 1 {
      for i := 1 to |s|
        invariant sub == [first] + Bigrams(s[..i])
      {
        var temp := [s[i - 1], s[i]];
        sub := sub + [temp];
        BigramsStep(s, i);
      }
      BuiltBoundaryList(s, sub);
      sub := sub + [last];
    }
  }

  /**
   * The nested loops of `ngram`: for each element of `sub1` and each
   * element of `sub2`, add one to `count` when they are equal.
   */
  method CountMatches(sub1: seq<seq<char>>, sub2: seq<seq<char>>) returns (count: int)
    ensures count == MatchCount(sub1, sub2)
  {
    count := 0;
    for i := 0 to |sub1|
      invariant count == MatchCount(sub1[..i], sub2)
    {
      for j := 0 to |sub2|
        invariant count == MatchCount(sub1[..i], sub2) + Occurrences(sub2[..j], sub1[i])
      {
        OccurrencesStep(sub2, j, sub1[i]);
        if sub2[j] == sub1[i] {
          count := count + 1;
        }
      }
      assert sub2[..|sub2|] == sub2;
      MatchCountPrefixStep(sub1, sub2, i);
    }
    assert sub1[..|sub1|] == sub1;
  }

  /**
   * `ngram`: the two boundary lists, their pairwise match count, and
   * |sub1| + |sub2| - 2 * count clamped at 0. It reads the first character
   * of both strings, so both must be non-empty.
   */
  method NGram(str1: seq<char>, str2: seq<char>) returns (distance: int)
    requires |str1| > 0 && |str2| > 0
    ensures distance == Distance(str1, str2)
  {
    var sub1 := BuildBoundaryList(str1);
    var sub2 := BuildBoundaryList(str2);
    var count := CountMatches(sub1, sub2);
    distance := |sub1| + |sub2| - 2 * count;
    if distance < 0 {
      distance := 0;
    }
  }

  /** The list the building loop of `ngram` ends with, plus the end marker, is the boundary list. */
  lemma BuiltBoundaryList(s: seq<char>, built: seq<seq<char>>)
    requires |s| > 1 && built == [['#', s[0]]] + Bigrams(s[..|s|])
    ensures built + [[s[|s| - 1], '#']] == BoundaryList(s)
  {
    assert s[..|s|] == s;
  }

  /** Extending a prefix by one character adds one pair to its bigrams. */
  lemma BigramsStep(s: seq<char>, i: nat)
    requires 1 <= i < |s|
    ensures Bigrams(s[..i + 1]) == Bigrams(s[..i]) + [[s[i - 1], s[i]]]
  {
    assert s[..i + 1][..i] == s[..i];
  }

  /** The distance is never negative and never exceeds the two list sizes together. */
  lemma DistanceBounds(s1: seq<char>, s2: seq<char>)
    requires |s1| > 0 && |s2| > 0
    ensures 0 <= Distance(s1, s2) <= |BoundaryList(s1)| + |BoundaryList(s2)|
  {
  }

  /** Lists that share no element are at the largest distance, their two sizes added. */
  lemma DistanceWhenNothingShared(s1: seq<char>, s2: seq<char>)
    requires |s1| > 0 && |s2| > 0
    requires forall i, j :: 0 <= i < |BoundaryList(s1)| && 0 <= j < |BoundaryList(s2)| ==>
      BoundaryList(s1)[i] != BoundaryList(s2)[j]
    ensures Distance(s1, s2) == |BoundaryList(s1)| + |BoundaryList(s2)|
  {
    var sub1, sub2 := BoundaryList(s1), BoundaryList(s2);
    MatchCountIsPairCount(sub1, sub2);
    assert MatchingPairs(sub1, sub2) == {};
  }

  /** The distance does not depend on the argument order. */
  lemma DistanceSymmetric(s1: seq<char>, s2: seq<char>)
    requires |s1| > 0 && |s2| > 0
    ensures Distance(s1, s2) == Distance(s2, s1)
  {
    MatchCountSymmetric(BoundaryList(s1), BoundaryList(s2));
  }

  /** A string is at distance 0 from itself. */
  lemma DistanceSelf(s: seq<char>)
    requires |s| > 0
    ensures Distance(s, s) == 0
  {
    MatchCountSelf(BoundaryList(s));
  }

  /**
   * The clamp is reachable: repeated bigrams are counted once per pair, so
   * "AAA" against itself gives 4 + 4 - 2 * 6 before the clamp.
   */
  lemma ClampReachable()
    ensures RawDistance("AAA", "AAA") == -4
    ensures Distance("AAA", "AAA") == 0
  {
    var aaa := [['#', 'A'], ['A', 'A'], ['A', 'A'], ['A', '#']];
    BoundaryListShape("AAA");
    assert BoundaryList("AAA") == aaa;
    RepeatedPairCount(aaa);
  }

  /**
   * Two different strings at distance 0: "AAA" against "AA" counts 4
   * matching pairs among 4 and 3 elements, 7 - 8 before the clamp.
   */
  lemma DifferentStringsAtZero()
    ensures "AAA" != "AA" && Distance("AAA", "AA") == 0
  {
    var aaa := [['#', 'A'], ['A', 'A'], ['A', 'A'], ['A', '#']];
    var aa := [['#', 'A'], ['A', 'A'], ['A', '#']];
    BoundaryListShape("AAA");
    assert BoundaryList("AAA") == aaa;
    BoundaryListShape("AA");
    assert BoundaryList("AA") == aa;
    RepeatedPairCountShorter(aaa, aa);
  }

  lemma RepeatedPairCount(aaa: seq<seq<char>>)
    requires aaa == [['#', 'A'], ['A', 'A'], ['A', 'A'], ['A', '#']]
    ensures MatchCount(aaa, aaa) == 6
  {
    assert aaa[..0] == [] && aaa[..4] == aaa;
    MatchCountEmpty([]);
    var m := multiset(aaa);
    assert m == multiset{aaa[0]} + multiset{aaa[1]} + multiset{aaa[2]} + multiset{aaa[3]};
    assert m[aaa[0]] == 1 && m[aaa[1]] == 2 && m[aaa[2]] == 2 && m[aaa[3]] == 1;
    MatchCountStep(aaa, aaa, 0);
    MatchCountStep(aaa, aaa, 1);
    MatchCountStep(aaa, aaa, 2);
    MatchCountStep(aaa, aaa, 3);
  }

  lemma RepeatedPairCountShorter(aaa: seq<seq<char>>, aa: seq<seq<char>>)
    requires aaa == [['#', 'A'], ['A', 'A'], ['A', 'A'], ['A', '#']]
    requires aa == [['#', 'A'], ['A', 'A'], ['A', '#']]
    ensures MatchCount(aaa, aa) == 4
  {
    assert aaa[..0] == [] && aaa[..4] == aaa;
    MatchCountEmpty(aa);
    var n := multiset(aa);
    assert n == multiset{aaa[0]} + multiset{aaa[1]} + multiset{aaa[3]};
    assert n[aaa[0]] == 1 && n[aaa[1]] == 1 && n[aaa[2]] == 1 && n[aaa[3]] == 1;
    MatchCountStep(aaa, aa, 0);
    MatchCountStep(aaa, aa, 1);
    MatchCountStep(aaa, aa, 2);
    MatchCountStep(aaa, aa, 3);
  }

  /** Worked value: "CAT" and "CATS" share #C, CA and AT, so 4 + 5 - 2 * 3 = 3. */
  lemma CatCats()
    ensures Distance("CAT", "CATS") == 3
  {
    var cat := [['#', 'C'], ['C', 'A'], ['A', 'T'], ['T', '#']];
    var cats := [['#', 'C'], ['C', 'A'], ['A', 'T'], ['T', 'S'], ['S', '#']];
    BoundaryListShape("CAT");
    assert BoundaryList("CAT") == cat;
    BoundaryListShape("CATS");
    assert BoundaryList("CATS") == cats;
    CatCatsCount(cat, cats);
  }

  lemma CatCatsCount(cat: seq<seq<char>>, cats: seq<seq<char>>)
    requires cat == [['#', 'C'], ['C', 'A'], ['A', 'T'], ['T', '#']]
    requires cats == [['#', 'C'], ['C', 'A'], ['A', 'T'], ['T', 'S'], ['S', '#']]
    ensures MatchCount(cat, cats) == 3
  {
    assert cat[..0] == [] && cat[..4] == cat;
    MatchCountEmpty([]);
    var m := multiset(cats);
    assert m == multiset{cat[0]} + multiset{cat[1]} + multiset{cat[2]} + multiset{['T', 'S']} + multiset{['S', '#']};
    assert m[cat[0]] == 1 && m[cat[1]] == 1 && m[cat[2]] == 1 && m[cat[3]] == 0;
    MatchCountStep(cat, cats, 0);
    MatchCountStep(cat, cats, 1);
    MatchCountStep(cat, cats, 2);
    MatchCountStep(cat, cats, 3);
  }

  /**
   * Worked values for one-character strings, which get only the start
   * marker: "A" against "A" matches it, so 1 + 1 - 2 = 0; "A" against "AB"
   * matches one of three elements, so 1 + 3 - 2 = 2.
   */
  lemma SingleCharacter()
    ensures Distance("A", "A") == 0
    ensures Distance("A", "AB") == 2
  {
    var a := [['#', 'A']];
    var ab := [['#', 'A'], ['A', 'B'], ['B', '#']];
    BoundaryListShape("A");
    assert BoundaryList("A") == a;
    BoundaryListShape("AB");
    assert BoundaryList("AB") == ab;
    assert a[..0] == [] && a[..1] == a;
    MatchCountEmpty([]);
    MatchCountStep(a, a, 0);
    MatchCountStep(a, ab, 0);
  }
}
