/**
 * Levenshtein edit distance: the dynamic-programming recurrence both source
 * files fill a table with, the table-filling loops themselves, and the
 * dictionary loader's variant with early returns.
 */
module EditDistance {
  import opened Seqs

  function Min3(a: int, b: int, c: int): int { Min(a, Min(b, c)) }

  /**
   * The table entry `dp[i][j]`: the distance between the first `i`
   * characters of `a` and the first `j` characters of `b`. Equal last
   * characters cost nothing; otherwise one deletion, insertion or
   * substitution is added to the cheapest neighbour.
   */
  function Dist(a: string, b: string, i: nat, j: nat): nat
    requires i <= |a| && j <= |b|
    decreases i + j
  {
    if i == 0 then j
    else if j == 0 then i
    else if a[i - 1] == b[j - 1] then Dist(a, b, i - 1, j - 1)
    else 1 + Min3(Dist(a, b, i - 1, j), Dist(a, b, i, j - 1), Dist(a, b, i - 1, j - 1))
  }

  /** The Levenshtein distance between two whole strings. */
  function Levenshtein(a: string, b: string): nat
  {
    Dist(a, b, |a|, |b|)
  }

  lemma {:induction false} DistSymmetric(a: string, b: string, i: nat, j: nat)
    requires i <= |a| && j <= |b|
    ensures Dist(a, b, i, j) == Dist(b, a, j, i)
    decreases i + j
  {
    if i > 0 && j > 0 {
      DistSymmetric(a, b, i - 1, j - 1);
      if a[i - 1] != b[j - 1] {
        DistSymmetric(a, b, i - 1, j);
        DistSymmetric(a, b, i, j - 1);
        assert Dist(b, a, j, i) == 1 + Min3(Dist(b, a, j - 1, i), Dist(b, a, j, i - 1), Dist(b, a, j - 1, i - 1));
      }
    }
  }

  lemma {:induction false} DistSelf(a: string, i: nat)
    requires i <= |a|
    ensures Dist(a, a, i, i) == 0
  {
    if i > 0 {
      DistSelf(a, i - 1);
    }
  }

  /** Distance zero only between equal prefixes. */
  lemma {:induction false} DistZero(a: string, b: string, i: nat, j: nat)
    requires i <= |a| && j <= |b|
    requires Dist(a, b, i, j) == 0
    ensures i == j && a[..i] == b[..j]
    decreases i + j
  {
    if i > 0 && j > 0 {
      DistZero(a, b, i - 1, j - 1);
      assert a[..i] == a[..i - 1] + [a[i - 1]];
      assert b[..j] == b[..j - 1] + [b[j - 1]];
    }
  }

  /** Every edit changes the length by at most one. */
  lemma {:induction false} DistAtLeastGap(a: string, b: string, i: nat, j: nat)
    requires i <= |a| && j <= |b|
    ensures Dist(a, b, i, j) >= Abs(i - j)
    decreases i + j
  {
    if i > 0 && j > 0 {
      DistAtLeastGap(a, b, i - 1, j - 1);
      if a[i - 1] != b[j - 1] {
        DistAtLeastGap(a, b, i - 1, j);
        DistAtLeastGap(a, b, i, j - 1);
      }
    }
  }

  /** A distance is never more than the longer of the two lengths. */
  lemma {:induction false} DistAtMostLonger(a: string, b: string, i: nat, j: nat)
    requires i <= |a| && j <= |b|
    ensures Dist(a, b, i, j) <= Max(i, j)
    decreases i + j
  {
    if i > 0 && j > 0 {
      DistAtMostLonger(a, b, i - 1, j - 1);
    }
  }

  /** What the Levenshtein distance is: a symmetric measure, zero exactly on equal strings. */
  lemma LevenshteinProperties(a: string, b: string)
    ensures Levenshtein(a, b) == Levenshtein(b, a)
    ensures Levenshtein(a, b) == 0 <==> a == b
    ensures Abs(|a| - |b|) <= Levenshtein(a, b) <= Max(|a|, |b|)
    ensures a == [] ==> Levenshtein(a, b) == |b|
  {
    DistSymmetric(a, b, |a|, |b|);
    DistAtLeastGap(a, b, |a|, |b|);
    DistAtMostLonger(a, b, |a|, |b|);
    if a == b {
      DistSelf(a, |a|);
    }
    if Levenshtein(a, b) == 0 {
      DistZero(a, b, |a|, |b|);
      assert a == a[..|a|] && b == b[..|b|];
    }
  }

  /**
   * The dictionary loader's distance: the Levenshtein distance, except that
   * equal strings give 0, an empty side gives the other's length, and
   * lengths more than 2 apart give the sentinel 3 without filling a table.
   */
  function PrunedDistance(a: string, b: string): nat
  {
    if a == b then 0
    else if |a| == 0 then |b|
    else if |b| == 0 then |a|
    else if Abs(|a| - |b|) > 2 then 3
    else Levenshtein(a, b)
  }

  /**
   * The shortcuts are exact whenever the lengths are at most 2 apart, and
   * otherwise only conflate distances of 3 and more.
   */
  lemma PrunedDistanceProperties(a: string, b: string)
    ensures PrunedDistance(a, b) == PrunedDistance(b, a)
    ensures PrunedDistance(a, b) == 0 <==> a == b
    ensures Abs(|a| - |b|) <= 2 ==> PrunedDistance(a, b) == Levenshtein(a, b)
    ensures Min(PrunedDistance(a, b), 3) == Min(Levenshtein(a, b), 3)
    ensures PrunedDistance(a, b) <= 2 ==> PrunedDistance(a, b) == Levenshtein(a, b)
  {
    LevenshteinProperties(a, b);
    LevenshteinProperties(b, a);
    if |a| == 0 {
      assert a == [];
    }
    if |b| == 0 {
      assert b == [];
    }
  }

  /** `calculateEditDistance` of the dictionary loader: the shortcuts, then the table. */
  method CalculateEditDistance(word1: string, word2: string) returns (d: nat)
    ensures d == PrunedDistance(word1, word2)
  {
    if word1 == word2 {
      return 0;
    }
    if |word1| == 0 {
      return |word2|;
    }
    if |word2| == 0 {
      return |word1|;
    }
    if Abs(|word1| - |word2|) > 2 {
      return 3;
    }
    d := LevenshteinTable(word1, word2);
  }

  /** Row `i` of the table holds the distances of its first `upto` cells. */
  ghost predicate RowFilled(dp: array2<int>, a: string, b: string, i: nat, upto: nat)
    reads dp
    requires dp.Length0 == |a| + 1 && dp.Length1 == |b| + 1 && i <= |a| && upto <= |b| + 1
  {
    forall j :: 0 <= j < upto ==> dp[i, j] == Dist(a, b, i, j)
  }

  /**
   * The table-filling loops of `calculateEditDistance`: row 0 and column 0
   * hold the distances to the empty prefix, every other cell follows the
   * recurrence from its three neighbours.
   */
  method LevenshteinTable(word1: string, word2: string) returns (d: nat)
    ensures d == Levenshtein(word1, word2)
  {
    var m, n := |word1|, |word2|;
    var dp := new int[m + 1, n + 1];
    for i := 0 to m + 1
      invariant forall i' :: 0 <= i' < i ==> dp[i', 0] == i'
    {
      dp[i, 0] := i;
    }
    for j := 0 to n + 1
      invariant forall i' :: 0 <= i' <= m ==> dp[i', 0] == i'
      invariant RowFilled(dp, word1, word2, 0, j)
    {
      dp[0, j] := j;
    }
    for i := 1 to m + 1
      invariant RowFilled(dp, word1, word2, i - 1, n + 1)
      invariant forall i' :: i <= i' <= m ==> dp[i', 0] == i'
    {
      FillRow(dp, word1, word2, i);
    }
    d := dp[m, n];
  }

  /** The inner loop: fills row `i` from row `i - 1` and the cell to the left. */
  method FillRow(dp: array2<int>, a: string, b: string, i: nat)
    requires dp.Length0 == |a| + 1 && dp.Length1 == |b| + 1 && 1 <= i <= |a|
    requires RowFilled(dp, a, b, i - 1, |b| + 1)
    requires dp[i, 0] == i
    modifies dp
    ensures RowFilled(dp, a, b, i, |b| + 1)
    ensures forall i', j' :: 0 <= i' < dp.Length0 && 0 <= j' < dp.Length1 && i' != i ==> dp[i', j'] == old(dp[i', j'])
  {
    for j := 1 to |b| + 1
      invariant RowFilled(dp, a, b, i - 1, |b| + 1)
      invariant RowFilled(dp, a, b, i, j)
      invariant forall i', j' :: 0 <= i' < dp.Length0 && 0 <= j' < dp.Length1 && i' != i ==> dp[i', j'] == old(dp[i', j'])
    {
      if a[i - 1] == b[j - 1] {
        dp[i, j] := dp[i - 1, j - 1];
      } else {
        dp[i, j] := 1 + Min3(dp[i - 1, j], dp[i, j - 1], dp[i - 1, j - 1]);
      }
    }
  }
}
