/**
 * `Array.prototype.sort` with a numeric comparator, as the source uses it:
 * a stable sort. Every comparator in the source compares a primary key
 * ascending and then a secondary key descending (either may be constant),
 * so one `Rank` pair covers them all.
 */
module Ranking {
  import opened Seqs

  /** The sort key: `primary` ascending, then `secondary` descending. */
  datatype Rank = Rank(primary: int, secondary: int)

  /** The comparator is negative: `a` must be placed strictly before `b`. */
  predicate Before(a: Rank, b: Rank)
  {
    a.primary < b.primary || (a.primary == b.primary && a.secondary > b.secondary)
  }

  /** No element ranks strictly before an element placed ahead of it. */
  ghost predicate SortedBy<T>(s: seq<T>, rank: T -> Rank)
  {
    forall i, j :: 0 <= i < j < |s| ==> !Before(rank(s[j]), rank(s[i]))
  }

  lemma SortedAt<T>(s: seq<T>, rank: T -> Rank, i: nat, j: nat)
    requires SortedBy(s, rank) && i < j < |s|
    ensures !Before(rank(s[j]), rank(s[i]))
  {
  }

  /** The elements of `s` whose key is exactly `k`, in their order in `s`. */
  function WithRank<T>(s: seq<T>, rank: T -> Rank, k: Rank): seq<T>
  {
    if s == [] then []
    else (if rank(s[0]) == k then [s[0]] else []) + WithRank(s[1..], rank, k)
  }

  /** Places `x` ahead of every element of `s` that does not rank strictly before it. */
  function InsertByRank<T>(x: T, s: seq<T>, rank: T -> Rank): (r: seq<T>)
    ensures |r| == |s| + 1
  {
    if s == [] then [x]
    else if Before(rank(s[0]), rank(x)) then
      assert s == [s[0]] + s[1..];
      [s[0]] + InsertByRank(x, s[1..], rank)
    else [x] + s
  }

  /** Insertion sort, which is stable: it places each element before its equals. */
  function SortByRank<T>(s: seq<T>, rank: T -> Rank): (r: seq<T>)
    ensures |r| == |s|
  {
    if s == [] then []
    else
      assert s == [s[0]] + s[1..];
      InsertByRank(s[0], SortByRank(s[1..], rank), rank)
  }

  lemma {:induction false} InsertPermutes<T>(x: T, s: seq<T>, rank: T -> Rank)
    ensures multiset(InsertByRank(x, s, rank)) == multiset(s) + multiset{x}
  {
    if s != [] && Before(rank(s[0]), rank(x)) {
      InsertPermutes(x, s[1..], rank);
      assert s == [s[0]] + s[1..];
    }
  }

  /** The sort is a permutation. */
  lemma {:induction false} SortPermutes<T>(s: seq<T>, rank: T -> Rank)
    ensures multiset(SortByRank(s, rank)) == multiset(s)
  {
    if s != [] {
      SortPermutes(s[1..], rank);
      InsertPermutes(s[0], SortByRank(s[1..], rank), rank);
      assert s == [s[0]] + s[1..];
    }
  }

  lemma {:induction false} InsertKeepsSorted<T>(x: T, s: seq<T>, rank: T -> Rank)
    requires SortedBy(s, rank)
    ensures SortedBy(InsertByRank(x, s, rank), rank)
  {
    var r := InsertByRank(x, s, rank);
    if s == [] {
    } else if Before(rank(s[0]), rank(x)) {
      InsertKeepsSorted(x, s[1..], rank);
      var tail := InsertByRank(x, s[1..], rank);
      InsertPermutes(x, s[1..], rank);
      assert r == [s[0]] + tail;
      forall j | 0 < j < |r|
        ensures !Before(rank(r[j]), rank(r[0]))
      {
        assert r[j] == tail[j - 1];
        assert r[j] in multiset(tail);
        assert r[j] in multiset(s[1..]) || r[j] == x;
        if r[j] != x {
          var k :| 0 <= k < |s[1..]| && s[1..][k] == r[j];
          assert s[k + 1] == r[j];
        }
      }
    } else {
      assert r == [x] + s;
      forall j | 0 < j < |r|
        ensures !Before(rank(r[j]), rank(r[0]))
      {
        assert r[j] == s[j - 1];
        assert !Before(rank(s[j - 1]), rank(s[0]));
      }
    }
  }

  /** The sort orders its result by rank. */
  lemma {:induction false} SortIsSorted<T>(s: seq<T>, rank: T -> Rank)
    ensures SortedBy(SortByRank(s, rank), rank)
  {
    if s != [] {
      SortIsSorted(s[1..], rank);
      InsertKeepsSorted(s[0], SortByRank(s[1..], rank), rank);
    }
  }

  lemma WithRankCons<T>(x: T, s: seq<T>, rank: T -> Rank, k: Rank)
    ensures WithRank([x] + s, rank, k) == (if rank(x) == k then [x] else []) + WithRank(s, rank, k)
  {
    assert ([x] + s)[1..] == s;
  }

  lemma {:induction false} WithRankInsert<T>(x: T, s: seq<T>, rank: T -> Rank, k: Rank)
    ensures WithRank(InsertByRank(x, s, rank), rank, k)
         == (if rank(x) == k then [x] else []) + WithRank(s, rank, k)
  {
    if s == [] {
      WithRankCons(x, s, rank, k);
      assert [x] + s == [x];
    } else if Before(rank(s[0]), rank(x)) {
      var tail := InsertByRank(x, s[1..], rank);
      assert InsertByRank(x, s, rank) == [s[0]] + tail;
      WithRankInsert(x, s[1..], rank, k);
      WithRankCons(s[0], tail, rank, k);
      var rest := WithRank(s[1..], rank, k);
      if rank(x) == k {
        // the element skipped over ranks strictly before x, so not at k
        assert rank(s[0]) != k;
        calc {
          WithRank(InsertByRank(x, s, rank), rank, k);
          WithRank(tail, rank, k);
          [x] + rest;
          [x] + WithRank(s, rank, k);
        }
      } else {
        var head := if rank(s[0]) == k then [s[0]] else [];
        calc {
          WithRank(InsertByRank(x, s, rank), rank, k);
          head + WithRank(tail, rank, k);
          head + rest;
          WithRank(s, rank, k);
          [] + WithRank(s, rank, k);
        }
      }
    } else {
      WithRankCons(x, s, rank, k);
    }
  }

  /** Stability: elements with equal keys keep their original relative order. */
  lemma {:induction false} SortIsStable<T>(s: seq<T>, rank: T -> Rank, k: Rank)
    ensures WithRank(SortByRank(s, rank), rank, k) == WithRank(s, rank, k)
  {
    if s != [] {
      SortIsStable(s[1..], rank, k);
      WithRankInsert(s[0], SortByRank(s[1..], rank), rank, k);
    }
  }

  /** A prefix keeps, for every key, a prefix of the elements with that key. */
  lemma {:induction false} WithRankOfPrefix<T>(s: seq<T>, t: seq<T>, rank: T -> Rank, k: Rank)
    requires s <= t
    ensures WithRank(s, rank, k) <= WithRank(t, rank, k)
  {
    if s != [] {
      assert t[1..] == t[1..];
      assert s[1..] <= t[1..];
      WithRankOfPrefix(s[1..], t[1..], rank, k);
    }
  }

  /**
   * Top-k: in a sorted sequence, an element left out of the first `k` means
   * that all `k` places went to elements ranking no later than it.
   */
  lemma TopOfSorted<T>(s: seq<T>, rank: T -> Rank, k: nat, x: T)
    requires SortedBy(s, rank)
    requires x in s && x !in Take(s, k)
    ensures |Take(s, k)| == k
    ensures forall y :: y in Take(s, k) ==> !Before(rank(x), rank(y))
  {
    var j :| 0 <= j < |s| && s[j] == x;
    assert j >= k;
    forall y | y in Take(s, k)
      ensures !Before(rank(x), rank(y))
    {
      var i :| 0 <= i < k && s[i] == y;
    }
  }
}
