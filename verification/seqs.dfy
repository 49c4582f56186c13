/**
 * The array operations of the source (`filter`, `map`, `slice`) as functions
 * on sequences.
 */
module Seqs {

  function Min(a: int, b: int): int { if a <= b then a else b }

  function Max(a: int, b: int): int { if a >= b then a else b }

  function Abs(x: int): nat { if x < 0 then -x else x }

  /** `s.filter(p)`: the elements satisfying `p`, in their original order. */
  function Filter<T>(s: seq<T>, p: T -> bool): (r: seq<T>)
    ensures |r| <= |s|
    ensures forall i :: 0 <= i < |r| ==> p(r[i])
    ensures forall i :: 0 <= i < |r| ==> r[i] in s
  {
    if s == [] then []
    else (if p(s[0]) then [s[0]] else []) + Filter(s[1..], p)
  }

  /** Membership in a filtered sequence, both directions. */
  lemma {:induction false} FilterMembership<T>(s: seq<T>, p: T -> bool, x: T)
    ensures x in Filter(s, p) <==> x in s && p(x)
  {
    if s != [] {
      FilterMembership(s[1..], p, x);
      assert s == [s[0]] + s[1..];
    }
  }

  /** Filtering keeps exactly the copies of each kept value. */
  lemma {:induction false} FilterCount<T>(s: seq<T>, p: T -> bool, x: T)
    ensures multiset(Filter(s, p))[x] == if p(x) then multiset(s)[x] else 0
  {
    if s != [] {
      FilterCount(s[1..], p, x);
      assert s == [s[0]] + s[1..];
    }
  }

  /** Filtering distributes over concatenation, so it preserves order. */
  lemma {:induction false} FilterConcat<T>(a: seq<T>, b: seq<T>, p: T -> bool)
    ensures Filter(a + b, p) == Filter(a, p) + Filter(b, p)
  {
    if a != [] {
      assert (a + b)[1..] == a[1..] + b;
      FilterConcat(a[1..], b, p);
    } else {
      assert a + b == b;
    }
  }

  /** No value occurs twice. */
  predicate Distinct<T(==)>(s: seq<T>)
  {
    forall i, j :: 0 <= i < j < |s| ==> s[i] != s[j]
  }

  /** Filtering a sequence without repeats leaves none. */
  lemma {:induction false} FilterDistinct<T>(s: seq<T>, p: T -> bool)
    requires Distinct(s)
    ensures Distinct(Filter(s, p))
  {
    if s != [] {
      var rest := Filter(s[1..], p);
      FilterDistinct(s[1..], p);
      FilterMembership(s[1..], p, s[0]);
      assert s[0] !in s[1..] by {
        forall k | 0 <= k < |s| - 1
          ensures s[1..][k] != s[0]
        {
          assert s[1..][k] == s[k + 1];
        }
      }
      var head := if p(s[0]) then [s[0]] else [];
      assert Filter(s, p) == head + rest;
      DistinctAppend(head, rest);
    }
  }

  /** Two sequences without repeats and without a common value concatenate to one without repeats. */
  lemma DistinctAppend<T>(a: seq<T>, b: seq<T>)
    requires Distinct(a) && Distinct(b) && forall x :: x in a ==> x !in b
    ensures Distinct(a + b)
  {
    var r := a + b;
    forall i, j | 0 <= i < j < |r|
      ensures r[i] != r[j]
    {
      if i < |a| {
        assert r[i] in a;
        if j >= |a| {
          assert r[j] == b[j - |a|];
        }
      } else {
        assert r[i] == b[i - |a|] && r[j] == b[j - |a|];
      }
    }
  }

  /** `s.map(f)`. */
  function Map<T, U>(s: seq<T>, f: T -> U): (r: seq<U>)
    ensures |r| == |s|
    ensures forall i :: 0 <= i < |s| ==> r[i] == f(s[i])
  {
    seq(|s|, i requires 0 <= i < |s| => f(s[i]))
  }

  /** The first `k` elements, or all of them when there are fewer. */
  function Take<T>(s: seq<T>, k: nat): (r: seq<T>)
    ensures |r| == Min(k, |s|)
    ensures r <= s
  {
    if k <= |s| then s[..k] else s
  }

  /** The element at `i` of `s.slice(0, k).map(f)`. */
  lemma MapTakeAt<T, U>(s: seq<T>, k: nat, f: T -> U, i: nat)
    requires i < k && i < |s|
    ensures i < |Map(Take(s, k), f)| && Map(Take(s, k), f)[i] == f(s[i])
  {
  }

  /**
   * `s.slice(0, limit)`: a non-negative limit keeps at most `limit` elements;
   * a negative one drops `-limit` elements from the end.
   */
  function Slice<T>(s: seq<T>, limit: int): (r: seq<T>)
    ensures r <= s
    ensures limit >= 0 ==> |r| == Min(limit, |s|)
    ensures limit < 0 ==> |r| == Max(|s| + limit, 0)
  {
    if limit >= 0 then Take(s, limit) else Take(s, Max(|s| + limit, 0))
  }

  lemma AppendAssoc<T>(a: seq<T>, b: seq<T>, c: seq<T>)
    ensures a + b + c == a + (b + c)
  {
  }

  lemma UpdateAppend<T>(s: seq<T>, k: nat, x: T, y: T)
    requires k < |s|
    ensures (s + [y])[k := x] == s[k := x] + [y]
  {
  }

  lemma TakeTake<T>(x: seq<T>, y: seq<T>, k: nat)
    ensures Take(Take(x, k) + y, k) == Take(x + y, k)
  {
  }

  /** Truncating a sequence and then filtering keeps a prefix of the filtered whole. */
  lemma {:induction false} FilterOfPrefix<T>(s: seq<T>, t: seq<T>, p: T -> bool)
    requires s <= t
    ensures Filter(s, p) <= Filter(t, p)
  {
    var rest := t[|s|..];
    assert t == s + rest;
    FilterConcat(s, rest, p);
  }

  /** Filtering keeps the relative order: two kept elements sit at positions `a < b` of `s`. */
  lemma {:induction false} FilterKeepsOrder<T>(s: seq<T>, p: T -> bool, i: nat, j: nat) returns (a: nat, b: nat)
    requires i < j < |Filter(s, p)|
    ensures a < b < |s| && s[a] == Filter(s, p)[i] && s[b] == Filter(s, p)[j]
    decreases |s|
  {
    var tail := s[1..];
    var rest := Filter(tail, p);
    FilterFirst(s, p);
    if p(s[0]) {
      if i == 0 {
        assert rest[j - 1] in tail;
        var k :| 0 <= k < |tail| && tail[k] == rest[j - 1];
        a, b := 0, k + 1;
        assert s[b] == tail[k] && Filter(s, p)[j] == rest[j - 1];
      } else {
        var a', b' := FilterKeepsOrder(tail, p, i - 1, j - 1);
        a, b := a' + 1, b' + 1;
        assert s[a] == tail[a'] && s[b] == tail[b'];
        assert Filter(s, p)[i] == rest[i - 1] && Filter(s, p)[j] == rest[j - 1];
      }
    } else {
      var a', b' := FilterKeepsOrder(tail, p, i, j);
      a, b := a' + 1, b' + 1;
      assert s[a] == tail[a'] && s[b] == tail[b'];
      assert Filter(s, p)[i] == rest[i] && Filter(s, p)[j] == rest[j];
    }
  }

  /** The filtered sequence, position by position, in terms of the filtered tail. */
  lemma FilterFirst<T>(s: seq<T>, p: T -> bool)
    requires s != []
    ensures var rest := Filter(s[1..], p);
      if p(s[0]) then
        |Filter(s, p)| == |rest| + 1 && Filter(s, p)[0] == s[0] &&
        forall k :: 0 < k < |Filter(s, p)| ==> Filter(s, p)[k] == rest[k - 1]
      else
        |Filter(s, p)| == |rest| && forall k :: 0 <= k < |Filter(s, p)| ==> Filter(s, p)[k] == rest[k]
  {
  }

  /** A filter every element passes changes nothing. */
  lemma {:induction false} FilterAll<T>(s: seq<T>, p: T -> bool)
    requires forall k :: 0 <= k < |s| ==> p(s[k])
    ensures Filter(s, p) == s
    decreases |s|
  {
    if s != [] {
      FilterAll(s[1..], p);
      assert s == [s[0]] + s[1..];
    }
  }
}
