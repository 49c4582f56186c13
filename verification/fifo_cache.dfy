/**
 * The memo tables of the source: a JavaScript `Map` iterates its keys in
 * insertion order, so "delete the first key, then set" evicts the entry that
 * was inserted longest ago (first in, first out).
 */
module FifoCache {
  import opened Wrappers

  /** The entries of the Map, oldest first. */
  type Cache<K, V> = seq<(K, V)>

  ghost predicate DistinctKeys<K, V>(c: Cache<K, V>)
  {
    forall i, j :: 0 <= i < j < |c| ==> c[i].0 != c[j].0
  }

  /** The position of key `k`, or -1: `has` and `get` look it up. */
  function IndexOf<K(==), V>(c: Cache<K, V>, k: K): (i: int)
    ensures -1 <= i < |c|
    ensures i >= 0 ==> c[i].0 == k
    ensures i == -1 <==> forall j :: 0 <= j < |c| ==> c[j].0 != k
  {
    if c == [] then -1
    else if c[0].0 == k then 0
    else
      var i := IndexOf(c[1..], k);
      if i == -1 then -1 else i + 1
  }

  /** `map.get(k)`, with `undefined` as `None`. */
  function Get<K(==), V>(c: Cache<K, V>, k: K): (r: Option<V>)
    ensures r.None? <==> forall j :: 0 <= j < |c| ==> c[j].0 != k
    ensures r.Some? ==> (k, r.value) in c
  {
    var i := IndexOf(c, k);
    if i == -1 then None else Some(c[i].1)
  }

  /** `map.delete(k)`. */
  function Delete<K(==), V>(c: Cache<K, V>, k: K): (r: Cache<K, V>)
  {
    if c == [] then []
    else if c[0].0 == k then Delete(c[1..], k)
    else [c[0]] + Delete(c[1..], k)
  }

  /** `map.set(k, v)`: an existing key keeps its place, a new key goes last. */
  function Set<K(==), V>(c: Cache<K, V>, k: K, v: V): (r: Cache<K, V>)
  {
    var i := IndexOf(c, k);
    if i == -1 then c + [(k, v)] else c[i := (k, v)]
  }

  /** `cacheResult`: when the table is full, delete its first key; then set. */
  function Put<K(==), V>(c: Cache<K, V>, k: K, v: V, capacity: int): (r: Cache<K, V>)
  {
    var evicted := if |c| >= capacity && |c| > 0 then Delete(c, c[0].0) else c;
    Set(evicted, k, v)
  }

  lemma {:induction false} DeleteAbsent<K, V>(c: Cache<K, V>, k: K)
    requires forall j :: 0 <= j < |c| ==> c[j].0 != k
    ensures Delete(c, k) == c
  {
    if c != [] {
      DeleteAbsent(c[1..], k);
    }
  }

  /** Deleting the first key of a table with distinct keys drops exactly its first entry. */
  lemma EvictFirst<K, V>(c: Cache<K, V>)
    requires DistinctKeys(c) && |c| > 0
    ensures Delete(c, c[0].0) == c[1..] && DistinctKeys(c[1..])
  {
    DeleteAbsent(c[1..], c[0].0);
  }

  /** `set` keeps the keys distinct, makes `k` map to `v`, and grows the table only for a new key, placed last. */
  lemma SetProperties<K, V>(c: Cache<K, V>, k: K, v: V)
    requires DistinctKeys(c)
    ensures DistinctKeys(Set(c, k, v))
    ensures Get(Set(c, k, v), k) == Some(v)
    ensures forall e :: e in Set(c, k, v) ==> e == (k, v) || e in c
    ensures Get(c, k).None? ==> Set(c, k, v) == c + [(k, v)]
    ensures Get(c, k).Some? ==> |Set(c, k, v)| == |c|
  {
    var r := Set(c, k, v);
    var i := IndexOf(c, k);
    if i == -1 {
      LastIndex(r, k);
    } else {
      FirstIndexIs(r, k, i);
    }
  }

  /**
   * Putting keeps the keys distinct and the table within its capacity, makes
   * `k` map to `v`, and invents no other entry. For a new key, a full table
   * loses exactly its oldest entry and the new entry goes last.
   */
  lemma PutProperties<K, V>(c: Cache<K, V>, k: K, v: V, capacity: int)
    requires DistinctKeys(c) && |c| <= Max1(capacity)
    ensures DistinctKeys(Put(c, k, v, capacity))
    ensures |Put(c, k, v, capacity)| <= Max1(capacity)
    ensures Get(Put(c, k, v, capacity), k) == Some(v)
    ensures forall e :: e in Put(c, k, v, capacity) ==> e == (k, v) || e in c
    ensures Get(c, k).None? ==>
      Put(c, k, v, capacity) == (if |c| >= capacity && |c| > 0 then c[1..] else c) + [(k, v)]
  {
    var full := |c| >= capacity && |c| > 0;
    var evicted := if full then c[1..] else c;
    if full {
      EvictFirst(c);
    }
    assert Put(c, k, v, capacity) == Set(evicted, k, v);
    SetProperties(evicted, k, v);
    if Get(c, k).None? {
      assert Get(evicted, k).None?;
    }
    forall e | e in evicted
      ensures e in c
    {
    }
  }

  function Max1(capacity: int): int { if capacity < 1 then 1 else capacity }

  lemma {:induction false} LastIndex<K, V>(c: Cache<K, V>, k: K)
    requires |c| > 0 && c[|c| - 1].0 == k
    requires forall j :: 0 <= j < |c| - 1 ==> c[j].0 != k
    ensures IndexOf(c, k) == |c| - 1
  {
    if |c| > 1 {
      LastIndex(c[1..], k);
    }
  }

  /** Looking up another key after putting a new one: gone if it was the evicted oldest key, else as before. */
  lemma GetAfterPut<K, V>(c: Cache<K, V>, k: K, v: V, capacity: int, k': K)
    requires DistinctKeys(c) && |c| <= Max1(capacity) && Get(c, k).None? && k' != k
    ensures Get(Put(c, k, v, capacity), k')
         == if |c| >= capacity && |c| > 0 && c[0].0 == k' then None else Get(c, k')
  {
    PutProperties(c, k, v, capacity);
    var r := Put(c, k, v, capacity);
    if |c| >= capacity && |c| > 0 {
      if c[0].0 == k' {
      } else {
        var i := IndexOf(c, k');
        if i >= 0 {
          assert i > 0;
          FirstIndexIs(r, k', i - 1);
          FirstIndexIs(c, k', i);
        }
      }
    } else {
      var i := IndexOf(c, k');
      if i >= 0 {
        FirstIndexIs(r, k', i);
        FirstIndexIs(c, k', i);
      }
    }
  }

  lemma {:induction false} FirstIndexIs<K, V>(c: Cache<K, V>, k: K, i: nat)
    requires DistinctKeys(c) && i < |c| && c[i].0 == k
    ensures IndexOf(c, k) == i
  {
    if i > 0 {
      FirstIndexIs(c[1..], k, i - 1);
    }
  }
}
