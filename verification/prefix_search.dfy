/**
 * What `DictionaryTrie.search` returns, as functions of the trie and the
 * record store, and the invariant tying the trie to `wordMap`.
 *
 * Records are shared objects in the source (the same record sits in
 * `wordMap`, in `words` and in a trie node), so the model keeps them in a
 * store indexed by id and lets every holder keep the id. A trie node's
 * `wordData` is `Some(id)` or `None`.
 */
module PrefixSearch {
  import opened Wrappers
  import opened Text
  import opened Seqs
  import opened Ranking
  import opened TrieArena
  import opened WordRecords

  type LoaderNode = Node<Option<nat>>

  /** `dfs` stops collecting once it holds this many records. */
  const DfsCap: nat := 50

  /** Every record id held by a node names a record of the store. */
  predicate DataInStore(nodes: seq<LoaderNode>, store: seq<WordRecord>)
  {
    forall m :: 0 <= m < |nodes| && nodes[m].data.Some? ==> nodes[m].data.value < |store|
  }

  /** `x` is the record `wordMap` holds for its own lower-cased word. */
  ghost predicate Live(store: seq<WordRecord>, wordMap: map<string, nat>, x: WordRecord)
  {
    Lower(x.word) in wordMap && wordMap[Lower(x.word)] < |store| && store[wordMap[Lower(x.word)]] == x
  }

  /** Node `m` ends a word exactly when it holds a record, and that record is the one `wordMap` holds for its path. */
  ghost predicate NodeOk(nodes: seq<LoaderNode>, labels: seq<string>, store: seq<WordRecord>, wordMap: map<string, nat>, m: nat)
    requires m < |nodes| && |labels| == |nodes|
  {
    && (nodes[m].isEndOfWord <==> nodes[m].data.Some?)
    && (nodes[m].data.Some? ==>
          nodes[m].data.value < |store| && labels[m] in wordMap && wordMap[labels[m]] == nodes[m].data.value)
  }

  /** The record `wordMap` holds for `w` is spelled `w` (after lower-casing) and sits at the end of the path `w`. */
  ghost predicate EntryOk(nodes: seq<LoaderNode>, store: seq<WordRecord>, wordMap: map<string, nat>, w: string)
    requires Linked(nodes) && w in wordMap
  {
    && wordMap[w] < |store|
    && Lower(store[wordMap[w]].word) == w
    && match Walk(nodes, 0, w)
       case None => false
       case Some(m) => nodes[m].data == Some(wordMap[w])
  }

  /** The invariant `insert` keeps between the trie, `wordMap` and the record store. */
  ghost predicate Consistent(nodes: seq<LoaderNode>, labels: seq<string>, store: seq<WordRecord>, wordMap: map<string, nat>)
  {
    && Shaped(nodes, labels)
    && (forall m :: 0 <= m < |nodes| ==> NodeOk(nodes, labels, store, wordMap, m))
    && (forall w :: w in wordMap ==> EntryOk(nodes, store, wordMap, w))
  }

  lemma ConsistentDataInStore(nodes: seq<LoaderNode>, labels: seq<string>, store: seq<WordRecord>, wordMap: map<string, nat>)
    requires Consistent(nodes, labels, store, wordMap)
    ensures DataInStore(nodes, store)
  {
    forall m | 0 <= m < |nodes| && nodes[m].data.Some?
      ensures nodes[m].data.value < |store|
    {
      assert NodeOk(nodes, labels, store, wordMap, m);
    }
  }

  /** `wordMap.has(w)` agrees with walking the trie: the key set is exactly the set of paths that end a word. */
  lemma {:induction false} MapMatchesTrie(nodes: seq<LoaderNode>, labels: seq<string>, store: seq<WordRecord>, wordMap: map<string, nat>, w: string)
    requires Consistent(nodes, labels, store, wordMap)
    ensures w in wordMap <==> TerminalAt(nodes, w)
    ensures w in wordMap ==> nodes[Walk(nodes, 0, w).value].data == Some(wordMap[w])
  {
    if w in wordMap {
      assert EntryOk(nodes, store, wordMap, w);
      var m := Walk(nodes, 0, w).value;
      assert NodeOk(nodes, labels, store, wordMap, m);
    }
    if TerminalAt(nodes, w) {
      var m := Walk(nodes, 0, w).value;
      assert NodeOk(nodes, labels, store, wordMap, m);
      WalkLabel(nodes, labels, 0, w);
      assert labels[m] == w;
    }
  }

  // ---------------------------------------------------------------- dfs

  /** The record `dfs` pushes for node `n`, if it ends a word. */
  function NodeRecord(nodes: seq<LoaderNode>, store: seq<WordRecord>, n: nat): seq<WordRecord>
    requires DataInStore(nodes, store) && n < |nodes|
  {
    if nodes[n].isEndOfWord && nodes[n].data.Some? then [store[nodes[n].data.value]] else []
  }

  /** `a.wordData?.frequency || 0` for the node an edge leads to. */
  function ChildFrequency(nodes: seq<LoaderNode>, store: seq<WordRecord>, e: Edge): int
  {
    if e.child < |nodes| && nodes[e.child].data.Some? && nodes[e.child].data.value < |store|
    then store[nodes[e.child].data.value].frequency
    else 0
  }

  /** Children are visited by the frequency of the child's own record, highest first. */
  function ChildRank(nodes: seq<LoaderNode>, store: seq<WordRecord>): Edge -> Rank
  {
    e => Rank(0, ChildFrequency(nodes, store, e))
  }

  /** `Array.from(node.children.entries()).sort(...)`: a stable reordering of the children. */
  function SortedChildren(nodes: seq<LoaderNode>, store: seq<WordRecord>, n: nat): (r: seq<Edge>)
    requires n < |nodes|
    ensures multiset(r) == multiset(nodes[n].children)
    ensures forall e :: e in r <==> e in nodes[n].children
  {
    var r := SortByRank(nodes[n].children, ChildRank(nodes, store));
    SortPermutes(nodes[n].children, ChildRank(nodes, store));
    assert forall e :: e in r <==> e in multiset(r);
    r
  }

  lemma SortedChildrenBelow(nodes: seq<LoaderNode>, store: seq<WordRecord>, n: nat)
    requires Linked(nodes) && n < |nodes|
    ensures forall e :: e in SortedChildren(nodes, store, n) ==> n < e.child < |nodes|
  {
  }

  /**
   * `dfs(node, prefix, results)` applied to `acc`: the results array after
   * the call. It stops at `DfsCap` records, before the node and before each
   * child.
   */
  function Collect(nodes: seq<LoaderNode>, store: seq<WordRecord>, n: nat, acc: seq<WordRecord>): seq<WordRecord>
    requires Linked(nodes) && DataInStore(nodes, store) && n < |nodes|
    decreases |nodes| - n, 1
  {
    if |acc| >= DfsCap then acc
    else CollectChildren(nodes, store, n, SortedChildren(nodes, store, n), acc + NodeRecord(nodes, store, n))
  }

  /** The loop of `dfs` over the sorted children `edges` of `parent`. */
  function CollectChildren(nodes: seq<LoaderNode>, store: seq<WordRecord>, parent: nat, edges: seq<Edge>, acc: seq<WordRecord>): seq<WordRecord>
    requires Linked(nodes) && DataInStore(nodes, store) && parent < |nodes|
    requires forall e :: e in edges ==> parent < e.child < |nodes|
    decreases |nodes| - parent, 0, |edges|
  {
    if edges == [] || |acc| >= DfsCap then acc
    else CollectChildren(nodes, store, parent, edges[1..], Collect(nodes, store, edges[0].child, acc))
  }

  /** The same traversal with no cap: every record below `n`, in visiting order. */
  function CollectAll(nodes: seq<LoaderNode>, store: seq<WordRecord>, n: nat): seq<WordRecord>
    requires Linked(nodes) && DataInStore(nodes, store) && n < |nodes|
    decreases |nodes| - n, 1
  {
    NodeRecord(nodes, store, n) + CollectAllChildren(nodes, store, n, SortedChildren(nodes, store, n))
  }

  function CollectAllChildren(nodes: seq<LoaderNode>, store: seq<WordRecord>, parent: nat, edges: seq<Edge>): seq<WordRecord>
    requires Linked(nodes) && DataInStore(nodes, store) && parent < |nodes|
    requires forall e :: e in edges ==> parent < e.child < |nodes|
    decreases |nodes| - parent, 0, |edges|
  {
    if edges == [] then []
    else CollectAll(nodes, store, edges[0].child) + CollectAllChildren(nodes, store, parent, edges[1..])
  }

  /** The capped traversal is the uncapped one cut at `DfsCap`. */
  lemma {:induction false} CollectTruncates(nodes: seq<LoaderNode>, store: seq<WordRecord>, n: nat, acc: seq<WordRecord>)
    requires Linked(nodes) && DataInStore(nodes, store) && n < |nodes|
    requires |acc| <= DfsCap
    ensures Collect(nodes, store, n, acc) == Take(acc + CollectAll(nodes, store, n), DfsCap)
    decreases |nodes| - n, 1
  {
    var all := CollectAll(nodes, store, n);
    if |acc| == DfsCap {
      assert (acc + all)[..DfsCap] == acc;
    } else {
      var acc1 := acc + NodeRecord(nodes, store, n);
      var edges := SortedChildren(nodes, store, n);
      var rest := CollectAllChildren(nodes, store, n, edges);
      CollectChildrenTruncates(nodes, store, n, edges, acc1);
      assert Collect(nodes, store, n, acc) == CollectChildren(nodes, store, n, edges, acc1);
      assert all == NodeRecord(nodes, store, n) + rest;
      AppendAssoc(acc, NodeRecord(nodes, store, n), rest);
    }
  }

  lemma {:induction false} CollectChildrenTruncates(nodes: seq<LoaderNode>, store: seq<WordRecord>, parent: nat, edges: seq<Edge>, acc: seq<WordRecord>)
    requires Linked(nodes) && DataInStore(nodes, store) && parent < |nodes|
    requires forall e :: e in edges ==> parent < e.child < |nodes|
    requires |acc| <= DfsCap
    ensures CollectChildren(nodes, store, parent, edges, acc)
         == Take(acc + CollectAllChildren(nodes, store, parent, edges), DfsCap)
    decreases |nodes| - parent, 0, |edges|
  {
    if edges == [] {
      assert acc + [] == acc;
    } else if |acc| < DfsCap {
      var c := edges[0].child;
      var head := CollectAll(nodes, store, c);
      var rest := CollectAllChildren(nodes, store, parent, edges[1..]);
      CollectTruncates(nodes, store, c, acc);
      var acc' := Collect(nodes, store, c, acc);
      CollectChildrenTruncates(nodes, store, parent, edges[1..], acc');
      TakeTake(acc + head, rest, DfsCap);
      AppendAssoc(acc, head, rest);
    }
  }

  /** Every record the traversal from `n` finds is live and spelled with `n`'s path as a prefix. */
  lemma {:induction false} CollectAllSound(nodes: seq<LoaderNode>, labels: seq<string>, store: seq<WordRecord>, wordMap: map<string, nat>, n: nat)
    requires Consistent(nodes, labels, store, wordMap) && n < |nodes|
    ensures DataInStore(nodes, store)
    ensures forall x :: x in CollectAll(nodes, store, n) ==> Live(store, wordMap, x) && labels[n] <= Lower(x.word)
    decreases |nodes| - n, 1
  {
    ConsistentDataInStore(nodes, labels, store, wordMap);
    if nodes[n].isEndOfWord && nodes[n].data.Some? {
      assert NodeOk(nodes, labels, store, wordMap, n);
      assert EntryOk(nodes, store, wordMap, labels[n]);
    }
    CollectAllChildrenSound(nodes, labels, store, wordMap, n, SortedChildren(nodes, store, n));
  }

  lemma {:induction false} CollectAllChildrenSound(nodes: seq<LoaderNode>, labels: seq<string>, store: seq<WordRecord>, wordMap: map<string, nat>, parent: nat, edges: seq<Edge>)
    requires Consistent(nodes, labels, store, wordMap) && parent < |nodes|
    requires forall e :: e in edges ==> e in nodes[parent].children
    ensures DataInStore(nodes, store)
    ensures forall x :: x in CollectAllChildren(nodes, store, parent, edges) ==> Live(store, wordMap, x) && labels[parent] <= Lower(x.word)
    decreases |nodes| - parent, 0, |edges|
  {
    ConsistentDataInStore(nodes, labels, store, wordMap);
    if edges != [] {
      var e := edges[0];
      assert e in nodes[parent].children;
      assert labels[e.child] == labels[parent] + [e.ch];
      CollectAllSound(nodes, labels, store, wordMap, e.child);
      CollectAllChildrenSound(nodes, labels, store, wordMap, parent, edges[1..]);
    }
  }

  /** A record found below the `e` child of `parent` is found by the loop over any edge list holding `e`. */
  lemma {:induction false} CollectAllChildrenHas(nodes: seq<LoaderNode>, store: seq<WordRecord>, parent: nat, edges: seq<Edge>, e: Edge, x: WordRecord)
    requires Linked(nodes) && DataInStore(nodes, store) && parent < |nodes|
    requires forall e :: e in edges ==> parent < e.child < |nodes|
    requires e in edges && x in CollectAll(nodes, store, e.child)
    ensures x in CollectAllChildren(nodes, store, parent, edges)
  {
    if edges[0] != e {
      CollectAllChildrenHas(nodes, store, parent, edges[1..], e, x);
    }
  }

  /** The record at the end of any path from `n` is found by the traversal from `n`. */
  lemma {:induction false} CollectAllFinds(nodes: seq<LoaderNode>, store: seq<WordRecord>, n: nat, t: string)
    requires Linked(nodes) && DataInStore(nodes, store) && n < |nodes|
    requires Walk(nodes, n, t).Some?
    ensures forall x :: x in NodeRecord(nodes, store, Walk(nodes, n, t).value) ==> x in CollectAll(nodes, store, n)
    decreases |t|
  {
    if t != [] {
      var c := Lookup(nodes[n].children, t[0]).value;
      CollectAllFinds(nodes, store, c, t[1..]);
      forall x | x in NodeRecord(nodes, store, Walk(nodes, n, t).value)
        ensures x in CollectAll(nodes, store, n)
      {
        CollectAllChildrenHas(nodes, store, n, SortedChildren(nodes, store, n), Edge(t[0], c), x);
      }
    }
  }

  // ---------------------------------------------------------------- search

  /** Every record stored under the prefix `lowerPrefix`, in the order `dfs` visits them, without the cap. */
  function WordsUnder(nodes: seq<LoaderNode>, store: seq<WordRecord>, lowerPrefix: string): seq<WordRecord>
    requires Linked(nodes) && DataInStore(nodes, store)
  {
    match Walk(nodes, 0, lowerPrefix)
    case None => []
    case Some(q) => CollectAll(nodes, store, q)
  }

  lemma WordsUnderSound(nodes: seq<LoaderNode>, labels: seq<string>, store: seq<WordRecord>, wordMap: map<string, nat>, lowerPrefix: string, x: WordRecord)
    requires Consistent(nodes, labels, store, wordMap) && DataInStore(nodes, store)
    requires x in WordsUnder(nodes, store, lowerPrefix)
    ensures Live(store, wordMap, x) && lowerPrefix <= Lower(x.word)
  {
    var q := Walk(nodes, 0, lowerPrefix).value;
    WalkLabel(nodes, labels, 0, lowerPrefix);
    assert labels[0] + lowerPrefix == lowerPrefix;
    CollectAllSound(nodes, labels, store, wordMap, q);
  }

  lemma WordsUnderComplete(nodes: seq<LoaderNode>, labels: seq<string>, store: seq<WordRecord>, wordMap: map<string, nat>, lowerPrefix: string, x: WordRecord)
    requires Consistent(nodes, labels, store, wordMap) && DataInStore(nodes, store)
    requires Live(store, wordMap, x) && lowerPrefix <= Lower(x.word)
    ensures x in WordsUnder(nodes, store, lowerPrefix)
  {
    var w := Lower(x.word);
    assert EntryOk(nodes, store, wordMap, w);
    var m := Walk(nodes, 0, w).value;
    assert NodeOk(nodes, labels, store, wordMap, m);
    assert NodeRecord(nodes, store, m) == [x];
    var rest := w[|lowerPrefix|..];
    assert lowerPrefix + rest == w;
    WalkConcat(nodes, 0, lowerPrefix, rest);
    var q := Walk(nodes, 0, lowerPrefix).value;
    CollectAllFinds(nodes, store, q, rest);
  }

  /** The records under a prefix are exactly the live records whose lower-cased word starts with it. */
  lemma WordsUnderExact(nodes: seq<LoaderNode>, labels: seq<string>, store: seq<WordRecord>, wordMap: map<string, nat>, lowerPrefix: string, x: WordRecord)
    requires Consistent(nodes, labels, store, wordMap)
    ensures DataInStore(nodes, store)
    ensures x in WordsUnder(nodes, store, lowerPrefix) <==> Live(store, wordMap, x) && lowerPrefix <= Lower(x.word)
  {
    ConsistentDataInStore(nodes, labels, store, wordMap);
    if x in WordsUnder(nodes, store, lowerPrefix) {
      WordsUnderSound(nodes, labels, store, wordMap, lowerPrefix, x);
    }
    if Live(store, wordMap, x) && lowerPrefix <= Lower(x.word) {
      WordsUnderComplete(nodes, labels, store, wordMap, lowerPrefix, x);
    }
  }

  /** The sort key of `search`: frequency, highest first. */
  function FrequencyRank(x: WordRecord): Rank
  {
    Rank(0, x.frequency)
  }

  /** `search(prefix, limit)` on a cache miss, with `lowerPrefix` the lower-cased prefix. */
  function SearchSpec(nodes: seq<LoaderNode>, store: seq<WordRecord>, lowerPrefix: string, limit: int): seq<WordRecord>
    requires Linked(nodes) && DataInStore(nodes, store)
  {
    match Walk(nodes, 0, lowerPrefix)
    case None => []
    case Some(q) => Slice(SortByRank(Collect(nodes, store, q, []), FrequencyRank), limit)
  }

  /** The records `search` ranks: the first `DfsCap` of those under the prefix. */
  lemma SearchCandidates(nodes: seq<LoaderNode>, store: seq<WordRecord>, lowerPrefix: string)
    requires Linked(nodes) && DataInStore(nodes, store)
    ensures Walk(nodes, 0, lowerPrefix).Some? ==>
      Collect(nodes, store, Walk(nodes, 0, lowerPrefix).value, []) == Take(WordsUnder(nodes, store, lowerPrefix), DfsCap)
  {
    if Walk(nodes, 0, lowerPrefix).Some? {
      var q := Walk(nodes, 0, lowerPrefix).value;
      CollectTruncates(nodes, store, q, []);
      assert [] + CollectAll(nodes, store, q) == CollectAll(nodes, store, q);
    }
  }

  /** A prefix with no path in the trie starts no stored word, and `search` returns nothing for it. */
  lemma SearchMissingPrefix(nodes: seq<LoaderNode>, labels: seq<string>, store: seq<WordRecord>, wordMap: map<string, nat>, lowerPrefix: string, limit: int)
    requires Consistent(nodes, labels, store, wordMap)
    ensures DataInStore(nodes, store)
    ensures Walk(nodes, 0, lowerPrefix).None? ==>
      SearchSpec(nodes, store, lowerPrefix, limit) == [] && forall w :: w in wordMap ==> !(lowerPrefix <= w)
  {
    ConsistentDataInStore(nodes, labels, store, wordMap);
    if Walk(nodes, 0, lowerPrefix).None? {
      forall w | w in wordMap
        ensures !(lowerPrefix <= w)
      {
        assert EntryOk(nodes, store, wordMap, w);
        if lowerPrefix <= w {
          assert lowerPrefix + w[|lowerPrefix|..] == w;
          WalkConcat(nodes, 0, lowerPrefix, w[|lowerPrefix|..]);
        }
      }
    }
  }

  /**
   * The result holds at most `limit` records (when `limit` is not negative)
   * and at most `DfsCap`, ordered by frequency, highest first.
   */
  lemma SearchRanked(nodes: seq<LoaderNode>, store: seq<WordRecord>, lowerPrefix: string, limit: int)
    requires Linked(nodes) && DataInStore(nodes, store)
    ensures |SearchSpec(nodes, store, lowerPrefix, limit)| <= DfsCap
    ensures limit >= 0 ==> |SearchSpec(nodes, store, lowerPrefix, limit)| <= limit
    ensures forall i, j :: 0 <= i < j < |SearchSpec(nodes, store, lowerPrefix, limit)| ==>
      SearchSpec(nodes, store, lowerPrefix, limit)[i].frequency >= SearchSpec(nodes, store, lowerPrefix, limit)[j].frequency
  {
    var r := SearchSpec(nodes, store, lowerPrefix, limit);
    match Walk(nodes, 0, lowerPrefix)
    case None =>
    case Some(q) =>
      var c := Collect(nodes, store, q, []);
      SearchCandidates(nodes, store, lowerPrefix);
      var s := SortByRank(c, FrequencyRank);
      SortIsSorted(c, FrequencyRank);
      assert r <= s;
      forall i, j | 0 <= i < j < |r|
        ensures r[i].frequency >= r[j].frequency
      {
        assert r[i] == s[i] && r[j] == s[j];
        assert !Before(FrequencyRank(s[j]), FrequencyRank(s[i]));
      }
  }

  /** Every record `search` returns is the live record of a word starting with the prefix. */
  lemma SearchSound(nodes: seq<LoaderNode>, labels: seq<string>, store: seq<WordRecord>, wordMap: map<string, nat>, lowerPrefix: string, limit: int)
    requires Consistent(nodes, labels, store, wordMap)
    ensures DataInStore(nodes, store)
    ensures forall x :: x in SearchSpec(nodes, store, lowerPrefix, limit) ==>
      Live(store, wordMap, x) && lowerPrefix <= Lower(x.word)
  {
    ConsistentDataInStore(nodes, labels, store, wordMap);
    var r := SearchSpec(nodes, store, lowerPrefix, limit);
    match Walk(nodes, 0, lowerPrefix)
    case None =>
    case Some(q) =>
      var c := Collect(nodes, store, q, []);
      SearchCandidates(nodes, store, lowerPrefix);
      var s := SortByRank(c, FrequencyRank);
      SortPermutes(c, FrequencyRank);
      forall x | x in r
        ensures Live(store, wordMap, x) && lowerPrefix <= Lower(x.word)
      {
        assert x in s;
        assert x in multiset(s);
        assert x in c;
        WordsUnderExact(nodes, labels, store, wordMap, lowerPrefix, x);
      }
  }

  /**
   * When at most `DfsCap` words share the prefix, `search` returns the
   * `limit` most frequent of them: a matching word left out has a frequency
   * no higher than any returned one, and only when `limit` records came back.
   */
  lemma SearchTopK(nodes: seq<LoaderNode>, labels: seq<string>, store: seq<WordRecord>, wordMap: map<string, nat>, lowerPrefix: string, limit: int, x: WordRecord)
    requires Consistent(nodes, labels, store, wordMap)
    requires limit >= 0
    requires Live(store, wordMap, x) && lowerPrefix <= Lower(x.word)
    ensures DataInStore(nodes, store)
    ensures |WordsUnder(nodes, store, lowerPrefix)| <= DfsCap ==>
      x in SearchSpec(nodes, store, lowerPrefix, limit) ||
      (|SearchSpec(nodes, store, lowerPrefix, limit)| == limit &&
       forall y :: y in SearchSpec(nodes, store, lowerPrefix, limit) ==> y.frequency >= x.frequency)
  {
    ConsistentDataInStore(nodes, labels, store, wordMap);
    var all := WordsUnder(nodes, store, lowerPrefix);
    if |all| <= DfsCap {
      WordsUnderExact(nodes, labels, store, wordMap, lowerPrefix, x);
      var q := Walk(nodes, 0, lowerPrefix).value;
      SearchCandidates(nodes, store, lowerPrefix);
      var c := Collect(nodes, store, q, []);
      assert c == all;
      var s := SortByRank(c, FrequencyRank);
      SortPermutes(c, FrequencyRank);
      assert x in multiset(c);
      assert x in s;
      SortIsSorted(c, FrequencyRank);
      if x !in SearchSpec(nodes, store, lowerPrefix, limit) {
        TopOfSorted(s, FrequencyRank, limit, x);
      }
    }
  }

  /** Records of equal frequency come back in the order `dfs` found them (the sort is stable). */
  lemma SearchTiesInVisitOrder(nodes: seq<LoaderNode>, store: seq<WordRecord>, lowerPrefix: string, limit: int, frequency: int)
    requires Linked(nodes) && DataInStore(nodes, store)
    ensures WithRank(SearchSpec(nodes, store, lowerPrefix, limit), FrequencyRank, Rank(0, frequency))
         <= WithRank(WordsUnder(nodes, store, lowerPrefix), FrequencyRank, Rank(0, frequency))
  {
    var k := Rank(0, frequency);
    match Walk(nodes, 0, lowerPrefix)
    case None =>
    case Some(q) =>
      var c := Collect(nodes, store, q, []);
      SearchCandidates(nodes, store, lowerPrefix);
      var s := SortByRank(c, FrequencyRank);
      WithRankOfPrefix(SearchSpec(nodes, store, lowerPrefix, limit), s, FrequencyRank, k);
      SortIsStable(c, FrequencyRank, k);
      WithRankOfPrefix(c, WordsUnder(nodes, store, lowerPrefix), FrequencyRank, k);
  }

  // ---------------------------------------------------------------- insert steps

  /** Adding a missing child keeps the invariant (the new node ends no word). */
  lemma AddChildConsistent(nodes: seq<LoaderNode>, labels: seq<string>, store: seq<WordRecord>, wordMap: map<string, nat>, p: nat, c: char)
    requires Consistent(nodes, labels, store, wordMap)
    requires p < |nodes| && Lookup(nodes[p].children, c).None?
    ensures Consistent(AddChild(nodes, p, c, None), labels + [labels[p] + [c]], store, wordMap)
  {
    AddChildShaped(nodes, labels, p, c, None);
    AddChildNodesOk(nodes, labels, store, wordMap, p, c);
    AddChildEntriesOk(nodes, labels, store, wordMap, p, c);
  }

  lemma AddChildNodesOk(nodes: seq<LoaderNode>, labels: seq<string>, store: seq<WordRecord>, wordMap: map<string, nat>, p: nat, c: char)
    requires Consistent(nodes, labels, store, wordMap)
    requires p < |nodes| && Lookup(nodes[p].children, c).None?
    ensures var r := AddChild(nodes, p, c, None);
      forall m :: 0 <= m < |r| ==> NodeOk(r, labels + [labels[p] + [c]], store, wordMap, m)
  {
    var r := AddChild(nodes, p, c, None);
    forall m | 0 <= m < |r|
      ensures NodeOk(r, labels + [labels[p] + [c]], store, wordMap, m)
    {
      if m < |nodes| {
        assert NodeOk(nodes, labels, store, wordMap, m);
      }
    }
  }

  lemma AddChildEntriesOk(nodes: seq<LoaderNode>, labels: seq<string>, store: seq<WordRecord>, wordMap: map<string, nat>, p: nat, c: char)
    requires Consistent(nodes, labels, store, wordMap)
    requires p < |nodes| && Lookup(nodes[p].children, c).None?
    ensures Linked(AddChild(nodes, p, c, None))
    ensures forall w :: w in wordMap ==> EntryOk(AddChild(nodes, p, c, None), store, wordMap, w)
  {
    var r := AddChild(nodes, p, c, None);
    AddChildShaped(nodes, labels, p, c, None);
    forall w | w in wordMap
      ensures EntryOk(r, store, wordMap, w)
    {
      assert EntryOk(nodes, store, wordMap, w);
      WalkExtends(nodes, r, 0, w);
    }
  }

  /**
   * One step of the walking loop of `insert`: the child for the next
   * character of `w` exists afterwards, created if it was missing, and the
   * walk of the next prefix of `w` ends at it.
   */
  lemma ExtendPath(nodes: seq<LoaderNode>, labels: seq<string>, store: seq<WordRecord>, wordMap: map<string, nat>, w: string, i: nat, cur: nat)
    requires Consistent(nodes, labels, store, wordMap)
    requires i < |w| && cur < |nodes| && Walk(nodes, 0, w[..i]) == Some(cur)
    ensures var missing := Lookup(nodes[cur].children, w[i]).None?;
      var nodes' := if missing then AddChild(nodes, cur, w[i], None) else nodes;
      var labels' := if missing then labels + [labels[cur] + [w[i]]] else labels;
      && Consistent(nodes', labels', store, wordMap)
      && Lookup(nodes'[cur].children, w[i]).Some?
      && Walk(nodes', 0, w[..i + 1]) == Lookup(nodes'[cur].children, w[i])
  {
    var c := w[i];
    assert w[..i + 1] == w[..i] + [c];
    if Lookup(nodes[cur].children, c).None? {
      var nodes' := AddChild(nodes, cur, c, None);
      AddChildConsistent(nodes, labels, store, wordMap, cur, c);
      AddChildShaped(nodes, labels, cur, c, None);
      WalkExtends(nodes, nodes', 0, w[..i]);
      WalkConcat(nodes', 0, w[..i], [c]);
    } else {
      WalkConcat(nodes, 0, w[..i], [c]);
    }
  }

  /**
   * Marking the end of the path `w` with record `id` while adding `w` to
   * `wordMap` keeps the invariant, for a word not yet in the map.
   */
  lemma SetTerminalConsistent(nodes: seq<LoaderNode>, labels: seq<string>, store: seq<WordRecord>, wordMap: map<string, nat>, w: string, m: nat, id: nat)
    requires Consistent(nodes, labels, store, wordMap)
    requires w !in wordMap && Walk(nodes, 0, w) == Some(m)
    requires id < |store| && Lower(store[id].word) == w
    ensures Consistent(SetTerminal(nodes, m, Some(id)), labels, store, wordMap[w := id])
  {
    var r := SetTerminal(nodes, m, Some(id));
    var wm := wordMap[w := id];
    SetTerminalShaped(nodes, labels, m, Some(id));
    WalkLabel(nodes, labels, 0, w);
    assert labels[m] == w;
    forall k | 0 <= k < |r|
      ensures NodeOk(r, labels, store, wm, k)
    {
      if k != m {
        assert NodeOk(nodes, labels, store, wordMap, k);
      }
    }
    forall w' | w' in wm
      ensures EntryOk(r, store, wm, w')
    {
      WalkSameEdges(nodes, r, 0, w');
      if w' != w {
        assert EntryOk(nodes, store, wordMap, w');
        var m' := Walk(nodes, 0, w').value;
        WalkLabel(nodes, labels, 0, w');
        assert labels[m'] == w';
      }
    }
  }

  /** Replacing a record by one with the same spelling, or adding a record, keeps the invariant. */
  lemma StoreUpdateConsistent(nodes: seq<LoaderNode>, labels: seq<string>, store: seq<WordRecord>, wordMap: map<string, nat>, k: nat, x: WordRecord)
    requires Consistent(nodes, labels, store, wordMap)
    requires k <= |store| && (k < |store| ==> x.word == store[k].word)
    ensures Consistent(nodes, labels, if k < |store| then store[k := x] else store + [x], wordMap)
  {
    var store' := if k < |store| then store[k := x] else store + [x];
    forall m | 0 <= m < |nodes|
      ensures NodeOk(nodes, labels, store', wordMap, m)
    {
      assert NodeOk(nodes, labels, store, wordMap, m);
    }
    forall w | w in wordMap
      ensures EntryOk(nodes, store', wordMap, w)
    {
      assert EntryOk(nodes, store, wordMap, w);
    }
  }
}
