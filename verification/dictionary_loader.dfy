/**
 * `DictionaryTrie` and `getSpellingSuggestions` of the dictionary loader.
 *
 * The trie is a sequence of nodes (see `TrieArena`); records live in
 * `store`, indexed by id, and `words`, `wordMap` and the trie nodes hold
 * ids, so an update of a record through `wordMap` is seen through every
 * holder, as with the shared objects of the source.
 */
module DictionaryLoader {
  import opened Wrappers
  import opened Text
  import opened Seqs
  import opened Ranking
  import opened TrieArena
  import opened WordRecords
  import opened PrefixSearch
  import opened FifoCache
  import opened EditDistance
  import opened SpellCheck

  /** The key `${prefix.toLowerCase()}_${limit}` of `searchCache`; with a numeric limit the join is injective. */
  datatype SearchKey = SearchKey(lowerPrefix: string, limit: int)

  const MaxCacheSize: nat := 1000

  /** The ids `0 .. n - 1`. */
  function Ids(n: nat): (r: seq<nat>)
    ensures |r| == n && forall i :: 0 <= i < n ==> r[i] == i
  {
    if n == 0 then [] else Ids(n - 1) + [n - 1]
  }

  /** The records the ids name, in order. */
  function Records(store: seq<WordRecord>, ids: seq<nat>): (r: seq<WordRecord>)
    requires forall i :: 0 <= i < |ids| ==> ids[i] < |store|
    ensures |r| == |ids| && forall i :: 0 <= i < |ids| ==> r[i] == store[ids[i]]
  {
    seq(|ids|, i requires 0 <= i < |ids| => store[ids[i]])
  }

  /** The lower-cased words of the first `n` seed records. */
  function SeedKeys(seed: seq<WordRecord>, n: nat): set<string>
    requires n <= |seed|
  {
    if n == 0 then {} else SeedKeys(seed, n - 1) + {Lower(seed[n - 1].word)}
  }

  /** A word is among the keys exactly when one of the first `n` seed records lower-cases to it. */
  lemma {:induction false} SeedKeysMembership(seed: seq<WordRecord>, n: nat, w: string)
    requires n <= |seed|
    ensures w in SeedKeys(seed, n) <==> exists k :: 0 <= k < n && Lower(seed[k].word) == w
  {
    if n > 0 {
      SeedKeysMembership(seed, n - 1, w);
    }
  }

  /**
   * The ids of the seed records whose lower-cased word no earlier seed
   * record has: the ones `insert` pushes onto `words` a second time.
   */
  function FirstOccurrences(seed: seq<WordRecord>, n: nat): seq<nat>
    requires n <= |seed|
  {
    if n == 0 then []
    else FirstOccurrences(seed, n - 1) +
         if Lower(seed[n - 1].word) in SeedKeys(seed, n - 1) then [] else [n - 1]
  }

  /** No two seed words are equal up to case. */
  predicate DistinctSpellings(seed: seq<WordRecord>)
  {
    forall i, j :: 0 <= i < j < |seed| ==> Lower(seed[i].word) != Lower(seed[j].word)
  }

  /** With no two seed words equal up to case, every seed record is pushed again: `words` holds each one twice. */
  lemma {:induction false} DistinctSeedsRepeat(seed: seq<WordRecord>, n: nat)
    requires n <= |seed|
    requires DistinctSpellings(seed)
    ensures FirstOccurrences(seed, n) == Ids(n)
  {
    if n > 0 {
      DistinctSeedsRepeat(seed, n - 1);
      DistinctSeedIsNew(seed, n - 1);
    }
  }

  /**
   * A load that started `words` empty would push each distinct spelling
   * exactly once: as many entries as there are unique words.
   */
  lemma {:induction false} FirstOccurrencesCount(seed: seq<WordRecord>, n: nat)
    requires n <= |seed|
    ensures |FirstOccurrences(seed, n)| == |SeedKeys(seed, n)|
  {
    if n > 0 {
      FirstOccurrencesCount(seed, n - 1);
      FirstOccurrencesStep(seed, n);
    }
  }

  /** One more seed record: one more key and one more first occurrence, exactly when its spelling is new. */
  lemma FirstOccurrencesStep(seed: seq<WordRecord>, n: nat)
    requires 0 < n <= |seed|
    ensures var grows := if Lower(seed[n - 1].word) in SeedKeys(seed, n - 1) then 0 else 1;
      |SeedKeys(seed, n)| == |SeedKeys(seed, n - 1)| + grows &&
      |FirstOccurrences(seed, n)| == |FirstOccurrences(seed, n - 1)| + grows
  {
    var w := Lower(seed[n - 1].word);
    if w in SeedKeys(seed, n - 1) {
      assert SeedKeys(seed, n) == SeedKeys(seed, n - 1);
    }
  }

  /**
   * The load as written starts `words` as a copy of the seed list, so the
   * count `getTotalWords` reports is the number of seed records plus the
   * number of unique words: more than the unique words for any non-empty
   * seed list.
   */
  lemma SeedsCountedTwice(seed: seq<WordRecord>)
    ensures |Ids(|seed|) + FirstOccurrences(seed, |seed|)| == |seed| + |SeedKeys(seed, |seed|)|
    ensures |seed| > 0 ==> |Ids(|seed|) + FirstOccurrences(seed, |seed|)| > |SeedKeys(seed, |seed|)|
  {
    FirstOccurrencesCount(seed, |seed|);
  }

  /** The lower-cased words of the seed records, in order. */
  function Spellings(seed: seq<WordRecord>): (r: seq<string>)
    ensures |r| == |seed| && forall k :: 0 <= k < |seed| ==> r[k] == Lower(seed[k].word)
  {
    seq(|seed|, k requires 0 <= k < |seed| => Lower(seed[k].word))
  }

  /** The keys after `n` seed records are the spellings of those records. */
  lemma SeedKeysAreSpellings(seed: seq<WordRecord>, n: nat)
    requires n <= |seed|
    ensures forall w :: w in SeedKeys(seed, n) <==> w in Spellings(seed)[..n]
  {
    var sp := Spellings(seed);
    forall w | w in SeedKeys(seed, n)
      ensures w in sp[..n]
    {
      SeedKeysMembership(seed, n, w);
      var k :| 0 <= k < n && Lower(seed[k].word) == w;
      assert sp[..n][k] == w;
    }
    forall w | w in sp[..n]
      ensures w in SeedKeys(seed, n)
    {
      var k :| 0 <= k < n && sp[..n][k] == w;
      assert Lower(seed[k].word) == w;
      SeedKeysMembership(seed, n, w);
    }
  }

  /** `spell[m]` is the first occurrence of `w` in `spell`. */
  ghost predicate IsFirst(spell: seq<string>, m: nat, w: string)
  {
    m < |spell| && spell[m] == w && forall j :: 0 <= j < m ==> spell[j] != w
  }

  /** For each of the first `n` spellings, `wordMap` holds the position of its first occurrence. */
  ghost predicate FirstIds(spell: seq<string>, wordMap: map<string, nat>, n: nat)
    requires n <= |spell|
  {
    forall k :: 0 <= k < n ==> spell[k] in wordMap && IsFirst(spell, wordMap[spell[k]], spell[k])
  }

  /**
   * One step of `loadDictionary` keeps `wordMap` pointing at first
   * occurrences: a known word keeps its record, a new one gets record `i`.
   */
  lemma LoadFirstIds(spell: seq<string>, i: nat, wordMap: map<string, nat>, wordMap': map<string, nat>)
    requires i < |spell| && FirstIds(spell, wordMap, i)
    requires forall w :: w in wordMap ==> w in spell[..i]
    requires spell[i] in wordMap ==> wordMap' == wordMap
    requires spell[i] !in wordMap ==> wordMap' == wordMap[spell[i] := i]
    ensures FirstIds(spell, wordMap', i + 1)
  {
    var w := spell[i];
    if w in wordMap {
      var k0 :| 0 <= k0 < i && spell[..i][k0] == w;
      assert spell[k0] == w;
    } else {
      forall k | 0 <= k < i
        ensures spell[k] != w
      {
      }
    }
  }

  /** `LoadFirstIds` for the seed list, with the keys loaded so far. */
  lemma LoadSeedFirstIds(seed: seq<WordRecord>, i: nat, wordMap: map<string, nat>, wordMap': map<string, nat>)
    requires i < |seed| && wordMap.Keys == SeedKeys(seed, i) && FirstIds(Spellings(seed), wordMap, i)
    requires Lower(seed[i].word) in wordMap ==> wordMap' == wordMap
    requires Lower(seed[i].word) !in wordMap ==> wordMap' == wordMap[Lower(seed[i].word) := i]
    ensures FirstIds(Spellings(seed), wordMap', i + 1)
  {
    SeedKeysAreSpellings(seed, i);
    LoadFirstIds(Spellings(seed), i, wordMap, wordMap');
  }

  /** With distinct spellings, no seed word is already a key when it is loaded. */
  lemma DistinctSeedIsNew(seed: seq<WordRecord>, i: nat)
    requires i < |seed| && DistinctSpellings(seed)
    ensures Lower(seed[i].word) !in SeedKeys(seed, i)
  {
    SeedKeysMembership(seed, i, Lower(seed[i].word));
    forall k | 0 <= k < i
      ensures Lower(seed[k].word) != Lower(seed[i].word)
    {
    }
  }

  /** With distinct spellings, the first occurrence of each seed word is the record itself. */
  lemma DistinctFirstIds(seed: seq<WordRecord>, wordMap: map<string, nat>)
    requires DistinctSpellings(seed) && FirstIds(Spellings(seed), wordMap, |seed|)
    ensures forall i :: 0 <= i < |seed| ==> Lower(seed[i].word) in wordMap && wordMap[Lower(seed[i].word)] == i
  {
    var sp := Spellings(seed);
    forall i | 0 <= i < |seed|
      ensures Lower(seed[i].word) in wordMap && wordMap[Lower(seed[i].word)] == i
    {
      assert sp[i] == Lower(seed[i].word);
      var m := wordMap[sp[i]];
      assert IsFirst(sp, m, sp[i]);
      assert sp[m] == Lower(seed[m].word);
    }
  }

  /** `a` and `b` hold records with the same spellings, position by position. */
  ghost predicate SameSpellings(a: seq<WordRecord>, b: seq<WordRecord>)
  {
    |a| == |b| && forall k :: 0 <= k < |a| ==> a[k].word == b[k].word
  }

  lemma SameSpellingsUpdate(s: seq<WordRecord>, k: nat, x: WordRecord)
    requires k < |s| && x.word == s[k].word
    ensures SameSpellings(s[k := x], s)
  {
  }

  lemma SameSpellingsTrans(a: seq<WordRecord>, b: seq<WordRecord>, c: seq<WordRecord>)
    requires SameSpellings(a, b) && SameSpellings(b, c)
    ensures SameSpellings(a, c)
  {
  }

  /**
   * The walk of `insert` down the path of `w` from the root, creating each
   * missing child (with no record yet): returns the node the path ends at.
   */
  method AddPath(nodes: seq<LoaderNode>, ghost labels: seq<string>, store: seq<WordRecord>, ghost wordMap: map<string, nat>, w: string)
    returns (trie: seq<LoaderNode>, ghost paths: seq<string>, cur: nat)
    requires Consistent(nodes, labels, store, wordMap)
    ensures Consistent(trie, paths, store, wordMap)
    ensures cur < |trie| && Walk(trie, 0, w) == Some(cur)
  {
    trie := nodes;
    paths := labels;
    cur := 0;
    for i := 0 to |w|
      invariant Consistent(trie, paths, store, wordMap)
      invariant cur < |trie| && Walk(trie, 0, w[..i]) == Some(cur)
    {
      var c := w[i];
      ExtendPath(trie, paths, store, wordMap, w, i, cur);
      if Lookup(trie[cur].children, c).None? {
        paths := paths + [paths[cur] + [c]];
        trie := AddChild(trie, cur, c, None);
      }
      cur := Lookup(trie[cur].children, c).value;
    }
    assert w[..|w|] == w;
  }

  /** The trie, `wordMap`, `words` and the record store agree. */
  ghost predicate Indexing(nodes: seq<LoaderNode>, labels: seq<string>, store: seq<WordRecord>, words: seq<nat>, wordMap: map<string, nat>)
  {
    && Consistent(nodes, labels, store, wordMap)
    && DataInStore(nodes, store)
    && (forall i :: 0 <= i < |words| ==> words[i] < |store|)
    && (forall w :: w in wordMap ==> wordMap[w] in words)
  }

  /** Ending the path of a new word `w` at its record, with `w` added to `wordMap` and `words`, keeps the index. */
  lemma NewWordIndexing(nodes: seq<LoaderNode>, labels: seq<string>, trie: seq<LoaderNode>, paths: seq<string>, store: seq<WordRecord>,
                         words: seq<nat>, wordMap: map<string, nat>, w: string, cur: nat, id: nat,
                         nodes': seq<LoaderNode>, words': seq<nat>, wordMap': map<string, nat>)
    requires Indexing(nodes, labels, store, words, wordMap) && Consistent(trie, paths, store, wordMap)
    requires w !in wordMap && Walk(trie, 0, w) == Some(cur)
    requires id < |store| && Lower(store[id].word) == w
    requires nodes' == SetTerminal(trie, cur, Some(id)) && words' == words + [id] && wordMap' == wordMap[w := id]
    ensures Indexing(nodes', paths, store, words', wordMap')
  {
    SetTerminalConsistent(trie, paths, store, wordMap, w, cur, id);
    ConsistentDataInStore(SetTerminal(trie, cur, Some(id)), paths, store, wordMap[w := id]);
  }

  /** Replacing a record by one with the same spelling, or appending a record, keeps the index. */
  lemma StoreUpdateIndexing(nodes: seq<LoaderNode>, labels: seq<string>, store: seq<WordRecord>, words: seq<nat>, wordMap: map<string, nat>, k: nat, x: WordRecord, store': seq<WordRecord>)
    requires Indexing(nodes, labels, store, words, wordMap)
    requires k <= |store| && (k < |store| ==> x.word == store[k].word)
    requires store' == if k < |store| then store[k := x] else store + [x]
    ensures Indexing(nodes, labels, store', words, wordMap)
  {
    StoreUpdateConsistent(nodes, labels, store, wordMap, k, x);
  }

  /**
   * One step of `loadDictionary`: inserting seed record `i` either finds its
   * word already in `wordMap` and leaves `words` and `wordMap` as they were,
   * or pushes `i` and maps the word to it.
   */
  lemma LoadStep(seed: seq<WordRecord>, i: nat, words: seq<nat>, wordMap: map<string, nat>, words': seq<nat>, wordMap': map<string, nat>)
    requires i < |seed|
    requires words == Ids(|seed|) + FirstOccurrences(seed, i) && wordMap.Keys == SeedKeys(seed, i)
    requires Lower(seed[i].word) in wordMap ==> words' == words && wordMap' == wordMap
    requires Lower(seed[i].word) !in wordMap ==> words' == words + [i] && wordMap' == wordMap[Lower(seed[i].word) := i]
    ensures words' == Ids(|seed|) + FirstOccurrences(seed, i + 1) && wordMap'.Keys == SeedKeys(seed, i + 1)
  {
    var w := Lower(seed[i].word);
    assert (w in wordMap) == (w in SeedKeys(seed, i));
    if w in wordMap {
      assert FirstOccurrences(seed, i + 1) == FirstOccurrences(seed, i) + [];
    } else {
      AppendAssoc(Ids(|seed|), FirstOccurrences(seed, i), [i]);
    }
  }

  /** What loading the first `i` seeds leaves behind: spellings kept, `words` and `wordMap` built from first occurrences. */
  ghost predicate LoadedUpTo(seed: seq<WordRecord>, i: nat, store: seq<WordRecord>, words: seq<nat>, wordMap: map<string, nat>)
    requires i <= |seed|
  {
    && SameSpellings(store, seed)
    && words == Ids(|seed|) + FirstOccurrences(seed, i)
    && wordMap.Keys == SeedKeys(seed, i)
    && FirstIds(Spellings(seed), wordMap, i)
    && (DistinctSpellings(seed) ==> store == seed)
  }

  /** One pass of the loading loop, as `InsertStored` leaves the state, keeps `LoadedUpTo`. */
  lemma LoadSeedStep(seed: seq<WordRecord>, i: nat, store0: seq<WordRecord>, words0: seq<nat>, map0: map<string, nat>,
                     store: seq<WordRecord>, words: seq<nat>, wordMap: map<string, nat>)
    requires i < |seed| && LoadedUpTo(seed, i, store0, words0, map0)
    requires SameSpellings(store, store0)
    requires Lower(store0[i].word) in map0 ==> words == words0 && wordMap == map0
    requires Lower(store0[i].word) !in map0 ==> store == store0 && words == words0 + [i] && wordMap == map0[Lower(store0[i].word) := i]
    ensures LoadedUpTo(seed, i + 1, store, words, wordMap)
  {
    assert store0[i].word == seed[i].word;
    if DistinctSpellings(seed) {
      DistinctSeedIsNew(seed, i);
    }
    SameSpellingsTrans(store, store0, seed);
    LoadStep(seed, i, words0, map0, words, wordMap);
    LoadSeedFirstIds(seed, i, map0, wordMap);
  }

  /** What a finished load leaves behind, in the terms the constructor promises. */
  lemma LoadedAll(seed: seq<WordRecord>, store: seq<WordRecord>, words: seq<nat>, wordMap: map<string, nat>)
    requires LoadedUpTo(seed, |seed|, store, words, wordMap)
    ensures |store| == |seed| && forall i :: 0 <= i < |seed| ==> store[i].word == seed[i].word
    ensures words == Ids(|seed|) + FirstOccurrences(seed, |seed|)
    ensures wordMap.Keys == SeedKeys(seed, |seed|)
    ensures FirstIds(Spellings(seed), wordMap, |seed|)
    ensures |words| == |seed| + |wordMap|
    ensures DistinctSpellings(seed) ==> store == seed && forall i :: 0 <= i < |seed| ==> wordMap[Lower(seed[i].word)] == i
  {
    SeedsCountedTwice(seed);
    assert |wordMap| == |wordMap.Keys|;
    if DistinctSpellings(seed) {
      DistinctFirstIds(seed, wordMap);
    }
  }

  class DictionaryTrie {
    var nodes: seq<LoaderNode>
    ghost var labels: seq<string>
    var store: seq<WordRecord>
    var words: seq<nat>
    var wordMap: map<string, nat>
    var searchCache: Cache<SearchKey, seq<WordRecord>>

    /** The trie, `wordMap`, `words` and the record store agree. */
    ghost predicate Indexed()
      reads this
    {
      Indexing(nodes, labels, store, words, wordMap)
    }

    /** Every cached answer is what an uncached `search` would compute now; at most 1000 distinct keys. */
    ghost predicate CacheValid()
      reads this
      requires Indexed()
    {
      && DistinctKeys(searchCache)
      && |searchCache| <= MaxCacheSize
      && forall i :: 0 <= i < |searchCache| ==>
           searchCache[i].1 == SearchSpec(nodes, store, searchCache[i].0.lowerPrefix, searchCache[i].0.limit)
    }

    ghost predicate Valid()
      reads this
    {
      Indexed() && CacheValid()
    }

    /**
     * `loadDictionary`: `words` starts as a copy of the seed list, then each
     * seed record is inserted.
     */
    constructor (seed: seq<WordRecord>)
      ensures Valid() && searchCache == []
      ensures |store| == |seed| && forall i :: 0 <= i < |seed| ==> store[i].word == seed[i].word
      ensures words == Ids(|seed|) + FirstOccurrences(seed, |seed|)
      ensures wordMap.Keys == SeedKeys(seed, |seed|)
      ensures FirstIds(Spellings(seed), wordMap, |seed|)
      ensures |words| == |seed| + |wordMap|
      ensures DistinctSpellings(seed) ==> store == seed && forall i :: 0 <= i < |seed| ==> wordMap[Lower(seed[i].word)] == i
    {
      nodes := [Node([], false, None)];
      labels := [[]];
      store := seed;
      words := Ids(|seed|);
      wordMap := map[];
      searchCache := [];
      new;
      assert Walk(nodes, 0, []) == Some(0);
      InsertSeeds(seed);
      LoadedAll(seed, store, words, wordMap);
    }

    /** The `forEach` of `loadDictionary`: each seed record, by its id in the store, is inserted in turn. */
    method InsertSeeds(seed: seq<WordRecord>)
      requires Valid() && searchCache == [] && LoadedUpTo(seed, 0, store, words, wordMap)
      modifies this
      ensures Valid() && searchCache == [] && LoadedUpTo(seed, |seed|, store, words, wordMap)
    {
      for i := 0 to |seed|
        invariant Valid() && searchCache == []
        invariant LoadedUpTo(seed, i, store, words, wordMap)
      {
        InsertSeed(seed, i);
      }
    }

    /** One pass of the `forEach` of `loadDictionary`: the seed record at `i`, by its id in the store, is inserted. */
    method InsertSeed(seed: seq<WordRecord>, i: nat)
      requires i < |seed| && Valid() && searchCache == [] && LoadedUpTo(seed, i, store, words, wordMap)
      modifies this
      ensures Valid() && searchCache == [] && LoadedUpTo(seed, i + 1, store, words, wordMap)
    {
      ghost var words0, map0, store0 := words, wordMap, store;
      InsertStored(i);
      LoadSeedStep(seed, i, store0, words0, map0, store, words, wordMap);
    }

    /** `clearCache`. */
    method ClearCache()
      modifies this
      ensures searchCache == []
      ensures nodes == old(nodes) && labels == old(labels) && store == old(store)
      ensures words == old(words) && wordMap == old(wordMap)
    {
      searchCache := [];
    }

    /**
     * The body of `insert` for the record with id `id`. A word already in
     * `wordMap` only raises the stored record's frequency and commonality,
     * when the new frequency is strictly higher; a new word is added to
     * `wordMap`, pushed onto `words` and given a path in the trie. The
     * search cache is emptied either way.
     */
    method InsertStored(id: nat)
      requires Indexed() && id < |store|
      modifies this
      ensures Valid() && searchCache == []
      ensures SameSpellings(store, old(store))
      ensures var w := Lower(old(store[id].word));
        w in old(wordMap) ==>
          var k := old(wordMap[w]);
          && nodes == old(nodes) && wordMap == old(wordMap) && words == old(words)
          && store == if old(store[id].frequency) > old(store[k].frequency)
                      then old(store)[k := old(store[k]).(frequency := old(store[id].frequency), commonality := old(store[id].commonality))]
                      else old(store)
      ensures var w := Lower(old(store[id].word));
        w !in old(wordMap) ==>
          store == old(store) && words == old(words) + [id] && wordMap == old(wordMap)[w := id]
    {
      searchCache := [];
      var w := Lower(store[id].word);
      if w in wordMap {
        var k := wordMap[w];
        if store[id].frequency > store[k].frequency {
          var updated := store[k].(frequency := store[id].frequency, commonality := store[id].commonality);
          ghost var store0 := store;
          store := store[k := updated];
          StoreUpdateIndexing(nodes, labels, store0, words, wordMap, k, updated, store);
          SameSpellingsUpdate(store0, k, updated);
        }
        return;
      }
      ghost var nodes0, labels0, words0, wordMap0 := nodes, labels, words, wordMap;
      var trie, paths, cur := AddPath(nodes, labels, store, wordMap, w);
      nodes := SetTerminal(trie, cur, Some(id));
      labels := paths;
      wordMap := wordMap[w := id];
      words := words + [id];
      NewWordIndexing(nodes0, labels0, trie, paths, store, words0, wordMap0, w, cur, id, nodes, words, wordMap);
    }

    /**
     * `insert(wordData)`: the record joins the store as a new object, then
     * the insertion runs on it. Afterwards the word, in any casing, is in
     * the dictionary, and its trie path ends at the record `wordMap` holds.
     */
    method Insert(r: WordRecord)
      requires Valid()
      modifies this
      ensures Valid() && searchCache == []
      ensures var w := Lower(r.word);
        if w in old(wordMap) then
          var k := old(wordMap[w]);
          && nodes == old(nodes) && wordMap == old(wordMap) && words == old(words)
          && store == (if r.frequency > old(store[k].frequency)
                       then old(store)[k := old(store[k]).(frequency := r.frequency, commonality := r.commonality)]
                       else old(store)) + [r]
        else
          store == old(store) + [r] && words == old(words) + [|old(store)|] && wordMap == old(wordMap)[w := |old(store)|]
      ensures forall v :: Lower(v) == Lower(r.word) ==> HasWord(v) && GetWord(v) == Some(store[wordMap[Lower(r.word)]])
      ensures TerminalAt(nodes, Lower(r.word))
      ensures nodes[Walk(nodes, 0, Lower(r.word)).value].data == Some(wordMap[Lower(r.word)])
    {
      ghost var w := Lower(r.word);
      ghost var before := store;
      if w in wordMap {
        var k := wordMap[w];
        assert k < |store|;
        var updated := store[k].(frequency := r.frequency, commonality := r.commonality);
        UpdateAppend(store, k, updated, r);
      }
      ghost var store0 := store;
      store := store + [r];
      StoreUpdateIndexing(nodes, labels, store0, words, wordMap, |store0|, r, store);
      assert store[|store| - 1] == r;
      InsertStored(|store| - 1);
      MapMatchesTrie(nodes, labels, store, wordMap, w);
      forall v | Lower(v) == w
        ensures HasWord(v) && GetWord(v) == Some(store[wordMap[w]])
      {
        MapMatchesTrie(nodes, labels, store, wordMap, w);
      }
    }

    /**
     * `dfs(node, prefix, results)`: the records below node `n` pushed onto
     * `results`, stopping at `DfsCap`.
     */
    method Dfs(n: nat, results: seq<WordRecord>) returns (out: seq<WordRecord>)
      requires Linked(nodes) && DataInStore(nodes, store) && n < |nodes|
      ensures out == Collect(nodes, store, n, results)
      decreases |nodes| - n
    {
      if |results| >= DfsCap {
        return results;
      }
      out := results;
      if nodes[n].isEndOfWord && nodes[n].data.Some? {
        out := out + [store[nodes[n].data.value]];
      }
      var sorted := SortedChildren(nodes, store, n);
      SortedChildrenBelow(nodes, store, n);
      assert out == results + NodeRecord(nodes, store, n);
      assert sorted[0..] == sorted;
      var k := 0;
      while k < |sorted|
        invariant 0 <= k <= |sorted|
        invariant CollectChildren(nodes, store, n, sorted[k..], out) == Collect(nodes, store, n, results)
      {
        if |out| >= DfsCap {
          break;
        }
        ghost var rest := sorted[k..];
        assert rest[0] == sorted[k] && rest[1..] == sorted[k + 1..];
        out := Dfs(sorted[k].child, out);
        k := k + 1;
      }
    }

    /** `cacheResult`: evict the oldest key when full, then store the answer. */
    method CacheResult(key: SearchKey, result: seq<WordRecord>)
      requires Valid()
      requires result == SearchSpec(nodes, store, key.lowerPrefix, key.limit)
      modifies this
      ensures Valid()
      ensures searchCache == Put(old(searchCache), key, result, MaxCacheSize)
      ensures nodes == old(nodes) && labels == old(labels) && store == old(store)
      ensures words == old(words) && wordMap == old(wordMap)
    {
      PutProperties(searchCache, key, result, MaxCacheSize);
      var c := searchCache;
      if |c| >= MaxCacheSize && |c| > 0 {
        c := Delete(c, c[0].0);
      }
      searchCache := Set(c, key, result);
      forall i | 0 <= i < |searchCache|
        ensures searchCache[i].1 == SearchSpec(nodes, store, searchCache[i].0.lowerPrefix, searchCache[i].0.limit)
      {
        assert searchCache[i] in searchCache;
      }
    }

    /**
     * `search(prefix, limit)`: a cached answer when there is one, otherwise
     * the walk to the prefix, `dfs`, the sort by frequency and the cut at
     * `limit`, cached before it is returned. Either way the answer is the
     * one an uncached search computes.
     */
    method Search(prefix: string, limit: int) returns (r: seq<WordRecord>)
      requires Valid()
      modifies this
      ensures Valid()
      ensures r == SearchSpec(nodes, store, Lower(prefix), limit)
      ensures nodes == old(nodes) && labels == old(labels) && store == old(store)
      ensures words == old(words) && wordMap == old(wordMap)
      ensures var key := SearchKey(Lower(prefix), limit);
        if Get(old(searchCache), key).Some? then searchCache == old(searchCache)
        else searchCache == Put(old(searchCache), key, r, MaxCacheSize)
    {
      var lowerPrefix := Lower(prefix);
      var key := SearchKey(lowerPrefix, limit);
      var hit := Get(searchCache, key);
      if hit.Some? {
        return hit.value;
      }
      var found := FindNode(nodes, lowerPrefix);
      if found.None? {
        r := [];
        CacheResult(key, r);
        return;
      }
      var results := Dfs(found.value, []);
      r := Slice(SortByRank(results, FrequencyRank), limit);
      CacheResult(key, r);
    }

    /** `getAllWords`: a copy of `words`, seed records included twice. */
    function AllWords(): (r: seq<WordRecord>)
      reads this
      requires Indexed()
      ensures forall w :: w in wordMap ==> store[wordMap[w]] in r
    {
      Records(store, words)
    }

    /** `getWordsByCommonality(c)`: exactly the entries of `words` with that commonality, in order. */
    function GetWordsByCommonality(c: Commonality): (r: seq<WordRecord>)
      reads this
      requires Indexed()
      ensures forall x :: x in r <==> x in AllWords() && x.commonality == c
      ensures forall x :: multiset(r)[x] == if x.commonality == c then multiset(AllWords())[x] else 0
    {
      ByCommonalityExact(AllWords(), c);
      ByCommonality(AllWords(), c)
    }

    /** The counts of `getStats`: the three commonalities partition `words`. */
    function GetStats(): (s: Stats)
      reads this
      requires Indexed()
      ensures s.totalWords == |AllWords()|
      ensures s.commonWords + s.uncommonWords + s.rareWords == s.totalWords
      ensures s.commonWords == |GetWordsByCommonality(Common)|
      ensures s.uncommonWords == |GetWordsByCommonality(Uncommon)|
      ensures s.rareWords == |GetWordsByCommonality(Rare)|
      ensures multiset(GetWordsByCommonality(Common)) + multiset(GetWordsByCommonality(Uncommon))
              + multiset(GetWordsByCommonality(Rare)) == multiset(AllWords())
    {
      StatsAddUp(AllWords());
      CommonalitiesPartition(AllWords());
      StatsOf(AllWords())
    }

    /** `hasWord(word)`: the lower-cased word is a key of `wordMap`, which is exactly when its trie path ends a word. */
    function HasWord(word: string): (b: bool)
      reads this
      requires Indexed()
      ensures b <==> TerminalAt(nodes, Lower(word))
    {
      MapMatchesTrie(nodes, labels, store, wordMap, Lower(word));
      Lower(word) in wordMap
    }

    /** `getWord(word)`: the record stored at the end of the lower-cased word's trie path, if it ends a word. */
    function GetWord(word: string): (r: Option<WordRecord>)
      reads this
      requires Indexed()
      ensures r.Some? <==> TerminalAt(nodes, Lower(word))
      ensures r.Some? ==>
        var m := Walk(nodes, 0, Lower(word)).value;
        nodes[m].data.Some? && r.value == store[nodes[m].data.value] && Lower(r.value.word) == Lower(word)
    {
      MapMatchesTrie(nodes, labels, store, wordMap, Lower(word));
      if Lower(word) in wordMap then
        assert EntryOk(nodes, store, wordMap, Lower(word));
        Some(store[wordMap[Lower(word)]])
      else None
    }

    /** `getTotalWords`: the length of `words`, which is the total of `getStats`. */
    function GetTotalWords(): (n: nat)
      reads this
      requires Indexed()
      ensures n == GetStats().totalWords
    {
      |words|
    }
  }

  /** The key `${word.toLowerCase()}_${maxDistance}_${limit}` of `spellCheckCache`. */
  datatype SpellKey = SpellKey(lowerWord: string, maxDistance: int, limit: int)

  const MaxSpellCacheSize: nat := 500

  /**
   * At most 500 distinct keys, each answer shaped as its key demands. The
   * cache is never emptied, so an answer may predate later insertions.
   */
  ghost predicate SpellCacheValid(c: Cache<SpellKey, seq<WordRecord>>)
  {
    && DistinctKeys(c)
    && |c| <= MaxSpellCacheSize
    && forall i :: 0 <= i < |c| ==> WellRanked(c[i].0.lowerWord, c[i].0.maxDistance, c[i].0.limit, PrunedDistance, c[i].1)
  }

  /** Caching an answer shaped as its key demands keeps the spell-check cache valid. */
  lemma PutKeepsSpellCacheValid(c: Cache<SpellKey, seq<WordRecord>>, key: SpellKey, v: seq<WordRecord>)
    requires SpellCacheValid(c) && WellRanked(key.lowerWord, key.maxDistance, key.limit, PrunedDistance, v)
    ensures SpellCacheValid(Put(c, key, v, MaxSpellCacheSize))
  {
    PutProperties(c, key, v, MaxSpellCacheSize);
    var c' := Put(c, key, v, MaxSpellCacheSize);
    forall i | 0 <= i < |c'|
      ensures WellRanked(c'[i].0.lowerWord, c'[i].0.maxDistance, c'[i].0.limit, PrunedDistance, c'[i].1)
    {
      assert c'[i] in c';
      if c'[i] != (key, v) {
        var j :| 0 <= j < |c| && c[j] == c'[i];
      }
    }
  }

  /** `getSpellingSuggestions` with its module-level cache, over the `dictionaryTrie` singleton. */
  class SpellChecker {
    const dictionary: DictionaryTrie
    var spellCheckCache: Cache<SpellKey, seq<WordRecord>>

    /** The cache invariant, over this checker's cache. */
    ghost predicate Valid()
      reads this
    {
      SpellCacheValid(spellCheckCache)
    }

    constructor (dictionary: DictionaryTrie)
      ensures Valid() && this.dictionary == dictionary && spellCheckCache == []
    {
      this.dictionary := dictionary;
      spellCheckCache := [];
    }

    /**
     * A cached answer when there is one, which later insertions do not
     * refresh; otherwise the pipeline over `getAllWords()`, holding only
     * its records, cached with oldest-first eviction. Either way the answer
     * has at most `limit` entries when `limit` is not negative, holds only
     * words within the length gap at a distance between 1 and `maxDistance`
     * by the loader's shortcut distance, and is ordered by that distance,
     * then frequency. For bounds of 2 or less, the default, the shortcut
     * distance is the true one.
     */
    method GetSpellingSuggestions(word: string, maxDistance: int, limit: int) returns (r: seq<WordRecord>)
      requires Valid() && dictionary.Indexed()
      modifies this
      ensures Valid()
      ensures WellRanked(Lower(word), maxDistance, limit, PrunedDistance, r)
      ensures var key := SpellKey(Lower(word), maxDistance, limit);
        match Get(old(spellCheckCache), key)
        case Some(v) => r == v && spellCheckCache == old(spellCheckCache)
        case None =>
          && r == SpellingSuggestions(dictionary.AllWords(), word, maxDistance, limit)
          && (forall x :: x in r ==> x in dictionary.AllWords() && Candidate(word, maxDistance, PrunedDistance, x))
          && (maxDistance <= 2 ==> r == ExactSpellingSuggestions(dictionary.AllWords(), word, maxDistance, limit))
          && spellCheckCache == Put(old(spellCheckCache), key, r, MaxSpellCacheSize)
    {
      var key := SpellKey(Lower(word), maxDistance, limit);
      var hit := Get(spellCheckCache, key);
      if hit.Some? {
        return hit.value;
      }
      r := SpellingSuggestions(dictionary.AllWords(), word, maxDistance, limit);
      SuggestShape(dictionary.AllWords(), word, maxDistance, limit, PrunedDistance);
      if maxDistance <= 2 {
        ExactAgreesForSmallBounds(dictionary.AllWords(), word, maxDistance, limit);
      }
      PutKeepsSpellCacheValid(spellCheckCache, key, r);
      var c := spellCheckCache;
      if |c| >= MaxSpellCacheSize && |c| > 0 {
        c := Delete(c, c[0].0);
      }
      spellCheckCache := Set(c, key, r);
    }
  }
}
