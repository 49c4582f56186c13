/**
 * The query path of the user dashboard page: the page's own trie of words
 * and frequencies, the suggestion list that autocompletion fills and that
 * falls back to spell checking, and the state changes of selecting a
 * suggestion and of the arrow, Enter and Escape keys. The page's React
 * state becomes a `PageState` value and each handler a function on it.
 */
module UserDashboard {
  import opened Wrappers
  import opened Text
  import opened Seqs
  import opened Ranking
  import opened TrieArena
  import opened EditDistance

  /** A node's payload is its `frequency`, 0 until a word ends there. */
  type DashNode = Node<int>

  /** One entry of the `results` array that `dfs` fills. */
  datatype Hit = Hit(word: string, frequency: int)

  /** `search` keeps this many results. */
  const TopResults := 10

  // ---------------------------------------------------------------- the trie

  /** The frequency recorded for `s`, when the walk of `s` ends at the end of a word. */
  function FrequencyOf(nodes: seq<DashNode>, s: string): Option<int>
    requires Linked(nodes)
  {
    match Walk(nodes, 0, s)
    case None => None
    case Some(m) => if nodes[m].isEndOfWord then Some(nodes[m].data) else None
  }

  /** The tree `nodes`, with paths `labels`, holds exactly the words of `content`, each with its frequency. */
  ghost predicate Represents(nodes: seq<DashNode>, labels: seq<string>, content: map<string, int>)
  {
    && Shaped(nodes, labels)
    && forall s :: FrequencyOf(nodes, s) == (if s in content then Some(content[s]) else None)
  }

  /** A new child ends no word, so adding it changes the frequency of no word. */
  lemma AddChildKeepsFrequency(nodes: seq<DashNode>, labels: seq<string>, p: nat, c: char, s: string)
    requires Shaped(nodes, labels) && p < |nodes| && Lookup(nodes[p].children, c).None?
    ensures Linked(AddChild(nodes, p, c, 0))
    ensures FrequencyOf(AddChild(nodes, p, c, 0), s) == FrequencyOf(nodes, s)
  {
    var r := AddChild(nodes, p, c, 0);
    AddChildShaped(nodes, labels, p, c, 0);
    WalkExtends(nodes, r, 0, s);
    if Walk(r, 0, s).Some? {
      var k := Walk(r, 0, s).value;
      if k < |nodes| {
        WalkBack(nodes, labels, r, labels + [labels[p] + [c]], s);
        assert r[k].isEndOfWord == nodes[k].isEndOfWord && r[k].data == nodes[k].data;
      } else {
        assert r[k] == Node([], false, 0);
      }
    }
  }

  lemma AddChildRepresents(nodes: seq<DashNode>, labels: seq<string>, content: map<string, int>, p: nat, c: char)
    requires Represents(nodes, labels, content) && p < |nodes| && Lookup(nodes[p].children, c).None?
    ensures Represents(AddChild(nodes, p, c, 0), labels + [labels[p] + [c]], content)
  {
    AddChildShaped(nodes, labels, p, c, 0);
    forall s
      ensures FrequencyOf(AddChild(nodes, p, c, 0), s) == FrequencyOf(nodes, s)
    {
      AddChildKeepsFrequency(nodes, labels, p, c, s);
    }
  }

  /**
   * One turn of `insert`'s loop: create the child for `w[i]` if it is
   * missing; either way the walk of the next prefix of `w` ends at it.
   */
  lemma DescendStep(nodes: seq<DashNode>, labels: seq<string>, content: map<string, int>, w: string, i: nat, cur: nat)
    requires Represents(nodes, labels, content)
    requires i < |w| && cur < |nodes| && Walk(nodes, 0, w[..i]) == Some(cur)
    ensures var missing := Lookup(nodes[cur].children, w[i]).None?;
      var nodes' := if missing then AddChild(nodes, cur, w[i], 0) else nodes;
      var labels' := if missing then labels + [labels[cur] + [w[i]]] else labels;
      && Represents(nodes', labels', content)
      && Lookup(nodes'[cur].children, w[i]).Some?
      && Walk(nodes', 0, w[..i + 1]) == Lookup(nodes'[cur].children, w[i])
  {
    var c := w[i];
    assert w[..i + 1] == w[..i] + [c];
    if Lookup(nodes[cur].children, c).None? {
      var nodes' := AddChild(nodes, cur, c, 0);
      AddChildRepresents(nodes, labels, content, cur, c);
      AddChildShaped(nodes, labels, cur, c, 0);
      WalkExtends(nodes, nodes', 0, w[..i]);
      WalkConcat(nodes', 0, w[..i], [c]);
    } else {
      WalkConcat(nodes, 0, w[..i], [c]);
    }
  }

  /**
   * The loop of `insert`: walk down the path of `w` from the root, creating
   * each missing child; returns the node the path ends at. No word is added.
   */
  method Descend(nodes: seq<DashNode>, ghost labels: seq<string>, ghost content: map<string, int>, w: string)
    returns (trie: seq<DashNode>, ghost paths: seq<string>, cur: nat)
    requires Represents(nodes, labels, content)
    ensures Represents(trie, paths, content)
    ensures cur < |trie| && Walk(trie, 0, w) == Some(cur)
  {
    trie := nodes;
    paths := labels;
    cur := 0;
    for i := 0 to |w|
      invariant Represents(trie, paths, content)
      invariant cur < |trie| && Walk(trie, 0, w[..i]) == Some(cur)
    {
      var c := w[i];
      DescendStep(trie, paths, content, w, i, cur);
      if Lookup(trie[cur].children, c).None? {
        paths := paths + [paths[cur] + [c]];
        trie := AddChild(trie, cur, c, 0);
      }
      cur := Lookup(trie[cur].children, c).value;
    }
    assert w[..|w|] == w;
  }

  /** Marking the end of `w`'s path with frequency `f` records `w` with `f` and changes no other word. */
  lemma SetTerminalRepresents(nodes: seq<DashNode>, labels: seq<string>, content: map<string, int>, w: string, m: nat, f: int)
    requires Represents(nodes, labels, content) && Walk(nodes, 0, w) == Some(m)
    ensures Represents(SetTerminal(nodes, m, f), labels, content[w := f])
  {
    var r := SetTerminal(nodes, m, f);
    var content' := content[w := f];
    SetTerminalShaped(nodes, labels, m, f);
    WalkLabel(nodes, labels, 0, w);
    assert labels[0] + w == w;
    forall s
      ensures FrequencyOf(r, s) == (if s in content' then Some(content'[s]) else None)
    {
      WalkSameEdges(nodes, r, 0, s);
      if s != w && Walk(nodes, 0, s).Some? {
        WalkLabel(nodes, labels, 0, s);
        assert labels[0] + s == s;
        assert Walk(nodes, 0, s).value != m;
      }
    }
  }

  // ---------------------------------------------------------------- dfs and search

  /**
   * The hits `dfs(n, path, results)` appends to `results`: the node's own
   * word first, then everything below each child, in the children's
   * insertion order. There is no cap.
   */
  function Hits(nodes: seq<DashNode>, n: nat, path: string): seq<Hit>
    requires Linked(nodes) && n < |nodes|
    decreases |nodes| - n, 1
  {
    (if nodes[n].isEndOfWord then [Hit(path, nodes[n].data)] else [])
    + ChildHits(nodes, n, path, nodes[n].children)
  }

  /** The loop of `dfs` over the child entries `edges` of `parent`. */
  function ChildHits(nodes: seq<DashNode>, parent: nat, path: string, edges: seq<Edge>): seq<Hit>
    requires Linked(nodes) && parent < |nodes|
    requires forall e :: e in edges ==> parent < e.child < |nodes|
    decreases |nodes| - parent, 0, |edges|
  {
    if edges == [] then []
    else Hits(nodes, edges[0].child, path + [edges[0].ch]) + ChildHits(nodes, parent, path, edges[1..])
  }

  /** Every hit below `n` is a word of the trie, extending `n`'s path, with its recorded frequency. */
  lemma {:induction false} HitsSound(nodes: seq<DashNode>, labels: seq<string>, n: nat)
    requires Shaped(nodes, labels) && n < |nodes|
    ensures forall h :: h in Hits(nodes, n, labels[n]) ==>
      labels[n] <= h.word && FrequencyOf(nodes, h.word) == Some(h.frequency)
    decreases |nodes| - n, 1
  {
    assert Walk(nodes, 0, labels[n]) == Some(n);
    ChildHitsSound(nodes, labels, n, nodes[n].children);
  }

  lemma {:induction false} ChildHitsSound(nodes: seq<DashNode>, labels: seq<string>, parent: nat, edges: seq<Edge>)
    requires Shaped(nodes, labels) && parent < |nodes|
    requires forall e :: e in edges ==> e in nodes[parent].children
    ensures forall h :: h in ChildHits(nodes, parent, labels[parent], edges) ==>
      labels[parent] <= h.word && FrequencyOf(nodes, h.word) == Some(h.frequency)
    decreases |nodes| - parent, 0, |edges|
  {
    if edges != [] {
      var e := edges[0];
      assert e in nodes[parent].children;
      assert labels[e.child] == labels[parent] + [e.ch];
      HitsSound(nodes, labels, e.child);
      ChildHitsSound(nodes, labels, parent, edges[1..]);
      forall h | h in Hits(nodes, e.child, labels[e.child])
        ensures labels[parent] <= h.word
      {
        assert labels[e.child] <= h.word;
        assert h.word[..|labels[parent]|] == labels[e.child][..|labels[parent]|];
      }
    }
  }

  /** A hit found below the `e` child of `parent` is found by the loop over any entry list holding `e`. */
  lemma {:induction false} ChildHitsHas(nodes: seq<DashNode>, parent: nat, path: string, edges: seq<Edge>, e: Edge, h: Hit)
    requires Linked(nodes) && parent < |nodes|
    requires forall e :: e in edges ==> parent < e.child < |nodes|
    requires e in edges && h in Hits(nodes, e.child, path + [e.ch])
    ensures h in ChildHits(nodes, parent, path, edges)
  {
    if edges[0] != e {
      ChildHitsHas(nodes, parent, path, edges[1..], e, h);
    }
  }

  /** The word at the end of any path `t` from `n` is found by the traversal from `n`. */
  lemma {:induction false} HitsComplete(nodes: seq<DashNode>, labels: seq<string>, n: nat, t: string)
    requires Shaped(nodes, labels) && n < |nodes|
    requires Walk(nodes, n, t).Some? && nodes[Walk(nodes, n, t).value].isEndOfWord
    ensures Hit(labels[n] + t, nodes[Walk(nodes, n, t).value].data) in Hits(nodes, n, labels[n])
    decreases |t|
  {
    if t == [] {
      assert labels[n] + t == labels[n];
    } else {
      var c := Lookup(nodes[n].children, t[0]).value;
      assert Edge(t[0], c) in nodes[n].children;
      assert labels[c] == labels[n] + [t[0]];
      HitsComplete(nodes, labels, c, t[1..]);
      assert [t[0]] + t[1..] == t;
      AppendAssoc(labels[n], [t[0]], t[1..]);
      ChildHitsHas(nodes, n, labels[n], nodes[n].children, Edge(t[0], c),
        Hit(labels[n] + t, nodes[Walk(nodes, n, t).value].data));
    }
  }

  /** The comparator `b.frequency - a.frequency`: highest frequency first. */
  function HitRank(h: Hit): Rank { Rank(0, h.frequency) }

  function HitWord(h: Hit): string { h.word }

  /** The hits `search(prefix)` keeps: all words under the lower-cased prefix, sorted, cut to ten. */
  function SearchHits(nodes: seq<DashNode>, prefix: string): seq<Hit>
    requires Linked(nodes)
  {
    match Walk(nodes, 0, Lower(prefix))
    case None => []
    case Some(m) => Take(SortByRank(Hits(nodes, m, Lower(prefix)), HitRank), TopResults)
  }

  /** What `search(prefix)` returns: the words of the kept hits. */
  function TrieSearch(nodes: seq<DashNode>, prefix: string): seq<string>
    requires Linked(nodes)
  {
    Map(SearchHits(nodes, prefix), HitWord)
  }

  lemma SearchHitsSound(nodes: seq<DashNode>, labels: seq<string>, prefix: string)
    requires Shaped(nodes, labels)
    ensures |SearchHits(nodes, prefix)| <= TopResults
    ensures SortedBy(SearchHits(nodes, prefix), HitRank)
    ensures forall h :: h in SearchHits(nodes, prefix) ==>
      Lower(prefix) <= h.word && FrequencyOf(nodes, h.word) == Some(h.frequency)
  {
    var lp := Lower(prefix);
    match Walk(nodes, 0, lp)
    case None =>
    case Some(m) =>
      WalkLabel(nodes, labels, 0, lp);
      assert labels[0] + lp == lp;
      var hits := Hits(nodes, m, lp);
      HitsSound(nodes, labels, m);
      var sorted := SortByRank(hits, HitRank);
      SortPermutes(hits, HitRank);
      SortIsSorted(hits, HitRank);
      var cut := Take(sorted, TopResults);
      forall h | h in cut
        ensures h in hits
      {
        assert h in multiset(sorted);
      }
  }

  /**
   * `search` returns at most ten words the trie holds, each starting with
   * the lower-cased prefix, from the highest frequency down.
   */
  lemma SearchSound(nodes: seq<DashNode>, labels: seq<string>, content: map<string, int>, prefix: string)
    requires Represents(nodes, labels, content)
    ensures |TrieSearch(nodes, prefix)| <= TopResults
    ensures forall w :: w in TrieSearch(nodes, prefix) ==> w in content && Lower(prefix) <= w
    ensures forall i :: 0 <= i < |TrieSearch(nodes, prefix)| ==>
      TrieSearch(nodes, prefix)[i] in content && content[TrieSearch(nodes, prefix)[i]] == SearchHits(nodes, prefix)[i].frequency
    ensures forall i, j :: 0 <= i < j < |TrieSearch(nodes, prefix)| ==>
      TrieSearch(nodes, prefix)[i] in content && TrieSearch(nodes, prefix)[j] in content &&
      content[TrieSearch(nodes, prefix)[i]] >= content[TrieSearch(nodes, prefix)[j]]
  {
    var hs := SearchHits(nodes, prefix);
    var r := TrieSearch(nodes, prefix);
    SearchHitsSound(nodes, labels, prefix);
    forall i | 0 <= i < |r|
      ensures r[i] in content && content[r[i]] == hs[i].frequency && Lower(prefix) <= r[i]
    {
      assert r[i] == hs[i].word && hs[i] in hs;
      assert FrequencyOf(nodes, hs[i].word) == Some(hs[i].frequency);
    }
    forall w | w in r
      ensures w in content && Lower(prefix) <= w
    {
      var i :| 0 <= i < |r| && r[i] == w;
    }
    forall i, j | 0 <= i < j < |r|
      ensures content[r[i]] >= content[r[j]]
    {
      assert !Before(HitRank(hs[j]), HitRank(hs[i]));
    }
  }

  /** Every word of the trie under the prefix is among the sorted hits `search` cuts from. */
  lemma SearchFinds(nodes: seq<DashNode>, labels: seq<string>, prefix: string, w: string, f: int)
    requires Shaped(nodes, labels)
    requires FrequencyOf(nodes, w) == Some(f) && Lower(prefix) <= w
    ensures Walk(nodes, 0, Lower(prefix)).Some?
    ensures Hit(w, f) in SortByRank(Hits(nodes, Walk(nodes, 0, Lower(prefix)).value, Lower(prefix)), HitRank)
    ensures SortedBy(SortByRank(Hits(nodes, Walk(nodes, 0, Lower(prefix)).value, Lower(prefix)), HitRank), HitRank)
  {
    var lp := Lower(prefix);
    var t := w[|lp|..];
    assert lp + t == w;
    WalkConcat(nodes, 0, lp, t);
    var m := Walk(nodes, 0, lp).value;
    WalkLabel(nodes, labels, 0, lp);
    assert labels[0] + lp == lp;
    HitsComplete(nodes, labels, m, t);
    var hits := Hits(nodes, m, lp);
    SortPermutes(hits, HitRank);
    SortIsSorted(hits, HitRank);
    assert Hit(w, f) in multiset(hits);
    assert Hit(w, f) in multiset(SortByRank(hits, HitRank));
  }

  /** A sorted hit whose word the cut to ten leaves out means ten words came back, none less frequent. */
  lemma HitCutTopK(sorted: seq<Hit>, x: Hit, content: map<string, int>)
    requires SortedBy(sorted, HitRank) && x in sorted
    requires x.word !in Map(Take(sorted, TopResults), HitWord)
    requires forall i :: 0 <= i < |Map(Take(sorted, TopResults), HitWord)| ==>
      Map(Take(sorted, TopResults), HitWord)[i] in content &&
      content[Map(Take(sorted, TopResults), HitWord)[i]] == Take(sorted, TopResults)[i].frequency
    ensures |Map(Take(sorted, TopResults), HitWord)| == TopResults
    ensures forall v :: v in Map(Take(sorted, TopResults), HitWord) ==> v in content && content[v] >= x.frequency
  {
    var cut := Take(sorted, TopResults);
    var r := Map(cut, HitWord);
    assert x !in cut by {
      forall i | 0 <= i < |cut|
        ensures cut[i] != x
      {
        assert r[i] == cut[i].word;
      }
    }
    TopOfSorted(sorted, HitRank, TopResults, x);
    forall v | v in r
      ensures v in content && content[v] >= x.frequency
    {
      var i :| 0 <= i < |r| && r[i] == v;
      assert cut[i] in cut;
    }
  }

  /**
   * Top ten: a word of the trie under the prefix that `search` leaves out
   * means ten words came back, none less frequent than it.
   */
  lemma SearchTopK(nodes: seq<DashNode>, labels: seq<string>, content: map<string, int>, prefix: string, w: string)
    requires Represents(nodes, labels, content)
    requires w in content && Lower(prefix) <= w && w !in TrieSearch(nodes, prefix)
    ensures |TrieSearch(nodes, prefix)| == TopResults
    ensures forall v :: v in TrieSearch(nodes, prefix) ==> v in content && content[v] >= content[w]
  {
    var lp := Lower(prefix);
    var r := TrieSearch(nodes, prefix);
    var x := Hit(w, content[w]);
    assert FrequencyOf(nodes, w) == Some(content[w]);
    SearchFinds(nodes, labels, prefix, w, content[w]);
    var sorted := SortByRank(Hits(nodes, Walk(nodes, 0, lp).value, lp), HitRank);
    assert SearchHits(nodes, prefix) == Take(sorted, TopResults);
    SearchSound(nodes, labels, content, prefix);
    HitCutTopK(sorted, x, content);
  }

  /** `search` comes back empty exactly when the trie holds no word under the prefix. */
  lemma SearchEmpty(nodes: seq<DashNode>, labels: seq<string>, content: map<string, int>, prefix: string)
    requires Represents(nodes, labels, content)
    ensures TrieSearch(nodes, prefix) == [] <==> forall w :: w in content ==> !(Lower(prefix) <= w)
  {
    var r := TrieSearch(nodes, prefix);
    SearchSound(nodes, labels, content, prefix);
    if exists w :: w in content && Lower(prefix) <= w {
      var w :| w in content && Lower(prefix) <= w;
      if w !in r {
        SearchTopK(nodes, labels, content, prefix, w);
      }
    } else {
      assert |r| > 0 ==> r[0] in r;
    }
  }

  /** The nodes of `new Trie()`: a root with no children that ends no word. */
  function EmptyTrie(): seq<DashNode>
  {
    [Node([], false, 0)]
  }

  /** A root alone holds no word. */
  lemma EmptyTrieRepresents()
    ensures Represents(EmptyTrie(), [[]], map[])
  {
    var root := EmptyTrie();
    assert Walk(root, 0, []) == Some(0);
    forall s
      ensures FrequencyOf(root, s) == None
    {
      if s != [] {
        assert Lookup(root[0].children, s[0]).None?;
      }
    }
  }

  /**
   * The local `Trie`: the nodes below its root, and (as proof state) the
   * path of each node and the words it holds with their frequencies.
   */
  class Trie {
    var nodes: seq<DashNode>
    ghost var labels: seq<string>
    ghost var content: map<string, int>

    ghost predicate Valid()
      reads this
    {
      Represents(nodes, labels, content)
    }

    /** `new Trie()`: a root alone, holding no word. */
    constructor()
      ensures Valid() && nodes == EmptyTrie() && content == map[]
    {
      EmptyTrieRepresents();
      nodes := EmptyTrie();
      labels := [[]];
      content := map[];
    }

    /**
     * `insert(word, frequency)`: the lower-cased word now has `frequency`,
     * whether or not the trie held it before, and no other word changes.
     */
    method Insert(word: string, frequency: int)
      requires Valid()
      modifies this
      ensures Valid()
      ensures content == old(content)[Lower(word) := frequency]
    {
      var w := Lower(word);
      var trie, paths, cur := Descend(nodes, labels, content, w);
      SetTerminalRepresents(trie, paths, content, w, cur, frequency);
      nodes := SetTerminal(trie, cur, frequency);
      labels := paths;
      content := content[w := frequency];
    }

    /** `dfs(node, prefix, results)`: the results with every hit below node `n` appended. */
    method Dfs(n: nat, path: string, results: seq<Hit>) returns (out: seq<Hit>)
      requires Linked(nodes) && n < |nodes|
      ensures out == results + Hits(nodes, n, path)
      decreases |nodes| - n
    {
      out := results;
      if nodes[n].isEndOfWord {
        out := out + [Hit(path, nodes[n].data)];
      }
      var children := nodes[n].children;
      assert children[0..] == children;
      AppendAssoc(results, if nodes[n].isEndOfWord then [Hit(path, nodes[n].data)] else [], ChildHits(nodes, n, path, children));
      for k := 0 to |children|
        invariant out + ChildHits(nodes, n, path, children[k..]) == results + Hits(nodes, n, path)
      {
        ghost var rest := children[k..];
        assert rest[0] == children[k] && rest[1..] == children[k + 1..];
        ghost var before := out;
        out := Dfs(children[k].child, path + [children[k].ch], out);
        AppendAssoc(before, Hits(nodes, children[k].child, path + [children[k].ch]), ChildHits(nodes, n, path, children[k + 1..]));
      }
      assert children[|children|..] == [];
    }

    /**
     * `search(prefix)`: the ten most frequent words under the lower-cased
     * prefix, or nothing when the prefix leads nowhere.
     */
    method Search(prefix: string) returns (r: seq<string>)
      requires Valid()
      ensures r == TrieSearch(nodes, prefix)
      ensures |r| <= TopResults
      ensures forall w :: w in r ==> w in content && Lower(prefix) <= w
      ensures r == [] <==> forall w :: w in content ==> !(Lower(prefix) <= w)
    {
      SearchSound(nodes, labels, content, prefix);
      SearchEmpty(nodes, labels, content, prefix);
      var lowerPrefix := Lower(prefix);
      var found := FindNode(nodes, lowerPrefix);
      if found.None? {
        return [];
      }
      var results := Dfs(found.value, lowerPrefix, []);
      assert [] + Hits(nodes, found.value, lowerPrefix) == Hits(nodes, found.value, lowerPrefix);
      r := Map(Take(SortByRank(results, HitRank), TopResults), HitWord);
    }

    /**
     * The mount effect: inserts the vocabulary in order, the word at index
     * `i` with frequency `|vocabulary| - i`.
     */
    method LoadVocabulary(vocabulary: seq<string>)
      requires Valid()
      modifies this
      ensures Valid()
      ensures content == Loaded(old(content), vocabulary, |vocabulary|)
    {
      ghost var initial := content;
      for index := 0 to |vocabulary|
        invariant Valid()
        invariant content == Loaded(initial, vocabulary, index)
      {
        Insert(vocabulary[index], |vocabulary| - index);
      }
    }
  }

  /** The words held after the first `i` inserts of the vocabulary load. */
  function Loaded(content: map<string, int>, vocabulary: seq<string>, i: nat): map<string, int>
    requires i <= |vocabulary|
  {
    if i == 0 then content
    else Loaded(content, vocabulary, i - 1)[Lower(vocabulary[i - 1]) := |vocabulary| - (i - 1)]
  }

  /**
   * The load adds exactly the lower-cased vocabulary words, and a word no
   * entry lower-cases to keeps its frequency.
   */
  lemma {:induction false} LoadedKeys(content: map<string, int>, vocabulary: seq<string>, i: nat, s: string)
    requires i <= |vocabulary|
    ensures s in Loaded(content, vocabulary, i) <==>
      s in content || exists k :: 0 <= k < i && Lower(vocabulary[k]) == s
    ensures s in content && (forall k :: 0 <= k < i ==> Lower(vocabulary[k]) != s) ==>
      Loaded(content, vocabulary, i)[s] == content[s]
  {
    if i > 0 {
      LoadedKeys(content, vocabulary, i - 1, s);
    }
  }

  /** The last insert wins: a word's frequency comes from its last entry `k`, `|vocabulary| - k`. */
  lemma {:induction false} LoadedLastWins(content: map<string, int>, vocabulary: seq<string>, i: nat, k: nat)
    requires k < i <= |vocabulary|
    requires forall j :: k < j < i ==> Lower(vocabulary[j]) != Lower(vocabulary[k])
    ensures Lower(vocabulary[k]) in Loaded(content, vocabulary, i)
    ensures Loaded(content, vocabulary, i)[Lower(vocabulary[k])] == |vocabulary| - k
  {
    if i - 1 != k {
      LoadedLastWins(content, vocabulary, i - 1, k);
    }
  }

  // ---------------------------------------------------------------- suggestions

  /** A suggestion and its type. A spell-check suggestion keeps the distance its score comes from. */
  datatype Suggestion = Autocomplete(word: string) | Spellcheck(word: string, distance: nat)

  const MinQueryLength := 2
  const MaxSpellDistance := 2
  const MaxSpellSuggestions := 5

  /** A vocabulary word with its distance from the query, both lower-cased. */
  datatype Candidate = Candidate(word: string, distance: nat)

  function Measure(lowerQuery: string): string -> Candidate
  {
    w => Candidate(w, Levenshtein(lowerQuery, Lower(w)))
  }

  function Close(c: Candidate): bool { c.distance <= MaxSpellDistance }

  /** The comparator `a.distance - b.distance`: nearest first. */
  function CandidateRank(c: Candidate): Rank { Rank(c.distance, 0) }

  function ToSpellcheck(c: Candidate): Suggestion { Spellcheck(c.word, c.distance) }

  function ToAutocomplete(w: string): Suggestion { Autocomplete(w) }

  /** The vocabulary words within distance 2 of the query, nearest first, before the cut to five. */
  function RankedCandidates(vocabulary: seq<string>, query: string): seq<Candidate>
  {
    SortByRank(Filter(Map(vocabulary, Measure(Lower(query))), Close), CandidateRank)
  }

  /** The spell-check fallback: the vocabulary words within distance 2, nearest first, at most five. */
  function SpellFallback(vocabulary: seq<string>, query: string): seq<Suggestion>
  {
    Map(Take(RankedCandidates(vocabulary, query), MaxSpellSuggestions), ToSpellcheck)
  }

  /** The suggestion list `fetchSuggestions(query)` sets, for the trie `nodes`. */
  function FetchSuggestions(nodes: seq<DashNode>, vocabulary: seq<string>, query: string): (r: seq<Suggestion>)
    requires Linked(nodes)
    ensures |query| < MinQueryLength ==> r == []
  {
    if |query| < MinQueryLength then []
    else
      var found := TrieSearch(nodes, query);
      if |found| > 0 then Map(found, ToAutocomplete) else SpellFallback(vocabulary, query)
  }

  /** Some word of the trie under the query: the list is the autocomplete results, all of that type. */
  lemma FetchAutocomplete(nodes: seq<DashNode>, labels: seq<string>, content: map<string, int>, vocabulary: seq<string>, query: string, w: string)
    requires Represents(nodes, labels, content) && |query| >= MinQueryLength
    requires w in content && Lower(query) <= w
    ensures 0 < |FetchSuggestions(nodes, vocabulary, query)| <= TopResults
    ensures forall s :: s in FetchSuggestions(nodes, vocabulary, query) ==>
      s.Autocomplete? && s.word in content && Lower(query) <= s.word
  {
    SearchEmpty(nodes, labels, content, query);
    SearchSound(nodes, labels, content, query);
    var found := TrieSearch(nodes, query);
    forall s | s in FetchSuggestions(nodes, vocabulary, query)
      ensures s.Autocomplete? && s.word in content && Lower(query) <= s.word
    {
      var i :| 0 <= i < |found| && s == Autocomplete(found[i]);
      assert found[i] in found;
    }
  }

  /** No word of the trie under the query: the list is the spell-check fallback. */
  lemma FetchSpellcheck(nodes: seq<DashNode>, labels: seq<string>, content: map<string, int>, vocabulary: seq<string>, query: string)
    requires Represents(nodes, labels, content) && |query| >= MinQueryLength
    requires forall w :: w in content ==> !(Lower(query) <= w)
    ensures FetchSuggestions(nodes, vocabulary, query) == SpellFallback(vocabulary, query)
  {
    SearchEmpty(nodes, labels, content, query);
  }

  /**
   * The trie a render builds and the mount effect does not fill: every
   * fetch of two or more characters falls back to spell-checking.
   */
  lemma FreshTrieAlwaysFallsBack(vocabulary: seq<string>, query: string)
    requires |query| >= MinQueryLength
    ensures FetchSuggestions(EmptyTrie(), vocabulary, query) == SpellFallback(vocabulary, query)
  {
    EmptyTrieRepresents();
    FetchSpellcheck(EmptyTrie(), [[]], map[], vocabulary, query);
  }

  /** A kept candidate is a vocabulary word with its distance, which is at most 2. */
  lemma CandidateSound(vocabulary: seq<string>, lowerQuery: string, c: Candidate)
    requires c in Filter(Map(vocabulary, Measure(lowerQuery)), Close)
    ensures c.word in vocabulary && c.distance == Levenshtein(lowerQuery, Lower(c.word))
    ensures c.distance <= MaxSpellDistance
  {
    var measured := Map(vocabulary, Measure(lowerQuery));
    FilterMembership(measured, Close, c);
    var k :| 0 <= k < |measured| && measured[k] == c;
    assert c == Candidate(vocabulary[k], Levenshtein(lowerQuery, Lower(vocabulary[k])));
  }

  /** Every vocabulary word within distance 2 is a candidate. */
  lemma CandidateComplete(vocabulary: seq<string>, lowerQuery: string, w: string)
    requires w in vocabulary && Levenshtein(lowerQuery, Lower(w)) <= MaxSpellDistance
    ensures Candidate(w, Levenshtein(lowerQuery, Lower(w))) in Filter(Map(vocabulary, Measure(lowerQuery)), Close)
  {
    var measured := Map(vocabulary, Measure(lowerQuery));
    var k :| 0 <= k < |vocabulary| && vocabulary[k] == w;
    assert measured[k] == Candidate(w, Levenshtein(lowerQuery, Lower(w)));
    FilterMembership(measured, Close, Candidate(w, Levenshtein(lowerQuery, Lower(w))));
  }

  /** The ranked candidates are exactly the vocabulary words within distance 2, nearest first. */
  lemma RankedCandidatesExact(vocabulary: seq<string>, query: string)
    ensures SortedBy(RankedCandidates(vocabulary, query), CandidateRank)
    ensures forall c :: c in RankedCandidates(vocabulary, query) ==>
      c.word in vocabulary && c.distance == Levenshtein(Lower(query), Lower(c.word)) && c.distance <= MaxSpellDistance
    ensures forall w :: w in vocabulary && Levenshtein(Lower(query), Lower(w)) <= MaxSpellDistance ==>
      Candidate(w, Levenshtein(Lower(query), Lower(w))) in RankedCandidates(vocabulary, query)
  {
    var close := Filter(Map(vocabulary, Measure(Lower(query))), Close);
    var ranked := RankedCandidates(vocabulary, query);
    SortPermutes(close, CandidateRank);
    SortIsSorted(close, CandidateRank);
    forall c | c in ranked
      ensures c.word in vocabulary && c.distance == Levenshtein(Lower(query), Lower(c.word)) && c.distance <= MaxSpellDistance
    {
      assert c in multiset(ranked);
      CandidateSound(vocabulary, Lower(query), c);
    }
    forall w | w in vocabulary && Levenshtein(Lower(query), Lower(w)) <= MaxSpellDistance
      ensures Candidate(w, Levenshtein(Lower(query), Lower(w))) in ranked
    {
      CandidateComplete(vocabulary, Lower(query), w);
      assert Candidate(w, Levenshtein(Lower(query), Lower(w))) in multiset(close);
    }
  }

  /** Cutting a sorted list of kept candidates to five and typing them keeps their facts and their order. */
  lemma CutSound(ranked: seq<Candidate>, vocabulary: seq<string>, lowerQuery: string)
    requires SortedBy(ranked, CandidateRank)
    requires forall c :: c in ranked ==>
      c.word in vocabulary && c.distance == Levenshtein(lowerQuery, Lower(c.word)) && c.distance <= MaxSpellDistance
    ensures |Map(Take(ranked, MaxSpellSuggestions), ToSpellcheck)| <= MaxSpellSuggestions
    ensures forall s :: s in Map(Take(ranked, MaxSpellSuggestions), ToSpellcheck) ==>
      s.Spellcheck? && s.word in vocabulary && s.distance == Levenshtein(lowerQuery, Lower(s.word)) &&
      s.distance <= MaxSpellDistance
    ensures forall i, j :: 0 <= i < j < |Map(Take(ranked, MaxSpellSuggestions), ToSpellcheck)| ==>
      Map(Take(ranked, MaxSpellSuggestions), ToSpellcheck)[i].Spellcheck? &&
      Map(Take(ranked, MaxSpellSuggestions), ToSpellcheck)[j].Spellcheck? &&
      Map(Take(ranked, MaxSpellSuggestions), ToSpellcheck)[i].distance <= Map(Take(ranked, MaxSpellSuggestions), ToSpellcheck)[j].distance
  {
    var r := Map(Take(ranked, MaxSpellSuggestions), ToSpellcheck);
    forall s | s in r
      ensures s.Spellcheck? && s.word in vocabulary && s.distance == Levenshtein(lowerQuery, Lower(s.word))
      ensures s.distance <= MaxSpellDistance
    {
      var i :| 0 <= i < |r| && r[i] == s;
      MapTakeAt(ranked, MaxSpellSuggestions, ToSpellcheck, i);
      assert ranked[i] in ranked;
    }
    forall i, j | 0 <= i < j < |r|
      ensures r[i].Spellcheck? && r[j].Spellcheck? && r[i].distance <= r[j].distance
    {
      MapTakeAt(ranked, MaxSpellSuggestions, ToSpellcheck, i);
      MapTakeAt(ranked, MaxSpellSuggestions, ToSpellcheck, j);
      SortedAt(ranked, CandidateRank, i, j);
    }
  }

  /**
   * The fallback holds at most five spell-check suggestions, each a
   * vocabulary word whose lower-cased distance from the lower-cased query
   * is at most 2, nearest first.
   */
  lemma SpellFallbackSound(vocabulary: seq<string>, query: string)
    ensures |SpellFallback(vocabulary, query)| <= MaxSpellSuggestions
    ensures forall s :: s in SpellFallback(vocabulary, query) ==>
      s.Spellcheck? && s.word in vocabulary && s.distance == Levenshtein(Lower(query), Lower(s.word)) &&
      s.distance <= MaxSpellDistance
    ensures forall i, j :: 0 <= i < j < |SpellFallback(vocabulary, query)| ==>
      SpellFallback(vocabulary, query)[i].Spellcheck? && SpellFallback(vocabulary, query)[j].Spellcheck? &&
      SpellFallback(vocabulary, query)[i].distance <= SpellFallback(vocabulary, query)[j].distance
  {
    RankedCandidatesExact(vocabulary, query);
    CutSound(RankedCandidates(vocabulary, query), vocabulary, Lower(query));
  }

  /** A sorted candidate left out by the cut to five means five came back, none farther than it. */
  lemma CutTopK(ranked: seq<Candidate>, x: Candidate)
    requires SortedBy(ranked, CandidateRank) && x in ranked
    ensures ToSpellcheck(x) in Map(Take(ranked, MaxSpellSuggestions), ToSpellcheck) ||
      (|Map(Take(ranked, MaxSpellSuggestions), ToSpellcheck)| == MaxSpellSuggestions &&
       forall s :: s in Map(Take(ranked, MaxSpellSuggestions), ToSpellcheck) ==> s.Spellcheck? && s.distance <= x.distance)
  {
    var cut := Take(ranked, MaxSpellSuggestions);
    var r := Map(cut, ToSpellcheck);
    if x in cut {
      var i :| 0 <= i < |cut| && cut[i] == x;
      assert r[i] == ToSpellcheck(x);
    } else {
      TopOfSorted(ranked, CandidateRank, MaxSpellSuggestions, x);
      forall s | s in r
        ensures s.Spellcheck? && s.distance <= x.distance
      {
        var i :| 0 <= i < |r| && r[i] == s;
        assert cut[i] in cut;
      }
    }
  }

  /**
   * A vocabulary word within distance 2 is suggested, unless five
   * suggestions came back, none farther than it.
   */
  lemma SpellFallbackTopK(vocabulary: seq<string>, query: string, w: string)
    requires w in vocabulary && Levenshtein(Lower(query), Lower(w)) <= MaxSpellDistance
    ensures Spellcheck(w, Levenshtein(Lower(query), Lower(w))) in SpellFallback(vocabulary, query) ||
      (|SpellFallback(vocabulary, query)| == MaxSpellSuggestions &&
       forall s :: s in SpellFallback(vocabulary, query) ==>
         s.Spellcheck? && s.distance <= Levenshtein(Lower(query), Lower(w)))
  {
    RankedCandidatesExact(vocabulary, query);
    CutTopK(RankedCandidates(vocabulary, query), Candidate(w, Levenshtein(Lower(query), Lower(w))));
  }

  // ---------------------------------------------------------------- page state

  /** The page state the handlers change. */
  datatype PageState = PageState(query: string, suggestions: seq<Suggestion>, selectedIndex: int, recentSearches: seq<string>)

  datatype Key = ArrowDown | ArrowUp | Enter | Escape | OtherKey

  const MaxRecentSearches := 5

  /** The selection is -1 (none) or the index of a suggestion. */
  predicate SelectionInRange(s: PageState)
  {
    -1 <= s.selectedIndex < |s.suggestions|
  }

  /** What every handler keeps: the selection in range, at most five recent searches, none repeated. */
  predicate WellFormed(s: PageState)
  {
    SelectionInRange(s) && |s.recentSearches| <= MaxRecentSearches && Distinct(s.recentSearches)
  }

  /** The state on mount. */
  function InitialState(): (r: PageState)
    ensures WellFormed(r)
  {
    PageState([], [], -1, [])
  }

  function Differs(word: string): string -> bool
  {
    x => x != word
  }

  /** The recent-searches update of `handleSuggestionSelect`. */
  function Remember(recent: seq<string>, word: string): seq<string>
  {
    Take([word] + Filter(recent, Differs(word)), MaxRecentSearches)
  }

  /**
   * The selected word heads the list and appears once, everything else was
   * there before, the list stays at most five long and without repeats, and
   * when it was shorter than five nothing is dropped.
   */
  lemma RememberProperties(recent: seq<string>, word: string)
    ensures 1 <= |Remember(recent, word)| <= MaxRecentSearches
    ensures Remember(recent, word)[0] == word
    ensures forall i :: 1 <= i < |Remember(recent, word)| ==>
      Remember(recent, word)[i] != word && Remember(recent, word)[i] in recent
    ensures Distinct(recent) ==> Distinct(Remember(recent, word))
    ensures |recent| < MaxRecentSearches ==> forall x :: x in recent ==> x in Remember(recent, word)
  {
    var kept := Filter(recent, Differs(word));
    var all := [word] + kept;
    var r := Remember(recent, word);
    forall i | 1 <= i < |r|
      ensures r[i] != word && r[i] in recent
    {
      assert r[i] == kept[i - 1];
    }
    if Distinct(recent) {
      FilterDistinct(recent, Differs(word));
      forall i, j | 0 <= i < j < |r|
        ensures r[i] != r[j]
      {
        assert r[j] == kept[j - 1];
        if i > 0 {
          assert r[i] == kept[i - 1];
        }
      }
    }
    if |recent| < MaxRecentSearches {
      assert r == all;
      forall x | x in recent
        ensures x in r
      {
        FilterMembership(recent, Differs(word), x);
        if x != word {
          var k :| 0 <= k < |kept| && kept[k] == x;
          assert r[k + 1] == x;
        }
      }
    }
  }

  /** A word not yet in a full list of recent searches pushes out the oldest one. */
  lemma RememberDropsOldest(recent: seq<string>, word: string)
    requires word !in recent && |recent| >= MaxRecentSearches
    ensures Remember(recent, word) == [word] + recent[..MaxRecentSearches - 1]
  {
    FilterAll(recent, Differs(word));
    assert [word] + Filter(recent, Differs(word)) == [word] + recent;
  }

  /** The searches kept behind the selected word stay in the order they had. */
  lemma RememberKeepsOrder(recent: seq<string>, word: string, i: nat, j: nat)
    requires 1 <= i < j < |Remember(recent, word)|
    ensures exists a, b :: 0 <= a < b < |recent| && recent[a] == Remember(recent, word)[i] && recent[b] == Remember(recent, word)[j]
  {
    var kept := Filter(recent, Differs(word));
    assert Remember(recent, word)[i] == kept[i - 1] && Remember(recent, word)[j] == kept[j - 1];
    var a, b := FilterKeepsOrder(recent, Differs(word), i - 1, j - 1);
  }

  /** `handleSuggestionSelect(word)`: the word becomes the query, the list closes, the word heads the recent searches. */
  function Select(s: PageState, word: string): PageState
  {
    s.(query := word, suggestions := [], selectedIndex := -1, recentSearches := Remember(s.recentSearches, word))
  }

  /**
   * `handleQueryChange(query)` followed by the effect it triggers when the
   * query changes: fresh suggestions and no selection.
   */
  function QueryChanged(s: PageState, nodes: seq<DashNode>, vocabulary: seq<string>, query: string): PageState
    requires Linked(nodes)
  {
    s.(query := query, suggestions := FetchSuggestions(nodes, vocabulary, query), selectedIndex := -1)
  }

  /** `handleKeyDown`: moves the selection, selects, or closes the list; nothing happens without suggestions. */
  function KeyDown(s: PageState, key: Key): PageState
    requires SelectionInRange(s)
  {
    if |s.suggestions| == 0 then s
    else match key
      case ArrowDown =>
        s.(selectedIndex := if s.selectedIndex < |s.suggestions| - 1 then s.selectedIndex + 1 else s.selectedIndex)
      case ArrowUp =>
        s.(selectedIndex := if s.selectedIndex > 0 then s.selectedIndex - 1 else -1)
      case Enter =>
        if s.selectedIndex >= 0 then Select(s, s.suggestions[s.selectedIndex].word) else s
      case Escape =>
        s.(suggestions := [], selectedIndex := -1)
      case OtherKey => s
  }

  /** Every handler keeps the page state well formed. */
  lemma HandlersKeepWellFormed(s: PageState, key: Key, word: string, nodes: seq<DashNode>, vocabulary: seq<string>, query: string)
    requires WellFormed(s) && Linked(nodes)
    ensures WellFormed(Select(s, word))
    ensures WellFormed(QueryChanged(s, nodes, vocabulary, query))
    ensures WellFormed(KeyDown(s, key))
  {
    RememberProperties(s.recentSearches, word);
    if |s.suggestions| > 0 && key == Enter && s.selectedIndex >= 0 {
      RememberProperties(s.recentSearches, s.suggestions[s.selectedIndex].word);
    }
  }

  /**
   * The keys: ArrowDown moves down and stops at the last suggestion, ArrowUp
   * moves up and from the first goes to no selection, Enter selects the
   * highlighted suggestion only when there is one, and Escape closes the list;
   * with no suggestions no key changes anything.
   */
  lemma KeyDownEffects(s: PageState, key: Key)
    requires SelectionInRange(s)
    ensures |s.suggestions| == 0 ==> KeyDown(s, key) == s
    ensures key == ArrowDown ==> KeyDown(s, key).selectedIndex == Min(s.selectedIndex + 1, |s.suggestions| - 1)
    ensures key == ArrowUp ==> KeyDown(s, key).selectedIndex == Max(s.selectedIndex - 1, -1)
    ensures key in {ArrowDown, ArrowUp} ==> KeyDown(s, key).suggestions == s.suggestions
    ensures key == Enter && s.selectedIndex >= 0 ==>
      KeyDown(s, key).recentSearches[0] == s.suggestions[s.selectedIndex].word &&
      KeyDown(s, key).query == s.suggestions[s.selectedIndex].word && KeyDown(s, key).suggestions == []
    ensures key == Enter && s.selectedIndex < 0 ==> KeyDown(s, key) == s
    ensures key == Escape ==> KeyDown(s, key).suggestions == [] && KeyDown(s, key).selectedIndex == -1
    ensures key != Enter ==> KeyDown(s, key).recentSearches == s.recentSearches && KeyDown(s, key).query == s.query
  {
    if key == Enter && s.selectedIndex >= 0 {
      RememberProperties(s.recentSearches, s.suggestions[s.selectedIndex].word);
    }
  }
}
