/**
 * The node graph shared by both tries of the source. A `TrieNode` object
 * becomes an index into a sequence of nodes (index 0 is the root); a
 * `children` Map becomes the list of its entries in insertion order, each
 * an `Edge` from a character to the index of the child node.
 */
module TrieArena {
  import opened Wrappers
  import opened Seqs

  datatype Edge = Edge(ch: char, child: nat)

  /** A trie node: its children, its end-of-word flag and its payload. */
  datatype Node<D> = Node(children: seq<Edge>, isEndOfWord: bool, data: D)

  /** `children.get(c)`; `children.has(c)` is `Lookup(children, c).Some?`. */
  function Lookup(edges: seq<Edge>, c: char): (r: Option<nat>)
    ensures r.None? <==> forall i :: 0 <= i < |edges| ==> edges[i].ch != c
    ensures r.Some? ==> Edge(c, r.value) in edges
  {
    if edges == [] then None
    else if edges[0].ch == c then Some(edges[0].child)
    else
      assert edges == [edges[0]] + edges[1..];
      Lookup(edges[1..], c)
  }

  /** Every edge points to a later node that exists: the graph is finite and acyclic. */
  predicate Linked<D>(nodes: seq<Node<D>>)
  {
    |nodes| > 0 &&
    forall n, e :: 0 <= n < |nodes| && e in nodes[n].children ==> n < e.child < |nodes|
  }

  /** Follows the characters of `s` from node `n`, as the source's walking loops do. */
  function Walk<D>(nodes: seq<Node<D>>, n: nat, s: string): (r: Option<nat>)
    requires Linked(nodes) && n < |nodes|
    ensures r.Some? ==> n <= r.value < |nodes|
    decreases |s|
  {
    if s == [] then Some(n)
    else match Lookup(nodes[n].children, s[0])
      case None => None
      case Some(c) => Walk(nodes, c, s[1..])
  }

  /**
   * `labels[n]` is the path from the root to node `n`, and walking that path
   * from the root reaches `n`: the graph is a tree whose paths are the labels.
   */
  ghost predicate Shaped<D>(nodes: seq<Node<D>>, labels: seq<string>)
  {
    && Linked(nodes)
    && |labels| == |nodes|
    && labels[0] == []
    && (forall n, e :: 0 <= n < |nodes| && e in nodes[n].children ==> labels[e.child] == labels[n] + [e.ch])
    && (forall n {:trigger Walk(nodes, 0, labels[n])} :: 0 <= n < |nodes| ==> Walk(nodes, 0, labels[n]) == Some(n))
  }

  /** The walk of `s` from the root ends at a node that ends a word. */
  predicate TerminalAt<D>(nodes: seq<Node<D>>, s: string)
    requires Linked(nodes)
  {
    match Walk(nodes, 0, s)
    case None => false
    case Some(m) => nodes[m].isEndOfWord
  }

  /** A walk from `n` along `s` ends at the node labelled `labels[n] + s`. */
  lemma {:induction false} WalkLabel<D>(nodes: seq<Node<D>>, labels: seq<string>, n: nat, s: string)
    requires Shaped(nodes, labels) && n < |nodes|
    ensures Walk(nodes, n, s).Some? ==> labels[Walk(nodes, n, s).value] == labels[n] + s
    decreases |s|
  {
    if s != [] {
      match Lookup(nodes[n].children, s[0])
      case None =>
      case Some(c) =>
        assert Edge(s[0], c) in nodes[n].children;
        assert labels[c] == labels[n] + [s[0]];
        WalkLabel(nodes, labels, c, s[1..]);
        assert [s[0]] + s[1..] == s;
        AppendAssoc(labels[n], [s[0]], s[1..]);
    }
  }

  /** Walking `s + t` is walking `s` and then `t`. */
  lemma {:induction false} WalkConcat<D>(nodes: seq<Node<D>>, n: nat, s: string, t: string)
    requires Linked(nodes) && n < |nodes|
    ensures Walk(nodes, n, s).None? ==> Walk(nodes, n, s + t).None?
    ensures Walk(nodes, n, s).Some? ==> Walk(nodes, n, s + t) == Walk(nodes, Walk(nodes, n, s).value, t)
    decreases |s|
  {
    if s == [] {
      assert s + t == t;
    } else {
      assert (s + t)[0] == s[0];
      assert (s + t)[1..] == s[1..] + t;
      match Lookup(nodes[n].children, s[0])
      case None =>
      case Some(c) => WalkConcat(nodes, c, s[1..], t);
    }
  }

  /**
   * The loop both tries use to find the node at the end of `s`: follow one
   * child per character from the root, stopping at the first missing one.
   */
  method FindNode<D>(nodes: seq<Node<D>>, s: string) returns (r: Option<nat>)
    requires Linked(nodes) && 0 < |nodes|
    ensures r == Walk(nodes, 0, s)
  {
    var cur := 0;
    for i := 0 to |s|
      invariant cur < |nodes| && Walk(nodes, 0, s[..i]) == Some(cur)
    {
      assert s[..i + 1] == s[..i] + [s[i]];
      WalkConcat(nodes, 0, s[..i], [s[i]]);
      var next := Lookup(nodes[cur].children, s[i]);
      if next.None? {
        assert s[..i + 1] + s[i + 1..] == s;
        WalkConcat(nodes, 0, s[..i + 1], s[i + 1..]);
        return None;
      }
      cur := next.value;
    }
    assert s[..|s|] == s;
    return Some(cur);
  }

  /**
   * A tree grown from `a` (its labels extend `a`'s) reaches an old node only
   * along that node's old path: a walk in `b` ending at a node of `a` is a
   * walk of `a` too.
   */
  lemma WalkBack<D>(a: seq<Node<D>>, la: seq<string>, b: seq<Node<D>>, lb: seq<string>, s: string)
    requires Shaped(a, la) && Shaped(b, lb) && la <= lb
    requires Walk(b, 0, s).Some? && Walk(b, 0, s).value < |a|
    ensures Walk(a, 0, s) == Walk(b, 0, s)
  {
    var k := Walk(b, 0, s).value;
    WalkLabel(b, lb, 0, s);
    assert lb[0] + s == s;
    assert la[k] == lb[k] == s;
    assert Walk(a, 0, la[k]) == Some(k);
  }

  /** `b` keeps every node of `a` and every edge of each, possibly adding more. */
  ghost predicate Extends<D>(a: seq<Node<D>>, b: seq<Node<D>>)
  {
    |a| <= |b| && forall k :: 0 <= k < |a| ==> a[k].children <= b[k].children
  }

  lemma {:induction false} LookupExtends(es: seq<Edge>, es': seq<Edge>, c: char)
    requires es <= es' && Lookup(es, c).Some?
    ensures Lookup(es', c) == Lookup(es, c)
  {
    if es[0].ch != c {
      assert es[1..] <= es'[1..];
      LookupExtends(es[1..], es'[1..], c);
    }
  }

  /** Adding nodes and edges never breaks a walk that succeeded. */
  lemma {:induction false} WalkExtends<D>(a: seq<Node<D>>, b: seq<Node<D>>, n: nat, s: string)
    requires Linked(a) && Linked(b) && Extends(a, b) && n < |a|
    ensures Walk(a, n, s).Some? ==> Walk(b, n, s) == Walk(a, n, s)
    decreases |s|
  {
    if s != [] {
      match Lookup(a[n].children, s[0])
      case None =>
      case Some(c) =>
        LookupExtends(a[n].children, b[n].children, s[0]);
        WalkExtends(a, b, c, s[1..]);
    }
  }

  /** Two graphs with the same edges have the same walks. */
  lemma WalkSameEdges<D>(a: seq<Node<D>>, b: seq<Node<D>>, n: nat, s: string)
    requires Linked(a) && Linked(b) && Extends(a, b) && Extends(b, a) && n < |a|
    ensures Walk(a, n, s) == Walk(b, n, s)
  {
    WalkExtends(a, b, n, s);
    WalkExtends(b, a, n, s);
  }

  /** `current.children.set(c, new TrieNode())`: a new last node, and an edge to it. */
  function AddChild<D>(nodes: seq<Node<D>>, p: nat, c: char, empty: D): (r: seq<Node<D>>)
    requires p < |nodes|
  {
    nodes[p := nodes[p].(children := nodes[p].children + [Edge(c, |nodes|)])] + [Node([], false, empty)]
  }

  lemma AddChildShaped<D>(nodes: seq<Node<D>>, labels: seq<string>, p: nat, c: char, empty: D)
    requires Shaped(nodes, labels) && p < |nodes| && Lookup(nodes[p].children, c).None?
    ensures Extends(nodes, AddChild(nodes, p, c, empty))
    ensures Shaped(AddChild(nodes, p, c, empty), labels + [labels[p] + [c]])
    ensures Walk(AddChild(nodes, p, c, empty), p, [c]) == Some(|nodes|)
  {
    var r := AddChild(nodes, p, c, empty);
    var labels' := labels + [labels[p] + [c]];
    assert Linked(r) by {
      forall n, e | 0 <= n < |r| && e in r[n].children
        ensures n < e.child < |r|
      {
        if n == p && e !in nodes[p].children {
          assert e == Edge(c, |nodes|);
        }
      }
    }
    assert Extends(nodes, r);
    assert r[p].children == nodes[p].children + [Edge(c, |nodes|)];
    assert Lookup(r[p].children, c) == Some(|nodes|) by {
      LookupAppend(nodes[p].children, Edge(c, |nodes|));
    }
    assert Walk(r, p, [c]) == Some(|nodes|);
    forall n, e | 0 <= n < |r| && e in r[n].children
      ensures labels'[e.child] == labels'[n] + [e.ch]
    {
      if n == p && e !in nodes[p].children {
        assert e == Edge(c, |nodes|);
      }
    }
    forall n | 0 <= n < |r|
      ensures Walk(r, 0, labels'[n]) == Some(n)
    {
      AddChildWalk(nodes, labels, r, p, c, n);
    }
  }

  /** The old labels still lead to their nodes, and the new label to the new node. */
  lemma AddChildWalk<D>(nodes: seq<Node<D>>, labels: seq<string>, r: seq<Node<D>>, p: nat, c: char, n: nat)
    requires Shaped(nodes, labels) && p < |nodes| && n <= |nodes|
    requires Linked(r) && Extends(nodes, r) && Walk(r, p, [c]) == Some(|nodes|)
    ensures Walk(r, 0, (labels + [labels[p] + [c]])[n]) == Some(n)
  {
    if n < |nodes| {
      assert (labels + [labels[p] + [c]])[n] == labels[n];
      assert Walk(nodes, 0, labels[n]) == Some(n);
      WalkExtends(nodes, r, 0, labels[n]);
    } else {
      assert (labels + [labels[p] + [c]])[n] == labels[p] + [c];
      assert Walk(nodes, 0, labels[p]) == Some(p);
      WalkExtends(nodes, r, 0, labels[p]);
      WalkConcat(r, 0, labels[p], [c]);
    }
  }

  lemma LookupAppend(es: seq<Edge>, e: Edge)
    requires Lookup(es, e.ch).None?
    ensures Lookup(es + [e], e.ch) == Some(e.child)
  {
    if es != [] {
      assert (es + [e])[1..] == es[1..] + [e];
      LookupAppend(es[1..], e);
    }
  }

  /** `current.isEndOfWord = true` together with setting the node's payload. */
  function SetTerminal<D>(nodes: seq<Node<D>>, m: nat, d: D): (r: seq<Node<D>>)
    requires m < |nodes|
    ensures |r| == |nodes|
    ensures r[m].isEndOfWord && r[m].data == d
    ensures forall k :: 0 <= k < |nodes| && k != m ==> r[k] == nodes[k]
    ensures forall k :: 0 <= k < |nodes| ==> r[k].children == nodes[k].children
  {
    nodes[m := nodes[m].(isEndOfWord := true, data := d)]
  }

  lemma SetTerminalShaped<D>(nodes: seq<Node<D>>, labels: seq<string>, m: nat, d: D)
    requires Shaped(nodes, labels) && m < |nodes|
    ensures Extends(nodes, SetTerminal(nodes, m, d)) && Extends(SetTerminal(nodes, m, d), nodes)
    ensures Shaped(SetTerminal(nodes, m, d), labels)
  {
    var r := SetTerminal(nodes, m, d);
    assert Linked(r) by {
      forall n, e | 0 <= n < |r| && e in r[n].children
        ensures n < e.child < |r|
      {
        assert e in nodes[n].children;
      }
    }
    forall n | 0 <= n < |r|
      ensures Walk(r, 0, labels[n]) == Some(n)
    {
      WalkSameEdges(nodes, r, 0, labels[n]);
    }
  }
}
