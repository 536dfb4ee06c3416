/** Trees of token sets grown from a worklist.  `intersect` and `fromFuzzyString` both
    build their result this way: several worklist entries may share an output node, and
    each adds edges below it or makes it final. */
module Tries {
  import opened Options
  import opened TokenSets

  /** The nodes in `paths` form a tree below `root`: each is reached by its own path and
      its edges lead to nodes one label further. */
  ghost predicate Trie(h: Arena, root: nat, paths: map<nat, string>) {
    && root in paths && paths[root] == []
    && (forall o :: o in paths ==> o < |h| && Run(h, root, paths[o]) == Some(o))
    && (forall o, c :: o in paths && c in h[o].edges ==>
          h[o].edges[c] in paths && paths[h[o].edges[c]] == paths[o] + [c])
  }

  function Alloc(h: Arena): Arena {
    h + [EMPTY_NODE]
  }

  function Mark(h: Arena, n: nat): Arena
    requires n < |h|
  {
    h[n := h[n].(final := true)]
  }

  function Link(h: Arena, n: nat, c: char, t: nat): Arena
    requires n < |h|
  {
    h[n := h[n].(edges := h[n].edges[c := t])]
  }

  /** The arena once `n` surely has an edge labelled `c`: the one it had, or one to a new node. */
  function WithEdge(h: Arena, n: nat, c: char): Arena
    requires n < |h|
  {
    if c in h[n].edges then h else Link(Alloc(h), n, c, |h|)
  }

  lemma {:induction false} RunInTrie(h: Arena, root: nat, paths: map<nat, string>, o: nat, w: string)
    requires Trie(h, root, paths) && o in paths
    ensures Run(h, o, w).Some? ==> Run(h, o, w).value in paths && paths[Run(h, o, w).value] == paths[o] + w
    decreases |w|
  {
    if w == [] {
      assert paths[o] + w == paths[o];
    } else if w[0] in h[o].edges {
      RunInTrie(h, root, paths, h[o].edges[w[0]], w[1..]);
      assert paths[o] + [w[0]] + w[1..] == paths[o] + w;
    }
  }

  /** The words of a tree are the paths of its final nodes. */
  lemma TrieAccepts(h: Arena, root: nat, paths: map<nat, string>, w: string)
    requires Trie(h, root, paths)
    ensures Accepts(h, root, w) <==> exists o :: o in paths && paths[o] == w && h[o].final
  {
    RunInTrie(h, root, paths, root, w);
  }

  lemma {:induction false} RunExtends(h: Arena, h': Arena, n: nat, w: string)
    requires |h| <= |h'|
    requires forall k :: 0 <= k < |h| ==>
               forall c :: c in h[k].edges ==> c in h'[k].edges && h'[k].edges[c] == h[k].edges[c]
    ensures Run(h, n, w).Some? ==> Run(h', n, w) == Run(h, n, w)
    decreases |w|
  {
    if n < |h| && w != [] && w[0] in h[n].edges {
      RunExtends(h, h', h[n].edges[w[0]], w[1..]);
    }
  }

  /** Making sure of an edge keeps the tree and its words. */
  lemma WithEdgeKeeps(h: Arena, root: nat, paths: map<nat, string>, o: nat, c: char)
    returns (t: nat, paths': map<nat, string>)
    requires Trie(h, root, paths) && o in paths
    ensures var h' := WithEdge(h, o, c);
            && |h| <= |h'| && c in h'[o].edges && t == h'[o].edges[c] && t < |h'|
            && paths' == paths[t := paths[o] + [c]]
            && Trie(h', root, paths')
            && (forall w :: Accepts(h', root, w) <==> Accepts(h, root, w))
            && (forall k :: 0 <= k < |h| && k != o ==> h'[k] == h[k])
            && (forall k :: k in paths ==> k in paths' && paths'[k] == paths[k])
            && (t in paths || t == |h|)
  {
    var h' := WithEdge(h, o, c);
    t := h'[o].edges[c];
    paths' := paths[t := paths[o] + [c]];
    if c in h[o].edges {
      assert paths' == paths;
    } else {
      forall x | x in paths'
        ensures x < |h'| && Run(h', root, paths'[x]) == Some(x)
      {
        if x == t {
          RunExtends(h, h', root, paths[o]);
          RunConcat(h', root, paths[o], [c]);
        } else {
          RunExtends(h, h', root, paths[x]);
        }
      }
      assert Trie(h', root, paths');
      TreeSameWords(h, h', root, paths, paths');
    }
  }

  lemma TreeSameWords(h: Arena, h': Arena, root: nat, paths: map<nat, string>, paths': map<nat, string>)
    requires Trie(h, root, paths) && Trie(h', root, paths')
    requires forall o :: o in paths ==> o in paths' && paths'[o] == paths[o] && h'[o].final == h[o].final
    requires forall o :: o in paths' && o !in paths ==> !h'[o].final
    ensures forall w :: Accepts(h', root, w) <==> Accepts(h, root, w)
  {
    forall w
      ensures Accepts(h', root, w) <==> Accepts(h, root, w)
    {
      TrieAccepts(h, root, paths, w);
      TrieAccepts(h', root, paths', w);
      if x :| x in paths && paths[x] == w && h[x].final {
        assert x in paths' && h'[x].final;
      }
    }
  }

  lemma {:induction false} RunMark(h: Arena, o: nat, n: nat, w: string)
    requires o < |h|
    ensures Run(Mark(h, o), n, w) == Run(h, n, w)
    decreases |w|
  {
    if n < |h| && w != [] && w[0] in h[n].edges {
      RunMark(h, o, h[n].edges[w[0]], w[1..]);
    }
  }

  /** Making a node final adds exactly the words that lead to it. */
  lemma AcceptsMark(h: Arena, o: nat, n: nat, w: string)
    requires o < |h|
    ensures Accepts(Mark(h, o), n, w) <==> Accepts(h, n, w) || Run(h, n, w) == Some(o)
  {
    RunMark(h, o, n, w);
  }

  /** In a tree that is one word, the node's path. */
  lemma MarkKeeps(h: Arena, root: nat, paths: map<nat, string>, o: nat)
    requires Trie(h, root, paths) && o in paths
    ensures Trie(Mark(h, o), root, paths)
    ensures forall w :: Accepts(Mark(h, o), root, w) <==> Accepts(h, root, w) || w == paths[o]
  {
    var h' := Mark(h, o);
    forall x | x in paths
      ensures Run(h', root, paths[x]) == Some(x)
    {
      RunMark(h, o, root, paths[x]);
    }
    forall w
      ensures Accepts(h', root, w) <==> Accepts(h, root, w) || w == paths[o]
    {
      AcceptsMark(h, o, root, w);
      RunInTrie(h, root, paths, root, w);
    }
  }

  /** A tree has a longest path, so it is acyclic. */
  lemma TrieAcyclic(h: Arena, root: nat, paths: map<nat, string>)
    requires Trie(h, root, paths)
    ensures Acyclic(h, root)
  {
    var k := LongestPath(paths, paths.Keys);
    TrieWithin(h, root, paths, root, k);
  }

  lemma LongestPath(paths: map<nat, string>, nodes: set<nat>) returns (k: nat)
    requires nodes <= paths.Keys
    ensures forall o :: o in nodes ==> |paths[o]| <= k
    decreases |nodes|
  {
    if nodes == {} {
      k := 0;
    } else {
      var o :| o in nodes;
      var rest := LongestPath(paths, nodes - {o});
      k := if |paths[o]| > rest then |paths[o]| else rest;
    }
  }

  lemma TrieStep(h: Arena, root: nat, paths: map<nat, string>, o: nat)
    requires Trie(h, root, paths) && o in paths
    ensures o < |h|
    ensures forall c :: c in h[o].edges ==> h[o].edges[c] in paths && |paths[h[o].edges[c]]| == |paths[o]| + 1
  {
    forall c | c in h[o].edges
      ensures h[o].edges[c] in paths && |paths[h[o].edges[c]]| == |paths[o]| + 1
    {
      assert paths[h[o].edges[c]] == paths[o] + [c];
    }
  }

  lemma {:induction false} TrieWithin(h: Arena, root: nat, paths: map<nat, string>, o: nat, k: nat)
    requires Trie(h, root, paths) && o in paths
    requires forall x :: x in paths ==> |paths[x]| <= k
    ensures Within(h, o, k - |paths[o]|)
    decreases k - |paths[o]|
  {
    hide Trie;
    TrieStep(h, root, paths, o);
    forall c | c in h[o].edges
      ensures k - |paths[o]| > 0 && Within(h, h[o].edges[c], k - |paths[o]| - 1)
    {
      TrieWithin(h, root, paths, h[o].edges[c], k);
    }
  }
}
