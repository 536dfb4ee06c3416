/** `TokenSet.prototype.intersect`: the product of a token set and a query automaton,
    grown from a stack of node pairs. */
module Intersection {
  import opened TokenSets
  import opened Tries
  import opened Worklists

  datatype Frame = Frame(qNode: nat, output: nat, node: nat)

  /** A nonempty word of `n` that `q` matches. */
  ghost predicate Both(h: Arena, q: nat, n: nat, w: string) {
    w != [] && Accepts(h, n, w) && Matches(h, q, w)
  }

  /** The word `w` is owed to an output node with this path. */
  ghost predicate Owed(h: Arena, path: string, q: nat, n: nat, w: string) {
    path <= w && Both(h, q, n, w[|path|..])
  }

  /** It is owed, and its next character is to be read by the edges `d` of `q` and `p` of `n`. */
  ghost predicate OwedByEdges(h: Arena, path: string, q: nat, n: nat, d: char, p: char, w: string) {
    && q < |h| && n < |h| && d in h[q].edges && p in h[n].edges && (p == d || d == WILDCARD)
    && path + [p] <= w
    && Accepts(h, h[n].edges[p], w[|path| + 1..]) && Matches(h, h[q].edges[d], w[|path| + 1..])
  }

  ghost predicate OwedByFrame(h: Arena, paths: map<nat, string>, f: Frame, w: string) {
    f.output in paths && Owed(h, paths[f.output], f.qNode, f.node, w)
  }

  ghost predicate OwedBySome(h: Arena, paths: map<nat, string>, stack: seq<Frame>, w: string) {
    exists i :: 0 <= i < |stack| && OwedByFrame(h, paths, stack[i], w)
  }

  ghost predicate OwedByRest(h: Arena, path: string, r: Frame, rest: seq<(char, char)>, w: string) {
    exists e :: e in rest && OwedByEdges(h, path, r.qNode, r.node, e.0, e.1, w)
  }

  lemma OwedStep(h: Arena, path: string, q: nat, n: nat, w: string)
    requires q < |h| && n < |h|
    ensures Owed(h, path, q, n, w) <==> exists d, p :: OwedByEdges(h, path, q, n, d, p, w)
  {
    if Owed(h, path, q, n, w) {
      var v := w[|path|..];
      var p := v[0];
      assert v == [p] + v[1..] && w[|path| + 1..] == v[1..];
      AcceptsStep(h, n, p, v[1..]);
      var d := if p in h[q].edges && Matches(h, h[q].edges[p], v[1..]) then p else WILDCARD;
      assert OwedByEdges(h, path, q, n, d, p, w);
    }
    if d, p :| OwedByEdges(h, path, q, n, d, p, w) {
      var v := w[|path| + 1..];
      assert w[|path|..] == [p] + v;
      AcceptsStep(h, n, p, v);
      MatchesStep(h, q, p, v);
    }
  }

  /** What is owed by a pair of edges is the word ending there, if both ends are final,
      and what is owed below. */
  lemma EdgesStep(h: Arena, path: string, q: nat, n: nat, d: char, p: char, w: string)
    requires Closed(h) && q < |h| && n < |h| && d in h[q].edges && p in h[n].edges && (p == d || d == WILDCARD)
    ensures OwedByEdges(h, path, q, n, d, p, w) <==>
            (w == path + [p] && h[h[n].edges[p]].final && h[h[q].edges[d]].final)
            || Owed(h, path + [p], h[q].edges[d], h[n].edges[p], w)
  {
    if path + [p] <= w && w[|path| + 1..] == [] {
      assert w == path + [p];
    }
  }

  /** Nothing of the arena `h0` has changed, and the output is a tree of new nodes. */
  ghost predicate Growing(h0: Arena, h: Arena, root: nat, paths: map<nat, string>) {
    Grows(h0, h) && Trie(h, root, paths) && forall o :: o in paths ==> |h0| <= o
  }

  ghost predicate FramesOk(h0: Arena, paths: map<nat, string>, stack: seq<Frame>, potentials: seq<nat>) {
    |potentials| == |stack| &&
    forall i :: 0 <= i < |stack| ==>
      stack[i].output in paths && stack[i].qNode < |h0| && Within(h0, stack[i].node, potentials[i])
  }

  /** The words of the output and the words still owed are the words of the product. */
  ghost predicate Progress(h0: Arena, h: Arena, root: nat, paths: map<nat, string>, stack: seq<Frame>,
                           r: Frame, rest: seq<(char, char)>, q0: nat, n0: nat)
    requires r.output in paths
  {
    forall w :: Accepts(h, root, w) || OwedBySome(h0, paths, stack, w) || OwedByRest(h0, paths[r.output], r, rest, w)
                <==> Both(h0, q0, n0, w)
  }

  ghost predicate Covers(h0: Arena, h: Arena, root: nat, paths: map<nat, string>, stack: seq<Frame>, q0: nat, n0: nat) {
    forall w :: Accepts(h, root, w) || OwedBySome(h0, paths, stack, w) <==> Both(h0, q0, n0, w)
  }

  ghost predicate Extends(paths: map<nat, string>, paths': map<nat, string>) {
    forall o :: o in paths ==> o in paths' && paths'[o] == paths[o]
  }

  /** `intersect`.  The receiver `n0` must be acyclic, the query automaton `q0` need not be.
      The result is a tree of new nodes whose words are exactly the nonempty words that the
      receiver accepts and the query automaton matches. */
  method Intersect(heap: Heap, n0: nat, q0: nat) returns (root: nat)
    requires Closed(heap.nodes) && Acyclic(heap.nodes, n0) && q0 < |heap.nodes|
    modifies heap
    ensures Grows(old(heap.nodes), heap.nodes) && |old(heap.nodes)| <= root
    ensures exists paths :: Trie(heap.nodes, root, paths)
    ensures Closed(heap.nodes)
    ensures forall w :: Accepts(heap.nodes, root, w) <==>
                        w != [] && Accepts(old(heap.nodes), n0, w) && Matches(old(heap.nodes), q0, w)
  {
    hide FramesOk;
    hide Covers;
    hide Trie;
    ghost var h0 := heap.nodes;
    ghost var k: nat :| Within(h0, n0, k);
    ghost var b := MaxDegree(h0) * MaxDegree(h0) + 1;
    root := |heap.nodes|;
    heap.nodes := Alloc(heap.nodes);
    ghost var paths: map<nat, string> := map[root := ""];
    var stack := [Frame(q0, root, n0)];
    ghost var potentials := [k];
    StartCovers(h0, n0, q0);
    while stack != []
      invariant Growing(h0, heap.nodes, root, paths) && Closed(heap.nodes)
      invariant |potentials| == |stack| && FramesOk(h0, paths, stack, potentials)
      invariant Covers(h0, heap.nodes, root, paths, stack, q0, n0)
      decreases Weight(b, potentials)
    {
      var r := stack[|stack| - 1];
      ghost var pot := potentials[|potentials| - 1];
      ghost var stack1, potentials1 := stack[..|stack| - 1], potentials[..|potentials| - 1];
      assert stack == stack1 + [r] && potentials == potentials1 + [pot];
      stack, paths, potentials := Expand(heap, h0, root, paths, r, stack[..|stack| - 1], potentials1, pot, b, q0, n0);
    }
    EndCovers(h0, heap.nodes, root, paths, q0, n0);
  }

  lemma EndCovers(h0: Arena, h: Arena, root: nat, paths: map<nat, string>, q0: nat, n0: nat)
    requires Covers(h0, h, root, paths, [], q0, n0)
    ensures forall w :: Accepts(h, root, w) <==> Both(h0, q0, n0, w)
  {
    assert forall w :: !OwedBySome(h0, paths, [], w);
  }

  lemma StartCovers(h0: Arena, n0: nat, q0: nat)
    requires Closed(h0)
    ensures var paths: map<nat, string> := map[|h0| := ""];
            && Growing(h0, Alloc(h0), |h0|, paths) && Closed(Alloc(h0))
            && (forall k: nat :: Within(h0, n0, k) && q0 < |h0| ==> FramesOk(h0, paths, [Frame(q0, |h0|, n0)], [k]))
            && Covers(h0, Alloc(h0), |h0|, paths, [Frame(q0, |h0|, n0)], q0, n0)
  {
    var paths: map<nat, string> := map[|h0| := ""];
    var stack := [Frame(q0, |h0|, n0)];
    forall w
      ensures Accepts(Alloc(h0), |h0|, w) || OwedBySome(h0, paths, stack, w) <==> Both(h0, q0, n0, w)
    {
      assert w[|""|..] == w;
      assert OwedByFrame(h0, paths, stack[0], w) <==> Both(h0, q0, n0, w);
    }
  }

  /** One turn of the worklist loop: all pairs of edges of the popped frame. */
  method Expand(heap: Heap, ghost h0: Arena, ghost root: nat, ghost paths: map<nat, string>, r: Frame,
                stack: seq<Frame>, ghost potentials: seq<nat>, ghost pot: nat, ghost b: nat, ghost q0: nat,
                ghost n0: nat)
    returns (stack': seq<Frame>, ghost paths': map<nat, string>, ghost potentials': seq<nat>)
    requires Closed(h0) && Closed(heap.nodes) && Growing(h0, heap.nodes, root, paths)
    requires FramesOk(h0, paths, stack + [r], potentials + [pot])
    requires Covers(h0, heap.nodes, root, paths, stack + [r], q0, n0)
    requires b == MaxDegree(h0) * MaxDegree(h0) + 1
    modifies heap
    ensures Closed(heap.nodes) && Growing(h0, heap.nodes, root, paths')
    ensures |potentials'| == |stack'| && FramesOk(h0, paths', stack', potentials')
    ensures Covers(h0, heap.nodes, root, paths', stack', q0, n0)
    ensures Weight(b, potentials') < Weight(b, potentials + [pot])
  {
    hide *;
    PopFrame(h0, paths, stack, r, potentials, pot);
    StillThere(h0, heap.nodes, root, paths);
    var qLabels := Keys(heap.nodes[r.qNode].edges);
    var nLabels := Keys(heap.nodes[r.node].edges);
    StartProgress(h0, heap.nodes, root, paths, stack, r, qLabels, nLabels, q0, n0);
    stack', paths' := stack, paths;
    ghost var count: nat := 0;
    var u := 0;
    StartExpanding(h0, heap.nodes, root, paths, r, stack, Pairs(qLabels[0..], nLabels), q0, n0);
    while u < |qLabels|
      invariant 0 <= u <= |qLabels| && 0 <= count <= u * |nLabels|
      invariant Expanding(h0, heap.nodes, root, paths, paths', r, stack, stack', count, Pairs(qLabels[u..], nLabels),
                          q0, n0)
    {
      PairsFirst(qLabels, u, nLabels);
      ghost var more;
      stack', paths', more := ExpandRow(heap, h0, root, paths, paths', r, qLabels[u], nLabels, stack, stack', count,
                                        Pairs(qLabels[u + 1..], nLabels), q0, n0);
      RowCount(u, |nLabels|, count, more);
      count := count + more;
      u := u + 1;
    }
    NoPairs(qLabels, nLabels);
    EndExpanding(h0, heap.nodes, root, paths, paths', r, stack, stack', count, Pairs(qLabels[u..], nLabels), q0, n0);
    potentials' := PushedBounded(h0, paths, paths', r, stack, stack', count, potentials, pot, b, qLabels, nLabels);
  }

  lemma StillThere(h0: Arena, h: Arena, root: nat, paths: map<nat, string>)
    requires Growing(h0, h, root, paths)
    ensures |h0| <= |h| && forall n :: 0 <= n < |h0| ==> h[n] == h0[n]
  {
  }

  /** Of the pairs of edges of the popped frame, `rest` are still to be looked at. */
  ghost predicate Expanding(h0: Arena, h: Arena, root: nat, paths0: map<nat, string>, paths: map<nat, string>, r: Frame,
                            stack0: seq<Frame>, stack: seq<Frame>, count: nat, rest: seq<(char, char)>, q0: nat,
                            n0: nat) {
    && Closed(h) && Growing(h0, h, root, paths) && Extends(paths0, paths)
    && r.output in paths0 && (forall i :: 0 <= i < |stack0| ==> stack0[i].output in paths0)
    && Pushed(h0, paths, r, stack0, stack, count) && Progress(h0, h, root, paths, stack, r, rest, q0, n0)
  }

  lemma StartExpanding(h0: Arena, h: Arena, root: nat, paths: map<nat, string>, r: Frame, stack: seq<Frame>,
                       rest: seq<(char, char)>, q0: nat, n0: nat)
    requires Closed(h) && Growing(h0, h, root, paths) && r.output in paths
    requires Pushed(h0, paths, r, stack, stack, 0) && Progress(h0, h, root, paths, stack, r, rest, q0, n0)
    ensures Expanding(h0, h, root, paths, paths, r, stack, stack, 0, rest, q0, n0)
  {
    hide Progress;
    hide Growing;
    hide Closed;
  }

  lemma EndExpanding(h0: Arena, h: Arena, root: nat, paths0: map<nat, string>, paths: map<nat, string>, r: Frame,
                     stack0: seq<Frame>, stack: seq<Frame>, count: nat, rest: seq<(char, char)>, q0: nat, n0: nat)
    requires Expanding(h0, h, root, paths0, paths, r, stack0, stack, count, rest, q0, n0) && rest == []
    ensures Closed(h) && Growing(h0, h, root, paths) && Extends(paths0, paths)
            && Pushed(h0, paths, r, stack0, stack, count)
    ensures Covers(h0, h, root, paths, stack, q0, n0)
  {
    EndProgress(h0, h, root, paths, stack, r, q0, n0);
  }

  lemma NoPairs(ds: seq<char>, ps: seq<char>)
    ensures Pairs(ds[|ds|..], ps) == []
  {
  }

  lemma PairsFirst(ds: seq<char>, u: nat, ps: seq<char>)
    requires u < |ds|
    ensures Pairs(ds[u..], ps) == Row(ds[u], ps) + Pairs(ds[u + 1..], ps)
    ensures ds[u] in ds
  {
    assert ds[u..] == [ds[u]] + ds[u + 1..];
  }

  method ExpandRow(heap: Heap, ghost h0: Arena, ghost root: nat, ghost paths0: map<nat, string>,
                   ghost paths: map<nat, string>, r: Frame, d: char, nLabels: seq<char>, ghost stack0: seq<Frame>,
                   stack: seq<Frame>, ghost count: nat, ghost rest: seq<(char, char)>, ghost q0: nat, ghost n0: nat)
    returns (stack': seq<Frame>, ghost paths': map<nat, string>, ghost more: nat)
    requires Closed(h0) && r.qNode < |h0| && d in h0[r.qNode].edges
    requires r.node < |h0| && forall c :: c in nLabels <==> c in h0[r.node].edges
    requires Expanding(h0, heap.nodes, root, paths0, paths, r, stack0, stack, count, Row(d, nLabels) + rest, q0, n0)
    modifies heap
    ensures more <= |nLabels|
    ensures Expanding(h0, heap.nodes, root, paths0, paths', r, stack0, stack', count + more, rest, q0, n0)
  {
    hide Progress;
    hide Trie;
    stack', paths', more := stack, paths, 0;
    assert nLabels[0..] == nLabels;
    var m := 0;
    while m < |nLabels|
      invariant 0 <= m <= |nLabels| && more <= m
      invariant Expanding(h0, heap.nodes, root, paths0, paths', r, stack0, stack', count + more,
                          Row(d, nLabels[m..]) + rest, q0, n0)
    {
      var p := nLabels[m];
      ghost var rest1 := Row(d, nLabels[m + 1..]) + rest;
      assert Row(d, nLabels[m..]) + rest == [(d, p)] + rest1;
      assert p in nLabels;
      if p == d || d == WILDCARD {
        ghost var h1, paths1, stack1 := heap.nodes, paths', stack';
        stack', paths' := Follow(heap, h0, root, paths', r, d, p, stack');
        PushOne(h0, paths1, paths', r, d, p, stack0, stack1, stack', count + more);
        FollowProgress(h0, h1, heap.nodes, root, paths1, paths', stack1, stack', r, d, p, rest1, q0, n0);
        more := more + 1;
      } else {
        SkipProgress(h0, heap.nodes, root, paths', stack', r, d, p, rest1, q0, n0);
      }
      m := m + 1;
    }
    assert Row(d, nLabels[m..]) + rest == rest;
  }

  /** A pair of edges that agree has been followed: one new frame, and perhaps one new word. */
  ghost predicate Followed(h0: Arena, h: Arena, h': Arena, root: nat, paths: map<nat, string>, paths': map<nat, string>,
                           r: Frame, d: char, p: char, stack: seq<Frame>, stack': seq<Frame>)
    requires Closed(h0) && r.output in paths
    requires r.qNode < |h0| && r.node < |h0| && d in h0[r.qNode].edges && p in h0[r.node].edges
  {
    var b, g := h0[r.node].edges[p], h0[r.qNode].edges[d];
    && |stack'| == |stack| + 1 && stack'[..|stack|] == stack
    && stack'[|stack|].qNode == g && stack'[|stack|].node == b
    && stack'[|stack|].output in paths' && paths'[stack'[|stack|].output] == paths[r.output] + [p]
    && forall w :: Accepts(h', root, w) <==>
                   Accepts(h, root, w) || (h0[b].final && h0[g].final && w == paths[r.output] + [p])
  }

  /** The body of the inner loop for a pair of edges that agree. */
  method Follow(heap: Heap, ghost h0: Arena, ghost root: nat, ghost paths: map<nat, string>, r: Frame, d: char, p: char,
                stack: seq<Frame>)
    returns (stack': seq<Frame>, ghost paths': map<nat, string>)
    requires Closed(h0) && Closed(heap.nodes) && Growing(h0, heap.nodes, root, paths) && r.output in paths
    requires r.qNode < |h0| && r.node < |h0| && d in h0[r.qNode].edges && p in h0[r.node].edges
    modifies heap
    ensures Closed(heap.nodes) && Growing(h0, heap.nodes, root, paths') && Extends(paths, paths')
    ensures Followed(h0, old(heap.nodes), heap.nodes, root, paths, paths', r, d, p, stack, stack')
  {
    var h := heap.nodes;
    assert h[r.qNode] == h0[r.qNode] && h[r.node] == h0[r.node];
    var b := h[r.node].edges[p];
    var g := h[r.qNode].edges[d];
    var final := h[b].final && h[g].final;
    var f: nat;
    if p in h[r.output].edges {
      f := h[r.output].edges[p];
      heap.nodes := h[f := h[f].(final := h[f].final || final)];
    } else {
      f := |h|;
      heap.nodes := Link(h + [EMPTY_NODE.(final := final)], r.output, p, f);
    }
    stack' := stack + [Frame(g, f, b)];
    paths' := OutputGrows(h0, h, heap.nodes, root, paths, r.output, p, final, f);
    assert h[b] == h0[b] && h[g] == h0[g];
  }

  /** The two ways of adding to the output come to the same: make sure of the edge, then
      make its end final if it has to be. */
  lemma OutputGrows(h0: Arena, h: Arena, h': Arena, root: nat, paths: map<nat, string>, o: nat, p: char, final: bool,
                    f: nat)
    returns (paths': map<nat, string>)
    requires Closed(h) && Growing(h0, h, root, paths) && o in paths
    requires if p in h[o].edges then f == h[o].edges[p] && h' == h[f := h[f].(final := h[f].final || final)]
             else f == |h| && h' == Link(h + [EMPTY_NODE.(final := final)], o, p, f)
    ensures Closed(h') && Growing(h0, h', root, paths') && Extends(paths, paths')
    ensures f in paths' && paths'[f] == paths[o] + [p]
    ensures forall w :: Accepts(h', root, w) <==> Accepts(h, root, w) || (final && w == paths[o] + [p])
  {
    OutputIsMark(h, h', o, p, final, f);
    hide Trie;
    hide Accepts;
    var f';
    f', paths' := WithEdgeKeeps(h, root, paths, o, p);
    MarkKeeps(WithEdge(h, o, p), root, paths', f);
    assert f >= |h0| && o >= |h0|;
  }

  lemma OutputIsMark(h: Arena, h': Arena, o: nat, p: char, final: bool, f: nat)
    requires Closed(h) && o < |h|
    requires if p in h[o].edges then f == h[o].edges[p] && h' == h[f := h[f].(final := h[f].final || final)]
             else f == |h| && h' == Link(h + [EMPTY_NODE.(final := final)], o, p, f)
    ensures f < |WithEdge(h, o, p)| && h' == if final then Mark(WithEdge(h, o, p), f) else WithEdge(h, o, p)
    ensures Closed(h') && |h| <= |h'| && forall k :: 0 <= k < |h| && k != f && k != o ==> h'[k] == h[k]
  {
  }

  function Row(d: char, ps: seq<char>): (r: seq<(char, char)>)
    ensures |r| == |ps| && forall i :: 0 <= i < |ps| ==> r[i] == (d, ps[i])
  {
    seq(|ps|, i requires 0 <= i < |ps| => (d, ps[i]))
  }

  function Pairs(ds: seq<char>, ps: seq<char>): seq<(char, char)> {
    if ds == [] then [] else Row(ds[0], ps) + Pairs(ds[1..], ps)
  }

  lemma {:induction false} InPairs(ds: seq<char>, ps: seq<char>, d: char, p: char)
    requires d in ds && p in ps
    ensures (d, p) in Pairs(ds, ps)
    decreases |ds|
  {
    if d == ds[0] {
      var i :| 0 <= i < |ps| && ps[i] == p;
      assert Row(ds[0], ps)[i] == (d, p);
    } else {
      InPairs(ds[1..], ps, d, p);
    }
  }

  lemma RowCount(u: nat, n: nat, count: nat, more: nat)
    requires count <= u * n && more <= n
    ensures count + more <= (u + 1) * n
  {
  }

  lemma PopFrame(h0: Arena, paths: map<nat, string>, stack: seq<Frame>, r: Frame, potentials: seq<nat>, pot: nat)
    requires FramesOk(h0, paths, stack + [r], potentials + [pot])
    ensures FramesOk(h0, paths, stack, potentials)
    ensures r.output in paths && r.qNode < |h0| && r.node < |h0| && Within(h0, r.node, pot)
    ensures Pushed(h0, paths, r, stack, stack, 0)
  {
    assert (stack + [r])[|stack|] == r && (potentials + [pot])[|stack|] == pot;
    assert forall i :: 0 <= i < |stack| ==> (stack + [r])[i] == stack[i] && (potentials + [pot])[i] == potentials[i];
  }

  ghost predicate Pushed(h0: Arena, paths: map<nat, string>, r: Frame, stack: seq<Frame>, stack': seq<Frame>,
                         count: nat)
  {
    && |stack'| == |stack| + count && stack'[..|stack|] == stack
    && r.node < |h0|
    && forall i :: 0 <= i < |stack'| ==>
         stack'[i].output in paths && (i >= |stack| ==> stack'[i].qNode < |h0| && IsTarget(h0, r.node, stack'[i].node))
  }

  ghost predicate IsTarget(h: Arena, n: nat, t: nat)
    requires n < |h|
  {
    exists p :: p in h[n].edges && t == h[n].edges[p]
  }

  lemma PushOne(h0: Arena, paths: map<nat, string>, paths': map<nat, string>, r: Frame, d: char, p: char,
                stack0: seq<Frame>, stack: seq<Frame>, stack': seq<Frame>, count: nat)
    requires Closed(h0) && r.qNode < |h0| && Pushed(h0, paths, r, stack0, stack, count) && Extends(paths, paths')
    requires d in h0[r.qNode].edges && p in h0[r.node].edges
    requires |stack'| == |stack| + 1 && stack'[..|stack|] == stack
    requires stack'[|stack|].qNode == h0[r.qNode].edges[d] && stack'[|stack|].node == h0[r.node].edges[p]
    requires stack'[|stack|].output in paths'
    ensures Pushed(h0, paths', r, stack0, stack', count + 1)
  {
    assert stack'[..|stack0|] == stack[..|stack0|];
    assert forall i :: 0 <= i < |stack| ==> stack'[i] == stack[i];
  }

  lemma StartProgress(h0: Arena, h: Arena, root: nat, paths: map<nat, string>, stack: seq<Frame>, r: Frame,
                      ds: seq<char>, ps: seq<char>, q0: nat, n0: nat)
    requires r.output in paths && r.qNode < |h0| && r.node < |h0|
    requires (forall d :: d in h0[r.qNode].edges ==> d in ds) && (forall p :: p in h0[r.node].edges ==> p in ps)
    requires Covers(h0, h, root, paths, stack + [r], q0, n0)
    ensures Progress(h0, h, root, paths, stack, r, Pairs(ds[0..], ps), q0, n0)
  {
    assert ds[0..] == ds;
    forall w
      ensures OwedBySome(h0, paths, stack, w) || OwedByRest(h0, paths[r.output], r, Pairs(ds, ps), w)
              <==> OwedBySome(h0, paths, stack + [r], w)
    {
      SomePush(h0, paths, stack, r, w);
      OwedStep(h0, paths[r.output], r.qNode, r.node, w);
      if d, p :| OwedByEdges(h0, paths[r.output], r.qNode, r.node, d, p, w) {
        InPairs(ds, ps, d, p);
      }
    }
  }

  lemma EndProgress(h0: Arena, h: Arena, root: nat, paths: map<nat, string>, stack: seq<Frame>, r: Frame, q0: nat,
                    n0: nat)
    requires r.output in paths && Progress(h0, h, root, paths, stack, r, [], q0, n0)
    ensures Covers(h0, h, root, paths, stack, q0, n0)
  {
    assert forall w :: !OwedByRest(h0, paths[r.output], r, [], w);
  }

  lemma SomePush(h0: Arena, paths: map<nat, string>, stack: seq<Frame>, f: Frame, w: string)
    ensures OwedBySome(h0, paths, stack + [f], w) <==> OwedBySome(h0, paths, stack, w) || OwedByFrame(h0, paths, f, w)
  {
    var all := stack + [f];
    assert forall i :: 0 <= i < |stack| ==> all[i] == stack[i];
    assert all[|stack|] == f;
  }

  lemma RestPop(h0: Arena, path: string, r: Frame, e: (char, char), rest: seq<(char, char)>, w: string)
    ensures OwedByRest(h0, path, r, [e] + rest, w) <==>
            OwedByEdges(h0, path, r.qNode, r.node, e.0, e.1, w) || OwedByRest(h0, path, r, rest, w)
  {
    assert e in [e] + rest;
  }

  lemma SkipProgress(h0: Arena, h: Arena, root: nat, paths: map<nat, string>, stack: seq<Frame>, r: Frame, d: char,
                     p: char, rest: seq<(char, char)>, q0: nat, n0: nat)
    requires r.output in paths && p != d && d != WILDCARD
    requires Progress(h0, h, root, paths, stack, r, [(d, p)] + rest, q0, n0)
    ensures Progress(h0, h, root, paths, stack, r, rest, q0, n0)
  {
    forall w
      ensures OwedByRest(h0, paths[r.output], r, [(d, p)] + rest, w) <==> OwedByRest(h0, paths[r.output], r, rest, w)
    {
      RestPop(h0, paths[r.output], r, (d, p), rest, w);
    }
  }

  lemma FollowProgress(h0: Arena, h: Arena, h': Arena, root: nat, paths: map<nat, string>, paths': map<nat, string>,
                       stack: seq<Frame>, stack': seq<Frame>, r: Frame, d: char, p: char,
                       rest: seq<(char, char)>, q0: nat, n0: nat)
    requires Closed(h0) && r.output in paths && Extends(paths, paths')
    requires r.qNode < |h0| && r.node < |h0| && d in h0[r.qNode].edges && p in h0[r.node].edges
    requires p == d || d == WILDCARD
    requires forall i :: 0 <= i < |stack| ==> stack[i].output in paths
    requires Followed(h0, h, h', root, paths, paths', r, d, p, stack, stack')
    requires Progress(h0, h, root, paths, stack, r, [(d, p)] + rest, q0, n0)
    ensures Progress(h0, h', root, paths', stack', r, rest, q0, n0)
  {
    var f := stack'[|stack|];
    assert stack' == stack + [f];
    forall w
      ensures Accepts(h', root, w) || OwedBySome(h0, paths', stack', w) || OwedByRest(h0, paths'[r.output], r, rest, w)
              <==> Both(h0, q0, n0, w)
    {
      SomePush(h0, paths', stack, f, w);
      assert OwedBySome(h0, paths', stack, w) <==> OwedBySome(h0, paths, stack, w);
      RestPop(h0, paths[r.output], r, (d, p), rest, w);
      EdgesStep(h0, paths[r.output], r.qNode, r.node, d, p, w);
    }
  }

  lemma PushedBounded(h0: Arena, paths: map<nat, string>, paths': map<nat, string>, r: Frame, stack: seq<Frame>,
                      stack': seq<Frame>, count: nat, potentials: seq<nat>, pot: nat, b: nat,
                      qLabels: seq<char>, nLabels: seq<char>) returns (potentials': seq<nat>)
    requires FramesOk(h0, paths, stack, potentials) && Extends(paths, paths')
    requires Pushed(h0, paths', r, stack, stack', count) && r.qNode < |h0| && Within(h0, r.node, pot)
    requires |qLabels| == |h0[r.qNode].edges.Keys| && |nLabels| == |h0[r.node].edges.Keys|
    requires count <= |qLabels| * |nLabels| && b == MaxDegree(h0) * MaxDegree(h0) + 1
    ensures |potentials'| == |stack'| && FramesOk(h0, paths', stack', potentials')
    ensures Weight(b, potentials') < Weight(b, potentials + [pot])
  {
    DegreeBound(h0, r.qNode);
    DegreeBound(h0, r.node);
    ProductBound(|qLabels|, |nLabels|, MaxDegree(h0));
    WeightPush(b, potentials, pot);
    assert forall i :: 0 <= i < |stack| ==> stack'[i] == stack'[..|stack|][i] == stack[i];
    if count == 0 {
      potentials' := potentials;
      assert stack' == stack'[..|stack|];
    } else {
      assert IsTarget(h0, r.node, stack'[|stack|].node);
      potentials' := potentials + Repeat(count, pot - 1);
      WeightRepeat(b, potentials, count, pot - 1);
      PushedWeighLess(b, count, pot);
    }
  }

  lemma ProductBound(x: nat, y: nat, m: nat)
    requires x <= m && y <= m
    ensures x * y <= m * m
  {
    assert x * y <= m * y <= m * m;
  }
}
