/** `TokenSet.fromFuzzyString`: the automaton of the words near a term. */
module FuzzyTerms {
  import opened TokenSets
  import opened Tries
  import opened Worklists

  datatype Frame = Frame(node: nat, edits: nat, str: string)

  /** A label word that starts with `edge` and then ends, if `end`, or goes on as a word
      generated from `str`. */
  predicate Then(edge: char, end: bool, edits: nat, str: string, labels: string)
    decreases edits + |str|, 1
  {
    labels != [] && labels[0] == edge && ((end && |labels| == 1) || Generates(edits, str, labels[1..]))
  }

  /** The label words generated with so many edits left and `str` still to be read.  A word
      ends where the last of `str` has been dealt with. */
  predicate Generates(edits: nat, str: string, labels: string)
    decreases edits + |str|, 0
  {
    || (|str| > 0 && Then(str[0], |str| == 1, edits, str[1..], labels))
    || (edits > 0 && Then(WILDCARD, |str| == 0, edits - 1, str, labels))
    || (edits > 0 && |str| > 1 && Generates(edits - 1, str[1..], labels))
    || (edits > 0 && |str| == 1 && labels == [])
    || (edits > 0 && |str| > 0 && Then(WILDCARD, |str| == 1, edits - 1, str[1..], labels))
    || (edits > 0 && |str| > 1 && Then(str[1], false, edits - 1, [str[0]] + str[2..], labels))
  }

  // ----- The worklist

  ghost predicate Owed(paths: map<nat, string>, f: Frame, labels: string) {
    f.node in paths && paths[f.node] <= labels && Generates(f.edits, f.str, labels[|paths[f.node]|..])
  }

  ghost predicate OwedBySome(paths: map<nat, string>, stack: seq<Frame>, labels: string) {
    exists i :: 0 <= i < |stack| && Owed(paths, stack[i], labels)
  }

  /** The label words of the tree, those still owed by the stack, and the `rest` are the
      words to be generated. */
  ghost predicate Progress(h: Arena, root: nat, paths: map<nat, string>, stack: seq<Frame>, rest: iset<string>,
                           edits: nat, term: string) {
    forall labels :: Accepts(h, root, labels) || OwedBySome(paths, stack, labels) || labels in rest
                     <==> Generates(edits, term, labels)
  }

  ghost predicate Growing(h0: Arena, h: Arena, root: nat, paths: map<nat, string>) {
    Grows(h0, h) && Trie(h, root, paths) && forall o :: o in paths ==> |h0| <= o
  }

  ghost predicate FramesOk(paths: map<nat, string>, stack: seq<Frame>) {
    forall i :: 0 <= i < |stack| ==> stack[i].node in paths
  }

  ghost predicate Extends(paths: map<nat, string>, paths': map<nat, string>) {
    forall o :: o in paths ==> o in paths' && paths'[o] == paths[o]
  }

  function Size(stack: seq<Frame>): nat {
    if stack == [] then 0
    else Size(stack[..|stack| - 1]) + Pow(6, stack[|stack| - 1].edits + |stack[|stack| - 1].str|)
  }

  lemma SizePush(stack: seq<Frame>, f: Frame)
    ensures Size(stack + [f]) == Size(stack) + Pow(6, f.edits + |f.str|)
  {
    assert (stack + [f])[..|stack|] == stack;
  }

  lemma SomePush(paths: map<nat, string>, stack: seq<Frame>, f: Frame, labels: string)
    ensures OwedBySome(paths, stack + [f], labels) <==> OwedBySome(paths, stack, labels) || Owed(paths, f, labels)
  {
    var all := stack + [f];
    assert forall i :: 0 <= i < |stack| ==> all[i] == stack[i];
    assert all[|stack|] == f;
  }

  /** The words with this path that go on as `Then` says. */
  ghost function Branch(path: string, edge: char, end: bool, edits: nat, str: string): iset<string> {
    iset labels | path <= labels && Then(edge, end, edits, str, labels[|path|..])
  }

  ghost function OwedAs(path: string, edits: nat, str: string): iset<string> {
    iset labels | path <= labels && Generates(edits, str, labels[|path|..])
  }

  /** What an entry owes, one set for each way of going on. */
  ghost function Ways(path: string, f: Frame, i: nat): iset<string> {
    var k, s := f.edits, f.str;
    if i == 0 then if |s| > 0 then Branch(path, s[0], |s| == 1, k, s[1..]) else iset{}
    else if k == 0 then iset{}
    else if i == 1 then Branch(path, WILDCARD, |s| == 0, k - 1, s)
    else if i == 2 then if |s| > 1 then OwedAs(path, k - 1, s[1..]) else if |s| == 1 then iset{path} else iset{}
    else if i == 3 then if |s| > 0 then Branch(path, WILDCARD, |s| == 1, k - 1, s[1..]) else iset{}
    else if i == 4 then if |s| > 1 then Branch(path, s[1], false, k - 1, [s[0]] + s[2..]) else iset{}
    else iset{}
  }

  ghost function WaysFrom(path: string, f: Frame, i: nat): iset<string>
    requires i <= 5
    decreases 5 - i
  {
    if i == 5 then iset{} else Ways(path, f, i) + WaysFrom(path, f, i + 1)
  }

  lemma OwedIsWays(path: string, f: Frame)
    ensures WaysFrom(path, f, 0) == OwedAs(path, f.edits, f.str)
  {
    assert WaysFrom(path, f, 2) == Ways(path, f, 2) + (Ways(path, f, 3) + Ways(path, f, 4));
    assert WaysFrom(path, f, 0) == Ways(path, f, 0) + (Ways(path, f, 1) + WaysFrom(path, f, 2));
    forall labels
      ensures labels in WaysFrom(path, f, 0) <==> labels in OwedAs(path, f.edits, f.str)
    {
      if path <= labels && labels[|path|..] == [] {
        assert labels == path;
      }
    }
  }

  /** `fromFuzzyString`: the edge words of the new automaton are the generated ones. */
  method FromFuzzyString(heap: Heap, term: string, editDistance: nat) returns (root: nat)
    requires Closed(heap.nodes)
    modifies heap
    ensures Grows(old(heap.nodes), heap.nodes) && Closed(heap.nodes)
    ensures |old(heap.nodes)| <= root < |heap.nodes|
    ensures forall labels :: Accepts(heap.nodes, root, labels) <==> Generates(editDistance, term, labels)
  {
    hide Trie;
    hide Progress;
    ghost var h0 := heap.nodes;
    root := |heap.nodes|;
    heap.nodes := heap.nodes + [EMPTY_NODE];
    ghost var paths: map<nat, string> := map[root := ""];
    var stack := [Frame(root, editDistance, term)];
    StartProgress(h0, editDistance, term);
    while stack != []
      invariant Growing(h0, heap.nodes, root, paths) && Closed(heap.nodes) && FramesOk(paths, stack)
      invariant Progress(heap.nodes, root, paths, stack, iset{}, editDistance, term)
      invariant root == |h0| && root in paths
      decreases Size(stack)
    {
      var f := stack[|stack| - 1];
      assert stack == stack[..|stack| - 1] + [f];
      stack, paths := Expand(heap, h0, root, paths, f, stack[..|stack| - 1], editDistance, term);
    }
    EndProgress(heap.nodes, root, paths, editDistance, term);
    RootInArena(h0, heap.nodes, root, paths);
  }

  lemma RootInArena(h0: Arena, h: Arena, root: nat, paths: map<nat, string>)
    requires Growing(h0, h, root, paths)
    ensures root < |h|
  {
  }

  lemma StartProgress(h0: Arena, edits: nat, term: string)
    requires Closed(h0)
    ensures var paths: map<nat, string> := map[|h0| := ""];
            && Growing(h0, Alloc(h0), |h0|, paths) && Closed(Alloc(h0))
            && Progress(Alloc(h0), |h0|, paths, [Frame(|h0|, edits, term)], iset{}, edits, term)
  {
    var paths: map<nat, string> := map[|h0| := ""];
    var stack := [Frame(|h0|, edits, term)];
    forall labels
      ensures Accepts(Alloc(h0), |h0|, labels) || OwedBySome(paths, stack, labels) <==> Generates(edits, term, labels)
    {
      assert labels[|""|..] == labels;
      assert Owed(paths, stack[0], labels) <==> Generates(edits, term, labels);
    }
  }

  lemma EndProgress(h: Arena, root: nat, paths: map<nat, string>, edits: nat, term: string)
    requires Progress(h, root, paths, [], iset{}, edits, term)
    ensures forall labels :: Accepts(h, root, labels) <==> Generates(edits, term, labels)
  {
    assert forall labels :: !OwedBySome(paths, [], labels);
  }

  /** One turn of the worklist loop: every way the popped entry can go on. */
  method Expand(heap: Heap, ghost h0: Arena, ghost root: nat, ghost paths: map<nat, string>, f: Frame,
                stack: seq<Frame>, ghost edits: nat, ghost term: string)
    returns (stack': seq<Frame>, ghost paths': map<nat, string>)
    requires Closed(heap.nodes) && Growing(h0, heap.nodes, root, paths) && FramesOk(paths, stack + [f])
    requires Progress(heap.nodes, root, paths, stack + [f], iset{}, edits, term)
    modifies heap
    ensures Closed(heap.nodes) && Growing(h0, heap.nodes, root, paths') && FramesOk(paths', stack')
            && Extends(paths, paths')
    ensures Progress(heap.nodes, root, paths', stack', iset{}, edits, term)
    ensures Size(stack') < Size(stack + [f])
  {
    hide Growing;
    hide Progress;
    hide WaysFrom;
    hide Size;
    hide Branch;
    ghost var path := PopProgress(heap.nodes, root, paths, stack, f, edits, term);
    stack', paths' := stack, paths;
    var str, k := f.str, f.edits;
    if |str| > 0 {
      stack', paths' := Grow(heap, h0, root, paths', path, f, 0, str[0], |str| == 1, k, str[1..], stack', edits, term);
    } else {
      SkipWay(heap.nodes, root, paths', path, stack', f, 0, edits, term);
    }
    if k != 0 {
      stack', paths' := Grow(heap, h0, root, paths', path, f, 1, WILDCARD, |str| == 0, k - 1, str, stack', edits, term);
      if |str| > 1 {
        ghost var stack1 := stack';
        stack' := stack' + [Frame(f.node, k - 1, str[1..])];
        PushDeletion(heap.nodes, root, paths', path, stack1, f, edits, term);
      } else if |str| == 1 {
        ghost var h := heap.nodes;
        InArena(h0, h, root, paths', f.node);
        heap.nodes := Mark(heap.nodes, f.node);
        EndHere(h0, h, root, paths', path, stack', f, edits, term);
      } else {
        SkipWay(heap.nodes, root, paths', path, stack', f, 2, edits, term);
      }
      if |str| >= 1 {
        stack', paths' := Grow(heap, h0, root, paths', path, f, 3, WILDCARD, |str| == 1, k - 1, str[1..], stack', edits,
                               term);
      } else {
        SkipWay(heap.nodes, root, paths', path, stack', f, 3, edits, term);
      }
      if |str| > 1 {
        stack', paths' := Grow(heap, h0, root, paths', path, f, 4, str[1], false, k - 1, [str[0]] + str[2..], stack',
                               edits, term);
      } else {
        SkipWay(heap.nodes, root, paths', path, stack', f, 4, edits, term);
      }
    } else {
      SkipWay(heap.nodes, root, paths', path, stack', f, 1, edits, term);
      SkipWay(heap.nodes, root, paths', path, stack', f, 2, edits, term);
      SkipWay(heap.nodes, root, paths', path, stack', f, 3, edits, term);
      SkipWay(heap.nodes, root, paths', path, stack', f, 4, edits, term);
    }
    NoMoreWays(path, f);
    Shrinks(stack, stack', f);
  }

  /** Make sure of the edge, make its end final if the word may end there, and push the
      entry that goes on from it. */
  method Grow(heap: Heap, ghost h0: Arena, ghost root: nat, ghost paths: map<nat, string>, ghost path: string, f: Frame,
              ghost way: nat, edge: char, end: bool, k: nat, str: string, stack: seq<Frame>, ghost edits: nat,
              ghost term: string)
    returns (stack': seq<Frame>, ghost paths': map<nat, string>)
    requires Closed(heap.nodes) && Growing(h0, heap.nodes, root, paths) && FramesOk(paths, stack)
    requires f.node in paths && paths[f.node] == path
    requires way < 5 && Ways(path, f, way) == Branch(path, edge, end, k, str) && k + |str| < f.edits + |f.str|
    requires Progress(heap.nodes, root, paths, stack, WaysFrom(path, f, way), edits, term)
    modifies heap
    ensures Closed(heap.nodes) && Growing(h0, heap.nodes, root, paths') && FramesOk(paths', stack')
            && Extends(paths, paths')
    ensures Progress(heap.nodes, root, paths', stack', WaysFrom(path, f, way + 1), edits, term)
    ensures Size(stack') <= Size(stack) + Unit(f)
  {
    hide *;
    ghost var h := heap.nodes;
    InArena(h0, h, root, paths, f.node);
    heap.nodes := WithEdge(heap.nodes, f.node, edge);
    paths' := EdgeGrows(h0, h, root, paths, f.node, edge);
    var child := heap.nodes[f.node].edges[edge];
    ghost var h1 := heap.nodes;
    if end {
      heap.nodes := Mark(heap.nodes, child);
      MarkGrows(h0, h1, root, paths', child);
    }
    stack' := stack + [Frame(child, k, str)];
    GrowProgress(h, heap.nodes, root, paths, paths', path, f, way, edge, end, k, str, stack, child, edits, term);
  }

  lemma InArena(h0: Arena, h: Arena, root: nat, paths: map<nat, string>, n: nat)
    requires Growing(h0, h, root, paths) && n in paths
    ensures n < |h|
  {
  }

  lemma EdgeGrows(h0: Arena, h: Arena, root: nat, paths: map<nat, string>, n: nat, edge: char)
    returns (paths': map<nat, string>)
    requires Closed(h) && Growing(h0, h, root, paths) && n in paths && n < |h|
    ensures var h' := WithEdge(h, n, edge);
            && Closed(h') && Growing(h0, h', root, paths') && Extends(paths, paths')
            && n < |h'| && edge in h'[n].edges && h'[n].edges[edge] < |h'|
            && h'[n].edges[edge] in paths' && paths'[h'[n].edges[edge]] == paths[n] + [edge]
            && forall w :: Accepts(h', root, w) <==> Accepts(h, root, w)
  {
    var t;
    t, paths' := WithEdgeKeeps(h, root, paths, n, edge);
  }

  lemma MarkGrows(h0: Arena, h: Arena, root: nat, paths: map<nat, string>, n: nat)
    requires Closed(h) && Growing(h0, h, root, paths) && n in paths && n < |h|
    ensures Closed(Mark(h, n)) && Growing(h0, Mark(h, n), root, paths)
    ensures forall w :: Accepts(Mark(h, n), root, w) <==> Accepts(h, root, w) || w == paths[n]
  {
    MarkKeeps(h, root, paths, n);
  }

  /** An upper bound on the size of an entry that this one leads to. */
  function Unit(f: Frame): nat {
    if f.edits + |f.str| == 0 then 0 else Pow(6, f.edits + |f.str| - 1)
  }

  lemma Shrinks(stack: seq<Frame>, stack': seq<Frame>, f: Frame)
    requires Size(stack') <= Size(stack) + 5 * Unit(f)
    ensures Size(stack') < Size(stack + [f])
  {
    SizePush(stack, f);
  }

  lemma PopProgress(h: Arena, root: nat, paths: map<nat, string>, stack: seq<Frame>, f: Frame, edits: nat, term: string)
    returns (path: string)
    requires FramesOk(paths, stack + [f])
    requires Progress(h, root, paths, stack + [f], iset{}, edits, term)
    ensures f.node in paths && path == paths[f.node] && FramesOk(paths, stack)
    ensures Progress(h, root, paths, stack, WaysFrom(path, f, 0), edits, term)
  {
    assert (stack + [f])[|stack|] == f;
    assert forall i :: 0 <= i < |stack| ==> (stack + [f])[i] == stack[i];
    path := paths[f.node];
    OwedIsWays(path, f);
    forall labels
      ensures OwedBySome(paths, stack + [f], labels) <==>
              OwedBySome(paths, stack, labels) || labels in OwedAs(path, f.edits, f.str)
    {
      SomePush(paths, stack, f, labels);
    }
  }

  lemma NoMoreWays(path: string, f: Frame)
    ensures WaysFrom(path, f, 5) == iset{}
  {
  }

  lemma SkipWay(h: Arena, root: nat, paths: map<nat, string>, path: string, stack: seq<Frame>, f: Frame, way: nat,
                edits: nat, term: string)
    requires way < 5 && Ways(path, f, way) == iset{}
    requires Progress(h, root, paths, stack, WaysFrom(path, f, way), edits, term)
    ensures Progress(h, root, paths, stack, WaysFrom(path, f, way + 1), edits, term)
  {
    assert WaysFrom(path, f, way) == WaysFrom(path, f, way + 1);
  }

  lemma GrowProgress(h: Arena, h': Arena, root: nat, paths: map<nat, string>, paths': map<nat, string>, path: string,
                     f: Frame, way: nat, edge: char, end: bool, k: nat, str: string, stack: seq<Frame>, child: nat,
                     edits: nat, term: string)
    requires FramesOk(paths, stack) && Extends(paths, paths') && child in paths' && paths'[child] == path + [edge]
    requires way < 5 && Ways(path, f, way) == Branch(path, edge, end, k, str) && k + |str| < f.edits + |f.str|
    requires forall w :: Accepts(h', root, w) <==> Accepts(h, root, w) || (end && w == path + [edge])
    requires Progress(h, root, paths, stack, WaysFrom(path, f, way), edits, term)
    ensures FramesOk(paths', stack + [Frame(child, k, str)])
    ensures Progress(h', root, paths', stack + [Frame(child, k, str)], WaysFrom(path, f, way + 1), edits, term)
    ensures Size(stack + [Frame(child, k, str)]) <= Size(stack) + Unit(f)
  {
    var g := Frame(child, k, str);
    SizePush(stack, g);
    PowGrows(6, k + |str|, f.edits + |f.str| - 1);
    assert WaysFrom(path, f, way) == Branch(path, edge, end, k, str) + WaysFrom(path, f, way + 1);
    forall labels
      ensures Accepts(h', root, labels) || OwedBySome(paths', stack + [g], labels)
              || labels in WaysFrom(path, f, way + 1)
              <==> Generates(edits, term, labels)
    {
      SomePush(paths', stack, g, labels);
      assert OwedBySome(paths', stack, labels) <==> OwedBySome(paths, stack, labels);
      BranchStep(path, edge, end, k, str, labels);
    }
  }

  lemma BranchStep(path: string, edge: char, end: bool, k: nat, str: string, labels: string)
    ensures labels in Branch(path, edge, end, k, str) <==>
            (end && labels == path + [edge])
            || (path + [edge] <= labels && Generates(k, str, labels[|path| + 1..]))
  {
    if path <= labels && labels[|path|..] != [] && labels[|path|] == edge {
      assert path + [edge] <= labels;
      assert labels[|path|..][1..] == labels[|path| + 1..];
      if |labels[|path|..]| == 1 {
        assert labels == path + [edge];
      }
    }
  }

  lemma PushDeletion(h: Arena, root: nat, paths: map<nat, string>, path: string, stack: seq<Frame>, f: Frame,
                     edits: nat, term: string)
    requires FramesOk(paths, stack) && f.node in paths && paths[f.node] == path && f.edits > 0 && |f.str| > 1
    requires Progress(h, root, paths, stack, WaysFrom(path, f, 2), edits, term)
    ensures FramesOk(paths, stack + [Frame(f.node, f.edits - 1, f.str[1..])])
    ensures Progress(h, root, paths, stack + [Frame(f.node, f.edits - 1, f.str[1..])], WaysFrom(path, f, 3), edits,
                     term)
    ensures Size(stack + [Frame(f.node, f.edits - 1, f.str[1..])]) <= Size(stack) + Unit(f)
  {
    var g := Frame(f.node, f.edits - 1, f.str[1..]);
    SizePush(stack, g);
    PowGrows(6, g.edits + |g.str|, f.edits + |f.str| - 1);
    assert WaysFrom(path, f, 2) == OwedAs(path, f.edits - 1, f.str[1..]) + WaysFrom(path, f, 3);
    forall labels
      ensures OwedBySome(paths, stack + [g], labels) <==>
              OwedBySome(paths, stack, labels) || labels in OwedAs(path, f.edits - 1, f.str[1..])
    {
      SomePush(paths, stack, g, labels);
    }
  }

  lemma EndHere(h0: Arena, h: Arena, root: nat, paths: map<nat, string>, path: string, stack: seq<Frame>, f: Frame,
                edits: nat, term: string)
    requires Closed(h) && Growing(h0, h, root, paths)
    requires f.node in paths && paths[f.node] == path && f.edits > 0 && |f.str| == 1
    requires Progress(h, root, paths, stack, WaysFrom(path, f, 2), edits, term)
    ensures Closed(Mark(h, f.node)) && Growing(h0, Mark(h, f.node), root, paths)
    ensures Progress(Mark(h, f.node), root, paths, stack, WaysFrom(path, f, 3), edits, term)
  {
    MarkKeeps(h, root, paths, f.node);
    assert WaysFrom(path, f, 2) == iset{path} + WaysFrom(path, f, 3);
  }
}
