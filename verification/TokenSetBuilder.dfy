/** `TokenSet.Builder`: words inserted in order give a minimal acyclic automaton.

    The nodes on the path of the last word are unchecked: they may still get edges.  All
    other nodes have been registered under their signature, and a node whose signature is
    already registered is replaced by the registered one. */
module TokenSetBuilder {
  import opened Options
  import opened TokenSets
  import opened Tries
  import opened Signatures
  import opened Words

  datatype Unchecked = Unchecked(parent: nat, edge: char, child: nat)

  /** The builder's fields, with the arena that holds its nodes. */
  datatype State = State(nodes: Arena, root: nat, unchecked: seq<Unchecked>, minimized: map<string, nat>,
                         previous: string)

  // ----- The operations

  ghost predicate InBounds(b: State) {
    b.root < |b.nodes|
      && forall i :: 0 <= i < |b.unchecked| ==> b.unchecked[i].parent < |b.nodes| && b.unchecked[i].child < |b.nodes|
  }

  /** The deepest unchecked node; the root when there is none. */
  function Top(b: State): nat {
    if b.unchecked == [] then b.root else b.unchecked[|b.unchecked| - 1].child
  }

  /** Check the deepest unchecked node: replace it by a registered one or register it. */
  function MinimizeTop(b: State): (b': State)
    requires InBounds(b) && b.unchecked != []
    ensures InBounds(b') && |b'.unchecked| == |b.unchecked| - 1
  {
    var u := b.unchecked[|b.unchecked| - 1];
    var key := Text(b.nodes[u.child]);
    var rest := b.unchecked[..|b.unchecked| - 1];
    if key in b.minimized then
      b.(nodes := Link(b.nodes, u.parent, u.edge, b.minimized[key]), unchecked := rest)
    else
      b.(nodes := b.nodes[u.child := b.nodes[u.child].(str := key)], minimized := b.minimized[key := u.child],
         unchecked := rest)
  }

  function Minimize(b: State, downTo: nat): (b': State)
    requires InBounds(b)
    ensures InBounds(b')
    decreases |b.unchecked|
  {
    if |b.unchecked| <= downTo then b else Minimize(MinimizeTop(b), downTo)
  }

  /** A new node below the deepest unchecked one. */
  function Push(b: State, c: char): (b': State)
    requires InBounds(b)
    ensures InBounds(b') && |b'.unchecked| == |b.unchecked| + 1
  {
    var n := |b.nodes|;
    b.(nodes := Link(Alloc(b.nodes), Top(b), c, n), unchecked := b.unchecked + [Unchecked(Top(b), c, n)])
  }

  function Extend(b: State, word: string, i: nat): (b': State)
    requires InBounds(b) && i <= |word|
    ensures InBounds(b')
    decreases |word| - i
  {
    if i == |word| then b else Extend(Push(b, word[i]), word, i + 1)
  }

  /** `insert`; `None` is the error "Out of order word insertion". */
  function Insert(b: State, word: string): (r: Option<State>)
    requires InBounds(b)
    ensures r.Some? ==> InBounds(r.value)
  {
    if Less(word, b.previous) then None
    else
      var common := CommonPrefix(word, b.previous);
      var x := Extend(Minimize(b, common), word, common);
      Some(x.(nodes := Mark(x.nodes, Top(x)), previous := word))
  }

  function Finish(b: State): (b': State)
    requires InBounds(b)
    ensures InBounds(b')
  {
    Minimize(b, 0)
  }

  function Start(nodes: Arena): (b: State)
    ensures InBounds(b)
  {
    State(nodes + [EMPTY_NODE], |nodes|, [], map[], [])
  }

  // ----- The invariant

  function At(b: State, i: nat): nat
    requires i <= |b.unchecked|
  {
    if i == 0 then b.root else b.unchecked[i - 1].child
  }

  function Spelled(b: State): (s: string)
    ensures |s| == |b.unchecked| && forall i :: 0 <= i < |s| ==> s[i] == b.unchecked[i].edge
  {
    seq(|b.unchecked|, i requires 0 <= i < |b.unchecked| => b.unchecked[i].edge)
  }

  ghost function Registered(b: State): set<nat> {
    b.minimized.Values
  }

  /** Edges of these nodes lead to these nodes. */
  ghost predicate ClosedSet(h: Arena, reg: set<nat>) {
    forall n :: n in reg ==> n < |h| && forall c :: c in h[n].edges ==> h[n].edges[c] in reg
  }

  /** The unchecked nodes form a path from the root whose other edges lead to registered
      nodes, and whose own labels are the largest. */
  ghost predicate OnPath(b: State, i: nat)
    requires i <= |b.unchecked|
  {
    var n := At(b, i);
    && n < |b.nodes| && n !in Registered(b) && b.nodes[n].str == []
    && (forall c :: c in b.nodes[n].edges ==>
          if i < |b.unchecked| && c == b.unchecked[i].edge then b.nodes[n].edges[c] == b.unchecked[i].child
          else b.nodes[n].edges[c] in Registered(b) && (i < |b.unchecked| ==> c < b.unchecked[i].edge))
    && (i < |b.unchecked| ==> b.unchecked[i].parent == n && b.unchecked[i].edge in b.nodes[n].edges)
  }

  ghost predicate Shape(b: State) {
    && InBounds(b) && Closed(b.nodes)
    && (forall i :: 0 <= i <= |b.unchecked| ==> OnPath(b, i))
    && (forall i, j :: 0 <= i < j <= |b.unchecked| ==> At(b, i) != At(b, j))
    && ClosedSet(b.nodes, Registered(b))
    && (forall key :: key in b.minimized ==>
          b.minimized[key] < |b.nodes| && b.minimized[key] in Registered(b)
          && b.nodes[b.minimized[key]].str == key == Signature(b.nodes[b.minimized[key]]))
  }

  ghost predicate Differ(h: Arena, n: nat, m: nat) {
    exists w :: Accepts(h, n, w) != Accepts(h, m, w)
  }

  ghost predicate Live(h: Arena, n: nat) {
    exists w :: Accepts(h, n, w)
  }

  /** No two of these nodes accept the same words, and each accepts some. */
  ghost predicate Minimal(h: Arena, reg: set<nat>) {
    && (forall n, m :: n in reg && m in reg && n != m ==> Differ(h, n, m))
    && (forall n :: n in reg ==> Live(h, n))
  }

  /** What holds throughout, whatever is accepted: the path and the register are in shape. */
  ghost predicate Firm(b: State) {
    Shape(b) && Minimal(b.nodes, Registered(b))
  }

  ghost predicate Sturdy(b: State) {
    Firm(b) && (b.unchecked != [] ==> Live(b.nodes, Top(b)))
  }

  /** The automaton accepts exactly `words`. */
  ghost predicate Speaks(b: State, words: set<string>) {
    forall w :: Accepts(b.nodes, b.root, w) <==> w in words
  }

  ghost predicate Sound(b: State, words: set<string>) {
    Firm(b) && Speaks(b, words)
  }

  ghost predicate Valid(b: State, words: set<string>) {
    Sturdy(b) && Speaks(b, words)
  }

  ghost predicate SameLanguage(b: State, b': State) {
    forall w :: Accepts(b'.nodes, b'.root, w) <==> Accepts(b.nodes, b.root, w)
  }

  /** Ready for the next word: the whole last word is on the path. */
  ghost predicate Open(b: State)
    requires InBounds(b)
  {
    && Spelled(b) == b.previous && b.nodes[Top(b)].edges == map[] && (b.unchecked != [] ==> b.nodes[Top(b)].final)
  }

  /** If the next node to be checked is replaced, it is by one it is interchangeable with. */
  predicate Genuine(b: State)
    requires InBounds(b) && b.unchecked != []
  {
    var child := b.nodes[b.unchecked[|b.unchecked| - 1].child];
    var key := Text(child);
    key in b.minimized && b.minimized[key] < |b.nodes| ==> SameState(child, b.nodes[b.minimized[key]])
  }

  // ----- Languages of nodes

  /** A closed set of nodes that are not changed keep their words. */
  lemma {:induction false} SameWords(h: Arena, h': Arena, reg: set<nat>, n: nat, w: string)
    requires ClosedSet(h, reg) && n in reg
    requires forall m :: m in reg ==> m < |h'| && SameState(h[m], h'[m])
    ensures Run(h', n, w) == Run(h, n, w) && (Run(h, n, w).Some? ==> Run(h, n, w).value in reg)
    ensures Accepts(h', n, w) <==> Accepts(h, n, w)
    decreases |w|
  {
    if w != [] && w[0] in h[n].edges {
      SameWords(h, h', reg, h[n].edges[w[0]], w[1..]);
    }
  }

  /** An edge may be led to another node with the same words. */
  lemma {:induction false} LinkKeeps(h: Arena, p: nat, c: char, r: nat, n: nat, w: string)
    requires p < |h| && c in h[p].edges && forall v :: Accepts(h, h[p].edges[c], v) <==> Accepts(h, r, v)
    ensures Accepts(Link(h, p, c, r), n, w) <==> Accepts(h, n, w)
    decreases |w|
  {
    var h' := Link(h, p, c, r);
    if n < |h| && w != [] && w[0] in h[n].edges {
      var t := h[n].edges[w[0]];
      LinkKeeps(h, p, c, r, t, w[1..]);
      assert w == [w[0]] + w[1..];
      AcceptsStep(h, n, w[0], w[1..]);
      AcceptsStep(h', n, w[0], w[1..]);
      if n == p && w[0] == c {
        LinkKeeps(h, p, c, r, r, w[1..]);
      }
    }
  }

  /** A new edge to an empty node adds no word. */
  lemma {:induction false} PushKeeps(h: Arena, p: nat, c: char, n: nat, w: string)
    requires Closed(h) && p < |h| && n < |h| && c !in h[p].edges
    ensures Accepts(Link(Alloc(h), p, c, |h|), n, w) <==> Accepts(h, n, w)
    decreases |w|
  {
    var h' := Link(Alloc(h), p, c, |h|);
    if w != [] {
      assert w == [w[0]] + w[1..];
      AcceptsStep(h, n, w[0], w[1..]);
      AcceptsStep(h', n, w[0], w[1..]);
      if w[0] in h[n].edges {
        PushKeeps(h, p, c, h[n].edges[w[0]], w[1..]);
      }
    }
  }

  lemma SameStateSameWords(h: Arena, n: nat, m: nat, w: string)
    requires n < |h| && m < |h| && SameState(h[n], h[m])
    ensures Accepts(h, n, w) <==> Accepts(h, m, w)
  {
  }

  /** Nodes that are not interchangeable and have all their edges to a minimal set accept
      different words. */
  lemma StatesDiffer(h: Arena, reg: set<nat>, n: nat, m: nat)
    requires n < |h| && m < |h| && !SameState(h[n], h[m]) && Minimal(h, reg)
    requires forall c :: c in h[n].edges ==> h[n].edges[c] in reg
    requires forall c :: c in h[m].edges ==> h[m].edges[c] in reg
    ensures Differ(h, n, m)
  {
    assert Accepts(h, n, []) == h[n].final && Accepts(h, m, []) == h[m].final;
    hide Accepts;
    hide Minimal;
    if h[n].final != h[m].final {
    } else if c :| c in h[n].edges && c !in h[m].edges {
      LiveIn(h, reg, h[n].edges[c]);
      OnlyOneHas(h, n, m, c);
    } else if c :| c in h[m].edges && c !in h[n].edges {
      LiveIn(h, reg, h[m].edges[c]);
      OnlyOneHas(h, m, n, c);
    } else {
      assert h[n].edges.Keys == h[m].edges.Keys;
      var c :| c in h[n].edges && h[n].edges[c] != h[m].edges[c];
      DifferIn(h, reg, h[n].edges[c], h[m].edges[c]);
      var w :| Accepts(h, h[n].edges[c], w) != Accepts(h, h[m].edges[c], w);
      AcceptsStep(h, n, c, w);
      AcceptsStep(h, m, c, w);
      assert Accepts(h, n, [c] + w) != Accepts(h, m, [c] + w);
    }
  }

  lemma LiveIn(h: Arena, reg: set<nat>, n: nat)
    requires Minimal(h, reg) && n in reg
    ensures Live(h, n)
  {
  }

  lemma DifferIn(h: Arena, reg: set<nat>, n: nat, m: nat)
    requires Minimal(h, reg) && n in reg && m in reg && n != m
    ensures Differ(h, n, m)
  {
  }

  lemma OnlyOneHas(h: Arena, n: nat, m: nat, c: char)
    requires n < |h| && m < |h| && c in h[n].edges && c !in h[m].edges && Live(h, h[n].edges[c])
    ensures Differ(h, n, m) && Differ(h, m, n)
  {
    var w :| Accepts(h, h[n].edges[c], w);
    AcceptsStep(h, n, c, w);
    AcceptsStep(h, m, c, w);
    assert Accepts(h, n, [c] + w) != Accepts(h, m, [c] + w);
  }

  lemma {:induction false} SameStates(h: Arena, h': Arena, n: nat, w: string)
    requires |h| == |h'| && forall k :: 0 <= k < |h| ==> SameState(h[k], h'[k])
    ensures Run(h', n, w) == Run(h, n, w) && (Accepts(h', n, w) <==> Accepts(h, n, w))
    decreases |w|
  {
    if n < |h| && w != [] && w[0] in h[n].edges {
      SameStates(h, h', h[n].edges[w[0]], w[1..]);
    }
  }

  // ----- One step of `minimize`

  /** What a node registered before a step was, it still is. */
  ghost predicate Frozen(b: State, b': State) {
    && (forall n :: n in Registered(b) ==> n in Registered(b'))
    && (forall n :: n in Registered(b) && n < |b.nodes| ==> n < |b'.nodes| && b'.nodes[n] == b.nodes[n])
  }

  lemma MinimalKept(h: Arena, h': Arena, reg: set<nat>)
    requires ClosedSet(h, reg) && Minimal(h, reg)
    requires forall m :: m in reg ==> m < |h'| && SameState(h[m], h'[m])
    ensures Minimal(h', reg)
  {
    hide Accepts;
    hide ClosedSet;
    hide SameState;
    forall n, m | n in reg && m in reg && n != m
      ensures Differ(h', n, m)
    {
      var w :| Accepts(h, n, w) != Accepts(h, m, w);
      SameWords(h, h', reg, n, w);
      SameWords(h, h', reg, m, w);
    }
    forall n | n in reg
      ensures Live(h', n)
    {
      var w :| Accepts(h, n, w);
      SameWords(h, h', reg, n, w);
    }
  }

  lemma LiveAbove(h: Arena, n: nat, c: char)
    requires n < |h| && c in h[n].edges && Live(h, h[n].edges[c])
    ensures Live(h, n)
  {
    var w :| Accepts(h, h[n].edges[c], w);
    AcceptsStep(h, n, c, w);
    assert Accepts(h, n, [c] + w);
  }

  lemma AtRest(b: State, b': State)
    requires b.unchecked != [] && b'.unchecked == b.unchecked[..|b.unchecked| - 1] && b'.root == b.root
    ensures forall i :: 0 <= i <= |b'.unchecked| ==> At(b', i) == At(b, i)
    ensures forall i :: 0 <= i < |b'.unchecked| ==> b'.unchecked[i] == b.unchecked[i]
    ensures Top(b') == At(b, |b'.unchecked|)
  {
  }

  lemma MergeShape(b: State)
    requires Shape(b) && b.unchecked != [] && Text(b.nodes[Top(b)]) in b.minimized
    ensures Shape(MinimizeTop(b)) && Frozen(b, MinimizeTop(b))
  {
    hide Signature;
    hide Spelled;
    var b' := MinimizeTop(b);
    var i := |b.unchecked| - 1;
    AtRest(b, b');
    assert OnPath(b, i);
    var p, c, r := b.unchecked[i].parent, b.unchecked[i].edge, b.minimized[Text(b.nodes[Top(b)])];
    assert r in Registered(b);
    assert b'.nodes == Link(b.nodes, p, c, r) && p == At(b, i);
    forall j | 0 <= j <= i
      ensures OnPath(b', j)
    {
      assert OnPath(b, j);
    }
  }

  lemma RegisteredAdds(m: map<string, nat>, key: string, n: nat)
    requires key !in m
    ensures m[key := n].Values == m.Values + {n}
  {
    var m' := m[key := n];
    forall x | x in m.Values + {n}
      ensures x in m'.Values
    {
      if x != n {
        var k :| k in m && m[k] == x;
        assert m'[k] == x;
      } else {
        assert m'[key] == n;
      }
    }
  }

  lemma CachingKeeps(n: Node, str: string)
    ensures Signature(n.(str := str)) == Signature(n)
  {
  }

  lemma RegisterShape(b: State)
    requires Shape(b) && b.unchecked != [] && Text(b.nodes[Top(b)]) !in b.minimized
    ensures Shape(MinimizeTop(b)) && Frozen(b, MinimizeTop(b))
    ensures Registered(MinimizeTop(b)) == Registered(b) + {Top(b)}
  {
    hide Signature;
    var b' := MinimizeTop(b);
    var i := |b.unchecked| - 1;
    var key := Text(b.nodes[Top(b)]);
    AtRest(b, b');
    assert OnPath(b, i) && OnPath(b, i + 1);
    RegisteredAdds(b.minimized, key, Top(b));
    CachingKeeps(b.nodes[Top(b)], key);
    forall j | 0 <= j <= i
      ensures OnPath(b', j)
    {
      assert OnPath(b, j);
      assert At(b, j) != At(b, i + 1);
    }
  }

  /** What a step of `minimize` has to do with: the edge `c` from `p` to the node `n`, and
      the node `r` registered under its signature. */
  ghost predicate Step(b: State, p: nat, c: char, n: nat, r: nat) {
    var h, reg := b.nodes, Registered(b);
    && b.root < |h| && p < |h| && n < |h| && c in h[p].edges && h[p].edges[c] == n == Top(b) && n !in reg
    && ClosedSet(h, reg) && (forall d :: d in h[n].edges ==> h[n].edges[d] in reg)
    && Text(h[n]) == Signature(h[n])
    && (Text(h[n]) in b.minimized ==> r == b.minimized[Text(h[n])] && r in reg && r < |h|)
  }

  lemma TopStep(b: State) returns (p: nat, c: char, n: nat, r: nat)
    requires Shape(b) && b.unchecked != []
    ensures Step(b, p, c, n, r)
    ensures p == At(b, |b.unchecked| - 1) && c == b.unchecked[|b.unchecked| - 1].edge
    ensures Text(b.nodes[n]) in b.minimized ==> MinimizeTop(b).nodes == Link(b.nodes, p, c, r)
    ensures Text(b.nodes[n]) in b.minimized ==> Registered(MinimizeTop(b)) == Registered(b)
    ensures Top(MinimizeTop(b)) == p
    ensures Genuine(b) <==> (Text(b.nodes[n]) in b.minimized ==> SameState(b.nodes[n], b.nodes[r]))
    ensures forall m :: m in Registered(b) ==> m < |b.nodes| && Signature(b.nodes[m]) in b.minimized
  {
    hide Signature;
    hide Spelled;
    var i := |b.unchecked| - 1;
    assert OnPath(b, i) && OnPath(b, i + 1);
    AtRest(b, MinimizeTop(b));
    p, c, n := b.unchecked[i].parent, b.unchecked[i].edge, Top(b);
    r := if Text(b.nodes[n]) in b.minimized then b.minimized[Text(b.nodes[n])] else 0;
    assert Text(b.nodes[n]) in b.minimized ==> r in Registered(b);
    forall m | m in Registered(b)
      ensures m < |b.nodes| && Signature(b.nodes[m]) in b.minimized
    {
      var key :| key in b.minimized && b.minimized[key] == m;
    }
  }

  /** Replacing a node keeps the shape and the register, whether or not it is genuine. */
  lemma MergeSturdy(b: State)
    requires Firm(b) && b.unchecked != [] && Text(b.nodes[Top(b)]) in b.minimized
    ensures Sturdy(MinimizeTop(b)) && Frozen(b, MinimizeTop(b))
  {
    hide Signature;
    hide Spelled;
    hide OnPath;
    hide Accepts;
    var b' := MinimizeTop(b);
    var p, c, n, r := TopStep(b);
    MergeShape(b);
    assert p !in Registered(b) by { assert OnPath(b, |b.unchecked| - 1); }
    hide Shape;
    hide Minimal;
    hide Text;
    MinimalKept(b.nodes, b'.nodes, Registered(b));
    MergedLive(b, p, c, n, r);
  }

  lemma MergeKeeps(b: State, words: set<string>)
    requires Valid(b, words) && b.unchecked != [] && Text(b.nodes[Top(b)]) in b.minimized && Genuine(b)
    ensures Speaks(MinimizeTop(b), words)
  {
    hide Signature;
    hide Spelled;
    hide OnPath;
    hide Accepts;
    var p, c, n, r := TopStep(b);
    hide Shape;
    hide Minimal;
    hide Text;
    MergedWords(b, words, p, c, n, r);
  }

  lemma MergedWords(b: State, words: set<string>, p: nat, c: char, n: nat, r: nat)
    requires Step(b, p, c, n, r) && Text(b.nodes[n]) in b.minimized && SameState(b.nodes[n], b.nodes[r])
    requires forall w :: Accepts(b.nodes, b.root, w) <==> w in words
    ensures forall w :: Accepts(Link(b.nodes, p, c, r), b.root, w) <==> w in words
  {
    hide Text;
    hide Signature;
    var h := b.nodes;
    forall v
      ensures Accepts(h, n, v) <==> Accepts(h, r, v)
    {
      SameStateSameWords(h, n, r, v);
    }
    hide Accepts;
    forall w
      ensures Accepts(Link(b.nodes, p, c, r), b.root, w) <==> w in words
    {
      LinkKeeps(h, p, c, r, b.root, w);
    }
  }

  lemma MergedLive(b: State, p: nat, c: char, n: nat, r: nat)
    requires Step(b, p, c, n, r) && Text(b.nodes[n]) in b.minimized && p !in Registered(b)
    requires Minimal(Link(b.nodes, p, c, r), Registered(b))
    ensures Live(Link(b.nodes, p, c, r), p)
  {
    LiveAbove(Link(b.nodes, p, c, r), p, c);
  }

  lemma RegisterSturdy(b: State)
    requires Sturdy(b) && b.unchecked != [] && Text(b.nodes[Top(b)]) !in b.minimized
    ensures Sturdy(MinimizeTop(b)) && Frozen(b, MinimizeTop(b)) && SameLanguage(b, MinimizeTop(b))
  {
    var b' := MinimizeTop(b);
    var p, c, n, r := TopStep(b);
    RegisterShape(b);
    assert forall k :: 0 <= k < |b.nodes| ==> SameState(b.nodes[k], b'.nodes[k]);
    hide Shape;
    hide Text;
    hide Signature;
    forall m, w
      ensures Accepts(b'.nodes, m, w) <==> Accepts(b.nodes, m, w)
    {
      SameStates(b.nodes, b'.nodes, m, w);
    }
    hide Accepts;
    NewIsDifferent(b, p, c, n, r);
    MinimalAdds(b.nodes, b'.nodes, Registered(b), n);
    if b'.unchecked != [] {
      LiveAbove(b.nodes, p, c);
      var w :| Accepts(b.nodes, p, w);
      assert Accepts(b'.nodes, p, w);
    }
  }

  lemma MinimalAdds(h: Arena, h': Arena, reg: set<nat>, n: nat)
    requires Minimal(h, reg) && Live(h, n) && forall m :: m in reg ==> Differ(h, n, m)
    requires forall n, w :: Accepts(h', n, w) <==> Accepts(h, n, w)
    ensures Minimal(h', reg + {n})
  {
    hide Accepts;
    forall x, y | x in reg + {n} && y in reg + {n} && x != y
      ensures Differ(h', x, y)
    {
      assert Differ(h, x, y) || Differ(h, y, x);
      var w :| Accepts(h, x, w) != Accepts(h, y, w);
      assert Accepts(h', x, w) != Accepts(h', y, w);
    }
    forall x | x in reg + {n}
      ensures Live(h', x)
    {
      var w :| Accepts(h, x, w);
      assert Accepts(h', x, w);
    }
  }

  /** A node whose signature is not registered differs from all registered ones. */
  lemma NewIsDifferent(b: State, p: nat, c: char, n: nat, r: nat)
    requires Step(b, p, c, n, r) && Minimal(b.nodes, Registered(b)) && Text(b.nodes[n]) !in b.minimized
    requires forall m :: m in Registered(b) ==> m < |b.nodes| && Signature(b.nodes[m]) in b.minimized
    ensures forall m :: m in Registered(b) ==> Differ(b.nodes, n, m)
  {
    hide Minimal;
    hide Differ;
    forall m | m in Registered(b)
      ensures Differ(b.nodes, n, m)
    {
      assert Signature(b.nodes[m]) != Signature(b.nodes[n]);
      StatesDiffer(b.nodes, Registered(b), n, m);
    }
  }

  lemma MinimizeTopSturdy(b: State)
    requires Sturdy(b) && b.unchecked != []
    ensures Sturdy(MinimizeTop(b)) && Frozen(b, MinimizeTop(b))
  {
    if Text(b.nodes[Top(b)]) in b.minimized {
      MergeSturdy(b);
    } else {
      RegisterSturdy(b);
    }
  }

  lemma MinimizeTopKeeps(b: State, words: set<string>)
    requires Valid(b, words) && b.unchecked != [] && Genuine(b)
    ensures Valid(MinimizeTop(b), words) && Frozen(b, MinimizeTop(b))
  {
    if Text(b.nodes[Top(b)]) in b.minimized {
      MergeSturdy(b);
      MergeKeeps(b, words);
    } else {
      RegisterSturdy(b);
    }
  }

  /** The path spells the word that leads to each of its nodes. */
  lemma {:induction false} PathRuns(b: State, i: nat, w: string)
    requires Shape(b) && i <= |b.unchecked|
    ensures Run(b.nodes, b.root, Spelled(b)[..i] + w) == Run(b.nodes, At(b, i), w)
    decreases i
  {
    if i == 0 {
      assert Spelled(b)[..0] + w == w;
    } else {
      var c := b.unchecked[i - 1].edge;
      assert Spelled(b)[..i] + w == Spelled(b)[..i - 1] + ([c] + w);
      PathRuns(b, i - 1, [c] + w);
      assert OnPath(b, i - 1);
      assert ([c] + w)[1..] == w;
    }
  }

  /** A step of `minimize` leaves the accepted words as they are if and only if the node it
      replaces, if it replaces one, is interchangeable with the registered one. */
  lemma WordsKeptIffGenuine(b: State, words: set<string>)
    requires Valid(b, words) && b.unchecked != []
    ensures (forall w :: Accepts(MinimizeTop(b).nodes, b.root, w) <==> Accepts(b.nodes, b.root, w)) <==> Genuine(b)
  {
    if Genuine(b) {
      MinimizeTopKeeps(b, words);
    } else {
      WordsChange(b);
    }
  }

  lemma WordsChange(b: State)
    requires Shape(b) && Minimal(b.nodes, Registered(b)) && b.unchecked != [] && !Genuine(b)
    ensures exists w :: Accepts(MinimizeTop(b).nodes, b.root, w) != Accepts(b.nodes, b.root, w)
  {
    hide Signature;
    hide Accepts;
    hide Shape;
    hide Minimal;
    hide Differ;
    hide Spelled;
    hide Registered;
    var p, c, n, r := TopStep(b);
    assert Differ(b.nodes, n, r) by {
      StepDiffers(b, p, c, n, r);
    }
    var w := DifferingWord(b.nodes, n, r);
    WrongWord(b, p, c, n, r, w);
  }

  lemma StepDiffers(b: State, p: nat, c: char, n: nat, r: nat)
    requires Step(b, p, c, n, r) && Minimal(b.nodes, Registered(b)) && Text(b.nodes[n]) in b.minimized
    requires !SameState(b.nodes[n], b.nodes[r])
    ensures Differ(b.nodes, n, r)
  {
    hide Signature;
    hide Minimal;
    hide SameState;
    hide Differ;
    StatesDiffer(b.nodes, Registered(b), n, r);
  }

  lemma DifferingWord(h: Arena, n: nat, m: nat) returns (w: string)
    requires Differ(h, n, m)
    ensures Accepts(h, n, w) != Accepts(h, m, w)
  {
    w :| Accepts(h, n, w) != Accepts(h, m, w);
  }

  lemma WrongWord(b: State, p: nat, c: char, n: nat, r: nat, w: string)
    requires Shape(b) && b.unchecked != [] && Step(b, p, c, n, r) && Text(b.nodes[n]) in b.minimized
    requires p == At(b, |b.unchecked| - 1) && c == b.unchecked[|b.unchecked| - 1].edge
    requires Accepts(b.nodes, n, w) != Accepts(b.nodes, r, w)
    ensures Accepts(MinimizeTop(b).nodes, b.root, Spelled(b) + w) != Accepts(b.nodes, b.root, Spelled(b) + w)
  {
    hide Signature;
    hide Run;
    var b' := MinimizeTop(b);
    var i := |b.unchecked| - 1;
    MergeShape(b);
    AtRest(b, b');
    assert b'.nodes == Link(b.nodes, p, c, r) && p !in Registered(b) by { assert OnPath(b, i); }
    hide Shape;
    hide Text;
    assert Spelled(b)[..i + 1] == Spelled(b) && Spelled(b')[..i] == Spelled(b)[..i];
    assert Spelled(b) + w == Spelled(b)[..i] + ([c] + w);
    PathRuns(b, i + 1, w);
    PathRuns(b', i, [c] + w);
    AcceptsStep(b'.nodes, p, c, w);
    SameWords(b.nodes, b'.nodes, Registered(b), r, w);
  }

  // ----- `minimize`

  /** Every node that `minimize` replaces is replaced by an interchangeable one. */
  predicate GenuineTo(b: State, downTo: nat)
    requires InBounds(b)
    decreases |b.unchecked|
  {
    |b.unchecked| <= downTo || (Genuine(b) && GenuineTo(MinimizeTop(b), downTo))
  }

  ghost predicate SameLabels(b: State, b': State) {
    |b.nodes| <= |b'.nodes| && forall k :: 0 <= k < |b.nodes| ==> b'.nodes[k].edges.Keys == b.nodes[k].edges.Keys
  }

  lemma MinimizeTopLabels(b: State)
    requires Shape(b) && b.unchecked != []
    ensures SameLabels(b, MinimizeTop(b))
  {
    hide Signature;
    assert OnPath(b, |b.unchecked| - 1);
  }

  /** What `minimize` leaves, whether or not it is genuine. */
  ghost predicate Minimized(b: State, b': State, downTo: nat) {
    && InBounds(b) && InBounds(b')
    && Frozen(b, b') && SameLabels(b, b') && b'.root == b.root && b'.previous == b.previous
    && (if downTo <= |b.unchecked| then |b'.unchecked| == downTo && Top(b') == At(b, downTo) else b' == b)
    && Spelled(b') <= Spelled(b)
  }

  lemma {:induction false} MinimizeSturdy(b: State, downTo: nat)
    requires Sturdy(b)
    ensures Sturdy(Minimize(b, downTo)) && Minimized(b, Minimize(b, downTo), downTo)
    decreases |b.unchecked|
  {
    assert InBounds(b);
    hide Sturdy;
    hide Minimized;
    if |b.unchecked| > downTo {
      assert MinimizeTop(b).unchecked == b.unchecked[..|b.unchecked| - 1];
      OneMinimized(b);
      MinimizeTopSturdy(b);
      hide MinimizeTop;
      MinimizeSturdy(MinimizeTop(b), downTo);
      MinimizedFurther(b, MinimizeTop(b), Minimize(b, downTo), downTo);
    } else {
      NoneMinimized(b, downTo);
    }
  }

  lemma NoneMinimized(b: State, downTo: nat)
    requires InBounds(b) && |b.unchecked| <= downTo
    ensures Minimized(b, b, downTo)
  {
  }

  lemma OneMinimized(b: State)
    requires Sturdy(b) && b.unchecked != []
    ensures Minimized(b, MinimizeTop(b), |b.unchecked| - 1)
  {
    var b' := MinimizeTop(b);
    MinimizeTopSturdy(b);
    MinimizeTopLabels(b);
    AtRest(b, b');
    hide Sturdy;
    assert Spelled(b') == Spelled(b)[..|b.unchecked| - 1];
  }

  lemma MinimizedFurther(b: State, b1: State, b2: State, downTo: nat)
    requires b.unchecked != [] && |b.unchecked| > downTo
    requires Minimized(b, b1, |b.unchecked| - 1) && Minimized(b1, b2, downTo)
             && b1.unchecked == b.unchecked[..|b.unchecked| - 1]
    ensures Minimized(b, b2, downTo)
  {
    AtRest(b, b1);
  }

  lemma {:induction false} MinimizeKeeps(b: State, words: set<string>, downTo: nat)
    requires Valid(b, words) && GenuineTo(b, downTo)
    ensures Valid(Minimize(b, downTo), words) && Minimized(b, Minimize(b, downTo), downTo)
    decreases |b.unchecked|
  {
    MinimizeSturdy(b, downTo);
    if |b.unchecked| > downTo {
      MinimizeTopKeeps(b, words);
      hide Sturdy;
      hide Speaks;
      hide Minimized;
      hide Genuine;
      hide MinimizeTop;
      MinimizeKeeps(MinimizeTop(b), words, downTo);
    }
  }

  // ----- `insert`

  ghost predicate LabelsBelow(b: State, c: char)
    requires InBounds(b)
  {
    forall d :: d in b.nodes[Top(b)].edges ==> d < c
  }

  lemma PushAt(b: State, c: char)
    requires InBounds(b)
    ensures var b' := Push(b, c);
            && (forall i :: 0 <= i <= |b.unchecked| ==> At(b', i) == At(b, i))
            && (forall i :: 0 <= i < |b.unchecked| ==> b'.unchecked[i] == b.unchecked[i])
            && At(b', |b'.unchecked|) == Top(b') == |b.nodes| && Top(b) == At(b, |b.unchecked|)
            && b'.unchecked[|b.unchecked|] == Unchecked(Top(b), c, |b.nodes|)
  {
  }

  lemma PushShape(b: State, c: char)
    requires Shape(b) && LabelsBelow(b, c)
    ensures Shape(Push(b, c)) && Frozen(b, Push(b, c))
  {
    hide Signature;
    var b' := Push(b, c);
    PushAt(b, c);
    assert OnPath(b, |b.unchecked|);
    forall i | 0 <= i <= |b'.unchecked|
      ensures OnPath(b', i)
    {
      if i <= |b.unchecked| {
        assert OnPath(b, i);
        assert i < |b.unchecked| ==> At(b, i) != At(b, |b.unchecked|);
      }
    }
  }

  lemma PushFirm(b: State, c: char)
    requires Firm(b) && LabelsBelow(b, c)
    ensures Firm(Push(b, c)) && Frozen(b, Push(b, c))
    ensures Push(b, c).nodes[Top(Push(b, c))].edges == map[]
  {
    var b' := Push(b, c);
    PushShape(b, c);
    PushAt(b, c);
    assert ClosedSet(b.nodes, Registered(b)) && forall n :: n in Registered(b) ==> b'.nodes[n] == b.nodes[n];
    hide Shape;
    hide Signature;
    hide Accepts;
    MinimalKept(b.nodes, b'.nodes, Registered(b));
  }

  lemma PushSpeaks(b: State, c: char)
    requires Firm(b) && LabelsBelow(b, c)
    ensures SameLanguage(b, Push(b, c))
  {
    assert Closed(b.nodes) && c !in b.nodes[Top(b)].edges;
    hide Shape;
    hide Accepts;
    forall w
      ensures Accepts(Push(b, c).nodes, b.root, w) <==> Accepts(b.nodes, b.root, w)
    {
      PushKeeps(b.nodes, Top(b), c, b.root, w);
    }
  }

  lemma {:induction false} ExtendFirm(b: State, word: string, i: nat)
    requires Firm(b) && i <= |word| && Spelled(b) == word[..i]
    requires i < |word| ==> LabelsBelow(b, word[i])
    requires i == |word| ==> b.nodes[Top(b)].edges == map[]
    ensures var b' := Extend(b, word, i);
            && Firm(b') && Frozen(b, b') && SameLanguage(b, b') && Spelled(b') == word
            && b'.nodes[Top(b')].edges == map[] && b'.root == b.root
    decreases |word| - i
  {
    if i < |word| {
      assert InBounds(b);
      hide Firm;
      hide Accepts;
      var b1 := Push(b, word[i]);
      PushFirm(b, word[i]);
      PushSpeaks(b, word[i]);
      PushAt(b, word[i]);
      assert Spelled(b1) == word[..i + 1];
      assert b1.root == b.root;
      hide Push;
      ExtendFirm(b1, word, i + 1);
    } else {
      assert word[..i] == word;
    }
  }

  /** Only the word that the path spells leads to the deepest unchecked node. */
  lemma {:induction false} OneWayDown(b: State, i: nat, w: string)
    requires Shape(b) && i <= |b.unchecked|
    ensures Run(b.nodes, At(b, i), w) == Some(Top(b)) <==> w == Spelled(b)[i..]
    decreases |w|
  {
    hide Signature;
    assert OnPath(b, i);
    if w == [] {
      assert i < |b.unchecked| ==> At(b, i) != At(b, |b.unchecked|);
    } else if w[0] in b.nodes[At(b, i)].edges {
      if i < |b.unchecked| && w[0] == b.unchecked[i].edge {
        OneWayDown(b, i + 1, w[1..]);
        assert Spelled(b)[i..] == [w[0]] + Spelled(b)[i + 1..];
        assert w == [w[0]] + w[1..];
      } else {
        SameWords(b.nodes, b.nodes, Registered(b), b.nodes[At(b, i)].edges[w[0]], w[1..]);
        assert OnPath(b, |b.unchecked|);
      }
    } else {
      assert i < |b.unchecked| ==> Spelled(b)[i..][0] == b.unchecked[i].edge;
    }
  }

  lemma MarkFirm(b: State)
    requires Firm(b)
    ensures var b' := b.(nodes := Mark(b.nodes, Top(b)), previous := Spelled(b));
            && Sturdy(b') && Frozen(b, b') && (b.nodes[Top(b)].edges == map[] ==> Open(b'))
  {
    assert Spelled(b.(nodes := Mark(b.nodes, Top(b)), previous := Spelled(b))) == Spelled(b);
    hide Signature;
    hide OnPath;
    hide Run;
    MarkShape(b);
    MarkMinimal(b);
    TopLive(Mark(b.nodes, Top(b)), Top(b));
  }

  lemma MarkSpeaks(b: State, words: set<string>)
    requires Sound(b, words)
    ensures Speaks(b.(nodes := Mark(b.nodes, Top(b)), previous := Spelled(b)), words + {Spelled(b)})
  {
    var h' := Mark(b.nodes, Top(b));
    assert Shape(b);
    hide Signature;
    hide OnPath;
    hide Run;
    hide Shape;
    hide Minimal;
    forall w
      ensures Accepts(h', b.root, w) <==> w in words + {Spelled(b)}
    {
      OneWayDown(b, 0, w);
      assert Spelled(b)[0..] == Spelled(b);
      AcceptsMark(b.nodes, Top(b), b.root, w);
    }
  }

  lemma TopLive(h: Arena, n: nat)
    requires n < |h| && h[n].final
    ensures Live(h, n)
  {
    assert Accepts(h, n, []);
  }

  lemma MarkShape(b: State)
    requires Shape(b)
    ensures var b' := b.(nodes := Mark(b.nodes, Top(b)), previous := Spelled(b));
            Shape(b') && Frozen(b, b')
  {
    hide Signature;
    var b' := b.(nodes := Mark(b.nodes, Top(b)), previous := Spelled(b));
    assert OnPath(b, |b.unchecked|);
    assert Top(b) == At(b, |b.unchecked|) && forall n :: n in Registered(b) ==> b'.nodes[n] == b.nodes[n];
    assert forall i :: 0 <= i <= |b.unchecked| ==> At(b', i) == At(b, i);
    forall i | 0 <= i <= |b'.unchecked|
      ensures OnPath(b', i)
    {
      assert OnPath(b, i);
    }
  }

  lemma MarkMinimal(b: State)
    requires Firm(b)
    ensures Minimal(Mark(b.nodes, Top(b)), Registered(b))
  {
    hide Signature;
    hide Minimal;
    assert OnPath(b, |b.unchecked|);
    MinimalKept(b.nodes, Mark(b.nodes, Top(b)), Registered(b));
  }

  /** Every node replaced while a word is inserted is replaced by an interchangeable one. */
  predicate GenuineInsert(b: State, word: string)
    requires InBounds(b)
  {
    GenuineTo(b, CommonPrefix(word, b.previous))
  }

  /** `insert` of a word in order keeps the shape, whether or not it is genuine. */
  lemma InsertSturdy(b: State, word: string) returns (m: State, x: State, r: State)
    requires Sturdy(b) && Open(b) && Leq(b.previous, word)
    ensures InBounds(b) && m == Minimize(b, CommonPrefix(word, b.previous)) && Firm(m)
    ensures x == Extend(m, word, CommonPrefix(word, b.previous)) && Firm(x) && SameLanguage(m, x) && Spelled(x) == word
    ensures r == x.(nodes := Mark(x.nodes, Top(x)), previous := Spelled(x)) && Insert(b, word) == Some(r)
    ensures Sturdy(r) && Open(r) && Frozen(b, r) && Frozen(m, r) && r.root == b.root
  {
    assert InBounds(b);
    hide *;
    var common := CommonPrefix(word, b.previous);
    m := ReadyToExtend(b, word, common);
    ExtendFirm(m, word, common);
    x := Extend(m, word, common);
    MarkFirm(x);
    r := x.(nodes := Mark(x.nodes, Top(x)), previous := Spelled(x));
    FrozenTrans(m, x, r);
    FrozenTrans(b, m, r);
    InsertIs(b, word, r);
  }

  lemma InsertIs(b: State, word: string, r: State)
    requires InBounds(b) && Leq(b.previous, word)
    requires var x := Extend(Minimize(b, CommonPrefix(word, b.previous)), word, CommonPrefix(word, b.previous));
             r == x.(nodes := Mark(x.nodes, Top(x)), previous := word)
    ensures Insert(b, word) == Some(r)
  {
  }

  /** `insert` raises its error exactly on a word below the last one; otherwise the
      automaton accepts one word more, and registered nodes stay as they are. */
  lemma InsertCorrect(b: State, words: set<string>, word: string)
    requires Valid(b, words) && Open(b) && GenuineInsert(b, word)
    ensures Insert(b, word).Some? <==> Leq(b.previous, word)
    ensures Insert(b, word).Some? ==>
              && Valid(Insert(b, word).value, words + {word})
              && Open(Insert(b, word).value)
              && Frozen(b, Insert(b, word).value) && Insert(b, word).value.root == b.root
  {
    assert InBounds(b);
    if Leq(b.previous, word) {
      MinimizeKeeps(b, words, CommonPrefix(word, b.previous));
      hide Sturdy;
      hide Firm;
      hide Accepts;
      hide Insert;
      hide Minimize;
      hide Extend;
      hide Frozen;
      hide Minimized;
      hide CommonPrefix;
      hide Less;
      var m, x, r := InsertSturdy(b, word);
      assert Sound(x, words);
      MarkSpeaks(x, words);
    }
  }

  lemma FrozenTrans(b: State, m: State, r: State)
    requires Frozen(b, m) && Frozen(m, r)
    ensures Frozen(b, r)
  {
  }

  /** The node the new edge is added to has no edge with that label yet. */
  lemma ReadyToExtend(b: State, word: string, common: nat) returns (m: State)
    requires Sturdy(b) && Open(b) && Leq(b.previous, word) && common == CommonPrefix(word, b.previous)
    ensures m == Minimize(b, common) && Firm(m) && Frozen(b, m) && Spelled(m) == word[..common] && m.root == b.root
    ensures common < |word| ==> LabelsBelow(m, word[common])
    ensures common == |word| ==> m.nodes[Top(m)].edges == map[]
  {
    m := Minimize(b, common);
    MinimizeSturdy(b, common);
    CommonSymmetric(word, b.previous);
    PartsBelow(b.previous, word);
    assert |Spelled(b)| == |b.unchecked|;
    assert Spelled(m) == Spelled(b)[..common];
    if common < |b.unchecked| {
      assert OnPath(b, common);
    }
  }

  lemma {:induction false} CommonSymmetric(a: string, b: string)
    ensures CommonPrefix(a, b) == CommonPrefix(b, a)
    decreases |a|
  {
    if a != [] && b != [] && a[0] == b[0] {
      CommonSymmetric(a[1..], b[1..]);
    }
  }
}
