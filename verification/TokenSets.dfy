/** Token sets: the automata of the term index.

    The JavaScript objects live on one heap and refer to one another; here that heap
    is an arena, a sequence of nodes, and a reference is an index into it.  The
    counter that numbers token sets is global and only grows, so the node at index
    `i` is the one whose `id` is `i + 1`. */
module TokenSets {

  import opened Options

  /** `str` is the cached result of `toString`; the empty string is "not cached". */
  datatype Node = Node(final: bool, edges: map<char, nat>, str: string)

  type Arena = seq<Node>

  const EMPTY_NODE := Node(false, map[], "")

  /** The edge label that stands for any one character in a query automaton. */
  const WILDCARD: char := '*'

  /** The JavaScript heap as far as token sets are concerned. */
  class Heap {
    var nodes: Arena

    constructor ()
      ensures nodes == []
    {
      nodes := [];
    }
  }

  /** The node reached from `n` by following `w` edge by edge. */
  function Run(h: Arena, n: nat, w: string): Option<nat>
    decreases |w|
  {
    if n >= |h| then None
    else if w == [] then Some(n)
    else if w[0] in h[n].edges then Run(h, h[n].edges[w[0]], w[1..])
    else None
  }

  /** `w` leads from `n` to a final node: `w` is in the language of `n`. */
  predicate Accepts(h: Arena, n: nat, w: string) {
    var o := Run(h, n, w);
    o.Some? && o.value < |h| && h[o.value].final
  }

  /** Acceptance when a `*` edge may be taken on any one character.  Query automata are
      read this way, and unlike `Accepts` the reading is nondeterministic. */
  predicate Matches(h: Arena, q: nat, w: string)
    decreases |w|
  {
    q < |h| &&
    if w == [] then h[q].final
    else (w[0] in h[q].edges && Matches(h, h[q].edges[w[0]], w[1..]))
         || (WILDCARD in h[q].edges && Matches(h, h[q].edges[WILDCARD], w[1..]))
  }

  /** Every edge leads to a node of the arena. */
  ghost predicate Closed(h: Arena) {
    forall n, c :: 0 <= n < |h| && c in h[n].edges ==> h[n].edges[c] < |h|
  }

  /** No path from `n` has more than `k` edges.  A node of a finite arena is on no cycle
      and leads to none exactly when there is such a `k`. */
  ghost predicate Within(h: Arena, n: nat, k: nat)
    decreases k
  {
    n < |h| && forall c :: c in h[n].edges ==> k > 0 && Within(h, h[n].edges[c], k - 1)
  }

  ghost predicate Acyclic(h: Arena, n: nat) {
    exists k: nat :: Within(h, n, k)
  }

  /** `h'` is `h` with more nodes; what was there is as it was. */
  ghost predicate Grows(h: Arena, h': Arena) {
    h <= h'
  }

  lemma {:induction false} RunConcat(h: Arena, n: nat, u: string, v: string)
    ensures Run(h, n, u + v) == if Run(h, n, u).Some? then Run(h, Run(h, n, u).value, v) else None
    decreases |u|
  {
    if u == [] {
      assert u + v == v;
    } else if n < |h| && u[0] in h[n].edges {
      assert (u + v)[1..] == u[1..] + v;
      RunConcat(h, h[n].edges[u[0]], u[1..], v);
    }
  }

  lemma AcceptsStep(h: Arena, n: nat, c: char, w: string)
    ensures Accepts(h, n, [c] + w) <==> n < |h| && c in h[n].edges && Accepts(h, h[n].edges[c], w)
  {
    assert ([c] + w)[1..] == w;
  }

  lemma MatchesStep(h: Arena, q: nat, c: char, w: string)
    ensures Matches(h, q, [c] + w) <==>
            q < |h| && ((c in h[q].edges && Matches(h, h[q].edges[c], w))
                        || (WILDCARD in h[q].edges && Matches(h, h[q].edges[WILDCARD], w)))
  {
    assert ([c] + w)[1..] == w;
  }

  /** What a closed arena says of its nodes does not change when the arena grows. */
  lemma {:induction false} RunGrows(h: Arena, h': Arena, n: nat, w: string)
    requires Closed(h) && Grows(h, h') && n < |h|
    ensures Run(h', n, w) == Run(h, n, w)
    ensures Run(h, n, w).Some? ==> Run(h, n, w).value < |h|
    decreases |w|
  {
    if w != [] && w[0] in h[n].edges {
      RunGrows(h, h', h[n].edges[w[0]], w[1..]);
    }
  }

  lemma AcceptsGrows(h: Arena, h': Arena, n: nat, w: string)
    requires Closed(h) && Grows(h, h') && n < |h|
    ensures Accepts(h', n, w) == Accepts(h, n, w)
  {
    RunGrows(h, h', n, w);
  }

  lemma {:induction false} WithinGrows(h: Arena, h': Arena, n: nat, k: nat)
    requires Grows(h, h') && Within(h, n, k)
    ensures Within(h', n, k)
    decreases k
  {
    forall c | c in h[n].edges
      ensures k > 0 && Within(h', h[n].edges[c], k - 1)
    {
      WithinGrows(h, h', h[n].edges[c], k - 1);
    }
  }

  /** A label word fits a word when it equals it but for wildcards. */
  predicate Fits(labels: string, w: string) {
    |labels| == |w| && forall i :: 0 <= i < |w| ==> labels[i] == w[i] || labels[i] == WILDCARD
  }

  /** Reading with wildcards is reading some label word literally. */
  lemma {:induction false} MatchesIsFits(h: Arena, q: nat, w: string)
    ensures Matches(h, q, w) <==> exists labels :: Accepts(h, q, labels) && Fits(labels, w)
    decreases |w|
  {
    if w == [] {
      assert Accepts(h, q, []) <==> Matches(h, q, []);
      assert Fits([], []);
      if labels :| Accepts(h, q, labels) && Fits(labels, w) {
        assert labels == [];
      }
    } else if q < |h| {
      if Matches(h, q, w) {
        var c := if w[0] in h[q].edges && Matches(h, h[q].edges[w[0]], w[1..]) then w[0] else WILDCARD;
        MatchesIsFits(h, h[q].edges[c], w[1..]);
        var rest :| Accepts(h, h[q].edges[c], rest) && Fits(rest, w[1..]);
        AcceptsStep(h, q, c, rest);
        assert Fits([c] + rest, w);
      }
      if labels :| Accepts(h, q, labels) && Fits(labels, w) {
        assert labels == [labels[0]] + labels[1..];
        AcceptsStep(h, q, labels[0], labels[1..]);
        MatchesIsFits(h, h[q].edges[labels[0]], w[1..]);
        assert Fits(labels[1..], w[1..]);
      }
    }
  }
}
