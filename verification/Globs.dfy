/** `TokenSet.fromString`: the automaton of a glob pattern. */
module Globs {
  import opened TokenSets

  /** `*` stands for any run of characters, an empty one included; every other character
      stands for itself. */
  predicate Glob(pattern: string, w: string)
    decreases |pattern|, |w|
  {
    if pattern == [] then w == []
    else if pattern[0] == WILDCARD then Glob(pattern[1..], w) || (w != [] && Glob(pattern, w[1..]))
    else w != [] && w[0] == pattern[0] && Glob(pattern[1..], w[1..])
  }

  /** The pattern up to `k` matches the word up to `i`, and the rest the rest. */
  predicate GlobsAt(p: string, q: string, w: string, i: nat) {
    i <= |w| && Glob(p, w[..i]) && Glob(q, w[i..])
  }

  /** What one character of a pattern matches. */
  lemma GlobOne(c: char, w: string)
    ensures Glob([c], w) <==> if c == '*' then true else w == [c]
    ensures Glob([], w) <==> w == []
  {
    StarMatchesAll(w);
    assert [c][1..] == [];
    if c != '*' && w != [] && w[0] == c {
      assert w == [c] + w[1..];
    }
  }

  lemma {:induction false} StarMatchesAll(w: string)
    ensures Glob("*", w)
    decreases |w|
  {
    assert "*"[1..] == [];
    if w != [] {
      StarMatchesAll(w[1..]);
    }
  }

  /** A pattern in two parts matches a word in two parts. */
  lemma {:induction false} GlobConcat(p: string, q: string, w: string)
    ensures Glob(p + q, w) <==> exists i: nat :: GlobsAt(p, q, w, i)
    decreases |p|, |w|
  {
    if p == [] {
      assert p + q == q && w[0..] == w;
      assert GlobsAt(p, q, w, 0) <==> Glob(q, w);
      assert forall i: nat :: GlobsAt(p, q, w, i) ==> i == 0;
    } else {
      assert (p + q)[1..] == p[1..] + q && (p + q)[0] == p[0];
      if p[0] == WILDCARD {
        GlobConcat(p[1..], q, w);
        if w != [] {
          GlobConcat(p, q, w[1..]);
        }
        StarParts(p, q, w);
      } else {
        if w != [] {
          GlobConcat(p[1..], q, w[1..]);
        }
        LiteralParts(p, q, w);
      }
    }
  }

  lemma StarParts(p: string, q: string, w: string)
    requires p != [] && p[0] == WILDCARD
    ensures (exists i: nat :: GlobsAt(p, q, w, i)) <==>
            (exists i: nat :: GlobsAt(p[1..], q, w, i)) || (w != [] && exists i: nat :: GlobsAt(p, q, w[1..], i))
  {
    forall i: nat | i <= |w|
      ensures GlobsAt(p, q, w, i) <==> GlobsAt(p[1..], q, w, i) || (i > 0 && GlobsAt(p, q, w[1..], i - 1))
    {
      assert i > 0 ==> w[..i][1..] == w[1..][..i - 1] && w[i..] == w[1..][i - 1..];
    }
    if w != [] {
      if i: nat :| GlobsAt(p, q, w[1..], i) {
        assert GlobsAt(p, q, w, i + 1);
      }
    }
  }

  lemma LiteralParts(p: string, q: string, w: string)
    requires p != [] && p[0] != WILDCARD
    ensures (exists i: nat :: GlobsAt(p, q, w, i)) <==>
            w != [] && w[0] == p[0] && exists i: nat :: GlobsAt(p[1..], q, w[1..], i)
  {
    forall i: nat | i <= |w|
      ensures GlobsAt(p, q, w, i) <==> i > 0 && w[0] == p[0] && GlobsAt(p[1..], q, w[1..], i - 1)
    {
      assert i > 0 ==> w[..i][1..] == w[1..][..i - 1] && w[i..] == w[1..][i - 1..];
    }
    if w != [] && w[0] == p[0] {
      if i: nat :| GlobsAt(p[1..], q, w[1..], i) {
        assert GlobsAt(p, q, w, i + 1);
      }
    }
  }

  function Loop(n: nat, starred: bool): map<char, nat> {
    if starred then map[WILDCARD := n] else map[]
  }

  /** Reading the pattern `p` leads from `n` to `end`.  A star is a loop on the node it is
      read at; another character is an edge to a later node.  `starred` tells whether a
      star has already been read at `n`. */
  ghost predicate Segment(h: Arena, n: nat, starred: bool, p: string, end: nat)
    decreases |p|
  {
    n < |h| &&
    if p == [] then n == end && h[n].edges == Loop(n, starred)
    else if p[0] == WILDCARD then Segment(h, n, true, p[1..], end)
    else
      && p[0] in h[n].edges && h[n].edges == Loop(n, starred)[p[0] := h[n].edges[p[0]]]
      && !h[n].final && n < h[n].edges[p[0]]
      && Segment(h, h[n].edges[p[0]], false, p[1..], end)
  }

  method FromString(heap: Heap, pattern: string) returns (root: nat)
    requires Closed(heap.nodes)
    modifies heap
    ensures Grows(old(heap.nodes), heap.nodes) && Closed(heap.nodes)
    ensures |old(heap.nodes)| <= root < |heap.nodes|
    ensures forall w :: Matches(heap.nodes, root, w) <==> pattern != [] && Glob(pattern, w)
  {
    root := |heap.nodes|;
    var n := root;
    heap.nodes := heap.nodes + [EMPTY_NODE];
    var i := 0;
    assert pattern[..0] == [];
    while i < |pattern|
      invariant 0 <= i <= |pattern|
      invariant Grows(old(heap.nodes), heap.nodes) && Closed(heap.nodes)
      invariant |old(heap.nodes)| <= root <= n == |heap.nodes| - 1
      invariant Segment(heap.nodes, root, false, pattern[..i], n)
      invariant heap.nodes[n].final == (i == |pattern| > 0)
    {
      var c := pattern[i];
      var last := i == |pattern| - 1;
      ghost var h := heap.nodes;
      assert pattern[..i + 1] == pattern[..i] + [c];
      if c == WILDCARD {
        heap.nodes := heap.nodes[n := heap.nodes[n].(edges := heap.nodes[n].edges[c := n], final := last)];
        AppendStar(h, root, false, pattern[..i], n, last);
      } else {
        var next := |heap.nodes|;
        heap.nodes := heap.nodes + [EMPTY_NODE.(final := last)];
        heap.nodes := heap.nodes[n := heap.nodes[n].(edges := heap.nodes[n].edges[c := next])];
        AppendLiteral(h, root, false, pattern[..i], n, c, last);
        n := next;
      }
      i := i + 1;
    }
    assert pattern[..i] == pattern;
    forall w
      ensures Matches(heap.nodes, root, w) <==> pattern != [] && Glob(pattern, w)
    {
      if pattern != [] {
        SegmentMatches(heap.nodes, root, false, pattern, n, w);
      }
    }
  }

  lemma {:induction false} SegmentRises(h: Arena, n: nat, starred: bool, p: string, end: nat)
    requires Segment(h, n, starred, p, end)
    ensures n <= end < |h|
    decreases |p|
  {
    if p != [] {
      SegmentRises(h, if p[0] == WILDCARD then n else h[n].edges[p[0]], p[0] == WILDCARD, p[1..], end);
    }
  }

  lemma {:induction false} AppendStar(h: Arena, n: nat, starred: bool, p: string, end: nat, last: bool)
    requires end < |h| && Segment(h, n, starred, p, end)
    ensures Segment(h[end := h[end].(edges := h[end].edges[WILDCARD := end], final := last)], n, starred,
                    p + [WILDCARD], end)
    decreases |p|
  {
    if p != [] {
      assert (p + [WILDCARD])[1..] == p[1..] + [WILDCARD];
      var n' := if p[0] == WILDCARD then n else h[n].edges[p[0]];
      SegmentRises(h, n', p[0] == WILDCARD, p[1..], end);
      AppendStar(h, n', p[0] == WILDCARD, p[1..], end, last);
    }
  }

  lemma {:induction false} AppendLiteral(h: Arena, n: nat, starred: bool, p: string, end: nat, c: char, last: bool)
    requires end < |h| && Segment(h, n, starred, p, end) && !h[end].final && c != WILDCARD
    ensures Segment((h + [EMPTY_NODE.(final := last)])[end := h[end].(edges := h[end].edges[c := |h|])], n, starred,
                    p + [c], |h|)
    decreases |p|
  {
    if p != [] {
      assert (p + [c])[1..] == p[1..] + [c];
      var n' := if p[0] == WILDCARD then n else h[n].edges[p[0]];
      SegmentRises(h, n', p[0] == WILDCARD, p[1..], end);
      AppendLiteral(h, n', p[0] == WILDCARD, p[1..], end, c, last);
    }
  }

  lemma {:induction false} DoubleStar(rest: string, w: string)
    ensures Glob([WILDCARD, WILDCARD] + rest, w) <==> Glob([WILDCARD] + rest, w)
    decreases |w|
  {
    assert ([WILDCARD, WILDCARD] + rest)[1..] == [WILDCARD] + rest;
    if w != [] {
      DoubleStar(rest, w[1..]);
    }
  }

  /** The automaton of a pattern matches what the pattern matches. */
  lemma {:induction false} SegmentMatches(h: Arena, n: nat, starred: bool, p: string, end: nat, w: string)
    requires end < |h| && Segment(h, n, starred, p, end) && h[end].final
    ensures Matches(h, n, w) <==> Glob(if starred then [WILDCARD] + p else p, w)
    decreases |w|, |p|
  {
    if starred {
      assert ([WILDCARD] + p)[1..] == p;
    }
    if p != [] && p[0] == WILDCARD {
      SegmentMatches(h, n, true, p[1..], end, w);
      assert p == [WILDCARD] + p[1..];
      if starred {
        assert [WILDCARD] + p == [WILDCARD, WILDCARD] + p[1..];
        DoubleStar(p[1..], w);
      }
    } else if w != [] {
      if starred {
        SegmentMatches(h, n, true, p, end, w[1..]);
      }
      if p != [] {
        SegmentMatches(h, h[n].edges[p[0]], false, p[1..], end, w[1..]);
      }
    }
  }
}
