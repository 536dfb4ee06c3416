/** `TokenSet.prototype.toString`: the text by which the builder recognises nodes with the
    same continuation.  It joins labels and node numbers without a separator. */
module Signatures {
  import opened Decimals
  import opened TokenSets

  /** The `id` of the node at an index of the arena. */
  function Id(n: nat): nat {
    n + 1
  }

  lemma {:induction false} LeastExists(s: set<char>)
    requires s != {}
    ensures exists c :: c in s && forall d :: d in s ==> c <= d
    decreases |s|
  {
    var c :| c in s;
    if s != {c} {
      LeastExists(s - {c});
      var b :| b in s - {c} && forall d :: d in s - {c} ==> b <= d;
      var m := if b <= c then b else c;
      forall d | d in s
        ensures m <= d
      {
        assert d == c || d in s - {c};
      }
    }
  }

  function Least(s: set<char>): (c: char)
    requires s != {}
    ensures c in s && forall d :: d in s ==> c <= d
  {
    LeastExists(s);
    var c :| c in s && forall d :: d in s ==> c <= d;
    c
  }

  /** `Object.keys(edges).sort()`. */
  function SortedLabels(s: set<char>): (labels: seq<char>)
    ensures forall c :: c in labels <==> c in s
    ensures Rising(labels)
    decreases |s|
  {
    if s == {} then []
    else
      var c := Least(s);
      var rest := SortedLabels(s - {c});
      assert forall i :: 0 <= i < |rest| ==> rest[i] in s - {c};
      [c] + rest
  }

  ghost predicate Rising(labels: seq<char>) {
    forall i, j :: 0 <= i < j < |labels| ==> labels[i] < labels[j]
  }

  lemma RisingTail(labels: seq<char>, c: char)
    requires Rising(labels) && labels != []
    ensures Rising(labels[1..]) && (c in labels[1..] <==> c in labels && c != labels[0])
    ensures c in labels ==> labels[0] <= c
  {
    if c in labels[1..] {
      var i :| 0 <= i < |labels[1..]| && labels[1..][i] == c;
      assert labels[i + 1] == c;
    }
  }

  /** There is one way to sort. */
  lemma {:induction false} SortedOnce(a: seq<char>, b: seq<char>)
    requires Rising(a) && Rising(b) && forall c :: c in a <==> c in b
    ensures a == b
    decreases |a|
  {
    assert a != [] ==> a[0] in b;
    assert b != [] ==> b[0] in a;
    if a != [] {
      RisingTail(a, b[0]);
      RisingTail(b, a[0]);
      forall c
        ensures c in a[1..] <==> c in b[1..]
      {
        RisingTail(a, c);
        RisingTail(b, c);
      }
      SortedOnce(a[1..], b[1..]);
      assert a == [a[0]] + a[1..] && b == [b[0]] + b[1..];
    }
  }

  function EdgeText(labels: seq<char>, edges: map<char, nat>): string
    requires forall c :: c in labels ==> c in edges
  {
    if labels == [] then []
    else [labels[0]] + Decimal(Id(edges[labels[0]])) + EdgeText(labels[1..], edges)
  }

  function Signature(n: Node): string {
    (if n.final then "1" else "0") + EdgeText(SortedLabels(n.edges.Keys), n.edges)
  }

  /** `toString`, which returns the cached text if there is one. */
  function Text(n: Node): string {
    if n.str != [] then n.str else Signature(n)
  }

  /** Two nodes are interchangeable: the same edges to the same nodes, and both final or neither. */
  predicate SameState(a: Node, b: Node) {
    a.final == b.final && a.edges == b.edges
  }

  predicate DigitFree(n: Node) {
    forall c :: c in n.edges ==> !IsDigit(c)
  }

  lemma {:induction false} EdgeTextInjective(a: seq<char>, ea: map<char, nat>, b: seq<char>, eb: map<char, nat>)
    requires forall c :: c in a ==> c in ea && !IsDigit(c)
    requires forall c :: c in b ==> c in eb && !IsDigit(c)
    requires EdgeText(a, ea) == EdgeText(b, eb)
    ensures a == b && forall c :: c in a ==> ea[c] == eb[c]
    decreases |a|
  {
    if a != [] && b != [] {
      var da, db := Decimal(Id(ea[a[0]])), Decimal(Id(eb[b[0]]));
      var ra, rb := EdgeText(a[1..], ea), EdgeText(b[1..], eb);
      assert EdgeText(a, ea)[0] == a[0] && EdgeText(a, ea)[1..] == da + ra;
      assert EdgeText(b, eb)[0] == b[0] && EdgeText(b, eb)[1..] == db + rb;
      DigitRunUnique(da, ra, db, rb);
      ParseOfDecimal(Id(ea[a[0]]));
      ParseOfDecimal(Id(eb[b[0]]));
      EdgeTextInjective(a[1..], ea, b[1..], eb);
      assert a == [a[0]] + a[1..] && b == [b[0]] + b[1..];
    }
  }

  /** Without digits among the labels, nodes with one signature are interchangeable. */
  lemma SignatureInjective(a: Node, b: Node)
    requires DigitFree(a) && DigitFree(b) && Signature(a) == Signature(b)
    ensures SameState(a, b)
  {
    var la, lb := SortedLabels(a.edges.Keys), SortedLabels(b.edges.Keys);
    assert Signature(a)[1..] == EdgeText(la, a.edges) && Signature(b)[1..] == EdgeText(lb, b.edges);
    assert Signature(a)[0] == Signature(b)[0];
    EdgeTextInjective(la, a.edges, lb, b.edges);
    assert forall c :: c in a.edges.Keys <==> c in la;
    assert forall c :: c in b.edges.Keys <==> c in lb;
  }
}
