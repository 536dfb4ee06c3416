/** Termination of worklist loops.  Every entry of the list has a potential; processing an
    entry removes it and pushes fewer than `b` entries of smaller potential, so the sum of
    `b` to the potentials decreases. */
module Worklists {
  import opened TokenSets

  function Pow(b: nat, e: nat): (p: nat)
    ensures b > 0 ==> p > 0
  {
    if e == 0 then 1 else b * Pow(b, e - 1)
  }

  function Weight(b: nat, potentials: seq<nat>): nat {
    if potentials == [] then 0
    else Weight(b, potentials[..|potentials| - 1]) + Pow(b, potentials[|potentials| - 1])
  }

  lemma WeightPush(b: nat, potentials: seq<nat>, e: nat)
    ensures Weight(b, potentials + [e]) == Weight(b, potentials) + Pow(b, e)
  {
    assert (potentials + [e])[..|potentials|] == potentials;
  }

  function Repeat(n: nat, e: nat): (s: seq<nat>)
    ensures |s| == n && forall i :: 0 <= i < n ==> s[i] == e
  {
    seq(n, _ => e)
  }

  lemma {:induction false} WeightRepeat(b: nat, potentials: seq<nat>, n: nat, e: nat)
    ensures Weight(b, potentials + Repeat(n, e)) == Weight(b, potentials) + n * Pow(b, e)
    decreases n
  {
    if n == 0 {
      assert potentials + Repeat(n, e) == potentials;
    } else {
      WeightRepeat(b, potentials, n - 1, e);
      assert potentials + Repeat(n, e) == potentials + Repeat(n - 1, e) + [e];
      WeightPush(b, potentials + Repeat(n - 1, e), e);
      assert n * Pow(b, e) == (n - 1) * Pow(b, e) + Pow(b, e);
    }
  }

  lemma {:induction false} PowGrows(b: nat, d: nat, e: nat)
    requires b > 0 && d <= e
    ensures Pow(b, d) <= Pow(b, e)
    decreases e
  {
    if d < e {
      PowGrows(b, d, e - 1);
      assert Pow(b, e) == b * Pow(b, e - 1) >= Pow(b, e - 1);
    }
  }

  /** Fewer than `b` entries of potential `e - 1` weigh less than one of potential `e`. */
  lemma PushedWeighLess(b: nat, pushed: nat, e: nat)
    requires pushed < b && e > 0
    ensures pushed * Pow(b, e - 1) < Pow(b, e)
  {
    var p := Pow(b, e - 1);
    assert Pow(b, e) == b * p;
    assert (b - pushed) * p > 0;
  }

  /** The largest number of edges of any node of the arena. */
  function MaxDegree(h: Arena): nat {
    if h == [] then 0
    else
      var d := MaxDegree(h[..|h| - 1]);
      var e := |h[|h| - 1].edges.Keys|;
      if e > d then e else d
  }

  lemma {:induction false} DegreeBound(h: Arena, n: nat)
    requires n < |h|
    ensures |h[n].edges.Keys| <= MaxDegree(h)
    decreases |h|
  {
    if n < |h| - 1 {
      DegreeBound(h[..|h| - 1], n);
    }
  }

  ghost predicate Distinct<T>(s: seq<T>) {
    forall i, j :: 0 <= i < j < |s| ==> s[i] != s[j]
  }

  lemma {:induction false} DistinctSize<T>(s: seq<T>, keys: set<T>)
    requires Distinct(s) && forall x :: x in s <==> x in keys
    ensures |s| == |keys|
    decreases |s|
  {
    if s == [] {
      assert keys == {};
    } else {
      var x := s[0];
      forall y
        ensures y in s[1..] <==> y in keys - {x}
      {
        if y in s[1..] {
          var i :| 0 <= i < |s[1..]| && s[1..][i] == y;
          assert s[i + 1] == y && s[0] != s[i + 1];
        }
      }
      DistinctSize(s[1..], keys - {x});
    }
  }

  /** `Object.keys`: the labels of a node's edges, each once, in some order. */
  method Keys(edges: map<char, nat>) returns (labels: seq<char>)
    ensures Distinct(labels)
    ensures forall c :: c in labels <==> c in edges
    ensures |labels| == |edges.Keys|
  {
    labels := [];
    var rest := edges.Keys;
    while rest != {}
      invariant Distinct(labels)
      invariant forall c :: c in labels <==> c in edges.Keys - rest
      invariant rest <= edges.Keys
      decreases |rest|
    {
      var c :| c in rest;
      assert c !in labels;
      labels := labels + [c];
      rest := rest - {c};
    }
    DistinctSize(labels, edges.Keys);
  }
}
