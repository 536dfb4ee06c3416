/** `TokenSet.prototype.toArray`: the words of a token set, listed from a stack of
    prefixes. */
module Enumeration {
  import opened TokenSets
  import opened Worklists

  datatype Entry = Entry(prefix: string, node: nat)

  /** `w` is still to be found below this entry. */
  predicate Below(h: Arena, e: Entry, w: string) {
    e.prefix <= w && Accepts(h, e.node, w[|e.prefix|..])
  }

  ghost predicate BelowSome(h: Arena, stack: seq<Entry>, w: string) {
    exists i :: 0 <= i < |stack| && Below(h, stack[i], w)
  }

  /** No word can be found below two of the entries, or below one and already in the list. */
  ghost predicate Apart(stack: seq<Entry>, words: seq<string>) {
    && (forall i, j :: 0 <= i < j < |stack| ==>
          !(stack[i].prefix <= stack[j].prefix) && !(stack[j].prefix <= stack[i].prefix))
    && (forall i, j :: 0 <= i < |stack| && 0 <= j < |words| ==> !(stack[i].prefix <= words[j]))
  }

  ghost predicate Bounded(h: Arena, stack: seq<Entry>, potentials: seq<nat>) {
    |potentials| == |stack| && forall i :: 0 <= i < |stack| ==> Within(h, stack[i].node, potentials[i])
  }

  /** What lies below an entry: its prefix, if the node is final, and what lies below the
      entries of its edges. */
  lemma BelowStep(h: Arena, e: Entry, w: string)
    requires e.node < |h|
    ensures Below(h, e, w) <==>
            (w == e.prefix && h[e.node].final)
            || exists c :: c in h[e.node].edges && Below(h, Entry(e.prefix + [c], h[e.node].edges[c]), w)
  {
    if Below(h, e, w) {
      var rest := w[|e.prefix|..];
      if rest != [] {
        var c := rest[0];
        assert rest == [c] + rest[1..];
        AcceptsStep(h, e.node, c, rest[1..]);
        assert w[|e.prefix| + 1..] == rest[1..];
        assert e.prefix + [c] <= w;
        assert Below(h, Entry(e.prefix + [c], h[e.node].edges[c]), w);
      } else {
        assert w == e.prefix;
      }
    }
    if w == e.prefix && h[e.node].final {
      assert w[|e.prefix|..] == [];
    }
    if c :| c in h[e.node].edges && Below(h, Entry(e.prefix + [c], h[e.node].edges[c]), w) {
      var rest := w[|e.prefix| + 1..];
      assert w[|e.prefix|..] == [c] + rest;
      AcceptsStep(h, e.node, c, rest);
    }
  }

  /** The words listed so far and those below the stack are the words of the token set. */
  ghost predicate Covers(h: Arena, root: nat, words: seq<string>, stack: seq<Entry>) {
    forall w :: w in words || BelowSome(h, stack, w) <==> Accepts(h, root, w)
  }

  /** No word comes after one that it begins. */
  ghost predicate ShorterFirst(words: seq<string>) {
    forall i, j :: 0 <= i < j < |words| ==> !(words[j] <= words[i])
  }

  /** Every word of the token set is listed, once, and nothing else; a word comes before those
      that it begins. */
  method ToArray(heap: Heap, root: nat) returns (words: seq<string>)
    requires Closed(heap.nodes) && Acyclic(heap.nodes, root)
    ensures Distinct(words) && ShorterFirst(words)
    ensures forall w :: w in words <==> Accepts(heap.nodes, root, w)
  {
    hide Covers;
    hide Pushed;
    hide Apart;
    hide ShorterFirst;
    var h := heap.nodes;
    ghost var k: nat :| Within(h, root, k);
    ghost var b := MaxDegree(h) + 1;
    words := [];
    NothingListed();
    var stack := [Entry([], root)];
    ghost var potentials := [k];
    StartCovers(h, root);
    while stack != []
      invariant Distinct(words) && ShorterFirst(words) && Apart(stack, words)
      invariant Bounded(h, stack, potentials)
      invariant Covers(h, root, words, stack)
      decreases Weight(b, potentials)
    {
      var e := stack[|stack| - 1];
      ghost var pot := potentials[|potentials| - 1];
      ghost var rest, before := stack[..|stack| - 1], words;
      assert stack == rest + [e] && potentials == potentials[..|potentials| - 1] + [pot];
      StillShorterFirst(rest, e, words);
      var labels := Keys(h[e.node].edges);
      stack := PushEdges(h, e, labels, stack[..|stack| - 1]);
      if h[e.node].final {
        words := words + [e.prefix];
      }
      potentials := StillBounded(h, rest, e, labels, stack, potentials[..|potentials| - 1], pot, b);
      StillApart(h, rest, e, labels, stack, before);
      StillCovers(h, root, rest, e, labels, stack, before);
    }
    EndCovers(h, root, words);
  }

  lemma NothingListed()
    ensures ShorterFirst([])
  {
  }

  lemma StillShorterFirst(rest: seq<Entry>, e: Entry, words: seq<string>)
    requires Apart(rest + [e], words) && ShorterFirst(words)
    ensures ShorterFirst(words + [e.prefix])
  {
    assert (rest + [e])[|rest|] == e;
  }

  method PushEdges(h: Arena, e: Entry, labels: seq<char>, rest: seq<Entry>) returns (stack: seq<Entry>)
    requires e.node < |h| && forall c :: c in labels <==> c in h[e.node].edges
    ensures Pushed(h, rest, e, labels, stack)
  {
    stack := rest;
    for i := 0 to |labels|
      invariant |stack| == |rest| + i && stack[..|rest|] == rest
      invariant forall j :: 0 <= j < i ==>
                  stack[|rest| + j] == Entry(e.prefix + [labels[j]], h[e.node].edges[labels[j]])
    {
      var c := labels[i];
      assert c in h[e.node].edges;
      stack := stack + [Entry(e.prefix + [c], h[e.node].edges[c])];
    }
  }

  /** The potentials after processing an entry, and why the loop ends. */
  lemma StillBounded(h: Arena, rest: seq<Entry>, e: Entry, labels: seq<char>, stack: seq<Entry>,
                     potentials: seq<nat>, pot: nat, b: nat) returns (potentials': seq<nat>)
    requires Pushed(h, rest, e, labels, stack) && |labels| == |h[e.node].edges.Keys| && b > MaxDegree(h)
    requires Bounded(h, rest, potentials) && Within(h, e.node, pot)
    ensures Bounded(h, stack, potentials')
    ensures Weight(b, potentials') < Weight(b, potentials + [pot])
  {
    DegreeBound(h, e.node);
    WeightPush(b, potentials, pot);
    if labels == [] {
      potentials' := potentials;
      assert stack == stack[..|rest|];
    } else {
      assert labels[0] in h[e.node].edges;
      potentials' := potentials + Repeat(|labels|, pot - 1);
      WeightRepeat(b, potentials, |labels|, pot - 1);
      PushedWeighLess(b, |labels|, pot);
      forall i | 0 <= i < |stack|
        ensures Within(h, stack[i].node, potentials'[i])
      {
        if i < |rest| {
          assert stack[..|rest|][i] == rest[i];
        } else {
          assert labels[i - |rest|] in h[e.node].edges;
          assert stack[|rest| + (i - |rest|)].node == h[e.node].edges[labels[i - |rest|]];
        }
      }
    }
  }

  lemma StartCovers(h: Arena, root: nat)
    ensures Covers(h, root, [], [Entry([], root)]) && Apart([Entry([], root)], [])
  {
    forall w
      ensures BelowSome(h, [Entry([], root)], w) <==> Accepts(h, root, w)
    {
      assert w[|""|..] == w;
      assert Below(h, [Entry([], root)][0], w) <==> Accepts(h, root, w);
    }
  }

  lemma EndCovers(h: Arena, root: nat, words: seq<string>)
    requires Covers(h, root, words, [])
    ensures forall w :: w in words <==> Accepts(h, root, w)
  {
    assert forall w :: !BelowSome(h, [], w);
  }

  lemma StillCovers(h: Arena, root: nat, rest: seq<Entry>, e: Entry, labels: seq<char>, stack: seq<Entry>,
                    words: seq<string>)
    requires Pushed(h, rest, e, labels, stack)
    requires Covers(h, root, words, rest + [e])
    ensures Covers(h, root, if h[e.node].final then words + [e.prefix] else words, stack)
  {
    var all := rest + [e];
    forall w
      ensures w in (if h[e.node].final then words + [e.prefix] else words) || BelowSome(h, stack, w) <==>
              Accepts(h, root, w)
    {
      if i :| 0 <= i < |all| && Below(h, all[i], w) {
        assert i < |rest| ==> rest[i] == all[i];
      }
      if i :| 0 <= i < |rest| && Below(h, rest[i], w) {
        assert rest[i] == all[i];
      }
      assert Below(h, all[|rest|], w) <==> Below(h, e, w);
      BelowStep(h, e, w);
      SplitStack(h, rest, e, labels, stack, w);
    }
  }

  ghost predicate Pushed(h: Arena, rest: seq<Entry>, e: Entry, labels: seq<char>, stack: seq<Entry>) {
    && e.node < |h| && (forall c :: c in labels <==> c in h[e.node].edges)
    && |stack| == |rest| + |labels| && stack[..|rest|] == rest
    && forall j :: 0 <= j < |labels| ==> stack[|rest| + j] == Entry(e.prefix + [labels[j]], h[e.node].edges[labels[j]])
  }

  lemma SplitStack(h: Arena, rest: seq<Entry>, e: Entry, labels: seq<char>, stack: seq<Entry>, w: string)
    requires Pushed(h, rest, e, labels, stack)
    ensures BelowSome(h, stack, w) <==>
            BelowSome(h, rest, w)
            || exists c :: c in h[e.node].edges && Below(h, Entry(e.prefix + [c], h[e.node].edges[c]), w)
  {
    if i :| 0 <= i < |stack| && Below(h, stack[i], w) {
      if i < |rest| {
        assert stack[i] == stack[..|rest|][i] == rest[i];
      } else {
        var j := i - |rest|;
        assert stack[|rest| + j] == Entry(e.prefix + [labels[j]], h[e.node].edges[labels[j]]);
        assert labels[j] in h[e.node].edges;
      }
    }
    if i :| 0 <= i < |rest| && Below(h, rest[i], w) {
      assert stack[i] == stack[..|rest|][i] == rest[i];
    }
    if c :| c in h[e.node].edges && Below(h, Entry(e.prefix + [c], h[e.node].edges[c]), w) {
      var j :| 0 <= j < |labels| && labels[j] == c;
      assert Below(h, stack[|rest| + j], w);
    }
  }

  /** Entries below different labels of one node are apart, and as far from the other
      entries and the words listed before as the node's own entry was. */
  lemma StillApart(h: Arena, rest: seq<Entry>, e: Entry, labels: seq<char>, stack: seq<Entry>, words: seq<string>)
    requires Pushed(h, rest, e, labels, stack) && Distinct(labels)
    requires Apart(rest + [e], words)
    ensures Apart(stack, words) && Apart(stack, words + [e.prefix])
    ensures e.prefix !in words
  {
    var old_ := rest + [e];
    assert forall i :: 0 <= i < |rest| ==> stack[i] == stack[..|rest|][i] == rest[i] == old_[i];
    assert old_[|rest|] == e;
    forall i, j | 0 <= i < j < |stack|
      ensures !(stack[i].prefix <= stack[j].prefix) && !(stack[j].prefix <= stack[i].prefix)
    {
      if j >= |rest| {
        var d := labels[j - |rest|];
        assert stack[|rest| + (j - |rest|)] == Entry(e.prefix + [d], h[e.node].edges[d]);
        if i < |rest| {
          Incomparable(old_[i].prefix, e.prefix, d);
        } else {
          var c := labels[i - |rest|];
          assert stack[|rest| + (i - |rest|)] == Entry(e.prefix + [c], h[e.node].edges[c]);
          assert c != d;
          assert stack[i].prefix[|e.prefix|] == c && stack[j].prefix[|e.prefix|] == d;
        }
      }
    }
    var more := words + [e.prefix];
    forall i, j | 0 <= i < |stack| && 0 <= j < |more|
      ensures !(stack[i].prefix <= more[j])
    {
      if i < |rest| {
        assert old_[i] == stack[i];
      } else {
        var d := labels[i - |rest|];
        assert stack[|rest| + (i - |rest|)] == Entry(e.prefix + [d], h[e.node].edges[d]);
        if j < |words| {
          assert !(old_[|rest|].prefix <= words[j]);
          assert stack[i].prefix[..|e.prefix|] == e.prefix;
        }
      }
    }
    assert forall j :: 0 <= j < |words| ==> more[j] == words[j];
    assert forall j :: 0 <= j < |words| ==> !(old_[|rest|].prefix <= words[j]);
  }

  lemma Incomparable(p: string, q: string, d: char)
    requires !(p <= q) && !(q <= p)
    ensures !(p <= q + [d]) && !(q + [d] <= p)
  {
    var i := FirstDifference(p, q);
    assert (q + [d])[i] == q[i];
  }

  lemma FirstDifference(p: string, q: string) returns (i: nat)
    requires !(p <= q) && !(q <= p)
    ensures i < |p| && i < |q| && p[i] != q[i]
  {
    i := 0;
    while i < |p| && i < |q| && p[i] == q[i]
      invariant i <= |p| && i <= |q| && p[..i] == q[..i]
    {
      i := i + 1;
    }
  }
}
