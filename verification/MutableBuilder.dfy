/** `TokenSet.Builder` as the object it is: its methods update its fields and the nodes. */
module MutableBuilder {
  import opened Options
  import opened TokenSets
  import opened Tries
  import opened Signatures
  import opened Words
  import opened TokenSetBuilder
  import opened TokenSetRuns
  import opened WrongRuns

  /** The first loop of `insert`: how far the word agrees with the last one. */
  method CommonLength(word: string, previous: string) returns (common: nat)
    ensures common == CommonPrefix(word, previous)
  {
    common := 0;
    while common < |word| && common < |previous| && word[common] == previous[common]
      invariant common <= |word| && common <= |previous|
      invariant CommonPrefix(word, previous) == common + CommonPrefix(word[common..], previous[common..])
    {
      common := common + 1;
    }
  }

  class Builder {
    const heap: Heap
    const root: nat
    var uncheckedNodes: seq<Unchecked>
    var minimizedNodes: map<string, nat>
    var previousWord: string

    ghost function State(): State
      reads this, heap
    {
      TokenSetBuilder.State(heap.nodes, root, uncheckedNodes, minimizedNodes, previousWord)
    }

    constructor (heap: Heap)
      modifies heap
      ensures this.heap == heap && State() == Start(old(heap.nodes))
    {
      this.heap := heap;
      root := |heap.nodes|;
      uncheckedNodes := [];
      minimizedNodes := map[];
      previousWord := [];
      new;
      heap.nodes := heap.nodes + [EMPTY_NODE];
    }

    method MinimizeDownTo(downTo: nat)
      requires InBounds(State())
      modifies this, heap
      ensures State() == Minimize(old(State()), downTo)
    {
      ghost var b0 := State();
      var n := |uncheckedNodes| - 1;
      while n >= downTo
        invariant n == |uncheckedNodes| - 1 && InBounds(State())
        invariant Minimize(State(), downTo) == Minimize(b0, downTo)
      {
        var u := uncheckedNodes[n];
        var key := Text(heap.nodes[u.child]);
        if key in minimizedNodes {
          heap.nodes := Link(heap.nodes, u.parent, u.edge, minimizedNodes[key]);
        } else {
          heap.nodes := heap.nodes[u.child := heap.nodes[u.child].(str := key)];
          minimizedNodes := minimizedNodes[key := u.child];
        }
        uncheckedNodes := uncheckedNodes[..n];
        n := n - 1;
      }
    }

    /** `insert`; the result tells whether the word was in order, otherwise the error is
        raised and nothing changes. */
    method InsertWord(word: string) returns (inOrder: bool)
      requires InBounds(State())
      modifies this, heap
      ensures inOrder <==> Insert(old(State()), word).Some?
      ensures State() == if inOrder then Insert(old(State()), word).value else old(State())
    {
      if Less(word, previousWord) {
        return false;
      }
      var common := CommonLength(word, previousWord);
      MinimizeDownTo(common);
      ExtendPath(word, common);
      heap.nodes := Mark(heap.nodes,
                         if |uncheckedNodes| == 0 then root else uncheckedNodes[|uncheckedNodes| - 1].child);
      previousWord := word;
      inOrder := true;
    }

    /** The last loop of `insert`: a new node for each character of the rest of the word. */
    method ExtendPath(word: string, common: nat)
      requires InBounds(State()) && common <= |word|
      modifies this, heap
      ensures State() == Extend(old(State()), word, common)
    {
      ghost var m := State();
      var n := if |uncheckedNodes| == 0 then root else uncheckedNodes[|uncheckedNodes| - 1].child;
      var i := common;
      while i < |word|
        invariant common <= i <= |word| && InBounds(State()) && n == Top(State())
        invariant Extend(State(), word, i) == Extend(m, word, common)
      {
        var s := |heap.nodes|;
        heap.nodes := Link(heap.nodes + [EMPTY_NODE], n, word[i], s);
        uncheckedNodes := uncheckedNodes + [Unchecked(n, word[i], s)];
        n := s;
        i := i + 1;
      }
    }

    method FinishWords()
      requires InBounds(State())
      modifies this, heap
      ensures State() == Finish(old(State()))
    {
      MinimizeDownTo(0);
    }
  }

  /** `TokenSet.fromArray`: `None` is the error raised on words out of order. */
  method FromArray(heap: Heap, words: seq<string>) returns (root: Option<nat>)
    modifies heap
    ensures root.Some? <==> Built(Start(old(heap.nodes)), words).Some?
    ensures root.Some? ==> heap.nodes == Built(Start(old(heap.nodes)), words).value.nodes
    ensures root.Some? ==> root.value == Built(Start(old(heap.nodes)), words).value.root
  {
    var builder := new Builder(heap);
    ghost var b0 := builder.State();
    var i := 0;
    assert words[0..] == words;
    while i < |words|
      invariant 0 <= i <= |words| && builder.heap == heap && InBounds(builder.State())
      invariant Built(builder.State(), words[i..]) == Built(b0, words)
    {
      assert words[i..][1..] == words[i + 1..];
      var inOrder := builder.InsertWord(words[i]);
      if !inOrder {
        return None;
      }
      i := i + 1;
    }
    builder.FinishWords();
    root := Some(builder.root);
  }

  /** Words in order never raise the error. */
  lemma NoErrorInOrder(nodes: Arena, words: seq<string>)
    ensures Built(Start(nodes), words).Some? <==> InOrder(words)
  {
    ErrorIffOutOfOrder(Start(nodes), words);
    EmptyFirst(words);
  }

  /** The token set of words in order is acyclic, and it accepts exactly these words if and
      only if the run replaces nodes by interchangeable ones only. */
  lemma TokenSetOfWords(nodes: Arena, words: seq<string>)
    requires Closed(nodes) && InOrder(words)
    ensures var r := Built(Start(nodes), words);
            && r.Some? && Closed(r.value.nodes) && Acyclic(r.value.nodes, r.value.root)
            && ((forall w :: Accepts(r.value.nodes, r.value.root, w) <==> w in words) <==>
                GenuineRun(Start(nodes), words))
  {
    NoErrorInOrder(nodes, words);
    StartValid(nodes);
    hide Sturdy;
    hide GenuineRun;
    hide Built;
    hide Acyclic;
    hide Accepts;
    StartAcyclic(nodes);
    RunAcyclic(Start(nodes), words);
    RightIffGenuine(Start(nodes), {}, words);
    assert {} + Elements(words) == Elements(words);
  }

  lemma EmptyFirst(words: seq<string>)
    ensures InOrder([""] + words) <==> InOrder(words)
  {
    if words == [] {
      assert [""] + words == [""];
    } else {
      InOrderStep("", words);
      assert [words[0]] + words[1..] == words;
    }
  }
}
