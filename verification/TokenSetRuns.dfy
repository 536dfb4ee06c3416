/** Whole runs of the token set builder. */
module TokenSetRuns {
  import opened Decimals
  import opened Options
  import opened TokenSets
  import opened Tries
  import opened Signatures
  import opened Words
  import opened TokenSetBuilder

  function Elements(words: seq<string>): set<string> {
    set w | w in words
  }

  /** `insert` of each word, then `finish`. */
  function Built(b: State, words: seq<string>): (r: Option<State>)
    requires InBounds(b)
    decreases |words|
  {
    if words == [] then Some(Finish(b))
    else match Insert(b, words[0])
      case None => None
      case Some(b') => Built(b', words[1..])
  }

  /** Every node replaced during the run is replaced by an interchangeable one. */
  predicate GenuineRun(b: State, words: seq<string>)
    requires InBounds(b)
    decreases |words|
  {
    if words == [] then GenuineTo(b, 0)
    else
      && GenuineInsert(b, words[0])
      && (Insert(b, words[0]).Some? ==> GenuineRun(Insert(b, words[0]).value, words[1..]))
  }

  lemma StartValid(nodes: Arena)
    requires Closed(nodes)
    ensures Valid(Start(nodes), {}) && Open(Start(nodes))
  {
    var b := Start(nodes);
    assert Shape(b) by {
      assert OnPath(b, 0);
    }
    forall w
      ensures !Accepts(b.nodes, b.root, w)
    {
    }
  }

  /** The error is raised exactly on words out of order. */
  lemma {:induction false} ErrorIffOutOfOrder(b: State, words: seq<string>)
    requires InBounds(b)
    ensures Built(b, words).Some? <==> InOrder([b.previous] + words)
    decreases |words|
  {
    hide Insert;
    hide InOrder;
    if words == [] {
      InOrderOne(b.previous);
      assert [b.previous] + words == [b.previous];
    } else {
      InOrderStep(b.previous, words);
      InsertsIffInOrder(b, words[0]);
      if Insert(b, words[0]).Some? {
        ErrorIffOutOfOrder(Insert(b, words[0]).value, words[1..]);
      }
    }
  }

  lemma InsertsIffInOrder(b: State, word: string)
    requires InBounds(b)
    ensures Insert(b, word).Some? <==> Leq(b.previous, word)
    ensures Insert(b, word).Some? ==> Insert(b, word).value.previous == word
  {
  }

  /** The finished automaton accepts the words inserted and no others, and nothing is left unchecked. */
  lemma {:induction false} RunCorrect(b: State, before: set<string>, words: seq<string>)
    requires Valid(b, before) && Open(b) && GenuineRun(b, words)
    ensures Built(b, words).Some? ==>
              && Valid(Built(b, words).value, before + Elements(words))
              && Built(b, words).value.unchecked == []
              && Built(b, words).value.root == b.root
    decreases |words|
  {
    assert InBounds(b);
    hide Insert;
    hide Valid;
    hide Open;
    hide GenuineInsert;
    if words == [] {
      MinimizeKeeps(b, before, 0);
      assert before + Elements(words) == before;
      hide Minimize;
    } else {
      hide Elements;
      InsertCorrect(b, before, words[0]);
      if Insert(b, words[0]).Some? {
        RunCorrect(Insert(b, words[0]).value, before + {words[0]}, words[1..]);
        ElementsStep(before, words);
      }
    }
  }

  // ----- When a run keeps its words

  /** No check of a node down to this depth changes the accepted words. */
  ghost predicate ChecksKeepWords(b: State, downTo: nat)
    requires InBounds(b)
    decreases |b.unchecked|
  {
    |b.unchecked| <= downTo || (CheckKeepsWords(b) && ChecksKeepWords(MinimizeTop(b), downTo))
  }

  ghost predicate CheckKeepsWords(b: State)
    requires InBounds(b) && b.unchecked != []
  {
    forall w :: Accepts(MinimizeTop(b).nodes, b.root, w) <==> Accepts(b.nodes, b.root, w)
  }

  /** Throughout the run no check of a node changes the accepted words. */
  ghost predicate RunKeepsWords(b: State, words: seq<string>)
    requires InBounds(b)
    decreases |words|
  {
    if words == [] then ChecksKeepWords(b, 0)
    else
      && ChecksKeepWords(b, CommonPrefix(words[0], b.previous))
      && (Insert(b, words[0]).Some? ==> RunKeepsWords(Insert(b, words[0]).value, words[1..]))
  }

  lemma CheckKeepsIffGenuine(b: State, words: set<string>)
    requires Valid(b, words) && b.unchecked != []
    ensures CheckKeepsWords(b) <==> Genuine(b)
  {
    assert InBounds(b);
    hide Valid;
    hide Accepts;
    hide Genuine;
    hide MinimizeTop;
    WordsKeptIffGenuine(b, words);
  }

  lemma {:induction false} ChecksKeepIffGenuine(b: State, words: set<string>, downTo: nat)
    requires Valid(b, words)
    ensures ChecksKeepWords(b, downTo) <==> GenuineTo(b, downTo)
    decreases |b.unchecked|
  {
    assert InBounds(b);
    hide Sound;
    hide MinimizeTop;
    hide Genuine;
    hide Accepts;
    if |b.unchecked| > downTo {
      CheckKeepsIffGenuine(b, words);
      hide CheckKeepsWords;
      if Genuine(b) {
        MinimizeTopKeeps(b, words);
        hide Valid;
        ChecksKeepIffGenuine(MinimizeTop(b), words, downTo);
      }
    }
  }

  /** A run never changes the accepted words by checking a node if and only if every node
      it replaces is interchangeable with the registered one. */
  lemma {:induction false} RunKeepsWordsIffGenuine(b: State, before: set<string>, words: seq<string>)
    requires Valid(b, before) && Open(b)
    ensures RunKeepsWords(b, words) <==> GenuineRun(b, words)
    decreases |words|
  {
    assert InBounds(b);
    hide Insert;
    hide Genuine;
    hide Valid;
    hide Open;
    if words == [] {
      ChecksKeepIffGenuine(b, before, 0);
    } else {
      ChecksKeepIffGenuine(b, before, CommonPrefix(words[0], b.previous));
      if GenuineInsert(b, words[0]) {
        InsertCorrect(b, before, words[0]);
        if Insert(b, words[0]).Some? {
          RunKeepsWordsIffGenuine(Insert(b, words[0]).value, before + {words[0]}, words[1..]);
        }
      }
    }
  }

  lemma ElementsStep(before: set<string>, words: seq<string>)
    requires words != []
    ensures before + {words[0]} + Elements(words[1..]) == before + Elements(words)
  {
  }

  lemma InOrderOne(word: string)
    ensures InOrder([word])
  {
  }

  lemma InOrderStep(first: string, words: seq<string>)
    requires words != []
    ensures InOrder([first] + words) <==> Leq(first, words[0]) && InOrder([words[0]] + words[1..])
  {
    var all := [first] + words;
    assert [words[0]] + words[1..] == words;
    if InOrder(all) {
      assert Leq(all[0], all[1]);
      forall i | 0 <= i < |words| - 1
        ensures Leq(words[i], words[i + 1])
      {
        assert all[i + 1] == words[i] && all[i + 2] == words[i + 1];
      }
    }
    if Leq(first, words[0]) && InOrder(words) {
      forall i | 0 <= i < |all| - 1
        ensures Leq(all[i], all[i + 1])
      {
        assert i > 0 ==> all[i] == words[i - 1] && all[i + 1] == words[i];
      }
    }
  }

  // ----- The finished automaton

  lemma {:induction false} StaysRegistered(b: State, n: nat, w: string)
    requires Shape(b) && n in Registered(b) && Run(b.nodes, n, w).Some?
    ensures Run(b.nodes, n, w).value in Registered(b)
  {
    SameWords(b.nodes, b.nodes, Registered(b), n, w);
  }

  lemma ReachableIsRegistered(b: State, u: string, n: nat)
    requires Shape(b) && b.unchecked == [] && u != [] && Run(b.nodes, b.root, u) == Some(n)
    ensures n in Registered(b)
  {
    assert OnPath(b, 0);
    StaysRegistered(b, b.nodes[b.root].edges[u[0]], u[1..]);
  }

  // ----- No cycles, whatever is replaced

  ghost predicate RegisteredAcyclic(b: State) {
    forall n :: n in Registered(b) ==> Acyclic(b.nodes, n)
  }

  lemma {:induction false} WithinKept(h: Arena, h': Arena, reg: set<nat>, n: nat, k: nat)
    requires ClosedSet(h, reg) && n in reg && Within(h, n, k)
    requires forall m :: m in reg ==> m < |h'| && h'[m] == h[m]
    ensures Within(h', n, k)
    decreases k
  {
    forall c | c in h[n].edges
      ensures k > 0 && Within(h', h[n].edges[c], k - 1)
    {
      WithinKept(h, h', reg, h[n].edges[c], k - 1);
    }
  }

  lemma {:induction false} WithinMore(h: Arena, n: nat, k: nat, more: nat)
    requires Within(h, n, k) && k <= more
    ensures Within(h, n, more)
    decreases k
  {
    forall c | c in h[n].edges
      ensures more > 0 && Within(h, h[n].edges[c], more - 1)
    {
      WithinMore(h, h[n].edges[c], k - 1, more - 1);
    }
  }

  lemma {:induction false} DeepestOf(h: Arena, nodes: set<nat>) returns (k: nat)
    requires forall n :: n in nodes ==> Acyclic(h, n)
    ensures forall n :: n in nodes ==> Within(h, n, k)
    decreases |nodes|
  {
    if nodes == {} {
      k := 0;
    } else {
      var n :| n in nodes;
      var rest := DeepestOf(h, nodes - {n});
      var own: nat :| Within(h, n, own);
      k := if own > rest then own else rest;
      forall m | m in nodes
        ensures Within(h, m, k)
      {
        WithinMore(h, m, if m == n then own else rest, k);
      }
    }
  }

  /** A node whose edges lead to acyclic nodes is acyclic. */
  lemma AcyclicAbove(h: Arena, nodes: set<nat>, n: nat)
    requires n < |h| && forall c :: c in h[n].edges ==> h[n].edges[c] in nodes
    requires forall m :: m in nodes ==> Acyclic(h, m)
    ensures Acyclic(h, n)
  {
    var k := DeepestOf(h, nodes);
    assert Within(h, n, k + 1);
  }

  lemma FrozenAcyclic(b: State, b': State)
    requires Shape(b) && Frozen(b, b') && RegisteredAcyclic(b)
    ensures forall n :: n in Registered(b) ==> Acyclic(b'.nodes, n)
  {
    assert ClosedSet(b.nodes, Registered(b));
    hide Shape;
    forall n | n in Registered(b)
      ensures Acyclic(b'.nodes, n)
    {
      var k: nat :| Within(b.nodes, n, k);
      WithinKept(b.nodes, b'.nodes, Registered(b), n, k);
    }
  }

  lemma MinimizeTopAcyclic(b: State)
    requires Sturdy(b) && b.unchecked != [] && RegisteredAcyclic(b)
    ensures RegisteredAcyclic(MinimizeTop(b))
  {
    hide Signature;
    hide Acyclic;
    MinimizeTopSturdy(b);
    FrozenAcyclic(b, MinimizeTop(b));
    var p, c, n, r := TopStep(b);
    if Text(b.nodes[n]) !in b.minimized {
      RegisterShape(b);
      AcyclicAbove(MinimizeTop(b).nodes, Registered(b), n);
    }
  }

  lemma {:induction false} MinimizeAcyclic(b: State, downTo: nat)
    requires Sturdy(b) && RegisteredAcyclic(b)
    ensures RegisteredAcyclic(Minimize(b, downTo))
    decreases |b.unchecked|
  {
    assert InBounds(b);
    if |b.unchecked| > downTo {
      MinimizeTopAcyclic(b);
      MinimizeTopSturdy(b);
      hide Sturdy;
      hide RegisteredAcyclic;
      MinimizeAcyclic(MinimizeTop(b), downTo);
    }
  }

  lemma {:induction false} ExtendRegister(b: State, word: string, i: nat)
    requires InBounds(b) && i <= |word|
    ensures Extend(b, word, i).minimized == b.minimized
    decreases |word| - i
  {
    if i < |word| {
      ExtendRegister(Push(b, word[i]), word, i + 1);
    }
  }

  lemma InsertAcyclic(b: State, word: string)
    requires Sturdy(b) && Open(b) && Leq(b.previous, word) && RegisteredAcyclic(b)
    ensures Insert(b, word).Some?
    ensures var r := Insert(b, word).value;
            InBounds(r) && Sturdy(r) && Open(r) && r.root == b.root && RegisteredAcyclic(r)
  {
    MinimizeAcyclic(b, CommonPrefix(word, b.previous));
    hide *;
    var m, x, r := InsertSturdy(b, word);
    FirmInBounds(m);
    ExtendRegister(m, word, CommonPrefix(word, b.previous));
    FrozenAcyclic(m, r);
    SameRegister(m, r);
  }

  lemma FirmInBounds(b: State)
    requires Firm(b)
    ensures InBounds(b) && Shape(b)
  {
  }

  lemma SameRegister(b: State, b': State)
    requires b'.minimized == b.minimized && forall n :: n in Registered(b) ==> Acyclic(b'.nodes, n)
    ensures RegisteredAcyclic(b')
  {
  }

  lemma RootAcyclic(b: State)
    requires Sturdy(b) && RegisteredAcyclic(b) && b.unchecked == []
    ensures Acyclic(b.nodes, b.root) && Closed(b.nodes)
  {
    assert OnPath(b, 0);
    hide Acyclic;
    AcyclicAbove(b.nodes, Registered(b), b.root);
  }

  /** Any run ends with the path and the register in shape and nothing left unchecked,
      whether or not it is genuine. */
  lemma {:induction false} RunFinishes(b: State, words: seq<string>)
    requires Sturdy(b) && Open(b) && RegisteredAcyclic(b) && Built(b, words).Some?
    ensures var r := Built(b, words).value;
            Sturdy(r) && RegisteredAcyclic(r) && r.unchecked == [] && r.root == b.root
    decreases |words|
  {
    assert InBounds(b);
    if words == [] {
      hide Sturdy;
      hide RegisteredAcyclic;
      MinimizeAcyclic(b, 0);
      MinimizeSturdy(b, 0);
    } else {
      BuiltTail(b, words);
      hide *;
      InsertAcyclic(b, words[0]);
      RunFinishes(Insert(b, words[0]).value, words[1..]);
    }
  }

  /** The automaton of any run is closed and acyclic. */
  lemma RunAcyclic(b: State, words: seq<string>)
    requires Sturdy(b) && Open(b) && RegisteredAcyclic(b) && Built(b, words).Some?
    ensures Closed(Built(b, words).value.nodes) && Acyclic(Built(b, words).value.nodes, Built(b, words).value.root)
  {
    RunFinishes(b, words);
    hide *;
    RootAcyclic(Built(b, words).value);
  }

  lemma StartAcyclic(nodes: Arena)
    ensures RegisteredAcyclic(Start(nodes))
  {
  }

  lemma BuiltTail(b: State, words: seq<string>)
    requires InBounds(b) && words != [] && Built(b, words).Some?
    ensures Insert(b, words[0]).Some? && Leq(b.previous, words[0])
    ensures Built(b, words) == Built(Insert(b, words[0]).value, words[1..])
  {
    InsertsIffInOrder(b, words[0]);
  }

  // ----- Minimality, whatever is replaced

  lemma {:induction false} AcceptedWithin(h: Arena, n: nat, k: nat, w: string)
    requires Within(h, n, k) && Accepts(h, n, w)
    ensures |w| <= k
    decreases k
  {
    if w != [] {
      AcceptedWithin(h, h[n].edges[w[0]], k - 1, w[1..]);
    }
  }

  /** If a node accepts the same words as one below it, it accepts longer and longer words. */
  lemma {:induction false} LongerAndLonger(h: Arena, root: nat, v: string, m: nat, x: string, k: nat)
    returns (y: string)
    requires !Differ(h, root, m) && v != [] && Run(h, root, v) == Some(m) && Accepts(h, root, x)
    ensures Accepts(h, root, y) && |y| >= k
    decreases k
  {
    if k == 0 {
      y := x;
    } else {
      var shorter := LongerAndLonger(h, root, v, m, x, k - 1);
      assert Accepts(h, m, shorter);
      RunConcat(h, root, v, shorter);
      y := v + shorter;
    }
  }

  lemma AboveDiffers(h: Arena, root: nat, v: string, m: nat)
    requires Acyclic(h, root) && v != [] && Run(h, root, v) == Some(m) && Live(h, m)
    ensures Differ(h, root, m) && Differ(h, m, root)
  {
    if !Differ(h, root, m) {
      var x :| Accepts(h, m, x);
      var k: nat :| Within(h, root, k);
      var y := LongerAndLonger(h, root, v, m, x, k + 1);
      AcceptedWithin(h, root, k, y);
    }
  }

  lemma RootDiffers(b: State, v: string, m: nat)
    requires Sturdy(b) && RegisteredAcyclic(b) && b.unchecked == [] && v != [] && Run(b.nodes, b.root, v) == Some(m)
    ensures Differ(b.nodes, b.root, m) && Differ(b.nodes, m, b.root)
  {
    RootAcyclic(b);
    ReachableIsRegistered(b, v, m);
    LiveIn(b.nodes, Registered(b), m);
    hide *;
    AboveDiffers(b.nodes, b.root, v, m);
  }

  /** A finished automaton is minimal, whatever words it accepts: two different nodes that
      words lead to accept different words. */
  lemma FinishedIsMinimal(b: State, u: string, n: nat, v: string, m: nat)
    requires Sturdy(b) && RegisteredAcyclic(b) && b.unchecked == []
    requires Run(b.nodes, b.root, u) == Some(n) && Run(b.nodes, b.root, v) == Some(m) && n != m
    ensures Differ(b.nodes, n, m)
  {
    hide Signature;
    if u != [] && v != [] {
      ReachableIsRegistered(b, u, n);
      ReachableIsRegistered(b, v, m);
    } else if u == [] {
      RootDiffers(b, v, m);
    } else {
      RootDiffers(b, u, n);
    }
  }

  /** The automaton of any words in order is minimal. */
  lemma TokenSetIsMinimal(nodes: Arena, words: seq<string>, u: string, n: nat, v: string, m: nat)
    requires Closed(nodes) && Built(Start(nodes), words).Some?
    requires var r := Built(Start(nodes), words).value;
             Run(r.nodes, r.root, u) == Some(n) && Run(r.nodes, r.root, v) == Some(m) && n != m
    ensures Differ(Built(Start(nodes), words).value.nodes, n, m)
  {
    StartValid(nodes);
    StartAcyclic(nodes);
    hide *;
    RunFinishes(Start(nodes), words);
    FinishedIsMinimal(Built(Start(nodes), words).value, u, n, v, m);
  }

  // ----- Words without digits

  ghost predicate DigitFreeNodes(b: State)
    requires InBounds(b)
  {
    && (forall n :: n in Registered(b) && n < |b.nodes| ==> DigitFree(b.nodes[n]))
    && (forall i :: 0 <= i <= |b.unchecked| ==> DigitFree(b.nodes[At(b, i)]))
  }

  predicate DigitFreeWord(w: string) {
    forall i :: 0 <= i < |w| ==> !IsDigit(w[i])
  }

  lemma GenuineIfDigitFree(b: State)
    requires Shape(b) && b.unchecked != [] && DigitFreeNodes(b)
    ensures Genuine(b) && DigitFreeNodes(MinimizeTop(b))
  {
    hide EdgeText;
    hide SortedLabels;
    hide Spelled;
    hide OnPath;
    hide ClosedSet;
    var p, c, n, r := TopStep(b);
    assert DigitFree(b.nodes[At(b, |b.unchecked|)]);
    if Text(b.nodes[n]) in b.minimized {
      assert Signature(b.nodes[r]) == Signature(b.nodes[n]);
      SignatureInjective(b.nodes[n], b.nodes[r]);
    }
    hide Signature;
    AtRest(b, MinimizeTop(b));
    MinimizeTopLabels(b);
    if Text(b.nodes[n]) !in b.minimized {
      RegisterShape(b);
    }
  }

  lemma {:induction false} MinimizeDigitFree(b: State, words: set<string>, downTo: nat)
    requires Valid(b, words) && DigitFreeNodes(b)
    ensures GenuineTo(b, downTo) && DigitFreeNodes(Minimize(b, downTo))
    decreases |b.unchecked|
  {
    if |b.unchecked| > downTo {
      GenuineIfDigitFree(b);
      MinimizeTopKeeps(b, words);
      hide Valid;
      hide DigitFreeNodes;
      MinimizeDigitFree(MinimizeTop(b), words, downTo);
    }
  }

  lemma {:induction false} ExtendDigitFree(b: State, word: string, i: nat)
    requires InBounds(b) && i <= |word| && DigitFreeWord(word) && DigitFreeNodes(b)
    requires forall n :: n in Registered(b) ==> n < |b.nodes|
    ensures DigitFreeNodes(Extend(b, word, i)) && Extend(b, word, i).minimized == b.minimized
    ensures |b.nodes| <= |Extend(b, word, i).nodes|
    decreases |word| - i
  {
    if i < |word| {
      var b1 := Push(b, word[i]);
      PushAt(b, word[i]);
      forall j | 0 <= j <= |b1.unchecked|
        ensures DigitFree(b1.nodes[At(b1, j)])
      {
        if j <= |b.unchecked| {
          assert DigitFree(b.nodes[At(b, j)]);
        }
      }
      assert b1.minimized == b.minimized && |b1.nodes| == |b.nodes| + 1;
      assert Registered(b1) == Registered(b);
      hide Extend;
      ExtendDigitFree(b1, word, i + 1);
    }
  }

  lemma InsertDigitFree(b: State, words: set<string>, word: string)
    requires Valid(b, words) && Open(b) && DigitFreeNodes(b) && DigitFreeWord(word)
    ensures GenuineInsert(b, word)
    ensures Insert(b, word).Some? ==> DigitFreeNodes(Insert(b, word).value)
  {
    var common := CommonPrefix(word, b.previous);
    MinimizeDigitFree(b, words, common);
    MinimizeKeeps(b, words, common);
    var m := Minimize(b, common);
    assert forall n :: n in Registered(m) ==> n < |m.nodes|;
    ExtendDigitFree(m, word, common);
    if Insert(b, word).Some? {
      MarkDigitFree(Extend(m, word, common), word);
    }
  }

  lemma MarkDigitFree(x: State, word: string)
    requires InBounds(x) && DigitFreeNodes(x)
    ensures DigitFreeNodes(x.(nodes := Mark(x.nodes, Top(x)), previous := word))
  {
    var r := x.(nodes := Mark(x.nodes, Top(x)), previous := word);
    assert forall i :: 0 <= i <= |x.unchecked| ==> At(r, i) == At(x, i) && DigitFree(x.nodes[At(x, i)]);
  }

  /** Without digits in the words, every replacement is genuine. */
  lemma {:induction false} DigitFreeRun(b: State, before: set<string>, words: seq<string>)
    requires Valid(b, before) && Open(b) && DigitFreeNodes(b)
    requires forall i :: 0 <= i < |words| ==> DigitFreeWord(words[i])
    ensures GenuineRun(b, words)
    decreases |words|
  {
    hide Insert;
    hide DigitFreeNodes;
    if words == [] {
      MinimizeDigitFree(b, before, 0);
    } else {
      InsertDigitFree(b, before, words[0]);
      InsertCorrect(b, before, words[0]);
      if Insert(b, words[0]).Some? {
        DigitFreeRun(Insert(b, words[0]).value, before + {words[0]}, words[1..]);
      }
    }
  }

  lemma DigitFreeIsGenuine(nodes: Arena, words: seq<string>)
    requires Closed(nodes) && forall i :: 0 <= i < |words| ==> DigitFreeWord(words[i])
    ensures GenuineRun(Start(nodes), words)
  {
    StartValid(nodes);
    DigitFreeRun(Start(nodes), {}, words);
  }
}
