/** Runs of the token set builder in which a node is replaced by one it is not
    interchangeable with: they never end with the right words. */
module WrongRuns {
  import opened Options
  import opened TokenSets
  import opened Tries
  import opened Signatures
  import opened Words
  import opened TokenSetBuilder
  import opened TokenSetRuns

  ghost predicate OffPath(b: State, n: nat) {
    n < |b.nodes| && n !in Registered(b) && forall i :: 0 <= i <= |b.unchecked| ==> At(b, i) != n
  }

  /** The node has been replaced wrongly: what is registered under its signature is not
      interchangeable with it.  Its own edges still lead to registered nodes. */
  ghost predicate Orphan(b: State, n: nat) {
    && OffPath(b, n) && (forall c :: c in b.nodes[n].edges ==> b.nodes[n].edges[c] in Registered(b))
    && Signature(b.nodes[n]) in b.minimized
    && b.minimized[Signature(b.nodes[n])] < |b.nodes|
    && !SameState(b.nodes[n], b.nodes[b.minimized[Signature(b.nodes[n])]])
  }

  /** A step that leaves a node off the path as it is, and takes nothing out of the register. */
  ghost predicate Keeps(b: State, b': State, n: nat) {
    && (OffPath(b, n) ==> OffPath(b', n) && b'.nodes[n] == b.nodes[n])
    && (forall key :: key in b.minimized ==> key in b'.minimized && b'.minimized[key] == b.minimized[key])
  }

  lemma KeepsTrans(b: State, b1: State, b2: State, n: nat)
    requires Keeps(b, b1, n) && Keeps(b1, b2, n)
    ensures Keeps(b, b2, n)
  {
    hide OffPath;
  }

  lemma MinimizeTopKeepsNode(b: State, n: nat)
    requires Shape(b) && b.unchecked != []
    ensures Keeps(b, MinimizeTop(b), n)
  {
    hide Signature;
    var b', i := MinimizeTop(b), |b.unchecked| - 1;
    AtRest(b, b');
    assert OnPath(b, i);
    assert At(b, i) == b.unchecked[i].parent && At(b, i + 1) == b.unchecked[i].child;
    if Text(b.nodes[Top(b)]) !in b.minimized {
      RegisteredAdds(b.minimized, Text(b.nodes[Top(b)]), Top(b));
    }
  }

  lemma {:induction false} MinimizeKeepsNode(b: State, downTo: nat, n: nat)
    requires Sturdy(b)
    ensures Keeps(b, Minimize(b, downTo), n)
    decreases |b.unchecked|
  {
    assert InBounds(b);
    if |b.unchecked| > downTo {
      MinimizeTopKeepsNode(b, n);
      MinimizeTopSturdy(b);
      hide Sturdy;
      hide Keeps;
      hide MinimizeTop;
      MinimizeKeepsNode(MinimizeTop(b), downTo, n);
      KeepsTrans(b, MinimizeTop(b), Minimize(b, downTo), n);
    }
  }

  lemma PushKeepsNode(b: State, c: char, n: nat)
    requires InBounds(b)
    ensures Keeps(b, Push(b, c), n)
  {
    PushAt(b, c);
  }

  lemma {:induction false} ExtendKeepsNode(b: State, word: string, i: nat, n: nat)
    requires InBounds(b) && i <= |word|
    ensures Keeps(b, Extend(b, word, i), n)
    decreases |word| - i
  {
    if i < |word| {
      PushKeepsNode(b, word[i], n);
      hide Keeps;
      hide Push;
      ExtendKeepsNode(Push(b, word[i]), word, i + 1, n);
      KeepsTrans(b, Push(b, word[i]), Extend(b, word, i), n);
    }
  }

  lemma MarkKeepsNode(b: State, word: string, n: nat)
    requires InBounds(b)
    ensures Keeps(b, b.(nodes := Mark(b.nodes, Top(b)), previous := word), n)
  {
    var b' := b.(nodes := Mark(b.nodes, Top(b)), previous := word);
    assert forall i :: 0 <= i <= |b.unchecked| ==> At(b', i) == At(b, i);
    assert Top(b) == At(b, |b.unchecked|);
  }

  /** The node is wrongly replaced here, and accepts what it accepts in `h`. */
  ghost predicate Carries(h: Arena, b: State, n: nat) {
    Sturdy(b) && Orphan(b, n) && forall w :: Accepts(b.nodes, n, w) <==> Accepts(h, n, w)
  }

  /** A wrongly replaced node stays one, and keeps its words. */
  lemma StaysOrphan(b: State, b': State, n: nat)
    requires Shape(b) && Orphan(b, n) && Frozen(b, b') && Keeps(b, b', n) && Sturdy(b')
    ensures Carries(b.nodes, b', n)
  {
    OrphanKept(b, b', n);
    hide Sturdy;
    hide Orphan;
    hide Accepts;
  }

  lemma OrphanKept(b: State, b': State, n: nat)
    requires Shape(b) && Orphan(b, n) && Frozen(b, b') && Keeps(b, b', n)
    ensures Orphan(b', n) && forall w :: Accepts(b'.nodes, n, w) <==> Accepts(b.nodes, n, w)
  {
    hide Signature;
    assert ClosedSet(b.nodes, Registered(b));
    var r := b.minimized[Signature(b.nodes[n])];
    assert r in Registered(b);
    hide Shape;
    forall w
      ensures Accepts(b'.nodes, n, w) <==> Accepts(b.nodes, n, w)
    {
      SameWords(b.nodes, b'.nodes, Registered(b) + {n}, n, w);
    }
  }

  lemma CarriesTrans(h: Arena, b: State, b': State, n: nat)
    requires Carries(h, b, n) && Carries(b.nodes, b', n)
    ensures Carries(h, b', n)
  {
    hide Accepts;
    hide Sturdy;
    hide Orphan;
  }

  lemma MinimizeKeepsOrphan(b: State, downTo: nat, n: nat)
    requires Sturdy(b) && Orphan(b, n) && downTo <= |b.unchecked|
    ensures InBounds(b)
    ensures var r := Minimize(b, downTo);
            |r.unchecked| == downTo && r.root == b.root && Carries(b.nodes, r, n)
  {
    assert Shape(b);
    hide Orphan;
    hide Sturdy;
    hide Shape;
    hide Accepts;
    hide Keeps;
    MinimizeSturdy(b, downTo);
    MinimizeKeepsNode(b, downTo, n);
    StaysOrphan(b, Minimize(b, downTo), n);
  }

  /** The node left behind by `minimize` is still wrong once the word is inserted. */
  lemma InsertKeepsNewOrphan(b: State, word: string, m: State, n: nat)
    requires Sturdy(b) && Open(b) && Leq(b.previous, word) && InBounds(b)
    requires m == Minimize(b, CommonPrefix(word, b.previous)) && Orphan(m, n)
    ensures Insert(b, word).Some?
    ensures var b' := Insert(b, word).value;
            InBounds(b') && Open(b') && b'.root == b.root && Carries(m.nodes, b', n)
  {
    hide *;
    var m', x, r := InsertSturdy(b, word);
    var common := CommonPrefix(word, b.previous);
    FirmInBounds(m);
    ExtendKeepsNode(m, word, common, n);
    FirmInBounds(x);
    MarkKeepsNode(x, Spelled(x), n);
    KeepsTrans(m, x, r, n);
    StaysOrphan(m, r, n);
  }

  lemma InsertKeepsOrphan(b: State, word: string, n: nat)
    requires Sturdy(b) && Open(b) && Orphan(b, n) && Leq(b.previous, word)
    ensures Insert(b, word).Some?
    ensures var b' := Insert(b, word).value;
            InBounds(b') && Open(b') && b'.root == b.root && Carries(b.nodes, b', n)
  {
    assert InBounds(b) && |Spelled(b)| == |b.unchecked| && Spelled(b) == b.previous;
    hide *;
    MinimizeKeepsOrphan(b, CommonPrefix(word, b.previous), n);
    var m := Minimize(b, CommonPrefix(word, b.previous));
    CarriedOrphan(b.nodes, m, n);
    InsertKeepsNewOrphan(b, word, m, n);
    CarriesTrans(b.nodes, m, Insert(b, word).value, n);
  }

  lemma CarriedOrphan(h: Arena, b: State, n: nat)
    requires Carries(h, b, n)
    ensures Orphan(b, n) && Sturdy(b)
  {
  }

  lemma FinishKeepsOrphan(b: State, n: nat)
    requires Sturdy(b) && Orphan(b, n)
    ensures InBounds(b)
    ensures var r := Finish(b);
            r.unchecked == [] && r.root == b.root && Carries(b.nodes, r, n)
  {
    MinimizeKeepsOrphan(b, 0, n);
  }

  /** It stays wrong to the end of the run. */
  lemma {:induction false} RunKeepsOrphan(b: State, words: seq<string>, n: nat)
    requires Sturdy(b) && Open(b) && Orphan(b, n) && Built(b, words).Some?
    ensures var r := Built(b, words).value;
            r.unchecked == [] && r.root == b.root && Carries(b.nodes, r, n)
    decreases |words|
  {
    assert InBounds(b);
    if words == [] {
      FinishKeepsOrphan(b, n);
    } else {
      BuiltTail(b, words);
      hide *;
      InsertKeepsOrphan(b, words[0], n);
      var b1 := Insert(b, words[0]).value;
      CarriedOrphan(b.nodes, b1, n);
      RunKeepsOrphan(b1, words[1..], n);
      CarriesTrans(b.nodes, b1, Built(b, words).value, n);
    }
  }

  // ----- The first wrong replacement

  /** The node accepts what ought to follow `s`, and that is something. */
  ghost predicate Continues(h: Arena, n: nat, s: string, words: set<string>) {
    Live(h, n) && forall x :: Accepts(h, n, x) <==> s + x in words
  }

  lemma WrongTop(b: State, words: set<string>)
    requires Valid(b, words) && b.unchecked != [] && !Genuine(b)
    ensures Orphan(MinimizeTop(b), Top(b)) && Sturdy(MinimizeTop(b))
    ensures Continues(MinimizeTop(b).nodes, Top(b), Spelled(b), words)
  {
    hide Accepts;
    var p, c, n, r := TopStep(b);
    assert Text(b.nodes[n]) in b.minimized;
    MergeSturdy(b);
    TopOrphan(b, p, c, n, r);
    TopContinues(b, p, c, n, r, words);
  }

  lemma TopOrphan(b: State, p: nat, c: char, n: nat, r: nat)
    requires Shape(b) && b.unchecked != [] && Step(b, p, c, n, r) && !Genuine(b) && n == Top(b)
    requires p == At(b, |b.unchecked| - 1)
    requires Text(b.nodes[n]) in b.minimized ==> MinimizeTop(b).nodes == Link(b.nodes, p, c, r)
    ensures Orphan(MinimizeTop(b), n)
  {
    hide Signature;
    var i := |b.unchecked| - 1;
    AtRest(b, MinimizeTop(b));
    assert OnPath(b, i) && OnPath(b, i + 1);
    assert At(b, i) != At(b, i + 1);
  }

  lemma TopContinues(b: State, p: nat, c: char, n: nat, r: nat, words: set<string>)
    requires Valid(b, words) && b.unchecked != [] && Step(b, p, c, n, r) && n == Top(b) && p !in Registered(b) && p != n
    requires MinimizeTop(b).nodes == Link(b.nodes, p, c, r)
    ensures Continues(MinimizeTop(b).nodes, n, Spelled(b), words)
  {
    assert Shape(b) && Live(b.nodes, n) && Speaks(b, words);
    assert ClosedSet(b.nodes, Registered(b))
           && forall d :: d in b.nodes[n].edges ==> b.nodes[n].edges[d] in Registered(b);
    hide *;
    hide Link;
    forall x
      ensures Accepts(b.nodes, b.root, Spelled(b) + x) <==> Accepts(b.nodes, n, x)
      ensures Accepts(Link(b.nodes, p, c, r), n, x) <==> Accepts(b.nodes, n, x)
    {
      TopReads(b, x);
      LinkElsewhere(b.nodes, p, c, r, Registered(b), n, x);
    }
    ContinuesFrom(b.nodes, Link(b.nodes, p, c, r), b.root, n, Spelled(b), words);
  }

  lemma TopReads(b: State, x: string)
    requires Shape(b)
    ensures Accepts(b.nodes, b.root, Spelled(b) + x) <==> Accepts(b.nodes, Top(b), x)
  {
    PathRuns(b, |b.unchecked|, x);
    hide Shape;
    assert Spelled(b)[..|b.unchecked|] == Spelled(b);
  }

  lemma LinkElsewhere(h: Arena, p: nat, c: char, r: nat, reg: set<nat>, n: nat, x: string)
    requires ClosedSet(h, reg) && p < |h| && n < |h| && p !in reg && p != n
    requires forall d :: d in h[n].edges ==> h[n].edges[d] in reg
    ensures Accepts(Link(h, p, c, r), n, x) <==> Accepts(h, n, x)
  {
    SameWords(h, Link(h, p, c, r), reg + {n}, n, x);
  }

  lemma ContinuesFrom(h: Arena, h': Arena, root: nat, n: nat, s: string, words: set<string>)
    requires Live(h, n) && forall w :: Accepts(h, root, w) <==> w in words
    requires forall x :: Accepts(h, root, s + x) <==> Accepts(h, n, x)
    requires forall x :: Accepts(h', n, x) <==> Accepts(h, n, x)
    ensures Continues(h', n, s, words)
  {
    hide Accepts;
    var x :| Accepts(h, n, x);
    assert Accepts(h', n, x);
  }

  lemma CarriedOn(h: Arena, b: State, n: nat, s: string, words: set<string>)
    requires Continues(h, n, s, words) && Carries(h, b, n)
    ensures Continues(b.nodes, n, s, words) && Orphan(b, n) && Sturdy(b)
  {
    hide Accepts;
    var x :| Accepts(h, n, x);
    assert Accepts(b.nodes, n, x);
  }

  lemma {:induction false} FirstWrong(b: State, words: set<string>, downTo: nat) returns (n: nat, s: string)
    requires Valid(b, words) && !GenuineTo(b, downTo)
    ensures InBounds(b) && downTo < |s| && s <= Spelled(b)
    ensures Orphan(Minimize(b, downTo), n) && Continues(Minimize(b, downTo).nodes, n, s, words)
    decreases |b.unchecked|
  {
    assert InBounds(b);
    assert |b.unchecked| > downTo && Minimize(b, downTo) == Minimize(MinimizeTop(b), downTo);
    if !Genuine(b) {
      n, s := Top(b), Spelled(b);
      WrongTop(b, words);
      hide *;
      MinimizeKeepsOrphan(MinimizeTop(b), downTo, n);
      CarriedOn(MinimizeTop(b).nodes, Minimize(b, downTo), n, s, words);
    } else {
      MinimizeTopKeeps(b, words);
      assert Spelled(MinimizeTop(b)) <= Spelled(b);
      hide *;
      n, s := FirstWrong(MinimizeTop(b), words, downTo);
    }
  }

  // ----- No later word can set it right

  lemma {:induction false} LessByFirstDifference(a: string, b: string, k: nat)
    requires k < |a| && k < |b| && a[..k] == b[..k] && a[k] < b[k]
    ensures Less(a, b)
    decreases k
  {
    if k > 0 {
      assert a[0] == a[..k][0] == b[..k][0] == b[0];
      assert a[1..][..k - 1] == a[..k][1..] == b[..k][1..] == b[1..][..k - 1];
      LessByFirstDifference(a[1..], b[1..], k - 1);
    }
  }

  /** Words in order that have left a prefix do not come back to it. */
  lemma PrefixLeft(previous: string, words: seq<string>, s: string, x: string)
    requires words != [] && InOrder([previous] + words) && s <= previous && CommonPrefix(words[0], previous) < |s|
    ensures s + x !in Elements(words)
  {
    var all := [previous] + words;
    var k := CommonPrefix(words[0], previous);
    CommonSymmetric(words[0], previous);
    assert Leq(all[0], all[1]);
    PartsBelow(previous, words[0]);
    assert previous[k] < words[0][k];
    assert InOrder(words) by {
      InOrderStep(previous, words);
      assert [words[0]] + words[1..] == words;
    }
    SamePrefixes(s, x, previous, k);
    LessByFirstDifference(s + x, words[0], k);
    hide Less;
    hide InOrder;
    if s + x in Elements(words) {
      var i := PlaceOf(words, s + x);
      LeqAll(words, i);
    }
  }

  lemma PlaceOf(words: seq<string>, w: string) returns (i: nat)
    requires w in Elements(words)
    ensures i < |words| && words[i] == w
  {
    i :| 0 <= i < |words| && words[i] == w;
  }

  lemma SamePrefixes(s: string, x: string, t: string, k: nat)
    requires s <= t && k < |s|
    ensures (s + x)[..k] == t[..k] && (s + x)[k] == t[k]
  {
  }

  // ----- When a run is right

  /** A finished run has left an orphan that knows what ought to follow `s`. */
  ghost predicate LeftWrong(r: State, n: nat, s: string, words: set<string>) {
    Sturdy(r) && r.unchecked == [] && s != [] && Orphan(r, n) && Continues(r.nodes, n, s, words)
  }

  /** A run that replaces a node wrongly leaves an orphan that knows what ought to follow
      some word. */
  lemma {:induction false} WrongRunOrphan(b: State, before: set<string>, words: seq<string>) returns (n: nat, s: string)
    requires Valid(b, before) && Open(b) && Built(b, words).Some? && !GenuineRun(b, words)
    ensures Built(b, words).value.root == b.root && LeftWrong(Built(b, words).value, n, s, before + Elements(words))
    decreases |words|
  {
    assert InBounds(b);
    hide LeftWrong;
    if words == [] {
      hide Sturdy;
      n, s := WrongFinish(b, before);
      assert before + Elements(words) == before;
    } else {
      assert InBounds(b);
      hide Insert;
      BuiltTail(b, words);
      if GenuineInsert(b, words[0]) {
        InsertCorrect(b, before, words[0]);
        hide *;
        n, s := WrongRunOrphan(Insert(b, words[0]).value, before + {words[0]}, words[1..]);
        ElementsStep(before, words);
      } else {
        n, s := WrongInsertOrphan(b, before, words);
      }
    }
  }

  lemma WrongFinish(b: State, before: set<string>) returns (n: nat, s: string)
    requires Valid(b, before) && !GenuineTo(b, 0)
    ensures InBounds(b) && Finish(b).root == b.root && LeftWrong(Finish(b), n, s, before)
  {
    hide Sturdy;
    hide Orphan;
    hide Continues;
    n, s := FirstWrong(b, before, 0);
    MinimizeSturdy(b, 0);
  }

  lemma WrongInsertOrphan(b: State, before: set<string>, words: seq<string>) returns (n: nat, s: string)
    requires Valid(b, before) && Open(b) && words != [] && Built(b, words).Some? && !GenuineInsert(b, words[0])
    ensures Built(b, words).value.root == b.root && LeftWrong(Built(b, words).value, n, s, before + Elements(words))
  {
    assert InBounds(b) && Spelled(b) == b.previous && Sturdy(b);
    var common := CommonPrefix(words[0], b.previous);
    var m := Minimize(b, common);
    n, s := FirstWrong(b, before, common);
    BuiltTail(b, words);
    ErrorIffOutOfOrder(b, words);
    hide *;
    InsertKeepsNewOrphan(b, words[0], m, n);
    var b1 := Insert(b, words[0]).value;
    CarriedOrphan(m.nodes, b1, n);
    RunKeepsOrphan(b1, words[1..], n);
    CarriesTrans(m.nodes, b1, Built(b, words).value, n);
    CarriedOn(m.nodes, Built(b, words).value, n, s, before);
    forall x
      ensures s + x !in Elements(words)
    {
      PrefixLeft(b.previous, words, s, x);
    }
    ContinuesMore(Built(b, words).value.nodes, n, s, before, Elements(words));
  }

  lemma ContinuesMore(h: Arena, n: nat, s: string, words: set<string>, more: set<string>)
    requires Continues(h, n, s, words) && forall x :: s + x !in more
    ensures Continues(h, n, s, words + more)
  {
  }

  /** No registered node accepts what the orphan accepts. */
  lemma OrphanDiffers(b: State, n: nat, m: nat)
    requires Firm(b) && Orphan(b, n) && m in Registered(b)
    ensures Differ(b.nodes, n, m)
  {
    hide Signature;
    hide Minimal;
    hide Differ;
    hide OnPath;
    var key :| key in b.minimized && b.minimized[key] == m;
    assert key == Signature(b.nodes[m]);
    if SameState(b.nodes[n], b.nodes[m]) {
      SameSignature(b.nodes[n], b.nodes[m]);
    }
    StatesDiffer(b.nodes, Registered(b), n, m);
  }

  lemma SameSignature(a: Node, b: Node)
    requires SameState(a, b)
    ensures Signature(a) == Signature(b)
  {
  }

  /** With an orphan left, the finished automaton does not accept exactly the words. */
  lemma OrphanMeansWrong(r: State, n: nat, s: string, words: set<string>)
    requires LeftWrong(r, n, s, words)
    ensures !Speaks(r, words)
  {
    if Speaks(r, words) {
      var m := ReachedBy(r.nodes, r.root, n, s, words);
      assert m in Registered(r) by {
        ReachableIsRegistered(r, s, m);
      }
      OrphanDiffers(r, n, m);
      hide Sturdy;
      hide Orphan;
      SameAfter(r.nodes, r.root, n, m, s, words);
    }
  }

  lemma ReachedBy(h: Arena, root: nat, n: nat, s: string, words: set<string>) returns (m: nat)
    requires Continues(h, n, s, words) && forall w :: Accepts(h, root, w) <==> w in words
    ensures Run(h, root, s) == Some(m)
  {
    var x :| Accepts(h, n, x);
    assert Accepts(h, root, s + x);
    RunConcat(h, root, s, x);
    m := Run(h, root, s).value;
  }

  lemma SameAfter(h: Arena, root: nat, n: nat, m: nat, s: string, words: set<string>)
    requires Continues(h, n, s, words) && forall w :: Accepts(h, root, w) <==> w in words
    requires Run(h, root, s) == Some(m)
    ensures !Differ(h, n, m)
  {
    forall w
      ensures Accepts(h, n, w) == Accepts(h, m, w)
    {
      RunConcat(h, root, s, w);
    }
  }

  /** The finished automaton accepts exactly the words inserted if and only if every node
      replaced during the run was interchangeable with the one put in its place. */
  lemma RightIffGenuine(b: State, before: set<string>, words: seq<string>)
    requires Valid(b, before) && Open(b) && Built(b, words).Some?
    ensures Speaks(Built(b, words).value, before + Elements(words)) <==> GenuineRun(b, words)
  {
    if GenuineRun(b, words) {
      RunCorrect(b, before, words);
    } else {
      hide *;
      var n, s := WrongRunOrphan(b, before, words);
      OrphanMeansWrong(Built(b, words).value, n, s, before + Elements(words));
    }
  }
}
