/** Words with digits can break the token set: signatures join labels and node numbers
    without a separator, so nodes that differ may be taken for one another. */
module DigitLabels {
  import opened Decimals
  import opened Options
  import opened TokenSets
  import opened Tries
  import opened Signatures
  import opened Words
  import opened TokenSetBuilder
  import opened TokenSetRuns

  /** The words of `n` single letters from `c` on. */
  function Letters(c: char, n: nat): seq<string>
    requires c as int + n <= 'z' as int
    decreases n
  {
    if n == 0 then [] else [[c]] + Letters((c as int + 1) as char, n - 1)
  }

  /** Sixteen words in order.  Below "a" hang the words 00 and 12, below "g" the words 03
      and 1, but the nodes there come to have the same signature. */
  function BreakingWords(): seq<string> {
    ["00"] + (Letters('1', 6) + (["a00"] + (["a12"] + (Letters('b', 5) + (["g03"] + ["g1"])))))
  }

  // ----- Signatures of small nodes

  const LEAF := Node(true, map[], "")

  lemma LeafText()
    ensures Text(LEAF) == "1"
  {
    SortedOnce(SortedLabels({}), []);
    assert LEAF.edges.Keys == {};
  }

  lemma OneEdgeText(c: char, t: nat)
    ensures Text(Node(false, map[c := t], "")) == "0" + [c] + Decimal(Id(t))
  {
    hide SortedLabels;
    var n := Node(false, map[c := t], "");
    assert n.edges.Keys == {c};
    SortedOnce(SortedLabels({c}), [c]);
    assert EdgeText([c], n.edges) == [c] + Decimal(Id(t)) + EdgeText([], n.edges);
  }

  lemma TwoEdgesText(c: char, t: nat, d: char, u: nat)
    requires c < d
    ensures Text(Node(false, map[c := t, d := u], "")) == "0" + ([c] + Decimal(Id(t)) + ([d] + Decimal(Id(u))))
  {
    hide *;
    hide Decimal;
    var edges := map[c := t, d := u];
    TwoLabels(c, d, edges);
    TwoEdges(c, d, edges);
    TextOf(edges, [c, d]);
  }

  lemma TwoLabels(c: char, d: char, edges: map<char, nat>)
    requires c < d && edges.Keys == {c, d}
    ensures SortedLabels(edges.Keys) == [c, d]
  {
    hide SortedLabels;
    SortedOnce(SortedLabels({c, d}), [c, d]);
  }

  lemma TwoEdges(c: char, d: char, edges: map<char, nat>)
    requires edges.Keys == {c, d}
    ensures EdgeText([c, d], edges) == [c] + Decimal(Id(edges[c])) + ([d] + Decimal(Id(edges[d])))
  {
    hide Decimal;
    assert [c, d][1..] == [d] && [d][1..] == [];
    assert EdgeText([d], edges) == [d] + Decimal(Id(edges[d])) + EdgeText([], edges);
  }

  lemma TextOf(edges: map<char, nat>, labels: seq<char>)
    requires SortedLabels(edges.Keys) == labels
    ensures Text(Node(false, edges, "")) == "0" + EdgeText(labels, edges)
  {
    hide SortedLabels;
    hide EdgeText;
  }

  /** The two nodes that are taken for one another. */
  lemma SameTexts()
    ensures Text(Node(false, map['0' := 1, '1' := 12], "")) == "002113"
    ensures Text(Node(false, map['0' := 20, '1' := 2], "")) == "002113"
  {
    hide Text;
    TwoEdgesText('0', 1, '1', 12);
    TwoEdgesText('0', 20, '1', 2);
    assert Decimal(13) == "13" && Decimal(21) == "21" && Decimal(2) == "2" && Decimal(3) == "3";
    assert "0" + (['0'] + "2" + (['1'] + "13")) == "002113" == "0" + (['0'] + "21" + (['1'] + "3"));
  }

  lemma SmallTexts()
    ensures Text(Node(false, map['0' := 2], "")) == "003"
    ensures Text(Node(false, map['2' := 2], "")) == "023"
    ensures Text(Node(false, map['3' := 2], "")) == "033"
    ensures "003" != "023" && "003" != "033" && "023" != "033"
  {
    hide Text;
    OneEdgeText('0', 2);
    OneEdgeText('2', 2);
    OneEdgeText('3', 2);
    assert Decimal(3) == "3";
    assert "003"[1] == '0' && "023"[1] == '2' && "033"[1] == '3';
  }

  // ----- Steps

  /** The last word was the one letter `x`, whose node is a leaf yet to be checked. */
  ghost predicate AtLetter(b: State, x: char) {
    && |b.nodes| > 3 && b.root == 0 && b.previous == [x]
    && b.unchecked == [Unchecked(0, x, |b.nodes| - 1)] && b.nodes[|b.nodes| - 1] == LEAF
    && "1" in b.minimized && b.minimized["1"] == 2
  }

  ghost predicate SameBelow(b: State, b': State) {
    |b.nodes| <= |b'.nodes| && forall k :: 1 <= k < |b.nodes| ==> b'.nodes[k] == b.nodes[k]
  }

  /** A node whose signature is registered is replaced by the registered one. */
  lemma MergeStep(b: State, key: string) returns (m: State)
    requires InBounds(b) && b.unchecked != [] && key in b.minimized
    requires Text(b.nodes[Top(b)]) == key
    ensures m == MinimizeTop(b) && InBounds(m)
    ensures var u := b.unchecked[|b.unchecked| - 1];
            m == b.(nodes := Link(b.nodes, u.parent, u.edge, b.minimized[key]),
                    unchecked := b.unchecked[..|b.unchecked| - 1])
  {
    m := MinimizeTop(b);
  }

  /** A node whose signature is new is registered. */
  lemma RegisterStep(b: State, key: string) returns (m: State)
    requires InBounds(b) && b.unchecked != [] && key !in b.minimized
    requires Text(b.nodes[Top(b)]) == key
    ensures m == MinimizeTop(b) && InBounds(m)
    ensures m == b.(nodes := b.nodes[Top(b) := b.nodes[Top(b)].(str := key)], minimized := b.minimized[key := Top(b)],
                    unchecked := b.unchecked[..|b.unchecked| - 1])
  {
    m := MinimizeTop(b);
  }

  lemma LetterStep(b: State, x: char, word: string) returns (m: State)
    requires AtLetter(b, x) && word != [] && x < word[0]
    ensures m == b.(nodes := Link(b.nodes, 0, x, 2), unchecked := [])
    ensures InBounds(b) && InBounds(m) && Insert(b, word) == Some(Inserted(m, word, 0))
  {
    LeafText();
    hide Text;
    m := MergeStep(b, "1");
    assert m.unchecked == [];
    assert Minimize(b, 0) == m;
    assert CommonPrefix(word, b.previous) == 0;
    assert !Less(word, b.previous);
  }

  function Inserted(m: State, word: string, common: nat): State
    requires InBounds(m) && common <= |word|
  {
    var x := Extend(m, word, common);
    x.(nodes := Mark(x.nodes, Top(x)), previous := word)
  }

  lemma Letter(b: State, x: char, c: char) returns (b': State)
    requires AtLetter(b, x) && x < c
    ensures InBounds(b) && Insert(b, [c]) == Some(b') && AtLetter(b', c)
    ensures |b'.nodes| == |b.nodes| + 1 && SameBelow(b, b') && b'.minimized == b.minimized
  {
    var m := LetterStep(b, x, [c]);
    hide MinimizeTop, Minimize, Insert;
    b' := Inserted(m, [c], 0);
    assert Extend(m, [c], 0) == Extend(Push(m, c), [c], 1) == Push(m, c);
  }

  lemma {:induction false} AllLetters(b: State, x: char, c: char, n: nat, rest: seq<string>) returns (b': State)
    requires AtLetter(b, x) && x < c && n > 0 && c as int + n <= 'z' as int
    ensures InBounds(b) && InBounds(b') && Built(b, Letters(c, n) + rest) == Built(b', rest)
    ensures AtLetter(b', (c as int + n - 1) as char)
    ensures |b'.nodes| == |b.nodes| + n && SameBelow(b, b') && b'.minimized == b.minimized
    decreases n
  {
    hide Insert;
    hide Built;
    hide AtLetter;
    b' := Letter(b, x, c);
    var more := FirstLetter(c, n, rest);
    BuiltStep(b, [c], more);
    if n > 1 {
      b' := AllLetters(b', c, (c as int + 1) as char, n - 1, rest);
    }
  }

  lemma FirstLetter(c: char, n: nat, rest: seq<string>) returns (more: seq<string>)
    requires n > 0 && c as int + n <= 'z' as int
    ensures more == Letters((c as int + 1) as char, n - 1) + rest && Letters(c, n) + rest == [[c]] + more
    ensures n == 1 ==> more == rest
  {
    more := Letters((c as int + 1) as char, n - 1) + rest;
  }

  lemma BuiltStep(b: State, word: string, rest: seq<string>)
    requires InBounds(b) && Insert(b, word).Some?
    ensures Built(b, [word] + rest) == Built(Insert(b, word).value, rest)
  {
    assert ([word] + rest)[1..] == rest;
  }

  // ----- The run

  /** After "00". */
  lemma FirstWord() returns (b: State)
    ensures Insert(Start([]), "00") == Some(b) && InBounds(b) && b.root == 0 && b.previous == "00"
            && b.minimized == map[]
    ensures b.nodes == [Node(false, map['0' := 1], ""), Node(false, map['0' := 2], ""), LEAF]
    ensures b.unchecked == [Unchecked(0, '0', 1), Unchecked(1, '0', 2)]
  {
    var s := Start([]);
    assert CommonPrefix("00", s.previous) == 0 && Minimize(s, 0) == s;
    var s1 := Push(s, '0');
    var s2 := Push(s1, '0');
    assert Extend(s, "00", 0) == Extend(s1, "00", 1) == Extend(s2, "00", 2) == s2;
    b := Inserted(s, "00", 0);
  }

  /** After "1": the leaf and the node above it are registered. */
  lemma SecondWord(b: State) returns (b': State)
    requires InBounds(b) && b.root == 0 && b.previous == "00" && b.minimized == map[]
    requires b.nodes == [Node(false, map['0' := 1], ""), Node(false, map['0' := 2], ""), LEAF]
    requires b.unchecked == [Unchecked(0, '0', 1), Unchecked(1, '0', 2)]
    ensures Insert(b, "1") == Some(b')
    ensures AtLetter(b', '1') && |b'.nodes| == 4 && b'.minimized == map["1" := 2, "003" := 1]
    ensures b'.nodes[1] == Node(false, map['0' := 2], "003") && b'.nodes[2] == LEAF.(str := "1")
  {
    LeafText();
    SmallTexts();
    hide Text;
    hide Minimize;
    hide Insert;
    var m1 := RegisterStep(b, "1");
    hide MinimizeTop;
    var m2 := RegisterStep(m1, "003");
    TwoSteps(b);
    assert CommonPrefix("1", b.previous) == 0;
    b' := OneNewNode(b, m2, "1", 0);
  }

  /** A word that is one character longer than what it shares with the last one. */
  lemma OneNewNode(b: State, m: State, word: string, common: nat) returns (b': State)
    requires InBounds(b) && InBounds(m) && |word| == common + 1 && !Less(word, b.previous)
    requires CommonPrefix(word, b.previous) == common && Minimize(b, common) == m
    ensures Insert(b, word) == Some(b') && InBounds(b')
    ensures var n := |m.nodes|;
            var parent := m.nodes[Top(m)].(edges := m.nodes[Top(m)].edges[word[common] := n]);
            b' == m.(nodes := m.nodes[Top(m) := parent] + [LEAF],
                     unchecked := m.unchecked + [Unchecked(Top(m), word[common], n)], previous := word)
  {
    var x := Push(m, word[common]);
    assert Extend(m, word, common) == Extend(x, word, common + 1) == x;
    b' := Inserted(m, word, common);
  }

  /** The last word `w` has three letters, and none of its nodes has another edge. */
  ghost predicate AtBranch(b: State, w: string, n: nat) {
    && |w| == 3 && n > 2 && |b.nodes| == n + 3 && b.root == 0 && b.previous == w
    && b.unchecked == [Unchecked(0, w[0], n), Unchecked(n, w[1], n + 1), Unchecked(n + 1, w[2], n + 2)]
    && b.nodes[n] == Node(false, map[w[1] := n + 1], "") && b.nodes[n + 1] == Node(false, map[w[2] := n + 2], "")
    && b.nodes[n + 2] == LEAF
    && "1" in b.minimized && b.minimized["1"] == 2
  }

  lemma Branch(b: State, x: char, w: string) returns (b': State)
    requires AtLetter(b, x) && |w| == 3 && x < w[0]
    ensures InBounds(b) && Insert(b, w) == Some(b') && AtBranch(b', w, |b.nodes|)
    ensures SameBelow(b, b') && b'.minimized == b.minimized
  {
    var m := LetterStep(b, x, w);
    var m1 := Push(m, w[0]);
    var m2 := Push(m1, w[1]);
    var m3 := Push(m2, w[2]);
    assert Extend(m, w, 0) == Extend(m1, w, 1) == Extend(m2, w, 2) == Extend(m3, w, 3) == m3;
    b' := Inserted(m, w, 0);
  }

  /** The node of the first letter alone is left on the path, with one edge to `t`. */
  ghost predicate AtFork(b: State, m: State, w: string, n: nat, t: nat) {
    && InBounds(m) && m.root == 0 && m.previous == w && |m.nodes| == n + 3 && n > 2 && |w| > 1
    && m.unchecked == [Unchecked(0, w[0], n)] && m.nodes[n] == Node(false, map[w[1] := t], "")
    && |b.nodes| >= n && (forall k :: 1 <= k < n ==> m.nodes[k] == b.nodes[k])
    && "1" in m.minimized && m.minimized["1"] == 2
  }

  /** Checking the nodes of a branch but the first: the middle one may be registered already. */
  lemma ForkMerged(b: State, w: string, n: nat, t: nat) returns (m: State)
    requires AtBranch(b, w, n) && t < n
    requires Text(Node(false, map[w[2] := 2], "")) in b.minimized
    requires b.minimized[Text(Node(false, map[w[2] := 2], ""))] == t
    ensures InBounds(b) && m == Minimize(b, 1) && AtFork(b, m, w, n, t) && m.minimized == b.minimized
  {
    LeafText();
    hide Text;
    hide Minimize;
    var m1 := MergeStep(b, "1");
    hide MinimizeTop;
    assert m1.nodes[n + 1] == Node(false, map[w[2] := 2], "");
    m := MergeStep(m1, Text(m1.nodes[n + 1]));
    TwoOfThree(b);
  }

  lemma ForkRegistered(b: State, w: string, n: nat) returns (m: State)
    requires AtBranch(b, w, n)
    requires Text(Node(false, map[w[2] := 2], "")) !in b.minimized
    ensures InBounds(b) && m == Minimize(b, 1) && AtFork(b, m, w, n, n + 1)
    ensures m.minimized == b.minimized[Text(Node(false, map[w[2] := 2], "")) := n + 1]
  {
    LeafText();
    hide Text;
    hide Minimize;
    var m1 := MergeStep(b, "1");
    hide MinimizeTop;
    assert m1.nodes[n + 1] == Node(false, map[w[2] := 2], "");
    m := RegisterStep(m1, Text(m1.nodes[n + 1]));
    TwoOfThree(b);
  }

  lemma TwoSteps(b: State)
    requires InBounds(b) && |b.unchecked| == 2
    ensures Minimize(b, 0) == MinimizeTop(MinimizeTop(b))
  {
    hide MinimizeTop;
    var m1 := MinimizeTop(b);
    var m2 := MinimizeTop(m1);
    assert Minimize(b, 0) == Minimize(m1, 0) == Minimize(m2, 0);
  }

  /** After "a12": two words hang below "a". */
  lemma SecondBelowA(b: State) returns (b': State)
    requires AtBranch(b, "a00", 9) && b.minimized == map["1" := 2, "003" := 1]
    ensures InBounds(b) && Insert(b, "a12") == Some(b') && InBounds(b')
    ensures b'.root == 0 && b'.previous == "a12" && b'.minimized == b.minimized && |b'.nodes| == 14
    ensures b'.unchecked == [Unchecked(0, 'a', 9), Unchecked(9, '1', 12), Unchecked(12, '2', 13)]
    ensures b'.nodes[9] == Node(false, map['0' := 1, '1' := 12], "") && b'.nodes[12] == Node(false, map['2' := 13], "")
    ensures b'.nodes[13] == LEAF && forall k :: 1 <= k < 9 ==> b'.nodes[k] == b.nodes[k]
  {
    SmallTexts();
    hide Text;
    var m := ForkMerged(b, "a00", 9, 1);
    hide Minimize;
    assert CommonPrefix("a12", b.previous) == 1 && !Less("a12", b.previous);
    b' := TwoNewNodes(m);
  }

  lemma TwoNewNodes(m: State) returns (b': State)
    requires InBounds(m) && m.root == 0 && |m.nodes| == 12 && m.unchecked == [Unchecked(0, 'a', 9)]
    requires m.nodes[9] == Node(false, map['0' := 1], "")
    ensures b' == Inserted(m, "a12", 1) && InBounds(b') && b'.root == 0 && b'.minimized == m.minimized
            && b'.previous == "a12"
    ensures b'.unchecked == [Unchecked(0, 'a', 9), Unchecked(9, '1', 12), Unchecked(12, '2', 13)]
    ensures |b'.nodes| == 14 && b'.nodes[9] == Node(false, map['0' := 1, '1' := 12], "")
    ensures b'.nodes[12] == Node(false, map['2' := 13], "") && b'.nodes[13] == LEAF
    ensures forall k :: 1 <= k < 9 ==> b'.nodes[k] == m.nodes[k]
  {
    var m1 := Push(m, '1');
    var m2 := Push(m1, '2');
    assert Extend(m, "a12", 1) == Extend(m1, "a12", 2) == Extend(m2, "a12", 3) == m2;
    b' := Inserted(m, "a12", 1);
  }

  /** Checking the nodes below "a": the last of them gets the signature "002113". */
  lemma CheckedA(b: State) returns (m: State)
    requires InBounds(b) && b.root == 0 && |b.nodes| == 14 && b.minimized == map["1" := 2, "003" := 1]
    requires b.unchecked == [Unchecked(0, 'a', 9), Unchecked(9, '1', 12), Unchecked(12, '2', 13)]
    requires b.nodes[9] == Node(false, map['0' := 1, '1' := 12], "") && b.nodes[12] == Node(false, map['2' := 13], "")
    requires b.nodes[13] == LEAF
    ensures m == Minimize(b, 0) && InBounds(m) && m.root == 0 && m.unchecked == [] && |m.nodes| == 14
    ensures m.minimized == map["1" := 2, "003" := 1, "023" := 12, "002113" := 9] && m.previous == b.previous
    ensures m.nodes[9] == Node(false, map['0' := 1, '1' := 12], "002113")
            && m.nodes[12] == Node(false, map['2' := 2], "023")
    ensures forall k :: 1 <= k < 9 ==> m.nodes[k] == b.nodes[k]
  {
    LeafText();
    SmallTexts();
    SameTexts();
    hide Minimize;
    hide Text;
    var m1 := MergeStep(b, "1");
    hide MinimizeTop;
    assert m1.nodes[12] == Node(false, map['2' := 2], "");
    var m2 := RegisterStep(m1, "023");
    m := RegisterStep(m2, "002113");
    ThreeSteps(b);
  }

  lemma TwoOfThree(b: State)
    requires InBounds(b) && |b.unchecked| == 3
    ensures Minimize(b, 1) == MinimizeTop(MinimizeTop(b))
  {
    hide MinimizeTop;
    var m1 := MinimizeTop(b);
    var m2 := MinimizeTop(m1);
    assert Minimize(b, 1) == Minimize(m1, 1) == Minimize(m2, 1);
  }

  lemma ThreeSteps(b: State)
    requires InBounds(b) && |b.unchecked| == 3
    ensures Minimize(b, 0) == MinimizeTop(MinimizeTop(MinimizeTop(b)))
  {
    hide MinimizeTop;
    TwoSteps(MinimizeTop(b));
  }

  /** After "g03" and "g1": the node below "g" comes to have the signature of the one below "a". */
  lemma SecondBelowG(b: State) returns (b': State)
    requires AtBranch(b, "g03", 19) && b.minimized == map["1" := 2, "003" := 1, "023" := 12, "002113" := 9]
    ensures InBounds(b) && Insert(b, "g1") == Some(b') && InBounds(b')
    ensures b'.root == 0 && |b'.nodes| == 23 && b'.unchecked == [Unchecked(0, 'g', 19), Unchecked(19, '1', 22)]
    ensures "1" in b'.minimized && b'.minimized["1"] == 2 && "002113" in b'.minimized && b'.minimized["002113"] == 9
    ensures b'.nodes[19] == Node(false, map['0' := 20, '1' := 22], "") && b'.nodes[22] == LEAF
    ensures forall k :: 1 <= k < 19 ==> b'.nodes[k] == b.nodes[k]
  {
    SmallTexts();
    hide Text;
    var m := ForkRegistered(b, "g03", 19);
    hide Minimize;
    assert CommonPrefix("g1", b.previous) == 1 && !Less("g1", b.previous);
    b' := OneNewNode(b, m, "g1", 1);
  }

  lemma Confused(b: State) returns (r: State)
    requires InBounds(b) && b.root == 0 && |b.nodes| == 23
             && b.unchecked == [Unchecked(0, 'g', 19), Unchecked(19, '1', 22)]
    requires "1" in b.minimized && b.minimized["1"] == 2 && "002113" in b.minimized && b.minimized["002113"] == 9
    requires b.nodes[19] == Node(false, map['0' := 20, '1' := 22], "") && b.nodes[22] == LEAF
    ensures r == Finish(b) && r.unchecked == [] && r.root == 0 && |r.nodes| == 23 && 'g' in r.nodes[0].edges
            && r.nodes[0].edges['g'] == 9
    ensures forall k :: 1 <= k < 19 ==> r.nodes[k] == b.nodes[k]
  {
    LeafText();
    SameTexts();
    hide Minimize;
    hide Text;
    var m := MergeStep(b, "1");
    hide MinimizeTop;
    assert m.nodes[19] == Node(false, map['0' := 20, '1' := 2], "");
    r := MergeStep(m, "002113");
    TwoSteps(b);
  }

  /** The token set built from these words, which come in order, misses one of them and
      accepts one that is not among them. */
  lemma DigitsBreakTheTokenSet() returns (r: State)
    ensures Built(Start([]), BreakingWords()) == Some(r) && r.unchecked == []
    ensures "g1" in BreakingWords() && !Accepts(r.nodes, r.root, "g1")
    ensures "g00" !in BreakingWords() && Accepts(r.nodes, r.root, "g00")
  {
    hide Built;
    hide Letters;
    hide AtLetter;
    hide Registers;
    hide BelowA;
    hide Accepts;
    var tail2 := ["g03"] + ["g1"];
    var tail1 := ["a00"] + (["a12"] + (Letters('b', 5) + tail2));
    var b1 := BuiltToSix(tail1);
    var b2 := BuiltToF(b1, tail2);
    r := BuiltToEnd(b2);
    WrongWords(r);
    NotAmongThem();
  }

  /** What is registered once both words below "a" have been checked. */
  ghost predicate Registers(b: State) {
    b.minimized == map["1" := 2, "003" := 1, "023" := 12, "002113" := 9] && BelowA(b.nodes)
  }

  ghost predicate BelowA(h: Arena) {
    && |h| > 12
    && h[9] == Node(false, map['0' := 1, '1' := 12], "002113") && h[1] == Node(false, map['0' := 2], "003")
    && h[2] == LEAF.(str := "1") && h[12] == Node(false, map['2' := 2], "023")
  }

  lemma BuiltToSix(rest: seq<string>) returns (b: State)
    ensures AtLetter(b, '6') && InBounds(b) && |b.nodes| == 9 && b.minimized == map["1" := 2, "003" := 1]
    ensures b.nodes[1] == Node(false, map['0' := 2], "003") && b.nodes[2] == LEAF.(str := "1")
    ensures Built(Start([]), ["00"] + (Letters('1', 6) + rest)) == Built(b, rest)
  {
    hide Built;
    hide Insert;
    hide Letters;
    var b1 := FirstWord();
    var more := FirstLetter('1', 6, rest);
    BuiltStep(Start([]), "00", Letters('1', 6) + rest);
    var b2 := SecondWord(b1);
    BuiltStep(b1, "1", more);
    b := AllLetters(b2, '1', '2', 5, rest);
  }

  lemma BuiltToF(b: State, rest: seq<string>) returns (r: State)
    requires AtLetter(b, '6') && |b.nodes| == 9 && b.minimized == map["1" := 2, "003" := 1]
    requires b.nodes[1] == Node(false, map['0' := 2], "003") && b.nodes[2] == LEAF.(str := "1")
    ensures AtLetter(r, 'f') && InBounds(b) && InBounds(r) && |r.nodes| == 19 && Registers(r)
    ensures Built(b, ["a00"] + (["a12"] + (Letters('b', 5) + rest))) == Built(r, rest)
  {
    hide Built;
    hide Insert;
    hide Letters;
    var b1 := Branch(b, '6', "a00");
    BuiltStep(b, "a00", ["a12"] + (Letters('b', 5) + rest));
    var b2 := SecondBelowA(b1);
    BuiltStep(b1, "a12", Letters('b', 5) + rest);
    var b3 := AfterA(b2);
    var more := FirstLetter('b', 5, rest);
    BuiltStep(b2, "b", more);
    r := AllLetters(b3, 'b', 'c', 4, rest);
  }

  lemma AfterA(b: State) returns (b': State)
    requires InBounds(b) && b.root == 0 && |b.nodes| == 14 && b.minimized == map["1" := 2, "003" := 1]
    requires b.unchecked == [Unchecked(0, 'a', 9), Unchecked(9, '1', 12), Unchecked(12, '2', 13)] && b.previous == "a12"
    requires b.nodes[9] == Node(false, map['0' := 1, '1' := 12], "") && b.nodes[12] == Node(false, map['2' := 13], "")
    requires b.nodes[13] == LEAF && b.nodes[1] == Node(false, map['0' := 2], "003") && b.nodes[2] == LEAF.(str := "1")
    ensures Insert(b, "b") == Some(b') && AtLetter(b', 'b') && |b'.nodes| == 15 && Registers(b')
  {
    hide Minimize;
    hide Insert;
    var m := CheckedA(b);
    assert CommonPrefix("b", b.previous) == 0 && !Less("b", b.previous);
    b' := OneNewNode(b, m, "b", 0);
  }

  lemma BuiltToEnd(b: State) returns (r: State)
    requires AtLetter(b, 'f') && |b.nodes| == 19 && Registers(b)
    ensures InBounds(b) && Built(b, ["g03"] + ["g1"]) == Some(r) && r.unchecked == []
    ensures r.root == 0 && |r.nodes| == 23 && 'g' in r.nodes[0].edges && r.nodes[0].edges['g'] == 9 && BelowA(r.nodes)
  {
    hide Insert;
    hide Minimize;
    var b1 := Branch(b, 'f', "g03");
    var b2 := SecondBelowG(b1);
    r := Confused(b2);
    BuiltStep(b, "g03", ["g1"]);
    assert ["g1"] == ["g1"] + [];
    BuiltStep(b1, "g1", []);
  }

  lemma WrongWords(r: State)
    requires r.root == 0 && |r.nodes| == 23 && 'g' in r.nodes[0].edges && r.nodes[0].edges['g'] == 9 && BelowA(r.nodes)
    ensures !Accepts(r.nodes, r.root, "g1") && Accepts(r.nodes, r.root, "g00")
  {
    AcceptsStep(r.nodes, 0, 'g', "1");
    AcceptsStep(r.nodes, 9, '1', "");
    AcceptsStep(r.nodes, 0, 'g', "00");
    AcceptsStep(r.nodes, 9, '0', "0");
    AcceptsStep(r.nodes, 1, '0', "");
    assert "g1" == ['g'] + "1" && "1" == ['1'] + "" && "g00" == ['g'] + "00" && "00" == ['0'] + "0"
           && "0" == ['0'] + "";
  }

  lemma NotAmongThem()
    ensures "g1" in BreakingWords() && "g00" !in BreakingWords()
  {
    hide Letters;
    ShortLetters('1', 6, "g00");
    ShortLetters('b', 5, "g00");
    assert "g00"[1] != "g03"[2] && "g00"[0] != "a00"[0] && "g00"[0] != "a12"[0] && "g00"[0] != "00"[0];
  }

  lemma {:induction false} ShortLetters(c: char, n: nat, w: string)
    requires c as int + n <= 'z' as int && |w| > 1
    ensures w !in Letters(c, n)
    decreases n
  {
    if n > 0 {
      ShortLetters((c as int + 1) as char, n - 1, w);
    }
  }
}
