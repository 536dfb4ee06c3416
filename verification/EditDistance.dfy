/** What the words of `fromFuzzyString` have to do with edit distance. */
module EditDistance {
  import opened Options
  import opened TokenSets
  import opened FuzzyTerms

  /** A character of a term stands for itself, except that `*` stands for any. */
  predicate Reads(c: char, x: char) {
    c == x || c == WILDCARD
  }

  /** `w` is near `str`: reading both from the left, at most `edits` times a character is
      inserted, dropped, replaced, or the next character is read before the first one,
      which then remains to be read. */
  predicate Near(str: string, edits: nat, w: string)
    decreases edits + |str|
  {
    || (str == [] && w == [])
    || (str != [] && w != [] && Reads(str[0], w[0]) && Near(str[1..], edits, w[1..]))
    || (edits > 0 && w != [] && Near(str, edits - 1, w[1..]))
    || (edits > 0 && str != [] && Near(str[1..], edits - 1, w))
    || (edits > 0 && str != [] && w != [] && Near(str[1..], edits - 1, w[1..]))
    || (edits > 0 && |str| > 1 && w != [] && Reads(str[1], w[0]) && Near([str[0]] + str[2..], edits - 1, w[1..]))
  }

  lemma {:induction false} NearLength(str: string, edits: nat, w: string)
    requires Near(str, edits, w)
    ensures |w| <= |str| + edits && |str| <= |w| + edits
    decreases edits + |str|
  {
    if str != [] && w != [] && Reads(str[0], w[0]) && Near(str[1..], edits, w[1..]) {
      NearLength(str[1..], edits, w[1..]);
    } else if edits > 0 && w != [] && Near(str, edits - 1, w[1..]) {
      NearLength(str, edits - 1, w[1..]);
    } else if edits > 0 && str != [] && Near(str[1..], edits - 1, w) {
      NearLength(str[1..], edits - 1, w);
    } else if edits > 0 && str != [] && w != [] && Near(str[1..], edits - 1, w[1..]) {
      NearLength(str[1..], edits - 1, w[1..]);
    } else if edits > 0 && |str| > 1 && w != [] && Near([str[0]] + str[2..], edits - 1, w[1..]) {
      NearLength([str[0]] + str[2..], edits - 1, w[1..]);
    }
  }

  // ----- The generated label words are those of the near words

  lemma {:induction false} GeneratedIsNear(edits: nat, str: string, labels: string, w: string)
    requires Generates(edits, str, labels) && Fits(labels, w)
    ensures Near(str, edits, w) && (str != [] || w != [])
    decreases edits + |str|
  {
    if labels != [] {
      assert Fits(labels[1..], w[1..]);
    }
    if |str| > 0 && Then(str[0], |str| == 1, edits, str[1..], labels) {
      if Generates(edits, str[1..], labels[1..]) { GeneratedIsNear(edits, str[1..], labels[1..], w[1..]); }
    } else if edits > 0 && Then(WILDCARD, |str| == 0, edits - 1, str, labels) {
      if Generates(edits - 1, str, labels[1..]) { GeneratedIsNear(edits - 1, str, labels[1..], w[1..]); }
    } else if edits > 0 && |str| > 1 && Generates(edits - 1, str[1..], labels) {
      GeneratedIsNear(edits - 1, str[1..], labels, w);
    } else if edits > 0 && |str| > 0 && Then(WILDCARD, |str| == 1, edits - 1, str[1..], labels) {
      if Generates(edits - 1, str[1..], labels[1..]) { GeneratedIsNear(edits - 1, str[1..], labels[1..], w[1..]); }
    } else if edits > 0 && |str| > 1 && Then(str[1], false, edits - 1, [str[0]] + str[2..], labels) {
      GeneratedIsNear(edits - 1, [str[0]] + str[2..], labels[1..], w[1..]);
    }
  }

  /** Insertions alone. */
  lemma {:induction false} Insertions(edits: nat, w: string) returns (labels: string)
    requires 0 < |w| <= edits
    ensures Generates(edits, [], labels) && Fits(labels, w)
    decreases edits
  {
    labels := [WILDCARD];
    if |w| > 1 {
      var rest := Insertions(edits - 1, w[1..]);
      labels := [WILDCARD] + rest;
      assert labels[1..] == rest;
    }
    assert Then(WILDCARD, true, edits - 1, [], labels);
  }

  /** Nothing is generated that goes on after the last character has been dropped; but then
      only insertions follow, and the first of them could have replaced it. */
  lemma {:induction false} NearIsGenerated(str: string, edits: nat, w: string) returns (labels: string)
    requires Near(str, edits, w) && (str != [] || w != [])
    ensures Generates(edits, str, labels) && Fits(labels, w)
    decreases edits + |str|, 0
  {
    if str == [] {
      NearLength(str, edits, w);
      labels := Insertions(edits, w);
    } else if w != [] && Reads(str[0], w[0]) && Near(str[1..], edits, w[1..]) {
      labels := Continue(str[0], |str| == 1, edits, str[1..], w);
    } else if edits > 0 && w != [] && Near(str, edits - 1, w[1..]) {
      labels := Continue(WILDCARD, false, edits - 1, str, w);
    } else if edits > 0 && |str| > 1 && Near(str[1..], edits - 1, w) {
      labels := NearIsGenerated(str[1..], edits - 1, w);
    } else if edits > 0 && |str| == 1 && Near(str[1..], edits - 1, w) {
      NearLength(str[1..], edits - 1, w);
      if w == [] {
        labels := [];
      } else {
        labels := ReplaceLast(str, edits, w);
      }
    } else if edits > 0 && w != [] && Near(str[1..], edits - 1, w[1..]) {
      labels := Continue(WILDCARD, |str| == 1, edits - 1, str[1..], w);
    } else {
      labels := Continue(str[1], false, edits - 1, [str[0]] + str[2..], w);
    }
  }

  lemma {:induction false} Continue(edge: char, end: bool, edits: nat, str: string, w: string) returns (labels: string)
    requires w != [] && Reads(edge, w[0]) && Near(str, edits, w[1..]) && (end <==> str == [])
    ensures Then(edge, end, edits, str, labels) && Fits(labels, w)
    decreases edits + |str|, 1
  {
    if end && w[1..] == [] {
      labels := [edge];
    } else {
      var rest := NearIsGenerated(str, edits, w[1..]);
      labels := [edge] + rest;
      assert labels[1..] == rest;
    }
  }

  lemma {:induction false} ReplaceLast(str: string, edits: nat, w: string) returns (labels: string)
    requires |str| == 1 && 0 < |w| <= edits - 1
    ensures Generates(edits, str, labels) && Fits(labels, w)
  {
    labels := [WILDCARD];
    if |w| > 1 {
      var rest := Insertions(edits - 1, w[1..]);
      labels := [WILDCARD] + rest;
      assert labels[1..] == rest;
    }
    assert Then(WILDCARD, true, edits - 1, str[1..], labels);
  }

  lemma GeneratedExactlyNear(edits: nat, str: string, w: string)
    ensures (exists labels :: Generates(edits, str, labels) && Fits(labels, w)) <==>
            Near(str, edits, w) && (str != [] || w != [])
  {
    if labels :| Generates(edits, str, labels) && Fits(labels, w) {
      GeneratedIsNear(edits, str, labels, w);
    }
    if Near(str, edits, w) && (str != [] || w != []) {
      var labels := NearIsGenerated(str, edits, w);
    }
  }

  /** What the automaton of `fromFuzzyString` matches, for every term and edit distance. */
  method FuzzyAutomaton(heap: Heap, term: string, editDistance: nat) returns (root: nat)
    requires Closed(heap.nodes)
    modifies heap
    ensures Grows(old(heap.nodes), heap.nodes) && Closed(heap.nodes)
    ensures |old(heap.nodes)| <= root < |heap.nodes|
    ensures forall w :: Matches(heap.nodes, root, w) <==> Near(term, editDistance, w) && (term != [] || w != [])
  {
    root := FromFuzzyString(heap, term, editDistance);
    forall w
      ensures Matches(heap.nodes, root, w) <==> Near(term, editDistance, w) && (term != [] || w != [])
    {
      MatchesIsFits(heap.nodes, root, w);
      GeneratedExactlyNear(editDistance, term, w);
    }
  }

  // ----- Every word within so many edits that do not overlap is near

  /** One pass over a word from the left. */
  datatype Op = Keep | Insert(c: char) | Delete | Replace(c: char) | Swap

  function Apply(ops: seq<Op>, str: string): Option<string>
    decreases |ops|
  {
    if ops == [] then if str == [] then Some([]) else None
    else match ops[0]
      case Keep => if str == [] then None else Prepend([str[0]], Apply(ops[1..], str[1..]))
      case Insert(c) => Prepend([c], Apply(ops[1..], str))
      case Delete => if str == [] then None else Apply(ops[1..], str[1..])
      case Replace(c) => if str == [] then None else Prepend([c], Apply(ops[1..], str[1..]))
      case Swap => if |str| < 2 then None else Prepend([str[1], str[0]], Apply(ops[1..], str[2..]))
  }

  function Prepend(p: string, r: Option<string>): Option<string> {
    if r.Some? then Some(p + r.value) else None
  }

  function Cost(ops: seq<Op>): nat {
    if ops == [] then 0 else (if ops[0].Keep? then 0 else 1) + Cost(ops[1..])
  }

  lemma {:induction false} ScriptIsNear(ops: seq<Op>, str: string, edits: nat, w: string)
    requires Apply(ops, str) == Some(w) && Cost(ops) <= edits
    ensures Near(str, edits, w)
    decreases |ops|
  {
    if ops != [] {
      match ops[0]
      case Keep =>
        ScriptIsNear(ops[1..], str[1..], edits, w[1..]);
      case Insert(_) =>
        ScriptIsNear(ops[1..], str, edits - 1, w[1..]);
      case Delete =>
        ScriptIsNear(ops[1..], str[1..], edits - 1, w);
      case Replace(_) =>
        ScriptIsNear(ops[1..], str[1..], edits - 1, w[1..]);
      case Swap =>
        ScriptIsNear(ops[1..], str[2..], edits - 1, w[2..]);
        var rest := [str[0]] + str[2..];
        assert rest[1..] == str[2..] && w[1..][1..] == w[2..];
        assert Near(rest, edits - 1, w[1..]);
    }
  }

  // ----- Every near word is within so many edits

  /** `b` in place of `a` is one insertion, deletion, replacement or swap of neighbours. */
  predicate Edit(a: string, b: string) {
    (|a| <= 1 && |b| <= 1) || (|a| == 2 && b == [a[1], a[0]])
  }

  /** One edit, anywhere. */
  ghost predicate OneEdit(s: string, t: string) {
    exists p, a, b, q :: EditAt(p, a, b, q, s, t)
  }

  ghost predicate EditAt(p: string, a: string, b: string, q: string, s: string, t: string) {
    Edit(a, b) && s == p + a + q && t == p + b + q
  }

  ghost predicate WithinEdits(edits: nat, s: string, t: string)
    decreases edits
  {
    s == t || (edits > 0 && exists u :: OneEdit(s, u) && WithinEdits(edits - 1, u, t))
  }

  lemma OneEditAfter(c: char, s: string, t: string)
    requires OneEdit(s, t)
    ensures OneEdit([c] + s, [c] + t)
  {
    var p, a, b, q :| EditAt(p, a, b, q, s, t);
    assert EditAt([c] + p, a, b, q, [c] + s, [c] + t);
  }

  lemma {:induction false} WithinAfter(c: char, edits: nat, s: string, t: string)
    requires WithinEdits(edits, s, t)
    ensures WithinEdits(edits, [c] + s, [c] + t)
    decreases edits
  {
    if s != t {
      var u :| OneEdit(s, u) && WithinEdits(edits - 1, u, t);
      OneEditAfter(c, s, u);
      WithinAfter(c, edits - 1, u, t);
    }
  }

  lemma {:induction false} WithinMore(edits: nat, s: string, t: string)
    requires WithinEdits(edits, s, t)
    ensures WithinEdits(edits + 1, s, t)
    decreases edits
  {
    if s != t {
      var u :| OneEdit(s, u) && WithinEdits(edits - 1, u, t);
      WithinMore(edits - 1, u, t);
    }
  }

  lemma EditThenWithin(p: string, a: string, b: string, q: string, edits: nat, s: string, u: string, w: string)
    requires EditAt(p, a, b, q, s, u) && edits > 0 && WithinEdits(edits - 1, u, w)
    ensures WithinEdits(edits, s, w)
  {
    assert OneEdit(s, u);
  }

  lemma {:induction false} NearIsWithinEdits(str: string, edits: nat, w: string)
    requires Near(str, edits, w) && WILDCARD !in str
    ensures WithinEdits(edits, str, w)
    decreases edits + |str|
  {
    if str != [] && w != [] && Reads(str[0], w[0]) && Near(str[1..], edits, w[1..]) {
      NearIsWithinEdits(str[1..], edits, w[1..]);
      WithinAfter(w[0], edits, str[1..], w[1..]);
      assert str == [w[0]] + str[1..] && w == [w[0]] + w[1..];
    } else if edits > 0 && w != [] && Near(str, edits - 1, w[1..]) {
      assert [] + str == str;
      EditThenNear([], [w[0]], str, [], edits, str, w);
    } else if edits > 0 && str != [] && Near(str[1..], edits - 1, w) {
      NearIsWithinEdits(str[1..], edits - 1, w);
      EditThenWithin([], [str[0]], [], str[1..], edits, str, str[1..], w);
    } else if edits > 0 && str != [] && w != [] && Near(str[1..], edits - 1, w[1..]) {
      assert [] + str[1..] == str[1..];
      EditThenNear([str[0]], [w[0]], str[1..], [], edits, str, w);
    } else if edits > 0 && |str| > 1 && w != [] && Reads(str[1], w[0]) && Near([str[0]] + str[2..], edits - 1, w[1..]) {
      EditThenNear([str[0], str[1]], [w[0]], str[2..], [str[0]], edits, str, w);
    }
  }

  /** Edit so that the first character is right, keep it, and go on with the rest. */
  lemma {:induction false} EditThenNear(a: string, b: string, q: string, more: string, edits: nat, str: string,
                                        w: string)
    requires edits > 0 && w != [] && b == [w[0]] && Edit(a, b + more) && str == a + q && WILDCARD !in str
    requires |more| <= 1 && (forall c :: c in more ==> c in a) && |more + q| <= |str|
    requires Near(more + q, edits - 1, w[1..])
    ensures WithinEdits(edits, str, w)
    decreases edits + |str|, 0
  {
    var rest := more + q;
    NearIsWithinEdits(rest, edits - 1, w[1..]);
    WithinAfter(w[0], edits - 1, rest, w[1..]);
    assert w == [w[0]] + w[1..];
    EditThenWithin([], a, b + more, q, edits, str, [w[0]] + rest, w);
  }

  // ----- The near words are those made by edits that go to the right

  /** One edit at a position, and where the next edit may be: what an edit puts in front
      stays there, but a character that a swap puts behind may still be edited. */
  ghost predicate EditFrom(s: string, i: nat, t: string, next: nat) {
    i <= |s| &&
    (|| (next == i < |s| && t == s[..i] + s[i + 1..])
     || (exists c :: t == s[..i] + [c] + s[i..] && next == i + 1)
     || (i < |s| && exists c :: t == s[..i] + [c] + s[i + 1..] && next == i + 1)
     || (i + 1 < |s| && t == s[..i] + [s[i + 1], s[i]] + s[i + 2..] && next == i + 1))
  }

  ghost predicate Rightward(edits: nat, from: nat, s: string, t: string)
    decreases edits, 1
  {
    s == t || (edits > 0 && exists i: nat, u, next: nat :: EditsTo(edits, from, s, i, u, next, t))
  }

  ghost predicate EditsTo(edits: nat, from: nat, s: string, i: nat, u: string, next: nat, t: string)
    requires edits > 0
    decreases edits, 0
  {
    from <= i && EditFrom(s, i, u, next) && Rightward(edits - 1, next, u, t)
  }

  lemma FromEarlier(edits: nat, from: nat, s: string, t: string)
    requires Rightward(edits, from + 1, s, t)
    ensures Rightward(edits, from, s, t)
  {
    if s != t {
      var i: nat, u, next: nat :| EditsTo(edits, from + 1, s, i, u, next, t);
      assert EditsTo(edits, from, s, i, u, next, t);
    }
  }

  lemma {:induction false} NearIsRightward(p: string, str: string, edits: nat, w: string) returns (u: string)
    requires Near(str, edits, w)
    ensures Rightward(edits, |p|, p + str, p + u) && Fits(u, w)
    decreases edits + |str|, 0
  {
    var s := p + str;
    if str == [] && w == [] {
      u := [];
    } else if str != [] && w != [] && Reads(str[0], w[0]) && Near(str[1..], edits, w[1..]) {
      u := Onward(p, str[0], str[1..], edits, w);
      assert s == p + [str[0]] + str[1..];
      FromEarlier(edits, |p|, s, p + u);
    } else if edits > 0 && w != [] && Near(str, edits - 1, w[1..]) {
      u := Onward(p, w[0], str, edits - 1, w);
      assert EditsTo(edits, |p|, s, |p|, p + [w[0]] + str, |p| + 1, p + u) by {
        assert s[..|p|] == p && s[|p|..] == str;
      }
    } else if edits > 0 && str != [] && Near(str[1..], edits - 1, w) {
      u := NearIsRightward(p, str[1..], edits - 1, w);
      assert EditsTo(edits, |p|, s, |p|, p + str[1..], |p|, p + u) by {
        assert s[..|p|] == p && s[|p| + 1..] == str[1..];
      }
    } else if edits > 0 && str != [] && w != [] && Near(str[1..], edits - 1, w[1..]) {
      u := Onward(p, w[0], str[1..], edits - 1, w);
      assert EditsTo(edits, |p|, s, |p|, p + [w[0]] + str[1..], |p| + 1, p + u) by {
        assert s[..|p|] == p && s[|p| + 1..] == str[1..];
      }
    } else {
      var rest := [str[0]] + str[2..];
      u := Onward(p, str[1], rest, edits - 1, w);
      assert EditsTo(edits, |p|, s, |p|, p + [str[1]] + rest, |p| + 1, p + u) by {
        assert s[..|p|] == p && s[|p| + 2..] == str[2..];
        assert p + [str[1]] + rest == p + [s[|p| + 1], s[|p|]] + s[|p| + 2..];
      }
    }
  }

  /** One character is settled. */
  lemma {:induction false} Onward(p: string, c: char, str: string, edits: nat, w: string) returns (u: string)
    requires w != [] && Reads(c, w[0]) && Near(str, edits, w[1..])
    ensures Rightward(edits, |p| + 1, p + [c] + str, p + u) && Fits(u, w)
    decreases edits + |str|, 1
  {
    var rest := NearIsRightward(p + [c], str, edits, w[1..]);
    u := [c] + rest;
    assert p + u == p + [c] + rest;
  }

  lemma {:induction false} KeptIsNear(a: string, str: string, edits: nat, v: string, w: string)
    requires Fits(a, v) && Near(str, edits, w)
    ensures Near(a + str, edits, v + w)
    decreases |a|
  {
    hide Near;
    if a == [] {
      assert a + str == str && v + w == w;
    } else {
      KeptIsNear(a[1..], str, edits, v[1..], w);
      assert a + str == [a[0]] + (a[1..] + str) && v + w == [v[0]] + (v[1..] + w);
      OneKeptIsNear(a[0], a[1..] + str, edits, v[0], v[1..] + w);
    }
  }

  lemma OneKeptIsNear(c: char, str: string, edits: nat, x: char, w: string)
    requires Reads(c, x) && Near(str, edits, w)
    ensures Near([c] + str, edits, [x] + w)
  {
    assert ([c] + str)[1..] == str && ([x] + w)[1..] == w;
  }

  /** Up to the position the edits have left everything as it should be. */
  lemma {:induction false} RightwardIsNear(from: nat, s: string, edits: nat, t: string, w: string)
    requires from <= |s| && Rightward(edits, from, s, t) && Fits(t, w)
    ensures from <= |w| && Fits(s[..from], w[..from]) && Near(s[from..], edits, w[from..])
    decreases edits
  {
    if s == t {
      assert s[..|s|] == s && w[..|s|] == w && s[|s|..] == [] && w[|s|..] == [];
      MiddleKept(from, |s|, s, edits, w);
    } else {
      var i: nat, u, next: nat :| EditsTo(edits, from, s, i, u, next, t);
      hide *;
      EditFollows(edits, from, s, i, u, next, t);
      RightwardIsNear(next, u, edits - 1, t, w);
      EditIsNear(s, i, u, next, edits, w);
      MiddleKept(from, i, s, edits, w);
    }
  }

  lemma MiddleKept(from: nat, i: nat, s: string, edits: nat, w: string)
    requires from <= i <= |s| && i <= |w| && Fits(s[..i], w[..i]) && Near(s[i..], edits, w[i..])
    ensures Fits(s[..from], w[..from]) && Near(s[from..], edits, w[from..])
  {
    hide Near;
    KeptIsNear(s[from..i], s[i..], edits, w[from..i], w[i..]);
    assert s[from..] == s[from..i] + s[i..] && w[from..] == w[from..i] + w[i..];
  }

  lemma EditFollows(edits: nat, from: nat, s: string, i: nat, u: string, next: nat, t: string)
    requires edits > 0 && EditsTo(edits, from, s, i, u, next, t)
    ensures from <= i <= |s| && next <= |u| && EditFrom(s, i, u, next) && Rightward(edits - 1, next, u, t)
  {
  }

  lemma EditIsNear(s: string, i: nat, u: string, next: nat, edits: nat, w: string)
    requires edits > 0 && EditFrom(s, i, u, next) && next <= |w| && Fits(u[..next], w[..next])
    requires Near(u[next..], edits - 1, w[next..])
    ensures i <= next && Fits(s[..i], w[..i]) && Near(s[i..], edits, w[i..])
  {
    assert u[..i] == s[..i] && Fits(u[..next][..i], w[..next][..i]);
    var str, v := s[i..], w[i..];
    if next == i {
      assert u[i..] == str[1..];
    } else {
      assert w[next..] == v[1..];
      assert Reads(u[i], v[0]);
      if c :| u == s[..i] + [c] + s[i..] {
        assert u[next..] == str;
      } else if i < |s| && exists c :: u == s[..i] + [c] + s[i + 1..] {
        assert u[next..] == str[1..];
      } else {
        assert u[next..] == [str[0]] + str[2..];
      }
    }
  }

  /** A word is near a term exactly if it is what at most so many edits make of the term,
      each at or to the right of where the one before left off, stars standing for any
      character. */
  lemma NearIffRightward(str: string, edits: nat, w: string)
    ensures Near(str, edits, w) <==> exists t :: Rightward(edits, 0, str, t) && Fits(t, w)
  {
    assert [] + str == str;
    if Near(str, edits, w) {
      var t := NearIsRightward([], str, edits, w);
      assert [] + t == t;
    }
    if t :| Rightward(edits, 0, str, t) && Fits(t, w) {
      RightwardIsNear(0, str, edits, t, w);
      assert w[0..] == w && str[0..] == str;
    }
  }

  // ----- With one edit that is all there is; with more it is not

  lemma {:induction false} KeepAll(s: string) returns (ops: seq<Op>)
    ensures Apply(ops, s) == Some(s) && Cost(ops) == 0
    decreases |s|
  {
    if s == [] {
      ops := [];
    } else {
      var rest := KeepAll(s[1..]);
      ops := [Keep] + rest;
      assert ops[1..] == rest && [s[0]] + s[1..] == s;
    }
  }

  lemma {:induction false} ScriptOfEdit(p: string, a: string, b: string, q: string) returns (ops: seq<Op>)
    requires Edit(a, b)
    ensures Apply(ops, p + a + q) == Some(p + b + q) && Cost(ops) <= 1
    decreases |p|
  {
    if p == [] {
      ops := ScriptOfFirst(a, b, q);
      assert p + a + q == a + q && p + b + q == b + q;
    } else {
      var rest := ScriptOfEdit(p[1..], a, b, q);
      ops := [Keep] + rest;
      assert ops[1..] == rest && (p + a + q)[1..] == p[1..] + a + q;
      assert [p[0]] + (p[1..] + b + q) == p + b + q;
    }
  }

  lemma ScriptOfFirst(a: string, b: string, q: string) returns (ops: seq<Op>)
    requires Edit(a, b)
    ensures Apply(ops, a + q) == Some(b + q) && Cost(ops) <= 1
  {
    var rest := KeepAll(q);
    if a == b == [] {
      ops := rest;
      assert a + q == q == b + q;
    } else {
      var op := if a == [] then Insert(b[0]) else if b == [] then Delete else if |a| == 1 then Replace(b[0]) else Swap;
      ops := [op] + rest;
      assert ops[1..] == rest && (a + q)[|a|..] == q;
      match op
      case Insert(c) => assert a + q == q && [c] == b;
      case Delete => assert b + q == q;
      case Replace(c) => assert [c] == b;
      case Swap => assert [(a + q)[1], (a + q)[0]] == b;
    }
  }

  lemma OneEditIsNear(s: string, t: string)
    requires WithinEdits(1, s, t)
    ensures Near(s, 1, t)
  {
    if s == t {
      var ops := KeepAll(s);
      ScriptIsNear(ops, s, 1, t);
    } else {
      var u :| OneEdit(s, u) && WithinEdits(0, u, t);
      var p, a, b, q :| EditAt(p, a, b, q, s, u);
      var ops := ScriptOfEdit(p, a, b, q);
      ScriptIsNear(ops, s, 1, t);
    }
  }

  function Bs(n: nat): string {
    seq(n, _ => 'b')
  }

  /** Nothing of `s` can be kept in `w`, so each character costs an edit. */
  lemma {:induction false} NothingKept(s: string, edits: nat, w: string)
    requires Near(s, edits, w) && |w| <= 1 && (forall c, x :: c in s && x in w ==> !Reads(c, x))
    ensures |s| <= edits
    decreases edits + |s|
  {
    if edits > 0 && w != [] && Near(s, edits - 1, w[1..]) {
      NearLength(s, edits - 1, w[1..]);
    } else if edits > 0 && s != [] && Near(s[1..], edits - 1, w) {
      NothingKept(s[1..], edits - 1, w);
    } else if edits > 0 && s != [] && w != [] && Near(s[1..], edits - 1, w[1..]) {
      NearLength(s[1..], edits - 1, w[1..]);
    }
  }

  lemma {:induction false} DropToC(n: nat, edits: nat)
    requires Near(Bs(n) + "c", edits, "ca")
    ensures n < edits
    decreases n + edits
  {
    var s := Bs(n) + "c";
    assert "ca"[1..] == "a";
    if n == 0 {
      NearLength("", edits, "a");
      assert s == "c";
    } else {
      assert s[1..] == Bs(n - 1) + "c" && s[0] == 'b';
      if edits > 0 && Near(s, edits - 1, "a") {
        NothingKept(s, edits - 1, "a");
      } else if edits > 0 && Near(s[1..], edits - 1, "ca") {
        DropToC(n - 1, edits - 1);
      } else if edits > 0 && Near(s[1..], edits - 1, "a") {
        NothingKept(s[1..], edits - 1, "a");
      } else {
        assert n == 1;
        NothingKept([s[0]] + s[2..], edits - 1, "a");
      }
    }
  }

  lemma {:induction false} DropBs(n: nat)
    ensures WithinEdits(n + 1, "a" + Bs(n) + "c", "ca")
    decreases n
  {
    if n == 0 {
      EditThenWithin([], "ac", "ca", [], 1, "a" + Bs(n) + "c", "ca", "ca");
    } else {
      DropBs(n - 1);
      assert Bs(n) == "b" + Bs(n - 1);
      EditThenWithin("a", "b", [], Bs(n - 1) + "c", n + 1, "a" + Bs(n) + "c", "a" + Bs(n - 1) + "c", "ca");
    }
  }

  /** Dropping all characters between two others and then swapping those is missed. */
  lemma SwapAfterDropping(n: nat)
    requires n >= 1
    ensures WithinEdits(n + 1, "a" + Bs(n) + "c", "ca") && !Near("a" + Bs(n) + "c", n + 1, "ca")
  {
    DropBs(n);
    var s := "a" + Bs(n) + "c";
    assert s[0] == 'a' && s[1] == 'b' && s[1..] == Bs(n) + "c" && "ca"[1..] == "a";
    if Near(s, n + 1, "ca") {
      if Near(s, n, "a") {
        NearLength(s, n, "a");
      } else if Near(s[1..], n, "ca") {
        DropToC(n, n);
      } else {
        NothingKept(s[1..], n, "a");
      }
    }
  }

  /** Edit distances for which every word within so many edits, in any order and at any
      place, is matched: 0 and 1, and no others. */
  lemma AllEditsMatchedIff(edits: nat)
    ensures (forall s, w :: WILDCARD !in s && WithinEdits(edits, s, w) ==> Near(s, edits, w)) <==> edits <= 1
  {
    if edits <= 1 {
      forall s, w | WILDCARD !in s && WithinEdits(edits, s, w)
        ensures Near(s, edits, w)
      {
        if edits == 1 {
          OneEditIsNear(s, w);
        } else {
          var ops := KeepAll(s);
          ScriptIsNear(ops, s, 0, w);
        }
      }
    } else {
      SwapAfterDropping(edits - 1);
      assert WILDCARD !in "a" + Bs(edits - 1) + "c";
    }
  }
}
