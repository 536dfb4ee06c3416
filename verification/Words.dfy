/** Strings in the order of JavaScript's `<`: by the first code unit that differs. */
module Words {

  predicate Less(a: string, b: string)
    decreases |a|
  {
    b != [] && (a == [] || a[0] < b[0] || (a[0] == b[0] && Less(a[1..], b[1..])))
  }

  predicate Leq(a: string, b: string) {
    !Less(b, a)
  }

  function CommonPrefix(a: string, b: string): (r: nat)
    ensures r <= |a| && r <= |b| && a[..r] == b[..r]
    ensures r < |a| && r < |b| ==> a[r] != b[r]
  {
    if a != [] && b != [] && a[0] == b[0] then
      var r := CommonPrefix(a[1..], b[1..]);
      assert a[..r + 1] == [a[0]] + a[1..][..r] && b[..r + 1] == [b[0]] + b[1..][..r];
      r + 1
    else 0
  }

  /** Both begin alike, and then the smaller word ends or has the smaller character. */
  predicate PartsAt(a: string, b: string, i: nat) {
    i <= |a| && i < |b| && a[..i] == b[..i] && (i == |a| || a[i] < b[i])
  }

  lemma FirstPart(a: string, b: string)
    ensures forall i: nat :: PartsAt(a, b, i) && i > 0 ==> a != [] && b != [] && a[0] == b[0]
  {
    forall i: nat | PartsAt(a, b, i) && i > 0
      ensures a[0] == b[0]
    {
      assert a[..i][0] == b[..i][0];
    }
  }

  lemma {:induction false} LessIffParts(a: string, b: string)
    ensures Less(a, b) <==> exists i: nat :: PartsAt(a, b, i)
    decreases |a|
  {
    if a != [] && b != [] && a[0] == b[0] {
      LessIffParts(a[1..], b[1..]);
      if i: nat :| PartsAt(a[1..], b[1..], i) {
        assert a[..i + 1] == [a[0]] + a[1..][..i] && b[..i + 1] == [b[0]] + b[1..][..i];
        assert PartsAt(a, b, i + 1);
      }
      if i: nat :| PartsAt(a, b, i) {
        assert a[..i] == [a[0]] + a[1..][..i - 1] && b[..i] == [b[0]] + b[1..][..i - 1];
        assert PartsAt(a[1..], b[1..], i - 1);
      }
    } else {
      assert Less(a, b) ==> PartsAt(a, b, 0);
      FirstPart(a, b);
    }
  }

  /** Where two words in order part: the smaller one ends, or has the smaller character. */
  lemma {:induction false} PartsBelow(a: string, b: string)
    requires Leq(a, b)
    ensures var r := CommonPrefix(a, b);
            if r < |a| then r < |b| && a[r] < b[r] else true
    decreases |a|
  {
    if a != [] && b != [] && a[0] == b[0] {
      PartsBelow(a[1..], b[1..]);
    }
  }

  /** The words come in order, repetitions allowed. */
  ghost predicate InOrder(words: seq<string>) {
    forall i :: 0 <= i < |words| - 1 ==> Leq(words[i], words[i + 1])
  }

  lemma {:induction false} LessTransitive(a: string, b: string, c: string)
    requires Less(a, b) && Less(b, c)
    ensures Less(a, c)
    decreases |a|
  {
    if a != [] && a[0] == b[0] == c[0] {
      LessTransitive(a[1..], b[1..], c[1..]);
    }
  }

  lemma {:induction false} LessTotal(a: string, b: string)
    ensures Less(a, b) || Less(b, a) || a == b
    ensures !(Less(a, b) && Less(b, a)) && !Less(a, a)
    decreases |a|
  {
    if a != [] && b != [] {
      LessTotal(a[1..], b[1..]);
      assert a == [a[0]] + a[1..] && b == [b[0]] + b[1..];
    }
    if a != [] {
      LessTotal(a[1..], a[1..]);
    }
  }

  lemma LeqTransitive(a: string, b: string, c: string)
    requires Leq(a, b) && Leq(b, c)
    ensures Leq(a, c)
  {
    hide Less;
    LessTotal(b, a);
    LessTotal(c, b);
    LessTotal(c, a);
    if Less(c, a) && Less(a, b) {
      LessTransitive(c, a, b);
    }
  }

  lemma {:induction false} LeqAll(words: seq<string>, i: nat)
    requires InOrder(words) && i < |words|
    ensures Leq(words[0], words[i])
    decreases i
  {
    if i == 0 {
      LessTotal(words[0], words[0]);
    } else {
      LeqAll(words, i - 1);
      LeqTransitive(words[0], words[i - 1], words[i]);
    }
  }

  ghost predicate Once(words: seq<string>) {
    forall i, j :: 0 <= i < j < |words| ==> words[i] != words[j]
  }

  lemma RestInOrder(words: seq<string>)
    requires words != [] && InOrder(words) && Once(words)
    ensures InOrder(words[1..]) && Once(words[1..]) && words[0] !in words[1..]
    ensures forall w :: w in words <==> w == words[0] || w in words[1..]
  {
    var rest := words[1..];
    assert forall i :: 0 <= i < |rest| ==> rest[i] == words[i + 1];
    forall i | 0 <= i < |rest| - 1
      ensures Leq(rest[i], rest[i + 1])
    {
      assert Leq(words[i + 1], words[i + 2]);
    }
    assert words == [words[0]] + rest;
  }

  /** Words can be put in order, each once, in one way only. */
  lemma {:induction false} OneOrder(a: seq<string>, b: seq<string>)
    requires InOrder(a) && InOrder(b) && Once(a) && Once(b) && forall w :: w in a <==> w in b
    ensures a == b
    decreases |a|
  {
    assert b == [] || b[0] in b;
    if a != [] {
      assert a[0] in b;
      var i :| 0 <= i < |b| && b[i] == a[0];
      LeqAll(b, i);
      assert b[0] in a;
      var j :| 0 <= j < |a| && a[j] == b[0];
      LeqAll(a, j);
      LessTotal(a[0], b[0]);
      RestInOrder(a);
      RestInOrder(b);
      hide InOrder;
      hide Once;
      hide Leq;
      OneOrder(a[1..], b[1..]);
      assert a == [a[0]] + a[1..] && b == [b[0]] + b[1..];
    }
  }

  lemma {:induction false} LeastWord(words: set<string>) returns (least: string)
    requires words != {}
    ensures least in words && forall w :: w in words ==> Leq(least, w)
    decreases |words|
  {
    var w :| w in words;
    if words == {w} {
      least := w;
      LessTotal(w, w);
    } else {
      var rest := LeastWord(words - {w});
      LessTotal(w, rest);
      least := if Less(w, rest) then w else rest;
      forall x | x in words
        ensures Leq(least, x)
      {
        LessTotal(x, w);
        LessTotal(x, least);
        if x != w {
          assert x in words - {w};
          LessTotal(x, rest);
          if Less(x, w) && Less(w, rest) {
            LessTransitive(x, w, rest);
          }
        }
      }
    }
  }

  /** `Object.keys(index).sort()`. */
  method SortedWords(words: set<string>) returns (sorted: seq<string>)
    ensures InOrder(sorted)
    ensures Once(sorted) && forall w :: w in sorted <==> w in words
  {
    sorted := [];
    var rest := words;
    while rest != {}
      invariant rest <= words && InOrder(sorted)
      invariant forall w :: w in sorted <==> w in words - rest
      invariant Once(sorted)
      invariant sorted != [] ==> forall w :: w in rest ==> Leq(sorted[|sorted| - 1], w)
      decreases |rest|
    {
      ghost var least := LeastWord(rest);
      var w :| w in rest && forall x :: x in rest ==> Leq(w, x);
      assert w !in sorted;
      sorted := sorted + [w];
      rest := rest - {w};
    }
  }
}
