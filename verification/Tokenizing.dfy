/** `lunr.tokenizer`, for a string. */
module Tokenizing {

  /** The characters of `tokenizer.separator`: white space and the hyphen. */
  predicate IsSeparator(c: char) {
    c == '-' || c == ' ' || '\t' <= c <= '\r' || c == '\U{00A0}' || c == '\U{1680}' || '\U{2000}' <= c <= '\U{200A}'
    || c == '\U{2028}' || c == '\U{2029}' || c == '\U{202F}' || c == '\U{205F}' || c == '\U{3000}' || c == '\U{FEFF}'
  }

  /** The same characters one by one: tab, line feed, vertical tab, form feed, carriage return,
      space, hyphen, and the white space beyond ASCII. */
  const SEPARATORS := "\t\n\U{000B}\U{000C}\r -\U{00A0}\U{1680}\U{2000}\U{2001}\U{2002}\U{2003}\U{2004}\U{2005}"
                      + "\U{2006}\U{2007}\U{2008}\U{2009}\U{200A}\U{2028}\U{2029}\U{202F}\U{205F}\U{3000}\U{FEFF}"

  lemma SeparatorsListed(c: char)
    ensures IsSeparator(c) <==> c in SEPARATORS
  {
    var i := if '\t' <= c <= '\r' then c as int - '\t' as int
             else if c == ' ' then 5 else if c == '-' then 6 else if c == '\U{00A0}' then 7
             else if c == '\U{1680}' then 8
             else if '\U{2000}' <= c <= '\U{200A}' then 9 + (c as int - 0x2000)
             else if c == '\U{2028}' then 20 else if c == '\U{2029}' then 21 else if c == '\U{202F}' then 22
             else if c == '\U{205F}' then 23 else if c == '\U{3000}' then 24 else 25;
    assert |SEPARATORS| == 26;
    if IsSeparator(c) {
      assert SEPARATORS[i] == c;
    }
  }

  /** A token: a part of a text, with its position, as start and length, and its index; or
      an item of a list that was given as tokens. */
  datatype Token = Part(str: string, start: nat, length: nat, index: nat) | Item(str: string)

  /** What the tokenizer is given. */
  datatype Input = Missing | Items(items: seq<string>) | Text(text: string)

  ghost predicate SeparatorFree(s: string, from: nat, to: nat) {
    from <= to <= |s| && forall i :: from <= i < to ==> !IsSeparator(s[i])
  }

  /** A nonempty run without separators that cannot be made longer on either side. */
  ghost predicate MaximalRun(s: string, from: nat, to: nat) {
    && from < to && SeparatorFree(s, from, to)
    && (from == 0 || IsSeparator(s[from - 1])) && (to == |s| || IsSeparator(s[to]))
  }

  predicate Spans(t: Token, from: nat, to: nat) {
    t.Part? && t.start == from && t.start + t.length == to
  }

  /** The tokens are the maximal runs that end before `end`, each once and in order; a
      token's position slices it back out of the text, and the indices count from 0. */
  ghost predicate RunsBefore(s: string, end: int, ts: seq<Token>) {
    PositionsRight(s, end, ts) && forall from: nat, to: nat :: to < end ==> RunListed(s, ts, from, to)
  }

  ghost predicate PositionsRight(s: string, end: int, ts: seq<Token>) {
    && (forall k :: 0 <= k < |ts| ==>
          && ts[k].Part? && ts[k].start + ts[k].length <= |s| && ts[k].str == s[ts[k].start..ts[k].start + ts[k].length]
          && ts[k].start + ts[k].length < end && ts[k].index == k)
    && (forall j, k :: 0 <= j < k < |ts| ==> ts[j].start + ts[j].length < ts[k].start)
  }

  ghost predicate RunListed(s: string, ts: seq<Token>, from: nat, to: nat) {
    MaximalRun(s, from, to) <==> exists k :: 0 <= k < |ts| && Spans(ts[k], from, to)
  }

  /** A token could begin here. */
  ghost predicate RunStart(s: string, from: nat) {
    from == 0 || (from <= |s| && IsSeparator(s[from - 1]))
  }

  /** `tokenizer`: nothing for a missing input, the lowercased items of a list, and exactly
      the maximal separator-free runs of a lowercased text. */
  method Tokenize(input: Input, lower: string -> string) returns (tokens: seq<Token>)
    ensures input.Missing? ==> tokens == []
    ensures input.Items? ==>
            tokens == seq(|input.items|, i requires 0 <= i < |input.items| => Item(lower(input.items[i])))
    ensures input.Text? ==> RunsBefore(lower(input.text), |lower(input.text)| + 1, tokens)
  {
    match input
    case Missing => tokens := [];
    case Items(items) => tokens := seq(|items|, i requires 0 <= i < |items| => Item(lower(items[i])));
    case Text(text) => tokens := Split(lower(text));
  }

  /** The loop over the characters of a text. */
  method Split(s: string) returns (tokens: seq<Token>)
    ensures RunsBefore(s, |s| + 1, tokens)
  {
    hide RunsBefore;
    hide IsSeparator;
    tokens := [];
    var sliceStart, sliceEnd := 0, 0;
    NoRuns(s);
    while sliceEnd <= |s|
      invariant RunsBefore(s, sliceStart, tokens)
      invariant if sliceEnd <= |s| then SeparatorFree(s, sliceStart, sliceEnd) && RunStart(s, sliceStart)
                else sliceStart == |s| + 1
      decreases |s| + 1 - sliceEnd
    {
      if sliceEnd == |s| || IsSeparator(s[sliceEnd]) {
        var length := sliceEnd - sliceStart;
        NextRun(s, sliceStart, sliceEnd, tokens);
        if length > 0 {
          tokens := tokens + [Part(s[sliceStart..sliceEnd], sliceStart, length, |tokens|)];
        }
        sliceStart := sliceEnd + 1;
      }
      sliceEnd := sliceEnd + 1;
    }
  }

  lemma NoRuns(s: string)
    ensures RunsBefore(s, 0, [])
  {
  }

  /** Between two separators there is one run, or none if they are adjacent. */
  lemma NextRun(s: string, start: nat, end: nat, tokens: seq<Token>)
    requires start <= end <= |s| && RunsBefore(s, start, tokens) && SeparatorFree(s, start, end) && RunStart(s, start)
    requires end == |s| || IsSeparator(s[end])
    ensures var more := if end > start then tokens + [Part(s[start..end], start, end - start, |tokens|)] else tokens;
            RunsBefore(s, end + 1, more)
  {
    hide IsSeparator;
    hide MaximalRun;
    hide SeparatorFree;
    assert forall k :: 0 <= k < |tokens| ==> tokens[k].start + tokens[k].length < start;
    hide PositionsRight;
    NextPosition(s, start, end, tokens);
    var more := if end > start then tokens + [Part(s[start..end], start, end - start, |tokens|)] else tokens;
    assert forall k :: 0 <= k < |tokens| ==> more[k] == tokens[k];
    forall from: nat, to: nat | to < end + 1
      ensures RunListed(s, more, from, to)
    {
      if to < start {
        assert RunListed(s, tokens, from, to);
        if k :| 0 <= k < |more| && Spans(more[k], from, to) {
          assert k < |tokens|;
        }
      } else {
        RunBetween(s, start, end, from, to);
        if end > start && from == start && to == end {
          assert Spans(more[|tokens|], from, to);
        }
      }
    }
  }

  lemma NextPosition(s: string, start: nat, end: nat, tokens: seq<Token>)
    requires start <= end <= |s| && PositionsRight(s, start, tokens)
    ensures var more := if end > start then tokens + [Part(s[start..end], start, end - start, |tokens|)] else tokens;
            PositionsRight(s, end + 1, more)
  {
    if end > start {
      var t := Part(s[start..end], start, end - start, |tokens|);
      assert forall k :: 0 <= k < |tokens| ==> (tokens + [t])[k] == tokens[k];
      assert (tokens + [t])[|tokens|] == t;
    }
  }

  /** There is one such list of tokens. */
  lemma RunsOnce(s: string, end: int, ts: seq<Token>, us: seq<Token>)
    requires RunsBefore(s, end, ts) && RunsBefore(s, end, us)
    ensures ts == us
  {
    if |ts| <= |us| {
      SameRuns(s, end, ts, us, |ts|);
      assert ts == ts[..|ts|];
      NoMoreRuns(s, end, ts, us);
    } else {
      SameRuns(s, end, us, ts, |us|);
      assert us == us[..|us|];
      NoMoreRuns(s, end, us, ts);
    }
  }

  lemma {:induction false} SameRuns(s: string, end: int, ts: seq<Token>, us: seq<Token>, n: nat)
    requires RunsBefore(s, end, ts) && RunsBefore(s, end, us) && n <= |ts| && n <= |us|
    ensures ts[..n] == us[..n]
    decreases n
  {
    if n > 0 {
      SameRuns(s, end, ts, us, n - 1);
      var j := FoundLater(s, end, ts, us, n - 1);
      var k := FoundLater(s, end, us, ts, n - 1);
      assert ts[n - 1] == us[n - 1];
      assert ts[..n] == ts[..n - 1] + [ts[n - 1]] && us[..n] == us[..n - 1] + [us[n - 1]];
    }
  }

  /** A token of one list is in the other, and not before its place. */
  lemma FoundLater(s: string, end: int, ts: seq<Token>, us: seq<Token>, n: nat) returns (j: nat)
    requires RunsBefore(s, end, ts) && RunsBefore(s, end, us)
    requires n < |ts| && n <= |us| && ts[..n] == us[..n]
    ensures n <= j < |us| && Spans(us[j], ts[n].start, ts[n].start + ts[n].length)
  {
    var from, to := ts[n].start, ts[n].start + ts[n].length;
    assert Spans(ts[n], from, to);
    assert RunListed(s, ts, from, to) && RunListed(s, us, from, to);
    hide MaximalRun;
    assert forall i :: 0 <= i < n ==> us[i] == us[..n][i] == ts[..n][i] == ts[i];
    j :| 0 <= j < |us| && Spans(us[j], from, to);
  }

  lemma NoMoreRuns(s: string, end: int, ts: seq<Token>, us: seq<Token>)
    requires RunsBefore(s, end, ts) && RunsBefore(s, end, us) && |ts| <= |us| && ts == us[..|ts|]
    ensures ts == us
  {
    if |ts| < |us| {
      assert us[..|ts|] == ts[..|ts|];
      var j := FoundLater(s, end, us, ts, |ts|);
    }
  }

  /** What separates two letters, and what does not. */
  lemma SeparatedOrNot(a: char, c: char, b: char, ts: seq<Token>)
    requires 'a' <= a <= 'z' && 'a' <= b <= 'z' && RunsBefore([a, c, b], 4, ts)
    ensures ts == if c in SEPARATORS then [Part([a], 0, 1, 0), Part([b], 2, 1, 1)] else [Part([a, c, b], 0, 3, 0)]
  {
    var s := [a, c, b];
    SeparatorsListed(c);
    assert !IsSeparator(a) && !IsSeparator(b);
    assert s[0..1] == [a] && s[2..3] == [b] && s[0..3] == s;
    hide *;
    if IsSeparator(c) {
      TwoRuns(s);
      RunsOnce(s, 4, ts, [Part([a], 0, 1, 0), Part([b], 2, 1, 1)]);
    } else {
      OneRun(s);
      RunsOnce(s, 4, ts, [Part(s, 0, 3, 0)]);
    }
  }

  lemma TwoRuns(s: string)
    requires |s| == 3 && !IsSeparator(s[0]) && IsSeparator(s[1]) && !IsSeparator(s[2])
    ensures RunsBefore(s, 4, [Part(s[0..1], 0, 1, 0), Part(s[2..3], 2, 1, 1)])
  {
    hide RunsBefore;
    NoRuns(s);
    var first, second := Part(s[0..1], 0, 1, 0), Part(s[2..3], 2, 1, 1);
    NextRun(s, 0, 1, []);
    assert [] + [first] == [first];
    NextRun(s, 2, 3, [first]);
    assert [first] + [second] == [first, second];
  }

  lemma OneRun(s: string)
    requires |s| == 3 && !IsSeparator(s[0]) && !IsSeparator(s[1]) && !IsSeparator(s[2])
    ensures RunsBefore(s, 4, [Part(s[0..3], 0, 3, 0)])
  {
    hide RunsBefore;
    NoRuns(s);
    NextRun(s, 0, 3, []);
    assert [] + [Part(s[0..3], 0, 3, 0)] == [Part(s[0..3], 0, 3, 0)];
  }

  lemma RunBetween(s: string, start: nat, end: nat, from: nat, to: nat)
    requires SeparatorFree(s, start, end) && RunStart(s, start) && (end == |s| || IsSeparator(s[end]))
    requires start <= to <= end
    ensures MaximalRun(s, from, to) <==> start < end && from == start && to == end
  {
    hide IsSeparator;
    assert start > 0 ==> IsSeparator(s[start - 1]);
    if MaximalRun(s, from, to) {
      assert from >= start;
    }
  }
}
