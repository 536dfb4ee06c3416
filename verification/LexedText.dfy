/** What the lexer makes of a text, piece by piece. */
module LexedText {
  import opened Decimals
  import opened Tokenizing
  import opened QueryLexing

  /** A character that means nothing to the lexer. */
  predicate Plain(c: char) {
    c !in "\\:~^" && c !in SEPARATORS
  }

  /** Plain characters, and any characters behind a backslash. */
  predicate PlainRun(s: string, pos: nat, end: nat)
    decreases end - pos
  {
    && pos <= end <= |s|
    && (pos == end || if s[pos] == '\\' then PlainRun(s, pos + 2, end) else Plain(s[pos]) && PlainRun(s, pos + 1, end))
  }

  lemma {:induction false} RunGoesOn(s: string, start: nat, pos: nat, end: nat)
    requires start <= pos && PlainRun(s, pos, end) && (start < pos || pos == end || s[pos] != '+')
    ensures Lexemes(s, start, pos) == Lexemes(s, start, end)
    decreases end - pos
  {
    if pos < end {
      OneStep(s, start, pos);
      SeparatorsListed(s[pos]);
      hide Lexemes;
      RunGoesOn(s, start, if s[pos] == '\\' then pos + 2 else pos + 1, end);
    }
  }

  /** A run that does not begin with a plus is one term or one field, up to the end, a
      separator or a sign. */
  lemma RunLexed(s: string, start: nat, end: nat)
    requires PlainRun(s, start, end) && start < end && s[start] != '+'
    ensures var text := Unescape(s[start..end]);
            var term := Lexeme(TermLexeme, text, start, end);
            if end == |s| then Lexemes(s, start, start) == [term]
            else if s[end] in SEPARATORS then Lexemes(s, start, start) == [term] + Lexemes(s, end + 1, end + 1)
            else if s[end] == ':' then
              Lexemes(s, start, start) == [Lexeme(FieldLexeme, text, start, end)] + Lexemes(s, end + 1, end + 1)
            else if s[end] == '~' || s[end] == '^' then Lexemes(s, start, start) == [term] + Lexemes(s, end, end)
            else true
  {
    RunGoesOn(s, start, start, end);
    assert Slice(s, start, end) == s[start..end];
    if end < |s| {
      OneStep(s, start, end);
      OneStep(s, end, end);
      SeparatorsListed(s[end]);
      hide Lexemes;
      hide Number;
      assert TermIfAny(s, end, end) == [];
    }
  }

  /** A sign with the digits after it is a number, the empty run of digits included. */
  lemma NumberLexed(s: string, pos: nat, end: nat)
    requires pos < end <= |s| && (forall i :: pos < i < end ==> s[i] in "0123456789")
    requires end < |s| ==> s[end] !in "0123456789"
    requires s[pos] == '~' || s[pos] == '^'
    ensures Lexemes(s, pos, pos) ==
            [Lexeme(if s[pos] == '~' then EditDistanceLexeme else BoostLexeme, s[pos + 1..end], pos + 1, end)]
              + Lexemes(s, end, end)
  {
    DigitsEndAt(s, pos + 1, end);
    OneStep(s, pos, pos);
    hide Lexemes;
    assert TermIfAny(s, pos, pos) == [];
    assert Slice(s, pos + 1, end) == s[pos + 1..end];
    NothingToUnescape(s[pos + 1..end]);
  }

  lemma {:induction false} DigitsEndAt(s: string, pos: nat, end: nat)
    requires pos <= end <= |s| && (forall i :: pos <= i < end ==> s[i] in "0123456789")
    requires end < |s| ==> s[end] !in "0123456789"
    ensures DigitsEnd(s, pos) == end
    decreases end - pos
  {
    if pos < |s| {
      ParseDigit("", s[pos]);
    }
    if pos < end {
      DigitsEndAt(s, pos + 1, end);
    }
  }

  /** A plus or a hyphen where a lexeme begins is a presence; other separators there are skipped. */
  lemma StartLexed(s: string, pos: nat)
    requires pos < |s|
    ensures s[pos] == '+' || s[pos] == '-' ==>
              Lexemes(s, pos, pos) == [Lexeme(PresenceLexeme, [s[pos]], pos, pos + 1)] + Lexemes(s, pos + 1, pos + 1)
    ensures s[pos] in SEPARATORS && s[pos] != '-' ==> Lexemes(s, pos, pos) == Lexemes(s, pos + 1, pos + 1)
  {
    OneStep(s, pos, pos);
    SeparatorsListed(s[pos]);
    hide Lexemes;
    assert TermIfAny(s, pos, pos) == [];
    assert Slice(s, pos, pos + 1) == [s[pos]];
    if s[pos] == '+' || s[pos] == '-' {
      NothingToUnescape([s[pos]]);
    }
  }

  /** The first backslash goes and what it escapes stays; a backslash at the end goes. */
  lemma {:induction false} UnescapeFirst(t: string, c: char, u: string)
    requires '\\' !in t
    ensures Unescape(t + "\\" + [c] + u) == t + [c] + Unescape(u)
    ensures Unescape(t + "\\") == t == Unescape(t)
    decreases |t|
  {
    if t == [] {
      assert "\\" + [c] + u == ['\\', c] + u && (['\\', c] + u)[2..] == u;
      assert t + "\\" + [c] + u == "\\" + [c] + u;
    } else {
      UnescapeFirst(t[1..], c, u);
      assert (t + "\\" + [c] + u)[1..] == t[1..] + "\\" + [c] + u;
      assert (t + "\\")[1..] == t[1..] + "\\";
      assert t[..1] + (t[1..] + [c] + Unescape(u)) == t + [c] + Unescape(u);
    }
  }

  /** A word of plain characters that does not begin with a plus is one term, as "c++" is. */
  lemma WordLexed(s: string)
    requires s != [] && s[0] != '+' && forall c :: c in s ==> Plain(c)
    ensures Lexemes(s, 0, 0) == [Lexeme(TermLexeme, s, 0, |s|)]
  {
    assert '\\' !in s && s[0..|s|] == s;
    hide *;
    PlainToEnd(s, 0);
    NothingToUnescape(s);
    RunLexed(s, 0, |s|);
  }

  lemma {:induction false} PlainToEnd(s: string, pos: nat)
    requires pos <= |s| && forall i :: pos <= i < |s| ==> Plain(s[i])
    ensures PlainRun(s, pos, |s|)
    decreases |s| - pos
  {
    if pos < |s| {
      PlainToEnd(s, pos + 1);
    }
  }

  /** What separates two letters of a query, and what does not, among the characters that
      mean nothing else. */
  lemma QuerySeparatedOrNot(a: char, c: char, b: char)
    requires 'a' <= a <= 'z' && 'a' <= b <= 'z' && c !in "\\:~^"
    ensures Lexemes([a, c, b], 0, 0) ==
              if c in SEPARATORS then [Lexeme(TermLexeme, [a], 0, 1), Lexeme(TermLexeme, [b], 2, 3)]
              else [Lexeme(TermLexeme, [a, c, b], 0, 3)]
  {
    var s := [a, c, b];
    SeparatorsListed(a);
    SeparatorsListed(b);
    if c in SEPARATORS {
      assert s[0..1] == [a] && s[2..3] == [b];
      RunLexed(s, 0, 1);
      RunLexed(s, 2, 3);
      NothingToUnescape([a]);
      NothingToUnescape([b]);
    } else {
      WordLexed(s);
    }
  }
}
