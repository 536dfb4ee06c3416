/** `lunr.QueryLexer`: a state machine over the query string. */
module QueryLexing {
  import opened Decimals
  import opened Options
  import opened Tokenizing

  datatype LexemeType = FieldLexeme | TermLexeme | EditDistanceLexeme | BoostLexeme | PresenceLexeme

  datatype Lexeme = Lexeme(kind: LexemeType, str: string, start: nat, end: nat)

  const BACKSLASH: char := '\\'

  // ----- Reference definition: what lexemes a string has

  /** `slice`, which stops at the end of the string. */
  function Slice(s: string, from: nat, to: nat): string {
    if from >= |s| || to <= from then [] else if to >= |s| then s[from..] else s[from..to]
  }

  /** The text with each escaping backslash removed; what a backslash escapes stays,
      even if it is a backslash. */
  function Unescape(t: string): string {
    if t == [] then []
    else if t[0] == BACKSLASH then (if |t| > 1 then [t[1]] + Unescape(t[2..]) else [])
    else [t[0]] + Unescape(t[1..])
  }

  function LexemeOf(s: string, kind: LexemeType, start: nat, end: nat): Lexeme {
    Lexeme(kind, Unescape(Slice(s, start, end)), start, end)
  }

  function TermIfAny(s: string, start: nat, end: nat): seq<Lexeme> {
    if end > start then [LexemeOf(s, TermLexeme, start, end)] else []
  }

  function DigitsEnd(s: string, pos: nat): (end: nat)
    ensures pos <= end && (pos <= |s| ==> end <= |s|)
    decreases |s| - pos
  {
    if pos < |s| && IsDigit(s[pos]) then DigitsEnd(s, pos + 1) else pos
  }

  function Number(s: string, kind: LexemeType, pos: nat): seq<Lexeme>
    requires pos < |s|
    decreases |s| + 1 - pos, 1
  {
    var end := DigitsEnd(s, pos + 1);
    [LexemeOf(s, kind, pos + 1, end)] + Lexemes(s, end, end)
  }

  /** The lexemes from `pos` on, when the current one began at `start`. */
  function Lexemes(s: string, start: nat, pos: nat): seq<Lexeme>
    decreases |s| + 1 - pos, 2
  {
    if pos >= |s| then TermIfAny(s, start, pos)
    else
      var c := s[pos];
      if c == BACKSLASH then Lexemes(s, start, pos + 2)
      else if c == ':' then [LexemeOf(s, FieldLexeme, start, pos)] + Lexemes(s, pos + 1, pos + 1)
      else if c == '~' then TermIfAny(s, start, pos) + Number(s, EditDistanceLexeme, pos)
      else if c == '^' then TermIfAny(s, start, pos) + Number(s, BoostLexeme, pos)
      else if (c == '+' || c == '-') && start == pos then
        [LexemeOf(s, PresenceLexeme, start, pos + 1)] + Lexemes(s, pos + 1, pos + 1)
      else if IsSeparator(c) then TermIfAny(s, start, pos) + Lexemes(s, pos + 1, pos + 1)
      else Lexemes(s, start, pos + 1)
  }

  // ----- What every list of lexemes is like

  ghost predicate Ordered(s: string, from: nat, ls: seq<Lexeme>) {
    && (forall i :: 0 <= i < |ls| ==> from <= ls[i].start <= ls[i].end <= |s| + 1)
    && (forall i, j :: 0 <= i < j < |ls| ==> ls[i].end <= ls[j].start)
  }

  predicate Exact(s: string, l: Lexeme) {
    && l.str == Unescape(Slice(s, l.start, l.end))
    && (l.kind == TermLexeme ==> l.start < l.end)
    && (l.kind == PresenceLexeme ==> l.str == "+" || l.str == "-")
    && (l.kind == EditDistanceLexeme || l.kind == BoostLexeme ==> forall c :: c in l.str ==> IsDigit(c))
  }

  ghost predicate OrderedAndExact(s: string, from: nat, ls: seq<Lexeme>) {
    Ordered(s, from, ls) && forall l :: l in ls ==> Exact(s, l)
  }

  lemma OneMore(s: string, from: nat, l: Lexeme, next: nat, ls: seq<Lexeme>)
    requires from <= l.start <= l.end <= next && l.end <= |s| + 1 && Exact(s, l) && OrderedAndExact(s, next, ls)
    ensures OrderedAndExact(s, from, [l] + ls)
  {
    var all := [l] + ls;
    assert forall i :: 0 < i < |all| ==> all[i] == ls[i - 1];
  }

  lemma Earlier(s: string, from: nat, next: nat, ls: seq<Lexeme>)
    requires from <= next && OrderedAndExact(s, next, ls)
    ensures OrderedAndExact(s, from, ls)
  {
  }

  lemma {:induction false} DigitsOnly(s: string, pos: nat)
    requires pos <= |s|
    ensures forall i :: pos <= i < DigitsEnd(s, pos) ==> IsDigit(s[i])
    decreases |s| - pos
  {
    if pos < |s| && IsDigit(s[pos]) {
      DigitsOnly(s, pos + 1);
    }
  }

  lemma {:induction false} NothingToUnescape(t: string)
    requires BACKSLASH !in t
    ensures Unescape(t) == t
    decreases |t|
  {
    if t != [] {
      NothingToUnescape(t[1..]);
      assert t == [t[0]] + t[1..];
    }
  }

  /** Spans are in order and do not overlap, and each lexeme's text is its span without the
      escaping backslashes. */
  lemma {:induction false} LexemesOrderedAndExact(s: string, start: nat, pos: nat)
    requires start <= pos <= |s| + 1
    ensures OrderedAndExact(s, start, Lexemes(s, start, pos))
    decreases |s| + 1 - pos, 2
  {
    if pos >= |s| {
      assert OrderedAndExact(s, pos, []);
      TermBefore(s, start, pos, []);
      assert TermIfAny(s, start, pos) + [] == TermIfAny(s, start, pos);
    } else {
      OneStep(s, start, pos);
      hide *;
      var c := s[pos];
      if c == BACKSLASH {
        LexemesOrderedAndExact(s, start, pos + 2);
      } else if c == ':' {
        LexemesOrderedAndExact(s, pos + 1, pos + 1);
        FieldBefore(s, start, pos, Lexemes(s, pos + 1, pos + 1));
      } else if c == '~' {
        NumberOrderedAndExact(s, EditDistanceLexeme, pos);
        TermBefore(s, start, pos, Number(s, EditDistanceLexeme, pos));
      } else if c == '^' {
        NumberOrderedAndExact(s, BoostLexeme, pos);
        TermBefore(s, start, pos, Number(s, BoostLexeme, pos));
      } else if (c == '+' || c == '-') && start == pos {
        LexemesOrderedAndExact(s, pos + 1, pos + 1);
        PresenceBefore(s, pos, Lexemes(s, pos + 1, pos + 1));
      } else if IsSeparator(c) {
        LexemesOrderedAndExact(s, pos + 1, pos + 1);
        Earlier(s, pos, pos + 1, Lexemes(s, pos + 1, pos + 1));
        TermBefore(s, start, pos, Lexemes(s, pos + 1, pos + 1));
      } else {
        LexemesOrderedAndExact(s, start, pos + 1);
      }
    }
  }

  lemma OneStep(s: string, start: nat, pos: nat)
    requires pos < |s|
    ensures Lexemes(s, start, pos) ==
            var c := s[pos];
            if c == BACKSLASH then Lexemes(s, start, pos + 2)
            else if c == ':' then [LexemeOf(s, FieldLexeme, start, pos)] + Lexemes(s, pos + 1, pos + 1)
            else if c == '~' then TermIfAny(s, start, pos) + Number(s, EditDistanceLexeme, pos)
            else if c == '^' then TermIfAny(s, start, pos) + Number(s, BoostLexeme, pos)
            else if (c == '+' || c == '-') && start == pos then
              [LexemeOf(s, PresenceLexeme, start, pos + 1)] + Lexemes(s, pos + 1, pos + 1)
            else if IsSeparator(c) then TermIfAny(s, start, pos) + Lexemes(s, pos + 1, pos + 1)
            else Lexemes(s, start, pos + 1)
  {
    hide LexemeOf;
    hide TermIfAny;
    hide Number;
    hide IsSeparator;
  }

  lemma FieldBefore(s: string, start: nat, pos: nat, ls: seq<Lexeme>)
    requires start <= pos < |s| && OrderedAndExact(s, pos + 1, ls)
    ensures OrderedAndExact(s, start, [LexemeOf(s, FieldLexeme, start, pos)] + ls)
  {
    hide OrderedAndExact;
    OneMore(s, start, LexemeOf(s, FieldLexeme, start, pos), pos + 1, ls);
  }

  lemma PresenceBefore(s: string, pos: nat, ls: seq<Lexeme>)
    requires pos < |s| && (s[pos] == '+' || s[pos] == '-') && OrderedAndExact(s, pos + 1, ls)
    ensures OrderedAndExact(s, pos, [LexemeOf(s, PresenceLexeme, pos, pos + 1)] + ls)
  {
    hide OrderedAndExact;
    assert Slice(s, pos, pos + 1) == [s[pos]];
    NothingToUnescape([s[pos]]);
    OneMore(s, pos, LexemeOf(s, PresenceLexeme, pos, pos + 1), pos + 1, ls);
  }

  lemma TermBefore(s: string, start: nat, pos: nat, ls: seq<Lexeme>)
    requires start <= pos <= |s| + 1 && OrderedAndExact(s, pos, ls)
    ensures OrderedAndExact(s, start, TermIfAny(s, start, pos) + ls)
  {
    hide OrderedAndExact;
    if pos > start {
      OneMore(s, start, LexemeOf(s, TermLexeme, start, pos), pos, ls);
    } else {
      assert TermIfAny(s, start, pos) + ls == ls;
    }
  }

  lemma {:induction false} NumberOrderedAndExact(s: string, kind: LexemeType, pos: nat)
    requires pos < |s| && (kind == EditDistanceLexeme || kind == BoostLexeme)
    ensures OrderedAndExact(s, pos, Number(s, kind, pos))
    decreases |s| + 1 - pos, 1
  {
    var end := DigitsEnd(s, pos + 1);
    LexemesOrderedAndExact(s, end, end);
    DigitsOnly(s, pos + 1);
    hide OrderedAndExact;
    hide Lexemes;
    var digits := Slice(s, pos + 1, end);
    assert forall i :: 0 <= i < |digits| ==> digits[i] == s[pos + 1 + i];
    NothingToUnescape(digits);
    hide Slice;
    hide Unescape;
    OneMore(s, pos, LexemeOf(s, kind, pos + 1, end), end, Lexemes(s, end, end));
  }

  // ----- The lexer object

  /** Where the escaping backslashes between `start` and `pos` are. */
  function Escapes(s: string, start: nat, pos: nat): seq<nat>
    decreases pos - start
  {
    if start >= pos || start >= |s| then []
    else if s[start] == BACKSLASH then [start] + Escapes(s, start + 2, pos)
    else Escapes(s, start + 1, pos)
  }

  /** Reading from `start`, an escaped character together with its backslash, one comes to `pos`. */
  predicate Reaches(s: string, start: nat, pos: nat)
    decreases pos - start
  {
    start == pos || (start < pos && start < |s| && Reaches(s, start + (if s[start] == BACKSLASH then 2 else 1), pos))
  }

  /** What `sliceString` joins: the text between the escaping backslashes. */
  function Pieces(s: string, from: nat, escapes: seq<nat>, to: nat): string
    decreases |escapes|
  {
    if escapes == [] then Slice(s, from, to)
    else Slice(s, from, escapes[0]) + Pieces(s, escapes[0] + 1, escapes[1..], to)
  }

  lemma {:induction false} EscapesFrom(s: string, start: nat, pos: nat)
    ensures forall i :: 0 <= i < |Escapes(s, start, pos)| ==> start <= Escapes(s, start, pos)[i]
    decreases pos - start
  {
    if start < pos && start < |s| {
      EscapesFrom(s, start + (if s[start] == BACKSLASH then 2 else 1), pos);
    }
  }

  lemma PiecesFirst(s: string, from: nat, escapes: seq<nat>, to: nat)
    requires from < |s| && from < to && (escapes != [] ==> from < escapes[0])
    ensures Pieces(s, from, escapes, to) == [s[from]] + Pieces(s, from + 1, escapes, to)
  {
    SliceFirst(s, from, if escapes == [] then to else escapes[0]);
  }

  lemma SliceFirst(s: string, from: nat, to: nat)
    requires from < |s| && from < to
    ensures Slice(s, from, to) == [s[from]] + Slice(s, from + 1, to)
  {
  }

  /** Joining the pieces removes exactly the escaping backslashes. */
  lemma {:induction false} PiecesAreUnescaped(s: string, start: nat, pos: nat)
    requires Reaches(s, start, pos)
    ensures Pieces(s, start, Escapes(s, start, pos), pos) == Unescape(Slice(s, start, pos))
    decreases pos - start
  {
    if start < pos {
      var t := Slice(s, start, pos);
      if s[start] == BACKSLASH {
        var more := Escapes(s, start + 2, pos);
        EscapesFrom(s, start + 2, pos);
        PiecesAreUnescaped(s, start + 2, pos);
        assert Escapes(s, start, pos)[1..] == more;
        assert Pieces(s, start, Escapes(s, start, pos), pos) ==
               Slice(s, start, start) + Pieces(s, start + 1, more, pos);
        if start + 1 < |s| {
          PiecesFirst(s, start + 1, more, pos);
          assert t[2..] == Slice(s, start + 2, pos);
        } else {
          assert Escapes(s, start + 2, pos) == [];
        }
      } else {
        EscapesFrom(s, start + 1, pos);
        PiecesFirst(s, start, Escapes(s, start + 1, pos), pos);
        PiecesAreUnescaped(s, start + 1, pos);
        assert t[1..] == Slice(s, start + 1, pos);
      }
    }
  }

  lemma {:induction false} ReachFurther(s: string, start: nat, pos: nat)
    requires Reaches(s, start, pos) && pos < |s|
    ensures var next := pos + (if s[pos] == BACKSLASH then 2 else 1);
            && Reaches(s, start, next)
            && Escapes(s, start, next) == Escapes(s, start, pos) + (if s[pos] == BACKSLASH then [pos] else [])
    decreases pos - start
  {
    if start < pos {
      ReachFurther(s, start + (if s[start] == BACKSLASH then 2 else 1), pos);
    }
  }

  /** The state functions; `Stop` where one returns none. */
  datatype LexState = LexText | LexField | LexTerm | LexEditDistance | LexBoost | LexEOS | Stop

  class QueryLexer {
    const str: string
    var lexemes: seq<Lexeme>
    var pos: nat
    var start: nat
    var escapeCharPositions: seq<nat>

    constructor (str: string)
      ensures this.str == str && lexemes == [] && Valid() && start == pos == 0
    {
      this.str := str;
      lexemes, pos, start, escapeCharPositions := [], 0, 0, [];
    }

    ghost predicate Valid()
      reads this
    {
      ReadUpTo(pos) && pos <= |str| + 1
    }

    /** The text from `start` to `p` has been read, and its escapes recorded. */
    ghost predicate ReadUpTo(p: int)
      reads this
    {
      start <= p && Reaches(str, start, p) && escapeCharPositions == Escapes(str, start, p)
    }

    /** What each state expects: in the states after a colon or a separator, that was the
        last character read; before a number, the sign is the next one. */
    ghost predicate ReadyFor(state: LexState)
      reads this
    {
      match state
      case LexText => Valid()
      case LexField => pos <= |str| && ReadUpTo(pos - 1)
      case LexTerm => pos <= |str| && ReadUpTo(pos - 1)
      case LexEditDistance => Valid() && start == pos < |str|
      case LexBoost => Valid() && start == pos < |str|
      case LexEOS => Valid() && pos >= |str|
      case Stop => true
    }

    /** The lexemes still to come. */
    ghost function Future(state: LexState): seq<Lexeme>
      reads this
      requires ReadyFor(state)
    {
      match state
      case LexText => Lexemes(str, start, pos)
      case LexField => [LexemeOf(str, FieldLexeme, start, pos - 1)] + Lexemes(str, pos, pos)
      case LexTerm => TermIfAny(str, start, pos - 1) + Lexemes(str, pos, pos)
      case LexEditDistance => Number(str, EditDistanceLexeme, pos)
      case LexBoost => Number(str, BoostLexeme, pos)
      case LexEOS => TermIfAny(str, start, pos)
      case Stop => []
    }

    /** Decreases from state to state: every return to `LexText` has advanced `pos`. */
    ghost function Measure(state: LexState): int
      reads this
    {
      var left := |str| + 2 - pos;
      match state
      case LexText => 2 * left + 1
      case LexField => 2 * left + 2
      case LexTerm => 2 * left + 2
      case LexEditDistance => 2 * left
      case LexBoost => 2 * left
      case LexEOS => 1
      case Stop => 0
    }

    method SliceString() returns (t: string)
      modifies this`escapeCharPositions
      ensures t == Pieces(str, start, old(escapeCharPositions), pos) && escapeCharPositions == []
    {
      hide Slice;
      t := [];
      var n := start;
      var i := 0;
      assert escapeCharPositions[0..] == escapeCharPositions;
      while i < |escapeCharPositions|
        invariant 0 <= i <= |escapeCharPositions| && escapeCharPositions == old(escapeCharPositions)
        invariant t + Pieces(str, n, escapeCharPositions[i..], pos) == Pieces(str, start, escapeCharPositions, pos)
      {
        var r := escapeCharPositions[i];
        assert escapeCharPositions[i..][1..] == escapeCharPositions[i + 1..];
        t := t + Slice(str, n, r);
        n := r + 1;
        i := i + 1;
      }
      t := t + Slice(str, n, pos);
      escapeCharPositions := [];
    }

    method Emit(kind: LexemeType)
      requires Valid()
      modifies this
      ensures lexemes == old(lexemes) + [LexemeOf(str, kind, old(start), old(pos))]
      ensures start == pos == old(pos) && escapeCharPositions == [] && Valid()
    {
      PiecesAreUnescaped(str, start, pos);
      var t := SliceString();
      lexemes := lexemes + [Lexeme(kind, t, start, pos)];
      start := pos;
    }

    method EscapeCharacter()
      requires pos > 0
      modifies this`escapeCharPositions, this`pos
      ensures escapeCharPositions == old(escapeCharPositions) + [old(pos) - 1] && pos == old(pos) + 1
    {
      escapeCharPositions := escapeCharPositions + [pos - 1];
      pos := pos + 1;
    }

    /** The next character; none at the end of the string. */
    method Next() returns (c: Option<char>)
      modifies this`pos
      ensures if old(pos) < |str| then c == Some(str[old(pos)]) && pos == old(pos) + 1 else c == None && pos == old(pos)
    {
      if pos >= |str| {
        return None;
      }
      c := Some(str[pos]);
      pos := pos + 1;
    }

    function Width(): int
      reads this
    {
      pos - start
    }

    method Ignore()
      modifies this`pos, this`start
      ensures start == pos == if old(start) == old(pos) then old(pos) + 1 else old(pos)
    {
      if start == pos {
        pos := pos + 1;
      }
      start := pos;
    }

    method Backup()
      requires pos > 0
      modifies this`pos
      ensures pos == old(pos) - 1
    {
      pos := pos - 1;
    }

    method AcceptDigitRun()
      requires pos <= |str|
      modifies this`pos
      ensures pos == DigitsEnd(str, old(pos))
    {
      var c := Next();
      while c.Some? && IsDigit(c.value)
        invariant pos <= |str| && if c.Some? then pos > 0 && c.value == str[pos - 1] else pos == |str|
        invariant DigitsEnd(str, if c.Some? then pos - 1 else pos) == DigitsEnd(str, old(pos))
        decreases |str| - pos, if c.Some? then 1 else 0
      {
        c := Next();
      }
      if c.Some? {
        Backup();
      }
    }

    predicate More()
      reads this
    {
      pos < |str|
    }

    method RunLexField() returns (next: LexState)
      requires ReadyFor(LexField)
      modifies this
      ensures ReadyFor(next) && lexemes + Future(next) == old(lexemes + Future(LexField))
      ensures Measure(next) < old(Measure(LexField))
    {
      Backup();
      Emit(FieldLexeme);
      Ignore();
      next := LexText;
    }

    method RunLexTerm() returns (next: LexState)
      requires ReadyFor(LexTerm)
      modifies this
      ensures ReadyFor(next) && lexemes + Future(next) == old(lexemes + Future(LexTerm))
      ensures Measure(next) < old(Measure(LexTerm))
    {
      hide Slice;
      hide Unescape;
      AtEndNone(str);
      hide Lexemes;
      if Width() > 1 {
        Backup();
        Emit(TermLexeme);
      } else {
        assert escapeCharPositions == [];
      }
      Ignore();
      next := if More() then LexText else Stop;
    }

    method RunLexNumber(kind: LexemeType, ghost state: LexState) returns (next: LexState)
      requires ReadyFor(state) && ((kind == EditDistanceLexeme && state == LexEditDistance)
                                   || (kind == BoostLexeme && state == LexBoost))
      modifies this
      ensures ReadyFor(next) && lexemes + Future(next) == old(lexemes + Future(state))
      ensures Measure(next) < old(Measure(state))
    {
      hide Unescape;
      hide Slice;
      Ignore();
      ghost var from := pos;
      AcceptDigitRun();
      DigitsReach(str, from, pos);
      Emit(kind);
      next := LexText;
    }

    method RunLexEOS() returns (next: LexState)
      requires ReadyFor(LexEOS)
      modifies this
      ensures next == Stop && lexemes == old(lexemes + Future(LexEOS))
    {
      if Width() > 0 {
        Emit(TermLexeme);
      }
      next := Stop;
    }

    /** Back to before the sign of a number; a term that comes before it ends there. */
    method EndTermBefore()
      requires 0 < pos <= |str| && ReadUpTo(pos - 1)
      modifies this
      ensures start == pos == old(pos) - 1 && Valid()
      ensures lexemes == old(lexemes) + TermIfAny(str, old(start), old(pos) - 1)
    {
      Backup();
      if Width() > 0 {
        Emit(TermLexeme);
      }
    }

    method RunLexText() returns (next: LexState)
      requires ReadyFor(LexText)
      modifies this
      ensures ReadyFor(next) && lexemes + Future(next) == old(lexemes + Future(LexText))
      ensures Measure(next) < old(Measure(LexText))
    {
      hide Slice;
      hide Unescape;
      hide IsSeparator;
      hide Reaches;
      hide Escapes;
      ghost var lexemes0, all := lexemes, Lexemes(str, start, pos);
      ghost var pos0 := pos;
      while true
        invariant Valid() && pos0 <= pos && lexemes == lexemes0 && start == old(start)
        invariant Lexemes(str, start, pos) == all
        decreases |str| + 1 - pos
      {
        ghost var p := pos;
        if p < |str| {
          ReachFurther(str, start, p);
        }
        var n := Next();
        if n == None {
          return LexEOS;
        }
        var c := n.value;
        if c == BACKSLASH {
          EscapeCharacter();
          continue;
        }
        if c == ':' {
          return LexField;
        }
        if c == '~' {
          EndTermBefore();
          return LexEditDistance;
        }
        if c == '^' {
          EndTermBefore();
          return LexBoost;
        }
        if (c == '+' && Width() == 1) || (c == '-' && Width() == 1) {
          Emit(PresenceLexeme);
          return LexText;
        }
        if IsSeparator(c) {
          return LexTerm;
        }
      }
    }

    /** `run`: from state to state until there is none.  It ends on every string, with the
        lexemes of the reference definition. */
    method RunAll()
      requires lexemes == [] && Valid() && start == pos == 0
      modifies this
      ensures lexemes == Lexemes(str, 0, 0)
    {
      var state := LexText;
      while state != Stop
        invariant ReadyFor(state) && lexemes + Future(state) == Lexemes(str, 0, 0)
        decreases Measure(state)
      {
        match state
        case LexText => state := RunLexText();
        case LexField => state := RunLexField();
        case LexTerm => state := RunLexTerm();
        case LexEditDistance => state := RunLexNumber(EditDistanceLexeme, state);
        case LexBoost => state := RunLexNumber(BoostLexeme, state);
        case LexEOS => state := RunLexEOS();
      }
    }
  }

  lemma AtEndNone(s: string)
    ensures forall pos: nat :: pos >= |s| ==> Lexemes(s, pos, pos) == []
  {
  }

  /** Digits are not escaped. */
  lemma {:induction false} DigitsReach(s: string, from: nat, to: nat)
    requires from <= to <= |s| && to == DigitsEnd(s, from)
    ensures Reaches(s, from, to) && Escapes(s, from, to) == []
    decreases |s| - from
  {
    if from < to {
      DigitsReach(s, from + 1, to);
    }
  }
}
