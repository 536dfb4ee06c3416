/** Printing a query and reading it back. */
module QueryPrinting {
  import opened Decimals
  import opened Options
  import opened TokenSets
  import opened Queries
  import opened QueryLexing
  import opened QueryParsing

  /** A clause that the query language can express. */
  datatype Printable = Printable(presence: Presence, field: Option<string>, term: string,
                                 editDistance: Option<nat>, boost: Option<nat>)

  /** Every character behind a backslash. */
  function Escaped(t: string): string {
    if t == [] then [] else [BACKSLASH, t[0]] + Escaped(t[1..])
  }

  function PrintPresence(p: Presence): string {
    match p
    case Optional => ""
    case Required => "+"
    case Prohibited => "-"
  }

  function PrintField(field: Option<string>): string {
    if field.Some? then Escaped(field.value) + ":" else ""
  }

  function PrintNumber(sign: char, n: Option<nat>): string {
    if n.Some? then [sign] + Decimal(n.value) else ""
  }

  function PrintNumbers(p: Printable): string {
    PrintNumber('~', p.editDistance) + PrintNumber('^', p.boost)
  }

  function PrintFromTerm(p: Printable): string {
    Escaped(p.term) + PrintNumbers(p)
  }

  function PrintClause(p: Printable): string {
    PrintPresence(p.presence) + (PrintField(p.field) + PrintFromTerm(p))
  }

  /** The clauses with one space between them. */
  function Print(ps: seq<Printable>): string {
    if ps == [] then []
    else if |ps| == 1 then PrintClause(ps[0])
    else PrintClause(ps[0]) + (" " + Print(ps[1..]))
  }

  /** The clause as it should come back: its term in lower case, and the documented defaults,
      which are all fields, boost 1, presence optional, no wildcards, and the pipeline unless
      the term has a star. */
  function Expected(ctx: Context, p: Printable): Clause {
    Clause(ctx.lower(p.term),
           if p.field.Some? then [p.field.value] else ctx.allFields,
           if p.boost.Some? then p.boost.value else 1,
           WILDCARD !in p.term,
           NO_WILDCARD,
           p.presence,
           p.editDistance)
  }

  function ExpectedAll(ctx: Context, ps: seq<Printable>): seq<Clause> {
    if ps == [] then [] else [Expected(ctx, ps[0])] + ExpectedAll(ctx, ps[1..])
  }

  predicate CanPrint(ctx: Context, p: Printable) {
    p.term != [] && (p.field.Some? ==> p.field.value in ctx.allFields)
  }

  // ----- Reading what was printed

  /** `x` is what the string has at a position. */
  predicate Has(s: string, pos: nat, x: string) {
    pos + |x| <= |s| && s[pos..pos + |x|] == x
  }

  lemma HasSplit(s: string, pos: nat, x: string, y: string)
    requires Has(s, pos, x + y)
    ensures Has(s, pos, x) && Has(s, pos + |x|, y)
  {
    var t := s[pos..pos + |x + y|];
    assert s[pos..pos + |x|] == t[..|x|] == x;
    assert s[pos + |x|..pos + |x| + |y|] == t[|x|..] == y;
  }

  lemma HasFirst(s: string, pos: nat, x: string)
    requires Has(s, pos, x) && x != []
    ensures pos < |s| && s[pos] == x[0] && Has(s, pos + 1, x[1..])
  {
    assert x == [x[0]] + x[1..];
    HasSplit(s, pos, [x[0]], x[1..]);
  }

  lemma {:induction false} EscapedLength(t: string)
    ensures |Escaped(t)| == 2 * |t|
    decreases |t|
  {
    if t != [] {
      EscapedLength(t[1..]);
    }
  }

  lemma {:induction false} UnescapeEscaped(t: string)
    ensures Unescape(Escaped(t)) == t
    decreases |t|
  {
    if t != [] {
      var e := Escaped(t[1..]);
      UnescapeEscaped(t[1..]);
      assert t == [t[0]] + t[1..];
      assert ([BACKSLASH, t[0]] + e)[2..] == e;
      assert Unescape([BACKSLASH, t[0]] + e) == [t[0]] + Unescape(e);
    }
  }

  /** The lexer runs over escaped text. */
  lemma {:induction false} OverEscaped(s: string, start: nat, pos: nat, t: string)
    requires Has(s, pos, Escaped(t))
    ensures Lexemes(s, start, pos) == Lexemes(s, start, pos + 2 * |t|)
    decreases |t|
  {
    if t != [] {
      var e := Escaped(t);
      assert e == [BACKSLASH, t[0]] + Escaped(t[1..]);
      HasSplit(s, pos, [BACKSLASH, t[0]], Escaped(t[1..]));
      HasFirst(s, pos, [BACKSLASH, t[0]]);
      OverEscaped(s, start, pos + 2, t[1..]);
    }
  }

  lemma SliceHas(s: string, pos: nat, x: string)
    requires Has(s, pos, x)
    ensures Slice(s, pos, pos + |x|) == x
  {
  }

  lemma {:induction false} OverDigits(s: string, pos: nat, d: string)
    requires Has(s, pos, d) && (forall c :: c in d ==> IsDigit(c))
    requires pos + |d| == |s| || !IsDigit(s[pos + |d|])
    ensures DigitsEnd(s, pos) == pos + |d|
    decreases |d|
  {
    if d != [] {
      HasFirst(s, pos, d);
      OverDigits(s, pos + 1, d[1..]);
    }
  }

  /** Between two positions at which no lexeme has been begun, the lexer emits these. */
  predicate ReadsAs(s: string, pos: nat, ls: seq<Lexeme>, end: nat) {
    Lexemes(s, pos, pos) == ls + Lexemes(s, end, end)
  }

  lemma ReadsThen(s: string, pos: nat, ls: seq<Lexeme>, mid: nat, more: seq<Lexeme>, end: nat)
    requires ReadsAs(s, pos, ls, mid) && ReadsAs(s, mid, more, end)
    ensures ReadsAs(s, pos, ls + more, end)
  {
    hide Lexemes;
  }

  // One step of the reference lexer.

  lemma AtSpace(s: string, start: nat, pos: nat)
    requires pos < |s| && s[pos] == ' '
    ensures Lexemes(s, start, pos) == TermIfAny(s, start, pos) + Lexemes(s, pos + 1, pos + 1)
  {
  }

  lemma AtColon(s: string, start: nat, pos: nat)
    requires pos < |s| && s[pos] == ':'
    ensures Lexemes(s, start, pos) == [LexemeOf(s, FieldLexeme, start, pos)] + Lexemes(s, pos + 1, pos + 1)
  {
  }

  lemma AtEnd(s: string)
    ensures Lexemes(s, |s|, |s|) == []
  {
  }

  lemma AtSign(s: string, start: nat, pos: nat, kind: LexemeType)
    requires pos < |s| && ((s[pos] == '~' && kind == EditDistanceLexeme) || (s[pos] == '^' && kind == BoostLexeme))
    ensures Lexemes(s, start, pos) == TermIfAny(s, start, pos) + Number(s, kind, pos)
  {
  }

  /** A term that has just been read is the next lexeme if something that ends it follows. */
  lemma AtTermEnd(s: string, start: nat, pos: nat)
    requires start < pos && (Ends(s, pos) || (pos < |s| && (s[pos] == '~' || s[pos] == '^')))
    ensures Lexemes(s, start, pos) == [LexemeOf(s, TermLexeme, start, pos)] + Lexemes(s, pos, pos)
  {
    hide Unescape;
    hide Slice;
    if pos < |s| {
      if s[pos] == ' ' {
        AtSpace(s, start, pos);
        AtSpace(s, pos, pos);
      } else {
        var kind := if s[pos] == '~' then EditDistanceLexeme else BoostLexeme;
        AtSign(s, start, pos, kind);
        AtSign(s, pos, pos, kind);
      }
    }
  }

  /** Where a clause may end: at the end of the string or before a space. */
  predicate Ends(s: string, pos: nat) {
    pos == |s| || (pos < |s| && s[pos] == ' ')
  }

  /** What a number, if there is one, changes. */
  function WithNumber(d: Draft, kind: LexemeType, n: Option<nat>): Draft {
    if n.None? then d else if kind == EditDistanceLexeme then d.(editDistance := n) else d.(boost := Some(n.value))
  }

  ghost predicate Sets(ms: seq<Lexeme>, kind: LexemeType, n: Option<nat>) {
    ProperModifiers(ms) && forall d :: Modified(d, ms) == WithNumber(d, kind, n)
  }

  lemma NumberOfDecimal(n: nat)
    ensures NumberOf(Decimal(n)) == Some(n)
  {
    ParseOfDecimal(n);
  }

  lemma OneModifier(m: Lexeme, n: nat)
    requires (m.kind == EditDistanceLexeme || m.kind == BoostLexeme) && NumberOf(m.str) == Some(n)
    ensures Sets([m], m.kind, Some(n))
  {
    assert [m][1..] == [];
    forall d
      ensures Modified(d, [m]) == WithNumber(d, m.kind, Some(n))
    {
    }
  }

  lemma DigitsRead(s: string, pos: nat, sign: char, kind: LexemeType, n: nat, end: nat) returns (m: Lexeme)
    requires (sign == '~' && kind == EditDistanceLexeme) || (sign == '^' && kind == BoostLexeme)
    requires Has(s, pos, [sign] + Decimal(n)) && end == pos + 1 + |Decimal(n)|
    requires end == |s| || (end < |s| && !IsDigit(s[end]))
    ensures m.kind == kind && NumberOf(m.str) == Some(n)
    ensures ReadsAs(s, pos, [m], end)
  {
    hide Lexemes;
    hide Unescape;
    hide Slice;
    hide Decimal;
    hide NumberOf;
    var digits := Decimal(n);
    HasSplit(s, pos, [sign], digits);
    HasFirst(s, pos, [sign]);
    OverDigits(s, pos + 1, digits);
    SliceHas(s, pos + 1, digits);
    NothingToUnescape(digits);
    NumberOfDecimal(n);
    hide Has;
    m := LexemeOf(s, kind, pos + 1, end);
    AtSign(s, pos, pos, kind);
    assert TermIfAny(s, pos, pos) + Number(s, kind, pos) == Number(s, kind, pos);
  }

  /** A number, if there is one, becomes one lexeme. */
  lemma NumberRead(s: string, pos: nat, sign: char, kind: LexemeType, n: Option<nat>, rest: string)
    returns (ms: seq<Lexeme>)
    requires (sign == '~' && kind == EditDistanceLexeme) || (sign == '^' && kind == BoostLexeme)
    requires Has(s, pos, PrintNumber(sign, n) + rest) && Ends(s, pos + |PrintNumber(sign, n) + rest|)
    requires rest == [] || rest[0] == '^'
    ensures Sets(ms, kind, n)
    ensures ReadsAs(s, pos, ms, pos + |PrintNumber(sign, n)|)
  {
    hide Lexemes;
    hide Decimal;
    hide Has;
    hide NumberOf;
    if n.None? {
      ms := [];
      assert Sets(ms, kind, n);
      assert ReadsAs(s, pos, ms, pos);
    } else {
      var end := pos + |PrintNumber(sign, n)|;
      HasSplit(s, pos, PrintNumber(sign, n), rest);
      if rest != [] {
        HasFirst(s, end, rest);
      }
      var m := DigitsRead(s, pos, sign, kind, n.value, end);
      ms := [m];
      OneModifier(m, n.value);
    }
  }

  /** The term becomes one lexeme when a number, a space or the end follows it. */
  lemma TermRead(s: string, pos: nat, term: string) returns (l: Lexeme)
    requires term != [] && Has(s, pos, Escaped(term))
    requires var end := pos + 2 * |term|; Ends(s, end) || (end < |s| && (s[end] == '~' || s[end] == '^'))
    ensures l.kind == TermLexeme && l.str == term
    ensures ReadsAs(s, pos, [l], pos + 2 * |term|)
  {
    hide Lexemes;
    hide Slice;
    hide Unescape;
    var end := pos + 2 * |term|;
    EscapedLength(term);
    OverEscaped(s, pos, pos, term);
    SliceHas(s, pos, Escaped(term));
    UnescapeEscaped(term);
    l := LexemeOf(s, TermLexeme, pos, end);
    AtTermEnd(s, pos, end);
  }

  lemma FieldRead(s: string, pos: nat, field: Option<string>) returns (o: Option<Lexeme>)
    requires Has(s, pos, PrintField(field))
    ensures o.Some? <==> field.Some?
    ensures o.Some? ==> o.value.kind == FieldLexeme && o.value.str == field.value
    ensures ReadsAs(s, pos, OptionalLexeme(o), pos + |PrintField(field)|)
  {
    if field.None? {
      o := None;
    } else {
      var l := FieldBeforeColon(s, pos, field.value);
      hide *;
      o := Some(l);
    }
  }

  lemma FieldBeforeColon(s: string, pos: nat, field: string) returns (l: Lexeme)
    requires Has(s, pos, Escaped(field) + ":")
    ensures l.kind == FieldLexeme && l.str == field && ReadsAs(s, pos, [l], pos + |Escaped(field) + ":"|)
  {
    hide Lexemes;
    hide Unescape;
    hide Slice;
    hide Has;
    hide Escaped;
    var e := Escaped(field);
    HasSplit(s, pos, e, ":");
    HasFirst(s, pos + |e|, ":");
    EscapedLength(field);
    OverEscaped(s, pos, pos, field);
    SliceHas(s, pos, e);
    UnescapeEscaped(field);
    AtColon(s, pos, pos + |e|);
    l := LexemeOf(s, FieldLexeme, pos, pos + |e|);
  }

  lemma PresenceRead(s: string, pos: nat, p: Presence) returns (o: Option<Lexeme>)
    requires Has(s, pos, PrintPresence(p))
    ensures o.Some? <==> p != Optional
    ensures o.Some? ==> o.value.kind == PresenceLexeme && PresenceOf(o.value.str) == Some(p)
    ensures ReadsAs(s, pos, OptionalLexeme(o), pos + |PrintPresence(p)|)
  {
    if p == Optional {
      o := None;
    } else {
      HasFirst(s, pos, PrintPresence(p));
      SliceHas(s, pos, PrintPresence(p));
      NothingToUnescape(PrintPresence(p));
      o := Some(LexemeOf(s, PresenceLexeme, pos, pos + 1));
    }
  }

  lemma NumbersRead(s: string, pos: nat, p: Printable) returns (distance: seq<Lexeme>, boost: seq<Lexeme>)
    requires Has(s, pos, PrintNumbers(p)) && Ends(s, pos + |PrintNumbers(p)|)
    ensures Sets(distance, EditDistanceLexeme, p.editDistance) && Sets(boost, BoostLexeme, p.boost)
    ensures ReadsAs(s, pos, distance + boost, pos + |PrintNumbers(p)|)
    ensures PrintNumbers(p) != [] ==> pos < |s| && (s[pos] == '~' || s[pos] == '^')
  {
    hide ReadsAs;
    hide Decimal;
    hide Has;
    hide Sets;
    var last := PrintNumber('^', p.boost);
    var pos' := pos + |PrintNumber('~', p.editDistance)|;
    HasSplit(s, pos, PrintNumber('~', p.editDistance), last);
    if PrintNumbers(p) != [] {
      HasFirst(s, pos, PrintNumbers(p));
    }
    distance := NumberRead(s, pos, '~', EditDistanceLexeme, p.editDistance, last);
    assert last + [] == last;
    boost := NumberRead(s, pos', '^', BoostLexeme, p.boost, []);
    ReadsThen(s, pos, distance, pos', boost, pos + |PrintNumbers(p)|);
  }

  lemma TermAndNumbersRead(s: string, pos: nat, p: Printable)
    returns (term: Lexeme, distance: seq<Lexeme>, boost: seq<Lexeme>)
    requires p.term != [] && Has(s, pos, PrintFromTerm(p)) && Ends(s, pos + |PrintFromTerm(p)|)
    ensures term.kind == TermLexeme && term.str == p.term
    ensures Sets(distance, EditDistanceLexeme, p.editDistance) && Sets(boost, BoostLexeme, p.boost)
    ensures ReadsAs(s, pos, [term] + (distance + boost), pos + |PrintFromTerm(p)|)
  {
    hide ReadsAs;
    hide Escaped;
    hide Has;
    hide Sets;
    hide PrintNumbers;
    EscapedLength(p.term);
    HasSplit(s, pos, Escaped(p.term), PrintNumbers(p));
    distance, boost := NumbersRead(s, pos + 2 * |p.term|, p);
    term := TermRead(s, pos, p.term);
    ReadsThen(s, pos, [term], pos + 2 * |p.term|, distance + boost, pos + |PrintFromTerm(p)|);
  }

  ghost predicate PartsOf(p: Printable, presence: Option<Lexeme>, field: Option<Lexeme>, term: Lexeme,
                          distance: seq<Lexeme>, boost: seq<Lexeme>) {
    && (presence.Some? <==> p.presence != Optional)
    && (presence.Some? ==> presence.value.kind == PresenceLexeme && PresenceOf(presence.value.str) == Some(p.presence))
    && (field.Some? <==> p.field.Some?)
    && (field.Some? ==> field.value.kind == FieldLexeme && field.value.str == p.field.value)
    && term.kind == TermLexeme && term.str == p.term
    && Sets(distance, EditDistanceLexeme, p.editDistance) && Sets(boost, BoostLexeme, p.boost)
  }

  lemma PartsRead(s: string, pos: nat, p: Printable)
    returns (presence: Option<Lexeme>, field: Option<Lexeme>, term: Lexeme, distance: seq<Lexeme>, boost: seq<Lexeme>)
    requires p.term != [] && Has(s, pos, PrintClause(p)) && Ends(s, pos + |PrintClause(p)|)
    ensures PartsOf(p, presence, field, term, distance, boost)
    ensures ReadsAs(s, pos, OptionalLexeme(presence) + (OptionalLexeme(field) + ([term] + (distance + boost))),
                    pos + |PrintClause(p)|)
  {
    hide ReadsAs;
    hide PresenceOf;
    hide Has;
    hide Sets;
    hide PrintFromTerm;
    hide PrintField;
    hide PrintPresence;
    hide OptionalLexeme;
    var pos1 := pos + |PrintPresence(p.presence)|;
    var pos2 := pos1 + |PrintField(p.field)|;
    var end := pos + |PrintClause(p)|;
    HasSplit(s, pos, PrintPresence(p.presence), PrintField(p.field) + PrintFromTerm(p));
    HasSplit(s, pos1, PrintField(p.field), PrintFromTerm(p));
    presence := PresenceRead(s, pos, p.presence);
    field := FieldRead(s, pos1, p.field);
    term, distance, boost := TermAndNumbersRead(s, pos2, p);
    var fromTerm := [term] + (distance + boost);
    ReadsThen(s, pos1, OptionalLexeme(field), pos2, fromTerm, end);
    ReadsThen(s, pos, OptionalLexeme(presence), pos1, OptionalLexeme(field) + fromTerm, end);
  }

  /** A printed clause is read as a proper clause with the expected meaning. */
  lemma ClauseRead(ctx: Context, s: string, pos: nat, p: Printable) returns (c: ClauseSyntax)
    requires CanPrint(ctx, p) && Has(s, pos, PrintClause(p)) && Ends(s, pos + |PrintClause(p)|)
    ensures Proper(ctx, c) && Meaning(ctx, c) == Expected(ctx, p)
    ensures ReadsAs(s, pos, Flat(c), pos + |PrintClause(p)|)
  {
    assert p.term != [];
    hide *;
    var presence, field, term, distance, boost := PartsRead(s, pos, p);
    c := ClauseSyntax(presence, field, term, distance + boost);
    ClauseMeans(ctx, p, c, distance, boost);
    FlatIs(c);
  }

  lemma FlatIs(c: ClauseSyntax)
    ensures Flat(c) == OptionalLexeme(c.presence) + (OptionalLexeme(c.field) + ([c.term] + c.modifiers))
  {
    hide OptionalLexeme;
  }

  lemma {:induction false} ModifiedConcat(d: Draft, ms: seq<Lexeme>, ns: seq<Lexeme>)
    requires ProperModifiers(ms) && ProperModifiers(ns)
    ensures ProperModifiers(ms + ns) && Modified(d, ms + ns) == Modified(Modified(d, ms), ns)
    decreases |ms|
  {
    if ms == [] {
      assert ms + ns == ns;
    } else {
      assert ms[0] in ms;
      assert (ms + ns)[1..] == ms[1..] + ns;
      var n := NumberOf(ms[0].str);
      ModifiedConcat(if ms[0].kind == EditDistanceLexeme then d.(editDistance := n) else d.(boost := Some(n.value)),
                     ms[1..], ns);
    }
  }

  /** What the parser has collected by the end of the clause. */
  function Collected(ctx: Context, p: Printable): Draft {
    Draft(ctx.lower(p.term),
          if p.field.Some? then Some([p.field.value]) else None,
          if p.boost.Some? then Some(p.boost.value) else None,
          if WILDCARD in p.term then Some(false) else None, None,
          if p.presence == Optional then None else Some(p.presence),
          p.editDistance)
  }

  lemma CollectedCompleted(ctx: Context, p: Printable)
    ensures Completed(Collected(ctx, p), ctx.allFields) == Expected(ctx, p)
  {
  }

  lemma TermCollected(ctx: Context, p: Printable)
    ensures var c := Collected(ctx, p.(editDistance := None, boost := None));
            WithTerm(ctx, EMPTY_DRAFT.(presence := c.presence, fields := c.fields), p.term) == c
  {
  }

  lemma NumbersCollected(ctx: Context, p: Printable)
    ensures var q := p.(editDistance := None, boost := None);
            var d := WithNumber(Collected(ctx, q), EditDistanceLexeme, p.editDistance);
            WithNumber(d, BoostLexeme, p.boost) == Collected(ctx, p)
  {
  }

  lemma ClauseMeans(ctx: Context, p: Printable, c: ClauseSyntax, distance: seq<Lexeme>, boost: seq<Lexeme>)
    requires CanPrint(ctx, p) && PartsOf(p, c.presence, c.field, c.term, distance, boost)
             && c.modifiers == distance + boost
    ensures Proper(ctx, c) && Meaning(ctx, c) == Expected(ctx, p)
  {
    hide NumberOf;
    hide PresenceOf;
    hide Completed;
    hide Modified;
    var d := Collected(ctx, p.(editDistance := None, boost := None));
    TermCollected(ctx, p);
    ModifiedConcat(d, distance, boost);
    hide WithTerm;
    hide WithNumber;
    hide ProperModifiers;
    assert Proper(ctx, c);
    assert Modified(d, distance) == WithNumber(d, EditDistanceLexeme, p.editDistance);
    assert Modified(Modified(d, distance), boost) == WithNumber(Modified(d, distance), BoostLexeme, p.boost);
    NumbersCollected(ctx, p);
    CollectedCompleted(ctx, p);
    hide Expected;
    hide Sets;
    hide Proper;
  }

  lemma NextPrinted(s: string, pos: nat, ps: seq<Printable>)
    requires |ps| > 1 && Has(s, pos, Print(ps))
    ensures var end := pos + |PrintClause(ps[0])|;
            && Has(s, pos, PrintClause(ps[0])) && Ends(s, end) && end < |s|
            && Has(s, end + 1, Print(ps[1..])) && end + 1 + |Print(ps[1..])| == pos + |Print(ps)|
            && Lexemes(s, end, end) == Lexemes(s, end + 1, end + 1)
  {
    hide Lexemes;
    hide Has;
    hide PrintClause;
    var end := pos + |PrintClause(ps[0])|;
    HasSplit(s, pos, PrintClause(ps[0]), " " + Print(ps[1..]));
    HasSplit(s, end, " ", Print(ps[1..]));
    HasFirst(s, end, " ");
    AtSpace(s, end, end);
  }

  /** The string ends, from here, with these clauses, printed. */
  ghost predicate EndsWith(ctx: Context, s: string, pos: nat, ps: seq<Printable>) {
    (forall p :: p in ps ==> CanPrint(ctx, p)) && Has(s, pos, Print(ps)) && pos + |Print(ps)| == |s|
  }

  /** What is read from here on are these clauses. */
  ghost predicate ReadFrom(ctx: Context, s: string, pos: nat, ps: seq<Printable>, cs: seq<ClauseSyntax>) {
    AllProper(ctx, cs) && FlatAll(cs) == Lexemes(s, pos, pos) && Meanings(ctx, cs) == ExpectedAll(ctx, ps)
  }

  lemma NothingMore(ctx: Context, s: string, ps: seq<Printable>)
    requires |ps| <= 1
    ensures ReadFrom(ctx, s, |s|, if ps == [] then ps else ps[1..], [])
  {
    AtEnd(s);
  }

  lemma FirstPrinted(ctx: Context, s: string, pos: nat, ps: seq<Printable>)
    requires ps != [] && EndsWith(ctx, s, pos, ps)
    ensures var end := pos + |PrintClause(ps[0])|;
            && CanPrint(ctx, ps[0]) && Has(s, pos, PrintClause(ps[0])) && Ends(s, end)
            && if |ps| == 1 then end == |s| else EndsWith(ctx, s, end + 1, ps[1..])
  {
    assert ps[0] in ps;
    hide CanPrint;
    if |ps| > 1 {
      NextPrinted(s, pos, ps);
    }
  }

  lemma AfterSpace(ctx: Context, s: string, pos: nat, ps: seq<Printable>, more: seq<ClauseSyntax>)
    requires |ps| > 1 && EndsWith(ctx, s, pos, ps)
    requires ReadFrom(ctx, s, pos + |PrintClause(ps[0])| + 1, ps[1..], more)
    ensures ReadFrom(ctx, s, pos + |PrintClause(ps[0])|, ps[1..], more)
  {
    NextPrinted(s, pos, ps);
    hide Lexemes;
    hide PrintClause;
  }

  lemma OneMoreRead(ctx: Context, s: string, pos: nat, ps: seq<Printable>, end: nat, c: ClauseSyntax,
                    more: seq<ClauseSyntax>)
    requires ps != [] && Proper(ctx, c) && Meaning(ctx, c) == Expected(ctx, ps[0]) && ReadsAs(s, pos, Flat(c), end)
    requires ReadFrom(ctx, s, end, ps[1..], more)
    ensures ReadFrom(ctx, s, pos, ps, [c] + more)
  {
    hide Lexemes;
    hide Flat;
    hide Meaning;
    hide Proper;
    hide Expected;
    assert ([c] + more)[1..] == more;
  }

  lemma {:induction false} PrintedRead(ctx: Context, s: string, pos: nat, ps: seq<Printable>)
    returns (cs: seq<ClauseSyntax>)
    requires EndsWith(ctx, s, pos, ps)
    ensures ReadFrom(ctx, s, pos, ps, cs)
    decreases |ps|
  {
    if ps == [] {
      NothingMore(ctx, s, ps);
      cs := [];
    } else {
      hide *;
      FirstPrinted(ctx, s, pos, ps);
      var c := ClauseRead(ctx, s, pos, ps[0]);
      var more: seq<ClauseSyntax> := [];
      if |ps| > 1 {
        more := PrintedRead(ctx, s, pos + |PrintClause(ps[0])| + 1, ps[1..]);
        AfterSpace(ctx, s, pos, ps, more);
      } else {
        NothingMore(ctx, s, ps);
      }
      cs := [c] + more;
      OneMoreRead(ctx, s, pos, ps, pos + |PrintClause(ps[0])|, c, more);
    }
  }

  /** Any list of clauses, printed, lexed and parsed, comes back as it should. */
  lemma RoundTrip(ctx: Context, ps: seq<Printable>)
    requires forall p :: p in ps ==> CanPrint(ctx, p)
    ensures Parse(ctx, Lexemes(Print(ps), 0, 0)) == Parsed(ExpectedAll(ctx, ps))
  {
    var s := Print(ps);
    assert s[0..|s|] == s;
    var cs := PrintedRead(ctx, s, 0, ps);
    GrammarIsParsed(ctx, cs);
  }
}
