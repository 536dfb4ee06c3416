/** `lunr.QueryParser`: a state machine over the lexemes. */
module QueryParsing {
  import opened Decimals
  import opened Options
  import opened TokenSets
  import opened Queries
  import opened QueryLexing

  /** `QueryParseError`, with the span it points at. */
  datatype ParseError = ParseError(start: nat, end: nat)

  datatype Outcome = Parsed(clauses: seq<Clause>) | Error(error: ParseError)

  /** What the parser knows besides the lexemes: the fields of the index, and `toLowerCase`. */
  datatype Context = Context(allFields: seq<string>, lower: string -> string)

  datatype ParseState = ParseClause | ParsePresence | ParseField | ParseTerm | ParseEditDistance | ParseBoost | Finished

  const EMPTY_DRAFT := Draft([], None, None, None, None, None, None)

  function At(l: Lexeme): Outcome {
    Error(ParseError(l.start, l.end))
  }

  function First(c: Clause, rest: Outcome): Outcome {
    if rest.Parsed? then Parsed([c] + rest.clauses) else rest
  }

  /** `parseInt` on what the lexer lets through, which is digits; no digits are not a number. */
  function NumberOf(s: string): Option<nat> {
    if s != [] && (forall c :: c in s ==> IsDigit(c)) then Some(ParseDecimal(s)) else None
  }

  function PresenceOf(s: string): Option<Presence> {
    if s == "+" then Some(Required) else if s == "-" then Some(Prohibited) else None
  }

  function WithTerm(ctx: Context, d: Draft, str: string): Draft {
    var named := d.(term := ctx.lower(str));
    if WILDCARD in str then named.(usePipeline := Some(false)) else named
  }

  // ----- Reference definition: the outcome of parsing the remaining lexemes

  function Parse(ctx: Context, ls: seq<Lexeme>): Outcome
    decreases |ls|, 3
  {
    if ls == [] then Parsed([])
    else match ls[0].kind
      case PresenceLexeme => PresenceThen(ctx, ls)
      case FieldLexeme => FieldThen(ctx, ls, EMPTY_DRAFT)
      case TermLexeme => TermThen(ctx, ls, EMPTY_DRAFT)
      case EditDistanceLexeme => At(ls[0])
      case BoostLexeme => At(ls[0])
  }

  function PresenceThen(ctx: Context, ls: seq<Lexeme>): Outcome
    requires ls != []
    decreases |ls|, 2
  {
    var presence, rest := PresenceOf(ls[0].str), ls[1..];
    if presence.None? || rest == [] then At(ls[0])
    else
      var d := EMPTY_DRAFT.(presence := presence);
      match rest[0].kind
      case FieldLexeme => FieldThen(ctx, rest, d)
      case TermLexeme => TermThen(ctx, rest, d)
      case _ => At(rest[0])
  }

  function FieldThen(ctx: Context, ls: seq<Lexeme>, d: Draft): Outcome
    requires ls != []
    decreases |ls|, 1
  {
    var rest := ls[1..];
    if ls[0].str !in ctx.allFields || rest == [] then At(ls[0])
    else if rest[0].kind != TermLexeme then At(rest[0])
    else TermThen(ctx, rest, d.(fields := Some([ls[0].str])))
  }

  function TermThen(ctx: Context, ls: seq<Lexeme>, d: Draft): Outcome
    requires ls != []
    decreases |ls|, 0
  {
    MoreOf(ctx, ls[1..], WithTerm(ctx, d, ls[0].str))
  }

  /** After a term or one of its numbers: another number, or the clause ends here. */
  function MoreOf(ctx: Context, ls: seq<Lexeme>, d: Draft): Outcome
    decreases |ls|, 4
  {
    if ls != [] && ls[0].kind == EditDistanceLexeme then
      var n := NumberOf(ls[0].str);
      if n.None? then At(ls[0]) else MoreOf(ctx, ls[1..], d.(editDistance := n))
    else if ls != [] && ls[0].kind == BoostLexeme then
      var n := NumberOf(ls[0].str);
      if n.None? then At(ls[0]) else MoreOf(ctx, ls[1..], d.(boost := Some(n.value)))
    else First(Completed(d, ctx.allFields), Parse(ctx, ls))
  }

  // ----- The grammar

  /** One clause: a presence, a field, a term, and edit distances and boosts; only the term must be there. */
  datatype ClauseSyntax = ClauseSyntax(presence: Option<Lexeme>, field: Option<Lexeme>, term: Lexeme,
                                       modifiers: seq<Lexeme>)

  function Flat(c: ClauseSyntax): seq<Lexeme> {
    OptionalLexeme(c.presence) + OptionalLexeme(c.field) + [c.term] + c.modifiers
  }

  function OptionalLexeme(o: Option<Lexeme>): seq<Lexeme> {
    if o.Some? then [o.value] else []
  }

  function FlatAll(cs: seq<ClauseSyntax>): seq<Lexeme> {
    if cs == [] then [] else Flat(cs[0]) + FlatAll(cs[1..])
  }

  predicate IsNumeral(s: string) {
    s != [] && forall c :: c in s ==> '0' <= c <= '9'
  }

  predicate ProperModifiers(ms: seq<Lexeme>) {
    forall m :: m in ms ==> (m.kind == EditDistanceLexeme || m.kind == BoostLexeme) && IsNumeral(m.str)
  }

  /** The kinds are right, the presence and the field are known, and the numbers are numbers. */
  predicate Proper(ctx: Context, c: ClauseSyntax) {
    && (c.presence.Some? ==> c.presence.value.kind == PresenceLexeme && PresenceOf(c.presence.value.str).Some?)
    && (c.field.Some? ==> c.field.value.kind == FieldLexeme && c.field.value.str in ctx.allFields)
    && c.term.kind == TermLexeme && ProperModifiers(c.modifiers)
  }

  predicate AllProper(ctx: Context, cs: seq<ClauseSyntax>) {
    forall c :: c in cs ==> Proper(ctx, c)
  }

  /** The last number of a kind counts. */
  function Modified(d: Draft, ms: seq<Lexeme>): Draft
    requires ProperModifiers(ms)
    decreases |ms|
  {
    if ms == [] then d
    else
      assert ms[0] in ms;
      var n := ParseDecimal(ms[0].str);
      Modified(if ms[0].kind == EditDistanceLexeme then d.(editDistance := Some(n)) else d.(boost := Some(n)), ms[1..])
  }

  function Meaning(ctx: Context, c: ClauseSyntax): Clause
    requires Proper(ctx, c)
  {
    var presence := if c.presence.Some? then PresenceOf(c.presence.value.str) else None;
    var fields := if c.field.Some? then Some([c.field.value.str]) else None;
    var d := WithTerm(ctx, EMPTY_DRAFT.(presence := presence, fields := fields), c.term.str);
    Completed(Modified(d, c.modifiers), ctx.allFields)
  }

  function Meanings(ctx: Context, cs: seq<ClauseSyntax>): (ms: seq<Clause>)
    requires AllProper(ctx, cs)
    ensures |ms| == |cs|
  {
    if cs == [] then []
    else
      assert cs[0] in cs;
      [Meaning(ctx, cs[0])] + Meanings(ctx, cs[1..])
  }

  lemma {:induction false} ModifiersThen(ctx: Context, ms: seq<Lexeme>, ls: seq<Lexeme>, d: Draft)
    requires ProperModifiers(ms) && (ls == [] || (ls[0].kind != EditDistanceLexeme && ls[0].kind != BoostLexeme))
    ensures MoreOf(ctx, ms + ls, d) == First(Completed(Modified(d, ms), ctx.allFields), Parse(ctx, ls))
    decreases |ms|
  {
    if ms == [] {
      assert ms + ls == ls;
    } else {
      assert ms[0] in ms;
      assert (ms + ls)[1..] == ms[1..] + ls;
      var n := NumberOf(ms[0].str);
      ModifiersThen(ctx, ms[1..], ls,
                    if ms[0].kind == EditDistanceLexeme then d.(editDistance := n) else d.(boost := Some(n.value)));
    }
  }

  lemma FieldAndTermThen(ctx: Context, field: Option<Lexeme>, ls: seq<Lexeme>, d: Draft)
    requires ls != [] && ls[0].kind == TermLexeme && (field.Some? ==> field.value.str in ctx.allFields)
    ensures var all := OptionalLexeme(field) + ls;
            (if field.Some? then FieldThen(ctx, all, d) else TermThen(ctx, all, d)) ==
            TermThen(ctx, ls, if field.Some? then d.(fields := Some([field.value.str])) else d)
  {
    var all := OptionalLexeme(field) + ls;
    if field.Some? {
      assert all[1..] == ls;
    } else {
      assert all == ls;
    }
  }

  lemma PresenceAndMoreThen(ctx: Context, presence: Option<Lexeme>, ls: seq<Lexeme>)
    requires ls != [] && (ls[0].kind == FieldLexeme || ls[0].kind == TermLexeme)
    requires presence.Some? ==> presence.value.kind == PresenceLexeme && PresenceOf(presence.value.str).Some?
    ensures var d := EMPTY_DRAFT.(presence := if presence.Some? then PresenceOf(presence.value.str) else None);
            Parse(ctx, OptionalLexeme(presence) + ls) ==
              if ls[0].kind == FieldLexeme then FieldThen(ctx, ls, d) else TermThen(ctx, ls, d)
  {
    hide FieldThen;
    hide TermThen;
    hide PresenceOf;
    var all := OptionalLexeme(presence) + ls;
    if presence.Some? {
      assert all[1..] == ls;
    } else {
      assert all == ls;
    }
  }

  lemma ClauseThen(ctx: Context, c: ClauseSyntax, ls: seq<Lexeme>)
    requires Proper(ctx, c) && (ls == [] || (ls[0].kind != EditDistanceLexeme && ls[0].kind != BoostLexeme))
    ensures Parse(ctx, Flat(c) + ls) == First(Meaning(ctx, c), Parse(ctx, ls))
  {
    hide NumberOf;
    hide PresenceOf;
    hide WithTerm;
    hide Completed;
    hide Parse;
    hide FieldThen;
    hide Modified;
    hide First;
    var fromTerm := [c.term] + c.modifiers + ls;
    var fromField := OptionalLexeme(c.field) + fromTerm;
    assert Flat(c) + ls == OptionalLexeme(c.presence) + fromField;
    PresenceAndMoreThen(ctx, c.presence, fromField);
    var presence := if c.presence.Some? then PresenceOf(c.presence.value.str) else None;
    var fields := if c.field.Some? then Some([c.field.value.str]) else None;
    FieldAndTermThen(ctx, c.field, fromTerm, EMPTY_DRAFT.(presence := presence));
    assert fromTerm[1..] == c.modifiers + ls;
    ModifiersThen(ctx, c.modifiers, ls,
                  WithTerm(ctx, EMPTY_DRAFT.(presence := presence, fields := fields), c.term.str));
  }

  /** The parser accepts what the grammar generates, with the meaning of the clauses in order. */
  lemma {:induction false} GrammarIsParsed(ctx: Context, cs: seq<ClauseSyntax>)
    requires AllProper(ctx, cs)
    ensures Parse(ctx, FlatAll(cs)) == Parsed(Meanings(ctx, cs))
    decreases |cs|
  {
    if cs != [] {
      assert cs[0] in cs;
      GrammarIsParsed(ctx, cs[1..]);
      StartsClause(ctx, cs[1..]);
      ClauseThen(ctx, cs[0], FlatAll(cs[1..]));
    }
  }

  lemma StartsClause(ctx: Context, cs: seq<ClauseSyntax>)
    requires AllProper(ctx, cs)
    ensures FlatAll(cs) == [] || (FlatAll(cs)[0].kind != EditDistanceLexeme && FlatAll(cs)[0].kind != BoostLexeme)
  {
    if cs != [] {
      var c := cs[0];
      assert c in cs;
      assert Flat(c)[0] == if c.presence.Some? then c.presence.value
                           else if c.field.Some? then c.field.value else c.term;
      assert FlatAll(cs)[0] == Flat(c)[0];
    }
  }

  /** And it accepts nothing else. */
  lemma {:induction false} ParsedIsGrammar(ctx: Context, ls: seq<Lexeme>) returns (cs: seq<ClauseSyntax>)
    requires Parse(ctx, ls).Parsed?
    ensures AllProper(ctx, cs) && FlatAll(cs) == ls
    decreases |ls|, 3
  {
    if ls == [] {
      cs := [];
    } else {
      var presence, rest, d := None, ls, EMPTY_DRAFT;
      if ls[0].kind == PresenceLexeme {
        presence, rest, d := Some(ls[0]), ls[1..], EMPTY_DRAFT.(presence := PresenceOf(ls[0].str));
      }
      assert OptionalLexeme(presence) + rest == ls;
      var field, term, ms, more := FieldAndTermAreGrammar(ctx, rest, d);
      var c := ClauseSyntax(presence, field, term, ms);
      cs := [c] + more;
      FlatFirst(c, more);
      hide FlatAll;
      hide Flat;
      hide NumberOf;
    }
  }

  lemma FlatFirst(c: ClauseSyntax, more: seq<ClauseSyntax>)
    ensures FlatAll([c] + more) ==
            OptionalLexeme(c.presence) + (OptionalLexeme(c.field) + [c.term] + c.modifiers + FlatAll(more))
  {
    hide OptionalLexeme;
    assert ([c] + more)[1..] == more;
  }

  lemma {:induction false} FieldAndTermAreGrammar(ctx: Context, ls: seq<Lexeme>, d: Draft)
    returns (field: Option<Lexeme>, term: Lexeme, ms: seq<Lexeme>, cs: seq<ClauseSyntax>)
    requires ls != [] && (ls[0].kind == FieldLexeme || ls[0].kind == TermLexeme)
    requires (if ls[0].kind == FieldLexeme then FieldThen(ctx, ls, d) else TermThen(ctx, ls, d)).Parsed?
    ensures field.Some? ==> field.value.kind == FieldLexeme && field.value.str in ctx.allFields
    ensures term.kind == TermLexeme && ProperModifiers(ms) && AllProper(ctx, cs)
    ensures OptionalLexeme(field) + [term] + ms + FlatAll(cs) == ls
    decreases |ls|, 2
  {
    hide NumberOf;
    hide WithTerm;
    hide FlatAll;
    var rest, d' := ls, d;
    field := None;
    if ls[0].kind == FieldLexeme {
      field, rest, d' := Some(ls[0]), ls[1..], d.(fields := Some([ls[0].str]));
    }
    assert OptionalLexeme(field) + rest == ls;
    term := rest[0];
    ms, cs := MoreIsGrammar(ctx, rest[1..], WithTerm(ctx, d', term.str));
    assert rest == [term] + (ms + FlatAll(cs));
    assert OptionalLexeme(field) + [term] + ms + FlatAll(cs) == OptionalLexeme(field) + rest;
  }

  lemma {:induction false} MoreIsGrammar(ctx: Context, ls: seq<Lexeme>, d: Draft)
    returns (ms: seq<Lexeme>, cs: seq<ClauseSyntax>)
    requires MoreOf(ctx, ls, d).Parsed?
    ensures ProperModifiers(ms) && AllProper(ctx, cs) && ms + FlatAll(cs) == ls
    decreases |ls|, 4
  {
    if ls != [] && (ls[0].kind == EditDistanceLexeme || ls[0].kind == BoostLexeme) {
      var n := NumberOf(ls[0].str);
      var d' := if ls[0].kind == EditDistanceLexeme then d.(editDistance := n) else d.(boost := Some(n.value));
      ms, cs := MoreIsGrammar(ctx, ls[1..], d');
      ms := [ls[0]] + ms;
      assert ls == [ls[0]] + ls[1..];
    } else {
      ms := [];
      cs := ParsedIsGrammar(ctx, ls);
      assert ms + FlatAll(cs) == ls;
    }
  }

  /** The parser succeeds exactly on the lexemes of a list of clauses. */
  lemma ParsedIffGrammar(ctx: Context, ls: seq<Lexeme>)
    ensures Parse(ctx, ls).Parsed? <==> exists cs :: AllProper(ctx, cs) && FlatAll(cs) == ls
  {
    if Parse(ctx, ls).Parsed? {
      var cs := ParsedIsGrammar(ctx, ls);
    }
    if cs :| AllProper(ctx, cs) && FlatAll(cs) == ls {
      GrammarIsParsed(ctx, cs);
    }
  }

  // ----- The parser object

  function Before(cs: seq<Clause>, o: Outcome): Outcome {
    if o.Parsed? then Parsed(cs + o.clauses) else o
  }

  class QueryParser {
    const ctx: Context
    const lexer: QueryLexer
    var lexemes: seq<Lexeme>
    var lexemeIdx: nat
    var currentClause: Draft
    var clauses: seq<Clause>

    constructor (str: string, ctx: Context)
      ensures this.ctx == ctx && fresh(lexer) && lexer.str == str
      ensures lexer.lexemes == [] && lexer.Valid() && lexer.start == lexer.pos == 0
      ensures lexemes == [] && lexemeIdx == 0 && currentClause == EMPTY_DRAFT && clauses == []
    {
      this.ctx := ctx;
      lexer := new QueryLexer(str);
      lexemes, lexemeIdx, currentClause, clauses := [], 0, EMPTY_DRAFT, [];
    }

    ghost function Rest(): seq<Lexeme>
      reads this
      requires lexemeIdx <= |lexemes|
    {
      lexemes[lexemeIdx..]
    }

    ghost predicate ReadyFor(state: ParseState)
      reads this
    {
      && lexemeIdx <= |lexemes|
      && match state
         case ParseClause => currentClause == EMPTY_DRAFT
         case ParsePresence => Rest() != [] && currentClause == EMPTY_DRAFT
         case ParseField => Rest() != []
         case ParseTerm => Rest() != []
         case ParseEditDistance => Rest() != [] && Rest()[0].kind == EditDistanceLexeme
         case ParseBoost => Rest() != [] && Rest()[0].kind == BoostLexeme
         case Finished => true
    }

    /** The outcome of the whole parse, as seen from a state. */
    ghost function Total(state: ParseState): Outcome
      reads this
      requires ReadyFor(state)
    {
      Before(clauses,
             match state
             case ParseClause => Parse(ctx, Rest())
             case ParsePresence => PresenceThen(ctx, Rest())
             case ParseField => FieldThen(ctx, Rest(), currentClause)
             case ParseTerm => TermThen(ctx, Rest(), currentClause)
             case ParseEditDistance => MoreOf(ctx, Rest(), currentClause)
             case ParseBoost => MoreOf(ctx, Rest(), currentClause)
             case Finished => Parsed([]))
    }

    function PeekLexeme(): (l: Option<Lexeme>)
      reads this
    {
      if lexemeIdx < |lexemes| then Some(lexemes[lexemeIdx]) else None
    }

    method ConsumeLexeme() returns (l: Lexeme)
      requires lexemeIdx < |lexemes|
      modifies this`lexemeIdx
      ensures l == old(Rest())[0] && lexemeIdx <= |lexemes| && Rest() == old(Rest())[1..]
    {
      l := lexemes[lexemeIdx];
      lexemeIdx := lexemeIdx + 1;
    }

    method NextClause()
      modifies this`clauses, this`currentClause
      ensures clauses == old(clauses) + [Completed(old(currentClause), ctx.allFields)] && currentClause == EMPTY_DRAFT
    {
      clauses := clauses + [Completed(currentClause, ctx.allFields)];
      currentClause := EMPTY_DRAFT;
    }

    method RunParseClause() returns (next: ParseState, error: Option<ParseError>)
      requires ReadyFor(ParseClause)
      ensures error.Some? ==> Total(ParseClause) == Error(error.value)
      ensures error.None? ==> ReadyFor(next) && next != ParseClause && Total(next) == Total(ParseClause)
    {
      next, error := Finished, None;
      var l := PeekLexeme();
      if l.Some? {
        match l.value.kind
        case PresenceLexeme => next := ParsePresence;
        case FieldLexeme => next := ParseField;
        case TermLexeme => next := ParseTerm;
        case _ => error := Some(ParseError(l.value.start, l.value.end));
      }
    }

    method RunParsePresence() returns (next: ParseState, error: Option<ParseError>)
      requires ReadyFor(ParsePresence)
      modifies this
      ensures error.Some? ==> old(Total(ParsePresence)) == Error(error.value)
      ensures error.None? ==> ReadyFor(next) && Total(next) == old(Total(ParsePresence))
      ensures lexemes == old(lexemes) && lexemeIdx > old(lexemeIdx)
    {
      next, error := Finished, None;
      var n := ConsumeLexeme();
      var presence := PresenceOf(n.str);
      if presence.None? {
        error := Some(ParseError(n.start, n.end));
        return;
      }
      currentClause := currentClause.(presence := presence);
      var l := PeekLexeme();
      if l.None? {
        error := Some(ParseError(n.start, n.end));
        return;
      }
      assert Rest()[0] == l.value;
      match l.value.kind
      case FieldLexeme => next := ParseField;
      case TermLexeme => next := ParseTerm;
      case _ => error := Some(ParseError(l.value.start, l.value.end));
    }

    method RunParseField() returns (next: ParseState, error: Option<ParseError>)
      requires ReadyFor(ParseField)
      modifies this
      ensures error.Some? ==> old(Total(ParseField)) == Error(error.value)
      ensures error.None? ==> ReadyFor(next) && Total(next) == old(Total(ParseField))
      ensures lexemes == old(lexemes) && lexemeIdx > old(lexemeIdx)
    {
      next, error := Finished, None;
      var n := ConsumeLexeme();
      if n.str !in ctx.allFields {
        error := Some(ParseError(n.start, n.end));
        return;
      }
      currentClause := currentClause.(fields := Some([n.str]));
      var l := PeekLexeme();
      if l.None? {
        error := Some(ParseError(n.start, n.end));
        return;
      }
      assert Rest()[0] == l.value;
      match l.value.kind
      case TermLexeme => next := ParseTerm;
      case _ => error := Some(ParseError(l.value.start, l.value.end));
    }

    method RunParseTerm() returns (next: ParseState)
      requires ReadyFor(ParseTerm)
      modifies this
      ensures ReadyFor(next) && Total(next) == old(Total(ParseTerm))
      ensures lexemes == old(lexemes) && lexemeIdx > old(lexemeIdx)
    {
      var n := ConsumeLexeme();
      currentClause := currentClause.(term := ctx.lower(n.str));
      if WILDCARD in n.str {
        currentClause := currentClause.(usePipeline := Some(false));
      }
      next := AfterTerm();
    }

    /** The switch on the lexeme after a term or a number. */
    method AfterTerm() returns (next: ParseState)
      requires lexemeIdx <= |lexemes|
      modifies this`clauses, this`currentClause
      ensures ReadyFor(next) && Total(next) == Before(old(clauses), MoreOf(ctx, Rest(), old(currentClause)))
    {
      var l := PeekLexeme();
      if l.None? {
        NextClause();
        return Finished;
      }
      assert Rest()[0] == l.value;
      match l.value.kind
      case TermLexeme =>
        NextClause();
        next := ParseTerm;
      case FieldLexeme =>
        NextClause();
        next := ParseField;
      case EditDistanceLexeme => next := ParseEditDistance;
      case BoostLexeme => next := ParseBoost;
      case PresenceLexeme =>
        NextClause();
        next := ParsePresence;
    }

    method RunParseEditDistance() returns (next: ParseState, error: Option<ParseError>)
      requires ReadyFor(ParseEditDistance)
      modifies this
      ensures error.Some? ==> old(Total(ParseEditDistance)) == Error(error.value)
      ensures error.None? ==> ReadyFor(next) && Total(next) == old(Total(ParseEditDistance))
      ensures lexemes == old(lexemes) && lexemeIdx > old(lexemeIdx)
    {
      next, error := Finished, None;
      var l := ConsumeLexeme();
      var n := NumberOf(l.str);
      if n.None? {
        error := Some(ParseError(l.start, l.end));
        return;
      }
      currentClause := currentClause.(editDistance := n);
      next := AfterTerm();
    }

    method RunParseBoost() returns (next: ParseState, error: Option<ParseError>)
      requires ReadyFor(ParseBoost)
      modifies this
      ensures error.Some? ==> old(Total(ParseBoost)) == Error(error.value)
      ensures error.None? ==> ReadyFor(next) && Total(next) == old(Total(ParseBoost))
      ensures lexemes == old(lexemes) && lexemeIdx > old(lexemeIdx)
    {
      next, error := Finished, None;
      var l := ConsumeLexeme();
      var n := NumberOf(l.str);
      if n.None? {
        error := Some(ParseError(l.start, l.end));
        return;
      }
      currentClause := currentClause.(boost := Some(n.value));
      next := AfterTerm();
    }

    /** `parse`: run the lexer, then go from state to state.  It ends on every string. */
    method RunParser() returns (r: Outcome)
      requires lexer.lexemes == [] && lexer.Valid() && lexer.start == lexer.pos == 0
      requires lexemeIdx == 0 && currentClause == EMPTY_DRAFT && clauses == []
      modifies this, lexer
      ensures r == Parse(ctx, Lexemes(lexer.str, 0, 0))
    {
      lexer.RunAll();
      lexemes := lexer.lexemes;
      ghost var all := Parse(ctx, Lexemes(lexer.str, 0, 0));
      var state := ParseClause;
      assert Rest() == lexemes;
      while state != Finished
        invariant ReadyFor(state) && Total(state) == all
        decreases |lexemes| - lexemeIdx, if state == ParseClause then 1 else 0, if state == Finished then 0 else 1
      {
        var error := None;
        match state {
          case ParseClause => state, error := RunParseClause();
          case ParsePresence => state, error := RunParsePresence();
          case ParseField => state, error := RunParseField();
          case ParseTerm => state := RunParseTerm();
          case ParseEditDistance => state, error := RunParseEditDistance();
          case ParseBoost => state, error := RunParseBoost();
        }
        if error.Some? {
          return Error(error.value);
        }
      }
      r := Parsed(clauses);
    }
  }

  /** The query that a string says, or the error it raises. */
  method ParseQuery(str: string, ctx: Context) returns (r: Outcome)
    ensures r == Parse(ctx, Lexemes(str, 0, 0))
  {
    var parser := new QueryParser(str, ctx);
    r := parser.RunParser();
  }
}
