/** `Index.prototype.search`: from the query string to the documents. */
module Searching {
  import opened Options
  import opened DigitLabels
  import opened Globs
  import opened TokenSetBuilder
  import opened TokenSetRuns
  import opened TokenSets
  import opened Worklists
  import opened Queries
  import opened QueryLexing
  import opened LexedText
  import opened QueryParsing
  import opened QueryEvaluation

  datatype Answer = Documents(docs: seq<string>) | SyntaxError(error: ParseError) | TypeError

  /** Every clause the parser makes names fields of the index only. */
  lemma ParsedFieldsKnown(ctx: Context, ls: seq<Lexeme>)
    requires Parse(ctx, ls).Parsed?
    ensures forall c, f :: c in Parse(ctx, ls).clauses && f in c.fields ==> f in ctx.allFields
  {
    hide Parse;
    var cs := ParsedIsGrammar(ctx, ls);
    GrammarIsParsed(ctx, cs);
    MeaningFieldsKnown(ctx, cs);
  }

  lemma {:induction false} MeaningFieldsKnown(ctx: Context, cs: seq<ClauseSyntax>)
    requires AllProper(ctx, cs)
    ensures forall c, f :: c in Meanings(ctx, cs) && f in c.fields ==> f in ctx.allFields
    decreases |cs|
  {
    if cs != [] {
      assert cs[0] in cs;
      MeaningFields(ctx, cs[0]);
      hide Meaning;
      hide Proper;
      MeaningFieldsKnown(ctx, cs[1..]);
    }
  }

  lemma MeaningFields(ctx: Context, c: ClauseSyntax)
    requires Proper(ctx, c)
    ensures Meaning(ctx, c).fields == if c.field.Some? then [c.field.value.str] else ctx.allFields
    ensures c.field.Some? ==> c.field.value.str in ctx.allFields
  {
    hide NumberOf;
    var presence := if c.presence.Some? then PresenceOf(c.presence.value.str) else None;
    var fields := if c.field.Some? then Some([c.field.value.str]) else None;
    ModifiersKeepFields(WithTerm(ctx, EMPTY_DRAFT.(presence := presence, fields := fields), c.term.str), c.modifiers);
  }

  lemma {:induction false} ModifiersKeepFields(d: Draft, ms: seq<Lexeme>)
    requires ProperModifiers(ms)
    ensures Modified(d, ms).fields == d.fields
    decreases |ms|
  {
    if ms != [] {
      assert ms[0] in ms;
      var n := NumberOf(ms[0].str);
      ModifiersKeepFields(if ms[0].kind == EditDistanceLexeme then d.(editDistance := n)
                          else d.(boost := Some(n.value)),
                          ms[1..]);
    }
  }

  /** A search raises the parser's error, fails as `query` does, or finds each document that
      the parsed clauses select, once, and no other. */
  method Search(heap: Heap, ix: SearchIndex, pipeline: Pipeline, lower: string -> string, str: string,
                ghost offered: iset<string>)
    returns (a: Answer)
    requires Offers(heap.nodes, ix, offered) && ValidIndex(ix)
    modifies heap
    ensures Grows(old(heap.nodes), heap.nodes) && Offers(heap.nodes, ix, offered)
    ensures match Parse(Context(ix.fields, lower), Lexemes(str, 0, 0))
            case Error(error) => a == SyntaxError(error)
            case Parsed(clauses) => Answers(offered, ix, pipeline, clauses, a)
  {
    hide Parse;
    hide Lexemes;
    hide Selected;
    hide Fails;
    hide Offers;
    hide ValidIndex;
    var outcome := ParseQuery(str, Context(ix.fields, lower));
    match outcome
    case Error(error) => a := SyntaxError(error);
    case Parsed(clauses) =>
      var r := Query(heap, ix, pipeline, clauses, offered);
      a := if r.Failed? then TypeError else Documents(r.docs);
  }

  ghost predicate Answers(offered: iset<string>, ix: SearchIndex, pipeline: Pipeline, clauses: seq<Clause>, a: Answer) {
    if exists i :: 0 <= i < |clauses| && Fails(offered, ix, pipeline, clauses, i) then a == TypeError
    else a.Documents? && Distinct(a.docs) && forall d :: d in a.docs <==> Selected(offered, ix, pipeline, clauses, d)
  }

  /** With a token set that accepts exactly the terms, only a required clause without tokens
      makes a parsed query fail. */
  lemma OnlyUndefinedFails(ix: SearchIndex, pipeline: Pipeline, ctx: Context, ls: seq<Lexeme>, i: nat)
    requires ValidIndex(ix) && ctx.allFields == ix.fields && Parse(ctx, ls).Parsed? && i < |Parse(ctx, ls).clauses|
    ensures Fails(Terms(ix), ix, pipeline, Parse(ctx, ls).clauses, i) <==>
            Undefined(pipeline, Parse(ctx, ls).clauses, i)
  {
    ParsedFieldsKnown(ctx, ls);
    var clauses := Parse(ctx, ls).clauses;
    hide Parse;
    assert clauses[i] in clauses;
    forall w | w in Terms(ix)
      ensures Listed(ix, clauses[i], w)
    {
      forall f | f in clauses[i].fields
        ensures f in ix.inverted[w].docs
      {
        assert f in ix.fields;
      }
    }
  }

  /** The pipeline drops no term, as the stemmer and the empty pipeline do not. */
  ghost predicate DropsNothing(pipeline: Pipeline) {
    forall term :: pipeline(term) != []
  }

  /** With such a search pipeline and a right token set no query string makes a search fail. */
  lemma NothingDroppedNeverFails(ix: SearchIndex, pipeline: Pipeline, ctx: Context, ls: seq<Lexeme>, i: nat)
    requires ValidIndex(ix) && ctx.allFields == ix.fields && Parse(ctx, ls).Parsed? && i < |Parse(ctx, ls).clauses|
    requires DropsNothing(pipeline)
    ensures !Fails(Terms(ix), ix, pipeline, Parse(ctx, ls).clauses, i)
  {
    OnlyUndefinedFails(ix, pipeline, ctx, ls, i);
    hide Parse;
    hide Fails;
    NothingDroppedDefined(pipeline, Parse(ctx, ls).clauses, i);
  }

  lemma NothingDroppedDefined(pipeline: Pipeline, clauses: seq<Clause>, i: nat)
    requires i < |clauses| && DropsNothing(pipeline)
    ensures !Undefined(pipeline, clauses, i)
  {
    assert TokensOf(pipeline, clauses[i]) != [];
  }

  // ----- A required word that the search pipeline drops

  /** If a function that drops the word has been added to the search pipeline, a search for
      it as a required word fails, on any index with a field. */
  lemma RequiredStopWordFails(ix: SearchIndex, pipeline: Pipeline, lower: string -> string)
    requires lower("the") == "the" && pipeline("the") == [] && ix.fields != []
    ensures var outcome := Parse(Context(ix.fields, lower), Lexemes("+the", 0, 0));
            && outcome == Parsed([WordClause("the", Required, ix.fields)])
            && Undefined(pipeline, outcome.clauses, 0)
  {
    hide *;
    StopWordParsed(Context(ix.fields, lower));
    StopWordUndefined(pipeline, ix.fields);
  }

  function WordClause(word: string, presence: Presence, fields: seq<string>): Clause {
    Clause(word, fields, 1, true, NO_WILDCARD, presence, None)
  }

  lemma StopWordParsed(ctx: Context)
    requires ctx.lower("the") == "the"
    ensures Parse(ctx, Lexemes("+the", 0, 0)) == Parsed([WordClause("the", Required, ctx.allFields)])
  {
    StopWordLexemes();
    var ls := Lexemes("+the", 0, 0);
    hide Lexemes;
    assert ls[1..] == [Lexeme(TermLexeme, "the", 1, 4)] && ls[1..][1..] == [] && WILDCARD !in "the";
  }

  lemma StopWordUndefined(pipeline: Pipeline, fields: seq<string>)
    requires pipeline("the") == [] && fields != []
    ensures Undefined(pipeline, [WordClause("the", Required, fields)], 0)
  {
    var c := WordClause("the", Required, fields);
    assert fields[0] in c.fields && !DefinedBefore(pipeline, [c], 0, fields[0]);
  }

  lemma StopWordLexemes()
    ensures Lexemes("+the", 0, 0) == [Lexeme(PresenceLexeme, "+", 0, 1), Lexeme(TermLexeme, "the", 1, 4)]
  {
    var s := "+the";
    PlainToEnd(s, 1);
    assert s[1..4] == "the" && [s[0]] == "+";
    NothingToUnescape("the");
    hide *;
    StartLexed(s, 0);
    RunLexed(s, 1, 4);
  }

  // ----- A word without a posting

  lemma {:induction false} MatchesItself(w: string)
    requires WILDCARD !in w
    ensures Glob(w, w)
    decreases |w|
  {
    if w != [] {
      MatchesItself(w[1..]);
    }
  }

  /** In an index over the words that break the token set, a search for a word that the
      token set has come to accept fails. */
  lemma UnlistedWordFails(b: State, ix: SearchIndex, pipeline: Pipeline, lower: string -> string)
    requires Built(Start([]), BreakingWords()) == Some(b) && ix.tokenSet == b.root
    requires (forall w :: w in ix.inverted <==> w in BreakingWords()) && lower("g00") == "g00"
             && pipeline("g00") == ["g00"]
    ensures var outcome := Parse(Context(ix.fields, lower), Lexemes("g00", 0, 0));
            && outcome == Parsed([WordClause("g00", Optional, ix.fields)])
            && Fails(Accepted(b.nodes, ix), ix, pipeline, outcome.clauses, 0)
  {
    hide *;
    LostWordParsed(Context(ix.fields, lower));
    LostWordUnlisted(b, ix, pipeline);
  }

  lemma LostWordParsed(ctx: Context)
    requires ctx.lower("g00") == "g00"
    ensures Parse(ctx, Lexemes("g00", 0, 0)) == Parsed([WordClause("g00", Optional, ctx.allFields)])
  {
    WordLexed("g00");
    assert Lexemes("g00", 0, 0) == [Lexeme(TermLexeme, "g00", 0, 3)];
    hide *;
    OneTermParsed(ctx, Lexeme(TermLexeme, "g00", 0, 3));
  }

  lemma OneTermParsed(ctx: Context, l: Lexeme)
    requires l.kind == TermLexeme && ctx.lower(l.str) == l.str && '*' !in l.str
    ensures Parse(ctx, [l]) == Parsed([WordClause(l.str, Optional, ctx.allFields)])
  {
    assert [l][1..] == [];
    assert Parse(ctx, []) == Parsed([]);
    var d := WithTerm(ctx, EMPTY_DRAFT, l.str);
    assert MoreOf(ctx, [], d) == Parsed([Completed(d, ctx.allFields)]);
    assert Completed(d, ctx.allFields) == WordClause(l.str, Optional, ctx.allFields);
  }

  lemma LostWordUnlisted(b: State, ix: SearchIndex, pipeline: Pipeline)
    requires Built(Start([]), BreakingWords()) == Some(b) && ix.tokenSet == b.root
    requires (forall w :: w in ix.inverted <==> w in BreakingWords()) && pipeline("g00") == ["g00"]
    ensures Fails(Accepted(b.nodes, ix), ix, pipeline, [WordClause("g00", Optional, ix.fields)], 0)
  {
    hide Built;
    hide BreakingWords;
    hide Accepts;
    hide Glob;
    var broken := DigitsBreakTheTokenSet();
    MatchesItself("g00");
    var c, offered := WordClause("g00", Optional, ix.fields), Accepted(b.nodes, ix);
    assert TermMatches(c, "g00", "g00") && "g00" in offered && !Listed(ix, c, "g00");
    assert MatchesUnlisted(offered, ix, c, "g00");
    assert TokensOf(pipeline, c) == ["g00"] && Reached(offered, c, ["g00"], 0);
  }
}
