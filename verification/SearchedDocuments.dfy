/** From documents to what a search of the loaded index finds among them. */
module SearchedDocuments {
  import opened TokenSets
  import opened Words
  import opened Worklists
  import opened Queries
  import opened QueryLexing
  import opened QueryParsing
  import opened QueryEvaluation
  import opened IndexBuilding
  import opened IndexAssembly
  import opened Searching
  import TokenSetBuilder
  import TokenSetRuns

  // ----- What a query means for documents

  ghost predicate MatchedAmong(docs: seq<Document>, pipeline: Pipeline, c: Clause, d: string) {
    exists t, w, f :: t in TokensOf(pipeline, c) && f in c.fields && TermMatches(c, t, w) && HasToken(docs, w, f, d)
  }

  ghost predicate TokenFound(docs: seq<Document>, fields: seq<string>, c: Clause, token: string) {
    exists w :: IsTermOf(docs, fields, w) && TermMatches(c, token, w)
  }

  ghost predicate FulfilledAmong(docs: seq<Document>, fields: seq<string>, pipeline: Pipeline, c: Clause, d: string) {
    MatchedAmong(docs, pipeline, c, d) && forall t :: t in TokensOf(pipeline, c) ==> TokenFound(docs, fields, c, t)
  }

  ghost predicate SelectedAmong(docs: seq<Document>, fields: seq<string>, pipeline: Pipeline, clauses: seq<Clause>,
                                d: string) {
    && (forall i :: 0 <= i < |clauses| && clauses[i].presence == Required && clauses[i].fields != [] ==>
          FulfilledAmong(docs, fields, pipeline, clauses[i], d))
    && (forall i :: 0 <= i < |clauses| && clauses[i].presence == Prohibited ==>
          !MatchedAmong(docs, pipeline, clauses[i], d))
    && ((forall i :: 0 <= i < |clauses| ==> clauses[i].presence == Prohibited)
        || exists i :: 0 <= i < |clauses| && clauses[i].presence != Prohibited
             && MatchedAmong(docs, pipeline, clauses[i], d))
    && fields != [] && HasRef(docs, d)
  }

  /** The index holds what these documents have. */
  ghost predicate IndexOf(ix: SearchIndex, docs: seq<Document>, fields: seq<string>) {
    && ValidIndex(ix) && ix.fields == fields
    && (forall w :: w in ix.inverted <==> IsTermOf(docs, fields, w))
    && (forall w, f, d :: f in fields ==> (d in DocsOf(ix, w, f) <==> HasToken(docs, w, f, d)))
    && (forall d :: HasVector(ix, d) <==> fields != [] && HasRef(docs, d))
  }

  lemma MatchedIsAmong(ix: SearchIndex, docs: seq<Document>, fields: seq<string>, pipeline: Pipeline, c: Clause,
                       d: string)
    requires IndexOf(ix, docs, fields) && forall f :: f in c.fields ==> f in fields
    ensures Matched(Terms(ix), ix, pipeline, c, d) <==> MatchedAmong(docs, pipeline, c, d)
    ensures Fulfilled(Terms(ix), ix, pipeline, c, d) <==> FulfilledAmong(docs, fields, pipeline, c, d)
  {
    hide TermMatches;
    hide HasToken;
    hide ValidIndex;
    hide HasVector;
    if t, w, f :| t in TokensOf(pipeline, c) && f in c.fields && TermMatches(c, t, w) && HasToken(docs, w, f, d) {
      assert f in fields && IsTermOf(docs, fields, w);
      assert w in Terms(ix) && d in DocsOf(ix, w, f);
    }
    if t, w, f :|
      t in TokensOf(pipeline, c) && w in Terms(ix) && f in c.fields && TermMatches(c, t, w) && d in DocsOf(ix, w, f) {
      assert HasToken(docs, w, f, d);
    }
    hide IsTermOf;
    forall t
      ensures HasTerm(Terms(ix), c, t) <==> TokenFound(docs, fields, c, t)
    {
    }
  }

  lemma SelectedIsAmong(ix: SearchIndex, docs: seq<Document>, fields: seq<string>, pipeline: Pipeline,
                        clauses: seq<Clause>, d: string)
    requires IndexOf(ix, docs, fields) && forall c, f :: c in clauses && f in c.fields ==> f in fields
    ensures Selected(Terms(ix), ix, pipeline, clauses, d) <==> SelectedAmong(docs, fields, pipeline, clauses, d)
  {
    forall i | 0 <= i < |clauses|
      ensures Matched(Terms(ix), ix, pipeline, clauses[i], d) <==> MatchedAmong(docs, pipeline, clauses[i], d)
      ensures Fulfilled(Terms(ix), ix, pipeline, clauses[i], d) <==>
              FulfilledAmong(docs, fields, pipeline, clauses[i], d)
      ensures HasField(ix, clauses[i]) <==> clauses[i].fields != []
    {
      assert clauses[i] in clauses;
      MatchedIsAmong(ix, docs, fields, pipeline, clauses[i], d);
      if clauses[i].fields != [] {
        assert clauses[i].fields[0] in clauses[i].fields;
      }
    }
    hide Matched;
    hide MatchedAmong;
    hide Fulfilled;
    hide FulfilledAmong;
    hide HasField;
    hide ValidIndex;
    hide HasVector;
  }

  ghost predicate DigitFreeDocuments(docs: seq<Document>, fields: seq<string>) {
    forall w :: IsTermOf(docs, fields, w) ==> TokenSetRuns.DigitFreeWord(w)
  }

  /** What a search should answer. */
  ghost predicate AnswersAmong(docs: seq<Document>, fields: seq<string>, pipeline: Pipeline, outcome: Outcome,
                               a: Answer) {
    match outcome
    case Error(error) => a == SyntaxError(error)
    case Parsed(clauses) =>
      if exists i :: 0 <= i < |clauses| && Undefined(pipeline, clauses, i) then a == TypeError
      else a.Documents? && Distinct(a.docs)
           && forall d :: d in a.docs <==> SelectedAmong(docs, fields, pipeline, clauses, d)
  }

  /** Index the documents, save the index, load it on the heap of a page, and search there.
      The search answers as it should if the run that builds the loaded token set is genuine,
      and so it does if the terms have no digits; it fails only if the pipeline drops a term. */
  method SearchSaved(heap: Heap, page: Heap, docs: seq<Document>, names: seq<string>, score: Score, pipeline: Pipeline,
                     lower: string -> string, str: string)
    returns (a: Answer, ghost words: seq<string>)
    requires heap != page && Closed(heap.nodes) && Closed(page.nodes) && FieldNames(names)
    modifies heap, page
    ensures var fields := Named(names);
            && InOrder(words) && Once(words) && (forall w :: w in words <==> IsTermOf(docs, fields, w))
            && (RightFor(docs, fields, old(page.nodes), words) ==>
                  && AnswersAmong(docs, fields, pipeline, Parse(Context(fields, lower), Lexemes(str, 0, 0)), a)
                  && (DropsNothing(pipeline) ==> !a.TypeError?))
  {
    hide *;
    var ok, ix, ws := IndexDocuments(heap, docs, names, score);
    var fields := ix.fields;
    IsIndexOf(ix, docs, fields);
    var loaded;
    loaded, words := SaveAndLoad(page, ix);
    var saved := loaded.value;
    StillIndexOf(ix, saved, docs, fields);
    BuiltOffers(old(page.nodes), page.nodes, saved, words);
    ghost var nodes := page.nodes;
    ghost var offered := Accepted(nodes, saved);
    ValidIfIndexOf(saved, docs, fields);
    a := Search(page, saved, pipeline, lower, str, offered);
    RightThenAccepted(old(page.nodes), nodes, saved, words, docs, fields);
    if TermsAccepted(nodes, saved) {
      AnswerIsAmong(nodes, saved, docs, fields, pipeline, lower, str, offered, a);
      AnswerNoTypeError(docs, fields, pipeline, Parse(Context(fields, lower), Lexemes(str, 0, 0)), a);
    }
  }

  /** The run over these words on this heap is genuine, or the terms have no digits. */
  ghost predicate RightFor(docs: seq<Document>, fields: seq<string>, nodes: Arena, words: seq<string>) {
    TokenSetRuns.GenuineRun(TokenSetBuilder.Start(nodes), words) || DigitFreeDocuments(docs, fields)
  }

  lemma AnswerNoTypeError(docs: seq<Document>, fields: seq<string>, pipeline: Pipeline, outcome: Outcome, a: Answer)
    requires AnswersAmong(docs, fields, pipeline, outcome, a)
    ensures DropsNothing(pipeline) ==> !a.TypeError?
  {
    hide Undefined;
    hide SelectedAmong;
    if DropsNothing(pipeline) && outcome.Parsed? {
      forall i | 0 <= i < |outcome.clauses|
        ensures !Undefined(pipeline, outcome.clauses, i)
      {
        NothingDroppedDefined(pipeline, outcome.clauses, i);
      }
    }
  }

  lemma IsIndexOf(ix: SearchIndex, docs: seq<Document>, fields: seq<string>)
    requires ValidIndex(ix) && ix.fields == fields && forall w :: w in ix.inverted <==> IsTermOf(docs, fields, w)
    requires forall w, f, d :: f in fields ==> (d in DocsOf(ix, w, f) <==> HasToken(docs, w, f, d))
    requires forall d :: fields != [] ==> (HasVector(ix, d) <==> HasRef(docs, d))
    ensures IndexOf(ix, docs, fields)
  {
  }

  lemma BuiltOffers(nodes: Arena, nodes': Arena, ix: SearchIndex, words: seq<string>)
    requires TokenSetBuilt(nodes, nodes', ix, words)
    ensures Offers(nodes', ix, Accepted(nodes', ix)) && Closed(nodes')
  {
  }

  lemma StillIndexOf(ix: SearchIndex, saved: SearchIndex, docs: seq<Document>, fields: seq<string>)
    requires IndexOf(ix, docs, fields) && saved == ix.(tokenSet := saved.tokenSet)
    ensures IndexOf(saved, docs, fields)
  {
    assert forall w, f :: DocsOf(saved, w, f) == DocsOf(ix, w, f);
    assert forall d :: HasVector(saved, d) <==> HasVector(ix, d);
    hide DocsOf;
    hide HasVector;
    hide HasToken;
    hide IsTermOf;
  }

  lemma ValidIfIndexOf(ix: SearchIndex, docs: seq<Document>, fields: seq<string>)
    requires IndexOf(ix, docs, fields)
    ensures ValidIndex(ix) && ix.fields == fields
  {
  }

  lemma RightThenAccepted(nodes: Arena, nodes': Arena, ix: SearchIndex, words: seq<string>,
                          docs: seq<Document>, fields: seq<string>)
    requires TokenSetBuilt(nodes, nodes', ix, words) && IndexOf(ix, docs, fields)
    ensures InOrder(words) && Once(words) && forall w :: w in words <==> IsTermOf(docs, fields, w)
    ensures RightFor(docs, fields, nodes, words) ==> TermsAccepted(nodes', ix)
  {
    hide TermsAccepted;
    hide Offers;
  }

  lemma AnswerIsAmong(h: Arena, ix: SearchIndex, docs: seq<Document>, fields: seq<string>, pipeline: Pipeline,
                      lower: string -> string, str: string, offered: iset<string>, a: Answer)
    requires IndexOf(ix, docs, fields) && TermsAccepted(h, ix) && offered == Accepted(h, ix)
    requires match Parse(Context(fields, lower), Lexemes(str, 0, 0))
             case Error(error) => a == SyntaxError(error)
             case Parsed(clauses) => Answers(offered, ix, pipeline, clauses, a)
    ensures AnswersAmong(docs, fields, pipeline, Parse(Context(fields, lower), Lexemes(str, 0, 0)), a)
  {
    assert offered == Terms(ix);
    var ctx, ls := Context(fields, lower), Lexemes(str, 0, 0);
    var outcome := Parse(ctx, ls);
    hide *;
    if outcome.Parsed? {
      ValidIfIndexOf(ix, docs, fields);
      ParsedFieldsKnown(ctx, ls);
      forall i | 0 <= i < |outcome.clauses|
        ensures Fails(offered, ix, pipeline, outcome.clauses, i) <==> Undefined(pipeline, outcome.clauses, i)
      {
        OnlyUndefinedFails(ix, pipeline, ctx, ls, i);
      }
      forall d
        ensures Selected(offered, ix, pipeline, outcome.clauses, d) <==>
                SelectedAmong(docs, fields, pipeline, outcome.clauses, d)
      {
        SelectedIsAmong(ix, docs, fields, pipeline, outcome.clauses, d);
      }
      AnswersThen(offered, ix, docs, fields, pipeline, outcome.clauses, a);
    }
  }

  lemma AnswersThen(offered: iset<string>, ix: SearchIndex, docs: seq<Document>, fields: seq<string>,
                    pipeline: Pipeline, clauses: seq<Clause>, a: Answer)
    requires Answers(offered, ix, pipeline, clauses, a)
    requires forall i :: 0 <= i < |clauses| ==>
               (Fails(offered, ix, pipeline, clauses, i) <==> Undefined(pipeline, clauses, i))
    requires forall d :: Selected(offered, ix, pipeline, clauses, d) <==>
               SelectedAmong(docs, fields, pipeline, clauses, d)
    ensures AnswersAmong(docs, fields, pipeline, Parsed(clauses), a)
  {
    hide Fails;
    hide Undefined;
    hide Selected;
    hide SelectedAmong;
  }
}
