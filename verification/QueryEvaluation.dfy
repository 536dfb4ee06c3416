/** `Index.prototype.query`: which documents a query finds. */
module QueryEvaluation {
  import opened TokenSets
  import opened Tries
  import opened Worklists
  import opened Globs
  import opened EditDistance
  import opened Intersection
  import opened Enumeration
  import opened LunrSets
  import opened Queries

  /** What the index records of a term: its number, and for each field the documents that
      have the term there. */
  datatype Posting = Posting(index: nat, docs: map<string, set<string>>)

  datatype SearchIndex = SearchIndex(tokenSet: nat, fields: seq<string>, inverted: map<string, Posting>,
                                     fieldVectors: map<string, seq<real>>)

  /** The token set accepts exactly these words. */
  ghost predicate Offers(h: Arena, ix: SearchIndex, offered: iset<string>) {
    && Closed(h) && Acyclic(h, ix.tokenSet) && ix.tokenSet < |h|
    && forall w :: Accepts(h, ix.tokenSet, w) <==> w in offered
  }

  /** The words that the token set accepts. */
  ghost function Accepted(h: Arena, ix: SearchIndex): iset<string> {
    iset w | Accepts(h, ix.tokenSet, w)
  }

  ghost function Terms(ix: SearchIndex): iset<string> {
    iset w | w in ix.inverted
  }

  /** The token set accepts exactly the terms of the inverted index. */
  ghost predicate TermsAccepted(h: Arena, ix: SearchIndex) {
    Offers(h, ix, Terms(ix))
  }

  /** Every posting has the fields of the index, field names have no joiner, and the field
      vectors are those of documents in fields of the index. */
  ghost predicate ValidIndex(ix: SearchIndex) {
    && (forall w, f :: w in ix.inverted ==> (f in ix.fields <==> f in ix.inverted[w].docs))
    && (forall f :: f in ix.fields ==> JOINER !in f)
    && (forall ref :: ref in ix.fieldVectors ==> JOINER in ref && RefFromString(ref).fieldName in ix.fields)
    && (forall w, f, d ::
          w in ix.inverted && f in ix.fields && f in ix.inverted[w].docs && d in ix.inverted[w].docs[f] ==>
            RefString(FieldRef(d, f)) in ix.fieldVectors)
  }

  // ----- What a query means

  type Pipeline = string -> seq<string>

  function TokensOf(pipeline: Pipeline, c: Clause): seq<string> {
    if c.usePipeline then pipeline(c.term) else [c.term]
  }

  /** A word matches a token of a clause: near it, or by its pattern. */
  predicate TermMatches(c: Clause, token: string, term: string) {
    term != [] &&
    if c.editDistance.Some? then Near(token, c.editDistance.value, term) else token != [] && Glob(token, term)
  }

  ghost predicate HasTerm(offered: iset<string>, c: Clause, token: string) {
    exists w :: w in offered && TermMatches(c, token, w)
  }

  function DocsOf(ix: SearchIndex, w: string, f: string): set<string> {
    if w in ix.inverted && f in ix.inverted[w].docs then ix.inverted[w].docs[f] else {}
  }

  /** The document has, in a field of the clause, a term that a token of the clause matches. */
  ghost predicate Matched(offered: iset<string>, ix: SearchIndex, pipeline: Pipeline, c: Clause, d: string) {
    exists t, w, f :: t in TokensOf(pipeline, c) && w in offered && f in c.fields && TermMatches(c, t, w)
      && d in DocsOf(ix, w, f)
  }

  /** A required clause also needs a term for each of its tokens. */
  ghost predicate Fulfilled(offered: iset<string>, ix: SearchIndex, pipeline: Pipeline, c: Clause, d: string) {
    Matched(offered, ix, pipeline, c, d) && forall t :: t in TokensOf(pipeline, c) ==> HasTerm(offered, c, t)
  }

  /** A clause for which the pipeline is not used matches by its own term. */
  lemma MatchedByTerm(offered: iset<string>, ix: SearchIndex, pipeline: Pipeline, c: Clause, d: string)
    ensures Matched(offered, ix, pipeline, c, d) <==>
            exists w, f :: w in offered && f in c.fields && d in DocsOf(ix, w, f)
              && if c.usePipeline then exists t :: t in pipeline(c.term) && TermMatches(c, t, w)
                 else TermMatches(c, c.term, w)
    ensures Fulfilled(offered, ix, pipeline, c, d) <==>
            && Matched(offered, ix, pipeline, c, d)
            && (c.usePipeline ==> forall t :: t in pipeline(c.term) ==> HasTerm(offered, c, t))
    ensures TokensOf(pipeline, c) == [] <==> c.usePipeline && pipeline(c.term) == []
  {
    hide DocsOf;
    hide TermMatches;
    if w, f :| w in offered && f in c.fields && d in DocsOf(ix, w, f) && !c.usePipeline && TermMatches(c, c.term, w) {
      assert c.term in TokensOf(pipeline, c);
    }
  }

  ghost predicate HasVector(ix: SearchIndex, d: string) {
    exists ref :: ref in ix.fieldVectors && JOINER in ref && RefFromString(ref).docRef == d
  }

  /** A required clause counts only if it names a field of the index. */
  predicate HasField(ix: SearchIndex, c: Clause) {
    exists f :: f in c.fields && f in ix.fields
  }

  /** In the match set of every required clause, in that of no prohibited clause, and
      in that of some clause that is not prohibited; any document of the index, if all are. */
  ghost predicate Selected(offered: iset<string>, ix: SearchIndex, pipeline: Pipeline, clauses: seq<Clause>,
                           d: string) {
    && (forall i :: 0 <= i < |clauses| && clauses[i].presence == Required && HasField(ix, clauses[i]) ==>
          Fulfilled(offered, ix, pipeline, clauses[i], d))
    && (forall i :: 0 <= i < |clauses| && clauses[i].presence == Prohibited ==>
          !Matched(offered, ix, pipeline, clauses[i], d))
    && ((forall i :: 0 <= i < |clauses| ==> clauses[i].presence == Prohibited)
        || exists i :: 0 <= i < |clauses| && clauses[i].presence != Prohibited
             && Matched(offered, ix, pipeline, clauses[i], d))
    && HasVector(ix, d)
  }

  /** A token of the clause that is dealt with, rather than skipped after a token without terms. */
  ghost predicate Reached(offered: iset<string>, c: Clause, tokens: seq<string>, i: nat) {
    i < |tokens| && (c.presence == Required ==> forall j :: 0 <= j <= i ==> HasTerm(offered, c, tokens[j]))
  }

  /** The word has a posting, with all fields of the clause. */
  predicate Listed(ix: SearchIndex, c: Clause, w: string) {
    w in ix.inverted && forall f :: f in c.fields ==> f in ix.inverted[w].docs
  }

  /** A token that is dealt with matches a word that the token set accepts and that has no
      posting, or one that lacks a field of the clause. */
  ghost predicate Unlisted(offered: iset<string>, ix: SearchIndex, c: Clause, tokens: seq<string>) {
    exists i: nat :: Reached(offered, c, tokens, i) && MatchesUnlisted(offered, ix, c, tokens[i])
  }

  ghost predicate MatchesUnlisted(offered: iset<string>, ix: SearchIndex, c: Clause, token: string) {
    exists w :: w in offered && TermMatches(c, token, w) && !Listed(ix, c, w)
  }

  /** The clause makes the code fail with a TypeError. */
  ghost predicate Fails(offered: iset<string>, ix: SearchIndex, pipeline: Pipeline, clauses: seq<Clause>, i: nat)
    requires i < |clauses|
  {
    Undefined(pipeline, clauses, i) || Unlisted(offered, ix, clauses[i], TokensOf(pipeline, clauses[i]))
  }

  /** A required clause without tokens finds a field for which no required clause with
      tokens came before: `requiredMatches[field]` is undefined there. */
  ghost predicate Undefined(pipeline: Pipeline, clauses: seq<Clause>, i: nat)
    requires i < |clauses|
  {
    clauses[i].presence == Required && TokensOf(pipeline, clauses[i]) == []
    && exists f :: f in clauses[i].fields && !DefinedBefore(pipeline, clauses, i, f)
  }

  ghost predicate DefinedBefore(pipeline: Pipeline, clauses: seq<Clause>, n: nat, f: string)
    requires n <= |clauses|
  {
    exists j :: 0 <= j < n && clauses[j].presence == Required && TokensOf(pipeline, clauses[j]) != []
      && f in clauses[j].fields
  }

  // ----- From a token to the terms it matches

  lemma StillOffers(h: Arena, h': Arena, ix: SearchIndex, offered: iset<string>)
    requires Offers(h, ix, offered) && Grows(h, h') && Closed(h')
    ensures Offers(h', ix, offered)
  {
    var k: nat :| Within(h, ix.tokenSet, k);
    WithinGrows(h, h', ix.tokenSet, k);
    forall w
      ensures Accepts(h', ix.tokenSet, w) <==> w in offered
    {
      AcceptsGrows(h, h', ix.tokenSet, w);
    }
  }

  /** `this.tokenSet.intersect(TokenSet.fromClause(clause)).toArray()`: the words of the
      token set that the token matches, each once. */
  method TermsFor(heap: Heap, ix: SearchIndex, c: Clause, token: string, ghost offered: iset<string>)
    returns (terms: seq<string>)
    requires Offers(heap.nodes, ix, offered)
    modifies heap
    ensures Grows(old(heap.nodes), heap.nodes) && Offers(heap.nodes, ix, offered)
    ensures Distinct(terms)
    ensures forall w :: w in terms <==> w in offered && TermMatches(c, token, w)
  {
    ghost var h0 := heap.nodes;
    var q: nat;
    if c.editDistance.Some? {
      q := FuzzyAutomaton(heap, token, c.editDistance.value);
    } else {
      q := FromString(heap, token);
    }
    ghost var h1 := heap.nodes;
    StillOffers(h0, h1, ix, offered);
    var root := Intersect(heap, ix.tokenSet, q);
    StillOffers(h1, heap.nodes, ix, offered);
    ghost var paths :| Trie(heap.nodes, root, paths);
    TrieAcyclic(heap.nodes, root, paths);
    terms := ToArray(heap, root);
  }

  // ----- The loops

  /** The maps that the loops of `query` fill: `requiredMatches`, `prohibitedMatches`,
      `matchingFields` by the strings of its keys, and `termFieldCache`. */
  datatype Found = Found(required: map<string, LunrSet>, prohibited: map<string, LunrSet>, matching: set<string>,
                         cached: set<string>)

  predicate InSet(m: map<string, LunrSet>, f: string, d: string) {
    f in m && m[f].Contains(d)
  }

  type Visits = set<(string, string)>

  ghost predicate VisitedDoc(ix: SearchIndex, visits: Visits, d: string) {
    exists v :: v in visits && d in DocsOf(ix, v.0, v.1)
  }

  ghost predicate VisitedIn(ix: SearchIndex, visits: Visits, f: string, d: string) {
    exists v :: v in visits && v.1 == f && d in DocsOf(ix, v.0, v.1)
  }

  ghost predicate VisitedRef(ix: SearchIndex, visits: Visits, ref: string) {
    exists v, d :: v in visits && d in DocsOf(ix, v.0, v.1) && ref == RefString(FieldRef(d, v.1))
  }

  ghost predicate VisitedField(visits: Visits, f: string) {
    exists v :: v in visits && v.1 == f
  }

  /** A cached term and field has had all its documents added. */
  ghost predicate CacheOk(ix: SearchIndex, found: Found) {
    forall w, f, d :: JOINER !in f && TermFieldKey(w, f) in found.cached && d in DocsOf(ix, w, f) ==>
      RefString(FieldRef(d, f)) in found.matching
  }

  /** What visiting these terms and fields for one clause has done. */
  ghost predicate Done(ix: SearchIndex, c: Clause, found0: Found, found: Found, m: LunrSet, visits: Visits) {
    && CacheOk(ix, found)
    && (forall ref :: ref in found.matching <==>
          ref in found0.matching || (c.presence != Prohibited && VisitedRef(ix, visits, ref)))
    && (forall f, d :: InSet(found.prohibited, f, d) <==>
          InSet(found0.prohibited, f, d) || (c.presence == Prohibited && VisitedIn(ix, visits, f, d)))
    && (forall f :: f in found.required <==>
          f in found0.required || (c.presence == Required && VisitedField(visits, f)))
    && (forall f :: f in found.required ==>
          found.required[f] == if f in found0.required then found0.required[f] else Complete)
    && (c.presence == Required ==> forall d :: m.Contains(d) <==> VisitedDoc(ix, visits, d))
  }

  lemma DoneAtFirst(ix: SearchIndex, c: Clause, found: Found)
    requires CacheOk(ix, found)
    ensures Done(ix, c, found, found, Empty, {})
  {
  }

  /** The innermost loop: add the references of the documents. */
  method AddMatches(docs: set<string>, f: string, matching: set<string>) returns (matching': set<string>)
    ensures forall ref :: ref in matching' <==>
              ref in matching || exists d :: d in docs && ref == RefString(FieldRef(d, f))
  {
    matching' := matching;
    var rest := docs;
    while rest != {}
      invariant rest <= docs
      invariant forall ref :: ref in matching' <==>
                  ref in matching || exists d :: d in docs && d !in rest && ref == RefString(FieldRef(d, f))
      decreases |rest|
    {
      var d :| d in rest;
      matching' := matching' + {RefString(FieldRef(d, f))};
      rest := rest - {d};
    }
  }

  /** One term and one field of a clause. */
  method Visit(ghost ix: SearchIndex, c: Clause, w: string, f: string, docs: set<string>, m: LunrSet, found: Found,
               ghost found0: Found, ghost visits: Visits)
    returns (m': LunrSet, found': Found)
    requires JOINER !in f && docs == DocsOf(ix, w, f)
    requires Done(ix, c, found0, found, m, visits)
    ensures Done(ix, c, found0, found', m', visits + {(w, f)})
  {
    m', found' := m, found;
    var key := TermFieldKey(w, f);
    var q := FromKeys(docs);
    if c.presence == Required {
      m' := m.Union(q);
      if f !in found.required {
        found' := found'.(required := found'.required[f := Complete]);
      }
    }
    if c.presence == Prohibited {
      var before := if f in found.prohibited then found.prohibited[f] else Empty;
      found' := found'.(prohibited := found'.prohibited[f := before.Union(q)]);
    } else if key !in found.cached {
      var matching := AddMatches(docs, f, found.matching);
      found' := found'.(matching := matching, cached := found'.cached + {key});
    }
    VisitDone(ix, c, w, f, m, m', found0, found, found', visits);
  }

  lemma VisitDone(ix: SearchIndex, c: Clause, w: string, f: string, m: LunrSet, m': LunrSet,
                  found0: Found, found: Found, found': Found, visits: Visits)
    requires JOINER !in f && Done(ix, c, found0, found, m, visits)
    requires m' == if c.presence == Required then m.Union(FromKeys(DocsOf(ix, w, f))) else m
    requires found'.required ==
             if c.presence == Required && f !in found.required then found.required[f := Complete] else found.required
    requires found'.prohibited ==
             if c.presence == Prohibited
             then var sofar := if f in found.prohibited then found.prohibited[f] else Empty;
                  found.prohibited[f := sofar.Union(FromKeys(DocsOf(ix, w, f)))]
             else found.prohibited
    requires if c.presence != Prohibited && TermFieldKey(w, f) !in found.cached
             then found'.cached == found.cached + {TermFieldKey(w, f)}
                  && forall ref :: ref in found'.matching <==>
                       ref in found.matching || exists d :: d in DocsOf(ix, w, f) && ref == RefString(FieldRef(d, f))
             else found'.cached == found.cached && found'.matching == found.matching
    ensures Done(ix, c, found0, found', m', visits + {(w, f)})
  {
    VisitedMore(ix, w, f, visits);
    hide VisitedRef;
    hide VisitedIn;
    hide VisitedDoc;
    hide VisitedField;
    hide RefString;
    hide DocsOf;
    forall t, x, d | JOINER !in x && TermFieldKey(t, x) in found'.cached && d in DocsOf(ix, t, x)
      ensures RefString(FieldRef(d, x)) in found'.matching
    {
      if TermFieldKey(t, x) !in found.cached {
        TermFieldKeyInjective(t, x, w, f);
      }
    }
  }

  lemma VisitedMore(ix: SearchIndex, w: string, f: string, visits: Visits)
    ensures var more := visits + {(w, f)};
            && (forall ref :: VisitedRef(ix, more, ref) <==>
                  VisitedRef(ix, visits, ref) || exists d :: d in DocsOf(ix, w, f) && ref == RefString(FieldRef(d, f)))
            && (forall x, d :: VisitedIn(ix, more, x, d) <==>
                  VisitedIn(ix, visits, x, d) || (x == f && d in DocsOf(ix, w, f)))
            && (forall d :: VisitedDoc(ix, more, d) <==> VisitedDoc(ix, visits, d) || d in DocsOf(ix, w, f))
            && (forall x :: VisitedField(more, x) <==> VisitedField(visits, x) || x == f)
  {
    hide DocsOf;
    hide RefString;
    var more := visits + {(w, f)};
    assert (w, f) in more;
    forall ref
      ensures VisitedRef(ix, more, ref) <==>
              VisitedRef(ix, visits, ref) || exists d :: d in DocsOf(ix, w, f) && ref == RefString(FieldRef(d, f))
    {
    }
    forall x, d
      ensures VisitedIn(ix, more, x, d) <==> VisitedIn(ix, visits, x, d) || (x == f && d in DocsOf(ix, w, f))
    {
    }
    forall d
      ensures VisitedDoc(ix, more, d) <==> VisitedDoc(ix, visits, d) || d in DocsOf(ix, w, f)
    {
    }
    forall x
      ensures VisitedField(more, x) <==> VisitedField(visits, x) || x == f
    {
    }
  }

  /** All fields of the clause, for one term; `false` where the posting lacks one. */
  method VisitFields(ix: SearchIndex, c: Clause, w: string, m: LunrSet, found: Found, ghost found0: Found,
                     ghost visits: Visits)
    returns (ok: bool, m': LunrSet, found': Found, ghost visits': Visits)
    requires ValidIndex(ix) && w in ix.inverted && Done(ix, c, found0, found, m, visits)
    ensures ok <==> Listed(ix, c, w)
    ensures ok ==> Done(ix, c, found0, found', m', visits')
    ensures ok ==> forall v :: v in visits' <==> v in visits || (v.0 == w && v.1 in c.fields)
  {
    hide Done;
    ok, m', found', visits' := true, m, found, visits;
    for j := 0 to |c.fields|
      invariant ok && Done(ix, c, found0, found', m', visits')
      invariant forall f :: f in c.fields[..j] ==> f in ix.inverted[w].docs
      invariant forall v :: v in visits' <==> v in visits || (v.0 == w && v.1 in c.fields[..j])
    {
      var f := c.fields[j];
      assert c.fields[..j + 1] == c.fields[..j] + [f];
      if f !in ix.inverted[w].docs {
        assert f in c.fields;
        ok := false;
        return;
      }
      m', found' := Visit(ix, c, w, f, ix.inverted[w].docs[f], m', found', found0, visits');
      visits' := visits' + {(w, f)};
    }
    assert c.fields[..|c.fields|] == c.fields;
  }

  /** All terms of a token; `false` where one has no posting, or its posting lacks a field. */
  method VisitTerms(ix: SearchIndex, c: Clause, terms: seq<string>, m: LunrSet, found: Found, ghost found0: Found,
                    ghost visits: Visits)
    returns (ok: bool, m': LunrSet, found': Found, ghost visits': Visits)
    requires ValidIndex(ix) && Done(ix, c, found0, found, m, visits)
    ensures ok <==> forall w :: w in terms ==> Listed(ix, c, w)
    ensures ok ==> Done(ix, c, found0, found', m', visits')
    ensures ok ==> forall v :: v in visits' <==> v in visits || (v.0 in terms && v.1 in c.fields)
  {
    hide Done;
    hide ValidIndex;
    ok, m', found', visits' := true, m, found, visits;
    for i := 0 to |terms|
      invariant ok && Done(ix, c, found0, found', m', visits')
      invariant forall w :: w in terms[..i] ==> Listed(ix, c, w)
      invariant forall v :: v in visits' <==> v in visits || (v.0 in terms[..i] && v.1 in c.fields)
    {
      var w := terms[i];
      assert terms[..i + 1] == terms[..i] + [w];
      if w in ix.inverted {
        ok, m', found', visits' := VisitFields(ix, c, w, m', found', found0, visits');
      } else {
        ok := false;
      }
      if !ok {
        assert w in terms && !Listed(ix, c, w);
        return;
      }
    }
    assert terms[..|terms|] == terms;
  }

  /** The terms visited once the first `n` tokens of the clause have been dealt with. */
  ghost predicate VisitsOfTokens(offered: iset<string>, c: Clause, tokens: seq<string>, n: nat, visits: Visits)
    requires n <= |tokens|
  {
    forall v :: v in visits <==>
      v.0 in offered && v.1 in c.fields && exists i :: 0 <= i < n && TermMatches(c, tokens[i], v.0)
  }

  /** The words that the first `n` tokens match are all listed. */
  ghost predicate ListedBefore(offered: iset<string>, ix: SearchIndex, c: Clause, tokens: seq<string>, n: nat)
    requires n <= |tokens|
  {
    forall i :: 0 <= i < n ==> !MatchesUnlisted(offered, ix, c, tokens[i])
  }

  /** The loop over the tokens of a clause.  A required clause stops at a token without
      terms; `false` where a matched word is not listed. */
  method VisitTokens(heap: Heap, ix: SearchIndex, c: Clause, tokens: seq<string>, found0: Found,
                     ghost offered: iset<string>)
    returns (ok: bool, m: LunrSet, found: Found, n: nat, ghost visits: Visits)
    requires Offers(heap.nodes, ix, offered) && ValidIndex(ix) && CacheOk(ix, found0)
    modifies heap
    ensures Grows(old(heap.nodes), heap.nodes) && Offers(heap.nodes, ix, offered)
    ensures !ok <==> Unlisted(offered, ix, c, tokens)
    ensures ok ==>
            n <= |tokens| && Done(ix, c, found0, found, m, visits) && VisitsOfTokens(offered, c, tokens, n, visits)
    ensures ok && c.presence == Required ==> forall i :: 0 <= i < n ==> HasTerm(offered, c, tokens[i])
    ensures ok && n < |tokens| ==> c.presence == Required && !HasTerm(offered, c, tokens[n])
  {
    ok, m, found, n, visits := true, Empty, found0, 0, {};
    DoneAtFirst(ix, c, found0);
    hide Done;
    hide ValidIndex;
    hide Listed;
    hide Offers;
    while n < |tokens|
      invariant ok && n <= |tokens| && Done(ix, c, found0, found, m, visits)
                && VisitsOfTokens(offered, c, tokens, n, visits)
      invariant Grows(old(heap.nodes), heap.nodes) && Offers(heap.nodes, ix, offered)
      invariant c.presence == Required ==> forall i :: 0 <= i < n ==> HasTerm(offered, c, tokens[i])
      invariant ListedBefore(offered, ix, c, tokens, n)
    {
      var terms := TermsFor(heap, ix, c, tokens[n], offered);
      if |terms| == 0 && c.presence == Required {
        assert forall w :: w !in terms;
        NotReached(offered, ix, c, tokens, n);
        return;
      }
      assert |terms| > 0 ==> terms[0] in terms;
      ghost var visits0 := visits;
      ok, m, found, visits := VisitTerms(ix, c, terms, m, found, found0, visits);
      if !ok {
        assert Reached(offered, c, tokens, n) && MatchesUnlisted(offered, ix, c, tokens[n]);
        return;
      }
      NextToken(offered, c, tokens, n, terms, visits0, visits);
      n := n + 1;
    }
  }

  lemma NotReached(offered: iset<string>, ix: SearchIndex, c: Clause, tokens: seq<string>, n: nat)
    requires n < |tokens| && ListedBefore(offered, ix, c, tokens, n)
    requires c.presence == Required && !HasTerm(offered, c, tokens[n])
    ensures !Unlisted(offered, ix, c, tokens)
  {
  }

  lemma NextToken(offered: iset<string>, c: Clause, tokens: seq<string>, n: nat, terms: seq<string>, visits: Visits,
                  visits': Visits)
    requires n < |tokens| && VisitsOfTokens(offered, c, tokens, n, visits)
    requires forall w :: w in terms <==> w in offered && TermMatches(c, tokens[n], w)
    requires forall v :: v in visits' <==> v in visits || (v.0 in terms && v.1 in c.fields)
    ensures VisitsOfTokens(offered, c, tokens, n + 1, visits')
  {
  }

  /** The loop that narrows the required documents; `false` where it would fail. */
  method Narrow(fields: seq<string>, required: map<string, LunrSet>, m: LunrSet)
    returns (ok: bool, required': map<string, LunrSet>)
    ensures ok <==> forall f :: f in fields ==> f in required
    ensures ok ==> Narrowed(fields, required, m, required')
  {
    required' := required;
    ok := true;
    for i := 0 to |fields|
      invariant ok && forall j :: 0 <= j < i ==> fields[j] in required
      invariant Narrowed(fields[..i], required, m, required')
    {
      var f := fields[i];
      if f !in required' {
        assert fields[i] in fields && fields[i] !in required;
        ok := false;
        return;
      }
      NarrowMore(fields[..i], required, m, required', f);
      required' := required'[f := required'[f].Intersect(m)];
      assert fields[..i + 1] == fields[..i] + [f];
    }
    assert fields[..|fields|] == fields;
    assert forall f :: f in fields ==> f in required;
  }

  /** The sets of these fields have lost what is not in `m`. */
  ghost predicate Narrowed(fields: seq<string>, required: map<string, LunrSet>, m: LunrSet,
                           required': map<string, LunrSet>) {
    && required'.Keys == required.Keys
    && forall f, d :: NarrowedAt(fields, required, m, required', f, d)
  }

  ghost predicate NarrowedAt(fields: seq<string>, required: map<string, LunrSet>, m: LunrSet,
                             required': map<string, LunrSet>, f: string, d: string) {
    InSet(required', f, d) <==> InSet(required, f, d) && (f in fields ==> m.Contains(d))
  }

  lemma NarrowMore(fields: seq<string>, required: map<string, LunrSet>, m: LunrSet, required': map<string, LunrSet>,
                   f: string)
    requires Narrowed(fields, required, m, required') && f in required'
    ensures Narrowed(fields + [f], required, m, required'[f := required'[f].Intersect(m)])
  {
    var after := required'[f := required'[f].Intersect(m)];
    assert after.Keys == required.Keys;
    forall g, d
      ensures NarrowedAt(fields + [f], required, m, after, g, d)
    {
      ContainsLaws(required'[f], m, d);
      assert NarrowedAt(fields, required, m, required', g, d);
    }
  }

  method SetEmpty(fields: seq<string>, required: map<string, LunrSet>) returns (required': map<string, LunrSet>)
    ensures forall f :: f in required' <==> f in required || f in fields
    ensures forall f :: f in required' ==> required'[f] == if f in fields then Empty else required[f]
  {
    required' := required;
    for i := 0 to |fields|
      invariant forall f :: f in required' <==> f in required || f in fields[..i]
      invariant forall f :: f in required' ==> required'[f] == if f in fields[..i] then Empty else required[f]
    {
      assert fields[..i + 1] == fields[..i] + [fields[i]];
      required' := required'[fields[i] := Empty];
    }
    assert fields[..|fields|] == fields;
  }

  ghost predicate Visited(offered: iset<string>, c: Clause, tokens: seq<string>, w: string, f: string) {
    w in offered && f in c.fields && exists i: nat :: Reached(offered, c, tokens, i) && TermMatches(c, tokens[i], w)
  }

  ghost predicate Contributes(offered: iset<string>, ix: SearchIndex, c: Clause, tokens: seq<string>, f: string,
                              d: string) {
    exists w :: Visited(offered, c, tokens, w, f) && d in DocsOf(ix, w, f)
  }

  ghost predicate MatchingDone(offered: iset<string>, ix: SearchIndex, c: Clause, tokens: seq<string>, found0: Found,
                               found: Found) {
    forall ref :: ref in found.matching <==>
      ref in found0.matching
      || (c.presence != Prohibited
          && exists f, d :: Contributes(offered, ix, c, tokens, f, d) && ref == RefString(FieldRef(d, f)))
  }

  ghost predicate ProhibitedDone(offered: iset<string>, ix: SearchIndex, c: Clause, tokens: seq<string>, found0: Found,
                                 found: Found) {
    forall f, d :: InSet(found.prohibited, f, d) <==>
      InSet(found0.prohibited, f, d) || (c.presence == Prohibited && Contributes(offered, ix, c, tokens, f, d))
  }

  ghost predicate RequiredKeysDone(c: Clause, tokens: seq<string>, found0: Found, found: Found) {
    forall f :: f in found.required <==>
      f in found0.required || (c.presence == Required && tokens != [] && f in c.fields)
  }

  ghost predicate RequiredSetsDone(offered: iset<string>, ix: SearchIndex, pipeline: Pipeline, c: Clause, found0: Found,
                                   found: Found) {
    forall f, d :: f in found.required ==> RequiredSetDone(offered, ix, pipeline, c, found0, found, f, d)
  }

  ghost predicate RequiredSetDone(offered: iset<string>, ix: SearchIndex, pipeline: Pipeline, c: Clause, found0: Found,
                                  found: Found, f: string, d: string) {
    InSet(found.required, f, d) <==>
    (f in found0.required ==> InSet(found0.required, f, d))
    && (c.presence == Required && f in c.fields ==> Fulfilled(offered, ix, pipeline, c, d))
  }

  /** What a whole clause has done. */
  ghost predicate ClauseDone(offered: iset<string>, ix: SearchIndex, pipeline: Pipeline, c: Clause, found0: Found,
                             found: Found) {
    && CacheOk(ix, found)
    && MatchingDone(offered, ix, c, TokensOf(pipeline, c), found0, found)
    && ProhibitedDone(offered, ix, c, TokensOf(pipeline, c), found0, found)
    && RequiredKeysDone(c, TokensOf(pipeline, c), found0, found)
    && RequiredSetsDone(offered, ix, pipeline, c, found0, found)
  }

  /** A required clause without tokens names a field that has no set so far. */
  ghost predicate Unset(pipeline: Pipeline, c: Clause, found: Found) {
    c.presence == Required && TokensOf(pipeline, c) == [] && exists f :: f in c.fields && f !in found.required
  }

  /** One turn of the loop over the clauses; `false` where the code fails. */
  method EvaluateClause(heap: Heap, ix: SearchIndex, pipeline: Pipeline, c: Clause, found0: Found,
                        ghost offered: iset<string>)
    returns (ok: bool, found: Found)
    requires Offers(heap.nodes, ix, offered) && ValidIndex(ix) && CacheOk(ix, found0)
    modifies heap
    ensures Grows(old(heap.nodes), heap.nodes) && Offers(heap.nodes, ix, offered)
    ensures !ok <==> Unlisted(offered, ix, c, TokensOf(pipeline, c)) || Unset(pipeline, c, found0)
    ensures ok ==> ClauseDone(offered, ix, pipeline, c, found0, found)
  {
    var tokens := TokensOf(pipeline, c);
    var m, n;
    ghost var visits;
    hide Unlisted;
    ok, m, found, n, visits := VisitTokens(heap, ix, c, tokens, found0, offered);
    if !ok {
      return;
    }
    ghost var found1 := found;
    var required := found.required;
    assert n < |tokens| ==> !HasTerm(offered, c, tokens[n]);
    if n < |tokens| {
      required := SetEmpty(c.fields, required);
    }
    if c.presence == Required {
      FieldsDefined(offered, ix, c, tokens, n, found0, found1, m, visits);
      ghost var mid := required;
      ok, required := Narrow(c.fields, required, m);
      if ok {
        NarrowedIsDone(c, n < |tokens|, found1.required, mid, required, m);
      }
    }
    found := found.(required := required);
    hide Done;
    hide VisitsOfTokens;
    hide HasTerm;
    if ok {
      ClauseIsDone(offered, ix, pipeline, c, found0, found1, found, m, n, visits);
    }
  }

  lemma FieldsDefined(offered: iset<string>, ix: SearchIndex, c: Clause, tokens: seq<string>, n: nat, found0: Found,
                      found: Found, m: LunrSet, visits: Visits)
    requires n <= |tokens| && VisitsOfTokens(offered, c, tokens, n, visits) && c.presence == Required
    requires forall i :: 0 <= i < n ==> HasTerm(offered, c, tokens[i])
    requires Done(ix, c, found0, found, m, visits)
    ensures n > 0 ==> forall f :: f in c.fields ==> f in found.required
    ensures n == 0 ==> found.required.Keys == found0.required.Keys
  {
    FieldsVisited(offered, c, tokens, n, visits);
  }

  /** The required sets after the loops of a clause. */
  ghost predicate RequiredDone(c: Clause, dead: bool, before: map<string, LunrSet>, after: map<string, LunrSet>,
                               m: LunrSet) {
    if c.presence == Required then
      && (forall f :: f in after <==> f in before || (dead && f in c.fields))
      && (forall f, d :: f in after ==> RequiredAt(c, dead, before, after, m, f, d))
    else after == before
  }

  ghost predicate RequiredAt(c: Clause, dead: bool, before: map<string, LunrSet>, after: map<string, LunrSet>,
                             m: LunrSet, f: string, d: string) {
    InSet(after, f, d) <==>
    !(dead && f in c.fields) && (f in before ==> InSet(before, f, d)) && (f in c.fields ==> m.Contains(d))
  }

  lemma VisitsAreVisited(offered: iset<string>, c: Clause, tokens: seq<string>, n: nat, visits: Visits)
    requires n <= |tokens| && VisitsOfTokens(offered, c, tokens, n, visits)
    requires c.presence == Required ==> forall i :: 0 <= i < n ==> HasTerm(offered, c, tokens[i])
    requires n < |tokens| ==> c.presence == Required && !HasTerm(offered, c, tokens[n])
    ensures forall w, f :: (w, f) in visits <==> Visited(offered, c, tokens, w, f)
  {
    forall i: nat
      ensures Reached(offered, c, tokens, i) <==> i < n
    {
    }
    hide Reached;
    forall w, f
      ensures (w, f) in visits <==> Visited(offered, c, tokens, w, f)
    {
      assert (w, f) in visits <==>
             w in offered && f in c.fields && exists i :: 0 <= i < n && TermMatches(c, tokens[i], w);
    }
  }

  lemma ClauseIsDone(offered: iset<string>, ix: SearchIndex, pipeline: Pipeline, c: Clause, found0: Found,
                     found1: Found, found: Found, m: LunrSet, n: nat, visits: Visits)
    requires n <= |TokensOf(pipeline, c)|
    requires Done(ix, c, found0, found1, m, visits) && VisitsOfTokens(offered, c, TokensOf(pipeline, c), n, visits)
    requires c.presence == Required ==> forall i :: 0 <= i < n ==> HasTerm(offered, c, TokensOf(pipeline, c)[i])
    requires n < |TokensOf(pipeline, c)| ==> c.presence == Required && !HasTerm(offered, c, TokensOf(pipeline, c)[n])
    requires found == found1.(required := found.required)
    requires RequiredDone(c, n < |TokensOf(pipeline, c)|, found1.required, found.required, m)
    requires c.presence == Required && TokensOf(pipeline, c) == [] ==>
             forall f :: f in c.fields ==> f in found0.required
    ensures ClauseDone(offered, ix, pipeline, c, found0, found)
  {
    var tokens := TokensOf(pipeline, c);
    VisitsAreVisited(offered, c, tokens, n, visits);
    VisitsContribute(offered, ix, c, tokens, visits);
    assert MatchingDone(offered, ix, c, tokens, found0, found)
           && ProhibitedDone(offered, ix, c, tokens, found0, found) by {
      hide Contributes;
      hide VisitedRef;
      hide VisitedIn;
    }
    if c.presence == Required {
      FieldsVisited(offered, c, tokens, n, visits);
      forall d
        ensures Fulfilled(offered, ix, pipeline, c, d) <==> n == |tokens| && VisitedDoc(ix, visits, d)
      {
        FulfilledIsVisited(offered, ix, pipeline, c, n, visits, d);
      }
    }
    hide Fulfilled;
    hide VisitedDoc;
    RequiredAreDone(offered, ix, pipeline, c, found0, found1, found, m, n, visits);
  }

  lemma RequiredAreDone(offered: iset<string>, ix: SearchIndex, pipeline: Pipeline, c: Clause, found0: Found,
                        found1: Found, found: Found, m: LunrSet, n: nat, visits: Visits)
    requires n <= |TokensOf(pipeline, c)|
    requires Done(ix, c, found0, found1, m, visits)
    requires RequiredDone(c, n < |TokensOf(pipeline, c)|, found1.required, found.required, m)
    requires n < |TokensOf(pipeline, c)| ==> c.presence == Required
    requires c.presence == Required && TokensOf(pipeline, c) == [] ==>
             forall f :: f in c.fields ==> f in found0.required
    requires c.presence == Required ==> forall f :: VisitedField(visits, f) <==> n > 0 && f in c.fields
    requires c.presence == Required ==>
               forall d :: Fulfilled(offered, ix, pipeline, c, d) <==>
                 n == |TokensOf(pipeline, c)| && VisitedDoc(ix, visits, d)
    ensures RequiredKeysDone(c, TokensOf(pipeline, c), found0, found)
    ensures RequiredSetsDone(offered, ix, pipeline, c, found0, found)
  {
    hide Fulfilled;
    hide VisitedDoc;
    hide VisitedField;
    hide VisitedIn;
    hide VisitedRef;
    hide CacheOk;
    forall f, d | f in found.required
      ensures RequiredSetDone(offered, ix, pipeline, c, found0, found, f, d)
    {
      if c.presence == Required {
        assert RequiredAt(c, n < |TokensOf(pipeline, c)|, found1.required, found.required, m, f, d);
        assert m.Contains(d) <==> VisitedDoc(ix, visits, d);
      }
      if f in found1.required {
        assert found1.required[f] == if f in found0.required then found0.required[f] else Complete;
      }
    }
  }

  lemma NarrowedIsDone(c: Clause, dead: bool, before: map<string, LunrSet>, mid: map<string, LunrSet>,
                       after: map<string, LunrSet>, m: LunrSet)
    requires c.presence == Required && Narrowed(c.fields, mid, m, after)
    requires forall f :: f in mid <==> f in before || (dead && f in c.fields)
    requires forall f :: f in mid ==> mid[f] == if dead && f in c.fields then Empty else before[f]
    ensures RequiredDone(c, dead, before, after, m)
  {
    assert forall f :: f in after <==> f in mid.Keys;
    forall f, d | f in after
      ensures RequiredAt(c, dead, before, after, m, f, d)
    {
      assert NarrowedAt(c.fields, mid, m, after, f, d);
    }
  }

  lemma VisitsContribute(offered: iset<string>, ix: SearchIndex, c: Clause, tokens: seq<string>, visits: Visits)
    requires forall w, f :: (w, f) in visits <==> Visited(offered, c, tokens, w, f)
    ensures forall f, d :: VisitedIn(ix, visits, f, d) <==> Contributes(offered, ix, c, tokens, f, d)
    ensures forall ref :: VisitedRef(ix, visits, ref) <==>
              exists f, d :: Contributes(offered, ix, c, tokens, f, d) && ref == RefString(FieldRef(d, f))
  {
    hide Visited;
    forall f, d
      ensures VisitedIn(ix, visits, f, d) <==> Contributes(offered, ix, c, tokens, f, d)
    {
      if v :| v in visits && v.1 == f && d in DocsOf(ix, v.0, v.1) {
        assert (v.0, v.1) in visits;
      }
      if w :| Visited(offered, c, tokens, w, f) && d in DocsOf(ix, w, f) {
        assert (w, f) in visits;
      }
    }
    hide Contributes;
    forall ref
      ensures VisitedRef(ix, visits, ref) <==>
              exists f, d :: Contributes(offered, ix, c, tokens, f, d) && ref == RefString(FieldRef(d, f))
    {
      if v, d :| v in visits && d in DocsOf(ix, v.0, v.1) && ref == RefString(FieldRef(d, v.1)) {
        assert VisitedIn(ix, visits, v.1, d);
      }
      if f, d :| Contributes(offered, ix, c, tokens, f, d) && ref == RefString(FieldRef(d, f)) {
        assert VisitedIn(ix, visits, f, d);
      }
    }
  }

  lemma FieldsVisited(offered: iset<string>, c: Clause, tokens: seq<string>, n: nat, visits: Visits)
    requires n <= |tokens| && VisitsOfTokens(offered, c, tokens, n, visits)
    requires forall i :: 0 <= i < n ==> HasTerm(offered, c, tokens[i])
    ensures forall f :: VisitedField(visits, f) <==> n > 0 && f in c.fields
  {
    forall f
      ensures VisitedField(visits, f) <==> n > 0 && f in c.fields
    {
      if n > 0 && f in c.fields {
        assert HasTerm(offered, c, tokens[0]);
        var w :| w in offered && TermMatches(c, tokens[0], w);
        assert (w, f).0 == w && (w, f).1 == f;
        assert (w, f) in visits;
      }
    }
  }

  lemma FulfilledIsVisited(offered: iset<string>, ix: SearchIndex, pipeline: Pipeline, c: Clause, n: nat,
                           visits: Visits, d: string)
    requires n <= |TokensOf(pipeline, c)| && VisitsOfTokens(offered, c, TokensOf(pipeline, c), n, visits)
    requires forall i :: 0 <= i < n ==> HasTerm(offered, c, TokensOf(pipeline, c)[i])
    requires n < |TokensOf(pipeline, c)| ==> !HasTerm(offered, c, TokensOf(pipeline, c)[n])
    ensures Fulfilled(offered, ix, pipeline, c, d) <==> n == |TokensOf(pipeline, c)| && VisitedDoc(ix, visits, d)
  {
    var tokens := TokensOf(pipeline, c);
    hide HasTerm;
    hide TermMatches;
    if n < |tokens| {
      assert tokens[n] in tokens;
    } else {
      forall t | t in tokens
        ensures HasTerm(offered, c, t)
      {
        var i :| 0 <= i < |tokens| && tokens[i] == t;
      }
      if t, w, f :| t in tokens && w in offered && f in c.fields && TermMatches(c, t, w) && d in DocsOf(ix, w, f) {
        var i :| 0 <= i < |tokens| && tokens[i] == t;
        assert (w, f).0 == w && (w, f).1 == f;
        assert (w, f) in visits;
      }
      if v :| v in visits && d in DocsOf(ix, v.0, v.1) {
        var i :| 0 <= i < n && TermMatches(c, tokens[i], v.0);
        assert tokens[i] in tokens;
        assert Matched(offered, ix, pipeline, c, d);
      }
    }
  }

  // ----- All clauses

  ghost predicate MatchedRef(offered: iset<string>, ix: SearchIndex, pipeline: Pipeline, clauses: seq<Clause>, n: nat,
                             ref: string)
    requires n <= |clauses|
  {
    exists i, f, d :: 0 <= i < n && clauses[i].presence != Prohibited
      && Contributes(offered, ix, clauses[i], TokensOf(pipeline, clauses[i]), f, d) && ref == RefString(FieldRef(d, f))
  }

  ghost predicate ProhibitedIn(offered: iset<string>, ix: SearchIndex, pipeline: Pipeline, clauses: seq<Clause>, n: nat,
                               f: string, d: string)
    requires n <= |clauses|
  {
    exists i :: 0 <= i < n && clauses[i].presence == Prohibited
      && Contributes(offered, ix, clauses[i], TokensOf(pipeline, clauses[i]), f, d)
  }

  ghost predicate RequiredIn(offered: iset<string>, ix: SearchIndex, pipeline: Pipeline, clauses: seq<Clause>, n: nat,
                             f: string, d: string)
    requires n <= |clauses|
  {
    forall i :: 0 <= i < n && clauses[i].presence == Required && f in clauses[i].fields ==>
      Fulfilled(offered, ix, pipeline, clauses[i], d)
  }

  ghost predicate AllDone(offered: iset<string>, ix: SearchIndex, pipeline: Pipeline, clauses: seq<Clause>, n: nat,
                          found: Found)
    requires n <= |clauses|
  {
    && CacheOk(ix, found)
    && (forall ref :: ref in found.matching <==> MatchedRef(offered, ix, pipeline, clauses, n, ref))
    && (forall f, d :: InSet(found.prohibited, f, d) <==> ProhibitedIn(offered, ix, pipeline, clauses, n, f, d))
    && (forall f :: f in found.required <==> DefinedBefore(pipeline, clauses, n, f))
    && (forall f, d :: f in found.required ==>
          (InSet(found.required, f, d) <==> RequiredIn(offered, ix, pipeline, clauses, n, f, d)))
  }

  ghost predicate NoneUndefined(pipeline: Pipeline, clauses: seq<Clause>, n: nat)
    requires n <= |clauses|
  {
    forall i :: 0 <= i < n ==> !Undefined(pipeline, clauses, i)
  }

  lemma NextClause(offered: iset<string>, ix: SearchIndex, pipeline: Pipeline, clauses: seq<Clause>, n: nat,
                   found0: Found, found: Found)
    requires n < |clauses| && AllDone(offered, ix, pipeline, clauses, n, found0)
             && NoneUndefined(pipeline, clauses, n + 1)
    requires ClauseDone(offered, ix, pipeline, clauses[n], found0, found)
    ensures AllDone(offered, ix, pipeline, clauses, n + 1, found)
  {
    var c, tokens := clauses[n], TokensOf(pipeline, clauses[n]);
    hide Contributes;
    forall ref
      ensures MatchedRef(offered, ix, pipeline, clauses, n + 1, ref) <==>
              MatchedRef(offered, ix, pipeline, clauses, n, ref)
              || (c.presence != Prohibited
                  && exists f, d :: Contributes(offered, ix, c, tokens, f, d) && ref == RefString(FieldRef(d, f)))
    {
    }
    forall f, d
      ensures ProhibitedIn(offered, ix, pipeline, clauses, n + 1, f, d) <==>
              ProhibitedIn(offered, ix, pipeline, clauses, n, f, d)
                || (c.presence == Prohibited && Contributes(offered, ix, c, tokens, f, d))
    {
    }
    forall f
      ensures DefinedBefore(pipeline, clauses, n + 1, f) <==>
              DefinedBefore(pipeline, clauses, n, f) || (c.presence == Required && tokens != [] && f in c.fields)
    {
    }
    RequiredNext(offered, ix, pipeline, clauses, n, found0, found);
  }

  lemma RequiredNext(offered: iset<string>, ix: SearchIndex, pipeline: Pipeline, clauses: seq<Clause>, n: nat,
                     found0: Found, found: Found)
    requires n < |clauses| && AllDone(offered, ix, pipeline, clauses, n, found0)
             && NoneUndefined(pipeline, clauses, n + 1)
    requires ClauseDone(offered, ix, pipeline, clauses[n], found0, found)
    ensures forall f, d :: f in found.required ==>
              (InSet(found.required, f, d) <==> RequiredIn(offered, ix, pipeline, clauses, n + 1, f, d))
  {
    var c := clauses[n];
    forall f, d | f in found.required
      ensures InSet(found.required, f, d) <==> RequiredIn(offered, ix, pipeline, clauses, n + 1, f, d)
    {
      assert RequiredSetDone(offered, ix, pipeline, c, found0, found, f, d);
      assert RequiredIn(offered, ix, pipeline, clauses, n + 1, f, d) <==>
             RequiredIn(offered, ix, pipeline, clauses, n, f, d)
               && (c.presence == Required && f in c.fields ==> Fulfilled(offered, ix, pipeline, c, d));
      if f !in found0.required {
        NeverRequired(offered, ix, pipeline, clauses, n, f, d);
      }
    }
  }

  /** A field without a set so far has had no required clause, except ones that failed. */
  lemma NeverRequired(offered: iset<string>, ix: SearchIndex, pipeline: Pipeline, clauses: seq<Clause>, n: nat,
                      f: string, d: string)
    requires n <= |clauses| && NoneUndefined(pipeline, clauses, n)
    ensures !DefinedBefore(pipeline, clauses, n, f) ==> RequiredIn(offered, ix, pipeline, clauses, n, f, d)
  {
    forall i | 0 <= i < n && clauses[i].presence == Required && f in clauses[i].fields
      ensures DefinedBefore(pipeline, clauses, n, f)
    {
      assert !Undefined(pipeline, clauses, i);
      assert DefinedBefore(pipeline, clauses, i, f) ==> DefinedBefore(pipeline, clauses, n, f);
    }
  }

  lemma AllDoneAtFirst(offered: iset<string>, ix: SearchIndex, pipeline: Pipeline, clauses: seq<Clause>)
    ensures AllDone(offered, ix, pipeline, clauses, 0, Found(map[], map[], {}, {}))
  {
  }

  lemma FailsIffUnset(offered: iset<string>, ix: SearchIndex, pipeline: Pipeline, clauses: seq<Clause>, n: nat,
                      found: Found)
    requires n < |clauses| && AllDone(offered, ix, pipeline, clauses, n, found)
    ensures CacheOk(ix, found)
    ensures Fails(offered, ix, pipeline, clauses, n) <==>
            Unlisted(offered, ix, clauses[n], TokensOf(pipeline, clauses[n])) || Unset(pipeline, clauses[n], found)
  {
    hide Unlisted;
  }

  /** The loop over the clauses; `false` where the code fails. */
  method EvaluateClauses(heap: Heap, ix: SearchIndex, pipeline: Pipeline, clauses: seq<Clause>,
                         ghost offered: iset<string>)
    returns (ok: bool, found: Found)
    requires Offers(heap.nodes, ix, offered) && ValidIndex(ix)
    modifies heap
    ensures Grows(old(heap.nodes), heap.nodes) && Offers(heap.nodes, ix, offered)
    ensures !ok <==> exists i :: 0 <= i < |clauses| && Fails(offered, ix, pipeline, clauses, i)
    ensures ok ==>
            AllDone(offered, ix, pipeline, clauses, |clauses|, found) && NoneUndefined(pipeline, clauses, |clauses|)
  {
    ok, found := true, Found(map[], map[], {}, {});
    hide AllDone;
    hide ClauseDone;
    hide Offers;
    hide Fails;
    hide Undefined;
    hide ValidIndex;
    AllDoneAtFirst(offered, ix, pipeline, clauses);
    for l := 0 to |clauses|
      invariant ok && Grows(old(heap.nodes), heap.nodes) && Offers(heap.nodes, ix, offered)
      invariant AllDone(offered, ix, pipeline, clauses, l, found)
      invariant NoneUndefined(pipeline, clauses, l)
                && forall i :: 0 <= i < l ==> !Fails(offered, ix, pipeline, clauses, i)
    {
      ghost var found0 := found;
      FailsIffUnset(offered, ix, pipeline, clauses, l, found);
      ok, found := EvaluateClause(heap, ix, pipeline, clauses[l], found, offered);
      if !ok {
        return;
      }
      NotUndefined(offered, ix, pipeline, clauses, l);
      NextClause(offered, ix, pipeline, clauses, l, found0, found);
    }
  }

  lemma NotUndefined(offered: iset<string>, ix: SearchIndex, pipeline: Pipeline, clauses: seq<Clause>, n: nat)
    requires n < |clauses| && NoneUndefined(pipeline, clauses, n) && !Fails(offered, ix, pipeline, clauses, n)
    ensures NoneUndefined(pipeline, clauses, n + 1)
  {
  }

  // ----- The documents found

  /** Documents are posted in fields of the index only. */
  lemma PostedInFields(ix: SearchIndex, w: string, f: string, d: string)
    requires ValidIndex(ix) && d in DocsOf(ix, w, f)
    ensures w in ix.inverted && f in ix.fields && JOINER !in f && RefString(FieldRef(d, f)) in ix.fieldVectors
  {
  }

  /** Without required clauses, or with all of them met, every token is reached. */
  lemma ContributesIffMatched(offered: iset<string>, ix: SearchIndex, pipeline: Pipeline, c: Clause, d: string)
    requires ValidIndex(ix)
    requires c.presence == Required && HasField(ix, c) ==> Fulfilled(offered, ix, pipeline, c, d)
    ensures (exists f :: Contributes(offered, ix, c, TokensOf(pipeline, c), f, d)) <==>
            Matched(offered, ix, pipeline, c, d)
  {
    var tokens := TokensOf(pipeline, c);
    hide HasTerm;
    hide TermMatches;
    hide DocsOf;
    hide ValidIndex;
    if t, w, f :| t in tokens && w in offered && f in c.fields && TermMatches(c, t, w) && d in DocsOf(ix, w, f) {
      PostedInFields(ix, w, f, d);
      var i :| 0 <= i < |tokens| && tokens[i] == t;
      assert Reached(offered, c, tokens, i);
      assert Visited(offered, c, tokens, w, f);
      assert Contributes(offered, ix, c, tokens, f, d);
    }
    if f :| Contributes(offered, ix, c, tokens, f, d) {
      var w :| Visited(offered, c, tokens, w, f) && d in DocsOf(ix, w, f);
      var i: nat :| Reached(offered, c, tokens, i) && TermMatches(c, tokens[i], w);
      assert tokens[i] in tokens;
    }
  }

  lemma ContributesInFields(offered: iset<string>, ix: SearchIndex, c: Clause, tokens: seq<string>)
    requires ValidIndex(ix)
    ensures forall f, d :: Contributes(offered, ix, c, tokens, f, d) ==>
              f in ix.fields && JOINER !in f && RefString(FieldRef(d, f)) in ix.fieldVectors
  {
    forall f, d | Contributes(offered, ix, c, tokens, f, d)
      ensures f in ix.fields && JOINER !in f && RefString(FieldRef(d, f)) in ix.fieldVectors
    {
      var w :| Visited(offered, c, tokens, w, f) && d in DocsOf(ix, w, f);
      PostedInFields(ix, w, f, d);
    }
  }

  ghost predicate AllowedIn(fields: seq<string>, found: Found, d: string) {
    forall f :: f in fields && f in found.required ==> InSet(found.required, f, d)
  }

  ghost predicate ExcludedIn(fields: seq<string>, found: Found, d: string) {
    exists f :: f in fields && InSet(found.prohibited, f, d)
  }

  ghost predicate AllowedBy(ix: SearchIndex, found: Found, d: string) {
    AllowedIn(ix.fields, found, d)
  }

  ghost predicate ExcludedBy(ix: SearchIndex, found: Found, d: string) {
    ExcludedIn(ix.fields, found, d)
  }

  lemma AllowedIffFulfilled(offered: iset<string>, ix: SearchIndex, pipeline: Pipeline, clauses: seq<Clause>,
                            found: Found, d: string)
    requires AllDone(offered, ix, pipeline, clauses, |clauses|, found) && NoneUndefined(pipeline, clauses, |clauses|)
    ensures AllowedBy(ix, found, d) <==>
            forall i :: 0 <= i < |clauses| && clauses[i].presence == Required && HasField(ix, clauses[i]) ==>
              Fulfilled(offered, ix, pipeline, clauses[i], d)
  {
    hide Fulfilled;
    if AllowedBy(ix, found, d) {
      forall i | 0 <= i < |clauses| && clauses[i].presence == Required && HasField(ix, clauses[i])
        ensures Fulfilled(offered, ix, pipeline, clauses[i], d)
      {
        var f :| f in clauses[i].fields && f in ix.fields;
        assert !Undefined(pipeline, clauses, i);
        assert DefinedBefore(pipeline, clauses, i, f) ==> DefinedBefore(pipeline, clauses, |clauses|, f);
        assert f in found.required && InSet(found.required, f, d);
        assert RequiredIn(offered, ix, pipeline, clauses, |clauses|, f, d);
      }
    }
  }

  lemma ExcludedIffMatched(offered: iset<string>, ix: SearchIndex, pipeline: Pipeline, clauses: seq<Clause>,
                           found: Found, d: string)
    requires AllDone(offered, ix, pipeline, clauses, |clauses|, found) && ValidIndex(ix)
    ensures ExcludedBy(ix, found, d) <==>
            exists i :: 0 <= i < |clauses| && clauses[i].presence == Prohibited
              && Matched(offered, ix, pipeline, clauses[i], d)
  {
    hide Matched;
    forall i | 0 <= i < |clauses| && clauses[i].presence == Prohibited
      ensures Matched(offered, ix, pipeline, clauses[i], d) <==>
              exists f :: f in ix.fields && Contributes(offered, ix, clauses[i], TokensOf(pipeline, clauses[i]), f, d)
    {
      ContributesIffMatched(offered, ix, pipeline, clauses[i], d);
      ContributesInFields(offered, ix, clauses[i], TokensOf(pipeline, clauses[i]));
    }
    hide Contributes;
    if f :| f in ix.fields && InSet(found.prohibited, f, d) {
      assert ProhibitedIn(offered, ix, pipeline, clauses, |clauses|, f, d);
    }
    if i :| 0 <= i < |clauses| && clauses[i].presence == Prohibited && Matched(offered, ix, pipeline, clauses[i], d) {
      var f :| f in ix.fields && Contributes(offered, ix, clauses[i], TokensOf(pipeline, clauses[i]), f, d);
      assert ProhibitedIn(offered, ix, pipeline, clauses, |clauses|, f, d);
    }
  }

  /** The document has a field among these references. */
  ghost predicate Among(refs: set<string>, d: string) {
    exists ref :: ref in refs && JOINER in ref && RefFromString(ref).docRef == d
  }

  lemma AmongIffMatched(offered: iset<string>, ix: SearchIndex, pipeline: Pipeline, clauses: seq<Clause>, found: Found,
                        d: string)
    requires AllDone(offered, ix, pipeline, clauses, |clauses|, found) && ValidIndex(ix)
    requires forall i :: 0 <= i < |clauses| && clauses[i].presence == Required && HasField(ix, clauses[i]) ==>
               Fulfilled(offered, ix, pipeline, clauses[i], d)
    ensures Among(found.matching, d) <==>
            exists i :: 0 <= i < |clauses| && clauses[i].presence != Prohibited
              && Matched(offered, ix, pipeline, clauses[i], d)
  {
    forall i | 0 <= i < |clauses|
      ensures Matched(offered, ix, pipeline, clauses[i], d) <==>
              exists f :: Contributes(offered, ix, clauses[i], TokensOf(pipeline, clauses[i]), f, d)
      ensures forall f, x :: Contributes(offered, ix, clauses[i], TokensOf(pipeline, clauses[i]), f, x) ==> JOINER !in f
    {
      ContributesIffMatched(offered, ix, pipeline, clauses[i], d);
      ContributesInFields(offered, ix, clauses[i], TokensOf(pipeline, clauses[i]));
    }
    hide Contributes;
    hide Matched;
    hide Fulfilled;
    if ref :| ref in found.matching && JOINER in ref && RefFromString(ref).docRef == d {
      var i, f, x :| 0 <= i < |clauses| && clauses[i].presence != Prohibited
        && Contributes(offered, ix, clauses[i], TokensOf(pipeline, clauses[i]), f, x)
        && ref == RefString(FieldRef(x, f));
      RefRoundTrip(FieldRef(x, f));
    }
    if i :| 0 <= i < |clauses| && clauses[i].presence != Prohibited && Matched(offered, ix, pipeline, clauses[i], d) {
      var f :| Contributes(offered, ix, clauses[i], TokensOf(pipeline, clauses[i]), f, d);
      var ref := RefString(FieldRef(d, f));
      RefRoundTrip(FieldRef(d, f));
      assert MatchedRef(offered, ix, pipeline, clauses, |clauses|, ref);
    }
  }

  /** Matched references are those of field vectors, so every one of them can be scored. */
  lemma MatchingHaveVectors(offered: iset<string>, ix: SearchIndex, pipeline: Pipeline, clauses: seq<Clause>,
                            found: Found)
    requires AllDone(offered, ix, pipeline, clauses, |clauses|, found) && ValidIndex(ix)
    ensures forall ref :: ref in found.matching ==> ref in ix.fieldVectors
  {
    forall ref | ref in found.matching
      ensures ref in ix.fieldVectors
    {
      var i, f, d :| 0 <= i < |clauses| && clauses[i].presence != Prohibited
        && Contributes(offered, ix, clauses[i], TokensOf(pipeline, clauses[i]), f, d)
        && ref == RefString(FieldRef(d, f));
      ContributesInFields(offered, ix, clauses[i], TokensOf(pipeline, clauses[i]));
      var w :| Visited(offered, clauses[i], TokensOf(pipeline, clauses[i]), w, f) && d in DocsOf(ix, w, f);
    }
  }

  /** The documents of the references that are allowed and not excluded, each once. */
  method Collect(ix: SearchIndex, refs: set<string>, found: Found) returns (docs: seq<string>)
    requires forall ref :: ref in refs ==> ref in ix.fieldVectors && JOINER in ref
    ensures Distinct(docs)
    ensures forall d :: d in docs <==> Among(refs, d) && AllowedBy(ix, found, d) && !ExcludedBy(ix, found, d)
  {
    var allowed, excluded := Combine(ix, found);
    docs := [];
    var rest := refs;
    while rest != {}
      invariant rest <= refs && Distinct(docs)
      invariant forall d :: d in docs <==> Among(refs - rest, d) && AllowedBy(ix, found, d) && !ExcludedBy(ix, found, d)
      decreases |rest|
    {
      var ref :| ref in rest;
      var d := RefFromString(ref).docRef;
      ghost var before := refs - rest;
      rest := rest - {ref};
      AmongMore(before, ref);
      assert refs - rest == before + {ref};
      assert Combined(ix.fields, found, allowed, excluded, d);
      if allowed.Contains(d) && !excluded.Contains(d) && d !in docs {
        docs := docs + [d];
      }
    }
    assert refs - rest == refs;
  }

  lemma AmongMore(refs: set<string>, ref: string)
    requires JOINER in ref
    ensures forall d :: Among(refs + {ref}, d) <==> Among(refs, d) || d == RefFromString(ref).docRef
  {
  }

  /** The intersection of the required sets and the union of the prohibited ones, over all fields. */
  method Combine(ix: SearchIndex, found: Found) returns (allowed: LunrSet, excluded: LunrSet)
    ensures forall d :: Combined(ix.fields, found, allowed, excluded, d)
  {
    allowed, excluded := Complete, Empty;
    for l := 0 to |ix.fields|
      invariant forall d :: Combined(ix.fields[..l], found, allowed, excluded, d)
    {
      var f := ix.fields[l];
      ghost var before, after := ix.fields[..l], ix.fields[..l + 1];
      assert after == before + [f];
      ghost var allowed0, excluded0 := allowed, excluded;
      if f in found.required {
        allowed := allowed.Intersect(found.required[f]);
      }
      if f in found.prohibited {
        excluded := excluded.Union(found.prohibited[f]);
      }
      forall d
        ensures Combined(after, found, allowed, excluded, d)
      {
        assert Combined(before, found, allowed0, excluded0, d);
        CombineMore(before, found, allowed0, allowed, excluded0, excluded, f, d);
      }
    }
    assert ix.fields[..|ix.fields|] == ix.fields;
  }

  ghost predicate Combined(fields: seq<string>, found: Found, allowed: LunrSet, excluded: LunrSet, d: string) {
    (allowed.Contains(d) <==> AllowedIn(fields, found, d)) && (excluded.Contains(d) <==> ExcludedIn(fields, found, d))
  }

  lemma CombineMore(fields: seq<string>, found: Found, allowed: LunrSet, allowed': LunrSet, excluded: LunrSet,
                    excluded': LunrSet, f: string, d: string)
    requires Combined(fields, found, allowed, excluded, d)
    requires allowed' == if f in found.required then allowed.Intersect(found.required[f]) else allowed
    requires excluded' == if f in found.prohibited then excluded.Union(found.prohibited[f]) else excluded
    ensures Combined(fields + [f], found, allowed', excluded', d)
  {
    assert forall g :: g in fields + [f] <==> g in fields || g == f;
    assert ExcludedIn(fields + [f], found, d) <==> ExcludedIn(fields, found, d) || InSet(found.prohibited, f, d);
    assert AllowedIn(fields + [f], found, d) <==>
           AllowedIn(fields, found, d) && (f in found.required ==> InSet(found.required, f, d));
    if f in found.required {
      ContainsLaws(allowed, found.required[f], d);
    }
    if f in found.prohibited {
      ContainsLaws(excluded, found.prohibited[f], d);
    }
  }

  /** The result before it is sorted by score; `Failed` where the code raises a TypeError. */
  datatype QueryResult = Results(docs: seq<string>) | Failed

  /** `query`: each selected document once, and no other. */
  method Query(heap: Heap, ix: SearchIndex, pipeline: Pipeline, clauses: seq<Clause>, ghost offered: iset<string>)
    returns (r: QueryResult)
    requires Offers(heap.nodes, ix, offered) && ValidIndex(ix)
    modifies heap
    ensures Grows(old(heap.nodes), heap.nodes) && Offers(heap.nodes, ix, offered)
    ensures r.Failed? <==> exists i :: 0 <= i < |clauses| && Fails(offered, ix, pipeline, clauses, i)
    ensures r.Results? ==> Distinct(r.docs) && forall d :: d in r.docs <==> Selected(offered, ix, pipeline, clauses, d)
  {
    var ok, found := EvaluateClauses(heap, ix, pipeline, clauses, offered);
    if !ok {
      return Failed;
    }
    MatchingHaveVectors(offered, ix, pipeline, clauses, found);
    var refs := if IsNegated(clauses) then ix.fieldVectors.Keys else found.matching;
    var docs := Collect(ix, refs, found);
    forall d
      ensures d in docs <==> Selected(offered, ix, pipeline, clauses, d)
    {
      FoundIsSelected(offered, ix, pipeline, clauses, found, d);
    }
    r := Results(docs);
  }

  lemma FoundIsSelected(offered: iset<string>, ix: SearchIndex, pipeline: Pipeline, clauses: seq<Clause>, found: Found,
                        d: string)
    requires AllDone(offered, ix, pipeline, clauses, |clauses|, found) && NoneUndefined(pipeline, clauses, |clauses|)
    requires ValidIndex(ix)
    ensures Selected(offered, ix, pipeline, clauses, d) <==>
            && Among(if IsNegated(clauses) then ix.fieldVectors.Keys else found.matching, d)
            && AllowedBy(ix, found, d) && !ExcludedBy(ix, found, d)
  {
    AllowedIffFulfilled(offered, ix, pipeline, clauses, found, d);
    ExcludedIffMatched(offered, ix, pipeline, clauses, found, d);
    if AllowedBy(ix, found, d) && !IsNegated(clauses) {
      AmongIffMatched(offered, ix, pipeline, clauses, found, d);
    }
  }
}
