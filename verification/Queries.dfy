/** `lunr.Query`: clauses and their defaults. */
module Queries {
  import opened Globs
  import opened Options
  import opened TokenSets

  datatype Presence = Optional | Required | Prohibited

  /** A clause as it is given to `Query.prototype.clause`: any property but the term may be missing. */
  datatype Draft = Draft(term: string, fields: Option<seq<string>>, boost: Option<int>, usePipeline: Option<bool>,
                         wildcard: Option<nat>, presence: Option<Presence>, editDistance: Option<nat>)

  /** A clause of a query.  Only the edit distance may be missing. */
  datatype Clause = Clause(term: string, fields: seq<string>, boost: int, usePipeline: bool,
                           wildcard: nat, presence: Presence, editDistance: Option<nat>)

  const NO_WILDCARD := 0

  function Or<T>(o: Option<T>, default: T): T {
    if o.Some? then o.value else default
  }

  predicate Leading(wildcard: nat) {
    wildcard % 2 == 1
  }

  predicate Trailing(wildcard: nat) {
    wildcard / 2 % 2 == 1
  }

  function WithLeading(term: string): string {
    if term != [] && term[0] == WILDCARD then term else [WILDCARD] + term
  }

  function WithTrailing(term: string): string {
    if term != [] && term[|term| - 1] == WILDCARD then term else term + [WILDCARD]
  }

  /** `Query.prototype.clause`: fill in the defaults and add the wildcards asked for. */
  function Completed(d: Draft, allFields: seq<string>): Clause {
    var wildcard := Or(d.wildcard, NO_WILDCARD);
    var led := if Leading(wildcard) then WithLeading(d.term) else d.term;
    var term := if Trailing(wildcard) then WithTrailing(led) else led;
    Clause(term, Or(d.fields, allFields), Or(d.boost, 1), Or(d.usePipeline, true), wildcard, Or(d.presence, Optional),
           d.editDistance)
  }

  /** `Query.prototype.isNegated`. */
  predicate IsNegated(clauses: seq<Clause>) {
    forall i :: 0 <= i < |clauses| ==> clauses[i].presence == Prohibited
  }

  // ----- What the wildcards of a clause mean

  /** A part of the word, from `i` to `j`, is what the pattern matches. */
  predicate MatchesPart(pattern: string, w: string, i: nat, j: nat) {
    i <= j <= |w| && Glob(pattern, w[i..j])
  }

  lemma StarBefore(pattern: string, w: string)
    ensures Glob([WILDCARD] + pattern, w) <==> exists i: nat :: MatchesPart(pattern, w, i, |w|)
  {
    GlobConcat([WILDCARD], pattern, w);
    forall i: nat | i <= |w|
      ensures GlobsAt([WILDCARD], pattern, w, i) <==> MatchesPart(pattern, w, i, |w|)
    {
      StarMatchesAll(w[..i]);
      assert w[i..] == w[i..|w|];
    }
  }

  lemma StarAfter(pattern: string, w: string)
    ensures Glob(pattern + [WILDCARD], w) <==> exists j: nat :: MatchesPart(pattern, w, 0, j)
  {
    GlobConcat(pattern, [WILDCARD], w);
    forall j: nat | j <= |w|
      ensures GlobsAt(pattern, [WILDCARD], w, j) <==> MatchesPart(pattern, w, 0, j)
    {
      StarMatchesAll(w[j..]);
      assert w[..j] == w[0..j];
    }
  }

  /** A second star at an end changes nothing, so it does not matter that none is added where there is one. */
  lemma LeadingMatches(pattern: string, w: string)
    ensures Glob(WithLeading(pattern), w) <==> exists i: nat :: MatchesPart(pattern, w, i, |w|)
  {
    StarBefore(pattern, w);
    if pattern != [] && pattern[0] == WILDCARD {
      assert pattern == [WILDCARD] + pattern[1..];
      assert [WILDCARD] + pattern == [WILDCARD, WILDCARD] + pattern[1..];
      DoubleStar(pattern[1..], w);
    }
  }

  lemma TrailingMatches(pattern: string, w: string)
    ensures Glob(WithTrailing(pattern), w) <==> exists j: nat :: MatchesPart(pattern, w, 0, j)
  {
    StarAfter(pattern, w);
    if pattern != [] && pattern[|pattern| - 1] == WILDCARD {
      var init := pattern[..|pattern| - 1];
      assert pattern == init + [WILDCARD];
      assert w[0..|w|] == w;
      if j: nat :| MatchesPart(pattern, w, 0, j) {
        StarAfter(init, w[0..j]);
        var k: nat :| MatchesPart(init, w[0..j], 0, k);
        assert w[0..j][0..k] == w[0..k];
        assert MatchesPart(init, w, 0, k);
        StarAfter(init, w);
      }
      assert Glob(pattern, w) ==> MatchesPart(pattern, w, 0, |w|);
    }
  }

  /** The wildcards a clause asks for let its pattern match a part of the word only: what is
      before the part needs the leading one, what is after it the trailing one. */
  lemma WildcardsMatchParts(d: Draft, allFields: seq<string>, w: string)
    ensures Glob(Completed(d, allFields).term, w) <==> exists i: nat, j: nat :: PartAllowed(d, w, i, j)
  {
    WildcardFlags(d);
    hide Leading;
    hide Trailing;
    var wildcard := Or(d.wildcard, NO_WILDCARD);
    var led := if Leading(wildcard) then WithLeading(d.term) else d.term;
    assert w[0..|w|] == w;
    forall j: nat
      ensures MatchesPart(led, w, 0, j) <==>
              exists i: nat :: MatchesPart(d.term, w, i, j) && (i == 0 || Leading(wildcard))
    {
      LedMatches(d.term, Leading(wildcard), w, j);
    }
    if Trailing(wildcard) {
      TrailingMatches(led, w);
    }
    hide WithLeading;
    hide WithTrailing;
    assert Glob(led, w) <==> MatchesPart(led, w, 0, |w|);
    hide MatchesPart;
    if i: nat, j: nat :| PartAllowed(d, w, i, j) {
      assert MatchesPart(led, w, 0, j);
    }
    if j: nat :| MatchesPart(led, w, 0, j) && (j == |w| || Trailing(wildcard)) {
      var i: nat :| MatchesPart(d.term, w, i, j) && (i == 0 || Leading(wildcard));
      assert PartAllowed(d, w, i, j);
    }
  }

  lemma LedMatches(term: string, leading: bool, w: string, j: nat)
    ensures MatchesPart(if leading then WithLeading(term) else term, w, 0, j) <==>
            exists i: nat :: MatchesPart(term, w, i, j) && (i == 0 || leading)
  {
    if j <= |w| {
      var v := w[0..j];
      LeadingMatches(term, v);
      forall i: nat
        ensures MatchesPart(term, v, i, |v|) <==> MatchesPart(term, w, i, j)
      {
        assert i <= j ==> v[i..j] == w[i..j];
      }
    }
  }

  /** 1 asks for the leading wildcard, 2 for the trailing one, and 3 for both. */
  lemma WildcardFlags(d: Draft)
    ensures Leading(Or(d.wildcard, NO_WILDCARD)) <==> d.wildcard.Some? && d.wildcard.value % 2 == 1
    ensures Trailing(Or(d.wildcard, NO_WILDCARD)) <==> d.wildcard.Some? && d.wildcard.value % 4 >= 2
  {
  }

  predicate PartAllowed(d: Draft, w: string, i: nat, j: nat) {
    && MatchesPart(d.term, w, i, j)
    && (i == 0 || (d.wildcard.Some? && d.wildcard.value % 2 == 1))
    && (j == |w| || (d.wildcard.Some? && d.wildcard.value % 4 >= 2))
  }
}
