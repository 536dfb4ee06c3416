/** From the builder to the index, and from the index to its serialised form and back. */
module IndexAssembly {
  import opened Options
  import opened TokenSets
  import opened Words
  import opened LunrSets
  import opened QueryEvaluation
  import opened IndexBuilding
  import TokenSetBuilder
  import TokenSetRuns
  import MutableBuilder
  import V = Vectors

  /** The score of a term in a field of a document. */
  type Score = (string, string) -> real

  // ----- `createFieldVectors`

  /** The vector has the score of each counted term at the term's number, and nothing else. */
  ghost predicate VectorOf(st: State, ref: string, score: Score, terms: set<string>, es: V.Elements) {
    && V.Sorted(es)
    && (forall w :: w in terms && w in st.inverted ==> V.Entry(es, st.inverted[w].index as real) == Some(score(ref, w)))
    && (forall x :: V.Entry(es, x).Some? ==>
          exists w :: w in terms && w in st.inverted && st.inverted[w].index as real == x)
  }

  lemma CountedIsPosted(st: State, fields: seq<string>, ref: string, w: string)
    requires Indexable(st, fields) && ref in st.frequencies && w in st.frequencies[ref]
    ensures w in st.inverted
  {
    assert IndexableAt(st, fields, ref);
  }

  /** One term of a field reference. */
  method AddEntry(vector: V.Vector, st: State, ghost fields: seq<string>, ref: string, score: Score,
                  ghost terms: set<string>, w: string)
    returns (ok: bool)
    requires Indexable(st, fields) && ref in st.frequencies && w in st.frequencies[ref] && w !in terms
    requires V.Sorted(vector.elements) && VectorOf(st, ref, score, terms, vector.elements)
    modifies vector
    ensures ok && V.Sorted(vector.elements) && VectorOf(st, ref, score, terms + {w}, vector.elements)
  {
    assert Numbered(st.inverted, st.termIndex);
    hide *;
    CountedIsPosted(st, fields, ref, w);
    ghost var before := vector.elements;
    ok := vector.Insert(st.inverted[w].index as real, score(ref, w));
    NewEntry(st, ref, score, terms, before, vector.elements, w, ok);
  }

  method FieldVector(st: State, ghost fields: seq<string>, ref: string, score: Score) returns (ok: bool, es: V.Elements)
    requires Indexable(st, fields) && ref in st.frequencies
    ensures ok && VectorOf(st, ref, score, st.frequencies[ref].Keys, es)
  {
    hide *;
    var vector := new V.Vector([]);
    var counted := st.frequencies[ref].Keys;
    var rest := counted;
    ok := true;
    NoEntries(st, ref, score);
    ghost var done: set<string> := {};
    while rest != {}
      invariant ok && rest !! done && rest + done == counted
      invariant V.Sorted(vector.elements) && VectorOf(st, ref, score, done, vector.elements)
      decreases |rest|
    {
      var w :| w in rest;
      ok := AddEntry(vector, st, fields, ref, score, done, w);
      rest, done := rest - {w}, done + {w};
    }
    es := vector.elements;
    assert done == counted;
  }

  lemma NoEntries(st: State, ref: string, score: Score)
    ensures V.Sorted([]) && VectorOf(st, ref, score, {}, [])
  {
  }

  /** Terms have different numbers, so an entry is never there already. */
  lemma NewEntry(st: State, ref: string, score: Score, terms: set<string>, es: V.Elements, es': V.Elements, w: string,
                 ok: bool)
    requires Numbered(st.inverted, st.termIndex) && w in st.inverted && w !in terms
             && VectorOf(st, ref, score, terms, es)
    requires V.Sorted(es') && (ok <==> V.Entry(es, st.inverted[w].index as real) == None)
    requires ok ==> forall x :: V.Entry(es', x) ==
                      if x == st.inverted[w].index as real then Some(score(ref, w)) else V.Entry(es, x)
    ensures ok && VectorOf(st, ref, score, terms + {w}, es')
  {
    assert V.Entry(es, st.inverted[w].index as real) == None;
  }

  /** Every field reference with its vector.  The error "duplicate index" is not raised. */
  method CreateFieldVectors(st: State, ghost fields: seq<string>, score: Score)
    returns (ok: bool, vectors: map<string, V.Elements>)
    requires Indexable(st, fields)
    ensures ok && vectors.Keys == st.frequencies.Keys
    ensures forall ref :: ref in vectors ==> VectorOf(st, ref, score, st.frequencies[ref].Keys, vectors[ref])
  {
    hide Indexable;
    hide VectorOf;
    ok, vectors := true, map[];
    var rest := st.frequencies.Keys;
    while rest != {}
      invariant ok && rest <= st.frequencies.Keys && vectors.Keys == st.frequencies.Keys - rest
      invariant forall ref :: ref in vectors ==> VectorOf(st, ref, score, st.frequencies[ref].Keys, vectors[ref])
      decreases |rest|
    {
      var ref :| ref in rest;
      var es;
      ok, es := FieldVector(st, fields, ref, score);
      vectors := vectors[ref := es];
      rest := rest - {ref};
    }
  }

  // ----- `build`

  predicate DigitFreeTerms(inverted: Inverted) {
    forall w :: w in inverted ==> TokenSetRuns.DigitFreeWord(w)
  }

  /** The index's token set is usable, and it accepts exactly the terms if and only if the
      run that built it replaced nodes by interchangeable ones only. */
  ghost predicate TokenSetBuilt(nodes: Arena, nodes': Arena, ix: SearchIndex, words: seq<string>) {
    && InOrder(words) && Once(words) && (forall w :: w in words <==> w in ix.inverted)
    && Offers(nodes', ix, Accepted(nodes', ix))
    && (TermsAccepted(nodes', ix) <==> TokenSetRuns.GenuineRun(TokenSetBuilder.Start(nodes), words))
    && (DigitFreeTerms(ix.inverted) ==> TermsAccepted(nodes', ix))
  }

  /** `build`: the index of the documents added. */
  method BuildIndex(heap: Heap, st: State, fields: seq<string>, score: Score)
    returns (ok: bool, ix: SearchIndex, ghost words: seq<string>)
    requires Closed(heap.nodes) && Indexable(st, fields) && FieldNames(fields)
    modifies heap
    ensures ok && ValidIndex(ix) && ix.inverted == st.inverted && ix.fields == fields
    ensures forall ref :: ref in st.frequencies <==> ref in ix.fieldVectors
    ensures forall ref :: ref in st.frequencies ==>
              VectorOf(st, ref, score, st.frequencies[ref].Keys, ix.fieldVectors[ref])
    ensures TokenSetBuilt(old(heap.nodes), heap.nodes, ix, words)
  {
    var vectors;
    ok, vectors := CreateFieldVectors(st, fields, score);
    var sorted := SortedWords(st.inverted.Keys);
    words := sorted;
    MutableBuilder.NoErrorInOrder(heap.nodes, sorted);
    ghost var nodes := heap.nodes;
    var root := MutableBuilder.FromArray(heap, sorted);
    ix := SearchIndex(root.value, fields, st.inverted, vectors);
    TermsAreAccepted(nodes, heap.nodes, ix, sorted);
    BuiltIsValid(st, fields, ix);
  }

  lemma TermsAreAccepted(nodes: Arena, nodes': Arena, ix: SearchIndex, words: seq<string>)
    requires Closed(nodes) && InOrder(words) && Once(words) && forall w :: w in words <==> w in ix.inverted
    requires TokenSetRuns.Built(TokenSetBuilder.Start(nodes), words).Some?
    requires nodes' == TokenSetRuns.Built(TokenSetBuilder.Start(nodes), words).value.nodes
    requires ix.tokenSet == TokenSetRuns.Built(TokenSetBuilder.Start(nodes), words).value.root
    ensures TokenSetBuilt(nodes, nodes', ix, words)
  {
    MutableBuilder.TokenSetOfWords(nodes, words);
    if DigitFreeTerms(ix.inverted) {
      TokenSetRuns.DigitFreeIsGenuine(nodes, words);
    }
  }

  lemma BuiltIsValid(st: State, fields: seq<string>, ix: SearchIndex)
    requires Indexable(st, fields) && FieldNames(fields)
    requires ix.inverted == st.inverted && ix.fields == fields && ix.fieldVectors.Keys == st.frequencies.Keys
    ensures ValidIndex(ix)
  {
    forall ref | ref in ix.fieldVectors
      ensures JOINER in ref && RefFromString(ref).fieldName in ix.fields
    {
      assert IndexableAt(st, fields, ref);
    }
    forall w, f, d | w in ix.inverted && f in ix.fields && f in ix.inverted[w].docs && d in ix.inverted[w].docs[f]
      ensures RefString(FieldRef(d, f)) in ix.fieldVectors
    {
      assert d in Posted(st.inverted, w, f);
    }
  }

  /** From the documents to the index, for fields of these names.  A term leads, in a field,
      to exactly the documents that have it there, and each document has a vector for each field. */
  method IndexDocuments(heap: Heap, docs: seq<Document>, names: seq<string>, score: Score)
    returns (ok: bool, ix: SearchIndex, ghost words: seq<string>)
    requires Closed(heap.nodes) && FieldNames(names)
    modifies heap
    ensures ok && ValidIndex(ix) && ix.fields == Named(names)
    ensures forall w :: w in ix.inverted <==> IsTermOf(docs, ix.fields, w)
    ensures forall w, f, d :: f in ix.fields ==> (d in DocsOf(ix, w, f) <==> HasToken(docs, w, f, d))
    ensures forall d :: ix.fields != [] ==> (HasVector(ix, d) <==> HasRef(docs, d))
    ensures TokenSetBuilt(old(heap.nodes), heap.nodes, ix, words)
  {
    hide AllAdded;
    var builder := AddAll(docs, names);
    var st := State(builder.inverted, builder.frequencies, builder.lengths, builder.termIndex);
    var fields := builder.fields;
    assert st == builder.Snapshot() && FieldNames(fields);
    hide *;
    IsIndexable(st, docs, fields);
    ok, ix, words := BuildIndex(heap, st, fields, score);
    DocumentsFound(st, docs, fields, ix);
  }

  lemma IsIndexable(st: State, docs: seq<Document>, fields: seq<string>)
    requires AllAdded(st, docs, fields)
    ensures Indexable(st, fields)
  {
  }

  lemma DocumentsFound(st: State, docs: seq<Document>, fields: seq<string>, ix: SearchIndex)
    requires AllAdded(st, docs, fields) && FieldNames(fields) && ix.fields == fields && ix.inverted == st.inverted
    requires forall ref :: ref in st.frequencies <==> ref in ix.fieldVectors
    ensures forall w :: w in ix.inverted <==> IsTermOf(docs, fields, w)
    ensures forall w, f, d :: f in fields ==> (d in DocsOf(ix, w, f) <==> HasToken(docs, w, f, d))
    ensures forall d :: fields != [] ==> (HasVector(ix, d) <==> HasRef(docs, d))
  {
    assert forall w, f :: DocsOf(ix, w, f) == Posted(st.inverted, w, f);
    hide Indexable;
    hide Consistent;
    hide Posted;
    hide DocsOf;
    forall d | fields != []
      ensures HasVector(ix, d) <==> HasRef(docs, d)
    {
      VectorIffRef(st, docs, fields, ix, d);
    }
    hide HasVector;
    hide HasRef;
  }

  lemma VectorIffRef(st: State, docs: seq<Document>, fields: seq<string>, ix: SearchIndex, d: string)
    requires AllAdded(st, docs, fields) && FieldNames(fields) && fields != []
    requires forall ref :: ref in st.frequencies <==> ref in ix.fieldVectors
    ensures HasVector(ix, d) <==> HasRef(docs, d)
  {
    hide HasRef;
    hide Consistent;
    if ref :| ref in ix.fieldVectors && JOINER in ref && RefFromString(ref).docRef == d {
      assert IndexableAt(st, fields, ref);
      hide Indexable;
      RefOfParts(ref);
      assert RefString(FieldRef(d, RefFromString(ref).fieldName)) == ref;
    }
    if HasRef(docs, d) {
      assert fields[0] in fields;
      RefRoundTrip(FieldRef(d, fields[0]));
      assert RefString(FieldRef(d, fields[0])) in ix.fieldVectors;
    }
  }

  /** A string with a joiner is the string of the reference it is read as. */
  lemma RefOfParts(s: string)
    requires JOINER in s
    ensures RefString(RefFromString(s)) == s
  {
  }

  // ----- `toJSON` and `load`

  datatype Serialised = Serialised(fields: seq<string>, fieldVectors: seq<(string, V.Elements)>,
                                   inverted: seq<(string, Posting)>)

  function Keys<T>(pairs: seq<(string, T)>): (keys: seq<string>)
    ensures |keys| == |pairs| && forall i :: 0 <= i < |pairs| ==> keys[i] == pairs[i].0
  {
    seq(|pairs|, i requires 0 <= i < |pairs| => pairs[i].0)
  }

  /** The pairs as a map, a later one in place of an earlier one with its key. */
  function FromPairs<T>(pairs: seq<(string, T)>): map<string, T>
    decreases |pairs|
  {
    if pairs == [] then map[] else FromPairs(pairs[..|pairs| - 1])[pairs[|pairs| - 1].0 := pairs[|pairs| - 1].1]
  }

  /** These are the pairs of the map, each key once. */
  ghost predicate PairsOf<T>(pairs: seq<(string, T)>, m: map<string, T>) {
    && (forall i :: 0 <= i < |pairs| ==> pairs[i].0 in m && pairs[i].1 == m[pairs[i].0])
    && Once(Keys(pairs)) && (forall k :: k in m ==> k in Keys(pairs))
  }

  lemma {:induction false} FromPairsOf<T>(pairs: seq<(string, T)>, m: map<string, T>)
    requires PairsOf(pairs, m)
    ensures FromPairs(pairs) == m
  {
    FromPairsAgrees(pairs, m, |pairs|);
    assert pairs[..|pairs|] == pairs;
    forall k | k in m
      ensures k in FromPairs(pairs)
    {
      var i :| 0 <= i < |pairs| && Keys(pairs)[i] == k;
      assert pairs[i].0 == k;
    }
  }

  lemma {:induction false} FromPairsAgrees<T>(pairs: seq<(string, T)>, m: map<string, T>, n: nat)
    requires n <= |pairs| && forall i :: 0 <= i < |pairs| ==> pairs[i].0 in m && pairs[i].1 == m[pairs[i].0]
    ensures forall k :: k in FromPairs(pairs[..n]) ==> k in m && FromPairs(pairs[..n])[k] == m[k]
    ensures forall i :: 0 <= i < n ==> pairs[i].0 in FromPairs(pairs[..n])
    decreases n
  {
    if n > 0 {
      FromPairsAgrees(pairs, m, n - 1);
      assert pairs[..n][..n - 1] == pairs[..n - 1];
    }
  }

  method PairsInOrder<T>(m: map<string, T>) returns (pairs: seq<(string, T)>)
    ensures PairsOf(pairs, m) && InOrder(Keys(pairs))
  {
    var sorted := SortedWords(m.Keys);
    pairs := [];
    for i := 0 to |sorted|
      invariant Keys(pairs) == sorted[..i]
      invariant forall j :: 0 <= j < |pairs| ==> pairs[j].0 in m && pairs[j].1 == m[pairs[j].0]
    {
      assert sorted[i] in sorted;
      pairs := pairs + [(sorted[i], m[sorted[i]])];
    }
    assert Keys(pairs) == sorted;
  }

  /** `toJSON`. */
  method ToJSON(ix: SearchIndex) returns (s: Serialised)
    ensures s.fields == ix.fields && PairsOf(s.fieldVectors, ix.fieldVectors) && PairsOf(s.inverted, ix.inverted)
    ensures InOrder(Keys(s.inverted))
  {
    var inverted := PairsInOrder(ix.inverted);
    var vectors := PairsInOrder(ix.fieldVectors);
    s := Serialised(ix.fields, vectors, inverted);
  }

  /** `Index.load`; `None` is the error "Out of order word insertion". */
  method Load(heap: Heap, s: Serialised) returns (r: Option<SearchIndex>)
    requires Closed(heap.nodes)
    modifies heap
    ensures r.Some? <==> InOrder(Keys(s.inverted))
    ensures r.Some? ==> var run := TokenSetRuns.Built(TokenSetBuilder.Start(old(heap.nodes)), Keys(s.inverted));
                        && run.Some? && heap.nodes == run.value.nodes
                        && r.value ==
                           SearchIndex(run.value.root, s.fields, FromPairs(s.inverted), FromPairs(s.fieldVectors))
  {
    hide TokenSetBuilder.Insert;
    hide InOrder;
    ghost var words, nodes := Keys(s.inverted), heap.nodes;
    MutableBuilder.NoErrorInOrder(nodes, words);
    var fieldVectors: map<string, V.Elements> := map[];
    for i := 0 to |s.fieldVectors|
      invariant fieldVectors == FromPairs(s.fieldVectors[..i])
    {
      assert s.fieldVectors[..i + 1][..i] == s.fieldVectors[..i];
      fieldVectors := fieldVectors[s.fieldVectors[i].0 := s.fieldVectors[i].1];
    }
    var builder := new MutableBuilder.Builder(heap);
    var inverted: Inverted := map[];
    assert words[0..] == words;
    for i := 0 to |s.inverted|
      invariant builder.heap == heap && TokenSetBuilder.InBounds(builder.State())
      invariant TokenSetRuns.Built(builder.State(), words[i..]) ==
                TokenSetRuns.Built(TokenSetBuilder.Start(nodes), words)
      invariant inverted == FromPairs(s.inverted[..i])
    {
      assert words[i..][1..] == words[i + 1..] && words[i..][0] == s.inverted[i].0;
      assert s.inverted[..i + 1][..i] == s.inverted[..i];
      var inOrder := builder.InsertWord(s.inverted[i].0);
      if !inOrder {
        return None;
      }
      inverted := inverted[s.inverted[i].0 := s.inverted[i].1];
    }
    builder.FinishWords();
    assert s.inverted[..|s.inverted|] == s.inverted && s.fieldVectors[..|s.fieldVectors|] == s.fieldVectors;
    r := Some(SearchIndex(builder.root, s.fields, inverted, fieldVectors));
  }

  /** Saving an index and loading it raises no error and gives the same index, with a token
      set that accepts exactly its terms. */
  method SaveAndLoad(heap: Heap, ix: SearchIndex) returns (r: Option<SearchIndex>, ghost words: seq<string>)
    requires Closed(heap.nodes)
    modifies heap
    ensures r.Some? && r.value.fields == ix.fields && r.value.inverted == ix.inverted
            && r.value.fieldVectors == ix.fieldVectors
    ensures TokenSetBuilt(old(heap.nodes), heap.nodes, r.value, words)
  {
    var s := ToJSON(ix);
    words := Keys(s.inverted);
    ghost var nodes := heap.nodes;
    r := Load(heap, s);
    FromPairsOf(s.inverted, ix.inverted);
    FromPairsOf(s.fieldVectors, ix.fieldVectors);
    KeysAreTerms(s.inverted, ix.inverted);
    TermsAreAccepted(nodes, heap.nodes, r.value, words);
  }

  lemma KeysAreTerms<T>(pairs: seq<(string, T)>, m: map<string, T>)
    requires PairsOf(pairs, m)
    ensures forall w :: w in Keys(pairs) <==> w in m
  {
    forall w | w in Keys(pairs)
      ensures w in m
    {
      var i :| 0 <= i < |pairs| && Keys(pairs)[i] == w;
    }
  }
}
