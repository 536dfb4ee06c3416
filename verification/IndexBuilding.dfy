/** `lunr.Builder`: documents are added one by one, then the index is made. */
module IndexBuilding {
  import opened Words
  import opened LunrSets
  import opened QueryEvaluation

  /** A document as the extractors, the tokenizer and the pipeline leave it: the tokens of
      each field.  A field it does not have has no tokens. */
  datatype Document = Document(ref: string, tokens: map<string, seq<string>>)

  function TokensIn(doc: Document, f: string): seq<string> {
    if f in doc.tokens then doc.tokens[f] else []
  }

  type Inverted = map<string, Posting>

  /** The builder's fields.  What is keyed by field references is keyed by their strings. */
  datatype State = State(inverted: Inverted, frequencies: map<string, map<string, nat>>, lengths: map<string, nat>,
                         termIndex: nat)

  function Posted(inverted: Inverted, w: string, f: string): set<string> {
    if w in inverted && f in inverted[w].docs then inverted[w].docs[f] else {}
  }

  // ----- Counting

  function Bump(counts: map<string, nat>, w: string): map<string, nat> {
    counts[w := (if w in counts then counts[w] else 0) + 1]
  }

  /** How often each word occurs. */
  function Counts(ws: seq<string>): map<string, nat>
    decreases |ws|
  {
    if ws == [] then map[] else Bump(Counts(ws[..|ws| - 1]), ws[|ws| - 1])
  }

  /** These are the counts of these words: exactly they are counted, each as often as it occurs. */
  ghost predicate CountsOf(counts: map<string, nat>, ws: seq<string>) {
    forall w :: (w in counts <==> w in ws) && (w in counts ==> counts[w] == multiset(ws)[w])
  }

  ghost function Total(counts: map<string, nat>): nat
    decreases |counts|
  {
    if counts == map[] then 0
    else
      var w :| w in counts;
      assert |counts - {w}| < |counts| by { Shrinks(counts, w); }
      counts[w] + Total(counts - {w})
  }

  lemma Shrinks(counts: map<string, nat>, w: string)
    requires w in counts
    ensures |counts - {w}| == |counts| - 1
  {
    assert (counts - {w}).Keys == counts.Keys - {w};
  }

  lemma {:induction false} TotalOf(counts: map<string, nat>, w: string)
    requires w in counts
    ensures Total(counts) == counts[w] + Total(counts - {w})
    decreases |counts|
  {
    var v :| v in counts && Total(counts) == counts[v] + Total(counts - {v});
    if v != w {
      Shrinks(counts, v);
      Shrinks(counts, w);
      TotalOf(counts - {v}, w);
      TotalOf(counts - {w}, v);
      assert counts - {v} - {w} == counts - {w} - {v};
    }
  }

  /** Each word is counted as often as it occurs, and the counts sum to the number of words. */
  lemma CountsRight(ws: seq<string>)
    ensures Total(Counts(ws)) == |ws| && CountsOf(Counts(ws), ws)
  {
    CountsEach(ws);
    CountsSum(ws);
  }

  lemma {:induction false} CountsEach(ws: seq<string>)
    ensures CountsOf(Counts(ws), ws)
    decreases |ws|
  {
    if ws != [] {
      var init, w := ws[..|ws| - 1], ws[|ws| - 1];
      CountsEach(init);
      assert ws == init + [w];
      assert multiset(ws) == multiset(init) + multiset{w};
    }
  }

  lemma {:induction false} CountsSum(ws: seq<string>)
    ensures Total(Counts(ws)) == |ws|
    decreases |ws|
  {
    if ws != [] {
      var init, w := ws[..|ws| - 1], ws[|ws| - 1];
      CountsSum(init);
      var c, c' := Counts(init), Counts(ws);
      TotalOf(c', w);
      if w in c {
        TotalOf(c, w);
        assert c' - {w} == c - {w};
      } else {
        assert c' - {w} == c;
      }
    }
  }

  lemma CountsMore(ws: seq<string>, w: string)
    ensures var counts := Counts(ws);
            Counts(ws + [w]) == counts[w := (if w in counts then counts[w] else 0) + 1]
  {
    assert (ws + [w])[..|ws|] == ws;
  }

  /** No other counts are. */
  lemma CountsOfOnce(counts: map<string, nat>, ws: seq<string>)
    requires CountsOf(counts, ws)
    ensures counts == Counts(ws) && Total(counts) == |ws| && forall w :: w in counts ==> counts[w] > 0
  {
    CountsRight(ws);
    assert counts.Keys == Counts(ws).Keys;
  }

  // ----- What holds between documents

  /** Every posting has every field. */
  ghost predicate AllFields(inverted: Inverted, fields: seq<string>) {
    forall w :: w in inverted ==> forall f :: f in fields <==> f in inverted[w].docs
  }

  /** The terms are numbered from 0 on, each number once. */
  ghost predicate Numbered(inverted: Inverted, termIndex: nat) {
    && (forall w :: w in inverted ==> inverted[w].index < termIndex)
    && (forall w, v :: w in inverted && v in inverted && inverted[w].index == inverted[v].index ==> w == v)
    && |inverted| == termIndex
  }

  /** Names that `field` accepts; `_index` is where a posting keeps its number. */
  ghost predicate FieldNames(fields: seq<string>) {
    forall f :: f in fields ==> JOINER !in f && f != "_index"
  }

  ghost predicate ConservedAt(st: State, fields: seq<string>, ref: string) {
    && ref in st.frequencies && ref in st.lengths
    && JOINER in ref && RefFromString(ref).fieldName in fields && RefString(RefFromString(ref)) == ref
    && Total(st.frequencies[ref]) == st.lengths[ref]
    && forall w :: w in st.frequencies[ref] ==> st.frequencies[ref][w] > 0
  }

  /** Frequencies are kept for fields of the index, are positive, and sum to the length of the field. */
  ghost predicate Conserved(st: State, fields: seq<string>) {
    st.frequencies.Keys == st.lengths.Keys && forall ref :: ref in st.frequencies ==> ConservedAt(st, fields, ref)
  }

  predicate IsCounted(st: State, w: string, f: string, d: string) {
    var ref := RefString(FieldRef(d, f));
    ref in st.frequencies && w in st.frequencies[ref]
  }

  /** How often a document has a term in a field, as far as the counts tell. */
  function Frequency(st: State, w: string, f: string, d: string): nat {
    if IsCounted(st, w, f, d) then st.frequencies[RefString(FieldRef(d, f))][w] else 0
  }

  ghost predicate PostedIffCountedAt(st: State, w: string, f: string, d: string) {
    d in Posted(st.inverted, w, f) <==> IsCounted(st, w, f, d)
  }

  /** A document is posted under a term in a field exactly when the term's frequency there is positive. */
  ghost predicate PostedIffCounted(st: State, fields: seq<string>) {
    forall w, f, d :: f in fields ==> PostedIffCountedAt(st, w, f, d)
  }

  ghost predicate Consistent(st: State, fields: seq<string>) {
    && AllFields(st.inverted, fields) && Numbered(st.inverted, st.termIndex)
    && Conserved(st, fields) && PostedIffCounted(st, fields)
  }

  /** What making the index needs, and any additions keep: counted terms have postings, and
      a document posted in a field has its terms counted there. */
  ghost predicate Indexable(st: State, fields: seq<string>) {
    && AllFields(st.inverted, fields) && Numbered(st.inverted, st.termIndex)
    && (forall ref :: ref in st.frequencies ==> IndexableAt(st, fields, ref))
    && (forall w, f, d :: f in fields && d in Posted(st.inverted, w, f) ==> RefString(FieldRef(d, f)) in st.frequencies)
  }

  ghost predicate IndexableAt(st: State, fields: seq<string>, ref: string) {
    && ref in st.frequencies && JOINER in ref && RefFromString(ref).fieldName in fields
    && forall w :: w in st.frequencies[ref] ==> w in st.inverted
  }

  const EMPTY_STATE := State(map[], map[], map[], 0)

  lemma EmptyIsConsistent(fields: seq<string>)
    ensures Consistent(EMPTY_STATE, fields) && Indexable(EMPTY_STATE, fields)
  {
  }

  // ----- What adding a document does

  /** Terms keep their numbers, the document is posted in these fields under their tokens,
      and terms without a posting get one. */
  ghost predicate PostingsAdded(before: Inverted, after: Inverted, doc: Document, fields: seq<string>) {
    && (forall w :: w in after <==> w in before || exists f :: f in fields && w in TokensIn(doc, f))
    && (forall w :: w in before ==> after[w].index == before[w].index)
    && (forall w, f, d :: d in Posted(after, w, f) <==>
                          d in Posted(before, w, f) || (d == doc.ref && f in fields && w in TokensIn(doc, f)))
  }

  ghost predicate IsRefOf(doc: Document, fields: seq<string>, ref: string) {
    exists f :: f in fields && ref == RefString(FieldRef(doc.ref, f))
  }

  /** The counts under this reference are set to those of the words. */
  ghost predicate CountsSet(before: map<string, map<string, nat>>, after: map<string, map<string, nat>>,
                            ref: string, ws: seq<string>) {
    ref in after && CountsOf(after[ref], ws) && after == before[ref := after[ref]]
  }

  ghost predicate CountedFor(st: State, doc: Document, f: string) {
    var ref := RefString(FieldRef(doc.ref, f));
    && ref in st.frequencies && CountsOf(st.frequencies[ref], TokensIn(doc, f))
    && ref in st.lengths && st.lengths[ref] == |TokensIn(doc, f)|
  }

  /** The tokens of these fields of the document are counted, whatever was counted there before. */
  ghost predicate CountsAdded(st: State, st': State, doc: Document, fields: seq<string>) {
    && (forall ref :: ref in st'.frequencies <==> ref in st.frequencies || IsRefOf(doc, fields, ref))
    && (forall ref :: ref in st'.lengths <==> ref in st.lengths || IsRefOf(doc, fields, ref))
    && (forall f :: f in fields ==> CountedFor(st', doc, f))
    && (forall ref :: ref in st.frequencies && !IsRefOf(doc, fields, ref) ==>
          st'.frequencies[ref] == st.frequencies[ref])
    && (forall ref :: ref in st.lengths && !IsRefOf(doc, fields, ref) ==> st'.lengths[ref] == st.lengths[ref])
  }

  ghost predicate Added(st: State, st': State, doc: Document, fields: seq<string>) {
    && PostingsAdded(st.inverted, st'.inverted, doc, fields) && CountsAdded(st, st', doc, fields)
    && AllFields(st'.inverted, fields) && Numbered(st'.inverted, st'.termIndex)
  }

  /** Adding a document keeps everything consistent if and only if the document has, in each
      field, every term under which it is already posted there. */
  lemma AddingKeepsConsistentIff(st: State, st': State, doc: Document, fields: seq<string>)
    requires Consistent(st, fields) && FieldNames(fields) && Added(st, st', doc, fields)
    ensures Consistent(st', fields) <==>
            forall w, f :: f in fields && doc.ref in Posted(st.inverted, w, f) ==> w in TokensIn(doc, f)
  {
    ConservedAfter(st, st', doc, fields);
    forall w, f, d | f in fields
      ensures PostedIffCountedAt(st', w, f, d) <==>
              (d == doc.ref && d in Posted(st.inverted, w, f) ==> w in TokensIn(doc, f))
    {
      assert PostedIffCountedAt(st, w, f, d);
      CountedAfter(st, st', doc, fields, w, f, d);
    }
    hide PostedIffCountedAt;
    hide Conserved;
    hide CountsAdded;
    hide PostingsAdded;
    hide AllFields;
    hide Numbered;
    if PostedIffCounted(st', fields) {
      assert forall w, f :: f in fields && doc.ref in Posted(st.inverted, w, f) ==>
               PostedIffCountedAt(st', w, f, doc.ref);
    }
  }

  lemma ConservedAfter(st: State, st': State, doc: Document, fields: seq<string>)
    requires Conserved(st, fields) && FieldNames(fields) && CountsAdded(st, st', doc, fields)
    ensures Conserved(st', fields)
  {
    hide RefString;
    hide RefFromString;
    hide CountsOf;
    hide Total;
    forall ref | IsRefOf(doc, fields, ref)
      ensures ref in st'.frequencies && ConservedAt(st', fields, ref)
    {
      var f :| f in fields && ref == RefString(FieldRef(doc.ref, f));
      RefRoundTrip(FieldRef(doc.ref, f));
      assert CountedFor(st', doc, f);
      CountsOfOnce(st'.frequencies[ref], TokensIn(doc, f));
    }
    hide IsRefOf;
    hide CountedFor;
    forall ref | ref in st'.frequencies && !IsRefOf(doc, fields, ref)
      ensures ConservedAt(st', fields, ref)
    {
      assert ConservedAt(st, fields, ref);
    }
    hide ConservedAt;
    assert st'.frequencies.Keys == st'.lengths.Keys;
  }

  lemma CountedAfter(st: State, st': State, doc: Document, fields: seq<string>, w: string, f: string, d: string)
    requires FieldNames(fields) && CountsAdded(st, st', doc, fields) && f in fields
    ensures IsCounted(st', w, f, d) <==> if d == doc.ref then w in TokensIn(doc, f) else IsCounted(st, w, f, d)
    ensures Frequency(st', w, f, d) ==
              if d == doc.ref then multiset(TokensIn(doc, f))[w] else Frequency(st, w, f, d)
  {
    var ref := RefString(FieldRef(d, f));
    RefRoundTrip(FieldRef(d, f));
    if d == doc.ref {
      assert CountedFor(st', doc, f);
    } else if IsRefOf(doc, fields, ref) {
      var g :| g in fields && ref == RefString(FieldRef(doc.ref, g));
      RefRoundTrip(FieldRef(doc.ref, g));
    }
  }

  /** In particular a document with a new reference does. */
  lemma NewDocumentKeepsConsistent(st: State, st': State, doc: Document, fields: seq<string>)
    requires Consistent(st, fields) && FieldNames(fields) && Added(st, st', doc, fields)
    requires forall f :: f in fields ==> RefString(FieldRef(doc.ref, f)) !in st.frequencies
    ensures Consistent(st', fields)
  {
    forall w, f | f in fields
      ensures doc.ref !in Posted(st.inverted, w, f)
    {
      assert PostedIffCountedAt(st, w, f, doc.ref);
    }
    hide Consistent;
    hide Added;
    hide Posted;
    AddingKeepsConsistentIff(st, st', doc, fields);
  }

  /** Any document keeps the state ready to be made an index. */
  lemma AddingKeepsIndexable(st: State, st': State, doc: Document, fields: seq<string>)
    requires Indexable(st, fields) && FieldNames(fields) && Added(st, st', doc, fields)
    ensures Indexable(st', fields)
  {
    hide PostingsAdded;
    hide CountsAdded;
    hide IndexableAt;
    hide Numbered;
    hide AllFields;
    hide Posted;
    hide RefString;
    StillIndexableAt(st, st', doc, fields);
    StillReferred(st, st', doc, fields);
  }

  lemma StillIndexableAt(st: State, st': State, doc: Document, fields: seq<string>)
    requires FieldNames(fields) && PostingsAdded(st.inverted, st'.inverted, doc, fields)
             && CountsAdded(st, st', doc, fields)
    requires forall ref :: ref in st.frequencies ==> IndexableAt(st, fields, ref)
    ensures forall ref :: ref in st'.frequencies ==> IndexableAt(st', fields, ref)
  {
    hide Counts;
    hide Posted;
    hide TokensIn;
    forall ref | ref in st'.frequencies
      ensures IndexableAt(st', fields, ref)
    {
      if IsRefOf(doc, fields, ref) {
        var f :| f in fields && ref == RefString(FieldRef(doc.ref, f));
        RefRoundTrip(FieldRef(doc.ref, f));
        assert CountedFor(st', doc, f);
        CountsRight(TokensIn(doc, f));
      } else {
        assert IndexableAt(st, fields, ref);
      }
    }
  }

  lemma StillReferred(st: State, st': State, doc: Document, fields: seq<string>)
    requires PostingsAdded(st.inverted, st'.inverted, doc, fields) && CountsAdded(st, st', doc, fields)
    requires forall w, f, d :: f in fields && d in Posted(st.inverted, w, f) ==>
               RefString(FieldRef(d, f)) in st.frequencies
    ensures forall w, f, d :: f in fields && d in Posted(st'.inverted, w, f) ==>
              RefString(FieldRef(d, f)) in st'.frequencies
  {
    hide Posted;
    hide RefString;
    hide TokensIn;
    hide CountedFor;
    forall w, f, d | f in fields && d in Posted(st'.inverted, w, f)
      ensures RefString(FieldRef(d, f)) in st'.frequencies
    {
      if d !in Posted(st.inverted, w, f) {
        assert IsRefOf(doc, fields, RefString(FieldRef(d, f)));
      }
    }
  }

  // ----- Any run of additions

  /** The document is one of those added, and has the term in the field. */
  predicate HasToken(docs: seq<Document>, w: string, f: string, d: string) {
    exists i :: 0 <= i < |docs| && docs[i].ref == d && f in docs[i].tokens && w in docs[i].tokens[f]
  }

  predicate HasRef(docs: seq<Document>, d: string) {
    exists i :: 0 <= i < |docs| && docs[i].ref == d
  }

  ghost predicate DistinctRefs(docs: seq<Document>) {
    forall i, j :: 0 <= i < j < |docs| ==> docs[i].ref != docs[j].ref
  }

  /** The last document with this reference has the term in the field. */
  predicate LastHas(docs: seq<Document>, w: string, f: string, d: string)
    decreases |docs|
  {
    docs != [] &&
    var last := docs[|docs| - 1];
    if last.ref == d then f in last.tokens && w in last.tokens[f] else LastHas(docs[..|docs| - 1], w, f, d)
  }

  /** How often the last document with this reference has the term in the field. */
  function LastCount(docs: seq<Document>, w: string, f: string, d: string): nat
    decreases |docs|
  {
    if docs == [] then 0
    else
      var last := docs[|docs| - 1];
      if last.ref != d then LastCount(docs[..|docs| - 1], w, f, d)
      else if f in last.tokens then multiset(last.tokens[f])[w]
      else 0
  }

  /** The last document with a reference has what any with that reference had. */
  ghost predicate NothingLost(docs: seq<Document>, fields: seq<string>) {
    forall w, f, d :: f in fields && HasToken(docs, w, f, d) ==> LastHas(docs, w, f, d)
  }

  /** What adding these documents to an empty builder comes to: a document is posted under a
      term in a field exactly if one with its reference has the term there, a term is counted
      as often as the last one has it there, and each has a field reference for each field. */
  ghost predicate AllAdded(st: State, docs: seq<Document>, fields: seq<string>) {
    && Indexable(st, fields) && Conserved(st, fields)
    && PostedFrom(st.inverted, docs, fields) && CountedFrom(st, docs, fields) && ReferredFrom(st, docs, fields)
  }

  ghost predicate CountedFrom(st: State, docs: seq<Document>, fields: seq<string>) {
    && (forall w, f, d :: f in fields ==> (IsCounted(st, w, f, d) <==> LastHas(docs, w, f, d)))
    && (forall w, f, d :: f in fields ==> Frequency(st, w, f, d) == LastCount(docs, w, f, d))
  }

  ghost predicate PostedFrom(inverted: Inverted, docs: seq<Document>, fields: seq<string>) {
    && (forall w :: w in inverted <==> IsTermOf(docs, fields, w))
    && (forall w, f, d :: f in fields ==> (d in Posted(inverted, w, f) <==> HasToken(docs, w, f, d)))
  }

  ghost predicate ReferredFrom(st: State, docs: seq<Document>, fields: seq<string>) {
    forall f, d :: f in fields ==> (RefString(FieldRef(d, f)) in st.frequencies <==> HasRef(docs, d))
  }

  ghost predicate IsTermOf(docs: seq<Document>, fields: seq<string>, w: string) {
    exists f, d :: f in fields && HasToken(docs, w, f, d)
  }

  lemma NoneAdded(fields: seq<string>)
    ensures AllAdded(EMPTY_STATE, [], fields)
  {
    EmptyIsConsistent(fields);
  }

  lemma OneMoreAdded(st: State, st': State, docs: seq<Document>, doc: Document, fields: seq<string>)
    requires AllAdded(st, docs, fields) && FieldNames(fields) && Added(st, st', doc, fields)
    ensures AllAdded(st', docs + [doc], fields)
  {
    AddingKeepsIndexable(st, st', doc, fields);
    PostingsAfter(st.inverted, st'.inverted, docs, doc, fields);
    CountsAfter(st, st', docs, doc, fields);
    RefsAdded(st, st', docs, doc, fields);
    ConservedAfter(st, st', doc, fields);
    hide *;
  }

  lemma PostingsAfter(before: Inverted, after: Inverted, docs: seq<Document>, doc: Document, fields: seq<string>)
    requires PostedFrom(before, docs, fields) && PostingsAdded(before, after, doc, fields)
    ensures PostedFrom(after, docs + [doc], fields)
  {
    var more := docs + [doc];
    forall w, f, d
      ensures HasToken(more, w, f, d) <==> HasToken(docs, w, f, d) || (d == doc.ref && w in TokensIn(doc, f))
    {
      HasOneMore(docs, doc, w, f, d);
    }
    hide HasToken;
    hide Posted;
    hide TokensIn;
    forall w
      ensures IsTermOf(more, fields, w) <==>
              IsTermOf(docs, fields, w) || exists f :: f in fields && w in TokensIn(doc, f)
    {
      if f :| f in fields && w in TokensIn(doc, f) {
        assert HasToken(more, w, f, doc.ref);
      }
    }
    hide IsTermOf;
  }

  lemma HasOneMore(docs: seq<Document>, doc: Document, w: string, f: string, d: string)
    ensures HasToken(docs + [doc], w, f, d) <==> HasToken(docs, w, f, d) || (d == doc.ref && w in TokensIn(doc, f))
    ensures HasRef(docs + [doc], d) <==> HasRef(docs, d) || d == doc.ref
  {
    var more := docs + [doc];
    assert more[|docs|] == doc;
    if i :| 0 <= i < |docs| && docs[i].ref == d && w in TokensIn(docs[i], f) {
      assert more[i] == docs[i];
    }
    if i :| 0 <= i < |docs| && docs[i].ref == d {
      assert more[i] == docs[i];
    }
  }

  lemma RefsAdded(st: State, st': State, docs: seq<Document>, doc: Document, fields: seq<string>)
    requires FieldNames(fields) && CountsAdded(st, st', doc, fields) && ReferredFrom(st, docs, fields)
    ensures ReferredFrom(st', docs + [doc], fields)
  {
    forall f, d | f in fields
      ensures IsRefOf(doc, fields, RefString(FieldRef(d, f))) <==> d == doc.ref
      ensures HasRef(docs + [doc], d) <==> HasRef(docs, d) || d == doc.ref
    {
      HasOneMore(docs, doc, "", f, d);
      RefRoundTrip(FieldRef(d, f));
      if g :| g in fields && RefString(FieldRef(d, f)) == RefString(FieldRef(doc.ref, g)) {
        RefRoundTrip(FieldRef(doc.ref, g));
      }
    }
    hide IsRefOf;
    hide HasRef;
    hide CountedFor;
  }

  lemma CountsAfter(st: State, st': State, docs: seq<Document>, doc: Document, fields: seq<string>)
    requires FieldNames(fields) && CountsAdded(st, st', doc, fields) && CountedFrom(st, docs, fields)
    ensures CountedFrom(st', docs + [doc], fields)
  {
    var more := docs + [doc];
    assert more[|docs|] == doc && more[..|docs|] == docs;
    forall w, f, d | f in fields
      ensures IsCounted(st', w, f, d) <==> LastHas(more, w, f, d)
      ensures Frequency(st', w, f, d) == LastCount(more, w, f, d)
    {
      CountedAfter(st, st', doc, fields, w, f, d);
    }
  }

  lemma {:induction false} LastHasToken(docs: seq<Document>, w: string, f: string, d: string)
    requires LastHas(docs, w, f, d)
    ensures HasToken(docs, w, f, d)
    decreases |docs|
  {
    var init := docs[..|docs| - 1];
    assert docs == init + [docs[|docs| - 1]];
    HasOneMore(init, docs[|docs| - 1], w, f, d);
    if docs[|docs| - 1].ref != d {
      LastHasToken(init, w, f, d);
    }
  }

  /** Frequencies and postings agree after a run if and only if the last document with each
      reference has every term that one before it had. */
  lemma ConsistentIffNothingLost(st: State, docs: seq<Document>, fields: seq<string>)
    requires AllAdded(st, docs, fields)
    ensures Consistent(st, fields) <==> NothingLost(docs, fields)
  {
    forall w, f, d | f in fields
      ensures PostedIffCountedAt(st, w, f, d) <==> (HasToken(docs, w, f, d) ==> LastHas(docs, w, f, d))
    {
      if LastHas(docs, w, f, d) {
        LastHasToken(docs, w, f, d);
      }
      assert IsCounted(st, w, f, d) <==> LastHas(docs, w, f, d);
      assert d in Posted(st.inverted, w, f) <==> HasToken(docs, w, f, d);
    }
    hide PostedIffCountedAt;
    hide HasToken;
    hide LastHas;
    hide Conserved;
  }

  lemma DistinctLoseNothing(docs: seq<Document>, fields: seq<string>)
    requires DistinctRefs(docs)
    ensures NothingLost(docs, fields)
  {
    forall w, f, d | f in fields && HasToken(docs, w, f, d)
      ensures LastHas(docs, w, f, d)
    {
      OnlyOneIsLast(docs, w, f, d);
    }
  }

  lemma {:induction false} OnlyOneIsLast(docs: seq<Document>, w: string, f: string, d: string)
    requires DistinctRefs(docs) && HasToken(docs, w, f, d)
    ensures LastHas(docs, w, f, d)
    decreases |docs|
  {
    var init, last := docs[..|docs| - 1], docs[|docs| - 1];
    var i :| 0 <= i < |docs| && docs[i].ref == d && w in TokensIn(docs[i], f);
    if i < |docs| - 1 {
      assert init[i] == docs[i];
      OnlyOneIsLast(init, w, f, d);
    }
  }

  function Sole(ref: string, f: string, ws: seq<string>): Document {
    Document(ref, map[f := ws])
  }

  /** Adding a document again without one of its terms leaves a posting that is not counted;
      adding it once more with all of them sets that right. */
  lemma LostAndFound(st: State, st': State, ref: string, f: string)
    requires AllAdded(st, [Sole(ref, f, ["a"]), Sole(ref, f, ["b"])], [f])
    requires AllAdded(st', [Sole(ref, f, ["a"]), Sole(ref, f, ["b"]), Sole(ref, f, ["a", "b"])], [f])
    ensures !Consistent(st, [f]) && Consistent(st', [f])
  {
    hide *;
    ConsistentIffNothingLost(st, [Sole(ref, f, ["a"]), Sole(ref, f, ["b"])], [f]);
    ConsistentIffNothingLost(st', [Sole(ref, f, ["a"]), Sole(ref, f, ["b"]), Sole(ref, f, ["a", "b"])], [f]);
    Lost(ref, f);
    Found(ref, f);
  }

  lemma Lost(ref: string, f: string)
    ensures !NothingLost([Sole(ref, f, ["a"]), Sole(ref, f, ["b"])], [f])
  {
    var docs := [Sole(ref, f, ["a"]), Sole(ref, f, ["b"])];
    assert docs[0].ref == ref && ["a"][0] in TokensIn(docs[0], f);
    assert HasToken(docs, "a", f, ref);
    assert "a" !in ["b"] && !LastHas(docs, "a", f, ref);
    assert f in [f];
  }

  lemma Found(ref: string, f: string)
    ensures NothingLost([Sole(ref, f, ["a"]), Sole(ref, f, ["b"]), Sole(ref, f, ["a", "b"])], [f])
  {
    var docs := [Sole(ref, f, ["a"]), Sole(ref, f, ["b"]), Sole(ref, f, ["a", "b"])];
    forall w, g, d | g in [f] && HasToken(docs, w, g, d)
      ensures LastHas(docs, w, g, d)
    {
      var i :| 0 <= i < 3 && docs[i].ref == d && w in TokensIn(docs[i], g);
      assert w == "a" || w == "b";
      assert ["a", "b"][0] == "a" && ["a", "b"][1] == "b";
    }
  }

  // ----- The builder object

  /** A posting has no other fields than these. */
  ghost predicate KnownFields(inverted: Inverted, fields: seq<string>) {
    forall w, f :: w in inverted && f in inverted[w].docs ==> f in fields
  }

  /** No posting goes, old ones keep their fields, and new ones have all. */
  ghost predicate FieldsStay(before: Inverted, after: Inverted, fields: seq<string>) {
    (forall w :: w in before ==> w in after) && forall w :: w in after ==> FieldsStayAt(before, after, fields, w)
  }

  ghost predicate FieldsStayAt(before: Inverted, after: Inverted, fields: seq<string>, w: string)
    requires w in after
  {
    forall f :: f in after[w].docs <==> if w in before then f in before[w].docs else f in fields
  }

  /** The term has no posting, or one with the field. */
  predicate HasPlace(inverted: Inverted, w: string, f: string) {
    w in inverted ==> f in inverted[w].docs
  }

  /** A token of the document has a posting made before its field was named. */
  ghost predicate ComesLate(inverted: Inverted, doc: Document, fields: seq<string>) {
    exists f, w :: f in fields && w in TokensIn(doc, f) && !HasPlace(inverted, w, f)
  }

  class Builder {
    var fields: seq<string>
    var inverted: Inverted
    var frequencies: map<string, map<string, nat>>
    var lengths: map<string, nat>
    var termIndex: nat

    ghost function Snapshot(): State
      reads this
    {
      State(inverted, frequencies, lengths, termIndex)
    }

    ghost predicate Valid()
      reads this
    {
      KnownFields(inverted, fields) && Numbered(inverted, termIndex)
    }

    constructor ()
      ensures fields == [] && Snapshot() == EMPTY_STATE && Valid()
    {
      fields := [];
      inverted, frequencies, lengths, termIndex := map[], map[], map[], 0;
    }

    /** `field`; `false` is the error raised on a name with a joiner. */
    method NameField(name: string) returns (ok: bool)
      requires Valid()
      modifies this`fields
      ensures Valid() && (ok <==> JOINER !in name)
      ensures fields == if ok && name !in old(fields) then old(fields) + [name] else old(fields)
    {
      ok := JOINER !in name;
      if ok && name !in fields {
        fields := fields + [name];
      }
    }

    /** One token: count it, give its term a posting if it has none, and post the document;
        `false` is the TypeError on a posting that lacks the field. */
    method AddToken(f: string, d: string, w: string) returns (ok: bool)
      requires f in fields && Valid() && RefString(FieldRef(d, f)) in frequencies
      modifies this
      ensures Valid() && fields == old(fields) && lengths == old(lengths)
      ensures var ref := RefString(FieldRef(d, f));
              var counts := old(frequencies)[ref];
              frequencies == old(frequencies)[ref := counts[w := (if w in counts then counts[w] else 0) + 1]]
      ensures ok <==> HasPlace(old(inverted), w, f)
      ensures ok ==> PostedOne(old(inverted), inverted, f, d, w) && FieldsStay(old(inverted), inverted, fields)
    {
      hide KnownFields;
      hide FieldsStay;
      hide Numbered;
      hide Posted;
      hide RefString;
      var ref := RefString(FieldRef(d, f));
      frequencies := frequencies[ref := Bump(frequencies[ref], w)];
      ghost var before := inverted;
      NothingNew(inverted, fields);
      if w !in inverted {
        NewPosting(inverted, termIndex, fields, w);
        inverted := inverted[w := Posting(termIndex, map g | g in fields :: {})];
        termIndex := termIndex + 1;
      } else {
        assert inverted[w := inverted[w]] == inverted;
      }
      var posting := inverted[w];
      ok := f in posting.docs;
      if ok {
        NewDoc(before, inverted, termIndex, fields, f, d, w);
        inverted := inverted[w := posting.(docs := posting.docs[f := posting.docs[f] + {d}])];
      }
    }

    /** One field of a document. */
    method AddField(f: string, d: string, ws: seq<string>) returns (ok: bool)
      requires f in fields && Valid()
      modifies this
      ensures Valid() && fields == old(fields)
      ensures ok <==> forall w :: w in ws ==> HasPlace(old(inverted), w, f)
      ensures ok ==> CountsSet(old(frequencies), frequencies, RefString(FieldRef(d, f)), ws)
      ensures ok ==> lengths == old(lengths)[RefString(FieldRef(d, f)) := |ws|]
      ensures ok ==> PostedAll(old(inverted), inverted, f, d, ws) && FieldsStay(old(inverted), inverted, fields)
    {
      hide KnownFields;
      hide FieldsStay;
      hide Numbered;
      hide Posted;
      hide RefString;
      hide Counts;
      hide HasPlace;
      ok := true;
      var ref := RefString(FieldRef(d, f));
      CountsRight([]);
      frequencies := frequencies[ref := map[]];
      lengths := lengths[ref := |ws|];
      NothingNew(inverted, fields);
      NothingPosted(inverted, f, d);
      hide PostedAll;
      hide PostedOne;
      for i := 0 to |ws|
        invariant ok && Valid() && fields == old(fields) && lengths == old(lengths)[ref := |ws|]
        invariant ref in frequencies && frequencies[ref] == Counts(ws[..i])
        invariant frequencies == old(frequencies)[ref := frequencies[ref]]
        invariant PostedAll(old(inverted), inverted, f, d, ws[..i]) && FieldsStay(old(inverted), inverted, fields)
        invariant forall w :: w in ws[..i] ==> HasPlace(old(inverted), w, f)
      {
        ghost var before := inverted;
        SamePlace(old(inverted), before, fields, ws[i], f);
        ok := AddToken(f, d, ws[i]);
        if !ok {
          assert ws[i] in ws;
          return;
        }
        CountsMore(ws[..i], ws[i]);
        PostedMore(old(inverted), before, inverted, f, d, ws[..i], ws[i]);
        FieldsStayOn(old(inverted), before, inverted, fields);
        assert ws[..i + 1] == ws[..i] + [ws[i]];
      }
      assert ws[..|ws|] == ws;
      CountsRight(ws);
    }

    /** `add`; `false` is the TypeError on a token that has a posting without its field. */
    method Add(doc: Document) returns (ok: bool)
      requires Valid() && FieldNames(fields)
      modifies this
      ensures Valid() && fields == old(fields)
      ensures ok <==> !ComesLate(old(inverted), doc, fields)
      ensures ok ==> PostingsAdded(old(inverted), inverted, doc, fields)
      ensures ok ==> CountsAdded(old(Snapshot()), Snapshot(), doc, fields)
      ensures ok ==> FieldsStay(old(inverted), inverted, fields)
      ensures AllFields(old(Snapshot()).inverted, fields) ==> ok && Added(old(Snapshot()), Snapshot(), doc, fields)
    {
      hide PostingsAdded;
      hide CountsAdded;
      hide KnownFields;
      hide FieldsStay;
      hide HasPlace;
      hide Numbered;
      hide AllFields;
      ghost var st := Snapshot();
      ok := true;
      NothingAdded(st, doc);
      NothingNew(inverted, fields);
      InTime(inverted, doc, fields);
      for i := 0 to |fields|
        invariant ok && Valid() && fields == old(fields) && FieldsStay(st.inverted, inverted, fields)
        invariant PostingsAdded(st.inverted, inverted, doc, fields[..i])
                  && CountsAdded(st, Snapshot(), doc, fields[..i])
        invariant forall f, w :: f in fields[..i] && w in TokensIn(doc, f) ==> HasPlace(st.inverted, w, f)
      {
        ghost var before := Snapshot();
        var f := fields[i];
        SamePlaces(st.inverted, inverted, fields, f);
        ok := AddField(f, doc.ref, TokensIn(doc, f));
        if !ok {
          ghost var w :| w in TokensIn(doc, f) && !HasPlace(st.inverted, w, f);
          assert f in fields;
          return;
        }
        assert fields[..i + 1] == fields[..i] + [f];
        FieldPosted(st.inverted, before.inverted, inverted, doc, fields[..i], f);
        FieldCounted(st, before, Snapshot(), doc, fields[..i], f);
        FieldsStayOn(st.inverted, before.inverted, inverted, fields);
      }
      assert fields[..|fields|] == fields;
      AllStay(st.inverted, inverted, fields);
    }
  }

  lemma NothingNew(inverted: Inverted, fields: seq<string>)
    ensures FieldsStay(inverted, inverted, fields)
  {
  }

  lemma FieldsStayOn(st: Inverted, before: Inverted, after: Inverted, fields: seq<string>)
    requires FieldsStay(st, before, fields) && FieldsStay(before, after, fields)
    ensures FieldsStay(st, after, fields)
  {
    forall w | w in after
      ensures FieldsStayAt(st, after, fields, w)
    {
      assert FieldsStayAt(before, after, fields, w);
      if w in before {
        assert FieldsStayAt(st, before, fields, w);
      }
    }
  }

  /** What was added meanwhile does not matter: a new posting has every field. */
  lemma SamePlace(st: Inverted, before: Inverted, fields: seq<string>, w: string, f: string)
    requires FieldsStay(st, before, fields) && f in fields
    ensures HasPlace(before, w, f) <==> HasPlace(st, w, f)
  {
    if w in before {
      assert FieldsStayAt(st, before, fields, w);
    }
  }

  lemma SamePlaces(st: Inverted, before: Inverted, fields: seq<string>, f: string)
    requires FieldsStay(st, before, fields) && f in fields
    ensures forall w :: HasPlace(before, w, f) <==> HasPlace(st, w, f)
  {
    hide FieldsStay;
    hide HasPlace;
    forall w
      ensures HasPlace(before, w, f) <==> HasPlace(st, w, f)
    {
      SamePlace(st, before, fields, w, f);
    }
  }

  /** If every posting has every field, no token comes late. */
  lemma InTime(inverted: Inverted, doc: Document, fields: seq<string>)
    ensures AllFields(inverted, fields) ==> !ComesLate(inverted, doc, fields)
  {
  }

  /** After documents were added, a further field makes `add` fail on exactly the documents
      that have in it a term with a posting. */
  lemma LateField(inverted: Inverted, fields: seq<string>, f: string, doc: Document)
    requires AllFields(inverted, fields) && f !in fields
    ensures ComesLate(inverted, doc, fields + [f]) <==> exists w :: w in TokensIn(doc, f) && w in inverted
  {
    hide TokensIn;
    if w :| w in TokensIn(doc, f) && w in inverted {
      assert f in fields + [f] && !HasPlace(inverted, w, f);
    }
  }

  lemma AllStay(before: Inverted, after: Inverted, fields: seq<string>)
    requires FieldsStay(before, after, fields)
    ensures AllFields(before, fields) ==> AllFields(after, fields)
  {
    if AllFields(before, fields) {
      forall w | w in after
        ensures forall f :: f in fields <==> f in after[w].docs
      {
        assert FieldsStayAt(before, after, fields, w);
      }
    }
  }

  /** The document is posted under one more term. */
  ghost predicate PostedOne(before: Inverted, after: Inverted, f: string, d: string, w: string) {
    && (forall v :: v in after <==> v in before || v == w)
    && (forall v :: v in before ==> after[v].index == before[v].index)
    && (forall v, g, e :: e in Posted(after, v, g) <==> e in Posted(before, v, g) || (v == w && g == f && e == d))
  }

  ghost predicate PostedAll(before: Inverted, after: Inverted, f: string, d: string, ws: seq<string>) {
    && (forall v :: v in after <==> v in before || v in ws)
    && (forall v :: v in before ==> after[v].index == before[v].index)
    && (forall v, g, e :: e in Posted(after, v, g) <==> e in Posted(before, v, g) || (v in ws && g == f && e == d))
  }

  lemma NothingPosted(inverted: Inverted, f: string, d: string)
    ensures PostedAll(inverted, inverted, f, d, [])
  {
  }

  lemma PostedMore(st: Inverted, before: Inverted, after: Inverted, f: string, d: string, ws: seq<string>, w: string)
    requires PostedAll(st, before, f, d, ws) && PostedOne(before, after, f, d, w)
    ensures PostedAll(st, after, f, d, ws + [w])
  {
    hide Posted;
  }

  /** A new posting takes the next number, has all fields, and has no documents. */
  lemma NewPosting(inverted: Inverted, termIndex: nat, fields: seq<string>, w: string)
    requires KnownFields(inverted, fields) && Numbered(inverted, termIndex) && w !in inverted
    ensures var after := inverted[w := Posting(termIndex, map g | g in fields :: {})];
            && KnownFields(after, fields) && Numbered(after, termIndex + 1) && FieldsStay(inverted, after, fields)
            && (forall v, g :: Posted(after, v, g) == Posted(inverted, v, g))
  {
    var p := Posting(termIndex, map g | g in fields :: {});
    StillNumbered(inverted, termIndex, p, w);
    hide Numbered;
  }

  lemma NewDoc(st: Inverted, inverted: Inverted, termIndex: nat, fields: seq<string>, f: string, d: string, w: string)
    requires KnownFields(inverted, fields) && Numbered(inverted, termIndex) && w in inverted && f in inverted[w].docs
    requires FieldsStay(st, inverted, fields)
    ensures var p := inverted[w];
            var after := inverted[w := p.(docs := p.docs[f := p.docs[f] + {d}])];
            && KnownFields(after, fields) && Numbered(after, termIndex) && after.Keys == inverted.Keys
            && FieldsStay(st, after, fields)
            && (forall v :: v in inverted ==> after[v].index == inverted[v].index)
            && (forall v, g :: Posted(after, v, g) ==
                               if v == w && g == f then Posted(inverted, v, g) + {d} else Posted(inverted, v, g))
  {
    var p := inverted[w];
    var more := p.(docs := p.docs[f := p.docs[f] + {d}]);
    StillNumbered(inverted, termIndex, more, w);
    hide Numbered;
    assert inverted[w := more].Keys == inverted.Keys;
    assert more.docs.Keys == p.docs.Keys;
    FieldsKept(st, inverted, fields, w, more);
    hide KnownFields;
    hide FieldsStay;
    PostedMoreDocs(inverted, f, d, w);
    hide Posted;
  }

  lemma PostedMoreDocs(inverted: Inverted, f: string, d: string, w: string)
    requires w in inverted && f in inverted[w].docs
    ensures var p := inverted[w];
            var after := inverted[w := p.(docs := p.docs[f := p.docs[f] + {d}])];
            forall v, g :: Posted(after, v, g) ==
              if v == w && g == f then Posted(inverted, v, g) + {d} else Posted(inverted, v, g)
  {
  }

  lemma FieldsKept(st: Inverted, inverted: Inverted, fields: seq<string>, w: string, p: Posting)
    requires KnownFields(inverted, fields) && FieldsStay(st, inverted, fields)
    requires w in inverted && p.docs.Keys == inverted[w].docs.Keys
    ensures KnownFields(inverted[w := p], fields) && FieldsStay(st, inverted[w := p], fields)
  {
    var after := inverted[w := p];
    assert forall f :: f in p.docs <==> f in inverted[w].docs.Keys;
    forall v | v in after
      ensures FieldsStayAt(st, after, fields, v)
    {
      assert FieldsStayAt(st, inverted, fields, v);
    }
  }

  lemma StillNumbered(inverted: Inverted, termIndex: nat, p: Posting, w: string)
    requires Numbered(inverted, termIndex)
    requires p.index == if w in inverted then inverted[w].index else termIndex
    ensures Numbered(inverted[w := p], if w in inverted then termIndex else termIndex + 1)
  {
    var after := inverted[w := p];
    SizeAfter(inverted, w, p);
    forall x, y | x in after && y in after && after[x].index == after[y].index
      ensures x == y
    {
      assert x != w ==> x in inverted && after[x] == inverted[x];
      assert y != w ==> y in inverted && after[y] == inverted[y];
    }
  }

  lemma SizeAfter(inverted: Inverted, w: string, p: Posting)
    ensures |inverted[w := p]| == if w in inverted then |inverted| else |inverted| + 1
  {
    var after := inverted[w := p];
    assert after.Keys == if w in inverted then inverted.Keys else inverted.Keys + {w};
    assert |after| == |after.Keys| && |inverted| == |inverted.Keys|;
  }

  lemma NothingAdded(st: State, doc: Document)
    ensures PostingsAdded(st.inverted, st.inverted, doc, []) && CountsAdded(st, st, doc, [])
  {
  }

  lemma FieldPosted(st: Inverted, before: Inverted, after: Inverted, doc: Document, done: seq<string>, f: string)
    requires PostingsAdded(st, before, doc, done) && PostedAll(before, after, f, doc.ref, TokensIn(doc, f))
    ensures PostingsAdded(st, after, doc, done + [f])
  {
    hide Posted;
    hide TokensIn;
    assert forall g :: g in done + [f] <==> g in done || g == f;
  }

  lemma FieldCounted(st: State, before: State, after: State, doc: Document, done: seq<string>, f: string)
    requires CountsAdded(st, before, doc, done) && FieldNames(done) && JOINER !in f
    requires CountsSet(before.frequencies, after.frequencies, RefString(FieldRef(doc.ref, f)), TokensIn(doc, f))
    requires after.lengths == before.lengths[RefString(FieldRef(doc.ref, f)) := |TokensIn(doc, f)|]
    ensures CountsAdded(st, after, doc, done + [f])
  {
    hide CountsOf;
    hide TokensIn;
    hide RefString;
    hide CountedFor;
    var ref := RefString(FieldRef(doc.ref, f));
    StillCountedFor(before, after, doc, done, f);
    SetAt(before.frequencies, after.frequencies, ref, TokensIn(doc, f));
    hide CountsSet;
    hide FieldNames;
    forall x
      ensures IsRefOf(doc, done + [f], x) <==> IsRefOf(doc, done, x) || x == ref
    {
      assert f in done + [f];
    }
    hide IsRefOf;
  }

  lemma SetAt(before: map<string, map<string, nat>>, after: map<string, map<string, nat>>, ref: string, ws: seq<string>)
    requires CountsSet(before, after, ref, ws)
    ensures forall x :: x in after <==> x in before || x == ref
    ensures forall x :: x in before && x != ref ==> after[x] == before[x]
  {
  }

  lemma StillCountedFor(before: State, after: State, doc: Document, done: seq<string>, f: string)
    requires FieldNames(done) && JOINER !in f && forall g :: g in done ==> CountedFor(before, doc, g)
    requires CountsSet(before.frequencies, after.frequencies, RefString(FieldRef(doc.ref, f)), TokensIn(doc, f))
    requires after.lengths == before.lengths[RefString(FieldRef(doc.ref, f)) := |TokensIn(doc, f)|]
    ensures forall g :: g in done + [f] ==> CountedFor(after, doc, g)
  {
    hide CountsOf;
    hide TokensIn;
    RefRoundTrip(FieldRef(doc.ref, f));
    forall g | g in done + [f]
      ensures CountedFor(after, doc, g)
    {
      if g in done {
        assert CountedFor(before, doc, g);
        RefRoundTrip(FieldRef(doc.ref, g));
      }
    }
  }

  /** The names in the order in which they come first. */
  function Named(names: seq<string>): (fields: seq<string>)
    ensures Once(fields) && forall f :: f in fields <==> f in names
    decreases |names|
  {
    if names == [] then []
    else
      var init, name := names[..|names| - 1], names[|names| - 1];
      assert names == init + [name];
      if name in Named(init) then Named(init) else Named(init) + [name]
  }

  method NamedFields(names: seq<string>) returns (builder: Builder)
    requires FieldNames(names)
    ensures fresh(builder) && builder.Valid() && builder.fields == Named(names) && FieldNames(Named(names))
    ensures AllAdded(builder.Snapshot(), [], Named(names))
  {
    builder := new Builder();
    for i := 0 to |names|
      invariant fresh(builder) && builder.Valid() && builder.Snapshot() == EMPTY_STATE
                && builder.fields == Named(names[..i])
    {
      assert names[..i + 1][..i] == names[..i];
      var ok := builder.NameField(names[i]);
    }
    assert names[..|names|] == names;
    NoneAdded(builder.fields);
  }

  /** One more document after these. */
  method AddNext(builder: Builder, ghost docs: seq<Document>, doc: Document) returns (ok: bool)
    requires builder.Valid() && FieldNames(builder.fields) && AllAdded(builder.Snapshot(), docs, builder.fields)
    modifies builder
    ensures ok && builder.Valid() && builder.fields == old(builder.fields)
    ensures AllAdded(builder.Snapshot(), docs + [doc], builder.fields)
  {
    hide *;
    ghost var before := builder.Snapshot();
    AllFieldsOf(before, docs, builder.fields);
    ok := builder.Add(doc);
    OneMoreAdded(before, builder.Snapshot(), docs, doc, builder.fields);
  }

  lemma AllFieldsOf(st: State, docs: seq<Document>, fields: seq<string>)
    requires AllAdded(st, docs, fields)
    ensures AllFields(st.inverted, fields)
  {
  }

  /** A builder with fields of these names, to which these documents are added, in this order. */
  method AddAll(docs: seq<Document>, names: seq<string>) returns (builder: Builder)
    requires FieldNames(names)
    ensures fresh(builder) && builder.fields == Named(names)
    ensures AllAdded(builder.Snapshot(), docs, Named(names))
    ensures Consistent(builder.Snapshot(), Named(names)) <==> NothingLost(docs, Named(names))
  {
    hide *;
    builder := NamedFields(names);
    var ok := true;
    assert docs[..0] == [];
    for i := 0 to |docs|
      invariant ok && fresh(builder) && builder.Valid() && builder.fields == Named(names)
      invariant AllAdded(builder.Snapshot(), docs[..i], Named(names))
    {
      assert docs[..i + 1] == docs[..i] + [docs[i]];
      ok := AddNext(builder, docs[..i], docs[i]);
    }
    assert docs[..|docs|] == docs;
    ConsistentIffNothingLost(builder.Snapshot(), docs, Named(names));
  }
}
