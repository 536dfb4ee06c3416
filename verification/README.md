# A model of the documentation site's search engine

The API documentation ships a search engine, lunr 2.3.9, bundled and minified in
`typedoc/assets/main.js` together with the code that highlights results.  This project models
that engine and proves what it is for: the term automaton holds exactly the indexed terms, a
query finds exactly the documents its clauses select, the query language reads back what it
prints, and saving and loading an index loses nothing.

Run `dafny verify dfyconfig.toml` to check everything.

## How the model is laid out

| files | what they model |
|---|---|
| `TokenSets`, `Tries`, `Worklists`, `Words`, `Decimals`, `Options` | the arena of token sets and the languages of its nodes, trees grown from a worklist, termination of worklist loops, string order, decimal numbers |
| `Signatures`, `TokenSetBuilder`, `TokenSetRuns`, `WrongRuns`, `DigitLabels`, `MutableBuilder` | `TokenSet.toString` and `TokenSet.Builder`: one step, whole runs, when a run goes wrong, one that does, and the object with its mutable fields |
| `Globs`, `FuzzyTerms`, `EditDistance` | the query automata of `fromString` and `fromFuzzyString` |
| `Intersection`, `Enumeration` | `intersect` and `toArray` |
| `LunrSets`, `Queries`, `QueryEvaluation` | `Set`, `FieldRef`, the clauses of `Query` and what their wildcards mean, and `Index.query` |
| `Tokenizing`, `QueryLexing`, `LexedText`, `QueryParsing`, `ParseErrors`, `QueryPrinting`, `Searching` | the tokenizer, the query language and its errors, and `Index.search` |
| `Vectors`, `IndexBuilding`, `IndexAssembly` | `Vector`, `Builder.add`, `createFieldVectors`, `build`, `toJSON`, `load` |
| `SearchedDocuments` | documents indexed, saved, loaded and searched |
| `Highlighting` | the highlighter of results |

JavaScript objects that are shared and updated in place are kept in an arena, a sequence of nodes
held by a `Heap` object; a reference is an index, and the node at index `i` has the id `i + 1`
because the counter of token sets is global.  Where the source updates an object, a class with the
same fields does, and its methods are proved against a definition on values, about which the
properties are then proved.

## What came out

* The automaton built from words in order accepts exactly these words if and only if every node
  that was replaced on the way was interchangeable with the one put in its place; one wrong
  replacement is never made good later.  It is acyclic and minimal in any case.
* It cannot fail for words without digits.  It does fail for some words with digits: `toString`
  joins labels and ids without a separator, and `DigitsBreakTheTokenSet` follows a run over sixteen
  words after which one of them is missing and another has appeared.
* The fuzzy automaton accepts exactly the words that at most `n` edits make of the term, going from
  left to right, where only the character that a swap puts behind may be edited again.  That is every
  word within `n` non-overlapping edits and only words within `n` edits.  Edits that touch the same characters again are all covered for `n` up to 1 and for no
  larger `n`: dropping what is between two characters and then swapping these is missed.
* A query raises a TypeError exactly when a required clause that the pipeline has left without
  tokens names a field for which no earlier required clause had tokens, or when a token matches a
  word of the token set that has no posting with the fields of its clause.  Otherwise it finds
  exactly the documents of the boolean reading of its clauses, each once.
* With a right token set a parsed query can only fail the first way, and not even so if the search
  pipeline drops no term.  The engine's own does not: the stop word filter is in the pipeline for
  documents only, and the one for queries has just the stemmer.  `+the` fails once a function that
  drops "the" has been added there.  The second way needs a wrong token set: a search for "g00" in
  an index over the sixteen words fails.
* A parse error points at the first lexeme with which the query no longer begins a list of clauses,
  or at the last one if the last clause lacks its term.
* After any run of additions, frequencies and postings agree if and only if the last document added
  under each reference has every term that an earlier one had.  Making the index raises no error
  either way.
* A field named after documents were added makes `add` raise a TypeError on exactly the documents
  that have, in a field, a term with a posting from before the field was named.

## Model

| member | source | states |
|---|---|---|
| `TokenSets.MatchesIsFits` | typedoc/assets/main.js:4 | reading a query automaton with `*` as any one character is reading one of its label words that fits |
| `Enumeration.ToArray` | typedoc/assets/main.js:4 | `toArray` on an acyclic token set ends and lists every accepted word once and nothing else, no word after one that it begins |
| `Intersection.Intersect` | typedoc/assets/main.js:4 | `intersect` ends for an acyclic receiver and any query automaton, cycles included; the result is a tree of new nodes that accepts exactly the nonempty words the receiver accepts and the query matches; existing nodes are untouched |
| `Intersection.Follow` | typedoc/assets/main.js:4 | following one pair of agreeing edges adds to the output exactly the word that ends there if both ends are final, and leaves one entry for the rest |
| `Globs.FromString` | typedoc/assets/main.js:4 | the automaton of a nonempty pattern matches exactly what the pattern matches, `*` being any run of characters; the empty pattern matches nothing |
| `Globs.GlobConcat` | typedoc/assets/main.js:4 | a pattern in two parts matches exactly the words in two parts that they match |
| `Globs.GlobOne` | typedoc/assets/main.js:4 | a `*` matches every word, any other character itself, and the empty pattern the empty word |
| `FuzzyTerms.FromFuzzyString` | typedoc/assets/main.js:4 | the worklist loop ends, and the label words of the automaton are exactly those generated from the term and the edit distance, though entries share nodes |
| `EditDistance.FuzzyAutomaton` | typedoc/assets/main.js:4 | a word is matched exactly if it is near the term, for every term and edit distance, stars in the term and the empty term included |
| `EditDistance.GeneratedExactlyNear` | typedoc/assets/main.js:4 | the automaton's shortcuts, a word ending where the last character is dealt with, lose no near word and add none |
| `EditDistance.ScriptIsNear` | typedoc/assets/main.js:4 | every word that at most `n` insertions, deletions, replacements and swaps of neighbours make of the term, none overlapping another, is near |
| `EditDistance.NearIsWithinEdits` | typedoc/assets/main.js:4 | a near word is reached by at most `n` edits, for a term without stars |
| `EditDistance.NearIffRightward` | typedoc/assets/main.js:4 | a word is near a term if and only if at most `n` edits, each at or to the right of where the one before left off, make it of the term, stars standing for any character |
| `EditDistance.SwapAfterDropping` | typedoc/assets/main.js:4 | concrete terms and words, for each `n` above 1, that are within `n` edits and are not matched |
| `EditDistance.AllEditsMatchedIff` | typedoc/assets/main.js:4 | all words within `n` edits, however they overlap, are matched if and only if `n` is 0 or 1 |
| `Signatures.SortedOnce` | typedoc/assets/main.js:4 | sorting the labels in `toString` gives one result, so the text depends on the edges only |
| `Signatures.SignatureInjective` | typedoc/assets/main.js:4 | nodes without digit labels that have the same `toString` have the same edges and finality |
| `TokenSetBuilder.PathRuns` | typedoc/assets/main.js:4 | the unchecked nodes lie on the path that the unchecked edges spell |
| `TokenSetBuilder.OneWayDown` | typedoc/assets/main.js:4 | only the word spelled by the unchecked edges leads to the deepest unchecked node |
| `TokenSetBuilder.StatesDiffer` | typedoc/assets/main.js:4 | nodes that are not interchangeable and lead to registered nodes accept different words |
| `TokenSetBuilder.MinimizeTopKeeps` | typedoc/assets/main.js:4 | checking a node by a genuine replacement, or registering it, keeps the invariant, the accepted words and every node registered before |
| `TokenSetBuilder.MinimizeTopSturdy` | typedoc/assets/main.js:4 | checking a node keeps path, register and minimality, and every node registered before, whether or not the replacement is genuine |
| `TokenSetBuilder.WordsKeptIffGenuine` | typedoc/assets/main.js:4 | checking a node leaves the accepted words as they are if and only if the replacement is genuine |
| `TokenSetBuilder.MinimizeKeeps` | typedoc/assets/main.js:4 | `minimize` down to any depth keeps the words, leaves exactly that many nodes unchecked, and changes no registered node |
| `TokenSetBuilder.InsertCorrect` | typedoc/assets/main.js:4 | `insert` raises its error exactly on a word below the last one, and otherwise the automaton accepts one word more and no registered node has changed |
| `TokenSetBuilder.InsertSturdy` | typedoc/assets/main.js:4 | so does `insert` of a word in order |
| `TokenSetRuns.ErrorIffOutOfOrder` | typedoc/assets/main.js:4 | a run of insertions raises "Out of order word insertion" exactly if the words are out of order |
| `TokenSetRuns.RunCorrect` | typedoc/assets/main.js:4 | after a run of insertions and `finish` exactly the inserted words are accepted and nothing is left unchecked |
| `TokenSetRuns.RunKeepsWordsIffGenuine` | typedoc/assets/main.js:4 | no check in a run changes the accepted words if and only if every replacement of the run is genuine |
| `WrongRuns.FirstWrong` | typedoc/assets/main.js:4 | the first wrong replacement in `minimize` leaves behind a node that accepts exactly what ought to follow some prefix of the last word, and that no registered node is interchangeable with |
| `WrongRuns.RunKeepsOrphan` | typedoc/assets/main.js:4 | it stays so to the end of the run |
| `WrongRuns.OrphanMeansWrong` | typedoc/assets/main.js:4 | with such a node left behind, the finished automaton does not accept exactly the words |
| `WrongRuns.RightIffGenuine` | typedoc/assets/main.js:4 | the finished automaton accepts exactly the words inserted if and only if every replacement of the run was genuine |
| `TokenSetRuns.FinishedIsMinimal` | typedoc/assets/main.js:4 | in any finished automaton, right or wrong, two different nodes that words lead to accept different words |
| `TokenSetRuns.TokenSetIsMinimal` | typedoc/assets/main.js:4 | so the token set of any words in order is minimal |
| `TokenSetRuns.RunAcyclic` | typedoc/assets/main.js:4 | the automaton of any run is closed and acyclic, whatever was replaced |
| `TokenSetRuns.DigitFreeIsGenuine` | typedoc/assets/main.js:4 | in a run over words without digits every replacement is genuine |
| `DigitLabels.DigitsBreakTheTokenSet` | typedoc/assets/main.js:4 | sixteen words with digits, inserted in order, give a token set that misses "g1" and accepts "g00", which was never inserted |
| `MutableBuilder.CommonLength` | typedoc/assets/main.js:4 | the first loop of `insert` finds the longest common prefix |
| `MutableBuilder.Builder.constructor` | typedoc/assets/main.js:4 | a new builder has one new node as its root |
| `MutableBuilder.Builder.MinimizeDownTo` | typedoc/assets/main.js:4 | the loop of `minimize`, which updates nodes, register and stack in place, does what the definition on values says |
| `MutableBuilder.Builder.InsertWord` | typedoc/assets/main.js:4 | so does `insert`, which changes nothing when it raises its error |
| `MutableBuilder.Builder.ExtendPath` | typedoc/assets/main.js:4 | so does the loop that adds a node for each further character |
| `MutableBuilder.FromArray` | typedoc/assets/main.js:4 | so does `TokenSet.fromArray`, for any words |
| `MutableBuilder.NoErrorInOrder` | typedoc/assets/main.js:4 | `fromArray` raises no error exactly on words in order |
| `MutableBuilder.TokenSetOfWords` | typedoc/assets/main.js:4 | the token set of words in order is closed and acyclic, and it accepts exactly these words if and only if the run is genuine |
| `Words.SortedWords` | typedoc/assets/main.js:4 | `Object.keys(index).sort()`: every key once, in the order in which the builder wants words |
| `Words.OneOrder` | typedoc/assets/main.js:4 | there is one such list of given words, so that a condition on it is one on the words |
| `Words.LessIffParts` | typedoc/assets/main.js:4 | a word is below another if and only if, after a common beginning, it ends or has the smaller character |
| `LunrSets.ContainsLaws` | typedoc/assets/main.js:3 | `intersect` and `union` are intersection and union, with the two special sets as everything and nothing |
| `LunrSets.RefRoundTrip` | typedoc/assets/main.js:3 | a field reference is written as field, slash and document, and read back from that, even when the document's name has a slash |
| `LunrSets.TermFieldKeyInjective` | typedoc/assets/main.js:4 | the cache keys of `query` tell terms and fields apart |
| `Queries.WildcardsMatchParts` | typedoc/assets/main.js:4 | with the wildcards a clause asks for, its pattern matches a part of the word: what is before the part needs the leading wildcard (1), what is after it the trailing one (2); a star that is there already is not added again |
| `QueryEvaluation.TermsFor` | typedoc/assets/main.js:4 | intersecting the token set with the automaton of a clause and listing the result gives exactly the words it accepts that match the token, by pattern or by nearness, each once |
| `QueryEvaluation.MatchedByTerm` | typedoc/assets/main.js:4 | a clause with the pipeline matches by the tokens it returns and a required one needs a term for each; one without matches by its own term |
| `QueryEvaluation.AddMatches` | typedoc/assets/main.js:4 | the innermost loop adds the references of a term's documents in a field and no others |
| `QueryEvaluation.Visit` | typedoc/assets/main.js:4 | one term and one field: the required, prohibited and matching maps come to hold what was visited so far, the cache skipping only what has been added |
| `QueryEvaluation.VisitFields` | typedoc/assets/main.js:4 | one word in all fields of the clause; it fails exactly if the posting lacks one of them |
| `QueryEvaluation.VisitTerms` | typedoc/assets/main.js:4 | all words of a token; it fails exactly if one of them is not listed |
| `QueryEvaluation.VisitTokens` | typedoc/assets/main.js:4 | the tokens of a clause up to the first without words, if it is required, have had all their words visited in all its fields; it fails exactly if a word so reached has no posting, or one without a field of the clause |
| `QueryEvaluation.SetEmpty` | typedoc/assets/main.js:4 | a required clause with a token without terms empties the sets of its fields and of no others |
| `QueryEvaluation.Narrow` | typedoc/assets/main.js:4 | the required sets of the clause's fields lose exactly what its match set lacks; it fails exactly if one of them is undefined |
| `QueryEvaluation.EvaluateClause` | typedoc/assets/main.js:4 | what one clause adds to the match sets, and exactly when evaluating it fails, for any token set and any fields |
| `QueryEvaluation.EvaluateClauses` | typedoc/assets/main.js:4 | what all clauses leave in the required, prohibited and matching maps; evaluation fails exactly if some clause does |
| `QueryEvaluation.Combine` | typedoc/assets/main.js:3-4 | over all fields, the intersection of the required sets and the union of the prohibited ones |
| `QueryEvaluation.Collect` | typedoc/assets/main.js:3-4 | each document that is matched, allowed and not excluded is collected once |
| `QueryEvaluation.Query` | typedoc/assets/main.js:4 | a document is in the result exactly if it is in the match set of every required clause that names a field of the index, in that of no prohibited one, and in that of some clause that is not prohibited, unless all clauses are prohibited or there are none: then every document with a vector counts that no clause matches; each document once; the TypeError exactly if a clause fails; for any token set, right or not, and any fields in the clauses |
| `Tokenizing.Tokenize` | typedoc/assets/main.js:3 | no tokens for a missing input, the lowercased items of a list, and for a text exactly the maximal runs without separators of the lowercased text, in order, each with the position that slices it back and consecutive indices |
| `Tokenizing.RunsOnce` | typedoc/assets/main.js:3 | there is one list of tokens for a text that meets this |
| `Tokenizing.SeparatedOrNot` | typedoc/assets/main.js:3 | one character between two letters makes two tokens of them if it is a hyphen or one of the 25 characters of white space, and otherwise is part of one token |
| `QueryLexing.LexemesOrderedAndExact` | typedoc/assets/main.js:4 | the spans of the lexemes are in order and do not overlap, and each text is its span without the escaping backslashes |
| `QueryLexing.PiecesAreUnescaped` | typedoc/assets/main.js:4 | joining the pieces between the recorded escapes removes exactly the escaping backslashes |
| `LexedText.UnescapeFirst` | typedoc/assets/main.js:4 | the first backslash of a text goes and what it escapes stays; a backslash at the end goes |
| `LexedText.RunLexed` | typedoc/assets/main.js:4 | a run of plain and escaped characters that does not begin with a plus is one term up to the end, a separator, `~` or `^`, and one field up to a colon |
| `LexedText.NumberLexed` | typedoc/assets/main.js:4 | `~` and `^` with the digits after them, if any, are an edit distance and a boost |
| `LexedText.StartLexed` | typedoc/assets/main.js:4 | a plus or a hyphen where a lexeme begins is a presence; other separators there are skipped |
| `LexedText.WordLexed` | typedoc/assets/main.js:4 | a word of plain characters that does not begin with a plus is one term, as "c++" is |
| `LexedText.QuerySeparatedOrNot` | typedoc/assets/main.js:4 | the same characters separate the terms of a query and the tokens of a text |
| `QueryLexing.QueryLexer.SliceString` | typedoc/assets/main.js:4 | `sliceString` joins those pieces and forgets the recorded escapes |
| `QueryLexing.QueryLexer.Emit` | typedoc/assets/main.js:4 | `emit` appends the lexeme of the span from `start` to `pos`, without its escaping backslashes, and begins the next one |
| `QueryLexing.QueryLexer.AcceptDigitRun` | typedoc/assets/main.js:4 | `acceptDigitRun` ends at the end of the digits, backing up over what follows them |
| `QueryLexing.QueryLexer.RunLexText` | typedoc/assets/main.js:4 | `lexText` ends, moves on, and emits what the reference definition has next |
| `QueryLexing.QueryLexer.RunLexTerm` | typedoc/assets/main.js:4 | so does `lexTerm`, which stops at the end of the string |
| `QueryLexing.QueryLexer.RunLexField` | typedoc/assets/main.js:4 | `lexField` emits the field before the colon, and what is still to come is what the reference definition has |
| `QueryLexing.QueryLexer.RunLexNumber` | typedoc/assets/main.js:4 | so do `lexEditDistance` and `lexBoost`, which emit the digits after the sign |
| `QueryLexing.QueryLexer.RunLexEOS` | typedoc/assets/main.js:4 | `lexEOS` emits the last term, if there is one |
| `QueryLexing.QueryLexer.RunAll` | typedoc/assets/main.js:4 | `run` ends on every string with exactly the reference lexemes |
| `QueryParsing.GrammarIsParsed` | typedoc/assets/main.js:4 | clauses of the form PRESENCE? FIELD? TERM (EDIT_DISTANCE or BOOST)* with known fields and numeric values are accepted, one clause per term in order, the last number of a kind counting |
| `QueryParsing.ParsedIffGrammar` | typedoc/assets/main.js:4 | the parser accepts exactly the lexemes of lists of such clauses |
| `ParseErrors.BeginsIffReadable` | typedoc/assets/main.js:4 | the lexemes that begin some list of clauses are those that can be read one by one |
| `ParseErrors.ErrorSpan` | typedoc/assets/main.js:4 | an error holds the start and the end of the first lexeme with which the lexemes no longer begin a list of clauses, or of the last one if they begin such a list and are none |
| `QueryParsing.QueryParser.RunParseClause` | typedoc/assets/main.js:4 | `parseClause` leaves the outcome of the whole parse unchanged, or raises the error that is that outcome |
| `QueryParsing.QueryParser.RunParsePresence` | typedoc/assets/main.js:4 | so does `parsePresence` |
| `QueryParsing.QueryParser.RunParseField` | typedoc/assets/main.js:4 | so does `parseField` |
| `QueryParsing.QueryParser.RunParseTerm` | typedoc/assets/main.js:4 | `parseTerm` consumes the term, ends the clause where the next one begins, and leaves the outcome unchanged |
| `QueryParsing.QueryParser.RunParseEditDistance` | typedoc/assets/main.js:4 | `parseEditDistance` leaves the outcome unchanged, or raises the error that is that outcome |
| `QueryParsing.QueryParser.RunParseBoost` | typedoc/assets/main.js:4 | so does `parseBoost` |
| `QueryParsing.QueryParser.RunParser` | typedoc/assets/main.js:4 | `parse` ends on every string with the clauses of the reference definition, or with its error and the span of the lexeme it is about |
| `QueryParsing.ParseQuery` | typedoc/assets/main.js:4 | lexer and parser together |
| `QueryPrinting.RoundTrip` | typedoc/assets/main.js:4 | any list of clauses, printed with every character of terms and fields escaped, is lexed and parsed to the same clauses with their terms in lower case and the documented defaults |
| `Searching.ParsedFieldsKnown` | typedoc/assets/main.js:4 | a parsed clause names fields of the index only |
| `Searching.OnlyUndefinedFails` | typedoc/assets/main.js:4 | with a token set that accepts exactly the terms, a clause of a parsed query fails only for want of tokens |
| `Searching.NothingDroppedNeverFails` | typedoc/assets/main.js:4 | with such a token set and a search pipeline that drops no term, like the stemmer alone, no clause of a parsed query fails |
| `Searching.RequiredStopWordFails` | typedoc/assets/main.js:4 | `+the` parses to one required clause, which fails on every index with a field if a function that drops "the" was added to the search pipeline |
| `Searching.UnlistedWordFails` | typedoc/assets/main.js:4 | a search for "g00" in an index over the sixteen words that break the token set fails: the token set accepts the word, and there is no posting |
| `Searching.Search` | typedoc/assets/main.js:4 | a search raises the parser's error, fails as `query` does, or finds exactly the documents the parsed clauses select |
| `SearchedDocuments.SelectedIsAmong` | typedoc/assets/main.js:4 | what a query selects in the index of some documents is what its clauses say of the documents themselves |
| `SearchedDocuments.SearchSaved` | typedoc/assets/main.js:4 | documents indexed, the index saved, loaded on the heap of a page and searched there: the answer is the parser's error, the TypeError, or exactly the documents that the clauses select among those given, if the run over their terms, each once and in order, is genuine on that heap, and so if the terms have no digits; no TypeError if the search pipeline drops no term |
| `Vectors.Vector.PositionForIndex` | typedoc/assets/main.js:4 | the binary search ends with the position of the index, or the one place where it can be inserted |
| `Vectors.EntryFrom` | typedoc/assets/main.js:4 | at that position is the entry of the index, if there is one |
| `Vectors.UpsertedIsMap` | typedoc/assets/main.js:4 | inserting at that position keeps the indices rising and changes one entry of the map only, by the combining function if it was there |
| `Vectors.Vector.Upsert` | typedoc/assets/main.js:4 | so does `upsert`, which also forgets the cached magnitude |
| `Vectors.UpsertsFold` | typedoc/assets/main.js:4 | over any list of upserts the vector stays sorted and holds, for every index, the fold of its values |
| `Vectors.Vector.Insert` | typedoc/assets/main.js:4 | `insert` raises "duplicate index" exactly if there is an entry, and then changes no element |
| `Vectors.Vector.Magnitude` | typedoc/assets/main.js:4 | the magnitude, cached or not, is that of the current elements: the sum of the squares of their values |
| `Vectors.SquareIsDotProduct` | typedoc/assets/main.js:4 | the squared magnitude of a sorted vector is its dot product with itself |
| `Vectors.DotProductAdds` | typedoc/assets/main.js:4 | the dot product adds up over entries, and for one entry each at the same index it is the product of the two values |
| `Vectors.MergedIsDotProduct` | typedoc/assets/main.js:4 | the two-pointer walk over sorted vectors computes the sum over common indices |
| `Vectors.Vector.Dot` | typedoc/assets/main.js:4 | so does the loop of `dot` |
| `Vectors.DotProductCommutes` | typedoc/assets/main.js:4 | the dot product of sorted vectors does not depend on their order |
| `IndexBuilding.CountsRight` | typedoc/assets/main.js:4 | exactly the tokens of a field are counted, each as often as it occurs, and the counts sum to their number |
| `IndexBuilding.Builder.NameField` | typedoc/assets/main.js:4 | `field` raises its error exactly on a name with a joiner, and otherwise adds the name if it is new |
| `IndexBuilding.Builder.AddToken` | typedoc/assets/main.js:4 | one token raises its count, gets a new term the next number, and posts the document under its term and field and nowhere else; it fails exactly if the term has a posting without the field |
| `IndexBuilding.Builder.AddField` | typedoc/assets/main.js:4 | one field of a document sets the frequency of each of its tokens to how often it occurs, and no others, and its length to the number of tokens, and posts the document under exactly these; it fails exactly if one of them has a posting without the field |
| `IndexBuilding.Builder.Add` | typedoc/assets/main.js:4 | `add` posts the document exactly where it has tokens, keeps term numbers, and sets the frequencies of its fields to how often each token occurs, their lengths to the number of tokens, and no others; the TypeError exactly if a token has a posting without its field, which cannot be if every posting has every field |
| `IndexBuilding.LateField` | typedoc/assets/main.js:4 | after documents were added, a further field makes `add` fail on exactly the documents that have in it a term with a posting |
| `IndexBuilding.AddingKeepsConsistentIff` | typedoc/assets/main.js:4 | after `add` frequencies still sum to field lengths, postings still agree with positive frequencies and terms are still numbered from 0 on, if and only if the document has every term it was already posted under |
| `IndexBuilding.NewDocumentKeepsConsistent` | typedoc/assets/main.js:4 | in particular if its reference is new |
| `IndexBuilding.ConsistentIffNothingLost` | typedoc/assets/main.js:4 | after a whole run of additions frequencies and postings agree if and only if the last document of each reference has every term that one with its reference had |
| `IndexBuilding.DistinctLoseNothing` | typedoc/assets/main.js:4 | which is so if the references differ |
| `IndexBuilding.LostAndFound` | typedoc/assets/main.js:4 | a document added with one term, then with another, leaves them in disagreement; added again with both, in agreement |
| `IndexBuilding.AddingKeepsIndexable` | typedoc/assets/main.js:4 | any document keeps what making the index needs |
| `IndexBuilding.AddAll` | typedoc/assets/main.js:4 | fields named and then any documents added: no error is raised, and a document is posted exactly where one with its reference has tokens, a term counted in a field as often as the last one has it there, and all is consistent if and only if nothing was lost |
| `IndexAssembly.FieldVector` | typedoc/assets/main.js:4 | the vector of a field reference has the score of each of its terms at the term's number and nothing else |
| `IndexAssembly.CreateFieldVectors` | typedoc/assets/main.js:4 | `createFieldVectors` never raises "duplicate index" and makes a vector for each field reference |
| `IndexAssembly.BuildIndex` | typedoc/assets/main.js:4 | `build` gives a valid index, whose token set accepts exactly its terms if and only if the run over them, each once and in order, is genuine, and so if the terms have no digits |
| `IndexAssembly.IndexDocuments` | typedoc/assets/main.js:4 | from any documents to an index in which a term leads, in a field, to exactly the documents that have it there, exactly the documents added have vectors, and the token set accepts exactly the terms if and only if the run that builds it is genuine |
| `IndexAssembly.ToJSON` | typedoc/assets/main.js:4 | `toJSON` lists the postings in the order of their terms and loses nothing |
| `IndexAssembly.FromPairsOf` | typedoc/assets/main.js:4 | a map is restored from its listed pairs |
| `IndexAssembly.Load` | typedoc/assets/main.js:4 | `load` raises "Out of order word insertion" exactly if the listed terms are out of order, and otherwise restores maps and token set |
| `IndexAssembly.SaveAndLoad` | typedoc/assets/main.js:4 | loading what was saved raises no error and gives the same index, with a token set that accepts exactly its terms if and only if the run that builds it is genuine, and so if the terms have no digits |
| `Highlighting.ReadEscaped` | typedoc/assets/main.js:5 | escaped text reads, as HTML, as the text it was |
| `Highlighting.EscapedIsText` | typedoc/assets/main.js:5 | escaped text has no angle brackets and no quotes, and ampersands only at the beginning of a character reference |
| `Highlighting.IndexOf` | typedoc/assets/main.js:5 | `indexOf`: the first occurrence from a position on, or none |
| `Highlighting.LeftmostUnique` | typedoc/assets/main.js:5 | there is one list of leftmost occurrences that do not overlap |
| `Highlighting.Highlight` | typedoc/assets/main.js:5 | for a query that is not empty the HTML shows the text, whatever it contains, with exactly the characters of the leftmost occurrences of the lowercased query in bold; for the empty query the text is returned unescaped |

## Left out

- EditDistance.ScriptIsNear: covers edits that do not overlap; for edits that do, `AllEditsMatchedIff` says when they are covered.
- EditDistance.AllEditsMatchedIff: is about all terms at once. For one given term larger distances may be covered too; which ones is not determined.
- Enumeration.ToArray: takes the edges of a node in any order; the source takes them in the order of the object's keys.
- QueryEvaluation.Query: leaves out the order of the results, which are sorted by score, and takes the index as the builder makes it, each posting having exactly the fields of the index.
- QueryEvaluation.Collect: leaves out the scores that are summed for a document and the combined match data.
- QueryEvaluation.Listed: treats a field named `_index` like any other that the index does not have; the source would find the term's number under it.
- IndexBuilding.Builder.Add: starts from the tokens of each field, as extractor, tokenizer and pipeline leave them, and with no field named `_index`, since its documents would take the place of the term's number in every posting. What a failed addition leaves behind is not described.
- IndexAssembly.IndexDocuments: names all fields before the first document; an index whose postings lack fields named later is not built.
- IndexAssembly.FieldVector: takes the scores as a parameter; the BM25 formula and its rounding are not modelled.
- IndexAssembly.ToJSON: leaves out the version and the pipeline, and lists field vectors in the order of their references; the source takes them in the order of the object's keys, on which nothing depends.
- IndexAssembly.Load: leaves out the version warning and the loading of the pipeline.
- Vectors.Vector.Magnitude: is the squared magnitude, over exact reals; square roots and rounding are not modelled.
- QueryParsing.NumberOf: is exact; `parseInt` loses precision for numbers above 2^53.
- Highlighting.Highlight: takes the lowercased text position by position, as the source does, which marks what a reader expects only if lowercasing keeps the length.
- Scoring: `idf`, BM25, boosts, query vectors and similarities are a parameter or absent, and so are `MatchData` and the metadata whitelist.
- The pipeline is a function from a term to tokens; stemmer, trimmer, stop words and the registry of functions are not modelled, and lowercasing is a parameter.
- Characters are Unicode scalar values and stand for UTF-16 code units; halves of surrogate pairs cannot be told apart.
- Messages of errors; negative edit distances, which the query language cannot express.
- `query` overwrites the term of a clause with its tokens; no later step reads it.
- Inserting into a builder after `finish`, which the source neither does nor supports.
- The rest of the page script: elements, storage, themes, navigation and fetching the index.
- The packages under `packages/`, the end-to-end scripts, the examples and the contracts.
