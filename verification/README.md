# Verified model of a Hebrew full-text search engine

The repository is a search engine for Hebrew books: lines are indexed word by word, with their
positions, and queries are phrases whose words may stand apart, in any order, or run over a line
break. This project models the engine's own algorithms in Dafny and proves what each of them is for.
The index library below it (segments, posting lists, columns) is assumed to do what it says: a word's
postings are ascending documents with sorted positions, and a cursor over them moves forward only.

Code that changes things step by step is modelled by classes and methods with loops, in the order of
the original's steps; each is proved against a specification function or predicate, and the lemmas
beside it say what that specification means. The parts are:

* **Phrases in a document.** `ChainSweeps` (words in order, with a bound on each gap), `Matchings` and
  `WordWindows` (words in any order, each with a position of its own, by bipartite matching inside a
  sliding window), `Proximities` and `WordMerge` (the tightest span, by binary search), `WordPositions`
  and `WordReaders` (the positions of all of a word's terms, merged from forward-only cursors in three
  ways), and `GapVerifiedScorer`, which filters a stream of candidate documents by all of these.
* **Phrases over a line break.** `ContentRanges` (what is left of a line once the enumerators at its ends are taken off),
  `LineEdges`, `EdgeWords` and `ContentEdges` (the first and last content words of a line, their positions
  and their terms, without tokenizing its middle), `IdLookup` (lines found by id),
  `DocUnions` (leapfrog intersection of a selection with a union of postings), `LineParts`, `PartScans`
  and `CrossLineQuery` (the phrase split in two at every place, each half anchored to a line edge, joined
  on consecutive ids), `LineBreaks`, which says what a phrase over a line break is, and `LineIndexes`,
  which says the whole search of the lines' texts.
* **Words.** `Tokenizer`, `TokenEnds`, `TokenSlices`, `TokenStreams` (tokens, where they end, the stretches
  they fill, and the positions they take), `IndexTerms` (what a token's term holds), `PairedReadings` and
  `QueryWords` (a query asks for the words its text is indexed as), `WordPatterns` and `EscapedPatterns`
  (alternations printed and parsed, and what escaped text matches), `HtmlStrip` and `Normalizers` (one pass
  over a line against the separate passes), `MarkOrder` (canonical order of combining marks), `Combinations`,
  `Spelling`, `ProposedEdits`, `AllowedEdits`, `VariantOrder` and `QuoteDrops` (variants of a word with yods
  and vavs added or dropped, which edits are proposed and which choices of them allowed, which variants a
  limit leaves, and when quotes are left out).
* **Book numbers and order.** `BookNumbers` and `NumberProtocol` (engines that take turns with the
  writer and reserve numbers on disk before use), and `OrderTables` (sort keys).
* **The highlight cache.** `LruCaches` and `HighlightCache` (single computation per key, and clears
  that stay cleared, in every interleaving).

Characters are letters, marks, quotes, separators and so on in `Tokenizer`, which only asks what kind a
character is, and real code points where the code compares them (`ContentRanges`, `MarkOrder`,
`Normalizers`, `WordPatterns`). Offsets are indices of characters, not bytes.

## What is proved, in short

1. **Kuhn matching.** A failed augmentation exhibits words confined to too few entries, so no
   assignment exists (`NoMatching`); a successful one keeps every matched word matched and adds one.
   Hence `NextWindow` finds a window exactly when some assignment exists, the first one to end, and the
   binary search ends at the least span over all assignments.
2. **Filtering.** For every run of `Advance` and `Seek`, the scorer shows exactly the candidates that
   satisfy the proximity, and never moves a cursor back; the span it keeps for ranking is the least of the
   document shown.
3. **Line breaks.** `Evaluate` returns exactly the live, selected lines from which the phrase runs onto
   the line with the next id, whichever of the strategies is taken for each half and whichever half is
   looked for first. `EvaluateTexts` says the same of the lines' texts, the columns and postings being
   those that the tokenizer and the edges of each line give.
4. **Line edges.** The shortcut over a line's middle gives what walking every token gives, for every
   line and every content range; the edges are the least and greatest positions of content words, and
   their terms are the content words there. The terms tell which words are indexed at the edge if and only
   if the enumerator that ends the line does not run into a pair of two different words.
5. **Words.** Where a token ends is told by its characters alone: letters and marks are joined across no
   quote, one gershayim, or one or two geresh (`TokenEnds.NextTokenIs`). For every query, with or without
   paired readings, `SplitQueryWords` gives the words its text is indexed as, without the first reading of
   each pair, if and only if no token it asks for holds an attached mark. Those words are one at each
   position of the line: the last one indexed there.
6. **Book numbers.** No reachable state gives one number to two books, if and only if no two books of
   the first index share a number, the stored reservation is past all its numbers, and whoever catches up
   can read it; other reads and every write may fail, and a book may have several numbers. The other
   direction is a run that breaks safety whenever the condition fails.
7. **Dropped quotes.** At every limit, the spellings of a word with quotes have the word without them if and
   only if it is shorter than 64 characters, the quotes are at most eight and all among the first 24
   candidates, at least three letters are left, and fewer than `limit` different variants come before.
8. **Spellings.** The edits proposed for a word, and the choices of them allowed, are told by its letters
   alone (`ProposedEdits.EditsAreProposed`, `AllowedEdits.ChoiceIsAllowed`).
9. **Printing and parsing.** An alternation is read back as it was printed if and only if it has at
   least two branches and each is nonempty, balanced, and free of top-level bars.
10. **Normal form.** Two strings get the same canonical mark order if and only if they are equal up to
    swaps of adjacent marks of different nonzero classes, once the grapheme joiner is dropped
    (section 3.11 of the Unicode Standard).

Where the code does less than its comments say, the code is modelled as it is, with an input and the
exact condition:

* A document whose id is the greatest 64-bit number is in a run but is never found, because the ends of
  runs saturate (`IdLookup.GreatestIdIsNotFound`); every other id is found wherever it is held
  (`IdLookup.Docs`). `CrossLineQuery` assumes smaller ids.
* `generate_spelling_variations` returns the empty word for an empty input even when `limit` is 0; no
  other input exceeds the limit (`Spelling.OnlyTheEmptyWordExceedsLimit`).
* The same function's comment says quotes can be dropped without a cap. A choice makes at most eight edits
  and picks from at most 24 candidates, so ten letters with nine geresh between them always keep one
  (`QuoteDrops.NineQuotesAreTooMany`), and a word of 64 characters is not edited at all
  (`QuoteDrops.WideWordKeepsItsQuote`). `QuoteDrops.QuotesAreDroppedWhenTheyFit` is the exact condition, in
  the word and the limit.
* A book a table does not know should rank by its number, past the known ones. It ranks past them
  (`OrderTables.UnknownComesAfterKnown`), but ranks saturate at the greatest 32-bit number: the second line
  of the last book number but one sorts after the first line of the last
  (`OrderTables.GreatestNumbersTie`). `OrderTables.UnknownFollowNumbers` is the exact condition.
* `content_range` means to keep both readings of a pair. It tells a bracketed enumerator from a second
  reading only by what comes just before the bracket, so a bracket inside the second reading of the line's
  last pair cuts that reading off, and the edge vocabulary misses it (`ContentEdges.CutLineIsLost`).
  `ContentEdges.ContentPartsNoPair` and `ContentEdges.EdgeTermsDecideLine` are the exact conditions.
* A number is promised never to be given to another book, but a reservation file that cannot be read is
  taken for 0, also by an engine that catches up (`NumberProtocol.UnreadIsShared`).
  `NumberProtocol.NumbersAreNeverShared` is the exact condition.

## Model

| member | source | states |
|---|---|---|
| ChainSweeps.ChainSweep.Extend | rust/src/gap_phrase.rs:419-436 | the two-pointer merge keeps, in order, exactly the next word's positions that follow some current chain end within the gap |
| ChainSweeps.EndsAreChainEnds | rust/src/gap_phrase.rs:396-455 | a position is left by the sweep if and only if a whole gap-bounded chain, one position per word, ends there |
| ChainSweeps.ChainSweep.Chain | rust/src/gap_phrase.rs:443-453 | stopping at the first word that cannot extend the chain answers whether any chain exists, and otherwise leaves all chain ends |
| ChainSweeps.EndAnchoredSlack | rust/src/gap_phrase.rs:459-473 | the least distance of a chain's end from the line's last word, among all chains and at most the allowance; none exactly when no chain is that near |
| ChainSweeps.StartAnchoredSlack | rust/src/gap_phrase.rs:477-495 | the least distance of a chain's start from the line's first word, among all chains and at most the allowance; none exactly when no chain is that near |
| Matchings.HallViolation | rust/src/gap_phrase.rs:681-704 | an exhausted search from an unmatched word exhibits more words than entries they can use, so no assignment matches them all |
| Matchings.NoMatching | rust/src/gap_phrase.rs:681-704 | hence after an exhausted search no assignment exists at all |
| Matchings.FlipMatchesStart | rust/src/gap_phrase.rs:693-700 | flipping the entries along the search path keeps every matched word matched, adds the one searched for, and keeps entries distinct |
| WordWindows.WordWindows.Push | rust/src/gap_phrase.rs:559-574 | a (position, word) pair is recorded once; the slot is given for a new pair and none for a repeat |
| WordWindows.WordWindows.Augment | rust/src/gap_phrase.rs:681-704 | success adds the word to the matching and loses none; failure leaves it as it was and means no complete matching exists |
| WordWindows.WordWindows.MatchWindow | rust/src/gap_phrase.rs:650-680 | an assignment of distinct entries of the window, one to each word, is found if and only if there is one |
| WordWindows.NoMatchingNoWindow | rust/src/gap_phrase.rs:650-680 | no matching of words to the window's listed places means no assignment inside the window |
| WordWindows.WordWindows.NextWindow | rust/src/gap_phrase.rs:596-649 | a window is returned if and only if some assignment of distinct entries from `from` on spans at most `maxSpan`; it carries one, and no assignment ends before it |
| Postings.SeekFinds | rust/src/gap_phrase.rs:321-395 | seeking a cursor lands at the first document not before the target and changes neither list nor direction |
| WordPositions.PositionsSorted | rust/src/gap_phrase.rs:321-395 | the positions a word has in a document are the sorted multiset union over all its terms |
| WordPositions.WordPositions.PositionsIn | rust/src/gap_phrase.rs:321-395 | for documents asked in ascending order, whichever regime runs, the result is exactly that sorted union, and heap, current cursors and exhausted ones still partition the terms |
| WordPositions.ReadLinear | rust/src/gap_phrase.rs:324-333 | reading every cursor gives every term's positions in the document |
| WordPositions.ReadDense | rust/src/gap_phrase.rs:335-359 | the dense sweep gives every term's positions and rebuilds heap and current list to partition the cursors |
| WordPositions.ReadSparse | rust/src/gap_phrase.rs:360-392 | moving only the cursors at the heap's top and those left on the last document gives every term's positions, and keeps the partition |
| Proximities.AnyOrderKeepsOrderedHits | rust/src/gap_phrase.rs:508-517 | a document that satisfies the ordered phrase satisfies the any-order form built for the same distance, saturating arithmetic included |
| Proximities.AnyOrderIsLeast | rust/src/gap_phrase.rs:508-517 | no lesser span would do: for any, some words satisfy the ordered phrase and not the any-order form |
| Proximities.AssignedSpan | rust/src/gap_phrase.rs:585-590 | the span read off an assignment admits that assignment and is at most the bound it was found under |
| Proximities.SpanAtLeastWords | rust/src/gap_phrase.rs:783-824 | distinct positions of k words span at least k-1, the binary search's lower bound |
| Proximities.TightestSpan | rust/src/gap_phrase.rs:783-824 | the binary search ends at a span that some assignment has and no assignment undercuts |
| WordMerge.MergeWords | rust/src/gap_phrase.rs:783-824 | the heap merge records every (position, word) pair of the words' lists, and no other |
| WordMerge.FitIsSpread | rust/src/gap_phrase.rs:783-824 | an assignment of window entries is a choice of distinct positions, one per word, of the same span |
| WordMerge.SpreadIsFit | rust/src/gap_phrase.rs:783-824 | and every such choice of positions is an assignment of window entries |
| GapVerifiedScorer.FitsWindow | rust/src/gap_phrase.rs:783-824 | answers whether the words have distinct positions within the span, and the least such span when ranking |
| GapVerifiedScorer.TightestIsLeast | rust/src/gap_phrase.rs:783-824 | the least span over window assignments is the least over all choices of distinct positions |
| GapVerifiedScorer.GapVerifiedScorer.VerifyOrdered | rust/src/gap_phrase.rs:764-782 | true exactly when the document's positions hold an in-order chain within the gaps, though it stops at the first word that fails |
| GapVerifiedScorer.GapVerifiedScorer.VerifyAnyOrder | rust/src/gap_phrase.rs:783-824 | true exactly when the words have distinct positions within the span; when ranking, the span kept is the least |
| GapVerifiedScorer.GapVerifiedScorer.Verify | rust/src/gap_phrase.rs:755-763 | true exactly when the document satisfies the query's proximity, whichever kind it is |
| GapVerifiedScorer.GapVerifiedScorer.constructor | rust/src/gap_phrase.rs:723-753 | a new scorer already stands on the first candidate that satisfies the proximity; if the caller ranks and any order is asked for, the span it keeps is that document's least |
| GapVerifiedScorer.GapVerifiedScorer.Advance | rust/src/gap_phrase.rs:828-836 | moves to the next document of the filtered list: the candidates that satisfy the proximity, ascending; for a caller that ranks, the span kept is the least of the document now shown |
| GapVerifiedScorer.GapVerifiedScorer.Seek | rust/src/gap_phrase.rs:837-849 | is a seek on the filtered list, without going back when the target is behind; for a caller that ranks, the span kept is the least of the document now shown |
| FilteredDocs.ViewAdvances | rust/src/gap_phrase.rs:828-836 | moving past rejected candidates is one step of the filtered list |
| FilteredDocs.ViewSeeks | rust/src/gap_phrase.rs:837-849 | moving past rejected and earlier candidates is a seek of the filtered list |
| DocUnions.DocUnion.Seek | rust/src/cross_line.rs:1418-1432 | drops from the union exactly the documents before the target, and returns the least one left |
| DocUnions.DocUnion.Next | rust/src/cross_line.rs:1461-1478 | yields the least document of the union and removes exactly it, however many lists hold it |
| DocUnions.SelectedDocs.Next | rust/src/cross_line.rs:1439-1459 | yields the least document in both selection and union and removes exactly it; none exactly when the intersection is empty |
| DocUnions.SelectedDocs.Collect | rust/src/cross_line.rs:1434-1459 | iterating to the end yields the intersection, strictly ascending |
| Tokenizer.NextTokenBoundaries | rust/src/hebrew_tokenizer.rs:175-249 | the scan with its quote counters computes the declarative next token |
| Tokenizer.NextTokenBounds | rust/src/hebrew_tokenizer.rs:175-249 | a token starts at the first letter from the given place, is nonempty and holds no separator |
| TokenEnds.NextTokenIs | rust/src/hebrew_tokenizer.rs:175-262 | of the characters alone: two stretches of word characters are in one token exactly when between them stand transparent characters with no quote, one gershayim, or one or two geresh; at a word's end a geresh that is the first quote there is the token's, and a gershayim never is |
| TokenEnds.PairedReadingIs | rust/src/hebrew_tokenizer.rs:262-293 | a token opens a pair exactly when the text reads `(X) [Y]`, with nothing but separators, quotes and transparent characters before each closing bracket and only spaces between the groups |
| IndexTerms.TokenIsTerm | rust/src/hebrew_tokenizer.rs:305-356 | a token's term holds its letters in order and besides them only the two plain quotes, neither twice in a row |
| IndexTerms.GapFolds | rust/src/hebrew_tokenizer.rs:305-356 | what stands between two stretches of a token folds to a geresh for one geresh, a gershayim for two or for a gershayim, and nothing otherwise |
| Tokenizer.SecondReadingIsNext | rust/src/hebrew_tokenizer.rs:270-293 | after X of a pair `(X) [Y]` the next token is Y, and no token comes between Y and the pair's end |
| ContentRanges.LeadingMarkerLen | rust/src/cross_line.rs:79-125 | the content starts past the enumerator that leads the line and the spaces after it, unless that is the first reading of a pair; at 0 when there is none |
| ContentRanges.TrailingMarkerStart | rust/src/cross_line.rs:127-162 | the content ends before the enumerator that ends the line and the spaces before it, unless that directly follows the first reading of a pair it ends; at the line's end when there is none |
| ContentRanges.EnumeratorsLead | rust/src/cross_line.rs:79-125 | one to five Hebrew letters, digits, quotes or asterisks between brackets at the line's beginning are taken off with the spaces after them, unless in round brackets that open a pair |
| ContentRanges.NothingElseLeads | rust/src/cross_line.rs:79-125 | a line that begins with nothing of the kind keeps its beginning |
| ContentRanges.EnumeratorsTrail | rust/src/cross_line.rs:127-162 | the same at the line's end, but for spaces, colons, full stops, commas and sof pasuqs after it, unless in square brackets that directly close a pair |
| ContentRanges.NothingElseTrails | rust/src/cross_line.rs:127-162 | a line that ends with nothing of the kind keeps its end |
| ContentEdges.PairAtStartStays | rust/src/cross_line.rs:85-110 | a pair that begins the line stays in the content, however short its first reading |
| ContentEdges.PairAtEndStays | rust/src/cross_line.rs:142-156 | a pair that ends the line stays in the content, however short its second reading |
| ContentEdges.PairEndInFront | rust/src/cross_line.rs:88-94 | leaving out what may follow an enumerator changes no pair's end |
| ContentEdges.ContentPartsNoPair | rust/src/cross_line.rs:129-169 | the content range parts no pair if and only if the bracketed enumerator that ends the line does not end the line's last pair without being its second reading |
| ContentEdges.CutLineIsLost | rust/src/cross_line.rs:145-155 | `(א) [ב[ג]`: the second reading is indexed at the line's last edge and is not among its terms |
| LineEdges.EdgeScan.Step | rust/src/cross_line.rs:193-223 | one step is one token of the walk, and what the walk ends with does not change |
| LineEdges.EdgeScan.Finish | rust/src/cross_line.rs:224-229 | stepping to the end is the whole walk |
| LineEdges.ResumePoint | rust/src/cross_line.rs:231-248 | the last place in range where a letter follows whitespace, or none when there is none |
| LineEdges.WalkStopsAtResume | rust/src/cross_line.rs:231-248 | no token and no pair straddles such a place, so the walk's next token there is the one a fresh scan finds |
| LineEdges.WalkCounts | rust/src/cross_line.rs:250-308 | the positions a walk passes are its tokens, less one for each pair |
| LineEdges.PositionsBetween | rust/src/cross_line.rs:250-308 | counting runs of word characters as one token each gives that same number |
| LineEdges.ResumedWalk | rust/src/cross_line.rs:368-428 | a walk resumed past the skipped positions ends with the edges of the whole walk, if it meets a content word at all |
| LineEdges.Edges | rust/src/cross_line.rs:368-476 | the shortcut finds the positions and spans that the reference walk over every token finds, for every line and content range |
| EdgeWords.EdgesAreContentWords | rust/src/cross_line.rs:431-476 | the walk's edges are the least and greatest positions of content words, and the text between an edge's ends tokenizes to just the content words there |
| EdgeWords.PairTokens | rust/src/cross_line.rs:193-223 | from one reading's start to the other's end there are the two readings and no other token |
| EdgeWords.EdgesOfLine | rust/src/cross_line.rs:368-428 | the positions and terms returned for a line are those of its first and last content words; none exactly when the line has no content word |
| EdgeWords.EdgeTermsDecide | rust/src/cross_line.rs:498-518 | of any set of words, one is among an edge's terms if and only if one is indexed at the edge's position, when the content's ends part no pair |
| ContentEdges.EdgeTermsDecideLine | rust/src/cross_line.rs:368-428 | with the content range computed, the edge terms decide every set of words if and only if the enumerator that ends the line runs into no pair of two different words |
| ContentEdges.EdgesToStore | rust/src/cross_line.rs:368-428 | the edges of a line's computed content range are stored, and decide exactly when no reading is lost |
| TokenStreams.HebrewTokenStream.Advance | rust/src/hebrew_tokenizer.rs:298-391 | yields the first of the line's tokens left, with its folded text, span and position; a pair's second reading takes the first's position |
| TokenStreams.YieldedAreIndexed | rust/src/hebrew_tokenizer.rs:298-391 | the texts yielded are the line's index words, in order |
| TokenStreams.ReadWordsAreOneAtEachPosition | rust/src/hebrew_tokenizer.rs:298-391 | the words without first readings are one at each position: the i-th is the text of the last token yielded at position i, and no position is past them |
| PairedReadings.KeepSecondOfPairs | rust/src/hebrew_query.rs:595-618 | the loop replaces every pair by its second reading between spaces and keeps the rest |
| PairedReadings.KeptReads | rust/src/hebrew_query.rs:595-618 | the tokens of the text so replaced are the query's tokens without the first reading of each pair |
| QueryWords.SameWords | rust/src/hebrew_query.rs:575-591 | deleting transparent characters, folding quotes, turning separators into spaces, collapsing and trimming leave the words as the index has them if and only if no token holds a mark |
| QueryWords.QueryAsksWhatIsIndexed | rust/src/hebrew_query.rs:575-674 | a query's words are the words its text is indexed as, without the first reading of each pair, if and only if no token asked for holds a mark |
| QueryWords.MarkedQueryDiffers | rust/src/hebrew_query.rs:643-674 | a letter with a mark: the mark is kept in the query word, as intended there, and dropped from the index word |
| QueryWords.SplitQueryWords | rust/src/hebrew_query.rs:654-674 | the method's words are those, and equal the index's under exactly that condition |
| LineBreaks.CrossingSplits | rust/src/cross_line.rs:777-913 | a phrase over the break of two joined lines has a last word on the first line: it splits there into two anchored halves whose slacks fit the gap |
| LineBreaks.SplitCrosses | rust/src/cross_line.rs:777-913 | two anchored halves whose slacks fit the gap are an occurrence over the break |
| LineBreaks.ContinuesIffSplits | rust/src/cross_line.rs:724-772 | so a phrase runs over the break if and only if it splits at some place |
| IdLookup.Read | rust/src/id_lookup.rs:41-75 | the sorted runs describe exactly the segment's ids, duplicates and gaps included, and `maxEnd` is the running maximum of their saturated ends |
| IdLookup.Docs | rust/src/id_lookup.rs:77-89 | exactly the documents that hold the id, deleted or not, except for the greatest 64-bit id |
| IdLookup.GreatestIdIsNotFound | rust/src/id_lookup.rs:70-89 | a document with the greatest 64-bit id is in a run, but no end lets the search reach it |
| IdLookup.DocsWithIds | rust/src/id_lookup.rs:107-121 | the live documents whose id is among those asked for, ascending and each once |
| IdLookup.Neighbour | rust/src/id_lookup.rs:18-29 | a live document with the id beside the given one, or there itself; none exactly when there is none |
| IdLookup.FindIds | rust/src/id_lookup.rs:124-145 | maps each id to a live document that holds it, and leaves out exactly the ids no live document can be found by |
| LineParts.EdgeMissesNothing | rust/src/cross_line.rs:994-1160 | every line the part touches at its edge holds the boundary word's edge term |
| LineParts.LoneWordAtEdge | rust/src/cross_line.rs:994-1160 | a lone word lies at the edge of every line holding its edge term, so no positions need be read |
| LineParts.LiesOnEveryWord | rust/src/cross_line.rs:994-1160 | a line that holds the part holds each of its words, so any one of them may drive the search |
| LineParts.CandidateDocs | rust/src/cross_line.rs:1164-1177 | the union of the postings from `lo` on, intersected with the selection, ascending and each once |
| PartScans.MatchDoc | rust/src/cross_line.rs:1090-1160 | a document gives a match exactly when it is live, its id is wanted and the part lies within the allowance of its edge, with the least slack |
| PartScans.MatchPart | rust/src/cross_line.rs:994-1160 | by edge terms, by the rarest word over a range, or from a list: exactly the wanted matches in range |
| PartScans.FoundMayHold | rust/src/cross_line.rs:994-1160 | no match is outside the candidates looked at, whichever way they were found |
| CrossLineQuery.Scan | rust/src/cross_line.rs:918-957 | over any number of threads, the ranges together give exactly the wanted matches of the whole index |
| CrossLineQuery.DriverFreq | rust/src/cross_line.rs:960-970 | no more than any word's frequency, and some word's, unless no frequency is below the bound it starts from |
| CrossLineQuery.BoundedDriverFreq | rust/src/cross_line.rs:972-991 | exact up to the limit and past it otherwise: a broad pattern cannot look rare |
| CrossLineQuery.LookUpNeighbours | rust/src/cross_line.rs:777-913 | the documents beside the matches, or found by id elsewhere, include every live line with a neighbouring id |
| CrossLineQuery.MatchNeighbours | rust/src/cross_line.rs:777-913 | looking only on neighbours finds every second half that can join a first one |
| CrossLineQuery.ScanNeighbours | rust/src/cross_line.rs:777-913 | scanning for the neighbours' ids finds every second half that can join a first one |
| CrossLineQuery.EitherOrderIsEnough | rust/src/cross_line.rs:777-913 | all of one half, and of the other what lies beside it, join to the same hits whichever half comes first |
| CrossLineQuery.JoinSplit | rust/src/cross_line.rs:777-913 | exactly the lines that end the first half and whose next line starts the second, their slacks fitting the gap together |
| CrossLineQuery.HitsAreContinuations | rust/src/cross_line.rs:724-772 | a line is a hit of some split if and only if the phrase runs from it onto the line with the next id |
| CrossLineQuery.Evaluate | rust/src/cross_line.rs:724-772 | per segment, ascending and each once, exactly the live selected lines from which the phrase runs on |
| LineIndexes.StoredEdgesAgree | rust/src/cross_line.rs:498-518 | when the columns, postings and edge terms stored are those of the lines' texts and no reading is lost, each word's edge term is there exactly when the word is indexed at the edge's position |
| LineIndexes.EvaluateTexts | rust/src/cross_line.rs:724-772 | over such an index, exactly the live selected lines from whose text the phrase runs, over the contents' edges, onto the text of the line with the next id |
| BookNumbers.BookNumbers.NumberFor | rust/src/book_order.rs:231-252 | a known book keeps its number; a new one gets a number not below any handed out before, and below the reservation on disk, whether or not that can be read; exhausted numbers and failed writes hand out nothing, even a write that was done and reported as failed |
| BookNumbers.BookNumbers.Record | rust/src/book_order.rs:211-227 | a pair is learnt, no book loses a number, and the version changes exactly when a number is new |
| BookNumbers.BookNumbers.Absorb | rust/src/book_order.rs:197-209 | every pair found is recorded in order, and no book loses a number |
| BookNumbers.BookNumbers.CatchUp | rust/src/book_order.rs:256-272 | the commit's pairs replace what was believed of their paths, and the next number given out is past the stored reservation if that can be read |
| NumberProtocol.CaughtUpAhead | rust/src/book_order.rs:256-272 | a writer that has caught up is past every number any book holds |
| BookNumbers.VersionCounts | rust/src/book_order.rs:197-227 | the version stays the number of books known, so it changes exactly when one is added |
| BookNumbers.NumbersInSegments | rust/src/book_order.rs:303-340 | lists each book once, under the lowest of the numbers that the segments' first live lines of it have |
| BookNumbers.FoundIsLeast | rust/src/book_order.rs:303-340 | the number found is the least that the first live line of some segment has, and none exactly when none has any |
| BookNumbers.BooksAreFound | rust/src/book_order.rs:303-340 | every book listed has that number in the index, and a book with one number alone is listed |
| NumberProtocol.AskedIsSafe | rust/src/book_order.rs:231-252 | asking for a number keeps every invariant, whether the reservation can be read, written, or is written without that being known |
| NumberProtocol.StepKeeps | rust/src/book_order.rs:144-272 | opening, taking the writer, catching up, writing, deleting, committing, rolling back, crashing and reading old commits all keep the invariant, as long as catching up reads the reservation |
| NumberProtocol.ReachableIsSafe | rust/src/book_order.rs:144-272 | in every state reached while catching up reads the reservation, no number is held by two books, and every number held lies below the reservation on disk |
| NumberProtocol.UnreservedIsShared | rust/src/book_order.rs:231-272 | a number the stored reservation does not cover can be given to a second book by some run |
| NumberProtocol.UnreadIsShared | rust/src/book_order.rs:256-301 | from any index and reservation, some run gives one number to two committed books if catching up may fail to read the reservation |
| NumberProtocol.NumbersAreNeverShared | rust/src/api/search_engine.rs:9775-9792 | no run gives one number to two committed books if and only if the first index has none shared, all are below the stored reservation, and catching up reads it |
| LruCaches.LruCache.PutBounded | rust/src/highlight_cache.rs:110-202 | an entry over the budget changes nothing; otherwise it comes first, and as many of the most recent others stay as fit the count and the bytes |
| LruCaches.LruCache.Get | rust/src/highlight_cache.rs:110-202 | finds the entry under the key and makes it the most recent; a miss changes nothing |
| LruCaches.MovedToFront | rust/src/highlight_cache.rs:110-202 | using an entry keeps the keys, their number and their bytes |
| HighlightCache.SharedAfterIdle | rust/src/highlight_cache.rs:228-233 | forgetting idle work takes none from a thread that holds or waits for it |
| HighlightCache.StepKeeps | rust/src/highlight_cache.rs:110-268 | every step of every thread keeps the invariant: shared work, one worker, nothing stale, and every value under or for the key it was computed for |
| HighlightCache.OneComputationPerKey | rust/src/highlight_cache.rs:240-268 | in every interleaving all threads that hold work for a key hold the same one, and at most one of them is busy with it |
| HighlightCache.ClearedForGood | rust/src/highlight_cache.rs:204-210 | once a clear has returned, the caches hold nothing from a request that read the epoch before its bump, and no later request is answered with such a value |
| HighlightCache.AnswersAreOwn | rust/src/highlight_cache.rs:110-202 | in every interleaving, what is cached under a key, and what a request is answered with, was computed by a request for that same key |
| HighlightCache.NothingIsRecomputed | rust/src/highlight_cache.rs:125-131 | in every interleaving, as long as terms stay cached no thread sets out to compute them again |
| HighlightCache.CurrentIsStored | rust/src/highlight_cache.rs:139-153 | a value that fits is cached under its key if no clear began since its request read the epoch |
| OrderTables.RankTableOf | rust/src/book_order.rs:380-398 | the array or map filled gives each ranked number its place |
| OrderTables.EveryTableRanksAlike | rust/src/book_order.rs:403-415 | dense and sparse tables of the same books give every number the same rank |
| OrderTables.Build | rust/src/book_order.rs:419-461 | both tables rank number 0 and every known book, in the order of their places |
| OrderTables.RanksCompare | rust/src/book_order.rs:403-461 | two numbers' ranks are equal when both saturate; otherwise they compare as the books do (number 0, then mapped before unmapped, then the order's fields, then the number; unknown books last) and are equal only for one number |
| OrderTables.RanksAreAskedFor | rust/src/book_order.rs:437-455 | of known books, number 0 ranks first, then mapped books by generation if asked, by catalogue and by number, then the others by number |
| OrderTables.RanksAreABijection | rust/src/book_order.rs:419-461 | known books take the ranks 0 to their number less one, each once |
| OrderTables.KeysFollowOrder | rust/src/book_order.rs:472-485 | keys of any two ids compare by their books' order and then by line, exactly, the saturated ranks included; keys fit 64 bits |
| OrderTables.UnknownComesAfterKnown | rust/src/book_order.rs:401-415 | every line of a book the tables do not know sorts after every line of one they know |
| OrderTables.UnknownFollowNumbers | rust/src/book_order.rs:401-415 | every line of one unknown book sorts before every line of another with a greater number if and only if the lesser number, past the known books, is below the greatest rank |
| OrderTables.GreatestNumbersTie | rust/src/book_order.rs:401-415 | the two greatest numbers, both unknown: the second line of the lesser sorts after the first line of the greater |
| Combinations.Advance | rust/src/hebrew_query.rs:2062-2077 | moves to the next choice in lexicographic order; stops exactly at the last one |
| Combinations.NothingBetween | rust/src/hebrew_query.rs:2062-2077 | no choice of as many lies between one and the next |
| Combinations.ValueFollowsOrder | rust/src/hebrew_query.rs:2062-2077 | lexicographically later choices are greater numbers, so the enumeration ends |
| Spelling.IsValid | rust/src/hebrew_query.rs:1964-2012 | the counters and flags decide the limits on edits per letter, on moved letters, on letters left and on neighbouring insertions |
| Spelling.Apply | rust/src/hebrew_query.rs:2014-2035 | the variant written out is the word with the chosen characters dropped and letters added at their gaps |
| Spelling.EditsAreGood | rust/src/hebrew_query.rs:1926-1958 | every candidate drops an inner yod, vav or quote, or adds a letter at an inner gap |
| Spelling.ValidStaysApart | rust/src/hebrew_query.rs:1964-2012 | an allowed choice never sets two added letters side by side, though it only compares neighbouring gaps |
| Spelling.ValidKeepsLetters | rust/src/hebrew_query.rs:1964-2012 | an allowed choice leaves at least three of the word's letters |
| Spelling.TryAllOf | rust/src/hebrew_query.rs:2048-2078 | the choices of one size are passed in order, each giving its variant unless the variant was made before, until the limit |
| Spelling.GenerateSpellingVariations | rust/src/hebrew_query.rs:1896-2080 | the word, then each variant once under the first choice that makes it, by number of edits and lexicographically, none missing unless the limit is reached |
| ProposedEdits.EditsAreProposed | rust/src/hebrew_query.rs:1926-1957 | the edits proposed are, left to right, a drop of the first inner letter of each run of yods or vavs, unless before a final he, and of each quote; then a vav and a yod at each inner gap of a word of four letters or more, or one vav in a word of just three; twenty-four at most |
| ProposedEdits.OneEditIsListed | rust/src/hebrew_query.rs:1926-2080 | each spelling that one proposed edit makes is listed, if it leaves three letters of the word and the limit exceeds the edits proposed before by two |
| ProposedEdits.DropIsListed | rust/src/hebrew_query.rs:1928-1944 | so is the word without the first inner letter of a run of yods or vavs |
| AllowedEdits.ChoiceIsAllowed | rust/src/hebrew_query.rs:1959-2012 | a choice of candidates is allowed exactly when it has at most three edits of yods and three of vavs, drops and adds no letter both, leaves three letters, and its variant has no two added letters side by side |
| Spelling.VariantsAreClose | rust/src/hebrew_query.rs:1896-2080 | the word comes first, no variant twice, and each has at most three yod and three vav edits, no added letters side by side, and three letters left |
| Spelling.OnlyTheEmptyWordExceedsLimit | rust/src/hebrew_query.rs:1915-1920 | the list is within the limit if and only if the word is not empty or the limit not 0 |
| VariantOrder.ListedIffWithinLimit | rust/src/hebrew_query.rs:2045-2078 | what some choice of few enough edits makes is listed if and only if fewer than `limit` different spellings are made before by earlier choices |
| QuoteDrops.OnlyQuotesMakeUnquoted | rust/src/hebrew_query.rs:1926-2012 | no allowed choice but that of all the quotes makes the word without them |
| QuoteDrops.ListedFits | rust/src/hebrew_query.rs:1888-2078 | at every limit, the word without its quotes is listed only if they are at most eight, all among the first 24 candidates, and three letters are left |
| QuoteDrops.QuotesAreDroppedWhenTheyFit | rust/src/hebrew_query.rs:1888-2080 | at every limit, the spellings have the word without its quotes if and only if it is shorter than 64 characters, the quotes are at most eight and all among the first 24 candidates, three letters are left, and fewer than `limit` different spellings come before |
| QuoteDrops.OneQuoteIsDropped | rust/src/hebrew_query.rs:1888-2080 | a word with one quote has the word without it when the limit exceeds the number of candidates before the quote by at least two |
| QuoteDrops.WideWordKeepsItsQuote | rust/src/hebrew_query.rs:2037-2041 | a geresh is dropped before three letters and kept before sixty-three, at every limit above one |
| QuoteDrops.NineQuotesAreTooMany | rust/src/hebrew_query.rs:2045-2050 | ten letters with nine geresh between them: whatever the limit, the list lacks the word without them |
| MarkOrder.MarksHaveClasses | rust/src/hebrew_query.rs:793-841 | exactly the marks other than the grapheme joiner have a nonzero class |
| MarkOrder.CanonicalMarkOrder | rust/src/hebrew_query.rs:849-877 | the loop that sorts each run of marks gives the canonical form, and borrows what is in order already |
| MarkOrder.CanonicalIsCanonical | rust/src/hebrew_query.rs:849-877 | the canonical form has no joiner and no mark before one of a lower class |
| MarkOrder.CanonicalIdempotent | rust/src/hebrew_query.rs:849-877 | ordering twice is ordering once |
| MarkOrder.CanonicalIsNormalForm | rust/src/hebrew_query.rs:849-877 | two strings have the same form if and only if, without joiners, swaps of adjacent marks of different nonzero classes lead from one to the other |
| MarkOrder.VocalizedTokenPattern | rust/src/hebrew_query.rs:2685-2708 | the pattern asks, in canonical order, for the letters and for the marks of the enabled classes |
| MarkOrder.PatternFindsWord | rust/src/hebrew_query.rs:2685-2708 | the pattern of a word typed with any of its marks, in any order that canonical ordering identifies, accepts the word as indexed |
| MarkOrder.AcceptedHasAsked | rust/src/hebrew_query.rs:2685-2708 | whatever a pattern accepts has all it asks for, in order, and only free marks besides |
| MarkOrder.PatternAsksFor | rust/src/hebrew_query.rs:2685-2708 | a pattern asks for the letters typed, for the nikud typed if that is enabled, for the cantillation typed if that is, and for no other mark |
| MarkOrder.AcceptedHasMarks | rust/src/hebrew_query.rs:2685-2708 | a word accepted has each mark typed of an enabled class |
| MarkOrder.AcceptedHasLetters | rust/src/hebrew_query.rs:2685-2708 | a word accepted has the Hebrew letters typed, in order, and no others |
| WordPatterns.ClassIsPiece | rust/src/hebrew_query.rs:354-385 | a character class without delimiters in it is scanned back to the start state, with no bar and no bracket seen |
| WordPatterns.StripEnclosingGroup | rust/src/hebrew_query.rs:391-436 | a group is taken off exactly when it wraps the whole pattern |
| WordPatterns.StripsWholeGroup | rust/src/hebrew_query.rs:387-436 | a pattern that is one balanced group, `(?:...)` or `(...)`, is stripped to what the group holds, and any other is left as it is |
| WordPatterns.SplitTopLevelAlternation | rust/src/hebrew_query.rs:443-487 | the nonempty parts between bars that stand outside escapes, classes and groups |
| WordPatterns.PrintedIsReadBack | rust/src/hebrew_query.rs:314-347 | an alternation of at least two balanced, nonempty, bar-free branches is read back as it was printed |
| WordPatterns.ReadBackAreBranches | rust/src/hebrew_query.rs:314-347 | whatever alternation is read back as it was printed is of that kind |
| WordPatterns.ParsePrintsRoundTrip | rust/src/hebrew_query.rs:314-347 | so the round trip holds for exactly those |
| WordPatterns.EscapeRegex | rust/src/hebrew_query.rs:1831-1852 | each metacharacter is escaped and each typo wildcard becomes its class; the result, unless empty, can be a branch |
| WordPatterns.EscapedIsBranch | rust/src/hebrew_query.rs:1831-1852 | escaped text, unless empty, is balanced and has no top-level bar, so it is read back from an alternation |
| EscapedPatterns.EscapedMatches | rust/src/hebrew_query.rs:1831-1852 | read as a regular expression, escaped text matches exactly the texts that are the same but for typo wildcards, each of which matches any Hebrew letter but its own |
| HtmlStrip.ReplacedAtOnce | rust/src/hebrew_query.rs:1406-1411 | replacing the four space entities one kind after another replaces all of them at once |
| HtmlStrip.OnePassEqualsPasses | rust/src/hebrew_query.rs:1420-1551 | stripping tags and entities while replacing gives what the reference gives after replacing |
| HtmlStrip.TagsOutLeaves | rust/src/hebrew_query.rs:1512-1551 | the text falls into tags up to their first `>`, entities up to their first semicolon, and single characters; a tag leaves a space or nothing, as it breaks words or not, an entity leaves nothing, and a character itself |
| HtmlStrip.StrippedPieces | rust/src/hebrew_query.rs:1420-1479 | the pieces join to the reference's text; their source ranges ascend without overlap, and each piece is its source slice or one space |
| Normalizers.CollapsedIsCollapsed | rust/src/hebrew_query.rs:1554-1591 | collapsing leaves single spaces inside the text and drops nothing but whitespace |
| Normalizers.CollapsedIsWords | rust/src/hebrew_query.rs:1554-1591 | collapsing gives the words between whitespace, in order, with one space between each two |
| Normalizers.CollapsedKeepsWords | rust/src/hebrew_query.rs:1554-1591 | a text is what collapsing gives if and only if it is collapsed and has the same words |
| Normalizers.CollapsedIdempotent | rust/src/hebrew_query.rs:1554-1591 | collapsing what is collapsed changes nothing |
| Normalizers.KeptIsPasses | rust/src/hebrew_query.rs:1700-1739 | dropping, folding and stripping marks character by character is doing them one pass after another |
| Normalizers.PassesLeave | rust/src/hebrew_query.rs:1640-1659 | but for whitespace, the passes leave just what the characters not dropped fold to, and of those no attached mark if marks are stripped |
| Normalizers.NormalizeOnePass | rust/src/hebrew_query.rs:1640-1659 | one pass with its fast path for plain runs equals the separate passes on every line |
| Normalizers.NormalizeLineForIndexing | rust/src/hebrew_query.rs:1664-1694 | both texts equal the separate passes, and the one with marks is there exactly when the line carries any and it is not empty |

## Left out

What the models assume, or state weaker than the code is:

- CrossLineQuery.Evaluate: assumes live ids unique and below the greatest 64-bit number, and that a word's edge term is stored exactly when the word is indexed at the edge's position, which `LineIndexes.StoredEdgesAgree` proves of lines that lose no reading.
- CrossLineQuery.Scan: the ranges are searched one after another; that worker threads search disjoint ranges at once is not modelled.
- TokenStreams.HebrewTokenStream.Advance: quote-free twins and tokens that keep their marks are not yielded.
- QueryWords.QueryAsksWhatIsIndexed: lower-casing and presentation forms are outside it; the query path normalizes both before splitting.
- HtmlStrip.OnePassEqualsPasses: whether a tag breaks a word is an arbitrary function of which `<` it is; tag names, footnote markers and the hanging letters around `sup` and `sub` are not modelled.
- HtmlStrip.StrippedPieces: the same of tags.
- Normalizers.NormalizeOnePass: the same of tags; the decomposition of presentation forms is any map on their block, not the table itself.
- Normalizers.NormalizeLineForIndexing: the same of both.
- HighlightCache.ClearedForGood: which entries the least-recent rule drops is left open there (any entries of the same kind); `LruCaches.LruCache.PutBounded` states which. A cached pattern whose automata are gone is a miss that may happen at any time.
- MarkOrder.VocalizedTokenPattern: patterns are sequences of literals, each followed by a run of free marks, not regular expression text.

Not modelled:

- The index library: segments, posting storage, automata over terms, columns, the scoring of documents, and explanations of scores.
- Floating point: frequency scores and the bonus for a small span; only the span itself is.
- Bytes: offsets into UTF-8 are indices of characters; `query_word_spans` and its UTF-16 offsets are out.
- Caches of runs, of term lookups and of segments already read; they return what reading again would.
- Typo edits, affix arms, morphology, `keep_joined` and `resolve_gaps`.
- The order mapping file, epochs, file stamps and atomic replacement of files.
- Timeouts, logging and mutex poisoning in the cache; a request may give up at any wait instead.
- Book stamps, derived columns, the document store, display highlighting, id-set queries and SQLite sources.
