/** An index built from the texts of its lines: what the phrase search over line breaks finds in it, as a
    statement about the texts. */
module LineIndexes {
  import opened Prelude
  import opened Postings
  import opened ChainSweeps
  import opened LineBreaks
  import opened LineParts
  import opened CrossLineQuery
  import opened IdLookup
  import opened WordPositions
  import opened WordReaders
  import opened DocUnions
  import opened Tokenizer
  import opened TokenStreams
  import opened EdgeWords
  import opened ContentEdges

  /** A line as it is written into the index: its text, the edges found in it, and whether a phrase may
      run into it and out of it. */
  datatype Written = Written(text: Text, edges: Option<EdgePair>, canStart: bool, canEnd: bool) {
    /** The edges stored are those of the text, and fit 32 bits. */
    ghost predicate Valid() {
      IsStored(text, edges) && (edges.Some? ==> edges.value.first <= U32_MAX && edges.value.last <= U32_MAX)
    }

    /** What the two edge columns store. */
    function First(): Option<nat> {
      if canStart && edges.Some? then Some(edges.value.first + 1) else None
    }

    function Last(): Option<nat> {
      if canEnd && edges.Some? then Some(edges.value.last + 1) else None
    }

    /** Whether the edge vocabulary lists the line under one of the words. */
    ghost predicate StartsWith(words: iset<Text>) {
      canStart && edges.Some? && HasTerm(edges.value.startTerms, words)
    }

    ghost predicate EndsWith(words: iset<Text>) {
      canEnd && edges.Some? && HasTerm(edges.value.endTerms, words)
    }
  }

  /** The text postings of a word hold its positions. */
  ghost predicate HoldsPositions(postings: seq<Cursor>, lines: seq<Written>, words: iset<Text>) {
    WellListed(postings)
    && forall doc: nat, p: nat {:trigger p in SortedPositions(postings, doc)} :: doc < |lines| ==>
         (p in SortedPositions(postings, doc) <==> HasWordAt(LineTokens(lines[doc].text), p, words))
  }

  /** The segment's columns and postings are those of the lines, for words that match these sets of terms. */
  ghost predicate Indexes(segment: Segment, lines: seq<Written>, words: seq<iset<Text>>) {
    && |lines| == |segment.lines| == |segment.first| == |segment.last| < TERMINATED
    && |segment.text| == |segment.starts| == |segment.ends| == |words|
    && AllListings(segment.text, |segment.lines|)
    && AllListings(segment.starts, |segment.lines|)
    && AllListings(segment.ends, |segment.lines|)
    && (forall doc :: 0 <= doc < |lines| ==>
          lines[doc].Valid() && segment.first[doc] == lines[doc].First() && segment.last[doc] == lines[doc].Last())
    && (forall w :: 0 <= w < |words| ==> HoldsPositions(segment.text[w], lines, words[w]))
    && (forall w, doc: nat {:trigger lines[doc].StartsWith(words[w])} :: 0 <= w < |words| && doc < |lines| ==>
          (Pending(segment.starts[w], doc) <==> lines[doc].StartsWith(words[w])))
    && (forall w, doc: nat {:trigger lines[doc].EndsWith(words[w])} :: 0 <= w < |words| && doc < |lines| ==>
          (Pending(segment.ends[w], doc) <==> lines[doc].EndsWith(words[w])))
  }

  /** No line loses a reading to the enumerator at its end. */
  ghost predicate KeepsReadings(lines: seq<Written>) {
    forall doc :: 0 <= doc < |lines| ==> !LosesReading(lines[doc].text)
  }

  lemma EdgesDecide(line: Written, words: iset<Text>)
    requires line.Valid() && line.edges.Some? && !LosesReading(line.text)
    ensures Decides(line.text, line.edges.value, words)
  {
    var content :| ContentRanges.IsContentRange(line.text, content) && StoredFor(line.text, content, line.edges);
    EdgeTermsDecideLine(line.text, content, line.edges.value);
  }

  lemma AnchorOfFirst(line: Written)
    requires line.Valid()
    ensures Anchor(line.First()) == if line.canStart && line.edges.Some? then Some(line.edges.value.first) else None
    ensures Anchor(line.Last()) == if line.canEnd && line.edges.Some? then Some(line.edges.value.last) else None
  {
  }

  /** What the search takes of the edge vocabulary is so. */
  lemma StoredEdgesAgree(segment: Segment, lines: seq<Written>, words: seq<iset<Text>>, w: nat)
    requires Indexes(segment, lines, words) && KeepsReadings(lines) && w < |words|
    ensures EdgesOf(segment.starts[w], segment.text[w], segment.first)
    ensures EdgesOf(segment.ends[w], segment.text[w], segment.last)
  {
    forall doc: nat | doc < |lines|
      ensures EdgeAt(segment.starts[w], segment.text[w], Anchor(segment.first[doc]), doc)
      ensures EdgeAt(segment.ends[w], segment.text[w], Anchor(segment.last[doc]), doc)
    {
      EdgesAgree(segment, lines, words, w, doc);
    }
  }

  lemma EdgesAgree(segment: Segment, lines: seq<Written>, words: seq<iset<Text>>, w: nat, doc: nat)
    requires Indexes(segment, lines, words) && KeepsReadings(lines) && w < |words| && doc < |lines|
    ensures EdgeAt(segment.starts[w], segment.text[w], Anchor(segment.first[doc]), doc)
    ensures EdgeAt(segment.ends[w], segment.text[w], Anchor(segment.last[doc]), doc)
  {
    var line := lines[doc];
    assert line.Valid() && HoldsPositions(segment.text[w], lines, words[w]);
    AnchorOfFirst(line);
    assert Pending(segment.starts[w], doc) <==> lines[doc].StartsWith(words[w]);
    assert Pending(segment.ends[w], doc) <==> lines[doc].EndsWith(words[w]);
    if line.edges.Some? {
      EdgesDecide(line, words[w]);
    }
  }

  // ── The search, said of the texts ────────────────────────────────────────────

  /** The lines of every segment, and the words of the phrase as sets of terms. */
  ghost predicate IndexesAll(index: seq<Segment>, phrase: Phrase, lines: seq<seq<Written>>, words: seq<iset<Text>>) {
    && |lines| == |index| && |words| == |phrase.patterns| == phrase.Size()
    && forall s :: 0 <= s < |index| ==> Indexes(index[s], lines[s], words) && KeepsReadings(lines[s])
  }

  lemma IndexedIsValid(index: seq<Segment>, phrase: Phrase, lines: seq<seq<Written>>, words: seq<iset<Text>>)
    requires IndexesAll(index, phrase, lines, words)
    ensures ValidIndex(index, phrase)
  {
    forall s | 0 <= s < |index| ensures ValidSegment(index[s], phrase.Size()) {
      forall w | 0 <= w < |words|
        ensures EdgesOf(index[s].starts[w], index[s].text[w], index[s].first)
        ensures EdgesOf(index[s].ends[w], index[s].text[w], index[s].last)
      {
        StoredEdgesAgree(index[s], lines[s], words, w);
      }
    }
  }

  /** On the two lines joined, the first up to `last` and the second from `first` on, one of the words
      stands at `p`. */
  ghost predicate StandsAcross(left: Text, last: nat, right: Text, first: nat, words: iset<Text>, p: nat) {
    if p <= last then HasWordAt(LineTokens(left), p, words)
    else HasWordAt(LineTokens(right), p - last - 1 + first, words)
  }

  ghost predicate IsOccurrence(left: Text, last: nat, right: Text, first: nat, words: seq<iset<Text>>, gaps: seq<nat>,
                               chain: seq<nat>)
  {
    && |chain| == |words| == |gaps| + 1
    && (forall i :: 0 <= i < |chain| ==> StandsAcross(left, last, right, first, words[i], chain[i]))
    && (forall i {:trigger StepsAt(chain, gaps, i)} :: 0 <= i < |chain| - 1 ==> StepsAt(chain, gaps, i))
    && chain[0] <= last < chain[|chain| - 1]
  }

  /** The phrase runs from one line onto the other, over their contents' edges. */
  ghost predicate RunsOverTexts(left: Written, right: Written, words: seq<iset<Text>>, gaps: seq<nat>) {
    && left.canEnd && left.edges.Some? && right.canStart && right.edges.Some?
    && exists chain ::
         IsOccurrence(left.text, left.edges.value.last, right.text, right.edges.value.first, words, gaps, chain)
  }

  /** A selected live line, and the line with the next id that the phrase runs onto. */
  ghost predicate RunsFrom(index: seq<Segment>, phrase: Phrase, lines: seq<seq<Written>>, words: seq<iset<Text>>,
                           filter: Filter, place: Place)
    requires IndexesAll(index, phrase, lines, words)
  {
    && Passes(filter, place.0, place.1)
    && exists id: nat, next: Place :: RunsFromOnto(index, phrase, lines, words, place, next, id)
  }

  ghost predicate RunsFromOnto(index: seq<Segment>, phrase: Phrase, lines: seq<seq<Written>>, words: seq<iset<Text>>,
                               place: Place, next: Place, id: nat)
    requires IndexesAll(index, phrase, lines, words)
  {
    && LivesAt(Columns(index), place, id) && LivesAt(Columns(index), next, id + 1)
    && RunsOverTexts(lines[place.0][place.1], lines[next.0][next.1], words, phrase.gaps)
  }

  lemma SameOccurrence(segment: Segment, doc: nat, other: Segment, next: nat, lines: seq<Written>,
                       others: seq<Written>, words: seq<iset<Text>>, last: nat, first: nat, gaps: seq<nat>,
                       chain: seq<nat>)
    requires Indexes(segment, lines, words) && Indexes(other, others, words) && doc < |lines| && next < |others|
    requires |words| == |gaps| + 1
    ensures Crosses(LineWords(segment, doc), last, LineWords(other, next), first, gaps, chain)
       <==> IsOccurrence(lines[doc].text, last, others[next].text, first, words, gaps, chain)
  {
    var left, right := LineWords(segment, doc), LineWords(other, next);
    if |chain| == |words| {
      forall i | 0 <= i < |chain|
        ensures AcrossBreak(left[i], last, right[i], first, chain[i])
           <==> StandsAcross(lines[doc].text, last, others[next].text, first, words[i], chain[i])
      {
        assert HoldsPositions(segment.text[i], lines, words[i]) && HoldsPositions(other.text[i], others, words[i]);
        assert left[i] == SortedPositions(segment.text[i], doc) && right[i] == SortedPositions(other.text[i], next);
      }
    }
  }

  lemma RunsOverIsText(index: seq<Segment>, phrase: Phrase, lines: seq<seq<Written>>, words: seq<iset<Text>>,
                       place: Place, next: Place)
    requires IndexesAll(index, phrase, lines, words) && ValidIndex(index, phrase)
    requires place.0 < |index| && place.1 < |index[place.0].lines|
    requires next.0 < |index| && next.1 < |index[next.0].lines|
    ensures RunsOver(index[place.0], place.1, index[next.0], next.1, phrase)
       <==> RunsOverTexts(lines[place.0][place.1], lines[next.0][next.1], words, phrase.gaps)
  {
    var segment, other := index[place.0], index[next.0];
    var left, right := lines[place.0][place.1], lines[next.0][next.1];
    AnchorOfFirst(left);
    AnchorOfFirst(right);
    var last, first := Anchor(segment.last[place.1]), Anchor(other.first[next.1]);
    if last.Some? && first.Some? {
      forall chain
        ensures Crosses(LineWords(segment, place.1), last.value, LineWords(other, next.1), first.value, phrase.gaps,
                        chain)
           <==> IsOccurrence(left.text, last.value, right.text, first.value, words, phrase.gaps, chain)
      {
        SameOccurrence(segment, place.1, other, next.1, lines[place.0], lines[next.0], words, last.value, first.value,
                       phrase.gaps, chain);
      }
    }
  }

  lemma ContinuesIsRuns(index: seq<Segment>, phrase: Phrase, lines: seq<seq<Written>>, words: seq<iset<Text>>,
                        filter: Filter, place: Place)
    requires IndexesAll(index, phrase, lines, words) && ValidIndex(index, phrase)
    ensures ContinuesFrom(index, phrase, filter, place) <==> RunsFrom(index, phrase, lines, words, filter, place)
  {
    forall id: nat, next: Place
      ensures RunsOnto(index, phrase, place, next, id) <==> RunsFromOnto(index, phrase, lines, words, place, next, id)
    {
      if LivesAt(Columns(index), place, id) && LivesAt(Columns(index), next, id + 1) {
        RunsOverIsText(index, phrase, lines, words, place, next);
      }
    }
  }

  /** Over an index of lines that lose no reading, the search returns exactly the selected live lines
      from whose text the phrase runs onto the text of the line with the next id. */
  method EvaluateTexts(index: seq<Segment>, phrase: Phrase, filter: Filter, threads: nat,
                       ghost lines: seq<seq<Written>>,
                       ghost words: seq<iset<Text>>)
    returns (hits: seq<seq<nat>>)
    requires IndexesAll(index, phrase, lines, words) && ValidFilter(filter, index) && UniqueIds(Columns(index))
    ensures |hits| == |index| && forall s :: 0 <= s < |hits| ==> StrictlySorted(hits[s])
    ensures forall s, doc: nat ::
              0 <= s < |hits| ==> (doc in hits[s] <==> RunsFrom(index, phrase, lines, words, filter, (s, doc)))
  {
    IndexedIsValid(index, phrase, lines, words);
    hits := Evaluate(index, phrase, filter, threads);
    forall s, doc: nat | 0 <= s < |hits|
      ensures doc in hits[s] <==> RunsFrom(index, phrase, lines, words, filter, (s, doc))
    {
      ContinuesIsRuns(index, phrase, lines, words, filter, (s, doc));
    }
  }
}
