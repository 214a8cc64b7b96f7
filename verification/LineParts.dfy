/** One part of a phrase on one line: the lines of an index where the part ends the line, or
    starts it, whichever postings the search reads first. */
module LineParts {
  import opened Prelude
  import opened Postings
  import opened ChainSweeps
  import opened WordPositions
  import opened WordReaders
  import opened DocUnions
  import opened IdLookup

  // ── The index and the phrase ─────────────────────────────────────────────────

  /** A segment: its lines, the columns of their edges, and for each word of the phrase the
      postings of the terms it matches in the text and in the two edge vocabularies. */
  datatype Segment = Segment(
    lines: seq<Line>, first: seq<Option<nat>>, last: seq<Option<nat>>,
    text: seq<seq<Cursor>>, starts: seq<seq<Cursor>>, ends: seq<seq<Cursor>>)

  /** The gap allowed after each word but the last, and which words are patterns. */
  datatype Phrase = Phrase(gaps: seq<nat>, patterns: seq<bool>) {
    function Size(): nat {
      |gaps| + 1
    }
  }

  /** Words `lo..hi` of a phrase, to end a line or to start one. */
  datatype Part = Part(lo: nat, hi: nat, endsLine: bool) {
    predicate Of(phrase: Phrase) {
      lo < hi <= phrase.Size()
    }

    /** The word at the part's line edge. */
    function Boundary(): nat
      requires lo < hi
    {
      if endsLine then hi - 1 else lo
    }
  }

  datatype Candidates =
      /** By the edge postings of `Boundary()`. */
    | OnEdge
      /** By the text postings of the word `Driver` picks. */
    | ByDriver
      /** These lines, ascending. */
    | Listed(docs: seq<nat>)

  datatype PartMatch = PartMatch(segment: nat, doc: nat, id: nat, slack: nat)

  /** The position an edge column stores: one less than its value, and none for 0. */
  function Anchor(value: Option<nat>): Option<nat> {
    if value.Some? && value.value > 0 then Some((value.value - 1) % (U32_MAX + 1)) else None
  }

  ghost predicate Listing(postings: seq<Cursor>, n: nat) {
    && WellListed(postings)
    && (forall i :: 0 <= i < |postings| ==> postings[i].at == 0)
    && (forall i, j :: 0 <= i < |postings| && 0 <= j < |postings[i].docs| ==> postings[i].docs[j] < n)
  }

  ghost predicate AllListings(words: seq<seq<Cursor>>, n: nat) {
    forall w :: 0 <= w < |words| ==> Listing(words[w], n)
  }

  /** The index holds an edge term for a word exactly where the line's edge is one of its positions. */
  ghost predicate EdgeAt(edges: seq<Cursor>, text: seq<Cursor>, anchor: Option<nat>, doc: nat) {
    WellListed(text) && (Pending(edges, doc) <==> anchor.Some? && anchor.value in SortedPositions(text, doc))
  }

  ghost predicate EdgesOf(edges: seq<Cursor>, text: seq<Cursor>, column: seq<Option<nat>>) {
    forall doc {:trigger EdgeAt(edges, text, Anchor(column[doc]), doc)} :: 0 <= doc < |column| ==>
      EdgeAt(edges, text, Anchor(column[doc]), doc)
  }

  ghost predicate ValidSegment(segment: Segment, words: nat) {
    && |segment.first| == |segment.last| == |segment.lines| < TERMINATED
    && |segment.text| == |segment.starts| == |segment.ends| == words
    && AllListings(segment.text, |segment.lines|)
    && AllListings(segment.starts, |segment.lines|)
    && AllListings(segment.ends, |segment.lines|)
    && (forall w :: 0 <= w < words ==> EdgesOf(segment.starts[w], segment.text[w], segment.first))
    && (forall w :: 0 <= w < words ==> EdgesOf(segment.ends[w], segment.text[w], segment.last))
  }

  ghost predicate ValidIndex(index: seq<Segment>, phrase: Phrase) {
    |phrase.patterns| == phrase.Size() && forall s :: 0 <= s < |index| ==> ValidSegment(index[s], phrase.Size())
  }

  /** The documents a filter selects in each segment, ascending. */
  type Filter = Option<seq<seq<nat>>>

  ghost predicate ValidFilter(filter: Filter, index: seq<Segment>) {
    filter.Some? ==>
      && |filter.value| == |index|
      && forall s :: 0 <= s < |index| ==> DocList(filter.value[s], 0).Valid()
  }

  ghost predicate Passes(filter: Filter, s: nat, doc: nat) {
    filter.Some? ==> s < |filter.value| && doc in filter.value[s]
  }

  // ── What a match is ──────────────────────────────────────────────────────────

  ghost function PartWords(segment: Segment, part: Part, doc: nat): seq<seq<nat>>
    requires part.lo <= part.hi <= |segment.text| && AllListings(segment.text, |segment.lines|)
  {
    WordsIn(segment.text[part.lo..part.hi], doc)
  }

  function PartGaps(phrase: Phrase, part: Part): seq<nat>
    requires part.Of(phrase)
  {
    phrase.gaps[part.lo..part.hi - 1]
  }

  function AnchorOf(segment: Segment, part: Part, doc: nat): Option<nat>
    requires doc < |segment.first| && doc < |segment.last|
  {
    Anchor(if part.endsLine then segment.last[doc] else segment.first[doc])
  }

  ghost predicate SlackFits(words: seq<seq<nat>>, gaps: seq<nat>, endsLine: bool, anchor: nat, slack: nat) {
    if endsLine then EndSlack(words, gaps, anchor, slack) else StartSlack(words, gaps, anchor, slack)
  }

  /** The part lies in the line with `slack` words between it and the line's edge. */
  ghost predicate LiesAt(segment: Segment, phrase: Phrase, part: Part, doc: nat, slack: nat)
    requires ValidSegment(segment, phrase.Size()) && part.Of(phrase)
  {
    && doc < |segment.lines|
    && AnchorOf(segment, part, doc).Some?
    && SlackFits(PartWords(segment, part, doc), PartGaps(phrase, part), part.endsLine,
                 AnchorOf(segment, part, doc).value, slack)
  }

  /** `slack` is the least that fits, or none when none up to `allowance` does. */
  ghost predicate IsSlack(words: seq<seq<nat>>, gaps: seq<nat>, endsLine: bool, anchor: nat, allowance: nat,
                          slack: Option<nat>)
  {
    match slack
    case None => forall s: nat :: SlackFits(words, gaps, endsLine, anchor, s) ==> s > allowance
    case Some(s) =>
      && s <= allowance && SlackFits(words, gaps, endsLine, anchor, s)
      && forall t: nat :: SlackFits(words, gaps, endsLine, anchor, t) ==> s <= t
  }

  lemma OneSlack(words: seq<seq<nat>>, gaps: seq<nat>, endsLine: bool, anchor: nat, allowance: nat, slack: Option<nat>)
    requires IsSlack(words, gaps, endsLine, anchor, allowance, slack)
    ensures forall s: nat :: slack == Some(s) <==> IsSlack(words, gaps, endsLine, anchor, allowance, Some(s))
  {
  }

  ghost predicate LeastSlack(segment: Segment, phrase: Phrase, part: Part, doc: nat, allowance: nat, slack: nat)
    requires ValidSegment(segment, phrase.Size()) && part.Of(phrase)
  {
    && doc < |segment.lines|
    && AnchorOf(segment, part, doc).Some?
    && IsSlack(PartWords(segment, part, doc), PartGaps(phrase, part), part.endsLine, AnchorOf(segment, part, doc).value,
               allowance, Some(slack))
  }

  /** A live line where the part lies nearest to its edge with `m.slack` words between. */
  ghost predicate Found(index: seq<Segment>, phrase: Phrase, part: Part, allowance: nat, m: PartMatch)
    requires ValidIndex(index, phrase) && part.Of(phrase)
  {
    && m.segment < |index|
    && IsLive(index[m.segment].lines, m.doc, m.id)
    && LeastSlack(index[m.segment], phrase, part, m.doc, allowance, m.slack)
  }

  /** ... that the filter and the wanted ids let through. */
  ghost predicate Wanted(index: seq<Segment>, phrase: Phrase, part: Part, allowance: nat, filter: Filter,
                         ids: Option<set<nat>>, m: PartMatch)
    requires ValidIndex(index, phrase) && part.Of(phrase)
  {
    && Found(index, phrase, part, allowance, m)
    && Passes(filter, m.segment, m.doc)
    && (ids.Some? ==> m.id in ids.value)
  }

  // ── No candidate is missed ───────────────────────────────────────────────────

  lemma {:induction false} NoPostingsNoPositions(postings: seq<Cursor>, doc: nat, n: nat)
    requires AllValid(postings) && n <= |postings|
    requires forall i :: 0 <= i < |postings| ==> postings[i].at == 0
    requires !Pending(postings, doc)
    ensures Flat(postings, doc, n) == []
  {
    if n > 0 {
      NoPostingsNoPositions(postings, doc, n - 1);
      assert !IsAhead(postings[n - 1], doc);
    }
  }

  lemma PositionsArePending(postings: seq<Cursor>, doc: nat)
    requires AllValid(postings) && forall i :: 0 <= i < |postings| ==> postings[i].at == 0
    ensures Pending(postings, doc) || SortedPositions(postings, doc) == []
  {
    if !Pending(postings, doc) {
      NoPostingsNoPositions(postings, doc, |postings|);
    }
  }

  lemma FitsOnEveryWord(words: seq<seq<nat>>, gaps: seq<nat>, endsLine: bool, anchor: nat, slack: nat, i: nat)
    requires SlackFits(words, gaps, endsLine, anchor, slack) && i < |words|
    ensures words[i] != []
    ensures slack == 0 && i == (if endsLine then |words| - 1 else 0) ==> anchor in words[i]
  {
    if endsLine {
      var chain :| IsChain(words, gaps, |words|, chain) && chain != [] && chain[|chain| - 1] == anchor - slack;
      assert chain[i] in words[i];
    } else {
      var chain :| IsChain(words, gaps, |words|, chain) && chain != [] && chain[0] == anchor + slack;
      assert chain[i] in words[i];
    }
  }

  lemma PartWord(text: seq<seq<Cursor>>, lo: nat, hi: nat, doc: nat, w: nat)
    requires lo <= w < hi <= |text| && forall v :: 0 <= v < |text| ==> WellListed(text[v])
    ensures WordsIn(text[lo..hi], doc)[w - lo] == SortedPositions(text[w], doc)
  {
    var lists := text[lo..hi];
    WordsInAreWords(lists, doc);
    assert IsWord(WordsIn(lists, doc)[w - lo], lists[w - lo], doc);
  }

  /** A part that lies in a line has a position there for each of its words. */
  lemma LiesOnEveryWord(segment: Segment, phrase: Phrase, part: Part, doc: nat, slack: nat, w: nat)
    requires ValidSegment(segment, phrase.Size()) && part.Of(phrase)
    requires LiesAt(segment, phrase, part, doc, slack) && part.lo <= w < part.hi
    ensures SortedPositions(segment.text[w], doc) != []
    ensures slack == 0 && w == part.Boundary() ==>
              AnchorOf(segment, part, doc).value in SortedPositions(segment.text[w], doc)
  {
    PartWord(segment.text, part.lo, part.hi, doc, w);
    FitsOnEveryWord(PartWords(segment, part, doc), PartGaps(phrase, part), part.endsLine,
                    AnchorOf(segment, part, doc).value, slack, w - part.lo);
  }

  /** The edge terms find every line where the part touches the edge. */
  lemma EdgeMissesNothing(segment: Segment, phrase: Phrase, part: Part, doc: nat)
    requires ValidSegment(segment, phrase.Size()) && part.Of(phrase)
    requires LiesAt(segment, phrase, part, doc, 0)
    ensures Pending(EdgePostings(segment, part), doc)
  {
    var w := part.Boundary();
    LiesOnEveryWord(segment, phrase, part, doc, 0, w);
    if part.endsLine {
      assert EdgesOf(segment.ends[w], segment.text[w], segment.last);
      assert EdgeAt(segment.ends[w], segment.text[w], Anchor(segment.last[doc]), doc);
    } else {
      assert EdgesOf(segment.starts[w], segment.text[w], segment.first);
      assert EdgeAt(segment.starts[w], segment.text[w], Anchor(segment.first[doc]), doc);
    }
  }

  /** A lone word lies at the edge wherever its edge term does: no position is read. */
  lemma LoneWordAtEdge(segment: Segment, phrase: Phrase, part: Part, doc: nat)
    requires ValidSegment(segment, phrase.Size()) && part.Of(phrase) && part.hi == part.lo + 1
    requires doc < |segment.lines| && Pending(EdgePostings(segment, part), doc)
    ensures LiesAt(segment, phrase, part, doc, 0)
  {
    var w := part.lo;
    var words := PartWords(segment, part, doc);
    assert words == [SortedPositions(segment.text[w], doc)];
    var anchor := if part.endsLine then Anchor(segment.last[doc]) else Anchor(segment.first[doc]);
    if part.endsLine {
      assert EdgesOf(segment.ends[w], segment.text[w], segment.last);
      assert EdgeAt(segment.ends[w], segment.text[w], Anchor(segment.last[doc]), doc);
    } else {
      assert EdgesOf(segment.starts[w], segment.text[w], segment.first);
      assert EdgeAt(segment.starts[w], segment.text[w], Anchor(segment.first[doc]), doc);
    }
    assert IsChain(words, PartGaps(phrase, part), 1, [anchor.value]);
  }

  function EdgePostings(segment: Segment, part: Part): seq<Cursor>
    requires part.lo < part.hi <= |segment.ends| && |segment.starts| == |segment.ends|
  {
    if part.endsLine then segment.ends[part.Boundary()] else segment.starts[part.Boundary()]
  }

  // ── Candidate documents ──────────────────────────────────────────────────────

  /** Terms counted when a pattern's frequency is estimated. */
  const SCORE_TERMS_PER_SEGMENT: nat := 256

  /** Documents of the first `n` terms, summed. */
  function FreqTo(postings: seq<Cursor>, n: nat): nat
    requires n <= |postings|
  {
    if n == 0 then 0 else FreqTo(postings, n - 1) + |postings[n - 1].docs|
  }

  function DocFreq(postings: seq<Cursor>, pattern: bool): nat {
    FreqTo(postings, if pattern then Min(|postings|, SCORE_TERMS_PER_SEGMENT) else |postings|)
  }

  /** A word of the part that no other is less frequent than. */
  method Driver(segment: Segment, phrase: Phrase, part: Part) returns (w: nat)
    requires ValidSegment(segment, phrase.Size()) && part.Of(phrase) && |phrase.patterns| == phrase.Size()
    ensures part.lo <= w < part.hi
    ensures forall v :: part.lo <= v < part.hi ==>
              DocFreq(segment.text[w], phrase.patterns[w]) <= DocFreq(segment.text[v], phrase.patterns[v])
  {
    w := part.lo;
    for v := part.lo + 1 to part.hi
      invariant part.lo <= w < v
      invariant forall u :: part.lo <= u < v ==>
                  DocFreq(segment.text[w], phrase.patterns[w]) <= DocFreq(segment.text[u], phrase.patterns[u])
    {
      if DocFreq(segment.text[v], phrase.patterns[v]) < DocFreq(segment.text[w], phrase.patterns[w]) {
        w := v;
      }
    }
  }

  ghost predicate Chosen(selected: Option<DocList>, doc: nat) {
    selected.Some? ==> Selects(selected.value, doc)
  }

  /** The documents of `postings` from `lo` on, intersected with a selection as both are read. */
  method CandidateDocs(postings: seq<Cursor>, lo: nat, selected: Option<DocList>) returns (docs: seq<nat>)
    requires AllValid(postings) && (selected.Some? ==> selected.value.Valid())
    ensures StrictlySorted(docs)
    ensures forall d: nat :: d in docs <==> d >= lo && Pending(postings, d) && Chosen(selected, d)
  {
    var union := new DocUnion(postings);
    var _ := union.Seek(lo);
    match selected
    case Some(list) =>
      var both := new SelectedDocs(list, union);
      ghost var all := both.Left();
      docs := both.Collect();
      forall d: nat ensures d in docs <==> d in all {
        assert (iset x | x in docs) == all;
        assert d in (iset x | x in docs) <==> d in docs;
      }
    case None =>
      docs := Drain(union);
  }

  /** Everything a union has left. */
  method Drain(union: DocUnion) returns (docs: seq<nat>)
    requires union.Valid()
    modifies union
    ensures StrictlySorted(docs)
    ensures forall d: nat :: d in docs <==> old(union.ToCome(d))
  {
    docs := [];
    var next := union.Next();
    while next.Some?
      invariant union.Valid()
      invariant StrictlySorted(docs)
      invariant forall d: nat ::
                  old(union.ToCome(d)) <==> d in docs || next == Some(d) || (next.Some? && union.ToCome(d))
      invariant next.Some? ==> next.value < TERMINATED && (forall d :: d in docs ==> d < next.value)
      invariant next.Some? ==> forall d: nat :: union.ToCome(d) ==> next.value < d
      decreases if next.Some? then TERMINATED - next.value else -1
    {
      var doc := next.value;
      assert forall i :: 0 <= i < |docs| ==> docs[i] in docs;
      docs := docs + [doc];
      next := union.Next();
    }
  }

  /** The bulk scan of an edge vocabulary: every document of every list, then sorted. */
  method AllDocs(postings: seq<Cursor>) returns (docs: seq<nat>)
    requires AllValid(postings) && forall i :: 0 <= i < |postings| ==> postings[i].at == 0
    ensures StrictlySorted(docs)
    ensures forall d: nat :: d in docs <==> Pending(postings, d)
  {
    var all: seq<nat> := [];
    for i := 0 to |postings|
      invariant forall d: nat :: d in all <==> Pending(postings[..i], d)
    {
      PendingInOneMore(postings, i);
      all := all + postings[i].docs;
    }
    assert postings[..|postings|] == postings;
    docs := SortedSet(all);
  }

  lemma PendingInOneMore(postings: seq<Cursor>, i: nat)
    requires i < |postings| && postings[i].at == 0
    ensures forall d: nat :: Pending(postings[..i + 1], d) <==> Pending(postings[..i], d) || d in postings[i].docs
  {
    forall d: nat ensures Pending(postings[..i + 1], d) <==> Pending(postings[..i], d) || d in postings[i].docs {
      if Pending(postings[..i], d) {
        var j :| 0 <= j < i && IsAhead(postings[j], d);
        assert postings[..i + 1][j] == postings[j];
      }
      if d in postings[i].docs {
        assert IsAhead(postings[i], d);
        assert postings[..i + 1][i] == postings[i];
      }
      if Pending(postings[..i + 1], d) {
        var j :| 0 <= j < i + 1 && IsAhead(postings[..i + 1][j], d);
        assert j < i ==> IsAhead(postings[..i][j], d);
      }
    }
  }

  /** The listed documents that a selection holds, sought forward. */
  method SelectedOf(listed: seq<nat>, selected: Option<DocList>) returns (docs: seq<nat>)
    requires StrictlySorted(listed) && (forall i :: 0 <= i < |listed| ==> listed[i] < TERMINATED)
    requires selected.Some? ==> selected.value.Valid()
    ensures StrictlySorted(docs)
    ensures forall d: nat :: d in docs <==> d in listed && Chosen(selected, d)
  {
    if selected.None? {
      return listed;
    }
    docs := [];
    var list := selected.value;
    for i := 0 to |listed|
      invariant list.Valid() && StrictlySorted(docs)
      invariant forall d: nat :: d in docs <==> d in listed[..i] && Selects(selected.value, d)
      invariant forall d: nat ::
                  (forall j :: 0 <= j < i ==> listed[j] < d) ==> (Selects(list, d) <==> Selects(selected.value, d))
    {
      var doc := listed[i];
      assert listed[..i + 1] == listed[..i] + [doc];
      assert Selects(list, doc) <==> Selects(selected.value, doc);
      SelectedSeek(list, doc);
      SeekSkipsOnlyBelow(list, doc);
      list := if list.Doc() < doc then list.Seek(doc) else list;
      if list.Doc() == doc {
        assert Selects(list, doc);
        assert forall j :: 0 <= j < |docs| ==> docs[j] in docs;
        docs := docs + [doc];
      }
    }
    assert listed[..|listed|] == listed;
  }
}
