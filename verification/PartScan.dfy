/** Matching one part of a phrase over a segment, and over an index split into ranges. */
module PartScans {
  import opened Prelude
  import opened Postings
  import opened ChainSweeps
  import opened WordPositions
  import opened WordReaders
  import opened DocUnions
  import opened LineParts

  /** All of the words' positions, unless one of the words has none. */
  method ReadWords(readers: seq<WordPositions>, ghost lists: seq<seq<Cursor>>, doc: nat, ghost all: seq<seq<nat>>)
    returns (positions: Option<seq<seq<nat>>>)
    requires CanRead(readers, lists, doc) && doc < TERMINATED && AreWords(all, lists, doc)
    modifies readers
    ensures CanRead(readers, lists, doc)
    ensures positions.Some? ==> positions.value == all
    ensures positions.None? ==> exists w :: 0 <= w < |all| && all[w] == []
  {
    var read: seq<seq<nat>> := [];
    for w := 0 to |readers|
      invariant CanRead(readers, lists, doc)
      invariant read == all[..w]
    {
      var here := ReadWord(readers, lists, w, doc, all);
      if here == [] {
        return None;
      }
      assert all[..w + 1] == all[..w] + [here];
      read := read + [here];
    }
    assert all[..|all|] == all;
    positions := Some(read);
  }

  method SlackIn(sweep: ChainSweep, words: seq<seq<nat>>, gaps: seq<nat>, endsLine: bool, anchor: nat, allowance: nat)
    returns (slack: Option<nat>)
    requires words != [] && |gaps| + 1 == |words|
    requires forall w :: w in words ==> Sorted(w) && forall p :: p in w ==> p <= U32_MAX
    modifies sweep
    ensures IsSlack(words, gaps, endsLine, anchor, allowance, slack)
  {
    if endsLine {
      slack := EndAnchoredSlack(sweep, words, gaps, anchor, allowance);
      ghost var holds := (s: nat) => EndSlack(words, gaps, anchor, s);
      assert forall s: nat :: SlackFits(words, gaps, endsLine, anchor, s) == holds(s);
    } else {
      slack := StartAnchoredSlack(sweep, words, gaps, anchor, allowance);
      ghost var holds := (s: nat) => StartSlack(words, gaps, anchor, s);
      assert forall s: nat :: SlackFits(words, gaps, endsLine, anchor, s) == holds(s);
    }
  }

  lemma WordlessHasNoSlack(words: seq<seq<nat>>, gaps: seq<nat>, endsLine: bool, anchor: nat, allowance: nat, w: nat)
    requires w < |words| && words[w] == []
    ensures IsSlack(words, gaps, endsLine, anchor, allowance, None)
  {
    forall s: nat ensures !SlackFits(words, gaps, endsLine, anchor, s) {
      if SlackFits(words, gaps, endsLine, anchor, s) {
        FitsOnEveryWord(words, gaps, endsLine, anchor, s, w);
      }
    }
  }

  lemma WordsSmall(lists: seq<seq<Cursor>>, doc: nat)
    requires forall w :: 0 <= w < |lists| ==> WellListed(lists[w])
    ensures AreWords(WordsIn(lists, doc), lists, doc)
    ensures forall w :: w in WordsIn(lists, doc) ==> Sorted(w) && forall p :: p in w ==> p <= U32_MAX
  {
    var all := WordsIn(lists, doc);
    WordsInAreWords(lists, doc);
    forall i | 0 <= i < |all| ensures Sorted(all[i]) && forall p :: p in all[i] ==> p <= U32_MAX {
      assert IsWord(all[i], lists[i], doc);
      PositionsSmall(lists[i], doc);
      PositionsSorted(lists[i], doc);
    }
  }

  /** The slack of the part on a live line: by the words' positions, or by the edge term alone. */
  method SlackOn(segment: Segment, phrase: Phrase, part: Part, allowance: nat, readers: Option<seq<WordPositions>>,
                 sweep: ChainSweep, doc: nat)
    returns (slack: Option<nat>)
    requires ValidSegment(segment, phrase.Size()) && part.Of(phrase) && doc < |segment.lines|
    requires AnchorOf(segment, part, doc).Some?
    requires readers.Some? ==> CanRead(readers.value, segment.text[part.lo..part.hi], doc)
    requires readers.None? ==> part.hi == part.lo + 1 && Pending(EdgePostings(segment, part), doc)
    modifies sweep, if readers.Some? then readers.value else []
    ensures readers.Some? ==> CanRead(readers.value, segment.text[part.lo..part.hi], doc)
    ensures forall s: nat :: slack == Some(s) <==> LeastSlack(segment, phrase, part, doc, allowance, s)
  {
    match readers
    case None =>
      LoneWordAtEdge(segment, phrase, part, doc);
      slack := Some(0);
    case Some(open) =>
      slack := ReadSlack(sweep, open, segment.text[part.lo..part.hi], PartGaps(phrase, part), part.endsLine,
                         AnchorOf(segment, part, doc).value, allowance, doc);
      OneSlack(PartWords(segment, part, doc), PartGaps(phrase, part), part.endsLine, AnchorOf(segment, part, doc).value,
               allowance, slack);
  }

  /** Reads the words' positions, then sweeps them for the least slack. */
  method ReadSlack(sweep: ChainSweep, readers: seq<WordPositions>, ghost lists: seq<seq<Cursor>>, gaps: seq<nat>,
                   endsLine: bool,
                   anchor: nat, allowance: nat, doc: nat)
    returns (slack: Option<nat>)
    requires lists != [] && |gaps| + 1 == |lists|
    requires CanRead(readers, lists, doc) && doc < TERMINATED
    modifies sweep, readers
    ensures CanRead(readers, lists, doc)
    ensures IsSlack(WordsIn(lists, doc), gaps, endsLine, anchor, allowance, slack)
  {
    ghost var all := WordsIn(lists, doc);
    WordsSmall(lists, doc);
    var positions := ReadWords(readers, lists, doc, all);
    match positions
    case None =>
      ghost var w :| 0 <= w < |all| && all[w] == [];
      WordlessHasNoSlack(all, gaps, endsLine, anchor, allowance, w);
      slack := None;
    case Some(words) =>
      slack := SlackIn(sweep, words, gaps, endsLine, anchor, allowance);
  }

  /** `m` is what line `doc` gives, when it gives a match at all. */
  ghost predicate Gives(index: seq<Segment>, phrase: Phrase, part: Part, allowance: nat, ids: Option<set<nat>>, s: nat,
                        doc: nat, m: Option<PartMatch>)
    requires ValidIndex(index, phrase) && part.Of(phrase)
  {
    forall x :: m == Some(x) <==>
      x.segment == s && x.doc == doc && Found(index, phrase, part, allowance, x) && (ids.Some? ==> x.id in ids.value)
  }

  method MatchDoc(index: seq<Segment>, s: nat, phrase: Phrase, part: Part, allowance: nat, ids: Option<set<nat>>,
                  readers: Option<seq<WordPositions>>, sweep: ChainSweep, doc: nat)
    returns (m: Option<PartMatch>)
    requires ValidIndex(index, phrase) && part.Of(phrase) && s < |index| && doc < |index[s].lines|
    requires readers.Some? ==> CanRead(readers.value, index[s].text[part.lo..part.hi], doc)
    requires readers.None? ==> part.hi == part.lo + 1 && Pending(EdgePostings(index[s], part), doc)
    modifies sweep, if readers.Some? then readers.value else []
    ensures readers.Some? ==> CanRead(readers.value, index[s].text[part.lo..part.hi], doc)
    ensures Gives(index, phrase, part, allowance, ids, s, doc, m)
  {
    var segment := index[s];
    var line := segment.lines[doc];
    if !line.alive || (ids.Some? && (line.id.None? || line.id.value !in ids.value)) {
      return None;
    }
    if AnchorOf(segment, part, doc).None? {
      return None;
    }
    var slack := SlackOn(segment, phrase, part, allowance, readers, sweep, doc);
    if slack.None? || line.id.None? {
      return None;
    }
    m := Some(PartMatch(s, doc, line.id.value, slack.value));
  }

  // ── The candidates of a part ─────────────────────────────────────────────────

  /** The line may hold the part: by its edge term, its words, or the list given. */
  ghost predicate MayHold(segment: Segment, phrase: Phrase, part: Part, candidates: Candidates, doc: nat)
    requires ValidSegment(segment, phrase.Size()) && part.Of(phrase)
  {
    match candidates
    case OnEdge => Pending(EdgePostings(segment, part), doc)
    case ByDriver => forall w :: part.lo <= w < part.hi ==> Pending(segment.text[w], doc)
    case Listed(docs) => doc in docs
  }

  ghost predicate ListedIn(candidates: Candidates, n: nat) {
    candidates.Listed? ==>
      StrictlySorted(candidates.docs) && forall i :: 0 <= i < |candidates.docs| ==> candidates.docs[i] < n
  }

  lemma PendingBelow(postings: seq<Cursor>, n: nat, doc: nat)
    requires Listing(postings, n) && Pending(postings, doc)
    ensures doc < n
  {
  }

  /** The documents to look at: no line that may hold the part is left out. */
  method DocsOf(segment: Segment, phrase: Phrase, part: Part, candidates: Candidates, lo: nat,
                selected: Option<DocList>)
    returns (docs: seq<nat>)
    requires ValidSegment(segment, phrase.Size()) && part.Of(phrase) && |phrase.patterns| == phrase.Size()
    requires ListedIn(candidates, |segment.lines|) && (selected.Some? ==> selected.value.Valid())
    requires !candidates.ByDriver? ==> lo == 0
    ensures StrictlySorted(docs)
    ensures forall d :: d in docs ==> lo <= d < |segment.lines| && Chosen(selected, d)
    ensures !candidates.ByDriver? ==> forall d :: d in docs ==> MayHold(segment, phrase, part, candidates, d)
    ensures forall d: nat ::
              d >= lo && Chosen(selected, d) && MayHold(segment, phrase, part, candidates, d) ==> d in docs
  {
    match candidates
    case OnEdge =>
      var postings := EdgePostings(segment, part);
      if selected.Some? {
        docs := CandidateDocs(postings, lo, selected);
      } else {
        docs := AllDocs(postings);
      }
      forall d | d in docs ensures d < |segment.lines| {
        PendingBelow(postings, |segment.lines|, d);
      }
    case ByDriver =>
      var w := Driver(segment, phrase, part);
      docs := CandidateDocs(segment.text[w], lo, selected);
      forall d | d in docs ensures d < |segment.lines| {
        PendingBelow(segment.text[w], |segment.lines|, d);
      }
    case Listed(listed) =>
      docs := SelectedOf(listed, selected);
  }

  /** The selection of a segment from `lo` on; `None` when it selects nothing in `lo..hi`. */
  method SelectionFrom(docs: seq<nat>, lo: nat, hi: nat) returns (selected: Option<DocList>)
    requires DocList(docs, 0).Valid()
    ensures selected.None? ==> forall d :: d in docs ==> !(lo <= d < hi)
    ensures selected.Some? ==>
              selected.value.Valid() && forall d: nat :: d >= lo ==> (Selects(selected.value, d) <==> d in docs)
  {
    var list := DocList(docs, 0);
    forall d: nat ensures Selects(list, d) <==> d in docs {
      if d in docs {
        var i :| 0 <= i < |docs| && docs[i] == d;
        assert list.docs[i] == d;
      }
    }
    if list.Doc() < lo {
      SelectedSeek(list, lo);
      list := list.Seek(lo);
    }
    if list.Doc() >= hi {
      forall d | d in docs ensures !(lo <= d < hi) {
        if d >= lo {
          SelectedFirst(list, d);
        }
      }
      return None;
    }
    selected := Some(list);
  }

  /** Each of the part's words occurs in a matching line. */
  lemma MatchIsPending(index: seq<Segment>, phrase: Phrase, part: Part, allowance: nat, m: PartMatch, w: nat)
    requires ValidIndex(index, phrase) && part.Of(phrase) && Found(index, phrase, part, allowance, m)
    requires part.lo <= w < part.hi
    ensures Pending(index[m.segment].text[w], m.doc)
  {
    var segment := index[m.segment];
    assert Listing(segment.text[w], |segment.lines|);
    LiesOnEveryWord(segment, phrase, part, m.doc, m.slack, w);
    PositionsArePending(segment.text[w], m.doc);
  }

  /** A match is a candidate. */
  lemma FoundMayHold(index: seq<Segment>, phrase: Phrase, part: Part, allowance: nat, candidates: Candidates,
                     m: PartMatch)
    requires ValidIndex(index, phrase) && part.Of(phrase) && Found(index, phrase, part, allowance, m)
    requires candidates.OnEdge? ==> allowance == 0
    requires candidates.Listed? ==> m.doc in candidates.docs
    ensures MayHold(index[m.segment], phrase, part, candidates, m.doc)
  {
    var segment := index[m.segment];
    match candidates
    case OnEdge =>
      EdgeMissesNothing(segment, phrase, part, m.doc);
    case ByDriver =>
      forall w | part.lo <= w < part.hi ensures Pending(segment.text[w], m.doc) {
        MatchIsPending(index, phrase, part, allowance, m, w);
      }
    case Listed(_) =>
  }

  /** One reader for each word, before any document; none at all if a word lacks postings. */
  method OpenPart(segment: Segment, phrase: Phrase, part: Part) returns (readers: Option<seq<WordPositions>>)
    requires ValidSegment(segment, phrase.Size()) && part.Of(phrase)
    ensures readers.Some? ==> fresh(readers.value) && CanRead(readers.value, segment.text[part.lo..part.hi], 0)
    ensures readers.None? ==> exists w :: part.lo <= w < part.hi && segment.text[w] == []
  {
    for w := part.lo to part.hi
      invariant forall v :: part.lo <= v < w ==> segment.text[v] != []
    {
      if segment.text[w] == [] {
        return None;
      }
    }
    var lists := segment.text[part.lo..part.hi];
    forall w | 0 <= w < |lists| ensures Listing(lists[w], |segment.lines|) {
    }
    var open := OpenAll(lists);
    readers := Some(open);
  }

  lemma NoTermNoMatch(index: seq<Segment>, phrase: Phrase, part: Part, allowance: nat, m: PartMatch, w: nat)
    requires ValidIndex(index, phrase) && part.Of(phrase) && m.segment < |index|
    requires part.lo <= w < part.hi && index[m.segment].text[w] == []
    ensures !Found(index, phrase, part, allowance, m)
  {
    if Found(index, phrase, part, allowance, m) {
      MatchIsPending(index, phrase, part, allowance, m, w);
    }
  }

  // ── A range of a segment ─────────────────────────────────────────────────────

  lemma CanReadLater(readers: seq<WordPositions>, lists: seq<seq<Cursor>>, doc: nat, later: nat)
    requires CanRead(readers, lists, doc) && doc <= later
    ensures CanRead(readers, lists, later)
  {
    forall w | 0 <= w < |readers| ensures Reads(readers[w], lists[w], later) {
      assert Reads(readers[w], lists[w], doc);
    }
  }

  ghost predicate IsMatchOf(index: seq<Segment>, phrase: Phrase, part: Part, allowance: nat, ids: Option<set<nat>>,
                            s: nat, m: PartMatch)
    requires ValidIndex(index, phrase) && part.Of(phrase)
  {
    m.segment == s && Found(index, phrase, part, allowance, m) && (ids.Some? ==> m.id in ids.value)
  }

  /** `out` are the matches on the lines `docs`. */
  ghost predicate MatchesOn(index: seq<Segment>, phrase: Phrase, part: Part, allowance: nat, ids: Option<set<nat>>,
                            s: nat,
                            docs: seq<nat>, out: seq<PartMatch>)
    requires ValidIndex(index, phrase) && part.Of(phrase)
  {
    forall m :: m in out <==> m.doc in docs && IsMatchOf(index, phrase, part, allowance, ids, s, m)
  }

  lemma OneMoreDoc(index: seq<Segment>, phrase: Phrase, part: Part, allowance: nat, ids: Option<set<nat>>, s: nat,
                   docs: seq<nat>, i: nat, out: seq<PartMatch>, m: Option<PartMatch>)
    requires ValidIndex(index, phrase) && part.Of(phrase) && i < |docs|
    requires MatchesOn(index, phrase, part, allowance, ids, s, docs[..i], out)
    requires Gives(index, phrase, part, allowance, ids, s, docs[i], m)
    ensures MatchesOn(index, phrase, part, allowance, ids, s, docs[..i + 1], out + if m.Some? then [m.value] else [])
  {
    assert docs[..i + 1] == docs[..i] + [docs[i]];
  }

  ghost function ReadBefore(docs: seq<nat>, i: nat): nat
    requires i <= |docs|
  {
    if i == 0 then 0 else docs[i - 1]
  }

  method MatchNext(index: seq<Segment>, s: nat, phrase: Phrase, part: Part, allowance: nat, ids: Option<set<nat>>,
                   readers: Option<seq<WordPositions>>, sweep: ChainSweep, docs: seq<nat>, i: nat,
                   before: seq<PartMatch>)
    returns (out: seq<PartMatch>)
    requires ValidIndex(index, phrase) && part.Of(phrase) && s < |index|
    requires i < |docs| && docs[i] < |index[s].lines| && ReadBefore(docs, i) <= docs[i]
    requires readers.Some? ==> CanRead(readers.value, index[s].text[part.lo..part.hi], ReadBefore(docs, i))
    requires readers.None? ==> part.hi == part.lo + 1 && Pending(EdgePostings(index[s], part), docs[i])
    requires MatchesOn(index, phrase, part, allowance, ids, s, docs[..i], before)
    modifies sweep, if readers.Some? then readers.value else []
    ensures readers.Some? ==> CanRead(readers.value, index[s].text[part.lo..part.hi], ReadBefore(docs, i + 1))
    ensures MatchesOn(index, phrase, part, allowance, ids, s, docs[..i + 1], out)
  {
    if readers.Some? {
      CanReadLater(readers.value, index[s].text[part.lo..part.hi], ReadBefore(docs, i), docs[i]);
    }
    var m := MatchDoc(index, s, phrase, part, allowance, ids, readers, sweep, docs[i]);
    OneMoreDoc(index, phrase, part, allowance, ids, s, docs, i, before, m);
    out := before + if m.Some? then [m.value] else [];
  }

  /** Looks at each candidate below `hi`, reading positions forward only. */
  method MatchDocs(index: seq<Segment>, s: nat, phrase: Phrase, part: Part, allowance: nat, ids: Option<set<nat>>,
                   readers: Option<seq<WordPositions>>, sweep: ChainSweep, docs: seq<nat>, hi: nat)
    returns (out: seq<PartMatch>, ghost n: nat)
    requires ValidIndex(index, phrase) && part.Of(phrase) && s < |index|
    requires StrictlySorted(docs) && forall i :: 0 <= i < |docs| ==> docs[i] < |index[s].lines|
    requires readers.Some? ==> CanRead(readers.value, index[s].text[part.lo..part.hi], 0)
    requires readers.None? ==>
               part.hi == part.lo + 1 && forall i :: 0 <= i < |docs| ==> Pending(EdgePostings(index[s], part), docs[i])
    modifies sweep, if readers.Some? then readers.value else []
    ensures n <= |docs| && MatchesOn(index, phrase, part, allowance, ids, s, docs[..n], out)
    ensures (forall i :: 0 <= i < n ==> docs[i] < hi) && (forall i :: n <= i < |docs| ==> hi <= docs[i])
  {
    ghost var lists := index[s].text[part.lo..part.hi];
    out, n := [], 0;
    var i := 0;
    while i < |docs| && docs[i] < hi
      invariant i == n <= |docs|
      invariant readers.Some? ==> CanRead(readers.value, lists, ReadBefore(docs, i))
      invariant forall j :: 0 <= j < i ==> docs[j] < hi
      invariant MatchesOn(index, phrase, part, allowance, ids, s, docs[..i], out)
    {
      out := MatchNext(index, s, phrase, part, allowance, ids, readers, sweep, docs, i, out);
      i, n := i + 1, n + 1;
    }
  }

  ghost predicate InRange(candidates: Candidates, s: nat, lo: nat, hi: nat, m: PartMatch) {
    m.segment == s && lo <= m.doc < hi && (candidates.Listed? ==> m.doc in candidates.docs)
  }

  /** `out` holds exactly the wanted matches of the segment that are in range, whichever way the
      candidates are found. */
  method MatchPart(index: seq<Segment>, s: nat, phrase: Phrase, part: Part, allowance: nat, candidates: Candidates,
                   lo: nat, hi: nat, filter: Filter, ids: Option<set<nat>>)
    returns (out: seq<PartMatch>)
    requires ValidIndex(index, phrase) && part.Of(phrase) && s < |index| && ValidFilter(filter, index)
    requires ListedIn(candidates, |index[s].lines|)
    requires candidates.OnEdge? ==> allowance == 0
    requires !candidates.ByDriver? ==> lo == 0
    ensures forall m ::
              m in out <==> Wanted(index, phrase, part, allowance, filter, ids, m) && InRange(candidates, s, lo, hi, m)
  {
    var segment := index[s];
    var selected := None;
    if filter.Some? {
      selected := SelectionFrom(filter.value[s], lo, hi);
      if selected.None? {
        return [];
      }
    }
    // `LoneWordAtEdge`: no reader is needed.
    var needsPositions := part.hi - part.lo > 1 || allowance > 0 || !candidates.OnEdge?;
    var docs := DocsOf(segment, phrase, part, candidates, lo, selected);
    var readers := None;
    if needsPositions {
      readers := OpenPart(segment, phrase, part);
      if readers.None? {
        forall m: PartMatch | m.segment == s ensures !Found(index, phrase, part, allowance, m) {
          var w :| part.lo <= w < part.hi && segment.text[w] == [];
          NoTermNoMatch(index, phrase, part, allowance, m, w);
        }
        return [];
      }
    }
    var sweep := new ChainSweep();
    ghost var n;
    assert forall i :: 0 <= i < |docs| ==> docs[i] in docs;
    out, n := MatchDocs(index, s, phrase, part, allowance, ids, readers, sweep, docs, hi);
    forall m: PartMatch
      ensures m in out <==> Wanted(index, phrase, part, allowance, filter, ids, m) && InRange(candidates, s, lo, hi, m)
    {
      CandidatesSuffice(index, s, phrase, part, allowance, candidates, lo, hi, filter, selected, ids, docs, n, m);
    }
  }

  /** The matches on the documents looked at are the matches asked for. */
  lemma CandidatesSuffice(index: seq<Segment>, s: nat, phrase: Phrase, part: Part, allowance: nat,
                          candidates: Candidates,
                          lo: nat, hi: nat, filter: Filter, selected: Option<DocList>, ids: Option<set<nat>>,
                          docs: seq<nat>, n: nat, m: PartMatch)
    requires ValidIndex(index, phrase) && part.Of(phrase) && s < |index| && ValidFilter(filter, index)
    requires candidates.OnEdge? ==> allowance == 0
    requires filter.Some? == selected.Some?
    requires filter.Some? ==> forall d: nat :: d >= lo ==> (Selects(selected.value, d) <==> d in filter.value[s])
    requires forall d :: d in docs ==> lo <= d < |index[s].lines| && Chosen(selected, d)
    requires !candidates.ByDriver? ==> forall d :: d in docs ==> MayHold(index[s], phrase, part, candidates, d)
    requires forall d: nat ::
               d >= lo && Chosen(selected, d) && MayHold(index[s], phrase, part, candidates, d) ==> d in docs
    requires n <= |docs| && (forall i :: 0 <= i < n ==> docs[i] < hi) && (forall i :: n <= i < |docs| ==> hi <= docs[i])
    ensures m.doc in docs[..n] && IsMatchOf(index, phrase, part, allowance, ids, s, m)
       <==> Wanted(index, phrase, part, allowance, filter, ids, m) && InRange(candidates, s, lo, hi, m)
  {
    if m.doc in docs[..n] && IsMatchOf(index, phrase, part, allowance, ids, s, m) {
      assert m.doc in docs;
    }
    if Wanted(index, phrase, part, allowance, filter, ids, m) && InRange(candidates, s, lo, hi, m) {
      FoundMayHold(index, phrase, part, allowance, candidates, m);
      var i :| 0 <= i < |docs| && docs[i] == m.doc;
      assert docs[..n][i] == m.doc;
    }
  }
}
