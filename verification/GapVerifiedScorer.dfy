/** A candidate document set, filtered to the documents whose words really lie as the query
    demands. */
module FilteredDocs {
  import opened Prelude
  import opened Postings

  /** The accepted ones among the first `n` documents. */
  ghost function Accepted(docs: seq<nat>, accept: nat -> bool, n: nat): seq<nat>
    requires n <= |docs|
  {
    if n == 0 then [] else Accepted(docs, accept, n - 1) + if accept(docs[n - 1]) then [docs[n - 1]] else []
  }

  /** What a reader standing at `at` of `docs` shows of the accepted documents. */
  ghost function View(list: DocList, accept: nat -> bool): DocList
    requires list.Valid()
  {
    DocList(Accepted(list.docs, accept, |list.docs|), |Accepted(list.docs, accept, list.at)|)
  }

  lemma {:induction false} AcceptedMembers(docs: seq<nat>, accept: nat -> bool, n: nat)
    requires n <= |docs|
    ensures forall d :: d in Accepted(docs, accept, n) <==> d in docs[..n] && accept(d)
  {
    if n > 0 {
      AcceptedMembers(docs, accept, n - 1);
      assert docs[..n] == docs[..n - 1] + [docs[n - 1]];
    }
  }

  lemma {:induction false} AcceptedSorted(docs: seq<nat>, accept: nat -> bool, n: nat)
    requires n <= |docs| && StrictlySorted(docs)
    ensures StrictlySorted(Accepted(docs, accept, n))
    ensures forall d :: d in Accepted(docs, accept, n) && n < |docs| ==> d < docs[n]
  {
    AcceptedMembers(docs, accept, n);
    if n > 0 {
      AcceptedSorted(docs, accept, n - 1);
      var front := Accepted(docs, accept, n - 1);
      assert forall i :: 0 <= i < |front| ==> front[i] in front;
    }
  }

  lemma {:induction false} AcceptedPrefix(docs: seq<nat>, accept: nat -> bool, n: nat, m: nat)
    requires n <= m <= |docs|
    ensures Accepted(docs, accept, n) <= Accepted(docs, accept, m)
  {
    if n < m {
      AcceptedPrefix(docs, accept, n, m - 1);
    }
  }

  lemma {:induction false} NoneAccepted(docs: seq<nat>, accept: nat -> bool, n: nat, m: nat)
    requires n <= m <= |docs|
    requires forall i :: n <= i < m ==> !accept(docs[i])
    ensures Accepted(docs, accept, n) == Accepted(docs, accept, m)
  {
    if n < m {
      NoneAccepted(docs, accept, n, m - 1);
    }
  }

  /** What is accepted stays below the mark of the end. */
  lemma ViewIsValid(list: DocList, accept: nat -> bool)
    requires list.Valid()
    ensures View(list, accept).Valid()
  {
    var all := Accepted(list.docs, accept, |list.docs|);
    AcceptedPrefix(list.docs, accept, list.at, |list.docs|);
    AcceptedSorted(list.docs, accept, |list.docs|);
    AcceptedMembers(list.docs, accept, |list.docs|);
    forall i | 0 <= i < |all| ensures all[i] < TERMINATED {
      assert all[i] in all;
    }
  }

  /** An accepted document comes after those accepted before it. */
  lemma AcceptedNext(docs: seq<nat>, accept: nat -> bool, n: nat, before: seq<nat>, all: seq<nat>)
    requires n < |docs| && accept(docs[n])
    requires before == Accepted(docs, accept, n) && all == Accepted(docs, accept, |docs|)
    ensures |before| < |all| && all[|before|] == docs[n]
  {
    AcceptedPrefix(docs, accept, n + 1, |docs|);
    assert Accepted(docs, accept, n + 1) == before + [docs[n]];
  }

  /** A reader on an accepted document, or at the end, shows what it stands on. */
  lemma ViewShows(list: DocList, accept: nat -> bool)
    requires list.Valid() && (list.at < |list.docs| ==> accept(list.Doc()))
    ensures View(list, accept).Valid() && View(list, accept).Doc() == list.Doc()
  {
    ViewIsValid(list, accept);
    if list.at < |list.docs| {
      AcceptedNext(list.docs, accept, list.at, Accepted(list.docs, accept, list.at), View(list, accept).docs);
    }
  }

  /** Moving from an accepted document past rejected ones is one step of the view. */
  lemma ViewAdvances(before: DocList, after: DocList, accept: nat -> bool)
    requires before.Valid() && after.Valid() && before.docs == after.docs
    requires before.at < |before.docs| ==> accept(before.Doc())
    requires after.at >= before.Advance().at
    requires before.at == |before.docs| ==> after.at == before.at
    requires forall i :: before.at < i < after.at ==> !accept(before.docs[i])
    ensures View(after, accept) == View(before, accept).Advance()
  {
    ViewShows(before, accept);
    if before.at < |before.docs| {
      NoneAccepted(before.docs, accept, before.at + 1, after.at);
    } else {
      assert |View(before, accept).docs| == View(before, accept).at;
    }
  }

  /** Moving past rejected and too small documents, to one at or after `target`, seeks the view. */
  lemma ViewSeeks(before: DocList, after: DocList, accept: nat -> bool, target: nat)
    requires before.Valid() && after.Valid() && before.docs == after.docs && before.at <= after.at
    requires before.at < |before.docs| ==> accept(before.Doc())
    requires after.at < |after.docs| ==> accept(after.Doc()) && after.Doc() >= target
    requires forall i :: before.at <= i < after.at ==> before.docs[i] < target || !accept(before.docs[i])
    ensures View(after, accept) == View(before, accept).Seek(target)
  {
    var docs := before.docs;
    ViewShows(before, accept);
    ViewShows(after, accept);
    var from, to := Accepted(docs, accept, before.at), Accepted(docs, accept, after.at);
    AcceptedPrefix(docs, accept, before.at, after.at);
    AcceptedPrefix(docs, accept, after.at, |docs|);
    forall i | |from| <= i < |to| ensures View(before, accept).docs[i] < target {
      assert to[i] == View(before, accept).docs[i];
      SkippedBelow(docs, accept, before.at, after.at, target, i);
    }
    SeekLandsAt(View(before, accept), target, |to|);
  }

  lemma {:induction false} SkippedBelow(docs: seq<nat>, accept: nat -> bool, n: nat, m: nat, target: nat, i: nat)
    requires n <= m <= |docs|
    requires forall j :: n <= j < m ==> docs[j] < target || !accept(docs[j])
    requires |Accepted(docs, accept, n)| <= i < |Accepted(docs, accept, m)|
    ensures Accepted(docs, accept, m)[i] < target
  {
    if i < |Accepted(docs, accept, m - 1)| {
      SkippedBelow(docs, accept, n, m - 1, target, i);
    }
  }

  lemma {:induction false} SeekLandsAt(list: DocList, target: nat, at: nat)
    requires list.at <= at <= |list.docs|
    requires forall i :: list.at <= i < at ==> list.docs[i] < target
    requires at < |list.docs| ==> list.docs[at] >= target
    ensures list.Seek(target) == list.(at := at)
    decreases at - list.at
  {
    if list.at < at {
      SeekLandsAt(list.(at := list.at + 1), target, at);
    }
  }
}

module GapVerifiedScorer {
  import opened Prelude
  import opened Postings
  import opened WordPositions
  import opened ChainSweeps
  import opened WordWindows
  import opened Proximities
  import opened WordMerge
  import opened WordReaders
  import opened FilteredDocs

  ghost predicate Admits(lists: seq<seq<Cursor>>, proximity: Proximity, doc: nat) {
    (forall w :: 0 <= w < |lists| ==> WellListed(lists[w])) && Satisfies(WordsIn(lists, doc), proximity)
  }

  /** The documents a query admits. */
  ghost function Admission(lists: seq<seq<Cursor>>, proximity: Proximity): nat -> bool {
    (doc: nat) => Admits(lists, proximity, doc)
  }

  /** The least window holding every word, where any order is asked for. */
  ghost predicate IsLeastSpread(words: seq<seq<nat>>, span: nat) {
    HasSpread(words, span) && forall s: nat :: s < span ==> !HasSpread(words, s)
  }

  class GapVerifiedScorer {
    var inner: DocList
    const words: seq<WordPositions>
    const proximity: Proximity
    const rankSpan: bool
    const sweep: ChainSweep
    const windows: WordWindows
    var wordPositions: seq<seq<nat>>
    /** The least spread of the current document's words, where ranking needs it. */
    var span: Option<nat>
    /** Each word's postings, whatever has been read of them. */
    ghost const lists: seq<seq<Cursor>>
    /** Whether the caller ranks by spread. */
    ghost const ranks: bool

    /** The words' readers can still read `doc`. */
    ghost predicate CanRead(doc: nat)
      reads words
    {
      WordReaders.CanRead(words, lists, doc)
    }

    ghost predicate WellFormed()
    {
      && words != [] && (proximity.Ordered? ==> |proximity.gaps| + 1 == |words|)
      && rankSpan == (ranks && proximity.AnyOrder?)
    }

    /** If the caller ranks and any order is asked for, the span kept is the least spread of `doc`'s words. */
    ghost predicate KeepsSpan(doc: nat)
      reads this
      requires forall w :: 0 <= w < |lists| ==> WellListed(lists[w])
    {
      ranks && proximity.AnyOrder? ==> span.Some? && IsLeastSpread(WordsIn(lists, doc), span.value)
    }

    ghost predicate Valid()
      reads this, words
    {
      && WellFormed()
      && inner.Valid()
      && CanRead(inner.Doc())
      && (inner.at < |inner.docs| ==> Admits(lists, proximity, inner.Doc()) && KeepsSpan(inner.Doc()))
    }

    /** The span kept for the document shown. */
    ghost predicate IsRanked(ranks: bool)
      reads this, words
      requires Valid()
    {
      ranks && proximity.AnyOrder? && Shown().at < |Shown().docs| ==>
        span.Some? && IsLeastSpread(WordsIn(lists, Shown().Doc()), span.value)
    }

    /** The admitted candidates, and where the reader stands among them. */
    ghost function Shown(): DocList
      reads this, words
      requires Valid()
    {
      View(inner, Admission(lists, proximity))
    }

    /** Chains of the words read so far end at the sweep's positions. */
    ghost predicate Swept(all: seq<seq<nat>>, w: nat)
      reads sweep
    {
      && |words| == |all| && WellFormed() && proximity.Ordered?
      && (1 <= w <= |all| ==>
            sweep.feasible == Ends(all, proximity.gaps, w) && sweep.feasible != [] && Sorted(sweep.feasible))
    }

    /** Takes in the next word; `false` when no chain reaches it. */
    method SweepWord(w: nat, positions: seq<nat>, ghost all: seq<seq<nat>>) returns (any: bool)
      requires w < |words| && Swept(all, w) && positions == all[w] && Sorted(positions)
      modifies sweep
      ensures any ==> Swept(all, w + 1)
      ensures !any ==> !Satisfies(all, proximity)
    {
      if positions == [] {
        EmptyWordNoChain(all, proximity.gaps, w);
        return false;
      }
      if w == 0 {
        sweep.Start(positions);
        return true;
      }
      any := sweep.Extend(positions, proximity.gaps[w - 1]);
      if !any {
        NoEndsNoChain(all, proximity.gaps, w + 1);
        NoEndsNotSatisfied(all, proximity.gaps);
      }
    }

    method ReadAndSweep(w: nat, doc: nat, ghost all: seq<seq<nat>>) returns (any: bool)
      requires w < |words| && CanRead(doc) && doc < TERMINATED
      requires AreWords(all, lists, doc) && Swept(all, w)
      modifies words, sweep
      ensures CanRead(doc)
      ensures any ==> Swept(all, w + 1)
      ensures !any ==> !Satisfies(all, proximity)
    {
      var positions := ReadWord(words, lists, w, doc, all);
      any := SweepWord(w, positions, all);
    }

    method SweepWords(doc: nat, ghost all: seq<seq<nat>>) returns (any: bool)
      requires WellFormed() && proximity.Ordered? && CanRead(doc) && doc < TERMINATED
      requires AreWords(all, lists, doc)
      modifies words, sweep
      ensures CanRead(doc)
      ensures any ==> Swept(all, |words|)
      ensures !any ==> !Satisfies(all, proximity)
    {
      any := true;
      var w := 0;
      while w < |words| && any
        invariant w <= |words|
        invariant CanRead(doc)
        invariant any ==> Swept(all, w)
        invariant !any ==> !Satisfies(all, proximity)
        decreases |words| - w, any
      {
        any := ReadAndSweep(w, doc, all);
        w := w + 1;
      }
    }

    method VerifyOrdered(doc: nat) returns (admitted: bool)
      requires WellFormed() && proximity.Ordered? && CanRead(doc) && doc < TERMINATED
      modifies words, sweep
      ensures CanRead(doc) && admitted == Satisfies(WordsIn(lists, doc), proximity)
    {
      ghost var all := WordsIn(lists, doc);
      WordsInAreWords(lists, doc);
      admitted := SweepWords(doc, all);
      if admitted {
        SweptIsSatisfied(all, proximity.gaps);
      }
    }

    /** `wordPositions` becomes `all`, unless a word without positions is met first. */
    method ReadAll(doc: nat, ghost all: seq<seq<nat>>) returns (present: bool)
      requires WellFormed() && CanRead(doc) && doc < TERMINATED && AreWords(all, lists, doc)
      modifies words, this`wordPositions
      ensures CanRead(doc)
      ensures present ==> wordPositions == all
      ensures !present ==> exists w :: 0 <= w < |all| && all[w] == []
    {
      wordPositions := [];
      for w := 0 to |words|
        invariant CanRead(doc)
        invariant wordPositions == all[..w]
      {
        var positions := ReadWord(words, lists, w, doc, all);
        if positions == [] {
          return false;
        }
        assert all[..w + 1] == all[..w] + [positions];
        wordPositions := wordPositions + [positions];
      }
      assert all[..|all|] == all;
      present := true;
    }

    method VerifyAnyOrder(doc: nat) returns (admitted: bool)
      requires WellFormed() && proximity.AnyOrder? && CanRead(doc) && doc < TERMINATED
      modifies words, windows, this`wordPositions, this`span
      ensures CanRead(doc) && admitted == Satisfies(WordsIn(lists, doc), proximity)
      ensures admitted && rankSpan ==> span.Some? && IsLeastSpread(WordsIn(lists, doc), span.value)
    {
      ghost var all := WordsIn(lists, doc);
      WordsInAreWords(lists, doc);
      var present := ReadAll(doc, all);
      if !present {
        ghost var w :| 0 <= w < |all| && all[w] == [];
        EmptyWordNoSpread(all, w, proximity.maxSpan);
        return false;
      }
      AllSortedSmall(doc);
      var tightest;
      admitted, tightest := FitsWindow(windows, wordPositions, proximity.maxSpan, rankSpan);
      if admitted && rankSpan {
        span := tightest;
      }
    }

    lemma AllSortedSmall(doc: nat)
      requires CanRead(doc)
      ensures forall w :: 0 <= w < |lists| ==> Sorted(WordsIn(lists, doc)[w])
      ensures forall w :: 0 <= w < |lists| ==> forall p :: p in WordsIn(lists, doc)[w] ==> p <= U32_MAX
    {
      forall w | 0 <= w < |lists|
        ensures Sorted(WordsIn(lists, doc)[w]) && forall p :: p in WordsIn(lists, doc)[w] ==> p <= U32_MAX
      {
        PositionsSmall(lists[w], doc);
        PositionsSorted(lists[w], doc);
      }
    }

    /** Decides admission; where ranking needs it, `span` is then the least spread. */
    method Verify(doc: nat) returns (admitted: bool)
      requires WellFormed() && CanRead(doc) && doc < TERMINATED
      modifies words, sweep, windows, this`wordPositions, this`span
      ensures CanRead(doc) && admitted == Admits(lists, proximity, doc)
      ensures admitted && rankSpan && proximity.AnyOrder? ==>
                span.Some? && IsLeastSpread(WordsIn(lists, doc), span.value)
    {
      match proximity
      case Ordered(_) => admitted := VerifyOrdered(doc);
      case AnyOrder(_) => admitted := VerifyAnyOrder(doc);
    }

    constructor (inner: DocList, lists: seq<seq<Cursor>>, proximity: Proximity, rankSpan: bool)
      requires inner.Valid() && lists != []
      requires forall w :: 0 <= w < |lists| ==> WellListed(lists[w])
      requires forall w, i :: 0 <= w < |lists| && 0 <= i < |lists[w]| ==> lists[w][i].at == 0
      requires proximity.Ordered? ==> |proximity.gaps| + 1 == |lists|
      ensures Valid() && this.lists == lists && this.proximity == proximity && this.inner.docs == inner.docs
      ensures fresh(words) && fresh(sweep) && fresh(windows)
      ensures Shown() == View(inner, Admission(lists, proximity))
      ensures this.ranks == rankSpan && IsRanked(rankSpan)
    {
      var readers := OpenAll(lists);
      var sweep := new ChainSweep();
      var windows := new WordWindows();
      this.inner := inner;
      this.words := readers;
      this.proximity := proximity;
      this.rankSpan := rankSpan && proximity.AnyOrder?;
      this.sweep, this.windows := sweep, windows;
      this.wordPositions := [];
      this.span := None;
      this.lists, this.ranks := lists, rankSpan;
      new;
      // A freshly built document set already stands on its first matching document.
      SkipRejected();
      NoneAccepted(inner.docs, Admission(lists, proximity), inner.at, this.inner.at);
      ShownIsRanked();
    }

    /** What is shown is what the reader stands on. */
    lemma ShownIsRanked()
      requires Valid()
      ensures IsRanked(ranks)
    {
      ViewShows(inner, Admission(lists, proximity));
      if inner.at == |inner.docs| {
        assert |Shown().docs| == Shown().at;
      }
    }

    lemma CanReadNext(list: DocList)
      requires list.Valid() && list.at < |list.docs| && CanRead(list.Doc())
      ensures list.Advance().Valid() && list.Advance().at == list.at + 1 && CanRead(list.Advance().Doc())
    {
      forall w | 0 <= w < |lists| ensures Reads(words[w], lists[w], list.Advance().Doc()) {
      }
    }

    /** Moves on to a document the query admits, or to the end. */
    method SkipRejected()
      requires WellFormed() && inner.Valid() && CanRead(inner.Doc())
      modifies this, words, sweep, windows
      ensures Valid() && inner.docs == old(inner.docs) && inner.at >= old(inner.at)
      ensures forall i :: old(inner.at) <= i < inner.at ==> !Admission(lists, proximity)(inner.docs[i])
    {
      while inner.Doc() != TERMINATED
        invariant inner.Valid() && inner.docs == old(inner.docs) && inner.at >= old(inner.at)
        invariant CanRead(inner.Doc())
        invariant forall i :: old(inner.at) <= i < inner.at ==> !Admission(lists, proximity)(inner.docs[i])
        decreases |inner.docs| - inner.at
      {
        var admitted := Verify(inner.Doc());
        if admitted {
          return;
        }
        CanReadNext(inner);
        inner := inner.Advance();
      }
    }

    /** The next admitted candidate. */
    method Advance() returns (doc: nat)
      requires Valid()
      modifies this, words, sweep, windows
      ensures Valid() && inner.docs == old(inner.docs)
      ensures Shown() == old(Shown()).Advance() && doc == Shown().Doc() && IsRanked(ranks)
    {
      ghost var before := inner;
      inner := inner.Advance();
      SkipRejected();
      ViewAdvances(before, inner, Admission(lists, proximity));
      ViewShows(inner, Admission(lists, proximity));
      ShownIsRanked();
      doc := inner.Doc();
    }

    /** The first admitted candidate at or after `target`; the current one, when it is there already. */
    method Seek(target: nat) returns (doc: nat)
      requires Valid()
      modifies this, words, sweep, windows
      ensures Valid() && inner.docs == old(inner.docs)
      ensures Shown() == old(Shown()).Seek(target) && doc == Shown().Doc() && IsRanked(ranks)
    {
      ghost var before := inner;
      if inner.Doc() < target {
        SeekSkipsOnlyBelow(inner, target);
        inner := inner.Seek(target);
        SkipRejected();
      }
      ViewSeeks(before, inner, Admission(lists, proximity), target);
      ViewShows(inner, Admission(lists, proximity));
      ShownIsRanked();
      doc := inner.Doc();
    }

    method Doc() returns (doc: nat)
      requires Valid()
      ensures doc == Shown().Doc()
    {
      ViewShows(inner, Admission(lists, proximity));
      doc := inner.Doc();
    }
  }

  lemma SweptIsSatisfied(words: seq<seq<nat>>, gaps: seq<nat>)
    requires 1 <= |words| <= |gaps| + 1 && Ends(words, gaps, |words|) != []
    ensures Satisfies(words, Ordered(gaps))
  {
    var chain := EndHasChain(words, gaps, |words|, Ends(words, gaps, |words|)[0]);
  }

  /** Whether the words fit one window, and the span of the tightest when it is asked for. */
  method FitsWindow(windows: WordWindows, words: seq<seq<nat>>, maxSpan: nat, rank: bool)
    returns (fits: bool, span: Option<nat>)
    requires words != []
    requires forall w :: 0 <= w < |words| ==> Sorted(words[w]) && forall p :: p in words[w] ==> p <= U32_MAX
    modifies windows
    ensures fits == HasSpread(words, maxSpan)
    ensures fits && rank ==> span.Some? && IsLeastSpread(words, span.value)
  {
    MergeWords(windows, words);
    ghost var entries := windows.entries;
    var window, assignment := windows.NextWindow(0, maxSpan);
    assert windows.entries == entries && windows.wordCount == |words|;
    if window.None? {
      assert forall any :: !Fits(windows.entries, windows.wordCount, 0, maxSpan, any);
      NoFitNoSpread(entries, words, maxSpan);
      return false, None;
    }
    assert HasFit(entries, |words|, maxSpan);
    FitIsSpread(entries, words, maxSpan);
    fits, span := true, None;
    if rank {
      EntriesSmall(entries, words);
      var tightest := TightestSpan(windows, maxSpan, assignment);
      TightestIsLeast(entries, words, tightest);
      span := Some(tightest);
    }
  }

  lemma EmptyWordNoChain(words: seq<seq<nat>>, gaps: seq<nat>, w: nat)
    requires w < |words| && words[w] == []
    ensures !Satisfies(words, Ordered(gaps))
  {
    forall chain: seq<nat> | |chain| == |words| ensures chain[w] !in words[w] {
    }
  }

  lemma EmptyWordNoSpread(words: seq<seq<nat>>, w: nat, maxSpan: nat)
    requires w < |words| && words[w] == []
    ensures !Satisfies(words, AnyOrder(maxSpan))
  {
    forall at: seq<nat> | |at| == |words| ensures at[w] !in words[w] {
    }
  }

  lemma NoEndsNotSatisfied(words: seq<seq<nat>>, gaps: seq<nat>)
    requires 1 <= |words| <= |gaps| + 1 && Ends(words, gaps, |words|) == []
    ensures !Satisfies(words, Ordered(gaps))
  {
    if chain :| IsChain(words, gaps, |words|, chain) {
      ChainReachesEnd(words, gaps, |words|, chain);
    }
  }

  lemma NoFitNoSpread(entries: seq<Entry>, words: seq<seq<nat>>, span: nat)
    requires HoldsAll(entries, words) && forall any :: !Fits(entries, |words|, 0, span, any)
    ensures !HasSpread(words, span)
  {
    if HasSpread(words, span) {
      SpreadIsFit(entries, words, span);
    }
  }

  lemma EntriesSmall(entries: seq<Entry>, words: seq<seq<nat>>)
    requires HoldsAll(entries, words)
    requires forall w :: 0 <= w < |words| ==> forall p :: p in words[w] ==> p <= U32_MAX
    ensures forall e :: 0 <= e < |entries| ==> entries[e].position <= U32_MAX
  {
    forall e | 0 <= e < |entries| ensures entries[e].position <= U32_MAX {
      assert ValidEntry(entries[e], |words|);
      var w := entries[e].words[0];
      assert w in entries[e].words;
      assert HasAt(entries, entries[e].position, w);
    }
  }

  lemma TightestIsLeast(entries: seq<Entry>, words: seq<seq<nat>>, span: nat)
    requires HoldsAll(entries, words) && IsTightest(entries, |words|, span)
    ensures IsLeastSpread(words, span)
  {
    FitIsSpread(entries, words, span);
    forall s: nat | s < span ensures !HasSpread(words, s) {
      if HasSpread(words, s) {
        SpreadIsFit(entries, words, s);
      }
    }
  }
}
