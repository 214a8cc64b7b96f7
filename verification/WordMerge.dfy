/** Feeding the windows: a k-way merge of the words' ascending positions. */
module WordMerge {
  import opened Prelude
  import opened WordWindows
  import opened Proximities

  /** A position, its word, and its index among the word's positions. */
  type Occurrence = (nat, nat, nat)

  predicate NotAfter(a: Occurrence, b: Occurrence) {
    a.0 < b.0 || (a.0 == b.0 && (a.1 < b.1 || (a.1 == b.1 && a.2 <= b.2)))
  }

  /** Some entry at `position` holds `word`. */
  ghost predicate HasAt(entries: seq<Entry>, position: nat, word: nat) {
    exists e :: 0 <= e < |entries| && entries[e].position == position && word in entries[e].words
  }

  /** The entries hold exactly the first `taken[w]` positions of each word. */
  ghost predicate Holds(entries: seq<Entry>, words: seq<seq<nat>>, taken: seq<nat>)
    requires |taken| == |words|
  {
    && (forall w :: 0 <= w < |words| ==> taken[w] <= |words[w]|)
    && (forall w, p: nat :: 0 <= w < |words| ==> (HasAt(entries, p, w) <==> p in words[w][..Min(taken[w], |words[w]|)]))
  }

  /** The entries hold exactly the words' positions. */
  ghost predicate HoldsAll(entries: seq<Entry>, words: seq<seq<nat>>) {
    && ValidEntries(entries, |words|)
    && forall w, p: nat :: 0 <= w < |words| ==> (HasAt(entries, p, w) <==> p in words[w])
  }

  /** The heap holds the next position of every word not used up, none before the last entry. */
  ghost predicate Next(heap: set<Occurrence>, entries: seq<Entry>, words: seq<seq<nat>>, taken: seq<nat>)
    requires |taken| == |words|
  {
    && (forall t :: t in heap ==> IsNext(t, words, taken))
    && (forall w :: 0 <= w < |words| && taken[w] < |words[w]| ==> (words[w][taken[w]], w, taken[w]) in heap)
    && (forall t :: t in heap ==> entries != [] ==> entries[|entries| - 1].position <= t.0)
  }

  ghost predicate IsNext(t: Occurrence, words: seq<seq<nat>>, taken: seq<nat>)
    requires |taken| == |words|
  {
    t.1 < |words| && t.2 == taken[t.1] < |words[t.1]| && t.0 == words[t.1][t.2]
  }

  function Advanced(heap: set<Occurrence>, top: Occurrence, words: seq<seq<nat>>): set<Occurrence>
    requires top.1 < |words|
  {
    heap - {top} + if top.2 + 1 < |words[top.1]| then {(words[top.1][top.2 + 1], top.1, top.2 + 1)} else {}
  }

  lemma RecordedHas(entries: seq<Entry>, wordCount: nat, position: nat, word: nat, p: nat, w: nat)
    requires ValidEntries(entries, wordCount)
    requires entries != [] ==> entries[|entries| - 1].position <= position
    ensures HasAt(Recorded(entries, position, word), p, w) <==> HasAt(entries, p, w) || (p == position && w == word)
  {
    var after := Recorded(entries, position, word);
    var last := |entries| - 1;
    if HasAt(entries, p, w) {
      var e :| 0 <= e < |entries| && entries[e].position == p && w in entries[e].words;
      assert after[e].position == p && w in after[e].words;
    }
    if p == position && w == word {
      assert after[|after| - 1].position == p && w in after[|after| - 1].words;
    }
    if HasAt(after, p, w) && !(p == position && w == word) {
      var e :| 0 <= e < |after| && after[e].position == p && w in after[e].words;
      assert e < |entries| && entries[e].position == p && w in entries[e].words;
    }
  }

  lemma TakeKeepsHolds(entries: seq<Entry>, words: seq<seq<nat>>, taken: seq<nat>, top: Occurrence)
    requires |taken| == |words| && ValidEntries(entries, |words|) && Holds(entries, words, taken)
    requires IsNext(top, words, taken)
    requires entries != [] ==> entries[|entries| - 1].position <= top.0
    ensures Holds(Recorded(entries, top.0, top.1), words, taken[top.1 := top.2 + 1])
  {
    var taken' := taken[top.1 := top.2 + 1];
    forall w, p: nat | 0 <= w < |words|
      ensures HasAt(Recorded(entries, top.0, top.1), p, w) <==> p in words[w][..Min(taken'[w], |words[w]|)]
    {
      RecordedHas(entries, |words|, top.0, top.1, p, w);
      if w == top.1 {
        assert words[w][..top.2 + 1] == words[w][..top.2] + [top.0];
      }
    }
  }

  lemma TakeKeepsNext(heap: set<Occurrence>, entries: seq<Entry>, words: seq<seq<nat>>, taken: seq<nat>,
                      top: Occurrence)
    requires |taken| == |words| && ValidEntries(entries, |words|) && Next(heap, entries, words, taken)
    requires top in heap && forall e :: e in heap ==> NotAfter(top, e)
    requires forall w :: 0 <= w < |words| ==> Sorted(words[w])
    ensures Next(Advanced(heap, top, words), Recorded(entries, top.0, top.1), words, taken[top.1 := top.2 + 1])
  {
    var heap' := Advanced(heap, top, words);
    var entries' := Recorded(entries, top.0, top.1);
    var taken' := taken[top.1 := top.2 + 1];
    assert entries'[|entries'| - 1].position == top.0;
    forall t | t in heap' ensures IsNext(t, words, taken') && top.0 <= t.0 {
      if t in heap {
        assert IsNext(t, words, taken) && IsNext(top, words, taken);
        assert t.1 != top.1;
      }
    }
  }

  ghost function Remaining(words: seq<seq<nat>>, taken: seq<nat>): nat
    requires |taken| == |words|
  {
    if words == [] then 0
    else
      var n := |words| - 1;
      Remaining(words[..n], taken[..n]) + Max(|words[n]| - taken[n], 0)
  }

  lemma {:induction false} OneLess(words: seq<seq<nat>>, taken: seq<nat>, w: nat)
    requires |taken| == |words| && w < |words| && taken[w] < |words[w]|
    ensures Remaining(words, taken[w := taken[w] + 1]) < Remaining(words, taken)
  {
    var n := |words| - 1;
    var taken' := taken[w := taken[w] + 1];
    if w < n {
      OneLess(words[..n], taken[..n], w);
      assert taken'[..n] == taken[..n][w := taken[w] + 1];
    } else {
      assert taken'[..n] == taken[..n];
    }
  }

  /** Each word's first occurrence. */
  method FirstOccurrences(words: seq<seq<nat>>) returns (heap: set<Occurrence>, ghost taken: seq<nat>)
    ensures Merging(heap, [], words, taken)
  {
    heap := set w | 0 <= w < |words| && words[w] != [] :: (words[w][0], w, 0);
    taken := seq(|words|, _ => 0);
  }

  lemma MergeEnds(entries: seq<Entry>, words: seq<seq<nat>>, taken: seq<nat>)
    requires |taken| == |words| && ValidEntries(entries, |words|)
    requires Holds(entries, words, taken) && Next({}, entries, words, taken)
    ensures HoldsAll(entries, words)
  {
    forall w, p: nat | 0 <= w < |words| ensures HasAt(entries, p, w) <==> p in words[w] {
      assert words[w][..|words[w]|] == words[w];
    }
  }

  /** Pushes every word's positions, in increasing order. */
  method MergeWords(windows: WordWindows, words: seq<seq<nat>>)
    requires forall w :: 0 <= w < |words| ==> Sorted(words[w])
    modifies windows
    ensures windows.Valid() && windows.wordCount == |words|
    ensures HoldsAll(windows.entries, words)
  {
    windows.Reset(|words|);
    var heap, taken := FirstOccurrences(words);
    while heap != {}
      invariant windows.Valid() && windows.wordCount == |words|
      invariant Merging(heap, windows.entries, words, taken)
      decreases Remaining(words, taken)
    {
      heap, taken := PushLeast(windows, words, heap, taken);
    }
    MergeEnds(windows.entries, words, taken);
  }

  /** Moves the least occurrence from the heap to the windows, and puts its word's next one there. */
  method PushLeast(windows: WordWindows, words: seq<seq<nat>>, heap: set<Occurrence>, ghost taken: seq<nat>)
    returns (heap': set<Occurrence>, ghost taken': seq<nat>)
    requires windows.Valid() && windows.wordCount == |words| && heap != {}
    requires Merging(heap, windows.entries, words, taken)
    requires forall w :: 0 <= w < |words| ==> Sorted(words[w])
    modifies windows
    ensures windows.Valid() && windows.wordCount == |words|
    ensures Merging(heap', windows.entries, words, taken')
    ensures Remaining(words, taken') < Remaining(words, taken)
  {
    var top := Least(heap);
    TakeKeepsMerging(heap, windows.entries, words, taken, top);
    var slot := windows.Push(top.0, top.1);
    heap' := Advanced(heap, top, words);
    taken' := taken[top.1 := top.2 + 1];
  }

  method Least(heap: set<Occurrence>) returns (top: Occurrence)
    requires heap != {}
    ensures top in heap && forall e :: e in heap ==> NotAfter(top, e)
  {
    top := Peek(heap, NotAfter);
  }

  ghost predicate Merging(heap: set<Occurrence>, entries: seq<Entry>, words: seq<seq<nat>>, taken: seq<nat>) {
    |taken| == |words| && Holds(entries, words, taken) && Next(heap, entries, words, taken)
  }

  lemma TakeKeepsMerging(heap: set<Occurrence>, entries: seq<Entry>, words: seq<seq<nat>>, taken: seq<nat>,
                         top: Occurrence)
    requires ValidEntries(entries, |words|) && Merging(heap, entries, words, taken)
    requires top in heap && forall e :: e in heap ==> NotAfter(top, e)
    requires forall w :: 0 <= w < |words| ==> Sorted(words[w])
    ensures top.1 < |words| && (entries != [] ==> entries[|entries| - 1].position <= top.0)
    ensures Merging(Advanced(heap, top, words), Recorded(entries, top.0, top.1), words, taken[top.1 := top.2 + 1])
    ensures Remaining(words, taken[top.1 := top.2 + 1]) < Remaining(words, taken)
  {
    assert IsNext(top, words, taken);
    TakeKeepsHolds(entries, words, taken, top);
    TakeKeepsNext(heap, entries, words, taken, top);
    OneLess(words, taken, top.1);
  }

  // ── Entries and positions say the same ───────────────────────────────────────

  lemma FitIsSpread(entries: seq<Entry>, words: seq<seq<nat>>, span: nat)
    requires HoldsAll(entries, words) && HasFit(entries, |words|, span)
    ensures HasSpread(words, span)
  {
    var assignment :| Fits(entries, |words|, 0, span, assignment);
    var at := seq(|words|, w requires 0 <= w < |words| => entries[assignment[w]].position);
    forall w | 0 <= w < |words| ensures at[w] in words[w] {
      assert HasAt(entries, at[w], w);
    }
    forall v, w | 0 <= v < w < |words| ensures at[v] != at[w] {
      assert assignment[v] != assignment[w];
    }
    assert IsSpread(words, span, at);
  }

  lemma SpreadIsFit(entries: seq<Entry>, words: seq<seq<nat>>, span: nat)
    requires HoldsAll(entries, words) && HasSpread(words, span)
    ensures HasFit(entries, |words|, span)
  {
    var at :| IsSpread(words, span, at);
    var assignment := EntriesAt(entries, words, at, |words|);
    assert InWindow(entries, |words|, 0, |entries|, assignment);
    assert Fits(entries, |words|, 0, span, assignment);
  }

  lemma {:induction false} EntriesAt(entries: seq<Entry>, words: seq<seq<nat>>, at: seq<nat>, n: nat)
    returns (assignment: seq<nat>)
    requires HoldsAll(entries, words) && |at| == |words| && n <= |words|
    requires forall w :: 0 <= w < |words| ==> at[w] in words[w]
    ensures |assignment| == n
    ensures forall w :: 0 <= w < n ==> assignment[w] < |entries| && w in entries[assignment[w]].words
    ensures forall w :: 0 <= w < n ==> entries[assignment[w]].position == at[w]
  {
    if n == 0 {
      assignment := [];
    } else {
      assignment := EntriesAt(entries, words, at, n - 1);
      assert HasAt(entries, at[n - 1], n - 1);
      var e :| 0 <= e < |entries| && entries[e].position == at[n - 1] && n - 1 in entries[e].words;
      assignment := assignment + [e];
    }
  }
}
