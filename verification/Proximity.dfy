/** Proximities, ordered and unordered: what satisfies them, how one contains the other, and the least
    span that admits an assignment. */
module Proximities {
  import opened Prelude
  import opened ChainSweeps
  import opened WordWindows

  datatype Proximity =
      /** Satisfied by a chain that obeys `gaps`. */
    | Ordered(gaps: seq<nat>)
      /** Satisfied by distinct positions that spread over at most `maxSpan`. */
    | AnyOrder(maxSpan: nat)

  /** One own position for each word, none more than `span` from another. */
  ghost predicate IsSpread(words: seq<seq<nat>>, span: nat, at: seq<nat>) {
    && |at| == |words|
    && (forall w :: 0 <= w < |words| ==> at[w] in words[w])
    && Distinct(at)
    && (forall v, w :: 0 <= v < |words| && 0 <= w < |words| ==> at[w] - at[v] <= span)
  }

  ghost predicate HasSpread(words: seq<seq<nat>>, span: nat) {
    exists at :: IsSpread(words, span, at)
  }

  /** Do positions `words[w]` of each word `w` satisfy the proximity? */
  ghost predicate Satisfies(words: seq<seq<nat>>, proximity: Proximity) {
    match proximity
    case Ordered(gaps) => exists chain :: IsChain(words, gaps, |words|, chain)
    case AnyOrder(maxSpan) => HasSpread(words, maxSpan)
  }

  function SaturatingMul(a: nat, b: nat): nat {
    Min(a * b, U32_MAX)
  }

  /** The unordered proximity that contains every ordered one with gaps up to `distance`. */
  function AnyOrderOf(wordCount: nat, distance: nat): Proximity {
    AnyOrder(SaturatingMul(Min(Max(wordCount - 1, 0), U32_MAX), SaturatingAdd(distance, 1)))
  }

  lemma {:induction false} ChainRises(words: seq<seq<nat>>, gaps: seq<nat>, chain: seq<nat>, distance: nat, v: nat,
                                      w: nat)
    requires IsChain(words, gaps, |words|, chain) && v <= w < |chain|
    requires forall i :: 0 <= i < |gaps| ==> gaps[i] <= distance
    ensures chain[v] + (w - v) <= chain[w] <= chain[v] + (w - v) * (distance + 1)
  {
    if v < w {
      ChainRises(words, gaps, chain, distance, v, w - 1);
      assert StepsAt(chain, gaps, w - 1);
      assert (w - v) * (distance + 1) == (w - 1 - v) * (distance + 1) + (distance + 1);
    }
  }

  lemma SpanBound(pairs: nat, steps: nat, distance: nat, spread: nat)
    requires spread <= steps * (distance + 1) && steps <= pairs && spread <= U32_MAX
    ensures spread <= SaturatingMul(Min(pairs, U32_MAX), SaturatingAdd(distance, 1))
  {
    var factor := SaturatingAdd(distance, 1);
    if steps > 0 {
      if pairs <= U32_MAX && distance + 1 <= U32_MAX {
        assert steps * (distance + 1) <= pairs * (distance + 1);
      } else if pairs > U32_MAX {
        assert U32_MAX * factor >= U32_MAX * 1;
      } else {
        assert pairs * U32_MAX >= 1 * U32_MAX;
      }
    }
  }

  /** Whatever satisfies an ordered proximity with gaps up to `distance` satisfies `AnyOrderOf`. */
  lemma AnyOrderKeepsOrderedHits(words: seq<seq<nat>>, gaps: seq<nat>, distance: nat)
    requires forall i :: 0 <= i < |gaps| ==> gaps[i] <= distance
    requires forall w :: w in words ==> forall p :: p in w ==> p <= U32_MAX
    requires Satisfies(words, Ordered(gaps))
    ensures Satisfies(words, AnyOrderOf(|words|, distance))
  {
    var chain :| IsChain(words, gaps, |words|, chain);
    var maxSpan := AnyOrderOf(|words|, distance).maxSpan;
    forall v, w | 0 <= v < |words| && 0 <= w < |words|
      ensures chain[w] <= chain[v] + maxSpan
      ensures v < w ==> chain[v] != chain[w]
    {
      if v < w {
        ChainRises(words, gaps, chain, distance, v, w);
        assert words[w] in words;
        SpanBound(|words| - 1, w - v, distance, chain[w] - chain[v]);
      } else {
        ChainRises(words, gaps, chain, distance, w, v);
      }
    }
    assert IsSpread(words, maxSpan, chain);
  }

  /** Positions that rise from 0 to `total` by steps from 1 to `step`. */
  function RisingTo(total: nat, step: nat, last: nat, w: nat): nat
    requires last <= total && w <= last
  {
    Min(w * step, total - (last - w))
  }

  lemma RisesByStep(total: nat, step: nat, last: nat, w: nat)
    requires last <= total && w < last && step > 0
    ensures RisingTo(total, step, last, w) < RisingTo(total, step, last, w + 1) <= RisingTo(total, step, last, w) + step
  {
    assert (w + 1) * step == w * step + step;
  }

  /** No lesser span would keep every ordered hit. */
  lemma AnyOrderIsLeast(wordCount: nat, distance: nat, span: nat) returns (words: seq<seq<nat>>, gaps: seq<nat>)
    requires 0 < wordCount <= U32_MAX && distance <= U32_MAX && span < AnyOrderOf(wordCount, distance).maxSpan
    ensures |words| == wordCount == |gaps| + 1 && (forall i :: 0 <= i < |gaps| ==> gaps[i] <= distance)
    ensures forall w :: w in words ==> forall p :: p in w ==> p <= U32_MAX
    ensures Satisfies(words, Ordered(gaps)) && !Satisfies(words, AnyOrder(span))
  {
    var last, step, total := wordCount - 1, distance + 1, AnyOrderOf(wordCount, distance).maxSpan;
    LeastReaches(last, step, total);
    var chain := seq(wordCount, w requires 0 <= w <= last => RisingTo(total, step, last, w));
    words := seq(wordCount, w requires 0 <= w < |chain| => [chain[w]]);
    gaps := seq(last, _ => distance);
    forall i | 0 <= i < |chain| - 1 ensures StepsAt(chain, gaps, i) {
      RisesByStep(total, step, last, i);
    }
    assert IsChain(words, gaps, |words|, chain);
    if Satisfies(words, AnyOrder(span)) {
      var at :| IsSpread(words, span, at);
      SpreadOverEnds(words, span, at, 0, total);
    }
  }

  lemma SpreadOverEnds(words: seq<seq<nat>>, span: nat, at: seq<nat>, first: nat, last: nat)
    requires IsSpread(words, span, at) && words != [] && words[0] == [first] && words[|words| - 1] == [last]
    ensures last - first <= span
  {
    assert at[0] in words[0] && at[|words| - 1] in words[|words| - 1];
  }

  lemma LeastReaches(last: nat, step: nat, total: nat)
    requires last < U32_MAX && 0 < step <= U32_MAX + 1
    requires total == SaturatingMul(Min(last, U32_MAX), SaturatingAdd(step - 1, 1))
    ensures last <= total <= U32_MAX && total <= last * step
    ensures RisingTo(total, step, last, 0) == 0 && RisingTo(total, step, last, last) == total
  {
    var factor := Min(step, U32_MAX);
    TimesMore(last, 1, factor);
    TimesMore(last, factor, step);
  }

  lemma TimesMore(n: nat, a: nat, b: nat)
    requires a <= b
    ensures n * a <= n * b
  {
  }

  // ── The tightest window ──────────────────────────────────────────────────────

  ghost predicate HasFit(entries: seq<Entry>, wordCount: nat, span: nat) {
    exists assignment :: Fits(entries, wordCount, 0, span, assignment)
  }

  /** `span` is the least span of an assignment. */
  ghost predicate IsTightest(entries: seq<Entry>, wordCount: nat, span: nat) {
    HasFit(entries, wordCount, span) && forall s: nat :: s < span ==> !HasFit(entries, wordCount, s)
  }

  lemma WiderStillFits(entries: seq<Entry>, wordCount: nat, span: nat, wider: nat)
    requires HasFit(entries, wordCount, span) && span <= wider
    ensures HasFit(entries, wordCount, wider)
  {
    var assignment :| Fits(entries, wordCount, 0, span, assignment);
    assert Fits(entries, wordCount, 0, wider, assignment);
  }

  lemma NoneUpTo(entries: seq<Entry>, wordCount: nat, span: nat)
    requires forall any :: !Fits(entries, wordCount, 0, span, any)
    ensures forall s: nat :: s <= span ==> !HasFit(entries, wordCount, s)
  {
    forall s: nat | s <= span ensures !HasFit(entries, wordCount, s) {
      if HasFit(entries, wordCount, s) {
        WiderStillFits(entries, wordCount, s, span);
      }
    }
  }

  /** Distinct positions of `wordCount` words span at least `wordCount - 1`. */
  lemma SpanAtLeastWords(entries: seq<Entry>, wordCount: nat, span: nat)
    requires ValidEntries(entries, wordCount) && HasFit(entries, wordCount, span)
    ensures wordCount <= span + 1
  {
    var assignment :| Fits(entries, wordCount, 0, span, assignment);
    if wordCount > 0 {
      var first := LeastEntry(assignment, entries);
      var offsets: seq<nat> := seq(wordCount, w requires 0 <= w < wordCount =>
        if entries[assignment[w]].position >= entries[assignment[first]].position
        then entries[assignment[w]].position - entries[assignment[first]].position else 0);
      forall v, w | 0 <= v < w < wordCount ensures offsets[v] != offsets[w] {
        assert assignment[v] != assignment[w];
      }
      Pigeonhole(offsets, span + 1);
    }
  }

  /** The word whose entry comes first. */
  lemma {:induction false} LeastEntry(assignment: seq<nat>, entries: seq<Entry>) returns (first: nat)
    requires assignment != [] && forall w :: 0 <= w < |assignment| ==> assignment[w] < |entries|
    ensures first < |assignment|
    ensures forall w :: 0 <= w < |assignment| ==> entries[assignment[first]].position <= entries[assignment[w]].position
  {
    if |assignment| == 1 {
      first := 0;
    } else {
      var n := |assignment| - 1;
      first := LeastEntry(assignment[..n], entries);
      if entries[assignment[n]].position < entries[assignment[first]].position {
        first := n;
      }
    }
  }

  /** A span that admits the assignment, and is no more than the one it was found under. */
  method AssignedSpan(windows: WordWindows, ghost maxSpan: nat, assignment: seq<nat>) returns (span: nat)
    requires windows.Valid() && windows.wordCount > 0
    requires Fits(windows.entries, windows.wordCount, 0, maxSpan, assignment)
    ensures Fits(windows.entries, windows.wordCount, 0, span, assignment)
    ensures span <= maxSpan
  {
    ghost var entries := windows.entries;
    var first, last := assignment[0], assignment[0];
    for w := 1 to |assignment|
      invariant first in assignment && last in assignment
      invariant forall v :: 0 <= v < w ==> first <= assignment[v] <= last
    {
      if assignment[w] < first {
        first := assignment[w];
      }
      if assignment[w] > last {
        last := assignment[w];
      }
    }
    span := windows.positions[last] - windows.positions[first];
    SpanFits(entries, windows.wordCount, maxSpan, assignment, first, last);
  }

  /** The distance between an assignment's outermost entries admits it. */
  lemma SpanFits(entries: seq<Entry>, wordCount: nat, maxSpan: nat, assignment: seq<nat>, first: nat, last: nat)
    requires ValidEntries(entries, wordCount) && Fits(entries, wordCount, 0, maxSpan, assignment)
    requires first in assignment && last in assignment
    requires forall v :: 0 <= v < |assignment| ==> first <= assignment[v] <= last
    ensures first <= last < |entries| && 0 <= entries[last].position - entries[first].position <= maxSpan
    ensures Fits(entries, wordCount, 0, entries[last].position - entries[first].position, assignment)
  {
    assert forall e, f :: 0 <= e <= f < |entries| ==> entries[e].position <= entries[f].position;
  }

  /** Binary search for the least span, overlapping windows included. */
  method TightestSpan(windows: WordWindows, maxSpan: nat, assignment: seq<nat>) returns (span: nat)
    requires windows.Valid() && windows.wordCount > 0
    requires forall e :: 0 <= e < |windows.entries| ==> windows.entries[e].position <= U32_MAX
    requires Fits(windows.entries, windows.wordCount, 0, maxSpan, assignment)
    modifies windows`coverage, windows`adjacency, windows`owner, windows`visited, windows`stack
    ensures windows.Valid()
    ensures IsTightest(windows.entries, windows.wordCount, span) && span <= maxSpan
  {
    ghost var entries, k := windows.entries, windows.wordCount;
    span := AssignedSpan(windows, maxSpan, assignment);
    assert HasFit(entries, k, span);
    var lower: nat := (windows.wordCount - 1) % (U32_MAX + 1);
    NothingBelowWords(entries, k, span);
    while lower < span
      invariant windows.Valid() && windows.entries == entries && windows.wordCount == k
      invariant HasFit(entries, k, span) && span <= maxSpan
      invariant forall s: nat :: s < lower ==> !HasFit(entries, k, s)
      invariant lower <= span
      decreases span - lower
    {
      var middle: nat := lower + (span - lower) / 2;
      var window, found := windows.NextWindow(0, middle);
      if window.Some? {
        span := AssignedSpan(windows, middle, found);
        assert HasFit(entries, k, span);
      } else {
        assert windows.entries == entries && windows.wordCount == k > 0;
        assert window.None?;
        assert forall any :: !Fits(windows.entries, windows.wordCount, 0, middle, any);
        NoneUpTo(entries, k, middle);
        lower := middle + 1;
      }
    }
  }

  /** The starting bound, cut to 32 bits, is exact: more words than that have no assignment. */
  lemma NothingBelowWords(entries: seq<Entry>, wordCount: nat, span: nat)
    requires wordCount > 0 && ValidEntries(entries, wordCount)
    requires forall e :: 0 <= e < |entries| ==> entries[e].position <= U32_MAX
    requires HasFit(entries, wordCount, span)
    ensures (wordCount - 1) % (U32_MAX + 1) == wordCount - 1 <= span
    ensures forall s: nat :: s < wordCount - 1 ==> !HasFit(entries, wordCount, s)
  {
    SpanAtLeastWords(entries, wordCount, span);
    forall s: nat | s < wordCount - 1 ensures !HasFit(entries, wordCount, s) {
      if HasFit(entries, wordCount, s) {
        SpanAtLeastWords(entries, wordCount, s);
      }
    }
    var assignment :| Fits(entries, wordCount, 0, span, assignment);
    var positions: seq<nat> := seq(wordCount, w requires 0 <= w < wordCount => entries[assignment[w]].position);
    forall v, w | 0 <= v < w < wordCount ensures positions[v] != positions[w] {
      assert assignment[v] != assignment[w];
    }
    Pigeonhole(positions, U32_MAX + 1);
  }
}
