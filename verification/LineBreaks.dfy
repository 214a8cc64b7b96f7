/** Phrases over a line break: an occurrence on two joined lines is the same thing as two halves, one
    near the end of the first line and the other near the start of the second. */
module LineBreaks {
  import opened ChainSweeps

  /** `p` is a position of the word on the two lines joined: the first line up to `last`, then
      the second from `first` on. */
  predicate AcrossBreak(left: seq<nat>, last: nat, right: seq<nat>, first: nat, p: nat) {
    if p <= last then p in left else p - last - 1 + first in right
  }

  /** One occurrence of the phrase over the joined lines, with a word on each side of the break. */
  ghost predicate Crosses(left: seq<seq<nat>>, last: nat, right: seq<seq<nat>>, first: nat, gaps: seq<nat>,
                          chain: seq<nat>)
  {
    && |chain| == |left| == |right| == |gaps| + 1
    && (forall i :: 0 <= i < |chain| ==> AcrossBreak(left[i], last, right[i], first, chain[i]))
    && (forall i {:trigger StepsAt(chain, gaps, i)} :: 0 <= i < |chain| - 1 ==> StepsAt(chain, gaps, i))
    && chain[0] <= last < chain[|chain| - 1]
  }

  ghost predicate Continues(left: seq<seq<nat>>, last: nat, right: seq<seq<nat>>, first: nat, gaps: seq<nat>) {
    exists chain :: Crosses(left, last, right, first, gaps, chain)
  }

  /** The first `k` words end the first line and the rest start the second one, with `a` words
      after the former and `b` before the latter. */
  ghost predicate SplitAt(left: seq<seq<nat>>, last: nat, right: seq<seq<nat>>, first: nat, gaps: seq<nat>, k: nat,
                          a: nat, b: nat)
  {
    && |left| == |right| == |gaps| + 1 && 1 <= k <= |gaps|
    && EndSlack(left[..k], gaps[..k - 1], last, a)
    && StartSlack(right[k..], gaps[k..], first, b)
    && a + b <= gaps[k - 1]
  }

  ghost predicate Splits(left: seq<seq<nat>>, last: nat, right: seq<seq<nat>>, first: nat, gaps: seq<nat>) {
    exists k: nat, a: nat, b: nat :: SplitAt(left, last, right, first, gaps, k, a, b)
  }

  /** Where a chain leaves the first line. */
  lemma {:induction false} LeavesAt(chain: seq<nat>, last: nat, n: nat) returns (k: nat)
    requires 0 < n < |chain| && chain[0] <= last < chain[n]
    ensures 1 <= k <= n && chain[k - 1] <= last < chain[k]
  {
    if chain[n - 1] <= last {
      k := n;
    } else {
      k := LeavesAt(chain, last, n - 1);
    }
  }

  lemma {:induction false} Climbs(chain: seq<nat>, gaps: seq<nat>, i: nat, j: nat)
    requires |chain| <= |gaps| + 1 && i <= j < |chain|
    requires forall m {:trigger StepsAt(chain, gaps, m)} :: 0 <= m < |chain| - 1 ==> StepsAt(chain, gaps, m)
    ensures chain[i] <= chain[j]
  {
    if i < j {
      Climbs(chain, gaps, i, j - 1);
      assert StepsAt(chain, gaps, j - 1);
    }
  }

  lemma CrossingEnds(left: seq<seq<nat>>, last: nat, right: seq<seq<nat>>, first: nat, gaps: seq<nat>, chain: seq<nat>,
                     k: nat)
    requires Crosses(left, last, right, first, gaps, chain)
    requires 1 <= k <= |gaps| && chain[k - 1] <= last
    ensures EndSlack(left[..k], gaps[..k - 1], last, last - chain[k - 1])
  {
    var before, gapsBefore := chain[..k], gaps[..k - 1];
    forall i | 0 <= i < k ensures chain[i] in left[i] {
      Climbs(chain, gaps, i, k - 1);
      assert AcrossBreak(left[i], last, right[i], first, chain[i]);
    }
    forall i | 0 <= i < k - 1 ensures StepsAt(before, gapsBefore, i) {
      assert StepsAt(chain, gaps, i);
    }
    assert IsChain(left[..k], gapsBefore, k, before);
  }

  lemma CrossingStarts(left: seq<seq<nat>>, last: nat, right: seq<seq<nat>>, first: nat, gaps: seq<nat>,
                       chain: seq<nat>, k: nat)
    requires Crosses(left, last, right, first, gaps, chain)
    requires 1 <= k <= |gaps| && last < chain[k]
    ensures StartSlack(right[k..], gaps[k..], first, chain[k] - last - 1)
  {
    var n := |chain| - k;
    forall j | k <= j < |chain| ensures chain[j] > last {
      Climbs(chain, gaps, k, j);
    }
    var after: seq<nat> := seq(n, i requires 0 <= i < n => chain[k + i] - last - 1 + first);
    forall i | 0 <= i < n ensures after[i] in right[k..][i] {
      var j := k + i;
      assert chain[j] > last && AcrossBreak(left[j], last, right[j], first, chain[j]);
      assert right[k..][i] == right[j];
    }
    forall i | 0 <= i < n - 1 ensures StepsAt(after, gaps[k..], i) {
      assert StepsAt(chain, gaps, k + i);
    }
    assert IsChain(right[k..], gaps[k..], n, after);
    assert after[0] == first + (chain[k] - last - 1);
  }

  lemma CrossingSplits(left: seq<seq<nat>>, last: nat, right: seq<seq<nat>>, first: nat, gaps: seq<nat>)
    requires Continues(left, last, right, first, gaps)
    ensures Splits(left, last, right, first, gaps)
  {
    var chain :| Crosses(left, last, right, first, gaps, chain);
    var k := LeavesAt(chain, last, |chain| - 1);
    CrossingEnds(left, last, right, first, gaps, chain, k);
    CrossingStarts(left, last, right, first, gaps, chain, k);
    assert StepsAt(chain, gaps, k - 1);
    assert SplitAt(left, last, right, first, gaps, k, last - chain[k - 1], chain[k] - last - 1);
  }

  /** The two halves' chains, laid end to end over the joined lines. */
  function Laid(before: seq<nat>, after: seq<nat>, last: nat, first: nat): (chain: seq<nat>)
    requires forall i :: 0 <= i < |after| ==> first <= after[i]
    ensures |chain| == |before| + |after|
    ensures forall i :: 0 <= i < |before| ==> chain[i] == before[i]
    ensures forall i :: |before| <= i < |chain| ==> chain[i] == after[i - |before|] - first + last + 1
  {
    before + seq(|after|, i requires 0 <= i < |after| => after[i] - first + last + 1)
  }

  lemma LaidCrosses(left: seq<seq<nat>>, last: nat, right: seq<seq<nat>>, first: nat, gaps: seq<nat>, before: seq<nat>,
                    after: seq<nat>)
    requires |left| == |right| == |gaps| + 1 == |before| + |after| && before != [] && after != []
    requires IsChain(left[..|before|], gaps[..|before| - 1], |before|, before)
    requires IsChain(right[|before|..], gaps[|before|..], |after|, after)
    requires forall i :: 0 <= i < |after| ==> first <= after[i]
    requires forall i :: 0 <= i < |before| ==> before[i] <= last
    requires (last - before[|before| - 1]) + (after[0] - first) <= gaps[|before| - 1]
    ensures Crosses(left, last, right, first, gaps, Laid(before, after, last, first))
  {
    var k := |before|;
    var chain := Laid(before, after, last, first);
    forall i | 0 <= i < |chain| ensures AcrossBreak(left[i], last, right[i], first, chain[i]) {
      if i < k {
        assert before[i] in left[..k][i];
      } else {
        assert after[i - k] in right[k..][i - k];
      }
    }
    forall i | 0 <= i < |chain| - 1 ensures StepsAt(chain, gaps, i) {
      if i < k - 1 {
        assert StepsAt(before, gaps[..k - 1], i);
      } else if i >= k {
        assert StepsAt(after, gaps[k..], i - k);
      }
    }
  }

  lemma SplitCrosses(left: seq<seq<nat>>, last: nat, right: seq<seq<nat>>, first: nat, gaps: seq<nat>, k: nat, a: nat,
                     b: nat)
    requires SplitAt(left, last, right, first, gaps, k, a, b)
    ensures Continues(left, last, right, first, gaps)
  {
    var before :| IsChain(left[..k], gaps[..k - 1], k, before) && before != [] && before[|before| - 1] == last - a;
    var after :| IsChain(right[k..], gaps[k..], |right| - k, after) && after != [] && after[0] == first + b;
    forall i | 0 <= i < |before| ensures before[i] <= last {
      Climbs(before, gaps[..k - 1], i, |before| - 1);
    }
    forall i | 0 <= i < |after| ensures first <= after[i] {
      Climbs(after, gaps[k..], 0, i);
    }
    LaidCrosses(left, last, right, first, gaps, before, after);
  }

  /** The phrase continues over the break exactly when some split of it has its two halves close
      enough to the two edges. */
  lemma ContinuesIffSplits(left: seq<seq<nat>>, last: nat, right: seq<seq<nat>>, first: nat, gaps: seq<nat>)
    ensures Continues(left, last, right, first, gaps) <==> Splits(left, last, right, first, gaps)
  {
    if Continues(left, last, right, first, gaps) {
      CrossingSplits(left, last, right, first, gaps);
    } else if k: nat, a: nat, b: nat :| SplitAt(left, last, right, first, gaps, k, a, b) {
      SplitCrosses(left, last, right, first, gaps, k, a, b);
    }
  }
}
