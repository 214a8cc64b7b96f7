/** In-order phrases: which positions can end a chain of word occurrences, and how far a
    chain lies from its line's edge. */
module ChainSweeps {
  import opened Prelude

  /** `chain[i]` is a position of word `i`, for `i` below `n`, and each step obeys its gap. */
  ghost predicate IsChain(words: seq<seq<nat>>, gaps: seq<nat>, n: nat, chain: seq<nat>) {
    && |chain| == n <= |words| <= |gaps| + 1
    && (forall i :: 0 <= i < n ==> chain[i] in words[i])
    && (forall i {:trigger StepsAt(chain, gaps, i)} :: 0 <= i < n - 1 ==> StepsAt(chain, gaps, i))
  }

  /** `q` comes after `p` with at most `gap` words between them. */
  predicate InStep(p: nat, q: nat, gap: nat) {
    p < q <= p + gap + 1
  }

  predicate StepsAt(chain: seq<nat>, gaps: seq<nat>, i: int)
    requires 0 <= i < |gaps| && i + 1 < |chain|
  {
    InStep(chain[i], chain[i + 1], gaps[i])
  }

  /** Can `q` follow one of the positions of `feasible`? */
  predicate Follows(feasible: seq<nat>, q: nat, gap: nat) {
    exists p :: p in feasible && InStep(p, q, gap)
  }

  /** The positions, in order and with repeats, that can follow one of `feasible`. */
  function Reachable(feasible: seq<nat>, positions: seq<nat>, gap: nat): (r: seq<nat>)
  {
    if positions == [] then []
    else
      var n := |positions| - 1;
      Reachable(feasible, positions[..n], gap)
      + if Follows(feasible, positions[n], gap) then [positions[n]] else []
  }

  lemma {:induction false} ReachableMembers(feasible: seq<nat>, positions: seq<nat>, gap: nat)
    ensures forall q :: q in Reachable(feasible, positions, gap) <==> q in positions && Follows(feasible, q, gap)
  {
    if positions != [] {
      var n := |positions| - 1;
      ReachableMembers(feasible, positions[..n], gap);
      assert positions == positions[..n] + [positions[n]];
    }
  }

  lemma {:induction false} ReachableSorted(feasible: seq<nat>, positions: seq<nat>, gap: nat)
    requires Sorted(positions)
    ensures Sorted(Reachable(feasible, positions, gap))
  {
    if positions != [] {
      var n := |positions| - 1;
      var front := Reachable(feasible, positions[..n], gap);
      ReachableSorted(feasible, positions[..n], gap);
      ReachableMembers(feasible, positions[..n], gap);
      forall i | 0 <= i < |front| ensures front[i] <= positions[n] {
        assert front[i] in front;
      }
    }
  }

  /** Where a sweep over the first `n` words ends. */
  ghost function Ends(words: seq<seq<nat>>, gaps: seq<nat>, n: nat): seq<nat>
    requires 1 <= n <= |words| <= |gaps| + 1
  {
    if n == 1 then words[0] else Reachable(Ends(words, gaps, n - 1), words[n - 1], gaps[n - 2])
  }

  ghost predicate EndsChain(words: seq<seq<nat>>, gaps: seq<nat>, q: nat) {
    exists chain {:trigger IsChain(words, gaps, |words|, chain)} ::
        IsChain(words, gaps, |words|, chain) && chain != [] && chain[|chain| - 1] == q
  }

  ghost predicate StartsChain(words: seq<seq<nat>>, gaps: seq<nat>, q: nat) {
    exists chain {:trigger IsChain(words, gaps, |words|, chain)} ::
        IsChain(words, gaps, |words|, chain) && chain != [] && chain[0] == q
  }

  lemma ChainPrefix(words: seq<seq<nat>>, gaps: seq<nat>, n: nat, chain: seq<nat>)
    requires IsChain(words, gaps, n, chain) && n > 0
    ensures IsChain(words, gaps, n - 1, chain[..n - 1])
  {
    var prefix := chain[..n - 1];
    forall i | 0 <= i < n - 2 ensures StepsAt(prefix, gaps, i) {
      assert StepsAt(chain, gaps, i);
    }
  }

  lemma ChainExtended(words: seq<seq<nat>>, gaps: seq<nat>, n: nat, chain: seq<nat>, q: nat)
    requires 1 <= n < |words| <= |gaps| + 1
    requires IsChain(words, gaps, n, chain)
    requires q in words[n] && InStep(chain[n - 1], q, gaps[n - 1])
    ensures IsChain(words, gaps, n + 1, chain + [q])
  {
    var longer := chain + [q];
    forall i | 0 <= i < n ensures StepsAt(longer, gaps, i) {
      if i < n - 1 {
        assert StepsAt(chain, gaps, i);
      }
    }
  }

  lemma {:induction false} ChainReachesEnd(words: seq<seq<nat>>, gaps: seq<nat>, n: nat, chain: seq<nat>)
    requires 1 <= n && IsChain(words, gaps, n, chain)
    ensures chain[n - 1] in Ends(words, gaps, n)
  {
    if n > 1 {
      ChainPrefix(words, gaps, n, chain);
      ChainReachesEnd(words, gaps, n - 1, chain[..n - 1]);
      assert StepsAt(chain, gaps, n - 2);
      ReachableMembers(Ends(words, gaps, n - 1), words[n - 1], gaps[n - 2]);
    }
  }

  lemma {:induction false} EndHasChain(words: seq<seq<nat>>, gaps: seq<nat>, n: nat, q: nat) returns (chain: seq<nat>)
    requires 1 <= n <= |words| <= |gaps| + 1
    requires q in Ends(words, gaps, n)
    ensures IsChain(words, gaps, n, chain) && chain[n - 1] == q
  {
    if n == 1 {
      chain := [q];
    } else {
      var ends := Ends(words, gaps, n - 1);
      ReachableMembers(ends, words[n - 1], gaps[n - 2]);
      var p :| p in ends && InStep(p, q, gaps[n - 2]);
      var shorter := EndHasChain(words, gaps, n - 1, p);
      ChainExtended(words, gaps, n - 1, shorter, q);
      chain := shorter + [q];
    }
  }

  lemma EndsToChain(words: seq<seq<nat>>, gaps: seq<nat>, q: nat)
    requires 1 <= |words| <= |gaps| + 1 && q in Ends(words, gaps, |words|)
    ensures EndsChain(words, gaps, q)
  {
    var chain := EndHasChain(words, gaps, |words|, q);
  }

  lemma ChainToEnds(words: seq<seq<nat>>, gaps: seq<nat>, q: nat)
    requires 1 <= |words| <= |gaps| + 1 && EndsChain(words, gaps, q)
    ensures q in Ends(words, gaps, |words|)
  {
    var chain :| IsChain(words, gaps, |words|, chain) && chain != [] && chain[|chain| - 1] == q;
    ChainReachesEnd(words, gaps, |words|, chain);
  }

  /** The sweep ends exactly where a chain can end: no false negative, no false positive. */
  lemma EndsAreChainEnds(words: seq<seq<nat>>, gaps: seq<nat>, q: nat)
    requires 1 <= |words| <= |gaps| + 1
    ensures q in Ends(words, gaps, |words|) <==> EndsChain(words, gaps, q)
  {
    if q in Ends(words, gaps, |words|) {
      EndsToChain(words, gaps, q);
    } else if EndsChain(words, gaps, q) {
      ChainToEnds(words, gaps, q);
    }
  }

  lemma {:induction false} NothingFromNothing(positions: seq<nat>, gap: nat)
    ensures Reachable([], positions, gap) == []
  {
    if positions != [] {
      NothingFromNothing(positions[..|positions| - 1], gap);
    }
  }

  /** A word that no chain end reaches leaves no chain at all. */
  lemma {:induction false} NoEndsNoChain(words: seq<seq<nat>>, gaps: seq<nat>, n: nat)
    requires 1 <= n <= |words| <= |gaps| + 1
    requires Ends(words, gaps, n) == []
    ensures Ends(words, gaps, |words|) == []
    decreases |words| - n
  {
    if n < |words| {
      NothingFromNothing(words[n], gaps[n - 1]);
      NoEndsNoChain(words, gaps, n + 1);
    }
  }

  /** Holds where the chains of the words seen so far can end. */
  class ChainSweep {
    var feasible: seq<nat>
    var next: seq<nat>

    constructor ()
      ensures feasible == []
    {
      feasible, next := [], [];
    }

    method Start(firstWord: seq<nat>)
      modifies this
      ensures feasible == firstWord
    {
      feasible := firstWord;
    }

    /** `feasible` becomes the ends of the chains that go on through `positions`. */
    method Extend(positions: seq<nat>, gap: nat) returns (any: bool)
      requires Sorted(feasible) && Sorted(positions)
      modifies this
      ensures feasible == Reachable(old(feasible), positions, gap)
      ensures Sorted(feasible)
      ensures any == (feasible != [])
    {
      var window := gap + 1;
      next := [];
      var j := 0;
      for i := 0 to |positions|
        invariant feasible == old(feasible)
        invariant 0 <= j <= |feasible|
        invariant forall m :: 0 <= m < j ==> i > 0 && feasible[m] + window < positions[i - 1]
        invariant next == Reachable(feasible, positions[..i], gap)
      {
        var q := positions[i];
        var lo := Max(q - window, 0);
        while j < |feasible| && feasible[j] < lo
          invariant 0 <= j <= |feasible|
          invariant forall m :: 0 <= m < j ==> feasible[m] + window < q
        {
          j := j + 1;
        }
        assert positions[..i + 1][..i] == positions[..i];
        var reached := j < |feasible| && feasible[j] < q;
        assert reached == Follows(feasible, q, gap) by {
          if reached {
            assert feasible[j] in feasible;
          } else {
            forall p | p in feasible ensures !InStep(p, q, gap) {
              var m :| 0 <= m < |feasible| && feasible[m] == p;
            }
          }
        }
        if reached {
          next := next + [q];
        }
      }
      assert positions[..|positions|] == positions;
      feasible, next := next, feasible;
      ReachableSorted(old(feasible), positions, gap);
      any := feasible != [];
    }

    /** `any` tells whether the words have a chain; if so, `feasible` is left with all of their ends. */
    method Chain(words: seq<seq<nat>>, gaps: seq<nat>) returns (any: bool)
      requires words != [] ==> |gaps| + 1 == |words|
      requires forall w :: w in words ==> Sorted(w)
      modifies this
      ensures any == (words != [] && Ends(words, gaps, |words|) != [])
      ensures any ==> feasible == Ends(words, gaps, |words|) && Sorted(feasible)
    {
      if words == [] {
        return false;
      }
      assert words[0] in words;
      Start(words[0]);
      if feasible == [] {
        NoEndsNoChain(words, gaps, 1);
        return false;
      }
      for i := 1 to |words|
        invariant Sorted(feasible) && feasible != []
        invariant feasible == Ends(words, gaps, i)
      {
        assert words[i] in words;
        any := Extend(words[i], gaps[i - 1]);
        if !any {
          NoEndsNoChain(words, gaps, i + 1);
          return;
        }
      }
      any := true;
    }
  }

  /** Some chain ends `slack` before `last`. */
  ghost predicate EndSlack(words: seq<seq<nat>>, gaps: seq<nat>, last: nat, slack: nat) {
    slack <= last && EndsChain(words, gaps, last - slack)
  }

  /** Some chain starts `slack` after `first`. */
  ghost predicate StartSlack(words: seq<seq<nat>>, gaps: seq<nat>, first: nat, slack: nat) {
    StartsChain(words, gaps, first + slack)
  }

  /** `best` is the least number satisfying `holds` when one is at most `bound`. */
  ghost predicate LeastWithin(holds: nat -> bool, bound: nat, best: Option<nat>) {
    match best
    case None => forall s: nat :: holds(s) ==> s > bound
    case Some(s) => s <= bound && holds(s) && forall t: nat :: holds(t) ==> s <= t
  }

  lemma EndSlackInEnds(words: seq<seq<nat>>, gaps: seq<nat>, last: nat, slack: nat)
    requires 1 <= |words| <= |gaps| + 1
    ensures EndSlack(words, gaps, last, slack) <==> slack <= last && last - slack in Ends(words, gaps, |words|)
  {
    if slack <= last {
      EndsAreChainEnds(words, gaps, last - slack);
    }
  }

  /** `ends[..i]` are the chain ends not after `last`. */
  lemma NearestEnd(words: seq<seq<nat>>, gaps: seq<nat>, last: nat, maxSlack: nat, i: nat, slack: Option<nat>)
    requires 1 <= |words| <= |gaps| + 1
    requires i <= |Ends(words, gaps, |words|)| && Sorted(Ends(words, gaps, |words|))
    requires forall m :: 0 <= m < i ==> Ends(words, gaps, |words|)[m] <= last
    requires forall m :: i <= m < |Ends(words, gaps, |words|)| ==> Ends(words, gaps, |words|)[m] > last
    requires slack == if i > 0 && last - Ends(words, gaps, |words|)[i - 1] <= maxSlack
                      then Some(last - Ends(words, gaps, |words|)[i - 1]) else None
    ensures LeastWithin((s: nat) => EndSlack(words, gaps, last, s), maxSlack, slack)
  {
    var ends := Ends(words, gaps, |words|);
    forall s: nat | EndSlack(words, gaps, last, s) ensures i > 0 && last - ends[i - 1] <= s {
      EndSlackInEnds(words, gaps, last, s);
      var m :| 0 <= m < |ends| && ends[m] == last - s;
    }
    if slack.Some? {
      assert ends[i - 1] in ends;
      EndSlackInEnds(words, gaps, last, slack.value);
    }
  }

  /** The least slack, up to `maxSlack`, between a chain's end and `last`. */
  method EndAnchoredSlack(sweep: ChainSweep, words: seq<seq<nat>>, gaps: seq<nat>, last: nat, maxSlack: nat)
    returns (slack: Option<nat>)
    requires words != [] ==> |gaps| + 1 == |words|
    requires forall w :: w in words ==> Sorted(w)
    modifies sweep
    ensures words != [] ==> LeastWithin((s: nat) => EndSlack(words, gaps, last, s), maxSlack, slack)
    ensures words == [] ==> slack == None
  {
    var any := sweep.Chain(words, gaps);
    if !any {
      if words != [] {
        NearestEnd(words, gaps, last, maxSlack, 0, None);
      }
      return None;
    }
    var ends := sweep.feasible;
    var i := |ends|;
    while i > 0 && ends[i - 1] > last
      invariant 0 <= i <= |ends|
      invariant forall m :: i <= m < |ends| ==> ends[m] > last
    {
      i := i - 1;
    }
    slack := if i > 0 && last - ends[i - 1] <= maxSlack then Some(last - ends[i - 1]) else None;
    NearestEnd(words, gaps, last, maxSlack, i, slack);
  }

  lemma ChainAs(words: seq<seq<nat>>, others: seq<seq<nat>>, gaps: seq<nat>, chain: seq<nat>)
    requires IsChain(words, gaps, |words|, chain) && |others| == |words|
    requires forall i :: 0 <= i < |chain| ==> chain[i] in others[i]
    ensures IsChain(others, gaps, |others|, chain)
  {
  }

  /** The words with the first one fixed at `start`. */
  function FixedAt(words: seq<seq<nat>>, start: nat): (fixed: seq<seq<nat>>)
    requires words != []
    ensures |fixed| == |words| && fixed[0] == [start] && forall i :: 1 <= i < |words| ==> fixed[i] == words[i]
  {
    words[0 := [start]]
  }

  lemma StartCompletes(words: seq<seq<nat>>, gaps: seq<nat>, start: nat)
    requires words != [] && |gaps| + 1 == |words| && StartsChain(words, gaps, start)
    ensures Ends(FixedAt(words, start), gaps, |words|) != []
  {
    var chain :| IsChain(words, gaps, |words|, chain) && chain != [] && chain[0] == start;
    ChainAs(words, FixedAt(words, start), gaps, chain);
    ChainReachesEnd(FixedAt(words, start), gaps, |words|, chain);
  }

  lemma CompletionStarts(words: seq<seq<nat>>, gaps: seq<nat>, start: nat)
    requires words != [] && |gaps| + 1 == |words| && start in words[0]
    requires Ends(FixedAt(words, start), gaps, |words|) != []
    ensures StartsChain(words, gaps, start)
  {
    var fixed := FixedAt(words, start);
    var chain := EndHasChain(fixed, gaps, |words|, Ends(fixed, gaps, |words|)[0]);
    assert chain[0] in fixed[0];
    ChainAs(fixed, words, gaps, chain);
  }

  /** `head[..i]` starts no chain at or after `first`, and `head[i]`, when given, starts one. */
  lemma NearestStart(words: seq<seq<nat>>, gaps: seq<nat>, first: nat, maxSlack: nat, i: nat, slack: Option<nat>)
    requires words != [] && Sorted(words[0]) && i <= |words[0]|
    requires forall m ::
               0 <= m < i && first <= words[0][m] <= first + maxSlack ==> !StartsChain(words, gaps, words[0][m])
    requires slack == None ==> i == |words[0]|
    requires slack.Some? ==> slack.value <= maxSlack && i < |words[0]| && words[0][i] == first + slack.value
    requires slack.Some? ==> StartsChain(words, gaps, first + slack.value)
    ensures LeastWithin((s: nat) => StartSlack(words, gaps, first, s), maxSlack, slack)
  {
    forall s: nat | StartSlack(words, gaps, first, s) && s <= maxSlack
      ensures exists m :: i <= m < |words[0]| && words[0][m] == first + s
    {
      assert first + s in words[0];
    }
  }

  /** The least slack, up to `maxSlack`, between `first` and a chain's start. */
  method StartAnchoredSlack(sweep: ChainSweep, words: seq<seq<nat>>, gaps: seq<nat>, first: nat, maxSlack: nat)
    returns (slack: Option<nat>)
    requires words != [] ==> |gaps| + 1 == |words|
    requires forall w :: w in words ==> Sorted(w)
    requires forall w :: w in words ==> forall p :: p in w ==> p <= U32_MAX
    modifies sweep
    ensures words != [] ==> LeastWithin((s: nat) => StartSlack(words, gaps, first, s), maxSlack, slack)
    ensures words == [] ==> slack == None
  {
    if words == [] {
      return None;
    }
    var head := words[0];
    assert head in words;
    var windowEnd := Min(first + maxSlack, U32_MAX);
    for i := 0 to |head|
      invariant forall m :: 0 <= m < i && first <= head[m] <= first + maxSlack ==> !StartsChain(words, gaps, head[m])
    {
      var start := head[i];
      assert start in head;
      if start >= first && start <= windowEnd {
        var completes := sweep.Chain(FixedAt(words, start), gaps);
        if StartsChain(words, gaps, start) {
          StartCompletes(words, gaps, start);
        }
        if completes {
          CompletionStarts(words, gaps, start);
          NearestStart(words, gaps, first, maxSlack, i, Some(start - first));
          return Some(start - first);
        }
      }
    }
    NearestStart(words, gaps, first, maxSlack, |head|, None);
    slack := None;
  }
}
