/** Every choice of `k` of `m` candidates, one after the other in an index array advanced in place. */
module Combinations {
  /** Ascending indices below `m`. */
  ghost predicate IsCombination(c: seq<nat>, m: nat) {
    && (forall i, j :: 0 <= i < j < |c| ==> c[i] < c[j])
    && (forall i :: 0 <= i < |c| ==> c[i] < m)
  }

  /** The first place where `a` and `b` differ is `p`, and `a` is less there. */
  ghost predicate LessAt(a: seq<nat>, b: seq<nat>, p: nat) {
    p < |a| == |b| && a[p] < b[p] && forall i :: 0 <= i < p ==> a[i] == b[i]
  }

  ghost predicate LexLess(a: seq<nat>, b: seq<nat>) {
    exists p: nat :: LessAt(a, b, p)
  }

  lemma {:induction false} FirstDifference(a: seq<nat>, b: seq<nat>, n: nat) returns (p: nat)
    requires |a| == |b| && n <= |a| && a[..n] != b[..n]
    ensures p < n && a[p] != b[p] && forall i :: 0 <= i < p ==> a[i] == b[i]
  {
    if a[..n - 1] != b[..n - 1] {
      p := FirstDifference(a, b, n - 1);
    } else {
      p := n - 1;
      assert a[..n] == a[..n - 1] + [a[n - 1]] && b[..n] == b[..n - 1] + [b[n - 1]];
      forall i | 0 <= i < p ensures a[i] == b[i] {
        assert a[..n - 1][i] == b[..n - 1][i];
      }
    }
  }

  /** The order is total, and no choice is before itself. */
  lemma LexTotal(a: seq<nat>, b: seq<nat>)
    requires |a| == |b|
    ensures LexLess(a, b) || LexLess(b, a) || a == b
    ensures !(LexLess(a, b) && LexLess(b, a)) && !LexLess(a, a)
  {
    if a != b {
      assert a[..|a|] == a && b[..|b|] == b;
      var p := FirstDifference(a, b, |a|);
      assert LessAt(a, b, p) || LessAt(b, a, p);
    }
  }

  lemma LexTransitive(a: seq<nat>, b: seq<nat>, c: seq<nat>)
    requires LexLess(a, b) && LexLess(b, c)
    ensures LexLess(a, c)
  {
    var p: nat :| LessAt(a, b, p);
    var q: nat :| LessAt(b, c, q);
    assert LessAt(a, c, if p < q then p else q);
  }

  /** Room must be left for the indices after each one. */
  lemma {:induction false} RoomLeft(c: seq<nat>, m: nat, i: nat)
    requires IsCombination(c, m) && i < |c|
    ensures |c| <= m && c[i] <= m - |c| + i
    decreases |c| - i
  {
    if i + 1 < |c| {
      RoomLeft(c, m, i + 1);
    } else {
      Spaced(c, m, 0, i);
    }
  }

  lemma {:induction false} Spaced(c: seq<nat>, m: nat, i: nat, j: nat)
    requires IsCombination(c, m) && i <= j < |c|
    ensures c[j] >= c[i] + (j - i)
  {
    if i < j {
      Spaced(c, m, i, j - 1);
    }
  }

  /** `a` with its index at `i` moved up and those after it following on. */
  ghost predicate IsMovedAt(a: seq<nat>, b: seq<nat>, i: nat) {
    && i < |a| == |b|
    && (forall j :: 0 <= j < i ==> b[j] == a[j])
    && (forall j :: i <= j < |a| ==> b[j] == a[i] + 1 + (j - i))
  }

  /** No index from `i` on can move up. */
  ghost predicate FullFrom(a: seq<nat>, m: nat, i: nat) {
    |a| <= m && forall j :: i <= j < |a| ==> a[j] == m - |a| + j
  }

  lemma MovedIsCombination(a: seq<nat>, b: seq<nat>, m: nat, i: nat)
    requires IsCombination(a, m) && IsMovedAt(a, b, i) && a[i] + |a| < m + i
    ensures IsCombination(b, m) && LexLess(a, b)
  {
    assert LessAt(a, b, i);
  }

  /** Moving up the last index that can be moved leaves no choice in between. */
  lemma NothingBetween(a: seq<nat>, b: seq<nat>, m: nat, i: nat, c: seq<nat>)
    requires IsCombination(a, m) && IsCombination(c, m) && |c| == |a|
    requires IsMovedAt(a, b, i) && FullFrom(a, m, i + 1)
    requires LexLess(a, c)
    ensures c == b || LexLess(b, c)
  {
    var p: nat :| LessAt(a, c, p);
    RoomLeft(c, m, p);
    if p < i || c[i] > b[i] {
      assert LessAt(b, c, p);
    } else {
      forall j | i <= j < |c| ensures c[j] >= b[j] {
        Spaced(c, m, i, j);
      }
      if c != b {
        assert c[..|c|] == c && b[..|b|] == b;
        var q := FirstDifference(b, c, |b|);
        assert LessAt(b, c, q);
      }
    }
  }

  /** When no index can be moved up, every other choice comes before. */
  lemma NothingAfter(a: seq<nat>, m: nat, c: seq<nat>)
    requires IsCombination(a, m) && IsCombination(c, m) && |c| == |a| && FullFrom(a, m, 0)
    ensures c == a || LexLess(c, a)
  {
    forall p | 0 <= p < |c| ensures c[p] <= a[p] {
      RoomLeft(c, m, p);
    }
    LexTotal(c, a);
  }

  /** The next choice, in place: the last index that can move up does, and those after it follow. */
  method Advance(idx: array<nat>, m: nat) returns (more: bool)
    requires IsCombination(idx[..], m)
    modifies idx
    ensures more ==> IsCombination(idx[..], m) && LexLess(old(idx[..]), idx[..])
    ensures more ==> forall c ::
              IsCombination(c, m) && |c| == idx.Length && LexLess(old(idx[..]), c) ==>
                  c == idx[..] || LexLess(idx[..], c)
    ensures !more ==> idx[..] == old(idx[..])
    ensures !more ==> forall c :: IsCombination(c, m) && |c| == idx.Length ==> c == idx[..] || LexLess(c, idx[..])
  {
    var k := idx.Length;
    ghost var before := idx[..];
    if k > 0 {
      RoomLeft(before, m, 0);
    }
    var i := k;
    while i > 0
      invariant 0 <= i <= k && idx[..] == before && (k <= m ==> FullFrom(before, m, i))
    {
      i := i - 1;
      RoomLeft(before, m, i);
      if idx[i] < m - k + i {
        idx[i] := idx[i] + 1;
        for j := i + 1 to k
          invariant forall h :: 0 <= h < i ==> idx[h] == before[h]
          invariant forall h :: i <= h < j ==> idx[h] == before[i] + 1 + (h - i)
        {
          idx[j] := idx[j - 1] + 1;
        }
        MovedIsCombination(before, idx[..], m, i);
        forall c | IsCombination(c, m) && |c| == k && LexLess(before, c) ensures c == idx[..] || LexLess(idx[..], c) {
          NothingBetween(before, idx[..], m, i, c);
        }
        return true;
      }
    }
    forall c | IsCombination(c, m) && |c| == k ensures c == before || LexLess(c, before) {
      if k > 0 {
        NothingAfter(before, m, c);
      }
    }
    more := false;
  }

  /** The first choice of `k`. */
  function FirstChoice(k: nat): (c: seq<nat>)
    ensures |c| == k && forall i :: 0 <= i < k ==> c[i] == i
  {
    seq(k, i requires 0 <= i < k => i)
  }

  lemma FirstIsFirst(k: nat, m: nat, c: seq<nat>)
    requires k <= m && IsCombination(c, m) && |c| == k
    ensures IsCombination(FirstChoice(k), m)
    ensures c == FirstChoice(k) || LexLess(FirstChoice(k), c)
  {
    var first := FirstChoice(k);
    forall j | 0 <= j < k ensures first[j] <= c[j] {
      Spaced(c, m, 0, j);
    }
    LexTotal(first, c);
  }

  // ── The choices run out ──────────────────────────────────────────────────────

  /** A choice read as a number in base `base`. */
  function Value(c: seq<nat>, base: nat): nat {
    if c == [] then 0 else Value(c[..|c| - 1], base) * base + c[|c| - 1]
  }

  function Power(base: nat, k: nat): nat {
    if k == 0 then 1 else Power(base, k - 1) * base
  }

  lemma Scaled(a: nat, b: nat, n: nat)
    requires a < b
    ensures a * n + n <= b * n
  {
    assert (a + 1) * n <= b * n;
  }

  lemma {:induction false} ValueBounded(c: seq<nat>, base: nat)
    requires forall i :: 0 <= i < |c| ==> c[i] < base
    ensures Value(c, base) < Power(base, |c|)
  {
    if c != [] {
      var front := c[..|c| - 1];
      ValueBounded(front, base);
      Scaled(Value(front, base), Power(base, |front|), base);
    }
  }

  /** Later choices are greater numbers. */
  lemma {:induction false} ValueFollowsOrder(a: seq<nat>, b: seq<nat>, base: nat, p: nat)
    requires LessAt(a, b, p) && (forall i :: 0 <= i < |a| ==> a[i] < base)
    ensures Value(a, base) < Value(b, base)
  {
    var x, y := a[..|a| - 1], b[..|b| - 1];
    if p == |a| - 1 {
      assert x == y;
    } else {
      assert LessAt(x, y, p);
      ValueFollowsOrder(x, y, base, p);
      Scaled(Value(x, base), Value(y, base), base);
    }
  }
}
