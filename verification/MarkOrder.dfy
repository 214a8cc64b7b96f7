/** The canonical order of Hebrew marks, and the pattern that finds a vocalized word whatever marks
    were left out when it was typed. */
module MarkOrder {
  import opened Prelude

  /** Combining grapheme joiner: dropped from terms and queries. */
  const CGJ: char := '\U{034F}'

  predicate In(c: char, lo: char, hi: char) {
    lo <= c <= hi
  }

  /** Classes by which adjacent marks are ordered; what has class 0 never moves. */
  function MarkClass(c: char): nat {
    if In(c, '\U{05B0}', '\U{05B7}') then 10 + (c as int - '\U{05B0}' as int)
    else if c == '\U{05B8}' || c == '\U{05C7}' then 18
    else if In(c, '\U{05B9}', '\U{05BA}') then 19
    else if c == '\U{05BB}' then 20
    else if c == '\U{05BC}' then 21
    else if c == '\U{05BD}' then 22
    else if c == '\U{05BF}' then 23
    else if c == '\U{05C1}' then 24
    else if c == '\U{05C2}' then 25
    else if c == '\U{0591}' || c == '\U{0596}' || c == '\U{059B}' then 220
    else if In(c, '\U{05A2}', '\U{05A7}') || c == '\U{05AA}' || c == '\U{05C5}' then 220
    else if c == '\U{059A}' || c == '\U{05AD}' then 222
    else if c == '\U{05AE}' then 228
    else if In(c, '\U{0592}', '\U{05AF}') || c == '\U{05C4}' then 230
    else if In(c, '\U{0334}', '\U{0338}') then 1
    else if c == '\U{0321}' || c == '\U{0322}' || c == '\U{0327}' || c == '\U{0328}' then 202
    else if c == '\U{031B}' then 216
    else if In(c, '\U{0316}', '\U{0319}') || In(c, '\U{031C}', '\U{0320}') || In(c, '\U{0323}', '\U{0326}')
        || In(c, '\U{0329}', '\U{0333}')
            || In(c, '\U{0339}', '\U{033C}') || In(c, '\U{0347}', '\U{0349}') || c == '\U{034D}' || c == '\U{034E}'
            || In(c, '\U{0353}', '\U{0356}') || c == '\U{0359}' || c == '\U{035A}' then 220
    else if c == '\U{0315}' || c == '\U{031A}' || c == '\U{0358}' then 232
    else if c == '\U{035C}' || c == '\U{035F}' || c == '\U{0362}' then 233
    else if c == '\U{035D}' || c == '\U{035E}' || c == '\U{0360}' || c == '\U{0361}' then 234
    else if c == '\U{0345}' then 240
    else if In(c, '\U{0300}', '\U{034E}') || In(c, '\U{0350}', '\U{036F}') then 230
    else 0
  }

  /** Points and accents attached to a letter, without the separators of their range. */
  predicate IsAttachedMark(c: char) {
    In(c, '\U{0591}', '\U{05C7}') && c != '\U{05BE}' && c != '\U{05C0}' && c != '\U{05C3}' && c != '\U{05C6}'
  }

  predicate IsGeneralCombiningMark(c: char) {
    In(c, '\U{0300}', '\U{036F}')
  }

  /** Every mark but the joiner has a class, and nothing else has one. */
  lemma MarksHaveClasses(c: char)
    ensures MarkClass(c) != 0 <==> (IsAttachedMark(c) || IsGeneralCombiningMark(c)) && c != CGJ
  {
  }

  // ── The canonical form ───────────────────────────────────────────────────────

  /** `c` put after the marks of its run that are not of a higher class. */
  function Placed(out: string, c: char): string {
    if MarkClass(c) != 0 && out != [] && MarkClass(out[|out| - 1]) > MarkClass(c)
    then Placed(out[..|out| - 1], c) + [out[|out| - 1]]
    else out + [c]
  }

  /** The specification: characters put in their places one after another, joiners dropped. */
  function Canonical(s: string): string {
    if s == [] then []
    else if s[|s| - 1] == CGJ then Canonical(s[..|s| - 1])
    else Placed(Canonical(s[..|s| - 1]), s[|s| - 1])
  }

  predicate StepsUp(s: string, i: nat)
    requires i + 1 < |s|
  {
    MarkClass(s[i + 1]) == 0 || MarkClass(s[i]) <= MarkClass(s[i + 1])
  }

  /** No mark follows one of a higher class, and no joiner is left. */
  ghost predicate IsCanonical(s: string) {
    && (forall i :: 0 <= i < |s| ==> s[i] != CGJ)
    && (forall i {:trigger StepsUp(s, i)} :: 0 <= i < |s| - 1 ==> StepsUp(s, i))
  }

  lemma CanonicalAppend(s: string, c: char)
    requires IsCanonical(s) && c != CGJ
    requires MarkClass(c) == 0 || s == [] || MarkClass(s[|s| - 1]) <= MarkClass(c)
    ensures IsCanonical(s + [c])
  {
    var t := s + [c];
    forall i | 0 <= i < |t| - 1 ensures StepsUp(t, i) {
      assert t[i] == s[i];
      if i + 1 < |s| {
        assert StepsUp(s, i) && t[i + 1] == s[i + 1];
      } else {
        assert i == |s| - 1 && t[i + 1] == c;
      }
    }
    forall i | 0 <= i < |t| ensures t[i] != CGJ {
      assert t[i] == c || t[i] == s[i];
    }
  }

  lemma CanonicalFront(s: string)
    requires IsCanonical(s) && s != []
    ensures IsCanonical(s[..|s| - 1])
    ensures |s| > 1 ==> MarkClass(s[|s| - 1]) == 0 || MarkClass(s[|s| - 2]) <= MarkClass(s[|s| - 1])
  {
    var t := s[..|s| - 1];
    forall i | 0 <= i < |t| - 1 ensures StepsUp(t, i) {
      assert StepsUp(s, i);
    }
    assert |s| > 1 ==> StepsUp(s, |s| - 2);
  }

  lemma {:induction false} PlacedIsCanonical(out: string, c: char)
    requires IsCanonical(out) && c != CGJ
    ensures IsCanonical(Placed(out, c)) && |Placed(out, c)| == |out| + 1
    ensures Placed(out, c)[|out|] == c || (out != [] && Placed(out, c)[|out|] == out[|out| - 1])
  {
    if MarkClass(c) != 0 && out != [] && MarkClass(out[|out| - 1]) > MarkClass(c) {
      var front, last := out[..|out| - 1], out[|out| - 1];
      CanonicalFront(out);
      PlacedIsCanonical(front, c);
      CanonicalAppend(Placed(front, c), last);
    } else {
      CanonicalAppend(out, c);
    }
  }

  /** The canonical form is in order. */
  lemma {:induction false} CanonicalIsCanonical(s: string)
    ensures IsCanonical(Canonical(s))
  {
    if s != [] {
      CanonicalIsCanonical(s[..|s| - 1]);
      if s[|s| - 1] != CGJ {
        PlacedIsCanonical(Canonical(s[..|s| - 1]), s[|s| - 1]);
      }
    }
  }

  /** What is in order already stays as it is. */
  lemma {:induction false} CanonicalStays(s: string)
    requires IsCanonical(s)
    ensures Canonical(s) == s
  {
    if s != [] {
      CanonicalFront(s);
      CanonicalStays(s[..|s| - 1]);
      assert s == s[..|s| - 1] + [s[|s| - 1]];
    }
  }

  lemma CanonicalIdempotent(s: string)
    ensures Canonical(Canonical(s)) == Canonical(s)
  {
    CanonicalIsCanonical(s);
    CanonicalStays(Canonical(s));
  }

  // ── The code: a fast check, then runs sorted one by one ──────────────────────

  /** The standard library's stable sort of a run. */
  function StablySorted(run: string): string {
    if run == [] then [] else Placed(StablySorted(run[..|run| - 1]), run[|run| - 1])
  }

  lemma PlacedBelow(front: string, last: char, c: char)
    requires MarkClass(c) != 0 && MarkClass(last) > MarkClass(c)
    ensures Placed(front + [last], c) == Placed(front, c) + [last]
  {
    assert (front + [last])[..|front|] == front;
  }

  /** A run is sorted on its own, after a character that is no mark. */
  lemma {:induction false} PlacedInRun(out: string, sorted: string, c: char)
    requires out == [] || MarkClass(out[|out| - 1]) == 0
    ensures Placed(out + sorted, c) == out + Placed(sorted, c)
  {
    if sorted == [] {
      assert out + sorted == out;
    } else {
      var front, last := sorted[..|sorted| - 1], sorted[|sorted| - 1];
      assert sorted == front + [last];
      Regroup(out, front, [last]);
      if MarkClass(c) != 0 && MarkClass(last) > MarkClass(c) {
        PlacedInRun(out, front, c);
        PlacedBelow(out + front, last, c);
        Regroup(out, Placed(front, c), [last]);
      } else {
        Regroup(out, sorted, [c]);
      }
    }
  }

  lemma CanonicalMore(s: string, c: char)
    ensures Canonical(s + [c]) == if c == CGJ then Canonical(s) else Placed(Canonical(s), c)
  {
    assert (s + [c])[..|s + [c]| - 1] == s;
  }

  /** Is the text in order already? */
  method IsInOrder(s: string) returns (inOrder: bool)
    ensures inOrder <==> IsCanonical(s)
  {
    var prev := 0;
    for i := 0 to |s|
      invariant IsCanonical(s[..i])
      invariant prev == if i == 0 then 0 else MarkClass(s[i - 1])
    {
      var c := MarkClass(s[i]);
      if s[i] == CGJ || !(c == 0 || prev <= c) {
        assert i > 0 && s[i] != CGJ ==> !StepsUp(s, i - 1);
        return false;
      }
      assert s[..i + 1] == s[..i] + [s[i]];
      CanonicalAppend(s[..i], s[i]);
      prev := c;
    }
    assert s[..|s|] == s;
    inOrder := true;
  }

  /** Computes `Canonical`, one run of marks at a time. */
  method CanonicalMarkOrder(s: string) returns (r: string)
    ensures r == Canonical(s)
  {
    var inOrder := IsInOrder(s);
    if inOrder {
      CanonicalStays(s);
      return s;
    }
    var out, run := "", "";
    for i := 0 to |s|
      invariant Sorting(s[..i], out, run)
    {
      var c := s[i];
      SortsOn(s[..i], out, run, c);
      assert s[..i + 1] == s[..i] + [c];
      if c != CGJ {
        if MarkClass(c) == 0 {
          out := out + StablySorted(run) + [c];
          run := "";
        } else {
          run := run + [c];
        }
      }
    }
    assert s[..|s|] == s;
    r := out + StablySorted(run);
  }

  /** `out` is done, and `run` is the run of marks still being gathered. */
  ghost predicate Sorting(done: string, out: string, run: string) {
    && (out == "" || MarkClass(out[|out| - 1]) == 0)
    && Canonical(done) == out + StablySorted(run)
  }

  lemma SortsOn(done: string, out: string, run: string, c: char)
    requires Sorting(done, out, run)
    ensures c == CGJ ==> Sorting(done + [c], out, run)
    ensures c != CGJ && MarkClass(c) == 0 ==> Sorting(done + [c], out + StablySorted(run) + [c], "")
    ensures c != CGJ && MarkClass(c) != 0 ==> Sorting(done + [c], out, run + [c])
  {
    CanonicalMore(done, c);
    if c != CGJ && MarkClass(c) == 0 {
      FlushedRun(out + StablySorted(run) + [c]);
    } else if c != CGJ {
      PlacedInRun(out, StablySorted(run), c);
      assert (run + [c])[..|run|] == run;
    }
  }

  lemma FlushedRun(out: string)
    ensures out + StablySorted("") == out
  {
  }

  // ── A normal form ────────────────────────────────────────────────────────────

  function WithoutJoiners(s: string): string {
    if s == [] then [] else WithoutJoiners(s[..|s| - 1]) + if s[|s| - 1] == CGJ then [] else [s[|s| - 1]]
  }

  /** Neighbours that may change places: marks of different classes. */
  predicate MaySwap(a: char, b: char) {
    MarkClass(a) != 0 && MarkClass(b) != 0 && MarkClass(a) != MarkClass(b)
  }

  ghost predicate SwappedAt(s: string, t: string, i: nat) {
    i + 1 < |s| == |t| && MaySwap(s[i], s[i + 1]) && t == s[i := s[i + 1]][i + 1 := s[i]]
  }

  /** One from the other by one swap. */
  ghost predicate Swapped(s: string, t: string) {
    exists i :: SwappedAt(s, t, i)
  }

  ghost predicate SwapsTo(path: seq<string>, i: nat)
    requires 0 < i < |path|
  {
    Swapped(path[i - 1], path[i])
  }

  ghost predicate IsPath(path: seq<string>) {
    path != [] && forall i {:trigger SwapsTo(path, i)} :: 0 < i < |path| ==> SwapsTo(path, i)
  }

  /** One from the other by swaps. */
  ghost predicate Equivalent(s: string, t: string) {
    exists path {:trigger IsPath(path)} :: IsPath(path) && path[0] == s && path[|path| - 1] == t
  }

  lemma EquivalentItself(s: string)
    ensures Equivalent(s, s)
  {
    var path := [s];
    assert IsPath(path) && path[0] == s && path[|path| - 1] == s;
  }

  lemma EquivalentMore(s: string, t: string, u: string)
    requires Equivalent(s, t) && Swapped(t, u)
    ensures Equivalent(s, u)
  {
    var path :| IsPath(path) && path[0] == s && path[|path| - 1] == t;
    var longer := path + [u];
    forall i | 0 < i < |longer| ensures SwapsTo(longer, i) {
      if i < |path| {
        assert SwapsTo(path, i);
      }
    }
    assert IsPath(longer) && longer[0] == s && longer[|longer| - 1] == u;
  }

  lemma {:induction false} PathJoins(s: string, path: seq<string>, i: nat)
    requires IsPath(path) && Equivalent(s, path[0]) && i < |path|
    ensures Equivalent(s, path[i])
  {
    if i > 0 {
      PathJoins(s, path, i - 1);
      assert SwapsTo(path, i);
      EquivalentMore(s, path[i - 1], path[i]);
    }
  }

  lemma EquivalentTransitive(s: string, t: string, u: string)
    requires Equivalent(s, t) && Equivalent(t, u)
    ensures Equivalent(s, u)
  {
    var path :| IsPath(path) && path[0] == t && path[|path| - 1] == u;
    PathJoins(s, path, |path| - 1);
  }

  lemma SwapBack(s: string, t: string)
    requires Swapped(s, t)
    ensures Swapped(t, s)
  {
    var i: nat :| SwappedAt(s, t, i);
    assert SwappedAt(t, s, i);
  }

  lemma BackThenOn(s: string, t: string, u: string)
    requires Swapped(s, t) && Equivalent(s, u)
    ensures Equivalent(t, u)
  {
    SwapBack(s, t);
    EquivalentItself(t);
    EquivalentMore(t, t, s);
    EquivalentTransitive(t, s, u);
  }

  lemma {:induction false} PathBack(path: seq<string>, i: nat)
    requires IsPath(path) && i < |path|
    ensures Equivalent(path[i], path[0])
    decreases i
  {
    if i == 0 {
      EquivalentItself(path[0]);
    } else {
      PathBack(path, i - 1);
      assert SwapsTo(path, i);
      BackThenOn(path[i - 1], path[i], path[0]);
    }
  }

  lemma EquivalentSymmetric(s: string, t: string)
    requires Equivalent(s, t)
    ensures Equivalent(t, s)
  {
    var path :| IsPath(path) && path[0] == s && path[|path| - 1] == t;
    PathBack(path, |path| - 1);
  }

  /** Two marks of different classes end up the same whichever comes first. */
  lemma {:induction false} PlacesCommute(out: string, a: char, b: char)
    requires MaySwap(a, b)
    ensures Placed(Placed(out, a), b) == Placed(Placed(out, b), a)
  {
    if out != [] && MarkClass(out[|out| - 1]) > MarkClass(a) && MarkClass(out[|out| - 1]) > MarkClass(b) {
      var front, last := out[..|out| - 1], out[|out| - 1];
      PlacesCommute(front, a, b);
      assert (Placed(front, a) + [last])[..|Placed(front, a) + [last]| - 1] == Placed(front, a);
      assert (Placed(front, b) + [last])[..|Placed(front, b) + [last]| - 1] == Placed(front, b);
    } else if MarkClass(a) < MarkClass(b) {
      PlaceSecond(out, a, b);
    } else {
      PlaceSecond(out, b, a);
    }
  }

  /** A mark of a lower class goes before one just appended. */
  lemma PlaceSecond(out: string, a: char, b: char)
    requires MarkClass(a) != 0 && MarkClass(a) < MarkClass(b)
    requires out == [] || MarkClass(out[|out| - 1]) <= MarkClass(b)
    ensures Placed(Placed(out, a), b) == Placed(Placed(out, b), a)
  {
    assert (out + [b])[..|out + [b]| - 1] == out;
    assert Placed(Placed(out, b), a) == Placed(out, a) + [b];
    PlacedLast(out, a);
  }

  lemma {:induction false} PlacedLast(out: string, c: char)
    ensures Placed(out, c) != []
    ensures Placed(out, c)[|Placed(out, c)| - 1] == c
              || (out != [] && Placed(out, c)[|Placed(out, c)| - 1] == out[|out| - 1])
  {
  }

  lemma LastApart(s: string, rest: string)
    requires rest != []
    ensures var (front, c) := (Canonical(s + rest[..|rest| - 1]), rest[|rest| - 1]);
            Canonical(s + rest) == if c == CGJ then front else Placed(front, c)
  {
    assert (s + rest)[..|s + rest| - 1] == s + rest[..|rest| - 1];
  }

  lemma {:induction false} CanonicalOfBoth(s: string, t: string, rest: string)
    requires Canonical(s) == Canonical(t)
    ensures Canonical(s + rest) == Canonical(t + rest)
  {
    if rest == [] {
      assert s + rest == s && t + rest == t;
    } else {
      var front, last := rest[..|rest| - 1], rest[|rest| - 1];
      CanonicalOfBoth(s, t, front);
      LastApart(s, rest);
      LastApart(t, rest);
    }
  }

  /** A swap does not change the canonical form. */
  lemma SwapKeepsCanonical(s: string, t: string)
    requires Swapped(s, t)
    ensures Canonical(s) == Canonical(t)
  {
    var i: nat :| SwappedAt(s, t, i);
    var before, after, a, b := s[..i], s[i + 2..], s[i], s[i + 1];
    assert s == before + [a] + [b] + after && t == before + [b] + [a] + after;
    CanonicalMore(before, a);
    CanonicalMore(before + [a], b);
    CanonicalMore(before, b);
    CanonicalMore(before + [b], a);
    PlacesCommute(Canonical(before), a, b);
    CanonicalOfBoth(before + [a] + [b], before + [b] + [a], after);
  }

  lemma {:induction false} PathKeepsCanonical(path: seq<string>, i: nat, form: string)
    requires IsPath(path) && i < |path| && form == Canonical(path[0])
    ensures Canonical(path[i]) == form
  {
    if i > 0 {
      PathKeepsCanonical(path, i - 1, form);
      StepKeepsCanonical(path, i);
    }
  }

  lemma StepKeepsCanonical(path: seq<string>, i: nat)
    requires IsPath(path) && 0 < i < |path|
    ensures Canonical(path[i]) == Canonical(path[i - 1])
  {
    assert SwapsTo(path, i);
    SwapKeepsCanonical(path[i - 1], path[i]);
  }

  lemma EquivalentKeepsCanonical(s: string, t: string)
    requires Equivalent(s, t)
    ensures Canonical(s) == Canonical(t)
  {
    var path :| IsPath(path) && path[0] == s && path[|path| - 1] == t;
    PathKeepsCanonical(path, |path| - 1, Canonical(s));
  }

  lemma {:induction false} JoinersDoNotMatter(s: string)
    ensures Canonical(WithoutJoiners(s)) == Canonical(s)
  {
    if s != [] {
      var front, last := s[..|s| - 1], s[|s| - 1];
      JoinersDoNotMatter(front);
      CanonicalMore(WithoutJoiners(front), last);
      assert last == CGJ ==> WithoutJoiners(s) == WithoutJoiners(front);
    }
  }

  lemma SwappedWith(s: string, t: string, c: char)
    requires Swapped(s, t)
    ensures Swapped(s + [c], t + [c])
  {
    var i: nat :| SwappedAt(s, t, i);
    assert SwappedAt(s + [c], t + [c], i);
  }

  lemma {:induction false} PathWith(path: seq<string>, c: char, i: nat)
    requires IsPath(path) && i < |path|
    ensures Equivalent(path[0] + [c], path[i] + [c])
  {
    if i == 0 {
      EquivalentItself(path[0] + [c]);
    } else {
      PathWith(path, c, i - 1);
      assert SwapsTo(path, i);
      SwappedWith(path[i - 1], path[i], c);
      EquivalentMore(path[0] + [c], path[i - 1] + [c], path[i] + [c]);
    }
  }

  lemma EquivalentWith(s: string, t: string, c: char)
    requires Equivalent(s, t)
    ensures Equivalent(s + [c], t + [c])
  {
    var path :| IsPath(path) && path[0] == s && path[|path| - 1] == t;
    PathWith(path, c, |path| - 1);
  }

  /** Putting a mark in its place is a series of swaps. */
  lemma {:induction false} PlacedBySwaps(out: string, c: char)
    ensures Equivalent(out + [c], Placed(out, c))
  {
    if MarkClass(c) != 0 && out != [] && MarkClass(out[|out| - 1]) > MarkClass(c) {
      var front, last := out[..|out| - 1], out[|out| - 1];
      assert out + [c] == front + [last] + [c];
      assert SwappedAt(out + [c], front + [c] + [last], |front|);
      EquivalentItself(out + [c]);
      EquivalentMore(out + [c], out + [c], front + [c] + [last]);
      PlacedBySwaps(front, c);
      EquivalentWith(front + [c], Placed(front, c), last);
      EquivalentTransitive(out + [c], front + [c] + [last], Placed(front, c) + [last]);
    } else {
      EquivalentItself(out + [c]);
    }
  }

  lemma {:induction false} CanonicalBySwaps(s: string)
    ensures Equivalent(WithoutJoiners(s), Canonical(s))
  {
    if s == [] {
      EquivalentItself([]);
    } else {
      var front, last := s[..|s| - 1], s[|s| - 1];
      CanonicalBySwaps(front);
      if last == CGJ {
        assert WithoutJoiners(s) == WithoutJoiners(front);
      } else {
        EquivalentWith(WithoutJoiners(front), Canonical(front), last);
        PlacedBySwaps(Canonical(front), last);
        EquivalentTransitive(WithoutJoiners(s), Canonical(front) + [last], Canonical(s));
      }
    }
  }

  /** Two texts have one canonical form exactly when, joiners aside, they differ by swaps of
      neighbouring marks of different classes. */
  lemma CanonicalIsNormalForm(s: string, t: string)
    ensures Canonical(s) == Canonical(t) <==> Equivalent(WithoutJoiners(s), WithoutJoiners(t))
  {
    if Canonical(s) == Canonical(t) {
      CanonicalBySwaps(s);
      CanonicalBySwaps(t);
      EquivalentSymmetric(WithoutJoiners(t), Canonical(t));
      EquivalentTransitive(WithoutJoiners(s), Canonical(s), WithoutJoiners(t));
    } else if Equivalent(WithoutJoiners(s), WithoutJoiners(t)) {
      EquivalentKeepsCanonical(WithoutJoiners(s), WithoutJoiners(t));
      JoinersDoNotMatter(s);
      JoinersDoNotMatter(t);
    }
  }

  // ── Patterns of vocalized words ──────────────────────────────────────────────

  /** What a pattern's free runs accept: every mark, and the separators of the marks' range. */
  predicate IsFree(c: char) {
    IsGeneralCombiningMark(c) || In(c, '\U{0591}', '\U{05C7}')
  }

  /** A pattern, by its literal characters: each is followed by any run of free marks. */
  type Pattern = string

  /** `term` ends with `c`, at `n`, and a run of free marks. */
  ghost predicate EndsWith(term: string, c: char, n: nat) {
    n < |term| && term[n] == c && forall i :: n < i < |term| ==> IsFree(term[i])
  }

  ghost predicate Accepts(pattern: Pattern, term: string)
    decreases |pattern|
  {
    if pattern == [] then term == []
    else exists n: nat :: EndsWith(term, pattern[|pattern| - 1], n) && Accepts(pattern[..|pattern| - 1], term[..n])
  }

  /** Which attached marks must be found: those of the enabled classes. */
  datatype VocalizedFlags = VocalizedFlags(nikud: bool, taamim: bool)

  predicate IsNikudMark(c: char) {
    In(c, '\U{05B0}', '\U{05BC}') || c == '\U{05BF}' || c == '\U{05C1}' || c == '\U{05C2}' || c == '\U{05C7}'
  }

  predicate Requires(flags: VocalizedFlags, c: char) {
    if IsNikudMark(c) then flags.nikud else flags.taamim && IsAttachedMark(c)
  }

  /** Does the pattern ask for the character? */
  predicate IsAsked(flags: VocalizedFlags, c: char) {
    !IsGeneralCombiningMark(c) && (IsAttachedMark(c) ==> Requires(flags, c))
  }

  function Asked(token: string, flags: VocalizedFlags): string {
    if token == [] then []
    else Asked(token[..|token| - 1], flags) + if IsAsked(flags, token[|token| - 1]) then [token[|token| - 1]] else []
  }

  /** The pattern of a typed token. */
  method VocalizedTokenPattern(token: string, flags: VocalizedFlags) returns (pattern: Pattern)
    ensures pattern == Asked(Canonical(token), flags)
  {
    var ordered := CanonicalMarkOrder(token);
    pattern := [];
    for i := 0 to |ordered|
      invariant pattern == Asked(ordered[..i], flags)
    {
      assert ordered[..i + 1][..i] == ordered[..i];
      var c := ordered[i];
      if IsGeneralCombiningMark(c) {
        continue;
      }
      if IsAttachedMark(c) {
        if Requires(flags, c) {
          pattern := pattern + [c];
        }
      } else {
        pattern := pattern + [c];
      }
    }
    assert ordered[..|ordered|] == ordered;
  }

  predicate IsMark(c: char) {
    IsAttachedMark(c) || IsGeneralCombiningMark(c)
  }

  /** `t` is `s` with some of its marks left out. */
  ghost predicate Thinned(s: string, t: string) {
    if s == [] then t == []
    else
      || (t != [] && t[|t| - 1] == s[|s| - 1] && Thinned(s[..|s| - 1], t[..|t| - 1]))
      || (IsMark(s[|s| - 1]) && Thinned(s[..|s| - 1], t))
  }

  lemma ThinnedKeeps(s: string, t: string, c: char)
    requires Thinned(s, t)
    ensures Thinned(s + [c], t + [c])
  {
    assert (s + [c])[..|s|] == s && (t + [c])[..|t|] == t;
  }

  lemma ThinnedDrops(s: string, t: string, c: char)
    requires Thinned(s, t) && IsMark(c)
    ensures Thinned(s + [c], t)
  {
    assert (s + [c])[..|s|] == s;
  }

  /** With nothing above `c` at its end, what is left of a text in order has nothing above it either. */
  lemma {:induction false} ThinnedEnd(s: string, t: string, c: char)
    requires Thinned(s, t) && IsCanonical(s) && MarkClass(c) != 0
    requires s == [] || MarkClass(s[|s| - 1]) <= MarkClass(c)
    ensures t == [] || MarkClass(t[|t| - 1]) <= MarkClass(c)
  {
    if s != [] && !(t != [] && t[|t| - 1] == s[|s| - 1] && Thinned(s[..|s| - 1], t[..|t| - 1])) {
      MarksHaveClasses(s[|s| - 1]);
      CanonicalFront(s);
      ThinnedEnd(s[..|s| - 1], t, c);
    }
  }

  /** Putting a character into both keeps one thinned from the other. */
  lemma {:induction false} ThinnedPlaces(s: string, t: string, c: char)
    requires Thinned(s, t) && IsCanonical(s)
    ensures Thinned(Placed(s, c), Placed(t, c))
  {
    if MarkClass(c) != 0 && s != [] && MarkClass(s[|s| - 1]) > MarkClass(c) {
      var front, last := s[..|s| - 1], s[|s| - 1];
      CanonicalFront(s);
      if t != [] && t[|t| - 1] == last && Thinned(front, t[..|t| - 1]) {
        ThinnedPlaces(front, t[..|t| - 1], c);
        ThinnedKeeps(Placed(front, c), Placed(t[..|t| - 1], c), last);
      } else {
        ThinnedPlaces(front, t, c);
        ThinnedDrops(Placed(front, c), Placed(t, c), last);
      }
    } else {
      if MarkClass(c) != 0 {
        ThinnedEnd(s, t, c);
      }
      ThinnedKeeps(s, t, c);
    }
  }

  /** A mark put into one of the texts can be left out of the other. */
  lemma {:induction false} ThinnedWithout(s: string, t: string, c: char)
    requires Thinned(s, t) && IsMark(c)
    ensures Thinned(Placed(s, c), t)
  {
    if MarkClass(c) != 0 && s != [] && MarkClass(s[|s| - 1]) > MarkClass(c) {
      var front, last := s[..|s| - 1], s[|s| - 1];
      if t != [] && t[|t| - 1] == last && Thinned(front, t[..|t| - 1]) {
        ThinnedWithout(front, t[..|t| - 1], c);
        ThinnedKeeps(Placed(front, c), t[..|t| - 1], last);
        assert t == t[..|t| - 1] + [last];
      } else {
        ThinnedWithout(front, t, c);
        ThinnedDrops(Placed(front, c), t, last);
      }
    } else {
      ThinnedDrops(s, t, c);
    }
  }

  /** Leaving marks out before or after putting the rest in order is the same. */
  lemma {:induction false} ThinnedCanonical(s: string, t: string)
    requires Thinned(s, t)
    ensures Thinned(Canonical(s), Canonical(t))
  {
    if s != [] {
      var front, last := s[..|s| - 1], s[|s| - 1];
      CanonicalIsCanonical(front);
      if t != [] && t[|t| - 1] == last && Thinned(front, t[..|t| - 1]) {
        ThinnedCanonical(front, t[..|t| - 1]);
        if last != CGJ {
          ThinnedPlaces(Canonical(front), Canonical(t[..|t| - 1]), last);
        }
      } else {
        ThinnedCanonical(front, t);
        if last != CGJ {
          ThinnedWithout(Canonical(front), Canonical(t), last);
        }
      }
    }
  }

  lemma {:induction false} AskedIsThinned(s: string, t: string, flags: VocalizedFlags)
    requires Thinned(s, t)
    ensures Thinned(s, Asked(t, flags))
  {
    if s != [] {
      var front, last := s[..|s| - 1], s[|s| - 1];
      if t != [] && t[|t| - 1] == last && Thinned(front, t[..|t| - 1]) {
        AskedIsThinned(front, t[..|t| - 1], flags);
        var asked := Asked(t[..|t| - 1], flags);
        if IsAsked(flags, last) {
          ThinnedKeeps(front, asked, last);
        } else {
          ThinnedDrops(front, asked, last);
          assert Asked(t, flags) == asked;
        }
        assert s == front + [last];
      } else {
        AskedIsThinned(front, t, flags);
      }
    }
  }

  /** The first character of a word is never left out. */
  lemma {:induction false} ThinnedHead(s: string, t: string)
    requires Thinned(s, t) && s != [] && !IsMark(s[0])
    ensures t != [] && t[0] == s[0]
  {
    if |s| > 1 {
      var front := s[..|s| - 1];
      if t != [] && t[|t| - 1] == s[|s| - 1] && Thinned(front, t[..|t| - 1]) {
        ThinnedHead(front, t[..|t| - 1]);
      } else {
        ThinnedHead(front, t);
      }
    } else {
      assert s[..0] == [];
      assert t != [] ==> t[..|t| - 1] == [];
    }
  }

  lemma {:induction false} PlacedHead(out: string, c: char)
    requires out != [] && MarkClass(out[0]) == 0
    ensures Placed(out, c)[0] == out[0]
  {
    if MarkClass(c) != 0 && MarkClass(out[|out| - 1]) > MarkClass(c) {
      assert |out| > 1;
      PlacedHead(out[..|out| - 1], c);
    }
  }

  /** A word's first letter stays first. */
  lemma {:induction false} CanonicalHead(s: string)
    requires s != [] && !IsMark(s[0])
    ensures Canonical(s) != [] && Canonical(s)[0] == s[0]
  {
    MarksHaveClasses(s[0]);
    var front, last := s[..|s| - 1], s[|s| - 1];
    if front == [] {
      assert Canonical(front) == [];
    } else {
      CanonicalHead(front);
      if last != CGJ {
        PlacedHead(Canonical(front), last);
      }
    }
  }

  lemma AcceptsMore(pattern: Pattern, term: string, c: char)
    requires pattern != [] && Accepts(pattern, term) && IsFree(c)
    ensures Accepts(pattern, term + [c])
  {
    var n: nat :| EndsWith(term, pattern[|pattern| - 1], n) && Accepts(pattern[..|pattern| - 1], term[..n]);
    assert EndsWith(term + [c], pattern[|pattern| - 1], n) && (term + [c])[..n] == term[..n];
  }

  lemma AcceptsNext(pattern: Pattern, term: string, c: char)
    requires Accepts(pattern, term)
    ensures Accepts(pattern + [c], term + [c])
  {
    var longer := pattern + [c];
    assert longer[..|longer| - 1] == pattern && (term + [c])[..|term|] == term;
    assert EndsWith(term + [c], longer[|longer| - 1], |term|);
  }

  /** A pattern accepts what it was thinned from, letter first. */
  lemma {:induction false} AcceptsUnthinned(s: string, pattern: Pattern)
    requires Thinned(s, pattern) && s != [] && !IsMark(s[0])
    ensures Accepts(pattern, s)
  {
    var front, last := s[..|s| - 1], s[|s| - 1];
    ThinnedHead(s, pattern);
    if pattern[|pattern| - 1] == last && Thinned(front, pattern[..|pattern| - 1]) {
      if front != [] {
        AcceptsUnthinned(front, pattern[..|pattern| - 1]);
      }
      AcceptsNext(pattern[..|pattern| - 1], front, last);
      assert pattern == pattern[..|pattern| - 1] + [last];
    } else {
      assert front != [];
      AcceptsUnthinned(front, pattern);
      AcceptsMore(pattern, front, last);
    }
    assert s == front + [last];
  }

  /** The pattern of a word typed with any of its marks, in any order with the same canonical form and
      for any classes asked for, accepts the word as it is indexed with all of them. */
  lemma PatternFindsWord(word: string, kept: string, typed: string, flags: VocalizedFlags)
    requires word != [] && !IsMark(word[0]) && Thinned(word, kept)
    requires Equivalent(WithoutJoiners(kept), WithoutJoiners(typed))
    ensures Accepts(Asked(Canonical(typed), flags), Canonical(word))
  {
    CanonicalIsNormalForm(kept, typed);
    CanonicalHead(word);
    ThinnedCanonical(word, kept);
    AskedIsThinned(Canonical(word), Canonical(kept), flags);
    AcceptsUnthinned(Canonical(word), Asked(Canonical(kept), flags));
  }

  /** `t` is `s` with some free characters left out. */
  ghost predicate FreelyThinned(s: string, t: string) {
    if s == [] then t == []
    else
      || (t != [] && t[|t| - 1] == s[|s| - 1] && FreelyThinned(s[..|s| - 1], t[..|t| - 1]))
      || (IsFree(s[|s| - 1]) && FreelyThinned(s[..|s| - 1], t))
  }

  lemma {:induction false} RunLeftOut(s: string, t: string, n: nat)
    requires n <= |s| && FreelyThinned(s[..n], t) && forall i :: n <= i < |s| ==> IsFree(s[i])
    ensures FreelyThinned(s, t)
    decreases |s| - n
  {
    if n < |s| {
      assert s[..n + 1][..n] == s[..n];
      RunLeftOut(s, t, n + 1);
    } else {
      assert s[..n] == s;
    }
  }

  /** Whatever a pattern accepts has everything it asks for, in order, and only free marks besides. */
  lemma {:induction false} AcceptedHasAsked(pattern: Pattern, term: string)
    requires Accepts(pattern, term)
    ensures FreelyThinned(term, pattern)
    decreases |pattern|
  {
    if pattern != [] {
      var n: nat :| EndsWith(term, pattern[|pattern| - 1], n) && Accepts(pattern[..|pattern| - 1], term[..n]);
      AcceptedHasAsked(pattern[..|pattern| - 1], term[..n]);
      assert term[..n + 1][..n] == term[..n];
      RunLeftOut(term, pattern, n + 1);
    }
  }

  // ── Which marks are asked for ────────────────────────────────────────────────

  lemma {:induction false} PlacedHas(out: string, c: char, d: char)
    ensures d in Placed(out, c) <==> d in out || d == c
  {
    if out != "" {
      var front, last := out[..|out| - 1], out[|out| - 1];
      assert out == front + [last];
      PlacedHas(front, c, d);
    }
  }

  lemma {:induction false} CanonicalHas(s: string, d: char)
    ensures d in Canonical(s) <==> d in s && d != CGJ
  {
    if s != "" {
      var front, last := s[..|s| - 1], s[|s| - 1];
      assert s == front + [last];
      CanonicalHas(front, d);
      PlacedHas(Canonical(front), last, d);
    }
  }

  lemma {:induction false} AskedHas(token: string, flags: VocalizedFlags, d: char)
    ensures d in Asked(token, flags) <==> d in token && IsAsked(flags, d)
  {
    if token != "" {
      var front, last := token[..|token| - 1], token[|token| - 1];
      assert token == front + [last];
      AskedHas(front, flags, d);
    }
  }

  /** A pattern asks for the letters typed, for the nikud typed if that is enabled, and for the cantillation
      marks typed if those are; for no general combining mark, nor for the joiner. */
  lemma PatternAsksFor(token: string, flags: VocalizedFlags, d: char)
    ensures d in Asked(Canonical(token), flags)
       <==> d in token && d != CGJ && !IsGeneralCombiningMark(d)
              && (IsAttachedMark(d) ==> if IsNikudMark(d) then flags.nikud else flags.taamim)
  {
    CanonicalHas(token, d);
    AskedHas(Canonical(token), flags, d);
  }

  lemma {:induction false} ThinnedHas(s: string, t: string, d: char)
    requires FreelyThinned(s, t) && d in t
    ensures d in s
  {
    var front, last := s[..|s| - 1], s[|s| - 1];
    assert s == front + [last];
    if t[|t| - 1] == last && FreelyThinned(front, t[..|t| - 1]) {
      assert t == t[..|t| - 1] + [last];
      if d in t[..|t| - 1] {
        ThinnedHas(front, t[..|t| - 1], d);
      }
    } else {
      ThinnedHas(front, t, d);
    }
  }

  /** A word accepted for a token has its letters, and its marks of the classes that are enabled. */
  lemma AcceptedHasMarks(token: string, flags: VocalizedFlags, term: string, d: char)
    requires Accepts(Asked(Canonical(token), flags), term) && d in token
    requires d != CGJ && !IsGeneralCombiningMark(d)
    requires IsAttachedMark(d) ==> if IsNikudMark(d) then flags.nikud else flags.taamim
    ensures d in term
  {
    PatternAsksFor(token, flags, d);
    AcceptedHasAsked(Asked(Canonical(token), flags), term);
    ThinnedHas(term, Asked(Canonical(token), flags), d);
  }

  predicate IsHebrewLetter(c: char) {
    '\U{05D0}' <= c <= '\U{05EA}'
  }

  function HebrewLetters(s: string): string {
    if s == "" then ""
    else HebrewLetters(s[..|s| - 1]) + if IsHebrewLetter(s[|s| - 1]) then [s[|s| - 1]] else ""
  }

  lemma HebrewLettersMore(s: string, c: char)
    ensures HebrewLetters(s + [c]) == HebrewLetters(s) + if IsHebrewLetter(c) then [c] else ""
  {
    assert (s + [c])[..|s|] == s;
  }

  lemma LettersAreNoMarks(c: char)
    requires IsHebrewLetter(c)
    ensures MarkClass(c) == 0 && !IsFree(c) && forall flags :: IsAsked(flags, c)
  {
  }

  lemma {:induction false} PlacedLetters(out: string, c: char)
    ensures HebrewLetters(Placed(out, c)) == HebrewLetters(out) + if IsHebrewLetter(c) then [c] else ""
  {
    if MarkClass(c) != 0 && out != "" && MarkClass(out[|out| - 1]) > MarkClass(c) {
      var front, last := out[..|out| - 1], out[|out| - 1];
      assert out == front + [last];
      PlacedLetters(front, c);
      PlacedBelow(front, last, c);
      MarkPassed(out, front, last, c, Placed(front, c));
    } else {
      HebrewLettersMore(out, c);
    }
  }

  lemma MarkPassed(out: string, front: string, last: char, c: char, placed: string)
    requires out == front + [last] && MarkClass(c) != 0 && MarkClass(last) != 0
    requires HebrewLetters(placed) == HebrewLetters(front) + if IsHebrewLetter(c) then [c] else ""
    ensures HebrewLetters(placed + [last]) == HebrewLetters(out) + if IsHebrewLetter(c) then [c] else ""
  {
    HebrewLettersMore(placed, last);
    HebrewLettersMore(front, last);
    if IsHebrewLetter(c) {
      LettersAreNoMarks(c);
    }
    if IsHebrewLetter(last) {
      LettersAreNoMarks(last);
    }
  }

  lemma {:induction false} CanonicalLetters(s: string)
    ensures HebrewLetters(Canonical(s)) == HebrewLetters(s)
  {
    if s != "" {
      CanonicalLetters(s[..|s| - 1]);
      PlacedLetters(Canonical(s[..|s| - 1]), s[|s| - 1]);
    }
  }

  lemma {:induction false} AskedLetters(s: string, flags: VocalizedFlags)
    ensures HebrewLetters(Asked(s, flags)) == HebrewLetters(s)
  {
    if s != "" {
      AskedLetters(s[..|s| - 1], flags);
      HebrewLettersMore(Asked(s[..|s| - 1], flags), s[|s| - 1]);
      assert Asked(s[..|s| - 1], flags) + [] == Asked(s[..|s| - 1], flags);
      if IsHebrewLetter(s[|s| - 1]) {
        LettersAreNoMarks(s[|s| - 1]);
      }
    }
  }

  lemma {:induction false} ThinnedLetters(s: string, t: string)
    requires FreelyThinned(s, t)
    ensures HebrewLetters(s) == HebrewLetters(t)
  {
    if s != "" {
      if t != "" && t[|t| - 1] == s[|s| - 1] && FreelyThinned(s[..|s| - 1], t[..|t| - 1]) {
        ThinnedLetters(s[..|s| - 1], t[..|t| - 1]);
      } else {
        ThinnedLetters(s[..|s| - 1], t);
        if IsHebrewLetter(s[|s| - 1]) {
          LettersAreNoMarks(s[|s| - 1]);
        }
      }
    }
  }

  /** A word accepted for a token has its letters, in order, and no others. */
  lemma AcceptedHasLetters(token: string, flags: VocalizedFlags, term: string)
    requires Accepts(Asked(Canonical(token), flags), term)
    ensures HebrewLetters(term) == HebrewLetters(token)
  {
    AcceptedHasAsked(Asked(Canonical(token), flags), term);
    ThinnedLetters(term, Asked(Canonical(token), flags));
    AskedLetters(Canonical(token), flags);
    CanonicalLetters(token);
  }
}
