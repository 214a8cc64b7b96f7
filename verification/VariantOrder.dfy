/** Which variants a limit leaves in the list: those with fewer distinct ones before them. */
module VariantOrder {
  import opened Prelude
  import opened Combinations
  import opened Spelling

  // ── The choices, as sets ─────────────────────────────────────────────────────

  function Followed(c: seq<nat>, x: nat): seq<nat> {
    c + [x]
  }

  function AllFollowed(choices: set<seq<nat>>, x: nat): (r: set<seq<nat>>)
    ensures [] !in r
  {
    set c | c in choices :: Followed(c, x)
  }

  /** Every choice of `k` of `m` candidates. */
  function Choices(m: nat, k: nat): set<seq<nat>> {
    if k == 0 then {[]}
    else if m == 0 then {}
    else Choices(m - 1, k) + AllFollowed(Choices(m - 1, k - 1), m - 1)
  }

  lemma FollowedIsCombination(c: seq<nat>, m: nat)
    requires m > 0
    ensures IsCombination(Followed(c, m - 1), m) <==> IsCombination(c, m - 1)
  {
    var more := Followed(c, m - 1);
    if IsCombination(more, m) {
      forall i | 0 <= i < |c| ensures c[i] < m - 1 {
        assert more[i] == c[i] && more[|c|] == m - 1;
      }
      forall i, j | 0 <= i < j < |c| ensures c[i] < c[j] {
        assert more[i] == c[i] && more[j] == c[j];
      }
    }
  }

  lemma {:induction false} ChoicesAreCombinations(m: nat, k: nat, c: seq<nat>)
    ensures c in Choices(m, k) <==> IsCombination(c, m) && |c| == k
  {
    if k > 0 && m > 0 {
      ChoicesAreCombinations(m - 1, k, c);
      if c != [] {
        var front := c[..|c| - 1];
        ChoicesAreCombinations(m - 1, k - 1, front);
        FollowedIsCombination(front, m);
        LastChosen(c, front, m, k);
      }
    } else if c != [] {
      assert c[0] >= 0;
    }
  }

  /** A choice either leaves out the last candidate or ends with it. */
  lemma LastChosen(c: seq<nat>, front: seq<nat>, m: nat, k: nat)
    requires m > 0 && k > 0 && c != [] && front == c[..|c| - 1]
    requires c in Choices(m - 1, k) <==> IsCombination(c, m - 1) && |c| == k
    requires front in Choices(m - 1, k - 1) <==> IsCombination(front, m - 1) && |front| == k - 1
    requires IsCombination(Followed(front, m - 1), m) <==> IsCombination(front, m - 1)
    ensures c in Choices(m, k) <==> IsCombination(c, m) && |c| == k
  {
    var last := c[|c| - 1];
    if last == m - 1 {
      assert c == Followed(front, m - 1);
    } else {
      assert forall d :: Followed(d, m - 1)[|d|] == m - 1;
      assert IsCombination(c, m) <==> IsCombination(c, m - 1) by {
        if IsCombination(c, m) {
          forall i | 0 <= i < |c| ensures c[i] < m - 1 {
            assert i < |c| - 1 ==> c[i] < c[|c| - 1];
          }
        }
      }
    }
  }

  /** Every choice of at most `k`. */
  function ChoicesUpTo(m: nat, k: nat): set<seq<nat>> {
    Choices(m, k) + if k == 0 then {} else ChoicesUpTo(m, k - 1)
  }

  lemma {:induction false} ChoicesUpToAre(m: nat, k: nat, c: seq<nat>)
    ensures c in ChoicesUpTo(m, k) <==> IsCombination(c, m) && |c| <= k
  {
    ChoicesAreCombinations(m, k, c);
    if k > 0 {
      ChoicesUpToAre(m, k - 1, c);
    }
  }

  // ── What comes before a choice ───────────────────────────────────────────────

  ghost predicate ComesBefore(word: Word, q: seq<nat>, c: seq<nat>) {
    c != [] && Earlier(c, q) && IsCombination(c, |EditsOf(word)|) && Valid(word, Chosen(EditsOf(word), c))
  }

  /** The word, and the variants that earlier choices make. */
  ghost function Before(word: Word, q: seq<nat>): set<Word> {
    {word}
    + set c | c in ChoicesUpTo(|EditsOf(word)|, |q|) && ComesBefore(word, q, c) ::
        Applied(word, Chosen(EditsOf(word), c))
  }

  lemma BeforeHas(word: Word, q: seq<nat>, c: seq<nat>, v: Word)
    requires c != [] && Earlier(c, q) && Makes(word, EditsOf(word), c, v)
    ensures v in Before(word, q)
  {
    ChoicesUpToAre(|EditsOf(word)|, |q|, c);
    assert ComesBefore(word, q, c);
  }

  lemma BeforeComesFrom(word: Word, q: seq<nat>, v: Word) returns (c: seq<nat>)
    requires v in Before(word, q) && v != word
    ensures c != [] && Earlier(c, q) && Makes(word, EditsOf(word), c, v)
  {
    c :| && c in ChoicesUpTo(|EditsOf(word)|, |q|) && ComesBefore(word, q, c)
         && Applied(word, Chosen(EditsOf(word), c)) == v;
  }

  /** `q` is the first choice that makes `v`. */
  ghost predicate MakesFirst(word: Word, q: seq<nat>, v: Word) {
    q != [] && Makes(word, EditsOf(word), q, v) && v !in Before(word, q)
  }

  // ── Choices are in one order ─────────────────────────────────────────────────

  lemma EarlierIsTotal(a: seq<nat>, b: seq<nat>)
    ensures Earlier(a, b) || Earlier(b, a) || a == b
  {
    if |a| == |b| {
      LexTotal(a, b);
    }
  }

  lemma EarlierTransitive(a: seq<nat>, b: seq<nat>, c: seq<nat>)
    requires Earlier(a, b) && Earlier(b, c)
    ensures Earlier(a, c)
  {
    if |a| == |b| == |c| {
      LexTransitive(a, b, c);
    }
  }

  /** What is earlier than a choice passed has been passed. */
  lemma PastEarlier(mark: Mark, c: seq<nat>, d: seq<nat>)
    requires Past(mark, c) && Earlier(d, c)
    ensures Past(mark, d)
  {
    match mark
    case Sizes(_) =>
    case Upto(m) => EarlierTransitive(d, c, m);
    case Through(m) =>
      if c != m {
        EarlierTransitive(d, c, m);
      }
  }

  /** What has been passed is earlier than what has not. */
  lemma PastIsEarlier(mark: Mark, c: seq<nat>, q: seq<nat>)
    requires Past(mark, c) && !Past(mark, q)
    ensures Earlier(c, q)
  {
    EarlierIsTotal(c, q);
    if Earlier(q, c) {
      PastEarlier(mark, c, q);
    }
  }

  // ── Where a variant stands in the list ───────────────────────────────────────

  /** What is listed below `i`, all made before `q`, is among what comes before it. */
  lemma ListedBefore(word: Word, limit: nat, out: seq<Word>, choices: seq<seq<nat>>, mark: Mark, q: seq<nat>, n: nat)
    requires AreVariantsOf(word, limit, out, choices, mark) && n <= |out|
    requires forall j :: 0 < j < n ==> Earlier(choices[j], q)
    ensures forall j :: 0 <= j < n ==> out[j] in Before(word, q)
    ensures n <= |Before(word, q)|
  {
    FirstIsWord(word, limit, out, choices, mark);
    forall j | 0 <= j < n ensures out[j] in Before(word, q) {
      if j > 0 {
        ListedAt(word, limit, out, choices, mark, j);
        BeforeHas(word, q, choices[j], out[j]);
      }
    }
    DistinctIn(out[..n], Before(word, q));
  }

  lemma DistinctIn<T>(s: seq<T>, all: set<T>)
    requires Distinct(s) && forall i :: 0 <= i < |s| ==> s[i] in all
    ensures |s| <= |all|
  {
    var some := set x | x in s;
    DistinctSize(s);
    SubsetSize(some, all);
  }

  /** What comes before a choice listed at `i` is listed below `i`. */
  lemma BeforeIsListed(word: Word, limit: nat, out: seq<Word>, choices: seq<seq<nat>>, mark: Mark, i: nat)
    requires AreVariantsOf(word, limit, out, choices, mark) && 0 < i < |out|
    ensures forall v :: v in Before(word, choices[i]) ==> v in out[..i]
    ensures |Before(word, choices[i])| <= i
  {
    var q := choices[i];
    FirstIsWord(word, limit, out, choices, mark);
    assert Past(mark, q);
    forall v | v in Before(word, q) ensures v in out[..i] {
      if v != word {
        var c := BeforeComesFrom(word, q, v);
        PastEarlier(mark, q, c);
        assert IsCovered(out, choices, c, v);
        var j :| 0 <= j < |out| && out[j] == v && !Earlier(c, choices[j]);
        NoLaterCover(out, choices, c, i, j);
      } else {
        assert out[..i][0] == word;
      }
    }
    WithinSeq(Before(word, q), out[..i]);
  }

  lemma NoLaterCover(out: seq<Word>, choices: seq<seq<nat>>, c: seq<nat>, i: nat, j: nat)
    requires InTurn(out, choices) && i < |out| && j < |out| && Earlier(c, choices[i]) && !Earlier(c, choices[j])
    ensures j < i
  {
    if i < j {
      EarlierTransitive(c, choices[i], choices[j]);
    }
  }

  lemma {:induction false} WithinSeq<T>(some: set<T>, s: seq<T>)
    requires forall x :: x in some ==> x in s
    ensures |some| <= |s|
    decreases |s|
  {
    if s == [] {
      assert some == {};
    } else {
      var last := s[|s| - 1];
      assert s == s[..|s| - 1] + [last];
      WithinSeq(some - {last}, s[..|s| - 1]);
      assert |some| <= |some - {last}| + 1;
    }
  }

  /** A variant is listed under the first choice that makes it. */
  lemma ListedUnderFirst(word: Word, limit: nat, out: seq<Word>, choices: seq<seq<nat>>, mark: Mark, q: seq<nat>,
                         v: Word,
                         i: nat)
    requires AreVariantsOf(word, limit, out, choices, mark) && MakesFirst(word, q, v) && i < |out| && out[i] == v
    ensures 0 < i && choices[i] == q
  {
    FirstIsWord(word, limit, out, choices, mark);
    ListedAt(word, limit, out, choices, mark, i);
    EarlierIsTotal(choices[i], q);
    if Earlier(choices[i], q) {
      BeforeHas(word, q, choices[i], v);
    } else if Earlier(q, choices[i]) {
      assert Past(mark, choices[i]);
      PastEarlier(mark, choices[i], q);
      assert IsCovered(out, choices, q, v);
      var j :| 0 <= j < |out| && out[j] == v && !Earlier(q, choices[j]);
      NoLaterCover(out, choices, q, i, j);
    }
  }

  /** Of the variants that may be tried, those are listed that fewer than `limit` come before. */
  lemma ListedIffWithinLimit(word: Word, limit: nat, out: seq<Word>, q: seq<nat>, v: Word)
    requires AreVariants(word, limit, out) && MakesFirst(word, q, v) && |q| <= MaxEdits(EditsOf(word))
    ensures v in out <==> |Before(word, q)| < limit
  {
    var choices, mark :| AreVariantsOf(word, limit, out, choices, mark);
    if v in out {
      var i :| 0 <= i < |out| && out[i] == v;
      ListedUnderFirst(word, limit, out, choices, mark, q, v, i);
      BeforeIsListed(word, limit, out, choices, mark, i);
    } else {
      assert !IsCovered(out, choices, q, v);
      NotYetPassed(word, limit, out, choices, mark, q);
    }
  }

  /** A list cut before `q` is full of what comes before it. */
  lemma NotYetPassed(word: Word, limit: nat, out: seq<Word>, choices: seq<seq<nat>>, mark: Mark, q: seq<nat>)
    requires AreVariantsOf(word, limit, out, choices, mark) && !Past(mark, q) && |q| <= MaxEdits(EditsOf(word))
    ensures limit <= |Before(word, q)|
  {
    forall j | 0 < j < |out| ensures Earlier(choices[j], q) {
      assert Past(mark, choices[j]);
      PastIsEarlier(mark, choices[j], q);
    }
    ListedBefore(word, limit, out, choices, mark, q, |out|);
  }

  /** What a choice makes is listed, if fewer than `limit` spellings come before it. */
  lemma MadeIsListed(word: Word, limit: nat, out: seq<Word>, q: seq<nat>, v: Word)
    requires AreVariants(word, limit, out) && q != [] && Makes(word, EditsOf(word), q, v)
    requires |q| <= MaxEdits(EditsOf(word)) && |Before(word, q)| < limit
    ensures v in out
  {
    var choices, mark :| AreVariantsOf(word, limit, out, choices, mark);
    if Past(mark, q) {
      assert IsCovered(out, choices, q, v);
    } else {
      NotYetPassed(word, limit, out, choices, mark, q);
    }
  }

  /** At most one spelling for each earlier candidate comes before a choice of one. */
  lemma BeforeOne(word: Word, k: nat)
    requires k <= |EditsOf(word)|
    ensures |Before(word, [k])| <= k + 1
  {
    var edits := EditsOf(word);
    var ones := seq(k, i requires 0 <= i < k => Applied(word, Chosen(edits, [i])));
    forall v | v in Before(word, [k]) ensures v in [word] + ones {
      if v != word {
        var c := BeforeComesFrom(word, [k], v);
        assert c == [c[0]];
        assert ones[c[0]] == v;
      }
    }
    WithinSeq(Before(word, [k]), [word] + ones);
  }
}
