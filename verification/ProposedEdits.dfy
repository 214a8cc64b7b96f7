/** Which edits of a word are proposed, said of its letters alone, and the spellings one edit makes. */
module ProposedEdits {
  import opened Prelude
  import opened Spelling
  import opened VariantOrder

  // ── What may be dropped ──────────────────────────────────────────────────────

  /** `a..b` is as long a run of one letter as there is. */
  predicate IsRun(word: Word, a: nat, b: nat) {
    && a < b <= |word| && (forall k :: a <= k < b ==> word[k] == word[a])
    && (a > 0 ==> word[a - 1] != word[a]) && (b < |word| ==> word[b] != word[a])
  }

  predicate IsInner(word: Word, k: nat) {
    0 < k && k + 1 < |word|
  }

  /** The first inner letter of a run of yods or of vavs, unless it stands before a final he. */
  ghost predicate IsOneOfRun(word: Word, p: nat) {
    && p < |word| && (word[p].Yod? || word[p].Vav?) && !(p + 2 == |word| && word[|word| - 1].He?)
    && exists a: nat, b: nat :: IsRun(word, a, b) && IsFirstInner(word, a, b, p)
  }

  predicate IsFirstInner(word: Word, a: nat, b: nat, p: nat) {
    a <= p < b && IsInner(word, p) && forall k :: a <= k < p ==> !IsInner(word, k)
  }

  ghost predicate IsProposedDrop(word: Word, p: nat) {
    p < |word| && (word[p].Quote? || IsOneOfRun(word, p))
  }

  /** The drops proposed, from left to right. */
  ghost predicate AreDrops(word: Word, drops: seq<Edit>) {
    && (forall i :: 0 <= i < |drops| ==> drops[i].Del? && IsProposedDrop(word, drops[i].pos))
    && (forall i, j :: 0 <= i < j < |drops| ==> drops[i].pos < drops[j].pos)
    && (forall p: nat :: IsProposedDrop(word, p) ==> Del(p) in drops)
  }

  /** A vav and a yod at each inner gap of a word of four letters or more; one vav, after the first, in a
      word of just three. */
  ghost predicate AreAdds(word: Word, adds: seq<Edit>) {
    var letters := Letters(word, |word|);
    if letters >= 4 then
      && |adds| == 2 * (|word| - 1)
      && forall g: nat :: 0 < g < |word| ==> adds[2 * g - 2] == Ins(g, true) && adds[2 * g - 1] == Ins(g, false)
    else adds == if letters == 3 && |word| == 3 then [Ins(1, true)] else []
  }

  // ── The candidates are these ─────────────────────────────────────────────────

  predicate IsMater(c: Letter) {
    c.Yod? || c.Vav?
  }

  /** Nothing but `c` from `i` up to `p`. */
  predicate AllAre(word: Word, i: nat, p: nat, c: Letter) {
    p <= |word| && forall k :: i <= k < p ==> word[k] == c
  }

  lemma {:induction false} InnerOfRunIs(word: Word, j: nat, c: Letter, p: nat)
    requires j <= |word|
    ensures InnerOfRun(word, j, c) == Some(p)
       <==> AllAre(word, j, p + 1, c) && j <= p && IsInner(word, p) && forall k :: j <= k < p ==> !IsInner(word, k)
    decreases |word| - j
  {
    if j < |word| && word[j] == c && !IsInner(word, j) {
      InnerOfRunIs(word, j + 1, c, p);
    }
  }

  function RunEnd(word: Word, i: nat, c: Letter): (b: nat)
    requires i <= |word|
    ensures i <= b <= |word| && AllAre(word, i, b, c) && (b < |word| ==> word[b] != c)
    decreases |word| - i
  {
    if i < |word| && word[i] == c then RunEnd(word, i + 1, c) else i
  }

  lemma StartsRun(word: Word, i: nat)
    requires i < |word| && (i > 0 ==> word[i - 1] != word[i])
    ensures IsRun(word, i, RunEnd(word, i + 1, word[i]))
  {
  }

  /** A run's deletion is proposed where it starts. */
  lemma DeletionIsOneOfRun(word: Word, i: nat, p: nat)
    requires i < |word| && IsMater(word[i]) && DeletionAt(word, i) == Some(p)
    ensures i <= p && AllAre(word, i, p + 1, word[i]) && IsProposedDrop(word, p) && (i > 0 ==> word[i - 1] != word[i])
  {
    InnerOfRunIs(word, i, word[i], p);
    StartsRun(word, i);
    assert IsFirstInner(word, i, RunEnd(word, i + 1, word[i]), p);
  }

  lemma OneOfRunIsDeletion(word: Word, a: nat, b: nat, p: nat)
    requires IsRun(word, a, b) && IsFirstInner(word, a, b, p) && IsMater(word[p])
    requires !(p + 2 == |word| && word[|word| - 1].He?)
    ensures DeletionAt(word, a) == Some(p)
  {
    InnerOfRunIs(word, a, word[a], p);
  }

  lemma {:induction false} DeletionListed(word: Word, i: nat, n: nat)
    requires i < n <= |word| && DeletionAt(word, i).Some?
    ensures Del(DeletionAt(word, i).value) in Deletions(word, n)
    decreases n
  {
    if i < n - 1 {
      DeletionListed(word, i, n - 1);
    }
  }

  /** A drop proposed lies behind `n`, or ahead in the run that goes on there. */
  predicate LiesBehind(word: Word, n: nat, p: nat) {
    p < n || (0 < n <= |word| && IsMater(word[n - 1]) && AllAre(word, n - 1, p + 1, word[n - 1]))
  }

  lemma {:induction false} DropsSoFar(word: Word, n: nat)
    requires n <= |word|
    ensures forall i :: 0 <= i < |Deletions(word, n)| ==>
              var e := Deletions(word, n)[i]; e.Del? && IsProposedDrop(word, e.pos) && LiesBehind(word, n, e.pos)
    ensures forall i, j :: 0 <= i < j < |Deletions(word, n)| ==> Deletions(word, n)[i].pos < Deletions(word, n)[j].pos
  {
    if n > 0 {
      DropsSoFar(word, n - 1);
      NextDrop(word, n - 1, Deletions(word, n - 1), Deletions(word, n));
    }
  }

  lemma NextDrop(word: Word, n: nat, drops: seq<Edit>, more: seq<Edit>)
    requires n < |word|
    requires more == drops + if DeletionAt(word, n).Some? then [Del(DeletionAt(word, n).value)] else []
    requires forall i :: 0 <= i < |drops| ==>
               drops[i].Del? && IsProposedDrop(word, drops[i].pos) && LiesBehind(word, n, drops[i].pos)
    requires forall i, j :: 0 <= i < j < |drops| ==> drops[i].pos < drops[j].pos
    ensures forall i :: 0 <= i < |more| ==>
              more[i].Del? && IsProposedDrop(word, more[i].pos) && LiesBehind(word, n + 1, more[i].pos)
    ensures forall i, j :: 0 <= i < j < |more| ==> more[i].pos < more[j].pos
  {
    forall i | 0 <= i < |drops| ensures LiesBehind(word, n + 1, drops[i].pos) {
      StaysBehind(word, n, drops[i].pos);
    }
    if DeletionAt(word, n).Some? {
      var p := DeletionAt(word, n).value;
      if IsMater(word[n]) {
        DeletionIsOneOfRun(word, n, p);
      }
      forall i | 0 <= i < |drops| ensures drops[i].pos < p {
        StartsPast(word, n, drops[i].pos);
      }
    }
  }

  lemma StaysBehind(word: Word, n: nat, p: nat)
    requires n < |word| && LiesBehind(word, n, p)
    ensures LiesBehind(word, n + 1, p)
  {
    if p > n {
      assert word[n] == word[n - 1];
    }
  }

  /** Where a deletion is proposed, no run goes on. */
  lemma StartsPast(word: Word, n: nat, p: nat)
    requires n < |word| && LiesBehind(word, n, p) && DeletionAt(word, n).Some?
    ensures p < n
  {
    assert n > 0 ==> word[n] != word[n - 1] || !IsMater(word[n]);
  }

  lemma DeletionsAreDrops(word: Word)
    ensures AreDrops(word, Deletions(word, |word|))
  {
    DropsSoFar(word, |word|);
    forall p: nat | IsProposedDrop(word, p) ensures Del(p) in Deletions(word, |word|) {
      if word[p].Quote? {
        DeletionListed(word, p, |word|);
      } else {
        var a: nat, b: nat :| IsRun(word, a, b) && IsFirstInner(word, a, b, p);
        OneOfRunIsDeletion(word, a, b, p);
        DeletionListed(word, a, |word|);
      }
    }
  }

  lemma {:induction false} InsertionsAre(n: nat)
    requires n > 0
    ensures |Insertions(n)| == 2 * (n - 1)
    ensures forall g: nat ::
              0 < g < n ==> Insertions(n)[2 * g - 2] == Ins(g, true) && Insertions(n)[2 * g - 1] == Ins(g, false)
  {
    if n > 1 {
      InsertionsAre(n - 1);
    }
  }

  /** What is proposed: the drops from left to right, then the additions, twenty-four of them at most. */
  lemma EditsAreProposed(word: Word) returns (drops: seq<Edit>, adds: seq<Edit>)
    requires word != []
    ensures AreDrops(word, drops) && AreAdds(word, adds)
    ensures EditsOf(word) == (drops + adds)[..Min(|drops + adds|, 24)]
  {
    DeletionsAreDrops(word);
    InsertionsAre(|word|);
    drops := Deletions(word, |word|);
    adds := Candidates(word)[|drops|..];
    LettersAtMost(word, |word|);
  }

  lemma {:induction false} LettersAtMost(word: Word, n: nat)
    requires n <= |word|
    ensures Letters(word, n) <= n
  {
    if n > 0 {
      LettersAtMost(word, n - 1);
    }
  }

  // ── What one edit makes ──────────────────────────────────────────────────────

  function Added(isVav: bool): Letter {
    if isVav then Vav else Yod
  }

  /** The word with one edit made. */
  function Edited(word: Word, e: Edit): Word
    requires GoodEdit(word, e)
  {
    match e
    case Del(p) => word[..p] + word[p + 1..]
    case Ins(g, isVav) => word[..g] + [Added(isVav)] + word[g..]
  }

  lemma {:induction false} DroppedUpTo(word: Word, p: nat, i: nat)
    requires i <= |word| && p < |word|
    ensures LettersOf(Pieces(word, {p}, [], i)) == if i <= p then word[..i] else word[..p] + word[p + 1..i]
  {
    if i > 0 {
      DroppedUpTo(word, p, i - 1);
      LettersOfNext(word, {p}, [], i - 1);
      KeptLetter(word, {p}, i - 1);
      SliceWithLast(word, 0, i);
      if i - 1 > p {
        SliceWithLast(word, p + 1, i);
      }
    }
  }

  lemma {:induction false} AddedUpTo(word: Word, g: nat, isVav: bool, i: nat)
    requires i <= |word| && g < |word|
    ensures var inserts := [(g, isVav)];
            LettersOf(Pieces(word, {}, inserts, i)) == if i <= g then word[..i]
                                                       else word[..g] + [Added(isVav)] + word[g..i]
  {
    if i > 0 {
      AddedUpTo(word, g, isVav, i - 1);
      AddedNext(word, g, isVav, i - 1, LettersOf(Pieces(word, {}, [(g, isVav)], i - 1)));
      SliceWithLast(word, 0, i);
      if i - 1 > g {
        SliceWithLast(word, g, i);
        Regroup(word[..g] + [Added(isVav)], word[g..i - 1], [word[i - 1]]);
      }
    }
  }

  lemma AddedNext(word: Word, g: nat, isVav: bool, i: nat, before: Word)
    requires i < |word| && before == LettersOf(Pieces(word, {}, [(g, isVav)], i))
    ensures LettersOf(Pieces(word, {}, [(g, isVav)], i + 1))
         == before + (if i == g then [Added(isVav)] else []) + [word[i]]
  {
    LettersOfNext(word, {}, [(g, isVav)], i);
    KeptLetter(word, {}, i);
    OneAdded(g, isVav, i);
  }

  lemma OneAdded(g: nat, isVav: bool, gap: nat)
    ensures LettersOf(AddedAt([(g, isVav)], gap)) == if gap == g then [Added(isVav)] else []
  {
    assert AddedTo([(g, isVav)], 0, gap) == [];
  }

  lemma NoneAdded(gap: nat)
    ensures LettersOf(AddedAt([], gap)) == []
  {
  }

  lemma DropMakes(word: Word, p: nat)
    requires p < |word|
    ensures Applied(word, [Del(p)]) == word[..p] + word[p + 1..]
  {
    TakenApart([], Del(p));
    assert Deleted([Del(p)]) == {p} && Inserts([Del(p)]) == [];
    DroppedUpTo(word, p, |word|);
    LettersOfNext(word, {p}, [], |word|);
    KeptLetter(word, {p}, |word|);
    NoneAdded(|word|);
  }

  lemma AddMakes(word: Word, g: nat, isVav: bool)
    requires g < |word|
    ensures Applied(word, [Ins(g, isVav)]) == word[..g] + [Added(isVav)] + word[g..]
  {
    TakenApart([], Ins(g, isVav));
    assert Deleted([Ins(g, isVav)]) == {} && Inserts([Ins(g, isVav)]) == [(g, isVav)];
    AddedUpTo(word, g, isVav, |word|);
    LettersOfNext(word, {}, [(g, isVav)], |word|);
    KeptLetter(word, {}, |word|);
    OneAdded(g, isVav, |word|);
  }

  lemma OneEditMakes(word: Word, e: Edit)
    requires GoodEdit(word, e)
    ensures Applied(word, [e]) == Edited(word, e)
  {
    match e
    case Del(p) => DropMakes(word, p);
    case Ins(g, isVav) => AddMakes(word, g, isVav);
  }

  /** The letters of the word that one edit leaves. */
  function LettersLeft(word: Word, e: Edit): int {
    Letters(word, |word|) - if e.Del? && e.pos < |word| && !word[e.pos].Quote? then 1 else 0
  }

  /** One edit is allowed exactly if it leaves three letters of the word. */
  lemma OneEditIsValid(word: Word, e: Edit)
    ensures Valid(word, [e]) <==> LettersLeft(word, e) >= 3
  {
    TakenApart([], e);
    assert EditsOn(word, [], Yod) == EditsOn(word, [], Vav) == LettersDropped(word, []) == 0;
    assert |Inserts([e])| <= 1;
  }

  /** Each spelling that one proposed edit makes is listed, if it leaves three letters of the word and the
      limit exceeds the edits proposed before it by two. */
  lemma OneEditIsListed(word: Word, limit: nat, out: seq<Word>, i: nat)
    requires |word| < MARKED_CHARS && AreSpellings(word, limit, out)
    requires i < |EditsOf(word)| && i + 1 < limit && LettersLeft(word, EditsOf(word)[i]) >= 3
    ensures GoodEdit(word, EditsOf(word)[i]) && Edited(word, EditsOf(word)[i]) in out
  {
    var edits := EditsOf(word);
    EditsAreGood(word);
    OneEditMakes(word, edits[i]);
    OneEditIsValid(word, edits[i]);
    assert Chosen(edits, [i]) == [edits[i]];
    assert Makes(word, edits, [i], Edited(word, edits[i]));
    BeforeOne(word, i);
    MadeIsListed(word, limit, out, [i], Edited(word, edits[i]));
  }

  /** A drop proposed in a word of at most twenty-four characters is a candidate. */
  lemma DropIsCandidate(word: Word, p: nat) returns (i: nat)
    requires IsProposedDrop(word, p) && |word| <= 24
    ensures i <= p && i < |EditsOf(word)| && EditsOf(word)[i] == Del(p)
  {
    var drops, adds := EditsAreProposed(word);
    i :| i < |drops| && drops[i] == Del(p);
    PositionsClimb(drops, i);
    assert (drops + adds)[i] == drops[i];
  }

  /** In such a word every drop proposed is made, if it leaves three letters and the limit exceeds its place by two. */
  lemma DropIsListed(word: Word, limit: nat, out: seq<Word>, p: nat)
    requires IsProposedDrop(word, p) && |word| <= 24 && LettersLeft(word, Del(p)) >= 3
    requires AreSpellings(word, limit, out) && p + 1 < limit
    ensures GoodEdit(word, Del(p)) && Edited(word, Del(p)) in out
  {
    var i := DropIsCandidate(word, p);
    MadeByEdit(word, limit, out, i, Del(p));
  }

  lemma MadeByEdit(word: Word, limit: nat, out: seq<Word>, i: nat, e: Edit)
    requires |word| < MARKED_CHARS && AreSpellings(word, limit, out)
    requires i < |EditsOf(word)| && EditsOf(word)[i] == e && i + 1 < limit && LettersLeft(word, e) >= 3
    ensures GoodEdit(word, e) && Edited(word, e) in out
  {
    OneEditIsListed(word, limit, out, i);
  }

  lemma {:induction false} PositionsClimb(drops: seq<Edit>, i: nat)
    requires i < |drops| && forall j :: 0 <= j < |drops| ==> drops[j].Del?
    requires forall j, k :: 0 <= j < k < |drops| ==> drops[j].pos < drops[k].pos
    ensures i <= drops[i].pos
  {
    if i > 0 {
      PositionsClimb(drops, i - 1);
    }
  }
}
