/** Full and defective spellings of a word: small edits of its yods and vavs, tried in order. */
module Spelling {
  import opened Prelude
  import opened Combinations

  const MIN_SPELLING_LETTERS: nat := 3
  const MIN_SPELLING_INSERTION_LETTERS: nat := 4
  const MAX_EDITS_PER_LETTER: nat := 3
  const MAX_EDIT_CANDIDATES: nat := 24
  /** The widest word whose deletions are marked. */
  const MARKED_CHARS: nat := 64

  datatype Letter = Yod | Vav | He | Quote(code: nat) | Other(code: nat)

  type Word = seq<Letter>

  datatype Edit =
      /** Drops the character at `pos`. */
    | Del(pos: nat)
      /** Adds a vav or a yod before the character at `gap`. */
    | Ins(gap: nat, isVav: bool)

  function Letters(word: Word, n: nat): nat
    requires n <= |word|
  {
    if n == 0 then 0 else Letters(word, n - 1) + if word[n - 1].Quote? then 0 else 1
  }

  // ── The candidates ───────────────────────────────────────────────────────────

  /** The first character of a run of `c` from `j` on that is at neither edge of the word. */
  function InnerOfRun(word: Word, j: nat, c: Letter): (r: Option<nat>)
    requires j <= |word|
    ensures r.Some? ==> j <= r.value < |word| && 0 < r.value && r.value + 1 < |word|
    ensures r.Some? ==> forall i :: j <= i <= r.value ==> word[i] == c
    decreases |word| - j
  {
    if j == |word| || word[j] != c then None
    else if j > 0 && j + 1 < |word| then Some(j)
    else InnerOfRun(word, j + 1, c)
  }

  /** The deletion proposed at `i`: one for a run of yods or of vavs, and one for each quote. */
  function DeletionAt(word: Word, i: nat): Option<nat>
    requires i < |word|
  {
    match word[i]
    case Quote(_) => Some(i)
    case He => None
    case Other(_) => None
    case c =>
      if i > 0 && word[i - 1] == c then None
      else
        var at := InnerOfRun(word, i, c);
        // Before a final he the dropped letter is a consonant.
        if at.Some? && !(at.value + 2 == |word| && word[|word| - 1].He?) then at else None
  }

  function Deletions(word: Word, n: nat): seq<Edit>
    requires n <= |word|
  {
    if n == 0 then []
    else Deletions(word, n - 1) + if DeletionAt(word, n - 1).Some? then [Del(DeletionAt(word, n - 1).value)] else []
  }

  /** A vav, then a yod, before each inner character. */
  function Insertions(n: nat): seq<Edit> {
    if n <= 1 then [] else Insertions(n - 1) + [Ins(n - 1, true), Ins(n - 1, false)]
  }

  function Candidates(word: Word): seq<Edit> {
    var letters := Letters(word, |word|);
    Deletions(word, |word|)
    + (if letters >= MIN_SPELLING_INSERTION_LETTERS then Insertions(|word|)
       else if letters == MIN_SPELLING_LETTERS && |word| == letters then [Ins(1, true)] else [])
  }

  function EditsOf(word: Word): seq<Edit> {
    Candidates(word)[..Min(|Candidates(word)|, MAX_EDIT_CANDIDATES)]
  }

  /** A character that may be dropped: a quote, or a yod or vav at neither edge, and not before a
      final he. */
  predicate MayDrop(word: Word, pos: nat) {
    && pos < |word|
    && (word[pos].Quote?
        || ((word[pos].Yod? || word[pos].Vav?) && 0 < pos && pos + 1 < |word|
             && !(pos + 2 == |word| && word[|word| - 1].He?)))
  }

  ghost predicate GoodEdit(word: Word, e: Edit) {
    match e
    case Del(pos) => MayDrop(word, pos)
    case Ins(gap, _) => 0 < gap < |word|
  }

  lemma {:induction false} DeletionsGood(word: Word, n: nat)
    requires n <= |word|
    ensures forall e :: e in Deletions(word, n) ==> e.Del? && GoodEdit(word, e)
  {
    if n > 0 {
      DeletionsGood(word, n - 1);
    }
  }

  lemma {:induction false} InsertionsGood(n: nat)
    ensures forall e :: e in Insertions(n) ==> e.Ins? && 0 < e.gap < n
  {
    if n > 1 {
      InsertionsGood(n - 1);
    }
  }

  lemma CandidatesAreGood(word: Word)
    ensures forall i :: 0 <= i < |Candidates(word)| ==>
              GoodEdit(word, Candidates(word)[i]) && (i < |Deletions(word, |word|)| <==> Candidates(word)[i].Del?)
  {
    DeletionsGood(word, |word|);
    InsertionsGood(|word|);
    var all := Candidates(word);
    var deletions := Deletions(word, |word|);
    forall i | 0 <= i < |all| ensures GoodEdit(word, all[i]) && (i < |deletions| <==> all[i].Del?) {
      if i < |deletions| {
        assert all[i] in deletions;
      } else {
        assert all[i] in all[|deletions|..];
      }
    }
  }

  lemma EditsAreGood(word: Word)
    ensures forall i :: 0 <= i < |EditsOf(word)| ==> GoodEdit(word, EditsOf(word)[i])
  {
    CandidatesAreGood(word);
  }

  // ── Which choices are allowed ────────────────────────────────────────────────

  function IsOf(word: Word, e: Edit, letter: Letter): bool {
    match e
    case Del(pos) => pos < |word| && word[pos] == letter
    case Ins(_, isVav) => letter == if isVav then Vav else Yod
  }

  /** Edits of one letter. */
  function EditsOn(word: Word, es: seq<Edit>, letter: Letter): nat {
    if es == [] then 0 else EditsOn(word, es[..|es| - 1], letter) + if IsOf(word, es[|es| - 1], letter) then 1 else 0
  }

  function LettersDropped(word: Word, es: seq<Edit>): nat {
    if es == [] then 0
    else LettersDropped(word, es[..|es| - 1])
         + match es[|es| - 1] case Del(pos) => (if pos < |word| && !word[pos].Quote? then 1 else 0) case Ins(_, _) => 0
  }

  function Deleted(es: seq<Edit>): (r: set<nat>)
    ensures forall p :: p in r <==> Del(p) in es
  {
    if es == [] then {}
    else Deleted(es[..|es| - 1]) + match es[|es| - 1] case Del(pos) => {pos} case Ins(_, _) => {}
  }

  /** The gaps written into, and the letters, in order. */
  function Inserts(es: seq<Edit>): seq<(nat, bool)> {
    if es == [] then []
    else Inserts(es[..|es| - 1]) + match es[|es| - 1] case Del(_) => [] case Ins(gap, isVav) => [(gap, isVav)]
  }

  /** A letter both dropped and added would only be moved. */
  predicate Moves(word: Word, es: seq<Edit>, letter: Letter) {
    (exists i :: 0 <= i < |es| && es[i].Del? && IsOf(word, es[i], letter))
    && (exists i :: 0 <= i < |es| && es[i].Ins? && IsOf(word, es[i], letter))
  }

  /** Something stays between two gaps. */
  predicate Apart(deleted: set<nat>, g: nat, h: nat) {
    exists p :: g <= p < h && p !in deleted
  }

  predicate NeighboursApart(deleted: set<nat>, inserts: seq<(nat, bool)>, i: nat)
    requires i + 1 < |inserts|
  {
    Apart(deleted, inserts[i].0, inserts[i + 1].0)
  }

  predicate AllNeighboursApart(deleted: set<nat>, inserts: seq<(nat, bool)>) {
    forall i {:trigger NeighboursApart(deleted, inserts, i)} ::
        0 <= i < |inserts| - 1 ==> NeighboursApart(deleted, inserts, i)
  }

  predicate Valid(word: Word, es: seq<Edit>) {
    && EditsOn(word, es, Yod) <= MAX_EDITS_PER_LETTER && EditsOn(word, es, Vav) <= MAX_EDITS_PER_LETTER
    && !Moves(word, es, Yod) && !Moves(word, es, Vav)
    && Letters(word, |word|) - LettersDropped(word, es) >= MIN_SPELLING_LETTERS
    && AllNeighboursApart(Deleted(es), Inserts(es))
  }

  // ── What an allowed choice gives ─────────────────────────────────────────────

  /** A letter of the variant, and whether it was added. */
  datatype Piece = Piece(letter: Letter, added: bool)

  function AddedTo(inserts: seq<(nat, bool)>, n: nat, gap: nat): seq<Piece>
    requires n <= |inserts|
  {
    if n == 0 then []
    else
      AddedTo(inserts, n - 1, gap)
      + if inserts[n - 1].0 == gap then [Piece(if inserts[n - 1].1 then Vav else Yod, true)] else []
  }

  /** The letters added at a gap, in order. */
  function AddedAt(inserts: seq<(nat, bool)>, gap: nat): seq<Piece> {
    AddedTo(inserts, |inserts|, gap)
  }

  /** The variant up to gap `i`. */
  function Pieces(word: Word, deleted: set<nat>, inserts: seq<(nat, bool)>, i: nat): seq<Piece>
    requires i <= |word| + 1
  {
    if i == 0 then []
    else
      Pieces(word, deleted, inserts, i - 1) + AddedAt(inserts, i - 1) + Kept(word, deleted, i - 1)
  }

  function LettersOf(pieces: seq<Piece>): Word {
    seq(|pieces|, i requires 0 <= i < |pieces| => pieces[i].letter)
  }

  function VariantOf(word: Word, es: seq<Edit>): seq<Piece> {
    Pieces(word, Deleted(es), Inserts(es), |word| + 1)
  }

  function Applied(word: Word, es: seq<Edit>): Word {
    LettersOf(VariantOf(word, es))
  }

  predicate BothAdded(pieces: seq<Piece>, i: nat)
    requires i + 1 < |pieces|
  {
    pieces[i].added && pieces[i + 1].added
  }

  /** No two added letters stand side by side. */
  ghost predicate NoneAdjacent(pieces: seq<Piece>) {
    forall i {:trigger BothAdded(pieces, i)} :: 0 <= i < |pieces| - 1 ==> !BothAdded(pieces, i)
  }

  ghost predicate Sparse(inserts: seq<(nat, bool)>, deleted: set<nat>) {
    forall i, j {:trigger Apart(deleted, inserts[i].0, inserts[j].0)} :: 0 <= i < j < |inserts| ==>
      Apart(deleted, inserts[i].0, inserts[j].0)
  }

  /** Neighbours apart, all are. */
  lemma {:induction false} NeighboursSuffice(inserts: seq<(nat, bool)>, deleted: set<nat>, i: nat, j: nat)
    requires AllNeighboursApart(deleted, inserts)
    requires i < j < |inserts|
    ensures Apart(deleted, inserts[i].0, inserts[j].0)
  {
    assert NeighboursApart(deleted, inserts, j - 1);
    if i < j - 1 {
      NeighboursSuffice(inserts, deleted, i, j - 1);
      var p :| inserts[i].0 <= p < inserts[j - 1].0 && p !in deleted;
      assert inserts[i].0 <= p < inserts[j].0;
    }
  }

  /** At most one letter is added at a gap. */
  lemma {:induction false} OneAddedTo(inserts: seq<(nat, bool)>, n: nat, deleted: set<nat>, gap: nat)
    requires Sparse(inserts, deleted) && n <= |inserts|
    ensures var added := AddedTo(inserts, n, gap);
            && |added| <= 1 && (added != [] ==> added[0].added)
            && (added == [] <==> forall i :: 0 <= i < n ==> inserts[i].0 != gap)
  {
    if n > 0 {
      OneAddedTo(inserts, n - 1, deleted, gap);
      forall i | 0 <= i < n - 1 && inserts[n - 1].0 == gap ensures inserts[i].0 != gap {
        assert Apart(deleted, inserts[i].0, inserts[n - 1].0);
      }
    }
  }

  lemma OneAddedAt(inserts: seq<(nat, bool)>, deleted: set<nat>, gap: nat)
    requires Sparse(inserts, deleted)
    ensures |AddedAt(inserts, gap)| <= 1
    ensures AddedAt(inserts, gap) == [] <==> forall i :: 0 <= i < |inserts| ==> inserts[i].0 != gap
    ensures AddedAt(inserts, gap) != [] ==> AddedAt(inserts, gap)[0].added
  {
    OneAddedTo(inserts, |inserts|, deleted, gap);
  }

  predicate DroppedFrom(deleted: set<nat>, gap: nat, i: nat) {
    forall p :: gap <= p < i ==> p in deleted
  }

  ghost predicate AddedSinceDropped(deleted: set<nat>, inserts: seq<(nat, bool)>, m: nat, i: nat) {
    m < |inserts| && inserts[m].0 < i && DroppedFrom(deleted, inserts[m].0, i)
  }

  /** A variant that ends with an added letter has dropped everything since its gap. */
  ghost predicate EndsAdded(pieces: seq<Piece>, deleted: set<nat>, inserts: seq<(nat, bool)>, i: nat) {
    pieces != [] && pieces[|pieces| - 1].added ==>
      exists m: nat :: AddedSinceDropped(deleted, inserts, m, i)
  }

  predicate NotBefore(inserts: seq<(nat, bool)>, m: nat, l: nat)
    requires m < |inserts| && l < |inserts|
  {
    inserts[m].0 <= inserts[l].0
  }

  ghost predicate ByGap(inserts: seq<(nat, bool)>) {
    forall m, l {:trigger NotBefore(inserts, m, l)} :: 0 <= m < l < |inserts| ==> NotBefore(inserts, m, l)
  }

  lemma StillNoneAdjacent(before: seq<Piece>, added: seq<Piece>, kept: seq<Piece>)
    requires NoneAdjacent(before) && |added| <= 1 && |kept| <= 1 && (kept != [] ==> !kept[0].added)
    requires added != [] && before != [] ==> !before[|before| - 1].added
    ensures NoneAdjacent(before + added + kept)
  {
    var after := before + added + kept;
    forall i | 0 <= i < |after| - 1 ensures !BothAdded(after, i) {
      if i + 1 < |before| {
        assert !BothAdded(before, i);
      }
    }
  }

  /** Nothing added ends the variant at a gap that is written into. */
  lemma NotAddedBefore(before: seq<Piece>, deleted: set<nat>, inserts: seq<(nat, bool)>, i: nat, m: nat)
    requires Sparse(inserts, deleted) && ByGap(inserts) && EndsAdded(before, deleted, inserts, i)
    requires m < |inserts| && inserts[m].0 == i
    ensures before != [] ==> !before[|before| - 1].added
  {
    forall l: nat ensures !AddedSinceDropped(deleted, inserts, l, i) {
      if l < |inserts| && inserts[l].0 < i {
        assert m < l ==> NotBefore(inserts, m, l);
        assert Apart(deleted, inserts[l].0, inserts[m].0);
      }
    }
  }

  /** What is added and kept at gap `i`. */
  function Kept(word: Word, deleted: set<nat>, i: nat): seq<Piece> {
    if i < |word| && i !in deleted then [Piece(word[i], false)] else []
  }

  lemma ApartAtGap(word: Word, deleted: set<nat>, inserts: seq<(nat, bool)>, i: nat, before: seq<Piece>,
                   after: seq<Piece>)
    requires Sparse(inserts, deleted) && ByGap(inserts)
    requires NoneAdjacent(before) && EndsAdded(before, deleted, inserts, i)
    requires after == before + AddedAt(inserts, i) + Kept(word, deleted, i)
    ensures NoneAdjacent(after)
  {
    OneAddedAt(inserts, deleted, i);
    if AddedAt(inserts, i) != [] {
      var m :| 0 <= m < |inserts| && inserts[m].0 == i;
      NotAddedBefore(before, deleted, inserts, i, m);
    }
    StillNoneAdjacent(before, AddedAt(inserts, i), Kept(word, deleted, i));
  }

  /** A dropped character leaves the variant's last letter as it was, or the one just added. */
  lemma EndsAtGap(word: Word, deleted: set<nat>, inserts: seq<(nat, bool)>, i: nat, before: seq<Piece>,
                  after: seq<Piece>)
    requires Sparse(inserts, deleted) && EndsAdded(before, deleted, inserts, i) && i < |word|
    requires after == before + AddedAt(inserts, i) + Kept(word, deleted, i)
    ensures EndsAdded(after, deleted, inserts, i + 1)
  {
    OneAddedAt(inserts, deleted, i);
    if i in deleted {
      if AddedAt(inserts, i) != [] {
        var m :| 0 <= m < |inserts| && inserts[m].0 == i;
        assert AddedSinceDropped(deleted, inserts, m, i + 1);
      } else if before != [] && before[|before| - 1].added {
        var m: nat :| AddedSinceDropped(deleted, inserts, m, i);
        assert AddedSinceDropped(deleted, inserts, m, i + 1);
      }
    }
  }

  lemma {:induction false} EndsAddedAlong(word: Word, deleted: set<nat>, inserts: seq<(nat, bool)>, i: nat)
    requires i <= |word| && Sparse(inserts, deleted)
    ensures EndsAdded(Pieces(word, deleted, inserts, i), deleted, inserts, i)
  {
    if i > 0 {
      NextPieces(word, deleted, inserts, i - 1, Pieces(word, deleted, inserts, i - 1));
      EndsAddedAlong(word, deleted, inserts, i - 1);
      EndsAtGap(word, deleted, inserts, i - 1, Pieces(word, deleted, inserts, i - 1),
                Pieces(word, deleted, inserts, i));
    }
  }

  lemma NextApart(word: Word, deleted: set<nat>, inserts: seq<(nat, bool)>, i: nat, before: seq<Piece>,
                  after: seq<Piece>)
    requires i <= |word| && Sparse(inserts, deleted) && ByGap(inserts)
    requires before == Pieces(word, deleted, inserts, i) && NoneAdjacent(before)
    requires after == before + AddedAt(inserts, i) + Kept(word, deleted, i)
    ensures NoneAdjacent(after)
  {
    EndsAddedAlong(word, deleted, inserts, i);
    ApartAtGap(word, deleted, inserts, i, before, after);
  }

  lemma {:induction false} AddedStayApart(word: Word, deleted: set<nat>, inserts: seq<(nat, bool)>, i: nat)
    requires i <= |word| + 1 && Sparse(inserts, deleted) && ByGap(inserts)
    ensures NoneAdjacent(Pieces(word, deleted, inserts, i))
  {
    if i > 0 {
      AddedStayApart(word, deleted, inserts, i - 1);
      NextApart(word, deleted, inserts, i - 1, Pieces(word, deleted, inserts, i - 1),
                Pieces(word, deleted, inserts, i));
    }
  }

  lemma NextPieces(word: Word, deleted: set<nat>, inserts: seq<(nat, bool)>, i: nat, before: seq<Piece>)
    requires i <= |word| && before == Pieces(word, deleted, inserts, i)
    ensures Pieces(word, deleted, inserts, i + 1) == before + AddedAt(inserts, i) + Kept(word, deleted, i)
  {
  }

  /** An allowed choice adds no two letters side by side. */
  lemma ValidStaysApart(word: Word, es: seq<Edit>)
    requires Valid(word, es)
    ensures NoneAdjacent(VariantOf(word, es))
  {
    var inserts, deleted := Inserts(es), Deleted(es);
    forall i, j | 0 <= i < j < |inserts| ensures Apart(deleted, inserts[i].0, inserts[j].0) {
      NeighboursSuffice(inserts, deleted, i, j);
    }
    forall m, l | 0 <= m < l < |inserts| ensures NotBefore(inserts, m, l) {
      assert Apart(deleted, inserts[m].0, inserts[l].0);
    }
    AddedStayApart(word, deleted, inserts, |word| + 1);
  }

  function OwnTo(pieces: seq<Piece>, n: nat): nat
    requires n <= |pieces|
  {
    if n == 0 then 0 else OwnTo(pieces, n - 1) + if pieces[n - 1].added || pieces[n - 1].letter.Quote? then 0 else 1
  }

  /** Letters of the variant that were in the word. */
  function OwnLetters(pieces: seq<Piece>): nat {
    OwnTo(pieces, |pieces|)
  }

  function LettersKept(word: Word, deleted: set<nat>, i: nat): nat
    requires i <= |word|
  {
    if i == 0 then 0 else LettersKept(word, deleted, i - 1) + if word[i - 1].Quote? || i - 1 in deleted then 0 else 1
  }

  lemma {:induction false} OwnInPrefix(a: seq<Piece>, b: seq<Piece>, n: nat)
    requires n <= |a|
    ensures OwnTo(a + b, n) == OwnTo(a, n)
  {
    if n > 0 {
      OwnInPrefix(a, b, n - 1);
    }
  }

  lemma {:induction false} OwnAdds(a: seq<Piece>, b: seq<Piece>, n: nat)
    requires n <= |b|
    ensures OwnTo(a + b, |a| + n) == OwnLetters(a) + OwnTo(b, n)
  {
    if n > 0 {
      OwnAdds(a, b, n - 1);
    } else {
      OwnInPrefix(a, b, |a|);
    }
  }

  lemma OwnLettersAdd(a: seq<Piece>, b: seq<Piece>)
    ensures OwnLetters(a + b) == OwnLetters(a) + OwnLetters(b)
  {
    OwnAdds(a, b, |b|);
  }

  lemma {:induction false} AddedNotOwn(inserts: seq<(nat, bool)>, n: nat, gap: nat)
    requires n <= |inserts|
    ensures OwnLetters(AddedTo(inserts, n, gap)) == 0
  {
    if n > 0 {
      AddedNotOwn(inserts, n - 1, gap);
      if inserts[n - 1].0 == gap {
        var piece := [Piece(if inserts[n - 1].1 then Vav else Yod, true)];
        OwnLettersAdd(AddedTo(inserts, n - 1, gap), piece);
        assert OwnTo(piece, 0) == 0;
      } else {
        assert AddedTo(inserts, n, gap) == AddedTo(inserts, n - 1, gap);
      }
    }
  }

  lemma AddedAreNotOwn(inserts: seq<(nat, bool)>, gap: nat)
    ensures OwnLetters(AddedAt(inserts, gap)) == 0
  {
    AddedNotOwn(inserts, |inserts|, gap);
  }

  lemma OwnLettersOfThree(a: seq<Piece>, b: seq<Piece>, c: seq<Piece>)
    ensures OwnLetters(a + b + c) == OwnLetters(a) + OwnLetters(b) + OwnLetters(c)
  {
    OwnLettersAdd(a + b, c);
    OwnLettersAdd(a, b);
  }

  lemma OwnLetterKept(word: Word, deleted: set<nat>, i: nat)
    ensures OwnLetters(Kept(word, deleted, i)) == if i < |word| && !word[i].Quote? && i !in deleted then 1 else 0
  {
    var kept := Kept(word, deleted, i);
    if kept != [] {
      assert OwnTo(kept, 0) == 0;
    }
  }

  lemma {:induction false} OwnLettersKept(word: Word, deleted: set<nat>, inserts: seq<(nat, bool)>, i: nat)
    requires i <= |word|
    ensures OwnLetters(Pieces(word, deleted, inserts, i)) == LettersKept(word, deleted, i)
  {
    if i > 0 {
      OwnLettersKept(word, deleted, inserts, i - 1);
      OwnLettersOfThree(Pieces(word, deleted, inserts, i - 1), AddedAt(inserts, i - 1), Kept(word, deleted, i - 1));
      AddedAreNotOwn(inserts, i - 1);
      OwnLetterKept(word, deleted, i - 1);
    }
  }

  /** Nothing of the word comes after its last character. */
  lemma VariantKeeps(word: Word, deleted: set<nat>, inserts: seq<(nat, bool)>)
    ensures OwnLetters(Pieces(word, deleted, inserts, |word| + 1)) == LettersKept(word, deleted, |word|)
  {
    OwnLettersKept(word, deleted, inserts, |word|);
    OwnLettersOfThree(Pieces(word, deleted, inserts, |word|), AddedAt(inserts, |word|), Kept(word, deleted, |word|));
    AddedAreNotOwn(inserts, |word|);
    OwnLetterKept(word, deleted, |word|);
  }

  lemma {:induction false} DropOneMore(word: Word, deleted: set<nat>, p: nat, i: nat)
    requires i <= |word|
    ensures LettersKept(word, deleted + {p}, i)
              + (if p < |word| && !word[p].Quote? && p < i then 1 else 0) >= LettersKept(word, deleted, i)
  {
    if i > 0 {
      DropOneMore(word, deleted, p, i - 1);
    }
  }

  lemma {:induction false} NoneDropped(word: Word, i: nat)
    requires i <= |word|
    ensures LettersKept(word, {}, i) == Letters(word, i)
  {
    if i > 0 {
      NoneDropped(word, i - 1);
    }
  }

  /** A choice drops no more letters than it counts. */
  lemma {:induction false} DroppedAtMost(word: Word, es: seq<Edit>)
    ensures LettersKept(word, Deleted(es), |word|) + LettersDropped(word, es) >= Letters(word, |word|)
  {
    if es == [] {
      NoneDropped(word, |word|);
    } else {
      var front := es[..|es| - 1];
      DroppedAtMost(word, front);
      match es[|es| - 1]
      case Del(pos) => DropOneMore(word, Deleted(front), pos, |word|);
      case Ins(_, _) => assert Deleted(es) == Deleted(front);
    }
  }

  /** An allowed choice leaves three of the word's letters at least. */
  lemma ValidKeepsLetters(word: Word, es: seq<Edit>)
    requires Valid(word, es)
    ensures OwnLetters(VariantOf(word, es)) >= MIN_SPELLING_LETTERS
  {
    VariantKeeps(word, Deleted(es), Inserts(es));
    DroppedAtMost(word, es);
  }

  // ── Checking and applying a choice ───────────────────────────────────────────

  ghost predicate AllGood(word: Word, es: seq<Edit>) {
    forall i :: 0 <= i < |es| ==> GoodEdit(word, es[i])
  }

  ghost predicate Marks(deleted: array<bool>, marked: set<nat>)
    reads deleted
  {
    deleted.Length == MARKED_CHARS && forall p :: 0 <= p < MARKED_CHARS ==> (deleted[p] <==> p in marked)
  }

  ghost predicate GapsOf(gaps: seq<nat>, inserts: seq<(nat, bool)>) {
    |gaps| == |inserts| && forall m :: 0 <= m < |gaps| ==> gaps[m] == inserts[m].0
  }

  ghost predicate Names(word: Word, es: seq<Edit>, dropping: bool, c: Letter) {
    exists i :: 0 <= i < |es| && es[i].Del? == dropping && IsOf(word, es[i], c)
  }

  /** The letters dropped, or added, by the edits. */
  ghost predicate Named(word: Word, es: seq<Edit>, dropping: bool, letters: seq<Letter>) {
    forall c :: c in letters <==> Names(word, es, dropping, c)
  }

  lemma NamedMore(word: Word, es: seq<Edit>, e: Edit, dropping: bool, letters: seq<Letter>, letter: Letter)
    requires Named(word, es, dropping, letters) && GoodEdit(word, e)
    requires letter == match e case Del(pos) => word[pos] case Ins(_, isVav) => if isVav then Vav else Yod
    ensures Named(word, es + [e], dropping, if e.Del? == dropping then letters + [letter] else letters)
  {
    var more := es + [e];
    forall c
      ensures Names(word, more, dropping, c) <==> Names(word, es, dropping, c) || (e.Del? == dropping && c == letter)
    {
      if Names(word, es, dropping, c) {
        var i :| 0 <= i < |es| && es[i].Del? == dropping && IsOf(word, es[i], c);
        assert more[i] == es[i];
      }
      if e.Del? == dropping && c == letter {
        assert more[|es|] == e && IsOf(word, more[|es|], c);
      }
    }
  }

  /** Is something left between the two gaps? */
  method StandApart(deleted: array<bool>, ghost marked: set<nat>, g: nat, h: nat) returns (apart: bool)
    requires Marks(deleted, marked) && h <= MARKED_CHARS
    ensures apart == Apart(marked, g, h)
  {
    for p := g to (if g <= h then h else g)
      invariant forall q :: g <= q < p ==> q in marked
    {
      if !deleted[p] {
        return true;
      }
    }
    apart := false;
  }

  method GapsApart(deleted: array<bool>, ghost marked: set<nat>, gaps: seq<nat>, ghost inserts: seq<(nat, bool)>)
    returns (apart: bool)
    requires Marks(deleted, marked) && GapsOf(gaps, inserts) && forall m :: 0 <= m < |gaps| ==> gaps[m] <= MARKED_CHARS
    ensures apart == AllNeighboursApart(marked, inserts)
  {
    var i := 1;
    while i < |gaps|
      invariant 1 <= i && (i <= |gaps| || |gaps| == 0)
      invariant forall j {:trigger NeighboursApart(marked, inserts, j)} ::
                  0 <= j < i - 1 && j < |inserts| - 1 ==> NeighboursApart(marked, inserts, j)
    {
      var here := StandApart(deleted, marked, gaps[i - 1], gaps[i]);
      if !here {
        assert !NeighboursApart(marked, inserts, i - 1);
        return false;
      }
      i := i + 1;
    }
    apart := true;
  }

  /** What one pass over the edits gathers. */
  ghost predicate Gathered(word: Word, es: seq<Edit>, yod: nat, vav: nat, dropped: nat, gaps: seq<nat>,
                           removed: seq<Letter>, added: seq<Letter>)
  {
    && yod == EditsOn(word, es, Yod) && vav == EditsOn(word, es, Vav) && dropped == LettersDropped(word, es)
    && GapsOf(gaps, Inserts(es)) && (forall m :: 0 <= m < |gaps| ==> gaps[m] < |word|)
    && Named(word, es, true, removed) && Named(word, es, false, added)
  }

  lemma TakenApart(es: seq<Edit>, e: Edit)
    ensures (es + [e])[..|es + [e]| - 1] == es && (es + [e])[|es + [e]| - 1] == e
  {
  }

  lemma CountMore(word: Word, es: seq<Edit>, e: Edit, letter: Letter)
    ensures EditsOn(word, es + [e], letter) == EditsOn(word, es, letter) + if IsOf(word, e, letter) then 1 else 0
  {
    TakenApart(es, e);
  }

  lemma DropMore(word: Word, es: seq<Edit>, pos: nat)
    requires pos < |word|
    ensures LettersDropped(word, es + [Del(pos)]) == LettersDropped(word, es) + if word[pos].Quote? then 0 else 1
    ensures Inserts(es + [Del(pos)]) == Inserts(es)
  {
    TakenApart(es, Del(pos));
  }

  lemma InsertMore(word: Word, es: seq<Edit>, gap: nat, isVav: bool)
    ensures LettersDropped(word, es + [Ins(gap, isVav)]) == LettersDropped(word, es)
    ensures Inserts(es + [Ins(gap, isVav)]) == Inserts(es) + [(gap, isVav)]
  {
    TakenApart(es, Ins(gap, isVav));
  }

  lemma GatherDeletion(word: Word, es: seq<Edit>, pos: nat, yod: nat, vav: nat, dropped: nat, gaps: seq<nat>,
                       removed: seq<Letter>, added: seq<Letter>)
    requires Gathered(word, es, yod, vav, dropped, gaps, removed, added) && GoodEdit(word, Del(pos))
    ensures Gathered(word, es + [Del(pos)], if word[pos].Yod? then yod + 1 else yod,
                     if word[pos].Vav? then vav + 1 else vav,
                     if word[pos].Quote? then dropped else dropped + 1, gaps, removed + [word[pos]], added)
  {
    var e := Del(pos);
    CountMore(word, es, e, Yod);
    CountMore(word, es, e, Vav);
    DropMore(word, es, pos);
    NamedMore(word, es, e, true, removed, word[pos]);
    NamedMore(word, es, e, false, added, word[pos]);
  }

  lemma GatherInsertion(word: Word, es: seq<Edit>, gap: nat, isVav: bool, yod: nat, vav: nat, dropped: nat,
                        gaps: seq<nat>, removed: seq<Letter>, added: seq<Letter>)
    requires Gathered(word, es, yod, vav, dropped, gaps, removed, added) && GoodEdit(word, Ins(gap, isVav))
    ensures Gathered(word, es + [Ins(gap, isVav)], if isVav then yod else yod + 1, if isVav then vav + 1 else vav,
                     dropped, gaps + [gap], removed, added + [if isVav then Vav else Yod])
  {
    var e := Ins(gap, isVav);
    CountMore(word, es, e, Yod);
    CountMore(word, es, e, Vav);
    InsertMore(word, es, gap, isVav);
    NamedMore(word, es, e, true, removed, if isVav then Vav else Yod);
    NamedMore(word, es, e, false, added, if isVav then Vav else Yod);
  }

  lemma SharedLetters(word: Word, es: seq<Edit>, removed: seq<Letter>, added: seq<Letter>)
    requires AllGood(word, es) && Named(word, es, true, removed) && Named(word, es, false, added)
    ensures (exists c :: c in removed && c in added) <==> Moves(word, es, Yod) || Moves(word, es, Vav)
  {
    assert Moves(word, es, Yod) <==> Names(word, es, true, Yod) && Names(word, es, false, Yod);
    assert Moves(word, es, Vav) <==> Names(word, es, true, Vav) && Names(word, es, false, Vav);
    forall c | c in added ensures c == Yod || c == Vav {
      assert Names(word, es, false, c);
    }
  }

  /** Is the choice allowed? */
  method IsValid(word: Word, es: seq<Edit>) returns (ok: bool)
    requires |word| < MARKED_CHARS && AllGood(word, es)
    ensures ok == Valid(word, es)
  {
    var yod, vav, dropped := 0, 0, 0;
    var deleted := new bool[MARKED_CHARS](_ => false);
    var gaps: seq<nat>, removed: seq<Letter>, added: seq<Letter> := [], [], [];
    for i := 0 to |es|
      invariant Marks(deleted, Deleted(es[..i]))
      invariant Gathered(word, es[..i], yod, vav, dropped, gaps, removed, added)
    {
      assert es[..i + 1] == es[..i] + [es[i]];
      match es[i]
      case Del(pos) =>
        GatherDeletion(word, es[..i], pos, yod, vav, dropped, gaps, removed, added);
        deleted[pos] := true;
        removed := removed + [word[pos]];
        yod := if word[pos].Yod? then yod + 1 else yod;
        vav := if word[pos].Vav? then vav + 1 else vav;
        dropped := if word[pos].Quote? then dropped else dropped + 1;
      case Ins(gap, isVav) =>
        GatherInsertion(word, es[..i], gap, isVav, yod, vav, dropped, gaps, removed, added);
        gaps := gaps + [gap];
        added := added + [if isVav then Vav else Yod];
        yod := if isVav then yod else yod + 1;
        vav := if isVav then vav + 1 else vav;
    }
    assert es[..|es|] == es;
    if yod > MAX_EDITS_PER_LETTER || vav > MAX_EDITS_PER_LETTER {
      return false;
    }
    SharedLetters(word, es, removed, added);
    if exists c :: c in removed && c in added {
      return false;
    }
    if Letters(word, |word|) - dropped < MIN_SPELLING_LETTERS {
      return false;
    }
    ok := GapsApart(deleted, Deleted(es), gaps, Inserts(es));
  }

  lemma LettersOfBoth(a: seq<Piece>, b: seq<Piece>)
    ensures LettersOf(a + b) == LettersOf(a) + LettersOf(b)
  {
  }

  /** The letters added at a gap. */
  method AddAt(inserts: seq<(nat, bool)>, gap: nat) returns (out: Word)
    ensures out == LettersOf(AddedAt(inserts, gap))
  {
    out := [];
    for m := 0 to |inserts|
      invariant out == LettersOf(AddedTo(inserts, m, gap))
    {
      if inserts[m].0 == gap {
        LettersOfBoth(AddedTo(inserts, m, gap), [Piece(if inserts[m].1 then Vav else Yod, true)]);
        out := out + [if inserts[m].1 then Vav else Yod];
      }
    }
  }

  /** Which characters the edits drop, and what they add where. */
  method TakeEdits(word: Word, es: seq<Edit>) returns (deleted: array<bool>, inserts: seq<(nat, bool)>)
    requires |word| < MARKED_CHARS && AllGood(word, es)
    ensures fresh(deleted) && Marks(deleted, Deleted(es)) && inserts == Inserts(es)
  {
    deleted := new bool[MARKED_CHARS](_ => false);
    inserts := [];
    for i := 0 to |es|
      invariant Marks(deleted, Deleted(es[..i])) && inserts == Inserts(es[..i])
    {
      assert es[..i + 1][..i] == es[..i];
      match es[i]
      case Del(pos) => deleted[pos] := true;
      case Ins(gap, isVav) => inserts := inserts + [(gap, isVav)];
    }
    assert es[..|es|] == es;
  }

  lemma LettersOfNext(word: Word, deleted: set<nat>, inserts: seq<(nat, bool)>, i: nat)
    requires i <= |word|
    ensures LettersOf(Pieces(word, deleted, inserts, i + 1))
         == LettersOf(Pieces(word, deleted, inserts, i)) + LettersOf(AddedAt(inserts, i))
             + LettersOf(Kept(word, deleted, i))
  {
    LettersOfBoth(Pieces(word, deleted, inserts, i) + AddedAt(inserts, i), Kept(word, deleted, i));
    LettersOfBoth(Pieces(word, deleted, inserts, i), AddedAt(inserts, i));
  }

  lemma KeptLetter(word: Word, deleted: set<nat>, i: nat)
    ensures LettersOf(Kept(word, deleted, i)) == if i < |word| && i !in deleted then [word[i]] else []
  {
  }

  /** Writes the variant out, gap after gap. */
  method Build(word: Word, deleted: array<bool>, ghost marked: set<nat>, inserts: seq<(nat, bool)>) returns (out: Word)
    requires |word| < MARKED_CHARS && Marks(deleted, marked)
    ensures out == LettersOf(Pieces(word, marked, inserts, |word| + 1))
  {
    out := [];
    for i := 0 to |word| + 1
      invariant out == LettersOf(Pieces(word, marked, inserts, i))
    {
      LettersOfNext(word, marked, inserts, i);
      KeptLetter(word, marked, i);
      var added := AddAt(inserts, i);
      out := out + added;
      if i < |word| && !deleted[i] {
        out := out + [word[i]];
      }
    }
  }

  /** The variant a choice makes. */
  method Apply(word: Word, es: seq<Edit>) returns (out: Word)
    requires |word| < MARKED_CHARS && AllGood(word, es)
    ensures out == Applied(word, es)
  {
    var deleted, inserts := TakeEdits(word, es);
    out := Build(word, deleted, Deleted(es), inserts);
  }

  // ── The variants, in order ───────────────────────────────────────────────────

  function Chosen(edits: seq<Edit>, c: seq<nat>): (es: seq<Edit>)
    requires forall i :: 0 <= i < |c| ==> c[i] < |edits|
    ensures |es| == |c| && forall i :: 0 <= i < |c| ==> es[i] == edits[c[i]]
  {
    seq(|c|, i requires 0 <= i < |c| && c[i] < |edits| => edits[c[i]])
  }

  /** Fewer edits come first, and of as many, the first candidates. */
  ghost predicate Earlier(a: seq<nat>, b: seq<nat>) {
    |a| < |b| || (|a| == |b| && LexLess(a, b))
  }

  /** How far the search has come. */
  datatype Mark = Sizes(k: nat) | Upto(c: seq<nat>) | Through(c: seq<nat>)

  /** No choice of more than `k` candidates has been passed. */
  predicate Within(mark: Mark, k: nat) {
    match mark
    case Sizes(j) => j <= k
    case Upto(c) => |c| <= k
    case Through(c) => |c| <= k
  }

  ghost predicate Past(mark: Mark, c: seq<nat>) {
    match mark
    case Sizes(k) => |c| <= k
    case Upto(d) => Earlier(c, d)
    case Through(d) => Earlier(c, d) || c == d
  }

  /** A choice of candidates that makes a variant. */
  ghost predicate Makes(word: Word, edits: seq<Edit>, c: seq<nat>, variant: Word) {
    IsCombination(c, |edits|) && Valid(word, Chosen(edits, c)) && Applied(word, Chosen(edits, c)) == variant
  }

  /** A variant listed comes from its choice; the word itself, from none. */
  ghost predicate IsListed(word: Word, edits: seq<Edit>, c: seq<nat>, variant: Word, i: nat) {
    if i == 0 then c == [] && variant == word else c != [] && Makes(word, edits, c, variant)
  }

  /** Some variant listed is the same and was made no later. */
  ghost predicate IsCovered(out: seq<Word>, choices: seq<seq<nat>>, c: seq<nat>, variant: Word) {
    exists i :: 0 <= i < |out| && i < |choices| && out[i] == variant && !Earlier(c, choices[i])
  }

  ghost predicate AllListed(word: Word, edits: seq<Edit>, out: seq<Word>, choices: seq<seq<nat>>) {
    |choices| == |out| && forall i :: 0 <= i < |out| ==> IsListed(word, edits, choices[i], out[i], i)
  }

  ghost predicate AllPassed(choices: seq<seq<nat>>, mark: Mark) {
    forall i :: 0 < i < |choices| ==> Past(mark, choices[i])
  }

  ghost predicate InTurn(out: seq<Word>, choices: seq<seq<nat>>) {
    |choices| == |out| && forall i, j :: 0 <= i < j < |out| ==> Earlier(choices[i], choices[j]) && out[i] != out[j]
  }

  ghost predicate AllCovered(word: Word, edits: seq<Edit>, out: seq<Word>, choices: seq<seq<nat>>, mark: Mark) {
    forall c, variant ::
      c != [] && Makes(word, edits, c, variant) && Past(mark, c) ==> IsCovered(out, choices, c, variant)
  }

  /** `out` lists the variants of the choices passed: each once, under the first choice that makes
      it, in the order of their choices. */
  ghost predicate Lists(word: Word, edits: seq<Edit>, out: seq<Word>, choices: seq<seq<nat>>, mark: Mark) {
    && out != [] && AllListed(word, edits, out, choices) && AllPassed(choices, mark) && InTurn(out, choices)
    && AllCovered(word, edits, out, choices, mark)
  }

  lemma SameMark(word: Word, edits: seq<Edit>, out: seq<Word>, choices: seq<seq<nat>>, a: Mark, b: Mark)
    requires Lists(word, edits, out, choices, a)
    requires forall c :: c != [] && IsCombination(c, |edits|) ==> (Past(a, c) <==> Past(b, c))
    ensures Lists(word, edits, out, choices, b)
  {
    forall i | 0 < i < |out| ensures Past(b, choices[i]) {
      assert IsListed(word, edits, choices[i], out[i], i);
    }
  }

  /** Nothing but the word is listed before any choice is passed. */
  lemma StartsWithWord(word: Word, edits: seq<Edit>)
    ensures Lists(word, edits, [word], [[]], Sizes(0))
  {
  }

  lemma PassSkipped(word: Word, edits: seq<Edit>, out: seq<Word>, choices: seq<seq<nat>>, c: seq<nat>)
    requires Lists(word, edits, out, choices, Upto(c)) && c != [] && IsCombination(c, |edits|)
    requires !Valid(word, Chosen(edits, c)) || Applied(word, Chosen(edits, c)) in out
    ensures Lists(word, edits, out, choices, Through(c))
  {
    forall d, variant | d != [] && Makes(word, edits, d, variant) && Past(Through(c), d)
      ensures IsCovered(out, choices, d, variant)
    {
      if d == c {
        var i :| 0 <= i < |out| && out[i] == variant;
        if i > 0 {
          assert Past(Upto(c), choices[i]);
          NotBothEarlier(choices[i], c);
        } else {
          assert IsListed(word, edits, choices[0], out[0], 0);
        }
      }
    }
  }

  lemma NotBothEarlier(a: seq<nat>, b: seq<nat>)
    requires Earlier(a, b)
    ensures !Earlier(b, a)
  {
    if |a| == |b| {
      LexTotal(a, b);
    }
  }

  lemma NotEarlierThanItself(c: seq<nat>)
    ensures !Earlier(c, c)
  {
    LexTotal(c, c);
  }

  lemma StillCovered(out: seq<Word>, choices: seq<seq<nat>>, variant: Word, c: seq<nat>, d: seq<nat>, v: Word)
    requires IsCovered(out, choices, d, v) && |out| == |choices|
    ensures IsCovered(out + [variant], choices + [c], d, v)
  {
    var i :| 0 <= i < |out| && out[i] == v && !Earlier(d, choices[i]);
    assert (out + [variant])[i] == v && (choices + [c])[i] == choices[i];
  }

  lemma PassListed(word: Word, edits: seq<Edit>, out: seq<Word>, choices: seq<seq<nat>>, c: seq<nat>, variant: Word)
    requires Lists(word, edits, out, choices, Upto(c)) && c != [] && Makes(word, edits, c, variant) && variant !in out
    ensures Lists(word, edits, out + [variant], choices + [c], Through(c))
  {
    OneMoreListed(word, edits, out, choices, c, variant);
    OneMoreInTurn(word, edits, out, choices, c, variant);
    forall d, v | d != [] && Makes(word, edits, d, v) && Past(Through(c), d)
      ensures IsCovered(out + [variant], choices + [c], d, v)
    {
      CoveredOnceListed(word, edits, out, choices, c, variant, d, v);
    }
  }

  lemma OneMoreListed(word: Word, edits: seq<Edit>, out: seq<Word>, choices: seq<seq<nat>>, c: seq<nat>, variant: Word)
    requires AllListed(word, edits, out, choices) && out != [] && c != [] && Makes(word, edits, c, variant)
    ensures AllListed(word, edits, out + [variant], choices + [c])
  {
    var out', choices' := out + [variant], choices + [c];
    forall i | 0 <= i < |out'| ensures IsListed(word, edits, choices'[i], out'[i], i) {
      if i < |out| {
        assert IsListed(word, edits, choices[i], out[i], i);
      }
    }
  }

  lemma OneMoreInTurn(word: Word, edits: seq<Edit>, out: seq<Word>, choices: seq<seq<nat>>, c: seq<nat>, variant: Word)
    requires AllListed(word, edits, out, choices) && AllPassed(choices, Upto(c)) && InTurn(out, choices)
    requires c != [] && variant !in out
    ensures InTurn(out + [variant], choices + [c]) && AllPassed(choices + [c], Through(c))
  {
    var out', choices' := out + [variant], choices + [c];
    forall i | 0 <= i < |out| ensures Earlier(choices[i], c) && out[i] != variant {
      assert IsListed(word, edits, choices[i], out[i], i);
      assert i > 0 ==> Past(Upto(c), choices[i]);
      assert out[i] in out;
    }
    forall i, j | 0 <= i < j < |out'| ensures Earlier(choices'[i], choices'[j]) && out'[i] != out'[j] {
    }
  }

  lemma CoveredOnceListed(word: Word, edits: seq<Edit>, out: seq<Word>, choices: seq<seq<nat>>, c: seq<nat>,
                          variant: Word, d: seq<nat>, v: Word)
    requires Lists(word, edits, out, choices, Upto(c)) && Makes(word, edits, c, variant)
    requires d != [] && Makes(word, edits, d, v) && Past(Through(c), d)
    ensures IsCovered(out + [variant], choices + [c], d, v)
  {
    if d == c {
      NotEarlierThanItself(c);
      assert (out + [variant])[|out|] == v && (choices + [c])[|out|] == c;
    } else {
      StillCovered(out, choices, variant, c, d, v);
    }
  }

  /** Tries one choice. */
  method Try(word: Word, edits: seq<Edit>, c: seq<nat>, out: seq<Word>, ghost choices: seq<seq<nat>>)
    returns (out': seq<Word>, ghost choices': seq<seq<nat>>)
    requires |word| < MARKED_CHARS && edits == EditsOf(word) && c != [] && IsCombination(c, |edits|)
    requires Lists(word, edits, out, choices, Upto(c))
    ensures Lists(word, edits, out', choices', Through(c))
    ensures out' == out || |out'| == |out| + 1
  {
    EditsAreGood(word);
    var es := Chosen(edits, c);
    var ok := IsValid(word, es);
    if ok {
      var variant := Apply(word, es);
      if variant !in out {
        PassListed(word, edits, out, choices, c, variant);
        return out + [variant], choices + [c];
      }
    }
    PassSkipped(word, edits, out, choices, c);
    out', choices' := out, choices;
  }

  lemma MarkAdvances(edits: seq<Edit>, was: seq<nat>, now: seq<nat>, c: seq<nat>)
    requires IsCombination(c, |edits|) && |was| == |now| && LexLess(was, now)
    requires |c| == |was| && LexLess(was, c) ==> c == now || LexLess(now, c)
    ensures Past(Through(was), c) <==> Past(Upto(now), c)
  {
    if |c| == |was| {
      LexTotal(c, was);
      LexTotal(c, now);
      if LexLess(c, was) {
        LexTransitive(c, was, now);
      }
    }
  }

  /** Tries every choice of `k` candidates in order, until there are `limit` variants. */
  method TryAllOf(word: Word, edits: seq<Edit>, k: nat, limit: nat, out: seq<Word>, ghost choices: seq<seq<nat>>)
    returns (out': seq<Word>, ghost choices': seq<seq<nat>>, ghost mark: Mark)
    requires |word| < MARKED_CHARS && edits == EditsOf(word) && 0 < k <= |edits|
    requires Lists(word, edits, out, choices, Sizes(k - 1)) && |out| < limit
    ensures Lists(word, edits, out', choices', mark) && |out'| <= limit
    ensures Within(mark, k) && (mark == Sizes(k) || |out'| == limit)
  {
    var m := |edits|;
    var idx := new nat[k](i => i);
    out', choices' := out, choices;
    assert idx[..] == FirstChoice(k);
    BeginsSize(word, edits, out', choices', k);
    while true
      invariant IsCombination(idx[..], m) && |out'| < limit
      invariant Lists(word, edits, out', choices', Upto(idx[..]))
      decreases Power(m, k) - Value(idx[..], m)
    {
      ghost var was := idx[..];
      out', choices' := Try(word, edits, idx[..], out', choices');
      if |out'| >= limit {
        mark := Through(was);
        return;
      }
      var more := Advance(idx, m);
      if !more {
        EndsSize(word, edits, out', choices', was, k);
        mark := Sizes(k);
        return;
      }
      forall c | c != [] && IsCombination(c, m) ensures Past(Through(was), c) <==> Past(Upto(idx[..]), c) {
        MarkAdvances(edits, was, idx[..], c);
      }
      SameMark(word, edits, out', choices', Through(was), Upto(idx[..]));
      ValueBounded(idx[..], m);
      ghost var p: nat :| LessAt(was, idx[..], p);
      ValueFollowsOrder(was, idx[..], m, p);
    }
  }

  lemma BeginsSize(word: Word, edits: seq<Edit>, out: seq<Word>, choices: seq<seq<nat>>, k: nat)
    requires 0 < k <= |edits| && Lists(word, edits, out, choices, Sizes(k - 1))
    ensures IsCombination(FirstChoice(k), |edits|) && Lists(word, edits, out, choices, Upto(FirstChoice(k)))
  {
    forall c | c != [] && IsCombination(c, |edits|) ensures Past(Sizes(k - 1), c) <==> Past(Upto(FirstChoice(k)), c) {
      if |c| == k {
        FirstIsFirst(k, |edits|, c);
        LexTotal(c, FirstChoice(k));
      }
    }
    SameMark(word, edits, out, choices, Sizes(k - 1), Upto(FirstChoice(k)));
  }

  lemma EndsSize(word: Word, edits: seq<Edit>, out: seq<Word>, choices: seq<seq<nat>>, last: seq<nat>, k: nat)
    requires |last| == k && Lists(word, edits, out, choices, Through(last))
    requires forall c :: IsCombination(c, |edits|) && |c| == k ==> c == last || LexLess(c, last)
    ensures Lists(word, edits, out, choices, Sizes(k))
  {
    LastPassesAll(edits, last, k);
    SameMark(word, edits, out, choices, Through(last), Sizes(k));
  }

  lemma LastPassesAll(edits: seq<Edit>, last: seq<nat>, k: nat)
    requires |last| == k && forall c :: IsCombination(c, |edits|) && |c| == k ==> c == last || LexLess(c, last)
    ensures forall c :: c != [] && IsCombination(c, |edits|) ==> (Past(Through(last), c) <==> Past(Sizes(k), c))
  {
  }

  /** The widest choice tried. */
  function MaxEdits(edits: seq<Edit>): nat {
    Min(|edits|, 2 * MAX_EDITS_PER_LETTER + 2)
  }

  /** The variants of a word: it first, then those of one edit, of two, and so on, each once and in
      the order of their choices; stopping only where `limit` cuts the list. */
  ghost predicate AreVariants(word: Word, limit: nat, out: seq<Word>) {
    exists choices, mark :: AreVariantsOf(word, limit, out, choices, mark)
  }

  ghost predicate AreVariantsOf(word: Word, limit: nat, out: seq<Word>, choices: seq<seq<nat>>, mark: Mark) {
    && Lists(word, EditsOf(word), out, choices, mark)
    && |out| <= limit && Within(mark, MaxEdits(EditsOf(word)))
    && (mark == Sizes(MaxEdits(EditsOf(word))) || |out| == limit)
  }

  /** The spellings of a word: its variants, unless it is empty, too wide to be edited, or none are asked for. */
  ghost predicate AreSpellings(word: Word, limit: nat, out: seq<Word>) {
    && (word == [] ==> out == [[]])
    && (word != [] && limit == 0 ==> out == [])
    && (word != [] && limit > 0 && |word| >= MARKED_CHARS ==> out == [word])
    && (0 < |word| < MARKED_CHARS && limit > 0 ==> AreVariants(word, limit, out))
  }

  method GenerateSpellingVariations(word: Word, limit: nat) returns (out: seq<Word>)
    ensures AreSpellings(word, limit, out)
  {
    if word == [] {
      return [[]];
    }
    if limit == 0 {
      return [];
    }
    if |word| >= MARKED_CHARS {
      return [word];
    }
    var edits := EditsOf(word);
    StartsWithWord(word, edits);
    out := [word];
    ghost var choices: seq<seq<nat>> := [[]];
    ghost var mark := Sizes(0);
    var k := 1;
    while k <= MaxEdits(edits) && |out| < limit
      invariant 1 <= k <= MaxEdits(edits) + 1 && |out| <= limit
      invariant Lists(word, edits, out, choices, mark) && Within(mark, k - 1)
      invariant mark == Sizes(k - 1) || |out| == limit
      decreases MaxEdits(edits) + 1 - k
    {
      out, choices, mark := TryAllOf(word, edits, k, limit, out, choices);
      k := k + 1;
    }
    assert AreVariantsOf(word, limit, out, choices, mark);
  }

  lemma FirstIsWord(word: Word, limit: nat, out: seq<Word>, choices: seq<seq<nat>>, mark: Mark)
    requires AreVariantsOf(word, limit, out, choices, mark)
    ensures out != [] && out[0] == word
  {
    assert IsListed(word, EditsOf(word), choices[0], out[0], 0);
  }

  /** A variant comes from a choice passed, of no more candidates than are tried. */
  lemma ListedAt(word: Word, limit: nat, out: seq<Word>, choices: seq<seq<nat>>, mark: Mark, i: nat)
    requires AreVariantsOf(word, limit, out, choices, mark) && 0 < i < |out|
    ensures i < |choices| && choices[i] != [] && |choices[i]| <= MaxEdits(EditsOf(word))
    ensures Makes(word, EditsOf(word), choices[i], out[i])
  {
    assert IsListed(word, EditsOf(word), choices[i], out[i], i);
    assert Past(mark, choices[i]);
  }

  /** `limit` is exceeded for the empty word and no other. */
  lemma OnlyTheEmptyWordExceedsLimit(word: Word, limit: nat, out: seq<Word>)
    requires AreSpellings(word, limit, out)
    ensures |out| <= limit <==> !(word == [] && limit == 0)
  {
  }

  /** The choice edits little: at most three yods and three vavs, no two added letters side by side,
      and at least three of the word's letters left. */
  ghost predicate IsClose(word: Word, es: seq<Edit>) {
    && EditsOn(word, es, Yod) <= MAX_EDITS_PER_LETTER && EditsOn(word, es, Vav) <= MAX_EDITS_PER_LETTER
    && NoneAdjacent(VariantOf(word, es)) && OwnLetters(VariantOf(word, es)) >= MIN_SPELLING_LETTERS
  }

  lemma ValidIsClose(word: Word, es: seq<Edit>)
    requires Valid(word, es)
    ensures IsClose(word, es)
  {
    ValidStaysApart(word, es);
    ValidKeepsLetters(word, es);
  }

  /** A variant made by a choice that edits little. */
  ghost predicate IsCloseVariant(word: Word, variant: Word) {
    exists c :: Makes(word, EditsOf(word), c, variant) && IsClose(word, Chosen(EditsOf(word), c))
  }

  /** The word comes first, nothing comes twice, and every other variant is close to the word. */
  lemma VariantsAreClose(word: Word, limit: nat, out: seq<Word>, i: nat)
    requires AreVariants(word, limit, out) && i < |out|
    ensures out[0] == word && forall j, k :: 0 <= j < k < |out| ==> out[j] != out[k]
    ensures i > 0 ==> IsCloseVariant(word, out[i])
  {
    var choices, mark :| AreVariantsOf(word, limit, out, choices, mark);
    FirstIsWord(word, limit, out, choices, mark);
    if i > 0 {
      ListedAt(word, limit, out, choices, mark, i);
      ValidIsClose(word, Chosen(EditsOf(word), choices[i]));
      assert Makes(word, EditsOf(word), choices[i], out[i]);
    }
  }
}
