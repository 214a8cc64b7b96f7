/** Which choices of edits are allowed: those that edit little, move nothing, and add no two letters side by side. */
module AllowedEdits {
  import opened Combinations
  import opened Spelling
  import opened ProposedEdits

  // ── Counts ───────────────────────────────────────────────────────────────────

  /** The edits that drop or add the letter. */
  function Touching(word: Word, es: seq<Edit>, letter: Letter): (r: set<nat>)
    ensures forall i: nat :: i in r <==> i < |es| && Touches(word, es[i], letter)
  {
    set i: nat | i < |es| && Touches(word, es[i], letter)
  }

  predicate Touches(word: Word, e: Edit, letter: Letter) {
    || (e.Del? && e.pos < |word| && word[e.pos] == letter)
    || (e.Ins? && letter == if e.isVav then Vav else Yod)
  }

  /** The edits that drop a letter, not a quote. */
  function Dropping(word: Word, es: seq<Edit>): (r: set<nat>)
    ensures forall i: nat :: i in r <==> i < |es| && es[i].Del? && es[i].pos < |word| && !word[es[i].pos].Quote?
  {
    set i: nat | i < |es| && es[i].Del? && es[i].pos < |word| && !word[es[i].pos].Quote?
  }

  lemma TouchingMore(word: Word, es: seq<Edit>, front: seq<Edit>, last: Edit, letter: Letter)
    requires es == front + [last]
    ensures |Touching(word, es, letter)| == |Touching(word, front, letter)| + if Touches(word, last, letter) then 1
                                                                              else 0
  {
    if Touches(word, last, letter) {
      assert Touching(word, es, letter) == Touching(word, front, letter) + {|front|};
    } else {
      assert Touching(word, es, letter) == Touching(word, front, letter);
    }
  }

  lemma {:induction false} EditsCounted(word: Word, es: seq<Edit>, letter: Letter)
    ensures EditsOn(word, es, letter) == |Touching(word, es, letter)|
  {
    if es == [] {
      assert Touching(word, es, letter) == {};
    } else {
      var front, last := es[..|es| - 1], es[|es| - 1];
      EditsCounted(word, front, letter);
      TouchingMore(word, es, front, last, letter);
    }
  }

  lemma DroppingMore(word: Word, es: seq<Edit>, front: seq<Edit>, last: Edit)
    requires es == front + [last]
    ensures |Dropping(word, es)|
         == |Dropping(word, front)| + if last.Del? && last.pos < |word| && !word[last.pos].Quote? then 1 else 0
  {
    if last.Del? && last.pos < |word| && !word[last.pos].Quote? {
      assert Dropping(word, es) == Dropping(word, front) + {|front|};
    } else {
      assert Dropping(word, es) == Dropping(word, front);
    }
  }

  lemma {:induction false} DropsCounted(word: Word, es: seq<Edit>)
    ensures LettersDropped(word, es) == |Dropping(word, es)|
  {
    if es == [] {
      assert Dropping(word, es) == {};
    } else {
      var front, last := es[..|es| - 1], es[|es| - 1];
      DropsCounted(word, front);
      DroppingMore(word, es, front, last);
    }
  }

  // ── Added letters side by side ───────────────────────────────────────────────

  /** Everything between the gaps of two additions that follow one another is dropped. */
  ghost predicate AreTouching(deleted: set<nat>, inserts: seq<(nat, bool)>, m: nat) {
    m + 1 < |inserts| && forall p :: inserts[m].0 <= p < inserts[m + 1].0 ==> p in deleted
  }

  lemma {:induction false} AllAdded(inserts: seq<(nat, bool)>, n: nat, gap: nat)
    requires n <= |inserts|
    ensures forall i :: 0 <= i < |AddedTo(inserts, n, gap)| ==> AddedTo(inserts, n, gap)[i].added
  {
    if n > 0 {
      AllAdded(inserts, n - 1, gap);
    }
  }

  lemma {:induction false} AddedGrows(inserts: seq<(nat, bool)>, m: nat, n: nat, gap: nat)
    requires m <= n <= |inserts|
    ensures |AddedTo(inserts, m, gap)| <= |AddedTo(inserts, n, gap)|
    decreases n
  {
    if m < n {
      AddedGrows(inserts, m, n - 1, gap);
    }
  }

  /** An addition at a gap is among those there, and so are two. */
  lemma AddedThere(inserts: seq<(nat, bool)>, m: nat)
    requires m < |inserts|
    ensures AddedAt(inserts, inserts[m].0) != []
    ensures m + 1 < |inserts| && inserts[m + 1].0 == inserts[m].0 ==> |AddedAt(inserts, inserts[m].0)| > 1
  {
    var gap := inserts[m].0;
    assert |AddedTo(inserts, m + 1, gap)| == |AddedTo(inserts, m, gap)| + 1;
    AddedGrows(inserts, m + 1, |inserts|, gap);
    if m + 1 < |inserts| && inserts[m + 1].0 == gap {
      assert |AddedTo(inserts, m + 2, gap)| == |AddedTo(inserts, m + 1, gap)| + 1;
      AddedGrows(inserts, m + 2, |inserts|, gap);
    }
  }

  predicate EndsAdded(pieces: seq<Piece>) {
    pieces != [] && pieces[|pieces| - 1].added
  }

  /** From the first gap on, the variant ends with an added letter. */
  lemma {:induction false} EndsAddedOn(word: Word, deleted: set<nat>, inserts: seq<(nat, bool)>, m: nat, i: nat)
    requires AreTouching(deleted, inserts, m) && inserts[m].0 < i <= inserts[m + 1].0 && i <= |word|
    ensures EndsAdded(Pieces(word, deleted, inserts, i))
    decreases i
  {
    var before := Pieces(word, deleted, inserts, i - 1);
    NextPieces(word, deleted, inserts, i - 1, before);
    AllAdded(inserts, |inserts|, i - 1);
    assert i - 1 in deleted;
    if i - 1 > inserts[m].0 {
      EndsAddedOn(word, deleted, inserts, m, i - 1);
      EndsAddedStill(before, AddedAt(inserts, i - 1));
    } else {
      AddedThere(inserts, m);
      EndsAddedNow(before, AddedAt(inserts, i - 1));
    }
  }

  lemma EndsAddedStill(before: seq<Piece>, more: seq<Piece>)
    requires EndsAdded(before) && forall i :: 0 <= i < |more| ==> more[i].added
    ensures EndsAdded(before + more + [])
  {
  }

  lemma EndsAddedNow(before: seq<Piece>, more: seq<Piece>)
    requires more != [] && forall i :: 0 <= i < |more| ==> more[i].added
    ensures EndsAdded(before + more + [])
  {
  }

  lemma {:induction false} PiecesGrow(word: Word, deleted: set<nat>, inserts: seq<(nat, bool)>, i: nat, j: nat)
    requires i <= j <= |word| + 1
    ensures Pieces(word, deleted, inserts, i) <= Pieces(word, deleted, inserts, j)
    decreases j
  {
    if i < j {
      PiecesGrow(word, deleted, inserts, i, j - 1);
    }
  }

  lemma TwoAdjacent(before: seq<Piece>, added: seq<Piece>, kept: seq<Piece>, here: seq<Piece>, all: seq<Piece>)
    requires (forall i :: 0 <= i < |added| ==> added[i].added) && added != [] && (|added| > 1 || EndsAdded(before))
    requires here == before + added + kept && here <= all
    ensures !NoneAdjacent(all)
  {
    var i := if |added| > 1 then |before| else |before| - 1;
    assert all[i] == here[i] && all[i + 1] == here[i + 1];
    assert BothAdded(all, i);
  }

  /** Where the second of two additions that touch is made, an added letter stands before it. */
  lemma TouchesBefore(word: Word, deleted: set<nat>, inserts: seq<(nat, bool)>, m: nat, gap: nat)
    requires AreTouching(deleted, inserts, m) && inserts[m].0 <= inserts[m + 1].0 == gap <= |word|
    ensures AddedAt(inserts, gap) != []
    ensures |AddedAt(inserts, gap)| > 1 || EndsAdded(Pieces(word, deleted, inserts, gap))
  {
    AddedThere(inserts, m + 1);
    if inserts[m].0 == gap {
      AddedThere(inserts, m);
    } else {
      EndsAddedOn(word, deleted, inserts, m, gap);
    }
  }

  /** Additions that touch stand side by side in the variant. */
  lemma TouchingAreAdjacent(word: Word, deleted: set<nat>, inserts: seq<(nat, bool)>, m: nat)
    requires AreTouching(deleted, inserts, m) && inserts[m].0 <= inserts[m + 1].0 <= |word|
    ensures !NoneAdjacent(Pieces(word, deleted, inserts, |word| + 1))
  {
    var gap := inserts[m + 1].0;
    TouchesBefore(word, deleted, inserts, m, gap);
    AdjacentAt(word, deleted, inserts, gap, Pieces(word, deleted, inserts, gap),
               Pieces(word, deleted, inserts, gap + 1),
               Pieces(word, deleted, inserts, |word| + 1));
  }

  lemma AdjacentAt(word: Word, deleted: set<nat>, inserts: seq<(nat, bool)>, gap: nat, before: seq<Piece>,
                   here: seq<Piece>, all: seq<Piece>)
    requires gap <= |word| && AddedAt(inserts, gap) != [] && (|AddedAt(inserts, gap)| > 1 || EndsAdded(before))
    requires before == Pieces(word, deleted, inserts, gap) && here == Pieces(word, deleted, inserts, gap + 1)
    requires all == Pieces(word, deleted, inserts, |word| + 1)
    ensures !NoneAdjacent(all)
  {
    AllAdded(inserts, |inserts|, gap);
    NextPieces(word, deleted, inserts, gap, before);
    PiecesGrow(word, deleted, inserts, gap + 1, |word| + 1);
    TwoAdjacent(before, AddedAt(inserts, gap), Kept(word, deleted, gap), here, all);
  }

  // ── Additions come in the order of their gaps ────────────────────────────────

  /** Of two candidates that add, the later is at a gap not before the other's. */
  lemma AddsClimb(word: Word, x: nat, y: nat)
    requires x < y < |EditsOf(word)| && EditsOf(word)[x].Ins? && EditsOf(word)[y].Ins?
    ensures EditsOf(word)[x].gap <= EditsOf(word)[y].gap < |word|
  {
    EditsAreGood(word);
    var drops, adds := EditsAreProposed(word);
    assert x >= |drops| && y >= |drops| by {
      assert forall i :: 0 <= i < |drops| ==> (drops + adds)[i] == drops[i];
    }
    assert EditsOf(word)[x] == adds[x - |drops|] && EditsOf(word)[y] == adds[y - |drops|];
    AddAt(word, adds, x - |drops|);
    AddAt(word, adds, y - |drops|);
  }

  lemma AddAt(word: Word, adds: seq<Edit>, k: nat)
    requires AreAdds(word, adds) && k < |adds| && word != []
    ensures adds[k].Ins? && adds[k].gap == k / 2 + 1
  {
    if Letters(word, |word|) >= 4 {
      var g := k / 2 + 1;
      assert 0 < g < |word| && (k == 2 * g - 2 || k == 2 * g - 1);
      assert adds[2 * g - 2] == Ins(g, true) && adds[2 * g - 1] == Ins(g, false);
    } else {
      assert adds == [] || adds == [Ins(1, true)];
    }
  }

  lemma {:induction false} InsertComesFrom(es: seq<Edit>, m: nat) returns (i: nat)
    requires m < |Inserts(es)|
    ensures i < |es| && es[i].Ins? && (es[i].gap, es[i].isVav) == Inserts(es)[m]
    ensures m == |Inserts(es[..i])|
  {
    var n := |es| - 1;
    if m < |Inserts(es[..n])| {
      i := InsertComesFrom(es[..n], m);
      assert es[..n][..i] == es[..i];
    } else {
      i := n;
    }
  }

  lemma {:induction false} InsertsGrow(es: seq<Edit>, i: nat, j: nat)
    requires i <= j <= |es|
    ensures |Inserts(es[..i])| <= |Inserts(es[..j])|
    decreases j
  {
    if i < j {
      InsertsGrow(es, i, j - 1);
      assert es[..j][..j - 1] == es[..j - 1];
    }
  }

  lemma ChosenInOrder(word: Word, c: seq<nat>, m: nat)
    requires IsCombination(c, |EditsOf(word)|)
    requires m + 1 < |Inserts(Chosen(EditsOf(word), c))|
    ensures var inserts := Inserts(Chosen(EditsOf(word), c)); inserts[m].0 <= inserts[m + 1].0 < |word|
  {
    var es := Chosen(EditsOf(word), c);
    var i := InsertComesFrom(es, m);
    var j := InsertComesFrom(es, m + 1);
    if j <= i {
      InsertsGrow(es, j, i);
    }
    AddsClimb(word, c[i], c[j]);
  }

  // ── The allowed choices ──────────────────────────────────────────────────────

  /** At most three edits of each of the two letters, neither both dropped and added, three letters left, and no
      two added letters side by side. */
  ghost predicate IsAllowed(word: Word, es: seq<Edit>) {
    && |Touching(word, es, Yod)| <= 3 && |Touching(word, es, Vav)| <= 3
    && (forall i, j, letter ::
          0 <= i < |es| && 0 <= j < |es| && Touches(word, es[i], letter) && Touches(word, es[j], letter) ==>
            es[i].Del? == es[j].Del? || (letter != Yod && letter != Vav))
    && Letters(word, |word|) - |Dropping(word, es)| >= 3
    && NoneAdjacent(VariantOf(word, es))
  }

  lemma NothingMoves(word: Word, es: seq<Edit>, letter: Letter)
    ensures Moves(word, es, letter)
       <==> exists i, j :: 0 <= i < |es| && 0 <= j < |es| && es[i].Del? && es[j].Ins?
                             && Touches(word, es[i], letter) && Touches(word, es[j], letter)
  {
    assert forall i :: 0 <= i < |es| ==> (IsOf(word, es[i], letter) <==> Touches(word, es[i], letter));
  }

  lemma NotAllowedTouching(word: Word, c: seq<nat>)
    requires IsCombination(c, |EditsOf(word)|)
    requires NoneAdjacent(VariantOf(word, Chosen(EditsOf(word), c)))
    ensures var es := Chosen(EditsOf(word), c); AllNeighboursApart(Deleted(es), Inserts(es))
  {
    var es := Chosen(EditsOf(word), c);
    var deleted, inserts := Deleted(es), Inserts(es);
    forall m | 0 <= m < |inserts| - 1 ensures NeighboursApart(deleted, inserts, m) {
      ChosenInOrder(word, c, m);
      if !Apart(deleted, inserts[m].0, inserts[m + 1].0) {
        TouchingAreAdjacent(word, deleted, inserts, m);
      }
    }
  }

  /** A choice of candidates is allowed exactly when it edits little and adds no two letters side by side. */
  lemma ChoiceIsAllowed(word: Word, c: seq<nat>)
    requires IsCombination(c, |EditsOf(word)|)
    ensures Valid(word, Chosen(EditsOf(word), c)) <==> IsAllowed(word, Chosen(EditsOf(word), c))
  {
    var es := Chosen(EditsOf(word), c);
    EditsCounted(word, es, Yod);
    EditsCounted(word, es, Vav);
    DropsCounted(word, es);
    NothingMoves(word, es, Yod);
    NothingMoves(word, es, Vav);
    if Valid(word, es) {
      ValidStaysApart(word, es);
    } else if IsAllowed(word, es) {
      NotAllowedTouching(word, c);
    }
  }
}
