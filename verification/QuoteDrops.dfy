/** When a word's spellings include it without its quotes. */
module QuoteDrops {
  import opened Prelude
  import opened Combinations
  import opened Spelling
  import opened VariantOrder

  predicate IsQuote(word: Word, p: nat) {
    p < |word| && word[p].Quote?
  }

  /** The word up to `n`, without its quotes. */
  function Unquoted(word: Word, n: nat): Word
    requires n <= |word|
  {
    if n == 0 then [] else Unquoted(word, n - 1) + if word[n - 1].Quote? then [] else [word[n - 1]]
  }

  /** Every quote is dropped. */
  ghost predicate DropsAll(word: Word, es: seq<Edit>) {
    forall p: nat :: IsQuote(word, p) ==> Del(p) in es
  }

  /** And nothing else is done. */
  ghost predicate DropsQuotes(word: Word, es: seq<Edit>) {
    DropsAll(word, es) && forall e :: e in es ==> e.Del? && IsQuote(word, e.pos)
  }

  /** The choice is one the search may pass. */
  ghost predicate IsTried(word: Word, c: seq<nat>) {
    c != [] && IsCombination(c, |EditsOf(word)|) && |c| <= MaxEdits(EditsOf(word))
  }

  /** The candidates that drop the quotes among the first `n` characters. */
  function QuoteIndices(word: Word, n: nat): seq<nat>
    requires n <= |word|
  {
    if n == 0 then []
    else QuoteIndices(word, n - 1) + if word[n - 1].Quote? then [|Deletions(word, n - 1)|] else []
  }

  // ── A quote is dropped by one candidate ──────────────────────────────────────

  lemma {:induction false} DeletionsGrow(word: Word, m: nat, n: nat)
    requires m <= n <= |word|
    ensures Deletions(word, m) <= Deletions(word, n)
    decreases n
  {
    if m < n {
      DeletionsGrow(word, m, n - 1);
    }
  }

  lemma QuoteDeletion(word: Word, p: nat, n: nat)
    requires IsQuote(word, p) && p < n <= |word|
    ensures |Deletions(word, p)| < |Deletions(word, n)| && Deletions(word, n)[|Deletions(word, p)|] == Del(p)
  {
    DeletionsGrow(word, p + 1, n);
    assert DeletionAt(word, p) == Some(p);
    assert Deletions(word, p + 1) == Deletions(word, p) + [Del(p)];
  }

  lemma {:induction false} OneDeletion(word: Word, p: nat, n: nat, k: nat)
    requires IsQuote(word, p) && n <= |word| && k < |Deletions(word, n)| && Deletions(word, n)[k] == Del(p)
    ensures p < n && k == |Deletions(word, p)|
    decreases n
  {
    if k < |Deletions(word, n - 1)| {
      OneDeletion(word, p, n - 1, k);
    } else {
      assert DeletionAt(word, n - 1) == Some(p);
    }
  }

  lemma QuoteCandidate(word: Word, p: nat, i: nat)
    requires IsQuote(word, p) && i < |EditsOf(word)|
    ensures EditsOf(word)[i] == Del(p) <==> i == |Deletions(word, p)|
  {
    CandidatesAreGood(word);
    QuoteDeletion(word, p, |word|);
    if EditsOf(word)[i] == Del(p) {
      assert Candidates(word)[i].Del?;
      OneDeletion(word, p, |word|, i);
    }
  }

  // ── The one choice that drops them all ───────────────────────────────────────

  lemma {:induction false} IndexOfQuote(word: Word, n: nat, p: nat)
    requires p < n <= |word| && IsQuote(word, p)
    ensures |Deletions(word, p)| in QuoteIndices(word, n)
  {
    if p < n - 1 {
      IndexOfQuote(word, n - 1, p);
    }
  }

  lemma {:induction false} QuoteOfIndex(word: Word, n: nat, x: nat) returns (p: nat)
    requires n <= |word| && x in QuoteIndices(word, n)
    ensures p < n && IsQuote(word, p) && x == |Deletions(word, p)|
  {
    if x in QuoteIndices(word, n - 1) {
      p := QuoteOfIndex(word, n - 1, x);
    } else {
      p := n - 1;
    }
  }

  lemma {:induction false} IndicesAscend(word: Word, n: nat)
    requires n <= |word|
    ensures forall i, j :: 0 <= i < j < |QuoteIndices(word, n)| ==> QuoteIndices(word, n)[i] < QuoteIndices(word, n)[j]
    ensures forall i :: 0 <= i < |QuoteIndices(word, n)| ==> QuoteIndices(word, n)[i] < |Deletions(word, n)|
  {
    if n > 0 {
      IndicesAscend(word, n - 1);
    }
  }

  /** All the quotes are candidates, and there are not too many to drop at once. */
  ghost predicate QuotesFit(word: Word) {
    && |QuoteIndices(word, |word|)| <= 2 * MAX_EDITS_PER_LETTER + 2
    && forall p: nat :: IsQuote(word, p) ==> |Deletions(word, p)| < MAX_EDIT_CANDIDATES
  }

  ghost predicate HasQuote(word: Word) {
    exists p: nat :: IsQuote(word, p)
  }

  /** Each of the quotes' candidates is chosen. */
  lemma IndexChosen(word: Word, c: seq<nat>, x: nat)
    requires IsTried(word, c) && DropsAll(word, Chosen(EditsOf(word), c))
    requires x in QuoteIndices(word, |word|)
    ensures x in c && x < MAX_EDIT_CANDIDATES
  {
    var p := QuoteOfIndex(word, |word|, x);
    var es := Chosen(EditsOf(word), c);
    assert Del(p) in es;
    var i :| 0 <= i < |es| && es[i] == Del(p);
    QuoteCandidate(word, p, c[i]);
  }

  lemma TriedFits(word: Word, c: seq<nat>)
    requires IsTried(word, c) && DropsAll(word, Chosen(EditsOf(word), c))
    ensures QuotesFit(word)
  {
    var indices := QuoteIndices(word, |word|);
    forall x | x in indices ensures x in c && x < MAX_EDIT_CANDIDATES {
      IndexChosen(word, c, x);
    }
    NoMore(word, indices, c);
    forall p: nat | IsQuote(word, p) ensures |Deletions(word, p)| < MAX_EDIT_CANDIDATES {
      IndexOfQuote(word, |word|, p);
    }
  }

  lemma NoMore(word: Word, indices: seq<nat>, c: seq<nat>)
    requires indices == QuoteIndices(word, |word|) && IsTried(word, c) && forall x :: x in indices ==> x in c
    ensures |indices| <= |c|
  {
    IndicesAscend(word, |word|);
    DistinctWithin(indices, c);
  }

  /** The candidate chosen at `i` drops a quote. */
  lemma ChosenDropsQuote(word: Word, i: nat)
    requires QuotesFit(word) && i < |QuoteIndices(word, |word|)|
    ensures var x := QuoteIndices(word, |word|)[i];
            x < |EditsOf(word)| && EditsOf(word)[x].Del? && IsQuote(word, EditsOf(word)[x].pos)
  {
    var x := QuoteIndices(word, |word|)[i];
    var p := QuoteOfIndex(word, |word|, x);
    QuoteDeletion(word, p, |word|);
    QuoteCandidate(word, p, x);
  }

  lemma QuotesAreCombination(word: Word)
    requires QuotesFit(word) && HasQuote(word)
    ensures IsTried(word, QuoteIndices(word, |word|))
  {
    var c := QuoteIndices(word, |word|);
    IndicesAscend(word, |word|);
    forall i | 0 <= i < |c| ensures c[i] < |EditsOf(word)| {
      ChosenDropsQuote(word, i);
    }
    var p: nat :| IsQuote(word, p);
    IndexOfQuote(word, |word|, p);
    RoomLeft(c, |EditsOf(word)|, 0);
  }

  lemma QuoteIsChosen(word: Word, p: nat)
    requires QuotesFit(word) && IsQuote(word, p) && IsTried(word, QuoteIndices(word, |word|))
    ensures Del(p) in Chosen(EditsOf(word), QuoteIndices(word, |word|))
  {
    var c := QuoteIndices(word, |word|);
    IndexOfQuote(word, |word|, p);
    var i :| 0 <= i < |c| && c[i] == |Deletions(word, p)|;
    QuoteCandidate(word, p, c[i]);
    assert Chosen(EditsOf(word), c)[i] == Del(p);
  }

  lemma FittingIsTried(word: Word)
    requires QuotesFit(word) && HasQuote(word)
    ensures IsTried(word, QuoteIndices(word, |word|))
    ensures DropsQuotes(word, Chosen(EditsOf(word), QuoteIndices(word, |word|)))
  {
    QuotesAreCombination(word);
    var c := QuoteIndices(word, |word|);
    var es := Chosen(EditsOf(word), c);
    forall p: nat | IsQuote(word, p) ensures Del(p) in es {
      QuoteIsChosen(word, p);
    }
    forall e | e in es ensures e.Del? && IsQuote(word, e.pos) {
      var i :| 0 <= i < |es| && es[i] == e;
      ChosenDropsQuote(word, i);
    }
  }

  // ── Whether it is allowed ────────────────────────────────────────────────────

  /** Dropping quotes counts against no limit but the number of letters. */
  lemma {:induction false} QuotesCountNothing(word: Word, es: seq<Edit>)
    requires forall e :: e in es ==> e.Del? && IsQuote(word, e.pos)
    ensures EditsOn(word, es, Yod) == EditsOn(word, es, Vav) == LettersDropped(word, es) == 0 && Inserts(es) == []
  {
    if es != [] {
      QuotesCountNothing(word, es[..|es| - 1]);
      assert es[|es| - 1] in es;
    }
  }

  lemma QuoteDropsAllowed(word: Word, es: seq<Edit>)
    requires DropsQuotes(word, es)
    ensures Valid(word, es) <==> Letters(word, |word|) >= MIN_SPELLING_LETTERS
  {
    QuotesCountNothing(word, es);
    assert forall i :: 0 <= i < |es| ==> es[i] in es;
  }

  // ── What it gives ────────────────────────────────────────────────────────────

  lemma {:induction false} QuotesLeftOut(word: Word, deleted: set<nat>, i: nat)
    requires i <= |word| && forall p: nat :: p < |word| ==> (p in deleted <==> word[p].Quote?)
    ensures LettersOf(Pieces(word, deleted, [], i)) == Unquoted(word, i)
  {
    if i > 0 {
      QuotesLeftOut(word, deleted, i - 1);
      LettersOfNext(word, deleted, [], i - 1);
      KeptLetter(word, deleted, i - 1);
    }
  }

  /** Dropping the quotes and nothing else gives the word without them. */
  lemma DroppedIsUnquoted(word: Word, es: seq<Edit>)
    requires DropsQuotes(word, es)
    ensures Applied(word, es) == Unquoted(word, |word|)
  {
    QuotesCountNothing(word, es);
    forall p: nat | p < |word| ensures p in Deleted(es) <==> word[p].Quote? {
      assert word[p].Quote? ==> IsQuote(word, p);
    }
    QuotesLeftOut(word, Deleted(es), |word|);
    LettersOfNext(word, Deleted(es), [], |word|);
    KeptLetter(word, Deleted(es), |word|);
  }

  lemma {:induction false} KeptIsThere(word: Word, deleted: set<nat>, inserts: seq<(nat, bool)>, p: nat, i: nat)
    requires p < i <= |word| + 1 && p < |word| && p !in deleted
    ensures word[p] in LettersOf(Pieces(word, deleted, inserts, i))
  {
    LettersOfNext(word, deleted, inserts, i - 1);
    KeptLetter(word, deleted, i - 1);
    if p < i - 1 {
      KeptIsThere(word, deleted, inserts, p, i - 1);
    }
  }

  lemma {:induction false} UnquotedHasNone(word: Word, n: nat)
    requires n <= |word|
    ensures forall c :: c in Unquoted(word, n) ==> !c.Quote?
  {
    if n > 0 {
      UnquotedHasNone(word, n - 1);
    }
  }

  /** Only dropping every quote gives the word without them. */
  lemma UnquotedDropsAll(word: Word, es: seq<Edit>)
    requires Applied(word, es) == Unquoted(word, |word|)
    ensures DropsAll(word, es)
  {
    UnquotedHasNone(word, |word|);
    forall p: nat | IsQuote(word, p) ensures Del(p) in es {
      if p !in Deleted(es) {
        KeptIsThere(word, Deleted(es), Inserts(es), p, |word| + 1);
      }
    }
  }

  lemma LettersStay(word: Word, es: seq<Edit>)
    requires Valid(word, es)
    ensures Letters(word, |word|) >= MIN_SPELLING_LETTERS
  {
  }

  // ── When the word without its quotes is listed ───────────────────────────────

  lemma MadeFits(word: Word, c: seq<nat>)
    requires IsTried(word, c) && Makes(word, EditsOf(word), c, Unquoted(word, |word|))
    ensures QuotesFit(word) && Letters(word, |word|) >= MIN_SPELLING_LETTERS
  {
    UnquotedDropsAll(word, Chosen(EditsOf(word), c));
    TriedFits(word, c);
    LettersStay(word, Chosen(EditsOf(word), c));
  }

  lemma UnquotedIsOther(word: Word)
    requires HasQuote(word)
    ensures word != Unquoted(word, |word|)
  {
    UnquotedHasNone(word, |word|);
    var p: nat :| IsQuote(word, p);
    assert word[p] in word;
  }

  lemma ListedFits(word: Word, limit: nat, out: seq<Word>)
    requires HasQuote(word) && AreVariants(word, limit, out) && Unquoted(word, |word|) in out
    ensures QuotesFit(word) && Letters(word, |word|) >= MIN_SPELLING_LETTERS
  {
    var choices, mark :| AreVariantsOf(word, limit, out, choices, mark);
    UnquotedIsOther(word);
    var i :| 0 <= i < |out| && out[i] == Unquoted(word, |word|);
    FirstIsWord(word, limit, out, choices, mark);
    ListedAt(word, limit, out, choices, mark, i);
    MadeFits(word, choices[i]);
  }

  // ── No other choice makes it ─────────────────────────────────────────────────

  /** Occurrences of a letter among the first `n` characters that are not dropped. */
  function KeptCount(word: Word, deleted: set<nat>, letter: Letter, n: nat): nat
    requires n <= |word|
  {
    if n == 0 then 0
    else KeptCount(word, deleted, letter, n - 1) + if word[n - 1] == letter && n - 1 !in deleted then 1 else 0
  }

  /** Occurrences of a letter among those added at the first `n` gaps. */
  function AddedCount(inserts: seq<(nat, bool)>, letter: Letter, n: nat): nat {
    if n == 0 then 0
    else AddedCount(inserts, letter, n - 1) + Times(LettersOf(AddedAt(inserts, n - 1)), letter)
  }

  function Times(word: Word, letter: Letter): nat {
    multiset(word)[letter]
  }

  lemma TimesAdd(a: Word, b: Word, c: Word, letter: Letter)
    ensures Times(a + b + c, letter) == Times(a, letter) + Times(b, letter) + Times(c, letter)
  {
  }

  lemma OccurrencesNext(word: Word, deleted: set<nat>, inserts: seq<(nat, bool)>, letter: Letter, i: nat,
                        before: seq<Piece>, made: seq<Piece>)
    requires i <= |word| && before == Pieces(word, deleted, inserts, i) && made == Pieces(word, deleted, inserts, i + 1)
    ensures Times(LettersOf(made), letter)
         == Times(LettersOf(before), letter) + Times(LettersOf(AddedAt(inserts, i)), letter)
              + if i < |word| && word[i] == letter && i !in deleted then 1 else 0
  {
    LettersOfNext(word, deleted, inserts, i);
    TimesAdd(LettersOf(Pieces(word, deleted, inserts, i)), LettersOf(AddedAt(inserts, i)),
             LettersOf(Kept(word, deleted, i)), letter);
    KeptLetter(word, deleted, i);
  }

  /** As often as it is kept and added. */
  ghost predicate AsCounted(word: Word, deleted: set<nat>, inserts: seq<(nat, bool)>, letter: Letter, i: nat)
    requires i <= |word|
  {
    Times(LettersOf(Pieces(word, deleted, inserts, i)), letter)
    == KeptCount(word, deleted, letter, i) + AddedCount(inserts, letter, i)
  }

  lemma CountedFirst(word: Word, deleted: set<nat>, inserts: seq<(nat, bool)>, letter: Letter)
    ensures AsCounted(word, deleted, inserts, letter, 0)
  {
    assert LettersOf([]) == [];
  }

  lemma CountedNext(word: Word, deleted: set<nat>, inserts: seq<(nat, bool)>, letter: Letter, i: nat, next: nat)
    requires next == i + 1 <= |word| && AsCounted(word, deleted, inserts, letter, i)
    ensures AsCounted(word, deleted, inserts, letter, next)
  {
    var before, made := Pieces(word, deleted, inserts, i), Pieces(word, deleted, inserts, next);
    OccurrencesNext(word, deleted, inserts, letter, i, before, made);
  }

  lemma {:induction false} Counted(word: Word, deleted: set<nat>, inserts: seq<(nat, bool)>, letter: Letter, i: nat)
    requires i <= |word|
    ensures AsCounted(word, deleted, inserts, letter, i)
  {
    if i > 0 {
      Counted(word, deleted, inserts, letter, i - 1);
      CountedNext(word, deleted, inserts, letter, i - 1, i);
    } else {
      CountedFirst(word, deleted, inserts, letter);
    }
  }

  lemma VariantOccurrences(word: Word, es: seq<Edit>, letter: Letter)
    ensures Times(Applied(word, es), letter)
         == KeptCount(word, Deleted(es), letter, |word|) + AddedCount(Inserts(es), letter, |word| + 1)
  {
    var deleted, inserts := Deleted(es), Inserts(es);
    Counted(word, deleted, inserts, letter, |word|);
    OccurrencesNext(word, deleted, inserts, letter, |word|, Pieces(word, deleted, inserts, |word|),
                    VariantOf(word, es));
  }

  ghost predicate KeepsAll(word: Word, deleted: set<nat>, letter: Letter, n: nat)
    requires n <= |word|
  {
    forall p: nat :: p < n && word[p] == letter ==> p !in deleted
  }

  lemma {:induction false} FewerKept(word: Word, deleted: set<nat>, letter: Letter, n: nat)
    requires n <= |word|
    ensures KeptCount(word, deleted, letter, n) <= KeptCount(word, {}, letter, n)
    ensures KeptCount(word, deleted, letter, n) == KeptCount(word, {}, letter, n)
        <==> KeepsAll(word, deleted, letter, n)
  {
    if n > 0 {
      FewerKept(word, deleted, letter, n - 1);
    }
  }

  lemma {:induction false} UnquotedOccurrences(word: Word, letter: Letter, n: nat)
    requires n <= |word| && !letter.Quote?
    ensures Times(Unquoted(word, n), letter) == KeptCount(word, {}, letter, n)
  {
    if n > 0 {
      UnquotedOccurrences(word, letter, n - 1);
    }
  }

  function Added(isVav: bool): Letter {
    if isVav then Vav else Yod
  }

  lemma LetterLast(pieces: seq<Piece>, isVav: bool)
    ensures LettersOf(pieces + [Piece(Added(isVav), true)]) == LettersOf(pieces) + [Added(isVav)]
  {
  }

  lemma AddedNext(inserts: seq<(nat, bool)>, n: nat, gap: nat)
    requires n < |inserts|
    ensures LettersOf(AddedTo(inserts, n + 1, gap))
         == LettersOf(AddedTo(inserts, n, gap)) + if inserts[n].0 == gap then [Added(inserts[n].1)] else []
  {
    LetterLast(AddedTo(inserts, n, gap), inserts[n].1);
  }

  lemma {:induction false} AddedIsThere(inserts: seq<(nat, bool)>, n: nat, m: nat)
    requires m < n <= |inserts|
    ensures Added(inserts[m].1) in LettersOf(AddedTo(inserts, n, inserts[m].0))
  {
    AddedNext(inserts, n - 1, inserts[m].0);
    if m < n - 1 {
      AddedIsThere(inserts, n - 1, m);
    }
  }

  lemma {:induction false} AddedAreCounted(inserts: seq<(nat, bool)>, m: nat, n: nat)
    requires m < |inserts| && inserts[m].0 < n
    ensures AddedCount(inserts, Added(inserts[m].1), n) > 0
  {
    if inserts[m].0 < n - 1 {
      AddedAreCounted(inserts, m, n - 1);
    } else {
      AddedIsThere(inserts, |inserts|, m);
      assert Times(LettersOf(AddedAt(inserts, n - 1)), Added(inserts[m].1)) > 0;
    }
  }

  lemma {:induction false} NoneAddedTo(inserts: seq<(nat, bool)>, n: nat, gap: nat, letter: Letter)
    requires n <= |inserts| && forall m :: 0 <= m < n ==> letter != Added(inserts[m].1)
    ensures letter !in LettersOf(AddedTo(inserts, n, gap))
  {
    if n > 0 {
      NoneAddedTo(inserts, n - 1, gap, letter);
      AddedNext(inserts, n - 1, gap);
    }
  }

  lemma {:induction false} NoneCounted(inserts: seq<(nat, bool)>, letter: Letter, n: nat)
    requires forall m :: 0 <= m < |inserts| ==> letter != Added(inserts[m].1)
    ensures AddedCount(inserts, letter, n) == 0
  {
    if n > 0 {
      NoneCounted(inserts, letter, n - 1);
      NoneAddedTo(inserts, |inserts|, n - 1, letter);
    }
  }

  lemma {:induction false} InsertsAreEdits(es: seq<Edit>, gap: nat, isVav: bool)
    ensures (gap, isVav) in Inserts(es) <==> Ins(gap, isVav) in es
  {
    if es != [] {
      var front, last := es[..|es| - 1], es[|es| - 1];
      assert es == front + [last];
      InsertsAreEdits(front, gap, isVav);
    }
  }

  /** No edit drops or adds the letter. */
  ghost predicate LeavesAlone(word: Word, es: seq<Edit>, letter: Letter) {
    forall e :: e in es ==> !IsOf(word, e, letter)
  }

  lemma AddingMakesMore(word: Word, es: seq<Edit>, gap: nat, isVav: bool, letter: Letter)
    requires letter == Added(isVav) && !Moves(word, es, letter)
    requires Ins(gap, isVav) in es && gap < |word|
    ensures Times(Applied(word, es), letter) > KeptCount(word, {}, letter, |word|)
  {
    VariantOccurrences(word, es, letter);
    FewerKept(word, Deleted(es), letter, |word|);
    InsertsAreEdits(es, gap, isVav);
    var m :| 0 <= m < |Inserts(es)| && Inserts(es)[m] == (gap, isVav);
    AddedAreCounted(Inserts(es), m, |word| + 1);
    var i :| 0 <= i < |es| && es[i] == Ins(gap, isVav);
    assert IsOf(word, es[i], letter);
    assert forall j :: 0 <= j < |es| ==> !(es[j].Del? && IsOf(word, es[j], letter));
    forall p: nat | p < |word| && word[p] == letter ensures p !in Deleted(es) {
      assert forall j :: 0 <= j < |es| ==> es[j] != Del(p);
    }
  }

  lemma DroppingMakesFewer(word: Word, es: seq<Edit>, pos: nat, isVav: bool, letter: Letter)
    requires letter == Added(isVav)
    requires Del(pos) in es && pos < |word| && word[pos] == letter
    requires forall gap: nat :: Ins(gap, isVav) !in es
    ensures Times(Applied(word, es), letter) < KeptCount(word, {}, letter, |word|)
  {
    var inserts := Inserts(es);
    VariantOccurrences(word, es, letter);
    FewerKept(word, Deleted(es), letter, |word|);
    forall m | 0 <= m < |inserts| ensures letter != Added(inserts[m].1) {
      InsertsAreEdits(es, inserts[m].0, inserts[m].1);
      assert inserts[m] in inserts;
    }
    NoneCounted(inserts, letter, |word| + 1);
  }

  /** A choice that makes as many of a letter as there were does nothing to it, for it may not both
      drop and add it. */
  lemma SameNumberLeftAlone(word: Word, es: seq<Edit>, isVav: bool, letter: Letter)
    requires letter == Added(isVav) && !Moves(word, es, letter) && AllGood(word, es)
    requires Times(Applied(word, es), letter) == KeptCount(word, {}, letter, |word|)
    ensures LeavesAlone(word, es, letter)
  {
    forall gap: nat ensures Ins(gap, isVav) !in es {
      if Ins(gap, isVav) in es {
        var i :| 0 <= i < |es| && es[i] == Ins(gap, isVav);
        assert GoodEdit(word, es[i]);
        AddingMakesMore(word, es, gap, isVav, letter);
      }
    }
    forall e | e in es ensures !IsOf(word, e, letter) {
      if e.Del? && IsOf(word, e, letter) {
        DroppingMakesFewer(word, es, e.pos, isVav, letter);
      }
    }
  }

  lemma UnquotedDropsOnlyQuotes(word: Word, es: seq<Edit>)
    requires Valid(word, es) && AllGood(word, es) && Applied(word, es) == Unquoted(word, |word|)
    ensures DropsQuotes(word, es)
  {
    UnquotedDropsAll(word, es);
    UnquotedOccurrences(word, Yod, |word|);
    UnquotedOccurrences(word, Vav, |word|);
    SameNumberLeftAlone(word, es, false, Yod);
    SameNumberLeftAlone(word, es, true, Vav);
    forall e | e in es ensures e.Del? && IsQuote(word, e.pos) {
      var i :| 0 <= i < |es| && es[i] == e;
      assert GoodEdit(word, es[i]);
    }
  }

  lemma EmptyHasNone(s: seq<nat>)
    ensures s == [] <==> forall x :: x !in s
  {
    if s != [] {
      assert s[0] in s;
    }
  }

  lemma AllButLast(s: seq<nat>, front: seq<nat>)
    requires StrictlySorted(s) && s != [] && front == s[..|s| - 1]
    ensures StrictlySorted(front) && forall x :: x in front <==> x in s && x != s[|s| - 1]
  {
    assert s == front + [s[|s| - 1]];
    forall x | x in front ensures x != s[|s| - 1] {
      var i :| 0 <= i < |front| && front[i] == x;
      assert s[i] == x;
    }
  }

  lemma {:induction false} SameAscending(a: seq<nat>, b: seq<nat>)
    requires StrictlySorted(a) && StrictlySorted(b) && forall x :: x in a <==> x in b
    ensures a == b
    decreases |a|
  {
    EmptyHasNone(a);
    EmptyHasNone(b);
    if a != [] {
      SameLast(a, b);
      var front, rest := a[..|a| - 1], b[..|b| - 1];
      AllButLast(a, front);
      AllButLast(b, rest);
      SameAscending(front, rest);
      assert a == front + [a[|a| - 1]] && b == rest + [b[|b| - 1]];
    }
  }

  lemma SameLast(a: seq<nat>, b: seq<nat>)
    requires StrictlySorted(a) && StrictlySorted(b) && a != [] && forall x :: x in a <==> x in b
    ensures b != [] && a[|a| - 1] == b[|b| - 1]
  {
    var x := a[|a| - 1];
    assert x in a;
    assert b[|b| - 1] in a;
  }

  /** The choice of all the quotes is the only one that makes the word without them. */
  lemma OnlyQuotesMakeUnquoted(word: Word, c: seq<nat>)
    requires IsTried(word, c) && Makes(word, EditsOf(word), c, Unquoted(word, |word|))
    ensures c == QuoteIndices(word, |word|)
  {
    var es, indices := Chosen(EditsOf(word), c), QuoteIndices(word, |word|);
    EditsAreGood(word);
    UnquotedDropsOnlyQuotes(word, es);
    forall x | x in indices ensures x in c {
      IndexChosen(word, c, x);
    }
    forall x | x in c ensures x in indices {
      var i :| 0 <= i < |c| && c[i] == x;
      assert es[i] in es;
      QuoteCandidate(word, es[i].pos, x);
      IndexOfQuote(word, |word|, es[i].pos);
    }
    IndicesAscend(word, |word|);
    SameAscending(c, indices);
  }

  lemma FittingMakesFirst(word: Word)
    requires HasQuote(word) && QuotesFit(word) && Letters(word, |word|) >= MIN_SPELLING_LETTERS
    ensures IsTried(word, QuoteIndices(word, |word|))
    ensures MakesFirst(word, QuoteIndices(word, |word|), Unquoted(word, |word|))
  {
    var q, v := QuoteIndices(word, |word|), Unquoted(word, |word|);
    FittingIsTried(word);
    QuoteDropsAllowed(word, Chosen(EditsOf(word), q));
    DroppedIsUnquoted(word, Chosen(EditsOf(word), q));
    UnquotedIsOther(word);
    if v in Before(word, q) {
      var c := BeforeComesFrom(word, q, v);
      OnlyQuotesMakeUnquoted(word, c);
      LexTotal(q, q);
    }
  }

  /** The quotes can all be dropped at once, and fewer than `limit` spellings come before. */
  ghost predicate UnquotedIsReached(word: Word, limit: nat) {
    && |word| < MARKED_CHARS && QuotesFit(word) && Letters(word, |word|) >= MIN_SPELLING_LETTERS
    && |Before(word, QuoteIndices(word, |word|))| < limit
  }

  /** The spellings have the word without its quotes exactly when it is short enough to be edited, the
      quotes are at most eight and all among the first candidates, three letters are left, and fewer
      than `limit` spellings come before. */
  lemma QuotesAreDroppedWhenTheyFit(word: Word, limit: nat, out: seq<Word>)
    requires HasQuote(word) && AreSpellings(word, limit, out)
    ensures Unquoted(word, |word|) in out <==> UnquotedIsReached(word, limit)
  {
    UnquotedIsOther(word);
    if 0 < |word| < MARKED_CHARS && limit > 0 {
      if QuotesFit(word) && Letters(word, |word|) >= MIN_SPELLING_LETTERS {
        FittingMakesFirst(word);
        ListedIffWithinLimit(word, limit, out, QuoteIndices(word, |word|), Unquoted(word, |word|));
      } else if Unquoted(word, |word|) in out {
        ListedFits(word, limit, out);
      }
    }
  }

  // ── A word with one quote ────────────────────────────────────────────────────

  ghost predicate HasOneQuote(word: Word, p: nat) {
    IsQuote(word, p) && forall r: nat :: IsQuote(word, r) ==> r == p
  }

  lemma {:induction false} OneIndex(word: Word, p: nat, n: nat)
    requires HasOneQuote(word, p) && n <= |word|
    ensures QuoteIndices(word, n) == if p < n then [|Deletions(word, p)|] else []
  {
    if n > 0 {
      OneIndex(word, p, n - 1);
      assert word[n - 1].Quote? ==> IsQuote(word, n - 1);
    }
  }

  /** A word's one quote is dropped if its candidate is tried and the limit exceeds those before it by two. */
  lemma OneQuoteIsDropped(word: Word, p: nat, limit: nat, out: seq<Word>)
    requires HasOneQuote(word, p) && |word| < MARKED_CHARS && Letters(word, |word|) >= MIN_SPELLING_LETTERS
    requires |Deletions(word, p)| < MAX_EDIT_CANDIDATES && |Deletions(word, p)| + 1 < limit
    requires AreSpellings(word, limit, out)
    ensures Unquoted(word, |word|) in out
  {
    var k := |Deletions(word, p)|;
    OneIndex(word, p, |word|);
    QuoteDeletion(word, p, |word|);
    BeforeOne(word, k);
    QuotesAreDroppedWhenTheyFit(word, limit, out);
  }

  // ── A word that keeps a quote ────────────────────────────────────────────────

  /** Letters with a geresh between each two. */
  function Spelled(quotes: nat): (word: Word)
    ensures |word| == 2 * quotes + 1
    ensures forall i :: 0 <= i < |word| ==> word[i] == if i % 2 == 1 then Quote(0x27) else Other(0)
  {
    seq(2 * quotes + 1, i => if i % 2 == 1 then Quote(0x27) else Other(0))
  }

  lemma {:induction false} SpelledIndices(quotes: nat, n: nat)
    requires n <= 2 * quotes + 1
    ensures |QuoteIndices(Spelled(quotes), n)| == n / 2
  {
    if n > 0 {
      SpelledIndices(quotes, n - 1);
    }
  }

  /** Ten letters and nine geresh: the list never has the word without them, whatever the limit. */
  lemma NineQuotesAreTooMany(limit: nat, out: seq<Word>)
    requires AreSpellings(Spelled(9), limit, out)
    ensures Unquoted(Spelled(9), 19) !in out
  {
    SpelledIndices(9, 19);
    assert IsQuote(Spelled(9), 1);
    QuotesAreDroppedWhenTheyFit(Spelled(9), limit, out);
  }

  /** A geresh and letters after it. */
  function Marked(letters: nat): (word: Word)
    ensures |word| == letters + 1 && word[0] == Quote(0x27)
    ensures forall i :: 0 < i < |word| ==> word[i] == Other(0)
  {
    seq(letters + 1, i => if i == 0 then Quote(0x27) else Other(0))
  }

  lemma {:induction false} MarkedLetters(letters: nat, n: nat)
    requires n <= letters + 1
    ensures Letters(Marked(letters), n) == if n == 0 then 0 else n - 1
  {
    if n > 0 {
      MarkedLetters(letters, n - 1);
    }
  }

  /** A geresh before three letters is dropped, and before sixty-three it is kept, at every limit above one. */
  lemma WideWordKeepsItsQuote(limit: nat, short: seq<Word>, wide: seq<Word>)
    requires AreSpellings(Marked(3), limit, short) && AreSpellings(Marked(63), limit, wide) && limit > 1
    ensures Unquoted(Marked(3), 4) in short && Unquoted(Marked(63), 64) !in wide
    ensures QuotesFit(Marked(63)) && Letters(Marked(63), 64) >= MIN_SPELLING_LETTERS
  {
    MarkedLetters(3, 4);
    MarkedLetters(63, 64);
    assert IsQuote(Marked(3), 0) && IsQuote(Marked(63), 0);
    OneQuoteIsDropped(Marked(3), 0, limit, short);
    OneIndex(Marked(63), 0, 64);
    QuotesAreDroppedWhenTheyFit(Marked(63), limit, wide);
  }
}
