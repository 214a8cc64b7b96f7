/** What a token's index term holds: its letters in order, and between them a quote for what stood there. */
module IndexTerms {
  import opened Prelude
  import opened Tokenizer
  import opened TokenEnds
  import opened QueryWords

  // ── The quotes of a gap ──────────────────────────────────────────────────────

  /** One geresh for one; a gershayim for itself, or for two geresh; nothing for nothing. */
  function QuoteFor(text: Text, lo: nat, hi: nat): Text
    requires hi <= |text|
  {
    if |Gershayims(text, lo, hi)| == 1 || |Gereshes(text, lo, hi)| == 2 then [GERSHAYIM]
    else if |Gereshes(text, lo, hi)| == 1 then [GERESH]
    else []
  }

  predicate EndsWithLetter(out: Text) {
    out == [] || !out[|out| - 1].IsQuote()
  }

  /** The quotes of a gap so far, when it may be inside a token. */
  lemma FewerMayBeInside(text: Text, lo: nat, hi: nat)
    requires lo < hi <= |text| && IsLoose(text, lo, hi) && MayBeInside(text, lo, hi)
    ensures IsLoose(text, lo, hi - 1) && MayBeInside(text, lo, hi - 1)
    ensures text[hi - 1].Gershayim? ==> QuoteFor(text, lo, hi - 1) == []
    ensures text[hi - 1].Geresh? ==> QuoteFor(text, lo, hi - 1) in {[], [GERESH]}
    ensures QuoteFor(text, lo, hi)
         == if text[hi - 1].Gershayim? then [GERSHAYIM]
            else if text[hi - 1].Geresh? then (if QuoteFor(text, lo, hi - 1) == [] then [GERESH] else [GERSHAYIM])
            else QuoteFor(text, lo, hi - 1)
  {
    if text[hi - 1].IsQuote() {
      CountsQuote(text, lo, hi - 1);
    } else {
      assert Gereshes(text, lo, hi) == Gereshes(text, lo, hi - 1);
      assert Gershayims(text, lo, hi) == Gershayims(text, lo, hi - 1);
    }
  }

  /** A gap inside a token folds to its quote. */
  lemma {:induction false} GapFolds(text: Text, start: nat, lo: nat, hi: nat)
    requires start <= lo <= hi <= |text| && IsLoose(text, lo, hi) && MayBeInside(text, lo, hi)
    requires EndsWithLetter(IndexFold(text, start, lo))
    ensures IndexFold(text, start, hi) == IndexFold(text, start, lo) + QuoteFor(text, lo, hi)
    decreases hi
  {
    if lo == hi {
      assert Gereshes(text, lo, hi) == {} && Gershayims(text, lo, hi) == {};
    } else {
      FewerMayBeInside(text, lo, hi);
      GapFolds(text, start, lo, hi - 1);
      QuotePushed(IndexFold(text, start, lo), QuoteFor(text, lo, hi - 1), text[hi - 1]);
    }
  }

  lemma QuotePushed(out: Text, quote: Text, c: Char)
    requires EndsWithLetter(out) && (c.IsQuote() || c.IsTransparent())
    requires quote in {[], [GERESH], [GERSHAYIM]}
    requires c.Gershayim? ==> quote == []
    requires c.Geresh? ==> quote != [GERSHAYIM]
    ensures IndexPush(out + quote, c)
         == out + (if c.Gershayim? then [GERSHAYIM]
                   else if c.Geresh? then (if quote == [] then [GERESH] else [GERSHAYIM])
                   else quote)
  {
    assert out + [] == out;
    assert (out + [GERESH])[..|out|] == out;
  }

  // ── The letters ──────────────────────────────────────────────────────────────

  function LettersOf(text: Text): Text {
    if text == [] then []
    else LettersOf(text[..|text| - 1]) + if text[|text| - 1].Letter? then [text[|text| - 1]] else []
  }

  lemma LettersMore(text: Text, c: Char)
    ensures LettersOf(text + [c]) == LettersOf(text) + if c.Letter? then [c] else []
  {
    assert (text + [c])[..|text|] == text;
  }

  /** A term: letters and the two quotes, neither of them twice in a row. */
  ghost predicate IsTerm(out: Text) {
    && (forall i :: 0 <= i < |out| ==> IsTermChar(out[i]))
    && forall i {:trigger Doubled(out, i)} :: 0 <= i < |out| - 1 ==> !Doubled(out, i)
  }

  predicate IsTermChar(c: Char) {
    c == GERESH || c == GERSHAYIM || !(c.Mark? || c.IsTransparent() || c.IsQuote())
  }

  predicate Doubled(out: Text, i: nat)
    requires i + 1 < |out|
  {
    out[i] == out[i + 1] && out[i].IsQuote()
  }

  lemma TermMore(out: Text, c: Char)
    requires IsTerm(out) && IsTermChar(c) && (c.IsQuote() ==> !EndsWith(out, c))
    ensures IsTerm(out + [c])
  {
    var more := out + [c];
    forall i | 0 <= i < |more| - 1 ensures !Doubled(more, i) {
      if i < |out| - 1 {
        assert !Doubled(out, i);
      }
    }
  }

  lemma TermLess(out: Text)
    requires IsTerm(out) && out != []
    ensures IsTerm(out[..|out| - 1])
  {
    var less := out[..|out| - 1];
    forall i | 0 <= i < |less| - 1 ensures !Doubled(less, i) {
      assert !Doubled(out, i);
    }
  }

  lemma PushKeepsTerm(out: Text, c: Char)
    requires IsTerm(out)
    ensures IsTerm(IndexPush(out, c))
    ensures LettersOf(IndexPush(out, c)) == LettersOf(out) + if c.Letter? then [c] else []
  {
    if c.Mark? || c.IsTransparent() {
    } else if c.Geresh? && EndsWith(out, GERESH) {
      var less := out[..|out| - 1];
      assert out == less + [GERESH];
      TermLess(out);
      LettersMore(less, GERESH);
      OncePushed(less);
    } else if c.Geresh? {
      TermMore(out, GERESH);
      LettersMore(out, GERESH);
    } else if c.Gershayim? {
      OncePushed(out);
    } else {
      TermMore(out, c);
      LettersMore(out, c);
    }
  }

  lemma OncePushed(out: Text)
    requires IsTerm(out)
    ensures IsTerm(PushedOnce(out)) && LettersOf(PushedOnce(out)) == LettersOf(out)
  {
    if !EndsWith(out, GERSHAYIM) {
      TermMore(out, GERSHAYIM);
      LettersMore(out, GERSHAYIM);
    }
  }

  /** Folding keeps the letters in order, and nothing else but single quotes. */
  lemma {:induction false} FoldIsTerm(text: Text, lo: nat, hi: nat)
    requires lo <= hi <= |text|
    ensures IsTerm(IndexFold(text, lo, hi)) && LettersOf(IndexFold(text, lo, hi)) == LettersOf(text[lo..hi])
    decreases hi
  {
    if lo < hi {
      FoldIsTerm(text, lo, hi - 1);
      PushKeepsTerm(IndexFold(text, lo, hi - 1), text[hi - 1]);
      SliceWithLast(text, lo, hi);
      LettersMore(text[lo..hi - 1], text[hi - 1]);
    }
  }

  // ── Tokens are indexed folded ────────────────────────────────────────────────

  predicate HasDouble(text: Text, lo: nat, hi: nat)
    requires hi <= |text|
  {
    exists i :: lo <= i < hi - 1 && text[i].Gershayim? && text[i + 1].Gershayim?
  }

  /** Text that needs no folding, and has no two gershayim in a row, folds to itself. */
  lemma {:induction false} FoldStays(text: Text, lo: nat, hi: nat)
    requires lo <= hi <= |text| && !MustFold(text, lo, hi) && !HasDouble(text, lo, hi)
    ensures IndexFold(text, lo, hi) == text[lo..hi]
    decreases hi
  {
    if lo < hi {
      assert !HasDouble(text, lo, hi - 1);
      FoldStays(text, lo, hi - 1);
      SliceWithLast(text, lo, hi);
      if hi - 1 > lo {
        NothingToFold(text, lo, hi, hi - 2);
        assert !(text[hi - 2].Gershayim? && text[hi - 1].Gershayim?);
      }
    }
  }

  lemma {:induction false} NothingToFold(text: Text, lo: nat, hi: nat, i: nat)
    requires lo <= i < hi <= |text| && !MustFold(text, lo, hi)
    ensures !NeedsNormalising(text[i])
    decreases hi
  {
    if i < hi - 1 {
      NothingToFold(text, lo, hi - 1, i);
    }
  }

  /** A token never has two gershayim in a row. */
  lemma TokenHasNoDouble(text: Text, start: nat, end: nat)
    requires start < |text| && text[start].IsWordChar() && IsTokenEnd(text, start, end)
    ensures start < end <= |text| && !HasDouble(text, start, end)
  {
    var last: nat :| EndsWords(text, start, last) && EndsAt(text, last, end);
    forall i | start <= i < end - 1 ensures !(text[i].Gershayim? && text[i + 1].Gershayim?) {
      if i + 1 < last && text[i].Gershayim? && text[i + 1].Gershayim? {
        assert IsBetween(text, start, i, last);
        var lo: nat, hi: nat :| start < lo <= i < hi < last && IsGap(text, lo, hi);
        OneGershayim(text, lo, hi, i);
      }
    }
  }

  lemma OneGershayim(text: Text, lo: nat, hi: nat, i: nat)
    requires lo <= i < hi < |text| && MayBeInside(text, lo, hi) && text[i].Gershayim? && text[hi].IsWordChar()
    ensures !text[i + 1].Gershayim?
  {
    var both := Gershayims(text, lo, hi);
    if i + 1 < hi && text[i + 1].Gershayim? {
      assert {i, i + 1} <= both;
      SubsetSize({i, i + 1}, both);
    }
  }

  /** A token is indexed as its letters, with one quote for each gap that has any. */
  lemma TokenIsTerm(text: Text, start: nat, end: nat)
    requires start < |text| && text[start].IsWordChar() && IsTokenEnd(text, start, end)
    ensures start < end <= |text| && IndexedAs(text[start..end]) == IndexFold(text, start, end)
    ensures IsTerm(IndexedAs(text[start..end])) && LettersOf(IndexedAs(text[start..end])) == LettersOf(text[start..end])
  {
    TokenHasNoDouble(text, start, end);
    IndexedInPlace(text, start, end);
    if !MustFold(text, start, end) {
      FoldStays(text, start, end);
    }
    FoldIsTerm(text, start, end);
  }
}
