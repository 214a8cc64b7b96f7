/** Where a token ends, and what a pair of readings is, said of the characters alone. */
module TokenEnds {
  import opened Prelude
  import opened Tokenizer

  /** Letters, and the marks attached to them. */
  predicate IsOfWord(c: Char) {
    c.Letter? || c.Mark?
  }

  /** Brackets, and the other characters that neither break a word nor belong to it. */
  predicate IsPassed(c: Char) {
    c.Transparent? || c.OpenBracket? || c.CloseBracket?
  }

  // ── What stands between two stretches of word characters ─────────────────────

  function Gereshes(text: Text, lo: nat, hi: nat): (r: set<nat>)
    requires hi <= |text|
    ensures forall k: nat :: k in r <==> lo <= k < hi && text[k].Geresh?
  {
    set k: nat | lo <= k < hi && text[k].Geresh?
  }

  function Gershayims(text: Text, lo: nat, hi: nat): (r: set<nat>)
    requires hi <= |text|
    ensures forall k: nat :: k in r <==> lo <= k < hi && text[k].Gershayim?
  {
    set k: nat | lo <= k < hi && text[k].Gershayim?
  }

  /** Nothing but quotes and transparent characters. */
  predicate IsLoose(text: Text, lo: nat, hi: nat)
    requires hi <= |text|
  {
    forall k :: lo <= k < hi ==> text[k].Geresh? || text[k].Gershayim? || IsPassed(text[k])
  }

  /** Among them no quote, or one gershayim, or one geresh or two. */
  predicate MayBeInside(text: Text, lo: nat, hi: nat)
    requires hi <= |text|
  {
    var geresh, gershayim := |Gereshes(text, lo, hi)|, |Gershayims(text, lo, hi)|;
    (geresh, gershayim) in {(0, 0), (0, 1), (1, 0), (2, 0)}
  }

  /** A word character follows at `hi`, after what a token may hold inside. */
  predicate Joins(text: Text, lo: nat, hi: nat) {
    lo <= hi < |text| && IsOfWord(text[hi]) && IsLoose(text, lo, hi) && MayBeInside(text, lo, hi)
  }

  /** A word character follows, if only quotes and transparent characters come before it. */
  ghost predicate WordFollows(text: Text, lo: nat) {
    exists hi :: lo <= hi < |text| && IsOfWord(text[hi]) && IsLoose(text, lo, hi)
  }

  /** The first quote at or after `lo`, with only transparent characters before it, is the geresh at `g`. */
  predicate ClosesWith(text: Text, lo: nat, g: nat) {
    lo <= g < |text| && text[g].Geresh? && forall k :: lo <= k < g ==> IsPassed(text[k])
  }

  // ── Where a token ends ───────────────────────────────────────────────────────

  /** `i` lies between two stretches of word characters that are joined before `last`. */
  ghost predicate IsBetween(text: Text, start: nat, i: nat, last: nat) {
    exists lo: nat, hi: nat :: start < lo <= i < hi < last && IsGap(text, lo, hi)
  }

  predicate IsGap(text: Text, lo: nat, hi: nat) {
    0 < lo <= |text| && IsOfWord(text[lo - 1]) && Joins(text, lo, hi)
  }

  /** The token's word characters end at `last`: whatever else stands before belongs inside, and no
      other word character joins on. */
  ghost predicate EndsWords(text: Text, start: nat, last: nat) {
    && start < last <= |text| && IsOfWord(text[last - 1])
    && (forall i: nat {:trigger IsBetween(text, start, i, last)} ::
          start <= i < last && !IsOfWord(text[i]) ==> IsBetween(text, start, i, last))
    && (forall hi: nat :: !Joins(text, last, hi))
  }

  /** A geresh that closes the word is the token's; nothing else after the last word character is. */
  ghost predicate EndsAt(text: Text, last: nat, end: nat) {
    if !WordFollows(text, last) && exists g: nat :: ClosesWith(text, last, g) then
      end > 0 && ClosesWith(text, last, end - 1)
    else end == last
  }

  ghost predicate IsTokenEnd(text: Text, start: nat, end: nat) {
    exists last: nat :: EndsWords(text, start, last) && EndsAt(text, last, end)
  }

  // ── The look ahead ───────────────────────────────────────────────────────────

  /** The first quote from `lo` on is at `q`. */
  predicate IsFirstQuote(text: Text, lo: nat, q: nat, look: Look) {
    && lo <= q < |text| && text[q].IsQuote() && (forall k :: lo <= k < q ==> text[k].IsTransparent())
    && look.firstIsGeresh == text[q].Geresh? && look.firstQuoteEnd == q + 1
  }

  ghost predicate Tallies(text: Text, lo: nat, i: nat, look: Look) {
    && lo <= i <= |text| && IsLoose(text, lo, i)
    && look.geresh == |Gereshes(text, lo, i)| && look.gershayim == |Gershayims(text, lo, i)|
    && if forall k ::
         lo <= k < i ==> text[k].IsTransparent() then look.geresh + look.gershayim == 0 && !look.firstIsGeresh
       else exists q: nat :: q < i && IsFirstQuote(text, lo, q, look)
  }

  lemma TalliesQuote(text: Text, lo: nat, i: nat, look: Look)
    requires Tallies(text, lo, i, look) && i < |text| && text[i].IsQuote()
    ensures Tallies(text, lo, i + 1, SeenQuote(look, text[i].Geresh?, i))
  {
    var more := SeenQuote(look, text[i].Geresh?, i);
    CountsQuote(text, lo, i);
    if forall k :: lo <= k < i ==> text[k].IsTransparent() {
      assert IsFirstQuote(text, lo, i, more);
    } else {
      var q: nat :| q < i && IsFirstQuote(text, lo, q, look);
      QuoteCounts(text, lo, i, q);
      assert IsFirstQuote(text, lo, q, more);
    }
  }

  lemma CountsQuote(text: Text, lo: nat, i: nat)
    requires lo <= i < |text| && text[i].IsQuote()
    ensures |Gereshes(text, lo, i + 1)| == |Gereshes(text, lo, i)| + if text[i].Geresh? then 1 else 0
    ensures |Gershayims(text, lo, i + 1)| == |Gershayims(text, lo, i)| + if text[i].Geresh? then 0 else 1
  {
    if text[i].Geresh? {
      assert Gereshes(text, lo, i + 1) == Gereshes(text, lo, i) + {i};
      assert Gershayims(text, lo, i + 1) == Gershayims(text, lo, i);
    } else {
      assert Gereshes(text, lo, i + 1) == Gereshes(text, lo, i);
      assert Gershayims(text, lo, i + 1) == Gershayims(text, lo, i) + {i};
    }
  }

  /** A quote is counted. */
  lemma QuoteCounts(text: Text, lo: nat, i: nat, q: nat)
    requires lo <= q < i <= |text| && text[q].IsQuote()
    ensures |Gereshes(text, lo, i)| + |Gershayims(text, lo, i)| > 0
  {
    assert q in Gereshes(text, lo, i) || q in Gershayims(text, lo, i);
  }

  lemma TalliesTransparent(text: Text, lo: nat, i: nat, look: Look)
    requires Tallies(text, lo, i, look) && i < |text| && text[i].IsTransparent()
    ensures Tallies(text, lo, i + 1, look)
  {
    assert Gereshes(text, lo, i + 1) == Gereshes(text, lo, i);
    assert Gershayims(text, lo, i + 1) == Gershayims(text, lo, i);
  }

  lemma {:induction false} LookTallies(text: Text, lo: nat, i: nat, look: Look)
    requires Tallies(text, lo, i, look)
    ensures var r := LookFrom(text, i, look);
            Tallies(text, lo, r.next, r)
                && (r.next < |text| ==> !text[r.next].IsQuote() && !text[r.next].IsTransparent())
    decreases |text| - i
  {
    if i < |text| && text[i].IsQuote() {
      TalliesQuote(text, lo, i, look);
      LookTallies(text, lo, i + 1, SeenQuote(look, text[i].Geresh?, i));
    } else if i < |text| && text[i].IsTransparent() {
      TalliesTransparent(text, lo, i, look);
      LookTallies(text, lo, i + 1, look);
    } else {
      TalliesStill(text, lo, i, look, i);
    }
  }

  lemma TalliesStill(text: Text, lo: nat, i: nat, look: Look, next: nat)
    requires Tallies(text, lo, i, look)
    ensures Tallies(text, lo, i, look.(next := next))
  {
    if q: nat :| q < i && IsFirstQuote(text, lo, q, look) {
      assert IsFirstQuote(text, lo, q, look.(next := next));
    }
  }

  lemma LookSees(text: Text, lo: nat) returns (look: Look)
    requires lo <= |text|
    ensures look == LookAhead(text, lo) && Tallies(text, lo, look.next, look)
    ensures look.next < |text| ==> !text[look.next].IsQuote() && !text[look.next].IsTransparent()
  {
    assert Gereshes(text, lo, lo) == {} && Gershayims(text, lo, lo) == {};
    look := LookAhead(text, lo);
    LookTallies(text, lo, lo, NOTHING_YET);
  }

  /** Only where the look ahead ends can a word character join. */
  lemma JoinsWhereItEnds(text: Text, lo: nat, look: Look, hi: nat)
    requires lo <= |text| && look == LookAhead(text, lo) && Tallies(text, lo, look.next, look)
    requires look.next < |text| ==> !text[look.next].IsQuote() && !text[look.next].IsTransparent()
    ensures lo <= hi < |text| && text[hi].IsWordChar() && IsLoose(text, lo, hi) ==> hi == look.next
    ensures Joins(text, lo, hi) <==> hi == look.next < |text| && text[hi].IsWordChar() && IsInner(look)
  {
  }

  /** With no word character to follow, a first quote that is a geresh closes the word. */
  lemma ClosesWhereItSays(text: Text, lo: nat, look: Look)
    requires lo <= |text| && Tallies(text, lo, look.next, look)
    requires look.next < |text| ==> !text[look.next].IsQuote() && !text[look.next].IsTransparent()
    ensures look.firstIsGeresh <==> exists g: nat :: ClosesWith(text, lo, g)
    ensures look.firstIsGeresh ==> look.firstQuoteEnd > 0 && ClosesWith(text, lo, look.firstQuoteEnd - 1)
  {
    if q: nat :| q < look.next && IsFirstQuote(text, lo, q, look) {
      assert text[q].Geresh? ==> ClosesWith(text, lo, q);
      forall g: nat | ClosesWith(text, lo, g) ensures g == q {
        OneFirstQuote(text, lo, g, q);
      }
    } else {
      forall g: nat ensures !ClosesWith(text, lo, g) {
        if lo <= g < look.next {
          assert text[g].IsTransparent();
        }
      }
    }
  }

  lemma OneFirstQuote(text: Text, lo: nat, g: nat, q: nat)
    requires lo <= g < |text| && text[g].IsQuote() && forall k :: lo <= k < g ==> text[k].IsTransparent()
    requires lo <= q < |text| && text[q].IsQuote() && forall k :: lo <= k < q ==> text[k].IsTransparent()
    ensures g == q
  {
  }

  /** The last word character is found, and what closes the token. */
  lemma EndsHere(text: Text, last: nat)
    requires 0 < last <= |text| && text[last - 1].IsWordChar() && (last < |text| ==> !text[last].IsWordChar())
    requires !(LookAhead(text, last).next < |text| && text[LookAhead(text, last).next].IsWordChar()
                && IsInner(LookAhead(text, last)))
    ensures EndsWords(text, last - 1, last) && EndsAt(text, last, TokenEnd(text, last))
  {
    var look := LookSees(text, last);
    forall hi: nat ensures !Joins(text, last, hi) {
      JoinsWhereItEnds(text, last, look, hi);
    }
    ClosesWhereItSays(text, last, look);
    if look.next < |text| && text[look.next].IsWordChar() {
      assert WordFollows(text, last);
    } else if WordFollows(text, last) {
      var hi :| last <= hi < |text| && text[hi].IsWordChar() && IsLoose(text, last, hi);
      JoinsWhereItEnds(text, last, look, hi);
    }
  }

  lemma EndsFurther(text: Text, start: nat, i: nat, last: nat)
    requires start < i < |text| && EndsWords(text, i, last) && text[start].IsWordChar()
    requires i == start + 1 || IsGap(text, start + 1, i)
    ensures EndsWords(text, start, last)
  {
    forall k: nat | start <= k < last && !text[k].IsWordChar() ensures IsBetween(text, start, k, last) {
      if k < i {
        assert start < start + 1 <= k < i < last && IsGap(text, start + 1, i);
      } else {
        assert IsBetween(text, i, k, last);
        var lo: nat, hi: nat :| i < lo <= k < hi < last && IsGap(text, lo, hi);
        assert start < lo <= k < hi < last && IsGap(text, lo, hi);
      }
    }
  }

  lemma {:induction false} TokenEndsSo(text: Text, start: nat)
    requires start < |text| && text[start].IsWordChar()
    ensures IsTokenEnd(text, start, TokenEnd(text, start))
    decreases |text| - start
  {
    var i := start + 1;
    if i < |text| && text[i].IsWordChar() {
      TokenEndsSo(text, i);
      var last: nat :| EndsWords(text, i, last) && EndsAt(text, last, TokenEnd(text, i));
      EndsFurther(text, start, i, last);
    } else {
      var look := LookSees(text, i);
      if look.next < |text| && text[look.next].IsWordChar() && IsInner(look) {
        JoinsWhereItEnds(text, i, look, look.next);
        assert TokenEnd(text, i) == TokenEnd(text, look.next);
        TokenEndsSo(text, look.next);
        var last: nat :| EndsWords(text, look.next, last) && EndsAt(text, last, TokenEnd(text, look.next));
        EndsFurther(text, start, look.next, last);
      } else {
        EndsHere(text, i);
      }
    }
  }

  // ── There is one such end ────────────────────────────────────────────────────

  lemma LastIsNotEarlier(text: Text, start: nat, a: nat, b: nat)
    requires EndsWords(text, start, a) && EndsWords(text, start, b)
    ensures a >= b
  {
    if a < b {
      if text[a].IsWordChar() {
        assert Gereshes(text, a, a) == {} && Gershayims(text, a, a) == {};
        assert Joins(text, a, a);
      } else {
        assert IsBetween(text, start, a, b);
        var lo: nat, hi: nat :| start < lo <= a < hi < b && IsGap(text, lo, hi);
        GapStarts(text, lo, hi, a);
      }
    }
  }

  /** A gap starts after the last word character before it. */
  lemma GapStarts(text: Text, lo: nat, hi: nat, i: nat)
    requires IsGap(text, lo, hi) && lo <= i < hi && text[i - 1].IsWordChar()
    ensures lo == i
  {
  }

  lemma OneEnd(text: Text, last: nat, a: nat, b: nat)
    requires EndsAt(text, last, a) && EndsAt(text, last, b)
    ensures a == b
  {
    if a > 0 && b > 0 && ClosesWith(text, last, a - 1) && ClosesWith(text, last, b - 1) {
      OneFirstQuote(text, last, a - 1, b - 1);
    }
  }

  /** A token goes on through transparent characters, one gershayim, one geresh or two, as long as a word
      character follows; and it ends with the last word character, or with the geresh that closes it. */
  lemma TokenEndIs(text: Text, start: nat, end: nat)
    requires start < |text| && text[start].IsWordChar()
    ensures TokenEnd(text, start) == end <==> IsTokenEnd(text, start, end)
  {
    TokenEndsSo(text, start);
    if IsTokenEnd(text, start, end) {
      var a: nat :| EndsWords(text, start, a) && EndsAt(text, a, end);
      var b: nat :| EndsWords(text, start, b) && EndsAt(text, b, TokenEnd(text, start));
      LastIsNotEarlier(text, start, a, b);
      LastIsNotEarlier(text, start, b, a);
      OneEnd(text, a, end, TokenEnd(text, start));
    }
  }

  /** The next token, of the characters alone: it starts at the first letter and ends as tokens do. */
  lemma NextTokenIs(text: Text, from: nat, start: nat, end: nat)
    requires from <= |text|
    ensures NextToken(text, from) == Some((start, end))
       <==> from <= start < |text| && text[start].Letter? && (forall j :: from <= j < start ==> !text[j].Letter?)
              && IsTokenEnd(text, start, end)
    ensures NextToken(text, from) == None <==> forall j :: from <= j < |text| ==> !text[j].Letter?
  {
    NoneBeforeFirst(text, from);
    if start < |text| && text[start].Letter? {
      TokenEndIs(text, start, end);
    }
  }

  // ── Paired readings ──────────────────────────────────────────────────────────

  /** What may stand between a reading and what closes it. */
  predicate IsTail(c: Char) {
    c.Transparent? || c.IsQuote() || c.Space? || c.Separator?
  }

  /** `(X) [Y]`, with `X` at `first`, `Y` at `second`, and the brackets around them. */
  ghost predicate IsPair(text: Text, first: Span, close: nat, open: nat, second: Span, end: nat) {
    && 0 < first.0 <= first.1 <= close < open < second.0 < second.1 <= end < |text|
    && text[first.0 - 1].OpenParen? && text[close].CloseParen? && text[open].OpenBracket? && text[end].CloseBracket?
    && (forall k :: first.1 <= k < close ==> IsTail(text[k]))
    && (forall k :: close < k < open ==> text[k].Space?)
    && second.0 == open + 1 && NextToken(text, second.0) == Some(second)
    && (forall k :: second.1 <= k < end ==> IsTail(text[k]))
  }

  ghost predicate HasPair(text: Text, first: Span, second: Span, end: nat) {
    exists close: nat, open: nat :: IsPair(text, first, close, open, second, end)
  }

  lemma {:induction false} SuffixIs(text: Text, i: nat, r: nat)
    requires i <= r < |text|
    ensures SkipSuffix(text, i) == r <==> (forall k :: i <= k < r ==> IsTail(text[k])) && !IsTail(text[r])
    decreases r - i
  {
    assert text[i].IsReadingSuffix() <==> IsTail(text[i]);
    if i < r {
      SuffixIs(text, i + 1, r);
    }
  }

  lemma {:induction false} SpacesAre(text: Text, i: nat, r: nat)
    requires i <= r < |text|
    ensures SkipSpaces(text, i) == r <==> (forall k :: i <= k < r ==> text[k].Space?) && !text[r].Space?
    decreases r - i
  {
    if i < r {
      SpacesAre(text, i + 1, r);
    }
  }

  /** A token opens a pair exactly when the text there reads `(X) [Y]`, character by character. */
  lemma PairedReadingIs(text: Text, first: Span, pair: PairedReading)
    requires first.0 <= first.1 <= |text|
    ensures PairedReadingAfter(text, first) == Some(pair)
       <==> pair.afterPair > 0
              && HasPair(text, first, (pair.start, pair.end), pair.afterPair - 1)
  {
    if PairedReadingAfter(text, first) == Some(pair) {
      var close, open, second, end := PairParts(text, first);
      assert HasPair(text, first, second, end);
    }
    if pair.afterPair > 0 && HasPair(text, first, (pair.start, pair.end), pair.afterPair - 1) {
      var second: Span, end: nat := (pair.start, pair.end), pair.afterPair - 1;
      var close: nat, open: nat :| IsPair(text, first, close, open, second, end);
      PairIsPaired(text, first, close, open, second, end);
    }
  }

  lemma PairParts(text: Text, first: Span) returns (close: nat, open: nat, second: Span, end: nat)
    requires first.0 <= first.1 <= |text| && PairedReadingAfter(text, first).Some?
    ensures IsPair(text, first, close, open, second, end)
    ensures PairedReadingAfter(text, first) == Some(PairedReading(second.0, second.1, end + 1))
  {
    close := SkipSuffix(text, first.1);
    open := SkipSpaces(text, close + 1);
    var pair := PairedReadingAfter(text, first).value;
    second, end := (pair.start, pair.end), pair.afterPair - 1;
    SuffixIs(text, first.1, close);
    SpacesAre(text, close + 1, open);
    NextTokenBounds(text, open + 1);
    SuffixIs(text, pair.end, end);
  }

  lemma PairIsPaired(text: Text, first: Span, close: nat, open: nat, second: Span, end: nat)
    requires IsPair(text, first, close, open, second, end)
    ensures PairedReadingAfter(text, first) == Some(PairedReading(second.0, second.1, end + 1))
  {
    SuffixIs(text, first.1, close);
    SpacesAre(text, close + 1, open);
    SuffixIs(text, second.1, end);
  }
}
