/** The tokens of a text as stretches of it, and how they carry over to a part of the text. */
module TokenSlices {
  import opened Prelude
  import opened Tokenizer

  /** The text's tokens from `from` on. */
  function Tokens(text: Text, from: nat): seq<Text>
    requires from <= |text|
    decreases |text| - from
  {
    match NextToken(text, from)
    case None => []
    case Some(token) =>
      TokenFits(text, from);
      [text[token.0..token.1]] + Tokens(text, token.1)
  }

  /** The tokens without the first reading of each pair. */
  function ReadTokens(text: Text, from: nat): seq<Text>
    requires from <= |text|
    decreases |text| - from
  {
    match NextToken(text, from)
    case None => []
    case Some(token) =>
      TokenFits(text, from);
      (if PairedReadingAfter(text, token).Some? then [] else [text[token.0..token.1]]) + ReadTokens(text, token.1)
  }

  lemma SameNextSameTokens(text: Text, a: nat, b: nat)
    requires a <= |text| && b <= |text| && NextToken(text, a) == NextToken(text, b)
    ensures Tokens(text, a) == Tokens(text, b) && ReadTokens(text, a) == ReadTokens(text, b)
  {
    if NextToken(text, a).Some? {
      TokenFits(text, a);
    }
  }

  lemma TokensCons(text: Text, from: nat, token: Span)
    requires from <= |text| && NextToken(text, from) == Some(token)
    ensures from <= token.0 < token.1 <= |text|
    ensures Tokens(text, from) == [text[token.0..token.1]] + Tokens(text, token.1)
  {
    TokenFits(text, from);
  }

  // ── Tokens of a stretch of text ──────────────────────────────────────────────

  /** No token goes on past `hi`. */
  predicate Stops(text: Text, hi: nat) {
    hi == |text| || (hi < |text| && !text[hi].ContinuesToken())
  }

  /** The same look, in the text and in its stretch from `lo` on. */
  predicate SameLook(lo: nat, look: Look, shown: Look) {
    && look.geresh == shown.geresh && look.gershayim == shown.gershayim && look.firstIsGeresh == shown.firstIsGeresh
    && (look.geresh + look.gershayim > 0 ==> look.firstQuoteEnd == lo + shown.firstQuoteEnd)
    && (look.geresh + look.gershayim == 0 ==> !look.firstIsGeresh)
  }

  lemma {:induction false} LookInStretch(text: Text, lo: nat, hi: nat, k: nat, look: Look, shown: Look)
    requires lo + k <= hi <= |text| && SameLook(lo, look, shown)
    requires LookFrom(text, lo + k, look).next <= hi
    ensures var r, s := LookFrom(text, lo + k, look), LookFrom(text[lo..hi], k, shown);
            SameLook(lo, r, s) && r.next == lo + s.next
    decreases hi - k
  {
    if lo + k < hi && (text[lo + k].IsQuote() || text[lo + k].IsTransparent()) {
      var i := lo + k;
      if text[i].IsQuote() {
        LookInStretch(text, lo, hi, k + 1, SeenQuote(look, text[i].Geresh?, i), SeenQuote(shown, text[i].Geresh?, k));
      } else {
        LookInStretch(text, lo, hi, k + 1, look, shown);
      }
    }
  }

  /** A look stops where no token goes on. */
  lemma {:induction false} LookStops(text: Text, i: nat, look: Look, hi: nat)
    requires i <= hi <= |text| && Stops(text, hi)
    ensures LookFrom(text, i, look).next <= hi
    decreases hi - i
  {
    if i < hi && (text[i].IsQuote() || text[i].IsTransparent()) {
      LookStops(text, i + 1, if text[i].IsQuote() then SeenQuote(look, text[i].Geresh?, i) else look, hi);
    }
  }

  /** A look inside a stretch sees what it sees in the text. */
  lemma LookUpToStop(text: Text, lo: nat, hi: nat, k: nat)
    requires lo + k <= hi <= |text| && Stops(text, hi)
    ensures var look, shown := LookAhead(text, lo + k), LookAhead(text[lo..hi], k);
            && SameLook(lo, look, shown) && look.next == lo + shown.next <= hi && IsInner(look) == IsInner(shown)
            && ((look.next < |text| && text[look.next].IsWordChar())
                <==> (shown.next < hi - lo && text[lo..hi][shown.next].IsWordChar()))
  {
    LookStops(text, lo + k, NOTHING_YET, hi);
    LookInStretch(text, lo, hi, k, NOTHING_YET, NOTHING_YET);
  }

  /** A token of a stretch that no token goes on past ends where it does in the text. */
  lemma {:induction false} EndInStretch(text: Text, lo: nat, hi: nat, k: nat)
    requires lo + k <= hi <= |text| && Stops(text, hi)
    ensures TokenEnd(text, lo + k) == lo + TokenEnd(text[lo..hi], k)
    decreases hi - k
  {
    if lo + k < hi && text[lo + k].IsWordChar() {
      EndInStretch(text, lo, hi, k + 1);
    } else {
      LookUpToStop(text, lo, hi, k);
      var shown := LookAhead(text[lo..hi], k);
      if shown.next < hi - lo && text[lo..hi][shown.next].IsWordChar() && IsInner(shown) {
        EndInStretch(text, lo, hi, shown.next);
      }
      if shown.firstIsGeresh {
        LookFinds(text[lo..hi], k, NOTHING_YET);
      }
    }
  }

  /** A geresh that closes a token closes it where nothing follows too. */
  lemma {:induction false} ClosingGeresh(text: Text, lo: nat, hi: nat, k: nat)
    requires lo + k <= hi <= |text|
    requires LookAhead(text, lo + k).firstIsGeresh && LookAhead(text, lo + k).firstQuoteEnd == hi
    ensures LookAhead(text[lo..hi], k).firstIsGeresh && LookAhead(text[lo..hi], k).firstQuoteEnd == hi - lo
    ensures LookAhead(text[lo..hi], k).next == hi - lo
    decreases hi - k
  {
    var i, w := lo + k, text[lo..hi];
    LookFinds(text, i, NOTHING_YET);
    assert w[k] == text[i];
    if text[i].IsQuote() {
      LookFinds(text, i + 1, SeenQuote(NOTHING_YET, text[i].Geresh?, i));
      assert LookFrom(w, k + 1, SeenQuote(NOTHING_YET, true, k)).next == k + 1;
    } else {
      ClosingGeresh(text, lo, hi, k + 1);
    }
  }

  /** A token on its own is one token. */
  lemma {:induction false} TokenAlone(text: Text, lo: nat, hi: nat, k: nat)
    requires lo + k <= hi <= |text| && TokenEnd(text, lo + k) == hi
    ensures TokenEnd(text[lo..hi], k) == hi - lo
    decreases hi - k
  {
    var i, w := lo + k, text[lo..hi];
    TokenEndBounds(text, i);
    if i < hi && text[i].IsWordChar() {
      TokenAlone(text, lo, hi, k + 1);
    } else {
      var look := LookAhead(text, i);
      if look.next < |text| && text[look.next].IsWordChar() && IsInner(look) {
        TokenEndBounds(text, look.next);
        LookInStretch(text, lo, hi, k, NOTHING_YET, NOTHING_YET);
        TokenAlone(text, lo, hi, look.next - lo);
      } else if look.firstIsGeresh && !(look.next < |text| && text[look.next].IsWordChar()) {
        ClosingGeresh(text, lo, hi, k);
      }
    }
  }

  lemma SliceOfSlice(s: Text, lo: nat, hi: nat, i: nat, j: nat)
    requires lo <= hi <= |s| && i <= j <= hi - lo
    ensures s[lo..hi][i..j] == s[lo + i..lo + j]
  {
    var a, b := s[lo..hi][i..j], s[lo + i..lo + j];
    forall n | 0 <= n < |a| ensures a[n] == b[n] {
      assert s[lo..hi][i + n] == s[lo + i + n];
    }
  }

  lemma {:induction false} LetterInStretch(text: Text, lo: nat, hi: nat, k: nat)
    requires lo + k <= hi <= |text|
    ensures var first := FirstLetter(text[lo..hi], k);
            if first < hi - lo then FirstLetter(text, lo + k) == lo + first
            else FirstLetter(text, lo + k) == FirstLetter(text, hi)
    decreases hi - k
  {
    if lo + k < hi && !text[lo + k].Letter? {
      LetterInStretch(text, lo, hi, k + 1);
    }
  }

  lemma NextInStretch(text: Text, lo: nat, hi: nat, k: nat)
    requires lo + k <= hi <= |text| && Stops(text, hi)
    ensures match NextToken(text[lo..hi], k)
            case None => NextToken(text, lo + k) == NextToken(text, hi)
            case Some(token) =>
              && k <= token.0 < token.1 <= hi - lo && NextToken(text, lo + k) == Some((lo + token.0, lo + token.1))
              && text[lo..hi][token.0..token.1] == text[lo + token.0..lo + token.1]
  {
    LetterInStretch(text, lo, hi, k);
    if NextToken(text[lo..hi], k).Some? {
      TokenFits(text[lo..hi], k);
      var token := NextToken(text[lo..hi], k).value;
      EndInStretch(text, lo, hi, token.0);
      SliceOfSlice(text, lo, hi, token.0, token.1);
    }
  }

  lemma TokensConsBoth(text: Text, lo: nat, hi: nat, inside: Text, k: nat, token: Span)
    requires lo + k <= hi <= |text| && inside == text[lo..hi] && NextToken(inside, k) == Some(token)
    requires token.0 <= token.1 <= |inside| && NextToken(text, lo + k) == Some((lo + token.0, lo + token.1))
    requires inside[token.0..token.1] == text[lo + token.0..lo + token.1]
    requires Tokens(text, lo + token.1) == Tokens(inside, token.1) + Tokens(text, hi)
    ensures Tokens(text, lo + k) == Tokens(inside, k) + Tokens(text, hi)
  {
    TokensCons(text, lo + k, (lo + token.0, lo + token.1));
    TokensCons(inside, k, token);
    Regroup([inside[token.0..token.1]], Tokens(inside, token.1), Tokens(text, hi));
  }

  /** A text's tokens are those of a stretch that no token goes on past, and those after it. */
  lemma {:induction false} TokensOfStretch(text: Text, lo: nat, hi: nat, k: nat)
    requires lo + k <= hi <= |text| && Stops(text, hi)
    ensures Tokens(text, lo + k) == Tokens(text[lo..hi], k) + Tokens(text, hi)
    decreases hi - k
  {
    NextInStretch(text, lo, hi, k);
    match NextToken(text[lo..hi], k)
    case None => SameNextSameTokens(text, lo + k, hi);
    case Some(token) =>
      TokensOfStretch(text, lo, hi, token.1);
      TokensConsBoth(text, lo, hi, text[lo..hi], k, token);
  }

  lemma TokensOfRest(text: Text, lo: nat)
    requires lo <= |text|
    ensures Tokens(text, lo) == Tokens(text[lo..|text|], 0)
  {
    TokensOfStretch(text, lo, |text|, 0);
    assert Tokens(text, |text|) == [];
  }

  lemma TokensSplit(text: Text, cut: nat)
    requires cut <= |text| && Stops(text, cut)
    ensures Tokens(text, 0) == Tokens(text[0..cut], 0) + Tokens(text[cut..|text|], 0)
  {
    TokensOfStretch(text, 0, cut, 0);
    TokensOfRest(text, cut);
  }

  lemma TokensPastSeparator(text: Text, cut: nat)
    requires cut < |text| && !text[cut].ContinuesToken()
    ensures Tokens(text, cut) == Tokens(text, cut + 1)
  {
    assert FirstLetter(text, cut) == FirstLetter(text, cut + 1);
    SameNextSameTokens(text, cut, cut + 1);
  }

  /** Tokens on either side of a character that ends a token. */
  lemma TokensAcross(text: Text, cut: nat)
    requires cut < |text| && !text[cut].ContinuesToken()
    ensures Tokens(text, 0) == Tokens(text[0..cut], 0) + Tokens(text[cut + 1..|text|], 0)
  {
    TokensOfStretch(text, 0, cut, 0);
    TokensPastSeparator(text, cut);
    TokensOfRest(text, cut + 1);
  }

  /** A token on its own is its only token. */
  lemma OneTokenAlone(text: Text, token: Span)
    requires token.0 < token.1 <= |text| && NextToken(text, token.0) == Some(token)
    ensures Tokens(text[token.0..token.1], 0) == [text[token.0..token.1]]
  {
    var word := text[token.0..token.1];
    TokenFits(text, token.0);
    TokenAlone(text, token.0, token.1, 0);
    assert word[0].Letter?;
    assert NextToken(word, 0) == Some((0, |word|));
    assert word[0..|word|] == word;
    assert Tokens(word, |word|) == [];
  }
}
