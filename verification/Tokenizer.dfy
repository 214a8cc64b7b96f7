/** Tokens of a text: where each starts and ends, and which come in pairs. */
module Tokenizer {
  import opened Prelude

  /** A character, as the tokenizer tells them apart; `code` is which one of its class. */
  datatype Char =
      /** Opens a token: a letter or digit. */
    | Letter(code: nat)
      /** A mark attached to the letter before it: a word character that opens no token. */
    | Mark(code: nat)
      /** Neither breaks a token nor belongs to its text: `*^$\+.~` and the invisible ones. */
    | Transparent(code: nat)
      /** Brackets are transparent too, and delimit a second reading. */
    | OpenBracket | CloseBracket
    | Geresh(code: nat)
    | Gershayim(code: nat)
    | Space(code: nat)
    | OpenParen | CloseParen
      /** `<` and `>`. */
    | Angle(code: nat)
      /** Any other separator; `spaced` when a query's sanitizing turns it into a space. */
    | Separator(code: nat, spaced: bool)
  {
    predicate IsWordChar() {
      Letter? || Mark?
    }

    predicate IsTransparent() {
      Transparent? || OpenBracket? || CloseBracket?
    }

    predicate IsQuote() {
      Geresh? || Gershayim?
    }

    /** Can stand inside a token without breaking it. */
    predicate ContinuesToken() {
      IsWordChar() || IsTransparent() || IsQuote()
    }

    /** Can stand between a reading and the delimiter that closes it. */
    predicate IsReadingSuffix() {
      !IsWordChar() && !OpenParen? && !CloseParen? && !OpenBracket? && !CloseBracket? && !Angle?
    }
  }

  type Text = seq<Char>

  /** A token's first position and the one after its last. */
  type Span = (nat, nat)

  // ── Token boundaries ─────────────────────────────────────────────────────────

  /** The quotes met while looking ahead over quotes and transparent characters, and where that ends. */
  datatype Look = Look(geresh: nat, gershayim: nat, firstIsGeresh: bool, firstQuoteEnd: nat, next: nat)

  /** One more quote, at `i`; the first one is remembered. */
  function SeenQuote(look: Look, isGeresh: bool, i: nat): Look {
    var first := look.geresh + look.gershayim == 0;
    Look(
      look.geresh + if isGeresh then 1 else 0,
      look.gershayim + if isGeresh then 0 else 1,
      if first then isGeresh else look.firstIsGeresh,
      if first then i + 1 else look.firstQuoteEnd,
      0)
  }

  function LookFrom(text: Text, i: nat, look: Look): (r: Look)
    requires i <= |text|
    ensures i <= r.next <= |text|
    decreases |text| - i
  {
    if i == |text| then look.(next := i)
    else if text[i].IsQuote() then LookFrom(text, i + 1, SeenQuote(look, text[i].Geresh?, i))
    else if text[i].IsTransparent() then LookFrom(text, i + 1, look)
    else look.(next := i)
  }

  const NOTHING_YET := Look(0, 0, false, 0, 0)

  function LookAhead(text: Text, i: nat): (r: Look)
    requires i <= |text|
    ensures i <= r.next <= |text|
  {
    LookFrom(text, i, NOTHING_YET)
  }

  /** No quotes, one or two geresh, or one gershayim: the token goes on through them. */
  predicate IsInner(look: Look) {
    (look.geresh == 0 && look.gershayim <= 1) || (look.gershayim == 0 && look.geresh <= 2)
  }

  /** Where the token that goes on at `i` ends. */
  function TokenEnd(text: Text, i: nat): nat
    requires i <= |text|
    decreases |text| - i
  {
    if i < |text| && text[i].IsWordChar() then TokenEnd(text, i + 1)
    else
      var look := LookAhead(text, i);
      if look.next < |text| && text[look.next].IsWordChar() then
        if IsInner(look) then
          TokenEnd(text, look.next)
        else i
      else if look.firstIsGeresh then look.firstQuoteEnd
      else i
  }

  /** The first letter at or after `i`, or the text's end. */
  function FirstLetter(text: Text, i: nat): (r: nat)
    requires i <= |text|
    ensures i <= r <= |text|
    ensures r < |text| ==> text[r].Letter?
    decreases |text| - i
  {
    if i == |text| || text[i].Letter? then i else FirstLetter(text, i + 1)
  }

  lemma {:induction false} NoneBeforeFirst(text: Text, i: nat)
    requires i <= |text|
    ensures forall j :: i <= j < FirstLetter(text, i) ==> !text[j].Letter?
    decreases |text| - i
  {
    if i < |text| && !text[i].Letter? {
      NoneBeforeFirst(text, i + 1);
    }
  }

  /** The next token at or after `from`. */
  function NextToken(text: Text, from: nat): Option<Span>
    requires from <= |text|
  {
    var start := FirstLetter(text, from);
    if start == |text| then None else Some((start, TokenEnd(text, start)))
  }

  lemma {:induction false} LookFinds(text: Text, i: nat, look: Look)
    requires i <= |text|
    ensures var r := LookFrom(text, i, look);
            && (forall j :: i <= j < r.next ==> text[j].IsQuote() || text[j].IsTransparent())
            && (r.next < |text| ==> !text[r.next].IsQuote() && !text[r.next].IsTransparent())
            && r.geresh >= look.geresh && r.gershayim >= look.gershayim
            && (r.geresh + r.gershayim == 0 ==> r.firstIsGeresh == look.firstIsGeresh)
            && (look.geresh + look.gershayim > 0 ==>
                 r.firstIsGeresh == look.firstIsGeresh && r.firstQuoteEnd == look.firstQuoteEnd)
            && (look == NOTHING_YET && r.firstIsGeresh ==>
                 i < r.firstQuoteEnd <= r.next && text[r.firstQuoteEnd - 1].Geresh?)
    decreases |text| - i
  {
    if i < |text| {
      if text[i].IsQuote() {
        LookFinds(text, i + 1, SeenQuote(look, text[i].Geresh?, i));
      } else if text[i].IsTransparent() {
        LookFinds(text, i + 1, look);
      }
    }
  }

  /** A token holds no separator, and ends at the text's end or before one that ends it. */
  lemma {:induction false} TokenEndBounds(text: Text, i: nat)
    requires i <= |text|
    ensures i <= TokenEnd(text, i) <= |text|
    ensures forall j :: i <= j < TokenEnd(text, i) ==> text[j].ContinuesToken()
    ensures i < |text| && text[i].IsWordChar() ==> i < TokenEnd(text, i)
    decreases |text| - i
  {
    if i < |text| && text[i].IsWordChar() {
      TokenEndBounds(text, i + 1);
    } else {
      var look := LookAhead(text, i);
      LookFinds(text, i, NOTHING_YET);
      if look.next < |text| && text[look.next].IsWordChar() && IsInner(look) {
        TokenEndBounds(text, look.next);
      }
    }
  }

  /** A token starts at the first letter and holds no separator. */
  lemma NextTokenBounds(text: Text, from: nat)
    requires from <= |text| && NextToken(text, from).Some?
    ensures var (start, end) := NextToken(text, from).value;
            && from <= start < end <= |text| && text[start].Letter?
            && (forall j :: from <= j < start ==> !text[j].Letter?)
            && (forall j :: start <= j < end ==> text[j].ContinuesToken())
  {
    NoneBeforeFirst(text, from);
    TokenEndBounds(text, FirstLetter(text, from));
  }

  lemma TokenFits(text: Text, from: nat)
    requires from <= |text| && NextToken(text, from).Some?
    ensures var (start, end) := NextToken(text, from).value;
            from <= start < end <= |text| && text[start].Letter? && end == TokenEnd(text, start)
  {
    TokenEndBounds(text, FirstLetter(text, from));
  }

  /** Nothing but letters opens a token, so skipping others changes nothing. */
  lemma {:induction false} SkipToToken(text: Text, from: nat, to: nat)
    requires from <= to <= |text|
    requires forall j :: from <= j < to ==> !text[j].Letter?
    ensures NextToken(text, from) == NextToken(text, to)
    decreases |text| - from
  {
    if from < to {
      SkipToToken(text, from + 1, to);
    }
  }

  /** The tokenizer's scan for the next token. */
  method NextTokenBoundaries(text: Text, from: nat) returns (token: Option<Span>)
    requires from <= |text|
    ensures token == NextToken(text, from)
  {
    var start: nat := from;
    while start < |text| && !text[start].Letter?
      invariant from <= start <= |text|
      invariant FirstLetter(text, start) == FirstLetter(text, from)
    {
      start := start + 1;
    }
    if start == |text| {
      return None;
    }
    var pos: nat := start;
    while true
      invariant start <= pos <= |text|
      invariant TokenEnd(text, pos) == TokenEnd(text, start)
      invariant pos < |text| && text[pos].IsWordChar()
      decreases |text| - pos
    {
      while pos < |text| && text[pos].IsWordChar()
        invariant start <= pos <= |text|
        invariant TokenEnd(text, pos) == TokenEnd(text, start)
      {
        pos := pos + 1;
      }
      var geresh: nat, gershayim: nat, firstIsGeresh, firstQuoteEnd: nat := 0, 0, false, 0;
      var next: nat := pos;
      while next < |text| && (text[next].IsQuote() || text[next].IsTransparent())
        invariant pos <= next <= |text|
        invariant LookFrom(text, next, Look(geresh, gershayim, firstIsGeresh, firstQuoteEnd, 0)) == LookAhead(text, pos)
      {
        if text[next].IsQuote() {
          if geresh + gershayim == 0 {
            firstQuoteEnd := next + 1;
            firstIsGeresh := text[next].Geresh?;
          }
          if text[next].Geresh? {
            geresh := geresh + 1;
          } else {
            gershayim := gershayim + 1;
          }
        }
        next := next + 1;
      }
      if next < |text| && text[next].IsWordChar() {
        match (geresh, gershayim)
        case (0, 0) => pos := next;
        case (1, 0) => pos := next;
        case (2, 0) => pos := next;
        case (0, 1) => pos := next;
        case _ => return Some((start, pos));
      } else {
        return Some((start, if firstIsGeresh then firstQuoteEnd else pos));
      }
    }
  }

  // ── Paired readings ──────────────────────────────────────────────────────────

  function SkipSuffix(text: Text, i: nat): (r: nat)
    requires i <= |text|
    ensures i <= r <= |text|
    decreases |text| - i
  {
    if i < |text| && text[i].IsReadingSuffix() then SkipSuffix(text, i + 1) else i
  }

  function SkipSpaces(text: Text, i: nat): (r: nat)
    requires i <= |text|
    ensures i <= r <= |text|
    decreases |text| - i
  {
    if i < |text| && text[i].Space? then SkipSpaces(text, i + 1) else i
  }

  lemma {:induction false} NoLetterInSuffix(text: Text, i: nat)
    requires i <= |text|
    ensures FirstLetter(text, i) == FirstLetter(text, SkipSuffix(text, i))
    decreases |text| - i
  {
    if i < |text| && text[i].IsReadingSuffix() {
      NoLetterInSuffix(text, i + 1);
    }
  }

  lemma {:induction false} NoLetterInSpaces(text: Text, i: nat)
    requires i <= |text|
    ensures FirstLetter(text, i) == FirstLetter(text, SkipSpaces(text, i))
    decreases |text| - i
  {
    if i < |text| && text[i].Space? {
      NoLetterInSpaces(text, i + 1);
    }
  }

  /** The second reading, and where the pair ends. */
  datatype PairedReading = PairedReading(start: nat, end: nat, afterPair: nat)

  /** When the token is `X` of a pair `(X) [Y]`, where `Y` is. */
  function PairedReadingAfter(text: Text, token: Span): (pair: Option<PairedReading>)
    requires token.0 <= token.1 <= |text|
    ensures pair.Some? ==> token.1 < pair.value.start <= pair.value.end < pair.value.afterPair <= |text|
    ensures pair.Some? ==> 0 < token.0 && text[token.0 - 1].OpenParen?
    ensures pair.Some? ==> text[pair.value.start - 1].OpenBracket? && text[pair.value.afterPair - 1].CloseBracket?
    ensures pair.Some? ==> NextToken(text, pair.value.start) == Some((pair.value.start, pair.value.end))
  {
    if token.0 == 0 || !text[token.0 - 1].OpenParen? then None
    else
      var close := SkipSuffix(text, token.1);
      if close == |text| || !text[close].CloseParen? then None
      else
        var open := SkipSpaces(text, close + 1);
        if open == |text| || !text[open].OpenBracket? then None
        else
          var second := NextToken(text, open + 1);
          if second.None? || second.value.0 != open + 1 then None
          else
            NextTokenBounds(text, open + 1);
            var end := SkipSuffix(text, second.value.1);
            if end == |text| || !text[end].CloseBracket? then None
            else Some(PairedReading(second.value.0, second.value.1, end + 1))
  }

  /** The token after `X` of a pair is `Y`, and no other comes before the pair's end. */
  lemma SecondReadingIsNext(text: Text, token: Span)
    requires token.0 <= token.1 <= |text| && PairedReadingAfter(text, token).Some?
    ensures var pair := PairedReadingAfter(text, token).value;
            && NextToken(text, token.1) == Some((pair.start, pair.end))
            && NextToken(text, pair.end) == NextToken(text, pair.afterPair)
  {
    var pair := PairedReadingAfter(text, token).value;
    NoLetterInSuffix(text, token.1);
    var close := SkipSuffix(text, token.1);
    NoLetterInSpaces(text, close + 1);
    NoLetterInSuffix(text, pair.end);
  }
}
