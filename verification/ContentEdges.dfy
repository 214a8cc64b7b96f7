/** When the ends of a line's content part the two readings of a pair, and what its edges are then. */
module ContentEdges {
  import opened Prelude
  import opened Tokenizer
  import opened TokenSlices
  import opened TokenEnds
  import opened QueryWords
  import opened TokenStreams
  import opened LineEdges
  import opened EdgeWords
  import opened ContentRanges

  // ── Pairs in the rest of a line ──────────────────────────────────────────────

  lemma NextInRest(text: Text, lo: nat, k: nat)
    requires lo + k <= |text|
    ensures match NextToken(text[lo..], k)
            case None => NextToken(text, lo + k) == None
            case Some(token) =>
              k <= token.0 < token.1 <= |text| - lo && NextToken(text, lo + k) == Some((lo + token.0, lo + token.1))
  {
    assert text[lo..|text|] == text[lo..];
    NextInStretch(text, lo, |text|, k);
  }

  function Moved(span: Span, lo: nat): Span {
    (span.0 + lo, span.1 + lo)
  }

  /** A pair is one in the text exactly when it is one in the rest of it. */
  lemma PartsInRest(text: Text, lo: nat, rest: Text, first: Span, close: nat, open: nat, second: Span, end: nat)
    requires lo <= |text| && rest == text[lo..] && 0 < first.0
    ensures IsPair(text, Moved(first, lo), close + lo, open + lo, Moved(second, lo), end + lo)
       <==> IsPair(rest, first, close, open, second, end)
  {
    if second.0 <= |rest| {
      NextInRest(text, lo, second.0);
    }
    assert forall k :: 0 <= k < |rest| ==> rest[k] == text[lo + k];
    assert forall k :: lo <= k < |text| ==> text[k] == rest[k - lo];
  }

  lemma PairInRest(text: Text, lo: nat, rest: Text, first: Span)
    requires lo <= |text| && rest == text[lo..] && 0 < first.0 <= first.1 <= |rest|
    requires PairedReadingAfter(rest, first).Some?
    ensures PairedReadingAfter(text, Moved(first, lo)).Some?
  {
    var close, open, second, end := PairParts(rest, first);
    PartsInRest(text, lo, rest, first, close, open, second, end);
    PairIsPaired(text, Moved(first, lo), close + lo, open + lo, Moved(second, lo), end + lo);
  }

  lemma PairOfRest(text: Text, lo: nat, rest: Text, first: Span)
    requires lo <= |text| && rest == text[lo..] && 0 < first.0 <= first.1 <= |rest|
    requires PairedReadingAfter(text, Moved(first, lo)).Some?
    ensures PairedReadingAfter(rest, first).Some?
  {
    var close, open, second, end := PairParts(text, Moved(first, lo));
    var c: nat, o: nat, s: Span, e: nat := close - lo, open - lo, (second.0 - lo, second.1 - lo), end - lo;
    assert Moved(s, lo) == second;
    PartsInRest(text, lo, rest, first, c, o, s, e);
    PairIsPaired(rest, first, c, o, s, e);
  }

  lemma PairEndInRest(text: Text, open: nat)
    requires open < |text|
    ensures ReadingPairEnd(text[open..], 0).Some? <==> ReadingPairEnd(text, open).Some?
  {
    NextInRest(text, open, 1);
    var first := NextToken(text[open..], 1);
    if first.Some? && first.value.0 == 1 {
      TokenFits(text, open + 1);
      var rest := text[open..];
      if PairedReadingAfter(rest, first.value).Some? {
        PairInRest(text, open, rest, first.value);
      } else if PairedReadingAfter(text, Moved(first.value, open)).Some? {
        PairOfRest(text, open, rest, first.value);
      }
    }
  }

  // ── Pairs in a line less what may follow an enumerator ───────────────────────

  /** Nothing from `end` on belongs to a word, a quote or a bracket. */
  ghost predicate OnlyTrails(text: Text, end: nat) {
    end <= |text| && forall i :: end <= i < |text| ==> IsTrailing(text[i])
  }

  lemma {:induction false} LookInFront(text: Text, end: nat, i: nat, look: Look)
    requires OnlyTrails(text, end) && i <= end
    ensures var r, s := LookFrom(text, i, look), LookFrom(text[..end], i, look);
            && r.geresh == s.geresh && r.gershayim == s.gershayim && r.firstIsGeresh == s.firstIsGeresh
            && r.firstQuoteEnd == s.firstQuoteEnd
            && (if s.next < end then r.next == s.next else r.next == |text| || !text[r.next].IsWordChar())
    decreases end - i
  {
    if i < end {
      if text[i].IsQuote() {
        LookInFront(text, end, i + 1, SeenQuote(look, text[i].Geresh?, i));
      } else if text[i].IsTransparent() {
        LookInFront(text, end, i + 1, look);
      }
    } else {
      LookPastEnd(text, end, i, look);
    }
  }

  lemma {:induction false} LookPastEnd(text: Text, end: nat, i: nat, look: Look)
    requires OnlyTrails(text, end) && end <= i <= |text|
    ensures var r := LookFrom(text, i, look);
            && r == look.(next := r.next) && (r.next == |text| || !text[r.next].IsWordChar())
    decreases |text| - i
  {
    if i < |text| && text[i].IsTransparent() {
      LookPastEnd(text, end, i + 1, look);
    }
  }

  lemma {:induction false} EndInFront(text: Text, end: nat, i: nat)
    requires OnlyTrails(text, end) && i <= end
    ensures TokenEnd(text, i) == TokenEnd(text[..end], i)
    decreases end - i
  {
    if i < end && text[i].IsWordChar() {
      EndInFront(text, end, i + 1);
    } else {
      LookInFront(text, end, i, NOTHING_YET);
      var look := LookAhead(text[..end], i);
      if look.next < end && text[look.next].IsWordChar() && IsInner(look) {
        EndInFront(text, end, look.next);
      }
    }
  }

  lemma {:induction false} LetterInFront(text: Text, end: nat, i: nat)
    requires OnlyTrails(text, end) && i <= end
    ensures var first := FirstLetter(text[..end], i); FirstLetter(text, i) == if first < end then first else |text|
    decreases end - i
  {
    if i < end {
      if !text[i].Letter? {
        LetterInFront(text, end, i + 1);
      }
    } else {
      NoLetterTrails(text, end, i);
    }
  }

  lemma {:induction false} NoLetterTrails(text: Text, end: nat, i: nat)
    requires OnlyTrails(text, end) && end <= i <= |text|
    ensures FirstLetter(text, i) == |text|
    decreases |text| - i
  {
    if i < |text| {
      NoLetterTrails(text, end, i + 1);
    }
  }

  lemma NextInFront(text: Text, end: nat, i: nat)
    requires OnlyTrails(text, end) && i <= end
    ensures NextToken(text, i) == NextToken(text[..end], i)
  {
    LetterInFront(text, end, i);
    var first := FirstLetter(text[..end], i);
    if first < end {
      EndInFront(text, end, first);
    }
  }

  lemma PartsInFront(text: Text, front: Text, first: Span, close: nat, open: nat, second: Span, end: nat)
    requires front <= text && OnlyTrails(text, |front|)
    ensures IsPair(text, first, close, open, second, end) <==> IsPair(front, first, close, open, second, end)
  {
    assert front == text[..|front|];
    if second.0 <= |front| {
      NextInFront(text, |front|, second.0);
    }
  }

  lemma PairInFront(text: Text, front: Text, first: Span)
    requires front <= text && OnlyTrails(text, |front|) && first.0 <= first.1 <= |front|
    ensures PairedReadingAfter(text, first) == PairedReadingAfter(front, first)
  {
    if PairedReadingAfter(front, first).Some? {
      var close, open, second, end := PairParts(front, first);
      PartsInFront(text, front, first, close, open, second, end);
      PairIsPaired(text, first, close, open, second, end);
    } else if PairedReadingAfter(text, first).Some? {
      var close, open, second, end := PairParts(text, first);
      PartsInFront(text, front, first, close, open, second, end);
      PairIsPaired(front, first, close, open, second, end);
    }
  }

  lemma PairEndInFront(text: Text, end: nat, open: nat)
    requires OnlyTrails(text, end) && open < end
    ensures ReadingPairEnd(text, open) == ReadingPairEnd(text[..end], open)
  {
    NextInFront(text, end, open + 1);
    var first := NextToken(text[..end], open + 1);
    if first.Some? {
      TokenFits(text[..end], open + 1);
      PairInFront(text, text[..end], first.value);
    }
  }

  // ── Tokens at one position ───────────────────────────────────────────────────

  function PositionAfter(text: Text, token: Token): nat
    requires token.span.0 <= token.span.1 <= |text|
  {
    if PairedReadingAfter(text, token.span).Some? then token.position else token.position + 1
  }

  /** The first token at or after `at` is `token`, at this position. */
  ghost predicate ComesAt(text: Text, at: nat, position: nat, token: Token) {
    && at <= token.span.0 < token.span.1 <= |text| && NextToken(text, at) == Some(token.span)
    && NextToken(text, token.span.0) == Some(token.span) && token.position == position
    && token.text == IndexedAs(text[token.span.0..token.span.1])
  }

  ghost predicate Follows(text: Text, before: Token, token: Token) {
    && before.span.0 < before.span.1 <= |text|
    && ComesAt(text, before.span.1, PositionAfter(text, before), token)
  }

  ghost predicate FollowsAt(text: Text, tokens: seq<Token>, i: nat)
    requires 0 < i < |tokens|
  {
    Follows(text, tokens[i - 1], tokens[i])
  }

  /** Each token is the next one after that before it, until there is none. */
  ghost predicate IsWalk(text: Text, at: nat, position: nat, tokens: seq<Token>) {
    && at <= |text|
    && (tokens != [] ==> ComesAt(text, at, position, tokens[0]))
    && (forall i {:trigger FollowsAt(text, tokens, i)} :: 0 < i < |tokens| ==> FollowsAt(text, tokens, i))
    && EndsWalk(text, if tokens == [] then at else tokens[|tokens| - 1].span.1)
  }

  ghost predicate EndsWalk(text: Text, at: nat) {
    at <= |text| && NextToken(text, at) == None
  }

  lemma WalkLonger(text: Text, at: nat, position: nat, token: Token, rest: seq<Token>)
    requires ComesAt(text, at, position, token)
    requires IsWalk(text, token.span.1, PositionAfter(text, token), rest)
    ensures IsWalk(text, at, position, [token] + rest)
  {
    var tokens := [token] + rest;
    forall i | 0 < i < |tokens| ensures FollowsAt(text, tokens, i) {
      assert tokens[i] == rest[i - 1];
      if i > 1 {
        assert tokens[i - 1] == rest[i - 2] && FollowsAt(text, rest, i - 1);
      }
    }
  }

  lemma YieldsOne(text: Text, at: nat, count: nat, share: bool, position: nat) returns (token: Token, pair: bool)
    requires at <= |text| && (share ==> count > 0) && NextToken(text, at).Some?
    requires position == if share then count - 1 else count
    ensures ComesAt(text, at, position, token) && pair == PairedReadingAfter(text, token.span).Some?
    ensures Yielded(text, at, count, share) == [token] + Yielded(text, token.span.1, position + 1, pair)
  {
    var span := NextToken(text, at).value;
    TokenFits(text, at);
    YieldsFirst(text, at, count, share, span);
    token := Token(IndexedAs(text[span.0..span.1]), span, position);
    pair := PairedReadingAfter(text, span).Some?;
  }

  lemma {:induction false} YieldedWalks(text: Text, at: nat, count: nat, share: bool, position: nat)
    requires at <= |text| && (share ==> count > 0) && position == if share then count - 1 else count
    ensures IsWalk(text, at, position, Yielded(text, at, count, share))
    decreases |text| - at
  {
    if NextToken(text, at).Some? {
      var token, pair := YieldsOne(text, at, count, share, position);
      var next := PositionAfter(text, token);
      YieldedWalks(text, token.span.1, position + 1, pair, next);
      WalkLonger(text, at, position, token, Yielded(text, token.span.1, position + 1, pair));
    }
  }

  lemma LineWalks(text: Text)
    ensures IsWalk(text, 0, 0, LineTokens(text))
  {
    YieldedWalks(text, 0, 0, false, 0);
  }

  /** `second` is the second reading after `first`. */
  ghost predicate ArePaired(text: Text, first: Span, second: Span) {
    && first.0 <= first.1 <= |text| && NextToken(text, first.0) == Some(first)
    && PairedReadingAfter(text, first).Some?
    && second == (PairedReadingAfter(text, first).value.start, PairedReadingAfter(text, first).value.end)
  }

  lemma {:induction false} PositionsGrow(text: Text, tokens: seq<Token>, i: nat, j: nat)
    requires IsWalk(text, 0, 0, tokens) && i <= j < |tokens|
    ensures tokens[i].position <= tokens[j].position
  {
    if i < j {
      PositionsGrow(text, tokens, i, j - 1);
      assert FollowsAt(text, tokens, j);
    }
  }

  /** A token at the position of the one before is its second reading, and the next one has a later position. */
  lemma StepsOnto(text: Text, tokens: seq<Token>, i: nat)
    requires IsWalk(text, 0, 0, tokens) && i + 1 < |tokens| && tokens[i + 1].position == tokens[i].position
    ensures ArePaired(text, tokens[i].span, tokens[i + 1].span)
    ensures PairedReadingAfter(text, tokens[i + 1].span).None?
  {
    assert FollowsAt(text, tokens, i + 1);
    assert i == 0 || FollowsAt(text, tokens, i);
    SecondReadingIsNext(text, tokens[i].span);
  }

  lemma {:induction false} SpansGrow(text: Text, tokens: seq<Token>, i: nat, j: nat)
    requires IsWalk(text, 0, 0, tokens) && i < j < |tokens|
    ensures tokens[i].span.1 <= tokens[j].span.0
  {
    assert FollowsAt(text, tokens, j);
    if i < j - 1 {
      SpansGrow(text, tokens, i, j - 1);
    }
  }

  /** Two tokens at one position are a pair. */
  lemma SamePosition(text: Text, tokens: seq<Token>, i: nat, j: nat)
    requires IsWalk(text, 0, 0, tokens) && i < j < |tokens| && tokens[i].position == tokens[j].position
    ensures j == i + 1 && ArePaired(text, tokens[i].span, tokens[j].span)
  {
    PositionsGrow(text, tokens, i, i + 1);
    PositionsGrow(text, tokens, i + 1, j);
    StepsOnto(text, tokens, i);
    if j > i + 1 {
      assert FollowsAt(text, tokens, i + 2);
      PositionsGrow(text, tokens, i + 2, j);
    }
  }

  /** A token before an opening parenthesis ends before it. */
  lemma TokensBeforeParen(text: Text, at: nat, open: nat, first: Span)
    requires at <= open < |text| && text[open].OpenParen? && NextToken(text, open + 1) == Some(first)
    ensures NextToken(text, at).Some?
    ensures NextToken(text, at) == Some(first) || NextToken(text, at).value.1 <= open
  {
    NoneBeforeFirst(text, at);
    var letter := FirstLetter(text, at);
    if letter > open {
      SkipToToken(text, at, open + 1);
    } else {
      NextTokenBounds(text, at);
    }
  }

  function WalkedTo(tokens: seq<Token>, i: nat): nat
    requires i <= |tokens|
  {
    if i == 0 then 0 else tokens[i - 1].span.1
  }

  /** The token after an opening parenthesis is among the tokens. */
  lemma {:induction false} FirstStands(text: Text, tokens: seq<Token>, i: nat, open: nat, first: Span) returns (k: nat)
    requires IsWalk(text, 0, 0, tokens) && i <= |tokens| && WalkedTo(tokens, i) <= open < |text|
    requires text[open].OpenParen? && NextToken(text, open + 1) == Some(first)
    ensures k < |tokens| && tokens[k].span == first
    decreases |tokens| - i
  {
    TokensBeforeParen(text, WalkedTo(tokens, i), open, first);
    assert i == 0 || i == |tokens| || FollowsAt(text, tokens, i);
    if tokens[i].span == first {
      k := i;
    } else {
      k := FirstStands(text, tokens, i + 1, open, first);
    }
  }

  /** A pair opened at `open` is among the tokens, its readings at one position. */
  lemma PairStands(text: Text, tokens: seq<Token>, open: nat, first: Span, second: Span) returns (i: nat)
    requires IsWalk(text, 0, 0, tokens) && open < |text| && text[open].OpenParen?
    requires NextToken(text, open + 1) == Some(first) && ArePaired(text, first, second)
    ensures i + 1 < |tokens| && tokens[i].span == first && tokens[i + 1].span == second
    ensures tokens[i].position == tokens[i + 1].position
  {
    i := FirstStands(text, tokens, 0, open, first);
    SecondReadingIsNext(text, first);
    assert i + 1 == |tokens| || FollowsAt(text, tokens, i + 1);
  }

  // ── What lies between the parts of a pair ────────────────────────────────────

  lemma {:induction false} SpacesRun(text: Text, i: nat, j: nat)
    requires i <= |text| && i <= j < SkipSpaces(text, i)
    ensures text[j].Space?
    decreases |text| - i
  {
    if i < j {
      SpacesRun(text, i + 1, j);
    }
  }

  /** A pair's readings hold no bracket but square ones, and no other closing parenthesis stands before its end. */
  lemma PairText(text: Text, first: Span, close: nat, open: nat, second: Span, end: nat)
    requires IsPair(text, first, close, open, second, end) && NextToken(text, first.0) == Some(first)
    ensures forall j :: first.0 <= j < close ==> !text[j].OpenParen? && !text[j].CloseParen?
    ensures forall j :: second.0 <= j < second.1 ==> text[j].ContinuesToken()
  {
    NextTokenBounds(text, first.0);
    NextTokenBounds(text, second.0);
  }

  // ── A second reading that runs into an enumerator ────────────────────────────

  /** The last closing parenthesis before `n`. */
  function LastClose(text: Text, n: nat): (r: Option<nat>)
    requires n <= |text|
    ensures r.Some? ==> r.value < n && text[r.value].CloseParen?
    ensures forall i :: 0 <= i < n && text[i].CloseParen? ==> r.Some? && i <= r.value
  {
    if n == 0 then None else if text[n - 1].CloseParen? then Some(n - 1) else LastClose(text, n - 1)
  }

  /** The bracketed enumerator that ends the line ends the line's last pair too. */
  predicate RunsInto(text: Text, open: nat, close: nat) {
    && IsFinal(text, open, close, Square)
    && LastClose(text, open).Some? && ReadingEndsAt(text, LastClose(text, open).value, close + 1)
  }

  ghost predicate CutsReading(text: Text) {
    exists open: nat, close: nat :: RunsInto(text, open, close)
  }

  lemma PairEndIs(text: Text, open: nat, first: Span, end: nat)
    requires open < |text| && text[open].OpenParen?
    requires ReadingPairEnd(text, open) == Some(end)
    requires NextToken(text, open + 1) == Some(first)
    ensures first.0 == open + 1 && first.0 <= first.1 <= |text| && PairedReadingAfter(text, first).Some?
    ensures PairedReadingAfter(text, first).value.afterPair == end
  {
    TokenFits(text, open + 1);
  }

  /** An enumerator that ends a pair begins inside its second reading, or is it. */
  lemma BeginsInside(text: Text, open: nat, close: nat, first: Span, shut: nat, open': nat, second: Span)
    requires EndsLine(text, open, close, Square) && shut < open
    requires IsPair(text, first, shut, open', second, close) && NextToken(text, first.0) == Some(first)
    ensures open' <= open < second.1
    ensures open' == open ==> TrimSpaces(text, open) == shut + 1
  {
    PairText(text, first, shut, open', second, close);
    assert text[open'].OpenBracket? && text[open].OpenBracket?;
  }

  /** The pair's own closing parenthesis is the last one before the enumerator. */
  lemma ClosesLast(text: Text, open: nat, close: nat, first: Span, shut: nat, open': nat, second: Span, last: nat)
    requires EndsLine(text, open, close, Square) && LastClose(text, open) == Some(last)
    requires LastOpen(text, last) == Some(first.0 - 1)
    requires IsPair(text, first, shut, open', second, close) && NextToken(text, first.0) == Some(first)
    ensures shut == last
  {
    PairText(text, first, shut, open', second, close);
    assert forall j :: shut < j < close ==> !text[j].CloseParen?;
    assert first.0 <= last < close;
  }

  /** What an enumerator that runs into a pair shows of it. */
  lemma RunsIntoPair(text: Text, open: nat, close: nat) returns (last: nat, paren: nat)
    requires RunsInto(text, open, close)
    ensures LastClose(text, open) == Some(last) && LastOpen(text, last) == Some(paren)
    ensures ReadingPairEnd(text[..close + 1], paren) == Some(close + 1) && TrimSpaces(text, open) != last + 1
  {
    last := LastClose(text, open).value;
    paren := LastOpen(text, last).value;
    AdjacentCloses(text, open, close, last);
  }

  lemma AdjacentCloses(text: Text, open: nat, close: nat, last: nat)
    requires open < close < |text| && LastClose(text, open) == Some(last) && ReadingEndsAt(text, last, close + 1)
    ensures TrimSpaces(text, open) == last + 1 ==> ClosesPair(text, open, close + 1)
  {
  }

  /** The pair that a bracketed enumerator ends. */
  lemma EndedPair(text: Text, paren: nat, close: nat) returns (first: Span)
    requires paren <= close < |text| && OnlyTrails(text, close + 1) && text[paren].OpenParen?
    requires ReadingPairEnd(text[..close + 1], paren) == Some(close + 1)
    ensures ReadingPairEnd(text, paren).Some? && NextToken(text, paren + 1) == Some(first)
    ensures first.0 == paren + 1 <= first.1 <= |text| && NextToken(text, first.0) == Some(first)
    ensures PairedReadingAfter(text, first).Some? && PairedReadingAfter(text, first).value.afterPair == close + 1
  {
    PairEndInFront(text, close + 1, paren);
    first := NextToken(text, paren + 1).value;
    PairEndIs(text, paren, first, close + 1);
  }

  lemma RunsInside(text: Text, open: nat, close: nat, last: nat, first: Span) returns (second: Span)
    requires EndsLine(text, open, close, Square) && TrimSpaces(text, open) != last + 1
    requires LastClose(text, open) == Some(last)
    requires LastOpen(text, last) == Some(first.0 - 1) && NextToken(text, first.0) == Some(first)
    requires first.0 <= first.1 <= |text|
    requires PairedReadingAfter(text, first).Some? && PairedReadingAfter(text, first).value.afterPair == close + 1
    ensures ArePaired(text, first, second)
    ensures first.1 < second.0 < open < second.1 && text[second.0 - 1].OpenBracket?
  {
    var shut, open', end;
    shut, open', second, end := PairParts(text, first);
    ClosesLast(text, open, close, first, shut, open', second, last);
    BeginsInside(text, open, close, first, shut, open', second);
    PairText(text, first, shut, open', second, close);
  }

  lemma CutPair(text: Text, open: nat, close: nat, last: nat, paren: nat) returns (first: Span, second: Span)
    requires EndsLine(text, open, close, Square) && TrimSpaces(text, open) != last + 1
    requires LastClose(text, open) == Some(last) && LastOpen(text, last) == Some(paren)
    requires ReadingPairEnd(text[..close + 1], paren) == Some(close + 1)
    ensures ReadingPairEnd(text, paren).Some?
    ensures NextToken(text, paren + 1) == Some(first) && first.0 == paren + 1 && ArePaired(text, first, second)
    ensures first.1 < second.0 < open < second.1 && text[second.0 - 1].OpenBracket?
  {
    first := EndedPair(text, paren, close);
    second := RunsInside(text, open, close, last, first);
  }

  // ── Where the content begins and ends ────────────────────────────────────────

  /** No pair opens inside a leading enumerator. */
  lemma OpensPastStart(text: Text, start: nat, paren: nat)
    requires IsContentStart(text, start) && paren < |text| && text[paren].OpenParen?
    requires ReadingPairEnd(text, paren).Some?
    ensures start <= paren
  {
    if start > paren {
      var open: nat, close: nat, bracket :| IsLeading(text, open, close, bracket)
          && start == SkipSpaces(text, close + 1);
      PastLeading(text, open, close, bracket, paren);
    }
  }

  lemma PastLeading(text: Text, open: nat, close: nat, bracket: Bracket, paren: nat)
    requires IsLeading(text, open, close, bracket) && paren < |text| && text[paren].OpenParen?
    requires ReadingPairEnd(text, paren).Some?
    ensures SkipSpaces(text, close + 1) <= paren
  {
    if paren < open {
      SpacesRun(text, 0, paren);
    } else if close < paren < SkipSpaces(text, close + 1) {
      SpacesRun(text, close + 1, paren);
    } else if paren == open {
      PairEndInRest(text, open);
    }
  }

  /** A line has one final enumerator. */
  lemma OneFinal(text: Text, open: nat, close: nat, bracket: Bracket, end: nat)
    requires IsFinal(text, open, close, bracket) && IsContentEnd(text, end)
    ensures end == TrimSpaces(text, open)
  {
    var o: nat, c: nat, b :| IsFinal(text, o, c, b) && end == TrimSpaces(text, o);
    OneLast(text, close, o, c, b);
    OneOpen(text, o, open, close, bracket);
  }

  lemma StandsInLine(text: Text, paren: nat, first: Span, second: Span) returns (i: nat)
    requires paren < |text| && text[paren].OpenParen? && NextToken(text, paren + 1) == Some(first)
    requires ArePaired(text, first, second)
    ensures i + 1 < |LineTokens(text)|
    ensures LineTokens(text)[i].span == first && LineTokens(text)[i + 1].span == second
    ensures LineTokens(text)[i].position == LineTokens(text)[i + 1].position
  {
    LineWalks(text);
    i := PairStands(text, LineTokens(text), paren, first, second);
  }

  lemma CutSpans(text: Text, start: nat, end: nat, content: Content, first: Span, second: Span, open: nat)
    requires start < first.0 && first.1 < second.0 < open < second.1 <= |text| && text[second.0 - 1].OpenBracket?
    requires end == TrimSpaces(text, open) && content == (start, Max(start, end))
    ensures InContent(first, content) && !InContent(second, content)
  {
  }

  lemma Parts(tokens: seq<Token>, content: Content, t: Token, u: Token)
    requires t in tokens && u in tokens && t.position == u.position
    requires InContent(t.span, content) && !InContent(u.span, content)
    ensures !PartsNoPair(tokens, content)
  {
    assert Within(t, content) && !Within(u, content);
  }

  lemma ArePairedParts(text: Text, first: Span, second: Span) returns (shut: nat, open: nat, end: nat)
    requires ArePaired(text, first, second)
    ensures IsPair(text, first, shut, open, second, end)
    ensures first.0 < first.1 <= shut < open == second.0 - 1 < second.1 <= end < |text|
    ensures text[open].OpenBracket? && text[end].CloseBracket? && ReadingPairEnd(text, first.0 - 1).Some?
    ensures forall j :: second.0 <= j < second.1 ==> text[j].ContinuesToken()
  {
    var second';
    shut, open, second', end := PairParts(text, first);
    PairText(text, first, shut, open, second, end);
    NextTokenBounds(text, first.0);
    PairOpens(text, first);
  }

  /** A second reading that goes past the enumerator's beginning begins before it. */
  lemma BeginsBefore(text: Text, open: nat, close: nat, last: nat, first: Span, second: Span)
    requires EndsLine(text, open, close, Square) && TrimSpaces(text, open) != last + 1
    requires LastClose(text, open) == Some(last) && ArePaired(text, first, second) && open < second.1
    ensures 0 < first.0 < first.1 < second.0 < open < second.1 <= |text|
    ensures text[first.0 - 1].OpenParen? && text[second.0 - 1].OpenBracket?
    ensures ReadingPairEnd(text, first.0 - 1).Some?
  {
    var shut, open', end := ArePairedParts(text, first, second);
    PairMeetsMarker(text, open', second, end, open, close, Square);
    ClosedBefore(text, first, shut, open', second, open, close);
    BeginsInside(text, open, close, first, shut, open', second);
  }

  lemma RunsIntoEnd(text: Text, open: nat, close: nat, first: Span, second: Span)
    requires RunsInto(text, open, close) && ArePaired(text, first, second) && open < second.1
    ensures 0 < first.0 < first.1 < second.0 < open < second.1 <= |text|
    ensures text[first.0 - 1].OpenParen? && text[second.0 - 1].OpenBracket?
    ensures ReadingPairEnd(text, first.0 - 1).Some?
  {
    var last, paren := RunsIntoPair(text, open, close);
    BeginsBefore(text, open, close, last, first, second);
  }

  /** The pair lies over the end of the content, its second reading alone outside. */
  lemma LiesOverEnd(text: Text, content: Content, open: nat, close: nat, first: Span, second: Span)
    requires IsContentRange(text, content) && RunsInto(text, open, close)
    requires ArePaired(text, first, second) && open < second.1
    ensures 0 < first.0 <= |text| && text[first.0 - 1].OpenParen?
    ensures InContent(first, content) && !InContent(second, content) && second.1 > content.1
  {
    var start: nat, end: nat :| IsContentStart(text, start) && IsContentEnd(text, end)
        && content == (start, Max(start, end));
    OneFinal(text, open, close, Square, end);
    RunsIntoEnd(text, open, close, first, second);
    OpensPastStart(text, start, first.0 - 1);
    CutSpans(text, start, end, content, first, second, open);
  }

  /** A second reading that runs into the last enumerator is cut off from its first one. */
  lemma CutIsParted(text: Text, content: Content, open: nat, close: nat)
    requires IsContentRange(text, content) && RunsInto(text, open, close)
    ensures !PartsNoPair(LineTokens(text), content)
  {
    var last, paren := RunsIntoPair(text, open, close);
    var first, second := CutPair(text, open, close, last, paren);
    LiesOverEnd(text, content, open, close, first, second);
    var i := StandsInLine(text, paren, first, second);
    Parts(LineTokens(text), content, LineTokens(text)[i], LineTokens(text)[i + 1]);
  }

  // ── And nothing else is ──────────────────────────────────────────────────────

  /** Between the line's words and an enumerator there are only spaces. */
  lemma ReachesOpen(text: Text, second: Span, open: nat)
    requires open < |text| && second.0 < second.1 <= |text| && second.1 > TrimSpaces(text, open)
    requires forall j :: second.0 <= j < second.1 ==> text[j].ContinuesToken()
    ensures second.1 > open
  {
    assert text[second.1 - 1].ContinuesToken();
  }

  /** The bracket that opens the enumerator is one a token may hold, and the pair ends with it. */
  lemma PairMeetsMarker(text: Text, open': nat, second: Span, end: nat, open: nat, close: nat, bracket: Bracket)
    requires EndsLine(text, open, close, bracket) && open' + 1 == second.0 < second.1 <= end < |text|
    requires text[open'].OpenBracket? && text[end].CloseBracket? && second.1 > open
    requires forall j :: second.0 <= j < second.1 ==> text[j].ContinuesToken()
    ensures bracket.Square? && open' <= open && end == close
  {
    assert open' <= open;
    assert text[open].OpenBracket?;
  }

  lemma EndsAt(text: Text, first: Span, shut: nat, close: nat)
    requires 0 < first.0 <= first.1 <= |text| && text[first.0 - 1].OpenParen? && NextToken(text, first.0) == Some(first)
    requires PairedReadingAfter(text, first).Some? && PairedReadingAfter(text, first).value.afterPair == close + 1
    requires first.0 <= shut <= close < |text| && OnlyTrails(text, close + 1)
    requires forall j :: first.0 <= j < shut ==> !text[j].OpenParen?
    ensures ReadingEndsAt(text, shut, close + 1)
  {
    var paren := first.0 - 1;
    assert LastOpen(text, shut) == Some(paren);
    assert ReadingPairEnd(text, paren) == Some(close + 1);
    PairEndInFront(text, close + 1, paren);
  }

  lemma ClosedBefore(text: Text, first: Span, shut: nat, open': nat, second: Span, open: nat, close: nat)
    requires IsPair(text, first, shut, open', second, close) && NextToken(text, first.0) == Some(first)
    requires open' <= open < close
    ensures LastClose(text, open) == Some(shut)
  {
    PairText(text, first, shut, open', second, close);
    assert forall j :: shut < j < close ==> !text[j].CloseParen?;
  }

  lemma ReadingEnds(text: Text, first: Span, shut: nat, open': nat, second: Span, close: nat)
    requires IsPair(text, first, shut, open', second, close) && NextToken(text, first.0) == Some(first)
    requires OnlyTrails(text, close + 1)
    ensures ReadingEndsAt(text, shut, close + 1)
  {
    PairText(text, first, shut, open', second, close);
    PairIsPaired(text, first, shut, open', second, close);
    EndsAt(text, first, shut, close);
  }

  lemma RunsIntoIf(text: Text, shut: nat, open: nat, close: nat)
    requires IsFinal(text, open, close, Square) && LastClose(text, open) == Some(shut)
    requires ReadingEndsAt(text, shut, close + 1)
    ensures RunsInto(text, open, close)
  {
  }

  lemma PartedRunsInto(text: Text, first: Span, second: Span, open: nat, close: nat, bracket: Bracket)
    requires IsFinal(text, open, close, bracket) && ArePaired(text, first, second)
    requires second.1 > TrimSpaces(text, open)
    ensures bracket.Square? && RunsInto(text, open, close) && open < second.1
  {
    var shut, open', _, end := PairParts(text, first);
    PairText(text, first, shut, open', second, end);
    ReachesOpen(text, second, open);
    PairMeetsMarker(text, open', second, end, open, close, bracket);
    ClosedBefore(text, first, shut, open', second, open, close);
    ReadingEnds(text, first, shut, open', second, close);
    RunsIntoIf(text, shut, open, close);
  }

  lemma PairOpens(text: Text, first: Span)
    requires first.0 < first.1 <= |text| && NextToken(text, first.0) == Some(first)
    requires PairedReadingAfter(text, first).Some?
    ensures ReadingPairEnd(text, first.0 - 1).Some?
  {
    assert FirstLetter(text, first.0) == first.0;
  }

  /** What parts a pair is an enumerator at the line's end. */
  lemma PartedAtEnd(text: Text, content: Content, start: nat, end: nat, first: Span, second: Span)
    requires IsContentStart(text, start) && content == (start, Max(start, end)) && ArePaired(text, first, second)
    requires InContent(first, content) != InContent(second, content)
    ensures second.1 > end && second.1 <= |text|
  {
    var shut, open, _, close := PairParts(text, first);
    PairText(text, first, shut, open, second, close);
    NextTokenBounds(text, first.0);
    PairOpens(text, first);
    OpensPastStart(text, start, first.0 - 1);
  }

  lemma PartedIsCut(text: Text, content: Content, first: Span, second: Span) returns (open: nat, close: nat)
    requires IsContentRange(text, content) && ArePaired(text, first, second)
    requires InContent(first, content) != InContent(second, content)
    ensures RunsInto(text, open, close) && open < second.1 <= |text|
  {
    var start: nat, end: nat :| IsContentStart(text, start) && IsContentEnd(text, end)
        && content == (start, Max(start, end));
    PartedAtEnd(text, content, start, end, first, second);
    var o: nat, c: nat, bracket :| IsFinal(text, o, c, bracket) && end == TrimSpaces(text, o);
    open, close := o, c;
    PartedRunsInto(text, first, second, open, close, bracket);
  }

  /** The content's ends part no pair exactly when no second reading runs into the enumerator that ends
      the line. */
  lemma ContentPartsNoPair(text: Text, content: Content)
    requires IsContentRange(text, content)
    ensures PartsNoPair(LineTokens(text), content) <==> !CutsReading(text)
  {
    if CutsReading(text) {
      var open: nat, close: nat :| RunsInto(text, open, close);
      CutIsParted(text, content, open, close);
    } else if !PartsNoPair(LineTokens(text), content) {
      var tokens := LineTokens(text);
      var i, j :| 0 <= i < |tokens| && 0 <= j < |tokens| && tokens[i].position == tokens[j].position
                  && Within(tokens[i], content) && !Within(tokens[j], content);
      var a, b := if i < j then i else j, if i < j then j else i;
      LineWalks(text);
      SamePosition(text, tokens, a, b);
      var open, close := PartedIsCut(text, content, tokens[a].span, tokens[b].span);
    }
  }

  // ── What the edge vocabulary then misses ─────────────────────────────────────

  /** Of these words, one is among an edge's terms exactly when one is indexed at its position. */
  ghost predicate Decides(text: Text, edges: EdgePair, words: iset<Text>) {
    && (HasTerm(edges.startTerms, words) <==> HasWordAt(LineTokens(text), edges.first, words))
    && (HasTerm(edges.endTerms, words) <==> HasWordAt(LineTokens(text), edges.last, words))
  }

  /** The enumerator that ends the line runs into this pair, whose readings are not the same word. */
  ghost predicate LosesAt(text: Text, open: nat, close: nat, first: Span, second: Span) {
    && RunsInto(text, open, close) && ArePaired(text, first, second) && open < second.1 <= |text|
    && second.0 <= second.1 && IndexedAs(text[first.0..first.1]) != IndexedAs(text[second.0..second.1])
  }

  ghost predicate LosesReading(text: Text) {
    exists open: nat, close: nat, first, second :: LosesAt(text, open, close, first, second)
  }

  /** Readings the content's ends part are the same word, unless one is lost. */
  lemma PartedAlike(text: Text, content: Content, t: Token, u: Token)
    requires IsContentRange(text, content) && !LosesReading(text)
    requires t in LineTokens(text) && u in LineTokens(text) && t.position == u.position
    requires Within(t, content) && !Within(u, content)
    ensures t.text == u.text
  {
    var tokens := LineTokens(text);
    var i, j :| 0 <= i < |tokens| && 0 <= j < |tokens| && tokens[i] == t && tokens[j] == u;
    LineWalks(text);
    if i < j {
      PartedPairAlike(text, content, tokens, i, j);
    } else {
      PartedPairAlike(text, content, tokens, j, i);
    }
  }

  lemma PartedPairAlike(text: Text, content: Content, tokens: seq<Token>, i: nat, j: nat)
    requires IsContentRange(text, content) && !LosesReading(text) && IsWalk(text, 0, 0, tokens)
    requires i < j < |tokens| && tokens[i].position == tokens[j].position
    requires InContent(tokens[i].span, content) != InContent(tokens[j].span, content)
    ensures tokens[i].text == tokens[j].text
  {
    SamePosition(text, tokens, i, j);
    TokenText(text, tokens, i);
    TokenText(text, tokens, j);
    var open, close := PartedIsCut(text, content, tokens[i].span, tokens[j].span);
    assert !LosesAt(text, open, close, tokens[i].span, tokens[j].span);
  }

  lemma TokenText(text: Text, tokens: seq<Token>, i: nat)
    requires IsWalk(text, 0, 0, tokens) && i < |tokens|
    ensures tokens[i].span.0 < tokens[i].span.1 <= |text|
    ensures tokens[i].text == IndexedAs(text[tokens[i].span.0..tokens[i].span.1])
  {
    assert i == 0 || FollowsAt(text, tokens, i);
  }

  /** A content word stands where an edge is. */
  lemma ContentStands(tokens: seq<Token>, content: Content, position: nat) returns (t: Token)
    requires ContentAt(tokens, content, position) != []
    ensures t in tokens && Within(t, content) && t.position == position
  {
    if forall t :: t in tokens && Within(t, content) ==> t.position != position {
      NoContentAt(tokens, content, position);
    }
    t :| t in tokens && Within(t, content) && t.position == position;
  }

  lemma TermsAt(text: Text, content: Content, position: nat, words: iset<Text>)
    requires IsContentRange(text, content) && !LosesReading(text)
    requires ContentAt(LineTokens(text), content, position) != []
    ensures HasTerm(ContentAt(LineTokens(text), content, position), words)
        <==> HasWordAt(LineTokens(text), position, words)
  {
    var tokens := LineTokens(text);
    ContentAtHas(tokens, content, position, words);
    if HasWordAt(tokens, position, words) {
      var u :| u in tokens && u.position == position && u.text in words;
      if !Within(u, content) {
        var t := ContentStands(tokens, content, position);
        PartedAlike(text, content, t, u);
      }
    }
  }

  /** A pair over the end of the content is the last content position. */
  lemma LastIsCut(text: Text, tokens: seq<Token>, content: Content, i: nat, last: nat)
    requires IsWalk(text, 0, 0, tokens) && i + 1 < |tokens| && tokens[i].position == tokens[i + 1].position
    requires Within(tokens[i], content) && tokens[i + 1].span.1 > content.1
    requires ContentAt(tokens, content, last) != []
    requires forall t :: t in tokens && Within(t, content) ==> t.position <= last
    ensures last == tokens[i].position
  {
    var v := ContentStands(tokens, content, last);
    var k: nat :| k < |tokens| && tokens[k] == v;
    if k > i + 1 {
      SpansGrow(text, tokens, i + 1, k);
      TokenText(text, tokens, k);
    } else {
      PositionsGrow(text, tokens, k, i + 1);
    }
  }

  /** Of the two readings only the first is among the terms there. */
  lemma OnlyFirstIsTerm(text: Text, tokens: seq<Token>, content: Content, i: nat)
    requires IsWalk(text, 0, 0, tokens) && i + 1 < |tokens| && tokens[i].position == tokens[i + 1].position
    requires !Within(tokens[i + 1], content) && tokens[i].text != tokens[i + 1].text
    ensures !HasTerm(ContentAt(tokens, content, tokens[i].position), iset{tokens[i + 1].text})
    ensures HasWordAt(tokens, tokens[i].position, iset{tokens[i + 1].text})
  {
    var words := iset{tokens[i + 1].text};
    ContentAtHas(tokens, content, tokens[i].position, words);
    if t :| t in tokens && t.position == tokens[i].position && Within(t, content) && t.text in words {
      var k: nat :| k < |tokens| && tokens[k] == t;
      if k < i {
        SamePosition(text, tokens, k, i + 1);
      } else if k > i + 1 {
        SamePosition(text, tokens, i, k);
      }
    }
  }

  /** A pair over the end of the content leaves its second reading out of the line's last edge. */
  lemma SecondIsMissed(text: Text, content: Content, edges: EdgePair, first: Span, second: Span)
    requires AreEdges(text, content, edges) && ArePaired(text, first, second)
    requires 0 < first.0 <= first.1 <= |text| && text[first.0 - 1].OpenParen? && second.0 <= second.1 <= |text|
    requires InContent(first, content) && !InContent(second, content) && second.1 > content.1
    requires IndexedAs(text[first.0..first.1]) != IndexedAs(text[second.0..second.1])
    ensures !Decides(text, edges, iset{IndexedAs(text[second.0..second.1])})
  {
    var i := StandsInLine(text, first.0 - 1, first, second);
    LineWalks(text);
    MissedAt(text, LineTokens(text), content, i, first, second, edges.last);
  }

  lemma MissedAt(text: Text, tokens: seq<Token>, content: Content, i: nat, first: Span, second: Span, last: nat)
    requires IsWalk(text, 0, 0, tokens) && i + 1 < |tokens| && tokens[i].position == tokens[i + 1].position
    requires tokens[i].span == first && tokens[i + 1].span == second
    requires first.0 <= first.1 <= |text| && second.0 <= second.1 <= |text|
    requires InContent(first, content) && !InContent(second, content) && second.1 > content.1
    requires IndexedAs(text[first.0..first.1]) != IndexedAs(text[second.0..second.1])
    requires ContentAt(tokens, content, last) != []
    requires forall t :: t in tokens && Within(t, content) ==> t.position <= last
    ensures !HasTerm(ContentAt(tokens, content, last), iset{IndexedAs(text[second.0..second.1])})
    ensures HasWordAt(tokens, last, iset{IndexedAs(text[second.0..second.1])})
  {
    TokenText(text, tokens, i);
    TokenText(text, tokens, i + 1);
    LastIsCut(text, tokens, content, i, last);
    OnlyFirstIsTerm(text, tokens, content, i);
  }

  lemma LostIsMissed(text: Text, content: Content, edges: EdgePair, open: nat, close: nat, first: Span, second: Span)
    requires IsContentRange(text, content) && AreEdges(text, content, edges)
    requires LosesAt(text, open, close, first, second)
    ensures !Decides(text, edges, iset{IndexedAs(text[second.0..second.1])})
  {
    LiesOverEnd(text, content, open, close, first, second);
    SecondIsMissed(text, content, edges, first, second);
  }

  /** The edge vocabulary tells which words stand at a line's edges, exactly unless the enumerator that
      ends the line runs into a pair of two different words. */
  lemma EdgeTermsDecideLine(text: Text, content: Content, edges: EdgePair)
    requires IsContentRange(text, content) && AreEdges(text, content, edges)
    ensures (forall words :: Decides(text, edges, words)) <==> !LosesReading(text)
  {
    if LosesReading(text) {
      var open: nat, close: nat, first, second :| LosesAt(text, open, close, first, second);
      LostIsMissed(text, content, edges, open, close, first, second);
    } else {
      forall words ensures Decides(text, edges, words) {
        TermsAt(text, content, edges.first, words);
        TermsAt(text, content, edges.last, words);
      }
    }
  }

  /** What is stored of a line's edges: nothing when no word is content. */
  ghost predicate IsStored(text: Text, edges: Option<EdgePair>) {
    exists content :: IsContentRange(text, content) && StoredFor(text, content, edges)
  }

  ghost predicate StoredFor(text: Text, content: Content, edges: Option<EdgePair>) {
    match edges
    case None => forall t :: t in LineTokens(text) ==> !Within(t, content)
    case Some(pair) => AreEdges(text, content, pair)
  }

  method EdgesToStore(text: Text) returns (edges: Option<EdgePair>)
    ensures IsStored(text, edges)
    ensures edges.Some? ==> ((forall words :: Decides(text, edges.value, words)) <==> !LosesReading(text))
  {
    var content := ContentRange(text);
    edges := EdgesOfLine(text, content);
    assert StoredFor(text, content, edges);
    if edges.Some? {
      EdgeTermsDecideLine(text, content, edges.value);
    }
  }

  // ── A line that loses a reading ──────────────────────────────────────────────

  /** `(א) [ב[ג]`, where the bracketed gimel is taken for an enumerator. */
  const CUT_LINE: Text := [
    OpenParen, Letter(0x5D0), CloseParen, Space(0x20), OpenBracket, Letter(0x5D1), OpenBracket, Letter(0x5D2),
    CloseBracket]

  lemma CutLineReadings()
    ensures NextToken(CUT_LINE, 1) == Some((1, 2)) && NextToken(CUT_LINE, 5) == Some((5, 8))
    ensures PairedReadingAfter(CUT_LINE, (1, 2)) == Some(PairedReading(5, 8, 9))
  {
    var text := CUT_LINE;
    assert LookAhead(text, 2) == Look(0, 0, false, 0, 2);
    assert TokenEnd(text, 2) == 2;
    assert LookFrom(text, 7, NOTHING_YET) == Look(0, 0, false, 0, 7);
    assert LookAhead(text, 6) == Look(0, 0, false, 0, 7);
    assert LookFrom(text, 9, NOTHING_YET) == Look(0, 0, false, 0, 9);
    assert LookAhead(text, 8) == Look(0, 0, false, 0, 9);
    assert TokenEnd(text, 8) == 8;
    assert TokenEnd(text, 7) == 8;
    assert TokenEnd(text, 6) == 8;
    assert TokenEnd(text, 5) == 8;
    assert SkipSuffix(text, 2) == 2 && SkipSpaces(text, 4) == 4 && SkipSpaces(text, 3) == 4 && SkipSuffix(text, 8) == 8;
  }

  lemma CutLineEnds()
    ensures ReadingEndsAt(CUT_LINE, 2, 9)
  {
    CutLineReadings();
    assert LastOpen(CUT_LINE, 2) == Some(0);
    assert CUT_LINE[..9] == CUT_LINE;
    assert ReadingPairEnd(CUT_LINE, 0) == Some(9);
  }

  lemma CutLineFinal()
    ensures IsFinal(CUT_LINE, 6, 8, Square) && LastClose(CUT_LINE, 6) == Some(2)
  {
    assert TrimSpaces(CUT_LINE, 6) == 6;
    assert !ClosesPair(CUT_LINE, 6, 9);
  }

  lemma CutLineRunsInto()
    ensures RunsInto(CUT_LINE, 6, 8)
  {
    CutLineEnds();
    CutLineFinal();
    RunsIntoIf(CUT_LINE, 2, 6, 8);
  }

  lemma CutLineWords()
    ensures IndexedAs([Letter(0x5D0)]) == [Letter(0x5D0)]
    ensures IndexedAs([Letter(0x5D1), OpenBracket, Letter(0x5D2)]) == [Letter(0x5D1), Letter(0x5D2)]
  {
    var second := [Letter(0x5D1), OpenBracket, Letter(0x5D2)];
    assert IndexFold(second, 0, 0) == [];
    assert IndexFold(second, 0, 1) == [Letter(0x5D1)];
    assert IndexFold(second, 0, 2) == [Letter(0x5D1)];
    assert IndexFold(second, 0, 3) == [Letter(0x5D1), Letter(0x5D2)];
    assert NeedsNormalising(second[1]);
  }

  lemma LosesIf(text: Text, open: nat, close: nat, first: Span, second: Span, a: Text, b: Text)
    requires RunsInto(text, open, close) && ArePaired(text, first, second) && open < second.1 <= |text|
    requires second.0 <= second.1 && a == text[first.0..first.1] && b == text[second.0..second.1]
    requires IndexedAs(a) != IndexedAs(b)
    ensures LosesAt(text, open, close, first, second)
  {
  }

  lemma CutLineTexts() returns (first: Text, second: Text)
    ensures first == CUT_LINE[1..2] && second == CUT_LINE[5..8] && IndexedAs(first) != IndexedAs(second)
  {
    first, second := [Letter(0x5D0)], [Letter(0x5D1), OpenBracket, Letter(0x5D2)];
    CutLineWords();
  }

  lemma CutLinePaired()
    ensures ArePaired(CUT_LINE, (1, 2), (5, 8))
  {
    CutLineReadings();
  }

  lemma CutLineLoses()
    ensures LosesAt(CUT_LINE, 6, 8, (1, 2), (5, 8))
  {
    CutLinePaired();
    CutLineRunsInto();
    var first, second := CutLineTexts();
    LosesIf(CUT_LINE, 6, 8, (1, 2), (5, 8), first, second);
  }

  /** Its edge terms miss the second reading. */
  lemma CutLineIsLost(content: Content, edges: EdgePair)
    requires IsContentRange(CUT_LINE, content) && AreEdges(CUT_LINE, content, edges)
    ensures !Decides(CUT_LINE, edges, iset{IndexedAs(CUT_LINE[5..8])})
  {
    CutLineLoses();
    LostIsMissed(CUT_LINE, content, edges, 6, 8, (1, 2), (5, 8));
  }

  // ── A pair at either end stays ───────────────────────────────────────────────

  /** A second reading that ends the line is no enumerator: the content goes on to the line's end. */
  lemma PairAtEndStays(text: Text, end: nat, first: Span, shut: nat, open: nat, second: Span, close: nat)
    requires IsContentEnd(text, end) && IsPair(text, first, shut, open, second, close)
    requires NextToken(text, first.0) == Some(first) && IsEnumerator(text, open, close)
    requires forall i :: close < i < |text| ==> MayTrail(text[i])
    ensures end == |text|
  {
    EnumeratorsTrail(text, end, open, close);
    ClosesItsPair(text, first, shut, open, second, close);
  }

  lemma ClosesItsPair(text: Text, first: Span, shut: nat, open: nat, second: Span, close: nat)
    requires IsPair(text, first, shut, open, second, close) && NextToken(text, first.0) == Some(first)
    requires forall i :: close < i < |text| ==> MayTrail(text[i])
    ensures ClosesPair(text, open, close + 1)
  {
    ReadingEnds(text, first, shut, open, second, close);
    AfterParen(text, shut, open);
  }

  lemma AfterParen(text: Text, shut: nat, open: nat)
    requires shut < open <= |text| && text[shut].CloseParen? && forall k :: shut < k < open ==> text[k].Space?
    ensures TrimSpaces(text, open) == shut + 1
  {
  }

  /** A first reading that leads the line is no enumerator: the content begins with the line. */
  lemma PairAtStartStays(text: Text, start: nat, first: Span, shut: nat, open: nat, second: Span, close: nat)
    requires IsContentStart(text, start) && IsPair(text, first, shut, open, second, close)
    requires NextToken(text, first.0) == Some(first) && first.0 == SkipSpaces(text, 0) + 1
    ensures start == 0
  {
    PairIsPaired(text, first, shut, open, second, close);
    NextTokenBounds(text, first.0);
    PairOpens(text, first);
    OpensPastStart(text, start, first.0 - 1);
    SpacesAre(text, 0, first.0 - 1);
  }
}
