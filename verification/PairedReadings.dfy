/** Paired readings `(X) [Y]` in a query: `Y` alone is asked for. */
module PairedReadings {
  import opened Prelude
  import opened Tokenizer
  import opened TokenSlices

  const SPACE := Space(0x20)

  /** No token opens a pair `(X) [Y]`. */
  predicate NoPairs(text: Text, from: nat)
    requires from <= |text|
    decreases |text| - from
  {
    match NextToken(text, from)
    case None => true
    case Some(token) =>
      NextTokenBounds(text, from);
      PairedReadingAfter(text, token).None? && NoPairs(text, token.1)
  }

  lemma {:induction false} NoPairsReadAll(text: Text, from: nat)
    requires from <= |text| && NoPairs(text, from)
    ensures ReadTokens(text, from) == Tokens(text, from)
    decreases |text| - from
  {
    if NextToken(text, from).Some? {
      NextTokenBounds(text, from);
      NoPairsReadAll(text, NextToken(text, from).value.1);
    }
  }

  /** The query from `copied` on, with the pairs from `pos` on replaced. */
  function KeptFrom(query: Text, copied: nat, pos: nat): Text
    requires copied <= pos <= |query| && NotInParen(query, pos)
    decreases |query| - pos
  {
    match NextToken(query, pos)
    case None => query[copied..]
    case Some(token) =>
      TokenLeavesParen(query, pos, token);
      match PairedReadingAfter(query, token)
      case None => KeptFrom(query, copied, token.1)
      case Some(pair) => PairReplaced(query, copied, token, pair) + KeptFrom(query, pair.afterPair, pair.afterPair)
  }

  /** No parenthesis opens right before `pos`. */
  predicate NotInParen(query: Text, pos: nat) {
    0 < pos <= |query| ==> !query[pos - 1].OpenParen?
  }

  lemma TokenLeavesParen(query: Text, pos: nat, token: Span)
    requires pos <= |query| && NotInParen(query, pos) && NextToken(query, pos) == Some(token)
    ensures pos <= token.0 < token.1 <= |query| && NotInParen(query, token.1)
    ensures PairedReadingAfter(query, token).Some? ==>
              pos < token.0 && token.1 < PairedReadingAfter(query, token).value.afterPair <= |query|
    ensures PairedReadingAfter(query, token).Some? ==>
              NotInParen(query, PairedReadingAfter(query, token).value.afterPair)
  {
    NextTokenBounds(query, pos);
    assert query[token.1 - 1].ContinuesToken();
  }

  lemma KeptPastToken(query: Text, copied: nat, pos: nat, token: Span)
    requires copied <= pos <= |query| && NotInParen(query, pos) && NextToken(query, pos) == Some(token)
    requires token.0 <= token.1 <= |query| && PairedReadingAfter(query, token).None?
    ensures pos < token.1 && NotInParen(query, token.1)
    ensures KeptFrom(query, copied, pos) == KeptFrom(query, copied, token.1)
  {
    TokenLeavesParen(query, pos, token);
  }

  lemma KeptAtPair(query: Text, copied: nat, pos: nat, token: Span, pair: PairedReading, out: Text)
    requires copied <= pos < token.0 <= token.1 <= |query| && NotInParen(query, pos)
    requires NextToken(query, pos) == Some(token)
    requires PairedReadingAfter(query, token) == Some(pair)
    ensures pair.afterPair <= |query| && NotInParen(query, pair.afterPair)
    ensures out + KeptFrom(query, copied, pos)
         == out + PairReplaced(query, copied, token, pair) + KeptFrom(query, pair.afterPair, pair.afterPair)
  {
    TokenLeavesParen(query, pos, token);
    Regroup(out, PairReplaced(query, copied, token, pair), KeptFrom(query, pair.afterPair, pair.afterPair));
  }

  lemma KeptAtEnd(query: Text, copied: nat, pos: nat, out: Text)
    requires copied <= pos <= |query| && NotInParen(query, pos) && NextToken(query, pos) == None
    requires copied == 0 ==> out == []
    ensures out + KeptFrom(query, copied, pos) == if copied == 0 then query else out + query[copied..]
  {
    if copied == 0 {
      WholeSlice(query);
      NothingBefore(query);
    }
  }

  /** A pair `(X) [Y]` pasted into a query keeps `Y` alone. */
  method KeepSecondOfPairs(query: Text) returns (kept: Text)
    ensures kept == KeptFrom(query, 0, 0)
  {
    var out: Text := [];
    var copied: nat, pos: nat := 0, 0;
    NothingBefore(KeptFrom(query, 0, 0));
    while true
      invariant copied <= pos <= |query| && NotInParen(query, pos) && (copied == 0 ==> out == [])
      invariant out + KeptFrom(query, copied, pos) == KeptFrom(query, 0, 0)
      decreases |query| - pos
    {
      var token := NextTokenBoundaries(query, pos);
      if token.None? {
        KeptAtEnd(query, copied, pos, out);
        break;
      }
      TokenLeavesParen(query, pos, token.value);
      var pair := PairedReadingAfter(query, token.value);
      if pair.None? {
        KeptPastToken(query, copied, pos, token.value);
        pos := token.value.1;
      } else {
        KeptAtPair(query, copied, pos, token.value, pair.value, out);
        out := out + PairReplaced(query, copied, token.value, pair.value);
        copied := pair.value.afterPair;
        pos := copied;
      }
    }
    kept := if copied == 0 then query else out + query[copied..];
  }

  /** What precedes the pair, then `Y` on its own between spaces. */
  function PairReplaced(query: Text, copied: nat, token: Span, pair: PairedReading): Text
    requires copied < token.0 <= |query| && pair.start <= pair.end <= |query|
  {
    query[copied..token.0 - 1] + [SPACE] + query[pair.start..pair.end] + [SPACE]
  }

  // ── What the replaced text reads as ──────────────────────────────────────────

  lemma TokensAcrossSpace(a: Text, b: Text)
    ensures Tokens(a + [SPACE] + b, 0) == Tokens(a, 0) + Tokens(b, 0)
  {
    var text := a + [SPACE] + b;
    TokensAcross(text, |a|);
    assert text[0..|a|] == a;
    assert text[|a| + 1..|text|] == b;
  }

  /** After a pair's first reading comes its second, and then what follows the pair. */
  lemma PairReads(query: Text, pos: nat, token: Span)
    requires pos <= |query| && NextToken(query, pos) == Some(token)
    requires token.0 <= token.1 <= |query| && PairedReadingAfter(query, token).Some?
    ensures var pair := PairedReadingAfter(query, token).value;
            pair.start <= pair.end <= pair.afterPair <= |query|
            && ReadTokens(query, pos) == [query[pair.start..pair.end]] + ReadTokens(query, pair.afterPair)
  {
    var pair := PairedReadingAfter(query, token).value;
    SecondReadingIsNext(query, token);
    assert PairedReadingAfter(query, (pair.start, pair.end)).None?;
    SameNextSameTokens(query, pair.end, pair.afterPair);
  }

  lemma SameEnds(a: seq<Text>, b: seq<Text>, end: seq<Text>)
    requires a + end == b + end
    ensures a == b
  {
    assert |a| == |b|;
    assert a == (a + end)[..|a|] && b == (b + end)[..|b|];
  }

  /** `tokens` are those between `copied` and `pos`. */
  lemma {:induction false} KeptReads(query: Text, copied: nat, pos: nat, tokens: seq<Text>)
    requires copied <= pos <= |query| && NotInParen(query, pos)
    requires Tokens(query, copied) == tokens + Tokens(query, pos)
    ensures Tokens(KeptFrom(query, copied, pos), 0) == tokens + ReadTokens(query, pos)
    decreases |query| - pos
  {
    match NextToken(query, pos)
    case None =>
      TokensOfStretch(query, copied, |query|, 0);
      assert query[copied..|query|] == query[copied..];
    case Some(token) =>
      TokenLeavesParen(query, pos, token);
      match PairedReadingAfter(query, token)
      case None =>
        var one := [query[token.0..token.1]];
        Regroup(tokens, one, Tokens(query, token.1));
        Regroup(tokens, one, ReadTokens(query, token.1));
        KeptReads(query, copied, token.1, tokens + one);
      case Some(pair) =>
        var rest := KeptFrom(query, pair.afterPair, pair.afterPair);
        NothingBefore(Tokens(query, pair.afterPair));
        KeptReads(query, pair.afterPair, pair.afterPair, []);
        NothingBefore(ReadTokens(query, pair.afterPair));
        PairStep(query, copied, pos, tokens, token, pair, rest);
  }

  lemma RegroupPair(before: Text, y: Text, rest: Text)
    ensures before + [SPACE] + y + [SPACE] + rest == before + [SPACE] + (y + [SPACE] + rest)
  {
  }

  /** The tokens before a pair's parenthesis. */
  lemma BeforePair(query: Text, copied: nat, pos: nat, token: Span, tokens: seq<Text>)
    requires copied <= pos < token.0 <= |query| && NextToken(query, pos) == Some(token)
    requires query[token.0 - 1].OpenParen?
    requires Tokens(query, copied) == tokens + Tokens(query, pos)
    ensures Tokens(query[copied..token.0 - 1], 0) == tokens
  {
    var open := token.0 - 1;
    NothingUpToParen(query, pos, token);
    TokensOfStretch(query, copied, open, 0);
    SameNextSameTokens(query, pos, open);
    SameEnds(tokens, Tokens(query[copied..open], 0), Tokens(query, pos));
  }

  lemma NothingUpToParen(query: Text, pos: nat, token: Span)
    requires pos < token.0 <= |query| && NextToken(query, pos) == Some(token)
    ensures NextToken(query, pos) == NextToken(query, token.0 - 1)
  {
    NoneBeforeFirst(query, pos);
    SkipToToken(query, pos, token.0 - 1);
  }

  lemma SecondAlone(query: Text, token: Span, pair: PairedReading)
    requires token.0 <= token.1 <= |query| && PairedReadingAfter(query, token) == Some(pair)
    ensures Tokens(query[pair.start..pair.end], 0) == [query[pair.start..pair.end]]
  {
    TokenFits(query, pair.start);
    OneTokenAlone(query, (pair.start, pair.end));
  }

  lemma PairKept(query: Text, copied: nat, tokens: seq<Text>, token: Span, pair: PairedReading, rest: Text)
    requires copied < token.0 <= |query| && pair.start <= pair.end <= |query|
    requires Tokens(query[copied..token.0 - 1], 0) == tokens
    requires Tokens(query[pair.start..pair.end], 0) == [query[pair.start..pair.end]]
    ensures Tokens(PairReplaced(query, copied, token, pair) + rest, 0)
         == tokens + [query[pair.start..pair.end]] + Tokens(rest, 0)
  {
    BetweenSpaces(query[copied..token.0 - 1], query[pair.start..pair.end], rest);
  }

  lemma PairStep(query: Text, copied: nat, pos: nat, tokens: seq<Text>, token: Span, pair: PairedReading, rest: Text)
    requires copied <= pos < token.0 <= token.1 <= |query| && NextToken(query, pos) == Some(token)
    requires PairedReadingAfter(query, token) == Some(pair)
    requires Tokens(query, copied) == tokens + Tokens(query, pos)
    requires Tokens(rest, 0) == ReadTokens(query, pair.afterPair)
    ensures Tokens(PairReplaced(query, copied, token, pair) + rest, 0) == tokens + ReadTokens(query, pos)
  {
    PairReads(query, pos, token);
    BeforePair(query, copied, pos, token, tokens);
    SecondAlone(query, token, pair);
    PairKept(query, copied, tokens, token, pair, rest);
    Regroup(tokens, [query[pair.start..pair.end]], Tokens(rest, 0));
  }

  lemma BetweenSpaces(before: Text, y: Text, rest: Text)
    ensures Tokens(before + [SPACE] + y + [SPACE] + rest, 0)
         == Tokens(before, 0) + Tokens(y, 0) + Tokens(rest, 0)
  {
    TokensAcrossSpace(before, y + [SPACE] + rest);
    TokensAcrossSpace(y, rest);
    RegroupPair(before, y, rest);
    Regroup(Tokens(before, 0), Tokens(y, 0), Tokens(rest, 0));
  }

}
