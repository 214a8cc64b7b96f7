/** The tokenizer over a line: the tokens it yields, and the positions they take. */
module TokenStreams {
  import opened Prelude
  import opened Tokenizer
  import opened TokenSlices
  import opened PairedReadings
  import opened QueryWords

  datatype Token = Token(text: Text, span: Span, position: nat)

  /** The tokens yielded from `at` on, `count` positions having been taken; the next token shares the
      last of them when it is a second reading. */
  function Yielded(text: Text, at: nat, count: nat, share: bool): seq<Token>
    requires at <= |text| && (share ==> count > 0)
    decreases |text| - at
  {
    match NextToken(text, at)
    case None => []
    case Some(span) =>
      TokenFits(text, at);
      var position := if share then count - 1 else count;
      [Token(IndexedAs(text[span.0..span.1]), span, position)]
      + Yielded(text, span.1, position + 1, PairedReadingAfter(text, span).Some?)
  }

  lemma YieldsFirst(text: Text, at: nat, count: nat, share: bool, span: Span)
    requires at <= |text| && (share ==> count > 0) && NextToken(text, at) == Some(span)
    ensures at <= span.0 < span.1 <= |text|
    ensures var position := if share then count - 1 else count;
            Yielded(text, at, count, share)
            == [Token(IndexedAs(text[span.0..span.1]), span, position)]
               + Yielded(text, span.1, position + 1, PairedReadingAfter(text, span).Some?)
  {
    TokenFits(text, at);
  }

  /** All the tokens of a line. */
  function LineTokens(text: Text): seq<Token> {
    Yielded(text, 0, 0, false)
  }

  /** What is yielded is what is indexed. */
  lemma {:induction false} YieldedAreIndexed(text: Text, at: nat, count: nat, share: bool)
    requires at <= |text| && (share ==> count > 0)
    ensures |Yielded(text, at, count, share)| == |IndexWords(text, at)|
    ensures forall i ::
              0 <= i < |IndexWords(text, at)| ==> Yielded(text, at, count, share)[i].text == IndexWords(text, at)[i]
    decreases |text| - at
  {
    if NextToken(text, at).Some? {
      TokenFits(text, at);
      var span := NextToken(text, at).value;
      var position := if share then count - 1 else count;
      var share' := PairedReadingAfter(text, span).Some?;
      YieldedAreIndexed(text, span.1, position + 1, share');
      IndexedCons(text[span.0..span.1], Tokens(text, span.1));
    }
  }

  // ── One word at each position ────────────────────────────────────────────────

  /** Token `j` is the last one at `position`, and its text is `word`. */
  ghost predicate LastAt(tokens: seq<Token>, j: nat, position: nat, word: Text) {
    && j < |tokens| && tokens[j].position == position && tokens[j].text == word
    && forall k :: j < k < |tokens| ==> tokens[k].position > position
  }

  ghost predicate IsLastAt(tokens: seq<Token>, position: nat, word: Text) {
    exists j: nat :: LastAt(tokens, j, position, word)
  }

  /** The words read are, position after position, the last ones yielded there. */
  ghost predicate ReadsLast(tokens: seq<Token>, base: nat, words: seq<Text>) {
    && (forall k :: 0 <= k < |tokens| ==> base <= tokens[k].position < base + |words|)
    && (forall i {:trigger words[i]} :: 0 <= i < |words| ==> IsLastAt(tokens, base + i, words[i]))
  }

  lemma LastAtLater(token: Token, tokens: seq<Token>, position: nat, word: Text)
    requires IsLastAt(tokens, position, word)
    ensures IsLastAt([token] + tokens, position, word)
  {
    var j: nat :| LastAt(tokens, j, position, word);
    var all := [token] + tokens;
    forall k | j + 1 < k < |all| ensures all[k].position > position {
      assert all[k] == tokens[k - 1];
    }
    assert LastAt(all, j + 1, position, word);
  }

  /** A token with a position of its own, before the rest. */
  lemma ReadsOneMore(token: Token, tokens: seq<Token>, words: seq<Text>)
    requires ReadsLast(tokens, token.position + 1, words)
    ensures ReadsLast([token] + tokens, token.position, [token.text] + words)
  {
    var all, read := [token] + tokens, [token.text] + words;
    forall k | 0 <= k < |all| ensures token.position <= all[k].position < token.position + |read| {
      assert k > 0 ==> all[k] == tokens[k - 1];
    }
    assert LastAt(all, 0, token.position, token.text);
    forall i | 0 <= i < |read| ensures IsLastAt(all, token.position + i, read[i]) {
      if i > 0 {
        assert read[i] == words[i - 1];
        LastAtLater(token, tokens, token.position + 1 + (i - 1), words[i - 1]);
      }
    }
  }

  /** A first reading, before its second one at the same position. */
  lemma ReadsPair(token: Token, tokens: seq<Token>, words: seq<Text>)
    requires ReadsLast(tokens, token.position, words) && words != []
    ensures ReadsLast([token] + tokens, token.position, words)
  {
    var all := [token] + tokens;
    forall k | 0 <= k < |all| ensures token.position <= all[k].position < token.position + |words| {
      assert k > 0 ==> all[k] == tokens[k - 1];
    }
    forall i | 0 <= i < |words| ensures IsLastAt(all, token.position + i, words[i]) {
      LastAtLater(token, tokens, token.position + i, words[i]);
    }
  }

  /** One token, and the words read from it on. */
  lemma ReadStep(text: Text, at: nat, span: Span)
    requires at <= |text| && NextToken(text, at) == Some(span)
    ensures at <= span.0 < span.1 <= |text|
    ensures PairedReadingAfter(text, span).Some? ==> ReadWords(text, at) == ReadWords(text, span.1) != []
    ensures PairedReadingAfter(text, span).None? ==>
              ReadWords(text, at) == [IndexedAs(text[span.0..span.1])] + ReadWords(text, span.1)
  {
    TokenFits(text, at);
    if PairedReadingAfter(text, span).Some? {
      PairReads(text, at, span);
      assert [] + ReadTokens(text, span.1) == ReadTokens(text, span.1);
    } else {
      IndexedCons(text[span.0..span.1], ReadTokens(text, span.1));
    }
  }

  lemma ReadsStep(token: Token, tokens: seq<Token>, words: seq<Text>, pair: bool, read: seq<Text>)
    requires ReadsLast(tokens, if pair then token.position else token.position + 1, words)
    requires read == if pair then words else [token.text] + words
    requires pair ==> words != []
    ensures ReadsLast([token] + tokens, token.position, read)
  {
    if pair {
      ReadsPair(token, tokens, words);
    } else {
      ReadsOneMore(token, tokens, words);
    }
  }

  lemma {:induction false} YieldedReadsLast(text: Text, at: nat, count: nat, share: bool)
    requires at <= |text| && (share ==> count > 0)
    ensures ReadsLast(Yielded(text, at, count, share), if share then count - 1 else count, ReadWords(text, at))
    decreases |text| - at
  {
    if NextToken(text, at).Some? {
      var span := NextToken(text, at).value;
      ReadStep(text, at, span);
      var position := if share then count - 1 else count;
      var token := Token(IndexedAs(text[span.0..span.1]), span, position);
      var pair := PairedReadingAfter(text, span).Some?;
      YieldedReadsLast(text, span.1, position + 1, pair);
      ReadsStep(token, Yielded(text, span.1, position + 1, pair), ReadWords(text, span.1), pair, ReadWords(text, at));
    }
  }

  /** The words a query asks for are one at each position of the line: the last one indexed there. */
  lemma ReadWordsAreOneAtEachPosition(text: Text, i: nat)
    requires i < |ReadWords(text, 0)|
    ensures IsLastAt(LineTokens(text), i, ReadWords(text, 0)[i])
    ensures forall k :: 0 <= k < |LineTokens(text)| ==> LineTokens(text)[k].position < |ReadWords(text, 0)|
  {
    YieldedReadsLast(text, 0, 0, false);
    assert IsLastAt(LineTokens(text), 0 + i, ReadWords(text, 0)[i]);
  }

  // ── The stream ───────────────────────────────────────────────────────────────

  class HebrewTokenStream {
    const text: Text
    var at: nat
    var tokenCount: nat
    var token: Token
    /** Whether the token before opened a pair. */
    var shareNextPosition: bool

    ghost predicate Valid()
      reads this
    {
      at <= |text| && (shareNextPosition ==> tokenCount > 0)
    }

    /** The tokens not yet yielded. */
    ghost function Left(): seq<Token>
      reads this
      requires Valid()
    {
      Yielded(text, at, tokenCount, shareNextPosition)
    }

    constructor (text: Text)
      ensures Valid() && this.text == text && Left() == LineTokens(text)
    {
      this.text := text;
      at, tokenCount, shareNextPosition := 0, 0, false;
      token := Token([], (0, 0), 0);
    }

    /** Yields the first of the tokens left. */
    method Advance() returns (more: bool)
      requires Valid()
      modifies this
      ensures Valid()
      ensures !more ==> old(Left()) == Left() == [] && token == old(token)
      ensures more ==> old(Left()) == [token] + Left()
      ensures more ==> at > old(at)
    {
      var next := NextTokenBoundaries(text, at);
      if next.None? {
        return false;
      }
      TokenFits(text, at);
      var (start, end) := next.value;
      var slow := false;
      for i := start to end
        invariant slow == MustFold(text, start, i)
      {
        slow := slow || NeedsNormalising(text[i]);
      }
      var out: Text := text[start..end];
      if slow {
        out := [];
        for i := start to end
          invariant out == IndexFold(text, start, i)
        {
          out := IndexPush(out, text[i]);
        }
      }
      IndexedInPlace(text, start, end);
      var position := if shareNextPosition then tokenCount - 1 else tokenCount;
      token := Token(out, (start, end), position);
      tokenCount := position + 1;
      shareNextPosition := PairedReadingAfter(text, (start, end)).Some?;
      at := end;
      more := true;
    }
  }
}
