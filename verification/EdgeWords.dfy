/** What a line's edges mean: the first and last positions of content words, and the words there. */
module EdgeWords {
  import opened Prelude
  import opened Tokenizer
  import opened TokenSlices
  import opened QueryWords
  import opened TokenStreams
  import opened LineEdges

  predicate Within(token: Token, content: Content) {
    InContent(token.span, content)
  }

  /** The content words at a position, in order. */
  function ContentAt(tokens: seq<Token>, content: Content, position: nat): seq<Text> {
    if tokens == [] then []
    else
      var token := tokens[|tokens| - 1];
      ContentAt(tokens[..|tokens| - 1], content, position)
      + if token.position == position && Within(token, content) then [token.text] else []
  }

  lemma ContentAtMore(tokens: seq<Token>, token: Token, content: Content, position: nat)
    ensures ContentAt(tokens + [token], content, position)
         == ContentAt(tokens, content, position)
            + if token.position == position && Within(token, content) then [token.text] else []
  {
    assert (tokens + [token])[..|tokens|] == tokens;
  }

  lemma {:induction false} NoContentAt(tokens: seq<Token>, content: Content, position: nat)
    requires forall t :: t in tokens && Within(t, content) ==> t.position != position
    ensures ContentAt(tokens, content, position) == []
  {
    if tokens != [] {
      NoContentAt(tokens[..|tokens| - 1], content, position);
    }
  }

  // ── A pair's two readings are one edge ───────────────────────────────────────

  /** Up to its closing parenthesis a first reading is one token. */
  lemma FirstReadingAlone(text: Text, x: Span, close: nat)
    requires x.0 < x.1 <= close <= |text| && NextToken(text, x.0) == Some(x) && Stops(text, close)
    requires NextToken(text, x.1).Some? ==> NextToken(text, x.1).value.0 >= close
    ensures Tokens(text[x.0..close], 0) == [text[x.0..x.1]]
  {
    var inside := text[x.0..close];
    NextInStretch(text, x.0, close, 0);
    if NextToken(inside, 0).None? {
      if NextToken(text, close).Some? {
        TokenFits(text, close);
      }
    }
    NextInStretch(text, x.0, close, x.1 - x.0);
    assert NextToken(inside, 0) == Some((0, x.1 - x.0));
    assert Tokens(inside, x.1 - x.0) == [];
  }

  /** From the closing parenthesis on, the second reading is the one token. */
  lemma SecondReadingAlone(text: Text, close: nat, y: Span)
    requires close <= y.0 < y.1 <= |text| && NextToken(text, close) == NextToken(text, y.0) == Some(y)
    ensures Tokens(text[close..y.1], 0) == [text[y.0..y.1]]
  {
    var inside, start := text[close..y.1], y.0 - close;
    LetterInStretch(text, close, y.1, 0);
    SliceAt(text, close, y.1, y.0);
    FirstLetterBefore(inside, start);
    SameNextSameTokens(inside, 0, start);
    TokensOfRest(inside, start);
    SliceOfSlice(text, close, y.1, start, y.1 - close);
    OneTokenAlone(text, y);
  }

  /** With a letter at `i` and none found later, the first letter is at most there. */
  lemma {:induction false} FirstLetterBefore(text: Text, i: nat)
    requires i < |text| && text[i].Letter? && FirstLetter(text, 0) >= i
    ensures NextToken(text, 0) == NextToken(text, i)
  {
    NoneBeforeFirst(text, 0);
    SkipToToken(text, 0, i);
  }

  /** A stretch cut where no token goes on. */
  lemma TokensCut(text: Text, lo: nat, cut: nat, hi: nat)
    requires lo <= cut < hi <= |text| && !text[cut].ContinuesToken()
    ensures Tokens(text[lo..hi], 0) == Tokens(text[lo..cut], 0) + Tokens(text[cut..hi], 0)
  {
    var whole := text[lo..hi];
    SliceAt(text, lo, hi, cut);
    TokensSplit(whole, cut - lo);
    SliceOfSlice(text, lo, hi, 0, cut - lo);
    SliceOfSlice(text, lo, hi, cut - lo, hi - lo);
  }

  /** Where a first reading's parenthesis closes, and what follows it. */
  lemma PairShape(text: Text, x: Span) returns (close: nat)
    requires x.0 <= x.1 <= |text| && PairedReadingAfter(text, x).Some?
    ensures var pair := PairedReadingAfter(text, x).value;
            && x.1 <= close < pair.start < pair.end <= |text| && text[close].CloseParen?
            && NextToken(text, x.1) == NextToken(text, pair.start) == Some((pair.start, pair.end))
            && NextToken(text, close) == Some((pair.start, pair.end))
  {
    close := SkipSuffix(text, x.1);
    SecondReadingIsNext(text, x);
    TokenFits(text, x.1);
    NoLetterInSuffix(text, x.1);
  }

  /** From one reading's start to the other's end there are the two readings. */
  lemma PairTokens(text: Text, x: Span)
    requires x.0 < x.1 <= |text| && NextToken(text, x.0) == Some(x) && PairedReadingAfter(text, x).Some?
    ensures var pair := PairedReadingAfter(text, x).value;
            x.1 < pair.start < pair.end <= |text|
            && Tokens(text[x.0..pair.end], 0) == [text[x.0..x.1], text[pair.start..pair.end]]
  {
    var close := PairShape(text, x);
    var pair := PairedReadingAfter(text, x).value;
    FirstReadingAlone(text, x, close);
    SecondReadingAlone(text, close, (pair.start, pair.end));
    TokensCut(text, x.0, close, pair.end);
  }

  // ── The walk's edges ─────────────────────────────────────────────────────────

  /** The edge lies where the line has content words at its position, and holds just them. */
  ghost predicate Holds(text: Text, content: Content, tokens: seq<Token>, edge: Edge) {
    && edge.start < edge.end <= |text|
    && IndexWords(text[edge.start..edge.end], 0) == ContentAt(tokens, content, edge.position) != []
  }

  ghost predicate IsFirst(text: Text, content: Content, tokens: seq<Token>, first: Option<Edge>) {
    match first
    case None => forall t :: t in tokens ==> !Within(t, content)
    case Some(edge) =>
      && Holds(text, content, tokens, edge)
      && forall t :: t in tokens && Within(t, content) ==> edge.position <= t.position
  }

  ghost predicate IsLast(text: Text, content: Content, tokens: seq<Token>, last: Option<Edge>) {
    match last
    case None => forall t :: t in tokens ==> !Within(t, content)
    case Some(edge) =>
      && Holds(text, content, tokens, edge)
      && forall t :: t in tokens && Within(t, content) ==> t.position <= edge.position
  }

  /** `x` is the only token at its position so far, and an edge there is `x` itself. */
  ghost predicate IsOpen(text: Text, content: Content, before: seq<Token>, x: Token, scan: Scan) {
    && x.span.0 < x.span.1 == scan.at <= |text| && x.position == scan.count - 1
    && NextToken(text, x.span.0) == Some(x.span) && PairedReadingAfter(text, x.span).Some?
    && x.text == IndexedAs(text[x.span.0..x.span.1])
    && (forall t :: t in before ==> t.position < x.position)
    && (scan.first.Some? && scan.first.value.position == x.position ==>
          Within(x, content) && scan.first.value == Edge(x.position, x.span.0, x.span.1))
    && (scan.last.Some? && scan.last.value.position == x.position ==>
          Within(x, content) && scan.last.value == Edge(x.position, x.span.0, x.span.1))
  }

  /** What a walk that has yielded `tokens` knows. */
  ghost predicate Explains(text: Text, content: Content, tokens: seq<Token>, scan: Scan) {
    && scan.at <= |text| && (forall t :: t in tokens ==> t.position < scan.count)
    && IsFirst(text, content, tokens, scan.first) && IsLast(text, content, tokens, scan.last)
    && (scan.first.Some? ==> scan.first.value.position < scan.count)
    && (scan.last.Some? ==> scan.last.value.position < scan.count)
    && (scan.share ==> tokens != [] && IsOpen(text, content, tokens[..|tokens| - 1], tokens[|tokens| - 1], scan))
  }

  /** The token a walk takes next. */
  function TokenAt(text: Text, scan: Scan, span: Span): Token
    requires Sane(scan) && span.0 <= span.1 <= |text|
  {
    Token(IndexedAs(text[span.0..span.1]), span, PositionOf(scan))
  }

  lemma OneWord(text: Text, span: Span)
    requires span.0 < span.1 <= |text| && NextToken(text, span.0) == Some(span)
    ensures IndexWords(text[span.0..span.1], 0) == [IndexedAs(text[span.0..span.1])]
  {
    OneTokenAlone(text, span);
  }

  lemma TwoWords(text: Text, x: Span, y: Span)
    requires x.0 < x.1 <= |text| && NextToken(text, x.0) == Some(x) && PairedReadingAfter(text, x).Some?
    requires NextToken(text, x.1) == Some(y)
    ensures x.1 < y.0 < y.1 <= |text| && PairedReadingAfter(text, y).None?
    ensures IndexWords(text[x.0..y.1], 0) == [IndexedAs(text[x.0..x.1]), IndexedAs(text[y.0..y.1])]
  {
    SecondReadingIsNext(text, x);
    PairTokens(text, x);
  }

  /** A content word past all the others is an edge of its own. */
  lemma NewEdge(text: Text, content: Content, tokens: seq<Token>, token: Token)
    requires token.span.0 < token.span.1 <= |text| && NextToken(text, token.span.0) == Some(token.span)
    requires token.text == IndexedAs(text[token.span.0..token.span.1]) && Within(token, content)
    requires forall t :: t in tokens && Within(t, content) ==> t.position != token.position
    ensures Holds(text, content, tokens + [token], Edge(token.position, token.span.0, token.span.1))
  {
    OneWord(text, token.span);
    NoContentAt(tokens, content, token.position);
    ContentAtMore(tokens, token, content, token.position);
  }

  lemma KeptEdge(text: Text, content: Content, tokens: seq<Token>, token: Token, edge: Edge)
    requires Holds(text, content, tokens, edge)
    requires Within(token, content) ==> token.position != edge.position
    ensures Holds(text, content, tokens + [token], edge)
  {
    ContentAtMore(tokens, token, content, edge.position);
  }

  /** A second reading extends its first one's edge. */
  lemma LongerEdge(text: Text, content: Content, before: seq<Token>, x: Token, y: Token, scan: Scan)
    requires IsOpen(text, content, before, x, scan) && Within(x, content) && Within(y, content)
    requires NextToken(text, scan.at) == Some(y.span) && y.span.0 <= y.span.1 <= |text|
    requires y.text == IndexedAs(text[y.span.0..y.span.1]) && y.position == x.position
    ensures Holds(text, content, before + [x] + [y], Edge(x.position, x.span.0, y.span.1))
  {
    TwoWords(text, x.span, y.span);
    NoContentAt(before, content, x.position);
    ContentAtMore(before, x, content, x.position);
    ContentAtMore(before + [x], y, content, x.position);
  }

  /** A walk that knows its tokens takes the next one. */
  ghost predicate Takes(text: Text, content: Content, tokens: seq<Token>, scan: Scan, token: Token) {
    && Sane(scan) && Explains(text, content, tokens, scan) && NextToken(text, scan.at) == Some(token.span)
    && scan.at <= token.span.0 < token.span.1 <= |text| && token == TokenAt(text, scan, token.span)
    && NextToken(text, token.span.0) == Some(token.span)
  }

  lemma StepFirst(text: Text, content: Content, tokens: seq<Token>, scan: Scan, token: Token)
    requires Takes(text, content, tokens, scan, token) && Within(token, content)
    ensures IsFirst(text, content, tokens + [token], WithFirst(scan.first, token.position, token.span))
  {
    match scan.first
    case None => NewEdge(text, content, tokens, token);
    case Some(edge) =>
      if edge.position == token.position {
        ExtendedEdge(text, content, tokens, scan, token, edge);
      } else {
        KeptEdge(text, content, tokens, token, edge);
      }
  }

  lemma StepLast(text: Text, content: Content, tokens: seq<Token>, scan: Scan, token: Token)
    requires Takes(text, content, tokens, scan, token) && Within(token, content)
    ensures IsLast(text, content, tokens + [token], WithLast(scan.last, token.position, token.span))
  {
    if scan.last.Some? && scan.last.value.position == token.position {
      ExtendedEdge(text, content, tokens, scan, token, scan.last.value);
    } else {
      NewEdge(text, content, tokens, token);
    }
  }

  lemma ExtendedEdge(text: Text, content: Content, tokens: seq<Token>, scan: Scan, token: Token, edge: Edge)
    requires Takes(text, content, tokens, scan, token) && Within(token, content)
    requires scan.first == Some(edge) || scan.last == Some(edge)
    requires edge.position == token.position
    ensures Holds(text, content, tokens + [token], edge.(end := token.span.1))
  {
    SharesPosition(text, content, tokens, scan, token, edge);
    var before, x := tokens[..|tokens| - 1], tokens[|tokens| - 1];
    assert tokens == before + [x];
    LongerEdge(text, content, before, x, token, scan);
  }

  /** A token at an edge's position is a second reading. */
  lemma SharesPosition(text: Text, content: Content, tokens: seq<Token>, scan: Scan, token: Token, edge: Edge)
    requires Takes(text, content, tokens, scan, token)
    requires scan.first == Some(edge) || scan.last == Some(edge)
    requires edge.position == token.position
    ensures tokens != []
    ensures var x := tokens[|tokens| - 1];
            && IsOpen(text, content, tokens[..|tokens| - 1], x, scan) && Within(x, content)
            && token.position == x.position && edge == Edge(x.position, x.span.0, x.span.1)
  {
  }

  /** A word outside the content changes no edge. */
  lemma StepOutside(text: Text, content: Content, tokens: seq<Token>, scan: Scan, token: Token)
    requires Takes(text, content, tokens, scan, token) && !Within(token, content)
    ensures IsFirst(text, content, tokens + [token], scan.first) && IsLast(text, content, tokens + [token], scan.last)
  {
    if scan.first.Some? {
      KeptEdge(text, content, tokens, token, scan.first.value);
    }
    if scan.last.Some? {
      KeptEdge(text, content, tokens, token, scan.last.value);
    }
  }

  /** What opens a pair is the only token at its position. */
  lemma StepOpens(text: Text, content: Content, tokens: seq<Token>, scan: Scan, token: Token)
    requires Takes(text, content, tokens, scan, token) && PairedReadingAfter(text, token.span).Some?
    ensures IsOpen(text, content, tokens, token, Stepped(text, content, scan, token.span))
  {
    if scan.share {
      TwoWords(text, tokens[|tokens| - 1].span, token.span);
    }
  }

  lemma StepExplains(text: Text, content: Content, tokens: seq<Token>, scan: Scan, token: Token)
    requires Takes(text, content, tokens, scan, token)
    ensures Explains(text, content, tokens + [token], Stepped(text, content, scan, token.span))
  {
    if Within(token, content) {
      StepFirst(text, content, tokens, scan, token);
      StepLast(text, content, tokens, scan, token);
    } else {
      StepOutside(text, content, tokens, scan, token);
    }
    if PairedReadingAfter(text, token.span).Some? {
      StepOpens(text, content, tokens, scan, token);
      assert (tokens + [token])[..|tokens|] == tokens;
    }
  }

  lemma StepsOn(text: Text, content: Content, scan: Scan, span: Span)
    requires Sane(scan) && span.0 <= span.1 <= |text|
    ensures var next := Stepped(text, content, scan, span);
            && next.at == span.1 && Sane(next) && next.count == PositionOf(scan) + 1
            && next.share == PairedReadingAfter(text, span).Some?
  {
  }

  lemma YieldsNext(text: Text, scan: Scan, span: Span, next: Scan)
    requires scan.at <= |text| && Sane(scan) && NextToken(text, scan.at) == Some(span)
    requires scan.at <= span.0 < span.1 <= |text|
    requires next.at == span.1 && Sane(next) && next.count == PositionOf(scan) + 1
    requires next.share == PairedReadingAfter(text, span).Some?
    ensures Yielded(text, scan.at, scan.count, scan.share)
         == [TokenAt(text, scan, span)] + Yielded(text, next.at, next.count, next.share)
  {
    YieldsFirst(text, scan.at, scan.count, scan.share, span);
  }

  lemma TakesNext(text: Text, content: Content, tokens: seq<Token>, scan: Scan, span: Span)
    requires Sane(scan) && Explains(text, content, tokens, scan) && NextToken(text, scan.at) == Some(span)
    ensures scan.at <= span.0 < span.1 <= |text|
    ensures Explains(text, content, tokens + [TokenAt(text, scan, span)], Stepped(text, content, scan, span))
  {
    TokenFits(text, scan.at);
    StepExplains(text, content, tokens, scan, TokenAt(text, scan, span));
  }

  /** The walk to the end knows every token of the line. */
  lemma {:induction false} WalkExplains(text: Text, content: Content, tokens: seq<Token>, scan: Scan)
    requires scan.at <= |text| && Sane(scan) && Explains(text, content, tokens, scan)
    ensures Explains(text, content, tokens + Yielded(text, scan.at, scan.count, scan.share),
                     Finished(text, content, scan))
    decreases |text| - scan.at
  {
    match NextToken(text, scan.at)
    case None =>
      assert tokens + [] == tokens;
    case Some(span) =>
      TakesNext(text, content, tokens, scan, span);
      StepsOn(text, content, scan, span);
      var token, next := TokenAt(text, scan, span), Stepped(text, content, scan, span);
      YieldsNext(text, scan, span, next);
      WalkExplains(text, content, tokens + [token], next);
      Regroup(tokens, [token], Yielded(text, next.at, next.count, next.share));
  }

  /** The two edges are the least and greatest positions that content words take, each with just the
      words there, both readings of a pair included. */
  lemma EdgesAreContentWords(text: Text, content: Content)
    ensures var (first, last) := Reference(text, content);
            IsFirst(text, content, LineTokens(text), first) && IsLast(text, content, LineTokens(text), last)
  {
    WalkExplains(text, content, [], START);
    assert [] + LineTokens(text) == LineTokens(text);
  }

  // ── Edge terms ───────────────────────────────────────────────────────────────

  datatype EdgePair = EdgePair(first: nat, last: nat, startTerms: seq<Text>, endTerms: seq<Text>)

  /** The words of an edge, read off the line again. */
  method EdgeTerms(text: Text, edge: Edge) returns (terms: seq<Text>)
    requires edge.start <= edge.end <= |text|
    ensures terms == IndexWords(text[edge.start..edge.end], 0)
  {
    var stream := new HebrewTokenStream(text[edge.start..edge.end]);
    terms := [];
    ghost var all := LineTokens(stream.text);
    var more := true;
    while more
      invariant fresh(stream) && stream.Valid() && stream.text == text[edge.start..edge.end]
      invariant |terms| + |stream.Left()| == |all| && all[|terms|..] == stream.Left()
      invariant forall i :: 0 <= i < |terms| ==> terms[i] == all[i].text
      invariant !more ==> stream.Left() == []
      decreases more, |stream.Left()|
    {
      more := stream.Advance();
      if more {
        assert all[|terms|] == stream.token && all[|terms|..][1..] == all[|terms| + 1..];
        terms := terms + [stream.token.text];
      }
    }
    YieldedAreIndexed(stream.text, 0, 0, false);
  }

  /** The content words' first and last positions, and the terms indexed there. */
  ghost predicate AreEdges(text: Text, content: Content, edges: EdgePair) {
    && edges.startTerms == ContentAt(LineTokens(text), content, edges.first) != []
    && edges.endTerms == ContentAt(LineTokens(text), content, edges.last) != []
    && forall t :: t in LineTokens(text) && Within(t, content) ==> edges.first <= t.position <= edges.last
  }

  method EdgesOfLine(text: Text, content: Content) returns (edges: Option<EdgePair>)
    requires content.0 <= content.1 <= |text|
    ensures edges.None? <==> forall t :: t in LineTokens(text) ==> !Within(t, content)
    ensures edges.Some? ==> AreEdges(text, content, edges.value)
  {
    var first, last := Edges(text, content);
    EdgesAreContentWords(text, content);
    if first.None? || last.None? {
      return None;
    }
    var startTerms := EdgeTerms(text, first.value);
    var endTerms := EdgeTerms(text, last.value);
    edges := Some(EdgePair(first.value.position, last.value.position, startTerms, endTerms));
    SomeContentAt(LineTokens(text), content, first.value.position);
  }

  lemma {:induction false} SomeContentAt(tokens: seq<Token>, content: Content, position: nat)
    requires ContentAt(tokens, content, position) != []
    ensures exists t :: t in tokens && Within(t, content)
  {
    var token := tokens[|tokens| - 1];
    if !(token.position == position && Within(token, content)) {
      SomeContentAt(tokens[..|tokens| - 1], content, position);
    }
  }

  /** The words at a position of the line, wherever they stand. */
  ghost predicate HasWordAt(tokens: seq<Token>, position: nat, words: iset<Text>) {
    exists t :: t in tokens && t.position == position && t.text in words
  }

  ghost predicate HasTerm(terms: seq<Text>, words: iset<Text>) {
    exists term :: term in terms && term in words
  }

  /** The content's ends part no pair: a position is all content or not at all. */
  ghost predicate PartsNoPair(tokens: seq<Token>, content: Content) {
    forall t, u :: t in tokens && u in tokens && t.position == u.position ==> Within(t, content) == Within(u, content)
  }

  lemma {:induction false} ContentAtHas(tokens: seq<Token>, content: Content, position: nat, words: iset<Text>)
    ensures HasTerm(ContentAt(tokens, content, position), words)
       <==> exists t :: t in tokens && t.position == position && Within(t, content) && t.text in words
  {
    if tokens != [] {
      var rest, token := tokens[..|tokens| - 1], tokens[|tokens| - 1];
      assert tokens == rest + [token];
      ContentAtHas(rest, content, position, words);
      ContentAtMore(rest, token, content, position);
      if token.position == position && Within(token, content) && token.text in words {
        assert token.text in ContentAt(tokens, content, position);
      }
    }
  }

  /** The edge vocabulary tells which words stand at a line's edges: of any set of words, one is among
      the edge's terms exactly when one is indexed at the edge's position. */
  lemma EdgeTermsDecide(text: Text, content: Content, edges: EdgePair, words: iset<Text>)
    requires AreEdges(text, content, edges) && PartsNoPair(LineTokens(text), content)
    ensures HasTerm(edges.startTerms, words) <==> HasWordAt(LineTokens(text), edges.first, words)
    ensures HasTerm(edges.endTerms, words) <==> HasWordAt(LineTokens(text), edges.last, words)
  {
    AllAtEdge(LineTokens(text), content, edges.first, words);
    AllAtEdge(LineTokens(text), content, edges.last, words);
  }

  lemma AllAtEdge(tokens: seq<Token>, content: Content, position: nat, words: iset<Text>)
    requires PartsNoPair(tokens, content) && ContentAt(tokens, content, position) != []
    ensures HasTerm(ContentAt(tokens, content, position), words) <==> HasWordAt(tokens, position, words)
  {
    ContentAtHas(tokens, content, position, words);
    if forall t :: t in tokens && Within(t, content) ==> t.position != position {
      NoContentAt(tokens, content, position);
    }
  }
}
