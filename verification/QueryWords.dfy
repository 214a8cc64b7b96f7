/** A typed query and an indexed line break into the same words. */
module QueryWords {
  import opened Prelude
  import opened Tokenizer
  import opened TokenSlices
  import opened PairedReadings

  /** The one geresh and the one gershayim that every form folds to. */
  const GERESH := Geresh(0x27)
  const GERSHAYIM := Gershayim(0x22)

  predicate EndsWith(out: Text, c: Char) {
    out != [] && out[|out| - 1] == c
  }

  // ── The index side ───────────────────────────────────────────────────────────

  function PushedOnce(out: Text): Text {
    if EndsWith(out, GERSHAYIM) then out else out + [GERSHAYIM]
  }

  /** A token's text in the plain field, with one more character of the line. */
  function IndexPush(out: Text, c: Char): Text {
    if c.Mark? || c.IsTransparent() then out
    else if c.Geresh? then
      if EndsWith(out, GERESH) then PushedOnce(out[..|out| - 1]) else out + [GERESH]
    else if c.Gershayim? then PushedOnce(out)
    else out + [c]
  }

  function IndexFold(text: Text, start: nat, end: nat): Text
    requires start <= end <= |text|
    decreases end - start
  {
    if start == end then [] else IndexPush(IndexFold(text, start, end - 1), text[end - 1])
  }

  /** Must the token's text be built character by character? */
  predicate NeedsNormalising(c: Char) {
    c.Mark? || c.IsTransparent() || c.Geresh? || (c.Gershayim? && c != GERSHAYIM)
  }

  /** Must some character from `lo` to `hi` be normalised? */
  predicate MustFold(text: Text, lo: nat, hi: nat)
    requires lo <= hi <= |text|
    decreases hi
  {
    lo < hi && (MustFold(text, lo, hi - 1) || NeedsNormalising(text[hi - 1]))
  }

  /** What a token is indexed as. */
  function IndexedAs(token: Text): Text {
    if MustFold(token, 0, |token|) then IndexFold(token, 0, |token|) else token
  }

  function Indexed(tokens: seq<Text>): seq<Text> {
    seq(|tokens|, i requires 0 <= i < |tokens| => IndexedAs(tokens[i]))
  }

  /** The index side: every token, folded. */
  function IndexWords(text: Text, from: nat): seq<Text>
    requires from <= |text|
  {
    Indexed(Tokens(text, from))
  }

  /** The words a line answers to, one at each position: of a pair's two readings, the second. */
  function ReadWords(text: Text, from: nat): seq<Text>
    requires from <= |text|
  {
    Indexed(ReadTokens(text, from))
  }

  /** A token is folded as it stands in its line. */
  lemma {:induction false} FoldInPlace(text: Text, lo: nat, hi: nat, n: nat)
    requires lo + n <= hi <= |text|
    ensures IndexFold(text[lo..hi], 0, n) == IndexFold(text, lo, lo + n)
    ensures MustFold(text[lo..hi], 0, n) == MustFold(text, lo, lo + n)
  {
    if n > 0 {
      FoldInPlace(text, lo, hi, n - 1);
    }
  }

  lemma {:induction false} MustFoldOne(text: Text, lo: nat, hi: nat, i: nat)
    requires lo <= i < hi <= |text| && NeedsNormalising(text[i])
    ensures MustFold(text, lo, hi)
    decreases hi
  {
    if i < hi - 1 {
      MustFoldOne(text, lo, hi - 1, i);
    }
  }

  lemma SliceAt(text: Text, lo: nat, hi: nat, i: nat)
    requires lo <= i < hi <= |text|
    ensures text[lo..hi][i - lo] == text[i]
  {
  }

  lemma IndexedWith(token: Text, must: bool, fold: Text)
    requires MustFold(token, 0, |token|) == must && IndexFold(token, 0, |token|) == fold
    ensures IndexedAs(token) == if must then fold else token
  {
  }

  lemma IndexedInPlace(text: Text, lo: nat, hi: nat)
    requires lo <= hi <= |text|
    ensures IndexedAs(text[lo..hi]) == if MustFold(text, lo, hi) then IndexFold(text, lo, hi) else text[lo..hi]
  {
    var must, fold, token, n := MustFold(text, lo, hi), IndexFold(text, lo, hi), text[lo..hi], hi - lo;
    assert MustFold(token, 0, n) == must && IndexFold(token, 0, n) == fold by {
      FoldInPlace(text, lo, hi, n);
    }
    assert n == |token|;
    IndexedWith(token, must, fold);
  }

  // ── The query side ───────────────────────────────────────────────────────────

  /** A query character as the tokenizer's rules see it; transparent ones are dropped. */
  function Sanitized(text: Text, i: nat): Text
    requires i <= |text|
    decreases |text| - i
  {
    if i == |text| then []
    else
      var rest := Sanitized(text, i + 1);
      match text[i]
      case Gershayim(_) => [GERSHAYIM] + rest
      case Geresh(_) => [GERESH] + rest
      case OpenParen => [SPACE] + rest
      case CloseParen => [SPACE] + rest
      case Separator(_, true) => [SPACE] + rest
      case Transparent(_) => rest
      case OpenBracket => rest
      case CloseBracket => rest
      case c => [c] + rest
  }

  /** Whitespace runs become one space each. */
  function Collapsed(text: Text, i: nat, prev: bool): Text
    requires i <= |text|
    decreases |text| - i
  {
    if i == |text| then []
    else if text[i].Space? then (if prev then [] else [SPACE]) + Collapsed(text, i + 1, true)
    else [text[i]] + Collapsed(text, i + 1, false)
  }

  function TrimEnd(text: Text): Text {
    if text != [] && text[|text| - 1].Space? then TrimEnd(text[..|text| - 1]) else text
  }

  function TrimStart(text: Text): Text {
    if text != [] && text[0].Space? then TrimStart(text[1..]) else text
  }

  function CollapseWhitespace(text: Text): Text {
    TrimStart(TrimEnd(Collapsed(text, 0, false)))
  }

  /** A query word, with one more character. */
  function QueryPush(out: Text, c: Char): Text {
    if c == GERESH && EndsWith(out, GERESH) then out[..|out| - 1] + [GERSHAYIM] else out + [c]
  }

  function QueryFold(text: Text, start: nat, end: nat): Text
    requires start <= end <= |text|
    decreases end - start
  {
    if start == end then [] else QueryPush(QueryFold(text, start, end - 1), text[end - 1])
  }

  function Words(text: Text, from: nat): seq<Text>
    requires from <= |text|
    decreases |text| - from
  {
    match NextToken(text, from)
    case None => []
    case Some(token) =>
      NextTokenBounds(text, from);
      [QueryFold(text, token.0, token.1)] + Words(text, token.1)
  }

  // ── The form both sides reduce to ────────────────────────────────────────────

  function Folded(c: Char): Char {
    if c.Geresh? then GERESH else if c.Gershayim? then GERSHAYIM else c
  }

  /** A separator before `rest`: one space, unless a separator or the end follows anyway. */
  function Separated(rest: Text): Text {
    if rest == [] || !rest[0].ContinuesToken() then rest else [SPACE] + rest
  }

  /** From `i` on: transparent characters gone, quotes folded, separators one space. */
  function Bare(text: Text, i: nat): (r: Text)
    requires i <= |text|
    decreases |text| - i
  {
    if i == |text| then []
    else
      var rest := Bare(text, i + 1);
      if text[i].IsTransparent() then rest
      else if text[i].ContinuesToken() then [Folded(text[i])] + rest
      else Separated(rest)
  }

  /** Where character `i` of the text stands in its bare form. */
  function At(text: Text, i: nat): int
    requires i <= |text|
  {
    |Bare(text, 0)| - |Bare(text, i)|
  }

  lemma {:induction false} BareSuffix(text: Text, i: nat)
    requires i <= |text|
    ensures 0 <= At(text, i) <= |Bare(text, 0)| && Bare(text, 0)[At(text, i)..] == Bare(text, i)
  {
    if i > 0 {
      BareSuffix(text, i - 1);
      var before := Bare(text, i - 1);
      assert before == Bare(text, i) || (before != [] && before[1..] == Bare(text, i));
      if before != Bare(text, i) {
        assert Bare(text, 0)[At(text, i - 1)..][1..] == Bare(text, 0)[At(text, i - 1) + 1..];
      }
    }
  }

  /** How one character shows in the bare form. */
  lemma AtStep(text: Text, i: nat)
    requires i < |text|
    ensures 0 <= At(text, i) <= At(text, i + 1) <= At(text, i) + 1 && At(text, i + 1) <= |Bare(text, 0)|
    ensures text[i].IsTransparent() ==> At(text, i + 1) == At(text, i)
    ensures text[i].ContinuesToken() && !text[i].IsTransparent() ==>
              At(text, i + 1) == At(text, i) + 1 && Bare(text, 0)[At(text, i)] == Folded(text[i])
    ensures !text[i].ContinuesToken() ==>
              At(text, i) == |Bare(text, 0)| || !Bare(text, 0)[At(text, i)].ContinuesToken()
    ensures At(text, i + 1) == At(text, i) + 1 && !text[i].ContinuesToken() ==> !Bare(text, 0)[At(text, i)].Letter?
  {
    BareSuffix(text, i);
    BareSuffix(text, i + 1);
    var here := Bare(text, i);
    if here != [] {
      assert Bare(text, 0)[At(text, i)] == here[0];
    }
  }

  /** Character `i` of the text shows, or not, as it must at `at[i]` of `bare`. */
  ghost predicate StepOk(text: Text, bare: Text, at: seq<int>, i: nat)
    requires i < |text| && |at| == |text| + 1
  {
    && 0 <= at[i] <= at[i + 1] <= at[i] + 1 && at[i + 1] <= |bare|
    && (text[i].IsTransparent() ==> at[i + 1] == at[i])
    && (text[i].ContinuesToken() && !text[i].IsTransparent() ==>
          at[i + 1] == at[i] + 1 && bare[at[i]] == Folded(text[i]))
    && (!text[i].ContinuesToken() ==> at[i] == |bare| || !bare[at[i]].ContinuesToken())
  }

  /** `bare` shows the text: transparent characters gone, quotes folded, separators kept where
      they part anything. */
  ghost predicate Shows(text: Text, bare: Text, at: seq<int>) {
    && |at| == |text| + 1 && at[|text|] == |bare|
    && (forall i :: 0 <= i <= |text| ==> 0 <= at[i] <= |bare|)
    && (forall i {:trigger StepOk(text, bare, at, i)} :: 0 <= i < |text| ==> StepOk(text, bare, at, i))
    && NoTransparent(bare) && QuotesFolded(bare)
  }

  lemma BareShows(text: Text) returns (at: seq<int>)
    ensures Shows(text, Bare(text, 0), at) && at[0] == 0
  {
    at := seq(|text| + 1, i requires 0 <= i <= |text| => At(text, i));
    forall i | 0 <= i <= |text| ensures 0 <= at[i] <= |Bare(text, 0)| {
      BareSuffix(text, i);
    }
    forall i | 0 <= i < |text| ensures StepOk(text, Bare(text, 0), at, i) {
      AtStep(text, i);
    }
    BareIsBare(text, 0);
  }

  // ── Tokens carry over to the bare form ───────────────────────────────────────

  ghost predicate LooksAlike(text: Text, at: seq<int>, look: Look, shown: Look)
    requires look.firstQuoteEnd <= |text| && |at| == |text| + 1
  {
    && shown.geresh == look.geresh && shown.gershayim == look.gershayim
    && (look.geresh + look.gershayim > 0 ==>
          shown.firstIsGeresh == look.firstIsGeresh && shown.firstQuoteEnd == at[look.firstQuoteEnd])
  }

  lemma {:induction false} LookCarries(text: Text, bare: Text, at: seq<int>, i: nat, look: Look, shown: Look)
    requires Shows(text, bare, at)
    requires i <= |text| && look.firstQuoteEnd <= |text| && 0 <= at[i] <= |bare|
    requires LooksAlike(text, at, look, shown)
    ensures var r, b := LookFrom(text, i, look), LookFrom(bare, at[i], shown);
            r.firstQuoteEnd <= |text| && LooksAlike(text, at, r, b) && b.next == at[r.next]
    decreases |text| - i
  {
    if i < |text| {
      assert StepOk(text, bare, at, i);
      if text[i].IsQuote() {
        LookCarries(text, bare, at, i + 1, SeenQuote(look, text[i].Geresh?, i),
                    SeenQuote(shown, text[i].Geresh?, at[i]));
      } else if text[i].IsTransparent() {
        LookCarries(text, bare, at, i + 1, look, shown);
      }
    }
  }

  /** Between `i` and a look's end with no quotes, nothing shows. */
  lemma {:induction false} NothingShows(text: Text, bare: Text, at: seq<int>, i: nat, look: Look)
    requires Shows(text, bare, at)
    requires i <= |text| && look.geresh + look.gershayim == 0
    requires LookFrom(text, i, look).geresh + LookFrom(text, i, look).gershayim == 0
    ensures at[LookFrom(text, i, look).next] == at[i]
    decreases |text| - i
  {
    if i < |text| {
      LookFinds(text, i, look);
      if text[i].IsQuote() {
        LookFinds(text, i + 1, SeenQuote(look, text[i].Geresh?, i));
      } else if text[i].IsTransparent() {
        assert StepOk(text, bare, at, i);
        NothingShows(text, bare, at, i + 1, look);
      }
    }
  }

  /** The bare form shows a word character at a look's end exactly when the text does. */
  lemma NextCarries(text: Text, bare: Text, at: seq<int>, next: nat)
    requires Shows(text, bare, at)
    requires next <= |text| && (next < |text| ==> !text[next].IsTransparent())
    ensures 0 <= at[next] <= |bare|
    ensures next < |text| && text[next].IsWordChar()
        <==> next < |text| && !text[next].IsQuote() && at[next] < |bare| && bare[at[next]].IsWordChar()
    ensures next == |text| ==> at[next] == |bare|
    ensures next < |text| && !text[next].ContinuesToken() && at[next] < |bare|
        ==> !bare[at[next]].ContinuesToken()
  {
    if next < |text| {
      assert StepOk(text, bare, at, next);
    }
  }

  lemma {:induction false} TokenEndCarries(text: Text, bare: Text, at: seq<int>, i: nat)
    requires Shows(text, bare, at)
    requires i <= |text|
    ensures TokenEnd(text, i) <= |text| && 0 <= at[i] <= |bare|
    ensures TokenEnd(bare, at[i]) == at[TokenEnd(text, i)]
    decreases |text| - i
  {
    TokenEndBounds(text, i);
    if i < |text| && text[i].IsWordChar() {
      assert StepOk(text, bare, at, i);
      TokenEndCarries(text, bare, at, i + 1);
    } else {
      var look := LookAhead(text, i);
      LookFinds(text, i, NOTHING_YET);
      LookCarries(text, bare, at, i, NOTHING_YET, NOTHING_YET);
      NextCarries(text, bare, at, look.next);
      if look.next < |text| && text[look.next].IsWordChar() {
        TokenEndCarries(text, bare, at, look.next);
      }
      if look.geresh + look.gershayim == 0 {
        NothingShows(text, bare, at, i, NOTHING_YET);
      }
    }
  }

  lemma {:induction false} FirstLetterCarries(text: Text, bare: Text, at: seq<int>, i: nat)
    requires Shows(text, bare, at)
    requires i <= |text|
    ensures 0 <= at[i] <= |bare|
    ensures FirstLetter(bare, at[i]) == at[FirstLetter(text, i)]
    ensures FirstLetter(text, i) == |text| ==> FirstLetter(bare, at[i]) == |bare|
    ensures FirstLetter(text, i) < |text| ==> FirstLetter(bare, at[i]) < |bare|
    decreases |text| - i
  {
    if i < |text| {
      assert StepOk(text, bare, at, i);
      if !text[i].Letter? {
        FirstLetterCarries(text, bare, at, i + 1);
      }
    }
  }

  /** The next token of the text is the next token of its bare form. */
  lemma NextTokenCarries(text: Text, bare: Text, at: seq<int>, from: nat)
    requires Shows(text, bare, at)
    requires from <= |text|
    ensures 0 <= at[from] <= |bare|
    ensures NextToken(text, from).None? <==> NextToken(bare, at[from]).None?
    ensures NextToken(text, from).Some? ==>
              && var (start, end) := NextToken(text, from).value;
              && start < end <= |text|
              && NextToken(bare, at[from]) == Some((at[start], at[end]))
  {
    FirstLetterCarries(text, bare, at, from);
    var start := FirstLetter(text, from);
    if start < |text| {
      NextTokenBounds(text, from);
      TokenEndCarries(text, bare, at, start);
    }
  }

  // ── The words' texts ─────────────────────────────────────────────────────────

  predicate NoTransparent(text: Text) {
    forall i :: 0 <= i < |text| ==> !text[i].IsTransparent()
  }

  /** Quotes are in their one form. */
  predicate QuotesFolded(text: Text) {
    forall i :: 0 <= i < |text| ==> Folded(text[i]) == text[i]
  }

  lemma {:induction false} BareIsBare(text: Text, i: nat)
    requires i <= |text|
    ensures NoTransparent(Bare(text, i)) && QuotesFolded(Bare(text, i))
    decreases |text| - i
  {
    if i < |text| {
      BareIsBare(text, i + 1);
    }
  }

  /** Two quotes in a row at `j` are two geresh, and no third follows. */
  predicate ShortAt(text: Text, j: int, hi: int)
    requires 0 <= j < hi - 1 && hi <= |text|
  {
    text[j].IsQuote() && text[j + 1].IsQuote() ==>
      text[j].Geresh? && text[j + 1].Geresh? && (j + 2 < hi ==> !text[j + 2].IsQuote())
  }

  predicate QuotesShort(text: Text, from: int, hi: int)
    requires 0 <= from <= hi <= |text|
  {
    forall j :: from <= j < hi - 1 ==> ShortAt(text, j, hi)
  }

  /** With nothing transparent in the way, a look is all quotes. */
  lemma {:induction false} LookCounts(text: Text, i: nat, look: Look)
    requires i <= |text| && NoTransparent(text)
    ensures var r := LookFrom(text, i, look);
            && r.geresh + r.gershayim == look.geresh + look.gershayim + (r.next - i)
            && r.gershayim >= look.gershayim
            && (r.gershayim == look.gershayim ==> forall j :: i <= j < r.next ==> text[j].Geresh?)
            && (look.geresh + look.gershayim > 0 ==> r.firstQuoteEnd == look.firstQuoteEnd)
            && (look.geresh + look.gershayim == 0 && i < r.next ==> r.firstQuoteEnd == i + 1)
    decreases |text| - i
  {
    if i < |text| && text[i].IsQuote() {
      LookCounts(text, i + 1, SeenQuote(look, text[i].Geresh?, i));
    }
  }

  /** A token holds no long run of quotes. */
  lemma {:induction false} TokenQuotesShort(text: Text, i: nat)
    requires i <= |text| && NoTransparent(text)
    ensures i <= TokenEnd(text, i) <= |text| && QuotesShort(text, i, TokenEnd(text, i))
    decreases |text| - i
  {
    TokenEndBounds(text, i);
    if i < |text| && text[i].IsWordChar() {
      TokenQuotesShort(text, i + 1);
      WordThenQuotesShort(text, i, TokenEnd(text, i + 1));
    } else {
      var look := LookAhead(text, i);
      if look.next < |text| && text[look.next].IsWordChar() && IsInner(look) {
        TokenQuotesShort(text, look.next);
        InnerQuotesShort(text, i, look);
      } else {
        LastQuote(text, i, look);
      }
    }
  }

  lemma WordThenQuotesShort(text: Text, i: nat, hi: nat)
    requires i < |text| && text[i].IsWordChar()
    requires i + 1 <= hi <= |text| && QuotesShort(text, i + 1, hi)
    ensures QuotesShort(text, i, hi)
  {
    forall j | i <= j < hi - 1 ensures ShortAt(text, j, hi) {
      if j > i {
        assert ShortAt(text, j, hi);
      }
    }
  }

  /** A token that does not go on keeps one quote at most. */
  lemma LastQuote(text: Text, i: nat, look: Look)
    requires i <= |text| && NoTransparent(text) && look == LookAhead(text, i)
    ensures look.firstIsGeresh ==> look.firstQuoteEnd == i + 1
  {
    LookFinds(text, i, NOTHING_YET);
    LookCounts(text, i, NOTHING_YET);
  }

  lemma InnerQuotesShort(text: Text, i: nat, look: Look)
    requires i <= |text| && NoTransparent(text) && look == LookAhead(text, i)
    requires look.next < |text| && text[look.next].IsWordChar() && IsInner(look)
    requires look.next <= TokenEnd(text, look.next) <= |text| && QuotesShort(text, look.next, TokenEnd(text, look.next))
    ensures QuotesShort(text, i, TokenEnd(text, look.next))
  {
    var hi := TokenEnd(text, look.next);
    LookFinds(text, i, NOTHING_YET);
    LookCounts(text, i, NOTHING_YET);
    forall j | i <= j < hi - 1 ensures ShortAt(text, j, hi) {
      if j >= look.next {
        assert ShortAt(text, j, hi);
      } else if j + 1 < look.next {
        assert j == i && look.next == i + 2;
      }
    }
  }

  /** What a query word ends with. */
  predicate EndsAs(text: Text, from: int, hi: int, out: Text)
    requires 0 <= from < hi <= |text|
  {
    var c := text[hi - 1];
    if !c.Geresh? then EndsWith(out, c)
    else EndsWith(out, if from < hi - 1 && text[hi - 2].Geresh? then GERSHAYIM else GERESH)
  }

  lemma ShorterQuotes(text: Text, from: int, hi: int)
    requires 0 <= from < hi <= |text| && QuotesShort(text, from, hi)
    ensures QuotesShort(text, from, hi - 1)
    ensures from < hi - 1 && text[hi - 2].IsQuote() && text[hi - 1].IsQuote() ==>
              text[hi - 2].Geresh? && text[hi - 1].Geresh?
    ensures from < hi - 2 && text[hi - 2].IsQuote() && text[hi - 1].IsQuote() ==> !text[hi - 3].IsQuote()
  {
    FewerQuotes(text, from, hi - 1, hi);
    assert from < hi - 2 ==> ShortAt(text, hi - 3, hi);
    assert from < hi - 1 ==> ShortAt(text, hi - 2, hi);
  }

  lemma {:induction false} QueryLast(text: Text, from: int, hi: int)
    requires 0 <= from < hi <= |text| && QuotesShort(text, from, hi) && QuotesFolded(text)
    ensures EndsAs(text, from, hi, QueryFold(text, from, hi))
    decreases hi
  {
    if from < hi - 1 {
      ShorterQuotes(text, from, hi);
      QueryLast(text, from, hi - 1);
    }
  }

  /** With no long quote runs, the index's rule for a character is the query's. */
  lemma PushesAgree(text: Text, from: int, hi: int)
    requires 0 <= from < hi <= |text| && QuotesShort(text, from, hi) && QuotesFolded(text)
    requires !text[hi - 1].Mark? && !text[hi - 1].IsTransparent()
    ensures IndexPush(QueryFold(text, from, hi - 1), text[hi - 1]) == QueryFold(text, from, hi)
  {
    if from < hi - 1 && text[hi - 1].IsQuote() {
      ShorterQuotes(text, from, hi);
      QueryLast(text, from, hi - 1);
      if text[hi - 2].Geresh? {
        SecondGeresh(text, from, hi);
      } else {
        assert !EndsWith(QueryFold(text, from, hi - 1), GERSHAYIM);
      }
    }
  }

  /** The second of two geresh makes them one gershayim on both sides. */
  lemma SecondGeresh(text: Text, from: int, hi: int)
    requires 0 <= from < hi - 1 && hi <= |text| && QuotesShort(text, from, hi) && QuotesFolded(text)
    requires text[hi - 2].Geresh? && text[hi - 1].IsQuote()
    ensures IndexPush(QueryFold(text, from, hi - 1), text[hi - 1]) == QueryFold(text, from, hi)
  {
    ShorterQuotes(text, from, hi);
    var before := QueryFold(text, from, hi - 2);
    if from < hi - 2 {
      ShorterQuotes(text, from, hi - 1);
      QueryLast(text, from, hi - 2);
      assert !EndsWith(before, GERSHAYIM) && !EndsWith(before, GERESH);
    }
    var out := QueryFold(text, from, hi - 1);
    assert out == before + [GERESH];
    assert out[..|out| - 1] == before;
  }

  predicate NoMarks(text: Text) {
    forall i :: 0 <= i < |text| ==> !text[i].Mark?
  }

  /** A stretch of the line folds to the same word as its bare form. */
  lemma {:induction false} FoldCarries(text: Text, bare: Text, at: seq<int>, from: nat, hi: nat, end: nat)
    requires Shows(text, bare, at)
    requires from <= hi <= end <= |text|
    requires forall j :: from <= j < end ==> text[j].ContinuesToken() && !text[j].Mark?
    requires 0 <= at[from] <= at[end] <= |bare|
    requires QuotesShort(bare, at[from], at[end])
    ensures at[from] <= at[hi] <= at[end]
    ensures IndexFold(text, from, hi) == QueryFold(bare, at[from], at[hi])
    decreases hi
  {
    AtGrows(text, bare, at, from, hi);
    AtGrows(text, bare, at, hi, end);
    if from < hi {
      FoldCarries(text, bare, at, from, hi - 1, end);
      assert StepOk(text, bare, at, hi - 1);
      if !text[hi - 1].IsTransparent() {
        FoldOne(bare, at[from], at[hi], at[end], text[hi - 1]);
      }
    }
  }

  lemma FoldOne(bare: Text, from: int, hi: int, end: int, c: Char)
    requires 0 <= from < hi <= end <= |bare| && QuotesShort(bare, from, end) && QuotesFolded(bare)
    requires bare[hi - 1] == Folded(c) && !c.Mark? && !c.IsTransparent()
    ensures IndexPush(QueryFold(bare, from, hi - 1), c) == QueryFold(bare, from, hi)
  {
    FewerQuotes(bare, from, hi, end);
    PushesAgree(bare, from, hi);
    PushFolded(QueryFold(bare, from, hi - 1), c);
  }

  lemma PushFolded(out: Text, c: Char)
    ensures IndexPush(out, c) == IndexPush(out, Folded(c))
  {
  }

  lemma FewerQuotes(text: Text, from: int, hi: int, end: int)
    requires 0 <= from <= hi <= end <= |text| && QuotesShort(text, from, end)
    ensures QuotesShort(text, from, hi)
  {
    forall j | from <= j < hi - 1 ensures ShortAt(text, j, hi) {
      assert ShortAt(text, j, end);
    }
  }

  lemma {:induction false} AtGrows(text: Text, bare: Text, at: seq<int>, i: nat, j: nat)
    requires Shows(text, bare, at)
    requires i <= j <= |text|
    ensures 0 <= at[i] <= at[j] <= |bare|
    decreases j - i
  {
    if i < j {
      assert StepOk(text, bare, at, i);
      AtGrows(text, bare, at, i + 1, j);
    }
  }

  /** A token that needs no normalising is its own text. */
  lemma {:induction false} PlainFold(text: Text, bare: Text, at: seq<int>, from: nat, hi: nat)
    requires Shows(text, bare, at)
    requires from <= hi <= |text|
    requires (forall j :: from <= j < hi ==> text[j].ContinuesToken()) && !MustFold(text, from, hi)
    ensures 0 <= at[from] <= at[hi] <= |bare|
    ensures QueryFold(bare, at[from], at[hi]) == text[from..hi]
    decreases hi - from
  {
    AtGrows(text, bare, at, from, hi);
    if from < hi {
      PlainFold(text, bare, at, from, hi - 1);
      assert StepOk(text, bare, at, hi - 1);
      SliceWithLast(text, from, hi);
    }
  }

  /** The index drops every mark of a token. */
  lemma {:induction false} FoldDropsMarks(text: Text, from: nat, hi: nat)
    requires from <= hi <= |text|
    ensures NoMarks(IndexFold(text, from, hi))
    decreases hi - from
  {
    if from < hi {
      FoldDropsMarks(text, from, hi - 1);
    }
  }

  /** A query word keeps them. */
  lemma {:induction false} FoldKeepsMark(text: Text, from: nat, hi: nat, m: nat)
    requires from <= m < hi <= |text| && text[m].Mark?
    ensures !NoMarks(QueryFold(text, from, hi))
    decreases hi
  {
    var before, after := QueryFold(text, from, hi - 1), QueryFold(text, from, hi);
    if m == hi - 1 {
      assert after[|after| - 1].Mark?;
    } else {
      FoldKeepsMark(text, from, hi - 1, m);
      var i :| 0 <= i < |before| && before[i].Mark?;
      assert after[i].Mark?;
    }
  }

  /** A token is the same word on both sides exactly when it holds no mark. */
  lemma TokenCarries(text: Text, bare: Text, at: seq<int>, token: Span)
    requires Shows(text, bare, at)
    requires token.0 < token.1 <= |text| && token.1 == TokenEnd(text, token.0)
    requires forall j :: token.0 <= j < token.1 ==> text[j].ContinuesToken()
    ensures 0 <= at[token.0] <= at[token.1] <= |bare|
    ensures IndexedAs(text[token.0..token.1]) == QueryFold(bare, at[token.0], at[token.1])
       <==> NoMarks(text[token.0..token.1])
  {
    AtGrows(text, bare, at, token.0, token.1);
    IndexedInPlace(text, token.0, token.1);
    if m :| token.0 <= m < token.1 && text[m].Mark? {
      MarkDiffers(text, bare, at, token, m);
    } else {
      UnmarkedSlice(text, token.0, token.1);
      if MustFold(text, token.0, token.1) {
        TokenEndCarries(text, bare, at, token.0);
        TokenQuotesShort(bare, at[token.0]);
        FoldCarries(text, bare, at, token.0, token.1, token.1);
      } else {
        PlainFold(text, bare, at, token.0, token.1);
      }
    }
  }

  lemma UnmarkedSlice(text: Text, lo: nat, hi: nat)
    requires lo <= hi <= |text| && forall m :: lo <= m < hi ==> !text[m].Mark?
    ensures NoMarks(text[lo..hi])
  {
  }

  lemma MarkDiffers(text: Text, bare: Text, at: seq<int>, token: Span, m: nat)
    requires Shows(text, bare, at) && token.0 <= m < token.1 <= |text| && text[m].Mark?
    requires 0 <= at[token.0] <= at[token.1] <= |bare|
    ensures IndexedAs(text[token.0..token.1]) != QueryFold(bare, at[token.0], at[token.1])
    ensures !NoMarks(text[token.0..token.1])
  {
    SliceAt(text, token.0, token.1, m);
    IndexedInPlace(text, token.0, token.1);
    MustFoldOne(text, token.0, token.1, m);
    FoldDropsMarks(text, token.0, token.1);
    MarkShows(text, bare, at, token, m);
  }

  lemma MarkShows(text: Text, bare: Text, at: seq<int>, token: Span, m: nat)
    requires Shows(text, bare, at) && token.0 <= m < token.1 <= |text| && text[m].Mark?
    requires 0 <= at[token.0] <= at[token.1] <= |bare|
    ensures !NoMarks(QueryFold(bare, at[token.0], at[token.1]))
  {
    AtGrows(text, bare, at, token.0, m);
    assert StepOk(text, bare, at, m);
    AtGrows(text, bare, at, m + 1, token.1);
    FoldKeepsMark(bare, at[token.0], at[token.1], at[m]);
  }

  /** No token holds a mark. */
  ghost predicate Unmarked(tokens: seq<Text>) {
    forall i :: 0 <= i < |tokens| ==> NoMarks(tokens[i])
  }

  lemma UnmarkedCons(token: Text, rest: seq<Text>)
    ensures Unmarked([token] + rest) <==> NoMarks(token) && Unmarked(rest)
  {
    var all := [token] + rest;
    assert all[0] == token;
    forall i | 0 <= i < |rest| ensures all[i + 1] == rest[i] {
    }
  }

  lemma IndexedCons(token: Text, rest: seq<Text>)
    ensures Indexed([token] + rest) == [IndexedAs(token)] + Indexed(rest)
  {
  }

  lemma SameCons(a: Text, x: seq<Text>, b: Text, y: seq<Text>)
    ensures [a] + x == [b] + y <==> a == b && x == y
  {
    if [a] + x == [b] + y {
      assert ([a] + x)[0] == ([b] + y)[0] && ([a] + x)[1..] == ([b] + y)[1..];
    }
  }

  /** A line's words are the words of its bare form exactly when no token holds a mark. */
  lemma {:induction false} IndexWordsCarry(text: Text, bare: Text, at: seq<int>, from: nat)
    requires Shows(text, bare, at)
    requires from <= |text|
    ensures 0 <= at[from] <= |bare|
    ensures IndexWords(text, from) == Words(bare, at[from]) <==> Unmarked(Tokens(text, from))
    decreases |text| - from
  {
    NextTokenCarries(text, bare, at, from);
    if NextToken(text, from).Some? {
      NextTokenBounds(text, from);
      var token := NextToken(text, from).value;
      TokenCarries(text, bare, at, token);
      IndexWordsCarry(text, bare, at, token.1);
      ConsCarries(text[token.0..token.1], Tokens(text, token.1), QueryFold(bare, at[token.0], at[token.1]),
                  Words(bare, at[token.1]));
    }
  }

  lemma ConsCarries(token: Text, rest: seq<Text>, word: Text, words: seq<Text>)
    requires IndexedAs(token) == word <==> NoMarks(token)
    requires Indexed(rest) == words <==> Unmarked(rest)
    ensures Indexed([token] + rest) == [word] + words <==> Unmarked([token] + rest)
  {
    UnmarkedCons(token, rest);
    IndexedCons(token, rest);
    SameCons(IndexedAs(token), Indexed(rest), word, words);
  }

  /** So are a cleaned query's. */
  lemma {:induction false} CleanWordsCarry(text: Text, bare: Text, at: seq<int>, from: nat)
    requires Shows(text, bare, at)
    requires from <= |text| && NoTransparent(text) && QuotesFolded(text)
    ensures 0 <= at[from] <= |bare|
    ensures Words(text, from) == Words(bare, at[from])
    decreases |text| - from
  {
    NextTokenCarries(text, bare, at, from);
    if NextToken(text, from).Some? {
      NextTokenBounds(text, from);
      var token := NextToken(text, from).value;
      CleanFold(text, bare, at, token.0, token.1);
      CleanWordsCarry(text, bare, at, token.1);
    }
  }

  lemma CleanShows(text: Text, bare: Text, at: seq<int>, i: nat)
    requires Shows(text, bare, at) && i < |text|
    requires text[i].ContinuesToken() && !text[i].IsTransparent() && Folded(text[i]) == text[i]
    ensures at[i + 1] == at[i] + 1 && 0 <= at[i] < |bare| && bare[at[i]] == text[i]
  {
    assert StepOk(text, bare, at, i);
  }

  lemma {:induction false} CleanFold(text: Text, bare: Text, at: seq<int>, from: nat, hi: nat)
    requires Shows(text, bare, at)
    requires from <= hi <= |text| && NoTransparent(text) && QuotesFolded(text)
    requires forall j :: from <= j < hi ==> text[j].ContinuesToken()
    ensures 0 <= at[from] <= at[hi] <= |bare|
    ensures QueryFold(bare, at[from], at[hi]) == QueryFold(text, from, hi)
    decreases hi
  {
    if from < hi {
      CleanFold(text, bare, at, from, hi - 1);
      CleanShows(text, bare, at, hi - 1);
    }
  }

  // ── Sanitizing keeps the bare form ───────────────────────────────────────────

  lemma {:induction false} BareAppend(a: Text, b: Text, j: nat)
    requires j <= |b|
    ensures Bare(a + b, |a| + j) == Bare(b, j)
    decreases |b| - j
  {
    if j < |b| {
      BareAppend(a, b, j + 1);
    }
  }

  lemma BareCons(c: Char, rest: Text)
    ensures Bare([c] + rest, 1) == Bare(rest, 0)
  {
    BareAppend([c], rest, 0);
  }

  lemma {:induction false} SanitizedBare(text: Text, i: nat)
    requires i <= |text|
    ensures Bare(Sanitized(text, i), 0) == Bare(text, i)
    ensures NoTransparent(Sanitized(text, i)) && QuotesFolded(Sanitized(text, i))
    decreases |text| - i
  {
    if i < |text| {
      SanitizedBare(text, i + 1);
      var here, rest := Sanitized(text, i), Sanitized(text, i + 1);
      if here != rest {
        assert here == [here[0]] + rest;
        BareCons(here[0], rest);
      }
    }
  }

  /** Without the separator it may start with. */
  function DropLead(bare: Text): Text {
    if bare != [] && !bare[0].ContinuesToken() then bare[1..] else bare
  }

  /** A separator only ever parts two other characters, or leads one. */
  predicate Canonical(bare: Text) {
    bare == [] || bare[0].ContinuesToken() || (bare[0] == SPACE && |bare| > 1 && bare[1].ContinuesToken())
  }

  lemma {:induction false} BareCanonical(text: Text, i: nat)
    requires i <= |text|
    ensures Canonical(Bare(text, i))
    decreases |text| - i
  {
    if i < |text| {
      BareCanonical(text, i + 1);
    }
  }

  lemma SeparatedAlike(a: Text, b: Text)
    requires Canonical(a) && Canonical(b) && DropLead(a) == DropLead(b)
    ensures Separated(a) == Separated(b) && DropLead(Separated(a)) == DropLead(a)
  {
    if a != [] && !a[0].ContinuesToken() {
      assert a == [SPACE] + DropLead(a);
    }
    if b != [] && !b[0].ContinuesToken() {
      assert b == [SPACE] + DropLead(b);
    }
  }

  /** A space, kept or dropped, before the rest of the line. */
  lemma CollapsedSpace(rest: Text, tail: Text, prev: bool)
    requires Canonical(tail) && DropLead(Bare(rest, 0)) == DropLead(tail)
    ensures var here := if prev then rest else [SPACE] + rest;
            DropLead(Bare(here, 0)) == DropLead(Separated(tail)) && (!prev ==> Bare(here, 0) == Separated(tail))
  {
    BareCanonical(rest, 0);
    SeparatedAlike(Bare(rest, 0), tail);
    SeparatedAlike(tail, tail);
    BareCons(SPACE, rest);
  }

  lemma BareStep(c: Char, rest: Text, tail: Text)
    requires !c.IsTransparent() && Bare(rest, 0) == tail
    ensures Bare([c] + rest, 0) == if c.ContinuesToken() then [Folded(c)] + tail else Separated(tail)
  {
    BareCons(c, rest);
  }

  lemma CollapsedStep(text: Text, i: nat, prev: bool)
    requires i < |text|
    ensures var rest := Collapsed(text, i + 1, text[i].Space?);
            Collapsed(text, i, prev)
            == if !text[i].Space? then [text[i]] + rest else if prev then rest else [SPACE] + rest
  {
  }

  lemma {:induction false} CollapsedBare(text: Text, i: nat, prev: bool)
    requires i <= |text| && NoTransparent(text)
    ensures DropLead(Bare(Collapsed(text, i, prev), 0)) == DropLead(Bare(text, i))
    ensures !prev ==> Bare(Collapsed(text, i, prev), 0) == Bare(text, i)
    decreases |text| - i
  {
    if i < |text| {
      var rest := Collapsed(text, i + 1, text[i].Space?);
      CollapsedBare(text, i + 1, text[i].Space?);
      CollapsedStep(text, i, prev);
      if text[i].Space? {
        BareCanonical(text, i + 1);
        CollapsedSpace(rest, Bare(text, i + 1), prev);
      } else {
        BareStep(text[i], rest, Bare(text, i + 1));
      }
    }
  }

  lemma {:induction false} CollapsedClean(text: Text, i: nat, prev: bool)
    requires i <= |text| && NoTransparent(text) && QuotesFolded(text)
    ensures NoTransparent(Collapsed(text, i, prev)) && QuotesFolded(Collapsed(text, i, prev))
    decreases |text| - i
  {
    if i < |text| {
      CollapsedClean(text, i + 1, text[i].Space?);
    }
  }

  lemma {:induction false} TrailingSpace(text: Text, space: Char, i: nat)
    requires i <= |text| && space.Space?
    ensures Bare(text + [space], i) == Bare(text, i)
    decreases |text| - i
  {
    if i < |text| {
      TrailingSpace(text, space, i + 1);
    } else {
      assert Bare(text + [space], |text| + 1) == [];
    }
  }

  lemma {:induction false} TrimEndBare(text: Text)
    ensures Bare(TrimEnd(text), 0) == Bare(text, 0)
    ensures NoTransparent(text) && QuotesFolded(text) ==> NoTransparent(TrimEnd(text)) && QuotesFolded(TrimEnd(text))
  {
    if text != [] && text[|text| - 1].Space? {
      var front := text[..|text| - 1];
      assert text == front + [text[|text| - 1]];
      TrailingSpace(front, text[|text| - 1], 0);
      TrimEndBare(front);
    }
  }

  lemma {:induction false} TrimStartBare(text: Text)
    ensures DropLead(Bare(TrimStart(text), 0)) == DropLead(Bare(text, 0))
    ensures NoTransparent(text) && QuotesFolded(text) ==>
              NoTransparent(TrimStart(text)) && QuotesFolded(TrimStart(text))
  {
    if text != [] && text[0].Space? {
      var rest := text[1..];
      assert text == [text[0]] + rest;
      BareCons(text[0], rest);
      BareCanonical(rest, 0);
      SeparatedAlike(Bare(rest, 0), Bare(rest, 0));
      TrimStartBare(rest);
    }
  }

  /** A leading separator makes no word. */
  lemma WordsWithoutLead(bare: Text)
    requires NoTransparent(bare) && QuotesFolded(bare)
    ensures Words(bare, 0) == Words(DropLead(bare), 0)
  {
    if bare != [] && !bare[0].ContinuesToken() {
      var rest := bare[1..];
      var at: seq<int> := seq(|rest| + 1, i => i + 1);
      assert NoTransparent(rest) && QuotesFolded(rest);
      forall i | 0 <= i < |rest| ensures StepOk(rest, bare, at, i) {
      }
      CleanWordsCarry(rest, bare, at, 0);
      SkipToToken(bare, 0, 1);
    }
  }

  /** A typed query breaks into the words its text is indexed as, unless a token holds a mark: deleting
      transparent characters, folding quotes and turning separators into spaces commute with the
      tokenizer. */
  lemma SameWords(text: Text)
    ensures Words(CollapseWhitespace(Sanitized(text, 0)), 0) == IndexWords(text, 0) <==> Unmarked(Tokens(text, 0))
  {
    var sanitized := Sanitized(text, 0);
    var collapsed := Collapsed(sanitized, 0, false);
    var cleaned := CollapseWhitespace(sanitized);
    SanitizedBare(text, 0);
    CollapsedBare(sanitized, 0, false);
    CollapsedClean(sanitized, 0, false);
    TrimEndBare(collapsed);
    TrimStartBare(TrimEnd(collapsed));
    var at := BareShows(text);
    IndexWordsCarry(text, Bare(text, 0), at, 0);
    var at' := BareShows(cleaned);
    CleanWordsCarry(cleaned, Bare(cleaned, 0), at', 0);
    WordsWithoutLead(Bare(text, 0));
    WordsWithoutLead(Bare(cleaned, 0));
  }

  /** The words of a query: the pairs replaced, the text cleaned, then scanned by the tokenizer's rules. */
  function QueryWordsOf(query: Text): seq<Text> {
    Words(CollapseWhitespace(Sanitized(KeptFrom(query, 0, 0), 0)), 0)
  }

  /** A query asks for the words its text is indexed as, the second of each pair, exactly when no
      token it asks for holds a mark. */
  lemma QueryAsksWhatIsIndexed(query: Text)
    ensures QueryWordsOf(query) == ReadWords(query, 0) <==> Unmarked(ReadTokens(query, 0))
  {
    KeptReads(query, 0, 0, []);
    NothingBefore(Tokens(query, 0));
    NothingBefore(ReadTokens(query, 0));
    SameWords(KeptFrom(query, 0, 0));
  }

  /** A letter with a mark: the index drops the mark, the query keeps it. */
  lemma MarkedQueryDiffers(letter: Char, mark: Char)
    requires letter.Letter? && mark.Mark?
    ensures ReadWords([letter, mark], 0) == [[letter]] && QueryWordsOf([letter, mark]) == [[letter, mark]]
  {
    var query := [letter, mark];
    assert TokenEnd(query, 2) == 2 && TokenEnd(query, 1) == 2 && TokenEnd(query, 0) == 2;
    assert NextToken(query, 0) == Some((0, 2)) && NextToken(query, 2).None?;
    assert PairedReadingAfter(query, (0, 2)).None?;
    assert query[0..2] == query;
    assert ReadTokens(query, 0) == [query];
    assert IndexFold(query, 0, 0) == [] && IndexFold(query, 0, 1) == [letter] && IndexFold(query, 0, 2) == [letter];
    assert MustFold(query, 0, 2);
    assert ReadWords(query, 0) == [[letter]];
    assert KeptFrom(query, 0, 0) == KeptFrom(query, 0, 2) == query;
    assert Sanitized(query, 2) == [] && Sanitized(query, 1) == [mark] && Sanitized(query, 0) == query;
    assert Collapsed(query, 2, false) == [] && Collapsed(query, 1, false) == [mark]
        && Collapsed(query, 0, false) == query;
    assert CollapseWhitespace(query) == query;
    assert QueryFold(query, 0, 0) == [] && QueryFold(query, 0, 1) == [letter] && QueryFold(query, 0, 2) == query;
    assert Words(query, 2) == [] && Words(query, 0) == [query];
  }

  /** Computes `QueryWordsOf`, which is `ReadWords` exactly when no token asked for holds a mark. */
  method SplitQueryWords(query: Text) returns (words: seq<Text>)
    ensures words == QueryWordsOf(query)
    ensures words == ReadWords(query, 0) <==> Unmarked(ReadTokens(query, 0))
  {
    var kept := KeepSecondOfPairs(query);
    var cleaned := CollapseWhitespace(Sanitized(kept, 0));
    words := [];
    var pos: nat := 0;
    while true
      invariant pos <= |cleaned|
      invariant words + Words(cleaned, pos) == Words(cleaned, 0)
      decreases |cleaned| - pos
    {
      var token := NextTokenBoundaries(cleaned, pos);
      if token.None? {
        break;
      }
      NextTokenBounds(cleaned, pos);
      var word: Text := [];
      for i := token.value.0 to token.value.1
        invariant word == QueryFold(cleaned, token.value.0, i)
      {
        word := QueryPush(word, cleaned[i]);
      }
      assert words + ([word] + Words(cleaned, token.value.1)) == words + [word] + Words(cleaned, token.value.1);
      words := words + [word];
      pos := token.value.1;
    }
    QueryAsksWhatIsIndexed(query);
  }

}
