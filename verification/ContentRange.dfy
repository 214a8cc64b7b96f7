/** What is left of a line once the enumerators at its two ends are taken off. */
module ContentRanges {
  import opened Prelude
  import opened Tokenizer
  import opened LineEdges

  // ── Enumerators ──────────────────────────────────────────────────────────────

  /** The longest enumerator between its brackets. */
  const MARKER_CHARS: nat := 5

  datatype Bracket = Round | Square | Curly

  predicate Opens(c: Char, bracket: Bracket) {
    match bracket
    case Round => c.OpenParen?
    case Square => c.OpenBracket?
    case Curly => c.Separator? && c.code == 0x7B
  }

  predicate Closes(c: Char, bracket: Bracket) {
    match bracket
    case Round => c.CloseParen?
    case Square => c.CloseBracket?
    case Curly => c.Separator? && c.code == 0x7D
  }

  /** A Hebrew letter, an ASCII digit, a quote or an asterisk; codes are Unicode's. */
  predicate IsMarkerChar(c: Char) {
    match c
    case Letter(code) => 0x5D0 <= code <= 0x5EA || 0x30 <= code <= 0x39
    case Geresh(code) => code == 0x27 || code == 0x5F3
    case Gershayim(code) => code == 0x22 || code == 0x5F4
    case Transparent(code) => code == 0x2A
    case _ => false
  }

  /** What may follow a trailing enumerator: spaces, colons, full stops, commas and sof pasuqs. */
  predicate IsTrailing(c: Char) {
    match c
    case Space(_) => true
    case Separator(code, _) => code == 0x3A || code == 0x2C || code == 0x5C3
    case Transparent(code) => code == 0x2E
    case _ => false
  }

  /** Between a bracket at `open` and one at `close` stand one to five marker characters. */
  predicate IsMarker(text: Text, open: nat, close: nat, bracket: Bracket) {
    && open + 1 < close <= open + 1 + MARKER_CHARS && close < |text|
    && Opens(text[open], bracket) && Closes(text[close], bracket)
    && forall i :: open < i < close ==> IsMarkerChar(text[i])
  }

  /** Where the pair whose opening parenthesis is at `open` ends. */
  function ReadingPairEnd(text: Text, open: nat): Option<nat>
    requires open < |text|
  {
    match NextToken(text, open + 1)
    case None => None
    case Some(first) =>
      TokenFits(text, open + 1);
      if first.0 != open + 1 then None
      else
        var pair := PairedReadingAfter(text, first);
        if pair.Some? then Some(pair.value.afterPair) else None
  }

  // ── The leading one ──────────────────────────────────────────────────────────

  /** The enumerator that leads the line, unless it is the first reading of a pair. */
  ghost predicate IsLeading(text: Text, open: nat, close: nat, bracket: Bracket) {
    && open == SkipSpaces(text, 0) && IsMarker(text, open, close, bracket)
    && !(bracket.Round? && ReadingPairEnd(text[open..], 0).Some?)
  }

  /** Past the leading enumerator and the spaces after it; 0 when there is none. */
  ghost predicate IsContentStart(text: Text, start: nat) {
    || (start == 0 && forall open: nat, close: nat, bracket :: !IsLeading(text, open, close, bracket))
    || (exists open: nat, close: nat, bracket ::
         IsLeading(text, open, close, bracket) && start == SkipSpaces(text, close + 1))
  }

  function OpenedAt(text: Text, i: nat): Option<Bracket> {
    if i >= |text| then None
    else if text[i].OpenParen? then Some(Round)
    else if text[i].OpenBracket? then Some(Square)
    else if Opens(text[i], Curly) then Some(Curly)
    else None
  }

  method LeadingMarkerLen(text: Text) returns (start: nat)
    ensures IsContentStart(text, start)
  {
    var open := SkipSpaces(text, 0);
    var bracket := OpenedAt(text, open);
    if bracket.None? || (bracket == Some(Round) && ReadingPairEnd(text[open..], 0).Some?) {
      return 0;
    }
    for i := open + 1 to |text|
      invariant forall j :: open < j < i ==> IsMarkerChar(text[j])
    {
      if Closes(text[i], bracket.value) {
        if i == open + 1 || i > open + 1 + MARKER_CHARS {
          return 0;
        }
        assert IsLeading(text, open, i, bracket.value);
        return SkipSpaces(text, i + 1);
      }
      if !IsMarkerChar(text[i]) {
        return 0;
      }
    }
    start := 0;
  }

  // ── The trailing one ─────────────────────────────────────────────────────────

  /** Back over the spaces before `i`. */
  function TrimSpaces(text: Text, i: nat): (r: nat)
    requires i <= |text|
    ensures r <= i && forall j :: r <= j < i ==> text[j].Space?
    ensures r > 0 ==> !text[r - 1].Space?
  {
    if i > 0 && text[i - 1].Space? then TrimSpaces(text, i - 1) else i
  }

  /** Back over what may follow an enumerator. */
  function TrimTrailing(text: Text, i: nat): (r: nat)
    requires i <= |text|
    ensures r <= i && forall j :: r <= j < i ==> IsTrailing(text[j])
    ensures r > 0 ==> !IsTrailing(text[r - 1])
  {
    if i > 0 && IsTrailing(text[i - 1]) then TrimTrailing(text, i - 1) else i
  }

  /** The last opening parenthesis before `n`. */
  function LastOpen(text: Text, n: nat): (r: Option<nat>)
    requires n <= |text|
    ensures r.Some? ==> r.value < n && text[r.value].OpenParen?
    ensures forall i :: 0 <= i < n && text[i].OpenParen? ==> r.Some? && i <= r.value
  {
    if n == 0 then None else if text[n - 1].OpenParen? then Some(n - 1) else LastOpen(text, n - 1)
  }

  /** The group closed at `close` is the first reading of a pair that ends before `end`. */
  predicate ReadingEndsAt(text: Text, close: nat, end: nat)
    requires close < end <= |text|
  {
    var open := LastOpen(text, close);
    open.Some? && ReadingPairEnd(text[..end], open.value) == Some(end)
  }

  /** The group just before `open` is the first reading of a pair that ends before `end`. */
  predicate ClosesPair(text: Text, open: nat, end: nat)
    requires open < end <= |text|
  {
    var before := TrimSpaces(text, open);
    before > 0 && text[before - 1].CloseParen? && ReadingEndsAt(text, before - 1, end)
  }

  /** An enumerator ends the line but for what may follow one. */
  predicate EndsLine(text: Text, open: nat, close: nat, bracket: Bracket) {
    IsMarker(text, open, close, bracket) && forall i :: close < i < |text| ==> IsTrailing(text[i])
  }

  /** ... and does not close a pair. */
  predicate IsFinal(text: Text, open: nat, close: nat, bracket: Bracket) {
    EndsLine(text, open, close, bracket) && !(bracket.Square? && ClosesPair(text, open, close + 1))
  }

  /** Where the trailing enumerator and the spaces before it begin; the line's end when there is none. */
  ghost predicate IsContentEnd(text: Text, end: nat) {
    || (end == |text| && forall open: nat, close: nat, bracket :: !IsFinal(text, open, close, bracket))
    || (exists open: nat, close: nat, bracket :: IsFinal(text, open, close, bracket) && end == TrimSpaces(text, open))
  }

  function ClosedAt(text: Text, i: nat): Option<Bracket>
    requires i < |text|
  {
    if text[i].CloseParen? then Some(Round)
    else if text[i].CloseBracket? then Some(Square)
    else if Closes(text[i], Curly) then Some(Curly)
    else None
  }

  /** A line has one last character that may not follow an enumerator. */
  lemma OneLast(text: Text, last: nat, open: nat, close: nat, bracket: Bracket)
    requires last < |text| && !IsTrailing(text[last]) && forall i :: last < i < |text| ==> IsTrailing(text[i])
    requires EndsLine(text, open, close, bracket)
    ensures close == last && ClosedAt(text, last) == Some(bracket)
  {
  }

  /** The marker that a bracket closes. */
  method MarkerOpen(text: Text, close: nat, bracket: Bracket) returns (open: Option<nat>)
    requires close < |text| && Closes(text[close], bracket)
    ensures open.Some? ==> IsMarker(text, open.value, close, bracket)
    ensures open.None? ==> forall o: nat :: !IsMarker(text, o, close, bracket)
  {
    var i: nat := close;
    while i > 0
      invariant i <= close && forall j :: i <= j < close ==> IsMarkerChar(text[j])
    {
      i := i - 1;
      if Opens(text[i], bracket) {
        if i + 1 == close || close > i + 1 + MARKER_CHARS {
          return None;
        }
        return Some(i);
      }
      if !IsMarkerChar(text[i]) {
        return None;
      }
    }
    open := None;
  }

  method TrailingMarkerStart(text: Text) returns (end: nat)
    ensures IsContentEnd(text, end)
  {
    var trimmed := TrimTrailing(text, |text|);
    if trimmed == 0 {
      return |text|;
    }
    var close := trimmed - 1;
    forall o: nat, c: nat, b | EndsLine(text, o, c, b) ensures c == close && ClosedAt(text, close) == Some(b) {
      OneLast(text, close, o, c, b);
    }
    var bracket := ClosedAt(text, close);
    if bracket.None? {
      return |text|;
    }
    var open := MarkerOpen(text, close, bracket.value);
    if open.None? {
      return |text|;
    }
    forall o: nat | EndsLine(text, o, close, bracket.value) ensures o == open.value {
      OneOpen(text, o, open.value, close, bracket.value);
    }
    // A second reading is no enumerator.
    if bracket == Some(Square) && ClosesPair(text, open.value, close + 1) {
      return |text|;
    }
    assert IsFinal(text, open.value, close, bracket.value);
    end := TrimSpaces(text, open.value);
  }

  lemma OneOpen(text: Text, a: nat, b: nat, close: nat, bracket: Bracket)
    requires IsMarker(text, a, close, bracket) && IsMarker(text, b, close, bracket)
    ensures a == b
  {
  }

  ghost predicate IsContentRange(text: Text, content: Content) {
    exists start: nat, end: nat ::
        IsContentStart(text, start) && IsContentEnd(text, end) && content == (start, Max(start, end))
  }

  method ContentRange(text: Text) returns (content: Content)
    ensures IsContentRange(text, content) && content.0 <= content.1 <= |text|
  {
    var start := LeadingMarkerLen(text);
    var end := TrailingMarkerStart(text);
    content := (start, Max(start, end));
  }

  // ── Enumerators, character by character ──────────────────────────────────────

  /** The characters of an enumerator: Hebrew letters, digits, quotes, asterisks. */
  predicate IsEnumeratorChar(c: Char) {
    || (c.Letter? && 0x30 <= c.code <= 0x39) || (c.Letter? && 0x5D0 <= c.code <= 0x5EA)
    || c in {Geresh(0x27), Geresh(0x5F3), Gershayim(0x22), Gershayim(0x5F4), Transparent(0x2A)}
  }

  predicate AreBrackets(open: Char, close: Char) {
    || (open.OpenParen? && close.CloseParen?) || (open.OpenBracket? && close.CloseBracket?)
    || (open.Separator? && open.code == 0x7B && close.Separator? && close.code == 0x7D)
  }

  /** One to five such characters between two brackets. */
  predicate IsEnumerator(text: Text, open: nat, close: nat) {
    && open + 2 <= close <= open + 6 && close < |text| && AreBrackets(text[open], text[close])
    && forall i :: open < i < close ==> IsEnumeratorChar(text[i])
  }

  lemma MarkersAreEnumerators(text: Text, open: nat, close: nat)
    ensures IsEnumerator(text, open, close) <==> exists bracket :: IsMarker(text, open, close, bracket)
  {
    if IsEnumerator(text, open, close) {
      var bracket := if text[open].OpenParen? then Round else if text[open].OpenBracket? then Square else Curly;
      assert IsMarker(text, open, close, bracket);
    }
  }

  /** The content starts past an enumerator that leads the line, unless that is in round brackets and opens a
      pair, and at 0 when there is none. */
  lemma EnumeratorsLead(text: Text, start: nat, open: nat, close: nat)
    requires IsContentStart(text, start) && open == SkipSpaces(text, 0)
    requires IsEnumerator(text, open, close)
    ensures start == if text[open].OpenParen? && ReadingPairEnd(text[open..], 0).Some? then 0
                     else SkipSpaces(text, close + 1)
  {
    MarkersAreEnumerators(text, open, close);
    var bracket :| IsMarker(text, open, close, bracket);
    if !(text[open].OpenParen? && ReadingPairEnd(text[open..], 0).Some?) {
      assert IsLeading(text, open, close, bracket);
    }
    forall c: nat, b | IsLeading(text, open, c, b) ensures c == close {
    }
  }

  lemma NothingElseLeads(text: Text, start: nat)
    requires IsContentStart(text, start) && forall close: nat :: !IsEnumerator(text, SkipSpaces(text, 0), close)
    ensures start == 0
  {
    if start > 0 {
      var open: nat, close: nat, bracket :| IsLeading(text, open, close, bracket)
          && start == SkipSpaces(text, close + 1);
      MarkersAreEnumerators(text, open, close);
    }
  }

  /** The content ends before an enumerator that ends the line, but for spaces, colons, full stops, commas and
      sof pasuqs, unless that is in square brackets and closes a pair; and at the line's end when there is none. */
  lemma EnumeratorsTrail(text: Text, end: nat, open: nat, close: nat)
    requires IsContentEnd(text, end) && IsEnumerator(text, open, close)
    requires forall i :: close < i < |text| ==> MayTrail(text[i])
    ensures end == if text[open].OpenBracket? && ClosesPair(text, open, close + 1) then |text|
                   else TrimSpaces(text, open)
  {
    MarkersAreEnumerators(text, open, close);
    var bracket :| IsMarker(text, open, close, bracket);
    assert EndsLine(text, open, close, bracket);
    FinalOrNone(text, end, open, close, bracket, ClosesPair(text, open, close + 1));
  }

  lemma FinalOrNone(text: Text, end: nat, open: nat, close: nat, bracket: Bracket, pair: bool)
    requires IsContentEnd(text, end) && EndsLine(text, open, close, bracket)
    requires pair == ClosesPair(text, open, close + 1)
    ensures end == if text[open].OpenBracket? && pair then |text| else TrimSpaces(text, open)
  {
    if !(bracket.Square? && pair) {
      assert IsFinal(text, open, close, bracket);
    }
    if o: nat, c: nat, b :| IsFinal(text, o, c, b) && end == TrimSpaces(text, o) {
      SameFinal(text, open, close, bracket, o, c, b);
    }
  }

  lemma SameFinal(text: Text, open: nat, close: nat, bracket: Bracket, o: nat, c: nat, b: Bracket)
    requires EndsLine(text, open, close, bracket) && EndsLine(text, o, c, b)
    ensures o == open && c == close && b == bracket
  {
    OneLast(text, close, o, c, b);
    OneOpen(text, o, open, close, b);
  }

  predicate MayTrail(c: Char) {
    c.Space? || (c.Separator? && c.code in {0x3A, 0x2C, 0x5C3}) || c == Transparent(0x2E)
  }

  ghost predicate HasTrailing(text: Text) {
    exists open: nat, close: nat ::
        IsEnumerator(text, open, close) && forall i :: close < i < |text| ==> MayTrail(text[i])
  }

  lemma NothingElseTrails(text: Text, end: nat)
    requires IsContentEnd(text, end) && !HasTrailing(text)
    ensures end == |text|
  {
    if o: nat, c: nat, b :| IsFinal(text, o, c, b) {
      MarkersAreEnumerators(text, o, c);
    }
  }
}
