/** The first and last content words of a line. The specification takes every token in turn; the method
    leaves the middle out and gives the same answer. */
module LineEdges {
  import opened Prelude
  import opened Tokenizer

  /** A content word: its position, and where it lies in the line. */
  datatype Edge = Edge(position: nat, start: nat, end: nat)

  /** The state of a walk: where it stands, the positions given out, and the edges found so far. */
  datatype Scan = Scan(at: nat, count: nat, share: bool, first: Option<Edge>, last: Option<Edge>)

  /** The range that a word must lie in to count as content. */
  type Content = (nat, nat)

  function PositionOf(scan: Scan): int {
    if scan.share then scan.count - 1 else scan.count
  }

  predicate InContent(token: Span, content: Content) {
    content.0 <= token.0 && token.1 <= content.1
  }

  /** The first word stays the first; a second reading at its position extends it. */
  function WithFirst(first: Option<Edge>, position: nat, token: Span): Option<Edge> {
    match first
    case None => Some(Edge(position, token.0, token.1))
    case Some(edge) => if edge.position == position then Some(edge.(end := token.1)) else first
  }

  /** The last word is the newest; a second reading at its position extends it. */
  function WithLast(last: Option<Edge>, position: nat, token: Span): Option<Edge> {
    match last
    case None => Some(Edge(position, token.0, token.1))
    case Some(edge) =>
      if edge.position == position then Some(edge.(end := token.1)) else Some(Edge(position, token.0, token.1))
  }

  /** A walk that has read no second reading without its first. */
  predicate Sane(scan: Scan) {
    scan.share ==> scan.count > 0
  }

  /** The walk after one token. */
  function Stepped(text: Text, content: Content, scan: Scan, token: Span): (r: Scan)
    requires token.0 <= token.1 <= |text| && Sane(scan)
    ensures Sane(r)
  {
    var position := PositionOf(scan);
    var within := InContent(token, content);
    Scan(
      token.1,
      if scan.share then scan.count else scan.count + 1,
      PairedReadingAfter(text, token).Some?,
      if within then WithFirst(scan.first, position, token) else scan.first,
      if within then WithLast(scan.last, position, token) else scan.last)
  }

  /** The walk once no token is left. */
  function Finished(text: Text, content: Content, scan: Scan): Scan
    requires scan.at <= |text| && Sane(scan)
    decreases |text| - scan.at
  {
    match NextToken(text, scan.at)
    case None => scan
    case Some(token) =>
      NextTokenBounds(text, scan.at);
      Finished(text, content, Stepped(text, content, scan, token))
  }

  const START := Scan(0, 0, false, None, None)

  /** The specification: both edges, after all tokens have been taken. */
  function Reference(text: Text, content: Content): (Option<Edge>, Option<Edge>) {
    var walk := Finished(text, content, START);
    (walk.first, walk.last)
  }

  /** The walk over the tokens that start before `to`. */
  function WalkedTo(text: Text, content: Content, scan: Scan, to: nat): (r: Scan)
    requires scan.at <= |text| && Sane(scan)
    ensures r.at <= |text| && Sane(r)
    decreases |text| - scan.at
  {
    match NextToken(text, scan.at)
    case None => scan
    case Some(token) =>
      NextTokenBounds(text, scan.at);
      if token.0 >= to then scan else WalkedTo(text, content, Stepped(text, content, scan, token), to)
  }

  lemma {:induction false} WalkSplits(text: Text, content: Content, scan: Scan, to: nat)
    requires scan.at <= |text| && Sane(scan)
    ensures Finished(text, content, scan) == Finished(text, content, WalkedTo(text, content, scan, to))
    decreases |text| - scan.at
  {
    if NextToken(text, scan.at).Some? {
      NextTokenBounds(text, scan.at);
      var token := NextToken(text, scan.at).value;
      if token.0 < to {
        WalkSplits(text, content, Stepped(text, content, scan, token), to);
      }
    }
  }

  // ── Resuming near the end ────────────────────────────────────────────────────

  /** A word starts at `at`, right after whitespace. */
  predicate IsResumePoint(text: Text, at: nat) {
    0 < at < |text| && text[at].Letter? && text[at - 1].Space?
  }

  /** A walk about to read a second reading stands right before it. */
  predicate SharesNext(text: Text, scan: Scan)
    requires scan.at <= |text|
  {
    scan.share ==>
      && NextToken(text, scan.at).Some?
      && var start := NextToken(text, scan.at).value.0;
         0 < start <= |text| && text[start - 1].OpenBracket?
  }

  lemma TokenStopsAtResume(text: Text, from: nat, to: nat)
    requires from < to && IsResumePoint(text, to)
    ensures NextToken(text, from).Some?
    ensures var (start, end) := NextToken(text, from).value;
            && from <= start < end <= |text| && start <= to && (start < to ==> end < to)
            && (start == to ==> NextToken(text, from) == NextToken(text, to))
  {
    var start := FirstLetter(text, from);
    NoneBeforeFirst(text, from);
    assert text[to].Letter?;
    NextTokenBounds(text, from);
    if start < to {
      var end := NextToken(text, from).value.1;
      assert !text[to - 1].ContinuesToken();
      assert start < to - 1;
      assert end <= to - 1;
    } else {
      SkipToToken(text, from, to);
    }
  }

  lemma SteppedShares(text: Text, content: Content, scan: Scan, token: Span)
    requires token.0 <= token.1 <= |text| && Sane(scan)
    ensures SharesNext(text, Stepped(text, content, scan, token))
  {
    if PairedReadingAfter(text, token).Some? {
      SecondReadingIsNext(text, token);
    }
  }

  /** Tokenizing can resume after whitespace: no token and no pair straddles the point. */
  lemma {:induction false} WalkStopsAtResume(text: Text, content: Content, scan: Scan, to: nat)
    requires scan.at < to && IsResumePoint(text, to) && Sane(scan)
    requires SharesNext(text, scan)
    ensures var r := WalkedTo(text, content, scan, to);
            r.at < to && !r.share && NextToken(text, r.at) == NextToken(text, to)
    decreases |text| - scan.at
  {
    TokenStopsAtResume(text, scan.at, to);
    var token := NextToken(text, scan.at).value;
    if token.0 < to {
      SteppedShares(text, content, scan, token);
      WalkStopsAtResume(text, content, Stepped(text, content, scan, token), to);
    }
  }

  // ── What the last word forgets ───────────────────────────────────────────────

  /** Every position still to come is after the last word's, and the first word is settled. */
  predicate Settled(scan: Scan) {
    && scan.first.Some? && scan.first.value.position < PositionOf(scan)
    && (scan.last.Some? ==> scan.last.value.position < PositionOf(scan))
  }

  /** Two walks alike but for the last word seen so far. */
  predicate AlikeButLast(a: Scan, b: Scan) {
    a.count == b.count && a.share == b.share && a.first == b.first
  }

  /** A walk's last word does not depend on what it had seen, once it sees another. */
  lemma {:induction false} LastForgets(text: Text, content: Content, a: Scan, b: Scan)
    requires a.at <= |text| && b.at <= |text| && Sane(a) && Sane(b)
    requires NextToken(text, a.at) == NextToken(text, b.at)
    requires AlikeButLast(a, b) && !a.share && Settled(a) && b.last == None
    ensures var x, y := Finished(text, content, a), Finished(text, content, b);
            x.first == y.first == a.first && x.last == if y.last.Some? then y.last else a.last
    decreases |text| - a.at
  {
    LastForgetsFrom(text, content, a, b, a.last);
  }

  /** The words seen since are the same; `before` is what one of the walks had seen. */
  predicate SameSince(a: Scan, b: Scan, before: Option<Edge>) {
    && AlikeButLast(a, b)
    && a.first.Some? && a.first.value.position < PositionOf(a)
    && (if b.last.Some? then a.last == b.last
        else a.last == before && (before.Some? ==> before.value.position < PositionOf(a)))
  }

  lemma {:induction false} LastForgetsFrom(text: Text, content: Content, a: Scan, b: Scan, before: Option<Edge>)
    requires a.at <= |text| && b.at <= |text| && Sane(a) && Sane(b)
    requires NextToken(text, a.at) == NextToken(text, b.at)
    requires SameSince(a, b, before)
    ensures var x, y := Finished(text, content, a), Finished(text, content, b);
            x.first == y.first == a.first && x.last == if y.last.Some? then y.last else before
    decreases |text| - a.at
  {
    if NextToken(text, a.at).Some? {
      var token := NextToken(text, a.at).value;
      NextTokenBounds(text, a.at);
      NextTokenBounds(text, b.at);
      var a', b' := Stepped(text, content, a, token), Stepped(text, content, b, token);
      if SameSince(a', b', before) {
        LastForgetsFrom(text, content, a', b', before);
      }
    }
  }

  /** No recorded position has still to come. */
  predicate Recorded(scan: Scan) {
    && (scan.first.Some? ==> scan.first.value.position < scan.count)
    && (scan.last.Some? ==> scan.last.value.position < scan.count)
  }

  lemma {:induction false} WalkKeepsFirst(text: Text, content: Content, scan: Scan, to: nat)
    requires scan.at <= |text| && Sane(scan) && Recorded(scan)
    requires scan.first.Some? && scan.first.value.position < PositionOf(scan)
    ensures var r := WalkedTo(text, content, scan, to); Recorded(r) && r.first == scan.first
    decreases |text| - scan.at
  {
    if NextToken(text, scan.at).Some? {
      NextTokenBounds(text, scan.at);
      var token := NextToken(text, scan.at).value;
      if token.0 < to {
        WalkKeepsFirst(text, content, Stepped(text, content, scan, token), to);
      }
    }
  }

  /** Resuming at `to` with the middle only counted finishes as the whole walk does, but for a
      last word in the middle. */
  lemma ResumedWalk(text: Text, content: Content, scan: Scan, to: nat, positions: int)
    requires scan.at < to && IsResumePoint(text, to)
    requires Recorded(scan) && scan.first.Some? && !scan.share
    requires var (tokens, pairs) := Tally(text, scan.at, to); positions == tokens - pairs && positions >= 0
    ensures var resumed := Scan(to, scan.count + positions, false, scan.first, None);
            var whole, end := Finished(text, content, scan), Finished(text, content, resumed);
            whole.first == end.first == scan.first && (end.last.Some? ==> whole.last == end.last)
  {
    var met := WalkedTo(text, content, scan, to);
    WalkSplits(text, content, scan, to);
    WalkStopsAtResume(text, content, scan, to);
    WalkCounts(text, content, scan, to);
    WalkKeepsFirst(text, content, scan, to);
    LastForgets(text, content, met, Scan(to, scan.count + positions, false, scan.first, None));
  }

  // ── Counting the middle ──────────────────────────────────────────────────────

  /** How many tokens start from `at` up to `to`, and how many of those begin a pair. */
  function Tally(text: Text, at: nat, to: nat): (nat, nat)
    requires at <= |text|
    decreases |text| - at
  {
    match NextToken(text, at)
    case None => (0, 0)
    case Some(token) =>
      NextTokenBounds(text, at);
      if token.0 >= to then (0, 0)
      else
        var (tokens, pairs) := Tally(text, token.1, to);
        (tokens + 1, pairs + if PairedReadingAfter(text, token).Some? then 1 else 0)
  }

  function One(b: bool): nat {
    if b then 1 else 0
  }

  /** A walk counts its tokens, a pair's two readings once. */
  lemma {:induction false} WalkCounts(text: Text, content: Content, scan: Scan, to: nat)
    requires scan.at <= |text| && Sane(scan)
    ensures var r := WalkedTo(text, content, scan, to);
            var (tokens, pairs) := Tally(text, scan.at, to);
            r.count + pairs + One(scan.share) == scan.count + tokens + One(r.share)
    decreases |text| - scan.at
  {
    if NextToken(text, scan.at).Some? {
      NextTokenBounds(text, scan.at);
      var token := NextToken(text, scan.at).value;
      if token.0 < to {
        WalkCounts(text, content, Stepped(text, content, scan, token), to);
      }
    }
  }

  lemma SameTally(text: Text, a: nat, b: nat, to: nat)
    requires a <= |text| && b <= |text| && NextToken(text, a) == NextToken(text, b)
    ensures Tally(text, a, to) == Tally(text, b, to)
  {
  }

  lemma NoTally(text: Text, at: nat, to: nat)
    requires at <= |text| && (NextToken(text, at).Some? ==> NextToken(text, at).value.0 >= to)
    ensures Tally(text, at, to) == (0, 0)
  {
  }

  /** `runEnd` ends a run of characters that can stand in a token. */
  predicate RunEnds(text: Text, start: nat, runEnd: nat) {
    && start <= runEnd <= |text|
    && (forall j :: start <= j < runEnd ==> text[j].ContinuesToken())
    && (runEnd < |text| ==> !text[runEnd].ContinuesToken())
  }

  /** Word characters alone make one token: it starts at the first letter and fills the rest. */
  lemma SimpleRun(text: Text, start: nat, letter: nat, runEnd: nat)
    requires RunEnds(text, start, runEnd) && start <= letter < runEnd && text[letter].Letter?
    requires forall j :: start <= j < letter ==> !text[j].Letter?
    requires forall j :: start <= j < runEnd ==> text[j].IsWordChar()
    ensures NextToken(text, start) == Some((letter, runEnd))
  {
    SkipToToken(text, start, letter);
    RunOfWordChars(text, letter, runEnd);
  }

  lemma {:induction false} RunOfWordChars(text: Text, i: nat, runEnd: nat)
    requires i <= runEnd <= |text| && (runEnd < |text| ==> !text[runEnd].ContinuesToken())
    requires forall j :: i <= j < runEnd ==> text[j].IsWordChar()
    ensures TokenEnd(text, i) == runEnd
    decreases runEnd - i
  {
    if i < runEnd {
      RunOfWordChars(text, i + 1, runEnd);
    }
  }

  /** A token that starts inside a run ends inside it. */
  lemma TokenInRun(text: Text, at: nat, runEnd: nat)
    requires at <= runEnd <= |text| && (runEnd < |text| ==> !text[runEnd].ContinuesToken())
    requires NextToken(text, at).Some? && NextToken(text, at).value.0 < runEnd
    ensures at < NextToken(text, at).value.1 <= runEnd
  {
    NextTokenBounds(text, at);
  }

  /** Counted so far, and still to count from `at`, make the whole. */
  predicate Counting(text: Text, from: nat, to: nat, at: nat, tokens: nat, pairs: nat) {
    && from <= at <= |text|
    && var (all, allPairs) := Tally(text, from, to);
       var (rest, restPairs) := Tally(text, at, to);
       tokens + rest == all && pairs + restPairs == allPairs
  }

  lemma CountsToken(text: Text, from: nat, to: nat, at: nat, tokens: nat, pairs: nat)
    requires Counting(text, from, to, at, tokens, pairs)
    requires NextToken(text, at).Some? && NextToken(text, at).value.0 < to
    ensures var token := NextToken(text, at).value;
            && token.0 < token.1 <= |text|
            && Counting(text, from, to, token.1, tokens + 1, pairs + One(PairedReadingAfter(text, token).Some?))
  {
    NextTokenBounds(text, at);
  }

  /** `positions` is the tally of `from..to`, tokens less pairs; runs of word characters are counted
      as they stand and other runs by `CountRun`. */
  method PositionsBetween(text: Text, from: nat, to: nat) returns (positions: int)
    requires from <= to && IsResumePoint(text, to)
    ensures var (tokens, pairs) := Tally(text, from, to); positions == tokens - pairs
  {
    var tokens: nat, pairs: nat := 0, 0;
    var i: nat := from;
    while i < to
      invariant from <= i <= to
      invariant Counting(text, from, to, i, tokens, pairs)
    {
      if !text[i].ContinuesToken() {
        SkipToToken(text, i, i + 1);
        SameTally(text, i, i + 1, to);
        i := i + 1;
        continue;
      }
      var runEnd, simple, letter := ScanRun(text, i);
      assert !text[to - 1].ContinuesToken();
      assert runEnd < to;
      if simple {
        if letter.Some? {
          SimpleRun(text, i, letter.value, runEnd);
          CountsToken(text, from, to, i, tokens, pairs);
          tokens := tokens + 1;
          if PairedReadingAfter(text, (letter.value, runEnd)).Some? {
            pairs := pairs + 1;
          }
        } else {
          SkipToToken(text, i, runEnd);
          SameTally(text, i, runEnd, to);
        }
      } else {
        tokens, pairs := CountRun(text, from, to, i, runEnd, tokens, pairs);
      }
      i := runEnd;
    }
    FirstIsLetter(text, to);
    NoTally(text, to, to);
    positions := tokens - pairs;
  }

  lemma FirstIsLetter(text: Text, to: nat)
    requires to < |text| && text[to].Letter?
    ensures NextToken(text, to).Some? && NextToken(text, to).value.0 == to
  {
  }

  predicate IsFirstLetter(text: Text, start: nat, end: nat, letter: Option<nat>)
    requires end <= |text|
  {
    match letter
    case None => forall j :: start <= j < end ==> !text[j].Letter?
    case Some(i) => start <= i < end && text[i].Letter? && forall j :: start <= j < i ==> !text[j].Letter?
  }

  /** The run at `start`: its end, whether it is made of word characters alone, its first letter. */
  method ScanRun(text: Text, start: nat) returns (runEnd: nat, simple: bool, letter: Option<nat>)
    requires start < |text| && text[start].ContinuesToken()
    ensures start < runEnd && RunEnds(text, start, runEnd)
    ensures simple == forall j :: start <= j < runEnd ==> text[j].IsWordChar()
    ensures IsFirstLetter(text, start, runEnd, letter)
  {
    runEnd, simple, letter := start, true, None;
    while runEnd < |text| && text[runEnd].ContinuesToken()
      invariant start <= runEnd <= |text|
      invariant forall j :: start <= j < runEnd ==> text[j].ContinuesToken()
      invariant simple == forall j :: start <= j < runEnd ==> text[j].IsWordChar()
      invariant IsFirstLetter(text, start, runEnd, letter)
    {
      if text[runEnd].Letter? {
        if letter.None? {
          letter := Some(runEnd);
        }
      } else if !text[runEnd].Mark? {
        simple := false;
      }
      runEnd := runEnd + 1;
    }
  }

  /** The counts over one run, token by token. */
  method CountRun(text: Text, ghost from: nat, ghost to: nat, start: nat, runEnd: nat, tokens: nat, pairs: nat)
    returns (tokens': nat, pairs': nat)
    requires start < runEnd < to && RunEnds(text, start, runEnd)
    requires Counting(text, from, to, start, tokens, pairs)
    ensures Counting(text, from, to, runEnd, tokens', pairs')
  {
    tokens', pairs' := tokens, pairs;
    var at: nat := start;
    while true
      invariant start <= at <= runEnd
      invariant Counting(text, from, to, at, tokens', pairs')
      decreases runEnd - at
    {
      var token := NextTokenBoundaries(text, at);
      if token.None? || token.value.0 >= runEnd {
        break;
      }
      TokenInRun(text, at, runEnd);
      CountsToken(text, from, to, at, tokens', pairs');
      tokens' := tokens' + 1;
      if PairedReadingAfter(text, token.value).Some? {
        pairs' := pairs' + 1;
      }
      at := token.value.1;
    }
    NoLetterLeft(text, at, runEnd);
    SameTally(text, at, runEnd, to);
  }

  lemma NoLetterLeft(text: Text, at: nat, runEnd: nat)
    requires at <= runEnd <= |text|
    requires NextToken(text, at).Some? ==> NextToken(text, at).value.0 >= runEnd
    ensures NextToken(text, at) == NextToken(text, runEnd)
  {
    assert FirstLetter(text, at) >= runEnd;
    NoneBeforeFirst(text, at);
    SkipToToken(text, at, runEnd);
  }

  // ── The edges ────────────────────────────────────────────────────────────────

  /** The greatest resume point strictly inside `from..to`. */
  method ResumePoint(text: Text, from: nat, to: nat) returns (resume: Option<nat>)
    requires from <= to <= |text|
    ensures resume.Some? ==> from < resume.value < to && IsResumePoint(text, resume.value)
    ensures forall j :: from < j < to && IsResumePoint(text, j) ==> resume.Some? && j <= resume.value
  {
    var i: nat := to;
    while i > from + 1
      invariant from <= i <= to
      invariant forall j :: i <= j < to && from < j ==> !IsResumePoint(text, j)
    {
      i := i - 1;
      if text[i].Letter? && text[i - 1].Space? {
        return Some(i);
      }
    }
    resume := None;
  }

  /** A walk as an object: `Finished` of its state never changes. */
  class EdgeScan {
    const text: Text
    const content: Content
    var scan: Scan

    ghost predicate Valid()
      reads this
    {
      scan.at <= |text| && Sane(scan)
    }

    constructor (text: Text, content: Content)
      ensures Valid() && scan == START && this.text == text && this.content == content
    {
      this.text, this.content := text, content;
      scan := START;
    }

    /** Advances over one token; `false` at the end. */
    method Step() returns (more: bool)
      requires Valid()
      modifies this
      ensures Valid() && more == NextToken(text, old(scan).at).Some?
      ensures !more ==> scan == old(scan)
      ensures more ==>
                && var token := NextToken(text, old(scan).at).value;
                && token.0 <= token.1 <= |text| && scan == Stepped(text, content, old(scan), token)
                && scan.at > old(scan).at
      ensures Finished(text, content, scan) == Finished(text, content, old(scan))
    {
      var token := NextTokenBoundaries(text, scan.at);
      if token.None? {
        return false;
      }
      NextTokenBounds(text, scan.at);
      scan := Stepped(text, content, scan, token.value);
      more := true;
    }

    method Finish()
      requires Valid()
      modifies this
      ensures Valid() && scan == Finished(text, content, old(scan))
    {
      var more := Step();
      while more
        invariant Valid()
        invariant Finished(text, content, scan) == Finished(text, content, old(scan))
        invariant !more ==> NextToken(text, scan.at).None?
        decreases more, |text| - scan.at
      {
        more := Step();
      }
    }
  }

  /** `Reference` of the line, without taking the tokens between the first content word and a resume
      point: of those only the tally is needed. */
  method Edges(text: Text, content: Content) returns (first: Option<Edge>, last: Option<Edge>)
    requires content.0 <= content.1 <= |text|
    ensures (first, last) == Reference(text, content)
  {
    var walk := new EdgeScan(text, content);
    var more := true;
    while more && !(walk.scan.first.Some? && !walk.scan.share)
      invariant walk.text == text && walk.content == content && walk.Valid() && fresh(walk)
      invariant Recorded(walk.scan)
      invariant Finished(text, content, walk.scan) == Finished(text, content, START)
      invariant !more ==> NextToken(text, walk.scan.at).None?
      decreases more, |text| - walk.scan.at
    {
      more := walk.Step();
    }
    if more {
      var tail := None;
      if walk.scan.at < content.1 {
        tail := ResumePoint(text, walk.scan.at, content.1);
      }
      if tail.Some? {
        var before := walk.scan;
        var positions := PositionsBetween(text, before.at, tail.value);
        TallyIsSound(text, before.at, tail.value);
        ResumedWalk(text, content, before, tail.value, positions);
        walk.scan := Scan(tail.value, before.count + positions, false, before.first, None);
        walk.Finish();
        if walk.scan.last.None? {
          // `ResumedWalk` says nothing here: the last edge may lie in what was left out.
          walk.scan := before;
          walk.Finish();
        }
      } else {
        walk.Finish();
      }
    }
    first, last := walk.scan.first, walk.scan.last;
  }

  /** Every pair is among the tokens. */
  lemma {:induction false} TallyIsSound(text: Text, at: nat, to: nat)
    requires at <= |text|
    ensures Tally(text, at, to).1 <= Tally(text, at, to).0
    decreases |text| - at
  {
    if NextToken(text, at).Some? {
      NextTokenBounds(text, at);
      if NextToken(text, at).value.0 < to {
        TallyIsSound(text, NextToken(text, at).value.1, to);
      }
    }
  }
}
