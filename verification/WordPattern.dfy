/** A word's regex as separate branches: printing them as one alternation, and reading the branches
    back out of such a pattern. */
module WordPatterns {
  import opened Prelude

  // ── The scanner ──────────────────────────────────────────────────────────────

  /** Inside a character class, `index` characters of it have been seen. */
  datatype InClass = Out | In(index: nat, negated: bool)

  datatype Scan = Scan(escaped: bool, cls: InClass, depth: int)

  const START := Scan(false, Out, 0)

  /** One character inside a class; a `]` first in it is a literal. */
  function ClassNext(index: nat, negated: bool, ch: char): InClass {
    if index == 0 && ch == '^' then In(1, true)
    else if ch == ']' && index > (if negated then 1 else 0) then Out
    else In(index + 1, negated)
  }

  function Next(s: Scan, ch: char): Scan {
    if s.escaped then s.(escaped := false)
    else if ch == '\\' then s.(escaped := true)
    else if s.cls.In? then s.(cls := ClassNext(s.cls.index, s.cls.negated, ch))
    else if ch == '[' then s.(cls := In(0, false))
    else if ch == '(' then s.(depth := s.depth + 1)
    else if ch == ')' then s.(depth := s.depth - 1)
    else s
  }

  /** The scan of the first `n` characters. */
  function After(s: Scan, text: string, n: nat): Scan
    requires n <= |text|
  {
    if n == 0 then s else Next(After(s, text, n - 1), text[n - 1])
  }

  /** The character is read for itself: not escaped, and in no class. */
  predicate IsBare(s: Scan) {
    !s.escaped && s.cls.Out?
  }

  predicate IsBar(s: Scan, ch: char) {
    IsBare(s) && ch == '|' && s.depth == 0
  }

  predicate IsClose(s: Scan, ch: char) {
    IsBare(s) && ch == ')' && s.depth == 1
  }

  class CharClassScanner {
    var inClass: bool
    var index: nat
    var negated: bool

    function State(): InClass
      reads this
    {
      if inClass then In(index, negated) else Out
    }

    constructor ()
      ensures State() == Out
    {
      inClass, index, negated := false, 0, false;
    }

    /** Takes a character inside a class; `false` when the scanner is in none. */
    method ConsumeInside(ch: char) returns (consumed: bool)
      modifies this
      ensures consumed == old(State()).In?
      ensures State() == if old(State()).In? then ClassNext(old(index), old(negated), ch) else Out
    {
      if !inClass {
        return false;
      }
      if index == 0 && ch == '^' {
        negated := true;
      } else {
        var literalCloseIndex := if negated then 1 else 0;
        if ch == ']' && index > literalCloseIndex {
          inClass := false;
        }
      }
      index := index + 1;
      consumed := true;
    }

    method Open()
      modifies this
      ensures State() == In(0, false)
    {
      inClass, index, negated := true, 0, false;
    }
  }

  // ── Stripping and splitting ──────────────────────────────────────────────────

  /** Where the group opened first is closed. */
  function FirstClose(pattern: string, i: nat, s: Scan): (r: Option<nat>)
    requires i <= |pattern|
    ensures r.Some? ==> i <= r.value < |pattern|
    decreases |pattern| - i
  {
    if i == |pattern| then None
    else if IsClose(s, pattern[i]) then Some(i)
    else FirstClose(pattern, i + 1, Next(s, pattern[i]))
  }

  predicate StartsPlainGroup(pattern: string) {
    |pattern| >= 3 && pattern[0] == '(' && pattern[1] == '?' && pattern[2] == ':'
  }

  /** Does one group wrap the whole pattern? */
  predicate IsWrapped(pattern: string) {
    && pattern != "" && pattern[0] == '('
    && (StartsPlainGroup(pattern) || !(|pattern| > 1 && pattern[1] == '?'))
    && FirstClose(pattern, 0, START) == Some(|pattern| - 1)
  }

  /** The content of the group that wraps the whole pattern, if one does. */
  function Stripped(pattern: string): string {
    var innerStart := if StartsPlainGroup(pattern) then 3 else 1;
    if IsWrapped(pattern) && innerStart <= |pattern| - 1 then pattern[innerStart..|pattern| - 1] else pattern
  }

  /** The parts between top-level bars; `current` is the part being read. */
  function PartsFrom(text: string, i: nat, s: Scan, current: string): (parts: seq<string>)
    requires i <= |text|
    ensures parts != []
    decreases |text| - i
  {
    if i == |text| then [current]
    else if IsBar(s, text[i]) then [current] + PartsFrom(text, i + 1, s, "")
    else PartsFrom(text, i + 1, Next(s, text[i]), current + [text[i]])
  }

  function NonEmpty(parts: seq<string>): seq<string> {
    if parts == [] then [] else (if parts[0] == "" then [] else [parts[0]]) + NonEmpty(parts[1..])
  }

  /** A pattern's top-level branches. */
  function Branches(pattern: string): seq<string> {
    NonEmpty(PartsFrom(Stripped(pattern), 0, START, ""))
  }

  datatype WordPattern = Literal(pattern: string) | Alternation(branches: seq<string>)
  {
    /** The pattern as one text. */
    function Joined(): string {
      match this
      case Literal(pattern) => pattern
      case Alternation(branches) => "(?:" + WithBars(branches) + ")"
    }
  }

  function WithBars(branches: seq<string>): string {
    if branches == [] then ""
    else if |branches| == 1 then branches[0]
    else branches[0] + "|" + WithBars(branches[1..])
  }

  function Parse(pattern: string): WordPattern {
    if |Branches(pattern)| <= 1 then Literal(pattern) else Alternation(Branches(pattern))
  }

  lemma CloseIsAfter(pattern: string, i: nat, s: Scan)
    requires i < |pattern| && !IsClose(s, pattern[i])
    ensures FirstClose(pattern, i, s) == FirstClose(pattern, i + 1, Next(s, pattern[i]))
  {
  }

  /** Where the group opened by a pattern's first character is closed. */
  method FindClose(pattern: string) returns (close: Option<nat>)
    ensures close == FirstClose(pattern, 0, START)
  {
    var depth, escaped := 0, false;
    var cls := new CharClassScanner();
    for i := 0 to |pattern|
      invariant FirstClose(pattern, 0, START) == FirstClose(pattern, i, Scan(escaped, cls.State(), depth))
    {
      var ch := pattern[i];
      ghost var s := Scan(escaped, cls.State(), depth);
      if escaped {
        escaped := false;
      } else if ch == '\\' {
        escaped := true;
      } else {
        var consumed := cls.ConsumeInside(ch);
        if !consumed {
          if ch == '[' {
            cls.Open();
          } else if ch == '(' {
            depth := depth + 1;
          } else if ch == ')' {
            depth := depth - 1;
            if depth == 0 {
              return Some(i);
            }
          }
        }
      }
      assert Scan(escaped, cls.State(), depth) == Next(s, ch) && !IsClose(s, ch);
    }
    close := None;
  }

  method StripEnclosingGroup(pattern: string) returns (inner: string)
    ensures inner == Stripped(pattern)
  {
    if pattern == "" || pattern[0] != '(' {
      return pattern;
    }
    var innerStart := 1;
    if StartsPlainGroup(pattern) {
      innerStart := 3;
    } else if |pattern| > 1 && pattern[1] == '?' {
      return pattern;
    }
    var close := FindClose(pattern);
    CloseComesLater(pattern);
    if close == Some(|pattern| - 1) {
      inner := pattern[innerStart..|pattern| - 1];
    } else {
      inner := pattern;
    }
  }

  /** The closing bracket comes after the opening one, and after the `?:` that may follow it. */
  lemma CloseComesLater(pattern: string)
    requires pattern != "" && pattern[0] == '('
    ensures var close := FirstClose(pattern, 0, START);
            close.Some? ==> close.value >= 1 && (StartsPlainGroup(pattern) ==> close.value >= 3)
  {
    CloseIsAfter(pattern, 0, START);
    if StartsPlainGroup(pattern) {
      CloseIsAfter(pattern, 1, Next(START, '('));
      CloseIsAfter(pattern, 2, Next(START, '('));
    }
  }

  method SplitTopLevelAlternation(pattern: string) returns (branches: seq<string>)
    ensures branches == Branches(pattern)
  {
    var inner := StripEnclosingGroup(pattern);
    var parts: seq<string> := [];
    var current := "";
    var depth, escaped := 0, false;
    var cls := new CharClassScanner();
    for i := 0 to |inner|
      invariant PartsFrom(inner, 0, START, "")
                  == parts + PartsFrom(inner, i, Scan(escaped, cls.State(), depth), current)
    {
      var ch := inner[i];
      ghost var s := Scan(escaped, cls.State(), depth);
      ghost var was := current;
      if escaped {
        escaped := false;
        current := current + [ch];
      } else if ch == '\\' {
        escaped := true;
        current := current + [ch];
      } else {
        var consumed := cls.ConsumeInside(ch);
        if !consumed && ch == '|' && depth == 0 {
          parts := parts + [current];
          current := "";
        } else {
          current := current + [ch];
          if !consumed {
            if ch == '[' {
              cls.Open();
            } else if ch == '(' {
              depth := depth + 1;
            } else if ch == ')' {
              depth := depth - 1;
            }
          }
        }
      }
      assert !IsBar(s, ch) ==> Scan(escaped, cls.State(), depth) == Next(s, ch) && current == was + [ch];
    }
    parts := parts + [current];
    branches := NonEmpty(parts);
  }

  // ── Reading a printed pattern back ───────────────────────────────────────────

  predicate HasBarAt(text: string, n: nat)
    requires n < |text|
  {
    IsBar(After(START, text, n), text[n])
  }

  predicate IsShallowAt(text: string, n: nat)
    requires n <= |text|
  {
    After(START, text, n).depth >= 0
  }

  /** Brackets never close below where they opened, and the scanner ends where it started. */
  ghost predicate Balanced(text: string) {
    && (forall n :: 0 <= n <= |text| ==> IsShallowAt(text, n))
    && After(START, text, |text|) == START
  }

  /** A branch that can stand in an alternation: not empty, balanced, and with no bar of its own. */
  ghost predicate IsBranch(branch: string) {
    && branch != "" && Balanced(branch)
    && forall n :: 0 <= n < |branch| ==> !HasBarAt(branch, n)
  }

  ghost predicate AllBranches(branches: seq<string>) {
    forall i :: 0 <= i < |branches| ==> IsBranch(branches[i])
  }

  /** `piece` stands in `text` at `at`. */
  predicate StandsAt(text: string, at: nat, piece: string) {
    at + |piece| <= |text| && text[at..at + |piece|] == piece
  }

  lemma {:induction false} ScansPiece(s: Scan, text: string, at: nat, piece: string, n: nat)
    requires StandsAt(text, at, piece) && n <= |piece| && s == After(START, text, at)
    ensures After(START, text, at + n) == After(s, piece, n)
  {
    if n > 0 {
      ScansPiece(s, text, at, piece, n - 1);
      assert text[at..at + |piece|][n - 1] == text[at + n - 1];
    }
  }

  predicate HasNoBarUpto(text: string, n: nat)
    requires n <= |text|
  {
    forall m :: 0 <= m < n ==> !HasBarAt(text, m)
  }

  /** A branch is read into the current part. */
  lemma {:induction false} PartReadsOn(text: string, at: nat, piece: string, n: nat)
    requires StandsAt(text, at, piece) && n <= |piece| && HasNoBarUpto(piece, n)
    ensures PartsFrom(text, at, START, "") == PartsFrom(text, at + n, After(START, piece, n), piece[..n])
  {
    if n > 0 {
      PartReadsOn(text, at, piece, n - 1);
      assert !HasBarAt(piece, n - 1);
      assert text[at + n - 1] == text[at..at + |piece|][n - 1] == piece[n - 1];
      assert piece[..n] == piece[..n - 1] + [piece[n - 1]];
    }
  }

  /** Branches printed with bars between them split back into themselves. */
  lemma {:induction false} PartsOfBranches(text: string, at: nat, branches: seq<string>)
    requires branches != [] && AllBranches(branches)
    requires StandsAt(text, at, WithBars(branches)) && at + |WithBars(branches)| == |text|
    ensures PartsFrom(text, at, START, "") == branches
    decreases |branches|
  {
    var first := branches[0];
    assert IsBranch(first);
    if |branches| == 1 {
      BranchIsRead(text, at, first);
    } else {
      var rest := WithBars(branches[1..]);
      PiecesStand(text, at, first, "|" + rest);
      PiecesStand(text, at + |first|, "|", rest);
      BranchIsRead(text, at, first);
      BarEndsPart(text, at + |first|, first);
      PartsOfBranches(text, at + |first| + 1, branches[1..]);
    }
  }

  lemma BranchIsRead(text: string, at: nat, branch: string)
    requires IsBranch(branch) && StandsAt(text, at, branch)
    ensures PartsFrom(text, at, START, "") == PartsFrom(text, at + |branch|, START, branch)
  {
    PartReadsOn(text, at, branch, |branch|);
    assert branch[..|branch|] == branch;
  }

  lemma BarEndsPart(text: string, at: nat, current: string)
    requires at < |text| && text[at] == '|'
    ensures PartsFrom(text, at, START, current) == [current] + PartsFrom(text, at + 1, START, "")
  {
  }

  lemma PiecesStand(text: string, at: nat, first: string, rest: string)
    requires StandsAt(text, at, first + rest)
    ensures StandsAt(text, at, first) && StandsAt(text, at + |first|, rest)
    ensures rest != "" ==> text[at + |first|] == rest[0]
  {
    var both := first + rest;
    assert text[at..at + |first|] == text[at..at + |both|][..|first|] == both[..|first|] == first;
    assert text[at + |first|..at + |both|] == text[at..at + |both|][|first|..] == both[|first|..] == rest;
    if rest != "" {
      assert both[|first|] == text[at..at + |both|][|first|];
    }
  }

  lemma {:induction false} NoneEmpty(parts: seq<string>)
    requires forall i :: 0 <= i < |parts| ==> parts[i] != ""
    ensures NonEmpty(parts) == parts
  {
    if parts != [] {
      NoneEmpty(parts[1..]);
    }
  }

  lemma BalancedThen(a: string, b: string)
    requires Balanced(a) && Balanced(b)
    ensures Balanced(a + b)
  {
    var both := a + b;
    assert StandsAt(both, 0, a) && StandsAt(both, |a|, b);
    ScansPiece(START, both, 0, a, |a|);
    forall n | 0 <= n <= |both| ensures IsShallowAt(both, n) {
      if n <= |a| {
        ScansPiece(START, both, 0, a, n);
        assert IsShallowAt(a, n);
      } else {
        ScansPiece(START, both, |a|, b, n - |a|);
        assert IsShallowAt(b, n - |a|);
      }
    }
    ScansPiece(START, both, |a|, b, |b|);
  }

  lemma BarIsBalanced()
    ensures Balanced("|")
  {
    assert After(START, "|", 0) == START && After(START, "|", 1) == START;
  }

  lemma {:induction false} BranchesBalanced(branches: seq<string>)
    requires branches != [] && AllBranches(branches)
    ensures Balanced(WithBars(branches))
    decreases |branches|
  {
    assert IsBranch(branches[0]);
    if |branches| > 1 {
      BranchesBalanced(branches[1..]);
      BarIsBalanced();
      BalancedThen(branches[0], "|");
      BalancedThen(branches[0] + "|", WithBars(branches[1..]));
    }
  }

  function Deeper(s: Scan): Scan {
    s.(depth := s.depth + 1)
  }

  /** Scanning inside a group is scanning one level deeper. */
  lemma {:induction false} ScansDeeper(text: string, n: nat)
    requires n <= |text|
    ensures After(Deeper(START), text, n) == Deeper(After(START, text, n))
  {
    if n > 0 {
      ScansDeeper(text, n - 1);
    }
  }

  const OPENING := "(?:"

  /** How a group opens that may be stripped: not capturing, or capturing. */
  predicate IsOpening(opening: string) {
    opening == OPENING || opening == "("
  }

  lemma ScansOpening(text: string, opening: string, n: nat)
    requires IsOpening(opening) && StandsAt(text, 0, opening) && 0 < n <= |opening|
    ensures After(START, text, n) == Deeper(START)
  {
    ScansPiece(START, text, 0, opening, n);
    assert After(START, opening, 0) == START;
    assert After(START, opening, 1) == Deeper(START);
    if opening == OPENING {
      assert After(START, opening, 2) == Deeper(START);
      assert After(START, opening, 3) == Deeper(START);
    }
  }

  predicate ClosesAt(pattern: string, n: nat)
    requires n < |pattern|
  {
    IsClose(After(START, pattern, n), pattern[n])
  }

  lemma {:induction false} ClosesFrom(pattern: string, i: nat, s: Scan)
    requires i <= |pattern| && s == After(START, pattern, i)
    requires pattern != "" && ClosesAt(pattern, |pattern| - 1)
    requires forall n {:trigger ClosesAt(pattern, n)} :: i <= n < |pattern| - 1 ==> !ClosesAt(pattern, n)
    requires i < |pattern|
    ensures FirstClose(pattern, i, s) == Some(|pattern| - 1)
    decreases |pattern| - i
  {
    assert ClosesAt(pattern, i) == IsClose(s, pattern[i]);
    if i < |pattern| - 1 {
      ClosesFrom(pattern, i + 1, Next(s, pattern[i]));
    }
  }

  /** One group wraps the whole pattern. */
  ghost predicate Wraps(pattern: string, opening: string, inner: string) {
    && IsOpening(opening) && Balanced(inner) && pattern == opening + inner + ")"
    && (opening == "(" ==> inner == "" || inner[0] != '?')
  }

  /** A balanced text in a group is what the group holds. */
  lemma GroupHolds(pattern: string, opening: string, inner: string)
    requires Wraps(pattern, opening, inner)
    ensures Stripped(pattern) == inner
  {
    var k, n := |opening|, |inner|;
    assert StandsAt(pattern, 0, opening) && StandsAt(pattern, k, inner);
    ScansOpening(pattern, opening, k);
    forall i | k <= i <= k + n ensures After(START, pattern, i) == Deeper(After(START, inner, i - k)) {
      ScansPiece(Deeper(START), pattern, k, inner, i - k);
      ScansDeeper(inner, i - k);
    }
    forall i | 0 <= i < |pattern| - 1 ensures !ClosesAt(pattern, i) {
      if i >= k {
        assert pattern[i] == inner[i - k];
        assert IsShallowAt(inner, i - k) && IsShallowAt(inner, i - k + 1);
      }
    }
    ClosesFrom(pattern, 0, START);
    assert pattern[k..|pattern| - 1] == inner;
  }

  /** What is printed is read back: the branches of an alternation are those it was printed from. */
  lemma PrintedIsReadBack(branches: seq<string>)
    requires |branches| >= 2 && AllBranches(branches)
    ensures Parse(Alternation(branches).Joined()) == Alternation(branches)
  {
    var inner := WithBars(branches);
    BranchesBalanced(branches);
    GroupHolds(OPENING + inner + ")", OPENING, inner);
    assert StandsAt(inner, 0, inner);
    PartsOfBranches(inner, 0, branches);
    forall i | 0 <= i < |branches| ensures branches[i] != "" {
      assert IsBranch(branches[i]);
    }
    NoneEmpty(branches);
  }

  // ── Nothing else is read back ────────────────────────────────────────────────

  predicate IsShallow(text: string) {
    forall n :: 0 <= n <= |text| ==> IsShallowAt(text, n)
  }

  lemma AppendScans(text: string, ch: char)
    ensures After(START, text + [ch], |text| + 1) == Next(After(START, text, |text|), ch)
    ensures forall n :: 0 <= n <= |text| ==> After(START, text + [ch], n) == After(START, text, n)
  {
    var more := text + [ch];
    assert StandsAt(more, 0, text);
    forall n | 0 <= n <= |text| ensures After(START, more, n) == After(START, text, n) {
      ScansPiece(START, more, 0, text, n);
    }
  }

  lemma AppendNoBar(text: string, ch: char)
    requires HasNoBarUpto(text, |text|) && !IsBar(After(START, text, |text|), ch)
    ensures HasNoBarUpto(text + [ch], |text| + 1)
  {
    AppendScans(text, ch);
    forall m | 0 <= m < |text| + 1 ensures !HasBarAt(text + [ch], m) {
      if m < |text| {
        assert !HasBarAt(text, m);
      }
    }
  }

  lemma AppendShallow(text: string, ch: char)
    requires IsShallow(text) && Next(After(START, text, |text|), ch).depth >= 0
    ensures IsShallow(text + [ch])
  {
    AppendScans(text, ch);
    forall n | 0 <= n <= |text| + 1 ensures IsShallowAt(text + [ch], n) {
      if n <= |text| {
        assert IsShallowAt(text, n);
      }
    }
  }

  /** A part has no bar of its own, and all but the last end where the scanner started. */
  ghost predicate AreParts(parts: seq<string>) {
    && (forall k :: 0 <= k < |parts| ==> HasNoBarUpto(parts[k], |parts[k]|))
    && (forall k :: 0 <= k < |parts| - 1 ==> After(START, parts[k], |parts[k]|) == START)
  }

  lemma {:induction false} PartsAreParts(text: string, i: nat, s: Scan, current: string)
    requires i <= |text| && s == After(START, current, |current|) && HasNoBarUpto(current, |current|)
    ensures AreParts(PartsFrom(text, i, s, current))
    decreases |text| - i
  {
    if i < |text| {
      if IsBar(s, text[i]) {
        PartsAreParts(text, i + 1, s, "");
      } else {
        AppendScans(current, text[i]);
        AppendNoBar(current, text[i]);
        PartsAreParts(text, i + 1, Next(s, text[i]), current + [text[i]]);
      }
    }
  }

  ghost predicate AllShallow(parts: seq<string>) {
    forall k :: 0 <= k < |parts| ==> IsShallow(parts[k])
  }

  /** The parts of a balanced text are balanced. */
  lemma {:induction false} PartsBalanced(text: string, i: nat, s: Scan, current: string)
    requires i <= |text| && s == After(START, current, |current|) == After(START, text, i)
    requires IsShallow(text) && IsShallow(current)
    ensures var parts := PartsFrom(text, i, s, current);
            AllShallow(parts) && After(START, parts[|parts| - 1], |parts[|parts| - 1]|) == After(START, text, |text|)
    decreases |text| - i
  {
    if i < |text| {
      assert IsShallowAt(text, i + 1);
      if IsBar(s, text[i]) {
        assert IsShallow("") by {
          assert IsShallowAt("", 0);
        }
        PartsBalanced(text, i + 1, s, "");
      } else {
        AppendScans(current, text[i]);
        AppendShallow(current, text[i]);
        PartsBalanced(text, i + 1, Next(s, text[i]), current + [text[i]]);
      }
    }
  }

  lemma {:induction false} NonEmptyMembers(parts: seq<string>)
    ensures forall part :: part in NonEmpty(parts) ==> part in parts && part != ""
    ensures |NonEmpty(parts)| <= |parts|
  {
    if parts != [] {
      NonEmptyMembers(parts[1..]);
    }
  }

  /** The top-level parts of a balanced text are branches, once the empty ones are dropped. */
  lemma BalancedSplitsIntoBranches(text: string)
    requires Balanced(text)
    ensures AllBranches(NonEmpty(PartsFrom(text, 0, START, "")))
  {
    var parts := PartsFrom(text, 0, START, "");
    assert IsShallow("") by {
      assert IsShallowAt("", 0);
    }
    PartsAreParts(text, 0, START, "");
    PartsBalanced(text, 0, START, "");
    NonEmptyMembers(parts);
    var branches := NonEmpty(parts);
    forall i | 0 <= i < |branches| ensures IsBranch(branches[i]) {
      assert branches[i] in branches;
      var k :| 0 <= k < |parts| && parts[k] == branches[i];
      assert IsShallow(parts[k]);
    }
  }

  lemma {:induction false} CloseMeans(pattern: string, i: nat, s: Scan)
    requires i <= |pattern| && s == After(START, pattern, i) && FirstClose(pattern, i, s).Some?
    ensures var c := FirstClose(pattern, i, s).value;
            && ClosesAt(pattern, c)
            && forall n {:trigger ClosesAt(pattern, n)} :: i <= n < c ==> !ClosesAt(pattern, n)
    decreases |pattern| - i
  {
    assert ClosesAt(pattern, i) == IsClose(s, pattern[i]);
    if !IsClose(s, pattern[i]) {
      CloseMeans(pattern, i + 1, Next(s, pattern[i]));
    }
  }

  /** A bracket in the group would close it. */
  predicate ClosesGroupAt(inner: string, m: nat)
    requires m < |inner|
  {
    IsClose(Deeper(After(START, inner, m)), inner[m])
  }

  lemma {:induction false} ShallowInside(inner: string, n: nat)
    requires n <= |inner|
    requires forall m {:trigger ClosesGroupAt(inner, m)} :: 0 <= m < |inner| ==> !ClosesGroupAt(inner, m)
    ensures IsShallowAt(inner, n)
  {
    if n > 0 {
      ShallowInside(inner, n - 1);
      assert !ClosesGroupAt(inner, n - 1);
    }
  }

  /** Inside a group, the scan is one level deeper. */
  lemma ScansGroup(pattern: string, opening: string, inner: string, m: nat)
    requires IsOpening(opening) && pattern == opening + inner + ")" && m <= |inner|
    ensures After(START, pattern, m + |opening|) == Deeper(After(START, inner, m))
  {
    assert StandsAt(pattern, 0, opening) && StandsAt(pattern, |opening|, inner);
    ScansOpening(pattern, opening, |opening|);
    ScansPiece(Deeper(START), pattern, |opening|, inner, m);
    ScansDeeper(inner, m);
  }

  lemma NoCloseInside(pattern: string, opening: string, inner: string, m: nat)
    requires IsOpening(opening) && pattern == opening + inner + ")" && m < |inner|
    requires !ClosesAt(pattern, m + |opening|)
    ensures !ClosesGroupAt(inner, m)
  {
    ScansGroup(pattern, opening, inner, m);
  }

  lemma ClosesLast(pattern: string, opening: string, inner: string)
    requires IsOpening(opening) && pattern == opening + inner + ")" && ClosesAt(pattern, |inner| + |opening|)
    ensures After(START, inner, |inner|) == START
  {
    ScansGroup(pattern, opening, inner, |inner|);
  }

  /** What one group wraps is balanced. */
  lemma WrappedIsBalanced(pattern: string, opening: string, inner: string)
    requires IsOpening(opening) && pattern == opening + inner + ")"
    requires FirstClose(pattern, 0, START) == Some(|inner| + |opening|)
    ensures Balanced(inner)
  {
    CloseMeans(pattern, 0, START);
    forall m | 0 <= m < |inner| ensures !ClosesGroupAt(inner, m) {
      NoCloseInside(pattern, opening, inner, m);
    }
    forall n | 0 <= n <= |inner| ensures IsShallowAt(inner, n) {
      ShallowInside(inner, n);
    }
    ClosesLast(pattern, opening, inner);
  }

  lemma WrappedClosesLast(pattern: string) returns (opening: string, inner: string)
    requires IsWrapped(pattern)
    ensures Wraps(pattern, opening, inner)
  {
    CloseComesLater(pattern);
    CloseMeans(pattern, 0, START);
    var n := |pattern| - 1;
    opening := if StartsPlainGroup(pattern) then OPENING else "(";
    inner := pattern[|opening|..n];
    assert pattern[n] == ')' && pattern[..|opening|] == opening;
    assert pattern == opening + inner + ")";
    WrappedIsBalanced(pattern, opening, inner);
  }

  /** A pattern wrapped in one group, `(?:...)` or `(...)`, is stripped to what the group holds, and any other
      is left as it is. */
  lemma StripsWholeGroup(pattern: string)
    ensures forall opening, inner :: Wraps(pattern, opening, inner) ==> Stripped(pattern) == inner
    ensures (exists opening, inner :: Wraps(pattern, opening, inner)) || Stripped(pattern) == pattern
  {
    forall opening, inner | Wraps(pattern, opening, inner) ensures Stripped(pattern) == inner {
      GroupHolds(pattern, opening, inner);
    }
    if IsWrapped(pattern) {
      var opening, inner := WrappedClosesLast(pattern);
    }
  }

  /** The first part is a prefix of the text. */
  lemma {:induction false} FirstPart(text: string, i: nat, s: Scan, current: string)
    requires i <= |text| && current == text[..i]
    ensures var first := PartsFrom(text, i, s, current)[0]; i <= |first| <= |text| && first == text[..|first|]
    decreases |text| - i
  {
    if i < |text| && !IsBar(s, text[i]) {
      assert text[..i + 1] == text[..i] + [text[i]];
      FirstPart(text, i + 1, Next(s, text[i]), current + [text[i]]);
    }
  }

  /** A text that goes on repeating how a group opens is never back at the top. */
  lemma {:induction false} RepeatedOpening(text: string, m: nat, n: nat)
    requires StandsAt(text, 0, OPENING) && m + 3 <= |text| && n <= m + 3
    requires forall i :: 0 <= i < m ==> text[i + 3] == text[i]
    ensures n < m + 3 ==> text[n] == OPENING[n % 3]
    ensures After(START, text, n) == Scan(false, Out, (n + 2) / 3)
    decreases n
  {
    if n >= 3 {
      RepeatedOpening(text, m, n - 3);
      assert n - 3 < m ==> text[n - 3 + 3] == text[n - 3];
    } else {
      assert text[..3] == OPENING;
    }
    if n > 0 {
      RepeatedOpening(text, m, n - 1);
    }
  }

  lemma FirstStays(parts: seq<string>)
    requires parts != [] && parts[0] != ""
    ensures NonEmpty(parts) != [] && NonEmpty(parts)[0] == parts[0]
  {
  }

  /** A printed alternation that reads back as itself is wrapped in its group. */
  lemma ReadBackIsWrapped(branches: seq<string>)
    requires |branches| >= 2
    requires NonEmpty(PartsFrom(Stripped(Alternation(branches).Joined()), 0, START, "")) == branches
    ensures IsWrapped(Alternation(branches).Joined())
  {
    var pattern := Alternation(branches).Joined();
    assert StandsAt(pattern, 0, OPENING);
    if !IsWrapped(pattern) {
      var parts := PartsFrom(pattern, 0, START, "");
      NonEmptyMembers(parts);
      PartsAreParts(pattern, 0, START, "");
      FirstPart(pattern, 0, START, "");
      FirstPart(pattern, 1, Next(START, '('), "" + [pattern[0]]);
      FirstStays(parts);
      var m := |branches[0]|;
      assert branches[0] == parts[0] == pattern[..m];
      forall i | 0 <= i < m ensures pattern[i + 3] == pattern[i] {
        assert pattern[i + 3] == WithBars(branches)[i] == branches[0][i];
      }
      RepeatedOpening(pattern, m, m);
      assert StandsAt(pattern, 0, branches[0]);
      ScansPiece(START, pattern, 0, branches[0], m);
      assert false;
    }
  }

  lemma ReadBackAreBranches(branches: seq<string>)
    requires Parse(Alternation(branches).Joined()) == Alternation(branches)
    ensures |branches| >= 2 && AllBranches(branches)
  {
    var inner := WithBars(branches);
    ReadBackIsWrapped(branches);
    WrappedIsBalanced(OPENING + inner + ")", OPENING, inner);
    GroupHolds(OPENING + inner + ")", OPENING, inner);
    BalancedSplitsIntoBranches(inner);
  }

  /** An alternation survives printing and parsing exactly when it has two branches or more and each
      can stand in an alternation. */
  lemma ParsePrintsRoundTrip(branches: seq<string>)
    ensures Parse(Alternation(branches).Joined()) == Alternation(branches) <==> |branches| >= 2 && AllBranches(branches)
  {
    if |branches| >= 2 && AllBranches(branches) {
      PrintedIsReadBack(branches);
    } else if Parse(Alternation(branches).Joined()) == Alternation(branches) {
      ReadBackAreBranches(branches);
    }
  }

  // ── Escaped text is a branch ─────────────────────────────────────────────────

  const TYPO_OTHER_LETTER: nat := 0xFDD0
  /** The Hebrew letters, and the Yiddish digraphs. */
  const LETTER_RANGES: seq<(nat, nat)> := [(0x5D0, 0x5EA), (0x5F0, 0x5F2)]
  const TYPO_LETTERS: nat := 30

  /** The letter a typo wildcard excludes, by its number; the last excludes none. */
  function TypoLetter(i: nat): Option<nat> {
    if i < 27 then Some(0x5D0 + i) else if i < TYPO_LETTERS then Some(0x5F0 + (i - 27)) else None
  }

  function Range(lo: nat, hi: nat): string
    requires hi < 0xD800
  {
    if lo > hi then "" else if lo == hi then [lo as char] else [lo as char, '-', hi as char]
  }

  function RangeExcept(range: (nat, nat), except: Option<nat>): string
    requires range.1 < 0xD800
  {
    if except.Some? && range.0 <= except.value <= range.1 && except.value > 0
    then Range(range.0, except.value - 1) + Range(except.value + 1, range.1)
    else Range(range.0, range.1)
  }

  function ClassBody(except: Option<nat>): string {
    RangeExcept(LETTER_RANGES[0], except) + RangeExcept(LETTER_RANGES[1], except)
  }

  /** What a wildcard character is printed as. */
  function TypoWildcardClass(ch: char): Option<string> {
    var i := ch as int - TYPO_OTHER_LETTER;
    if 0 <= i <= TYPO_LETTERS then Some("[" + ClassBody(TypoLetter(i)) + "]") else None
  }

  predicate IsMeta(ch: char) {
    ch in ['\\', '.', '+', '*', '?', '(', ')', '|', '[', ']', '{', '}', '^', '$']
  }

  function Escaped(ch: char): string {
    if TypoWildcardClass(ch).Some? then TypoWildcardClass(ch).value
    else if IsMeta(ch) then ['\\', ch]
    else [ch]
  }

  /** Text as a regex: its metacharacters escaped, its typo wildcards as classes. */
  method EscapeRegex(s: string) returns (out: string)
    ensures out == EscapedText(s, |s|)
    ensures s != "" ==> IsBranch(out)
  {
    if s != "" {
      EscapedIsBranch(s, |s|);
    }
    out := "";
    for i := 0 to |s|
      invariant out == EscapedText(s, i)
    {
      out := out + Escaped(s[i]);
    }
  }

  function EscapedText(s: string, n: nat): string
    requires n <= |s|
  {
    if n == 0 then "" else EscapedText(s, n - 1) + Escaped(s[n - 1])
  }

  /** Balanced, and with no top-level bar. */
  ghost predicate IsPiece(text: string) {
    Balanced(text) && HasNoBarUpto(text, |text|)
  }

  lemma PieceThen(a: string, b: string)
    requires IsPiece(a) && IsPiece(b)
    ensures IsPiece(a + b)
  {
    BalancedThen(a, b);
    var both := a + b;
    assert StandsAt(both, 0, a) && StandsAt(both, |a|, b);
    ScansPiece(START, both, 0, a, |a|);
    forall m | 0 <= m < |both| ensures !HasBarAt(both, m) {
      if m < |a| {
        ScansPiece(START, both, 0, a, m);
        assert !HasBarAt(a, m);
      } else {
        ScansPiece(START, both, |a|, b, m - |a|);
        assert !HasBarAt(b, m - |a|);
      }
    }
  }

  predicate IsPlain(ch: char) {
    ch != '\\' && ch != ']' && ch != '^'
  }

  predicate AllPlain(body: string) {
    forall i :: 0 <= i < |body| ==> IsPlain(body[i])
  }

  lemma {:induction false} ScansClass(body: string, n: nat)
    requires n <= |body| && AllPlain(body)
    ensures After(START, "[" + body + "]", n + 1) == Scan(false, In(n, false), 0)
  {
    var text := "[" + body + "]";
    if n == 0 {
      assert After(START, text, 0) == START && text[0] == '[';
    } else {
      ScansClass(body, n - 1);
      assert text[n] == body[n - 1] && IsPlain(body[n - 1]);
    }
  }

  lemma ClassIsPiece(body: string)
    requires body != "" && AllPlain(body)
    ensures IsPiece("[" + body + "]")
  {
    var text := "[" + body + "]";
    forall n | 0 <= n <= |body| ensures After(START, text, n + 1) == Scan(false, In(n, false), 0) {
      ScansClass(body, n);
    }
    ScansClass(body, |body|);
    assert text[|body| + 1] == ']' && After(START, text, |text|) == START;
    forall n | 0 <= n <= |text| ensures IsShallowAt(text, n) && (n < |text| ==> !HasBarAt(text, n)) {
      if 0 < n < |text| {
        ScansClass(body, n - 1);
      }
    }
  }

  lemma RangePlain(lo: nat, hi: nat)
    requires 0x5D0 <= lo && hi < 0xD800
    ensures AllPlain(Range(lo, hi)) && (lo <= hi ==> Range(lo, hi) != "")
  {
  }

  lemma ClassBodyPlain(except: Option<nat>)
    ensures ClassBody(except) != "" && AllPlain(ClassBody(except))
  {
    forall k | 0 <= k < 2
      ensures RangeExcept(LETTER_RANGES[k], except) != "" && AllPlain(RangeExcept(LETTER_RANGES[k], except))
    {
      var (lo, hi) := LETTER_RANGES[k];
      RangePlain(lo, hi);
      if except.Some? && lo <= except.value <= hi {
        RangePlain(lo, except.value - 1);
        RangePlain(except.value + 1, hi);
      }
    }
  }

  lemma EscapedIsPiece(ch: char)
    ensures IsPiece(Escaped(ch)) && Escaped(ch) != ""
  {
    var i := ch as int - TYPO_OTHER_LETTER;
    if 0 <= i <= TYPO_LETTERS {
      ClassBodyPlain(TypoLetter(i));
      ClassIsPiece(ClassBody(TypoLetter(i)));
    } else {
      var text := Escaped(ch);
      assert After(START, text, 0) == START;
      assert After(START, text, 1) == if IsMeta(ch) then START.(escaped := true) else START;
      if IsMeta(ch) {
        assert After(START, text, 2) == START;
      }
      forall n | 0 <= n <= |text| ensures IsShallowAt(text, n) && (n < |text| ==> !HasBarAt(text, n)) {
        if n == 1 {
          assert After(START, text, n).depth == 0;
        }
      }
    }
  }

  /** Escaped text, unless empty, can stand in an alternation. */
  lemma {:induction false} EscapedIsBranch(s: string, n: nat)
    requires 0 < n <= |s|
    ensures IsBranch(EscapedText(s, n))
  {
    EscapedIsPiece(s[n - 1]);
    if n > 1 {
      EscapedIsBranch(s, n - 1);
      PieceThen(EscapedText(s, n - 1), Escaped(s[n - 1]));
    } else {
      assert EscapedText(s, 1) == Escaped(s[0]);
    }
  }
}
