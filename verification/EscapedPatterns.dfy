/** What escaped text means as a regular expression: itself, with any other letter for a typo wildcard. */
module EscapedPatterns {
  import opened Prelude
  import opened WordPatterns

  // ── A reader of such expressions ─────────────────────────────────────────────

  /** Is `c` in the class? Its body lists characters, and ranges with a hyphen. */
  predicate InClass(body: string, c: char) {
    if body == "" then false
    else if |body| >= 3 && body[1] == '-' then body[0] <= c <= body[2] || InClass(body[3..], c)
    else c == body[0] || InClass(body[1..], c)
  }

  /** The end of the class opened before `i`. */
  function ClassEnd(pattern: string, i: nat): (r: nat)
    requires i <= |pattern|
    ensures i <= r <= |pattern|
    decreases |pattern| - i
  {
    if i == |pattern| || pattern[i] == ']' then i else ClassEnd(pattern, i + 1)
  }

  /** Characters that mean themselves only when escaped. */
  predicate HasMeaning(c: char) {
    c in "\\.+*?()|[]{}^$"
  }

  /** Does the whole text match? The expression is made of characters, escaped ones and classes. */
  predicate Matches(pattern: string, text: string)
    decreases |pattern|
  {
    if pattern == "" then text == ""
    else if text == "" then false
    else if pattern[0] == '\\' then |pattern| > 1 && text[0] == pattern[1] && Matches(pattern[2..], text[1..])
    else if pattern[0] == '[' then
      var end := ClassEnd(pattern, 1);
      end < |pattern| && InClass(pattern[1..end], text[0]) && Matches(pattern[end + 1..], text[1..])
    else !HasMeaning(pattern[0]) && text[0] == pattern[0] && Matches(pattern[1..], text[1..])
  }

  // ── What a character of the text stands for ──────────────────────────────────

  /** The Hebrew letters, and the Yiddish digraphs. */
  predicate IsTypoLetter(c: char) {
    '\U{05D0}' <= c <= '\U{05EA}' || '\U{05F0}' <= c <= '\U{05F2}'
  }

  /** The letter that a wildcard excludes: in order of the letters, the digraphs after the others. */
  predicate Excludes(wildcard: char, c: char) {
    var i := wildcard as int - 0xFDD0;
    (i < 27 && c as int == 0x5D0 + i) || (27 <= i < 30 && c as int == 0x5F0 + i - 27)
  }

  /** A wildcard stands for any letter but its own, the last for any at all; others stand for themselves. */
  predicate StandsFor(ch: char, c: char) {
    if 0xFDD0 <= ch as int <= 0xFDD0 + 30 then IsTypoLetter(c) && !Excludes(ch, c) else c == ch
  }

  predicate AllStandFor(s: string, text: string) {
    |s| == |text| && forall i :: 0 <= i < |s| ==> StandsFor(s[i], text[i])
  }

  // ── Classes ──────────────────────────────────────────────────────────────────

  lemma InRange(lo: nat, hi: nat, rest: string, c: char)
    requires 0x5D0 <= lo && hi < 0xD800 && (rest == "" || rest[0] != '-')
    ensures InClass(Range(lo, hi) + rest, c) <==> lo <= c as int <= hi || InClass(rest, c)
  {
    var range := Range(lo, hi);
    if lo > hi {
      assert range + rest == rest;
    } else if lo == hi {
      assert (range + rest)[1..] == rest;
    } else {
      assert (range + rest)[3..] == rest;
    }
  }

  predicate IsLetterFirst(body: string) {
    body == "" || body[0] as int >= 0x5D0
  }

  lemma RangeStarts(lo: nat, hi: nat, rest: string)
    requires 0x5D0 <= lo && hi < 0xD800 && IsLetterFirst(rest)
    ensures IsLetterFirst(Range(lo, hi) + rest)
  {
    if lo > hi {
      assert Range(lo, hi) + rest == rest;
    }
  }

  lemma InSplitRange(lo: nat, hi: nat, except: nat, rest: string, c: char)
    requires 0x5D0 <= lo <= except <= hi < 0xD800 && IsLetterFirst(rest)
    ensures InClass(Range(lo, except - 1) + Range(except + 1, hi) + rest, c)
       <==> (lo <= c as int <= hi && except != c as int) || InClass(rest, c)
    ensures IsLetterFirst(Range(lo, except - 1) + Range(except + 1, hi) + rest)
  {
    var after := Range(except + 1, hi) + rest;
    RangeStarts(except + 1, hi, rest);
    RangeStarts(lo, except - 1, after);
    InRange(except + 1, hi, rest, c);
    InRange(lo, except - 1, after, c);
    Regroup(Range(lo, except - 1), Range(except + 1, hi), rest);
  }

  lemma InRangeExcept(range: (nat, nat), except: Option<nat>, rest: string, c: char)
    requires 0x5D0 <= range.0 && range.1 < 0xD800 && IsLetterFirst(rest)
    ensures InClass(RangeExcept(range, except) + rest, c)
       <==> (range.0 <= c as int <= range.1 && except != Some(c as int)) || InClass(rest, c)
    ensures IsLetterFirst(RangeExcept(range, except) + rest)
  {
    if except.Some? && range.0 <= except.value <= range.1 {
      InSplitRange(range.0, range.1, except.value, rest, c);
    } else {
      RangeStarts(range.0, range.1, rest);
      InRange(range.0, range.1, rest, c);
    }
  }

  lemma ClassHas(except: Option<nat>, c: char)
    ensures InClass(ClassBody(except), c) <==> IsTypoLetter(c) && except != Some(c as int)
  {
    var second := RangeExcept(LETTER_RANGES[1], except);
    assert second + "" == second;
    InRangeExcept(LETTER_RANGES[1], except, "", c);
    InRangeExcept(LETTER_RANGES[0], except, second, c);
  }

  // ── Escaped text means what it says ──────────────────────────────────────────

  lemma {:induction false} ClassEnds(pattern: string, i: nat, end: nat)
    requires i <= end < |pattern| && pattern[end] == ']' && forall j :: i <= j < end ==> pattern[j] != ']'
    ensures ClassEnd(pattern, i) == end
    decreases end - i
  {
    if i < end {
      ClassEnds(pattern, i + 1, end);
    }
  }

  lemma MatchesClass(except: Option<nat>, rest: string, text: string)
    requires AllPlain(ClassBody(except))
    ensures Matches("[" + ClassBody(except) + "]" + rest, text)
       <==> text != "" && IsTypoLetter(text[0]) && except != Some(text[0] as int) && Matches(rest, text[1..])
  {
    var body := ClassBody(except);
    var pattern, end := "[" + body + "]" + rest, 1 + |body|;
    if text != "" {
      forall j | 1 <= j < end ensures pattern[j] != ']' {
        assert pattern[j] == body[j - 1] && IsPlain(body[j - 1]);
      }
      ClassEnds(pattern, 1, end);
      assert pattern[1..end] == body && pattern[end + 1..] == rest;
      ClassHas(except, text[0]);
    }
  }

  lemma MatchesEscaped(ch: char, rest: string, text: string)
    ensures Matches(Escaped(ch) + rest, text) <==> text != "" && StandsFor(ch, text[0]) && Matches(rest, text[1..])
  {
    var i := ch as int - TYPO_OTHER_LETTER;
    if 0 <= i <= TYPO_LETTERS {
      ClassBodyPlain(TypoLetter(i));
      MatchesClass(TypoLetter(i), rest, text);
    } else if IsMeta(ch) {
      assert (Escaped(ch) + rest)[2..] == rest;
    } else {
      assert (Escaped(ch) + rest)[1..] == rest;
    }
  }

  lemma {:induction false} EscapedFront(s: string, n: nat)
    requires 0 < n <= |s|
    ensures EscapedText(s, n) == Escaped(s[0]) + EscapedText(s[1..], n - 1)
  {
    if n > 1 {
      EscapedFront(s, n - 1);
      Regroup(Escaped(s[0]), EscapedText(s[1..], n - 2), Escaped(s[n - 1]));
    } else {
      assert EscapedText(s, 0) + Escaped(s[0]) == Escaped(s[0]) + EscapedText(s[1..], 0);
    }
  }

  lemma FrontStandsFor(s: string, text: string)
    requires s != ""
    ensures AllStandFor(s, text) <==> text != "" && StandsFor(s[0], text[0]) && AllStandFor(s[1..], text[1..])
  {
    if text != "" && |s| == |text| {
      assert forall i :: 0 < i < |s| ==> s[i] == s[1..][i - 1] && text[i] == text[1..][i - 1];
    }
  }

  lemma MatchesFront(s: string, rest: string, text: string)
    requires s != "" && rest == EscapedText(s[1..], |s| - 1)
    requires text != "" ==> (Matches(rest, text[1..]) <==> AllStandFor(s[1..], text[1..]))
    ensures Matches(EscapedText(s, |s|), text) <==> AllStandFor(s, text)
  {
    EscapedFront(s, |s|);
    MatchesEscaped(s[0], rest, text);
    FrontStandsFor(s, text);
  }

  /** Escaped text matches just itself, and what its wildcards stand for. */
  lemma {:induction false} EscapedMatches(s: string, text: string)
    ensures Matches(EscapedText(s, |s|), text) <==> AllStandFor(s, text)
  {
    if s != "" {
      var tail := s[1..];
      if text != "" {
        EscapedMatches(tail, text[1..]);
      }
      MatchesFront(s, EscapedText(tail, |tail|), text);
    }
  }
}
