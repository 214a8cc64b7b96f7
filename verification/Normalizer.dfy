/** The text a line is indexed as. `Normalized` is the composition of the passes; `NormalizeOnePass`
    computes it without storing what lies between them. */
module Normalizers {
  import opened Prelude
  import opened HtmlStrip
  import MarkOrder

  // ── Characters ───────────────────────────────────────────────────────────────

  predicate IsWhitespace(c: char) {
    || '\U{0009}' <= c <= '\U{000D}' || c == '\U{0020}' || c == '\U{0085}' || c == '\U{00A0}' || c == '\U{1680}'
    || '\U{2000}' <= c <= '\U{200A}' || c == '\U{2028}' || c == '\U{2029}' || c == '\U{202F}' || c == '\U{205F}'
         || c == '\U{3000}'
  }

  predicate IsInvisible(c: char) {
    || '\U{200B}' <= c <= '\U{200F}' || '\U{202A}' <= c <= '\U{202E}' || '\U{2066}' <= c <= '\U{2069}'
         || c == '\U{FEFF}'
  }

  /** Characters that no pass changes, drops or takes for whitespace. */
  predicate IsPlain(c: char) {
    '\U{0021}' <= c <= '\U{007E}' || '\U{05C8}' <= c <= '\U{05FF}'
  }

  /** What each presentation form decomposes into. */
  type Folding = map<char, string>

  ghost predicate FoldsForms(folding: Folding) {
    forall c :: c in folding ==> '\U{FB1D}' <= c <= '\U{FB4F}'
  }

  /** What a pass drops before folding: nothing, or the invisible characters. */
  datatype Dropping = Nothing | Invisibles

  predicate Drops(dropping: Dropping, c: char) {
    dropping.Invisibles? && IsInvisible(c)
  }

  function Folded(folding: Folding, c: char): string {
    if c in folding then folding[c] else [c]
  }

  // ── The passes, one after another ────────────────────────────────────────────

  function DroppedTo(s: string, n: nat, dropping: Dropping): string
    requires n <= |s|
  {
    if n == 0 then "" else DroppedTo(s, n - 1, dropping) + if Drops(dropping, s[n - 1]) then "" else [s[n - 1]]
  }

  function FoldedTo(s: string, n: nat, folding: Folding): string
    requires n <= |s|
  {
    if n == 0 then "" else FoldedTo(s, n - 1, folding) + Folded(folding, s[n - 1])
  }

  function MarksTo(s: string, n: nat): string
    requires n <= |s|
  {
    if n == 0 then "" else MarksTo(s, n - 1) + if MarkOrder.IsAttachedMark(s[n - 1]) then "" else [s[n - 1]]
  }

  function DroppedOut(s: string, dropping: Dropping): string {
    DroppedTo(s, |s|, dropping)
  }

  function FoldedText(s: string, folding: Folding): string {
    FoldedTo(s, |s|, folding)
  }

  function MarksOut(s: string): string {
    MarksTo(s, |s|)
  }

  /** What is written, and whether a space is due before the next character. */
  datatype Collapsing = Collapsing(out: string, pendingSpace: bool)

  function Pushed(state: Collapsing, c: char): Collapsing {
    if IsWhitespace(c) then Collapsing(state.out, state.pendingSpace || state.out != "")
    else Collapsing(state.out + (if state.pendingSpace then " " else "") + [c], false)
  }

  function PushedTo(state: Collapsing, s: string, n: nat): Collapsing
    requires n <= |s|
  {
    if n == 0 then state else Pushed(PushedTo(state, s, n - 1), s[n - 1])
  }

  function PushedAll(state: Collapsing, s: string): Collapsing {
    PushedTo(state, s, |s|)
  }

  const EMPTY := Collapsing("", false)

  /** What is written once the whole text has been pushed. */
  function Collapsed(s: string): string {
    PushedAll(EMPTY, s).out
  }

  /** The separate passes over text stripped of markup. */
  function Passes(s: string, folding: Folding, stripMarks: bool, dropping: Dropping): string {
    Collapsed(Finished(FoldedText(DroppedOut(s, dropping), folding), stripMarks))
  }

  /** A line through every pass. */
  function Normalized(line: string, breaks: Breaks, folding: Folding, stripMarks: bool, dropping: Dropping): string {
    Passes(TagsOut(Replaced(line), breaks, 0), folding, stripMarks, dropping)
  }

  // ── What collapsing means ────────────────────────────────────────────────────

  predicate BothSpaces(s: string, i: nat)
    requires i + 1 < |s|
  {
    IsWhitespace(s[i]) && IsWhitespace(s[i + 1])
  }

  /** Single spaces inside, and no other whitespace. */
  ghost predicate IsCollapsed(s: string) {
    && (forall i :: 0 <= i < |s| && IsWhitespace(s[i]) ==> s[i] == ' ')
    && (forall i {:trigger BothSpaces(s, i)} :: 0 <= i < |s| - 1 ==> !BothSpaces(s, i))
    && (s != "" ==> !IsWhitespace(s[0]) && !IsWhitespace(s[|s| - 1]))
  }

  function SpacesTo(s: string, n: nat): string
    requires n <= |s|
  {
    if n == 0 then "" else SpacesTo(s, n - 1) + if IsWhitespace(s[n - 1]) then "" else [s[n - 1]]
  }

  function SpacesOut(s: string): string {
    SpacesTo(s, |s|)
  }

  lemma {:induction false} SpacesInPrefix(a: string, b: string, n: nat)
    requires n <= |a|
    ensures SpacesTo(a + b, n) == SpacesTo(a, n)
  {
    if n > 0 {
      SpacesInPrefix(a, b, n - 1);
    }
  }

  lemma SpacesOutMore(s: string, c: char)
    ensures SpacesOut(s + [c]) == SpacesOut(s) + if IsWhitespace(c) then "" else [c]
  {
    SpacesInPrefix(s, [c], |s|);
  }

  lemma CollapsedMore(s: string, c: char)
    requires IsCollapsed(s) && !IsWhitespace(c)
    ensures IsCollapsed(s + [c])
    ensures s != "" ==> IsCollapsed(s + " " + [c])
  {
    var t, u := s + [c], s + " " + [c];
    forall i | 0 <= i < |t| - 1 ensures !BothSpaces(t, i) {
      if i + 1 < |s| {
        assert !BothSpaces(s, i);
      }
    }
    forall i | s != "" && 0 <= i < |u| - 1 ensures !BothSpaces(u, i) {
      if i + 1 < |s| {
        assert !BothSpaces(s, i);
      }
    }
  }

  lemma {:induction false} CollapsesTo(s: string, n: nat)
    requires n <= |s|
    ensures var state := PushedTo(EMPTY, s, n);
            && IsCollapsed(state.out) && SpacesOut(state.out) == SpacesTo(s, n)
            && (state.pendingSpace ==> state.out != "")
  {
    if n > 0 {
      CollapsesTo(s, n - 1);
      var state, c := PushedTo(EMPTY, s, n - 1), s[n - 1];
      if !IsWhitespace(c) {
        CollapsedMore(state.out, c);
        SpacesOutMore(state.out, c);
        SpacesOutMore(state.out, ' ');
        SpacesOutMore(state.out + " ", c);
        assert state.out + "" + [c] == state.out + [c];
      }
    }
  }

  /** Collapsing leaves single spaces inside, and drops nothing but whitespace. */
  lemma CollapsedIsCollapsed(s: string)
    ensures IsCollapsed(Collapsed(s)) && SpacesOut(Collapsed(s)) == SpacesOut(s)
  {
    CollapsesTo(s, |s|);
  }

  /** The words and one more letter, which begins a word or goes on with the last one. */
  function WithLetter(words: seq<string>, begins: bool, c: char): seq<string> {
    if begins || words == [] then words + [[c]] else words[..|words| - 1] + [words[|words| - 1] + [c]]
  }

  predicate EndsWord(s: string) {
    s == "" || IsWhitespace(s[|s| - 1])
  }

  /** The stretches of a text between its whitespace. */
  function Words(s: string): seq<string> {
    if s == "" then []
    else if IsWhitespace(s[|s| - 1]) then Words(s[..|s| - 1])
    else WithLetter(Words(s[..|s| - 1]), EndsWord(s[..|s| - 1]), s[|s| - 1])
  }

  /** Words with one space between each two. */
  function Joined(words: seq<string>): string {
    if words == [] then ""
    else if |words| == 1 then words[0]
    else Joined(words[..|words| - 1]) + " " + words[|words| - 1]
  }

  lemma JoinedMore(words: seq<string>, word: string)
    ensures Joined(words + [word]) == if words == [] then word else Joined(words) + " " + word
  {
    assert (words + [word])[..|words|] == words;
  }

  lemma JoinedLonger(front: seq<string>, word: string, c: char)
    ensures Joined(front + [word + [c]]) == Joined(front + [word]) + [c]
  {
    JoinedMore(front, word);
    JoinedMore(front, word + [c]);
    Regroup(Joined(front) + " ", word, [c]);
  }

  ghost predicate IsWord(word: string) {
    word != "" && forall c :: c in word ==> !IsWhitespace(c)
  }

  ghost predicate AreWords(words: seq<string>) {
    forall i :: 0 <= i < |words| ==> IsWord(words[i])
  }

  lemma {:induction false} WordsAreWords(s: string)
    ensures AreWords(Words(s))
  {
    if s != "" {
      WordsAreWords(s[..|s| - 1]);
    }
  }

  /** A character after the first `n`. */
  lemma WordsMore(s: string, n: nat)
    requires n < |s|
    ensures var words, c := Words(s[..n]), s[n];
            Words(s[..n + 1])
            == if IsWhitespace(c) then words else WithLetter(words, n == 0 || IsWhitespace(s[n - 1]), c)
  {
    assert s[..n + 1][..n] == s[..n];
  }

  /** What is due is a space, if whitespace came after a word. */
  ghost predicate IsCollapsing(state: Collapsing, s: string, n: nat)
    requires n <= |s|
  {
    && state.out == Joined(Words(s[..n]))
    && (state.pendingSpace <==> Words(s[..n]) != [] && IsWhitespace(s[n - 1]))
  }

  lemma CollapsingStep(state: Collapsing, s: string, n: nat)
    requires n < |s| && IsCollapsing(state, s, n)
    ensures IsCollapsing(Pushed(state, s[n]), s, n + 1)
  {
    var words, c, next := Words(s[..n]), s[n], Words(s[..n + 1]);
    WordsMore(s, n);
    WordsAreWords(s[..n]);
    if IsWhitespace(c) {
      CollapsingSpace(state, words);
    } else if n == 0 || IsWhitespace(s[n - 1]) {
      CollapsingWord(state, words, c);
    } else {
      var front, word := words[..|words| - 1], words[|words| - 1];
      assert words == front + [word];
      CollapsingLetter(state.out, front, word, c);
    }
  }

  /** Something is written exactly when there is a word. */
  lemma CollapsingSpace(state: Collapsing, words: seq<string>)
    requires AreWords(words) && state.out == Joined(words)
    ensures state.out != "" <==> words != []
  {
    if words != [] {
      assert IsWord(words[|words| - 1]);
    }
  }

  lemma CollapsingWord(state: Collapsing, words: seq<string>, c: char)
    requires AreWords(words) && state.out == Joined(words) && (state.pendingSpace <==> words != []) && !IsWhitespace(c)
    ensures Pushed(state, c) == Collapsing(Joined(words + [[c]]), false)
  {
    JoinedMore(words, [c]);
    NothingBefore([c]);
    assert words == [] ==> state.out + "" + [c] == [c];
  }

  lemma CollapsingLetter(out: string, front: seq<string>, word: string, c: char)
    requires out == Joined(front + [word]) && !IsWhitespace(c)
    ensures Pushed(Collapsing(out, false), c) == Collapsing(Joined(front + [word + [c]]), false)
  {
    JoinedLonger(front, word, c);
    LetterPushed(out, c);
  }

  lemma LetterPushed(out: string, c: char)
    requires !IsWhitespace(c)
    ensures Pushed(Collapsing(out, false), c) == Collapsing(out + [c], false)
  {
    assert out + "" == out;
  }

  lemma {:induction false} CollapsingTo(s: string, n: nat)
    requires n <= |s|
    ensures IsCollapsing(PushedTo(EMPTY, s, n), s, n)
  {
    if n > 0 {
      CollapsingTo(s, n - 1);
      CollapsingStep(PushedTo(EMPTY, s, n - 1), s, n - 1);
    }
  }

  /** Collapsing keeps the words between whitespace, in order, with one space between each two. */
  lemma CollapsedIsWords(s: string)
    ensures Collapsed(s) == Joined(Words(s))
  {
    CollapsingTo(s, |s|);
    assert s[..|s|] == s;
  }

  lemma WordsLast(s: string, c: char)
    ensures Words(s + [c])
         == if IsWhitespace(c) then Words(s) else WithLetter(Words(s), EndsWord(s), c)
  {
    assert (s + [c])[..|s|] == s;
  }

  /** A letter that goes on with a word. */
  lemma WordGoesOn(s: string, before: seq<string>, word: string, c: char)
    requires s != "" && !IsWhitespace(s[|s| - 1]) && !IsWhitespace(c) && Words(s) == before + [word]
    ensures Words(s + [c]) == before + [word + [c]]
  {
    WordsLast(s, c);
  }

  lemma {:induction false} WordsWithWord(s: string, word: string)
    requires IsWord(word) && (s != "" ==> IsWhitespace(s[|s| - 1]))
    ensures Words(s + word) == Words(s) + [word]
    decreases |word|
  {
    var front, c := word[..|word| - 1], word[|word| - 1];
    assert word == front + [c] && c in word;
    Regroup(s, front, [c]);
    if front == "" {
      assert s + front == s;
      WordsLast(s, c);
    } else {
      assert front[|front| - 1] in word;
      WordsWithWord(s, front);
      WordGoesOn(s + front, Words(s), front, c);
    }
  }

  lemma {:induction false} WordsOfJoined(words: seq<string>)
    requires AreWords(words)
    ensures Words(Joined(words)) == words
  {
    if words != [] {
      var front, word := words[..|words| - 1], words[|words| - 1];
      assert words == front + [word] && IsWord(word);
      WordsOfJoined(front);
      JoinedMore(front, word);
      if front == [] {
        WordsWithWord("", word);
        NothingBefore(word);
      } else {
        assert (Joined(front) + " ")[..|Joined(front)|] == Joined(front);
        WordsWithWord(Joined(front) + " ", word);
      }
    }
  }

  /** So the words are the same, and any collapsed text with the same words is what collapsing gives. */
  lemma CollapsedKeepsWords(s: string, t: string)
    ensures Collapsed(s) == t <==> IsCollapsed(t) && Words(t) == Words(s)
  {
    CollapsedIsWords(s);
    CollapsedIsCollapsed(s);
    WordsAreWords(s);
    WordsOfJoined(Words(s));
    if IsCollapsed(t) {
      CollapsedIsWords(t);
      CollapsedStays(t, |t|);
      assert t[..|t|] == t;
    }
  }

  lemma {:induction false} CollapsedStays(s: string, n: nat)
    requires IsCollapsed(s) && n <= |s|
    ensures PushedTo(EMPTY, s, n) == if n > 0 && IsWhitespace(s[n - 1]) then Collapsing(s[..n - 1], true)
                                     else Collapsing(s[..n], false)
  {
    if n > 0 {
      CollapsedStays(s, n - 1);
      assert s[..n] == s[..n - 1] + [s[n - 1]];
      if n > 1 {
        assert !BothSpaces(s, n - 2);
        assert s[..n - 1] == s[..n - 2] + [s[n - 2]];
      }
    }
  }

  /** Collapsing what is collapsed changes nothing. */
  lemma CollapsedIdempotent(s: string)
    ensures Collapsed(Collapsed(s)) == Collapsed(s)
  {
    CollapsedIsCollapsed(s);
    var t := Collapsed(s);
    CollapsedStays(t, |t|);
    assert t[..|t|] == t;
  }

  // ── What the passes leave ────────────────────────────────────────────────────

  lemma {:induction false} SpacesHave(s: string, n: nat, c: char)
    requires n <= |s|
    ensures c in SpacesTo(s, n) <==> c in s[..n] && !IsWhitespace(c)
  {
    if n > 0 {
      SpacesHave(s, n - 1, c);
      assert s[..n] == s[..n - 1] + [s[n - 1]];
    }
  }

  lemma {:induction false} MarksHave(s: string, n: nat, c: char)
    requires n <= |s|
    ensures c in MarksTo(s, n) <==> c in s[..n] && !MarkOrder.IsAttachedMark(c)
  {
    if n > 0 {
      MarksHave(s, n - 1, c);
      assert s[..n] == s[..n - 1] + [s[n - 1]];
    }
  }

  lemma {:induction false} DroppedHave(s: string, n: nat, dropping: Dropping, c: char)
    requires n <= |s|
    ensures c in DroppedTo(s, n, dropping) <==> c in s[..n] && !(dropping.Invisibles? && IsInvisible(c))
  {
    if n > 0 {
      DroppedHave(s, n - 1, dropping, c);
      assert s[..n] == s[..n - 1] + [s[n - 1]];
    }
  }

  /** A character comes from one that folds to it, or stays as it is. */
  ghost predicate ComesFrom(s: string, folding: Folding, c: char) {
    exists d :: d in s && if d in folding then c in folding[d] else c == d
  }

  lemma {:induction false} FoldedHave(s: string, n: nat, folding: Folding, c: char)
    requires n <= |s|
    ensures c in FoldedTo(s, n, folding) <==> ComesFrom(s[..n], folding, c)
  {
    if n > 0 {
      FoldedHave(s, n - 1, folding, c);
      assert s[..n] == s[..n - 1] + [s[n - 1]];
    }
  }

  lemma CollapsedHas(s: string, c: char)
    ensures !IsWhitespace(c) ==> (c in Collapsed(s) <==> c in s)
  {
    CollapsedIsCollapsed(s);
    SpacesHave(s, |s|, c);
    SpacesHave(Collapsed(s), |Collapsed(s)|, c);
    assert s[..|s|] == s && Collapsed(s)[..|Collapsed(s)|] == Collapsed(s);
  }

  /** But for whitespace, the passes leave what the characters not dropped fold to, without the marks if those are
      stripped. */
  lemma PassesLeave(s: string, folding: Folding, stripMarks: bool, dropping: Dropping, c: char)
    requires !IsWhitespace(c)
    ensures c in Passes(s, folding, stripMarks, dropping)
       <==> ComesFrom(DroppedOut(s, dropping), folding, c) && !(stripMarks && MarkOrder.IsAttachedMark(c))
    ensures c in DroppedOut(s, dropping) <==> c in s && !(dropping.Invisibles? && IsInvisible(c))
  {
    var dropped := DroppedOut(s, dropping);
    var folded := FoldedText(dropped, folding);
    FoldedHave(dropped, |dropped|, folding, c);
    assert dropped[..|dropped|] == dropped;
    CollapsedHas(Finished(folded, stripMarks), c);
    MarksHave(folded, |folded|, c);
    DroppedHave(s, |s|, dropping, c);
    assert folded[..|folded|] == folded && s[..|s|] == s;
  }

  // ── One pass ─────────────────────────────────────────────────────────────────

  /** What one character of stripped text becomes. */
  function Kept(c: char, folding: Folding, stripMarks: bool, dropping: Dropping): string {
    if Drops(dropping, c) then "" else if stripMarks then MarksOut(Folded(folding, c)) else Folded(folding, c)
  }

  function KeptTo(s: string, n: nat, folding: Folding, stripMarks: bool, dropping: Dropping): string
    requires n <= |s|
  {
    if n == 0 then ""
    else KeptTo(s, n - 1, folding, stripMarks, dropping) + Kept(s[n - 1], folding, stripMarks, dropping)
  }

  function KeptText(s: string, folding: Folding, stripMarks: bool, dropping: Dropping): string {
    KeptTo(s, |s|, folding, stripMarks, dropping)
  }

  lemma {:induction false} MarksInPrefix(a: string, b: string, n: nat)
    requires n <= |a|
    ensures MarksTo(a + b, n) == MarksTo(a, n)
  {
    if n > 0 {
      MarksInPrefix(a, b, n - 1);
    }
  }

  lemma {:induction false} MarksOfBoth(a: string, b: string, n: nat)
    requires n <= |b|
    ensures MarksTo(a + b, |a| + n) == MarksOut(a) + MarksTo(b, n)
  {
    if n > 0 {
      MarksOfBoth(a, b, n - 1);
    } else {
      MarksInPrefix(a, b, |a|);
    }
  }

  lemma {:induction false} FoldedInPrefix(a: string, b: string, n: nat, folding: Folding)
    requires n <= |a|
    ensures FoldedTo(a + b, n, folding) == FoldedTo(a, n, folding)
  {
    if n > 0 {
      FoldedInPrefix(a, b, n - 1, folding);
    }
  }

  /** The text dropped from and folded, with one more character. */
  lemma FoldedNext(s: string, n: nat, folding: Folding, dropping: Dropping)
    requires 0 < n <= |s|
    ensures FoldedText(DroppedTo(s, n, dropping), folding)
         == FoldedText(DroppedTo(s, n - 1, dropping), folding) + if Drops(dropping, s[n - 1]) then ""
                                                                 else Folded(folding, s[n - 1])
  {
    var dropped := DroppedTo(s, n - 1, dropping);
    if Drops(dropping, s[n - 1]) {
      assert DroppedTo(s, n, dropping) == dropped;
    } else {
      FoldedInPrefix(dropped, [s[n - 1]], |dropped|, folding);
    }
  }

  lemma MarksOutOfBoth(a: string, b: string)
    ensures MarksOut(a + b) == MarksOut(a) + MarksOut(b)
  {
    MarksOfBoth(a, b, |b|);
  }

  function Finished(folded: string, stripMarks: bool): string {
    if stripMarks then MarksOut(folded) else folded
  }

  /** Character by character, the passes do what they do one after another. */
  lemma {:induction false} KeptIsPasses(s: string, n: nat, folding: Folding, stripMarks: bool, dropping: Dropping)
    requires n <= |s|
    ensures KeptTo(s, n, folding, stripMarks, dropping)
        == Finished(FoldedText(DroppedTo(s, n, dropping), folding), stripMarks)
  {
    if n > 0 {
      KeptIsPasses(s, n - 1, folding, stripMarks, dropping);
      FoldedNext(s, n, folding, dropping);
      FinishedNext(FoldedText(DroppedTo(s, n - 1, dropping), folding), s[n - 1], folding, stripMarks, dropping);
    }
  }

  lemma FinishedNext(folded: string, c: char, folding: Folding, stripMarks: bool, dropping: Dropping)
    ensures Finished(folded + (if Drops(dropping, c) then "" else Folded(folding, c)), stripMarks)
         == Finished(folded, stripMarks) + Kept(c, folding, stripMarks, dropping)
  {
    if Drops(dropping, c) {
      assert folded + "" == folded;
    } else {
      MarksOutOfBoth(folded, Folded(folding, c));
    }
  }

  lemma {:induction false} PushedInPrefix(state: Collapsing, a: string, b: string, n: nat)
    requires n <= |a|
    ensures PushedTo(state, a + b, n) == PushedTo(state, a, n)
  {
    if n > 0 {
      PushedInPrefix(state, a, b, n - 1);
    }
  }

  lemma {:induction false} PushedOfBoth(state: Collapsing, a: string, b: string, n: nat)
    requires n <= |b|
    ensures PushedTo(state, a + b, |a| + n) == PushedTo(PushedAll(state, a), b, n)
  {
    if n > 0 {
      PushedOfBoth(state, a, b, n - 1);
    } else {
      PushedInPrefix(state, a, b, |a|);
    }
  }

  lemma PushedBoth(state: Collapsing, a: string, b: string)
    ensures PushedAll(state, a + b) == PushedAll(PushedAll(state, a), b)
  {
    PushedOfBoth(state, a, b, |b|);
  }

  lemma {:induction false} KeptInPrefix(a: string, b: string, n: nat, folding: Folding, stripMarks: bool,
                                        dropping: Dropping)
    requires n <= |a|
    ensures KeptTo(a + b, n, folding, stripMarks, dropping) == KeptTo(a, n, folding, stripMarks, dropping)
  {
    if n > 0 {
      KeptInPrefix(a, b, n - 1, folding, stripMarks, dropping);
    }
  }

  lemma {:induction false} KeptOfBoth(a: string, b: string, n: nat, folding: Folding, stripMarks: bool,
                                      dropping: Dropping)
    requires n <= |b|
    ensures KeptTo(a + b, |a| + n, folding, stripMarks, dropping)
        == KeptText(a, folding, stripMarks, dropping) + KeptTo(b, n, folding, stripMarks, dropping)
  {
    if n > 0 {
      KeptOfBoth(a, b, n - 1, folding, stripMarks, dropping);
      assert (a + b)[|a| + n - 1] == b[n - 1];
      Regroup(KeptText(a, folding, stripMarks, dropping), KeptTo(b, n - 1, folding, stripMarks, dropping),
              Kept(b[n - 1], folding, stripMarks, dropping));
    } else {
      KeptInPrefix(a, b, |a|, folding, stripMarks, dropping);
    }
  }

  lemma PlainStays(c: char, folding: Folding, stripMarks: bool, dropping: Dropping)
    requires IsPlain(c) && FoldsForms(folding)
    ensures !IsWhitespace(c) && Kept(c, folding, stripMarks, dropping) == [c]
  {
    assert MarksTo([c], 0) == "" && MarksTo([c], 1) == [c];
  }

  predicate AllPlain(run: string) {
    forall i :: 0 <= i < |run| ==> IsPlain(run[i])
  }

  /** A run of plain characters is kept as it is. */
  lemma {:induction false} PlainRunKept(s: string, i: nat, len: nat, folding: Folding, stripMarks: bool,
                                        dropping: Dropping)
    requires i + len <= |s| && (forall j :: i <= j < i + len ==> IsPlain(s[j])) && FoldsForms(folding)
    ensures KeptTo(s, i + len, folding, stripMarks, dropping)
        == KeptTo(s, i, folding, stripMarks, dropping) + s[i..i + len]
  {
    if len > 0 {
      PlainRunKept(s, i, len - 1, folding, stripMarks, dropping);
      PlainStays(s[i + len - 1], folding, stripMarks, dropping);
      SliceWithLast(s, i, i + len);
      Regroup(KeptTo(s, i, folding, stripMarks, dropping), s[i..i + len - 1], [s[i + len - 1]]);
    }
  }

  lemma {:induction false} PlainRunPushed(state: Collapsing, run: string, n: nat, folding: Folding)
    requires AllPlain(run) && 0 < n <= |run| && FoldsForms(folding)
    ensures PushedTo(state, run, n)
        == Collapsing(state.out + (if state.pendingSpace then " " else "") + run[..n], false)
  {
    PlainStays(run[n - 1], folding, false, Nothing);
    var before := state.out + (if state.pendingSpace then " " else "");
    if n == 1 {
      assert PushedTo(state, run, 0) == state && run[..1] == [run[0]];
    } else {
      PlainRunPushed(state, run, n - 1, folding);
      assert before + run[..n - 1] + "" + [run[n - 1]] == before + run[..n];
    }
  }

  lemma PushedOne(state: Collapsing, s: string, c: char)
    ensures PushedAll(state, s + [c]) == Pushed(PushedAll(state, s), c)
  {
    PushedInPrefix(state, s, [c], |s|);
  }

  class Collapser {
    var out: string
    var pendingSpace: bool

    function State(): Collapsing
      reads this
    {
      Collapsing(out, pendingSpace)
    }

    constructor ()
      ensures State() == EMPTY
    {
      out, pendingSpace := "", false;
    }

    method Push(c: char)
      modifies this
      ensures State() == Pushed(old(State()), c)
    {
      if IsWhitespace(c) {
        if out != "" {
          pendingSpace := true;
        }
      } else {
        if pendingSpace {
          out := out + " ";
          pendingSpace := false;
        }
        out := out + [c];
      }
    }

    /** A run of plain characters, at once. */
    method PushPlain(run: string)
      modifies this
      ensures State() == Collapsing(old(out) + (if old(pendingSpace) then " " else "") + run, false)
    {
      if pendingSpace {
        out := out + " ";
        pendingSpace := false;
      }
      out := out + run;
    }

    /** A character folded, its marks left out when asked. */
    method PushFolded(c: char, folding: Folding, stripMarks: bool)
      modifies this
      ensures State() == PushedAll(old(State()),
                                   if stripMarks then MarksOut(Folded(folding, c)) else Folded(folding, c))
    {
      var folded := Folded(folding, c);
      for i := 0 to |folded|
        invariant State() == if stripMarks then PushedAll(old(State()), MarksTo(folded, i))
                             else PushedTo(old(State()), folded, i)
      {
        if stripMarks && MarkOrder.IsAttachedMark(folded[i]) {
          assert MarksTo(folded, i + 1) == MarksTo(folded, i);
        } else {
          PushedOne(old(State()), MarksTo(folded, i), folded[i]);
          Push(folded[i]);
        }
      }
    }
  }

  /** How many plain characters follow. */
  function PlainRunLen(s: string, i: nat): (len: nat)
    requires i <= |s|
    ensures i + len <= |s| && AllPlain(s[i..i + len])
    decreases |s| - i
  {
    if i < |s| && IsPlain(s[i]) then
      var rest := PlainRunLen(s, i + 1);
      assert s[i..i + 1 + rest] == [s[i]] + s[i + 1..i + 1 + rest];
      1 + rest
    else 0
  }

  /** The piece up to `i` has been pushed. */
  ghost predicate PushedUpto(state: Collapsing, start: Collapsing, piece: string, i: nat, folding: Folding,
                             stripMarks: bool, dropping: Dropping)
  {
    i <= |piece| && state == PushedAll(start, KeptTo(piece, i, folding, stripMarks, dropping))
  }

  method PushRun(collapser: Collapser, ghost start: Collapsing, piece: string, i: nat, len: nat, folding: Folding,
                 stripMarks: bool, dropping: Dropping)
    requires FoldsForms(folding) && len > 0 && i + len <= |piece| && AllPlain(piece[i..i + len])
    requires PushedUpto(collapser.State(), start, piece, i, folding, stripMarks, dropping)
    modifies collapser
    ensures PushedUpto(collapser.State(), start, piece, i + len, folding, stripMarks, dropping)
  {
    var run := piece[i..i + len];
    RunIsKept(start, collapser.State(), piece, i, run, folding, stripMarks, dropping);
    collapser.PushPlain(run);
  }

  method PushChar(collapser: Collapser, ghost start: Collapsing, piece: string, i: nat, folding: Folding,
                  stripMarks: bool, dropping: Dropping)
    requires FoldsForms(folding) && i < |piece|
    requires PushedUpto(collapser.State(), start, piece, i, folding, stripMarks, dropping)
    modifies collapser
    ensures PushedUpto(collapser.State(), start, piece, i + 1, folding, stripMarks, dropping)
  {
    CharIsKept(start, collapser.State(), piece, i, folding, stripMarks, dropping);
    if !Drops(dropping, piece[i]) {
      collapser.PushFolded(piece[i], folding, stripMarks);
    }
  }

  /** A piece of stripped text, in runs of plain characters and other ones. */
  method PushPiece(collapser: Collapser, piece: string, folding: Folding, stripMarks: bool, dropping: Dropping)
    requires FoldsForms(folding)
    modifies collapser
    ensures PushedUpto(collapser.State(), old(collapser.State()), piece, |piece|, folding, stripMarks, dropping)
  {
    ghost var start := collapser.State();
    var i: nat := 0;
    while i < |piece|
      invariant PushedUpto(collapser.State(), start, piece, i, folding, stripMarks, dropping)
    {
      var len := PlainRunLen(piece, i);
      if len > 0 {
        PushRun(collapser, start, piece, i, len, folding, stripMarks, dropping);
        i := i + len;
      } else {
        PushChar(collapser, start, piece, i, folding, stripMarks, dropping);
        i := i + 1;
      }
    }
  }

  lemma RunIsPushed(start: Collapsing, state: Collapsing, kept: string, run: string, folding: Folding)
    requires run != "" && AllPlain(run) && FoldsForms(folding) && state == PushedAll(start, kept)
    ensures PushedAll(start, kept + run)
        == Collapsing(state.out + (if state.pendingSpace then " " else "") + run, false)
  {
    PushedBoth(start, kept, run);
    PlainRunPushed(state, run, |run|, folding);
    assert run[..|run|] == run;
  }

  lemma RunIsKept(start: Collapsing, state: Collapsing, piece: string, i: nat, run: string, folding: Folding,
                  stripMarks: bool, dropping: Dropping)
    requires i + |run| <= |piece| && run == piece[i..i + |run|] && run != "" && AllPlain(run) && FoldsForms(folding)
    requires PushedUpto(state, start, piece, i, folding, stripMarks, dropping)
    ensures PushedUpto(Collapsing(state.out + (if state.pendingSpace then " " else "") + run, false), start, piece,
                       i + |run|, folding, stripMarks, dropping)
  {
    forall j | i <= j < i + |run| ensures IsPlain(piece[j]) {
      assert piece[j] == run[j - i];
    }
    PlainRunKept(piece, i, |run|, folding, stripMarks, dropping);
    RunIsPushed(start, state, KeptTo(piece, i, folding, stripMarks, dropping), run, folding);
  }

  lemma CharIsKept(start: Collapsing, state: Collapsing, piece: string, i: nat, folding: Folding, stripMarks: bool,
                   dropping: Dropping)
    requires i < |piece|
    requires PushedUpto(state, start, piece, i, folding, stripMarks, dropping)
    ensures PushedUpto(PushedAll(state, Kept(piece[i], folding, stripMarks, dropping)), start, piece, i + 1, folding,
                       stripMarks, dropping)
  {
    PushedBoth(start, KeptTo(piece, i, folding, stripMarks, dropping), Kept(piece[i], folding, stripMarks, dropping));
  }

  /** One pass over the line gives what the separate passes give. */
  method NormalizeOnePass(line: string, breaks: Breaks, folding: Folding, stripMarks: bool, dropping: Dropping)
    returns (out: string)
    requires FoldsForms(folding)
    ensures out == Normalized(line, breaks, folding, stripMarks, dropping)
  {
    var collapser := new Collapser();
    var pieces := StrippedPieces(line, breaks);
    for i := 0 to |pieces|
      invariant collapser.State() == PushedAll(EMPTY, KeptText(Concat(pieces[..i]), folding, stripMarks, dropping))
    {
      PieceIsKept(pieces, i, folding, stripMarks, dropping);
      PushPiece(collapser, pieces[i].text, folding, stripMarks, dropping);
    }
    assert pieces[..|pieces|] == pieces;
    KeptIsPasses(Concat(pieces), |Concat(pieces)|, folding, stripMarks, dropping);
    out := collapser.out;
  }

  lemma PieceIsKept(pieces: seq<Piece>, i: nat, folding: Folding, stripMarks: bool, dropping: Dropping)
    requires i < |pieces|
    ensures PushedAll(EMPTY, KeptText(Concat(pieces[..i + 1]), folding, stripMarks, dropping))
         == PushedAll(PushedAll(EMPTY, KeptText(Concat(pieces[..i]), folding, stripMarks, dropping)),
                      KeptText(pieces[i].text, folding, stripMarks, dropping))
  {
    assert pieces[..i + 1] == pieces[..i] + [pieces[i]];
    ConcatMore(pieces[..i], pieces[i]);
    KeptOfBoth(Concat(pieces[..i]), pieces[i].text, |pieces[i].text|, folding, stripMarks, dropping);
    PushedBoth(EMPTY, KeptText(Concat(pieces[..i]), folding, stripMarks, dropping),
               KeptText(pieces[i].text, folding, stripMarks, dropping));
  }

  predicate ContainsAttachedMarks(s: string) {
    exists i :: 0 <= i < |s| && MarkOrder.IsAttachedMark(s[i])
  }

  ghost predicate CarriesMarks(s: string) {
    exists c :: c in s && MarkOrder.IsAttachedMark(c)
  }

  lemma MarksAreCarried(s: string)
    ensures ContainsAttachedMarks(s) <==> CarriesMarks(s)
  {
    if ContainsAttachedMarks(s) {
      var i :| 0 <= i < |s| && MarkOrder.IsAttachedMark(s[i]);
      assert s[i] in s;
    }
  }

  /** `plain` is the line without its marks; `vocalized`, where there are marks to keep, the line with them. */
  method NormalizeLineForIndexing(line: string, breaks: Breaks, folding: Folding)
    returns (plain: string, vocalized: Option<string>)
    requires FoldsForms(folding)
    ensures plain == Normalized(line, breaks, folding, true, Nothing)
    ensures vocalized == var text := Normalized(line, breaks, folding, false, Nothing);
                         if CarriesMarks(line) && text != "" then Some(text) else None
  {
    MarksAreCarried(line);
    if !ContainsAttachedMarks(line) {
      plain := NormalizeOnePass(line, breaks, folding, true, Nothing);
      return plain, None;
    }
    var without := new Collapser();
    var with := new Collapser();
    var pieces := StrippedPieces(line, breaks);
    for i := 0 to |pieces|
      invariant without.State() == PushedAll(EMPTY, KeptText(Concat(pieces[..i]), folding, true, Nothing))
      invariant with.State() == PushedAll(EMPTY, KeptText(Concat(pieces[..i]), folding, false, Nothing))
    {
      PieceIsKept(pieces, i, folding, true, Nothing);
      PieceIsKept(pieces, i, folding, false, Nothing);
      PushPiece(without, pieces[i].text, folding, true, Nothing);
      PushPiece(with, pieces[i].text, folding, false, Nothing);
    }
    assert pieces[..|pieces|] == pieces;
    KeptIsPasses(Concat(pieces), |Concat(pieces)|, folding, true, Nothing);
    KeptIsPasses(Concat(pieces), |Concat(pieces)|, folding, false, Nothing);
    plain := without.out;
    vocalized := if with.out != "" then Some(with.out) else None;
  }
}
