/** Markup out of a line: one pass over it, and the separate passes it must equal. */
module HtmlStrip {
  import opened Prelude

  const NBSP := "&nbsp;"
  const THINSP := "&thinsp;"
  const ENSP := "&ensp;"
  const EMSP := "&emsp;"
  /** The entities that stand for a space. */
  const SPACE_ENTITIES: seq<string> := [NBSP, THINSP, ENSP, EMSP]

  predicate StartsAt(text: string, i: nat, e: string) {
    i + |e| <= |text| && forall j {:trigger e[j]} :: 0 <= j < |e| ==> text[i + j] == e[j]
  }

  /** The length of the entity at `i`, among the first `n` space entities; 0 for none. */
  function EntityLenOf(text: string, i: nat, n: nat): (len: nat)
    requires n <= 4
    ensures len > 0 ==> i + len <= |text|
  {
    if n == 0 then 0
    else if EntityLenOf(text, i, n - 1) > 0 then EntityLenOf(text, i, n - 1)
    else if StartsAt(text, i, SPACE_ENTITIES[n - 1]) then |SPACE_ENTITIES[n - 1]|
    else 0
  }

  lemma {:induction false} EntityOf(text: string, i: nat, n: nat) returns (k: nat)
    requires n <= 4 && EntityLenOf(text, i, n) > 0
    ensures k < n && StartsAt(text, i, SPACE_ENTITIES[k]) && EntityLenOf(text, i, n) == |SPACE_ENTITIES[k]|
  {
    if EntityLenOf(text, i, n - 1) > 0 {
      k := EntityOf(text, i, n - 1);
    } else {
      k := n - 1;
    }
  }

  /** An entity is an ampersand, letters, and a semicolon. */
  lemma EntityShape(k: nat, j: nat)
    requires k < 4 && j < |SPACE_ENTITIES[k]|
    ensures var c := SPACE_ENTITIES[k][j];
            && c != ' ' && c != '<' && c != '>'
            && (c == '&' <==> j == 0) && (c == ';' <==> j == |SPACE_ENTITIES[k]| - 1)
  {
    if k == 0 {
      assert j == 0 || j == 1 || j == 2 || j == 3 || j == 4 || j == 5;
    } else if k == 1 {
      assert j == 0 || j == 1 || j == 2 || j == 3 || j == 4 || j == 5 || j == 6 || j == 7;
    } else {
      assert j == 0 || j == 1 || j == 2 || j == 3 || j == 4 || j == 5;
    }
  }

  predicate Lacks(text: string, lo: nat, hi: nat, c: char)
    requires hi <= |text|
  {
    forall m :: lo <= m < hi ==> text[m] != c
  }

  lemma EntityAt(text: string, i: nat, n: nat, m: nat)
    requires n <= 4 && i <= m < i + EntityLenOf(text, i, n)
    ensures i + EntityLenOf(text, i, n) <= |text|
    ensures text[m] != '<' && text[m] != '>' && (text[m] == '&' <==> m == i)
    ensures text[m] == ';' <==> m == i + EntityLenOf(text, i, n) - 1
    ensures m == i ==> text[m] != ';'
  {
    var k := EntityOf(text, i, n);
    EntityShape(k, m - i);
    assert text[i + (m - i)] == SPACE_ENTITIES[k][m - i];
  }

  /** The text with its space entities replaced, all at once. */
  function SpacedBy(text: string, n: nat, i: nat): string
    requires n <= 4 && i <= |text|
    decreases |text| - i
  {
    if i == |text| then ""
    else if EntityLenOf(text, i, n) > 0 then " " + SpacedBy(text, n, i + EntityLenOf(text, i, n))
    else [text[i]] + SpacedBy(text, n, i + 1)
  }

  // ── The replacements, one after another ──────────────────────────────────────

  /** The standard library's replacement of every occurrence by a space. */
  function ReplaceAll(text: string, e: string, i: nat): string
    requires i <= |text| && e != ""
    decreases |text| - i
  {
    if i == |text| then ""
    else if StartsAt(text, i, e) then " " + ReplaceAll(text, e, i + |e|)
    else [text[i]] + ReplaceAll(text, e, i + 1)
  }

  /** The four replacements, in the order they are made. */
  function Replaced(text: string): string {
    ReplaceAll(ReplaceAll(ReplaceAll(ReplaceAll(text, NBSP, 0), THINSP, 0), ENSP, 0), EMSP, 0)
  }

  /** What follows `p` in `chars` is what `text` becomes from `i` on. */
  ghost predicate Follows(text: string, n: nat, i: nat, chars: string, p: nat)
    decreases |text| - i
  {
    && n <= 4 && i <= |text| && p <= |chars|
    && if i == |text| then p == |chars|
       else if EntityLenOf(text, i, n) > 0 then
         p < |chars| && chars[p] == ' ' && Follows(text, n, i + EntityLenOf(text, i, n), chars, p + 1)
       else p < |chars| && chars[p] == text[i] && Follows(text, n, i + 1, chars, p + 1)
  }

  lemma {:induction false} SpacedFollows(text: string, n: nat, i: nat, chars: string, p: nat)
    requires n <= 4 && i <= |text| && p <= |chars| && chars[p..] == SpacedBy(text, n, i)
    ensures Follows(text, n, i, chars, p)
    decreases |text| - i
  {
    if i < |text| {
      assert chars[p..][0] == chars[p] && chars[p..][1..] == chars[p + 1..];
      if EntityLenOf(text, i, n) > 0 {
        SpacedFollows(text, n, i + EntityLenOf(text, i, n), chars, p + 1);
      } else {
        SpacedFollows(text, n, i + 1, chars, p + 1);
      }
    }
  }

  /** The entity `k` kept, as it is, up to its character `len`. */
  lemma {:induction false} FollowsRun(text: string, n: nat, i: nat, chars: string, p: nat, k: nat, len: nat)
    requires Follows(text, n, i, chars, p) && k < 4 && StartsAt(text, i, SPACE_ENTITIES[k])
    requires len <= |SPACE_ENTITIES[k]|
    requires EntityLenOf(text, i, n) == 0
    ensures p + len <= |chars| && i + len <= |text| && Follows(text, n, i + len, chars, p + len)
    ensures forall j {:trigger SPACE_ENTITIES[k][j]} :: 0 <= j < len ==> chars[p + j] == SPACE_ENTITIES[k][j]
    decreases len
  {
    if len > 0 {
      var last := i + (len - 1);
      FollowsRun(text, n, i, chars, p, k, len - 1);
      EntityShape(k, len - 1);
      assert text[i + (len - 1)] == SPACE_ENTITIES[k][len - 1];
      if len > 1 && EntityLenOf(text, last, n) > 0 {
        EntityAt(text, last, n, last);
      }
    }
  }

  /** A run without spaces stood in the text before the replacements too. */
  lemma {:induction false} RunStoodBefore(text: string, n: nat, i: nat, chars: string, p: nat, k: nat, len: nat)
    requires Follows(text, n, i, chars, p) && k < 4 && StartsAt(chars, p, SPACE_ENTITIES[k])
    requires len <= |SPACE_ENTITIES[k]|
    ensures i + len <= |text| && Follows(text, n, i + len, chars, p + len)
    ensures forall j {:trigger SPACE_ENTITIES[k][j]} :: 0 <= j < len ==> text[i + j] == SPACE_ENTITIES[k][j]
    decreases len
  {
    if len > 0 {
      RunStoodBefore(text, n, i, chars, p, k, len - 1);
      EntityShape(k, len - 1);
      assert chars[p + (len - 1)] == SPACE_ENTITIES[k][len - 1];
    }
  }

  /** A space begins no entity. */
  lemma NoEntityAtSpace(chars: string, p: nat, k: nat)
    requires k < 4 && p < |chars| && chars[p] == ' '
    ensures !StartsAt(chars, p, SPACE_ENTITIES[k])
  {
    EntityShape(k, 0);
    var e := SPACE_ENTITIES[k];
    assert chars[p + 0] != e[0];
  }

  /** The next entity is where it was before the others were replaced. */
  lemma EntityStays(text: string, n: nat, i: nat, chars: string, p: nat)
    requires n < 4 && Follows(text, n, i, chars, p) && i < |text| && EntityLenOf(text, i, n) == 0
    ensures StartsAt(chars, p, SPACE_ENTITIES[n]) == StartsAt(text, i, SPACE_ENTITIES[n])
    ensures StartsAt(text, i, SPACE_ENTITIES[n]) ==>
              Follows(text, n, i + |SPACE_ENTITIES[n]|, chars, p + |SPACE_ENTITIES[n]|)
  {
    if StartsAt(text, i, SPACE_ENTITIES[n]) {
      FollowsRun(text, n, i, chars, p, n, |SPACE_ENTITIES[n]|);
    } else if StartsAt(chars, p, SPACE_ENTITIES[n]) {
      RunStoodBefore(text, n, i, chars, p, n, |SPACE_ENTITIES[n]|);
    }
  }

  /** One more entity replaced after the others is replaced with them. */
  lemma {:induction false} OneMoreEntity(text: string, n: nat, i: nat, chars: string, p: nat)
    requires n < 4 && Follows(text, n, i, chars, p)
    ensures ReplaceAll(chars, SPACE_ENTITIES[n], p) == SpacedBy(text, n + 1, i)
    decreases |text| - i
  {
    if i == |text| {
    } else if EntityLenOf(text, i, n) > 0 {
      NoEntityAtSpace(chars, p, n);
      OneMoreEntity(text, n, i + EntityLenOf(text, i, n), chars, p + 1);
    } else {
      EntityStays(text, n, i, chars, p);
      if StartsAt(text, i, SPACE_ENTITIES[n]) {
        OneMoreEntity(text, n, i + |SPACE_ENTITIES[n]|, chars, p + |SPACE_ENTITIES[n]|);
      } else {
        OneMoreEntity(text, n, i + 1, chars, p + 1);
      }
    }
  }

  lemma {:induction false} NothingReplaced(text: string, i: nat)
    requires i <= |text|
    ensures SpacedBy(text, 0, i) == text[i..]
    decreases |text| - i
  {
    if i < |text| {
      NothingReplaced(text, i + 1);
      assert text[i..] == [text[i]] + text[i + 1..];
    }
  }

  lemma NextReplacement(text: string, n: nat)
    requires n < 4
    ensures ReplaceAll(SpacedBy(text, n, 0), SPACE_ENTITIES[n], 0) == SpacedBy(text, n + 1, 0)
  {
    var chars := SpacedBy(text, n, 0);
    assert chars[0..] == chars;
    SpacedFollows(text, n, 0, chars, 0);
    OneMoreEntity(text, n, 0, chars, 0);
  }

  /** Replacing the entities one after another replaces them all at once. */
  lemma ReplacedAtOnce(text: string)
    ensures Replaced(text) == SpacedBy(text, 4, 0)
  {
    NothingReplaced(text, 0);
    assert text[0..] == text;
    NextReplacement(text, 0);
    NextReplacement(text, 1);
    NextReplacement(text, 2);
    NextReplacement(text, 3);
  }

  // ── Tags and entities ────────────────────────────────────────────────────────

  /** Whether a tag separates words, told by how many `<` come before it. */
  type Breaks = nat -> bool

  predicate IsMarkup(c: char) {
    c == '<' || c == '&'
  }

  function AnglesBefore(text: string, i: nat): nat
    requires i <= |text|
  {
    if i == 0 then 0 else AnglesBefore(text, i - 1) + if text[i - 1] == '<' then 1 else 0
  }

  function FindFrom(text: string, c: char, j: nat): (r: Option<nat>)
    requires j <= |text|
    ensures r.Some? ==> j <= r.value < |text| && text[r.value] == c
    decreases |text| - j
  {
    if j == |text| then None else if text[j] == c then Some(j) else FindFrom(text, c, j + 1)
  }

  /** The first `;` that closes no space entity. */
  function SemiFrom(text: string, n: nat, j: nat): (r: Option<nat>)
    requires j <= |text| && n <= 4
    ensures r.Some? ==> j <= r.value < |text| && text[r.value] == ';'
    decreases |text| - j
  {
    if j == |text| then None
    else if text[j] == ';' then Some(j)
    else if EntityLenOf(text, j, n) > 0 then SemiFrom(text, n, j + EntityLenOf(text, j, n))
    else SemiFrom(text, n, j + 1)
  }

  function TagSpace(breaks: Breaks, ordinal: nat): string {
    if breaks(ordinal) then " " else ""
  }

  /** What the markup at `i` is replaced by, and where it ends. */
  function MarkupAt(text: string, n: nat, breaks: Breaks, i: nat): (r: (string, nat))
    requires n <= 4 && i < |text| && IsMarkup(text[i])
    ensures i < r.1 <= |text|
    ensures r.0 == "" || (r.0 == [text[i]] && r.1 == i + 1) || r.0 == " "
  {
    if text[i] == '<' then
      match FindFrom(text, '>', i + 1)
      case Some(gt) => (TagSpace(breaks, AnglesBefore(text, i)), gt + 1)
      case None => ("<", i + 1)
    else if EntityLenOf(text, i, n) > 0 then (" ", i + EntityLenOf(text, i, n))
    else
      match SemiFrom(text, n, i + 1)
      case Some(semi) => if semi > i + 1 then ("", semi + 1) else ("&", i + 1)
      case None => ("&", i + 1)
  }

  /** One pass: the markup out of the text from `i` on, the first `n` space entities and all. */
  function Stripped(text: string, n: nat, breaks: Breaks, i: nat): string
    requires i <= |text| && n <= 4
    decreases |text| - i
  {
    if i == |text| then ""
    else if IsMarkup(text[i]) then
      var (replacement, next) := MarkupAt(text, n, breaks, i);
      replacement + Stripped(text, n, breaks, next)
    else [text[i]] + Stripped(text, n, breaks, i + 1)
  }

  /** The last pass's step: what the tag or entity at `p` leaves, and where it ends. */
  function PlainMarkupAt(chars: string, breaks: Breaks, p: nat): (r: (string, nat))
    requires p < |chars| && IsMarkup(chars[p])
    ensures p < r.1 <= |chars|
  {
    if chars[p] == '<' then
      match FindFrom(chars, '>', p + 1)
      case Some(gt) => (TagSpace(breaks, AnglesBefore(chars, p)), gt + 1)
      case None => ("<", p + 1)
    else
      match FindFrom(chars, ';', p + 1)
      case Some(semi) => if semi > p + 1 then ("", semi + 1) else ("&", p + 1)
      case None => ("&", p + 1)
  }

  /** The last pass on its own: tags and entities out of text whose spaces are there already. */
  function TagsOut(chars: string, breaks: Breaks, p: nat): string
    requires p <= |chars|
    decreases |chars| - p
  {
    if p == |chars| then ""
    else if IsMarkup(chars[p]) then
      var (replacement, next) := PlainMarkupAt(chars, breaks, p);
      replacement + TagsOut(chars, breaks, next)
    else [chars[p]] + TagsOut(chars, breaks, p + 1)
  }

  /** Both passes stand at the same place, after as many tags. */
  ghost predicate Mirrors(text: string, n: nat, i: nat, chars: string, p: nat) {
    Follows(text, n, i, chars, p) && AnglesBefore(text, i) == AnglesBefore(chars, p)
  }

  lemma MirrorsChar(text: string, n: nat, i: nat, chars: string, p: nat)
    requires Mirrors(text, n, i, chars, p) && i < |text| && EntityLenOf(text, i, n) == 0
    ensures p < |chars| && chars[p] == text[i] && Mirrors(text, n, i + 1, chars, p + 1)
  {
  }

  lemma {:induction false} NoAnglesIn(text: string, i: nat, j: nat)
    requires i <= j <= |text| && Lacks(text, i, j, '<')
    ensures AnglesBefore(text, j) == AnglesBefore(text, i)
  {
    if i < j {
      NoAnglesIn(text, i, j - 1);
    }
  }

  lemma MirrorsEntity(text: string, n: nat, i: nat, chars: string, p: nat)
    requires Mirrors(text, n, i, chars, p) && i < |text| && EntityLenOf(text, i, n) > 0
    ensures p < |chars| && chars[p] == ' ' && i + EntityLenOf(text, i, n) <= |text| && text[i] == '&'
    ensures Mirrors(text, n, i + EntityLenOf(text, i, n), chars, p + 1)
  {
    forall m | i <= m < i + EntityLenOf(text, i, n) ensures text[m] != '<' && (text[m] == '&' <==> m == i) {
      EntityAt(text, i, n, m);
    }
    NoAnglesIn(text, i, i + EntityLenOf(text, i, n));
  }

  lemma MirrorsEnd(text: string, n: nat, i: nat, chars: string, p: nat)
    requires Mirrors(text, n, i, chars, p)
    ensures i == |text| <==> p == |chars|
  {
    if i == |text| {
    } else if EntityLenOf(text, i, n) > 0 {
      MirrorsEntity(text, n, i, chars, p);
    } else {
      MirrorsChar(text, n, i, chars, p);
    }
  }

  lemma {:induction false} NoCloseIn(text: string, i: nat, j: nat)
    requires i <= j <= |text| && Lacks(text, i, j, '>')
    ensures FindFrom(text, '>', i) == FindFrom(text, '>', j)
    decreases j - i
  {
    if i < j {
      NoCloseIn(text, i + 1, j);
    }
  }

  lemma NoCloseInEntity(text: string, n: nat, i: nat)
    requires n <= 4 && i <= |text| && EntityLenOf(text, i, n) > 0
    ensures i + EntityLenOf(text, i, n) <= |text|
    ensures FindFrom(text, '>', i) == FindFrom(text, '>', i + EntityLenOf(text, i, n))
  {
    forall m | i <= m < i + EntityLenOf(text, i, n) ensures text[m] != '>' {
      EntityAt(text, i, n, m);
    }
    NoCloseIn(text, i, i + EntityLenOf(text, i, n));
  }

  /** Two searches end together. */
  ghost predicate MeetAt(text: string, n: nat, found: Option<nat>, chars: string, found': Option<nat>) {
    found.Some? == found'.Some? && (found.Some? ==> Mirrors(text, n, found.value + 1, chars, found'.value + 1))
  }

  /** No `>` is lost in an entity. */
  lemma {:induction false} CloseMirrors(text: string, n: nat, i: nat, chars: string, p: nat)
    requires Mirrors(text, n, i, chars, p)
    ensures MeetAt(text, n, FindFrom(text, '>', i), chars, FindFrom(chars, '>', p))
    decreases |text| - i
  {
    MirrorsEnd(text, n, i, chars, p);
    if i < |text| {
      if EntityLenOf(text, i, n) > 0 {
        MirrorsEntity(text, n, i, chars, p);
        CloseMirrors(text, n, i + EntityLenOf(text, i, n), chars, p + 1);
        NoCloseInEntity(text, n, i);
      } else {
        MirrorsChar(text, n, i, chars, p);
        CloseMirrors(text, n, i + 1, chars, p + 1);
      }
    }
  }

  /** The `;` found past the entities is the first one once they are spaces. */
  lemma {:induction false} SemiMirrors(text: string, n: nat, i: nat, chars: string, p: nat)
    requires Mirrors(text, n, i, chars, p)
    ensures MeetAt(text, n, SemiFrom(text, n, i), chars, FindFrom(chars, ';', p))
    ensures SemiFrom(text, n, i) == Some(i) <==> FindFrom(chars, ';', p) == Some(p)
    decreases |text| - i
  {
    MirrorsEnd(text, n, i, chars, p);
    if i < |text| {
      if EntityLenOf(text, i, n) > 0 {
        MirrorsEntity(text, n, i, chars, p);
        SemiMirrors(text, n, i + EntityLenOf(text, i, n), chars, p + 1);
      } else {
        MirrorsChar(text, n, i, chars, p);
        SemiMirrors(text, n, i + 1, chars, p + 1);
      }
    }
  }

  /** What is left after two searches, if they found anything, strips alike. */
  ghost predicate AlikeAfter(text: string, n: nat, breaks: Breaks, found: Option<nat>, chars: string,
                             found': Option<nat>)
  {
    && n <= 4 && found.Some? == found'.Some?
    && (found.Some? ==> found.value < |text| && found'.value < |chars|
                        && Stripped(text, n, breaks, found.value + 1) == TagsOut(chars, breaks, found'.value + 1))
  }

  /** The walks go on next to where they stand, or past what was found. */
  predicate GoesOn(i: nat, p: nat, found: Option<nat>, found': Option<nat>, next: nat, next': nat) {
    || (next == i + 1 && next' == p + 1)
    || (found.Some? && found'.Some? && next == found.value + 1 && next' == found'.value + 1)
  }

  lemma TagStep(text: string, n: nat, breaks: Breaks, i: nat, chars: string, p: nat)
    requires n <= 4 && i < |text| && p < |chars| && text[i] == chars[p] == '<'
    requires AnglesBefore(text, i) == AnglesBefore(chars, p)
    requires FindFrom(text, '>', i + 1).Some? == FindFrom(chars, '>', p + 1).Some?
    ensures var (here, there) := (MarkupAt(text, n, breaks, i), PlainMarkupAt(chars, breaks, p));
            && here.0 == there.0
            && GoesOn(i, p, FindFrom(text, '>', i + 1), FindFrom(chars, '>', p + 1), here.1, there.1)
  {
  }

  lemma AmpersandStep(text: string, n: nat, breaks: Breaks, i: nat, chars: string, p: nat)
    requires n <= 4 && i < |text| && p < |chars| && text[i] == chars[p] == '&' && EntityLenOf(text, i, n) == 0
    requires SemiFrom(text, n, i + 1).Some? == FindFrom(chars, ';', p + 1).Some?
    requires SemiFrom(text, n, i + 1) == Some(i + 1) <==> FindFrom(chars, ';', p + 1) == Some(p + 1)
    ensures var (here, there) := (MarkupAt(text, n, breaks, i), PlainMarkupAt(chars, breaks, p));
            && here.0 == there.0
            && GoesOn(i, p, SemiFrom(text, n, i + 1), FindFrom(chars, ';', p + 1), here.1, there.1)
  {
  }

  lemma AlikeFurther(text: string, n: nat, breaks: Breaks, i: nat, chars: string, p: nat,
                     found: Option<nat>, found': Option<nat>, next: nat, next': nat)
    requires n <= 4 && i < |text| && p < |chars| && GoesOn(i, p, found, found', next, next')
    requires Stripped(text, n, breaks, i + 1) == TagsOut(chars, breaks, p + 1)
    requires AlikeAfter(text, n, breaks, found, chars, found')
    ensures next <= |text| && next' <= |chars| && Stripped(text, n, breaks, next) == TagsOut(chars, breaks, next')
  {
  }

  lemma StrippedAlike(text: string, n: nat, breaks: Breaks, i: nat, chars: string, p: nat,
                      replacement: string, next: nat, next': nat)
    requires n <= 4 && i < |text| && p < |chars| && IsMarkup(text[i]) && IsMarkup(chars[p])
    requires MarkupAt(text, n, breaks, i) == (replacement, next)
    requires PlainMarkupAt(chars, breaks, p) == (replacement, next')
    requires Stripped(text, n, breaks, next) == TagsOut(chars, breaks, next')
    ensures Stripped(text, n, breaks, i) == TagsOut(chars, breaks, p)
  {
  }

  lemma {:induction false} OnePassAtTag(text: string, n: nat, breaks: Breaks, i: nat, chars: string, p: nat)
    requires Mirrors(text, n, i, chars, p) && i < |text| && text[i] == '<' && EntityLenOf(text, i, n) == 0
    ensures Stripped(text, n, breaks, i) == TagsOut(chars, breaks, p)
    decreases |text| - i, 0
  {
    MirrorsChar(text, n, i, chars, p);
    OnePassStrips(text, n, breaks, i + 1, chars, p + 1);
    CloseMirrors(text, n, i + 1, chars, p + 1);
    OnePassAfter(text, n, breaks, i + 1, FindFrom(text, '>', i + 1), chars, FindFrom(chars, '>', p + 1));
    TagStep(text, n, breaks, i, chars, p);
    var (replacement, next) := MarkupAt(text, n, breaks, i);
    var next' := PlainMarkupAt(chars, breaks, p).1;
    AlikeFurther(text, n, breaks, i, chars, p, FindFrom(text, '>', i + 1), FindFrom(chars, '>', p + 1), next, next');
    StrippedAlike(text, n, breaks, i, chars, p, replacement, next, next');
  }

  lemma {:induction false} OnePassAtAmpersand(text: string, n: nat, breaks: Breaks, i: nat, chars: string, p: nat)
    requires Mirrors(text, n, i, chars, p) && i < |text| && text[i] == '&' && EntityLenOf(text, i, n) == 0
    ensures Stripped(text, n, breaks, i) == TagsOut(chars, breaks, p)
    decreases |text| - i, 0
  {
    MirrorsChar(text, n, i, chars, p);
    OnePassStrips(text, n, breaks, i + 1, chars, p + 1);
    SemiMirrors(text, n, i + 1, chars, p + 1);
    OnePassAfter(text, n, breaks, i + 1, SemiFrom(text, n, i + 1), chars, FindFrom(chars, ';', p + 1));
    AmpersandStep(text, n, breaks, i, chars, p);
    var (replacement, next) := MarkupAt(text, n, breaks, i);
    var next' := PlainMarkupAt(chars, breaks, p).1;
    AlikeFurther(text, n, breaks, i, chars, p, SemiFrom(text, n, i + 1), FindFrom(chars, ';', p + 1), next, next');
    StrippedAlike(text, n, breaks, i, chars, p, replacement, next, next');
  }

  lemma {:induction false} OnePassAfter(text: string, n: nat, breaks: Breaks, i: nat, found: Option<nat>, chars: string,
                                        found': Option<nat>)
    requires n <= 4 && i <= |text| && MeetAt(text, n, found, chars, found')
    requires found.Some? ==> i <= found.value < |text| && found'.value < |chars|
    ensures AlikeAfter(text, n, breaks, found, chars, found')
    decreases |text| - i, 2
  {
    if found.Some? {
      OnePassStrips(text, n, breaks, found.value + 1, chars, found'.value + 1);
    }
  }

  /** Stripping in one pass is stripping after the replacements. */
  lemma {:induction false} OnePassStrips(text: string, n: nat, breaks: Breaks, i: nat, chars: string, p: nat)
    requires Mirrors(text, n, i, chars, p)
    ensures Stripped(text, n, breaks, i) == TagsOut(chars, breaks, p)
    decreases |text| - i, 1
  {
    MirrorsEnd(text, n, i, chars, p);
    if i < |text| {
      if EntityLenOf(text, i, n) > 0 {
        MirrorsEntity(text, n, i, chars, p);
        OnePassStrips(text, n, breaks, i + EntityLenOf(text, i, n), chars, p + 1);
      } else if text[i] == '<' {
        OnePassAtTag(text, n, breaks, i, chars, p);
      } else if text[i] == '&' {
        OnePassAtAmpersand(text, n, breaks, i, chars, p);
      } else {
        MirrorsChar(text, n, i, chars, p);
        OnePassStrips(text, n, breaks, i + 1, chars, p + 1);
      }
    }
  }

  /** The one pass gives what the four replacements and the scan after them give. */
  lemma OnePassEqualsPasses(text: string, breaks: Breaks)
    ensures Stripped(text, 4, breaks, 0) == TagsOut(Replaced(text), breaks, 0)
  {
    ReplacedAtOnce(text);
    var chars := Replaced(text);
    assert chars[0..] == chars;
    SpacedFollows(text, 4, 0, chars, 0);
    OnePassStrips(text, 4, breaks, 0, chars, 0);
  }

  // ── The stream of pieces ─────────────────────────────────────────────────────

  /** Stripped text, and the part of the line it came from. */
  datatype Piece = Piece(lo: nat, hi: nat, text: string)

  function Concat(pieces: seq<Piece>): string {
    if pieces == [] then "" else Concat(pieces[..|pieces| - 1]) + pieces[|pieces| - 1].text
  }

  /** A piece is its part of the line, or a space for the markup there. */
  predicate IsPieceOf(piece: Piece, text: string) {
    && piece.lo <= piece.hi <= |text|
    && (piece.text == text[piece.lo..piece.hi]
        || (piece.text == " " && piece.lo < piece.hi && (text[piece.lo] == '<' || text[piece.lo] == '&')))
  }

  /** The pieces come from parts of the line that follow one another, up to `end`. */
  ghost predicate InOrder(pieces: seq<Piece>, text: string, end: nat) {
    && (forall i :: 0 <= i < |pieces| ==> IsPieceOf(pieces[i], text) && pieces[i].hi <= end)
    && (forall i, j :: 0 <= i < j < |pieces| ==> pieces[i].hi <= pieces[j].lo)
  }

  lemma ConcatMore(pieces: seq<Piece>, piece: Piece)
    ensures Concat(pieces + [piece]) == Concat(pieces) + piece.text
  {
    assert (pieces + [piece])[..|pieces|] == pieces;
  }

  lemma InOrderMore(pieces: seq<Piece>, text: string, end: nat, piece: Piece)
    requires InOrder(pieces, text, end) && IsPieceOf(piece, text) && end <= piece.lo
    ensures InOrder(pieces + [piece], text, piece.hi)
  {
  }

  lemma StrippedAtMarkup(text: string, n: nat, breaks: Breaks, i: nat, replacement: string, next: nat)
    requires n <= 4 && i < |text| && IsMarkup(text[i]) && MarkupAt(text, n, breaks, i) == (replacement, next)
    ensures next <= |text| && Stripped(text, n, breaks, i) == replacement + Stripped(text, n, breaks, next)
  {
  }

  /** Where the markup at an ampersand ends, if it is no space entity. */
  method FindSemi(text: string, from: nat) returns (semi: Option<nat>)
    requires from <= |text|
    ensures semi == SemiFrom(text, 4, from)
  {
    var j := from;
    while j < |text|
      invariant j <= |text| && SemiFrom(text, 4, from) == SemiFrom(text, 4, j)
    {
      if text[j] == ';' {
        return Some(j);
      }
      var len := EntityLenOf(text, j, 4);
      j := if len > 0 then j + len else j + 1;
    }
    semi := None;
  }

  method FindChar(text: string, c: char, from: nat) returns (at: Option<nat>)
    requires from <= |text|
    ensures at == FindFrom(text, c, from)
  {
    for j := from to |text|
      invariant FindFrom(text, c, from) == FindFrom(text, c, j)
    {
      if text[j] == c {
        return Some(j);
      }
    }
    at := None;
  }

  method ReadMarkup(text: string, breaks: Breaks, i: nat) returns (replacement: string, next: nat)
    requires i < |text| && IsMarkup(text[i])
    ensures (replacement, next) == MarkupAt(text, 4, breaks, i)
  {
    if text[i] == '<' {
      var close := FindChar(text, '>', i + 1);
      if close.Some? {
        return TagSpace(breaks, AnglesBefore(text, i)), close.value + 1;
      }
      return "<", i + 1;
    }
    var len := EntityLenOf(text, i, 4);
    if len > 0 {
      return " ", i + len;
    }
    var semi := FindSemi(text, i + 1);
    if semi.Some? && semi.value > i + 1 {
      return "", semi.value + 1;
    }
    replacement, next := "&", i + 1;
  }

  lemma {:induction false} PlainTextStays(text: string, breaks: Breaks, i: nat)
    requires i <= |text| && forall j :: i <= j < |text| ==> !IsMarkup(text[j])
    ensures Stripped(text, 4, breaks, i) == text[i..]
    decreases |text| - i
  {
    if i < |text| {
      PlainTextStays(text, breaks, i + 1);
      assert text[i..] == [text[i]] + text[i + 1..];
    }
  }

  /** What is done, what is being copied, and what is still to come make the whole. */
  ghost predicate Whole(text: string, breaks: Breaks, done: string, copied: nat, i: nat) {
    && copied <= i <= |text|
    && done + text[copied..i] + Stripped(text, 4, breaks, i) == Stripped(text, 4, breaks, 0)
  }

  lemma WholeChar(text: string, breaks: Breaks, done: string, copied: nat, i: nat)
    requires Whole(text, breaks, done, copied, i) && i < |text| && !IsMarkup(text[i])
    ensures Whole(text, breaks, done, copied, i + 1)
  {
    var rest := Stripped(text, 4, breaks, i + 1);
    assert text[copied..i + 1] == text[copied..i] + [text[i]];
    assert done + text[copied..i] + ([text[i]] + rest) == done + (text[copied..i] + [text[i]]) + rest;
  }

  lemma WholeCopied(text: string, breaks: Breaks, done: string, copied: nat, i: nat)
    requires Whole(text, breaks, done, copied, i)
    ensures Whole(text, breaks, done + text[copied..i], i, i)
  {
    var more := done + text[copied..i];
    assert text[i..i] == "" && more + "" == more;
  }

  lemma WholeMarkup(text: string, breaks: Breaks, done: string, i: nat)
    requires Whole(text, breaks, done, i, i) && i < |text| && IsMarkup(text[i])
    ensures Whole(text, breaks, done + MarkupAt(text, 4, breaks, i).0, MarkupAt(text, 4, breaks, i).1,
                  MarkupAt(text, 4, breaks, i).1)
  {
    var (replacement, next) := MarkupAt(text, 4, breaks, i);
    StrippedAtMarkup(text, 4, breaks, i, replacement, next);
    assert text[i..i] == "" && text[next..next] == "";
    Spliced(done, replacement, Stripped(text, 4, breaks, next));
  }

  lemma Spliced(done: string, replacement: string, rest: string)
    ensures done + "" + (replacement + rest) == done + replacement + "" + rest
  {
  }

  /** The pieces so far, in order, and what they leave to come. */
  ghost predicate Streamed(text: string, breaks: Breaks, pieces: seq<Piece>, copied: nat, i: nat) {
    InOrder(pieces, text, copied) && Whole(text, breaks, Concat(pieces), copied, i)
  }

  /** What was being copied becomes a piece. */
  lemma StreamsCopy(text: string, breaks: Breaks, pieces: seq<Piece>, copied: nat, i: nat)
    requires Streamed(text, breaks, pieces, copied, i)
    ensures Streamed(text, breaks, pieces + [Piece(copied, i, text[copied..i])], i, i)
  {
    var piece := Piece(copied, i, text[copied..i]);
    ConcatMore(pieces, piece);
    InOrderMore(pieces, text, copied, piece);
    WholeCopied(text, breaks, Concat(pieces), copied, i);
  }

  lemma MarkupIsPiece(text: string, breaks: Breaks, i: nat)
    requires i < |text| && IsMarkup(text[i]) && MarkupAt(text, 4, breaks, i).0 != ""
    ensures IsPieceOf(Piece(i, MarkupAt(text, 4, breaks, i).1, MarkupAt(text, 4, breaks, i).0), text)
  {
    assert text[i..i + 1] == [text[i]];
  }

  lemma InOrderFurther(pieces: seq<Piece>, text: string, end: nat, further: nat)
    requires InOrder(pieces, text, end) && end <= further
    ensures InOrder(pieces, text, further)
  {
  }

  lemma StreamsMarkup(text: string, breaks: Breaks, pieces: seq<Piece>, i: nat)
    requires Streamed(text, breaks, pieces, i, i) && i < |text| && IsMarkup(text[i])
    ensures var (replacement, next) := MarkupAt(text, 4, breaks, i);
            Streamed(text, breaks, if replacement == "" then pieces else pieces + [Piece(i, next, replacement)], next,
                     next)
  {
    var (replacement, next) := MarkupAt(text, 4, breaks, i);
    WholeMarkup(text, breaks, Concat(pieces), i);
    if replacement != "" {
      MarkupIsPiece(text, breaks, i);
      ConcatMore(pieces, Piece(i, next, replacement));
      InOrderMore(pieces, text, i, Piece(i, next, replacement));
    } else {
      InOrderFurther(pieces, text, i, next);
      assert Concat(pieces) + "" == Concat(pieces);
    }
  }

  lemma PlainIsOnePiece(text: string, breaks: Breaks)
    requires forall j :: 0 <= j < |text| ==> !IsMarkup(text[j])
    ensures Concat([Piece(0, |text|, text)]) == Stripped(text, 4, breaks, 0)
    ensures InOrder([Piece(0, |text|, text)], text, |text|)
  {
    PlainTextStays(text, breaks, 0);
    OnePiece(text);
  }

  lemma OnePiece(text: string)
    ensures Concat([Piece(0, |text|, text)]) == text == text[0..]
    ensures InOrder([Piece(0, |text|, text)], text, |text|)
  {
    var piece := Piece(0, |text|, text);
    WholeSlice(text);
    NothingBefore(text);
    NothingBefore([piece]);
    ConcatMore([], piece);
  }

  /** The stripped line, piece by piece: each piece comes from further along the line than the one
      before it, and what is copied is copied unchanged. */
  method StrippedPieces(text: string, breaks: Breaks) returns (pieces: seq<Piece>)
    ensures Concat(pieces) == TagsOut(Replaced(text), breaks, 0)
    ensures InOrder(pieces, text, |text|)
  {
    OnePassEqualsPasses(text, breaks);
    if forall j :: 0 <= j < |text| ==> !IsMarkup(text[j]) {
      PlainIsOnePiece(text, breaks);
      return [Piece(0, |text|, text)];
    }
    pieces := PiecesOf(text, breaks);
  }

  method PiecesOf(text: string, breaks: Breaks) returns (pieces: seq<Piece>)
    ensures Concat(pieces) == Stripped(text, 4, breaks, 0)
    ensures InOrder(pieces, text, |text|)
  {
    pieces := [];
    var copied: nat, i: nat := 0, 0;
    while i < |text|
      invariant Streamed(text, breaks, pieces, copied, i)
    {
      if !IsMarkup(text[i]) {
        WholeChar(text, breaks, Concat(pieces), copied, i);
        i := i + 1;
      } else {
        pieces, i := TakeMarkup(text, breaks, pieces, copied, i);
        copied := i;
      }
    }
    if copied < |text| {
      StreamsCopy(text, breaks, pieces, copied, |text|);
      pieces := pieces + [Piece(copied, |text|, text[copied..|text|])];
    }
    assert text[|text|..|text|] == "";
  }

  /** Copies what came before the markup at `i`, then replaces it. */
  method TakeMarkup(text: string, breaks: Breaks, before: seq<Piece>, copied: nat, i: nat)
    returns (pieces: seq<Piece>, next: nat)
    requires Streamed(text, breaks, before, copied, i) && i < |text| && IsMarkup(text[i])
    ensures i < next <= |text| && Streamed(text, breaks, pieces, next, next)
  {
    var replacement;
    pieces := before;
    replacement, next := ReadMarkup(text, breaks, i);
    if copied < i {
      StreamsCopy(text, breaks, pieces, copied, i);
      pieces := pieces + [Piece(copied, i, text[copied..i])];
    }
    StreamsMarkup(text, breaks, pieces, i);
    if replacement != "" {
      pieces := pieces + [Piece(i, next, replacement)];
    }
  }

  // ── What is taken out ────────────────────────────────────────────────────────

  ghost predicate HasAfter(chars: string, lo: nat, c: char) {
    exists m :: lo < m < |chars| && chars[m] == c
  }

  /** From `lo` on, `chars[hi - 1]` is the first `c`. */
  predicate ReachesFirst(chars: string, lo: nat, hi: nat, c: char) {
    lo + 1 < hi <= |chars| && chars[hi - 1] == c && forall m :: lo < m < hi - 1 ==> chars[m] != c
  }

  /** An ampersand right before a semicolon, or before none. */
  ghost predicate IsBareAmpersand(chars: string, lo: nat)
    requires lo < |chars|
  {
    !HasAfter(chars, lo, ';') || (lo + 1 < |chars| && chars[lo + 1] == ';')
  }

  /** A tag goes, up to its `>`, for a space or for nothing; an entity, up to its semicolon, for nothing; any
      other character stays. */
  ghost predicate Leaves(chars: string, breaks: Breaks, lo: nat, hi: nat, left: string)
    requires lo < |chars|
  {
    if chars[lo] == '<' && HasAfter(chars, lo, '>') then
      ReachesFirst(chars, lo, hi, '>') && left == if breaks(|Angles(chars, lo)|) then " " else ""
    else if chars[lo] == '&' && !IsBareAmpersand(chars, lo) then
      ReachesFirst(chars, lo, hi, ';') && left == ""
    else hi == lo + 1 && left == [chars[lo]]
  }

  function Angles(chars: string, n: nat): (r: set<nat>)
    requires n <= |chars|
    ensures forall m: nat :: m in r <==> m < n && chars[m] == '<'
  {
    set m: nat | m < n && chars[m] == '<'
  }

  lemma {:induction false} AnglesCounted(chars: string, n: nat)
    requires n <= |chars|
    ensures AnglesBefore(chars, n) == |Angles(chars, n)|
  {
    if n > 0 {
      AnglesCounted(chars, n - 1);
      if chars[n - 1] == '<' {
        assert Angles(chars, n) == Angles(chars, n - 1) + {n - 1};
      } else {
        assert Angles(chars, n) == Angles(chars, n - 1);
      }
    } else {
      assert Angles(chars, 0) == {};
    }
  }

  lemma {:induction false} FindIsFirst(chars: string, c: char, j: nat)
    requires j <= |chars|
    ensures var at := FindFrom(chars, c, j);
            if at.Some? then forall m :: j <= m < at.value ==> chars[m] != c else forall m ::
                j <= m < |chars| ==> chars[m] != c
    decreases |chars| - j
  {
    if j < |chars| && chars[j] != c {
      FindIsFirst(chars, c, j + 1);
    }
  }

  lemma MarkupLeaves(chars: string, breaks: Breaks, p: nat)
    requires p < |chars| && IsMarkup(chars[p])
    ensures var (left, next) := PlainMarkupAt(chars, breaks, p); Leaves(chars, breaks, p, next, left)
  {
    AnglesCounted(chars, p);
    FindIsFirst(chars, '>', p + 1);
    FindIsFirst(chars, ';', p + 1);
  }

  function Flat(parts: seq<string>): string {
    if parts == [] then "" else parts[0] + Flat(parts[1..])
  }

  /** The text falls into stretches from one cut to the next, and this is left of each. */
  ghost predicate IsCut(chars: string, breaks: Breaks, p: nat, cuts: seq<nat>, left: seq<string>) {
    && |cuts| == |left| + 1 && cuts[0] == p && cuts[|left|] == |chars|
    && forall i :: 0 <= i < |left| ==> cuts[i] < |chars| && Leaves(chars, breaks, cuts[i], cuts[i + 1], left[i])
  }

  lemma CutMore(chars: string, breaks: Breaks, p: nat, next: nat, here: string, cuts: seq<nat>, left: seq<string>)
    requires p < |chars| && Leaves(chars, breaks, p, next, here) && IsCut(chars, breaks, next, cuts, left)
    ensures IsCut(chars, breaks, p, [p] + cuts, [here] + left) && Flat([here] + left) == here + Flat(left)
  {
    var all, parts := [p] + cuts, [here] + left;
    assert parts[1..] == left;
    forall i | 0 <= i < |parts| ensures all[i] < |chars| && Leaves(chars, breaks, all[i], all[i + 1], parts[i]) {
      if i > 0 {
        assert all[i] == cuts[i - 1] && all[i + 1] == cuts[i] && parts[i] == left[i - 1];
      }
    }
  }

  /** The last pass leaves what is left of each tag, each entity, and each other character. */
  lemma {:induction false} TagsOutLeaves(chars: string, breaks: Breaks, p: nat)
    returns (cuts: seq<nat>, left: seq<string>)
    requires p <= |chars|
    ensures IsCut(chars, breaks, p, cuts, left) && TagsOut(chars, breaks, p) == Flat(left)
    decreases |chars| - p
  {
    if p == |chars| {
      cuts, left := [p], [];
    } else {
      var (here, next) := if IsMarkup(chars[p]) then PlainMarkupAt(chars, breaks, p) else ([chars[p]], p + 1);
      if IsMarkup(chars[p]) {
        MarkupLeaves(chars, breaks, p);
      }
      cuts, left := TagsOutLeaves(chars, breaks, next);
      CutMore(chars, breaks, p, next, here, cuts, left);
      cuts, left := [p] + cuts, [here] + left;
    }
  }
}
