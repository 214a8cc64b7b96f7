/** What it means to give every query word a place of its own, and why a failed search for an
    augmenting path rules every such assignment out. */
module Matchings {
  import opened Prelude

  /** Entry held by no word. */
  const UNMATCHED: int := -1

  /** `adjacency[w]` lists the places word `w` can fill; `assignment[w]` is one of them, and no
      two words share a place. */
  ghost predicate IsMatching(adjacency: seq<seq<nat>>, assignment: seq<nat>) {
    && |assignment| == |adjacency|
    && (forall w :: 0 <= w < |assignment| ==> assignment[w] in adjacency[w])
    && Distinct(assignment)
  }

  /** `owner[e]` is the word holding place `e`, and no word holds two. */
  ghost predicate IsPartialMatching(adjacency: seq<seq<nat>>, owner: seq<int>) {
    && (forall e :: 0 <= e < |owner| && owner[e] != UNMATCHED
          ==> 0 <= owner[e] < |adjacency| && e in adjacency[owner[e]])
    && (forall e, f :: 0 <= e < f < |owner| && owner[e] != UNMATCHED ==> owner[e] != owner[f])
  }

  ghost function Matched(owner: seq<int>): set<int> {
    set e | 0 <= e < |owner| && owner[e] != UNMATCHED :: owner[e]
  }

  /** Every place the words can fill is below `n`. */
  ghost predicate PlacesBelow(adjacency: seq<seq<nat>>, n: nat) {
    forall w, i :: 0 <= w < |adjacency| && 0 <= i < |adjacency[w]| ==> adjacency[w][i] < n
  }

  ghost predicate AllVisited(places: seq<nat>, visited: seq<bool>) {
    forall i :: 0 <= i < |places| ==> places[i] < |visited| && visited[places[i]]
  }

  ghost function VisitedPlaces(visited: seq<bool>): set<int> {
    set e | 0 <= e < |visited| && visited[e]
  }

  ghost function Holders(owner: seq<int>, visited: seq<bool>): set<int>
    requires |visited| == |owner|
  {
    set e | 0 <= e < |owner| && visited[e] :: owner[e]
  }

  lemma HoldersFillPlaces(adjacency: seq<seq<nat>>, owner: seq<int>, visited: seq<bool>)
    requires IsPartialMatching(adjacency, owner) && |visited| == |owner|
    requires forall e :: 0 <= e < |owner| && visited[e] ==> owner[e] != UNMATCHED
    ensures |Holders(owner, visited)| == |VisitedPlaces(visited)|
  {
    var holding := map e | 0 <= e < |owner| && visited[e] :: owner[e];
    forall e, f | e in holding && f in holding && e != f ensures holding[e] != holding[f] {
      if e < f {
        assert owner[e] != owner[f];
      } else {
        assert owner[f] != owner[e];
      }
    }
    InjectionSize(holding);
    assert holding.Keys == VisitedPlaces(visited);
    forall w | w in Holders(owner, visited) ensures w in holding.Values {
      var e :| 0 <= e < |owner| && visited[e] && owner[e] == w;
      assert holding[e] == w;
    }
    assert holding.Values == Holders(owner, visited);
  }

  /** Words confined to fewer places than there are of them cannot all be placed. */
  lemma Crowded(adjacency: seq<seq<nat>>, assignment: seq<nat>, blocked: set<int>, places: set<int>)
    requires forall w :: w in blocked ==> 0 <= w < |adjacency|
    requires forall w, p :: w in blocked && p in adjacency[w] ==> p in places
    requires |blocked| > |places|
    ensures !IsMatching(adjacency, assignment)
  {
    if IsMatching(adjacency, assignment) {
      var filling: map<int, int> := map w | w in blocked :: assignment[w];
      InjectionSize(filling);
      assert filling.Keys == blocked;
      SubsetSize(filling.Values, places);
    }
  }

  /** Hall's obstruction: the unmatched word `start` and the holders of the visited places are
      one word more than the visited places, the only ones they can fill. */
  lemma HallViolation(adjacency: seq<seq<nat>>, owner: seq<int>, visited: seq<bool>, start: nat, assignment: seq<nat>)
    requires IsPartialMatching(adjacency, owner) && |visited| == |owner|
    requires start < |adjacency| && start !in Matched(owner)
    requires AllVisited(adjacency[start], visited)
    requires forall e ::
               0 <= e < |owner| && visited[e] ==> owner[e] != UNMATCHED && AllVisited(adjacency[owner[e]], visited)
    ensures !IsMatching(adjacency, assignment)
  {
    HoldersFillPlaces(adjacency, owner, visited);
    var holders, places := Holders(owner, visited), VisitedPlaces(visited);
    assert holders <= Matched(owner);
    forall w, p | w in holders + {start} && p in adjacency[w] ensures p in places {
      assert AllVisited(adjacency[w], visited);
    }
    Crowded(adjacency, assignment, holders + {start}, places);
  }

  lemma NoMatching(adjacency: seq<seq<nat>>, owner: seq<int>, visited: seq<bool>, start: nat)
    requires IsPartialMatching(adjacency, owner) && |visited| == |owner|
    requires start < |adjacency| && start !in Matched(owner)
    requires AllVisited(adjacency[start], visited)
    requires forall e ::
               0 <= e < |owner| && visited[e] ==> owner[e] != UNMATCHED && AllVisited(adjacency[owner[e]], visited)
    ensures forall assignment :: !IsMatching(adjacency, assignment)
  {
    forall assignment ensures !IsMatching(adjacency, assignment) {
      HallViolation(adjacency, owner, visited, start, assignment);
    }
  }

  /** A word on the search path, and how many of its places it has tried. */
  type Frame = (nat, nat)

  /** The place a frame tried last. */
  function Tried(adjacency: seq<seq<nat>>, frame: Frame): nat
    requires frame.0 < |adjacency| && 1 <= frame.1 <= |adjacency[frame.0]|
  {
    adjacency[frame.0][frame.1 - 1]
  }

  ghost predicate OnStack(stack: seq<Frame>, word: int) {
    exists j :: 0 <= j < |stack| && stack[j].0 == word
  }

  /** The frames are an alternating path from `start`: each word is the holder of the place the
      word below it tried last. */
  ghost predicate IsPath(adjacency: seq<seq<nat>>, owner: seq<int>, visited: seq<bool>, stack: seq<Frame>, start: nat) {
    && |visited| == |owner|
    && (stack != [] ==> stack[0].0 == start)
    && (forall j :: 0 <= j < |stack| ==> stack[j].0 < |adjacency| && stack[j].1 <= |adjacency[stack[j].0]|)
    && (forall i, j :: 0 <= i < j < |stack| ==> stack[i].0 != stack[j].0)
    && (forall j ::
         0 <= j < |stack| - 1 ==> 1 <= stack[j].1 && IsHeld(owner, visited, Tried(adjacency, stack[j]), stack[j + 1].0))
  }

  ghost predicate IsHeld(owner: seq<int>, visited: seq<bool>, place: nat, holder: nat)
    requires |visited| == |owner|
  {
    place < |owner| && visited[place] && owner[place] == holder
  }

  /** Every visited place is held, and its holder is on the path or has tried every place. */
  ghost predicate Explored(adjacency: seq<seq<nat>>, owner: seq<int>, visited: seq<bool>, stack: seq<Frame>, start: nat)
    requires start < |adjacency| && IsPartialMatching(adjacency, owner)
    requires IsPath(adjacency, owner, visited, stack, start)
  {
    && (stack == [] ==> AllVisited(adjacency[start], visited))
    && (forall j :: 0 <= j < |stack| ==> AllVisited(adjacency[stack[j].0][..stack[j].1], visited))
    && (forall e :: 0 <= e < |owner| && visited[e] ==>
          owner[e] != UNMATCHED && (OnStack(stack, owner[e]) || AllVisited(adjacency[owner[e]], visited)))
  }

  lemma PopKeepsSearch(adjacency: seq<seq<nat>>, owner: seq<int>, visited: seq<bool>, stack: seq<Frame>, start: nat)
    requires start < |adjacency| && IsPartialMatching(adjacency, owner)
    requires IsPath(adjacency, owner, visited, stack, start) && Explored(adjacency, owner, visited, stack, start)
    requires stack != []
    requires var (w, i) := stack[|stack| - 1]; i == |adjacency[w]|
    ensures IsPath(adjacency, owner, visited, stack[..|stack| - 1], start)
    ensures Explored(adjacency, owner, visited, stack[..|stack| - 1], start)
  {
    var t := |stack| - 1;
    var (w, i) := stack[t];
    assert adjacency[w][..i] == adjacency[w];
    forall e | 0 <= e < |owner| && visited[e]
      ensures OnStack(stack[..t], owner[e]) || AllVisited(adjacency[owner[e]], visited)
    {
      if owner[e] != w && OnStack(stack, owner[e]) {
        var j :| 0 <= j < |stack| && stack[j].0 == owner[e];
        assert stack[..t][j].0 == owner[e];
      }
    }
  }

  /** The path with one more place tried by its last word. */
  function Retried(stack: seq<Frame>): seq<Frame>
    requires stack != []
  {
    var t := |stack| - 1;
    stack[t := (stack[t].0, stack[t].1 + 1)]
  }

  lemma SkipKeepsSearch(adjacency: seq<seq<nat>>, owner: seq<int>, visited: seq<bool>, stack: seq<Frame>, start: nat)
    requires start < |adjacency| && IsPartialMatching(adjacency, owner)
    requires IsPath(adjacency, owner, visited, stack, start) && Explored(adjacency, owner, visited, stack, start)
    requires stack != []
    requires var (w, i) := stack[|stack| - 1];
             i < |adjacency[w]| && adjacency[w][i] < |owner| && visited[adjacency[w][i]]
    ensures IsPath(adjacency, owner, visited, Retried(stack), start)
    ensures Explored(adjacency, owner, visited, Retried(stack), start)
  {
    StackWords(stack);
  }

  lemma StackWords(stack: seq<Frame>)
    requires stack != []
    ensures forall w :: OnStack(stack, w) <==> OnStack(Retried(stack), w)
  {
    forall w ensures OnStack(stack, w) <==> OnStack(Retried(stack), w) {
      if OnStack(stack, w) {
        var j :| 0 <= j < |stack| && stack[j].0 == w;
        assert Retried(stack)[j].0 == w;
      }
    }
  }

  function Pushed(owner: seq<int>, stack: seq<Frame>, place: nat): seq<Frame>
    requires stack != [] && place < |owner| && 0 <= owner[place]
  {
    Retried(stack) + [(owner[place], 0)]
  }

  lemma HolderOffPath(adjacency: seq<seq<nat>>, owner: seq<int>, visited: seq<bool>, stack: seq<Frame>, start: nat,
                      place: nat)
    requires IsPartialMatching(adjacency, owner) && start !in Matched(owner)
    requires IsPath(adjacency, owner, visited, stack, start)
    requires place < |owner| && !visited[place] && owner[place] != UNMATCHED
    ensures !OnStack(stack, owner[place])
  {
    forall j | 0 <= j < |stack| ensures stack[j].0 != owner[place] {
      if j > 0 {
        assert IsHeld(owner, visited, Tried(adjacency, stack[j - 1]), stack[j].0);
      } else {
        assert owner[place] in Matched(owner);
      }
    }
  }

  lemma PushKeepsPath(adjacency: seq<seq<nat>>, owner: seq<int>, visited: seq<bool>, stack: seq<Frame>, start: nat,
                      place: nat)
    requires IsPartialMatching(adjacency, owner) && start !in Matched(owner)
    requires IsPath(adjacency, owner, visited, stack, start) && stack != []
    requires var (w, i) := stack[|stack| - 1]; i < |adjacency[w]| && adjacency[w][i] == place
    requires place < |owner| && !visited[place] && owner[place] != UNMATCHED
    ensures IsPath(adjacency, owner, visited[place := true], Pushed(owner, stack, place), start)
  {
    var stack' := Pushed(owner, stack, place);
    var visited' := visited[place := true];
    var t := |stack| - 1;
    HolderOffPath(adjacency, owner, visited, stack, start, place);
    assert forall j :: 0 <= j < |stack| ==> stack'[j].0 == stack[j].0 && stack[j].0 != owner[place];
    assert Tried(adjacency, stack'[t]) == place;
    forall j | 0 <= j < |stack'| - 1
      ensures 1 <= stack'[j].1 && IsHeld(owner, visited', Tried(adjacency, stack'[j]), stack'[j + 1].0)
    {
      if j < t {
        assert IsHeld(owner, visited, Tried(adjacency, stack[j]), stack[j + 1].0);
      }
    }
  }

  lemma PushKeepsSearch(adjacency: seq<seq<nat>>, owner: seq<int>, visited: seq<bool>, stack: seq<Frame>, start: nat,
                        place: nat)
    requires start < |adjacency| && IsPartialMatching(adjacency, owner) && start !in Matched(owner)
    requires IsPath(adjacency, owner, visited, stack, start) && Explored(adjacency, owner, visited, stack, start)
    requires stack != []
    requires var (w, i) := stack[|stack| - 1]; i < |adjacency[w]| && adjacency[w][i] == place
    requires place < |owner| && !visited[place] && owner[place] != UNMATCHED
    ensures IsPath(adjacency, owner, visited[place := true], Pushed(owner, stack, place), start)
    ensures Explored(adjacency, owner, visited[place := true], Pushed(owner, stack, place), start)
  {
    PushKeepsPath(adjacency, owner, visited, stack, start, place);
    var stack' := Pushed(owner, stack, place);
    var visited' := visited[place := true];
    var t := |stack| - 1;
    forall j | 0 <= j < |stack'| ensures AllVisited(adjacency[stack'[j].0][..stack'[j].1], visited') {
      if j < |stack| {
        assert AllVisited(adjacency[stack[j].0][..stack[j].1], visited);
      }
    }
    forall e | 0 <= e < |owner| && visited'[e]
      ensures owner[e] != UNMATCHED && (OnStack(stack', owner[e]) || AllVisited(adjacency[owner[e]], visited'))
    {
      if e == place {
        assert stack'[t + 1].0 == owner[e];
      } else if OnStack(stack, owner[e]) {
        var j :| 0 <= j < |stack| && stack[j].0 == owner[e];
        assert stack'[j].0 == owner[e];
      }
    }
  }

  /** `flipped` gives each word on the path the place it tried last, and changes nothing else. */
  ghost predicate IsFlipped(adjacency: seq<seq<nat>>, owner: seq<int>, stack: seq<Frame>, flipped: seq<int>)
    requires forall j :: 0 <= j < |stack| ==> stack[j].0 < |adjacency| && 1 <= stack[j].1 <= |adjacency[stack[j].0]|
  {
    && |flipped| == |owner|
    && (forall j ::
         0 <= j < |stack| ==> Tried(adjacency, stack[j]) < |owner| && flipped[Tried(adjacency, stack[j])] == stack[j].0)
    && (forall e :: 0 <= e < |owner| && (forall j :: 0 <= j < |stack| ==> Tried(adjacency, stack[j]) != e) ==>
         flipped[e] == owner[e])
  }

  /** A path that reached a free place. */
  ghost predicate IsAugmenting(adjacency: seq<seq<nat>>, owner: seq<int>, visited: seq<bool>, stack: seq<Frame>,
                               start: nat)
  {
    && IsPath(adjacency, owner, visited, stack, start)
    && stack != []
    && var last := stack[|stack| - 1];
       1 <= last.1 && Tried(adjacency, last) < |owner| && owner[Tried(adjacency, last)] == UNMATCHED
  }

  /** Trying a free place next turns the path into an augmenting one. */
  lemma RetriedAugments(adjacency: seq<seq<nat>>, owner: seq<int>, visited: seq<bool>, stack: seq<Frame>, start: nat,
                        place: nat)
    requires IsPath(adjacency, owner, visited, stack, start) && stack != []
    requires var (w, i) := stack[|stack| - 1]; i < |adjacency[w]| && adjacency[w][i] == place
    requires place < |owner| && owner[place] == UNMATCHED
    ensures IsAugmenting(adjacency, owner, visited, Retried(stack), start)
  {
    var path := Retried(stack);
    assert Tried(adjacency, path[|stack| - 1]) == place;
    forall j | 0 <= j < |path| - 1
      ensures 1 <= path[j].1 && IsHeld(owner, visited, Tried(adjacency, path[j]), path[j + 1].0)
    {
      assert IsHeld(owner, visited, Tried(adjacency, stack[j]), stack[j + 1].0);
    }
  }

  lemma VisitOne(visited: seq<bool>, place: nat)
    requires place < |visited| && !visited[place]
    ensures |VisitedPlaces(visited[place := true])| == |VisitedPlaces(visited)| + 1 <= |visited|
  {
    assert VisitedPlaces(visited[place := true]) == VisitedPlaces(visited) + {place};
    BelowSize(|visited|);
    assert VisitedPlaces(visited[place := true]) <= Below(|visited|);
    SubsetSize(VisitedPlaces(visited[place := true]), Below(|visited|));
  }

  lemma TriedOnce(adjacency: seq<seq<nat>>, owner: seq<int>, visited: seq<bool>, stack: seq<Frame>, start: nat)
    requires IsAugmenting(adjacency, owner, visited, stack, start)
    ensures forall j :: 0 <= j < |stack| ==> 1 <= stack[j].1 <= |adjacency[stack[j].0]|
    ensures forall j :: 0 <= j < |stack| ==> Tried(adjacency, stack[j]) < |owner|
    ensures forall i, j :: 0 <= i < j < |stack| ==> Tried(adjacency, stack[i]) != Tried(adjacency, stack[j])
  {
    forall j | 0 <= j < |stack|
      ensures 1 <= stack[j].1 <= |adjacency[stack[j].0]| && Tried(adjacency, stack[j]) < |owner|
    {
      if j < |stack| - 1 {
        assert IsHeld(owner, visited, Tried(adjacency, stack[j]), stack[j + 1].0);
      }
    }
    forall i, j | 0 <= i < j < |stack| ensures Tried(adjacency, stack[i]) != Tried(adjacency, stack[j]) {
      assert IsHeld(owner, visited, Tried(adjacency, stack[i]), stack[i + 1].0);
      if j < |stack| - 1 {
        assert IsHeld(owner, visited, Tried(adjacency, stack[j]), stack[j + 1].0);
      }
    }
  }

  /** Flipping an augmenting path keeps every matched word matched and adds `start`. */
  lemma FlipMatchesStart(adjacency: seq<seq<nat>>, owner: seq<int>, visited: seq<bool>, stack: seq<Frame>, start: nat,
                         flipped: seq<int>)
    requires IsPartialMatching(adjacency, owner) && start !in Matched(owner)
    requires IsAugmenting(adjacency, owner, visited, stack, start)
    requires forall j :: 0 <= j < |stack| ==> 1 <= stack[j].1
    requires IsFlipped(adjacency, owner, stack, flipped)
    ensures IsPartialMatching(adjacency, flipped)
    ensures Matched(flipped) == Matched(owner) + {start}
  {
    FlipKeepsMatching(adjacency, owner, visited, stack, start, flipped);
    forall w | w in Matched(owner) + {start} ensures w in Matched(flipped) {
      StillMatched(adjacency, owner, visited, stack, start, flipped, w);
    }
    forall w | w in Matched(flipped) ensures w in Matched(owner) + {start} {
      var e :| 0 <= e < |flipped| && flipped[e] == w && w != UNMATCHED;
      if j :| 0 <= j < |stack| && Tried(adjacency, stack[j]) == e {
        if j > 0 {
          assert IsHeld(owner, visited, Tried(adjacency, stack[j - 1]), stack[j].0);
        }
      }
    }
  }

  lemma StillMatched(adjacency: seq<seq<nat>>, owner: seq<int>, visited: seq<bool>, stack: seq<Frame>, start: nat,
                     flipped: seq<int>, w: int)
    requires IsAugmenting(adjacency, owner, visited, stack, start)
    requires forall j :: 0 <= j < |stack| ==> 1 <= stack[j].1
    requires IsFlipped(adjacency, owner, stack, flipped)
    requires w in Matched(owner) + {start}
    ensures w in Matched(flipped)
  {
    if OnStack(stack, w) {
      var j :| 0 <= j < |stack| && stack[j].0 == w;
      assert flipped[Tried(adjacency, stack[j])] == w;
    } else {
      assert stack[0].0 == start;
      var e :| 0 <= e < |owner| && owner[e] == w;
      forall j | 0 <= j < |stack| ensures Tried(adjacency, stack[j]) != e {
        if j < |stack| - 1 {
          assert IsHeld(owner, visited, Tried(adjacency, stack[j]), stack[j + 1].0);
        }
      }
      assert flipped[e] == w;
    }
  }

  lemma FlipKeepsMatching(adjacency: seq<seq<nat>>, owner: seq<int>, visited: seq<bool>, stack: seq<Frame>, start: nat,
                          flipped: seq<int>)
    requires IsPartialMatching(adjacency, owner) && start !in Matched(owner)
    requires IsAugmenting(adjacency, owner, visited, stack, start)
    requires forall j :: 0 <= j < |stack| ==> 1 <= stack[j].1
    requires IsFlipped(adjacency, owner, stack, flipped)
    ensures IsPartialMatching(adjacency, flipped)
  {
    forall e | 0 <= e < |flipped| && flipped[e] != UNMATCHED
      ensures 0 <= flipped[e] < |adjacency| && e in adjacency[flipped[e]]
    {
      if j :| 0 <= j < |stack| && Tried(adjacency, stack[j]) == e {
        assert flipped[e] == stack[j].0;
      }
    }
    forall e, f | 0 <= e < |flipped| && 0 <= f < |flipped| && e != f && flipped[e] != UNMATCHED
      ensures flipped[e] != flipped[f]
    {
      if i :| 0 <= i < |stack| && Tried(adjacency, stack[i]) == e {
        if j :| 0 <= j < |stack| && Tried(adjacency, stack[j]) == f {
        } else {
          StayedApart(adjacency, owner, visited, stack, start, f, i);
        }
      } else {
        if j :| 0 <= j < |stack| && Tried(adjacency, stack[j]) == f {
          StayedApart(adjacency, owner, visited, stack, start, e, j);
        }
      }
    }
  }

  /** A place the path does not touch is not held by a word of the path. */
  lemma StayedApart(adjacency: seq<seq<nat>>, owner: seq<int>, visited: seq<bool>, stack: seq<Frame>, start: nat,
                    place: nat, j: nat)
    requires IsPartialMatching(adjacency, owner) && start !in Matched(owner)
    requires IsPath(adjacency, owner, visited, stack, start) && j < |stack|
    requires forall i :: 0 <= i < |stack| ==> 1 <= stack[i].1
    requires place < |owner| && forall i :: 0 <= i < |stack| ==> Tried(adjacency, stack[i]) != place
    ensures owner[place] != stack[j].0
  {
    if j > 0 {
      assert IsHeld(owner, visited, Tried(adjacency, stack[j - 1]), stack[j].0);
    }
    if owner[place] != UNMATCHED {
      assert owner[place] in Matched(owner);
    }
  }
}

/** Assignments of words to entries of their own, within windows of bounded span. */
module WordWindows {
  import opened Prelude
  import opened Matchings

  /** A position and the words that can fill it. */
  datatype Entry = Entry(position: nat, words: seq<nat>)

  /** Distinct entries from `left` to `right`, one that holds word `w` for each `w`. */
  ghost predicate InWindow(entries: seq<Entry>, wordCount: nat, left: nat, right: nat, assignment: seq<nat>) {
    && |assignment| == wordCount
    && (forall w :: 0 <= w < wordCount ==> left <= assignment[w] <= right && assignment[w] < |entries|)
    && (forall w :: 0 <= w < wordCount ==> w in entries[assignment[w]].words)
    && Distinct(assignment)
  }

  /** Every word has its own entry, at or after `from`, all within `maxSpan` positions. */
  ghost predicate Fits(entries: seq<Entry>, wordCount: nat, from: nat, maxSpan: nat, assignment: seq<nat>) {
    && InWindow(entries, wordCount, from, |entries|, assignment)
    && (forall v, w :: 0 <= v < wordCount && 0 <= w < wordCount
          ==> entries[assignment[w]].position - entries[assignment[v]].position <= maxSpan)
  }

  /** No assignment lies wholly before entry `right`. */
  ghost predicate NoneBefore(entries: seq<Entry>, wordCount: nat, from: nat, maxSpan: nat, right: nat) {
    forall assignment :: Fits(entries, wordCount, from, maxSpan, assignment)
      ==> exists w :: 0 <= w < wordCount && assignment[w] >= right
  }

  ghost predicate ValidEntries(entries: seq<Entry>, wordCount: nat) {
    && (forall e, f :: 0 <= e < f < |entries| ==> entries[e].position < entries[f].position)
    && (forall e :: 0 <= e < |entries| ==> ValidEntry(entries[e], wordCount))
  }

  ghost predicate ValidEntry(entry: Entry, wordCount: nat) {
    entry.words != [] && Distinct(entry.words) && forall w :: w in entry.words ==> w < wordCount
  }

  /** The entries after `word` was said to fill `position`. */
  ghost function Recorded(entries: seq<Entry>, position: nat, word: nat): seq<Entry> {
    var last := |entries| - 1;
    if entries == [] || entries[last].position != position then entries + [Entry(position, [word])]
    else if word in entries[last].words then entries
    else entries[last := Entry(position, entries[last].words + [word])]
  }

  /** Entries of `lo..hi` that `word` can fill. */
  ghost function Holding(entries: seq<Entry>, lo: nat, hi: nat, word: nat): nat
    requires hi <= |entries|
  {
    if hi <= lo then 0
    else Holding(entries, lo, hi - 1, word) + if word in entries[hi - 1].words then 1 else 0
  }

  /** Entries of `lo..hi` that several words can fill. */
  ghost function SharedIn(entries: seq<Entry>, lo: nat, hi: nat): nat
    requires hi <= |entries|
  {
    if hi <= lo then 0
    else SharedIn(entries, lo, hi - 1) + if |entries[hi - 1].words| > 1 then 1 else 0
  }

  lemma {:induction false} HoldingFromLeft(entries: seq<Entry>, lo: nat, hi: nat, word: nat)
    requires lo < hi <= |entries|
    ensures Holding(entries, lo, hi, word)
         == Holding(entries, lo + 1, hi, word) + if word in entries[lo].words then 1 else 0
  {
    if lo + 1 < hi {
      HoldingFromLeft(entries, lo, hi - 1, word);
    }
  }

  lemma {:induction false} SharedFromLeft(entries: seq<Entry>, lo: nat, hi: nat)
    requires lo < hi <= |entries|
    ensures SharedIn(entries, lo, hi) == SharedIn(entries, lo + 1, hi) + if |entries[lo].words| > 1 then 1 else 0
  {
    if lo + 1 < hi {
      SharedFromLeft(entries, lo, hi - 1);
    }
  }

  lemma {:induction false} HeldSomewhere(entries: seq<Entry>, lo: nat, hi: nat, word: nat)
    requires hi <= |entries|
    ensures Holding(entries, lo, hi, word) > 0 <==> exists e :: lo <= e < hi && word in entries[e].words
  {
    if lo < hi {
      HeldSomewhere(entries, lo, hi - 1, word);
    }
  }

  lemma {:induction false} NoneShared(entries: seq<Entry>, lo: nat, hi: nat)
    requires hi <= |entries| && SharedIn(entries, lo, hi) == 0
    ensures forall e :: lo <= e < hi ==> |entries[e].words| <= 1
  {
    if lo < hi {
      NoneShared(entries, lo, hi - 1);
    }
  }

  ghost function Covered(coverage: seq<nat>): set<int> {
    set w | 0 <= w < |coverage| && coverage[w] > 0
  }

  /** The running counts describe the window `lo..hi`. */
  ghost predicate Counts(entries: seq<Entry>, wordCount: nat, coverage: seq<nat>, covered: nat, shared: nat, lo: nat,
                         hi: nat)
  {
    && hi <= |entries|
    && |coverage| == wordCount
    && (forall w :: 0 <= w < wordCount ==> coverage[w] == Holding(entries, lo, hi, w))
    && covered == |Covered(coverage)|
    && shared == SharedIn(entries, lo, hi)
  }

  lemma CoveredAll(coverage: seq<nat>)
    ensures |Covered(coverage)| <= |coverage|
    ensures |Covered(coverage)| == |coverage| <==> forall w :: 0 <= w < |coverage| ==> coverage[w] > 0
  {
    BelowSize(|coverage|);
    assert Covered(coverage) <= Below(|coverage|);
    SubsetSize(Covered(coverage), Below(|coverage|));
    if w :| 0 <= w < |coverage| && coverage[w] == 0 {
      assert Covered(coverage) <= Below(|coverage|) - {w};
      SubsetSize(Covered(coverage), Below(|coverage|) - {w});
    } else {
      assert Covered(coverage) == Below(|coverage|);
    }
  }

  /** `starts` cuts `words` into the entries' runs. */
  ghost predicate Represents(positions: seq<nat>, starts: seq<nat>, words: seq<nat>, entries: seq<Entry>) {
    && |starts| == |positions| + 1
    && |entries| == |positions|
    && starts[|positions|] == |words|
    && (forall e :: 0 <= e < |entries| ==> entries[e].position == positions[e])
    && (forall e :: 0 <= e < |entries| ==> IsRun(starts, words, e, entries[e].words))
  }

  /** `run` is entry `e`, as `words` and `starts` store it. */
  ghost predicate IsRun(starts: seq<nat>, words: seq<nat>, e: nat, run: seq<nat>) {
    && e + 1 < |starts|
    && starts[e] <= starts[e + 1] <= |words|
    && words[starts[e]..starts[e + 1]] == run
  }

  lemma PushOpens(positions: seq<nat>, starts: seq<nat>, words: seq<nat>, entries: seq<Entry>, position: nat, word: nat)
    requires Represents(positions, starts, words, entries)
    ensures Represents(positions + [position], starts + [|words| + 1], words + [word],
                       entries + [Entry(position, [word])])
  {
    var starts', words', entries' := starts + [|words| + 1], words + [word], entries + [Entry(position, [word])];
    forall e | 0 <= e < |entries'| ensures IsRun(starts', words', e, entries'[e].words) {
      if e < |entries| {
        assert IsRun(starts, words, e, entries[e].words);
        assert words'[starts[e]..starts[e + 1]] == words[starts[e]..starts[e + 1]];
      } else {
        assert words'[|words|..|words| + 1] == [word];
      }
    }
  }

  lemma PushJoins(positions: seq<nat>, starts: seq<nat>, words: seq<nat>, entries: seq<Entry>, word: nat)
    requires Represents(positions, starts, words, entries) && positions != []
    ensures starts[|positions| - 1] <= |words|
    ensures entries[|positions| - 1] == Entry(positions[|positions| - 1], words[starts[|positions| - 1]..])
    ensures Represents(positions, starts[|positions| := |words| + 1], words + [word],
                       entries[|positions| - 1 := Entry(positions[|positions| - 1],
                                                        entries[|positions| - 1].words + [word])])
  {
    var n := |positions|;
    var starts', words' := starts[n := |words| + 1], words + [word];
    var entries' := entries[n - 1 := Entry(positions[n - 1], entries[n - 1].words + [word])];
    assert IsRun(starts, words, n - 1, entries[n - 1].words);
    assert words[starts[n - 1]..starts[n]] == words[starts[n - 1]..];
    forall e | 0 <= e < n ensures IsRun(starts', words', e, entries'[e].words) {
      if e < n - 1 {
        assert IsRun(starts, words, e, entries[e].words);
        assert words'[starts[e]..starts[e + 1]] == words[starts[e]..starts[e + 1]];
      } else {
        assert words'[starts[e]..|words| + 1] == words[starts[e]..] + [word];
      }
    }
  }

  ghost predicate Repeats(entries: seq<Entry>, position: nat, word: nat) {
    entries != [] && entries[|entries| - 1].position == position && word in entries[|entries| - 1].words
  }

  lemma RecordedIsValid(entries: seq<Entry>, wordCount: nat, position: nat, word: nat)
    requires ValidEntries(entries, wordCount) && word < wordCount
    requires entries != [] ==> entries[|entries| - 1].position <= position
    ensures ValidEntries(Recorded(entries, position, word), wordCount)
  {
  }

  /** The words' places inside a window, counted from its left end. */
  ghost predicate ListsPlaces(entries: seq<Entry>, adjacency: seq<seq<nat>>, left: nat, from: nat, right: nat)
    requires left <= from && right < |entries|
  {
    forall w, x :: 0 <= w < |adjacency| ==>
      (x in adjacency[w] <==> from <= left + x <= right && w in entries[left + x].words)
  }

  lemma WindowIsMatching(entries: seq<Entry>, adjacency: seq<seq<nat>>, left: nat, right: nat, assignment: seq<nat>,
                         shifted: seq<nat>)
    requires left <= right < |entries| && ListsPlaces(entries, adjacency, left, left, right)
    requires |assignment| == |shifted| == |adjacency|
    requires forall w :: 0 <= w < |assignment| ==> assignment[w] == left + shifted[w]
    ensures InWindow(entries, |adjacency|, left, right, assignment) <==> IsMatching(adjacency, shifted)
  {
  }

  /** Gives every word on the path the place it tried last. */
  method Flip(adjacency: seq<seq<nat>>, owner: seq<int>, stack: seq<Frame>) returns (flipped: seq<int>)
    requires forall j :: 0 <= j < |stack| ==> stack[j].0 < |adjacency| && 1 <= stack[j].1 <= |adjacency[stack[j].0]|
    requires forall j :: 0 <= j < |stack| ==> Tried(adjacency, stack[j]) < |owner|
    requires forall i, j :: 0 <= i < j < |stack| ==> Tried(adjacency, stack[i]) != Tried(adjacency, stack[j])
    ensures IsFlipped(adjacency, owner, stack, flipped)
  {
    flipped := owner;
    for m := 0 to |stack|
      invariant |flipped| == |owner|
      invariant forall j :: 0 <= j < m ==> flipped[Tried(adjacency, stack[j])] == stack[j].0
      invariant forall p :: 0 <= p < |owner| && (forall j :: 0 <= j < m ==> Tried(adjacency, stack[j]) != p) ==>
                  flipped[p] == owner[p]
    {
      flipped := flipped[Tried(adjacency, stack[m]) := stack[m].0];
    }
  }

  lemma NoMatchingNoWindow(entries: seq<Entry>, adjacency: seq<seq<nat>>, left: nat, right: nat)
    requires left <= right < |entries| && ListsPlaces(entries, adjacency, left, left, right)
    requires forall shifted :: !IsMatching(adjacency, shifted)
    ensures forall assignment :: !InWindow(entries, |adjacency|, left, right, assignment)
  {
    forall assignment | InWindow(entries, |adjacency|, left, right, assignment) ensures false {
      var shifted := seq(|assignment|,
                         w requires 0 <= w < |assignment| && assignment[w] >= left => assignment[w] - left);
      WindowIsMatching(entries, adjacency, left, right, assignment, shifted);
    }
  }

  /** Listing entry `e`'s words too. */
  lemma ListsOneMore(entries: seq<Entry>, before: seq<seq<nat>>, after: seq<seq<nat>>, left: nat, e: nat, right: nat)
    requires left <= e <= right < |entries| && |before| == |after|
    requires ListsPlaces(entries, before, left, e + 1, right)
    requires forall w ::
               0 <= w < |before| ==> after[w] == if w in entries[e].words then before[w] + [e - left] else before[w]
    ensures ListsPlaces(entries, after, left, e, right)
  {
  }

  /** Owners read back as an assignment fit the window. */
  lemma OwnersFit(entries: seq<Entry>, adjacency: seq<seq<nat>>, owner: seq<int>, left: nat, right: nat,
                  assignment: seq<nat>)
    requires left <= right < |entries| && ListsPlaces(entries, adjacency, left, left, right)
    requires IsPartialMatching(adjacency, owner) && |owner| == right + 1 - left && |assignment| == |adjacency|
    requires forall w ::
               0 <= w < |assignment| ==> left <= assignment[w] < left + |owner| && owner[assignment[w] - left] == w
    ensures InWindow(entries, |adjacency|, left, right, assignment)
  {
    forall w | 0 <= w < |assignment| ensures w in entries[assignment[w]].words {
      var x := assignment[w] - left;
      assert x in adjacency[owner[x]];
    }
  }

  method WithPlace(adjacency: seq<seq<nat>>, words: seq<nat>, place: nat) returns (extended: seq<seq<nat>>)
    requires Distinct(words) && forall w :: w in words ==> w < |adjacency|
    ensures |extended| == |adjacency|
    ensures forall w ::
              0 <= w < |adjacency| ==> extended[w] == if w in words then adjacency[w] + [place] else adjacency[w]
  {
    extended := adjacency;
    for i := 0 to |words|
      invariant |extended| == |adjacency|
      invariant forall w :: 0 <= w < |adjacency| ==>
                  extended[w] == if w in words[..i] then adjacency[w] + [place] else adjacency[w]
    {
      assert words[i] in words;
      extended := extended[words[i] := extended[words[i]] + [place]];
      assert words[..i + 1] == words[..i] + [words[i]];
      assert words[i] !in words[..i];
    }
    assert words[..|words|] == words;
  }

  lemma AllPlaced(wordCount: nat, owner: seq<int>, found: seq<int>)
    requires Matched(owner) == Below(wordCount) && |found| == wordCount
    requires forall e :: 0 <= e < |owner| && owner[e] != UNMATCHED ==> 0 <= owner[e] < wordCount && found[owner[e]] == e
    ensures forall w :: 0 <= w < wordCount ==> 0 <= found[w] < |owner| && owner[found[w]] == w
  {
    forall w: int | 0 <= w < wordCount ensures 0 <= found[w] < |owner| && owner[found[w]] == w {
      assert w in Matched(owner);
      var e :| 0 <= e < |owner| && owner[e] == w;
    }
  }

  /** Reads the assignment off the places' owners, once every word holds one. */
  method Places(wordCount: nat, owner: seq<int>, left: nat) returns (assignment: seq<nat>)
    requires Matched(owner) == Below(wordCount)
    requires forall e :: 0 <= e < |owner| && owner[e] != UNMATCHED ==> 0 <= owner[e] < wordCount
    requires forall e, f :: 0 <= e < f < |owner| && owner[e] != UNMATCHED ==> owner[e] != owner[f]
    ensures |assignment| == wordCount
    ensures forall w ::
              0 <= w < |assignment| ==> left <= assignment[w] < left + |owner| && owner[assignment[w] - left] == w
  {
    var found: seq<int> := seq(wordCount, _ => UNMATCHED);
    for e := 0 to |owner|
      invariant |found| == wordCount
      invariant forall f :: 0 <= f < e && owner[f] != UNMATCHED ==> found[owner[f]] == f
    {
      if owner[e] != UNMATCHED {
        found := found[owner[e] := e];
      }
    }
    AllPlaced(wordCount, owner, found);
    assignment := seq(wordCount, w requires 0 <= w < wordCount && found[w] >= 0 => left + found[w]);
  }

  lemma EmptyCounts(entries: seq<Entry>, wordCount: nat, from: nat, coverage: seq<nat>)
    requires from <= |entries|
    requires |coverage| == wordCount && forall w :: 0 <= w < wordCount ==> coverage[w] == 0
    ensures Counts(entries, wordCount, coverage, 0, 0, from, from)
  {
    assert Covered(coverage) == {};
  }

  lemma NoneBeforeStart(entries: seq<Entry>, wordCount: nat, from: nat, maxSpan: nat)
    requires wordCount > 0
    ensures NoneBefore(entries, wordCount, from, maxSpan, from)
  {
    forall any | Fits(entries, wordCount, from, maxSpan, any) ensures exists w :: 0 <= w < wordCount && any[w] >= from {
      assert any[0] >= from;
    }
  }

  lemma CountsGrow(entries: seq<Entry>, wordCount: nat, coverage: seq<nat>, covered: nat, shared: nat, lo: nat, hi: nat,
                   coverage': seq<nat>, covered': nat, shared': nat)
    requires Counts(entries, wordCount, coverage, covered, shared, lo, hi) && lo <= hi < |entries|
    requires |coverage'| == wordCount && covered' == |Covered(coverage')|
    requires forall w :: 0 <= w < wordCount ==> coverage'[w] == coverage[w] + if w in entries[hi].words then 1 else 0
    requires shared' == shared + if |entries[hi].words| > 1 then 1 else 0
    ensures Counts(entries, wordCount, coverage', covered', shared', lo, hi + 1)
  {
  }

  lemma HeldAtLeft(entries: seq<Entry>, wordCount: nat, coverage: seq<nat>, covered: nat, shared: nat, lo: nat, hi: nat)
    requires Counts(entries, wordCount, coverage, covered, shared, lo, hi) && lo < hi <= |entries|
    ensures forall w :: 0 <= w < wordCount && w in entries[lo].words ==> coverage[w] > 0
    ensures |entries[lo].words| > 1 ==> shared > 0
  {
    forall w | 0 <= w < wordCount && w in entries[lo].words ensures coverage[w] > 0 {
      HoldingFromLeft(entries, lo, hi, w);
    }
    SharedFromLeft(entries, lo, hi);
  }

  lemma CountsShrink(entries: seq<Entry>, wordCount: nat, coverage: seq<nat>, covered: nat, shared: nat, lo: nat,
                     hi: nat,
                     coverage': seq<nat>, covered': nat, shared': nat)
    requires Counts(entries, wordCount, coverage, covered, shared, lo, hi) && lo < hi <= |entries|
    requires |coverage'| == wordCount && covered' == |Covered(coverage')|
    requires forall w :: 0 <= w < wordCount ==> coverage[w] == coverage'[w] + if w in entries[lo].words then 1 else 0
    requires shared == shared' + if |entries[lo].words| > 1 then 1 else 0
    ensures Counts(entries, wordCount, coverage', covered', shared', lo + 1, hi)
  {
    forall w | 0 <= w < wordCount ensures coverage'[w] == Holding(entries, lo + 1, hi, w) {
      HoldingFromLeft(entries, lo, hi, w);
    }
    SharedFromLeft(entries, lo, hi);
  }

  method Cover(coverage: seq<nat>, covered: nat, words: seq<nat>) returns (coverage': seq<nat>, covered': nat)
    requires Distinct(words) && forall w :: w in words ==> w < |coverage|
    requires covered == |Covered(coverage)|
    ensures |coverage'| == |coverage| && covered' == |Covered(coverage')|
    ensures forall w :: 0 <= w < |coverage| ==> coverage'[w] == coverage[w] + if w in words then 1 else 0
  {
    coverage', covered' := coverage, covered;
    for i := 0 to |words|
      invariant |coverage'| == |coverage| && covered' == |Covered(coverage')|
      invariant forall w :: 0 <= w < |coverage| ==> coverage'[w] == coverage[w] + if w in words[..i] then 1 else 0
    {
      var w := words[i];
      assert w in words && w !in words[..i];
      if coverage'[w] == 0 {
        covered' := covered' + 1;
      }
      assert Covered(coverage'[w := coverage'[w] + 1]) == Covered(coverage') + {w as int};
      coverage' := coverage'[w := coverage'[w] + 1];
      assert words[..i + 1] == words[..i] + [w];
    }
    assert words[..|words|] == words;
  }

  method Uncover(coverage: seq<nat>, covered: nat, words: seq<nat>) returns (coverage': seq<nat>, covered': nat)
    requires Distinct(words) && forall w :: w in words ==> w < |coverage| && coverage[w] > 0
    requires covered == |Covered(coverage)|
    ensures |coverage'| == |coverage| && covered' == |Covered(coverage')|
    ensures forall w :: 0 <= w < |coverage| ==> coverage[w] == coverage'[w] + if w in words then 1 else 0
  {
    coverage', covered' := coverage, covered;
    for i := 0 to |words|
      invariant |coverage'| == |coverage| && covered' == |Covered(coverage')|
      invariant forall w :: 0 <= w < |coverage| ==> coverage[w] == coverage'[w] + if w in words[..i] then 1 else 0
    {
      var w := words[i];
      assert w in words && w !in words[..i];
      ghost var before := Covered(coverage');
      assert w in before;
      coverage' := coverage'[w := coverage'[w] - 1];
      assert Covered(coverage') == if coverage'[w] == 0 then before - {w as int} else before;
      if coverage'[w] == 0 {
        covered' := covered' - 1;
      }
      assert words[..i + 1] == words[..i] + [w];
    }
    assert words[..|words|] == words;
  }

  /** Fewer entries than words, or a word with no entry: no assignment inside the window. */
  lemma TooFew(entries: seq<Entry>, wordCount: nat, coverage: seq<nat>, covered: nat, shared: nat, left: nat,
               right: nat)
    requires Counts(entries, wordCount, coverage, covered, shared, left, right + 1) && left <= right < |entries|
    requires covered < wordCount || right + 1 - left < wordCount
    ensures forall any :: !InWindow(entries, wordCount, left, right, any)
  {
    if covered < wordCount {
      CoveredAll(coverage);
      var w :| 0 <= w < wordCount && coverage[w] == 0;
      HeldSomewhere(entries, left, right + 1, w);
      forall any: seq<nat> | |any| == wordCount && left <= any[w] <= right ensures w !in entries[any[w]].words {
      }
    } else {
      forall any ensures !InWindow(entries, wordCount, left, right, any) {
        if InWindow(entries, wordCount, left, right, any) {
          var shifted: seq<nat> := seq(wordCount, w requires 0 <= w < wordCount => any[w] - left);
          Pigeonhole(shifted, right + 1 - left);
        }
      }
    }
  }

  lemma WindowFits(entries: seq<Entry>, wordCount: nat, from: nat, maxSpan: nat, left: nat, right: nat,
                   assignment: seq<nat>)
    requires ValidEntries(entries, wordCount) && from <= left <= right < |entries|
    requires entries[right].position - entries[left].position <= maxSpan
    requires InWindow(entries, wordCount, left, right, assignment)
    ensures Fits(entries, wordCount, from, maxSpan, assignment)
  {
    forall w | 0 <= w < wordCount
      ensures entries[left].position <= entries[assignment[w]].position <= entries[right].position
    {
    }
  }

  /** The entries `from..left` lie more than `maxSpan` before entry `right`. */
  ghost predicate TooFar(entries: seq<Entry>, from: nat, left: nat, right: int, maxSpan: nat) {
    forall e :: from <= e < left ==> e < right < |entries| && entries[right].position - entries[e].position > maxSpan
  }

  lemma OneMoreFar(entries: seq<Entry>, from: nat, left: nat, right: nat, maxSpan: nat)
    requires TooFar(entries, from, left, right, maxSpan) && left <= right < |entries|
    requires entries[right].position - entries[left].position > maxSpan
    ensures left < right && TooFar(entries, from, left + 1, right, maxSpan)
  {
  }

  lemma FarFurther(entries: seq<Entry>, wordCount: nat, from: nat, left: nat, right: nat, maxSpan: nat)
    requires ValidEntries(entries, wordCount) && left <= right < |entries|
    requires TooFar(entries, from, left, right - 1, maxSpan)
    ensures TooFar(entries, from, left, right, maxSpan)
  {
  }

  lemma NoWindowNoneBefore(entries: seq<Entry>, wordCount: nat, from: nat, maxSpan: nat, left: nat, right: nat)
    requires from <= left <= right < |entries|
    requires NoneBefore(entries, wordCount, from, maxSpan, right)
    requires TooFar(entries, from, left, right, maxSpan)
    requires forall any :: !InWindow(entries, wordCount, left, right, any)
    ensures NoneBefore(entries, wordCount, from, maxSpan, right + 1)
  {
    forall any | Fits(entries, wordCount, from, maxSpan, any)
      ensures exists w :: 0 <= w < wordCount && any[w] >= right + 1
    {
      var w :| 0 <= w < wordCount && any[w] >= right;
      if forall v :: 0 <= v < wordCount ==> any[v] <= right {
        assert InWindow(entries, wordCount, left, right, any);
      }
    }
  }

  lemma NoneAtAll(entries: seq<Entry>, wordCount: nat, from: nat, maxSpan: nat, right: nat)
    requires NoneBefore(entries, wordCount, from, maxSpan, right) && right >= |entries|
    ensures forall any :: !Fits(entries, wordCount, from, maxSpan, any)
  {
  }

  lemma OneWordEach(entries: seq<Entry>, wordCount: nat, coverage: seq<nat>, covered: nat, left: nat, right: nat)
    requires ValidEntries(entries, wordCount) && left <= right < |entries|
    requires Counts(entries, wordCount, coverage, covered, 0, left, right + 1) && covered >= wordCount
    ensures forall e :: left <= e <= right ==> |entries[e].words| == 1
    ensures forall w :: 0 <= w < wordCount ==> exists e :: left <= e <= right && entries[e].words == [w]
  {
    NoneShared(entries, left, right + 1);
    forall e | left <= e <= right ensures |entries[e].words| == 1 {
      assert ValidEntry(entries[e], wordCount);
    }
    CoveredAll(coverage);
    forall w | 0 <= w < wordCount ensures exists e :: left <= e <= right && entries[e].words == [w] {
      HeldSomewhere(entries, left, right + 1, w);
      var e :| left <= e < right + 1 && w in entries[e].words;
      assert entries[e].words == [w];
    }
  }

  lemma Opens(positions: seq<nat>, starts: seq<nat>, words: seq<nat>, entries: seq<Entry>, position: nat, word: nat)
    requires Represents(positions, starts, words, entries)
    requires positions == [] || positions[|positions| - 1] != position
    ensures !Repeats(entries, position, word)
    ensures Represents(positions + [position], starts + [|words| + 1], words + [word],
                       Recorded(entries, position, word))
  {
    PushOpens(positions, starts, words, entries, position, word);
  }

  lemma Joins(positions: seq<nat>, starts: seq<nat>, words: seq<nat>, entries: seq<Entry>, word: nat)
    requires Represents(positions, starts, words, entries) && positions != []
    ensures starts[|positions| - 1] <= |words|
    ensures var position := positions[|positions| - 1];
            if word in words[starts[|positions| - 1]..] then
              Repeats(entries, position, word) && Recorded(entries, position, word) == entries
            else
              !Repeats(entries, position, word)
              && Represents(positions, starts[|positions| := |words| + 1], words + [word],
                            Recorded(entries, position, word))
  {
    PushJoins(positions, starts, words, entries, word);
  }

  /** Entries of one word, read through `starts`. */
  lemma FirstWords(positions: seq<nat>, starts: seq<nat>, words: seq<nat>, entries: seq<Entry>, wordCount: nat, e: nat)
    requires Represents(positions, starts, words, entries) && e < |entries|
    requires ValidEntries(entries, wordCount) && |entries[e].words| == 1
    ensures starts[e] < |words| && words[starts[e]] < wordCount
    ensures entries[e].words == [words[starts[e]]]
  {
    assert IsRun(starts, words, e, entries[e].words);
    assert words[starts[e]] in entries[e].words;
  }

  /** Entry `lo` leaves the window `lo..hi`. */
  method DropEntry(starts: seq<nat>, words: seq<nat>, ghost entries: seq<Entry>, ghost wordCount: nat,
                   lo: nat, ghost hi: nat, coverage: seq<nat>, covered: nat, shared: nat)
    returns (coverage': seq<nat>, covered': nat, shared': nat)
    requires ValidEntries(entries, wordCount) && lo < hi <= |entries|
    requires IsRun(starts, words, lo, entries[lo].words)
    requires Counts(entries, wordCount, coverage, covered, shared, lo, hi)
    ensures Counts(entries, wordCount, coverage', covered', shared', lo + 1, hi)
  {
    var entry := words[starts[lo]..starts[lo + 1]];
    HeldAtLeft(entries, wordCount, coverage, covered, shared, lo, hi);
    shared' := shared - if |entry| > 1 then 1 else 0;
    coverage', covered' := Uncover(coverage, covered, entry);
    CountsShrink(entries, wordCount, coverage, covered, shared, lo, hi, coverage', covered', shared');
  }

  method DropFar(positions: seq<nat>, starts: seq<nat>, words: seq<nat>, ghost entries: seq<Entry>,
                 ghost wordCount: nat,
                 ghost from: nat, left: nat, right: nat, maxSpan: nat, coverage: seq<nat>, covered: nat, shared: nat)
    returns (coverage': seq<nat>, left': nat, covered': nat, shared': nat)
    requires ValidEntries(entries, wordCount) && Represents(positions, starts, words, entries)
    requires from <= left <= right < |positions|
    requires Counts(entries, wordCount, coverage, covered, shared, left, right + 1)
    requires TooFar(entries, from, left, right, maxSpan)
    ensures left <= left' <= right && Counts(entries, wordCount, coverage', covered', shared', left', right + 1)
    ensures TooFar(entries, from, left', right, maxSpan)
    ensures entries[right].position - entries[left'].position <= maxSpan
  {
    coverage', left', covered', shared' := coverage, left, covered, shared;
    while positions[right] - positions[left'] > maxSpan
      invariant left <= left' <= right
      invariant Counts(entries, wordCount, coverage', covered', shared', left', right + 1)
      invariant TooFar(entries, from, left', right, maxSpan)
    {
      OneMoreFar(entries, from, left', right, maxSpan);
      coverage', covered', shared' :=
        DropEntry(starts, words, entries, wordCount, left', right + 1, coverage', covered', shared');
      left' := left' + 1;
    }
  }

  method LatestEntries(words: seq<nat>, starts: seq<nat>, wordCount: nat, left: nat, right: nat,
                       ghost entries: seq<Entry>)
    returns (assignment: seq<nat>)
    requires left <= right < |entries| && right < |starts|
    requires forall e :: left <= e <= right ==> starts[e] < |words| && words[starts[e]] < wordCount
    requires forall e :: left <= e <= right ==> entries[e].words == [words[starts[e]]]
    requires forall w :: 0 <= w < wordCount ==> exists e :: left <= e <= right && entries[e].words == [w]
    ensures InWindow(entries, wordCount, left, right, assignment)
    ensures forall w, e :: 0 <= w < wordCount && left <= e <= right && entries[e].words == [w] ==> e <= assignment[w]
  {
    var found: seq<int> := seq(wordCount, _ => UNMATCHED);
    var e := right + 1;
    while e > left
      invariant left <= e <= right + 1
      invariant |found| == wordCount
      invariant forall w ::
                  0 <= w < wordCount && found[w] != UNMATCHED ==> e <= found[w] <= right && words[starts[found[w]]] == w
      invariant forall f :: e <= f <= right ==> f <= found[words[starts[f]]]
    {
      e := e - 1;
      var w := words[starts[e]];
      if found[w] == UNMATCHED {
        found := found[w := e];
      }
    }
    forall w | 0 <= w < wordCount ensures found[w] != UNMATCHED {
      var f :| left <= f <= right && entries[f].words == [w];
      assert words[starts[f]] == w;
    }
    assignment := found;
  }

  class WordWindows {
    var wordCount: nat
    var positions: seq<nat>
    /** Where each entry's stretch of `words` begins, and past the last one ends. */
    var starts: seq<nat>
    var words: seq<nat>
    var coverage: seq<nat>
    var adjacency: seq<seq<nat>>
    var owner: seq<int>
    var visited: seq<bool>
    var stack: seq<Frame>
    /** What the lists above record. */
    ghost var entries: seq<Entry>

    ghost predicate Valid()
      reads `wordCount, `positions, `starts, `words, `entries
    {
      Represents(positions, starts, words, entries) && ValidEntries(entries, wordCount)
    }

    constructor ()
      ensures Valid() && entries == [] && wordCount == 0
    {
      wordCount, positions, starts, words, entries := 0, [], [0], [], [];
      coverage, adjacency, owner, visited, stack := [], [], [], [], [];
    }

    method Reset(wordCount: nat)
      modifies this
      ensures Valid() && entries == [] && this.wordCount == wordCount
    {
      this.wordCount := wordCount;
      positions := [];
      starts := [0];
      words := [];
      entries := [];
    }

    /** `entries` becomes `Recorded`; the slot is that of a new pair, and there is none for a repeat. */
    method Push(position: nat, word: nat) returns (slot: Option<nat>)
      requires Valid() && word < wordCount
      requires positions != [] ==> positions[|positions| - 1] <= position
      modifies this`positions, this`starts, this`words, this`entries
      ensures Valid()
      ensures entries == Recorded(old(entries), position, word)
      ensures slot == if Repeats(old(entries), position, word) then None else Some(|words| - 1)
    {
      if positions == [] || positions[|positions| - 1] != position {
        slot := Open(position, word);
      } else {
        slot := Join(word);
      }
    }

    method Open(position: nat, word: nat) returns (slot: Option<nat>)
      requires Valid() && word < wordCount
      requires positions != [] ==> positions[|positions| - 1] < position
      modifies this`positions, this`starts, this`words, this`entries
      ensures Valid()
      ensures !Repeats(old(entries), position, word) && entries == Recorded(old(entries), position, word)
      ensures slot == Some(|words| - 1)
    {
      RecordedIsValid(entries, wordCount, position, word);
      Opens(positions, starts, words, entries, position, word);
      entries := Recorded(entries, position, word);
      positions, starts, words := positions + [position], starts + [|words| + 1], words + [word];
      slot := Some(|words| - 1);
    }

    method Join(word: nat) returns (slot: Option<nat>)
      requires Valid() && word < wordCount && positions != []
      modifies this`positions, this`starts, this`words, this`entries
      ensures Valid()
      ensures entries == Recorded(old(entries), old(positions[|positions| - 1]), word)
      ensures slot == if Repeats(old(entries), old(positions[|positions| - 1]), word) then None else Some(|words| - 1)
    {
      var last := |positions| - 1;
      RecordedIsValid(entries, wordCount, positions[last], word);
      Joins(positions, starts, words, entries, word);
      if word in words[starts[last]..] {
        return None;
      }
      entries := Recorded(entries, positions[last], word);
      starts, words := starts[|positions| := |words| + 1], words + [word];
      slot := Some(|words| - 1);
    }

    /** Matches `start` too, keeping every word matched; failing that, there is no matching. */
    method Augment(start: nat) returns (found: bool)
      requires start < |adjacency| && start !in Matched(owner)
      requires IsPartialMatching(adjacency, owner) && PlacesBelow(adjacency, |owner|)
      requires |visited| == |owner| && forall e :: 0 <= e < |visited| ==> !visited[e]
      modifies this`visited, this`stack, this`owner
      ensures |owner| == old(|owner|) && IsPartialMatching(adjacency, owner)
      ensures found ==> Matched(owner) == old(Matched(owner)) + {start}
      ensures !found ==> owner == old(owner) && forall assignment :: !IsMatching(adjacency, assignment)
    {
      stack := [(start, 0)];
      while stack != []
        invariant owner == old(owner)
        invariant IsPath(adjacency, owner, visited, stack, start)
        invariant Explored(adjacency, owner, visited, stack, start)
        decreases |owner| - |VisitedPlaces(visited)|, |stack|,
                  if stack == [] then 0 else |adjacency[stack[|stack| - 1].0]| - stack[|stack| - 1].1
      {
        found := TryPlace(start);
        if found {
          return true;
        }
      }
      NoMatching(adjacency, owner, visited, start);
      found := false;
    }

    /** One step of the search: the word on top is given up, or its next place is passed over, searched
        through, or taken. */
    method TryPlace(start: nat) returns (found: bool)
      requires start < |adjacency| && start !in Matched(owner) && stack != []
      requires IsPartialMatching(adjacency, owner) && PlacesBelow(adjacency, |owner|)
      requires IsPath(adjacency, owner, visited, stack, start) && Explored(adjacency, owner, visited, stack, start)
      modifies this`visited, this`stack, this`owner
      ensures |owner| == old(|owner|) && IsPartialMatching(adjacency, owner)
      ensures found ==> Matched(owner) == old(Matched(owner)) + {start}
      ensures !found ==>
                && owner == old(owner)
                && IsPath(adjacency, owner, visited, stack, start) && Explored(adjacency, owner, visited, stack, start)
      ensures !found ==>
                || |VisitedPlaces(old(visited))| < |VisitedPlaces(visited)| <= |owner|
                || (visited == old(visited) && |stack| < old(|stack|))
                || (visited == old(visited) && stack == Retried(old(stack)))
    {
      var (w, i) := stack[|stack| - 1];
      if i == |adjacency[w]| {
        PopKeepsSearch(adjacency, owner, visited, stack, start);
        stack := stack[..|stack| - 1];
        return false;
      }
      var e := adjacency[w][i];
      if visited[e] {
        SkipKeepsSearch(adjacency, owner, visited, stack, start);
        stack := Retried(stack);
        return false;
      }
      if owner[e] == UNMATCHED {
        FlipPath(start, w, i, e);
        return true;
      }
      VisitOne(visited, e);
      PushKeepsSearch(adjacency, owner, visited, stack, start, e);
      stack := Pushed(owner, stack, e);
      visited := visited[e := true];
      found := false;
    }

    /** Hands the free place `e` down the path. */
    method FlipPath(start: nat, w: nat, i: nat, e: nat)
      requires start < |adjacency| && start !in Matched(owner)
      requires IsPartialMatching(adjacency, owner)
      requires IsPath(adjacency, owner, visited, stack, start) && stack != []
      requires stack[|stack| - 1] == (w, i) && i < |adjacency[w]| && adjacency[w][i] == e
      requires e < |owner| && owner[e] == UNMATCHED
      modifies this`owner, this`stack, this`visited
      ensures |owner| == old(|owner|) && IsPartialMatching(adjacency, owner)
      ensures Matched(owner) == old(Matched(owner)) + {start}
    {
      ghost var before, seen := owner, visited;
      RetriedAugments(adjacency, owner, visited, stack, start, e);
      visited := visited[e := true];
      stack := Retried(stack);
      TriedOnce(adjacency, before, seen, stack, start);
      owner := Flip(adjacency, owner, stack);
      FlipMatchesStart(adjacency, before, seen, stack, start, owner);
    }

    /** The words' places in the window, latest entries first. */
    method ListPlaces(left: nat, right: nat)
      requires Valid() && left <= right < |positions|
      modifies this`adjacency
      ensures |adjacency| == wordCount
      ensures ListsPlaces(entries, adjacency, left, left, right)
      ensures PlacesBelow(adjacency, right + 1 - left)
    {
      adjacency := seq(wordCount, _ => []);
      var e := right + 1;
      while e > left
        invariant left <= e <= right + 1
        invariant |adjacency| == wordCount
        invariant ListsPlaces(entries, adjacency, left, e, right)
      {
        e := e - 1;
        assert IsRun(starts, words, e, entries[e].words);
        var entry := words[starts[e]..starts[e + 1]];
        var more := WithPlace(adjacency, entry, e - left);
        ListsOneMore(entries, adjacency, more, left, e, right);
        adjacency := more;
      }
      forall w, i | 0 <= w < |adjacency| && 0 <= i < |adjacency[w]| ensures adjacency[w][i] < right + 1 - left {
        assert adjacency[w][i] in adjacency[w];
      }
    }

    /** Matches the words one augmenting path at a time. */
    method MatchWords(n: nat) returns (matched: bool)
      requires PlacesBelow(adjacency, n)
      modifies this`owner, this`visited, this`stack
      ensures |owner| == n && IsPartialMatching(adjacency, owner)
      ensures matched ==> Matched(owner) == Below(|adjacency|)
      ensures !matched ==> forall assignment :: !IsMatching(adjacency, assignment)
    {
      owner := seq(n, _ => UNMATCHED);
      assert Matched(owner) == {};
      for w := 0 to |adjacency|
        invariant |owner| == n && IsPartialMatching(adjacency, owner)
        invariant Matched(owner) == Below(w)
      {
        visited := seq(n, _ => false);
        var found := Augment(w);
        if !found {
          return false;
        }
      }
      matched := true;
    }

    /** Decides whether the window has an assignment, and gives one. */
    method MatchWindow(left: nat, right: nat) returns (matched: bool, assignment: seq<nat>)
      requires Valid() && left <= right < |positions|
      modifies this`adjacency, this`owner, this`visited, this`stack
      ensures matched ==> InWindow(entries, wordCount, left, right, assignment)
      ensures !matched ==> forall any :: !InWindow(entries, wordCount, left, right, any)
    {
      ListPlaces(left, right);
      matched := MatchWords(right + 1 - left);
      if !matched {
        NoMatchingNoWindow(entries, adjacency, left, right);
        return false, [];
      }
      assignment := Places(wordCount, owner, left);
      OwnersFit(entries, adjacency, owner, left, right, assignment);
    }

    /** Decides whether any assignment fits from `from` on; if so, gives one that none ends before. */
    method NextWindow(from: nat, maxSpan: nat) returns (window: Option<nat>, assignment: seq<nat>)
      requires Valid()
      modifies this`coverage, this`adjacency, this`owner, this`visited, this`stack
      ensures wordCount == 0 ==> window.None?
      ensures window.Some? ==>
                && Fits(entries, wordCount, from, maxSpan, assignment)
                && (forall w :: 0 <= w < wordCount ==> assignment[w] <= window.value)
                && NoneBefore(entries, wordCount, from, maxSpan, window.value)
      ensures window.None? && wordCount > 0 ==> forall any :: !Fits(entries, wordCount, from, maxSpan, any)
    {
      var k := wordCount;
      assignment := [];
      if k == 0 {
        return None, [];
      }
      coverage := seq(k, _ => 0);
      var covered, shared := 0, 0;
      var left, right := from, from;
      if from >= |positions| {
        NoneBeforeStart(entries, k, from, maxSpan);
        NoneAtAll(entries, k, from, maxSpan, from);
        return None, [];
      }
      EmptyCounts(entries, k, from, coverage);
      NoneBeforeStart(entries, k, from, maxSpan);
      while right < |positions|
        invariant Valid()
        invariant from <= left <= right
        invariant Counts(entries, k, coverage, covered, shared, left, right)
        invariant TooFar(entries, from, left, right - 1, maxSpan)
        invariant NoneBefore(entries, k, from, maxSpan, right)
      {
        var matched;
        matched, left, covered, shared, assignment := Slide(from, left, right, maxSpan, covered, shared);
        if matched {
          return Some(right), assignment;
        }
        right := right + 1;
      }
      NoneAtAll(entries, k, from, maxSpan, right);
      return None, [];
    }

    /** Moves the window's end to `right` and tries it. */
    method Slide(ghost from: nat, left: nat, right: nat, maxSpan: nat, covered: nat, shared: nat)
      returns (matched: bool, left': nat, covered': nat, shared': nat, assignment: seq<nat>)
      requires Valid() && from <= left <= right < |positions|
      requires Counts(entries, wordCount, coverage, covered, shared, left, right)
      requires TooFar(entries, from, left, right - 1, maxSpan)
      requires NoneBefore(entries, wordCount, from, maxSpan, right)
      modifies this`coverage, this`adjacency, this`owner, this`visited, this`stack
      ensures left <= left' <= right && Counts(entries, wordCount, coverage, covered', shared', left', right + 1)
      ensures TooFar(entries, from, left', right, maxSpan)
      ensures matched ==> Fits(entries, wordCount, from, maxSpan, assignment)
      ensures matched ==> forall w :: 0 <= w < wordCount ==> assignment[w] <= right
      ensures !matched ==> NoneBefore(entries, wordCount, from, maxSpan, right + 1)
    {
      covered', shared' := AddEntry(left, right, covered, shared);
      left', covered', shared' := Shrink(from, left, right, maxSpan, covered', shared');
      matched, assignment := TryWindow(left', right, covered', shared');
      if matched {
        WindowFits(entries, wordCount, from, maxSpan, left', right, assignment);
      } else {
        NoWindowNoneBefore(entries, wordCount, from, maxSpan, left', right);
      }
    }

    /** Drops the entries of `left..=right` more than `maxSpan` before the last. */
    method Shrink(ghost from: nat, left: nat, right: nat, maxSpan: nat, covered: nat, shared: nat)
      returns (left': nat, covered': nat, shared': nat)
      requires Valid() && from <= left <= right < |positions|
      requires Counts(entries, wordCount, coverage, covered, shared, left, right + 1)
      requires TooFar(entries, from, left, right - 1, maxSpan)
      modifies this`coverage
      ensures left <= left' <= right && Counts(entries, wordCount, coverage, covered', shared', left', right + 1)
      ensures TooFar(entries, from, left', right, maxSpan)
      ensures entries[right].position - entries[left'].position <= maxSpan
    {
      FarFurther(entries, wordCount, from, left, right, maxSpan);
      coverage, left', covered', shared' :=
        DropFar(positions, starts, words, entries, wordCount, from, left, right, maxSpan, coverage, covered, shared);
    }

    /** Whether the window `left..=right` gives every word an entry of its own. */
    method TryWindow(left: nat, right: nat, covered: nat, shared: nat) returns (matched: bool, assignment: seq<nat>)
      requires Valid() && left <= right < |positions|
      requires Counts(entries, wordCount, coverage, covered, shared, left, right + 1)
      modifies this`adjacency, this`owner, this`visited, this`stack
      ensures matched ==> InWindow(entries, wordCount, left, right, assignment)
      ensures !matched ==> forall any :: !InWindow(entries, wordCount, left, right, any)
    {
      if covered < wordCount || right + 1 - left < wordCount {
        TooFew(entries, wordCount, coverage, covered, shared, left, right);
        return false, [];
      }
      if shared == 0 {
        assignment := TakeLatest(left, right, covered);
        return true, assignment;
      }
      matched, assignment := MatchWindow(left, right);
    }

    /** Entry `hi` joins the window `lo..hi`. */
    method AddEntry(ghost lo: nat, hi: nat, covered: nat, shared: nat) returns (covered': nat, shared': nat)
      requires Valid() && lo <= hi < |positions|
      requires Counts(entries, wordCount, coverage, covered, shared, lo, hi)
      modifies this`coverage
      ensures Counts(entries, wordCount, coverage, covered', shared', lo, hi + 1)
    {
      assert IsRun(starts, words, hi, entries[hi].words);
      var entry := words[starts[hi]..starts[hi + 1]];
      shared' := shared + if |entry| > 1 then 1 else 0;
      ghost var before := coverage;
      coverage, covered' := Cover(coverage, covered, entry);
      CountsGrow(entries, wordCount, before, covered, shared, lo, hi, coverage, covered', shared');
    }

    /** With one word per entry, each word takes its latest entry. */
    method TakeLatest(left: nat, right: nat, ghost covered: nat) returns (assignment: seq<nat>)
      requires Valid() && left <= right < |positions|
      requires Counts(entries, wordCount, coverage, covered, 0, left, right + 1) && covered >= wordCount
      ensures InWindow(entries, wordCount, left, right, assignment)
      ensures forall w, e :: 0 <= w < wordCount && left <= e <= right && entries[e].words == [w] ==> e <= assignment[w]
    {
      OneWordEach(entries, wordCount, coverage, covered, left, right);
      forall e | left <= e <= right
        ensures starts[e] < |words| && words[starts[e]] < wordCount && entries[e].words == [words[starts[e]]]
      {
        FirstWords(positions, starts, words, entries, wordCount, e);
      }
      assignment := LatestEntries(words, starts, wordCount, left, right, entries);
    }
  }
}
