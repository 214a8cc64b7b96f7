/** The search for phrases that run over a line break finds exactly the lines they run from, by
    whichever of its strategies each half of a split is matched. */
module CrossLineQuery {
  import opened Prelude
  import opened Postings
  import opened ChainSweeps
  import opened WordPositions
  import opened WordReaders
  import opened IdLookup
  import opened LineBreaks
  import opened LineParts
  import opened PartScans

  /** Up to how many matches are worth one id lookup each. */
  const LOOKUP_LIMIT: nat := 4_096
  /** The least number of documents in a range, when a segment is divided. */
  const SCAN_CHUNK_MIN_DOCS: nat := 32_768

  // ── Scanning the index ───────────────────────────────────────────────────────

  /** The matches of one segment, range after range. */
  method ScanSegment(index: seq<Segment>, s: nat, phrase: Phrase, part: Part, allowance: nat, candidates: Candidates,
                     chunks: nat, filter: Filter, ids: Option<set<nat>>)
    returns (out: seq<PartMatch>)
    requires ValidIndex(index, phrase) && part.Of(phrase) && s < |index| && ValidFilter(filter, index)
    requires !candidates.Listed? && chunks > 0
    requires candidates.OnEdge? ==> allowance == 0 && chunks == 1
    ensures forall m :: m in out <==> Wanted(index, phrase, part, allowance, filter, ids, m) && m.segment == s
  {
    var maxDoc := |index[s].lines|;
    var step := Max((maxDoc + chunks - 1) / chunks, SCAN_CHUNK_MIN_DOCS);
    out := [];
    var start := 0;
    while start < maxDoc
      invariant candidates.OnEdge? ==> start == 0 || start >= maxDoc
      invariant forall m :: m in out
                  <==> Wanted(index, phrase, part, allowance, filter, ids, m) && m.segment == s && m.doc < start
    {
      var hi := Min(start + step, maxDoc);
      var found := MatchPart(index, s, phrase, part, allowance, candidates, start, hi, filter, ids);
      out := out + found;
      start := start + step;
    }
  }

  /** Every match of the part, segment after segment. */
  method Scan(index: seq<Segment>, phrase: Phrase, part: Part, allowance: nat, candidates: Candidates, threads: nat,
              filter: Filter, ids: Option<set<nat>>)
    returns (out: seq<PartMatch>)
    requires ValidIndex(index, phrase) && part.Of(phrase) && ValidFilter(filter, index)
    requires !candidates.Listed? && (candidates.OnEdge? ==> allowance == 0)
    ensures forall m :: m in out <==> Wanted(index, phrase, part, allowance, filter, ids, m)
  {
    var chunks: nat := if candidates.ByDriver? then Max(threads, 1) * 2 else 1;
    out := [];
    for s := 0 to |index|
      invariant forall m :: m in out <==> Wanted(index, phrase, part, allowance, filter, ids, m) && m.segment < s
    {
      var found := ScanSegment(index, s, phrase, part, allowance, candidates, chunks, filter, ids);
      out := out + found;
    }
  }

  // ── Which half goes first ────────────────────────────────────────────────────

  function TotalFreq(index: seq<Segment>, phrase: Phrase, w: nat, n: nat): nat
    requires n <= |index| && ValidIndexShape(index, phrase) && w < phrase.Size()
  {
    if n == 0 then 0 else TotalFreq(index, phrase, w, n - 1) + DocFreq(index[n - 1].text[w], phrase.patterns[w])
  }

  /** As `TotalFreq`, with every term of a pattern counted. */
  function WholeFreq(index: seq<Segment>, phrase: Phrase, w: nat, n: nat): nat
    requires n <= |index| && ValidIndexShape(index, phrase) && w < phrase.Size()
  {
    if n == 0 then 0 else WholeFreq(index, phrase, w, n - 1) + FreqTo(index[n - 1].text[w], |index[n - 1].text[w]|)
  }

  predicate ValidIndexShape(index: seq<Segment>, phrase: Phrase) {
    |phrase.patterns| == phrase.Size() && forall s :: 0 <= s < |index| ==> |index[s].text| == phrase.Size()
  }

  /** The least frequency among the part's words, each summed over the segments. */
  method DriverFreq(index: seq<Segment>, phrase: Phrase, part: Part) returns (rarest: nat)
    requires ValidIndexShape(index, phrase) && part.Of(phrase)
    ensures forall w :: part.lo <= w < part.hi ==> rarest <= TotalFreq(index, phrase, w, |index|)
    ensures rarest == U64_MAX || exists w :: part.lo <= w < part.hi && rarest == TotalFreq(index, phrase, w, |index|)
  {
    rarest := U64_MAX;
    for w := part.lo to part.hi
      invariant forall v :: part.lo <= v < w ==> rarest <= TotalFreq(index, phrase, v, |index|)
      invariant rarest == U64_MAX || exists v :: part.lo <= v < w && rarest == TotalFreq(index, phrase, v, |index|)
    {
      var freq := 0;
      for s := 0 to |index|
        invariant freq == TotalFreq(index, phrase, w, s)
      {
        freq := freq + DocFreq(index[s].text[w], phrase.patterns[w]);
      }
      rarest := Min(rarest, freq);
    }
  }

  lemma {:induction false} FreqGrows(postings: seq<Cursor>, i: nat, j: nat)
    requires i <= j <= |postings|
    ensures FreqTo(postings, i) <= FreqTo(postings, j)
  {
    if i < j {
      FreqGrows(postings, i, j - 1);
    }
  }

  /** A word's frequency in a segment, counted no further than past `limit`. */
  method BoundedDocFreq(postings: seq<Cursor>, limit: nat) returns (freq: nat)
    ensures freq == Min(FreqTo(postings, |postings|), limit + 1)
  {
    var total := 0;
    var i := 0;
    while i < |postings| && total <= limit
      invariant i <= |postings| && total == FreqTo(postings, i)
    {
      total := total + |postings[i].docs|;
      i := i + 1;
    }
    FreqGrows(postings, i, |postings|);
    freq := Min(total, limit + 1);
  }

  lemma {:induction false} WholeGrows(index: seq<Segment>, phrase: Phrase, w: nat, i: nat, j: nat)
    requires i <= j <= |index| && ValidIndexShape(index, phrase) && w < phrase.Size()
    ensures WholeFreq(index, phrase, w, i) <= WholeFreq(index, phrase, w, j)
  {
    if i < j {
      WholeGrows(index, phrase, w, i, j - 1);
    }
  }

  method BoundedWordFreq(index: seq<Segment>, phrase: Phrase, w: nat, limit: nat) returns (freq: nat)
    requires ValidIndexShape(index, phrase) && w < phrase.Size()
    ensures Min(freq, limit + 1) == Min(WholeFreq(index, phrase, w, |index|), limit + 1)
  {
    freq := 0;
    var s := 0;
    while s < |index| && freq <= limit
      invariant s <= |index| && Min(freq, limit + 1) == Min(WholeFreq(index, phrase, w, s), limit + 1)
    {
      var here := BoundedDocFreq(index[s].text[w], limit - freq);
      freq := freq + here;
      s := s + 1;
    }
    WholeGrows(index, phrase, w, s, |index|);
  }

  /** The rarest word's frequency, exact up to `limit`: a broad pattern cannot look rare. */
  method BoundedDriverFreq(index: seq<Segment>, phrase: Phrase, part: Part, limit: nat) returns (rarest: nat)
    requires ValidIndexShape(index, phrase) && part.Of(phrase)
    ensures forall w :: part.lo <= w < part.hi ==> rarest <= WholeFreq(index, phrase, w, |index|)
    ensures rarest == limit + 1 || exists w :: part.lo <= w < part.hi && rarest == WholeFreq(index, phrase, w, |index|)
  {
    rarest := limit + 1;
    for w := part.lo to part.hi
      invariant rarest <= limit + 1
      invariant forall v :: part.lo <= v < w ==> rarest <= WholeFreq(index, phrase, v, |index|)
      invariant rarest == limit + 1 || exists v :: part.lo <= v < w && rarest == WholeFreq(index, phrase, v, |index|)
    {
      var freq := BoundedWordFreq(index, phrase, w, limit);
      rarest := Min(rarest, freq);
    }
  }

  /** Which half is matched in full: any choice is correct, and this one saves work when the
      frequencies or a filter tell the halves apart. */
  method LeftGoesFirst(index: seq<Segment>, phrase: Phrase, left: Part, right: Part, allowance: nat, filtered: bool)
    returns (leftFirst: bool)
    requires ValidIndexShape(index, phrase) && left.Of(phrase) && right.Of(phrase)
  {
    if filtered {
      var rightFreq := BoundedDriverFreq(index, phrase, right, LOOKUP_LIMIT);
      if allowance > 0 && rightFreq <= LOOKUP_LIMIT {
        var leftFreq := DriverFreq(index, phrase, left);
        return rightFreq >= leftFreq;
      }
      return true;
    }
    var leftFreq := DriverFreq(index, phrase, left);
    var rightFreq := DriverFreq(index, phrase, right);
    leftFirst := leftFreq < rightFreq;
  }

  // ── Joining the halves of one split ──────────────────────────────────────────

  function Columns(index: seq<Segment>): (columns: seq<seq<Line>>)
    ensures |columns| == |index| && forall s :: 0 <= s < |index| ==> columns[s] == index[s].lines
  {
    seq(|index|, s requires 0 <= s < |index| => index[s].lines)
  }

  /** A live line is known by its id, and has a next one. */
  ghost predicate UniqueIds(columns: seq<seq<Line>>) {
    && (forall id: nat, p: Place, q: Place :: LivesAt(columns, p, id) && LivesAt(columns, q, id) ==> p == q)
    && (forall id: nat, p: Place :: LivesAt(columns, p, id) ==> id < U64_MAX)
  }

  /** The id after `id`, or the one before, in 64 bits. */
  function Beside(id: nat, forward: bool): nat {
    if forward then (if id == U64_MAX then 0 else id + 1) else if id == 0 then U64_MAX else id - 1
  }

  /** The documents to look at hold the neighbour of every match. */
  ghost predicate HoldsNeighbours(index: seq<Segment>, matches: seq<PartMatch>, forward: bool, docs: seq<seq<nat>>) {
    && |docs| == |index|
    && (forall s, d :: 0 <= s < |index| && d in docs[s] ==> d < |index[s].lines|)
    && forall m, place: Place ::
         m in matches && LivesAt(Columns(index), place, Beside(m.id, forward)) ==> place.1 in docs[place.0]
  }

  /** A document added to one segment's list. */
  function WithDoc(docs: seq<seq<nat>>, place: Place): (r: seq<seq<nat>>)
    requires place.0 < |docs|
    ensures |r| == |docs|
    ensures forall s, d :: 0 <= s < |docs| ==> (d in r[s] <==> d in docs[s] || (s, d) == place)
  {
    docs[place.0 := docs[place.0] + [place.1]]
  }

  /** Matches either have their neighbour in `docs` or its id in `elsewhere`. */
  ghost predicate FoundOrElsewhere(index: seq<Segment>, matches: seq<PartMatch>, n: nat, forward: bool,
                                   docs: seq<seq<nat>>, elsewhere: seq<nat>)
    requires n <= |matches|
  {
    && |docs| == |index|
    && (forall s, d :: 0 <= s < |index| && d in docs[s] ==> d < |index[s].lines|)
    && forall i, place: Place :: 0 <= i < n && LivesAt(Columns(index), place, Beside(matches[i].id, forward)) ==>
         place.1 in docs[place.0] || Beside(matches[i].id, forward) in elsewhere
  }

  /** The neighbour of each match: beside it, or wherever its id is found. */
  method LookUpNeighbours(index: seq<Segment>, matches: seq<PartMatch>, forward: bool) returns (docs: seq<seq<nat>>)
    requires UniqueIds(Columns(index)) && forall m :: m in matches ==> m.segment < |index|
    ensures HoldsNeighbours(index, matches, forward, docs)
  {
    docs := seq(|index|, _ => []);
    var elsewhere: seq<nat> := [];
    for i := 0 to |matches|
      invariant FoundOrElsewhere(index, matches, i, forward, docs, elsewhere)
    {
      var m := matches[i];
      assert m in matches;
      var id := Beside(m.id, forward);
      var beside := Neighbour(index[m.segment].lines, m.doc, id);
      if beside.Some? {
        assert LivesAt(Columns(index), (m.segment, beside.value), id);
        docs := WithDoc(docs, (m.segment, beside.value));
      } else {
        elsewhere := elsewhere + [id];
      }
    }
    if elsewhere != [] {
      docs := LookUpElsewhere(index, matches, forward, docs, elsewhere);
    }
  }

  method LookUpElsewhere(index: seq<Segment>, ghost matches: seq<PartMatch>, ghost forward: bool, before: seq<seq<nat>>,
                         elsewhere: seq<nat>)
    returns (docs: seq<seq<nat>>)
    requires UniqueIds(Columns(index))
    requires FoundOrElsewhere(index, matches, |matches|, forward, before, elsewhere)
    ensures HoldsNeighbours(index, matches, forward, docs)
  {
    var found := FindIds(Columns(index), elsewhere);
    docs := before;
    var ids := found.Keys;
    while ids != {}
      invariant ids <= found.Keys && |docs| == |index|
      invariant forall s, d :: 0 <= s < |index| && d in docs[s] ==> d < |index[s].lines|
      invariant forall s, d :: 0 <= s < |index| && d in before[s] ==> d in docs[s]
      invariant forall id :: id in found.Keys - ids ==> found[id].0 < |index| && found[id].1 in docs[found[id].0]
      decreases ids
    {
      var id :| id in ids;
      assert LivesAt(Columns(index), found[id], id);
      docs := WithDoc(docs, found[id]);
      ids := ids - {id};
    }
    forall m, place: Place | m in matches && LivesAt(Columns(index), place, Beside(m.id, forward))
      ensures place.1 in docs[place.0]
    {
      var i :| 0 <= i < |matches| && matches[i] == m;
      if place.1 !in before[place.0] {
        assert LivesAt(Columns(index), found[Beside(m.id, forward)], Beside(m.id, forward));
      }
    }
  }

  function LeftPart(k: nat): Part {
    Part(0, k, true)
  }

  function RightPart(phrase: Phrase, k: nat): Part {
    Part(k, phrase.Size(), false)
  }

  ghost predicate ValidSplit(index: seq<Segment>, phrase: Phrase, k: nat, filter: Filter) {
    && ValidIndex(index, phrase) && ValidFilter(filter, index) && UniqueIds(Columns(index))
    && 1 <= k < phrase.Size()
  }

  /** `m` matches the first half at the end of a line that passes the filter. */
  ghost predicate IsEnd(index: seq<Segment>, phrase: Phrase, k: nat, filter: Filter, m: PartMatch)
    requires ValidSplit(index, phrase, k, filter)
  {
    Wanted(index, phrase, LeftPart(k), phrase.gaps[k - 1], filter, None, m)
  }

  /** A match of the half that starts a line. */
  ghost predicate IsStart(index: seq<Segment>, phrase: Phrase, k: nat, filter: Filter, m: PartMatch)
    requires ValidSplit(index, phrase, k, filter)
  {
    Wanted(index, phrase, RightPart(phrase, k), phrase.gaps[k - 1], None, None, m)
  }

  ghost predicate Joins(m: PartMatch, r: PartMatch, allowance: nat) {
    r.id == m.id + 1 && m.slack + r.slack <= allowance
  }

  /** The split joins line `place` to the next one. */
  ghost predicate SplitHit(index: seq<Segment>, phrase: Phrase, k: nat, filter: Filter, place: Place)
    requires ValidSplit(index, phrase, k, filter)
  {
    exists m, r :: IsEnd(index, phrase, k, filter, m) && IsStart(index, phrase, k, filter, r)
                   && Joins(m, r, phrase.gaps[k - 1]) && (m.segment, m.doc) == place
  }

  /** Matches of both halves, with every pair on consecutive lines among them. */
  ghost predicate Enough(index: seq<Segment>, phrase: Phrase, k: nat, filter: Filter, ends: seq<PartMatch>,
                         starts: seq<PartMatch>)
    requires ValidSplit(index, phrase, k, filter)
  {
    && (forall m :: m in ends ==> IsEnd(index, phrase, k, filter, m))
    && (forall r :: r in starts ==> IsStart(index, phrase, k, filter, r))
    && forall m, r ::
         IsEnd(index, phrase, k, filter, m) && IsStart(index, phrase, k, filter, r) && r.id == m.id + 1 ==>
           m in ends && r in starts
  }

  ghost predicate JoinsAt(ends: seq<PartMatch>, starts: seq<PartMatch>, allowance: nat, place: Place) {
    exists m, r :: m in ends && r in starts && Joins(m, r, allowance) && (m.segment, m.doc) == place
  }

  /** Each id's least slack. */
  ghost predicate LeastSlacks(starts: seq<PartMatch>, slacks: map<nat, nat>) {
    && (forall r :: r in starts ==> r.id in slacks && slacks[r.id] <= r.slack)
    && (forall id :: id in slacks ==> exists r :: r in starts && r.id == id && r.slack == slacks[id])
  }

  method SlackById(starts: seq<PartMatch>) returns (slacks: map<nat, nat>)
    ensures LeastSlacks(starts, slacks)
  {
    slacks := map[];
    for i := 0 to |starts|
      invariant LeastSlacks(starts[..i], slacks)
    {
      var r := starts[i];
      assert starts[..i + 1] == starts[..i] + [r];
      slacks := slacks[r.id := if r.id in slacks then Min(slacks[r.id], r.slack) else r.slack];
    }
    assert starts[..|starts|] == starts;
  }

  /** Joins the halves on consecutive ids, where the words between them fit the allowance. */
  method Join(ends: seq<PartMatch>, starts: seq<PartMatch>, allowance: nat) returns (out: seq<Place>)
    ensures forall p: Place :: p in out <==> JoinsAt(ends, starts, allowance, p)
  {
    var slacks := SlackById(starts);
    out := [];
    for i := 0 to |ends|
      invariant forall p: Place :: p in out <==> JoinsAt(ends[..i], starts, allowance, p)
    {
      var m := ends[i];
      assert ends[..i + 1] == ends[..i] + [m];
      var joins := m.id + 1 in slacks && slacks[m.id + 1] + m.slack <= allowance;
      assert joins <==> exists r :: r in starts && Joins(m, r, allowance);
      out := out + if joins then [(m.segment, m.doc)] else [];
    }
    assert ends[..|ends|] == ends;
  }

  /** With no allowance both halves touch their edges, and the ids alone join them. */
  method JoinOnIds(ends: seq<PartMatch>, starts: seq<PartMatch>) returns (out: seq<Place>)
    requires forall m :: m in ends || m in starts ==> m.slack == 0
    ensures forall p: Place :: p in out <==> JoinsAt(ends, starts, 0, p)
  {
    var ids := set i | 0 <= i < |starts| :: starts[i].id;
    out := [];
    for i := 0 to |ends|
      invariant forall p: Place :: p in out <==> JoinsAt(ends[..i], starts, 0, p)
    {
      var m := ends[i];
      assert m in ends;
      assert ends[..i + 1] == ends[..i] + [m];
      var joins := m.id + 1 in ids;
      assert joins <==> exists r :: r in starts && Joins(m, r, 0) by {
        if joins {
          var j :| 0 <= j < |starts| && starts[j].id == m.id + 1;
          assert starts[j] in starts && Joins(m, starts[j], 0);
        }
      }
      out := out + if joins then [(m.segment, m.doc)] else [];
    }
    assert ends[..|ends|] == ends;
  }

  lemma JoinIsHit(index: seq<Segment>, phrase: Phrase, k: nat, filter: Filter, ends: seq<PartMatch>,
                  starts: seq<PartMatch>, p: Place)
    requires ValidSplit(index, phrase, k, filter) && Enough(index, phrase, k, filter, ends, starts)
    requires JoinsAt(ends, starts, phrase.gaps[k - 1], p)
    ensures SplitHit(index, phrase, k, filter, p)
  {
    var m, r :| m in ends && r in starts && Joins(m, r, phrase.gaps[k - 1]) && (m.segment, m.doc) == p;
    assert IsEnd(index, phrase, k, filter, m);
    assert IsStart(index, phrase, k, filter, r);
  }

  lemma PairIsJoined(index: seq<Segment>, phrase: Phrase, k: nat, filter: Filter, ends: seq<PartMatch>,
                     starts: seq<PartMatch>, m: PartMatch, r: PartMatch)
    requires ValidSplit(index, phrase, k, filter) && Enough(index, phrase, k, filter, ends, starts)
    requires IsEnd(index, phrase, k, filter, m) && IsStart(index, phrase, k, filter, r)
    requires Joins(m, r, phrase.gaps[k - 1])
    ensures JoinsAt(ends, starts, phrase.gaps[k - 1], (m.segment, m.doc))
  {
    assert m in ends && r in starts;
  }

  lemma HitIsJoin(index: seq<Segment>, phrase: Phrase, k: nat, filter: Filter, ends: seq<PartMatch>,
                  starts: seq<PartMatch>, p: Place)
    requires ValidSplit(index, phrase, k, filter) && Enough(index, phrase, k, filter, ends, starts)
    requires SplitHit(index, phrase, k, filter, p)
    ensures JoinsAt(ends, starts, phrase.gaps[k - 1], p)
  {
    var m, r :| IsEnd(index, phrase, k, filter, m) && IsStart(index, phrase, k, filter, r)
                && Joins(m, r, phrase.gaps[k - 1]) && (m.segment, m.doc) == p;
    PairIsJoined(index, phrase, k, filter, ends, starts, m, r);
  }

  lemma EnoughJoins(index: seq<Segment>, phrase: Phrase, k: nat, filter: Filter, ends: seq<PartMatch>,
                    starts: seq<PartMatch>)
    requires ValidSplit(index, phrase, k, filter) && Enough(index, phrase, k, filter, ends, starts)
    ensures forall p: Place :: JoinsAt(ends, starts, phrase.gaps[k - 1], p) <==> SplitHit(index, phrase, k, filter, p)
  {
    forall p: Place | JoinsAt(ends, starts, phrase.gaps[k - 1], p) ensures SplitHit(index, phrase, k, filter, p) {
      JoinIsHit(index, phrase, k, filter, ends, starts, p);
    }
    forall p: Place | SplitHit(index, phrase, k, filter, p) ensures JoinsAt(ends, starts, phrase.gaps[k - 1], p) {
      HitIsJoin(index, phrase, k, filter, ends, starts, p);
    }
  }

  // ── The second half ──────────────────────────────────────────────────────────

  /** Matches of a half, with each that lies beside a match of the other half among them. */
  ghost predicate BesideFirst(index: seq<Segment>, phrase: Phrase, part: Part, allowance: nat, filter: Filter,
                              first: seq<PartMatch>,
                              forward: bool, second: seq<PartMatch>)
    requires ValidIndex(index, phrase) && part.Of(phrase)
  {
    && (forall m :: m in second ==> Wanted(index, phrase, part, allowance, filter, None, m))
    && (forall f, m ::
          f in first && Wanted(index, phrase, part, allowance, filter, None, m) && m.id == Beside(f.id, forward) ==>
            m in second)
  }

  /** Few matches of the first half: the second is looked for on their neighbours alone. */
  method MatchNeighbours(index: seq<Segment>, phrase: Phrase, part: Part, allowance: nat, filter: Filter,
                         first: seq<PartMatch>, forward: bool)
    returns (second: seq<PartMatch>)
    requires ValidIndex(index, phrase) && part.Of(phrase) && ValidFilter(filter, index) && UniqueIds(Columns(index))
    requires forall m :: m in first ==> m.segment < |index|
    ensures BesideFirst(index, phrase, part, allowance, filter, first, forward, second)
  {
    var docs := LookUpNeighbours(index, first, forward);
    second := [];
    for s := 0 to |index|
      invariant forall m :: m in second <==>
                  m.segment < s && Wanted(index, phrase, part, allowance, filter, None, m) && m.doc in docs[m.segment]
    {
      if docs[s] != [] {
        var listed := SortedSet(docs[s]);
        assert forall i :: 0 <= i < |listed| ==> listed[i] in listed;
        var found := MatchPart(index, s, phrase, part, allowance, Listed(listed), 0, U32_MAX, filter, None);
        second := second + found;
      }
    }
    forall f, m | f in first && Wanted(index, phrase, part, allowance, filter, None, m) && m.id == Beside(f.id, forward)
      ensures m in second
    {
      assert LivesAt(Columns(index), (m.segment, m.doc), m.id);
    }
  }

  /** Many matches of the first half: the second is scanned for, on their neighbours' ids. */
  method ScanNeighbours(index: seq<Segment>, phrase: Phrase, part: Part, allowance: nat, candidates: Candidates,
                        threads: nat,
                        filter: Filter, first: seq<PartMatch>, forward: bool)
    returns (second: seq<PartMatch>)
    requires ValidIndex(index, phrase) && part.Of(phrase) && ValidFilter(filter, index)
    requires !candidates.Listed? && (candidates.OnEdge? ==> allowance == 0)
    ensures BesideFirst(index, phrase, part, allowance, filter, first, forward, second)
  {
    var ids := set i | 0 <= i < |first| :: Beside(first[i].id, forward);
    second := Scan(index, phrase, part, allowance, candidates, threads, filter, Some(ids));
  }

  /** The lines `L` where the first `k` words end `L` and the rest start `L + 1`, whichever half is
      searched first and however the other is then found. */
  method JoinSplit(index: seq<Segment>, phrase: Phrase, k: nat, filter: Filter, threads: nat) returns (out: seq<Place>)
    requires ValidSplit(index, phrase, k, filter)
    ensures forall p: Place :: p in out <==> SplitHit(index, phrase, k, filter, p)
  {
    var allowance := phrase.gaps[k - 1];
    if allowance == 0 && filter.None? {
      out := JoinEdges(index, phrase, k, threads);
      return;
    }
    var left, right := LeftPart(k), RightPart(phrase, k);
    var leftFirst := LeftGoesFirst(index, phrase, left, right, allowance, filter.Some?);
    var candidates := if allowance == 0 then OnEdge else ByDriver;
    var ends, starts;
    if leftFirst {
      ends := Scan(index, phrase, left, allowance, candidates, threads, filter, None);
      if ends == [] {
        return [];
      }
      starts := Second(index, phrase, right, allowance, candidates, threads, None, ends, true);
    } else {
      starts := Scan(index, phrase, right, allowance, candidates, threads, None, None);
      if starts == [] {
        return [];
      }
      ends := Second(index, phrase, left, allowance, candidates, threads, filter, starts, false);
    }
    EitherOrderIsEnough(index, phrase, k, filter, leftFirst, ends, starts);
    out := Join(ends, starts, allowance);
    EnoughJoins(index, phrase, k, filter, ends, starts);
  }

  /** With nothing between the halves and nothing selected, both are read off the edge terms. */
  method JoinEdges(index: seq<Segment>, phrase: Phrase, k: nat, threads: nat) returns (out: seq<Place>)
    requires ValidSplit(index, phrase, k, None) && phrase.gaps[k - 1] == 0
    ensures forall p: Place :: p in out <==> SplitHit(index, phrase, k, None, p)
  {
    var starts := Scan(index, phrase, RightPart(phrase, k), 0, OnEdge, threads, None, None);
    if starts == [] {
      return [];
    }
    var ends := Scan(index, phrase, LeftPart(k), 0, OnEdge, threads, None, None);
    out := JoinOnIds(ends, starts);
    EnoughJoins(index, phrase, k, None, ends, starts);
  }

  method Second(index: seq<Segment>, phrase: Phrase, part: Part, allowance: nat, candidates: Candidates, threads: nat,
                filter: Filter, first: seq<PartMatch>, forward: bool)
    returns (second: seq<PartMatch>)
    requires ValidIndex(index, phrase) && part.Of(phrase) && ValidFilter(filter, index) && UniqueIds(Columns(index))
    requires !candidates.Listed? && (candidates.OnEdge? ==> allowance == 0)
    requires forall m :: m in first ==> m.segment < |index|
    ensures BesideFirst(index, phrase, part, allowance, filter, first, forward, second)
  {
    if |first| <= LOOKUP_LIMIT {
      second := MatchNeighbours(index, phrase, part, allowance, filter, first, forward);
    } else {
      second := ScanNeighbours(index, phrase, part, allowance, candidates, threads, filter, first, forward);
    }
  }

  /** All of one half, and of the other half what lies beside it, are enough to join. */
  lemma EitherOrderIsEnough(index: seq<Segment>, phrase: Phrase, k: nat, filter: Filter, leftFirst: bool,
                            ends: seq<PartMatch>, starts: seq<PartMatch>)
    requires ValidSplit(index, phrase, k, filter)
    requires leftFirst ==> (forall m :: m in ends <==> IsEnd(index, phrase, k, filter, m))
    requires leftFirst ==>
               BesideFirst(index, phrase, RightPart(phrase, k), phrase.gaps[k - 1], None, ends, true, starts)
    requires !leftFirst ==> (forall r :: r in starts <==> IsStart(index, phrase, k, filter, r))
    requires !leftFirst ==> BesideFirst(index, phrase, LeftPart(k), phrase.gaps[k - 1], filter, starts, false, ends)
    ensures Enough(index, phrase, k, filter, ends, starts)
  {
    forall m, r | IsEnd(index, phrase, k, filter, m) && IsStart(index, phrase, k, filter, r) && r.id == m.id + 1
      ensures m in ends && r in starts
    {
      assert LivesAt(Columns(index), (m.segment, m.doc), m.id);
      assert Beside(m.id, true) == r.id && Beside(r.id, false) == m.id;
    }
  }

  // ── What the joined halves mean ──────────────────────────────────────────────

  /** Each word's positions on a line. */
  ghost function LineWords(segment: Segment, doc: nat): seq<seq<nat>>
    requires AllListings(segment.text, |segment.lines|)
  {
    WordsIn(segment.text, doc)
  }

  ghost predicate Anchored(last: Option<nat>, first: Option<nat>) {
    last.Some? && first.Some?
  }

  /** The phrase runs over the break between line `doc` of one segment and line `next` of another. */
  ghost predicate RunsOver(segment: Segment, doc: nat, other: Segment, next: nat, phrase: Phrase)
    requires ValidSegment(segment, phrase.Size()) && doc < |segment.lines|
    requires ValidSegment(other, phrase.Size()) && next < |other.lines|
  {
    var last, first := Anchor(segment.last[doc]), Anchor(other.first[next]);
    && Anchored(last, first)
    && Continues(LineWords(segment, doc), last.value, LineWords(other, next), first.value, phrase.gaps)
  }

  /** The line is live, the filter selects it, and the phrase runs from it onto the live line with
      the next id. */
  ghost predicate ContinuesFrom(index: seq<Segment>, phrase: Phrase, filter: Filter, place: Place)
    requires ValidIndex(index, phrase)
  {
    && Passes(filter, place.0, place.1)
    && exists id: nat, next: Place :: RunsOnto(index, phrase, place, next, id)
  }

  ghost predicate RunsOnto(index: seq<Segment>, phrase: Phrase, place: Place, next: Place, id: nat)
    requires ValidIndex(index, phrase)
  {
    && LivesAt(Columns(index), place, id) && LivesAt(Columns(index), next, id + 1)
    && RunsOver(index[place.0], place.1, index[next.0], next.1, phrase)
  }

  lemma HalvesOfWords(segment: Segment, phrase: Phrase, k: nat, doc: nat)
    requires ValidSegment(segment, phrase.Size()) && 1 <= k < phrase.Size()
    ensures PartWords(segment, LeftPart(k), doc) == LineWords(segment, doc)[..k]
    ensures PartWords(segment, RightPart(phrase, k), doc) == LineWords(segment, doc)[k..]
    ensures PartGaps(phrase, LeftPart(k)) == phrase.gaps[..k - 1]
    ensures PartGaps(phrase, RightPart(phrase, k)) == phrase.gaps[k..]
  {
    var all := LineWords(segment, doc);
    forall w | 0 <= w < phrase.Size() ensures all[w] == SortedPositions(segment.text[w], doc) {
    }
    forall w | 0 <= w < k ensures PartWords(segment, LeftPart(k), doc)[w] == all[w] {
      PartWord(segment.text, 0, k, doc, w);
    }
    forall w | k <= w < phrase.Size() ensures PartWords(segment, RightPart(phrase, k), doc)[w - k] == all[w] {
      PartWord(segment.text, k, phrase.Size(), doc, w);
    }
  }

  /** A slack within the allowance has a least one below it. */
  lemma {:induction false} LeastFits(words: seq<seq<nat>>, gaps: seq<nat>, endsLine: bool, anchor: nat, allowance: nat,
                                     a: nat)
    returns (s: nat)
    requires SlackFits(words, gaps, endsLine, anchor, a) && a <= allowance
    ensures s <= a && IsSlack(words, gaps, endsLine, anchor, allowance, Some(s))
    decreases a
  {
    if t: nat :| t < a && SlackFits(words, gaps, endsLine, anchor, t) {
      s := LeastFits(words, gaps, endsLine, anchor, allowance, t);
    } else {
      s := a;
    }
  }

  /** The first `k` words end the line, with `a` words after them. */
  ghost predicate HalfEnds(segment: Segment, phrase: Phrase, k: nat, doc: nat, a: nat)
    requires ValidSegment(segment, phrase.Size()) && 1 <= k < phrase.Size() && doc < |segment.lines|
  {
    && Anchor(segment.last[doc]).Some?
    && EndSlack(LineWords(segment, doc)[..k], phrase.gaps[..k - 1], Anchor(segment.last[doc]).value, a)
  }

  /** The words from `k` on start the line, with `b` words before them. */
  ghost predicate HalfStarts(segment: Segment, phrase: Phrase, k: nat, doc: nat, b: nat)
    requires ValidSegment(segment, phrase.Size()) && 1 <= k < phrase.Size() && doc < |segment.lines|
  {
    && Anchor(segment.first[doc]).Some?
    && StartSlack(LineWords(segment, doc)[k..], phrase.gaps[k..], Anchor(segment.first[doc]).value, b)
  }

  lemma EndIsHalf(segment: Segment, phrase: Phrase, k: nat, doc: nat, allowance: nat, a: nat)
    requires ValidSegment(segment, phrase.Size()) && 1 <= k < phrase.Size()
    requires LeastSlack(segment, phrase, LeftPart(k), doc, allowance, a)
    ensures a <= allowance && HalfEnds(segment, phrase, k, doc, a)
  {
    HalvesOfWords(segment, phrase, k, doc);
  }

  lemma StartIsHalf(segment: Segment, phrase: Phrase, k: nat, doc: nat, allowance: nat, b: nat)
    requires ValidSegment(segment, phrase.Size()) && 1 <= k < phrase.Size()
    requires LeastSlack(segment, phrase, RightPart(phrase, k), doc, allowance, b)
    ensures b <= allowance && HalfStarts(segment, phrase, k, doc, b)
  {
    HalvesOfWords(segment, phrase, k, doc);
  }

  lemma HalfHasEnd(segment: Segment, phrase: Phrase, k: nat, doc: nat, allowance: nat, a: nat) returns (s: nat)
    requires ValidSegment(segment, phrase.Size()) && 1 <= k < phrase.Size() && doc < |segment.lines|
    requires HalfEnds(segment, phrase, k, doc, a) && a <= allowance
    ensures s <= a && LeastSlack(segment, phrase, LeftPart(k), doc, allowance, s)
  {
    HalvesOfWords(segment, phrase, k, doc);
    s := LeastFits(PartWords(segment, LeftPart(k), doc), PartGaps(phrase, LeftPart(k)), true,
                   Anchor(segment.last[doc]).value, allowance, a);
  }

  lemma HalfHasStart(segment: Segment, phrase: Phrase, k: nat, doc: nat, allowance: nat, b: nat) returns (s: nat)
    requires ValidSegment(segment, phrase.Size()) && 1 <= k < phrase.Size() && doc < |segment.lines|
    requires HalfStarts(segment, phrase, k, doc, b) && b <= allowance
    ensures s <= b && LeastSlack(segment, phrase, RightPart(phrase, k), doc, allowance, s)
  {
    HalvesOfWords(segment, phrase, k, doc);
    s := LeastFits(PartWords(segment, RightPart(phrase, k), doc), PartGaps(phrase, RightPart(phrase, k)), false,
                   Anchor(segment.first[doc]).value, allowance, b);
  }

  /** Two halves close enough to the break are an occurrence over it. */
  lemma HalvesRunOver(segment: Segment, doc: nat, other: Segment, next: nat, phrase: Phrase, k: nat, a: nat, b: nat)
    requires ValidSegment(segment, phrase.Size()) && doc < |segment.lines|
    requires ValidSegment(other, phrase.Size()) && next < |other.lines|
    requires 1 <= k < phrase.Size() && a + b <= phrase.gaps[k - 1]
    requires HalfEnds(segment, phrase, k, doc, a) && HalfStarts(other, phrase, k, next, b)
    ensures RunsOver(segment, doc, other, next, phrase)
  {
    SplitCrosses(LineWords(segment, doc), Anchor(segment.last[doc]).value, LineWords(other, next),
                 Anchor(other.first[next]).value,
                 phrase.gaps, k, a, b);
  }

  /** An occurrence over the break splits into two halves. */
  lemma RunsOverHalves(segment: Segment, doc: nat, other: Segment, next: nat, phrase: Phrase)
    returns (k: nat, a: nat, b: nat)
    requires ValidSegment(segment, phrase.Size()) && doc < |segment.lines|
    requires ValidSegment(other, phrase.Size()) && next < |other.lines|
    requires RunsOver(segment, doc, other, next, phrase)
    ensures 1 <= k < phrase.Size() && a + b <= phrase.gaps[k - 1]
    ensures HalfEnds(segment, phrase, k, doc, a) && HalfStarts(other, phrase, k, next, b)
  {
    var left, right := LineWords(segment, doc), LineWords(other, next);
    var last, first := Anchor(segment.last[doc]).value, Anchor(other.first[next]).value;
    CrossingSplits(left, last, right, first, phrase.gaps);
    k, a, b :| SplitAt(left, last, right, first, phrase.gaps, k, a, b);
  }

  /** A live line with one half of the phrase on it. */
  ghost predicate EndsAt(index: seq<Segment>, phrase: Phrase, k: nat, place: Place, id: nat, a: nat)
    requires ValidIndex(index, phrase) && 1 <= k < phrase.Size()
  {
    LivesAt(Columns(index), place, id) && HalfEnds(index[place.0], phrase, k, place.1, a)
  }

  ghost predicate StartsAt(index: seq<Segment>, phrase: Phrase, k: nat, place: Place, id: nat, b: nat)
    requires ValidIndex(index, phrase) && 1 <= k < phrase.Size()
  {
    LivesAt(Columns(index), place, id) && HalfStarts(index[place.0], phrase, k, place.1, b)
  }

  lemma FoundEnds(index: seq<Segment>, phrase: Phrase, k: nat, m: PartMatch)
    requires ValidIndex(index, phrase) && 1 <= k < phrase.Size()
    requires Found(index, phrase, LeftPart(k), phrase.gaps[k - 1], m)
    ensures EndsAt(index, phrase, k, (m.segment, m.doc), m.id, m.slack)
  {
    EndIsHalf(index[m.segment], phrase, k, m.doc, phrase.gaps[k - 1], m.slack);
  }

  lemma FoundStarts(index: seq<Segment>, phrase: Phrase, k: nat, m: PartMatch)
    requires ValidIndex(index, phrase) && 1 <= k < phrase.Size()
    requires Found(index, phrase, RightPart(phrase, k), phrase.gaps[k - 1], m)
    ensures StartsAt(index, phrase, k, (m.segment, m.doc), m.id, m.slack)
  {
    StartIsHalf(index[m.segment], phrase, k, m.doc, phrase.gaps[k - 1], m.slack);
  }

  lemma EndsFound(index: seq<Segment>, phrase: Phrase, k: nat, place: Place, id: nat, a: nat) returns (m: PartMatch)
    requires ValidIndex(index, phrase) && 1 <= k < phrase.Size() && a <= phrase.gaps[k - 1]
    requires EndsAt(index, phrase, k, place, id, a)
    ensures Found(index, phrase, LeftPart(k), phrase.gaps[k - 1], m)
    ensures (m.segment, m.doc) == place && m.id == id && m.slack <= a
  {
    var s := HalfHasEnd(index[place.0], phrase, k, place.1, phrase.gaps[k - 1], a);
    m := PartMatch(place.0, place.1, id, s);
  }

  lemma StartsFound(index: seq<Segment>, phrase: Phrase, k: nat, place: Place, id: nat, b: nat) returns (m: PartMatch)
    requires ValidIndex(index, phrase) && 1 <= k < phrase.Size() && b <= phrase.gaps[k - 1]
    requires StartsAt(index, phrase, k, place, id, b)
    ensures Found(index, phrase, RightPart(phrase, k), phrase.gaps[k - 1], m)
    ensures (m.segment, m.doc) == place && m.id == id && m.slack <= b
  {
    var s := HalfHasStart(index[place.0], phrase, k, place.1, phrase.gaps[k - 1], b);
    m := PartMatch(place.0, place.1, id, s);
  }

  lemma HalvesRunOnto(index: seq<Segment>, phrase: Phrase, place: Place, next: Place, id: nat, k: nat, a: nat, b: nat)
    requires ValidIndex(index, phrase) && 1 <= k < phrase.Size() && a + b <= phrase.gaps[k - 1]
    requires EndsAt(index, phrase, k, place, id, a) && StartsAt(index, phrase, k, next, id + 1, b)
    ensures RunsOnto(index, phrase, place, next, id)
  {
    HalvesRunOver(index[place.0], place.1, index[next.0], next.1, phrase, k, a, b);
  }

  lemma RunsOntoHalves(index: seq<Segment>, phrase: Phrase, place: Place, next: Place, id: nat)
    returns (k: nat, a: nat, b: nat)
    requires ValidIndex(index, phrase) && RunsOnto(index, phrase, place, next, id)
    ensures 1 <= k < phrase.Size() && a + b <= phrase.gaps[k - 1]
    ensures EndsAt(index, phrase, k, place, id, a) && StartsAt(index, phrase, k, next, id + 1, b)
  {
    k, a, b := RunsOverHalves(index[place.0], place.1, index[next.0], next.1, phrase);
  }

  /** Some split joins the line to the next one. */
  ghost predicate IsHit(index: seq<Segment>, phrase: Phrase, filter: Filter, n: nat, place: Place)
    requires ValidIndex(index, phrase) && ValidFilter(filter, index) && UniqueIds(Columns(index)) && n <= phrase.Size()
  {
    exists k :: 1 <= k < n && SplitHit(index, phrase, k, filter, place)
  }

  lemma FoundRunOnto(index: seq<Segment>, phrase: Phrase, k: nat, m: PartMatch, r: PartMatch)
    requires ValidIndex(index, phrase) && 1 <= k < phrase.Size() && Joins(m, r, phrase.gaps[k - 1])
    requires Found(index, phrase, LeftPart(k), phrase.gaps[k - 1], m)
    requires Found(index, phrase, RightPart(phrase, k), phrase.gaps[k - 1], r)
    ensures RunsOnto(index, phrase, (m.segment, m.doc), (r.segment, r.doc), m.id)
  {
    FoundEnds(index, phrase, k, m);
    FoundStarts(index, phrase, k, r);
    HalvesRunOnto(index, phrase, (m.segment, m.doc), (r.segment, r.doc), m.id, k, m.slack, r.slack);
  }

  lemma RunsOntoFound(index: seq<Segment>, phrase: Phrase, place: Place, next: Place, id: nat)
    returns (k: nat, m: PartMatch, r: PartMatch)
    requires ValidIndex(index, phrase) && RunsOnto(index, phrase, place, next, id)
    ensures 1 <= k < phrase.Size() && Joins(m, r, phrase.gaps[k - 1]) && (m.segment, m.doc) == place
    ensures Found(index, phrase, LeftPart(k), phrase.gaps[k - 1], m)
    ensures Found(index, phrase, RightPart(phrase, k), phrase.gaps[k - 1], r)
  {
    var a, b;
    k, a, b := RunsOntoHalves(index, phrase, place, next, id);
    m := EndsFound(index, phrase, k, place, id, a);
    r := StartsFound(index, phrase, k, next, id + 1, b);
  }

  lemma OntoContinues(index: seq<Segment>, phrase: Phrase, filter: Filter, place: Place, next: Place, id: nat)
    requires ValidIndex(index, phrase) && Passes(filter, place.0, place.1) && RunsOnto(index, phrase, place, next, id)
    ensures ContinuesFrom(index, phrase, filter, place)
  {
  }

  lemma PairContinues(index: seq<Segment>, phrase: Phrase, k: nat, filter: Filter, m: PartMatch, r: PartMatch)
    requires ValidSplit(index, phrase, k, filter)
    requires IsEnd(index, phrase, k, filter, m) && IsStart(index, phrase, k, filter, r)
    requires Joins(m, r, phrase.gaps[k - 1])
    ensures ContinuesFrom(index, phrase, filter, (m.segment, m.doc))
  {
    FoundRunOnto(index, phrase, k, m, r);
    OntoContinues(index, phrase, filter, (m.segment, m.doc), (r.segment, r.doc), m.id);
  }

  lemma HitContinues(index: seq<Segment>, phrase: Phrase, k: nat, filter: Filter, place: Place)
    requires ValidSplit(index, phrase, k, filter) && SplitHit(index, phrase, k, filter, place)
    ensures ContinuesFrom(index, phrase, filter, place)
  {
    var m, r :| IsEnd(index, phrase, k, filter, m) && IsStart(index, phrase, k, filter, r)
                && Joins(m, r, phrase.gaps[k - 1]) && (m.segment, m.doc) == place;
    PairContinues(index, phrase, k, filter, m, r);
  }

  lemma ContinuationHits(index: seq<Segment>, phrase: Phrase, filter: Filter, place: Place) returns (k: nat)
    requires ValidIndex(index, phrase) && ValidFilter(filter, index) && UniqueIds(Columns(index))
    requires ContinuesFrom(index, phrase, filter, place)
    ensures 1 <= k < phrase.Size() && SplitHit(index, phrase, k, filter, place)
  {
    var id: nat, next: Place :| RunsOnto(index, phrase, place, next, id);
    var m, r;
    k, m, r := RunsOntoFound(index, phrase, place, next, id);
    assert IsEnd(index, phrase, k, filter, m);
    assert IsStart(index, phrase, k, filter, r);
  }

  /** A line is a hit of some split exactly when the phrase continues from it. */
  lemma HitsAreContinuations(index: seq<Segment>, phrase: Phrase, filter: Filter, place: Place)
    requires ValidIndex(index, phrase) && ValidFilter(filter, index) && UniqueIds(Columns(index))
    ensures ContinuesFrom(index, phrase, filter, place) <==> IsHit(index, phrase, filter, phrase.Size(), place)
  {
    if IsHit(index, phrase, filter, phrase.Size(), place) {
      var k :| 1 <= k < phrase.Size() && SplitHit(index, phrase, k, filter, place);
      HitContinues(index, phrase, k, filter, place);
    } else if ContinuesFrom(index, phrase, filter, place) {
      var k := ContinuationHits(index, phrase, filter, place);
    }
  }

  lemma OneMoreSplit(index: seq<Segment>, phrase: Phrase, filter: Filter, k: nat, place: Place)
    requires ValidSplit(index, phrase, k, filter)
    ensures IsHit(index, phrase, filter, k + 1, place)
        <==> IsHit(index, phrase, filter, k, place) || SplitHit(index, phrase, k, filter, place)
  {
  }

  /** The lines of each segment that the phrase continues from, ascending: every split is joined,
      and the answer does not depend on how. */
  method Evaluate(index: seq<Segment>, phrase: Phrase, filter: Filter, threads: nat) returns (hits: seq<seq<nat>>)
    requires ValidIndex(index, phrase) && ValidFilter(filter, index) && UniqueIds(Columns(index))
    ensures |hits| == |index|
    ensures forall s :: 0 <= s < |hits| ==> StrictlySorted(hits[s])
    ensures forall s, doc: nat ::
              0 <= s < |hits| ==> (doc in hits[s] <==> ContinuesFrom(index, phrase, filter, (s, doc)))
  {
    var all: seq<Place> := [];
    for k := 1 to phrase.Size()
      invariant forall p: Place :: p in all <==> IsHit(index, phrase, filter, k, p)
    {
      var joined := JoinSplit(index, phrase, k, filter, threads);
      forall p: Place
        ensures IsHit(index, phrase, filter, k + 1, p) <==> IsHit(index, phrase, filter, k, p) || p in joined
      {
        OneMoreSplit(index, phrase, filter, k, p);
      }
      all := all + joined;
    }
    forall p: Place ensures p in all <==> ContinuesFrom(index, phrase, filter, p) {
      HitsAreContinuations(index, phrase, filter, p);
    }
    hits := BySegment(all, |index|);
  }

  /** Each segment's documents among the places, ascending and each once. */
  method BySegment(places: seq<Place>, n: nat) returns (docs: seq<seq<nat>>)
    ensures |docs| == n && forall s :: 0 <= s < n ==> StrictlySorted(docs[s])
    ensures forall s, doc: nat :: 0 <= s < n ==> (doc in docs[s] <==> (s, doc) in places)
  {
    docs := [];
    for s := 0 to n
      invariant |docs| == s && forall t :: 0 <= t < s ==> StrictlySorted(docs[t])
      invariant forall t, doc: nat :: 0 <= t < s ==> (doc in docs[t] <==> (t, doc) in places)
    {
      var here := DocsIn(places, s);
      var sorted := SortedSet(here);
      docs := docs + [sorted];
    }
  }

  function DocsIn(places: seq<Place>, s: nat): (docs: seq<nat>)
    ensures forall doc: nat :: doc in docs <==> (s, doc) in places
  {
    if places == [] then [] else
      var rest := DocsIn(places[1..], s);
      if places[0].0 == s then [places[0].1] + rest else rest
  }
}
