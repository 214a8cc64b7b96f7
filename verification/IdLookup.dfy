/** Documents by id. A segment is described by runs, within which document and id grow together; looking
    an id up in them finds just the documents that hold it, save for the greatest id. */
module IdLookup {
  import opened Prelude
  import opened Postings

  /** One document's entry of the `id` column, and whether it is still there. */
  datatype Line = Line(id: Option<nat>, alive: bool)

  /** `len` consecutive ids from `first`, on as many documents from `start`. */
  datatype Run = Run(first: nat, start: nat, len: nat)

  /** A segment's runs by first id, and the largest end among the runs up to each. */
  datatype IdRuns = IdRuns(runs: seq<Run>, maxEnd: seq<nat>)

  ghost predicate Holds(lines: seq<Line>, doc: nat, id: nat) {
    doc < |lines| && lines[doc].id == Some(id)
  }

  ghost predicate IsLive(lines: seq<Line>, doc: nat, id: nat) {
    Holds(lines, doc, id) && lines[doc].alive
  }

  /** The ends of runs stop at the largest `u64`, so a document holding it is never found. */
  ghost predicate CanFind(lines: seq<Line>, doc: nat, id: nat) {
    Holds(lines, doc, id) && id < U64_MAX
  }

  // ── Reading the runs ─────────────────────────────────────────────────────────

  ghost predicate InRun(run: Run, doc: nat) {
    run.start <= doc < run.start + run.len
  }

  function IdIn(run: Run, doc: nat): nat
    requires InRun(run, doc)
  {
    run.first + (doc - run.start)
  }

  /** Each document of the run holds its id. */
  ghost predicate RunHolds(run: Run, lines: seq<Line>, n: nat)
    requires n <= |lines|
  {
    && run.start + run.len <= n
    && forall doc: nat :: InRun(run, doc) ==> lines[doc].id == Some(IdIn(run, doc))
  }

  ghost predicate Covered(runs: seq<Run>, doc: nat) {
    exists run :: run in runs && InRun(run, doc)
  }

  /** The runs say what the first `n` documents' ids are. */
  ghost predicate Describes(runs: seq<Run>, lines: seq<Line>, n: nat)
    requires n <= |lines|
  {
    && (forall run :: run in runs ==> RunHolds(run, lines, n))
    && (forall doc: nat :: doc < n && lines[doc].id.Some? ==> Covered(runs, doc))
  }

  /** One more document. */
  function WithNext(runs: seq<Run>, doc: nat, line: Line): seq<Run> {
    if line.id.None? then runs
    else
      var id := line.id.value;
      if runs != []
         && var last := runs[|runs| - 1]; last.start + last.len == doc && last.first + last.len == id && id <= U64_MAX
      then
        var last := runs[|runs| - 1];
        runs[..|runs| - 1] + [last.(len := last.len + 1)]
      else runs + [Run(id, doc, 1)]
  }

  lemma NextDescribed(runs: seq<Run>, lines: seq<Line>, n: nat)
    requires n < |lines| && Describes(runs, lines, n)
    ensures Describes(WithNext(runs, n, lines[n]), lines, n + 1)
  {
    var runs' := WithNext(runs, n, lines[n]);
    if lines[n].id.Some? {
      var newest := runs'[|runs'| - 1];
      assert newest in runs' && InRun(newest, n);
      forall doc: nat | doc < n && lines[doc].id.Some? ensures Covered(runs', doc) {
        var run :| run in runs && InRun(run, doc);
        if run in runs'[..|runs'| - 1] {
          assert run in runs';
        } else {
          assert runs != [] && run == runs[|runs| - 1];
          assert InRun(newest, doc) || run in runs';
        }
      }
      forall run | run in runs' ensures RunHolds(run, lines, n + 1) {
        if run != newest {
          assert run in runs;
        } else if |runs'| == |runs| {
          assert RunHolds(runs[|runs| - 1], lines, n);
        }
      }
    }
  }

  predicate RunBefore(a: Run, b: Run) {
    a.first < b.first || (a.first == b.first && (a.start < b.start || (a.start == b.start && a.len <= b.len)))
  }

  ghost predicate ByFirst(runs: seq<Run>) {
    forall i, j :: 0 <= i < j < |runs| ==> runs[i].first <= runs[j].first
  }

  function Inserted(runs: seq<Run>, run: Run): seq<Run> {
    if runs == [] || RunBefore(runs[|runs| - 1], run) then runs + [run]
    else Inserted(runs[..|runs| - 1], run) + [runs[|runs| - 1]]
  }

  lemma {:induction false} InsertedKeeps(runs: seq<Run>, run: Run)
    ensures forall r :: r in Inserted(runs, run) <==> r in runs || r == run
  {
    if runs != [] && !RunBefore(runs[|runs| - 1], run) {
      assert runs == runs[..|runs| - 1] + [runs[|runs| - 1]];
      InsertedKeeps(runs[..|runs| - 1], run);
    }
  }

  lemma {:induction false} InsertedByFirst(runs: seq<Run>, run: Run)
    requires ByFirst(runs)
    ensures ByFirst(Inserted(runs, run))
  {
    if runs != [] && !RunBefore(runs[|runs| - 1], run) {
      var front, last := runs[..|runs| - 1], runs[|runs| - 1];
      InsertedByFirst(front, run);
      InsertedKeeps(front, run);
      var r := Inserted(front, run);
      forall i | 0 <= i < |r| ensures r[i].first <= last.first {
        assert r[i] in r;
      }
    }
  }

  /** The runs in order; no two are alike, so which of the same runs stay is all that matters. */
  function SortRuns(runs: seq<Run>): seq<Run> {
    if runs == [] then [] else Inserted(SortRuns(runs[..|runs| - 1]), runs[|runs| - 1])
  }

  lemma {:induction false} SortedRuns(runs: seq<Run>)
    ensures ByFirst(SortRuns(runs))
    ensures forall r :: r in SortRuns(runs) <==> r in runs
  {
    if runs != [] {
      var front := runs[..|runs| - 1];
      SortedRuns(front);
      InsertedByFirst(SortRuns(front), runs[|runs| - 1]);
      InsertedKeeps(SortRuns(front), runs[|runs| - 1]);
      assert runs == front + [runs[|runs| - 1]];
    }
  }

  /** Some run up to `j` ends at `end`. */
  ghost predicate EndsAt(runs: seq<Run>, j: nat, end: nat) {
    exists i :: 0 <= i <= j && i < |runs| && EndOf(runs[i]) == end
  }

  /** `maxEnd` is the running maximum of the runs' ends, which cannot pass the largest `u64`. */
  ghost predicate EndsSoFar(runs: seq<Run>, maxEnd: seq<nat>) {
    && |maxEnd| == |runs|
    && (forall i, j :: 0 <= i <= j < |runs| ==> EndOf(runs[i]) <= maxEnd[j] <= U64_MAX)
    && (forall j :: 0 <= j < |runs| ==> EndsAt(runs, j, maxEnd[j]))
  }

  ghost predicate DescribedBy(read: IdRuns, lines: seq<Line>) {
    ByFirst(read.runs) && Describes(read.runs, lines, |lines|) && EndsSoFar(read.runs, read.maxEnd)
  }

  function EndOf(run: Run): nat {
    Min(run.first + run.len, U64_MAX)
  }

  method MaxEnds(runs: seq<Run>) returns (maxEnd: seq<nat>)
    ensures EndsSoFar(runs, maxEnd)
  {
    maxEnd := [];
    var end: nat := 0;
    for i := 0 to |runs|
      invariant EndsSoFar(runs[..i], maxEnd)
      invariant end <= U64_MAX && forall a :: 0 <= a < i ==> EndOf(runs[a]) <= end
      invariant if i == 0 then end == 0 else EndsAt(runs[..i], i - 1, end)
    {
      end := Max(end, EndOf(runs[i]));
      maxEnd := maxEnd + [end];
      EndsStay(runs[..i], runs[i], maxEnd, end);
      assert runs[..i + 1] == runs[..i] + [runs[i]];
    }
    assert runs[..|runs|] == runs;
  }

  lemma EndsStay(runs: seq<Run>, run: Run, maxEnd: seq<nat>, end: nat)
    requires |maxEnd| == |runs| + 1 && maxEnd[|runs|] == end
    requires forall j :: 0 <= j < |runs| ==> EndsAt(runs, j, maxEnd[j])
    requires EndOf(run) == end || (runs != [] && EndsAt(runs, |runs| - 1, end))
    ensures forall j :: 0 <= j <= |runs| ==> EndsAt(runs + [run], j, maxEnd[j])
  {
    var all := runs + [run];
    forall j | 0 <= j <= |runs| ensures EndsAt(all, j, maxEnd[j]) {
      if j == |runs| && EndOf(run) == end {
        assert EndOf(all[j]) == end;
      } else {
        var i :| 0 <= i <= j && i < |runs| && EndOf(runs[i]) == maxEnd[j];
        assert EndOf(all[i]) == maxEnd[j];
      }
    }
  }

  method Read(lines: seq<Line>) returns (read: IdRuns)
    ensures DescribedBy(read, lines)
  {
    var runs: seq<Run> := [];
    for doc := 0 to |lines|
      invariant Describes(runs, lines, doc)
    {
      NextDescribed(runs, lines, doc);
      runs := WithNext(runs, doc, lines[doc]);
    }
    var sorted := SortRuns(runs);
    SortedRuns(runs);
    DescribedAlike(runs, sorted, lines);
    var maxEnd := MaxEnds(sorted);
    read := IdRuns(sorted, maxEnd);
  }

  lemma DescribedAlike(runs: seq<Run>, others: seq<Run>, lines: seq<Line>)
    requires Describes(runs, lines, |lines|) && forall r :: r in others <==> r in runs
    ensures Describes(others, lines, |lines|)
  {
    forall doc: nat | doc < |lines| && lines[doc].id.Some? ensures Covered(others, doc) {
      assert Covered(runs, doc);
      var run :| run in runs && InRun(run, doc);
      assert run in others;
    }
  }

  // ── Looking ids up ───────────────────────────────────────────────────────────

  predicate RunGives(run: Run, id: nat, doc: nat) {
    run.first <= id < run.first + run.len && doc == run.start + (id - run.first)
  }

  lemma RunGivesHeld(runs: seq<Run>, lines: seq<Line>, id: nat, doc: nat)
    requires Describes(runs, lines, |lines|)
    ensures Holds(lines, doc, id) <==> exists j :: 0 <= j < |runs| && RunGives(runs[j], id, doc)
  {
    if j :| 0 <= j < |runs| && RunGives(runs[j], id, doc) {
      assert RunHolds(runs[j], lines, |lines|) && InRun(runs[j], doc);
    }
    if Holds(lines, doc, id) {
      assert Covered(runs, doc);
      var run :| run in runs && InRun(run, doc);
      var j :| 0 <= j < |runs| && runs[j] == run;
      assert RunHolds(run, lines, |lines|);
    }
  }

  /** `docs` are what the runs from `i` on give for `id`. */
  ghost predicate FoundFrom(runs: seq<Run>, id: nat, i: nat, docs: seq<nat>)
    requires i <= |runs|
  {
    && (forall j, doc: nat :: i <= j < |runs| && RunGives(runs[j], id, doc) ==> doc in docs)
    && (forall doc :: doc in docs ==> exists j :: i <= j < |runs| && RunGives(runs[j], id, doc))
  }

  /** `docs` are the documents that `id` can be found on; being alive does not matter here. */
  method Docs(read: IdRuns, ghost lines: seq<Line>, id: nat) returns (docs: seq<nat>)
    requires DescribedBy(read, lines)
    ensures forall doc: nat :: doc in docs <==> CanFind(lines, doc, id)
  {
    var runs := read.runs;
    var i: nat := |runs|;
    while i > 0 && runs[i - 1].first > id
      invariant i <= |runs|
      invariant forall j :: i <= j < |runs| ==> runs[j].first > id
    {
      i := i - 1;
    }
    docs := [];
    while i > 0 && read.maxEnd[i - 1] > id
      invariant i <= |runs|
      invariant forall j :: 0 <= j < i ==> runs[j].first <= id
      invariant id >= U64_MAX ==> docs == []
      invariant FoundFrom(runs, id, i, docs)
    {
      i := i - 1;
      if id - runs[i].first < runs[i].len {
        docs := Given(runs, id, i, docs);
      }
    }
    RunsTellDocs(read, lines, id, i, docs);
  }

  /** The run at `i` gives one more document. */
  function Given(runs: seq<Run>, id: nat, i: nat, docs: seq<nat>): (r: seq<nat>)
    requires i < |runs| && runs[i].first <= id < runs[i].first + runs[i].len
    requires FoundFrom(runs, id, i + 1, docs)
    ensures FoundFrom(runs, id, i, r)
  {
    var doc := runs[i].start + (id - runs[i].first);
    assert RunGives(runs[i], id, doc);
    docs + [doc]
  }

  lemma RunsTellDocs(read: IdRuns, lines: seq<Line>, id: nat, i: nat, docs: seq<nat>)
    requires DescribedBy(read, lines) && i <= |read.runs| && FoundFrom(read.runs, id, i, docs)
    requires i > 0 ==> read.maxEnd[i - 1] <= id
    requires id >= U64_MAX ==> docs == []
    ensures forall doc: nat :: doc in docs <==> CanFind(lines, doc, id)
  {
    var runs := read.runs;
    forall j, doc: nat | 0 <= j < i && id < U64_MAX ensures !RunGives(runs[j], id, doc) {
      assert EndOf(runs[j]) <= read.maxEnd[i - 1];
    }
    forall doc: nat ensures doc in docs <==> CanFind(lines, doc, id) {
      RunGivesHeld(runs, lines, id, doc);
      if id < U64_MAX && Holds(lines, doc, id) {
        var j :| 0 <= j < |runs| && RunGives(runs[j], id, doc);
      }
    }
  }

  /** A document with the greatest id is in a run, and no end lets the search reach it. */
  lemma GreatestIdIsNotFound(read: IdRuns, lines: seq<Line>, doc: nat)
    requires DescribedBy(read, lines) && Holds(lines, doc, U64_MAX)
    ensures exists j :: 0 <= j < |read.runs| && RunGives(read.runs[j], U64_MAX, doc)
    ensures forall j :: 0 <= j < |read.maxEnd| ==> read.maxEnd[j] <= U64_MAX
    ensures !CanFind(lines, doc, U64_MAX)
  {
    RunGivesHeld(read.runs, lines, U64_MAX, doc);
    forall j | 0 <= j < |read.maxEnd| ensures read.maxEnd[j] <= U64_MAX {
      assert EndOf(read.runs[j]) <= read.maxEnd[j];
    }
  }

  /** Drops the repeats of a sorted sequence. */
  method Deduped(sorted: seq<nat>) returns (r: seq<nat>)
    requires Sorted(sorted)
    ensures StrictlySorted(r) && forall doc :: doc in r <==> doc in sorted
  {
    r := [];
    for i := 0 to |sorted|
      invariant StrictlySorted(r)
      invariant forall doc :: doc in r <==> doc in sorted[..i]
      invariant if i == 0 then r == [] else r != [] && r[|r| - 1] == sorted[i - 1]
    {
      assert i > 0 ==> sorted[i - 1] <= sorted[i];
      assert sorted[..i + 1] == sorted[..i] + [sorted[i]];
      if r == [] || r[|r| - 1] != sorted[i] {
        r := r + [sorted[i]];
      }
    }
    assert sorted[..|sorted|] == sorted;
  }

  lemma SortKeepsMembers(docs: seq<nat>)
    ensures Sorted(SortNats(docs)) && forall doc :: doc in SortNats(docs) <==> doc in docs
  {
    SortNatsSorts(docs);
    forall doc ensures doc in SortNats(docs) <==> doc in docs {
      assert doc in multiset(SortNats(docs)) <==> doc in multiset(docs);
    }
  }

  /** A sorted sequence of the same members, each once. */
  method SortedSet(docs: seq<nat>) returns (r: seq<nat>)
    ensures StrictlySorted(r) && forall doc :: doc in r <==> doc in docs
  {
    SortKeepsMembers(docs);
    r := Deduped(SortNats(docs));
  }

  ghost predicate HoldsOne(lines: seq<Line>, doc: nat, ids: seq<nat>) {
    doc < |lines| && lines[doc].id.Some? && lines[doc].id.value in ids && lines[doc].id.value < U64_MAX
  }

  lemma HoldsOneMore(lines: seq<Line>, ids: seq<nat>, i: nat)
    requires i < |ids|
    ensures forall doc: nat ::
              HoldsOne(lines, doc, ids[..i + 1]) <==> HoldsOne(lines, doc, ids[..i]) || CanFind(lines, doc, ids[i])
  {
    assert ids[..i + 1] == ids[..i] + [ids[i]];
  }

  /** `docs` ascend, and are those alive on which one of `ids` can be found. */
  method DocsWithIds(lines: seq<Line>, ids: seq<nat>) returns (docs: seq<nat>)
    ensures StrictlySorted(docs)
    ensures forall doc: nat :: doc in docs <==> HoldsOne(lines, doc, ids) && lines[doc].alive
  {
    if ids == [] {
      return [];
    }
    var read := Read(lines);
    var found: seq<nat> := [];
    for i := 0 to |ids|
      invariant forall doc: nat :: doc in found <==> HoldsOne(lines, doc, ids[..i])
    {
      var holding := Docs(read, lines, ids[i]);
      HoldsOneMore(lines, ids, i);
      found := found + holding;
    }
    assert ids[..|ids|] == ids;
    assert forall k :: 0 <= k < |found| ==> found[k] in found;
    var live := Retained(found, lines);
    docs := SortedSet(live);
  }

  /** The documents not deleted. */
  function Retained(docs: seq<nat>, lines: seq<Line>): (r: seq<nat>)
    requires forall i :: 0 <= i < |docs| ==> docs[i] < |lines|
    ensures forall doc :: doc in r <==> doc in docs && lines[doc].alive
  {
    if docs == [] then [] else
      var rest := Retained(docs[1..], lines);
      if lines[docs[0]].alive then [docs[0]] + rest else rest
  }

  /** Finds `id` on a live document at most one away from `doc`, if it is there. */
  method Neighbour(lines: seq<Line>, doc: nat, id: nat) returns (found: Option<nat>)
    ensures found.Some? ==> IsLive(lines, found.value, id) && doc <= found.value + 1 && found.value <= doc + 1
    ensures found.None? ==> forall d: nat :: doc <= d + 1 && d <= doc + 1 ==> !IsLive(lines, d, id)
  {
    var candidates := [doc + 1] + (if doc > 0 then [doc - 1] else []) + [doc];
    for i := 0 to |candidates|
      invariant forall j :: 0 <= j < i ==> !IsLive(lines, candidates[j], id)
    {
      var candidate := candidates[i];
      if candidate < |lines| && lines[candidate].id == Some(id) && lines[candidate].alive {
        return Some(candidate);
      }
    }
    assert candidates[0] == doc + 1 && candidates[|candidates| - 1] == doc && (doc > 0 ==> candidates[1] == doc - 1);
    found := None;
  }

  /** Where a line is: its segment and document. */
  type Place = (nat, nat)

  ghost predicate LivesAt(columns: seq<seq<Line>>, place: Place, id: nat) {
    place.0 < |columns| && IsLive(columns[place.0], place.1, id)
  }

  /** The places found are right, and no id of `ids` that lives in the first `n` segments is missing. */
  ghost predicate FoundIn(columns: seq<seq<Line>>, ids: seq<nat>, n: nat, found: map<nat, Place>) {
    && (forall id :: id in found ==> id in ids && id < U64_MAX && LivesAt(columns, found[id], id))
    && (forall id: nat, place: Place ::
         id in ids && id < U64_MAX && place.0 < n && LivesAt(columns, place, id) ==> id in found)
  }

  /** Maps the ids that can be found on live documents to such a place. */
  method FindIds(columns: seq<seq<Line>>, ids: seq<nat>) returns (found: map<nat, Place>)
    ensures FoundIn(columns, ids, |columns|, found)
  {
    var sorted := SortedSet(ids);
    found := map[];
    for ordinal := 0 to |columns|
      invariant FoundIn(columns, sorted, ordinal, found)
    {
      if |found| == |sorted| {
        AllFound(sorted, found);
        break;
      }
      var docs := DocsWithIds(columns[ordinal], sorted);
      found := FindIdsOf(columns, ordinal, sorted, docs, found);
    }
  }

  lemma AllFound(sorted: seq<nat>, found: map<nat, Place>)
    requires StrictlySorted(sorted) && |found| == |sorted| && forall id :: id in found ==> id in sorted
    ensures forall id :: id in sorted ==> id in found
  {
    var all := set id | id in sorted;
    DistinctSize(sorted);
    forall id | id in sorted ensures id in found {
      if id !in found {
        assert found.Keys <= all - {id};
        SubsetSize(found.Keys, all - {id});
      }
    }
  }

  /** One segment's documents; an id keeps the first place found. */
  method FindIdsOf(columns: seq<seq<Line>>, ordinal: nat, ids: seq<nat>, docs: seq<nat>, before: map<nat, Place>)
    returns (found: map<nat, Place>)
    requires ordinal < |columns| && FoundIn(columns, ids, ordinal, before)
    requires forall doc: nat :: doc in docs <==> HoldsOne(columns[ordinal], doc, ids) && columns[ordinal][doc].alive
    ensures FoundIn(columns, ids, ordinal + 1, found)
  {
    found := before;
    for i := 0 to |docs|
      invariant FoundIn(columns, ids, ordinal, found)
      invariant forall j :: 0 <= j < i ==> docs[j] < |columns[ordinal]|
      invariant forall j ::
                  0 <= j < i && columns[ordinal][docs[j]].id.Some? ==> columns[ordinal][docs[j]].id.value in found
    {
      var doc := docs[i];
      assert doc in docs;
      var line := columns[ordinal][doc];
      if line.id.Some? && line.id.value !in found {
        assert LivesAt(columns, (ordinal, doc), line.id.value);
        found := found[line.id.value := (ordinal, doc)];
      }
    }
    forall id: nat, place: Place | id in ids && id < U64_MAX && place.0 < ordinal + 1 && LivesAt(columns, place, id)
      ensures id in found
    {
      if place.0 == ordinal {
        assert HoldsOne(columns[ordinal], place.1, ids);
        var j :| 0 <= j < |docs| && docs[j] == place.1;
      }
    }
  }
}
