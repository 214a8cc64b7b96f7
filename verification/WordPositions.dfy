/** A word's positions in one document after another: the sorted multiset union over its terms. */
module WordPositions {
  import opened Prelude
  import opened Postings

  /** Up to this many terms every cursor is read directly. */
  const LINEAR_POSTINGS_LIMIT: nat := 8

  ghost predicate AllValid(postings: seq<Cursor>) {
    forall i :: 0 <= i < |postings| ==> postings[i].Valid()
  }

  ghost predicate SameLists(a: seq<Cursor>, b: seq<Cursor>) {
    |a| == |b| && forall i :: 0 <= i < |a| ==> a[i].SameList(b[i])
  }

  /** The positions in `doc` of the terms numbered in `terms`, among the first `n`. */
  ghost function Gathered(postings: seq<Cursor>, doc: nat, terms: set<nat>, n: nat): multiset<nat>
    requires AllValid(postings) && n <= |postings|
  {
    if n == 0 then multiset{}
    else Gathered(postings, doc, terms, n - 1) + if n - 1 in terms then multiset(postings[n - 1].In(doc))
                                                 else multiset{}
  }

  /** The multiset union of all terms' positions. */
  ghost function PositionsOf(postings: seq<Cursor>, doc: nat): multiset<nat>
    requires AllValid(postings)
  {
    Gathered(postings, doc, Below(|postings|), |postings|)
  }

  /** The same positions as an ascending list, which the multiset settles. */
  ghost function SortedPositions(postings: seq<Cursor>, doc: nat): seq<nat>
    requires AllValid(postings)
  {
    SortNats(Flat(postings, doc, |postings|))
  }

  lemma PositionsSorted(postings: seq<Cursor>, doc: nat)
    requires AllValid(postings)
    ensures Sorted(SortedPositions(postings, doc))
    ensures multiset(SortedPositions(postings, doc)) == PositionsOf(postings, doc)
  {
    FlatGathers(postings, doc, |postings|);
    SortNatsSorts(Flat(postings, doc, |postings|));
  }

  ghost function Flat(postings: seq<Cursor>, doc: nat, n: nat): seq<nat>
    requires AllValid(postings) && n <= |postings|
  {
    if n == 0 then [] else Flat(postings, doc, n - 1) + postings[n - 1].In(doc)
  }

  lemma {:induction false} FlatGathers(postings: seq<Cursor>, doc: nat, n: nat)
    requires AllValid(postings) && n <= |postings|
    ensures multiset(Flat(postings, doc, n)) == Gathered(postings, doc, Below(|postings|), n)
  {
    if n > 0 {
      FlatGathers(postings, doc, n - 1);
    }
  }

  lemma SameSortedPositions(a: seq<Cursor>, b: seq<Cursor>, doc: nat)
    requires AllValid(a) && AllValid(b) && SameLists(a, b)
    ensures SortedPositions(a, doc) == SortedPositions(b, doc)
  {
    GatherSame(a, b, doc, Below(|a|), |a|);
    PositionsSorted(a, doc);
    PositionsSorted(b, doc);
    SortedUnique(SortedPositions(a, doc), SortedPositions(b, doc));
  }

  lemma {:induction false} GatherOne(postings: seq<Cursor>, doc: nat, terms: set<nat>, i: nat, n: nat)
    requires AllValid(postings) && i < |postings| && n <= |postings| && i !in terms
    ensures Gathered(postings, doc, terms + {i}, n)
         == Gathered(postings, doc, terms, n) + if i < n then multiset(postings[i].In(doc)) else multiset{}
  {
    if n > 0 {
      GatherOne(postings, doc, terms, i, n - 1);
      assert n - 1 in terms + {i} <==> n - 1 in terms || n - 1 == i;
    }
  }

  lemma GatherNext(postings: seq<Cursor>, doc: nat, i: nat, out: seq<nat>, piece: seq<nat>)
    requires AllValid(postings) && i < |postings|
    requires multiset(out) == Gathered(postings, doc, Below(i), |postings|)
    requires piece == postings[i].In(doc)
    ensures multiset(out + piece) == Gathered(postings, doc, Below(i + 1), |postings|)
  {
    GatherOne(postings, doc, Below(i), i, |postings|);
    assert Below(i + 1) == Below(i) + {i};
  }

  /** What other terms have is empty, so it need not be gathered. */
  lemma {:induction false} GatherAbsent(postings: seq<Cursor>, doc: nat, terms: set<nat>, n: nat)
    requires AllValid(postings) && n <= |postings|
    requires forall i :: 0 <= i < n && i !in terms ==> postings[i].In(doc) == []
    ensures Gathered(postings, doc, terms, n) == Gathered(postings, doc, Below(|postings|), n)
  {
    if n > 0 {
      GatherAbsent(postings, doc, terms, n - 1);
    }
  }

  lemma {:induction false} GatherSame(a: seq<Cursor>, b: seq<Cursor>, doc: nat, terms: set<nat>, n: nat)
    requires AllValid(a) && AllValid(b) && SameLists(a, b) && n <= |a|
    ensures Gathered(a, doc, terms, n) == Gathered(b, doc, terms, n)
  {
    if n > 0 {
      GatherSame(a, b, doc, terms, n - 1);
    }
  }

  lemma {:induction false} GatherNone(postings: seq<Cursor>, doc: nat, n: nat)
    requires AllValid(postings) && n <= |postings|
    ensures Gathered(postings, doc, {}, n) == multiset{}
  {
    if n > 0 {
      GatherNone(postings, doc, n - 1);
    }
  }

  /** Every cursor stands in exactly one place: the heap, under its document; `onDoc`, when it
      stands on the last document read; or nowhere, when it is exhausted. */
  ghost predicate Partitioned(postings: seq<Cursor>, heap: set<HeapEntry>, onDoc: seq<nat>, last: nat) {
    && (forall e :: e in heap ==> e.1 < |postings| && postings[e.1].Doc() == e.0 && e.0 != TERMINATED && e.1 !in onDoc)
    && (forall i :: i in onDoc ==> i < |postings| && postings[i].Doc() == last)
    && Distinct(onDoc)
    && (forall i ::
         0 <= i < |postings| && postings[i].Doc() != TERMINATED ==> i in onDoc || (postings[i].Doc(), i) in heap)
  }

  class WordPositions {
    var postings: seq<Cursor>
    /** The cursors past the last document asked for, by where they stand. */
    var heap: set<HeapEntry>
    /** Matches from the last document stay outside the heap. */
    var onDoc: seq<nat>
    /** The document asked for last. */
    ghost var last: nat

    ghost predicate Valid()
      reads this
    {
      && AllValid(postings)
      && (forall i :: 0 <= i < |postings| ==> postings[i].NotPast(last))
      && (|postings| > LINEAR_POSTINGS_LIMIT ==> last < TERMINATED && Partitioned(postings, heap, onDoc, last))
    }

    constructor (postings: seq<Cursor>)
      requires AllValid(postings) && forall i :: 0 <= i < |postings| ==> postings[i].at == 0
      ensures Valid() && this.postings == postings && last == 0
    {
      this.postings := postings;
      heap := if |postings| <= LINEAR_POSTINGS_LIMIT then {}
              else set i | 0 <= i < |postings| && postings[i].Doc() != TERMINATED :: (postings[i].Doc(), i);
      onDoc := [];
      last := 0;
    }

    /** `SortedPositions`, for documents asked for in ascending order. */
    method PositionsIn(doc: nat) returns (out: seq<nat>)
      requires Valid() && last <= doc < TERMINATED
      modifies this
      ensures Valid() && last == doc && SameLists(old(postings), postings)
      ensures out == SortedPositions(postings, doc)
      ensures Sorted(out) && multiset(out) == PositionsOf(postings, doc)
    {
      AllNotPast(postings, last, doc);
      ghost var before := postings;
      if |postings| <= LINEAR_POSTINGS_LIMIT {
        postings, out := ReadLinear(postings, doc);
      } else if |onDoc| * 2 >= |postings| {
        postings, heap, onDoc, out := ReadDense(postings, doc);
        SweptAll(postings, heap, onDoc, doc);
      } else {
        postings, heap, onDoc, out := ReadSparse(postings, heap, onDoc, last, doc);
      }
      last := doc;
      SortNatsSorts(out);
      out := SortNats(out);
      ReadIsSorted(before, postings, doc, out);
    }
  }

  lemma ReadIsSorted(before: seq<Cursor>, after: seq<Cursor>, doc: nat, out: seq<nat>)
    requires AllValid(before) && AllValid(after) && SameLists(before, after)
    requires Sorted(out) && multiset(out) == PositionsOf(before, doc)
    ensures out == SortedPositions(after, doc) && multiset(out) == PositionsOf(after, doc)
  {
    GatherSame(before, after, doc, Below(|before|), |before|);
    PositionsSorted(after, doc);
    SortedUnique(out, SortedPositions(after, doc));
  }

  lemma AllNotPast(postings: seq<Cursor>, doc: nat, later: nat)
    requires (forall i :: 0 <= i < |postings| ==> postings[i].NotPast(doc)) && doc <= later
    ensures forall i :: 0 <= i < |postings| ==> postings[i].NotPast(later)
  {
    forall i | 0 <= i < |postings| ensures postings[i].NotPast(later) {
      NotPastLater(postings[i], doc, later);
    }
  }

  /** No cursor has passed `doc`. */
  ghost predicate Ready(postings: seq<Cursor>, doc: nat) {
    AllValid(postings) && forall i :: 0 <= i < |postings| ==> postings[i].NotPast(doc)
  }

  /** Moves a cursor up to `doc`, and reads its positions there. */
  method ReadAt(cursor: Cursor, doc: nat) returns (moved: Cursor, piece: seq<nat>)
    requires cursor.Valid() && cursor.NotPast(doc) && doc < TERMINATED
    ensures moved.Valid() && moved.NotPast(doc) && moved.SameList(cursor)
    ensures moved.Doc() >= doc && piece == cursor.In(doc) == moved.In(doc)
    ensures moved.Doc() != doc ==> piece == []
  {
    SeekFinds(cursor, doc);
    moved := if cursor.Doc() < doc then cursor.Seek(doc) else cursor;
    InWhereStanding(moved, doc);
    piece := if moved.Doc() == doc then moved.Here() else [];
  }

  /** Tiny term sets: every cursor is read directly. */
  method ReadLinear(postings: seq<Cursor>, doc: nat) returns (moved: seq<Cursor>, out: seq<nat>)
    requires Ready(postings, doc) && doc < TERMINATED
    ensures Ready(moved, doc) && SameLists(postings, moved)
    ensures multiset(out) == PositionsOf(postings, doc)
  {
    moved, out := postings, [];
    GatherNone(postings, doc, |postings|);
    for i := 0 to |postings|
      invariant Ready(moved, doc) && SameLists(postings, moved)
      invariant multiset(out) == Gathered(postings, doc, Below(i), |postings|)
    {
      moved, out := ReadNext(postings, moved, doc, i, out);
    }
  }

  method ReadNext(ghost postings: seq<Cursor>, before: seq<Cursor>, doc: nat, i: nat, out: seq<nat>)
    returns (moved: seq<Cursor>, out': seq<nat>)
    requires AllValid(postings) && SameLists(postings, before) && Ready(before, doc)
    requires doc < TERMINATED && i < |postings|
    requires multiset(out) == Gathered(postings, doc, Below(i), |postings|)
    ensures Ready(moved, doc) && SameLists(postings, moved)
    ensures multiset(out') == Gathered(postings, doc, Below(i + 1), |postings|)
  {
    var cursor, piece := ReadAt(before[i], doc);
    assert before[i].SameList(postings[i]);
    GatherNext(postings, doc, i, out, piece);
    moved := before[i := cursor];
    out' := out + piece;
  }

  lemma SweptAll(postings: seq<Cursor>, heap: set<HeapEntry>, onDoc: seq<nat>, doc: nat)
    requires PlacedBelow(postings, heap, onDoc, doc, |postings|)
    ensures Partitioned(postings, heap, onDoc, doc)
  {
  }

  /** Dense candidates: one sweep over the cursors, which rebuilds the heap. */
  method ReadDense(postings: seq<Cursor>, doc: nat)
    returns (moved: seq<Cursor>, heap: set<HeapEntry>, onDoc: seq<nat>, out: seq<nat>)
    requires Ready(postings, doc) && doc < TERMINATED
    ensures Swept(postings, moved, heap, onDoc, doc, |postings|, out)
  {
    moved, heap, onDoc, out := postings, {}, [], [];
    SweepStarts(postings, doc);
    for i := 0 to |postings|
      invariant Swept(postings, moved, heap, onDoc, doc, i, out)
    {
      moved, heap, onDoc, out := SweepOne(postings, moved, heap, onDoc, doc, i, out);
    }
  }

  /** The cursors below `i` have been read and partitioned. */
  ghost predicate Swept(postings: seq<Cursor>, moved: seq<Cursor>, heap: set<HeapEntry>, onDoc: seq<nat>, doc: nat,
                        i: nat, out: seq<nat>)
    requires AllValid(postings)
  {
    && Ready(moved, doc) && SameLists(postings, moved)
    && i <= |postings| && PlacedBelow(moved, heap, onDoc, doc, i)
    && multiset(out) == Gathered(postings, doc, Below(i), |postings|)
  }

  lemma SweepStarts(postings: seq<Cursor>, doc: nat)
    requires Ready(postings, doc)
    ensures Swept(postings, postings, {}, [], doc, 0, [])
  {
    GatherNone(postings, doc, |postings|);
  }

  method SweepOne(ghost postings: seq<Cursor>, before: seq<Cursor>, heap: set<HeapEntry>, onDoc: seq<nat>, doc: nat,
                  i: nat, out: seq<nat>)
    returns (moved: seq<Cursor>, heap': set<HeapEntry>, onDoc': seq<nat>, out': seq<nat>)
    requires AllValid(postings) && doc < TERMINATED && i < |postings|
    requires Swept(postings, before, heap, onDoc, doc, i, out)
    ensures Swept(postings, moved, heap', onDoc', doc, i + 1, out')
  {
    var cursor, piece := ReadAt(before[i], doc);
    PlaceNext(before, heap, onDoc, doc, i, cursor);
    assert before[i].SameList(postings[i]);
    GatherNext(postings, doc, i, out, piece);
    moved := before[i := cursor];
    heap' := Reseated(heap, doc, cursor.Doc(), i);
    onDoc' := Kept(onDoc, doc, cursor.Doc(), i);
    out' := out + piece;
  }

  /** The cursors below `n` are partitioned. */
  ghost predicate PlacedBelow(postings: seq<Cursor>, heap: set<HeapEntry>, onDoc: seq<nat>, doc: nat, n: nat)
    requires n <= |postings|
  {
    && (forall e :: e in heap ==> e.1 < n && postings[e.1].Doc() == e.0 && e.0 != TERMINATED && e.1 !in onDoc)
    && (forall i :: i in onDoc ==> i < n && postings[i].Doc() == doc)
    && Distinct(onDoc)
    && (forall i :: 0 <= i < n && postings[i].Doc() != TERMINATED ==> i in onDoc || (postings[i].Doc(), i) in heap)
  }

  /** Midway: `kept` stand on `doc`, `waiting` are still to be moved, `hole` is in hand. */
  ghost predicate Midway(postings: seq<Cursor>, heap: set<HeapEntry>, kept: seq<nat>, waiting: seq<nat>, doc: nat,
                         hole: int)
  {
    && (forall e :: e in heap ==> e.1 < |postings| && postings[e.1].Doc() == e.0 && e.0 != TERMINATED)
    && (forall e :: e in heap ==> e.1 !in kept && e.1 !in waiting && e.1 != hole)
    && (forall i :: i in kept ==> i < |postings| && postings[i].Doc() == doc && i !in waiting && i != hole)
    && (forall i :: i in waiting ==> i < |postings| && i != hole)
    && Distinct(kept) && Distinct(waiting)
    && (forall i :: 0 <= i < |postings| && postings[i].Doc() != TERMINATED ==>
          i in kept || i in waiting || i == hole || (postings[i].Doc(), i) in heap)
  }

  function Reseated(heap: set<HeapEntry>, doc: nat, at: nat, i: nat): set<HeapEntry> {
    if at != doc && at != TERMINATED then heap + {(at, i)} else heap
  }

  function Kept(kept: seq<nat>, doc: nat, at: nat, i: nat): seq<nat> {
    if at == doc then kept + [i] else kept
  }

  lemma Reseat(postings: seq<Cursor>, heap: set<HeapEntry>, kept: seq<nat>, waiting: seq<nat>, doc: nat, i: nat,
               moved: Cursor)
    requires Midway(postings, heap, kept, waiting, doc, i) && i < |postings|
    ensures Midway(postings[i := moved], Reseated(heap, doc, moved.Doc(), i), Kept(kept, doc, moved.Doc(), i), waiting,
                   doc, -1)
  {
    var after := postings[i := moved];
    var heap', kept' := Reseated(heap, doc, moved.Doc(), i), Kept(kept, doc, moved.Doc(), i);
    forall e | e in heap'
      ensures e.1 < |after| && after[e.1].Doc() == e.0 && e.0 != TERMINATED && e.1 !in kept' && e.1 !in waiting
    {
      assert e in heap || e == (moved.Doc(), i);
    }
    forall j | j in kept' ensures j < |after| && after[j].Doc() == doc && j !in waiting {
      assert j in kept || j == i;
    }
    forall j | 0 <= j < |after| && after[j].Doc() != TERMINATED
      ensures j in kept' || j in waiting || (after[j].Doc(), j) in heap'
    {
      if j == i && moved.Doc() == doc {
        assert kept'[|kept|] == i;
      } else if j in kept {
        assert j in kept';
      }
    }
    assert Distinct(kept') by {
      forall a, b | 0 <= a < b < |kept'| ensures kept'[a] != kept'[b] {
        assert a < |kept| && kept[a] in kept;
      }
    }
  }

  lemma TakeWaiting(postings: seq<Cursor>, heap: set<HeapEntry>, kept: seq<nat>, waiting: seq<nat>, doc: nat)
    requires Midway(postings, heap, kept, waiting, doc, -1) && waiting != []
    ensures waiting[0] < |postings| && Midway(postings, heap, kept, waiting[1..], doc, waiting[0])
  {
    assert waiting[0] in waiting;
    assert forall i :: i in waiting <==> i == waiting[0] || i in waiting[1..];
  }

  lemma TakeTop(postings: seq<Cursor>, heap: set<HeapEntry>, kept: seq<nat>, doc: nat, top: HeapEntry)
    requires Midway(postings, heap, kept, [], doc, -1) && top in heap
    ensures top.1 < |postings| && Midway(postings, heap - {top}, kept, [], doc, top.1)
  {
  }

  lemma PlaceNext(postings: seq<Cursor>, heap: set<HeapEntry>, onDoc: seq<nat>, doc: nat, i: nat, moved: Cursor)
    requires i < |postings| && PlacedBelow(postings, heap, onDoc, doc, i)
    ensures PlacedBelow(postings[i := moved], Reseated(heap, doc, moved.Doc(), i), Kept(onDoc, doc, moved.Doc(), i),
                        doc, i + 1)
  {
    assert i !in onDoc;
  }

  function Elements(s: seq<nat>): set<nat> {
    set i | i in s
  }

  /** What has been read so far: the positions of the cursors kept on `doc`. */
  ghost predicate HasRead(postings: seq<Cursor>, doc: nat, kept: seq<nat>, out: seq<nat>)
    requires AllValid(postings)
  {
    multiset(out) == Gathered(postings, doc, Elements(kept), |postings|)
  }

  /** Sparse candidates: the cursors on the last document are moved first, then those whose heap
      entry is not past `doc`; the rest are never touched. */
  method ReadSparse(postings: seq<Cursor>, heap: set<HeapEntry>, onDoc: seq<nat>, ghost last: nat, doc: nat)
    returns (moved: seq<Cursor>, heap': set<HeapEntry>, kept: seq<nat>, out: seq<nat>)
    requires Ready(postings, doc) && last <= doc < TERMINATED
    requires Partitioned(postings, heap, onDoc, last)
    ensures Ready(moved, doc) && SameLists(postings, moved)
    ensures Partitioned(moved, heap', kept, doc)
    ensures multiset(out) == PositionsOf(postings, doc)
  {
    moved, heap', kept, out := RetainOnDoc(postings, heap, onDoc, last, doc);
    moved, heap', kept, out := DrainHeap(moved, heap', kept, doc, out);
    forall i | 0 <= i < |moved| && i !in Elements(kept) ensures moved[i].In(doc) == [] {
      assert moved[i].Doc() == TERMINATED || (moved[i].Doc(), i) in heap';
      InWhereStanding(moved[i], doc);
    }
    GatherAbsent(moved, doc, Elements(kept), |moved|);
    GatherSame(postings, moved, doc, Below(|moved|), |moved|);
  }

  /** One cursor is moved to `doc` and put where it belongs. */
  method MoveOne(postings: seq<Cursor>, heap: set<HeapEntry>, kept: seq<nat>, ghost waiting: seq<nat>, doc: nat, i: nat,
                 out: seq<nat>)
    returns (moved: seq<Cursor>, heap': set<HeapEntry>, kept': seq<nat>, out': seq<nat>)
    requires Ready(postings, doc) && doc < TERMINATED && i < |postings|
    requires Midway(postings, heap, kept, waiting, doc, i)
    requires HasRead(postings, doc, kept, out)
    ensures Ready(moved, doc) && SameLists(postings, moved)
    ensures moved == postings[i := moved[i]] && moved[i].Doc() >= doc
    ensures heap' == Reseated(heap, doc, moved[i].Doc(), i)
    ensures Midway(moved, heap', kept', waiting, doc, -1)
    ensures HasRead(moved, doc, kept', out')
  {
    var cursor, piece := ReadAt(postings[i], doc);
    Reseat(postings, heap, kept, waiting, doc, i, cursor);
    moved := postings[i := cursor];
    heap' := Reseated(heap, doc, cursor.Doc(), i);
    kept' := Kept(kept, doc, cursor.Doc(), i);
    out' := out + piece;
    GatherSame(postings, moved, doc, Elements(kept), |postings|);
    if cursor.Doc() == doc {
      GatherOne(moved, doc, Elements(kept), i, |postings|);
      assert Elements(kept') == Elements(kept) + {i};
    }
  }

  method RetainOnDoc(postings: seq<Cursor>, heap: set<HeapEntry>, onDoc: seq<nat>, ghost last: nat, doc: nat)
    returns (moved: seq<Cursor>, heap': set<HeapEntry>, kept: seq<nat>, out: seq<nat>)
    requires Ready(postings, doc) && last <= doc < TERMINATED
    requires Partitioned(postings, heap, onDoc, last)
    ensures Ready(moved, doc) && SameLists(postings, moved)
    ensures Midway(moved, heap', kept, [], doc, -1)
    ensures HasRead(moved, doc, kept, out)
  {
    moved, heap', kept, out := postings, heap, [], [];
    assert Elements([]) == {};
    GatherNone(postings, doc, |postings|);
    for j := 0 to |onDoc|
      invariant Ready(moved, doc) && SameLists(postings, moved)
      invariant Midway(moved, heap', kept, onDoc[j..], doc, -1)
      invariant HasRead(moved, doc, kept, out)
    {
      var i := onDoc[j];
      TakeWaiting(moved, heap', kept, onDoc[j..], doc);
      assert onDoc[j..][1..] == onDoc[j + 1..];
      moved, heap', kept, out := MoveOne(moved, heap', kept, onDoc[j + 1..], doc, i, out);
    }
  }

  /** The heap entries not past `doc`. */
  ghost function Due(heap: set<HeapEntry>, doc: nat): set<HeapEntry> {
    set e | e in heap && e.0 <= doc
  }

  method MoveTop(postings: seq<Cursor>, heap: set<HeapEntry>, kept: seq<nat>, doc: nat, top: HeapEntry, out: seq<nat>)
    returns (moved: seq<Cursor>, heap': set<HeapEntry>, kept': seq<nat>, out': seq<nat>)
    requires Ready(postings, doc) && doc < TERMINATED
    requires Midway(postings, heap, kept, [], doc, -1) && top in heap && top.0 <= doc
    requires HasRead(postings, doc, kept, out)
    ensures Ready(moved, doc) && SameLists(postings, moved)
    ensures Midway(moved, heap', kept', [], doc, -1)
    ensures HasRead(moved, doc, kept', out')
    ensures |Due(heap', doc)| < |Due(heap, doc)|
  {
    TakeTop(postings, heap, kept, doc, top);
    moved, heap', kept', out' := MoveOne(postings, heap - {top}, kept, [], doc, top.1, out);
    assert Due(heap', doc) == Due(heap, doc) - {top};
  }

  method DrainHeap(postings: seq<Cursor>, heap: set<HeapEntry>, kept: seq<nat>, doc: nat, out: seq<nat>)
    returns (moved: seq<Cursor>, heap': set<HeapEntry>, kept': seq<nat>, out': seq<nat>)
    requires Ready(postings, doc) && doc < TERMINATED
    requires Midway(postings, heap, kept, [], doc, -1)
    requires HasRead(postings, doc, kept, out)
    ensures Ready(moved, doc) && SameLists(postings, moved)
    ensures Partitioned(moved, heap', kept', doc)
    ensures forall e :: e in heap' ==> e.0 > doc
    ensures HasRead(moved, doc, kept', out')
  {
    moved, heap', kept', out' := postings, heap, kept, out;
    while heap' != {}
      invariant Ready(moved, doc) && SameLists(postings, moved)
      invariant Midway(moved, heap', kept', [], doc, -1)
      invariant HasRead(moved, doc, kept', out')
      decreases |Due(heap', doc)|
    {
      var top := Peek(heap', Before);
      if top.0 > doc {
        break;
      }
      moved, heap', kept', out' := MoveTop(moved, heap', kept', doc, top, out');
    }
    Drained(moved, heap', kept', doc);
  }

  lemma Drained(postings: seq<Cursor>, heap: set<HeapEntry>, kept: seq<nat>, doc: nat)
    requires Midway(postings, heap, kept, [], doc, -1)
    ensures Partitioned(postings, heap, kept, doc)
  {
  }
}
