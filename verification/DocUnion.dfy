/** The documents of several postings lists, merged, and their intersection with a selection. */
module DocUnions {
  import opened Prelude
  import opened Postings

  /** `doc` is still ahead of some cursor. */
  ghost predicate Pending(postings: seq<Cursor>, doc: nat) {
    exists i :: 0 <= i < |postings| && IsAhead(postings[i], doc)
  }

  ghost predicate IsAhead(cursor: Cursor, doc: nat) {
    exists i :: cursor.at <= i < |cursor.docs| && cursor.docs[i] == doc
  }

  /** The heap holds every cursor that is not exhausted, under the document it stands on. */
  ghost predicate Heaped(postings: seq<Cursor>, heap: set<HeapEntry>) {
    && (forall i :: 0 <= i < |postings| ==> postings[i].Valid())
    && (forall e :: e in heap ==> e.1 < |postings| && postings[e.1].Doc() == e.0 != TERMINATED)
    && (forall i :: 0 <= i < |postings| && postings[i].Doc() != TERMINATED ==> (postings[i].Doc(), i) in heap)
  }

  function Moved(heap: set<HeapEntry>, top: HeapEntry, at: nat): set<HeapEntry> {
    heap - {top} + if at != TERMINATED then {(at, top.1)} else {}
  }

  lemma MoveKeepsHeap(postings: seq<Cursor>, heap: set<HeapEntry>, top: HeapEntry, moved: Cursor)
    requires Heaped(postings, heap) && top in heap && moved.Valid()
    ensures top.1 < |postings| && Heaped(postings[top.1 := moved], Moved(heap, top, moved.Doc()))
  {
    var postings' := postings[top.1 := moved];
    forall e | e in Moved(heap, top, moved.Doc())
      ensures e.1 < |postings| && postings'[e.1].Doc() == e.0 != TERMINATED
    {
    }
  }

  /** Every document ahead is at or after the top of the heap. */
  lemma NothingBeforeTop(postings: seq<Cursor>, heap: set<HeapEntry>, top: HeapEntry, doc: nat)
    requires Heaped(postings, heap) && forall e :: e in heap ==> Before(top, e)
    requires Pending(postings, doc)
    ensures top.0 <= doc
  {
    var i :| 0 <= i < |postings| && IsAhead(postings[i], doc);
    AheadIsLater(postings[i], doc);
    assert (postings[i].Doc(), i) in heap;
  }

  lemma NonePendingAt(postings: seq<Cursor>, heap: set<HeapEntry>, doc: nat)
    requires Heaped(postings, heap) && forall e :: e in heap ==> doc < e.0
    ensures !Pending(postings, doc)
  {
    forall i | 0 <= i < |postings| ensures !IsAhead(postings[i], doc) {
      if IsAhead(postings[i], doc) {
        AheadIsLater(postings[i], doc);
      }
    }
  }

  lemma AheadIsLater(cursor: Cursor, doc: nat)
    requires cursor.Valid() && IsAhead(cursor, doc)
    ensures cursor.Doc() <= doc < TERMINATED
  {
  }

  lemma SeekKeepsAhead(cursor: Cursor, target: nat)
    requires cursor.Valid()
    ensures cursor.Seek(target).Valid() && cursor.Seek(target).Doc() >= Min(target, TERMINATED)
    ensures forall d: nat :: IsAhead(cursor.Seek(target), d) <==> IsAhead(cursor, d) && d >= target
  {
    SeekStops(cursor, target);
  }

  lemma {:induction false} SeekStops(cursor: Cursor, target: nat)
    requires cursor.Valid()
    ensures var found := cursor.Seek(target);
            && found.docs == cursor.docs && found.positions == cursor.positions
            && cursor.at <= found.at <= |cursor.docs|
            && (forall i :: cursor.at <= i < found.at ==> cursor.docs[i] < target)
            && (found.at < |cursor.docs| ==> cursor.docs[found.at] >= target)
    decreases |cursor.docs| - cursor.at
  {
    if cursor.at < |cursor.docs| && cursor.docs[cursor.at] < target {
      SeekStops(cursor.(at := cursor.at + 1), target);
    }
  }

  lemma AdvanceDropsOne(cursor: Cursor)
    requires cursor.Valid() && cursor.Doc() != TERMINATED
    ensures cursor.Advance().Valid()
    ensures forall d: nat :: IsAhead(cursor.Advance(), d) <==> IsAhead(cursor, d) && d != cursor.Doc()
  {
    forall d: nat ensures IsAhead(cursor.Advance(), d) <==> IsAhead(cursor, d) && d != cursor.Doc() {
      if IsAhead(cursor, d) && d != cursor.Doc() {
        var i :| cursor.at <= i < |cursor.docs| && cursor.docs[i] == d;
        assert cursor.Advance().docs[i] == d;
      }
    }
  }

  /** Moving one cursor drops the documents `drops` picks from it, and nothing else. */
  lemma PendingAfter(postings: seq<Cursor>, i: nat, moved: Cursor, d: nat)
    requires i < |postings|
    ensures Pending(postings[i := moved], d)
        <==> IsAhead(moved, d) || exists j :: 0 <= j < |postings| && j != i && IsAhead(postings[j], d)
    ensures Pending(postings, d)
        <==> IsAhead(postings[i], d) || exists j :: 0 <= j < |postings| && j != i && IsAhead(postings[j], d)
  {
    var postings' := postings[i := moved];
    if Pending(postings', d) {
      var j :| 0 <= j < |postings'| && IsAhead(postings'[j], d);
      assert j != i ==> IsAhead(postings[j], d);
    }
    if j :| 0 <= j < |postings| && j != i && IsAhead(postings[j], d) {
      assert IsAhead(postings'[j], d);
    }
    if IsAhead(moved, d) {
      assert IsAhead(postings'[i], d);
    }
  }

  /** The documents of several lists read together, each taken once and in order. */
  class DocUnion {
    var postings: seq<Cursor>
    var heap: set<HeapEntry>

    ghost predicate Valid()
      reads this
    {
      Heaped(postings, heap)
    }

    /** The documents still to come. */
    ghost predicate ToCome(doc: nat)
      reads this
    {
      Pending(postings, doc)
    }

    ghost function Left(): iset<nat>
      reads this
    {
      iset d: nat | ToCome(d)
    }

    constructor (postings: seq<Cursor>)
      requires forall i :: 0 <= i < |postings| ==> postings[i].Valid()
      ensures Valid() && this.postings == postings
    {
      this.postings := postings;
      heap := set i | 0 <= i < |postings| && postings[i].Doc() != TERMINATED :: (postings[i].Doc(), i);
    }

    /** The smallest document still to come, or `TERMINATED`. */
    method PeekDoc() returns (doc: nat)
      requires Valid()
      ensures doc == TERMINATED || ToCome(doc)
      ensures doc == TERMINATED <==> heap == {}
      ensures forall e :: e in heap ==> doc <= e.0
      ensures forall d: nat :: ToCome(d) ==> doc <= d < TERMINATED
    {
      if heap == {} {
        forall d: nat ensures !ToCome(d) {
          if ToCome(d) {
            var i :| 0 <= i < |postings| && IsAhead(postings[i], d);
            AheadIsLater(postings[i], d);
          }
        }
        return TERMINATED;
      }
      var top := Peek(heap, Before);
      assert IsAhead(postings[top.1], top.0);
      forall d: nat | ToCome(d) ensures top.0 <= d < TERMINATED {
        NothingBeforeTop(postings, heap, top, d);
        var i :| 0 <= i < |postings| && IsAhead(postings[i], d);
        AheadIsLater(postings[i], d);
      }
      doc := top.0;
    }

    /** Skips every document before `target`; the smallest one left is returned. */
    method Seek(target: nat) returns (doc: nat)
      requires Valid()
      modifies this
      ensures Valid()
      ensures forall d: nat :: ToCome(d) <==> old(ToCome(d)) && d >= target
      ensures doc == TERMINATED || ToCome(doc)
      ensures forall d: nat :: ToCome(d) ==> doc <= d < TERMINATED
    {
      while heap != {}
        invariant Valid()
        invariant forall d: nat :: d >= target ==> (ToCome(d) <==> old(ToCome(d)))
        invariant forall d: nat :: ToCome(d) ==> old(ToCome(d))
        decreases |Due(heap, (at: nat) => at < target)|
      {
        var top := Peek(heap, Before);
        if top.0 >= target {
          break;
        }
        SeekTop(target, top);
      }
      doc := PeekDoc();
    }

    /** Seeks the cursor at the top of the heap. */
    method SeekTop(target: nat, top: HeapEntry)
      requires Valid() && top in heap && top.0 < target
      modifies this
      ensures Valid()
      ensures forall d: nat :: d >= target ==> (ToCome(d) <==> old(ToCome(d)))
      ensures forall d: nat :: ToCome(d) ==> old(ToCome(d))
      ensures |Due(heap, (at: nat) => at < target)| < |Due(old(heap), (at: nat) => at < target)|
    {
      ghost var before := postings;
      var moved := postings[top.1].Seek(target);
      SeekKeepsAhead(postings[top.1], target);
      MoveKeepsHeap(postings, heap, top, moved);
      forall d: nat
        ensures d >= target ==> (Pending(before[top.1 := moved], d) <==> Pending(before, d))
        ensures Pending(before[top.1 := moved], d) ==> Pending(before, d)
      {
        PendingAfter(before, top.1, moved, d);
      }
      postings := postings[top.1 := moved];
      heap := Moved(heap, top, moved.Doc());
      FewerDue(old(heap), top, moved.Doc(), (at: nat) => at < target);
    }

    /** The next document of the union; each comes once. */
    method Next() returns (next: Option<nat>)
      requires Valid()
      modifies this
      ensures Valid()
      ensures next.None? ==> forall d: nat :: !old(ToCome(d)) && !ToCome(d)
      ensures next.Some? ==>
                && old(ToCome(next.value))
                && (forall d: nat :: old(ToCome(d)) ==> next.value <= d < TERMINATED)
                && (forall d: nat :: ToCome(d) <==> old(ToCome(d)) && d != next.value)
    {
      var doc := PeekDoc();
      if heap == {} {
        return None;
      }
      while heap != {}
        invariant Valid()
        invariant forall e :: e in heap ==> doc <= e.0
        invariant forall d: nat :: d != doc ==> (ToCome(d) <==> old(ToCome(d)))
        invariant forall d: nat :: ToCome(d) ==> old(ToCome(d))
        decreases |Due(heap, (at: nat) => at == doc)|
      {
        var top := Peek(heap, Before);
        if top.0 != doc {
          break;
        }
        AdvanceTop(top);
      }
      NonePendingAt(postings, heap, doc);
      next := Some(doc);
    }

    method AdvanceTop(top: HeapEntry)
      requires Valid() && top in heap
      modifies this
      ensures Valid()
      ensures forall d: nat :: d != top.0 ==> (ToCome(d) <==> old(ToCome(d)))
      ensures forall d: nat :: ToCome(d) ==> old(ToCome(d))
      ensures (forall e :: e in old(heap) ==> top.0 <= e.0) ==> forall e :: e in heap ==> top.0 <= e.0
      ensures |Due(heap, (at: nat) => at == top.0)| < |Due(old(heap), (at: nat) => at == top.0)|
    {
      ghost var before := postings;
      var moved := postings[top.1].Advance();
      AdvanceDropsOne(postings[top.1]);
      MoveKeepsHeap(postings, heap, top, moved);
      forall d: nat
        ensures d != top.0 ==> (Pending(before[top.1 := moved], d) <==> Pending(before, d))
        ensures Pending(before[top.1 := moved], d) ==> Pending(before, d)
      {
        PendingAfter(before, top.1, moved, d);
      }
      postings := postings[top.1 := moved];
      heap := Moved(heap, top, moved.Doc());
      FewerDue(old(heap), top, moved.Doc(), (at: nat) => at == top.0);
    }
  }

  /** The heap entries whose document is due to be moved. */
  ghost function Due(heap: set<HeapEntry>, isDue: nat -> bool): set<HeapEntry> {
    set e | e in heap && isDue(e.0)
  }

  lemma FewerDue(heap: set<HeapEntry>, top: HeapEntry, at: nat, isDue: nat -> bool)
    requires top in heap && isDue(top.0) && (at == TERMINATED || !isDue(at))
    ensures |Due(Moved(heap, top, at), isDue)| < |Due(heap, isDue)|
  {
    assert Due(Moved(heap, top, at), isDue) == Due(heap, isDue) - {top};
  }

  // ── Intersection with a selection ────────────────────────────────────────────

  /** `doc` is still ahead of a selection's reader. */
  ghost predicate Selects(selected: DocList, doc: nat) {
    exists i :: selected.at <= i < |selected.docs| && selected.docs[i] == doc
  }

  lemma SelectedAdvance(selected: DocList)
    requires selected.Valid() && selected.Doc() != TERMINATED
    ensures forall d: nat :: Selects(selected.Advance(), d) <==> Selects(selected, d) && d != selected.Doc()
  {
    forall d: nat ensures Selects(selected.Advance(), d) <==> Selects(selected, d) && d != selected.Doc() {
      if Selects(selected, d) && d != selected.Doc() {
        var i :| selected.at <= i < |selected.docs| && selected.docs[i] == d;
        assert selected.Advance().docs[i] == d;
      }
    }
  }

  lemma SelectedSeek(selected: DocList, target: nat)
    requires selected.Valid()
    ensures selected.Seek(target).Valid()
    ensures forall d: nat :: d >= target ==> (Selects(selected.Seek(target), d) <==> Selects(selected, d))
    ensures forall d: nat :: Selects(selected.Seek(target), d) ==> Selects(selected, d)
  {
    SeekSkipsOnlyBelow(selected, target);
    var found := selected.Seek(target);
    forall d: nat | d >= target && Selects(selected, d) ensures Selects(found, d) {
      var i :| selected.at <= i < |selected.docs| && selected.docs[i] == d;
      assert found.docs[i] == d;
    }
  }

  lemma SelectedFirst(selected: DocList, doc: nat)
    requires selected.Valid() && Selects(selected, doc)
    ensures selected.Doc() <= doc < TERMINATED
  {
  }

  /** What a selection and a union have in common from here on. */
  ghost function Common(selected: DocList, union: iset<nat>): iset<nat> {
    iset d: nat | Selects(selected, d) && d in union
  }

  lemma SeeksUnion(selected: DocList, before: iset<nat>, after: iset<nat>)
    requires selected.Valid() && forall d: nat :: d in after <==> d in before && d >= selected.Doc()
    ensures Common(selected, after) == Common(selected, before)
  {
    forall d: nat | Selects(selected, d) ensures d in after <==> d in before {
      SelectedFirst(selected, d);
    }
  }

  lemma SeeksSelection(selected: DocList, union: iset<nat>, candidate: nat)
    requires selected.Valid() && forall d :: d in union ==> candidate <= d
    requires selected.Doc() < candidate && selected.Doc() != TERMINATED
    ensures var found := selected.Seek(candidate);
            && found.Valid() && found.docs == selected.docs && found.at > selected.at
            && Common(found, union) == Common(selected, union)
  {
    SelectedSeek(selected, candidate);
    SeekSkipsOnlyBelow(selected, candidate);
  }

  lemma TakesBoth(selected: DocList, before: iset<nat>, after: iset<nat>)
    requires selected.Valid() && selected.Doc() != TERMINATED && selected.Doc() in before
    requires forall d :: d in before ==> selected.Doc() <= d
    requires forall d: nat :: d in after <==> d in before && d != selected.Doc()
    ensures selected.Doc() in Common(selected, before)
    ensures Common(selected.Advance(), after) == Common(selected, before) - iset{selected.Doc()}
  {
    SelectedAdvance(selected);
    assert selected.docs[selected.at] == selected.Doc();
  }

  /** The documents of the union that a selection holds too, by leapfrog. */
  class SelectedDocs {
    var selected: DocList
    const union: DocUnion

    ghost predicate Valid()
      reads this, union
    {
      selected.Valid() && union.Valid()
    }

    constructor (selected: DocList, union: DocUnion)
      requires selected.Valid() && union.Valid()
      ensures Valid() && this.selected == selected && this.union == union
    {
      this.selected := selected;
      this.union := union;
    }

    /** The documents still to come. */
    ghost function Left(): iset<nat>
      reads this, union
    {
      Common(selected, union.Left())
    }

    /** The next document of the intersection; `None` when none is left. */
    method Next() returns (next: Option<nat>)
      requires Valid()
      modifies this, union
      ensures Valid()
      ensures selected.docs == old(selected.docs)
      ensures next.None? ==> old(Left()) == iset{}
      ensures next.Some? ==>
                && next.value in old(Left()) && (forall d :: d in old(Left()) ==> next.value <= d)
                && Left() == old(Left()) - iset{next.value}
                && selected.at > old(selected.at)
    {
      while true
        invariant Valid() && selected.docs == old(selected.docs) && selected.at >= old(selected.at)
        invariant Left() == old(Left())
        decreases |selected.docs| - selected.at
      {
        var wanted := selected.Doc();
        if wanted == TERMINATED {
          return None;
        }
        ghost var before := union.Left();
        var candidate := union.Seek(wanted);
        SeeksUnion(selected, before, union.Left());
        if candidate == TERMINATED {
          return None;
        }
        if candidate == wanted {
          next := TakeBoth();
          return;
        }
        SeeksSelection(selected, union.Left(), candidate);
        selected := selected.Seek(candidate);
      }
    }

    /** Both stand on the same document: it is the next one. */
    method TakeBoth() returns (next: Option<nat>)
      requires Valid() && selected.Doc() in union.Left()
      requires forall d :: d in union.Left() ==> selected.Doc() <= d < TERMINATED
      modifies this, union
      ensures Valid() && selected == old(selected).Advance() && selected.at > old(selected.at)
      ensures next == Some(old(selected).Doc())
      ensures next.value in old(Left()) && (forall d :: d in old(Left()) ==> next.value <= d)
      ensures Left() == old(Left()) - iset{next.value}
    {
      ghost var doc := selected.Doc();
      ghost var before := union.Left();
      assert union.ToCome(doc);
      next := union.Next();
      assert next.Some? && next.value in before;
      forall d: nat ensures d in union.Left() <==> d in before && d != doc {
        assert union.ToCome(d) <==> old(union.ToCome(d)) && d != doc;
      }
      TakesBoth(selected, before, union.Left());
      selected := selected.Advance();
    }

    /** Iterating to the end yields the intersection, strictly ascending. */
    method Collect() returns (docs: seq<nat>)
      requires Valid()
      modifies this, union
      ensures StrictlySorted(docs)
      ensures (iset d | d in docs) == old(Left())
    {
      docs := [];
      ghost var all := Left();
      var next := Next();
      while next.Some?
        invariant Valid()
        invariant Collected(all, docs, next, Left())
        decreases next.Some?, |selected.docs| - selected.at
      {
        var doc := next.value;
        ghost var left := Left();
        next := Next();
        CollectOne(all, docs, doc, left, next, Left());
        docs := docs + [doc];
      }
    }
  }

  /** `docs` have been yielded, `next` is in hand, `left` are still to come. */
  ghost predicate Collected(all: iset<nat>, docs: seq<nat>, next: Option<nat>, left: iset<nat>) {
    && StrictlySorted(docs)
    && all == (iset d | d in docs) + (if next.Some? then iset{next.value} + left else iset{})
    && (next.Some? ==> forall d :: d in docs ==> d < next.value)
    && (next.Some? ==> forall d :: d in left ==> next.value < d)
  }

  lemma CollectOne(all: iset<nat>, docs: seq<nat>, doc: nat, left: iset<nat>, next: Option<nat>, left': iset<nat>)
    requires Collected(all, docs, Some(doc), left)
    requires next.None? ==> left == iset{}
    requires next.Some? ==>
               next.value in left && left' == left - iset{next.value} && forall d :: d in left ==> next.value <= d
    ensures Collected(all, docs + [doc], next, left')
  {
    assert forall i :: 0 <= i < |docs| ==> docs[i] in docs;
    assert (iset d | d in docs + [doc]) == (iset d | d in docs) + iset{doc};
  }
}
