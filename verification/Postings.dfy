/** Forward-only postings cursors, and the standard library's sort and heap the readers use. */
module Postings {
  import opened Prelude

  /** Past every document. */
  const TERMINATED: nat := 0x7FFF_FFFF

  /** A postings list and where its reader stands: documents ascending, each with the term's
      positions in it. */
  datatype Cursor = Cursor(docs: seq<nat>, positions: seq<seq<nat>>, at: nat) {
    ghost predicate Valid() {
      && StrictlySorted(docs)
      && |positions| == |docs|
      && at <= |docs|
      && forall i :: 0 <= i < |docs| ==> docs[i] < TERMINATED
    }

    function Doc(): nat {
      if at < |docs| then docs[at] else TERMINATED
    }

    /** The first document at or after `target`, never going back. */
    function Seek(target: nat): Cursor
      decreases |docs| - at
    {
      if at >= |docs| || docs[at] >= target then this else this.(at := at + 1).Seek(target)
    }

    function Advance(): Cursor {
      if at < |docs| then this.(at := at + 1) else this
    }

    /** The positions of the document the cursor stands on. */
    function Here(): seq<nat>
      requires Valid() && Doc() != TERMINATED
    {
      positions[at]
    }

    /** Everything at or after `doc` is still ahead. */
    ghost predicate NotPast(doc: nat) {
      forall i :: 0 <= i < at && i < |docs| ==> docs[i] < doc
    }

    ghost predicate SameList(other: Cursor) {
      docs == other.docs && positions == other.positions
    }

    /** The term's positions in `doc`, wherever the cursor stands. */
    ghost function In(doc: nat): seq<nat>
      requires |positions| == |docs|
    {
      Lookup(docs, positions, doc)
    }
  }

  ghost function Lookup(docs: seq<nat>, positions: seq<seq<nat>>, doc: nat): seq<nat>
    requires |positions| == |docs|
  {
    if i :| 0 <= i < |docs| && docs[i] == doc then positions[i] else []
  }

  lemma {:induction false} SeekFinds(cursor: Cursor, target: nat)
    requires cursor.Valid() && cursor.NotPast(target)
    ensures var found := cursor.Seek(target);
            && found.Valid() && found.SameList(cursor)
            && found.Doc() >= Min(target, TERMINATED) && found.NotPast(target)
            && cursor.at <= found.at
    decreases |cursor.docs| - cursor.at
  {
    if cursor.at < |cursor.docs| && cursor.docs[cursor.at] < target {
      SeekFinds(cursor.(at := cursor.at + 1), target);
    }
  }

  /** A cursor that has not passed `doc` and stands at or after it knows whether `doc` is there. */
  lemma InWhereStanding(cursor: Cursor, doc: nat)
    requires cursor.Valid() && cursor.NotPast(doc) && doc < TERMINATED && cursor.Doc() >= doc
    ensures cursor.Doc() == doc ==> cursor.In(doc) == cursor.Here()
    ensures cursor.Doc() != doc ==> cursor.In(doc) == []
  {
  }

  lemma NotPastLater(cursor: Cursor, doc: nat, later: nat)
    requires cursor.NotPast(doc) && doc <= later
    ensures cursor.NotPast(later)
  {
  }

  // ── The standard library's sort and binary heap ──────────────────────────────

  function Inserted(s: seq<nat>, x: nat): seq<nat> {
    if s == [] || s[|s| - 1] <= x then s + [x]
    else Inserted(s[..|s| - 1], x) + [s[|s| - 1]]
  }

  lemma {:induction false} InsertedHolds(s: seq<nat>, x: nat)
    ensures multiset(Inserted(s, x)) == multiset(s) + multiset{x}
    ensures forall y :: y in Inserted(s, x) ==> y in s || y == x
  {
    if s != [] && s[|s| - 1] > x {
      InsertedHolds(s[..|s| - 1], x);
      assert s == s[..|s| - 1] + [s[|s| - 1]];
    }
  }

  lemma {:induction false} InsertedSorted(s: seq<nat>, x: nat)
    requires Sorted(s)
    ensures multiset(Inserted(s, x)) == multiset(s) + multiset{x}
    ensures Sorted(Inserted(s, x))
  {
    InsertedHolds(s, x);
    if s != [] && s[|s| - 1] > x {
      var front := s[..|s| - 1];
      var r := Inserted(front, x);
      InsertedSorted(front, x);
      InsertedHolds(front, x);
      forall i | 0 <= i < |r| ensures r[i] <= s[|s| - 1] {
        assert r[i] in r;
      }
    }
  }
  function SortNats(s: seq<nat>): seq<nat> {
    if s == [] then [] else Inserted(SortNats(s[..|s| - 1]), s[|s| - 1])
  }

  lemma {:induction false} SortNatsSorts(s: seq<nat>)
    ensures Sorted(SortNats(s)) && multiset(SortNats(s)) == multiset(s)
  {
    if s != [] {
      var front := s[..|s| - 1];
      assert s == front + [s[|s| - 1]];
      SortNatsSorts(front);
      InsertedSorted(SortNats(front), s[|s| - 1]);
    }
  }

  lemma LastIsGreatest(s: seq<nat>, x: nat)
    requires Sorted(s) && s != [] && x in multiset(s)
    ensures x <= s[|s| - 1]
  {
  }

  lemma DropLast(s: seq<nat>)
    requires s != []
    ensures multiset(s[..|s| - 1]) == multiset(s) - multiset{s[|s| - 1]}
    ensures s[|s| - 1] in multiset(s)
  {
    assert s == s[..|s| - 1] + [s[|s| - 1]];
  }

  lemma SameLast(a: seq<nat>, b: seq<nat>)
    requires Sorted(a) && Sorted(b) && multiset(a) == multiset(b) && a != []
    ensures b != [] && a[|a| - 1] == b[|b| - 1]
    ensures multiset(a[..|a| - 1]) == multiset(b[..|b| - 1])
  {
    assert |multiset(a)| == |multiset(b)|;
    DropLast(a);
    DropLast(b);
    LastIsGreatest(a, b[|b| - 1]);
    LastIsGreatest(b, a[|a| - 1]);
  }

  /** A sorted sequence is settled by its elements. */
  lemma {:induction false} SortedUnique(a: seq<nat>, b: seq<nat>)
    requires Sorted(a) && Sorted(b) && multiset(a) == multiset(b)
    ensures a == b
  {
    if a == [] {
      assert |multiset(b)| == 0;
    } else {
      SameLast(a, b);
      var front, front' := a[..|a| - 1], b[..|b| - 1];
      SortedUnique(front, front');
      assert a == front + [a[|a| - 1]];
      assert b == front' + [b[|b| - 1]];
    }
  }

  // ── Ascending documents ──────────────────────────────────────────────────────

  /** A document set read forward: a scorer's, or a materialized list. */
  datatype DocList = DocList(docs: seq<nat>, at: nat) {
    ghost predicate Valid() {
      StrictlySorted(docs) && at <= |docs| && forall i :: 0 <= i < |docs| ==> docs[i] < TERMINATED
    }

    function Doc(): nat {
      if at < |docs| then docs[at] else TERMINATED
    }

    function Advance(): DocList {
      if at < |docs| then this.(at := at + 1) else this
    }

    /** Past every document below `target`. */
    function Seek(target: nat): DocList
      decreases |docs| - at
    {
      if at < |docs| && docs[at] < target then this.(at := at + 1).Seek(target) else this
    }
  }

  lemma {:induction false} SeekSkipsOnlyBelow(list: DocList, target: nat)
    requires list.Valid()
    ensures var found := list.Seek(target);
            && found.Valid() && found.docs == list.docs && list.at <= found.at
            && (forall i :: list.at <= i < found.at ==> list.docs[i] < target)
            && found.Doc() >= Min(target, TERMINATED)
    decreases |list.docs| - list.at
  {
    if list.at < |list.docs| && list.docs[list.at] < target {
      SeekSkipsOnlyBelow(list.(at := list.at + 1), target);
    }
  }

  /** Heap entries: a document (or position) and the list it came from. */
  type HeapEntry = (nat, nat)

  predicate Before(a: HeapEntry, b: HeapEntry) {
    a.0 < b.0 || (a.0 == b.0 && a.1 <= b.1)
  }
}
