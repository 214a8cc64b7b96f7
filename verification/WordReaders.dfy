/** The words of a query, each read from its own postings, one document after another. */
module WordReaders {
  import opened Prelude
  import opened Postings
  import opened WordPositions

  ghost predicate SmallPositions(postings: seq<Cursor>) {
    forall i, j, k :: 0 <= i < |postings| && 0 <= j < |postings[i].positions| && 0 <= k < |postings[i].positions[j]|
      ==> postings[i].positions[j][k] <= U32_MAX
  }

  lemma {:induction false} FlatSmall(postings: seq<Cursor>, doc: nat, n: nat)
    requires AllValid(postings) && SmallPositions(postings) && n <= |postings|
    ensures forall p :: p in Flat(postings, doc, n) ==> p <= U32_MAX
  {
    if n > 0 {
      FlatSmall(postings, doc, n - 1);
    }
  }

  lemma PositionsSmall(postings: seq<Cursor>, doc: nat)
    requires AllValid(postings) && SmallPositions(postings)
    ensures forall p :: p in SortedPositions(postings, doc) ==> p <= U32_MAX
  {
    FlatSmall(postings, doc, |postings|);
    var flat := Flat(postings, doc, |postings|);
    SortNatsSorts(flat);
    forall p | p in SortNats(flat) ensures p <= U32_MAX {
      assert p in multiset(SortNats(flat));
      assert p in flat;
    }
  }

  ghost predicate WellListed(postings: seq<Cursor>) {
    AllValid(postings) && SmallPositions(postings)
  }

  /** `reader` reads `postings`, and can still read `doc`. */
  ghost predicate Reads(reader: WordPositions, postings: seq<Cursor>, doc: nat)
    reads reader
  {
    reader.Valid() && reader.last <= doc && SameLists(reader.postings, postings)
  }

  /** What reading the lists at `doc` gives, one sequence a word. */
  ghost function WordsIn(lists: seq<seq<Cursor>>, doc: nat): seq<seq<nat>>
    requires forall w :: 0 <= w < |lists| ==> WellListed(lists[w])
  {
    seq(|lists|, w requires 0 <= w < |lists| && WellListed(lists[w]) => SortedPositions(lists[w], doc))
  }

  ghost predicate IsWord(positions: seq<nat>, postings: seq<Cursor>, doc: nat) {
    WellListed(postings) && positions == SortedPositions(postings, doc)
  }

  /** `WordsIn(lists, doc)`, word by word. */
  ghost predicate AreWords(all: seq<seq<nat>>, lists: seq<seq<Cursor>>, doc: nat) {
    && |all| == |lists|
    && forall w {:trigger IsWord(all[w], lists[w], doc)} :: 0 <= w < |lists| ==> IsWord(all[w], lists[w], doc)
  }

  lemma WordsInAreWords(lists: seq<seq<Cursor>>, doc: nat)
    requires forall w :: 0 <= w < |lists| ==> WellListed(lists[w])
    ensures AreWords(WordsIn(lists, doc), lists, doc)
  {
  }

  /** The readers can still read `doc`. */
  ghost predicate CanRead(readers: seq<WordPositions>, lists: seq<seq<Cursor>>, doc: nat)
    reads readers
  {
    && |readers| == |lists|
    && (forall v, w :: 0 <= v < w < |readers| ==> readers[v] != readers[w])
    && (forall w :: 0 <= w < |lists| ==> WellListed(lists[w]))
    && (forall w :: 0 <= w < |readers| ==> Reads(readers[w], lists[w], doc))
  }

  method ReadWord(readers: seq<WordPositions>, ghost lists: seq<seq<Cursor>>, w: nat, doc: nat,
                  ghost all: seq<seq<nat>>)
    returns (positions: seq<nat>)
    requires w < |readers| && CanRead(readers, lists, doc) && doc < TERMINATED && AreWords(all, lists, doc)
    modifies readers
    ensures CanRead(readers, lists, doc)
    ensures positions == all[w] && Sorted(positions)
  {
    assert IsWord(all[w], lists[w], doc);
    positions := readers[w].PositionsIn(doc);
    SameSortedPositions(readers[w].postings, lists[w], doc);
  }

  /** One reader per word, over its postings. */
  method OpenAll(lists: seq<seq<Cursor>>) returns (readers: seq<WordPositions>)
    requires forall w :: 0 <= w < |lists| ==> WellListed(lists[w])
    requires forall w, i :: 0 <= w < |lists| && 0 <= i < |lists[w]| ==> lists[w][i].at == 0
    ensures |readers| == |lists| && fresh(readers)
    ensures forall v, w :: 0 <= v < w < |readers| ==> readers[v] != readers[w]
    ensures forall w ::
              0 <= w < |readers| ==> readers[w].Valid() && readers[w].postings == lists[w] && readers[w].last == 0
  {
    readers := [];
    for w := 0 to |lists|
      invariant |readers| == w && fresh(readers)
      invariant forall v, w :: 0 <= v < w < |readers| ==> readers[v] != readers[w]
      invariant forall w ::
                  0 <= w < |readers| ==> readers[w].Valid() && readers[w].postings == lists[w] && readers[w].last == 0
    {
      var reader := new WordPositions(lists[w]);
      readers := readers + [reader];
    }
  }
}
