/** Sort keys: comparing two of them compares what a mapping says of the books, and then the lines. */
module OrderTables {
  import opened Prelude
  import opened BookNumbers

  /** The fields a mapping gives a book. */
  datatype Place = Place(catalogue: nat, generation: nat)

  datatype Kind = Catalogue | Generation

  /** Tables of numbers no greater than this are arrays. */
  const DENSE_NUMBERS: nat := 0x10_0000
  const ORDINALS: nat := U32_MAX + 1

  // ── The order that is asked for ──────────────────────────────────────────────

  /** What a book sorts by: no book first, then the mapped books, those not mapped, and those
      written since the tables were built; then its place, then its number. */
  datatype SortKey = SortKey(isBook: nat, group: nat, first: nat, second: nat, number: nat)

  predicate Less(a: SortKey, b: SortKey) {
    || a.isBook < b.isBook
    || (a.isBook == b.isBook && (a.group < b.group
    || (a.group == b.group && (a.first < b.first
    || (a.first == b.first && (a.second < b.second
    || (a.second == b.second && a.number < b.number)))))))
  }

  /** A numbered book and the place the mapping gives it. */
  type Numbered = (Option<Place>, nat)

  function KeyOf(kind: Kind, entry: Numbered): SortKey {
    var (place, number) := entry;
    SortKey(
      if number == 0 then 0 else 1,
      if place.Some? then 0 else 1,
      if place.None? then 0 else if kind.Catalogue? then place.value.catalogue else place.value.generation,
      if place.None? || kind.Catalogue? then 0 else place.value.catalogue,
      number)
  }

  function PlaceOf(paths: map<nat, Path>, places: map<Path, Place>, number: nat): Option<Place> {
    if number != 0 && number in paths && paths[number] in places then Some(places[paths[number]]) else None
  }

  predicate IsKnown(paths: map<nat, Path>, number: nat) {
    number == 0 || number in paths
  }

  /** The order of every number, whether or not the tables know it. */
  function OrderOf(paths: map<nat, Path>, places: map<Path, Place>, kind: Kind, number: nat): SortKey {
    if IsKnown(paths, number) then KeyOf(kind, (PlaceOf(paths, places, number), number))
    else SortKey(1, 2, 0, 0, number)
  }

  // ── Sorting ──────────────────────────────────────────────────────────────────

  ghost predicate InOrder(kind: Kind, entries: seq<Numbered>) {
    forall i, j :: 0 <= i < j < |entries| ==> Less(KeyOf(kind, entries[i]), KeyOf(kind, entries[j]))
  }

  ghost predicate DistinctNumbers(entries: seq<Numbered>) {
    forall i, j :: 0 <= i < j < |entries| ==> entries[i].1 != entries[j].1
  }

  function Inserted(kind: Kind, entries: seq<Numbered>, e: Numbered): seq<Numbered> {
    if entries == [] || Less(KeyOf(kind, entries[|entries| - 1]), KeyOf(kind, e)) then entries + [e]
    else Inserted(kind, entries[..|entries| - 1], e) + [entries[|entries| - 1]]
  }

  lemma {:induction false} InsertedMembers(kind: Kind, entries: seq<Numbered>, e: Numbered)
    ensures |Inserted(kind, entries, e)| == |entries| + 1
    ensures forall x :: x in Inserted(kind, entries, e) <==> x in entries || x == e
  {
    if entries != [] && !Less(KeyOf(kind, entries[|entries| - 1]), KeyOf(kind, e)) {
      assert entries == entries[..|entries| - 1] + [entries[|entries| - 1]];
      InsertedMembers(kind, entries[..|entries| - 1], e);
    }
  }

  lemma {:induction false} InsertedInOrder(kind: Kind, entries: seq<Numbered>, e: Numbered)
    requires InOrder(kind, entries) && forall x :: x in entries ==> x.1 != e.1
    ensures InOrder(kind, Inserted(kind, entries, e))
  {
    if entries == [] || Less(KeyOf(kind, entries[|entries| - 1]), KeyOf(kind, e)) {
      forall i | 0 <= i < |entries| ensures Less(KeyOf(kind, entries[i]), KeyOf(kind, e)) {
      }
    } else {
      var front, last := entries[..|entries| - 1], entries[|entries| - 1];
      assert last in entries && forall x :: x in front ==> x in entries;
      InsertedInOrder(kind, front, e);
      InsertedMembers(kind, front, e);
      var r := Inserted(kind, front, e);
      forall i | 0 <= i < |r| ensures Less(KeyOf(kind, r[i]), KeyOf(kind, last)) {
        assert r[i] in front || r[i] == e;
      }
    }
  }

  /** The standard library's sort by key. */
  function SortedBy(kind: Kind, entries: seq<Numbered>): seq<Numbered> {
    if entries == [] then [] else Inserted(kind, SortedBy(kind, entries[..|entries| - 1]), entries[|entries| - 1])
  }

  lemma {:induction false} SortedInOrder(kind: Kind, entries: seq<Numbered>)
    requires DistinctNumbers(entries)
    ensures InOrder(kind, SortedBy(kind, entries)) && |SortedBy(kind, entries)| == |entries|
    ensures forall x :: x in SortedBy(kind, entries) <==> x in entries
  {
    if entries != [] {
      var front, last := entries[..|entries| - 1], entries[|entries| - 1];
      SortedInOrder(kind, front);
      assert entries == front + [last];
      InsertedMembers(kind, SortedBy(kind, front), last);
      InsertedInOrder(kind, SortedBy(kind, front), last);
    }
  }

  // ── Rank tables ──────────────────────────────────────────────────────────────

  /** Ranks by number. An array marks the numbers it does not rank with the greatest 32-bit one. */
  datatype RankTable = Dense(ranks: seq<nat>) | Sparse(byNumber: map<nat, nat>)
  {
    function Found(number: nat): Option<nat> {
      match this
      case Dense(ranks) => if number < |ranks| && ranks[number] != U32_MAX then Some(ranks[number]) else None
      case Sparse(ranks) => if number in ranks then Some(ranks[number]) else None
    }

    /** Numbers not ranked come after those that are, and compare by themselves until they saturate. */
    function Rank(known: nat, number: nat): nat {
      if Found(number).Some? then Found(number).value else Min(known + number, U32_MAX)
    }
  }

  /** The table ranks each of `ranked` by its position, and nothing else. */
  ghost predicate Ranks(table: RankTable, ranked: seq<nat>) {
    && (forall i :: 0 <= i < |ranked| ==> table.Found(ranked[i]) == Some(i))
    && (forall number: nat :: number !in ranked ==> table.Found(number) == None)
  }

  /** Numbers the tables can rank below `u32::MAX`, each once. */
  ghost predicate Rankable(ranked: seq<nat>, max: nat) {
    && (forall i, j :: 0 <= i < j < |ranked| ==> ranked[i] != ranked[j])
    && (forall i :: 0 <= i < |ranked| ==> ranked[i] <= max) && |ranked| <= U32_MAX
  }

  /** Fills the table of `ranked`, as an array or as a map. */
  method RankTableOf(ranked: seq<nat>, dense: bool, max: nat) returns (table: RankTable, known: nat)
    requires Rankable(ranked, max)
    ensures Ranks(table, ranked) && known == |ranked|
    ensures table.Dense? <==> dense
  {
    known := |ranked|;
    if dense {
      var ranks := new nat[max + 1](_ => U32_MAX);
      for rank := 0 to |ranked|
        invariant forall i :: 0 <= i < rank ==> ranks[ranked[i]] == i
        invariant forall n :: 0 <= n <= max && n !in ranked[..rank] ==> ranks[n] == U32_MAX
      {
        assert ranked[..rank + 1] == ranked[..rank] + [ranked[rank]];
        ranks[ranked[rank]] := rank;
      }
      assert ranked[..|ranked|] == ranked;
      table := Dense(ranks[..]);
    } else {
      var ranks: map<nat, nat> := map[];
      for rank := 0 to |ranked|
        invariant forall i :: 0 <= i < rank ==> ranked[i] in ranks && ranks[ranked[i]] == i
        invariant forall n :: n in ranks ==> n in ranked[..rank]
      {
        assert ranked[..rank + 1] == ranked[..rank] + [ranked[rank]];
        ranks := ranks[ranked[rank] := rank];
      }
      assert ranked[..|ranked|] == ranked;
      table := Sparse(ranks);
    }
  }

  /** Array or map, a table of the same books gives every number the same rank. */
  lemma EveryTableRanksAlike(a: RankTable, b: RankTable, ranked: seq<nat>, known: nat, number: nat)
    requires Ranks(a, ranked) && Ranks(b, ranked)
    ensures a.Rank(known, number) == b.Rank(known, number)
  {
    if number in ranked {
      var i :| 0 <= i < |ranked| && ranked[i] == number;
      assert a.Found(ranked[i]) == b.Found(ranked[i]);
    }
  }

  /** The tables of one mapping. */
  datatype Tables = Tables(catalogue: RankTable, generation: RankTable, known: nat)
  {
    function Table(kind: Kind): RankTable {
      if kind.Catalogue? then catalogue else generation
    }

    /** Rank above, line below, in one number. */
    function Key(kind: Kind, id: nat): nat {
      Table(kind).Rank(known, BookNumberOf(id)) * ORDINALS + id % ORDINALS
    }
  }

  /** Just the numbers, without their places. */
  ghost predicate IsOrder(paths: map<nat, Path>, places: map<Path, Place>, kind: Kind, ranked: seq<nat>) {
    && (forall n :: n in ranked <==> IsKnown(paths, n))
    && (forall i, j :: 0 <= i < j < |ranked| ==>
         Less(OrderOf(paths, places, kind, ranked[i]), OrderOf(paths, places, kind, ranked[j])))
  }

  ghost predicate TableOf(paths: map<nat, Path>, places: map<Path, Place>, kind: Kind, table: RankTable, known: nat,
                          ranked: seq<nat>)
  {
    IsOrder(paths, places, kind, ranked) && Ranks(table, ranked) && known == |ranked| <= U32_MAX
  }

  /** The table ranks the known books by the order asked for. */
  ghost predicate Built(paths: map<nat, Path>, places: map<Path, Place>, tables: Tables, kind: Kind) {
    exists ranked :: TableOf(paths, places, kind, tables.Table(kind), tables.known, ranked)
  }

  ghost predicate BookNumbersOnly(paths: map<nat, Path>) {
    forall n :: n in paths ==> n < U32_MAX
  }

  function NumbersOf(entries: seq<Numbered>): (numbers: seq<nat>)
    ensures |numbers| == |entries| && forall i :: 0 <= i < |entries| ==> numbers[i] == entries[i].1
  {
    seq(|entries|, i requires 0 <= i < |entries| => entries[i].1)
  }

  ghost predicate ListsKnown(paths: map<nat, Path>, places: map<Path, Place>, entries: seq<Numbered>) {
    && DistinctNumbers(entries)
    && forall e: Numbered :: e in entries <==> IsKnown(paths, e.1) && e.0 == PlaceOf(paths, places, e.1)
  }

  /** Number 0, which is no book's, and every book's, with its place. */
  method KnownNumbers(paths: map<nat, Path>, places: map<Path, Place>) returns (entries: seq<Numbered>)
    ensures ListsKnown(paths, places, entries)
  {
    entries := [(None, 0)];
    var rest := paths.Keys - {0};
    while rest != {}
      invariant rest <= paths.Keys - {0} && DistinctNumbers(entries)
      invariant forall e: Numbered ::
                  e in entries <==> IsKnown(paths, e.1) && e.1 !in rest && e.0 == PlaceOf(paths, places, e.1)
      decreases rest
    {
      var number :| number in rest;
      assert forall i :: 0 <= i < |entries| ==> entries[i] in entries;
      entries := entries + [(PlaceOf(paths, places, number), number)];
      rest := rest - {number};
    }
  }

  method Greatest(entries: seq<Numbered>) returns (max: nat)
    ensures forall i :: 0 <= i < |entries| ==> entries[i].1 <= max
    ensures max == 0 || exists i :: 0 <= i < |entries| && entries[i].1 == max
  {
    max := 0;
    for i := 0 to |entries|
      invariant forall j :: 0 <= j < i ==> entries[j].1 <= max
      invariant max == 0 || exists j :: 0 <= j < i && entries[j].1 == max
    {
      max := Max(max, entries[i].1);
    }
  }

  /** The sorted numbers are the known ones. */
  lemma SortedIsKnown(paths: map<nat, Path>, places: map<Path, Place>, kind: Kind, entries: seq<Numbered>, max: nat)
    requires ListsKnown(paths, places, entries) && BookNumbersOnly(paths)
    requires forall i :: 0 <= i < |entries| ==> entries[i].1 <= max
    ensures |SortedBy(kind, entries)| == |entries|
    ensures forall n :: n in NumbersOf(SortedBy(kind, entries)) ==> IsKnown(paths, n) && n <= max && n < U32_MAX
    ensures forall n: nat :: IsKnown(paths, n) ==> n in NumbersOf(SortedBy(kind, entries))
  {
    SortedInOrder(kind, entries);
    var sorted := SortedBy(kind, entries);
    var ranked := NumbersOf(sorted);
    forall n | n in ranked ensures IsKnown(paths, n) && n <= max && n < U32_MAX {
      var i :| 0 <= i < |ranked| && ranked[i] == n;
      assert sorted[i] in entries;
    }
    forall n: nat | IsKnown(paths, n) ensures n in ranked {
      var e := (PlaceOf(paths, places, n), n);
      assert e in sorted;
      var i :| 0 <= i < |sorted| && sorted[i] == e;
      assert ranked[i] == n;
    }
  }

  /** They stand in the books' order. */
  lemma SortedAscends(paths: map<nat, Path>, places: map<Path, Place>, kind: Kind, entries: seq<Numbered>)
    requires ListsKnown(paths, places, entries)
    ensures var ranked := NumbersOf(SortedBy(kind, entries));
            forall i, j :: 0 <= i < j < |ranked| ==>
              ranked[i] != ranked[j]
              && Less(OrderOf(paths, places, kind, ranked[i]), OrderOf(paths, places, kind, ranked[j]))
  {
    SortedInOrder(kind, entries);
    var sorted := SortedBy(kind, entries);
    var ranked := NumbersOf(sorted);
    forall i | 0 <= i < |sorted|
      ensures sorted[i] in entries && KeyOf(kind, sorted[i]) == OrderOf(paths, places, kind, ranked[i])
    {
    }
    forall i, j | 0 <= i < j < |ranked|
      ensures ranked[i] != ranked[j]
      ensures Less(OrderOf(paths, places, kind, ranked[i]), OrderOf(paths, places, kind, ranked[j]))
    {
      assert Less(KeyOf(kind, sorted[i]), KeyOf(kind, sorted[j]));
    }
  }

  /** The sorted numbers, ready to be ranked. */
  lemma SortedIsOrder(paths: map<nat, Path>, places: map<Path, Place>, kind: Kind, entries: seq<Numbered>, max: nat)
    requires ListsKnown(paths, places, entries) && BookNumbersOnly(paths)
    requires forall i :: 0 <= i < |entries| ==> entries[i].1 <= max
    ensures IsOrder(paths, places, kind, NumbersOf(SortedBy(kind, entries)))
    ensures Rankable(NumbersOf(SortedBy(kind, entries)), max) && |SortedBy(kind, entries)| == |entries|
  {
    SortedIsKnown(paths, places, kind, entries, max);
    SortedAscends(paths, places, kind, entries);
    var ranked := NumbersOf(SortedBy(kind, entries));
    forall i | 0 <= i < |ranked| ensures ranked[i] < U32_MAX {
      assert ranked[i] in ranked;
    }
    Pigeonhole(ranked, U32_MAX);
  }

  /** Sorts the books for one order and ranks them. */
  method BuildOne(paths: map<nat, Path>, places: map<Path, Place>, kind: Kind, numbers: seq<Numbered>, dense: bool,
                  max: nat)
    returns (table: RankTable, known: nat, ghost ranked: seq<nat>)
    requires ListsKnown(paths, places, numbers) && BookNumbersOnly(paths)
    requires forall i :: 0 <= i < |numbers| ==> numbers[i].1 <= max
    ensures TableOf(paths, places, kind, table, known, ranked) && known == |numbers|
  {
    SortedIsOrder(paths, places, kind, numbers, max);
    var sorted := NumbersOf(SortedBy(kind, numbers));
    table, known := RankTableOf(sorted, dense, max);
    ranked := sorted;
  }

  lemma TableIsBuilt(paths: map<nat, Path>, places: map<Path, Place>, tables: Tables, kind: Kind, ranked: seq<nat>)
    requires TableOf(paths, places, kind, tables.Table(kind), tables.known, ranked)
    ensures Built(paths, places, tables, kind)
  {
  }

  /** Builds the tables of both orders. */
  method Build(paths: map<nat, Path>, places: map<Path, Place>) returns (tables: Tables)
    requires BookNumbersOnly(paths)
    ensures Built(paths, places, tables, Catalogue) && Built(paths, places, tables, Generation)
  {
    var numbers := KnownNumbers(paths, places);
    var max := Greatest(numbers);
    var dense := max < DENSE_NUMBERS;
    ghost var byCatalogue, byGeneration;
    var catalogue, generation, known;
    catalogue, known, byCatalogue := BuildOne(paths, places, Catalogue, numbers, dense, max);
    generation, known, byGeneration := BuildOne(paths, places, Generation, numbers, dense, max);
    tables := Tables(catalogue, generation, known);
    TableIsBuilt(paths, places, tables, Catalogue, byCatalogue);
    TableIsBuilt(paths, places, tables, Generation, byGeneration);
  }

  // ── What the keys compare ────────────────────────────────────────────────────

  /** A number so large, and met so late, that its rank no longer tells it from others like it. */
  predicate Saturated(paths: map<nat, Path>, known: nat, number: nat) {
    !IsKnown(paths, number) && known + number >= U32_MAX
  }

  lemma LessIsTotal(a: SortKey, b: SortKey)
    ensures Less(a, b) || Less(b, a) || a == b
    ensures !(Less(a, b) && Less(b, a)) && !Less(a, a)
  {
  }

  /** Ranks compare as the books do. */
  lemma RanksFollowOrder(paths: map<nat, Path>, places: map<Path, Place>, kind: Kind, table: RankTable, known: nat,
                         ranked: seq<nat>, a: nat, b: nat)
    requires TableOf(paths, places, kind, table, known, ranked)
    requires !(Saturated(paths, known, a) && Saturated(paths, known, b))
    ensures table.Rank(known, a) < table.Rank(known, b)
        <==> Less(OrderOf(paths, places, kind, a), OrderOf(paths, places, kind, b))
  {
    if IsKnown(paths, a) && IsKnown(paths, b) {
      var i :| 0 <= i < |ranked| && ranked[i] == a;
      var j :| 0 <= j < |ranked| && ranked[j] == b;
      assert table.Found(ranked[i]) == Some(i) && table.Found(ranked[j]) == Some(j);
      LessIsTotal(OrderOf(paths, places, kind, a), OrderOf(paths, places, kind, b));
    } else if IsKnown(paths, a) {
      var i :| 0 <= i < |ranked| && ranked[i] == a;
      assert table.Found(ranked[i]) == Some(i) && table.Found(b) == None;
    } else if IsKnown(paths, b) {
      var j :| 0 <= j < |ranked| && ranked[j] == b;
      assert table.Found(ranked[j]) == Some(j) && table.Found(a) == None;
    } else {
      assert table.Found(a) == None && table.Found(b) == None;
    }
  }

  lemma RankFits(paths: map<nat, Path>, places: map<Path, Place>, kind: Kind, table: RankTable, known: nat,
                 ranked: seq<nat>, n: nat)
    requires TableOf(paths, places, kind, table, known, ranked)
    ensures table.Rank(known, n) <= U32_MAX
  {
    if IsKnown(paths, n) {
      var i :| 0 <= i < |ranked| && ranked[i] == n;
      assert table.Found(ranked[i]) == Some(i);
    } else {
      assert table.Found(n) == None;
    }
  }

  /** The ranks of the known books are `0..known`, each once. */
  lemma RanksAreABijection(paths: map<nat, Path>, places: map<Path, Place>, tables: Tables, kind: Kind, rank: nat)
    requires Built(paths, places, tables, kind) && rank < tables.known
    ensures exists n :: IsKnown(paths, n) && tables.Table(kind).Rank(tables.known, n) == rank
    ensures forall m, n :: IsKnown(paths, m) && IsKnown(paths, n) && m != n ==>
              tables.Table(kind).Rank(tables.known, m) != tables.Table(kind).Rank(tables.known, n)
    ensures forall n :: IsKnown(paths, n) ==> tables.Table(kind).Rank(tables.known, n) < tables.known
  {
    var ranked :| TableOf(paths, places, kind, tables.Table(kind), tables.known, ranked);
    assert tables.Table(kind).Found(ranked[rank]) == Some(rank) && ranked[rank] in ranked;
    forall n | IsKnown(paths, n)
      ensures exists i :: 0 <= i < |ranked| && ranked[i] == n && tables.Table(kind).Rank(tables.known, n) == i
    {
      var i :| 0 <= i < |ranked| && ranked[i] == n;
      assert tables.Table(kind).Found(ranked[i]) == Some(i);
    }
  }

  lemma PackedCompare(a: nat, x: nat, b: nat, y: nat, n: nat)
    requires x < n && y < n
    ensures a * n + x < b * n + y <==> a < b || (a == b && x < y)
  {
    if a < b {
      assert (a + 1) * n <= b * n;
    } else if b < a {
      assert (b + 1) * n <= a * n;
    }
  }

  /** Two numbers' ranks, compared; ranks are 32 bits wide. */
  lemma RanksCompare(paths: map<nat, Path>, places: map<Path, Place>, tables: Tables, kind: Kind, m: nat, n: nat)
    requires Built(paths, places, tables, kind)
    ensures var (a, b) := (tables.Table(kind).Rank(tables.known, m), tables.Table(kind).Rank(tables.known, n));
            && a <= U32_MAX
            && if Saturated(paths, tables.known, m) && Saturated(paths, tables.known, n) then a == b
               else
                 && (a < b <==> Less(OrderOf(paths, places, kind, m), OrderOf(paths, places, kind, n)))
                 && (a == b <==> m == n)
  {
    var ranked :| TableOf(paths, places, kind, tables.Table(kind), tables.known, ranked);
    var table, known := tables.Table(kind), tables.known;
    RankFits(paths, places, kind, table, known, ranked, m);
    if Saturated(paths, known, m) && Saturated(paths, known, n) {
      assert table.Found(m) == None && table.Found(n) == None;
    } else {
      RanksFollowOrder(paths, places, kind, table, known, ranked, m, n);
      RanksFollowOrder(paths, places, kind, table, known, ranked, n, m);
      OrderTellsNumbers(paths, places, kind, m, n);
    }
  }

  /** No two numbers have the same place in the order. */
  lemma OrderTellsNumbers(paths: map<nat, Path>, places: map<Path, Place>, kind: Kind, m: nat, n: nat)
    ensures Less(OrderOf(paths, places, kind, m), OrderOf(paths, places, kind, n))
         || Less(OrderOf(paths, places, kind, n), OrderOf(paths, places, kind, m)) || m == n
  {
    LessIsTotal(OrderOf(paths, places, kind, m), OrderOf(paths, places, kind, n));
  }

  /** Comparing two lines' keys compares their books as asked for, then the lines; two books too
      late and too high for their ranks to differ are compared by line alone. */
  lemma KeysFollowOrder(paths: map<nat, Path>, places: map<Path, Place>, tables: Tables, kind: Kind, x: nat, y: nat)
    requires Built(paths, places, tables, kind)
    ensures var (m, n) := (BookNumberOf(x), BookNumberOf(y));
            tables.Key(kind, x) < tables.Key(kind, y) <==>
              if Saturated(paths, tables.known, m) && Saturated(paths, tables.known, n) then x % ORDINALS < y % ORDINALS
              else
                || Less(OrderOf(paths, places, kind, m), OrderOf(paths, places, kind, n))
                || (m == n && x % ORDINALS < y % ORDINALS)
    ensures tables.Key(kind, x) <= U64_MAX
  {
    var m, n := BookNumberOf(x), BookNumberOf(y);
    var a, b := tables.Table(kind).Rank(tables.known, m), tables.Table(kind).Rank(tables.known, n);
    PackedCompare(a, x % ORDINALS, b, y % ORDINALS, ORDINALS);
    RanksCompare(paths, places, tables, kind, m, n);
  }

  /** The order a mapping asks for: no book first; then the mapped books, by generation if asked, by
      catalogue, and by number; then the others, by number. */
  ghost predicate ComesFirst(paths: map<nat, Path>, places: map<Path, Place>, kind: Kind, m: nat, n: nat) {
    var p, q := PlaceOf(paths, places, m), PlaceOf(paths, places, n);
    if m == 0 || n == 0 then m == 0 && n != 0
    else if p.None? || q.None? then p.Some? || (q.None? && m < n)
    else if kind.Generation? && p.value.generation != q.value.generation then p.value.generation < q.value.generation
    else if p.value.catalogue != q.value.catalogue then p.value.catalogue < q.value.catalogue
    else m < n
  }

  /** Known books rank as the mapping asks. */
  lemma RanksAreAskedFor(paths: map<nat, Path>, places: map<Path, Place>, tables: Tables, kind: Kind, m: nat, n: nat)
    requires Built(paths, places, tables, kind) && IsKnown(paths, m) && IsKnown(paths, n)
    ensures tables.Table(kind).Rank(tables.known, m) < tables.Table(kind).Rank(tables.known, n)
       <==> ComesFirst(paths, places, kind, m, n)
  {
    RanksCompare(paths, places, tables, kind, m, n);
  }

  // ── Books written since ──────────────────────────────────────────────────────

  function IdOf(number: nat, line: nat): nat {
    number * ORDINALS + line
  }

  lemma IdSplits(number: nat, line: nat)
    requires line < ORDINALS
    ensures BookNumberOf(IdOf(number, line)) == number && IdOf(number, line) % ORDINALS == line
  {
  }

  /** Every line of book `m` sorts before every line of book `n`. */
  ghost predicate AllBefore(tables: Tables, kind: Kind, m: nat, n: nat) {
    forall i: nat, j: nat {:trigger IdOf(m, i), IdOf(n, j)} :: i < ORDINALS && j < ORDINALS ==>
      tables.Key(kind, IdOf(m, i)) < tables.Key(kind, IdOf(n, j))
  }

  lemma AllBeforeIfRanked(tables: Tables, kind: Kind, m: nat, n: nat)
    ensures AllBefore(tables, kind, m, n)
       <==> tables.Table(kind).Rank(tables.known, m) < tables.Table(kind).Rank(tables.known, n)
  {
    var a, b := tables.Table(kind).Rank(tables.known, m), tables.Table(kind).Rank(tables.known, n);
    if a < b {
      forall i: nat, j: nat | i < ORDINALS && j < ORDINALS
        ensures tables.Key(kind, IdOf(m, i)) < tables.Key(kind, IdOf(n, j))
      {
        IdSplits(m, i);
        IdSplits(n, j);
        PackedCompare(a, i, b, j, ORDINALS);
      }
    } else {
      IdSplits(m, 1);
      IdSplits(n, 0);
      PackedCompare(a, 1, b, 0, ORDINALS);
      assert !(tables.Key(kind, IdOf(m, 1)) < tables.Key(kind, IdOf(n, 0)));
    }
  }

  /** A book written since sorts past every known one. */
  lemma UnknownComesAfterKnown(paths: map<nat, Path>, places: map<Path, Place>, tables: Tables, kind: Kind, m: nat,
                               n: nat)
    requires Built(paths, places, tables, kind) && IsKnown(paths, m) && !IsKnown(paths, n)
    ensures AllBefore(tables, kind, m, n)
  {
    RanksCompare(paths, places, tables, kind, m, n);
    AllBeforeIfRanked(tables, kind, m, n);
  }

  /** Two of them sort by their numbers exactly when the lesser, past the known ones, is below the
      greatest rank. */
  lemma UnknownFollowNumbers(paths: map<nat, Path>, places: map<Path, Place>, tables: Tables, kind: Kind, m: nat,
                             n: nat)
    requires Built(paths, places, tables, kind) && m < n && !IsKnown(paths, m) && !IsKnown(paths, n)
    ensures AllBefore(tables, kind, m, n) <==> tables.known + m < U32_MAX
  {
    RanksCompare(paths, places, tables, kind, m, n);
    AllBeforeIfRanked(tables, kind, m, n);
  }

  lemma NumberZeroIsRanked(paths: map<nat, Path>, places: map<Path, Place>, tables: Tables, kind: Kind)
    requires Built(paths, places, tables, kind)
    ensures tables.known > 0
  {
    var ranked :| TableOf(paths, places, kind, tables.Table(kind), tables.known, ranked);
    assert 0 in ranked;
  }

  /** The second line of the last book number but one sorts after the first line of the last. */
  lemma GreatestNumbersTie(paths: map<nat, Path>, places: map<Path, Place>, tables: Tables, kind: Kind)
    requires Built(paths, places, tables, kind) && BookNumbersOnly(paths) && U32_MAX - 1 !in paths
    ensures tables.Key(kind, IdOf(U32_MAX - 1, 1)) > tables.Key(kind, IdOf(U32_MAX, 0))
  {
    NumberZeroIsRanked(paths, places, tables, kind);
    IdSplits(U32_MAX - 1, 1);
    IdSplits(U32_MAX, 0);
    KeysFollowOrder(paths, places, tables, kind, IdOf(U32_MAX, 0), IdOf(U32_MAX - 1, 1));
  }
}
