/** Numbers of books, and what one engine knows of them: handed out, read from an index, reserved on disk. */
module BookNumbers {
  import opened Prelude

  type Path = string

  type u32 = n: nat | n <= U32_MAX

  /** By how many numbers a write moves the stored reservation. */
  const NUMBER_RESERVATION: nat := 64

  /** Numbers that are no book's: 0, and the largest `u32`. */
  predicate IsBookNumber(number: nat) {
    0 < number < U32_MAX
  }

  // ── What one engine knows ────────────────────────────────────────────────────

  /** The numbers an engine has read or handed out, and what it may hand out next. */
  datatype Known = Known(byPath: map<Path, nat>, paths: map<nat, Path>, next: nat, reserved: nat, version: nat)

  /** Nothing read yet but the reservation beside the index. */
  function Opened(seen: nat): Known {
    Known(map[], map[], Max(seen, 1), Max(seen, 1), 0)
  }

  function Recorded(k: Known, path: Path, number: nat): Known {
    Known(
      if path in k.byPath then k.byPath else k.byPath[path := number],
      if number in k.paths then k.paths else k.paths[number := path],
      Max(k.next, SaturatingAdd(number, 1)),
      k.reserved,
      if number in k.paths then k.version else k.version + 1)
  }

  /** Books and their numbers, as read from an index. */
  type Books = seq<(Path, nat)>

  function Absorbed(k: Known, found: Books): Known {
    if found == [] then k
    else Recorded(Absorbed(k, found[..|found| - 1]), found[|found| - 1].0, found[|found| - 1].1)
  }

  /** The latest commit's numbers replace whatever the engine believed of those books. */
  function Reconciled(byPath: map<Path, nat>, found: Books): map<Path, nat> {
    if found == [] then byPath
    else Reconciled(byPath, found[..|found| - 1])[found[|found| - 1].0 := found[|found| - 1].1]
  }

  function CaughtUp(k: Known, found: Books, seen: nat): Known {
    var k1 := Absorbed(k.(byPath := Reconciled(k.byPath, found)), found);
    k1.(next := Max(k1.next, seen), reserved := Max(k1.reserved, seen))
  }

  datatype Outcome = Handed(number: nat) | Exhausted | WriteFailed

  /** Replacing the reservation file: done, not done, or done but reported as failed. */
  datatype Replacement = Replaced | Refused | Unheard

  /** The number of `path`, the engine's knowledge and the reservation after it is asked for; `seen`
      is what a look at the reservation reads. */
  function Asked(k: Known, disk: nat, path: Path, seen: nat, replacement: Replacement): (Known, nat, Outcome) {
    if path in k.byPath then (k, disk, Handed(k.byPath[path]))
    else
      var k1 := if k.next >= k.reserved then k.(next := Max(k.next, seen)) else k;
      var number := k1.next;
      if number == U32_MAX then (k1, disk, Exhausted)
      else if number < k1.reserved then (Recorded(k1, path, number), disk, Handed(number))
      else
        var reserved := SaturatingAdd(number, NUMBER_RESERVATION);
        match replacement
        case Replaced => (Recorded(k1.(reserved := reserved), path, number), reserved, Handed(number))
        case Refused => (k1, disk, WriteFailed)
        case Unheard => (k1, reserved, WriteFailed)
  }

  /** The reservation beside the index. */
  class ReservationFile {
    var reserved: u32

    /** What a look at it gives, which may fail. */
    function Read(readable: bool): u32
      reads this
    {
      if readable then reserved else 0
    }

    constructor (reserved: u32)
      ensures this.reserved == reserved
    {
      this.reserved := reserved;
    }
  }

  class BookNumbers {
    const file: ReservationFile
    var byPath: map<Path, nat>
    var paths: map<nat, Path>
    var next: nat
    var reserved: u32
    var version: nat

    function Value(): Known
      reads this
    {
      Known(byPath, paths, next, reserved, version)
    }

    constructor (file: ReservationFile, readable: bool)
      ensures this.file == file && Value() == Opened(file.Read(readable))
    {
      this.file := file;
      byPath, paths, version := map[], map[], 0;
      reserved := Max(file.Read(readable), 1);
      next := Max(file.Read(readable), 1);
    }

    /** Learns a pair; no book loses a number it has. */
    method Record(path: Path, number: nat)
      modifies this
      ensures Value() == Recorded(old(Value()), path, number)
      ensures old(version) == |old(paths)| ==> Grown(old(Value()), Value())
    {
      RecordGrows(Value(), path, number);
      var newNumber := number !in paths;
      if newNumber {
        paths := paths[number := path];
      }
      if path !in byPath {
        byPath := byPath[path := number];
      }
      next := Max(next, SaturatingAdd(number, 1));
      if newNumber {
        version := version + 1;
      }
    }

    /** Learns the pairs of some segments, in order; no book loses a number it has. */
    method Absorb(found: Books)
      modifies this
      ensures Value() == Absorbed(old(Value()), found)
      ensures old(version) == |old(paths)| ==> Grown(old(Value()), Value())
    {
      VersionCounts(Value(), found);
      for i := 0 to |found|
        invariant Value() == Absorbed(old(Value()), found[..i])
      {
        assert found[..i + 1][..i] == found[..i];
        Record(found[i].0, found[i].1);
      }
      assert found[..|found|] == found;
    }

    /** A known book keeps its number. A new one gets a number not handed out before, below the
        reservation on disk whenever the one remembered is. */
    method NumberFor(path: Path, readable: bool, replacement: Replacement) returns (outcome: Outcome)
      modifies this, file
      ensures (Value(), file.reserved, outcome)
           == Asked(old(Value()), old(file.reserved), path, old(file.Read(readable)), replacement)
      ensures outcome.Handed? ==> path in byPath && byPath[path] == outcome.number
      ensures outcome.Handed? && path !in old(byPath) ==> old(next) <= outcome.number
      ensures outcome.Handed? && path !in old(byPath) ==>
                outcome.number < old(reserved) || old(file.Read(readable)) <= outcome.number
      ensures outcome.Handed? && path !in old(byPath) && outcome.number < U32_MAX ==> outcome.number < next
      ensures outcome.Handed? && path !in old(byPath) && outcome.number < U32_MAX ==>
                (old(reserved) <= old(file.reserved) ==> outcome.number < file.reserved)
      ensures old(reserved) <= old(file.reserved) ==> reserved <= file.reserved
    {
      if path in byPath {
        return Handed(byPath[path]);
      }
      if next >= reserved {
        // Numbers below the stored reservation may be another engine's by now.
        next := Max(next, file.Read(readable));
      }
      var number := next;
      if number == U32_MAX {
        return Exhausted;
      }
      if number >= reserved {
        if !replacement.Refused? {
          file.reserved := SaturatingAdd(number, NUMBER_RESERVATION);
        }
        if !replacement.Replaced? {
          return WriteFailed;
        }
        reserved := file.reserved;
      }
      Record(path, number);
      outcome := Handed(number);
    }

    /** The books found replace what was believed of their paths; no number below the stored
        reservation, if that can be read, is handed out from here on. */
    method CatchUp(found: Books, readable: bool)
      modifies this
      ensures Value() == CaughtUp(old(Value()), found, file.Read(readable))
      ensures readable ==> next >= file.reserved && reserved >= file.reserved
    {
      for i := 0 to |found|
        invariant Value() == old(Value()).(byPath := Reconciled(old(byPath), found[..i]))
      {
        assert found[..i + 1][..i] == found[..i];
        byPath := byPath[found[i].0 := found[i].1];
      }
      assert found[..|found|] == found;
      Absorb(found);
      next := Max(next, file.Read(readable));
      reserved := Max(reserved, file.Read(readable));
    }
  }

  /** `later` has every number `k` has, under the same book, and its version counts its numbers. */
  ghost predicate Grown(k: Known, later: Known) {
    && later.version == |later.paths| >= k.version
    && (forall n :: n in k.paths ==> n in later.paths && later.paths[n] == k.paths[n])
    && (later.version == k.version ==> later.paths == k.paths)
  }

  lemma RecordGrows(k: Known, path: Path, number: nat)
    ensures k.version == |k.paths| ==> Grown(k, Recorded(k, path, number))
  {
    if number !in k.paths {
      assert k.paths[number := path].Keys == k.paths.Keys + {number};
    }
  }

  /** The version counts the numbers recorded, so tables built from `paths` are stale exactly
      when it has changed. */
  lemma {:induction false} VersionCounts(k: Known, found: Books)
    ensures k.version == |k.paths| ==> Grown(k, Absorbed(k, found))
  {
    if found != [] {
      VersionCounts(k, found[..|found| - 1]);
      RecordGrows(Absorbed(k, found[..|found| - 1]), found[|found| - 1].0, found[|found| - 1].1);
    }
  }

  // ── Reading the books of an index ────────────────────────────────────────────

  /** A line's document: its book, its id, and whether it is still there. */
  datatype Doc = Doc(path: Path, id: nat, alive: bool)

  function BookNumberOf(id: nat): nat {
    id / (U32_MAX + 1)
  }

  /** What an index says of its books: the pairs its live lines hold. */
  type Index = set<(Path, nat)>

  ghost predicate HoldsPair(segment: seq<Doc>, i: nat, pair: (Path, nat)) {
    i < |segment| && segment[i].alive && (segment[i].path, BookNumberOf(segment[i].id)) == pair
  }

  ghost predicate InSegment(segment: seq<Doc>, pair: (Path, nat)) {
    exists i :: HoldsPair(segment, i, pair)
  }

  /** Each book once, under a number it holds in the index; a book that holds one number is there. */
  ghost predicate IsFound(index: Index, found: Books) {
    && (forall b :: b in found ==> b in index && IsBookNumber(b.1))
    && (forall i, j :: 0 <= i < j < |found| ==> found[i].0 != found[j].0)
    && (forall b :: b in index && IsBookNumber(b.1) && (forall c :: c in index && c.0 == b.0 ==> c == b) ==> b in found)
  }

  /** The first live line of `path`. */
  function FirstLive(segment: seq<Doc>, path: Path, i: nat): (r: Option<nat>)
    requires i <= |segment|
    ensures r.Some? ==> i <= r.value < |segment| && segment[r.value].alive && segment[r.value].path == path
    ensures r.Some? ==> forall j :: i <= j < r.value && segment[j].path == path ==> !segment[j].alive
    ensures r.None? ==> forall j :: i <= j < |segment| && segment[j].path == path ==> !segment[j].alive
    decreases |segment| - i
  {
    if i == |segment| then None
    else if segment[i].path == path && segment[i].alive then Some(i)
    else FirstLive(segment, path, i + 1)
  }

  /** A segment's number for a book: that of its first live line. */
  function NumberIn(segment: seq<Doc>, path: Path): Option<nat> {
    var first := FirstLive(segment, path, 0);
    if first.Some? && IsBookNumber(BookNumberOf(segment[first.value].id)) then
      Some(BookNumberOf(segment[first.value].id))
    else None
  }

  function Lower(a: Option<nat>, b: Option<nat>): Option<nat> {
    if a.Some? && b.Some? then Some(Min(a.value, b.value)) else if a.Some? then a else b
  }

  /** The lowest of the segments' numbers for a book. */
  function FoundNumber(segments: seq<seq<Doc>>, path: Path): Option<nat> {
    if segments == [] then None
    else Lower(FoundNumber(segments[..|segments| - 1], path), NumberIn(segments[|segments| - 1], path))
  }

  function Told(found: map<Path, nat>, path: Path): Option<nat> {
    if path in found then Some(found[path]) else None
  }

  /** Every book of one more segment; of two numbers the lower is kept. */
  method ReadSegment(segment: seq<Doc>, before: map<Path, nat>) returns (found: map<Path, nat>)
    ensures forall p :: Told(found, p) == Lower(Told(before, p), NumberIn(segment, p))
  {
    found := before;
    var terms := set i | 0 <= i < |segment| :: segment[i].path;
    forall p | p !in terms ensures NumberIn(segment, p) == None {
    }
    while terms != {}
      invariant forall p ::
                  Told(found, p) == if p in terms then Told(before, p) else Lower(Told(before, p), NumberIn(segment, p))
      decreases terms
    {
      var path :| path in terms;
      var number := NumberIn(segment, path);
      if number.Some? {
        found := found[path := if path in found then Min(found[path], number.value) else number.value];
      }
      terms := terms - {path};
    }
  }

  /** `books` lists each path that has a number in some segment, once, with the least of them. */
  method NumbersInSegments(segments: seq<seq<Doc>>) returns (books: Books)
    ensures forall b: (Path, nat) :: b in books <==> FoundNumber(segments, b.0) == Some(b.1)
    ensures forall i, j :: 0 <= i < j < |books| ==> books[i].0 != books[j].0
  {
    var found: map<Path, nat> := map[];
    for s := 0 to |segments|
      invariant forall p :: Told(found, p) == FoundNumber(segments[..s], p)
    {
      assert segments[..s + 1][..s] == segments[..s];
      found := ReadSegment(segments[s], found);
    }
    assert segments[..|segments|] == segments;
    books := Listed(found);
    forall b: (Path, nat) ensures b in books <==> FoundNumber(segments, b.0) == Some(b.1) {
      assert Told(found, b.0) == FoundNumber(segments, b.0);
    }
  }

  // ── What the numbers found say of the index ──────────────────────────────────

  /** The index's pairs are those of the segments' live lines. */
  ghost predicate IndexOf(index: Index, segments: seq<seq<Doc>>) {
    forall b :: b in index <==> exists s :: 0 <= s < |segments| && InSegment(segments[s], b)
  }

  /** The first live line of the book is `i`, and has this number. */
  ghost predicate FirstSays(segment: seq<Doc>, path: Path, i: nat, number: nat) {
    && i < |segment| && segment[i].alive && segment[i].path == path
    && (forall j :: 0 <= j < i && segment[j].path == path ==> !segment[j].alive)
    && number == BookNumberOf(segment[i].id) && IsBookNumber(number)
  }

  ghost predicate Says(segment: seq<Doc>, path: Path, number: nat) {
    exists i :: FirstSays(segment, path, i, number)
  }

  lemma NumberInIs(segment: seq<Doc>, path: Path, number: nat)
    ensures NumberIn(segment, path) == Some(number) <==> Says(segment, path, number)
  {
    var first := FirstLive(segment, path, 0);
    if first.Some? && IsBookNumber(BookNumberOf(segment[first.value].id)) {
      assert FirstSays(segment, path, first.value, BookNumberOf(segment[first.value].id));
    }
  }

  ghost predicate SaidByOne(segments: seq<seq<Doc>>, path: Path, number: nat) {
    exists s :: 0 <= s < |segments| && Says(segments[s], path, number)
  }

  /** The least of the numbers, none if there are none. */
  ghost predicate IsLeastOf(number: Option<nat>, numbers: iset<nat>) {
    if number.None? then numbers == iset{}
    else number.value in numbers && forall m :: m in numbers ==> number.value <= m
  }

  ghost function SaidIn(segment: seq<Doc>, path: Path): iset<nat> {
    iset m: nat | Says(segment, path, m)
  }

  ghost function Said(segments: seq<seq<Doc>>, path: Path): iset<nat> {
    iset m: nat | SaidByOne(segments, path, m)
  }

  lemma LowerIsLeast(a: Option<nat>, before: iset<nat>, b: Option<nat>, here: iset<nat>)
    requires IsLeastOf(a, before) && IsLeastOf(b, here)
    ensures IsLeastOf(Lower(a, b), before + here)
  {
  }

  lemma NumberInIsLeast(segment: seq<Doc>, path: Path)
    ensures IsLeastOf(NumberIn(segment, path), SaidIn(segment, path))
  {
    forall m: nat ensures NumberIn(segment, path) == Some(m) <==> Says(segment, path, m) {
      NumberInIs(segment, path, m);
    }
  }

  lemma SaidByLast(segments: seq<seq<Doc>>, path: Path)
    requires segments != []
    ensures Said(segments, path)
         == Said(segments[..|segments| - 1], path) + SaidIn(segments[|segments| - 1], path)
  {
    var front := segments[..|segments| - 1];
    forall m: nat
      ensures SaidByOne(segments, path, m) <==> SaidByOne(front, path, m) || Says(segments[|segments| - 1], path, m)
    {
      if SaidByOne(front, path, m) {
        var s :| 0 <= s < |front| && Says(front[s], path, m);
        assert Says(segments[s], path, m);
      }
      if SaidByOne(segments, path, m) {
        var s :| 0 <= s < |segments| && Says(segments[s], path, m);
        assert s < |front| ==> Says(front[s], path, m);
      }
    }
  }

  /** The number found is the least that the first live line of some segment has. */
  lemma {:induction false} FoundIsLeast(segments: seq<seq<Doc>>, path: Path)
    ensures IsLeastOf(FoundNumber(segments, path), Said(segments, path))
  {
    if segments != [] {
      var front, last := segments[..|segments| - 1], segments[|segments| - 1];
      FoundIsLeast(front, path);
      NumberInIsLeast(last, path);
      LowerIsLeast(FoundNumber(front, path), Said(front, path), NumberIn(last, path), SaidIn(last, path));
      SaidByLast(segments, path);
    }
  }

  lemma {:induction false} FoundIsHeld(segments: seq<seq<Doc>>, path: Path) returns (s: nat)
    requires FoundNumber(segments, path).Some?
    ensures s < |segments| && InSegment(segments[s], (path, FoundNumber(segments, path).value))
    ensures IsBookNumber(FoundNumber(segments, path).value)
  {
    var n := |segments| - 1;
    var last := NumberIn(segments[n], path);
    if FoundNumber(segments, path) == last {
      s := n;
      var first := FirstLive(segments[n], path, 0).value;
      assert HoldsPair(segments[n], first, (path, last.value));
    } else {
      s := FoundIsHeld(segments[..n], path);
    }
  }

  lemma {:induction false} HeldIsFound(segments: seq<seq<Doc>>, s: nat, b: (Path, nat))
    requires s < |segments| && InSegment(segments[s], b) && IsBookNumber(b.1)
    requires forall t, m: nat :: 0 <= t < |segments| && InSegment(segments[t], (b.0, m)) ==> m == b.1
    ensures FoundNumber(segments, b.0).Some?
  {
    var n := |segments| - 1;
    if s == n {
      var i :| HoldsPair(segments[n], i, b);
      var first := FirstLive(segments[n], b.0, 0).value;
      assert HoldsPair(segments[n], first, (b.0, BookNumberOf(segments[n][first].id)));
    } else {
      HeldIsFound(segments[..n], s, b);
    }
  }

  /** What is read from the segments is what the index says of its books. */
  lemma BooksAreFound(segments: seq<seq<Doc>>, index: Index, books: Books)
    requires IndexOf(index, segments)
    requires forall b: (Path, nat) :: b in books <==> FoundNumber(segments, b.0) == Some(b.1)
    requires forall i, j :: 0 <= i < j < |books| ==> books[i].0 != books[j].0
    ensures IsFound(index, books)
  {
    forall b | b in books ensures b in index && IsBookNumber(b.1) {
      var s := FoundIsHeld(segments, b.0);
    }
    forall b | b in index && IsBookNumber(b.1) && (forall c :: c in index && c.0 == b.0 ==> c == b) ensures b in books {
      var s :| 0 <= s < |segments| && InSegment(segments[s], b);
      forall t, m: nat | 0 <= t < |segments| && InSegment(segments[t], (b.0, m)) ensures m == b.1 {
        assert (b.0, m) in index;
      }
      HeldIsFound(segments, s, b);
      var t := FoundIsHeld(segments, b.0);
      assert (b.0, FoundNumber(segments, b.0).value) in index;
    }
  }

  /** The entries of a map, in any order. */
  method Listed(found: map<Path, nat>) returns (books: Books)
    ensures forall b: (Path, nat) :: b in books <==> b.0 in found && found[b.0] == b.1
    ensures forall i, j :: 0 <= i < j < |books| ==> books[i].0 != books[j].0
  {
    books := [];
    var rest := found.Keys;
    while rest != {}
      invariant rest <= found.Keys
      invariant forall b: (Path, nat) :: b in books <==> b.0 in found && found[b.0] == b.1 && b.0 !in rest
      invariant forall i, j :: 0 <= i < j < |books| ==> books[i].0 != books[j].0
      decreases rest
    {
      var path :| path in rest;
      assert forall i :: 0 <= i < |books| ==> books[i] in books;
      books := books + [(path, found[path])];
      rest := rest - {path};
    }
  }
}
