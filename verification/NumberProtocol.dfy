/** Engines that take turns with the index writer: every interleaving of opening, writing,
    committing, rolling back, crashing and reading old snapshots. */
module NumberProtocol {
  import opened Prelude
  import opened BookNumbers

  /** An engine: what it knows, once it has looked, and whether it must catch up before it hands
      out a number. */
  datatype Engine = Engine(numbers: Option<Known>, stale: bool)

  /** `staged` is what the writer's commit would publish; `held` is every pair of a book and a
      number that was in the first index or was handed out since. */
  datatype State = State(
    engines: map<nat, Engine>, writer: Option<nat>, staged: Index, committed: Index, history: set<Index>,
    disk: nat, held: Index)

  datatype Action =
    | Open(e: nat)
    | TakeWriter(e: nat)
      /** `initial` and `seen` are what it reads of the reservation, on opening it and on catching up. */
    | CatchUp(e: nat, found: Books, initial: nat, seen: nat)
      /** The writer asks for a number; the reservation may not be read or replaced, and nothing may be added. */
    | Write(e: nat, path: Path, seen: nat, replacement: Replacement, added: bool)
    | Delete(path: Path)
    | Clear
    | Commit
    | Rollback
    | ReleaseWriter
      /** The engine is gone, cleanly or not. */
    | Close(e: nat)
      /** A search reads some segments of some commit. */
    | Absorb(e: nat, snapshot: Index, found: Books, initial: nat)

  function Looked(engine: Engine, initial: nat): Known {
    if engine.numbers.Some? then engine.numbers.value else Opened(initial)
  }

  /** What may be read of the reservation: nothing, if the file cannot be read. */
  predicate IsReading(seen: nat, disk: nat) {
    seen == disk || seen == 0
  }

  /** The index once a book has been deleted. */
  ghost function Without(index: Index, path: Path): Index {
    set b | b in index && b.0 != path
  }

  ghost function BookPairs(index: Index): Index {
    set b | b in index && IsBookNumber(b.1)
  }

  ghost predicate Init(s: State, index: Index, disk: nat) {
    s == State(map[], None, index, index, {index}, disk, BookPairs(index)) && disk <= U32_MAX
  }

  /** Leaving the writer drops what it had not committed. */
  function Dropped(s: State): State {
    s.(writer := None, staged := s.committed)
  }

  ghost predicate Written(s: State, a: Action, s': State)
    requires a.Write? && a.e in s.engines && s.engines[a.e].numbers.Some?
  {
    var (known, disk, outcome) := Asked(s.engines[a.e].numbers.value, s.disk, a.path, a.seen, a.replacement);
    var s1 := s.(engines := s.engines[a.e := Engine(Some(known), false)], disk := disk);
    s' == if !outcome.Handed? then s1
          else
            s1.(held := s.held + {(a.path, outcome.number)},
                staged := if a.added then s.staged + {(a.path, outcome.number)} else s.staged)
  }

  ghost predicate Step(s: State, a: Action, s': State) {
    match a
    case Open(e) => e !in s.engines && s' == s.(engines := s.engines[e := Engine(None, true)])
    case TakeWriter(e) =>
      && e in s.engines && s.writer == None
      && s' == s.(writer := Some(e), engines := s.engines[e := s.engines[e].(stale := true)])
    case CatchUp(e, found, initial, seen) =>
      && s.writer == Some(e) && e in s.engines && s.engines[e].stale && IsFound(s.committed, found)
      && IsReading(initial, s.disk) && IsReading(seen, s.disk)
      && s' == s.(engines := s.engines[e := Engine(Some(CaughtUp(Looked(s.engines[e], initial), found, seen)), false)])
    case Write(e, _, seen, _, _) =>
      && s.writer == Some(e) && e in s.engines && !s.engines[e].stale && s.engines[e].numbers.Some?
      && IsReading(seen, s.disk) && Written(s, a, s')
    case Delete(path) => s.writer.Some? && s' == s.(staged := Without(s.staged, path))
    case Clear => s.writer.Some? && s' == s.(staged := {})
    case Commit => s.writer.Some? && s' == s.(committed := s.staged, history := s.history + {s.staged})
    case Rollback => s.writer.Some? && s' == s.(staged := s.committed)
    case ReleaseWriter => s' == Dropped(s)
    case Close(e) =>
      var s1 := s.(engines := s.engines - {e});
      s' == if s.writer == Some(e) then Dropped(s1) else s1
    case Absorb(e, snapshot, found, initial) =>
      && IsReading(initial, s.disk) && e in s.engines && snapshot in s.history
           && (exists read :: read <= snapshot && IsFound(read, found))
      && var known := Absorbed(Looked(s.engines[e], initial), found);
         s' == s.(engines := s.engines[e := s.engines[e].(numbers := Some(known))])
  }

  /** Whoever catches up reads the reservation as it was written. */
  predicate CatchesUp(s: State, a: Action) {
    a.CatchUp? ==> a.seen == s.disk
  }

  /** A step; `readable` tells whether catching up always can read the reservation. */
  ghost predicate Next(s: State, s': State, readable: bool) {
    exists a :: Step(s, a, s') && (readable ==> CatchesUp(s, a))
  }

  ghost predicate IsRun(run: seq<State>, index: Index, disk: nat, readable: bool) {
    && run != [] && Init(run[0], index, disk)
    && forall i {:trigger run[i]} :: 0 < i < |run| ==> Next(run[i - 1], run[i], readable)
  }

  // ── Safety ───────────────────────────────────────────────────────────────────

  /** No number is held by two books. */
  ghost predicate OneHolder(index: Index) {
    forall b, c :: b in index && c in index && b.1 == c.1 && IsBookNumber(b.1) ==> b.0 == c.0
  }

  /** Every number held lies below the reservation on disk. */
  ghost predicate AllReserved(index: Index, disk: nat) {
    forall b :: b in index && IsBookNumber(b.1) ==> b.1 < Max(disk, 1)
  }

  /** What an engine believes was true at some time, and what it may hand out it may still hand out. */
  ghost predicate Honest(k: Known, held: Index, disk: nat) {
    && (forall p :: p in k.byPath ==> (p, k.byPath[p]) in held)
    && (forall n :: n in k.paths ==> (k.paths[n], n) in held)
    && 1 <= k.next <= U32_MAX && 1 <= k.reserved <= Max(disk, 1)
  }

  /** The writer that has caught up hands out numbers past every one held, and moves the reservation up. */
  ghost predicate Ahead(k: Known, held: Index, disk: nat) {
    && disk <= Max(k.reserved, SaturatingAdd(k.next, NUMBER_RESERVATION))
    && forall b :: b in held ==> b.1 < k.next
  }

  ghost predicate KnowsTruth(engine: Engine, held: Index, disk: nat) {
    engine.numbers.Some? ==> Honest(engine.numbers.value, held, disk)
  }

  ghost predicate Recalled(index: Index, held: Index) {
    forall b :: b in index && IsBookNumber(b.1) ==> b in held
  }

  ghost predicate WriterAhead(s: State) {
    s.writer.Some? && s.writer.value in s.engines && !s.engines[s.writer.value].stale ==>
      && s.engines[s.writer.value].numbers.Some?
      && Ahead(s.engines[s.writer.value].numbers.value, s.held, s.disk)
  }

  ghost predicate Inv(s: State) {
    && s.disk <= U32_MAX
    && OneHolder(s.held) && AllReserved(s.held, s.disk)
    && (forall b :: b in s.held ==> IsBookNumber(b.1))
    && Recalled(s.staged, s.held) && Recalled(s.committed, s.held)
    && (forall index :: index in s.history ==> Recalled(index, s.held))
    && (forall e :: e in s.engines ==> KnowsTruth(s.engines[e], s.held, s.disk))
    && WriterAhead(s)
    && (s.writer.Some? ==> s.writer.value in s.engines)
  }

  lemma {:induction false} AbsorbedHonest(k: Known, found: Books, held: Index, disk: nat)
    requires Honest(k, held, disk)
    requires forall b :: b in found ==> b in held && IsBookNumber(b.1)
    ensures Honest(Absorbed(k, found), held, disk)
    ensures Absorbed(k, found).next >= k.next && Absorbed(k, found).reserved == k.reserved
  {
    if found != [] {
      assert found[|found| - 1] in found;
      AbsorbedHonest(k, found[..|found| - 1], held, disk);
    }
  }

  lemma {:induction false} ReconciledHonest(byPath: map<Path, nat>, found: Books, held: Index)
    requires forall p :: p in byPath ==> (p, byPath[p]) in held
    requires forall b :: b in found ==> b in held
    ensures forall p :: p in Reconciled(byPath, found) ==> (p, Reconciled(byPath, found)[p]) in held
  {
    if found != [] {
      assert found[|found| - 1] in found;
      ReconciledHonest(byPath, found[..|found| - 1], held);
    }
  }

  /** Catching up leaves the writer past every number held: each was reserved on disk. */
  lemma CaughtUpAhead(k: Known, found: Books, held: Index, disk: nat)
    requires Honest(k, held, disk) && AllReserved(held, disk) && disk <= U32_MAX
    requires forall b :: b in held ==> IsBookNumber(b.1)
    requires forall b :: b in found ==> b in held
    ensures Honest(CaughtUp(k, found, disk), held, disk) && Ahead(CaughtUp(k, found, disk), held, disk)
  {
    ReconciledHonest(k.byPath, found, held);
    AbsorbedHonest(k.(byPath := Reconciled(k.byPath, found)), found, held, disk);
  }

  lemma HonestLater(k: Known, held: Index, disk: nat, held': Index, disk': nat)
    requires Honest(k, held, disk) && held <= held' && disk <= disk'
    ensures Honest(k, held', disk')
  {
  }

  ghost predicate Consistent(held: Index, disk: nat) {
    && disk <= U32_MAX && OneHolder(held) && AllReserved(held, disk)
    && forall b :: b in held ==> IsBookNumber(b.1)
  }

  lemma NewNumberIsSafe(k: Known, held: Index, disk: nat, path: Path)
    requires Consistent(held, disk) && Honest(k, held, disk) && Ahead(k, held, disk)
    requires k.next < k.reserved && k.next < U32_MAX
    ensures var k', held' := Recorded(k, path, k.next), held + {(path, k.next)};
            Consistent(held', disk) && Honest(k', held', disk) && Ahead(k', held', disk)
  {
  }

  /** Looking at the reservation before asking keeps a writer ahead. */
  lemma LooksAhead(k: Known, held: Index, disk: nat, seen: nat)
    requires Consistent(held, disk) && Honest(k, held, disk) && Ahead(k, held, disk) && IsReading(seen, disk)
    ensures var k1 := k.(next := Max(k.next, seen)); Honest(k1, held, disk) && Ahead(k1, held, disk)
  {
  }

  /** Moving the reservation up keeps a writer ahead, whether or not it learns of it. */
  lemma ReservesMore(k: Known, held: Index, disk: nat, disk': nat)
    requires Consistent(held, disk) && Honest(k, held, disk) && Ahead(k, held, disk)
    requires k.reserved <= k.next < U32_MAX && disk' == SaturatingAdd(k.next, NUMBER_RESERVATION)
    ensures disk <= disk' && Consistent(held, disk') && Honest(k, held, disk') && Ahead(k, held, disk')
    ensures var k1 := k.(reserved := disk'); k1.next < disk' && Honest(k1, held, disk') && Ahead(k1, held, disk')
  {
  }

  /** A writer that is ahead asks for a number: the one handed out is the book's own or no one's,
      and lies below the reservation on disk by then. */
  lemma AskedIsSafe(k: Known, held: Index, disk: nat, path: Path, seen: nat, replacement: Replacement)
    requires Consistent(held, disk) && Honest(k, held, disk) && Ahead(k, held, disk) && IsReading(seen, disk)
    ensures var (k', disk', outcome) := Asked(k, disk, path, seen, replacement);
            var held' := if outcome.Handed? then held + {(path, outcome.number)} else held;
            && disk <= disk' && Consistent(held', disk') && Honest(k', held', disk') && Ahead(k', held', disk')
  {
    var k1 := if k.next >= k.reserved then k.(next := Max(k.next, seen)) else k;
    LooksAhead(k, held, disk, seen);
    if path in k.byPath {
      assert held + {(path, k.byPath[path])} == held;
    } else if k1.next < U32_MAX {
      AskedAhead(k, k1, held, disk, path, seen, replacement);
    }
  }

  lemma AskedAhead(k: Known, k1: Known, held: Index, disk: nat, path: Path, seen: nat, replacement: Replacement)
    requires Consistent(held, disk) && Honest(k1, held, disk) && Ahead(k1, held, disk)
    requires path !in k.byPath && k1.next < U32_MAX
    requires k1 == if k.next >= k.reserved then k.(next := Max(k.next, seen)) else k
    ensures var (k', disk', outcome) := Asked(k, disk, path, seen, replacement);
            var held' := if outcome.Handed? then held + {(path, outcome.number)} else held;
            && disk <= disk' && Consistent(held', disk') && Honest(k', held', disk') && Ahead(k', held', disk')
  {
    if k1.next < k1.reserved {
      NewNumberIsSafe(k1, held, disk, path);
    } else {
      var disk' := SaturatingAdd(k1.next, NUMBER_RESERVATION);
      ReservesMore(k1, held, disk, disk');
      if replacement.Replaced? {
        NewNumberIsSafe(k1.(reserved := disk'), held, disk', path);
      }
    }
  }

  lemma WriteKeeps(s: State, a: Action, s': State)
    requires Inv(s) && a.Write? && Step(s, a, s')
    ensures Inv(s')
  {
    var k := s.engines[a.e].numbers.value;
    assert KnowsTruth(s.engines[a.e], s.held, s.disk);
    AskedIsSafe(k, s.held, s.disk, a.path, a.seen, a.replacement);
    forall e | e in s'.engines ensures KnowsTruth(s'.engines[e], s'.held, s'.disk) {
      if e != a.e && s.engines[e].numbers.Some? {
        assert KnowsTruth(s.engines[e], s.held, s.disk);
        HonestLater(s.engines[e].numbers.value, s.held, s.disk, s'.held, s'.disk);
      }
    }
  }

  lemma LookedHonest(s: State, e: nat, initial: nat)
    requires Inv(s) && e in s.engines && IsReading(initial, s.disk)
    ensures Honest(Looked(s.engines[e], initial), s.held, s.disk)
  {
    assert KnowsTruth(s.engines[e], s.held, s.disk);
  }

  lemma CatchUpKeeps(s: State, a: Action, s': State)
    requires Inv(s) && a.CatchUp? && Step(s, a, s') && CatchesUp(s, a)
    ensures Inv(s')
  {
    LookedHonest(s, a.e, a.initial);
    CaughtUpAhead(Looked(s.engines[a.e], a.initial), a.found, s.held, s.disk);
    forall e | e in s'.engines ensures KnowsTruth(s'.engines[e], s'.held, s'.disk) {
      if e != a.e {
        assert KnowsTruth(s.engines[e], s.held, s.disk);
      }
    }
  }

  lemma AbsorbKeeps(s: State, a: Action, s': State)
    requires Inv(s) && a.Absorb? && Step(s, a, s')
    ensures Inv(s')
  {
    LookedHonest(s, a.e, a.initial);
    assert Recalled(a.snapshot, s.held);
    AbsorbedHonest(Looked(s.engines[a.e], a.initial), a.found, s.held, s.disk);
    forall e | e in s'.engines ensures KnowsTruth(s'.engines[e], s'.held, s'.disk) {
      if e != a.e {
        assert KnowsTruth(s.engines[e], s.held, s.disk);
      }
    }
  }

  lemma TurnKeeps(s: State, a: Action, s': State)
    requires Inv(s) && Step(s, a, s') && (a.Open? || a.TakeWriter? || a.ReleaseWriter? || a.Close?)
    ensures Inv(s')
  {
    forall e | e in s'.engines ensures KnowsTruth(s'.engines[e], s'.held, s'.disk) {
      assert e in s.engines ==> KnowsTruth(s.engines[e], s.held, s.disk);
    }
  }

  lemma ContentKeeps(s: State, a: Action, s': State)
    requires Inv(s) && Step(s, a, s') && (a.Delete? || a.Clear? || a.Commit? || a.Rollback?)
    ensures Inv(s')
  {
  }

  /** Every step keeps the invariant, as long as catching up reads the reservation. */
  lemma StepKeeps(s: State, a: Action, s': State)
    requires Inv(s) && Step(s, a, s') && CatchesUp(s, a)
    ensures Inv(s')
  {
    match a
    case Write(_, _, _, _, _) => WriteKeeps(s, a, s');
    case CatchUp(_, _, _, _) => CatchUpKeeps(s, a, s');
    case Absorb(_, _, _, _) => AbsorbKeeps(s, a, s');
    case Open(_) => TurnKeeps(s, a, s');
    case TakeWriter(_) => TurnKeeps(s, a, s');
    case ReleaseWriter => TurnKeeps(s, a, s');
    case Close(_) => TurnKeeps(s, a, s');
    case Delete(_) => ContentKeeps(s, a, s');
    case Clear => ContentKeeps(s, a, s');
    case Commit => ContentKeeps(s, a, s');
    case Rollback => ContentKeeps(s, a, s');
  }

  lemma {:induction false} RunKeeps(run: seq<State>, index: Index, disk: nat, i: nat)
    requires IsRun(run, index, disk, true) && i < |run|
    requires OneHolder(index) && AllReserved(index, disk)
    ensures Inv(run[i])
  {
    if i > 0 {
      RunKeeps(run, index, disk, i - 1);
      assert Next(run[i - 1], run[i], true);
      var a :| Step(run[i - 1], a, run[i]) && CatchesUp(run[i - 1], a);
      StepKeeps(run[i - 1], a, run[i]);
    }
  }

  // ── What happens without the reservation ─────────────────────────────────────

  ghost predicate Reaches(index: Index, disk: nat, readable: bool, s: State) {
    exists run :: IsRun(run, index, disk, readable) && run[|run| - 1] == s
  }

  lemma RunExtends(run: seq<State>, index: Index, disk: nat, readable: bool, s: State)
    requires IsRun(run, index, disk, readable) && Next(run[|run| - 1], s, readable)
    ensures IsRun(run + [s], index, disk, readable)
  {
    var longer := run + [s];
    forall i | 0 < i < |longer| ensures Next(longer[i - 1], longer[i], readable) {
      if i < |run| {
        assert longer[i - 1] == run[i - 1] && longer[i] == run[i];
      }
    }
  }

  lemma IsNext(s: State, a: Action, s': State, readable: bool)
    requires Step(s, a, s') && (readable ==> CatchesUp(s, a))
    ensures Next(s, s', readable)
  {
  }

  lemma ReachesNext(index: Index, disk: nat, readable: bool, s: State, a: Action, s': State)
    requires Reaches(index, disk, readable, s) && Step(s, a, s') && (readable ==> CatchesUp(s, a))
    ensures Reaches(index, disk, readable, s')
  {
    IsNext(s, a, s', readable);
    var run :| IsRun(run, index, disk, readable) && run[|run| - 1] == s;
    RunExtends(run, index, disk, readable, s');
    var longer := run + [s'];
    assert longer[|longer| - 1] == s';
  }

  /** A book with a number is listed, under one it has. */
  ghost predicate ListsPaths(index: Index, found: Books) {
    && (forall b :: b in found ==> b in index && IsBookNumber(b.1))
    && (forall i, j :: 0 <= i < j < |found| ==> found[i].0 != found[j].0)
    && (forall b :: b in index && IsBookNumber(b.1) ==> exists i :: 0 <= i < |found| && found[i].0 == b.0)
  }

  lemma {:induction false} ListsBooks(index: Index) returns (found: Books)
    ensures ListsPaths(index, found)
    decreases |index|
  {
    if index == {} {
      found := [];
    } else {
      var b :| b in index;
      var rest := ListsBooks(index - {b});
      if IsBookNumber(b.1) && forall i :: 0 <= i < |rest| ==> rest[i].0 != b.0 {
        found := rest + [b];
        assert found[|rest|].0 == b.0;
        forall c | c in index && IsBookNumber(c.1) ensures exists i :: 0 <= i < |found| && found[i].0 == c.0 {
          if c != b {
            var i :| 0 <= i < |rest| && rest[i].0 == c.0;
            assert found[i].0 == c.0;
          }
        }
      } else {
        found := rest;
      }
    }
  }

  /** A reading of the index that finds `a` under `n`. */
  lemma FindsBook(index: Index, a: Path, n: nat) returns (found: Books)
    requires (a, n) in index && IsBookNumber(n)
    ensures IsFound(index, found) && (a, n) in found
  {
    var one := set b | b in index && (b.0 != a || b == (a, n));
    found := ListsBooks(one);
    var i :| 0 <= i < |found| && found[i].0 == a;
    assert found[i] in found && found[i] == (a, n);
    forall b | b in index && IsBookNumber(b.1) && (forall c :: c in index && c.0 == b.0 ==> c == b) ensures b in found {
      assert b.0 == a ==> b == (a, n);
      var j :| 0 <= j < |found| && found[j].0 == b.0;
      assert found[j] in found;
    }
  }

  lemma {:induction false} ReconciledHas(byPath: map<Path, nat>, found: Books, b: (Path, nat))
    requires b in found && forall i, j :: 0 <= i < j < |found| ==> found[i].0 != found[j].0
    ensures b.0 in Reconciled(byPath, found) && Reconciled(byPath, found)[b.0] == b.1
  {
    var n := |found| - 1;
    if found[n] != b {
      assert b in found[..n];
      ReconciledHas(byPath, found[..n], b);
    }
  }

  lemma {:induction false} AbsorbedKeeps(k: Known, found: Books, path: Path)
    requires path in k.byPath
    ensures path in Absorbed(k, found).byPath && Absorbed(k, found).byPath[path] == k.byPath[path]
  {
    if found != [] {
      AbsorbedKeeps(k, found[..|found| - 1], path);
    }
  }

  /** An engine that takes the writer learns the index's books. */
  lemma Learns(index: Index, disk: nat, readable: bool, a: Path, n: nat) returns (s: State, k: Known)
    requires disk <= U32_MAX && (a, n) in index && IsBookNumber(n)
    ensures Reaches(index, disk, readable, s) && s.writer == Some(1) && s.disk == disk
    ensures s.engines == map[1 := Engine(Some(k), false)] && a in k.byPath && k.byPath[a] == n
  {
    var s0 := State(map[], None, index, index, {index}, disk, BookPairs(index));
    assert IsRun([s0], index, disk, readable) && [s0][|[s0]| - 1] == s0;
    var s1 := s0.(engines := map[1 := Engine(None, true)]);
    ReachesNext(index, disk, readable, s0, Open(1), s1);
    var s2 := s1.(writer := Some(1));
    assert s1.engines[1 := Engine(None, true)] == s1.engines;
    ReachesNext(index, disk, readable, s1, TakeWriter(1), s2);
    var found := FindsBook(index, a, n);
    k := CaughtUp(Opened(disk), found, disk);
    ReconciledHas(map[], found, (a, n));
    AbsorbedKeeps(Opened(disk).(byPath := Reconciled(map[], found)), found, a);
    s := s2.(engines := s2.engines[1 := Engine(Some(k), false)]);
    ReachesNext(index, disk, readable, s2, CatchUp(1, found, disk, disk), s);
    assert s.engines == map[1 := Engine(Some(k), false)];
  }

  /** It then empties the index and lets the writer go. */
  lemma LearnsAndClears(index: Index, disk: nat, readable: bool, a: Path, n: nat) returns (s: State, k: Known)
    requires disk <= U32_MAX && (a, n) in index && IsBookNumber(n)
    ensures Reaches(index, disk, readable, s) && s.writer == None && s.staged == {} && s.committed == {}
    ensures s.disk == disk
    ensures s.engines == map[1 := Engine(Some(k), false)] && a in k.byPath && k.byPath[a] == n
  {
    var s3;
    s3, k := Learns(index, disk, readable, a, n);
    var s4 := s3.(staged := {});
    ReachesNext(index, disk, readable, s3, Clear, s4);
    var s5 := s4.(committed := {}, history := s4.history + {{}});
    ReachesNext(index, disk, readable, s4, Commit, s5);
    s := Dropped(s5);
    ReachesNext(index, disk, readable, s5, ReleaseWriter, s);
  }

  /** A book no engine has met. */
  function NewName(a: Path, number: nat): Path {
    a + seq(number + 1, _ => 'x')
  }

  /** Engine 2 writes, having met only new books, and engine 1 stands by. */
  ghost predicate Handing(s: State, first: Known, a: Path, k: Known) {
    && s.writer == Some(2)
    && s.engines == map[1 := Engine(Some(first), false), 2 := Engine(Some(k), false)]
    && (forall p :: p in k.byPath ==> exists j: nat :: j < k.next && p == NewName(a, j))
    && s.staged == {} && s.disk <= U32_MAX
  }

  lemma Unmet(s: State, first: Known, a: Path, k: Known)
    requires Handing(s, first, a, k)
    ensures NewName(a, k.next) !in k.byPath
  {
    forall j: nat | j < k.next ensures NewName(a, k.next) != NewName(a, j) {
      assert |NewName(a, k.next)| > |NewName(a, j)|;
    }
  }

  /** A second engine, knowing nothing of the books that were there, takes its turn. */
  lemma SecondTakesOver(index: Index, disk: nat, readable: bool, s: State, first: Known, a: Path, seen: nat)
    returns (s': State, k: Known)
    requires Reaches(index, disk, readable, s) && s.writer == None && s.committed == {} && s.staged == {}
    requires s.disk <= U32_MAX && IsReading(seen, s.disk) && (readable ==> seen == s.disk)
    requires s.engines == map[1 := Engine(Some(first), false)]
    ensures Reaches(index, disk, readable, s') && Handing(s', first, a, k) && k.next == Max(seen, 1)
  {
    var s1 := s.(engines := s.engines[2 := Engine(None, true)]);
    ReachesNext(index, disk, readable, s, Open(2), s1);
    var s2 := s1.(writer := Some(2), engines := s1.engines[2 := Engine(None, true)]);
    ReachesNext(index, disk, readable, s1, TakeWriter(2), s2);
    k := CaughtUp(Opened(seen), [], seen);
    s' := s2.(engines := s2.engines[2 := Engine(Some(k), false)]);
    assert IsFound({}, []);
    ReachesNext(index, disk, readable, s2, CatchUp(2, [], seen, seen), s');
    assert s'.engines == map[1 := Engine(Some(first), false), 2 := Engine(Some(k), false)];
  }

  /** It writes a book it has not met, with or without leaving it in the index. */
  lemma HandsOutOne(index: Index, disk: nat, readable: bool, s: State, first: Known, a: Path, k: Known, added: bool)
    returns (s': State, k': Known)
    requires Reaches(index, disk, readable, s) && Handing(s, first, a, k) && k.next < U32_MAX
    ensures Reaches(index, disk, readable, s') && s'.writer == Some(2) && s'.disk <= U32_MAX
    ensures 1 in s'.engines && s'.engines[1] == Engine(Some(first), false)
    ensures s'.staged == if added then {(NewName(a, k.next), k.next)} else {}
    ensures !added ==> Handing(s', first, a, k') && k'.next == k.next + 1
  {
    Unmet(s, first, a, k);
    var path := NewName(a, k.next);
    var seen := if k.reserved == Max(s.disk, 1) then s.disk else 0;
    var (known, disk', outcome) := Asked(k, s.disk, path, seen, Replaced);
    k' := known;
    assert outcome == Handed(k.next) && k'.next == k.next + 1 && k'.byPath == k.byPath[path := k.next];
    s' := s.(engines := s.engines[2 := Engine(Some(k'), false)], disk := disk', held := s.held + {(path, k.next)},
             staged := if added then s.staged + {(path, k.next)} else s.staged);
    ReachesNext(index, disk, readable, s, Write(2, path, seen, Replaced, added), s');
    assert s'.engines == map[1 := Engine(Some(first), false), 2 := Engine(Some(k'), false)];
  }

  /** It hands out every number up to `n`, the last of which it keeps. */
  lemma {:induction false} HandsOutUpTo(index: Index, disk: nat, readable: bool, s: State, first: Known, a: Path,
                                        k: Known, n: nat)
    returns (s': State)
    requires Reaches(index, disk, readable, s) && Handing(s, first, a, k) && k.next <= n < U32_MAX
    ensures Reaches(index, disk, readable, s') && s'.writer == Some(2) && s'.disk <= U32_MAX
    ensures 1 in s'.engines && s'.engines[1] == Engine(Some(first), false) && s'.staged == {(NewName(a, n), n)}
    decreases n - k.next
  {
    var k';
    s', k' := HandsOutOne(index, disk, readable, s, first, a, k, k.next == n);
    if k.next < n {
      s' := HandsOutUpTo(index, disk, readable, s', first, a, k', n);
    }
  }

  /** The index is committed, and the first engine takes the writer back. */
  lemma FirstTakesBack(index: Index, disk: nat, readable: bool, s: State, first: Known) returns (s': State)
    requires Reaches(index, disk, readable, s) && s.writer.Some?
    requires 1 in s.engines && s.engines[1] == Engine(Some(first), false)
    ensures Reaches(index, disk, readable, s') && s'.writer == Some(1) && s'.disk == s.disk
    ensures s'.staged == s'.committed == s.staged
    ensures 1 in s'.engines && s'.engines[1] == Engine(Some(first), true)
  {
    var s1 := s.(committed := s.staged, history := s.history + {s.staged});
    ReachesNext(index, disk, readable, s, Commit, s1);
    var s2 := Dropped(s1);
    ReachesNext(index, disk, readable, s1, ReleaseWriter, s2);
    s' := s2.(writer := Some(1), engines := s2.engines[1 := Engine(Some(first), true)]);
    ReachesNext(index, disk, readable, s2, TakeWriter(1), s');
  }

  /** It writes its book again, under the number it remembers. */
  lemma FirstReturns(index: Index, disk: nat, readable: bool, s: State, first: Known, a: Path, b: Path, n: nat)
    returns (s': State)
    requires Reaches(index, disk, readable, s) && s.writer.Some? && s.staged == {(b, n)} && a != b && IsBookNumber(n)
    requires 1 in s.engines && s.engines[1] == Engine(Some(first), false) && a in first.byPath && first.byPath[a] == n
    ensures Reaches(index, disk, readable, s') && !OneHolder(s'.committed)
  {
    var s0 := FirstTakesBack(index, disk, readable, s, first);
    var found := [(b, n)];
    var k := CaughtUp(first, found, s.disk);
    assert found[..0] == [] && Reconciled(first.byPath, found) == first.byPath[b := n];
    AbsorbedKeeps(first.(byPath := Reconciled(first.byPath, found)), found, a);
    var s1 := s0.(engines := s0.engines[1 := Engine(Some(k), false)]);
    ReachesNext(index, disk, readable, s0, CatchUp(1, found, s.disk, s.disk), s1);
    var s2 := s1.(held := s1.held + {(a, n)}, staged := s1.staged + {(a, n)});
    assert s1.engines[1 := Engine(Some(k), false)] == s1.engines;
    ReachesNext(index, disk, readable, s1, Write(1, a, s.disk, Replaced, true), s2);
    s' := s2.(committed := s2.staged, history := s2.history + {s2.staged});
    ReachesNext(index, disk, readable, s2, Commit, s');
    assert (a, n) in s'.committed && (b, n) in s'.committed;
  }

  /** A number the stored reservation does not cover can be given away under its book. */
  lemma UnreservedIsShared(index: Index, disk: nat, readable: bool, a: Path, n: nat) returns (s: State)
    requires disk <= U32_MAX && (a, n) in index && IsBookNumber(n) && n >= Max(disk, 1)
    ensures Reaches(index, disk, readable, s) && !OneHolder(s.committed)
  {
    var first, k;
    s, first := LearnsAndClears(index, disk, readable, a, n);
    s, k := SecondTakesOver(index, disk, readable, s, first, a, s.disk);
    s := HandsOutUpTo(index, disk, readable, s, first, a, k, n);
    assert |NewName(a, n)| > |a|;
    s := FirstReturns(index, disk, readable, s, first, a, NewName(a, n), n);
  }

  /** An engine takes the writer and empties the index. */
  lemma FirstClears(index: Index, disk: nat) returns (s: State)
    requires disk <= U32_MAX
    ensures Reaches(index, disk, false, s) && s.writer == Some(1) && s.staged == {} && s.committed == {}
    ensures s.disk == disk && s.engines == map[1 := Engine(None, true)]
  {
    var s0 := State(map[], None, index, index, {index}, disk, BookPairs(index));
    assert IsRun([s0], index, disk, false) && [s0][|[s0]| - 1] == s0;
    var s1 := s0.(engines := map[1 := Engine(None, true)]);
    ReachesNext(index, disk, false, s0, Open(1), s1);
    var s2 := s1.(writer := Some(1));
    assert s1.engines[1 := Engine(None, true)] == s1.engines;
    ReachesNext(index, disk, false, s1, TakeWriter(1), s2);
    var s3 := s2.(staged := {});
    ReachesNext(index, disk, false, s2, Clear, s3);
    s := s3.(committed := {}, history := s3.history + {{}});
    ReachesNext(index, disk, false, s3, Commit, s);
  }

  /** It cannot read the reservation, and gives its first book number 1. */
  lemma FirstWritesUnread(index: Index, disk: nat) returns (s: State, k: Known)
    requires disk <= U32_MAX
    ensures Reaches(index, disk, false, s) && s.writer == None && s.staged == {} && s.committed == {}
    ensures s.disk <= U32_MAX && s.engines == map[1 := Engine(Some(k), false)] && k.byPath == map["" := 1]
  {
    var s0 := FirstClears(index, disk);
    var unread := CaughtUp(Opened(0), [], 0);
    var s1 := s0.(engines := map[1 := Engine(Some(unread), false)]);
    assert s0.engines[1 := Engine(Some(unread), false)] == s1.engines;
    assert IsFound({}, []);
    ReachesNext(index, disk, false, s0, CatchUp(1, [], 0, 0), s1);
    var (known, disk', _) := Asked(unread, disk, "", 0, Replaced);
    k := known;
    var s2 := s1.(engines := map[1 := Engine(Some(k), false)], disk := disk', held := s1.held + {("", 1)},
                  staged := {("", 1)});
    assert s1.engines[1 := Engine(Some(k), false)] == s2.engines;
    ReachesNext(index, disk, false, s1, Write(1, "", 0, Replaced, true), s2);
    s := Dropped(s2);
    ReachesNext(index, disk, false, s2, ReleaseWriter, s);
  }

  /** Whatever the first index and the reservation, two books can share a number if those who catch up
      cannot read it. */
  lemma UnreadIsShared(index: Index, disk: nat) returns (s: State)
    requires disk <= U32_MAX
    ensures Reaches(index, disk, false, s) && !OneHolder(s.committed)
  {
    var first, k;
    s, first := FirstWritesUnread(index, disk);
    s, k := SecondTakesOver(index, disk, false, s, first, "", 0);
    s := HandsOutUpTo(index, disk, false, s, first, "", k, 1);
    assert |NewName("", 1)| > 0;
    s := FirstReturns(index, disk, false, s, first, "", NewName("", 1), 1);
  }

  lemma ReachableIsSafe(index: Index, disk: nat, s: State)
    requires Reaches(index, disk, true, s) && OneHolder(index) && AllReserved(index, disk)
    ensures OneHolder(s.held) && AllReserved(s.held, s.disk) && OneHolder(s.committed)
  {
    var run :| IsRun(run, index, disk, true) && run[|run| - 1] == s;
    RunKeeps(run, index, disk, |run| - 1);
  }

  /** In every run no two books ever share a number, exactly when none did at the start, the stored
      reservation covered every number, and whoever catches up can read it. */
  lemma NumbersAreNeverShared(index: Index, disk: nat, readable: bool)
    requires disk <= U32_MAX
    ensures (forall s :: Reaches(index, disk, readable, s) ==> OneHolder(s.committed))
        <==> readable && OneHolder(index) && AllReserved(index, disk)
  {
    if !readable {
      var s := UnreadIsShared(index, disk);
    } else if OneHolder(index) && AllReserved(index, disk) {
      forall s | Reaches(index, disk, readable, s) ensures OneHolder(s.committed) {
        ReachableIsSafe(index, disk, s);
      }
    } else if !OneHolder(index) {
      var s0 := State(map[], None, index, index, {index}, disk, BookPairs(index));
      assert IsRun([s0], index, disk, readable) && [s0][|[s0]| - 1] == s0;
      assert Reaches(index, disk, readable, s0);
    } else {
      var b :| b in index && IsBookNumber(b.1) && b.1 >= Max(disk, 1);
      var s := UnreservedIsShared(index, disk, readable, b.0, b.1);
    }
  }

  // ── What is committed ────────────────────────────────────────────────────────

  lemma {:induction false} NothingStagedWithoutWriter(run: seq<State>, index: Index, disk: nat, readable: bool, i: nat)
    requires IsRun(run, index, disk, readable) && i < |run|
    ensures run[i].writer == None ==> run[i].staged == run[i].committed
  {
    if i > 0 {
      NothingStagedWithoutWriter(run, index, disk, readable, i - 1);
      assert Next(run[i - 1], run[i], readable);
      var a :| Step(run[i - 1], a, run[i]);
      StaysUnstaged(run[i - 1], a, run[i]);
    }
  }

  lemma StaysUnstaged(s: State, a: Action, s': State)
    requires Step(s, a, s') && (s.writer == None ==> s.staged == s.committed)
    ensures s'.writer == None ==> s'.staged == s'.committed
  {
  }

  /** The steps of a writer until it commits. */
  predicate IsWriting(a: Action) {
    a.Open? || a.CatchUp? || a.Write? || a.Absorb?
  }

  /** After a book is deleted, and as long as no one writes it again, a commit publishes none of its numbers. */
  lemma {:induction false} DeletedIsGone(run: seq<State>, actions: seq<Action>, path: Path, i: nat)
    requires |run| == |actions| + 1 && 0 < i < |run| && actions[0] == Delete(path)
    requires forall j :: 0 <= j < |actions| ==> Step(run[j], actions[j], run[j + 1])
    requires forall j :: 0 < j < i ==> IsWriting(actions[j]) && (actions[j].Write? ==> actions[j].path != path)
    ensures forall b :: b in run[i].staged ==> b.0 != path
  {
    assert Step(run[i - 1], actions[i - 1], run[i]);
    if i > 1 {
      DeletedIsGone(run, actions, path, i - 1);
    }
  }

  /** A rollback forgets what was staged: a commit then publishes what was published before. */
  lemma RolledBackIsGone(s: State, s1: State, s2: State)
    requires Step(s, Rollback, s1) && Step(s1, Commit, s2)
    ensures s2.committed == s.committed && s2.staged == s.committed
  {
  }
}
