/** Concurrent requests to the highlight cache, and clears of it, in every interleaving: who
    computes, who shares whose work, and what the cache can hold. */
module HighlightCache {
  import opened Prelude

  /** The cache's two halves, each with its own lock and its own gate. */
  datatype Kind = TermSets | Patterns

  datatype Key = Key(kind: Kind, name: nat)

  /** A request: the epoch it read first, and the last bump whose clear had returned by then. */
  datatype Request = Request(key: Key, epoch: nat, floor: nat)

  /** A cached or returned value, told by the key and the epoch of the request that computed it. */
  datatype Value = Value(key: Key, epoch: nat)

  /** `Work` objects are numbered in the order they are made. */
  datatype Pc =
    | Outside
      /** The epoch is read; the first lookup comes next. */
    | Asking(r: Request)
    | Entering(r: Request)
      /** Holds its work, and waits until no one is busy with it. */
    | Waiting(r: Request, work: nat)
      /** Busy; the second lookup comes next. */
    | Inside(r: Request, work: nat)
    | Computing(r: Request, work: nat)
    | Storing(r: Request, work: nat)
      /** Holds the cache's lock, with the epoch unchanged. */
    | Putting(r: Request, work: nat)
    | Leaving(r: Request, work: nat, got: Option<Value>)
      /** No longer busy; its work is let go next. */
    | Left(r: Request, work: nat, got: Option<Value>)
    | Answered(r: Request, value: Value)
      /** A clear, after bumping the epoch to `e`, and after each of its further steps. */
    | Bumped(e: nat)
    | ClearedTerms(e: nat)
    | ClearedBoth(e: nat)
    | IdledTerms(e: nat)

  /** `locks` tells who holds each cache's lock over several steps; `cleared` is the newest bump
      whose clear has returned. */
  datatype State = State(
    threads: map<nat, Pc>, epoch: nat, cache: map<Key, Value>, locks: map<Kind, nat>,
    gate: map<Key, nat>, busy: set<nat>, made: nat, cleared: nat)

  // ── What a thread holds ──────────────────────────────────────────────────────

  /** What a request computes. */
  function Computed(r: Request): Value {
    Value(r.key, r.epoch)
  }

  /** The thread counts as one owner of `work`, under `key`. */
  predicate Holds(pc: Pc, key: Key, work: nat) {
    (pc.Waiting? || pc.Inside? || pc.Computing? || pc.Storing? || pc.Putting? || pc.Leaving? || pc.Left?)
    && pc.r.key == key && pc.work == work
  }

  /** The thread is the one busy with `work`. */
  predicate IsBusy(pc: Pc, work: nat) {
    (pc.Inside? || pc.Computing? || pc.Storing? || pc.Putting? || pc.Leaving?) && pc.work == work
  }

  predicate IsRequest(pc: Pc) {
    !pc.Outside? && !IsClear(pc)
  }

  predicate IsClear(pc: Pc) {
    pc.Bumped? || pc.ClearedTerms? || pc.ClearedBoth? || pc.IdledTerms?
  }

  ghost predicate HeldByAny(s: State, key: Key, work: nat) {
    exists t :: t in s.threads && Holds(s.threads[t], key, work)
  }

  /** The gate without the work of `kind` that no thread holds. */
  ghost function Retained(s: State, kind: Kind): map<Key, nat> {
    map k | k in s.gate && (k.kind != kind || HeldByAny(s, k, s.gate[k])) :: s.gate[k]
  }

  function WithoutKind(cache: map<Key, Value>, kind: Kind): map<Key, Value> {
    map k | k in cache && k.kind != kind :: cache[k]
  }

  predicate Free(s: State, kind: Kind) {
    kind !in s.locks
  }

  function At(s: State, t: nat, pc: Pc): State {
    s.(threads := s.threads[t := pc])
  }

  // ── Steps ────────────────────────────────────────────────────────────────────

  datatype Action =
    | Begin(key: Key)
    | LookHit
    | LookMiss
    | Enter
    | Acquire
      /** Cancelled, or failed: nothing is answered. */
    | GiveUp
    | Compute
      /** `fits`: the value is small enough to be kept. */
    | Check(fits: bool)
      /** `kept` is the cache after the value is put and what is least recent dropped. */
    | Put(kept: map<Key, Value>)
    | Leave
    | LetGo
    | Return
    | Clear

  ghost predicate Started(s: State, t: nat, key: Key, s': State)
    requires t in s.threads
  {
    s.threads[t].Outside? && s' == At(s, t, Asking(Request(key, s.epoch, s.cleared)))
  }

  ghost predicate Hit(s: State, t: nat, s': State)
    requires t in s.threads
  {
    var pc := s.threads[t];
    && (pc.Asking? || pc.Inside?) && Free(s, pc.r.key.kind) && pc.r.key in s.cache
    && s' == At(s, t, if pc.Asking? then Answered(pc.r, s.cache[pc.r.key])
                      else Leaving(pc.r, pc.work, Some(s.cache[pc.r.key])))
  }

  /** A pattern whose automata are gone cannot be restored. */
  ghost predicate Missed(s: State, t: nat, s': State)
    requires t in s.threads
  {
    var pc := s.threads[t];
    && (pc.Asking? || pc.Inside?) && Free(s, pc.r.key.kind) && (pc.r.key !in s.cache || pc.r.key.kind.Patterns?)
    && s' == At(s, t, if pc.Asking? then Entering(pc.r) else Computing(pc.r, pc.work))
  }

  ghost predicate Entered(s: State, t: nat, s': State)
    requires t in s.threads
  {
    && s.threads[t].Entering?
    && var r := s.threads[t].r;
       var gate := Retained(s, r.key.kind);
       if r.key in gate then s' == At(s.(gate := gate), t, Waiting(r, gate[r.key]))
       else s' == At(s.(gate := gate[r.key := s.made], made := s.made + 1), t, Waiting(r, s.made))
  }

  ghost predicate Acquired(s: State, t: nat, s': State)
    requires t in s.threads
  {
    var pc := s.threads[t];
    pc.Waiting? && pc.work !in s.busy && s' == At(s.(busy := s.busy + {pc.work}), t, Inside(pc.r, pc.work))
  }

  ghost predicate GaveUp(s: State, t: nat, s': State)
    requires t in s.threads
  {
    var pc := s.threads[t];
    || (pc.Waiting? && s' == At(s, t, Left(pc.r, pc.work, None)))
    || ((pc.Computing? || pc.Storing?) && s' == At(s, t, Leaving(pc.r, pc.work, None)))
  }

  ghost predicate Checked(s: State, t: nat, fits: bool, s': State)
    requires t in s.threads
  {
    var pc := s.threads[t];
    && pc.Storing? && Free(s, pc.r.key.kind)
    && s' == if s.epoch == pc.r.epoch && fits
             then At(s.(locks := s.locks[pc.r.key.kind := t]), t, Putting(pc.r, pc.work))
             else At(s, t, Leaving(pc.r, pc.work, Some(Computed(pc.r))))
  }

  /** The value is in; what was dropped for it is of its own kind. */
  ghost predicate Stored(s: State, t: nat, kept: map<Key, Value>, s': State)
    requires t in s.threads
  {
    var pc := s.threads[t];
    && pc.Putting?
    && pc.r.key in kept && kept[pc.r.key] == Computed(pc.r)
    && (forall k :: k in kept && k != pc.r.key ==> k in s.cache && kept[k] == s.cache[k])
    && (forall k :: k in s.cache && k.kind != pc.r.key.kind ==> k in kept)
    && s' == At(s.(cache := kept, locks := s.locks - {pc.r.key.kind}), t, Leaving(pc.r, pc.work, Some(Computed(pc.r))))
  }

  ghost predicate WentOn(s: State, t: nat, a: Action, s': State)
    requires t in s.threads
  {
    var pc := s.threads[t];
    match a
    case Compute => pc.Computing? && s' == At(s, t, Storing(pc.r, pc.work))
    case Leave => pc.Leaving? && s' == At(s.(busy := s.busy - {pc.work}), t, Left(pc.r, pc.work, pc.got))
    case LetGo => pc.Left? && s' == At(s, t, if pc.got.Some? then Answered(pc.r, pc.got.value) else Outside)
    case Return => pc.Answered? && s' == At(s, t, Outside)
    case _ => false
  }

  /** A clear bumps the epoch, clears both caches, then forgets the idle work of both gates. */
  ghost predicate ClearStepped(s: State, t: nat, s': State)
    requires t in s.threads
  {
    match s.threads[t]
    case Outside => s' == At(s.(epoch := s.epoch + 1), t, Bumped(s.epoch + 1))
    case Bumped(e) =>
      Free(s, TermSets) && s' == At(s.(cache := WithoutKind(s.cache, TermSets)), t, ClearedTerms(e))
    case ClearedTerms(e) =>
      Free(s, Patterns) && s' == At(s.(cache := WithoutKind(s.cache, Patterns)), t, ClearedBoth(e))
    case ClearedBoth(e) => s' == At(s.(gate := Retained(s, TermSets)), t, IdledTerms(e))
    case IdledTerms(e) => s' == At(s.(gate := Retained(s, Patterns), cleared := Max(s.cleared, e)), t, Outside)
    case _ => false
  }

  ghost predicate Step(s: State, t: nat, a: Action, s': State) {
    && t in s.threads
    && match a
       case Begin(key) => Started(s, t, key, s')
       case LookHit => Hit(s, t, s')
       case LookMiss => Missed(s, t, s')
       case Enter => Entered(s, t, s')
       case Acquire => Acquired(s, t, s')
       case GiveUp => GaveUp(s, t, s')
       case Check(fits) => Checked(s, t, fits, s')
       case Put(kept) => Stored(s, t, kept, s')
       case Clear => ClearStepped(s, t, s')
       case _ => WentOn(s, t, a, s')
  }

  ghost predicate Init(s: State) {
    && (forall t :: t in s.threads ==> s.threads[t].Outside?)
    && s == State(s.threads, 0, map[], map[], map[], {}, 0, 0)
  }

  ghost predicate Next(s: State, s': State) {
    exists t, a :: Step(s, t, a, s')
  }

  ghost predicate IsRun(run: seq<State>) {
    run != [] && Init(run[0]) && forall i {:trigger run[i]} :: 0 < i < |run| ==> Next(run[i - 1], run[i])
  }

  // ── One worker for each key ──────────────────────────────────────────────────

  /** What each held work is: the one the gate gives for its key. */
  ghost predicate SharedWork(s: State) {
    && (forall t, k, w :: t in s.threads && Holds(s.threads[t], k, w) ==> k in s.gate && s.gate[k] == w)
    && (forall j, k :: j in s.gate && k in s.gate && s.gate[j] == s.gate[k] ==> j == k)
    && (forall k :: k in s.gate ==> s.gate[k] < s.made)
  }

  /** At most one thread is busy with a work, and the work is marked busy exactly then. */
  ghost predicate OneWorker(s: State) {
    && (forall t, u, w ::
         t in s.threads && u in s.threads && IsBusy(s.threads[t], w) && IsBusy(s.threads[u], w) ==> t == u)
    && (forall t, w :: t in s.threads && IsBusy(s.threads[t], w) ==> w in s.busy)
    && (forall w :: w in s.busy ==> w < s.made)
    && (forall w :: w in s.busy ==> exists t :: t in s.threads && IsBusy(s.threads[t], w))
  }

  // ── Nothing stale ────────────────────────────────────────────────────────────

  /** The caches a clear has emptied so far. */
  predicate HasCleared(pc: Pc, kind: Kind) {
    if kind.TermSets? then pc.ClearedTerms? || pc.ClearedBoth? || pc.IdledTerms? else pc.ClearedBoth? || pc.IdledTerms?
  }

  /** No value is older than a clear that has emptied its cache. */
  ghost predicate NewerThanClears(s: State, kind: Kind, value: nat) {
    && s.cleared <= value
    && forall t :: t in s.threads && HasCleared(s.threads[t], kind) ==> s.threads[t].e <= value
  }

  ghost predicate NothingStale(s: State) {
    && s.cleared <= s.epoch
    && (forall k :: k in s.cache ==> s.cache[k].epoch <= s.epoch && NewerThanClears(s, k.kind, s.cache[k].epoch))
    && (forall t :: t in s.threads && IsClear(s.threads[t]) ==> s.threads[t].e <= s.epoch)
    && (forall t :: t in s.threads && IsRequest(s.threads[t]) ==>
          s.threads[t].r.floor <= s.threads[t].r.epoch <= s.epoch && s.threads[t].r.floor <= s.cleared)
  }

  /** A thread about to put its value holds the lock, and no clear has emptied the cache since it
      read the epoch. */
  ghost predicate LockedPuts(s: State) {
    && (forall t :: t in s.threads && s.threads[t].Putting? ==>
          && s.threads[t].r.key.kind in s.locks && s.locks[s.threads[t].r.key.kind] == t
          && NewerThanClears(s, s.threads[t].r.key.kind, s.threads[t].r.epoch))
    && (forall kind :: kind in s.locks ==>
          && s.locks[kind] in s.threads && s.threads[s.locks[kind]].Putting?
          && s.threads[s.locks[kind]].r.key.kind == kind)
  }

  /** A value computed for the request's own key, and no older than its floor. */
  predicate Serves(value: Value, r: Request) {
    value.key == r.key && r.floor <= value.epoch
  }

  /** What a thread has got serves its request. */
  predicate IsFresh(pc: Pc) {
    match pc
    case Leaving(r, _, got) => got.Some? ==> Serves(got.value, r)
    case Left(r, _, got) => got.Some? ==> Serves(got.value, r)
    case Answered(r, value) => Serves(value, r)
    case _ => true
  }

  /** What a request gets was computed for its key, and is no older than the clears that had returned
      when it began. */
  ghost predicate FreshAnswers(s: State) {
    forall t :: t in s.threads ==> IsFresh(s.threads[t])
  }

  /** Each cached value was computed for the key it is under. */
  ghost predicate OwnValues(cache: map<Key, Value>) {
    forall k :: k in cache ==> cache[k].key == k
  }

  // ── Every step keeps them ────────────────────────────────────────────────────

  lemma RetainedKeepsHeld(s: State, kind: Kind, t: nat, k: Key, w: nat)
    requires SharedWork(s) && t in s.threads && Holds(s.threads[t], k, w)
    ensures k in Retained(s, kind) && Retained(s, kind)[k] == w
  {
    assert HeldByAny(s, k, w);
  }

  /** Forgetting idle work takes no work from a thread that holds it. */
  lemma SharedAfterIdle(s: State, kind: Kind)
    requires SharedWork(s)
    ensures SharedWork(s.(gate := Retained(s, kind)))
  {
    forall t, k, w | t in s.threads && Holds(s.threads[t], k, w)
      ensures k in Retained(s, kind) && Retained(s, kind)[k] == w
    {
      RetainedKeepsHeld(s, kind, t, k, w);
    }
  }

  /** A thread that moves holds no more than it did. */
  lemma SharedAt(s: State, t: nat, pc: Pc)
    requires SharedWork(s) && t in s.threads
    requires forall k, w :: Holds(pc, k, w) ==> Holds(s.threads[t], k, w) || (k in s.gate && s.gate[k] == w)
    ensures SharedWork(At(s, t, pc))
  {
  }

  lemma SharedIdleAt(s: State, t: nat, kind: Kind, pc: Pc, s': State)
    requires SharedWork(s) && t in s.threads && !IsRequest(pc)
    requires s'.threads == s.threads[t := pc] && s'.gate == Retained(s, kind) && s'.made == s.made
    ensures SharedWork(s')
  {
    SharedAfterIdle(s, kind);
    SharedAt(s.(gate := Retained(s, kind)), t, pc);
  }

  lemma SharedEnters(s: State, t: nat, s': State)
    requires SharedWork(s) && t in s.threads && Entered(s, t, s')
    ensures SharedWork(s')
  {
    var r := s.threads[t].r;
    SharedAfterIdle(s, r.key.kind);
    var s1 := s.(gate := Retained(s, r.key.kind));
    if r.key in s1.gate {
      SharedAt(s1, t, Waiting(r, s1.gate[r.key]));
    } else {
      var s2 := s1.(gate := s1.gate[r.key := s.made], made := s.made + 1);
      assert SharedWork(s2);
      SharedAt(s2, t, Waiting(r, s.made));
    }
  }

  /** A thread that moves, still busy with what it was. */
  lemma WorkerAt(s: State, t: nat, pc: Pc, s': State)
    requires OneWorker(s) && t in s.threads && s'.threads == s.threads[t := pc] && s'.busy == s.busy
    requires s'.made >= s.made
    requires forall w :: IsBusy(pc, w) == IsBusy(s.threads[t], w)
    ensures OneWorker(s')
  {
    forall w | w in s'.busy ensures exists u :: u in s'.threads && IsBusy(s'.threads[u], w) {
      var u :| u in s.threads && IsBusy(s.threads[u], w);
      assert u in s'.threads && IsBusy(s'.threads[u], w);
    }
  }

  lemma WorkerAcquires(s: State, t: nat, s': State)
    requires SharedWork(s) && OneWorker(s) && t in s.threads && Acquired(s, t, s')
    ensures OneWorker(s')
  {
    var work := s.threads[t].work;
    assert Holds(s.threads[t], s.threads[t].r.key, work);
    forall w | w in s'.busy ensures exists u :: u in s'.threads && IsBusy(s'.threads[u], w) {
      if w == work {
        assert IsBusy(s'.threads[t], w);
      } else {
        var u :| u in s.threads && IsBusy(s.threads[u], w);
        assert u in s'.threads && IsBusy(s'.threads[u], w);
      }
    }
  }

  lemma WorkerLeaves(s: State, t: nat, s': State)
    requires OneWorker(s) && t in s.threads && WentOn(s, t, Leave, s')
    ensures OneWorker(s')
  {
    var work := s.threads[t].work;
    assert IsBusy(s.threads[t], work);
    forall w | w in s'.busy ensures exists u :: u in s'.threads && IsBusy(s'.threads[u], w) {
      var u :| u in s.threads && IsBusy(s.threads[u], w);
      assert u in s'.threads && IsBusy(s'.threads[u], w);
    }
  }

  predicate NoNewerThan(pc: Pc, epoch: nat, cleared: nat) {
    IsRequest(pc) ==> pc.r.floor <= pc.r.epoch <= epoch && pc.r.floor <= cleared
  }

  /** A request that moves, with the caches and the epoch as they were. */
  lemma StaleAt(s: State, t: nat, pc: Pc, s': State)
    requires NothingStale(s) && t in s.threads && s'.threads == s.threads[t := pc]
    requires s'.cache == s.cache && s'.epoch == s.epoch && s'.cleared == s.cleared
    requires !IsClear(pc) && NoNewerThan(pc, s.epoch, s.cleared)
    ensures NothingStale(s')
  {
    forall k | k in s'.cache ensures NewerThanClears(s', k.kind, s'.cache[k].epoch) {
      assert NewerThanClears(s, k.kind, s.cache[k].epoch);
    }
  }

  lemma StillNewer(s: State, t: nat, pc: Pc, s': State, kind: Kind, value: nat)
    requires NewerThanClears(s, kind, value) && s'.threads == s.threads[t := pc] && s'.cleared == s.cleared
    requires !IsClear(pc)
    ensures NewerThanClears(s', kind, value)
  {
  }

  lemma StalePut(s: State, t: nat, kept: map<Key, Value>, s': State)
    requires NothingStale(s) && LockedPuts(s) && t in s.threads && Stored(s, t, kept, s')
    ensures NothingStale(s')
  {
    var r := s.threads[t].r;
    assert NewerThanClears(s, r.key.kind, r.epoch);
    forall k | k in s'.cache ensures s'.cache[k].epoch <= s'.epoch && NewerThanClears(s', k.kind, s'.cache[k].epoch) {
      StillNewer(s, t, s'.threads[t], s', k.kind, s'.cache[k].epoch);
    }
  }

  /** The epoch is bumped. */
  lemma StaleBump(s: State, t: nat, s': State)
    requires NothingStale(s) && t in s.threads && s' == At(s.(epoch := s.epoch + 1), t, Bumped(s.epoch + 1))
    ensures NothingStale(s')
  {
    forall k | k in s'.cache ensures NewerThanClears(s', k.kind, s'.cache[k].epoch) {
      assert NewerThanClears(s, k.kind, s.cache[k].epoch);
    }
  }

  /** A cache is emptied by the clear that goes on to `pc`. */
  lemma StaleEmptied(s: State, t: nat, kind: Kind, pc: Pc, s': State)
    requires NothingStale(s) && t in s.threads && IsClear(s.threads[t]) && IsClear(pc) && pc.e == s.threads[t].e
    requires forall other :: other != kind ==> HasCleared(pc, other) == HasCleared(s.threads[t], other)
    requires s' == At(s.(cache := WithoutKind(s.cache, kind)), t, pc)
    ensures NothingStale(s')
  {
    forall k | k in s'.cache ensures NewerThanClears(s', k.kind, s'.cache[k].epoch) {
      assert k in s.cache && k.kind != kind && NewerThanClears(s, k.kind, s.cache[k].epoch);
    }
  }

  /** The clear goes on with both caches emptied. */
  lemma StaleIdles(s: State, t: nat, s': State)
    requires NothingStale(s) && t in s.threads && s.threads[t].ClearedBoth?
    requires s'.threads == s.threads[t := IdledTerms(s.threads[t].e)]
    requires s'.cache == s.cache && s'.epoch == s.epoch && s'.cleared == s.cleared
    ensures NothingStale(s')
  {
    forall k | k in s'.cache ensures NewerThanClears(s', k.kind, s'.cache[k].epoch) {
      assert NewerThanClears(s, k.kind, s.cache[k].epoch);
    }
  }

  /** The clear returns: its bump is one that every value is newer than. */
  lemma StaleReturns(s: State, t: nat, s': State)
    requires NothingStale(s) && t in s.threads && s.threads[t].IdledTerms?
    requires s'.threads == s.threads[t := Outside]
    requires s'.cache == s.cache && s'.epoch == s.epoch && s'.cleared == Max(s.cleared, s.threads[t].e)
    ensures NothingStale(s')
  {
    forall k | k in s'.cache ensures NewerThanClears(s', k.kind, s'.cache[k].epoch) {
      assert NewerThanClears(s, k.kind, s.cache[k].epoch);
      assert HasCleared(s.threads[t], k.kind);
    }
  }

  /** A thread that moves without putting, and without emptying a cache. */
  lemma LockedAt(s: State, t: nat, pc: Pc, s': State)
    requires LockedPuts(s) && t in s.threads && s'.threads == s.threads[t := pc] && s'.locks == s.locks
    requires s'.cleared == s.cleared
    requires !pc.Putting? && !s.threads[t].Putting? && (forall kind :: !HasCleared(pc, kind))
    ensures LockedPuts(s')
  {
    forall u | u in s'.threads && s'.threads[u].Putting?
      ensures NewerThanClears(s', s'.threads[u].r.key.kind, s'.threads[u].r.epoch)
    {
      assert u in s.threads && NewerThanClears(s, s.threads[u].r.key.kind, s.threads[u].r.epoch);
    }
  }

  lemma LockedChecks(s: State, t: nat, fits: bool, s': State)
    requires NothingStale(s) && LockedPuts(s) && t in s.threads && Checked(s, t, fits, s')
    ensures LockedPuts(s')
  {
    var r := s.threads[t].r;
    if s.epoch == r.epoch && fits {
      forall u | u in s'.threads && s'.threads[u].Putting?
        ensures s'.threads[u].r.key.kind in s'.locks && s'.locks[s'.threads[u].r.key.kind] == u
        ensures NewerThanClears(s', s'.threads[u].r.key.kind, s'.threads[u].r.epoch)
      {
        if u != t {
          assert u in s.threads && NewerThanClears(s, s.threads[u].r.key.kind, s.threads[u].r.epoch);
        } else {
          forall v | v in s.threads && HasCleared(s.threads[v], r.key.kind) ensures s.threads[v].e <= r.epoch {
            assert IsClear(s.threads[v]);
          }
        }
      }
    } else {
      LockedAt(s, t, s'.threads[t], s');
    }
  }

  lemma LockedUnlocks(s: State, t: nat, kept: map<Key, Value>, s': State)
    requires LockedPuts(s) && t in s.threads && Stored(s, t, kept, s')
    ensures LockedPuts(s')
  {
    forall u | u in s'.threads && s'.threads[u].Putting?
      ensures s'.threads[u].r.key.kind in s'.locks && s'.locks[s'.threads[u].r.key.kind] == u
      ensures NewerThanClears(s', s'.threads[u].r.key.kind, s'.threads[u].r.epoch)
    {
      assert u in s.threads && NewerThanClears(s, s.threads[u].r.key.kind, s.threads[u].r.epoch);
    }
  }

  /** A clear goes on, and no thread is putting into a cache it says it has newly emptied. */
  lemma LockedClear(s: State, t: nat, pc: Pc, s': State)
    requires LockedPuts(s) && t in s.threads && !s.threads[t].Putting? && !pc.Putting?
    requires s'.threads == s.threads[t := pc] && s'.locks == s.locks
    requires forall kind ::
               HasCleared(pc, kind) ==> Free(s, kind) || (HasCleared(s.threads[t], kind) && s.threads[t].e == pc.e)
    requires s'.cleared == s.cleared
          || (IsClear(s.threads[t]) && s'.cleared == Max(s.cleared, s.threads[t].e)
               && forall kind :: HasCleared(s.threads[t], kind))
    ensures LockedPuts(s')
  {
    forall u | u in s'.threads && s'.threads[u].Putting?
      ensures NewerThanClears(s', s'.threads[u].r.key.kind, s'.threads[u].r.epoch)
    {
      assert u != t && u in s.threads && NewerThanClears(s, s.threads[u].r.key.kind, s.threads[u].r.epoch);
    }
  }

  /** A thread that has moved. */
  lemma FreshAt(s: State, t: nat, pc: Pc, s': State)
    requires FreshAnswers(s) && s'.threads == s.threads[t := pc] && IsFresh(pc)
    ensures FreshAnswers(s')
  {
  }

  ghost predicate Inv(s: State) {
    SharedWork(s) && OneWorker(s) && NothingStale(s) && LockedPuts(s) && FreshAnswers(s) && OwnValues(s.cache)
  }

  /** `pc` is busy with what `was` was, and holds no more. */
  ghost predicate SameWork(was: Pc, pc: Pc) {
    && (forall w :: IsBusy(pc, w) == IsBusy(was, w))
    && (forall k, w :: Holds(pc, k, w) ==> Holds(was, k, w))
  }

  lemma MovedKept(s: State, t: nat, pc: Pc, s': State)
    requires Inv(s) && t in s.threads && s' == At(s, t, pc)
    requires SameWork(s.threads[t], pc) && !IsClear(pc) && NoNewerThan(pc, s.epoch, s.cleared)
    requires !pc.Putting? && !s.threads[t].Putting? && IsFresh(pc)
    ensures Inv(s')
  {
    SharedAt(s, t, pc);
    WorkerAt(s, t, pc, s');
    StaleAt(s, t, pc, s');
    LockedAt(s, t, pc, s');
    FreshAt(s, t, pc, s');
  }

  lemma BeginKept(s: State, t: nat, key: Key, s': State)
    requires Inv(s) && t in s.threads && Started(s, t, key, s')
    ensures Inv(s')
  {
    MovedKept(s, t, Asking(Request(key, s.epoch, s.cleared)), s');
  }

  lemma HitKept(s: State, t: nat, s': State)
    requires Inv(s) && t in s.threads && Hit(s, t, s')
    ensures Inv(s')
  {
    assert NewerThanClears(s, s.threads[t].r.key.kind, s.cache[s.threads[t].r.key].epoch);
    assert NoNewerThan(s.threads[t], s.epoch, s.cleared);
    MovedKept(s, t, s'.threads[t], s');
  }

  lemma MissKept(s: State, t: nat, s': State)
    requires Inv(s) && t in s.threads && Missed(s, t, s')
    ensures Inv(s')
  {
    assert NoNewerThan(s.threads[t], s.epoch, s.cleared);
    MovedKept(s, t, s'.threads[t], s');
  }

  lemma GiveUpKept(s: State, t: nat, s': State)
    requires Inv(s) && t in s.threads && GaveUp(s, t, s')
    ensures Inv(s')
  {
    assert NoNewerThan(s.threads[t], s.epoch, s.cleared);
    MovedKept(s, t, s'.threads[t], s');
  }

  lemma GoesOnKept(s: State, t: nat, a: Action, s': State)
    requires Inv(s) && t in s.threads && WentOn(s, t, a, s') && !a.Leave?
    ensures Inv(s')
  {
    assert NoNewerThan(s.threads[t], s.epoch, s.cleared) && IsFresh(s.threads[t]);
    MovedKept(s, t, s'.threads[t], s');
  }

  lemma EnterKept(s: State, t: nat, s': State)
    requires Inv(s) && t in s.threads && Entered(s, t, s')
    ensures Inv(s')
  {
    EnterShares(s, t, s');
    EnterStores(s, t, s');
  }

  lemma EnterShares(s: State, t: nat, s': State)
    requires SharedWork(s) && OneWorker(s) && t in s.threads && Entered(s, t, s')
    ensures SharedWork(s') && OneWorker(s')
  {
    SharedEnters(s, t, s');
    WorkerAt(s, t, s'.threads[t], s');
  }

  lemma EnterStores(s: State, t: nat, s': State)
    requires NothingStale(s) && LockedPuts(s) && FreshAnswers(s) && t in s.threads && Entered(s, t, s')
    ensures NothingStale(s') && LockedPuts(s') && FreshAnswers(s')
  {
    var pc := s'.threads[t];
    StaleAt(s, t, pc, s');
    LockedAt(s, t, pc, s');
    FreshAt(s, t, pc, s');
  }

  lemma AcquireKept(s: State, t: nat, s': State)
    requires Inv(s) && t in s.threads && Acquired(s, t, s')
    ensures Inv(s')
  {
    var pc := s'.threads[t];
    SharedAt(s, t, pc);
    WorkerAcquires(s, t, s');
    StaleAt(s, t, pc, s');
    LockedAt(s, t, pc, s');
    FreshAt(s, t, pc, s');
  }

  lemma LeaveKept(s: State, t: nat, s': State)
    requires Inv(s) && t in s.threads && WentOn(s, t, Leave, s')
    ensures Inv(s')
  {
    var pc := s'.threads[t];
    assert IsFresh(s.threads[t]);
    SharedAt(s, t, pc);
    WorkerLeaves(s, t, s');
    StaleAt(s, t, pc, s');
    LockedAt(s, t, pc, s');
    FreshAt(s, t, pc, s');
  }

  lemma CheckKept(s: State, t: nat, fits: bool, s': State)
    requires Inv(s) && t in s.threads && Checked(s, t, fits, s')
    ensures Inv(s')
  {
    CheckShares(s, t, fits, s');
    StaleAt(s, t, s'.threads[t], s');
    LockedChecks(s, t, fits, s');
    FreshAt(s, t, s'.threads[t], s');
  }

  lemma CheckShares(s: State, t: nat, fits: bool, s': State)
    requires SharedWork(s) && OneWorker(s) && t in s.threads && Checked(s, t, fits, s')
    ensures SharedWork(s') && OneWorker(s')
  {
    SharedAt(s, t, s'.threads[t]);
    WorkerAt(s, t, s'.threads[t], s');
  }

  lemma PutKept(s: State, t: nat, kept: map<Key, Value>, s': State)
    requires Inv(s) && t in s.threads && Stored(s, t, kept, s')
    ensures Inv(s')
  {
    var pc := s'.threads[t];
    SharedAt(s, t, pc);
    WorkerAt(s, t, pc, s');
    StalePut(s, t, kept, s');
    LockedUnlocks(s, t, kept, s');
    FreshAt(s, t, pc, s');
  }

  lemma BumpKept(s: State, t: nat, s': State)
    requires Inv(s) && t in s.threads && s.threads[t].Outside?
    requires s' == At(s.(epoch := s.epoch + 1), t, Bumped(s.epoch + 1))
    ensures Inv(s')
  {
    var pc := Bumped(s.epoch + 1);
    SharedAt(s, t, pc);
    WorkerAt(s, t, pc, s');
    StaleBump(s, t, s');
    LockedClear(s, t, pc, s');
    FreshAt(s, t, pc, s');
  }

  /** A clear empties a cache only while no thread holds its lock. */
  lemma EmptyKept(s: State, t: nat, kind: Kind, pc: Pc, s': State)
    requires Inv(s) && t in s.threads && IsClear(s.threads[t]) && IsClear(pc) && pc.e == s.threads[t].e && Free(s, kind)
    requires forall other :: other != kind ==> HasCleared(pc, other) == HasCleared(s.threads[t], other)
    requires s' == At(s.(cache := WithoutKind(s.cache, kind)), t, pc)
    ensures Inv(s')
  {
    SharedAt(s, t, pc);
    WorkerAt(s, t, pc, s');
    StaleEmptied(s, t, kind, pc, s');
    LockedClear(s, t, pc, s');
    FreshAt(s, t, pc, s');
  }

  lemma IdleKept(s: State, t: nat, s': State)
    requires Inv(s) && t in s.threads && s.threads[t].ClearedBoth?
    requires s' == At(s.(gate := Retained(s, TermSets)), t, IdledTerms(s.threads[t].e))
    ensures Inv(s')
  {
    var pc := IdledTerms(s.threads[t].e);
    SharedIdleAt(s, t, TermSets, pc, s');
    WorkerAt(s, t, pc, s');
    StaleIdles(s, t, s');
    LockedClear(s, t, pc, s');
    FreshAt(s, t, pc, s');
  }

  lemma ReturnKept(s: State, t: nat, s': State)
    requires Inv(s) && t in s.threads && s.threads[t].IdledTerms?
    requires s'.threads == s.threads[t := Outside] && s'.gate == Retained(s, Patterns) && s'.made == s.made
    requires s'.cache == s.cache && s'.epoch == s.epoch && s'.cleared == Max(s.cleared, s.threads[t].e)
    requires s'.locks == s.locks && s'.busy == s.busy
    ensures Inv(s')
  {
    SharedIdleAt(s, t, Patterns, Outside, s');
    WorkerAt(s, t, Outside, s');
    ReturnStores(s, t, s');
  }

  lemma ReturnStores(s: State, t: nat, s': State)
    requires NothingStale(s) && LockedPuts(s) && FreshAnswers(s) && t in s.threads && s.threads[t].IdledTerms?
    requires s'.threads == s.threads[t := Outside] && s'.locks == s.locks
    requires s'.cache == s.cache && s'.epoch == s.epoch && s'.cleared == Max(s.cleared, s.threads[t].e)
    ensures NothingStale(s') && LockedPuts(s') && FreshAnswers(s')
  {
    StaleReturns(s, t, s');
    LockedClear(s, t, Outside, s');
    FreshAt(s, t, Outside, s');
  }

  lemma ClearKept(s: State, t: nat, s': State)
    requires Inv(s) && t in s.threads && ClearStepped(s, t, s')
    ensures Inv(s')
  {
    match s.threads[t]
    case Outside => BumpKept(s, t, s');
    case Bumped(e) => EmptyKept(s, t, TermSets, ClearedTerms(e), s');
    case ClearedTerms(e) => EmptyKept(s, t, Patterns, ClearedBoth(e), s');
    case ClearedBoth(_) => IdleKept(s, t, s');
    case IdledTerms(_) => ReturnKept(s, t, s');
  }

  lemma StepKeeps(s: State, t: nat, a: Action, s': State)
    requires Inv(s) && Step(s, t, a, s')
    ensures Inv(s')
  {
    match a
    case Begin(key) => BeginKept(s, t, key, s');
    case LookHit => HitKept(s, t, s');
    case LookMiss => MissKept(s, t, s');
    case Enter => EnterKept(s, t, s');
    case Acquire => AcquireKept(s, t, s');
    case GiveUp => GiveUpKept(s, t, s');
    case Leave => LeaveKept(s, t, s');
    case Check(fits) => CheckKept(s, t, fits, s');
    case Put(kept) => PutKept(s, t, kept, s');
    case Clear => ClearKept(s, t, s');
    case _ => GoesOnKept(s, t, a, s');
  }

  lemma {:induction false} RunKeeps(run: seq<State>, i: nat)
    requires IsRun(run) && i < |run|
    ensures Inv(run[i])
  {
    if i > 0 {
      RunKeeps(run, i - 1);
      assert Next(run[i - 1], run[i]);
      var t, a :| Step(run[i - 1], t, a, run[i]);
      StepKeeps(run[i - 1], t, a, run[i]);
    }
  }

  /** In every interleaving, the threads that hold work for a key hold the same one, and at most
      one of them is between taking it and letting the others go. */
  lemma OneComputationPerKey(run: seq<State>, i: nat, t: nat, u: nat, v: nat, w: nat)
    requires IsRun(run) && i < |run| && t in run[i].threads && u in run[i].threads
    requires IsRequest(run[i].threads[t]) && IsRequest(run[i].threads[u])
    requires run[i].threads[t].r.key == run[i].threads[u].r.key
    ensures Holds(run[i].threads[t], run[i].threads[t].r.key, v) ==>
              Holds(run[i].threads[u], run[i].threads[u].r.key, w) ==> v == w
    ensures IsBusy(run[i].threads[t], v) && IsBusy(run[i].threads[u], w) ==> t == u
  {
    RunKeeps(run, i);
    var key := run[i].threads[t].r.key;
    assert IsBusy(run[i].threads[t], v) ==> Holds(run[i].threads[t], key, v);
    assert IsBusy(run[i].threads[u], w) ==> Holds(run[i].threads[u], key, w);
  }

  /** Once a clear has returned, the caches hold nothing from a request that read the epoch before
      its bump, and no request that begins later is answered with such a value. */
  lemma ClearedForGood(run: seq<State>, i: nat)
    requires IsRun(run) && i < |run|
    ensures forall k :: k in run[i].cache ==> run[i].cache[k].epoch >= run[i].cleared
    ensures forall t :: t in run[i].threads && run[i].threads[t].Answered? ==>
              run[i].threads[t].value.epoch >= run[i].threads[t].r.floor
  {
    RunKeeps(run, i);
    var s := run[i];
    assert forall k :: k in s.cache ==> NewerThanClears(s, k.kind, s.cache[k].epoch);
    assert forall t :: t in s.threads ==> IsFresh(s.threads[t]);
  }

  /** In every interleaving, what is cached under a key, and what a request is answered with, was
      computed by a request for that same key. */
  lemma AnswersAreOwn(run: seq<State>, i: nat)
    requires IsRun(run) && i < |run|
    ensures forall k :: k in run[i].cache ==> run[i].cache[k].key == k
    ensures forall t :: t in run[i].threads && run[i].threads[t].Answered? ==>
              run[i].threads[t].value.key == run[i].threads[t].r.key
  {
    RunKeeps(run, i);
    assert forall t :: t in run[i].threads ==> IsFresh(run[i].threads[t]);
  }

  /** The thread computes the value of `key`, or is about to store it. */
  predicate Computes(pc: Pc, key: Key) {
    (pc.Computing? || pc.Storing? || pc.Putting?) && pc.r.key == key
  }

  /** A lookup of terms that are cached finds them. */
  lemma CachedAreFound(s: State, t: nat, s': State)
    requires t in s.threads && (Hit(s, t, s') || Missed(s, t, s'))
    requires s.threads[t].r.key.kind.TermSets? && s.threads[t].r.key in s.cache
    ensures s' == At(s, t, if s.threads[t].Asking? then Answered(s.threads[t].r, s.cache[s.threads[t].r.key])
                           else Leaving(s.threads[t].r, s.threads[t].work, Some(s.cache[s.threads[t].r.key])))
  {
  }

  lemma OneThreadMoves(s: State, u: nat, a: Action, s': State)
    requires Step(s, u, a, s')
    ensures u in s'.threads && s'.threads == s.threads[u := s'.threads[u]]
  {
    if a.Clear? {
      ClearMovesOne(s, u, s');
    }
  }

  lemma ClearMovesOne(s: State, u: nat, s': State)
    requires u in s.threads && ClearStepped(s, u, s')
    ensures u in s'.threads && s'.threads == s.threads[u := s'.threads[u]]
  {
  }

  lemma OnlyMissesCompute(s: State, t: nat, a: Action, s': State, key: Key)
    requires Step(s, t, a, s') && !a.LookMiss? && t in s'.threads && !Computes(s.threads[t], key)
    ensures !Computes(s'.threads[t], key)
  {
  }

  /** A thread does not set out to compute terms that are cached. */
  lemma CachedAreNotComputed(s: State, u: nat, a: Action, s': State, t: nat, key: Key)
    requires Step(s, u, a, s') && key.kind.TermSets? && key in s.cache
    requires t in s.threads && !Computes(s.threads[t], key)
    ensures t in s'.threads && !Computes(s'.threads[t], key)
  {
    OneThreadMoves(s, u, a, s');
    if t == u {
      if a.LookMiss? {
        CachedStayUncomputed(s, t, s', key);
      } else {
        OnlyMissesCompute(s, t, a, s', key);
      }
    }
  }

  lemma CachedStayUncomputed(s: State, t: nat, s': State, key: Key)
    requires t in s.threads && Missed(s, t, s') && key.kind.TermSets? && key in s.cache
    ensures !Computes(s'.threads[t], key)
  {
    if s.threads[t].r.key == key {
      CachedAreFound(s, t, s');
    }
  }

  /** In every interleaving, as long as terms stay cached no thread sets out to compute them again. */
  lemma {:induction false} NothingIsRecomputed(run: seq<State>, i: nat, j: nat, t: nat, key: Key)
    requires IsRun(run) && i <= j < |run| && key.kind.TermSets?
    requires forall n :: i <= n < j ==> key in run[n].cache
    requires t in run[i].threads && !Computes(run[i].threads[t], key)
    ensures t in run[j].threads && !Computes(run[j].threads[t], key)
  {
    if i < j {
      NothingIsRecomputed(run, i, j - 1, t, key);
      assert Next(run[j - 1], run[j]);
      var u, a :| Step(run[j - 1], u, a, run[j]);
      CachedAreNotComputed(run[j - 1], u, a, run[j], t, key);
    }
  }

  // ── What is stored, and what is forgotten ────────────────────────────────────

  /** A value that fits and was computed with no clear begun since goes into the cache next. */
  lemma CurrentIsStored(s: State, t: nat, s': State)
    requires t in s.threads && s.threads[t].Storing? && s.threads[t].r.epoch == s.epoch
    requires Step(s, t, Check(true), s')
    ensures s'.threads[t].Putting? && s'.threads[t].r == s.threads[t].r
    ensures forall kept, next :: Step(s', t, Put(kept), next) ==>
              s.threads[t].r.key in next.cache && next.cache[s.threads[t].r.key] == Computed(s.threads[t].r)
  {
    forall kept, next | Step(s', t, Put(kept), next)
      ensures s.threads[t].r.key in next.cache && next.cache[s.threads[t].r.key] == Computed(s.threads[t].r)
    {
      assert Stored(s', t, kept, next);
    }
  }

  /** A value computed before the epoch was bumped is not stored. */
  lemma StaleIsNotStored(s: State, t: nat, fits: bool, s': State)
    requires t in s.threads && s.threads[t].Storing? && s.threads[t].r.epoch != s.epoch
    requires Step(s, t, Check(fits), s')
    ensures s'.cache == s.cache && !s'.threads[t].Putting?
  {
  }

  /** A clear forgets the work no thread holds. */
  lemma IdleIsForgotten(s: State, t: nat, s': State, k: Key)
    requires t in s.threads && Step(s, t, Clear, s') && k in s'.gate
    requires if k.kind.TermSets? then s.threads[t].ClearedBoth? else s.threads[t].IdledTerms?
    ensures HeldByAny(s, k, s'.gate[k])
  {
  }
}
