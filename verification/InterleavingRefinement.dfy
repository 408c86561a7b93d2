/** A call or a sweep whose steps nothing comes between is the atomic operation of the sequential
    limiter. */
module InterleavingRefinement {
  import opened Orders
  import opened TokenBuckets
  import opened Limiter
  import opened Interleaving

  /** The table that the map and the heap amount to. */
  function Snapshot(s: State): Table
    requires forall key :: key in s.store ==> s.store[key] < |s.heap|
  {
    map key | key in s.store :: Slot(s.heap[s.store[key]].bucket, s.heap[s.store[key]].lastSeen)
  }

  /** What a caller undisturbed has done when getOrCreate returns. */
  function Entered(c: Config, s: State, t: nat, key: string): State {
    if key in s.store then s.Goes(t, Touching(key, s.store[key]))
    else s.(heap := s.heap + [Rec(key, Fresh(c, s.clock), s.clock, s.clock, true, 0)],
            store := s.store[key := |s.heap|])
          .Goes(t, Touching(key, |s.heap|))
  }

  /** The steps of getOrCreate, nothing in between; Build and LoadOrStore do nothing after a hit. */
  function GetOrCreateSteps(c: Config, s: State, t: nat, key: string): State {
    Next(c, Next(c, Next(c, Next(c, s, Begin(t, key)), Load(t)), Build(t)), LoadOrStore(t))
  }

  function AllowSteps(c: Config, s: State, t: nat, key: string): State {
    Next(c, Next(c, GetOrCreateSteps(c, s, t, key), Touch(t)), Take(t))
  }

  lemma GetOrCreateAlone(c: Config, s: State, t: nat, key: string)
    requires s.At(t).Idle?
    ensures GetOrCreateSteps(c, s, t, key) == Entered(c, s, t, key)
  {
    var s2 := Next(c, Next(c, s, Begin(t, key)), Load(t));
    if key in s.store {
      assert s2 == Entered(c, s, t, key);
    } else {
      assert s2 == s.Goes(t, Building(key));
      var r := Rec(key, Fresh(c, s.clock), s.clock, s.clock, false, 0);
      var s3 := Next(c, s2, Build(t));
      assert s3 == s.(heap := s.heap + [r]).Goes(t, Storing(key, |s.heap|));
      assert s3.heap[|s.heap| := r.(stored := true)] == s.heap + [r.(stored := true)];
    }
  }

  /** The map's entries exist, and no two keys share one. */
  ghost predicate OwnEntries(s: State) {
    && (forall key :: key in s.store ==> s.store[key] < |s.heap|)
    && (forall key, key' :: key in s.store && key' in s.store && s.store[key] == s.store[key'] ==> key == key')
  }

  /** Every state a run reaches has that. */
  lemma ReachableOwnEntries(c: Config, start: int, run: seq<Label>, n: nat)
    requires n <= |run|
    ensures OwnEntries(After(c, start, run, n))
  {
    Invariant(c, start, run, n);
  }

  /** A call whose steps nothing comes between is the atomic Allow: same table, same answer. */
  lemma UndisturbedAllow(c: Config, s: State, t: nat, key: string)
    requires OwnEntries(s) && s.At(t).Idle?
    ensures var s' := AllowSteps(c, s, t, key);
            && OwnEntries(s') && s'.At(t).Idle?
            && Snapshot(s') == AfterAllow(c, Snapshot(s), key, s.clock)
            && GrantsIn(c, Next(c, GetOrCreateSteps(c, s, t, key), Touch(t)), Take(t), key)
                 == Admits(c, Snapshot(s), key, s.clock)
  {
    GetOrCreateAlone(c, s, t, key);
    EnteredOwn(c, s, t, key);
    EnteredSnapshot(c, s, t, key);
    var s1 := Entered(c, s, t, key);
    TouchAndTakeForm(c, s1, t, key, s1.store[key]);
    TakenSnapshot(c, s1, key, Next(c, Next(c, s1, Touch(t)), Take(t)));
    WithEntryTwice(c, Snapshot(s), key, s.clock);
  }

  lemma WithEntryTwice(c: Config, t: Table, key: string, now: int)
    ensures var t' := WithEntry(c, t, key, now);
            && WithEntry(c, t', key, now) == t'
            && AfterAllow(c, t', key, now) == AfterAllow(c, t, key, now)
            && Admits(c, t', key, now) == Admits(c, t, key, now)
  {
  }

  lemma EnteredOwn(c: Config, s: State, t: nat, key: string)
    requires OwnEntries(s)
    ensures var s1 := Entered(c, s, t, key);
            && key in s1.store && s1.At(t) == Touching(key, s1.store[key])
            && OwnEntries(s1) && s1.clock == s.clock
  {
  }

  /** Adding an entry for a new key leaves the other entries of the table alone. */
  lemma SnapshotExtended(s: State, s': State, key: string, r: Rec)
    requires OwnEntries(s) && OwnEntries(s') && key !in s.store
    requires s'.heap == s.heap + [r] && s'.store == s.store[key := |s.heap|]
    ensures Snapshot(s') == Snapshot(s)[key := Slot(r.bucket, r.lastSeen)]
  {
  }

  lemma EnteredSnapshot(c: Config, s: State, t: nat, key: string)
    requires OwnEntries(s) && OwnEntries(Entered(c, s, t, key))
    ensures Snapshot(Entered(c, s, t, key)) == WithEntry(c, Snapshot(s), key, s.clock)
  {
    if key !in s.store {
      var r := Rec(key, Fresh(c, s.clock), s.clock, s.clock, true, 0);
      SnapshotExtended(s, Entered(c, s, t, key), key, r);
    }
  }

  lemma TouchAndTakeForm(c: Config, s: State, t: nat, key: string, id: nat)
    requires id < |s.heap| && s.At(t) == Touching(key, id)
    ensures var r := s.heap[id];
            var s1 := Next(c, s, Touch(t));
            var s' := Next(c, s1, Take(t));
            && GrantsIn(c, s1, Take(t), key) == Granted(c, r.bucket, s.clock)
            && s'.store == s.store && s'.At(t).Idle? && |s'.heap| == |s.heap|
            && s'.heap[id].bucket == TakeToken(c, r.bucket, s.clock) && s'.heap[id].lastSeen == s.clock
            && (forall i :: 0 <= i < |s.heap| && i != id ==> s'.heap[i] == s.heap[i])
  {
  }

  lemma TakenSnapshot(c: Config, s: State, key: string, s': State)
    requires OwnEntries(s)
    requires key in s.store && s'.store == s.store && |s'.heap| == |s.heap|
    requires s'.heap[s.store[key]].bucket == TakeToken(c, s.heap[s.store[key]].bucket, s.clock)
    requires s'.heap[s.store[key]].lastSeen == s.clock
    requires forall i :: 0 <= i < |s.heap| && i != s.store[key] ==> s'.heap[i] == s.heap[i]
    ensures OwnEntries(s')
    ensures Snapshot(s') == AfterAllow(c, Snapshot(s), key, s.clock)
  {
  }

  /** Observe, check and delete one key after the other. */
  function SweepSteps(c: Config, s: State, order: seq<string>): State {
    if order == [] then s
    else SweepOne(c, SweepSteps(c, s, order[..|order| - 1]), order[|order| - 1])
  }

  function SweepOne(c: Config, s: State, key: string): State {
    Next(c, Next(c, Next(c, s, Observe(key)), Check), Delete)
  }

  lemma SweepOneKey(c: Config, s: State, key: string)
    requires s.sweeper.Ranging? && key in s.store && s.store[key] < |s.heap| && key !in s.sweeper.visited
    ensures SweepOne(c, s, key)
         == s.(sweeper := Ranging(s.sweeper.cutoff, s.sweeper.visited + {key}),
               removed := s.removed + (if s.heap[s.store[key]].lastSeen < s.sweeper.cutoff then {s.store[key]} else {}),
               store := if s.heap[s.store[key]].lastSeen < s.sweeper.cutoff then s.store - {key} else s.store)
  {
  }

  /** Which keys the map has left when the sweep has dealt with `order`. */
  ghost predicate Left(c: Config, s: State, s': State, order: seq<string>)
    requires forall key :: key in s.store ==> s.store[key] < |s.heap|
  {
    && (forall key :: key in s'.store <==>
          key in s.store && !(key in order && Stale(c, s.heap[s.store[key]].lastSeen, s.clock)))
    && (forall key :: key in s'.store ==> s'.store[key] == s.store[key])
  }

  lemma {:induction false} SweepKeys(c: Config, s: State, order: seq<string>)
    requires forall key :: key in s.store ==> s.store[key] < |s.heap|
    requires s.sweeper == Ranging(s.clock - c.ttl, {})
    requires Distinct(order) && forall key :: key in order ==> key in s.store
    ensures var s' := SweepSteps(c, s, order);
            && s'.heap == s.heap && s'.clock == s.clock && s'.callers == s.callers
            && s'.sweeper.Ranging? && s'.sweeper.cutoff == s.clock - c.ttl
            && (forall key :: key in s'.sweeper.visited <==> key in order)
            && Left(c, s, s', order)
  {
    if order != [] {
      var key := order[|order| - 1];
      var front := order[..|order| - 1];
      assert forall k :: k in order <==> k in front || k == key;
      SweepKeys(c, s, front);
      var s1 := SweepSteps(c, s, front);
      assert key !in front;
      assert key in s1.store;
      SweepOneKey(c, s1, key);
      assert SweepSteps(c, s, order) == SweepOne(c, s1, key);
    }
  }

  lemma SweptSnapshot(c: Config, s: State, s': State, order: seq<string>)
    requires OwnEntries(s) && VisitOrder(order, s.store.Keys)
    requires s'.heap == s.heap && Left(c, s, s', order)
    ensures OwnEntries(s')
    ensures Snapshot(s') == AfterSweep(c, Snapshot(s), s.clock)
  {
  }

  lemma SweepFrom(c: Config, s: State, order: seq<string>)
    requires OwnEntries(s) && s.sweeper == Ranging(s.clock - c.ttl, {})
    requires VisitOrder(order, s.store.Keys)
    ensures var s' := SweepSteps(c, s, order);
            && OwnEntries(s') && s'.sweeper.Ranging? && s'.callers == s.callers
            && Snapshot(s') == AfterSweep(c, Snapshot(s), s.clock)
  {
    SweepKeys(c, s, order);
    SweptSnapshot(c, s, SweepSteps(c, s, order), order);
  }

  /** A sweep that nothing comes between, over all keys in any order, is the atomic sweep. */
  lemma UndisturbedSweep(c: Config, s: State, order: seq<string>)
    requires OwnEntries(s) && s.sweeper.Waiting?
    requires VisitOrder(order, s.store.Keys)
    ensures var s' := Next(c, SweepSteps(c, Next(c, s, SweepBegin), order), SweepEnd);
            && OwnEntries(s') && s'.sweeper.Waiting? && s'.callers == s.callers
            && Snapshot(s') == AfterSweep(c, Snapshot(s), s.clock)
  {
    var s1 := Next(c, s, SweepBegin);
    assert s1 == s.(sweeper := Ranging(s.clock - c.ttl, {}));
    SweepFrom(c, s1, order);
    var s2 := SweepSteps(c, s1, order);
    assert Next(c, s2, SweepEnd) == s2.(sweeper := Waiting);
  }
}
