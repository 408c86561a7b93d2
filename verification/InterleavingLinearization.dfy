/** Callers of Allow that run concurrently get the answers of a sequential limiter that takes their calls in the
    order of their takes: entry by entry in every interleaving, and key by key as long as the key is only deleted
    when nobody can tell. Each take lies between the beginning and the end of its call. */
module InterleavingLinearization {
  import opened Orders
  import opened TokenBuckets
  import opened Limiter
  import opened Interleaving
  import opened InterleavingSafety
  import opened InterleavingGrants
  import opened InterleavingBudget
  import LimiterRuns

  predicate TakesIn(s: State, l: Label, id: nat) {
    l.Take? && s.At(l.caller).Taking? && s.At(l.caller).id == id
  }

  predicate TakesForIn(s: State, l: Label, key: string) {
    l.Take? && s.At(l.caller).Taking? && s.At(l.caller).key == key
  }

  /** The calls that took from an entry in the first n steps, each at the time of its take. */
  function TakesFrom(c: Config, start: int, run: seq<Label>, id: nat, n: nat): LimiterRuns.Run
    requires n <= |run|
  {
    if n == 0 then []
    else WithTake(After(c, start, run, n - 1), run[n - 1], id, TakesFrom(c, start, run, id, n - 1))
  }

  function WithTake(s: State, l: Label, id: nat, calls: LimiterRuns.Run): LimiterRuns.Run {
    if TakesIn(s, l, id) then calls + [LimiterRuns.Call(s.At(l.caller).key, s.clock)] else calls
  }

  /** The calls for a key. */
  function TakesFor(c: Config, start: int, run: seq<Label>, key: string, n: nat): LimiterRuns.Run
    requires n <= |run|
  {
    if n == 0 then []
    else WithTakeFor(After(c, start, run, n - 1), run[n - 1], key, TakesFor(c, start, run, key, n - 1))
  }

  // ---- One entry ----

  /** The table after the calls, on a limiter that never forgets. */
  function TableAfter(c: Config, calls: LimiterRuns.Run): Table {
    LimiterRuns.At(c, calls, |calls|, false)
  }

  /** The level that the next call finds there. */
  function LevelNext(c: Config, calls: LimiterRuns.Run, key: string, now: int): int {
    Level(c, WithEntry(c, TableAfter(c, calls), key, now)[key].bucket, now)
  }

  /** An entry's bucket is as full as the one that the calls leave behind. */
  ghost predicate Follows(c: Config, calls: LimiterRuns.Run, r: Rec, now: int) {
    && LimiterRuns.Timed(calls) && (forall i :: 0 <= i < |calls| ==> calls[i].at <= now)
    && BucketOk(c, r.bucket, now)
    && LevelNext(c, calls, r.key, now) == Level(c, r.bucket, now)
  }

  lemma FollowsBuilt(c: Config, key: string, now: int)
    ensures Follows(c, [], AsBuilt(c, key, now), now)
  {
  }

  lemma FollowsLater(c: Config, calls: LimiterRuns.Run, r: Rec, now: int, later: int)
    requires now <= later && Follows(c, calls, r, now)
    ensures Follows(c, calls, r, later)
  {
    LimiterRuns.TableAt(c, calls, |calls|, false, now);
    LevelLater(c, r.bucket, now, later);
    LevelBounds(c, r.bucket, later);
    InflowGrows(c, 0, later - now);
    var t := TableAfter(c, calls);
    if r.key in t { LevelLater(c, t[r.key].bucket, now, later); }
  }

  /** One call more. */
  lemma TableAfterCall(c: Config, calls: LimiterRuns.Run, key: string, now: int)
    ensures TableAfter(c, calls + [LimiterRuns.Call(key, now)]) == AfterAllow(c, TableAfter(c, calls), key, now)
    ensures LimiterRuns.Answer(c, calls + [LimiterRuns.Call(key, now)], |calls|, false)
         == Admits(c, TableAfter(c, calls), key, now)
  {
    LimiterRuns.AtPrefix(c, calls, LimiterRuns.Call(key, now), |calls|, false);
  }

  /** A take is answered like the next call, and leaves the bucket as full as that leaves its own. */
  lemma FollowsTake(c: Config, calls: LimiterRuns.Run, r: Rec, r': Rec, now: int)
    requires Follows(c, calls, r, now) && r'.key == r.key && r'.bucket == TakeToken(c, r.bucket, now)
    ensures var calls' := calls + [LimiterRuns.Call(r.key, now)];
            && LimiterRuns.Timed(calls') && Follows(c, calls', r', now)
            && LimiterRuns.Answer(c, calls', |calls|, false) == Granted(c, r.bucket, now)
  {
    LimiterRuns.TableAt(c, calls, |calls|, false, now);
    TableAfterCall(c, calls, r.key, now);
    TakeLevel(c, r.bucket, now);
    TakeLevel(c, WithEntry(c, TableAfter(c, calls), r.key, now)[r.key].bucket, now);
  }

  lemma FollowsSame(c: Config, calls: LimiterRuns.Run, r: Rec, r': Rec, now: int)
    requires Follows(c, calls, r, now) && r'.key == r.key && r'.bucket == r.bucket
    ensures Follows(c, calls, r', now)
  {
  }

  /** What a step does to an entry that is there. */
  lemma EntryStep(c: Config, s: State, l: Label, start: int, id: nat)
    requires Inv(c, s, start) && id < |s.heap|
    ensures var s' := Next(c, s, l);
            && s.clock <= s'.clock && id < |s'.heap| && s'.heap[id].key == s.heap[id].key
            && (TakesIn(s, l, id) ==> s'.clock == s.clock && s.At(l.caller).key == s.heap[id].key
                                      && s'.heap[id].bucket == TakeToken(c, s.heap[id].bucket, s.clock))
            && (!TakesIn(s, l, id) ==> s'.heap[id].bucket == s.heap[id].bucket)
  {
    if TakesIn(s, l, id) { assert CallerOk(s, s.callers[l.caller]); }
  }

  lemma FollowsStep(c: Config, s: State, l: Label, start: int, id: nat, calls: LimiterRuns.Run)
    requires Inv(c, s, start) && id < |s.heap| && Follows(c, calls, s.heap[id], s.clock)
    ensures var s' := Next(c, s, l);
            id < |s'.heap| && Follows(c, WithTake(s, l, id, calls), s'.heap[id], s'.clock)
  {
    EntryStep(c, s, l, start, id);
    var s' := Next(c, s, l);
    if TakesIn(s, l, id) {
      FollowsTake(c, calls, s.heap[id], s'.heap[id], s.clock);
    } else {
      FollowsSame(c, calls, s.heap[id], s'.heap[id], s.clock);
      FollowsLater(c, calls, s'.heap[id], s.clock, s'.clock);
    }
  }

  /** An entry that is not there yet has not been taken from, and is built as new. */
  lemma NewEntryStep(c: Config, s: State, l: Label, start: int, id: nat)
    requires Inv(c, s, start) && |s.heap| <= id
    ensures !TakesIn(s, l, id)
    ensures var s' := Next(c, s, l);
            id < |s'.heap| ==> s'.heap[id] == AsBuilt(c, s'.heap[id].key, s.clock) && s'.clock == s.clock
  {
    if l.Take? && s.At(l.caller).Taking? { assert CallerOk(s, s.callers[l.caller]); }
  }

  /** Where an entry stands after n steps: as its calls leave it, once it is there. */
  ghost predicate EntryFollows(c: Config, start: int, run: seq<Label>, id: nat, n: nat)
    requires n <= |run|
  {
    var s, calls := After(c, start, run, n), TakesFrom(c, start, run, id, n);
    if id < |s.heap| then Follows(c, calls, s.heap[id], s.clock) else calls == []
  }

  lemma EntryFollowsStep(c: Config, start: int, run: seq<Label>, id: nat, n: nat)
    requires n < |run| && EntryFollows(c, start, run, id, n)
    ensures EntryFollows(c, start, run, id, n + 1)
  {
    Invariant(c, start, run, n);
    var s, l := After(c, start, run, n), run[n];
    if id < |s.heap| {
      FollowsStep(c, s, l, start, id, TakesFrom(c, start, run, id, n));
    } else {
      NewEntryStep(c, s, l, start, id);
      if id < |Next(c, s, l).heap| { FollowsBuilt(c, Next(c, s, l).heap[id].key, s.clock); }
    }
  }

  lemma EntryFollowsAlways(c: Config, start: int, run: seq<Label>, id: nat, n: nat)
    requires n <= |run|
    ensures EntryFollows(c, start, run, id, n)
  {
    forall i | 0 <= i < n && EntryFollows(c, start, run, id, i) ensures EntryFollows(c, start, run, id, i + 1) {
      EntryFollowsStep(c, start, run, id, i);
    }
    CountedUp((i: nat) => i <= |run| && EntryFollows(c, start, run, id, i), 0, n);
  }

  /** The last of the calls gets the given answer in a sequential run without evictions. */
  ghost predicate LastAnswered(c: Config, calls: LimiterRuns.Run, key: string, at: int, answer: bool) {
    && |calls| > 0 && LimiterRuns.Timed(calls) && calls[|calls| - 1] == LimiterRuns.Call(key, at)
    && LimiterRuns.Answer(c, calls, |calls| - 1, false) == answer
  }

  lemma TakeAnswered(c: Config, s: State, l: Label, start: int, id: nat, calls: LimiterRuns.Run)
    requires Inv(c, s, start) && TakesIn(s, l, id) && id < |s.heap| && Follows(c, calls, s.heap[id], s.clock)
    ensures var key := s.At(l.caller).key;
            LastAnswered(c, calls + [LimiterRuns.Call(key, s.clock)], key, s.clock, GrantsIn(c, s, l, key))
  {
    EntryStep(c, s, l, start, id);
    FollowsTake(c, calls, s.heap[id], Next(c, s, l).heap[id], s.clock);
  }

  /** In every interleaving, the takes from an entry are answered, one after the other, as calls made at those
      times to a sequential limiter that never evicts. */
  lemma EntryLinearizable(c: Config, start: int, run: seq<Label>, id: nat, n: nat)
    requires n < |run| && TakesIn(After(c, start, run, n), run[n], id)
    ensures var s := After(c, start, run, n);
            var key := s.At(run[n].caller).key;
            LastAnswered(c, TakesFrom(c, start, run, id, n + 1), key, s.clock, Grants(c, start, run, key, n))
  {
    var s := After(c, start, run, n);
    Invariant(c, start, run, n);
    assert CallerOk(s, s.callers[run[n].caller]);
    EntryFollowsAlways(c, start, run, id, n);
    TakeAnswered(c, s, run[n], start, id, TakesFrom(c, start, run, id, n));
  }

  // ---- One key, while deletions are quiet ----

  /** A Delete of the key now takes out an entry that nobody holds and whose bucket is full, as is the bucket of
      the entry that will take its place. */
  predicate Quiet(c: Config, s: State, key: string) {
    Holders(s, key) == {} && Supply(c, s, key) == Capacity(c)
  }

  ghost predicate QuietDeletes(c: Config, start: int, run: seq<Label>, key: string, n: nat)
    requires n <= |run|
  {
    forall i :: 0 <= i < n && Deletes(c, start, run, key, i) ==> Quiet(c, After(c, start, run, i), key)
  }

  /** All that hold an entry for the key hold the map's, which is as full as the calls leave their own. */
  ghost predicate Tracks(c: Config, calls: LimiterRuns.Run, s: State, key: string) {
    && LimiterRuns.Timed(calls) && (forall i :: 0 <= i < |calls| ==> calls[i].at <= s.clock)
    && Strays(s, key) == {}
    && LevelNext(c, calls, key, s.clock) == Supply(c, s, key)
  }

  function WithTakeFor(s: State, l: Label, key: string, calls: LimiterRuns.Run): LimiterRuns.Run {
    if TakesForIn(s, l, key) then calls + [LimiterRuns.Call(key, s.clock)] else calls
  }

  lemma LevelNextLater(c: Config, calls: LimiterRuns.Run, key: string, now: int, later: int)
    requires LimiterRuns.Timed(calls) && (forall i :: 0 <= i < |calls| ==> calls[i].at <= now) && now <= later
    ensures LevelNext(c, calls, key, later) == Min(Capacity(c), LevelNext(c, calls, key, now) + Inflow(c, later - now))
  {
    LimiterRuns.TableAt(c, calls, |calls|, false, now);
    InflowGrows(c, 0, later - now);
    var t := TableAfter(c, calls);
    if key in t { LevelLater(c, t[key].bucket, now, later); }
  }

  lemma SupplyLater(c: Config, s: State, l: Label, start: int, key: string)
    requires Inv(c, s, start) && l.Tick?
    ensures Supply(c, Next(c, s, l), key) == Min(Capacity(c), Supply(c, s, key) + Inflow(c, l.d))
  {
    InflowGrows(c, 0, l.d);
    if key in s.store {
      assert RecOk(c, s.heap[s.store[key]], start, s.clock);
      LevelLater(c, s.heap[s.store[key]].bucket, s.clock, s.clock + l.d);
    }
  }

  lemma TracksTick(c: Config, calls: LimiterRuns.Run, s: State, l: Label, start: int, key: string)
    requires Inv(c, s, start) && Tracks(c, calls, s, key) && l.Tick?
    ensures Tracks(c, calls, Next(c, s, l), key)
  {
    assert Strays(Next(c, s, l), key) == Strays(s, key);
    SupplyLater(c, s, l, start, key);
    LevelNextLater(c, calls, key, s.clock, s.clock + l.d);
  }

  lemma LevelNextTaken(c: Config, calls: LimiterRuns.Run, key: string, now: int)
    requires LimiterRuns.Timed(calls) && forall i :: 0 <= i < |calls| ==> calls[i].at <= now
    ensures var calls' := calls + [LimiterRuns.Call(key, now)];
            var answer := LevelNext(c, calls, key, now) >= c.unit;
            && LastAnswered(c, calls', key, now, answer)
            && LevelNext(c, calls', key, now) == LevelNext(c, calls, key, now) - (if answer then c.unit else 0)
  {
    LimiterRuns.TableAt(c, calls, |calls|, false, now);
    TableAfterCall(c, calls, key, now);
    TakeLevel(c, WithEntry(c, TableAfter(c, calls), key, now)[key].bucket, now);
  }

  /** Without strays, who takes for the key takes from the map's entry. */
  lemma TakesFromMap(c: Config, s: State, l: Label, start: int, key: string)
    requires Inv(c, s, start) && Strays(s, key) == {} && TakesForIn(s, l, key)
    ensures Current(s, key, l.caller) && (GrantsIn(c, s, l, key) <==> Supply(c, s, key) >= c.unit)
  {
    assert l.caller in InFlight(s, key) && l.caller !in Strays(s, key);
    assert CallerOk(s, s.callers[l.caller]);
  }

  lemma TracksTake(c: Config, calls: LimiterRuns.Run, s: State, l: Label, start: int, key: string)
    requires Inv(c, s, start) && Tracks(c, calls, s, key) && l.Take?
    ensures Tracks(c, WithTakeFor(s, l, key, calls), Next(c, s, l), key)
  {
    StraysTake(c, s, l, start, key);
    SupplyTake(c, s, l, start, key);
    if TakesForIn(s, l, key) {
      TakesFromMap(c, s, l, start, key);
      LevelNextTaken(c, calls, key, s.clock);
    }
  }

  lemma TracksSweeper(c: Config, calls: LimiterRuns.Run, s: State, l: Label, start: int, key: string)
    requires Inv(c, s, start) && Tracks(c, calls, s, key) && (DeletesIn(s, l, key) ==> Quiet(c, s, key))
    requires l.SweepBegin? || l.Observe? || l.Check? || l.Delete? || l.SweepEnd?
    ensures Tracks(c, calls, Next(c, s, l), key)
  {
    var s' := Next(c, s, l);
    SweeperMoves(c, s, l, key);
    if DeletesIn(s, l, key) {
      HoldersStray(s, s', key);
    } else {
      assert InFlight(s', key) == InFlight(s, key);
      assert Strays(s', key) == Strays(s, key);
    }
  }

  lemma TracksSame(c: Config, calls: LimiterRuns.Run, s: State, l: Label, start: int, key: string)
    requires Inv(c, s, start) && Tracks(c, calls, s, key)
    requires l.Begin? || l.Load? || l.Build? || l.LoadOrStore? || l.Touch?
    ensures Tracks(c, calls, Next(c, s, l), key)
  {
    if l.LoadOrStore? {
      StraysStore(c, s, l, start, key);
      SupplyStore(c, s, l, start, key);
    } else {
      StraysStay(c, s, l, start, key);
      SupplyStays(c, s, l, start, key);
    }
  }

  lemma TracksStep(c: Config, calls: LimiterRuns.Run, s: State, l: Label, start: int, key: string)
    requires Inv(c, s, start) && Tracks(c, calls, s, key) && (DeletesIn(s, l, key) ==> Quiet(c, s, key))
    ensures Tracks(c, WithTakeFor(s, l, key, calls), Next(c, s, l), key)
  {
    if l.Tick? {
      TracksTick(c, calls, s, l, start, key);
    } else if l.Take? {
      TracksTake(c, calls, s, l, start, key);
    } else if l.SweepBegin? || l.Observe? || l.Check? || l.Delete? || l.SweepEnd? {
      TracksSweeper(c, calls, s, l, start, key);
    } else {
      TracksSame(c, calls, s, l, start, key);
    }
  }

  lemma TracksAtStart(c: Config, start: int, key: string)
    ensures Tracks(c, [], Init(start), key)
  {
    assert InFlight(Init(start), key) == {};
  }

  ghost predicate TracksAt(c: Config, start: int, run: seq<Label>, key: string, n: nat)
    requires n <= |run|
  {
    Tracks(c, TakesFor(c, start, run, key, n), After(c, start, run, n), key)
  }

  lemma TracksOn(c: Config, start: int, run: seq<Label>, key: string, n: nat)
    requires n < |run| && TracksAt(c, start, run, key, n)
    requires Deletes(c, start, run, key, n) ==> Quiet(c, After(c, start, run, n), key)
    ensures TracksAt(c, start, run, key, n + 1)
  {
    Invariant(c, start, run, n);
    TracksStep(c, TakesFor(c, start, run, key, n), After(c, start, run, n), run[n], start, key);
  }

  lemma TracksAlways(c: Config, start: int, run: seq<Label>, key: string, n: nat)
    requires n <= |run| && QuietDeletes(c, start, run, key, n)
    ensures TracksAt(c, start, run, key, n)
  {
    TracksAtStart(c, start, key);
    forall i | 0 <= i < n && TracksAt(c, start, run, key, i) ensures TracksAt(c, start, run, key, i + 1) {
      TracksOn(c, start, run, key, i);
    }
    CountedUp((i: nat) => i <= |run| && TracksAt(c, start, run, key, i), 0, n);
  }

  /** The take at n for the key is answered as the last of the calls. */
  ghost predicate AnsweredInOrder(c: Config, start: int, run: seq<Label>, key: string, n: nat)
    requires n < |run|
  {
    LastAnswered(c, TakesFor(c, start, run, key, n + 1), key, After(c, start, run, n).clock,
                 Grants(c, start, run, key, n))
  }

  /** In every interleaving, concurrent calls for a key are answered as if they were made one after the other, in
      the order and at the times of their takes, to a sequential limiter that never evicts: as long as every
      Delete of the key, if there is any, is quiet. */
  lemma Linearizable(c: Config, start: int, run: seq<Label>, key: string, n: nat)
    requires n < |run| && TakesForIn(After(c, start, run, n), run[n], key) && QuietDeletes(c, start, run, key, n)
    ensures AnsweredInOrder(c, start, run, key, n)
  {
    var s := After(c, start, run, n);
    Invariant(c, start, run, n);
    TracksAlways(c, start, run, key, n);
    TakesFromMap(c, s, run[n], start, key);
    LevelNextTaken(c, TakesFor(c, start, run, key, n), key, s.clock);
  }
}
