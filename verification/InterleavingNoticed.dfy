/** Exactly which deletions of a key concurrent callers can notice: those that are not quiet. */
module InterleavingNoticed {
  import opened TokenBuckets
  import opened Limiter
  import opened Interleaving
  import opened InterleavingRefinement
  import opened InterleavingSafety
  import opened InterleavingGrants
  import opened InterleavingBudget
  import opened InterleavingLinearization
  import LimiterRuns

  /** From `lo` on, what is deleted of the key is deleted quietly. */
  ghost predicate QuietSince(c: Config, start: int, run: seq<Label>, key: string, lo: nat)
    requires lo <= |run|
  {
    forall i :: lo <= i < |run| && Deletes(c, start, run, key, i) ==> Quiet(c, After(c, start, run, i), key)
  }

  /** However the run goes on, as long as further deletions of the key are quiet, its calls are answered in order
      as by a sequential limiter that never evicts. */
  ghost predicate Unnoticed(c: Config, start: int, run: seq<Label>, key: string) {
    forall run': seq<Label>, n: nat ::
      run <= run' && |run| <= n < |run'| && QuietSince(c, start, run', key, |run|)
      && TakesForIn(After(c, start, run', n), run'[n], key) ==>
        AnsweredInOrder(c, start, run', key, n)
  }

  // ---- A quiet deletion is not noticed ----

  lemma QuietOn(c: Config, start: int, run: seq<Label>, run': seq<Label>, key: string)
    requires run <= run' && QuietDeletes(c, start, run, key, |run|) && QuietSince(c, start, run', key, |run|)
    ensures QuietDeletes(c, start, run', key, |run'|)
  {
    forall i | 0 <= i < |run'| && Deletes(c, start, run', key, i) ensures Quiet(c, After(c, start, run', i), key) {
      if i < |run| {
        AfterPrefix(c, start, run[..i], run, i);
        AfterPrefix(c, start, run[..i], run', i);
        assert Deletes(c, start, run, key, i);
      }
    }
  }

  lemma QuietUnnoticed(c: Config, start: int, run: seq<Label>, key: string)
    requires QuietDeletes(c, start, run, key, |run|)
    ensures Unnoticed(c, start, run, key)
  {
    forall run': seq<Label>, n: nat |
      run <= run' && |run| <= n < |run'| && QuietSince(c, start, run', key, |run|)
      && TakesForIn(After(c, start, run', n), run'[n], key)
      ensures AnsweredInOrder(c, start, run', key, n)
    {
      QuietOn(c, start, run, run', key);
      Linearizable(c, start, run', key, n);
    }
  }

  // ---- Without a burst nothing is ever granted ----

  ghost predicate TimedBy(calls: LimiterRuns.Run, now: int) {
    LimiterRuns.Timed(calls) && forall i :: 0 <= i < |calls| ==> calls[i].at <= now
  }

  lemma TimedStep(c: Config, s: State, l: Label, key: string, calls: LimiterRuns.Run)
    requires TimedBy(calls, s.clock)
    ensures TimedBy(WithTakeFor(s, l, key, calls), Next(c, s, l).clock)
  {
    assert s.clock <= Next(c, s, l).clock;
  }

  lemma {:induction false} CallsTimed(c: Config, start: int, run: seq<Label>, key: string, n: nat)
    requires n <= |run|
    ensures TimedBy(TakesFor(c, start, run, key, n), After(c, start, run, n).clock)
  {
    if n > 0 {
      CallsTimed(c, start, run, key, n - 1);
      TimedStep(c, After(c, start, run, n - 1), run[n - 1], key, TakesFor(c, start, run, key, n - 1));
    }
  }

  lemma LevelNextBounds(c: Config, calls: LimiterRuns.Run, key: string, now: int)
    requires TimedBy(calls, now)
    ensures 0 <= LevelNext(c, calls, key, now) <= Capacity(c)
  {
    LimiterRuns.TableAt(c, calls, |calls|, false, now);
    LevelBounds(c, WithEntry(c, TableAfter(c, calls), key, now)[key].bucket, now);
  }

  lemma NeverGranted(c: Config, start: int, run: seq<Label>, key: string, n: nat)
    requires n < |run| && c.burst <= 0
    ensures !Grants(c, start, run, key, n)
  {
    Invariant(c, start, run, n);
    var s := After(c, start, run, n);
    if GrantsIn(c, s, run[n], key) {
      var r := s.heap[s.At(run[n].caller).id];
      assert RecOk(c, r, start, s.clock);
      LevelBounds(c, r.bucket, s.clock);
    }
  }

  lemma NoBurstUnnoticed(c: Config, start: int, run: seq<Label>, key: string)
    requires c.burst <= 0
    ensures Unnoticed(c, start, run, key)
  {
    forall run': seq<Label>, n: nat |
      run <= run' && |run| <= n < |run'| && QuietSince(c, start, run', key, |run|)
      && TakesForIn(After(c, start, run', n), run'[n], key)
      ensures AnsweredInOrder(c, start, run', key, n)
    {
      var calls, now := TakesFor(c, start, run', key, n), After(c, start, run', n).clock;
      CallsTimed(c, start, run', key, n);
      LevelNextBounds(c, calls, key, now);
      LevelNextTaken(c, calls, key, now);
      NeverGranted(c, start, run', key, n);
    }
  }

  // ---- Going on without a deletion ----

  /** run' goes on from run without deleting the key, and has come to s' with these calls for the key. */
  ghost predicate GoesOn(c: Config, start: int, run: seq<Label>, key: string, run': seq<Label>, s': State,
                         calls: LimiterRuns.Run)
  {
    && run <= run' && s' == After(c, start, run', |run'|) && calls == TakesFor(c, start, run', key, |run'|)
    && (forall i :: |run| <= i < |run'| ==> !Deletes(c, start, run', key, i))
  }

  lemma {:induction false} TakesForPrefix(c: Config, start: int, run: seq<Label>, run': seq<Label>, key: string, n: nat)
    requires run <= run' && n <= |run|
    ensures TakesFor(c, start, run', key, n) == TakesFor(c, start, run, key, n)
  {
    if n > 0 {
      TakesForPrefix(c, start, run, run', key, n - 1);
      AfterPrefix(c, start, run[..n - 1], run, n - 1);
      AfterPrefix(c, start, run[..n - 1], run', n - 1);
    }
  }

  lemma OneStep(c: Config, start: int, run: seq<Label>, key: string, run1: seq<Label>, s1: State,
                calls: LimiterRuns.Run, l: Label)
    requires GoesOn(c, start, run, key, run1, s1, calls) && !DeletesIn(s1, l, key)
    ensures GoesOn(c, start, run, key, run1 + [l], Next(c, s1, l), WithTakeFor(s1, l, key, calls))
    ensures After(c, start, run1 + [l], |run1|) == s1
  {
    var run2 := run1 + [l];
    AfterPrefix(c, start, run1, run2, |run1|);
    TakesForPrefix(c, start, run1, run2, key, |run1|);
    forall i | |run| <= i < |run2| ensures !Deletes(c, start, run2, key, i) {
      if i < |run1| {
        AfterPrefix(c, start, run1[..i], run1, i);
        AfterPrefix(c, start, run1[..i], run2, i);
        assert !Deletes(c, start, run1, key, i);
      }
    }
  }

  /** What a take that is granted means to the sequential limiter, when nothing can be noticed. */
  lemma GrantUnnoticed(c: Config, start: int, run: seq<Label>, key: string, run1: seq<Label>, s1: State,
                       calls: LimiterRuns.Run, l: Label)
    requires Unnoticed(c, start, run, key) && GoesOn(c, start, run, key, run1, s1, calls)
    requires GrantsIn(c, s1, l, key)
    ensures LevelNext(c, calls + [LimiterRuns.Call(key, s1.clock)], key, s1.clock)
         == LevelNext(c, calls, key, s1.clock) - c.unit
  {
    OneStep(c, start, run, key, run1, s1, calls, l);
    var run2 := run1 + [l];
    assert run2[|run1|] == l && Grants(c, start, run2, key, |run1|);
    assert AnsweredInOrder(c, start, run2, key, |run1|);
    TakesForPrefix(c, start, run1, run2, key, |run1|);
    CallsTimed(c, start, run1, key, |run1|);
    LevelNextTaken(c, calls, key, s1.clock);
  }

  // ---- A call on its own ----

  /** The caller has got the map's entry and is about to take from it. */
  predicate Ready(s: State, key: string, t: nat) {
    key in s.store && s.store[key] < |s.heap| && s.At(t) == Taking(key, s.store[key])
  }

  /** A caller goes as far as the take. */
  lemma GetsReady(c: Config, start: int, run: seq<Label>, key: string, run1: seq<Label>, s1: State,
                  calls: LimiterRuns.Run, t: nat)
    returns (run2: seq<Label>, s2: State)
    requires GoesOn(c, start, run, key, run1, s1, calls) && s1.At(t).Idle?
    ensures GoesOn(c, start, run, key, run2, s2, calls)
    ensures s2.clock == s1.clock && Ready(s2, key, t) && Supply(c, s2, key) == Supply(c, s1, key)
  {
    run2, s2 := Quietly(c, start, run, key, run1, s1, calls, Begin(t, key));
    run2, s2 := Quietly(c, start, run, key, run2, s2, calls, Load(t));
    run2, s2 := Quietly(c, start, run, key, run2, s2, calls, Build(t));
    run2, s2 := Quietly(c, start, run, key, run2, s2, calls, LoadOrStore(t));
    GetOrCreateAlone(c, s1, t, key);
    ReachableOwnEntries(c, start, run2, |run2|);
    assert s2 == Entered(c, s1, t, key) && s2.At(t) == Touching(key, s2.store[key]);
    run2, s2 := Quietly(c, start, run, key, run2, s2, calls, Touch(t));
  }

  /** A step of a caller that is not a take. */
  lemma Quietly(c: Config, start: int, run: seq<Label>, key: string, run1: seq<Label>, s1: State,
                calls: LimiterRuns.Run, l: Label)
    returns (run2: seq<Label>, s2: State)
    requires GoesOn(c, start, run, key, run1, s1, calls)
    requires l.Begin? || l.Load? || l.Build? || l.LoadOrStore? || l.Touch?
    ensures GoesOn(c, start, run, key, run2, s2, calls)
    ensures s2 == Next(c, s1, l) && s2.clock == s1.clock && Supply(c, s2, key) == Supply(c, s1, key)
  {
    OneStep(c, start, run, key, run1, s1, calls, l);
    run2, s2 := run1 + [l], Next(c, s1, l);
    Invariant(c, start, run1, |run1|);
    if l.LoadOrStore? { SupplyStore(c, s1, l, start, key); } else { SupplyStays(c, s1, l, start, key); }
  }

  /** A whole call that is granted: the map's bucket and that of the sequential limiter give a token each. */
  lemma OneCall(c: Config, start: int, run: seq<Label>, key: string, run1: seq<Label>, s1: State,
                calls: LimiterRuns.Run, t: nat)
    returns (run2: seq<Label>, s2: State, calls2: LimiterRuns.Run)
    requires Unnoticed(c, start, run, key)
    requires GoesOn(c, start, run, key, run1, s1, calls) && s1.At(t).Idle? && Supply(c, s1, key) >= c.unit
    ensures GoesOn(c, start, run, key, run2, s2, calls2) && s2.clock == s1.clock && s2.At(t).Idle?
    ensures Supply(c, s2, key) == Supply(c, s1, key) - c.unit
    ensures LevelNext(c, calls2, key, s2.clock) == LevelNext(c, calls, key, s1.clock) - c.unit
  {
    var run', s' := GetsReady(c, start, run, key, run1, s1, calls, t);
    Invariant(c, start, run', |run'|);
    ReadyTakes(c, s', start, key, t);
    GrantUnnoticed(c, start, run, key, run', s', calls, Take(t));
    OneStep(c, start, run, key, run', s', calls, Take(t));
    run2, s2, calls2 := run' + [Take(t)], Next(c, s', Take(t)), calls + [LimiterRuns.Call(key, s'.clock)];
  }

  lemma ReadyTakes(c: Config, s: State, start: int, key: string, t: nat)
    requires Inv(c, s, start) && Ready(s, key, t) && Supply(c, s, key) >= c.unit
    ensures GrantsIn(c, s, Take(t), key)
    ensures var s' := Next(c, s, Take(t));
            s'.clock == s.clock && s'.At(t).Idle? && Supply(c, s', key) == Supply(c, s, key) - c.unit
  {
    assert t in InFlight(s, key) && Current(s, key, t);
    SupplyTake(c, s, Take(t), start, key);
  }

  lemma {:induction false} ManyCalls(c: Config, start: int, run: seq<Label>, key: string, run1: seq<Label>, s1: State,
                                     calls: LimiterRuns.Run, t: nat, k: nat)
    returns (run2: seq<Label>, s2: State, calls2: LimiterRuns.Run)
    requires Unnoticed(c, start, run, key)
    requires GoesOn(c, start, run, key, run1, s1, calls) && s1.At(t).Idle? && Supply(c, s1, key) >= Scaled(c, k)
    ensures GoesOn(c, start, run, key, run2, s2, calls2) && s2.clock == s1.clock && s2.At(t).Idle?
    ensures Supply(c, s2, key) == Supply(c, s1, key) - Scaled(c, k)
    ensures LevelNext(c, calls2, key, s2.clock) == LevelNext(c, calls, key, s1.clock) - Scaled(c, k)
  {
    if k == 0 {
      run2, s2, calls2 := run1, s1, calls;
    } else {
      ScaledAdds(c, k - 1, 1);
      run2, s2, calls2 := ManyCalls(c, start, run, key, run1, s1, calls, t, k - 1);
      run2, s2, calls2 := OneCall(c, start, run, key, run2, s2, calls2, t);
    }
  }

  lemma {:induction false} Beyond(callers: set<nat>) returns (t: nat)
    ensures forall x :: x in callers ==> x < t
  {
    t := 0;
    if callers != {} {
      var x :| x in callers;
      var beyond := Beyond(callers - {x});
      t := if x < beyond then beyond else x + 1;
      forall y | y in callers ensures y < t {
        assert y == x || y in callers - {x};
      }
    }
  }

  /** The map's bucket would be full and the sequential limiter's is not: a burst of calls tells them apart. */
  lemma AheadNoticed(c: Config, start: int, run: seq<Label>, key: string, run1: seq<Label>, s1: State,
                     calls: LimiterRuns.Run)
    requires c.burst > 0 && GoesOn(c, start, run, key, run1, s1, calls)
    requires Supply(c, s1, key) == Capacity(c) && LevelNext(c, calls, key, s1.clock) < Capacity(c)
    ensures !Unnoticed(c, start, run, key)
  {
    if Unnoticed(c, start, run, key) {
      var t := Beyond(s1.callers.Keys);
      var run2, s2, calls2 := ManyCalls(c, start, run, key, run1, s1, calls, t, c.burst);
      CallsTimed(c, start, run2, key, |run2|);
      LevelNextBounds(c, calls2, key, s2.clock);
      assert false;
    }
  }

  // ---- A deletion that is not quiet is noticed ----

  /** Just after a Delete of the key. */
  ghost predicate JustDeleted(c: Config, start: int, run: seq<Label>, key: string) {
    |run| > 0 && Deletes(c, start, run, key, |run| - 1) && QuietDeletes(c, start, run, key, |run| - 1)
  }

  /** What is known then: the sequential limiter's bucket is as full as the deleted one was. */
  lemma AfterDelete(c: Config, start: int, run: seq<Label>, key: string)
    requires JustDeleted(c, start, run, key)
    ensures var s0, s := After(c, start, run, |run| - 1), After(c, start, run, |run|);
            var calls := TakesFor(c, start, run, key, |run|);
            && GoesOn(c, start, run, key, run, s, calls)
            && s.callers == s0.callers && s.heap == s0.heap && s.clock == s0.clock && key !in s.store
            && Supply(c, s, key) == Capacity(c)
            && LevelNext(c, calls, key, s.clock) == Supply(c, s0, key) <= Capacity(c)
  {
    var n := |run| - 1;
    TracksAlways(c, start, run, key, n);
    Invariant(c, start, run, n);
    SweeperMoves(c, After(c, start, run, n), run[n], key);
    SupplyBounds(c, After(c, start, run, n), start, key);
  }

  /** A caller left holding takes its token from the full bucket that was deleted. */
  lemma HolderTakes(c: Config, start: int, run: seq<Label>, key: string, h: nat)
    returns (run1: seq<Label>, s1: State, calls: LimiterRuns.Run)
    requires Unnoticed(c, start, run, key) && c.burst > 0 && JustDeleted(c, start, run, key)
    requires var s0 := After(c, start, run, |run| - 1);
             h in Holders(s0, key) && Supply(c, s0, key) == Capacity(c)
    ensures GoesOn(c, start, run, key, run1, s1, calls)
    ensures Supply(c, s1, key) == Capacity(c) && LevelNext(c, calls, key, s1.clock) < Capacity(c)
  {
    AfterDelete(c, start, run, key);
    var s0 := After(c, start, run, |run| - 1);
    var id := s0.callers[h].id;
    Invariant(c, start, run, |run| - 1);
    assert CallerOk(s0, s0.callers[h]) && Level(c, s0.heap[id].bucket, s0.clock) == Capacity(c);
    run1, s1, calls := run, After(c, start, run, |run|), TakesFor(c, start, run, key, |run|);
    if s1.At(h).Touching? {
      run1, s1 := Quietly(c, start, run, key, run1, s1, calls, Touch(h));
    }
    TakesFull(c, start, run, key, run1, s1, calls, h, id);
    run1, s1, calls := run1 + [Take(h)], Next(c, s1, Take(h)), calls + [LimiterRuns.Call(key, s1.clock)];
  }

  lemma FullGrants(c: Config, s: State, key: string, h: nat, id: nat)
    requires c.burst > 0 && s.At(h) == Taking(key, id) && id < |s.heap| && key !in s.store
    requires Level(c, s.heap[id].bucket, s.clock) == Capacity(c)
    ensures GrantsIn(c, s, Take(h), key)
    ensures Supply(c, Next(c, s, Take(h)), key) == Capacity(c) && Next(c, s, Take(h)).clock == s.clock
  {
    ScaledGrows(c, 1, c.burst);
  }

  lemma TakesFull(c: Config, start: int, run: seq<Label>, key: string, run1: seq<Label>, s1: State,
                  calls: LimiterRuns.Run, h: nat, id: nat)
    requires Unnoticed(c, start, run, key) && c.burst > 0 && GoesOn(c, start, run, key, run1, s1, calls)
    requires s1.At(h) == Taking(key, id) && id < |s1.heap| && key !in s1.store
    requires Level(c, s1.heap[id].bucket, s1.clock) == Capacity(c)
    requires LevelNext(c, calls, key, s1.clock) <= Capacity(c)
    ensures var s2, calls2 := Next(c, s1, Take(h)), calls + [LimiterRuns.Call(key, s1.clock)];
            && GoesOn(c, start, run, key, run1 + [Take(h)], s2, calls2)
            && Supply(c, s2, key) == Capacity(c) && LevelNext(c, calls2, key, s2.clock) < Capacity(c)
  {
    FullGrants(c, s1, key, h, id);
    GrantUnnoticed(c, start, run, key, run1, s1, calls, Take(h));
    OneStep(c, start, run, key, run1, s1, calls, Take(h));
  }

  lemma LoudNoticed(c: Config, start: int, run: seq<Label>, key: string)
    requires c.burst > 0 && JustDeleted(c, start, run, key) && !Quiet(c, After(c, start, run, |run| - 1), key)
    ensures !Unnoticed(c, start, run, key)
  {
    AfterDelete(c, start, run, key);
    var s0, s := After(c, start, run, |run| - 1), After(c, start, run, |run|);
    if Supply(c, s0, key) < Capacity(c) {
      AheadNoticed(c, start, run, key, run, s, TakesFor(c, start, run, key, |run|));
    } else if Unnoticed(c, start, run, key) {
      var h :| h in Holders(s0, key);
      var run1, s1, calls := HolderTakes(c, start, run, key, h);
      AheadNoticed(c, start, run, key, run1, s1, calls);
    }
  }

  /** The first Delete of a key that could be noticed, after any number of quiet ones: there is a way to go on in
      which a call is not answered as by a sequential limiter that never evicts, exactly when some caller held
      the deleted entry or its bucket was not full, unless the burst is not positive and nothing is ever granted. */
  lemma DeleteUnnoticedIff(c: Config, start: int, run: seq<Label>, key: string)
    requires JustDeleted(c, start, run, key)
    ensures Unnoticed(c, start, run, key) <==> Quiet(c, After(c, start, run, |run| - 1), key) || c.burst <= 0
  {
    if c.burst <= 0 {
      NoBurstUnnoticed(c, start, run, key);
    } else if Quiet(c, After(c, start, run, |run| - 1), key) {
      assert QuietDeletes(c, start, run, key, |run|);
      QuietUnnoticed(c, start, run, key);
    } else {
      LoudNoticed(c, start, run, key);
    }
  }
}
