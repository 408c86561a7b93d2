/** What holds of every interleaving of the map and of the sweeper. */
module InterleavingSafety {
  import opened TokenBuckets
  import opened Interleaving
  import opened InterleavingRefinement

  // ---- The map: what steps do to it ----

  /** A stored entry is never overwritten: a step keeps a key's entry, or is the LoadOrStore that puts
      in the first one, or is the Delete of the entry that was checked. */
  lemma NeverOverwritten(c: Config, start: int, run: seq<Label>, n: nat, key: string)
    requires n < |run|
    ensures var s, s' := After(c, start, run, n), After(c, start, run, n + 1);
            && (key in s.store && key in s'.store ==> s'.store[key] == s.store[key])
            && (key !in s.store && key in s'.store ==>
                  run[n].LoadOrStore? && s.At(run[n].caller) == Storing(key, s'.store[key]))
            && (key in s.store && key !in s'.store <==> Deletes(c, start, run, key, n))
            && (Deletes(c, start, run, key, n) ==> s.store[key] == s.sweeper.id)
  {
    Invariant(c, start, run, n);
  }

  predicate DeletesIn(s: State, l: Label, key: string) {
    l == Delete && s.sweeper.Deleting? && s.sweeper.key == key
  }

  predicate Deletes(c: Config, start: int, run: seq<Label>, key: string, n: nat)
    requires n < |run|
  {
    DeletesIn(After(c, start, run, n), run[n], key)
  }

  /** Every caller past getOrCreate holds the entry the map has for its key, or one that a sweep
      removed. */
  lemma CallersHoldPublished(c: Config, start: int, run: seq<Label>, n: nat, caller: nat)
    requires n <= |run|
    ensures var s := After(c, start, run, n);
            var pc := s.At(caller);
            pc.Touching? || pc.Taking? ==>
              (pc.key in s.store && s.store[pc.key] == pc.id) || pc.id in s.removed
  {
    Invariant(c, start, run, n);
    var s := After(c, start, run, n);
    var pc := s.At(caller);
    if pc.Touching? || pc.Taking? {
      assert CallerOk(s, s.callers[caller]) && Published(s, pc.id);
    }
  }

  /** Nobody can get at the entry any more, and it never was in the map. */
  ghost predicate Abandoned(s: State, id: nat) {
    && id < |s.heap| && !s.heap[id].stored
    && (forall t :: t in s.callers && s.callers[t].Storing? ==> s.callers[t].id != id)
  }

  lemma AbandonedStep(c: Config, s: State, l: Label, start: int, id: nat)
    requires Inv(c, s, start) && Abandoned(s, id)
    ensures Abandoned(Next(c, s, l), id) && Next(c, s, l).heap[id] == s.heap[id]
  {
    if l.Touch? || l.Take? {
      assert l.caller in s.callers ==> CallerOk(s, s.callers[l.caller]);
    }
  }

  lemma {:induction false} AbandonedForGood(c: Config, start: int, run: seq<Label>, n: nat, m: nat, id: nat)
    requires n <= m <= |run| && Abandoned(After(c, start, run, n), id)
    ensures Abandoned(After(c, start, run, m), id)
    ensures After(c, start, run, m).heap[id] == After(c, start, run, n).heap[id]
  {
    if m > n {
      AbandonedForGood(c, start, run, n, m - 1, id);
      Invariant(c, start, run, m - 1);
      AbandonedStep(c, After(c, start, run, m - 1), run[m - 1], start, id);
    }
  }

  /** Losing LoadOrStore abandons the caller's own entry, still as it was built. */
  lemma LoserAbandons(c: Config, s: State, l: Label, start: int)
    requires Inv(c, s, start) && l.LoadOrStore? && s.At(l.caller).Storing? && s.At(l.caller).key in s.store
    ensures var s', id := Next(c, s, l), s.At(l.caller).id;
            && Abandoned(s', id) && id < |s.heap| && s'.heap[id] == s.heap[id]
            && s.heap[id] == AsBuilt(c, s.At(l.caller).key, s.heap[id].born)
  {
    var id := s.At(l.caller).id;
    assert CallerOk(s, s.callers[l.caller]) && RecOk(c, s.heap[id], start, s.clock);
    var s' := Next(c, s, l);
    forall t | t in s'.callers && s'.callers[t].Storing? ensures s'.callers[t].id != id {
      assert t != l.caller && t in s.callers && s'.callers[t] == s.callers[t];
      if SameOffer(s.callers[t], s.callers[l.caller]) {
        assert false;
      }
    }
  }

  lemma NobodyHolds(c: Config, start: int, run: seq<Label>, m: nat, id: nat)
    requires m <= |run| && Abandoned(After(c, start, run, m), id)
    ensures var s := After(c, start, run, m);
            forall t :: t in s.callers && (s.callers[t].Touching? || s.callers[t].Taking?) ==> s.callers[t].id != id
  {
    Invariant(c, start, run, m);
    var s := After(c, start, run, m);
    forall t | t in s.callers && (s.callers[t].Touching? || s.callers[t].Taking?) ensures s.callers[t].id != id {
      assert CallerOk(s, s.callers[t]);
    }
  }

  lemma LosesAt(c: Config, start: int, run: seq<Label>, n: nat)
    requires n < |run| && run[n].LoadOrStore?
    requires var s := After(c, start, run, n);
             s.At(run[n].caller).Storing? && s.At(run[n].caller).key in s.store
    ensures var s, s' := After(c, start, run, n), After(c, start, run, n + 1);
            var pc := s.At(run[n].caller);
            && Abandoned(s', pc.id) && pc.id < |s.heap| && s'.heap[pc.id] == s.heap[pc.id]
            && s.heap[pc.id] == AsBuilt(c, pc.key, s.heap[pc.id].born)
  {
    Invariant(c, start, run, n);
    LoserAbandons(c, After(c, start, run, n), run[n], start);
  }

  /** The entry of a caller that lost LoadOrStore: no caller ever holds it again, and it stays as it was
      built. */
  lemma LoserNeverTaken(c: Config, start: int, run: seq<Label>, n: nat, m: nat)
    requires n < m <= |run| && run[n].LoadOrStore?
    requires var s := After(c, start, run, n);
             s.At(run[n].caller).Storing? && s.At(run[n].caller).key in s.store
    ensures var s, s' := After(c, start, run, n), After(c, start, run, m);
            var id := s.At(run[n].caller).id;
            && Abandoned(s', id) && id < |s.heap| && s'.heap[id] == s.heap[id]
            && s.heap[id] == AsBuilt(c, s.At(run[n].caller).key, s.heap[id].born)
            && (forall t :: t in s'.callers && (s'.callers[t].Touching? || s'.callers[t].Taking?) ==>
                  s'.callers[t].id != id)
  {
    var id := After(c, start, run, n).At(run[n].caller).id;
    LosesAt(c, start, run, n);
    AbandonedForGood(c, start, run, n + 1, m, id);
    NobodyHolds(c, start, run, m, id);
  }

  // ---- What a call does from its beginning to its take ----

  /** The caller is in a call for the key that has not come to its take. */
  predicate Underway(pc: Caller, key: string) {
    !pc.Idle? && !pc.Taking? && pc.key == key
  }

  /** The call of caller t for the key that is on at n began at b, and has not come to its take since. */
  ghost predicate BeganCall(c: Config, start: int, run: seq<Label>, t: nat, key: string, b: nat, n: nat)
    requires n <= |run|
  {
    && b < n && run[b] == Begin(t, key) && After(c, start, run, b).At(t).Idle?
    && (forall i :: b < i <= n ==> Underway(After(c, start, run, i).At(t), key))
  }

  /** A caller underway was so already, for the same key, or has just begun. */
  lemma UnderwaySince(c: Config, s: State, l: Label, t: nat, key: string)
    requires Underway(Next(c, s, l).At(t), key)
    ensures Underway(s.At(t), key) || (s.At(t).Idle? && l == Begin(t, key))
  {
  }

  lemma {:induction false} CallBegan(c: Config, start: int, run: seq<Label>, t: nat, key: string, n: nat)
    returns (b: nat)
    requires n <= |run| && Underway(After(c, start, run, n).At(t), key)
    ensures BeganCall(c, start, run, t, key, b, n)
  {
    UnderwaySince(c, After(c, start, run, n - 1), run[n - 1], t, key);
    if Underway(After(c, start, run, n - 1).At(t), key) {
      b := CallBegan(c, start, run, t, key, n - 1);
    } else {
      b := n - 1;
    }
  }

  /** At g the caller did the operation on the map, Load or LoadOrStore, after which it is about to touch an
      entry: the very one that the map then holds for the key. */
  ghost predicate GotAt(c: Config, start: int, run: seq<Label>, t: nat, key: string, id: nat, g: nat, n: nat)
    requires n <= |run|
  {
    && g < n && (run[g] == Load(t) || run[g] == LoadOrStore(t))
    && Underway(After(c, start, run, g).At(t), key) && !After(c, start, run, g).At(t).Touching?
    && InMap(After(c, start, run, g + 1), key, id)
    && Stays(c, start, run, t, Touching(key, id), g + 1, n)
  }

  /** A caller about to touch was so already, or has just got the entry from the map. */
  lemma TouchingSince(c: Config, s: State, l: Label, t: nat, key: string, id: nat)
    requires Next(c, s, l).At(t) == Touching(key, id) && s.At(t) != Touching(key, id)
    ensures (l == Load(t) || l == LoadOrStore(t)) && Underway(s.At(t), key) && !s.At(t).Touching?
    ensures InMap(Next(c, s, l), key, id)
  {
  }

  lemma {:induction false} GotFromMap(c: Config, start: int, run: seq<Label>, t: nat, key: string, id: nat, n: nat)
    returns (g: nat)
    requires n <= |run| && After(c, start, run, n).At(t) == Touching(key, id)
    ensures GotAt(c, start, run, t, key, id, g, n)
  {
    if After(c, start, run, n - 1).At(t) == Touching(key, id) {
      g := GotFromMap(c, start, run, t, key, id, n - 1);
      StaysOn(c, start, run, t, Touching(key, id), g + 1, n);
    } else {
      g := n - 1;
      JustGot(c, start, run, t, key, id, g);
    }
  }

  lemma JustGot(c: Config, start: int, run: seq<Label>, t: nat, key: string, id: nat, g: nat)
    requires g < |run| && After(c, start, run, g).At(t) != Touching(key, id)
    requires After(c, start, run, g + 1).At(t) == Touching(key, id)
    ensures GotAt(c, start, run, t, key, id, g, g + 1)
  {
    TouchingSince(c, After(c, start, run, g), run[g], t, key, id);
  }

  /** At p the caller touched the entry, and it has been about to take from it since. */
  ghost predicate TouchedAt(c: Config, start: int, run: seq<Label>, t: nat, key: string, id: nat, p: nat, n: nat)
    requires n <= |run|
  {
    && p < n && run[p] == Touch(t) && After(c, start, run, p).At(t) == Touching(key, id)
    && id < |After(c, start, run, p + 1).heap|
    && After(c, start, run, p + 1).heap[id].lastSeen == After(c, start, run, p).clock
    && Stays(c, start, run, t, Taking(key, id), p + 1, n)
  }

  /** From lo to n the caller stands at the same place. */
  ghost predicate Stays(c: Config, start: int, run: seq<Label>, t: nat, pc: Caller, lo: nat, n: nat)
    requires n <= |run|
  {
    forall i :: lo <= i <= n ==> After(c, start, run, i).At(t) == pc
  }

  lemma TakingSince(c: Config, s: State, l: Label, t: nat, key: string, id: nat)
    requires Next(c, s, l).At(t) == Taking(key, id) && s.At(t) != Taking(key, id)
    ensures l == Touch(t) && s.At(t) == Touching(key, id)
    ensures id < |Next(c, s, l).heap| && Next(c, s, l).heap[id].lastSeen == s.clock
  {
  }

  lemma {:induction false} TouchedSince(c: Config, start: int, run: seq<Label>, t: nat, key: string, id: nat, n: nat)
    returns (p: nat)
    requires n <= |run| && After(c, start, run, n).At(t) == Taking(key, id)
    ensures TouchedAt(c, start, run, t, key, id, p, n)
  {
    if After(c, start, run, n - 1).At(t) == Taking(key, id) {
      p := TouchedSince(c, start, run, t, key, id, n - 1);
      StillTaking(c, start, run, t, key, id, p, n);
    } else {
      p := n - 1;
      JustTouched(c, start, run, t, key, id, p);
    }
  }

  lemma StillTaking(c: Config, start: int, run: seq<Label>, t: nat, key: string, id: nat, p: nat, n: nat)
    requires 0 < n <= |run| && TouchedAt(c, start, run, t, key, id, p, n - 1)
    requires After(c, start, run, n).At(t) == Taking(key, id)
    ensures TouchedAt(c, start, run, t, key, id, p, n)
  {
    StaysOn(c, start, run, t, Taking(key, id), p + 1, n);
  }

  lemma StaysOn(c: Config, start: int, run: seq<Label>, t: nat, pc: Caller, lo: nat, n: nat)
    requires 0 < n <= |run| && Stays(c, start, run, t, pc, lo, n - 1) && After(c, start, run, n).At(t) == pc
    ensures Stays(c, start, run, t, pc, lo, n)
  {
  }

  lemma JustTouched(c: Config, start: int, run: seq<Label>, t: nat, key: string, id: nat, p: nat)
    requires p < |run| && After(c, start, run, p).At(t) != Taking(key, id)
    requires After(c, start, run, p + 1).At(t) == Taking(key, id)
    ensures TouchedAt(c, start, run, t, key, id, p, p + 1)
  {
    TakingSince(c, After(c, start, run, p), run[p], t, key, id);
  }

  /** Every caller about to take, winner or loser of LoadOrStore, has begun its call, then got from the map the
      entry that the map held, then touched that same entry, and has done nothing since. */
  lemma TouchedBeforeTake(c: Config, start: int, run: seq<Label>, t: nat, key: string, id: nat, n: nat)
    returns (b: nat, g: nat, p: nat)
    requires n <= |run| && After(c, start, run, n).At(t) == Taking(key, id)
    ensures b < g < p < n
    ensures BeganCall(c, start, run, t, key, b, p)
    ensures GotAt(c, start, run, t, key, id, g, p)
    ensures TouchedAt(c, start, run, t, key, id, p, n)
  {
    p := TouchedSince(c, start, run, t, key, id, n);
    g := GotFromMap(c, start, run, t, key, id, p);
    b := CallBegan(c, start, run, t, key, p);
    BeganBeforeGot(c, start, run, t, key, id, b, g, p);
  }

  lemma BeganBeforeGot(c: Config, start: int, run: seq<Label>, t: nat, key: string, id: nat, b: nat, g: nat, p: nat)
    requires p <= |run| && BeganCall(c, start, run, t, key, b, p) && GotAt(c, start, run, t, key, id, g, p)
    ensures b < g
  {
  }

  /** The rest of a call, nothing in between, up to its take; steps that are over by then do nothing. */
  function UpToTake(c: Config, s: State, t: nat): State {
    Next(c, Next(c, Next(c, Next(c, s, Load(t)), Build(t)), LoadOrStore(t)), Touch(t))
  }

  /** Whatever has happened to the map in the meantime, a call left alone comes to its take for the key, and is
      answered by it: no call is dropped or begun again. */
  lemma FinishesAlone(c: Config, s: State, start: int, t: nat)
    requires Inv(c, s, start) && !s.At(t).Idle?
    ensures var s' := UpToTake(c, s, t);
            s'.At(t).Taking? && s'.At(t).key == s.At(t).key && Next(c, s', Take(t)).At(t).Idle?
    ensures s.At(t).Storing? && s.At(t).key in s.store ==>
              UpToTake(c, s, t).At(t) == Taking(s.At(t).key, s.store[s.At(t).key])
  {
    assert CallerOk(s, s.callers[t]);
    match s.At(t) {
      case Loading(key) => FinishesLoading(c, s, start, t);
      case Building(key) => FinishesBuilding(c, s, start, t);
      case _ =>
    }
  }

  lemma FinishesLoading(c: Config, s: State, start: int, t: nat)
    requires Inv(c, s, start) && s.At(t).Loading?
    ensures var s' := UpToTake(c, s, t);
            s'.At(t).Taking? && s'.At(t).key == s.At(t).key && Next(c, s', Take(t)).At(t).Idle?
  {
    var key := s.At(t).key;
    if key in s.store {
      assert Next(c, s, Load(t)).At(t) == Touching(key, s.store[key]);
    } else {
      assert Next(c, s, Load(t)).At(t) == Building(key);
    }
  }

  lemma FinishesBuilding(c: Config, s: State, start: int, t: nat)
    requires Inv(c, s, start) && s.At(t).Building?
    ensures var s' := UpToTake(c, s, t);
            s'.At(t).Taking? && s'.At(t).key == s.At(t).key && Next(c, s', Take(t)).At(t).Idle?
  {
    assert Next(c, Next(c, s, Load(t)), Build(t)).At(t) == Storing(s.At(t).key, |s.heap|);
  }

  // ---- The sweeper: what it deletes ----

  /** From m on the sweeper has been about to delete what it is about to delete at n, and the map has held it. */
  ghost predicate HeldSince(c: Config, start: int, run: seq<Label>, w: Sweeper, m: nat, n: nat)
    requires n <= |run| && w.Deleting?
  {
    && (forall p :: m < p <= n ==> After(c, start, run, p).sweeper == w)
    && (forall p :: m <= p <= n ==> InMap(After(c, start, run, p), w.key, w.id))
  }

  predicate InMap(s: State, key: string, id: nat) {
    key in s.store && s.store[key] == id
  }

  /** Before every Delete there is a Check that found the very entry the Delete removes stale, and the
      map holds that entry all the way in between. */
  ghost predicate CheckedAt(c: Config, start: int, run: seq<Label>, n: nat, m: nat)
    requires n < |run| && After(c, start, run, n).sweeper.Deleting?
  {
    var w := After(c, start, run, n).sweeper;
    && m < n && run[m] == Check
    && After(c, start, run, m).sweeper == Checking(w.cutoff, w.visited, w.key, w.id)
    && Holds(After(c, start, run, m), w.key, w.id)
    && After(c, start, run, m).heap[w.id].lastSeen < w.cutoff
    && HeldSince(c, start, run, w, m, n)
  }

  /** A sweeper about to delete was so already, or has just found the entry stale. */
  lemma DeletingSince(c: Config, s: State, l: Label)
    requires Next(c, s, l).sweeper.Deleting?
    ensures var w := Next(c, s, l).sweeper;
            s.sweeper == w || (l == Check && s.sweeper == Checking(w.cutoff, w.visited, w.key, w.id)
                               && w.id < |s.heap| && s.heap[w.id].lastSeen < w.cutoff)
  {
  }

  lemma HeldByMap(c: Config, start: int, run: seq<Label>, n: nat)
    requires n <= |run|
    requires After(c, start, run, n).sweeper.Checking? || After(c, start, run, n).sweeper.Deleting?
    ensures var s := After(c, start, run, n);
            InMap(s, s.sweeper.key, s.sweeper.id) && Holds(s, s.sweeper.key, s.sweeper.id)
            && s.sweeper.cutoff <= s.clock
  {
    Invariant(c, start, run, n);
  }

  lemma HeldOn(c: Config, start: int, run: seq<Label>, w: Sweeper, m: nat, n: nat)
    requires 0 < n <= |run| && w.Deleting? && HeldSince(c, start, run, w, m, n - 1)
    requires After(c, start, run, n).sweeper == w && InMap(After(c, start, run, n), w.key, w.id)
    ensures HeldSince(c, start, run, w, m, n)
  {
  }

  lemma CheckedLater(c: Config, start: int, run: seq<Label>, n: nat, m: nat)
    requires 0 < n < |run| && After(c, start, run, n - 1).sweeper.Deleting?
    requires After(c, start, run, n).sweeper == After(c, start, run, n - 1).sweeper
    requires CheckedAt(c, start, run, n - 1, m)
    ensures CheckedAt(c, start, run, n, m)
  {
    HeldByMap(c, start, run, n);
    HeldOn(c, start, run, After(c, start, run, n).sweeper, m, n);
  }

  lemma {:induction false} DeletesWhatWasChecked(c: Config, start: int, run: seq<Label>, n: nat) returns (m: nat)
    requires n < |run| && After(c, start, run, n).sweeper.Deleting?
    ensures CheckedAt(c, start, run, n, m)
  {
    DeletingSince(c, After(c, start, run, n - 1), run[n - 1]);
    if After(c, start, run, n - 1).sweeper.Deleting? {
      m := DeletesWhatWasChecked(c, start, run, n - 1);
      CheckedLater(c, start, run, n, m);
    } else {
      m := n - 1;
      HeldByMap(c, start, run, n);
      HeldByMap(c, start, run, m);
    }
  }

  /** The sweep that is on at n began at b. */
  ghost predicate BeganAt(c: Config, start: int, run: seq<Label>, n: nat, b: nat)
    requires n <= |run| && !After(c, start, run, n).sweeper.Waiting?
  {
    && b < n && run[b] == SweepBegin && After(c, start, run, b).sweeper.Waiting?
    && After(c, start, run, n).sweeper.cutoff == After(c, start, run, b).clock - c.ttl
    && (forall i :: b < i <= n ==> !After(c, start, run, i).sweeper.Waiting?)
  }

  /** A sweep keeps its cutoff till it ends. */
  lemma CutoffStays(c: Config, s: State, l: Label)
    requires !Next(c, s, l).sweeper.Waiting?
    ensures if s.sweeper.Waiting? then l == SweepBegin && Next(c, s, l).sweeper.cutoff == s.clock - c.ttl
            else Next(c, s, l).sweeper.cutoff == s.sweeper.cutoff
  {
  }

  lemma {:induction false} SweepBegan(c: Config, start: int, run: seq<Label>, n: nat) returns (b: nat)
    requires n <= |run| && !After(c, start, run, n).sweeper.Waiting?
    ensures BeganAt(c, start, run, n, b)
  {
    CutoffStays(c, After(c, start, run, n - 1), run[n - 1]);
    if After(c, start, run, n - 1).sweeper.Waiting? {
      b := n - 1;
    } else {
      b := SweepBegan(c, start, run, n - 1);
    }
  }

  /** The step has a sweep look at the entry that the map has for the key. */
  predicate ObservesIn(s: State, l: Label, key: string) {
    l == Observe(key) && s.sweeper.Ranging? && key in s.store && key !in s.sweeper.visited
  }

  /** It then remembers that very entry, and its own cutoff. */
  lemma ObservesEntry(c: Config, s: State, l: Label, key: string)
    requires ObservesIn(s, l, key)
    ensures var w := Next(c, s, l).sweeper;
            && w.Checking? && w.key == key && w.id == s.store[key] && w.cutoff == s.sweeper.cutoff
            && key in w.visited
  {
  }

  lemma VisitedStays(c: Config, s: State, l: Label, key: string)
    requires !s.sweeper.Waiting? && key in s.sweeper.visited && !Next(c, s, l).sweeper.Waiting?
    ensures key in Next(c, s, l).sweeper.visited
  {
  }

  lemma {:induction false} VisitedSince(c: Config, start: int, run: seq<Label>, key: string, i: nat, n: nat)
    requires i < n <= |run| && ObservesIn(After(c, start, run, i), run[i], key)
    requires forall j :: i < j <= n ==> !After(c, start, run, j).sweeper.Waiting?
    ensures key in After(c, start, run, n).sweeper.visited
  {
    if n == i + 1 {
      ObservesEntry(c, After(c, start, run, i), run[i], key);
    } else {
      VisitedSince(c, start, run, key, i, n - 1);
      assert !After(c, start, run, n).sweeper.Waiting?;
      VisitedStays(c, After(c, start, run, n - 1), run[n - 1], key);
    }
  }

  /** One sweep looks at a key at most once: before it is looked at again, the sweep has ended. */
  lemma ObservedOnce(c: Config, start: int, run: seq<Label>, key: string, i: nat, n: nat)
    requires i < n < |run|
    requires ObservesIn(After(c, start, run, i), run[i], key)
    requires run[n] == Observe(key) && After(c, start, run, n + 1).sweeper != After(c, start, run, n).sweeper
    ensures exists j :: i < j <= n && After(c, start, run, j).sweeper.Waiting?
  {
    if forall j :: i < j <= n ==> !After(c, start, run, j).sweeper.Waiting? {
      VisitedSince(c, start, run, key, i, n);
      NotAgain(c, After(c, start, run, n), key);
      assert false;
    }
  }

  lemma NotAgain(c: Config, s: State, key: string)
    requires !s.sweeper.Waiting? && key in s.sweeper.visited
    ensures Next(c, s, Observe(key)) == s
  {
  }

  predicate TouchesIn(s: State, l: Label, id: nat) {
    l.Touch? && s.At(l.caller).Touching? && s.At(l.caller).id == id
  }

  predicate Touches(c: Config, start: int, run: seq<Label>, id: nat, p: nat)
    requires p < |run|
  {
    TouchesIn(After(c, start, run, p), run[p], id)
  }

  /** Only a touch changes when an entry was last seen, and it sets the present time. */
  lemma StepSeen(c: Config, s: State, l: Label, id: nat)
    requires id < |s.heap|
    ensures var s' := Next(c, s, l);
            && id < |s'.heap| && s'.heap[id].key == s.heap[id].key
            && s'.heap[id].lastSeen == if TouchesIn(s, l, id) then s.clock else s.heap[id].lastSeen
  {
  }

  lemma {:induction false} Remains(c: Config, start: int, run: seq<Label>, id: nat, m: nat, p: nat)
    requires m <= p <= |run| && id < |After(c, start, run, m).heap|
    ensures id < |After(c, start, run, p).heap| && After(c, start, run, m).clock <= After(c, start, run, p).clock
  {
    if p > m {
      Remains(c, start, run, id, m, p - 1);
      StepSeen(c, After(c, start, run, p - 1), run[p - 1], id);
    }
  }

  ghost predicate Untouched(c: Config, start: int, run: seq<Label>, id: nat, m: nat, p: nat)
    requires p <= |run|
  {
    forall q :: m <= q < p ==> !Touches(c, start, run, id, q)
  }

  /** A step leaves a stale entry stale exactly when it does not touch it. */
  lemma StaleStep(c: Config, s: State, l: Label, id: nat, cutoff: int)
    requires id < |s.heap| && cutoff <= s.clock
    ensures id < |Next(c, s, l).heap|
    ensures Next(c, s, l).heap[id].lastSeen < cutoff <==> s.heap[id].lastSeen < cutoff && !TouchesIn(s, l, id)
  {
    StepSeen(c, s, l, id);
  }

  /** At p the entry is stale exactly when it was at m and has not been touched in between. */
  ghost predicate StaleIff(c: Config, start: int, run: seq<Label>, id: nat, cutoff: int, m: nat, p: nat)
    requires m <= |run| && p <= |run|
  {
    var s, s' := After(c, start, run, m), After(c, start, run, p);
    && id < |s.heap| && id < |s'.heap|
    && (s'.heap[id].lastSeen < cutoff <==> s.heap[id].lastSeen < cutoff && Untouched(c, start, run, id, m, p))
  }

  lemma {:induction false} StaleUntilTouched(c: Config, start: int, run: seq<Label>, id: nat, cutoff: int,
                                              m: nat, p: nat)
    requires m <= p <= |run|
    requires id < |After(c, start, run, m).heap| && cutoff <= After(c, start, run, m).clock
    ensures StaleIff(c, start, run, id, cutoff, m, p)
  {
    if p > m {
      StaleUntilTouched(c, start, run, id, cutoff, m, p - 1);
      StaleOnceMore(c, start, run, id, cutoff, m, p - 1);
    }
  }

  lemma StaleOnceMore(c: Config, start: int, run: seq<Label>, id: nat, cutoff: int, m: nat, p: nat)
    requires m <= p < |run| && StaleIff(c, start, run, id, cutoff, m, p) && cutoff <= After(c, start, run, m).clock
    ensures StaleIff(c, start, run, id, cutoff, m, p + 1)
  {
    Remains(c, start, run, id, m, p);
    StaleStep(c, After(c, start, run, p), run[p], id, cutoff);
    UntouchedStep(c, start, run, id, m, p + 1);
  }

  lemma UntouchedStep(c: Config, start: int, run: seq<Label>, id: nat, m: nat, p: nat)
    requires m < p <= |run|
    ensures Untouched(c, start, run, id, m, p) <==>
              Untouched(c, start, run, id, m, p - 1) && !TouchesIn(After(c, start, run, p - 1), run[p - 1], id)
  {
    assert Touches(c, start, run, id, p - 1) == TouchesIn(After(c, start, run, p - 1), run[p - 1], id);
  }

  /** What a Delete removes was last seen more than the ttl before the sweep began exactly when nobody
      touched it since the Check: an entry touched in that gap is deleted all the same. */
  lemma DeletedStillStaleIff(c: Config, start: int, run: seq<Label>, n: nat, m: nat, b: nat)
    requires n < |run| && run[n] == Delete && After(c, start, run, n).sweeper.Deleting?
    requires CheckedAt(c, start, run, n, m) && BeganAt(c, start, run, n, b)
    ensures var s, s' := After(c, start, run, n), After(c, start, run, n + 1);
            var w := s.sweeper;
            && w.key !in s'.store && w.id in s'.removed
            && Holds(s, w.key, w.id)
            && (s.heap[w.id].lastSeen + c.ttl < After(c, start, run, b).clock <==>
                  Untouched(c, start, run, w.id, m + 1, n))
  {
    var w := After(c, start, run, n).sweeper;
    HeldByMap(c, start, run, m);
    HeldByMap(c, start, run, n);
    DeleteRemoves(c, After(c, start, run, n));
    StaleUntilTouched(c, start, run, w.id, w.cutoff, m + 1, n);
    StaleStep(c, After(c, start, run, m), Check, w.id, w.cutoff);
    Remains(c, start, run, w.id, m, m + 1);
  }

  lemma DeleteRemoves(c: Config, s: State)
    requires s.sweeper.Deleting? && InMap(s, s.sweeper.key, s.sweeper.id)
    ensures s.sweeper.key !in Next(c, s, Delete).store && s.sweeper.id in Next(c, s, Delete).removed
  {
  }

  /** How a run goes on does not change how it began. */
  lemma {:induction false} AfterPrefix(c: Config, start: int, run: seq<Label>, run': seq<Label>, n: nat)
    requires run <= run' && n <= |run|
    ensures After(c, start, run', n) == After(c, start, run, n)
  {
    if n > 0 { AfterPrefix(c, start, run, run', n - 1); }
  }

  /** One step more at the end of a run. */
  lemma Step(c: Config, start: int, run: seq<Label>, s: State, l: Label) returns (run': seq<Label>, s': State)
    requires s == After(c, start, run, |run|)
    ensures run' == run + [l] && s' == Next(c, s, l) && s' == After(c, start, run', |run'|)
  {
    run', s' := run + [l], Next(c, s, l);
    AfterPrefix(c, start, run, run', |run|);
  }

  lemma Enters(c: Config, start: int, run: seq<Label>, s: State, t: nat, key: string)
    returns (run': seq<Label>, s': State)
    requires s == After(c, start, run, |run|) && s.At(t).Idle?
    ensures run <= run' && |run'| == |run| + 4
    ensures s' == After(c, start, run', |run'|) && s' == Entered(c, s, t, key)
  {
    run', s' := Step(c, start, run, s, Begin(t, key));
    run', s' := Step(c, start, run', s', Load(t));
    run', s' := Step(c, start, run', s', Build(t));
    run', s' := Step(c, start, run', s', LoadOrStore(t));
    GetOrCreateAlone(c, s, t, key);
  }

  lemma TouchesAndTakes(c: Config, start: int, run: seq<Label>, s: State, t: nat, key: string, id: nat)
    returns (run': seq<Label>, s': State)
    requires s == After(c, start, run, |run|) && s.At(t) == Touching(key, id) && id < |s.heap|
    ensures s' == After(c, start, run', |run'|)
    ensures |s'.heap| == |s.heap| && s'.heap[id].lastSeen == s.clock
    ensures s' == s.(heap := s'.heap, callers := s.callers[t := Idle])
  {
    run', s' := Step(c, start, run, s, Touch(t));
    var s1 := s';
    assert s1 == s.(heap := s.heap[id := s.heap[id].(lastSeen := s.clock)]).Goes(t, Taking(key, id));
    run', s' := Step(c, start, run', s', Take(t));
    assert s' == s1.(heap := s'.heap).Goes(t, Idle);
    assert s1.callers[t := Idle] == s.callers[t := Idle];
  }

  /** The sweeper has observed a key that a caller is then about to touch. */
  lemma ObservedAndFound(c: Config, start: int, run: seq<Label>, s: State, t: nat, key: string)
    returns (run': seq<Label>, s': State)
    requires s == After(c, start, run, |run|) && s.sweeper.Waiting? && key in s.store && s.At(t).Idle?
    ensures s' == After(c, start, run', |run'|)
    ensures s' == s.(sweeper := Checking(s.clock - c.ttl, {key}, key, s.store[key]),
                     callers := s.callers[t := Touching(key, s.store[key])])
  {
    run', s' := Step(c, start, run, s, SweepBegin);
    run', s' := Step(c, start, run', s', Observe(key));
    assert {} + {key} == {key};
    var s1 := s';
    assert s1 == s.(sweeper := Checking(s.clock - c.ttl, {key}, key, s.store[key]));
    run', s' := Step(c, start, run', s', Begin(t, key));
    assert s' == s1.Goes(t, Loading(key));
    run', s' := Step(c, start, run', s', Load(t));
    assert s'.callers == s.callers[t := Touching(key, s.store[key])];
  }

  /** Whatever the configuration, a schedule leads into the gap: the sweeper observes the stale entry, a
      second caller finds it, and the check passes before the caller touches. */
  lemma IntoTheGap(c: Config, start: int) returns (run: seq<Label>, s: State)
    ensures s == After(c, start, run, |run|)
    ensures s.sweeper.Deleting? && s.sweeper.key == "k" && s.store == map["k" := 0] && |s.heap| == 1
    ensures s.At(2) == Touching("k", 0) && s.At(3) == Idle
  {
    run, s := Enters(c, start, [], Init(start), 1, "k");
    run, s := TouchesAndTakes(c, start, run, s, 1, "k", 0);
    run, s := Step(c, start, run, s, Tick(c.ttl + 1));
    run, s := ObservedAndFound(c, start, run, s, 2, "k");
    run, s := Step(c, start, run, s, Check);
  }

  /** The touch comes before the Delete all the same: the entry that the Delete removes was seen at that very
      moment. */
  lemma FreshEntryDeleted(c: Config, start: int) returns (run: seq<Label>)
    ensures |run| > 0
    ensures var s, s' := After(c, start, run, |run| - 1), After(c, start, run, |run|);
            && run[|run| - 1] == Delete && s.sweeper.Deleting? && s.sweeper.key == "k"
            && "k" in s.store && s.store["k"] < |s.heap| && s.heap[s.store["k"]].lastSeen == s.clock
            && s'.store == map[] && s'.At(2) == Taking("k", s.store["k"])
  {
    var s;
    run, s := IntoTheGap(c, start);
    run, s := Step(c, start, run, s, Touch(2));
    AfterPrefix(c, start, run, run + [Delete], |run|);
    run, s := Step(c, start, run, s, Delete);
  }

  /** The step is a use of the key: a touch of an entry got for it. */
  predicate UsesIn(s: State, l: Label, key: string) {
    l.Touch? && s.At(l.caller).Touching? && s.At(l.caller).key == key
  }

  predicate Uses(c: Config, start: int, run: seq<Label>, key: string, n: nat)
    requires n < |run|
  {
    UsesIn(After(c, start, run, n), run[n], key)
  }

  /** The state that a run was in before it went on with a step. */
  lemma WentOn(c: Config, start: int, run: seq<Label>, s: State, l: Label, run': seq<Label>)
    requires s == After(c, start, run, |run|) && run + [l] <= run'
    ensures |run| < |run'| && run'[|run|] == l && After(c, start, run', |run|) == s
  {
    AfterPrefix(c, start, run, run', |run|);
    assert run'[|run|] == (run + [l])[|run|];
  }

  lemma UsedThen(c: Config, start: int, run: seq<Label>, s: State, l: Label, run': seq<Label>, key: string)
    requires s == After(c, start, run, |run|) && run + [l] <= run' && UsesIn(s, l, key)
    ensures |run| < |run'| && Uses(c, start, run', key, |run|) && After(c, start, run', |run|) == s
  {
    WentOn(c, start, run, s, l, run');
  }

  lemma DeletedThen(c: Config, start: int, run: seq<Label>, s: State, l: Label, run': seq<Label>, key: string)
    requires s == After(c, start, run, |run|) && run + [l] <= run' && DeletesIn(s, l, key)
    ensures |run| < |run'| && Deletes(c, start, run', key, |run|)
  {
    WentOn(c, start, run, s, l, run');
  }

  /** A second caller touches the entry, the sweeper deletes it, and a third caller makes a new one. */
  lemma ThroughTheGap(c: Config, start: int, run: seq<Label>, s: State) returns (run': seq<Label>, s1: State, s': State)
    requires s == After(c, start, run, |run|)
    requires s.sweeper.Deleting? && s.sweeper.key == "k" && s.store == map["k" := 0] && |s.heap| == 1
    requires s.At(2) == Touching("k", 0) && s.At(3) == Idle
    ensures (run + [Touch(2)]) + [Delete] <= run' && |run'| == |run| + 6
    ensures s1 == After(c, start, run + [Touch(2)], |run| + 1) && DeletesIn(s1, Delete, "k")
    ensures s' == After(c, start, run', |run'|) && s'.At(3) == Touching("k", 1) && s'.clock == s.clock
  {
    var run1, run2, s2;
    run1, s1 := Step(c, start, run, s, Touch(2));
    run2, s2 := Step(c, start, run1, s1, Delete);
    assert s2.store == map[] && |s2.heap| == 1;
    run', s' := Enters(c, start, run2, s2, 3, "k");
  }

  /** So evictions need not take time, as they do when operations are atomic: whatever the configuration, a key
      can be used, deleted and used again without the clock moving. */
  lemma EvictedInNoTime(c: Config, start: int) returns (run: seq<Label>, n: nat)
    ensures n + 6 < |run|
    ensures Uses(c, start, run, "k", n) && Deletes(c, start, run, "k", n + 1) && Uses(c, start, run, "k", n + 6)
    ensures After(c, start, run, n + 6).clock == After(c, start, run, n).clock
  {
    var run0, s0 := IntoTheGap(c, start);
    var run3, s1, s3 := ThroughTheGap(c, start, run0, s0);
    n, run := |run0|, run3 + [Touch(3)];
    var run1 := run0 + [Touch(2)];
    assert run1 <= run && run1 + [Delete] <= run;
    UsedThen(c, start, run0, s0, Touch(2), run, "k");
    DeletedThen(c, start, run1, s1, Delete, run, "k");
    UsedThen(c, start, run3, s3, Touch(3), run, "k");
  }
}
