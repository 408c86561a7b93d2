/** A second bound on what a key can be granted between two moments of an interleaving. The time that passes
    is charged once, to the bucket in the map; an entry that leaves the map is charged one token for each
    caller that still holds it. */
module InterleavingBudget {
  import opened Orders
  import opened TokenBuckets
  import opened Interleaving
  import opened InterleavingSafety
  import opened InterleavingGrants

  /** The caller has come past getOrCreate for the key, to the entry that the map has for it. */
  predicate Current(s: State, key: string, t: nat) {
    t in InFlight(s, key) && key in s.store && s.store[key] == s.callers[t].id
  }

  /** The callers in flight for the key that hold the map's entry. */
  function Holders(s: State, key: string): set<nat> {
    set t | t in InFlight(s, key) && Current(s, key, t)
  }

  /** Those that hold an entry no longer in the map. */
  function Strays(s: State, key: string): set<nat> {
    set t | t in InFlight(s, key) && !Current(s, key, t)
  }

  /** What the bucket in the map can give out at once, or the new one that would be put in its place. */
  function Supply(c: Config, s: State, key: string): int {
    if key in s.store && s.store[key] < |s.heap| then Level(c, s.heap[s.store[key]].bucket, s.clock) else Capacity(c)
  }

  /** What the key could be granted without time passing and without a Delete. */
  function Budget(c: Config, s: State, key: string): int {
    Supply(c, s, key) + Scaled(c, |Strays(s, key)|)
  }

  /** What a Delete of the key adds to the budget. */
  function Released(c: Config, s: State, l: Label, key: string): int {
    if DeletesIn(s, l, key) then Capacity(c) + Scaled(c, |Holders(s, key)|) else 0
  }

  // ---- One step ----

  /** A grant is paid from the budget, which grows with the inflow and with Deletes only. */
  ghost predicate Paid(c: Config, s: State, l: Label, key: string) {
    var s' := Next(c, s, l);
    (if GrantsIn(c, s, l, key) then c.unit else 0) + Budget(c, s', key)
      <= Budget(c, s, key) + Released(c, s, l, key) + Inflow(c, s'.clock - s.clock)
  }

  lemma SupplyBounds(c: Config, s: State, start: int, key: string)
    requires Inv(c, s, start)
    ensures 0 <= Supply(c, s, key) <= Capacity(c)
  {
    if key in s.store {
      assert RecOk(c, s.heap[s.store[key]], start, s.clock);
      LevelBounds(c, s.heap[s.store[key]].bucket, s.clock);
    }
  }

  lemma PaidTick(c: Config, s: State, l: Label, start: int, key: string)
    requires Inv(c, s, start) && l.Tick?
    ensures Paid(c, s, l, key)
  {
    assert Strays(Next(c, s, l), key) == Strays(s, key);
    InflowGrows(c, 0, l.d);
    if key in s.store {
      assert RecOk(c, s.heap[s.store[key]], start, s.clock);
      LevelLater(c, s.heap[s.store[key]].bucket, s.clock, s.clock + l.d);
    }
  }

  /** Two states in which the same callers hold the same entries for a key. */
  ghost predicate SameStrays(s: State, s': State, key: string) {
    Strays(s', key) == Strays(s, key)
  }

  lemma StraysStay(c: Config, s: State, l: Label, start: int, key: string)
    requires Inv(c, s, start)
    requires l.Begin? || l.Load? || l.Build? || l.Touch?
    ensures SameStrays(s, Next(c, s, l), key)
  {
    var s' := Next(c, s, l);
    forall t ensures t in Strays(s', key) <==> t in Strays(s, key) {
      if !Moves(l, t) { OthersStand(c, s, l, t); }
    }
  }

  lemma SupplyStays(c: Config, s: State, l: Label, start: int, key: string)
    requires Inv(c, s, start)
    requires l.Begin? || l.Load? || l.Build? || l.Touch?
    ensures Supply(c, Next(c, s, l), key) == Supply(c, s, key)
  {
  }

  /** An entry put into the map has a full bucket, and only its caller holds it. */
  lemma StraysStore(c: Config, s: State, l: Label, start: int, key: string)
    requires Inv(c, s, start) && l.LoadOrStore?
    ensures SameStrays(s, Next(c, s, l), key)
  {
    var s' := Next(c, s, l);
    forall t ensures t in Strays(s', key) <==> t in Strays(s, key) {
      if !Moves(l, t) {
        OthersStand(c, s, l, t);
        assert t in s.callers ==> CallerOk(s, s.callers[t]);
      }
    }
  }

  lemma SupplyStore(c: Config, s: State, l: Label, start: int, key: string)
    requires Inv(c, s, start) && l.LoadOrStore?
    ensures Supply(c, Next(c, s, l), key) == Supply(c, s, key)
  {
    var pc := s.At(l.caller);
    if pc.Storing? && pc.key == key && key !in s.store {
      var r := s.heap[pc.id];
      assert CallerOk(s, s.callers[l.caller]) && RecOk(c, r, start, s.clock);
      InflowGrows(c, 0, s.clock - r.born);
    }
  }

  /** A caller that takes from the map's entry lowers its level; one that takes from another entry is a stray
      no more. */
  lemma StraysTake(c: Config, s: State, l: Label, start: int, key: string)
    requires Inv(c, s, start) && l.Take?
    ensures Strays(Next(c, s, l), key) == if s.At(l.caller).Taking? then Strays(s, key) - {l.caller} else Strays(s, key)
  {
    var s' := Next(c, s, l);
    if s.At(l.caller).Taking? {
      assert CallerOk(s, s.callers[l.caller]);
      forall t ensures t in Strays(s', key) <==> t in Strays(s, key) && t != l.caller {
        if !Moves(l, t) { OthersStand(c, s, l, t); }
      }
    }
  }

  lemma SupplyTake(c: Config, s: State, l: Label, start: int, key: string)
    requires Inv(c, s, start) && l.Take?
    ensures var grant := if GrantsIn(c, s, l, key) && Current(s, key, l.caller) then c.unit else 0;
            Supply(c, Next(c, s, l), key) == Supply(c, s, key) - grant
  {
    var pc := s.At(l.caller);
    if pc.Taking? {
      assert CallerOk(s, s.callers[l.caller]);
      assert RecOk(c, s.heap[pc.id], start, s.clock);
      TakeLevel(c, s.heap[pc.id].bucket, s.clock);
    }
  }

  /** A grant comes from the map's entry or goes to a stray. */
  lemma GrantedTo(c: Config, s: State, l: Label, key: string)
    requires GrantsIn(c, s, l, key)
    ensures l.caller in Strays(s, key) <==> !Current(s, key, l.caller)
    ensures s.At(l.caller).Taking?
  {
    assert l.caller in InFlight(s, key);
  }

  lemma PaidTake(c: Config, s: State, l: Label, start: int, key: string)
    requires Inv(c, s, start) && l.Take?
    ensures Paid(c, s, l, key)
  {
    SupplyTake(c, s, l, start, key);
    StraysLeave(c, s, l, start, key);
    if GrantsIn(c, s, l, key) { GrantedTo(c, s, l, key); }
    assert Next(c, s, l).clock - s.clock == 0 && Inflow(c, 0) == 0;
  }

  /** A stray that takes leaves the budget a token less, whether it was granted or not. */
  lemma StraysLeave(c: Config, s: State, l: Label, start: int, key: string)
    requires Inv(c, s, start) && l.Take?
    ensures var left := if s.At(l.caller).Taking? && l.caller in Strays(s, key) then c.unit else 0;
            Scaled(c, |Strays(Next(c, s, l), key)|) == Scaled(c, |Strays(s, key)|) - left
  {
    StraysTake(c, s, l, start, key);
    var strays := Strays(s, key);
    if s.At(l.caller).Taking? {
      if l.caller in strays { ScaledAdds(c, |strays| - 1, 1); } else { assert strays - {l.caller} == strays; }
    }
  }

  /** The sweeper leaves the callers and the entries alone. */
  lemma SweeperMoves(c: Config, s: State, l: Label, key: string)
    requires l.SweepBegin? || l.Observe? || l.Check? || l.Delete? || l.SweepEnd?
    ensures var s' := Next(c, s, l);
            && s'.callers == s.callers && s'.heap == s.heap && s'.clock == s.clock
            && (DeletesIn(s, l, key) ==> key !in s'.store)
            && (!DeletesIn(s, l, key) ==> (key in s'.store <==> key in s.store)
                                          && (key in s.store ==> s'.store[key] == s.store[key]))
  {
  }

  lemma PaidDelete(c: Config, s: State, s': State, start: int, key: string)
    requires Inv(c, s, start) && s'.callers == s.callers && key !in s'.store
    ensures Budget(c, s', key) <= Budget(c, s, key) + Capacity(c) + Scaled(c, |Holders(s, key)|)
  {
    HoldersStray(s, s', key);
    ScaledAdds(c, |Strays(s, key)|, |Holders(s, key)|);
    SupplyBounds(c, s, start, key);
  }

  lemma HoldersStray(s: State, s': State, key: string)
    requires s'.callers == s.callers && key !in s'.store
    ensures |Strays(s', key)| == |Strays(s, key)| + |Holders(s, key)|
  {
    assert InFlight(s', key) == InFlight(s, key);
    assert Strays(s', key) == Strays(s, key) + Holders(s, key);
  }

  lemma BudgetSame(c: Config, s: State, s': State, key: string)
    requires s'.callers == s.callers && s'.heap == s.heap && s'.clock == s.clock
    requires (key in s'.store <==> key in s.store) && (key in s.store ==> s'.store[key] == s.store[key])
    ensures Budget(c, s', key) == Budget(c, s, key)
  {
    assert InFlight(s', key) == InFlight(s, key);
    assert Strays(s', key) == Strays(s, key);
  }

  lemma PaidSweeper(c: Config, s: State, l: Label, start: int, key: string)
    requires Inv(c, s, start)
    requires l.SweepBegin? || l.Observe? || l.Check? || l.Delete? || l.SweepEnd?
    ensures Paid(c, s, l, key)
  {
    SweeperMoves(c, s, l, key);
    assert Inflow(c, 0) == 0;
    if DeletesIn(s, l, key) {
      PaidDelete(c, s, Next(c, s, l), start, key);
    } else {
      BudgetSame(c, s, Next(c, s, l), key);
    }
  }

  lemma PaidSame(c: Config, s: State, l: Label, start: int, key: string)
    requires Inv(c, s, start)
    requires l.Begin? || l.Load? || l.Build? || l.LoadOrStore? || l.Touch?
    ensures Paid(c, s, l, key)
  {
    assert Inflow(c, 0) == 0 && Next(c, s, l).clock == s.clock;
    if l.LoadOrStore? {
      StraysStore(c, s, l, start, key);
      SupplyStore(c, s, l, start, key);
    } else {
      StraysStay(c, s, l, start, key);
      SupplyStays(c, s, l, start, key);
    }
  }

  lemma PaidStep(c: Config, s: State, l: Label, start: int, key: string)
    requires Inv(c, s, start)
    ensures Paid(c, s, l, key)
  {
    if l.Tick? {
      PaidTick(c, s, l, start, key);
    } else if l.Take? {
      PaidTake(c, s, l, start, key);
    } else if l.SweepBegin? || l.Observe? || l.Check? || l.Delete? || l.SweepEnd? {
      PaidSweeper(c, s, l, start, key);
    } else {
      PaidSame(c, s, l, start, key);
    }
  }

  // ---- A window ----

  /** How many callers held the entries that the Deletes of the key took out of the map, over the first n
      steps. */
  function LeftHolding(c: Config, start: int, run: seq<Label>, key: string, n: nat): nat
    requires n <= |run|
  {
    if n == 0 then 0
    else LeftHolding(c, start, run, key, n - 1)
         + (if Deletes(c, start, run, key, n - 1) then |Holders(After(c, start, run, n - 1), key)| else 0)
  }

  /** Deletes and callers left holding, between two moments. */
  function DeletesBetween(c: Config, start: int, run: seq<Label>, key: string, n: nat, m: nat): int
    requires n <= |run| && m <= |run|
  {
    DeleteCount(c, start, run, key, m) - DeleteCount(c, start, run, key, n)
  }

  function LeftBetween(c: Config, start: int, run: seq<Label>, key: string, n: nat, m: nat): int
    requires n <= |run| && m <= |run|
  {
    LeftHolding(c, start, run, key, m) - LeftHolding(c, start, run, key, n)
  }

  /** Given so many grants, Deletes and callers left holding: what was granted and what is left is within what
      there was, what flowed in and what the Deletes released. */
  predicate Balance(c: Config, before: int, now: int, elapsed: int, grants: int, deletes: int, left: int) {
    grants * c.unit + now <= before + deletes * Capacity(c) + left * c.unit + c.rate * elapsed
  }

  ghost predicate Balanced(c: Config, start: int, run: seq<Label>, key: string, n: nat, m: nat)
    requires n <= |run| && m <= |run|
  {
    var s, s' := After(c, start, run, n), After(c, start, run, m);
    Balance(c, Budget(c, s, key), Budget(c, s', key), s'.clock - s.clock, GrantsBetween(c, start, run, key, n, m),
            DeletesBetween(c, start, run, key, n, m), LeftBetween(c, start, run, key, n, m))
  }

  lemma BalancedWindow(c: Config, start: int, run: seq<Label>, key: string, n: nat, m: nat)
    requires n <= m <= |run|
    ensures Balanced(c, start, run, key, n, m)
  {
    BalancedNow(c, start, run, key, n);
    forall i | n <= i < m && Balanced(c, start, run, key, n, i) ensures Balanced(c, start, run, key, n, i + 1) {
      BalancedLater(c, start, run, key, n, i);
    }
    CountedUp((i: nat) => i <= |run| && Balanced(c, start, run, key, n, i), n, m);
  }

  lemma BalancedNow(c: Config, start: int, run: seq<Label>, key: string, n: nat)
    requires n <= |run|
    ensures Balanced(c, start, run, key, n, n)
  {
  }

  lemma PaidInRun(c: Config, start: int, run: seq<Label>, key: string, m: nat)
    requires m < |run|
    ensures Paid(c, After(c, start, run, m), run[m], key)
  {
    Invariant(c, start, run, m);
    PaidStep(c, After(c, start, run, m), run[m], start, key);
  }

  /** The counts after one step more. */
  lemma OneMore(c: Config, start: int, run: seq<Label>, key: string, n: nat, m: nat)
    requires n <= m < |run|
    ensures GrantsBetween(c, start, run, key, n, m + 1)
         == GrantsBetween(c, start, run, key, n, m) + (if Grants(c, start, run, key, m) then 1 else 0)
    ensures DeletesBetween(c, start, run, key, n, m + 1)
         == DeletesBetween(c, start, run, key, n, m) + (if Deletes(c, start, run, key, m) then 1 else 0)
    ensures LeftBetween(c, start, run, key, n, m + 1) == LeftBetween(c, start, run, key, n, m)
              + (if Deletes(c, start, run, key, m) then |Holders(After(c, start, run, m), key)| else 0)
  {
  }

  lemma AddsUp(c: Config, before: int, now: int, elapsed: int, grants: int, deletes: int, left: int,
               later: int, more: int, grant: bool, deletion: bool, held: nat)
    requires Balance(c, before, now, elapsed, grants, deletes, left)
    requires (if grant then c.unit else 0) + later
               <= now + (if deletion then Capacity(c) + Scaled(c, held) else 0) + Inflow(c, more)
    ensures Balance(c, before, later, elapsed + more, grants + (if grant then 1 else 0),
                    deletes + (if deletion then 1 else 0), left + (if deletion then held else 0))
  {
  }

  lemma BalanceStep(c: Config, s: State, s': State, l: Label, key: string, grants: int, deletes: int, left: int)
    requires Balance(c, Budget(c, s, key), Budget(c, s', key), s'.clock - s.clock, grants, deletes, left)
    requires Paid(c, s', l, key)
    ensures Balance(c, Budget(c, s, key), Budget(c, Next(c, s', l), key), Next(c, s', l).clock - s.clock,
                    grants + (if GrantsIn(c, s', l, key) then 1 else 0),
                    deletes + (if DeletesIn(s', l, key) then 1 else 0),
                    left + (if DeletesIn(s', l, key) then |Holders(s', key)| else 0))
  {
    var later := Next(c, s', l);
    AddsUp(c, Budget(c, s, key), Budget(c, s', key), s'.clock - s.clock, grants, deletes, left, Budget(c, later, key),
           later.clock - s'.clock, GrantsIn(c, s', l, key), DeletesIn(s', l, key), |Holders(s', key)|);
  }

  lemma BalancedLater(c: Config, start: int, run: seq<Label>, key: string, n: nat, m: nat)
    requires n <= m < |run| && Balanced(c, start, run, key, n, m)
    ensures Balanced(c, start, run, key, n, m + 1)
  {
    PaidInRun(c, start, run, key, m);
    OneMore(c, start, run, key, n, m);
    BalanceStep(c, After(c, start, run, n), After(c, start, run, m), run[m], key,
                GrantsBetween(c, start, run, key, n, m), DeletesBetween(c, start, run, key, n, m),
                LeftBetween(c, start, run, key, n, m));
  }

  /** At the end no budget need be left, and at the beginning the map's bucket was at most full. */
  lemma BalanceEnds(c: Config, start: int, run: seq<Label>, key: string, n: nat, m: nat)
    requires n <= m <= |run|
    ensures var s, s' := After(c, start, run, n), After(c, start, run, m);
            GrantsBetween(c, start, run, key, n, m) * c.unit
              <= Capacity(c) + Scaled(c, |Strays(s, key)|) + DeletesBetween(c, start, run, key, n, m) * Capacity(c)
                 + LeftBetween(c, start, run, key, n, m) * c.unit + c.rate * (s'.clock - s.clock)
  {
    BalancedWindow(c, start, run, key, n, m);
    SupplyInRun(c, start, run, key, n);
    SupplyInRun(c, start, run, key, m);
    ScaledGrows(c, 0, |Strays(After(c, start, run, m), key)|);
  }

  lemma SupplyInRun(c: Config, start: int, run: seq<Label>, key: string, n: nat)
    requires n <= |run|
    ensures 0 <= Supply(c, After(c, start, run, n), key) <= Capacity(c)
  {
    Invariant(c, start, run, n);
    SupplyBounds(c, After(c, start, run, n), start, key);
  }

  lemma Collected(c: Config, deletes: int, strays: nat, left: int)
    ensures Capacity(c) + Scaled(c, strays) + deletes * Capacity(c) + left * c.unit
         == (1 + deletes) * Capacity(c) + c.unit * (strays + left)
  {
  }

  /** Between any two moments of any interleaving, T apart: the takes granted for a key are within a burst for
      each Delete of the key and one more, the inflow of T once, and one token for each caller that held an
      entry no longer in the map at the first moment or held the one that a Delete took out of it since. */
  lemma GrantBoundByHolders(c: Config, start: int, run: seq<Label>, key: string, n: nat, m: nat)
    requires n <= m <= |run|
    ensures GrantsBetween(c, start, run, key, n, m) * c.unit
              <= (1 + DeletesBetween(c, start, run, key, n, m)) * Capacity(c)
                 + c.rate * (After(c, start, run, m).clock - After(c, start, run, n).clock)
                 + c.unit * (|Strays(After(c, start, run, n), key)| + LeftBetween(c, start, run, key, n, m))
  {
    BalanceEnds(c, start, run, key, n, m);
    Collected(c, DeletesBetween(c, start, run, key, n, m), |Strays(After(c, start, run, n), key)|,
              LeftBetween(c, start, run, key, n, m));
  }
}
