/** What a key can be granted between any two moments of an interleaving. */
module InterleavingGrants {
  import opened Orders
  import opened TokenBuckets
  import opened Interleaving
  import opened InterleavingSafety

  // ---- Counting grants and deletes ----

  predicate Grants(c: Config, start: int, run: seq<Label>, key: string, n: nat)
    requires n < |run|
  {
    GrantsIn(c, After(c, start, run, n), run[n], key)
  }

  /** Takes granted for `key` in the first n steps. */
  function GrantCount(c: Config, start: int, run: seq<Label>, key: string, n: nat): nat
    requires n <= |run|
  {
    if n == 0 then 0 else GrantCount(c, start, run, key, n - 1) + (if Grants(c, start, run, key, n - 1) then 1 else 0)
  }

  /** Deletes of `key` in the first n steps. */
  function DeleteCount(c: Config, start: int, run: seq<Label>, key: string, n: nat): nat
    requires n <= |run|
  {
    if n == 0 then 0 else DeleteCount(c, start, run, key, n - 1) + (if Deletes(c, start, run, key, n - 1) then 1 else 0)
  }

  function TakenFor(heap: seq<Rec>, key: string): nat {
    if heap == [] then 0
    else TakenFor(heap[..|heap| - 1], key) + (if heap[|heap| - 1].key == key then heap[|heap| - 1].taken else 0)
  }

  function StoredFor(heap: seq<Rec>, key: string): nat {
    if heap == [] then 0
    else StoredFor(heap[..|heap| - 1], key)
         + (if heap[|heap| - 1].key == key && heap[|heap| - 1].stored then 1 else 0)
  }

  lemma {:induction false} HeapUpdated(heap: seq<Rec>, id: nat, r: Rec, key: string)
    requires id < |heap| && r.key == heap[id].key
    ensures TakenFor(heap[id := r], key) - TakenFor(heap, key) == if r.key == key then r.taken - heap[id].taken else 0
    ensures StoredFor(heap[id := r], key) - StoredFor(heap, key) ==
              if r.key == key then (if r.stored then 1 else 0) - (if heap[id].stored then 1 else 0) else 0
  {
    var last := |heap| - 1;
    if id == last {
      assert heap[id := r][..last] == heap[..last];
    } else {
      HeapUpdated(heap[..last], id, r, key);
      assert heap[id := r][..last] == heap[..last][id := r];
    }
  }

  lemma {:induction false} Counts(c: Config, start: int, run: seq<Label>, key: string, n: nat)
    requires n <= |run|
    ensures var s := After(c, start, run, n);
            && TakenFor(s.heap, key) == GrantCount(c, start, run, key, n)
            && StoredFor(s.heap, key) == DeleteCount(c, start, run, key, n) + (if key in s.store then 1 else 0)
  {
    if n > 0 {
      Counts(c, start, run, key, n - 1);
      Invariant(c, start, run, n - 1);
      CountsStep(c, After(c, start, run, n - 1), run[n - 1], start, key);
    }
  }

  /** What a step adds to the two counts of a key. */
  ghost predicate CountsMove(c: Config, s: State, l: Label, key: string) {
    var s' := Next(c, s, l);
    && TakenFor(s'.heap, key) - TakenFor(s.heap, key) == (if GrantsIn(c, s, l, key) then 1 else 0)
    && StoredFor(s'.heap, key) - StoredFor(s.heap, key)
         == (if DeletesIn(s, l, key) then 1 else 0)
            + (if key in s'.store then 1 else 0) - (if key in s.store then 1 else 0)
  }

  lemma CountsBuild(c: Config, s: State, l: Label, key: string)
    requires l.Build?
    ensures CountsMove(c, s, l, key)
  {
  }

  lemma CountsStore(c: Config, s: State, l: Label, start: int, key: string)
    requires Inv(c, s, start) && l.LoadOrStore?
    ensures CountsMove(c, s, l, key)
  {
    var pc := s.At(l.caller);
    if pc.Storing? && pc.key !in s.store {
      assert CallerOk(s, s.callers[l.caller]);
      HeapUpdated(s.heap, pc.id, s.heap[pc.id].(stored := true), key);
    }
  }

  lemma CountsTouch(c: Config, s: State, l: Label, start: int, key: string)
    requires Inv(c, s, start) && l.Touch?
    ensures CountsMove(c, s, l, key)
  {
    var pc := s.At(l.caller);
    if pc.Touching? {
      assert CallerOk(s, s.callers[l.caller]);
      HeapUpdated(s.heap, pc.id, s.heap[pc.id].(lastSeen := s.clock), key);
    }
  }

  lemma CountsTake(c: Config, s: State, l: Label, start: int, key: string)
    requires Inv(c, s, start) && l.Take?
    ensures CountsMove(c, s, l, key)
  {
    var pc := s.At(l.caller);
    if pc.Taking? {
      assert CallerOk(s, s.callers[l.caller]);
      HeapUpdated(s.heap, pc.id, Next(c, s, l).heap[pc.id], key);
    }
  }

  lemma CountsStep(c: Config, s: State, l: Label, start: int, key: string)
    requires Inv(c, s, start)
    ensures CountsMove(c, s, l, key)
  {
    match l {
      case Build(_) => CountsBuild(c, s, l, key);
      case LoadOrStore(_) => CountsStore(c, s, l, start, key);
      case Touch(_) => CountsTouch(c, s, l, start, key);
      case Take(_) => CountsTake(c, s, l, start, key);
      case _ => assert Next(c, s, l).heap == s.heap;
    }
  }

  // ---- Entries that can be reached ----

  /** What one entry can give out in a time. */
  function Most(c: Config, elapsed: int): int {
    Capacity(c) + Inflow(c, elapsed)
  }

  lemma HeapInvAt(c: Config, start: int, run: seq<Label>, n: nat)
    requires n <= |run|
    ensures HeapInv(c, After(c, start, run, n), start)
  {
    Invariant(c, start, run, n);
  }

  /** Some caller past getOrCreate holds the entry. */
  ghost predicate Held(s: State, id: nat) {
    exists t :: t in s.callers && HoldsEntry(s.callers[t], id)
  }

  predicate HoldsEntry(pc: Caller, id: nat) {
    (pc.Touching? || pc.Taking?) && pc.id == id
  }

  /** The entries of a key that can still be taken from: the one in the map, and those removed from it
      that callers still hold. */
  ghost function Live(s: State, key: string): set<nat> {
    set id | 0 <= id < |s.heap| && s.heap[id].key == key && s.heap[id].stored && (id !in s.removed || Held(s, id))
  }

  // ---- Entries over a window ----

  /** How an entry that was there at `before` stands at a later moment. */
  predicate RecSince(c: Config, before: Rec, t: int, r: Rec, now: int) {
    && r.key == before.key && before.taken <= r.taken && (before.stored ==> r.stored)
    && Scaled(c, r.taken) + Level(c, r.bucket, now)
         <= Scaled(c, before.taken) + Level(c, before.bucket, t) + Inflow(c, now - t)
  }

  lemma RecSinceStep(c: Config, s: State, l: Label, start: int, id: nat, before: Rec, t: int)
    requires Inv(c, s, start) && id < |s.heap| && t <= s.clock && RecSince(c, before, t, s.heap[id], s.clock)
    ensures var s' := Next(c, s, l);
            t <= s'.clock && id < |s'.heap| && RecSince(c, before, t, s'.heap[id], s'.clock)
  {
    var r := s.heap[id];
    assert RecOk(c, r, start, s.clock);
    match l {
      case Tick(d) =>
        LevelLater(c, r.bucket, s.clock, s.clock + d);
        InflowAdds(c, s.clock - t, d);
      case Take(_) =>
        TakeLevel(c, r.bucket, s.clock);
        ScaledAdds(c, r.taken, 1);
      case _ =>
    }
  }

  /** The entry was there at n, and stands at m as the time in between allows. */
  ghost predicate RecBetween(c: Config, start: int, run: seq<Label>, id: nat, n: nat, m: nat)
    requires n <= |run| && m <= |run|
  {
    var s, s' := After(c, start, run, n), After(c, start, run, m);
    && id < |s.heap| && s.clock <= s'.clock && id < |s'.heap|
    && RecSince(c, s.heap[id], s.clock, s'.heap[id], s'.clock)
  }

  lemma RecNow(c: Config, start: int, run: seq<Label>, id: nat, n: nat)
    requires n <= |run| && id < |After(c, start, run, n).heap|
    ensures RecBetween(c, start, run, id, n, n)
  {
    assert Inflow(c, 0) == 0;
  }

  lemma RecOnceMore(c: Config, start: int, run: seq<Label>, id: nat, n: nat, m: nat)
    requires n <= m < |run| && RecBetween(c, start, run, id, n, m)
    ensures RecBetween(c, start, run, id, n, m + 1)
  {
    var s := After(c, start, run, n);
    Invariant(c, start, run, m);
    RecSinceStep(c, After(c, start, run, m), run[m], start, id, s.heap[id], s.clock);
  }

  lemma RecOverWindow(c: Config, start: int, run: seq<Label>, id: nat, n: nat, m: nat)
    requires n <= m <= |run| && id < |After(c, start, run, n).heap|
    ensures RecBetween(c, start, run, id, n, m)
  {
    RecNow(c, start, run, id, n);
    forall i | n <= i < m && RecBetween(c, start, run, id, n, i) ensures RecBetween(c, start, run, id, n, i + 1) {
      RecOnceMore(c, start, run, id, n, i);
    }
    CountedUp((i: nat) => i <= |run| && RecBetween(c, start, run, id, n, i), n, m);
  }

  /** Entries not there at a moment are built later. */
  lemma {:induction false} NewerBorn(c: Config, start: int, run: seq<Label>, n: nat, m: nat, id: nat)
    requires n <= m <= |run| && |After(c, start, run, n).heap| <= id < |After(c, start, run, m).heap|
    ensures After(c, start, run, m).heap[id].born >= After(c, start, run, n).clock
  {
    var s := After(c, start, run, m - 1);
    if id < |s.heap| {
      NewerBorn(c, start, run, n, m - 1, id);
      StepBorn(c, s, run[m - 1], id);
    } else {
      ClockGrows(c, start, run, n, m - 1);
      StepBorn(c, s, run[m - 1], id);
    }
  }

  lemma StepBorn(c: Config, s: State, l: Label, id: nat)
    requires id < |Next(c, s, l).heap|
    ensures Next(c, s, l).heap[id].born == if id < |s.heap| then s.heap[id].born else s.clock
  {
  }

  lemma {:induction false} ClockGrows(c: Config, start: int, run: seq<Label>, n: nat, m: nat)
    requires n <= m <= |run|
    ensures After(c, start, run, n).clock <= After(c, start, run, m).clock
  {
    if m > n {
      ClockGrows(c, start, run, n, m - 1);
      assert Next(c, After(c, start, run, m - 1), run[m - 1]).clock >= After(c, start, run, m - 1).clock;
    }
  }

  // ---- Entries nobody can reach ----

  ghost predicate Retired(s: State, id: nat) {
    id < |s.heap| && id in s.removed && !Held(s, id)
  }

  lemma RetiredStep(c: Config, s: State, l: Label, start: int, id: nat)
    requires Inv(c, s, start) && Retired(s, id)
    ensures Retired(Next(c, s, l), id) && Next(c, s, l).heap[id].taken == s.heap[id].taken
  {
    var s' := Next(c, s, l);
    forall t | t in s'.callers ensures !HoldsEntry(s'.callers[t], id) {
      if Moves(l, t) {
        RetiredNotEntered(c, s, l, start, id);
      } else {
        OthersStand(c, s, l, t);
      }
    }
    RetiredNotTaken(c, s, l, start, id);
  }

  lemma RetiredNotEntered(c: Config, s: State, l: Label, start: int, id: nat)
    requires Inv(c, s, start) && Retired(s, id)
    requires l.Begin? || l.Load? || l.Build? || l.LoadOrStore? || l.Touch? || l.Take?
    ensures !HoldsEntry(Next(c, s, l).At(l.caller), id)
  {
  }

  lemma RetiredNotTaken(c: Config, s: State, l: Label, start: int, id: nat)
    requires Inv(c, s, start) && Retired(s, id)
    ensures id < |Next(c, s, l).heap| && id in Next(c, s, l).removed
    ensures Next(c, s, l).heap[id].taken == s.heap[id].taken
  {
  }

  lemma {:induction false} RetiredForGood(c: Config, start: int, run: seq<Label>, n: nat, m: nat, id: nat)
    requires n <= m <= |run| && Retired(After(c, start, run, n), id)
    ensures Retired(After(c, start, run, m), id)
    ensures After(c, start, run, m).heap[id].taken == After(c, start, run, n).heap[id].taken
  {
    if m > n {
      RetiredForGood(c, start, run, n, m - 1, id);
      Invariant(c, start, run, m - 1);
      RetiredStep(c, After(c, start, run, m - 1), run[m - 1], start, id);
    }
  }

  // ---- Adding up ----

  /** What an entry has given out since `before`, where it was, if it was there. */
  function TakenSince(before: seq<Rec>, after: seq<Rec>, id: nat): int
    requires id < |after|
  {
    after[id].taken - (if id < |before| then before[id].taken else 0)
  }

  /** The entry can be charged with what it gave out in the window. */
  predicate Charged(before: seq<Rec>, after: seq<Rec>, live: set<nat>, id: nat)
    requires id < |after|
  {
    id in live || (after[id].stored && (id < |before| ==> !before[id].stored))
  }

  function CountBelow(ids: set<nat>, n: nat): nat {
    if n == 0 then 0 else CountBelow(ids, n - 1) + (if n - 1 in ids then 1 else 0)
  }

  lemma {:induction false} CountBelowIs(ids: set<nat>, n: nat)
    requires forall id :: id in ids ==> id < n
    ensures CountBelow(ids, n) == |ids|
  {
    if n > 0 {
      CountBelowIs(ids - {n - 1}, n - 1);
      SameBelow(ids, ids - {n - 1}, n - 1);
    } else {
      assert ids == {} by { assert forall id :: id in ids ==> id < 0; }
    }
  }

  lemma {:induction false} SameBelow(ids: set<nat>, ids': set<nat>, n: nat)
    requires forall id :: 0 <= id < n ==> (id in ids <==> id in ids')
    ensures CountBelow(ids, n) == CountBelow(ids', n)
  {
    if n > 0 { SameBelow(ids, ids', n - 1); }
  }

  ghost predicate WindowOk(c: Config, before: seq<Rec>, after: seq<Rec>, live: set<nat>, key: string, most: nat) {
    && |before| <= |after|
    && (forall id :: 0 <= id < |before| ==> after[id].key == before[id].key && (before[id].stored ==> after[id].stored))
    && (forall id :: id in live ==> id < |before| && before[id].stored && before[id].key == key)
    && (forall id :: 0 <= id < |after| && after[id].key == key ==>
          0 <= TakenSince(before, after, id)
          && Scaled(c, TakenSince(before, after, id)) <= if Charged(before, after, live, id) then most else 0)
  }

  function Prefix(heap: seq<Rec>, n: nat): seq<Rec> {
    if n <= |heap| then heap[..n] else heap
  }

  lemma TakenPrefix(heap: seq<Rec>, n: nat, key: string)
    ensures TakenFor(Prefix(heap, n + 1), key) == TakenFor(Prefix(heap, n), key)
              + (if n < |heap| && heap[n].key == key then heap[n].taken else 0)
    ensures StoredFor(Prefix(heap, n + 1), key) == StoredFor(Prefix(heap, n), key)
              + (if n < |heap| && heap[n].key == key && heap[n].stored then 1 else 0)
  {
    if n < |heap| {
      assert heap[..n + 1][..n] == heap[..n];
    } else {
      assert Prefix(heap, n) == heap == Prefix(heap, n + 1);
    }
  }

  /** What the first n entries have given out for the key in the window, and how many are charged. */
  function Given(before: seq<Rec>, after: seq<Rec>, key: string, n: nat): int {
    TakenFor(Prefix(after, n), key) - TakenFor(Prefix(before, n), key)
  }

  function Charges(before: seq<Rec>, after: seq<Rec>, live: set<nat>, key: string, n: nat): int {
    CountBelow(live, n) + StoredFor(Prefix(after, n), key) - StoredFor(Prefix(before, n), key)
  }

  lemma OneEntry(c: Config, before: seq<Rec>, after: seq<Rec>, live: set<nat>, key: string, most: nat, id: nat)
    requires WindowOk(c, before, after, live, key, most) && id < |after|
    ensures Given(before, after, key, id + 1) == Given(before, after, key, id)
              + (if after[id].key == key then TakenSince(before, after, id) else 0)
    ensures Charges(before, after, live, key, id + 1) == Charges(before, after, live, key, id)
              + (if after[id].key == key && Charged(before, after, live, id) then 1 else 0)
  {
    TakenPrefix(before, id, key);
    TakenPrefix(after, id, key);
  }

  lemma {:induction false} WindowSum(c: Config, before: seq<Rec>, after: seq<Rec>, live: set<nat>, key: string,
                                      most: nat, n: nat)
    requires WindowOk(c, before, after, live, key, most) && n <= |after|
    ensures 0 <= Given(before, after, key, n) && 0 <= Charges(before, after, live, key, n)
    ensures Scaled(c, Given(before, after, key, n)) <= Charges(before, after, live, key, n) * most
  {
    if n == 0 {
      assert Prefix(before, 0) == [] && Prefix(after, 0) == [];
    } else {
      var id := n - 1;
      WindowSum(c, before, after, live, key, most, id);
      OneEntry(c, before, after, live, key, most, id);
      if after[id].key == key {
        ChargeOne(c, Given(before, after, key, id), Charges(before, after, live, key, id), most,
                  TakenSince(before, after, id), Charged(before, after, live, id));
      }
    }
  }

  lemma ChargeOne(c: Config, taken: nat, charged: nat, most: nat, more: nat, charge: bool)
    requires Scaled(c, taken) <= charged * most && Scaled(c, more) <= if charge then most else 0
    ensures Scaled(c, taken + more) <= (charged + if charge then 1 else 0) * most
  {
  }

  lemma CountOverHeap(ids: set<nat>, n: nat, m: nat)
    requires n <= m && forall id :: id in ids ==> id < n
    ensures CountBelow(ids, m) == |ids|
  {
    CountBelowIs(ids, m);
  }

  // ---- Two moments of a run ----

  /** What a run makes of a state: entries stay, those there give out no more than they had and what
      flowed in, new ones are built since, and retired ones give out nothing. */
  ghost predicate Later(c: Config, s: State, s': State, start: int) {
    && HeapInv(c, s, start) && HeapInv(c, s', start)
    && s.clock <= s'.clock && |s.heap| <= |s'.heap|
    && (forall id :: 0 <= id < |s.heap| ==> RecSince(c, s.heap[id], s.clock, s'.heap[id], s'.clock))
    && (forall id :: |s.heap| <= id < |s'.heap| ==> s'.heap[id].born >= s.clock)
    && (forall id :: 0 <= id < |s.heap| && Retired(s, id) ==> s'.heap[id].taken == s.heap[id].taken)
  }

  lemma RunsLater(c: Config, start: int, run: seq<Label>, n: nat, m: nat)
    requires n <= m <= |run|
    ensures Later(c, After(c, start, run, n), After(c, start, run, m), start)
  {
    var s, s' := After(c, start, run, n), After(c, start, run, m);
    HeapInvAt(c, start, run, n);
    HeapInvAt(c, start, run, m);
    ClockGrows(c, start, run, n, m);
    assert |s.heap| <= |s'.heap| by {
      if |s.heap| > 0 { RecOverWindow(c, start, run, |s.heap| - 1, n, m); }
    }
    forall id | 0 <= id < |s.heap| ensures RecSince(c, s.heap[id], s.clock, s'.heap[id], s'.clock) {
      RecOverWindow(c, start, run, id, n, m);
    }
    forall id | |s.heap| <= id < |s'.heap| ensures s'.heap[id].born >= s.clock {
      NewerBorn(c, start, run, n, m, id);
    }
    forall id | 0 <= id < |s.heap| && Retired(s, id) ensures s'.heap[id].taken == s.heap[id].taken {
      RetiredForGood(c, start, run, n, m, id);
    }
  }

  lemma MostPositive(c: Config, elapsed: nat)
    ensures 0 <= Inflow(c, elapsed) <= Most(c, elapsed)
  {
  }

  lemma OldEntry(c: Config, s: State, s': State, start: int, key: string, id: nat)
    requires Later(c, s, s', start) && id < |s.heap| && s.heap[id].key == key
    ensures 0 <= TakenSince(s.heap, s'.heap, id)
    ensures Scaled(c, TakenSince(s.heap, s'.heap, id))
              <= if Charged(s.heap, s'.heap, Live(s, key), id) then Most(c, s'.clock - s.clock) else 0
  {
    var before, r := s.heap[id], s'.heap[id];
    assert RecOk(c, before, start, s.clock) && RecOk(c, r, start, s'.clock);
    LevelBounds(c, before.bucket, s.clock);
    LevelBounds(c, r.bucket, s'.clock);
    ScaledAdds(c, before.taken, r.taken - before.taken);
    if before.stored && id !in Live(s, key) {
      assert Retired(s, id);
    }
  }

  lemma NewEntry(c: Config, s: State, s': State, start: int, id: nat)
    requires Later(c, s, s', start) && |s.heap| <= id < |s'.heap|
    ensures Scaled(c, s'.heap[id].taken) <= if s'.heap[id].stored then Most(c, s'.clock - s.clock) else 0
  {
    var r := s'.heap[id];
    assert RecOk(c, r, start, s'.clock);
    LevelBounds(c, r.bucket, s'.clock);
    InflowGrows(c, s'.clock - r.born, s'.clock - s.clock);
  }

  lemma LaterIsWindow(c: Config, s: State, s': State, start: int, key: string)
    requires Later(c, s, s', start)
    ensures 0 <= Most(c, s'.clock - s.clock)
    ensures WindowOk(c, s.heap, s'.heap, Live(s, key), key, Most(c, s'.clock - s.clock))
  {
    MostPositive(c, s'.clock - s.clock);
    forall id | 0 <= id < |s.heap|
      ensures s'.heap[id].key == s.heap[id].key && (s.heap[id].stored ==> s'.heap[id].stored)
    {
      assert RecSince(c, s.heap[id], s.clock, s'.heap[id], s'.clock);
    }
    forall id | 0 <= id < |s'.heap| && s'.heap[id].key == key
      ensures 0 <= TakenSince(s.heap, s'.heap, id)
      ensures Scaled(c, TakenSince(s.heap, s'.heap, id))
                <= if Charged(s.heap, s'.heap, Live(s, key), id) then Most(c, s'.clock - s.clock) else 0
    {
      if id < |s.heap| { OldEntry(c, s, s', start, key, id); } else { NewEntry(c, s, s', start, id); }
    }
  }

  /** The bound in terms of the two states. */
  ghost predicate BoundBetween(c: Config, s: State, s': State, key: string) {
    && TakenFor(s.heap, key) <= TakenFor(s'.heap, key)
    && Scaled(c, TakenFor(s'.heap, key) - TakenFor(s.heap, key))
         <= (|Live(s, key)| + StoredFor(s'.heap, key) - StoredFor(s.heap, key)) * Most(c, s'.clock - s.clock)
  }

  lemma TakenBetween(c: Config, s: State, s': State, start: int, key: string)
    requires Later(c, s, s', start)
    ensures BoundBetween(c, s, s', key)
  {
    LaterIsWindow(c, s, s', start, key);
    WindowSum(c, s.heap, s'.heap, Live(s, key), key, Most(c, s'.clock - s.clock), |s'.heap|);
    CountOverHeap(Live(s, key), |s.heap|, |s'.heap|);
    assert Prefix(s'.heap, |s'.heap|) == s'.heap && Prefix(s.heap, |s'.heap|) == s.heap;
  }

  lemma AllBetween(c: Config, start: int, key: string)
    ensures forall s, s' :: Later(c, s, s', start) ==> BoundBetween(c, s, s', key)
  {
    forall s, s' | Later(c, s, s', start) ensures BoundBetween(c, s, s', key) {
      TakenBetween(c, s, s', start, key);
    }
  }

  lemma BoundInRun(c: Config, start: int, run: seq<Label>, key: string, n: nat, m: nat)
    requires n <= m <= |run|
    ensures BoundBetween(c, After(c, start, run, n), After(c, start, run, m), key)
  {
    AllBetween(c, start, key);
    RunsLater(c, start, run, n, m);
  }

  /** Grants of a key and the entries they are charged to, between two moments. */
  function GrantsBetween(c: Config, start: int, run: seq<Label>, key: string, n: nat, m: nat): int
    requires n <= |run| && m <= |run|
  {
    GrantCount(c, start, run, key, m) - GrantCount(c, start, run, key, n)
  }

  ghost function EntriesBetween(c: Config, start: int, run: seq<Label>, key: string, n: nat, m: nat): int
    requires n <= |run| && m <= |run|
  {
    |Live(After(c, start, run, n), key)|
    + DeleteCount(c, start, run, key, m) - DeleteCount(c, start, run, key, n)
    + (if key in After(c, start, run, m).store then 1 else 0)
    - (if key in After(c, start, run, n).store then 1 else 0)
  }

  lemma BetweenIs(c: Config, start: int, run: seq<Label>, key: string, n: nat, m: nat)
    requires n <= |run| && m <= |run|
    ensures GrantsBetween(c, start, run, key, n, m)
         == TakenFor(After(c, start, run, m).heap, key) - TakenFor(After(c, start, run, n).heap, key)
    ensures EntriesBetween(c, start, run, key, n, m)
         == |Live(After(c, start, run, n), key)|
            + StoredFor(After(c, start, run, m).heap, key) - StoredFor(After(c, start, run, n).heap, key)
  {
    Counts(c, start, run, key, n);
    Counts(c, start, run, key, m);
  }

  /** Between any two moments of any interleaving: the takes granted for a key are within one burst and
      the inflow of the time in between, for each entry that could be reached at the first moment and
      each entry stored since. Those stored since are as many as the deletions since, but for the entry
      that the map had and the one it has. */
  lemma GrantBoundWindow(c: Config, start: int, run: seq<Label>, key: string, n: nat, m: nat)
    requires n <= m <= |run|
    ensures GrantsBetween(c, start, run, key, n, m) * c.unit
              <= EntriesBetween(c, start, run, key, n, m)
                 * Most(c, After(c, start, run, m).clock - After(c, start, run, n).clock)
  {
    var s, s' := Endpoints(c, start, run, key, n, m);
    BoundByCounts(c, s, s', key, GrantsBetween(c, start, run, key, n, m), EntriesBetween(c, start, run, key, n, m));
  }

  lemma Endpoints(c: Config, start: int, run: seq<Label>, key: string, n: nat, m: nat) returns (s: State, s': State)
    requires n <= m <= |run|
    ensures s == After(c, start, run, n) && s' == After(c, start, run, m) && BoundBetween(c, s, s', key)
    ensures GrantsBetween(c, start, run, key, n, m) == TakenFor(s'.heap, key) - TakenFor(s.heap, key)
    ensures EntriesBetween(c, start, run, key, n, m)
         == |Live(s, key)| + StoredFor(s'.heap, key) - StoredFor(s.heap, key)
  {
    s, s' := After(c, start, run, n), After(c, start, run, m);
    BoundInRun(c, start, run, key, n, m);
    BetweenIs(c, start, run, key, n, m);
  }

  lemma BoundByCounts(c: Config, s: State, s': State, key: string, grants: int, entries: int)
    requires BoundBetween(c, s, s', key)
    requires grants == TakenFor(s'.heap, key) - TakenFor(s.heap, key)
    requires entries == |Live(s, key)| + StoredFor(s'.heap, key) - StoredFor(s.heap, key)
    ensures grants * c.unit <= entries * Most(c, s'.clock - s.clock)
  {
  }

  // ---- In terms of the callers in flight ----

  /** The callers that have come past getOrCreate for the key and not yet taken. */
  function InFlight(s: State, key: string): set<nat> {
    set t | t in s.callers && (s.callers[t].Touching? || s.callers[t].Taking?) && s.callers[t].key == key
  }

  ghost function HeldIds(s: State, key: string): set<nat> {
    set t | t in InFlight(s, key) :: s.callers[t].id
  }

  lemma {:induction false} IdsOf(s: State, callers: set<nat>)
    requires forall t :: t in callers ==> t in s.callers && (s.callers[t].Touching? || s.callers[t].Taking?)
    ensures |set t | t in callers :: s.callers[t].id| <= |callers|
  {
    var ids := set t | t in callers :: s.callers[t].id;
    if callers != {} {
      var t :| t in callers;
      IdsOf(s, callers - {t});
      var rest := set t' | t' in callers - {t} :: s.callers[t'].id;
      assert ids == rest + {s.callers[t].id};
    }
  }

  lemma SubsetSize(s: set<nat>, t: set<nat>)
    requires s <= t
    ensures |s| <= |t|
  {
    assert t == s + (t - s);
  }

  /** What is live is the map's entry and what callers in flight hold. */
  lemma LiveIsStoredOrHeld(c: Config, s: State, start: int, key: string)
    requires Inv(c, s, start)
    ensures |Live(s, key)| <= (if key in s.store then 1 else 0) + |InFlight(s, key)|
  {
    var stored := if key in s.store then {s.store[key]} else {};
    var held := HeldIds(s, key);
    forall id | id in Live(s, key) ensures id in stored + held {
      assert Published(s, id);
      if id in s.removed {
        var t :| t in s.callers && HoldsEntry(s.callers[t], id);
        assert CallerOk(s, s.callers[t]);
        assert t in InFlight(s, key);
      }
    }
    SubsetSize(Live(s, key), stored + held);
    IdsOf(s, InFlight(s, key));
  }

  lemma LiveInRun(c: Config, start: int, run: seq<Label>, key: string, n: nat)
    requires n <= |run|
    ensures var s := After(c, start, run, n);
            |Live(s, key)| <= (if key in s.store then 1 else 0) + |InFlight(s, key)|
  {
    Invariant(c, start, run, n);
    LiveIsStoredOrHeld(c, After(c, start, run, n), start, key);
  }

  /** Between any two moments of any interleaving, T apart: the takes granted for a key are at most
      (1 + callers in flight at the first moment + deletes since) * (burst + rate * T). */
  lemma GrantBoundInFlight(c: Config, start: int, run: seq<Label>, key: string, n: nat, m: nat)
    requires n <= m <= |run|
    ensures GrantsBetween(c, start, run, key, n, m) * c.unit
              <= (1 + |InFlight(After(c, start, run, n), key)|
                    + DeleteCount(c, start, run, key, m) - DeleteCount(c, start, run, key, n))
                 * Most(c, After(c, start, run, m).clock - After(c, start, run, n).clock)
  {
    GrantBoundWindow(c, start, run, key, n, m);
    LiveInRun(c, start, run, key, n);
    ClockGrows(c, start, run, n, m);
    var elapsed := After(c, start, run, m).clock - After(c, start, run, n).clock;
    MostPositive(c, elapsed);
    Widened(EntriesBetween(c, start, run, key, n, m),
            1 + |InFlight(After(c, start, run, n), key)|
              + DeleteCount(c, start, run, key, m) - DeleteCount(c, start, run, key, n),
            Most(c, elapsed));
  }

  lemma Widened(entries: int, entries': int, most: nat)
    requires entries <= entries'
    ensures entries * most <= entries' * most
  {
  }

  /** From the start: the takes granted for a key in elapsed time T are at most
      (1 + deletes) * (burst + rate * T). */
  lemma GrantBound(c: Config, start: int, run: seq<Label>, key: string, n: nat)
    requires n <= |run|
    ensures GrantCount(c, start, run, key, n) * c.unit
              <= (1 + DeleteCount(c, start, run, key, n))
                 * (Capacity(c) + c.rate * (After(c, start, run, n).clock - start))
  {
    var elapsed, grants, entries := FromStart(c, start, run, key, n);
    SameBound(c, elapsed, grants, entries, GrantCount(c, start, run, key, n), 1 + DeleteCount(c, start, run, key, n));
  }

  lemma FromStart(c: Config, start: int, run: seq<Label>, key: string, n: nat)
    returns (elapsed: int, grants: int, entries: int)
    requires n <= |run|
    ensures grants * c.unit <= entries * Most(c, elapsed)
    ensures elapsed == After(c, start, run, n).clock - start && grants == GrantCount(c, start, run, key, n)
    ensures entries == 1 + DeleteCount(c, start, run, key, n)
  {
    GrantBoundInFlight(c, start, run, key, 0, n);
    AtTheStart(c, start, run, key);
    elapsed := After(c, start, run, n).clock - After(c, start, run, 0).clock;
    grants := GrantsBetween(c, start, run, key, 0, n);
    entries := 1 + |InFlight(After(c, start, run, 0), key)|
               + DeleteCount(c, start, run, key, n) - DeleteCount(c, start, run, key, 0);
  }

  lemma SameBound(c: Config, elapsed: int, grants: int, entries: int, grants': int, entries': int)
    requires grants * c.unit <= entries * Most(c, elapsed) && grants' == grants && entries' == entries
    ensures grants' * c.unit <= entries' * (Capacity(c) + c.rate * elapsed)
  {
  }

  lemma AtTheStart(c: Config, start: int, run: seq<Label>, key: string)
    ensures |InFlight(After(c, start, run, 0), key)| == 0
    ensures After(c, start, run, 0).clock == start
    ensures GrantCount(c, start, run, key, 0) == 0 && DeleteCount(c, start, run, key, 0) == 0
  {
    assert InFlight(Init(start), key) == {};
  }
}
