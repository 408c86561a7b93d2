/** The limiter under concurrent callers and one sweeper, one shared-memory step at a time
    (ratelimit/tokenbucket.go). A run is any sequence of labels; a label that is not enabled does
    nothing, so every schedule is a run. Entries are named by their index in `heap`. */
module Interleaving {
  import opened TokenBuckets

  /** An allocated entry. `born`, `stored` and `taken` are history: when it was built, whether it was
      ever put in the map, and how many tokens its bucket gave out. */
  datatype Rec = Rec(key: string, bucket: Bucket, lastSeen: int, born: int, stored: bool, taken: nat)

  /** Where a caller of Allow stands: about to do the operation named. */
  datatype Caller =
    | Idle
    | Loading(key: string)
    | Building(key: string)
    | Storing(key: string, id: nat)
    | Touching(key: string, id: nat)
    | Taking(key: string, id: nat)

  /** Where the sweeper stands; `visited` holds the keys this Range has passed to its function. */
  datatype Sweeper =
    | Waiting
    | Ranging(cutoff: int, visited: set<string>)
    | Checking(cutoff: int, visited: set<string>, key: string, id: nat)
    | Deleting(cutoff: int, visited: set<string>, key: string, id: nat)

  /** `removed` is history: the entries that a sweep has deleted from the map. */
  datatype State = State(
    clock: int,
    heap: seq<Rec>,
    store: map<string, nat>,
    removed: set<nat>,
    callers: map<nat, Caller>,
    sweeper: Sweeper)
  {
    function At(caller: nat): Caller {
      if caller in callers then callers[caller] else Idle
    }

    function Goes(caller: nat, pc: Caller): State {
      this.(callers := callers[caller := pc])
    }
  }

  datatype Label =
    | Tick(d: nat)
    | Begin(caller: nat, key: string)
    | Load(caller: nat)
    | Build(caller: nat)
    | LoadOrStore(caller: nat)
    | Touch(caller: nat)
    | Take(caller: nat)
    | SweepBegin
    | Observe(key: string)
    | Check
    | Delete
    | SweepEnd

  function Init(clock: int): State {
    State(clock, [], map[], {}, map[], Waiting)
  }

  function CallerStep(c: Config, s: State, l: Label): State
    requires l.Load? || l.Build? || l.LoadOrStore? || l.Touch? || l.Take?
  {
    match (l, s.At(l.caller))
    case (Load(_), Loading(key)) =>
      s.Goes(l.caller, if key in s.store then Touching(key, s.store[key]) else Building(key))
    case (Build(_), Building(key)) =>
      s.(heap := s.heap + [AsBuilt(c, key, s.clock)])
       .Goes(l.caller, Storing(key, |s.heap|))
    case (LoadOrStore(_), Storing(key, id)) =>
      if key in s.store then s.Goes(l.caller, Touching(key, s.store[key]))
      else if id < |s.heap| then
        s.(store := s.store[key := id], heap := s.heap[id := s.heap[id].(stored := true)])
         .Goes(l.caller, Touching(key, id))
      else s
    case (Touch(_), Touching(key, id)) =>
      if id < |s.heap| then
        s.(heap := s.heap[id := s.heap[id].(lastSeen := s.clock)]).Goes(l.caller, Taking(key, id))
      else s
    case (Take(_), Taking(key, id)) =>
      if id < |s.heap| then
        var r := s.heap[id];
        var r' := r.(bucket := TakeToken(c, r.bucket, s.clock),
                     taken := r.taken + (if Granted(c, r.bucket, s.clock) then 1 else 0));
        s.(heap := s.heap[id := r']).Goes(l.caller, Idle)
      else s
    case _ => s
  }

  function SweeperStep(c: Config, s: State, l: Label): State
    requires l.SweepBegin? || l.Observe? || l.Check? || l.Delete? || l.SweepEnd?
  {
    match (l, s.sweeper)
    case (SweepBegin, Waiting) =>
      s.(sweeper := Ranging(s.clock - c.ttl, {}))
    case (Observe(key), Ranging(cutoff, visited)) =>
      if key in s.store && key !in visited then
        s.(sweeper := Checking(cutoff, visited + {key}, key, s.store[key]))
      else s
    case (Check, Checking(cutoff, visited, key, id)) =>
      if id < |s.heap| && s.heap[id].lastSeen < cutoff
      then s.(sweeper := Deleting(cutoff, visited, key, id))
      else s.(sweeper := Ranging(cutoff, visited))
    case (Delete, Deleting(cutoff, visited, key, _)) =>
      s.(removed := s.removed + (if key in s.store then {s.store[key]} else {}),
         store := s.store - {key},
         sweeper := Ranging(cutoff, visited))
    case (SweepEnd, Ranging(_, _)) =>
      s.(sweeper := Waiting)
    case _ => s
  }

  function Next(c: Config, s: State, l: Label): State {
    match l
    case Tick(d) => s.(clock := s.clock + d)
    case Begin(caller, key) => if s.At(caller).Idle? then s.Goes(caller, Loading(key)) else s
    case SweepBegin => SweeperStep(c, s, l)
    case Observe(_) => SweeperStep(c, s, l)
    case Check => SweeperStep(c, s, l)
    case Delete => SweeperStep(c, s, l)
    case SweepEnd => SweeperStep(c, s, l)
    case _ => CallerStep(c, s, l)
  }

  /** The state after the first n labels of a run that starts empty at time `start`. */
  function After(c: Config, start: int, run: seq<Label>, n: nat): State
    requires n <= |run|
  {
    if n == 0 then Init(start) else Next(c, After(c, start, run, n - 1), run[n - 1])
  }

  /** The step takes a token for a caller of Allow(key). */
  predicate GrantsIn(c: Config, s: State, l: Label, key: string) {
    && l.Take? && s.At(l.caller).Taking? && s.At(l.caller).key == key
    && s.At(l.caller).id < |s.heap|
    && Granted(c, s.heap[s.At(l.caller).id].bucket, s.clock)
  }

  // ---- The invariant ----

  predicate Holds(s: State, key: string, id: nat) {
    id < |s.heap| && s.heap[id].key == key
  }

  function AsBuilt(c: Config, key: string, now: int): Rec {
    Rec(key, Fresh(c, now), now, now, false, 0)
  }

  /** An entry's history is in order; one never stored is exactly as it was built. What its bucket gave
      out and still has never exceeds one burst and the inflow since it was built. */
  predicate RecOk(c: Config, r: Rec, start: int, now: int) {
    && start <= r.born <= now && BucketOk(c, r.bucket, now)
    && (!r.stored ==> r == AsBuilt(c, r.key, r.born))
    && Scaled(c, r.taken) + Level(c, r.bucket, now) <= Capacity(c) + Inflow(c, now - r.born)
  }

  ghost predicate HeapInv(c: Config, s: State, start: int) {
    && start <= s.clock
    && (forall i :: 0 <= i < |s.heap| ==> RecOk(c, s.heap[i], start, s.clock))
  }

  /** The map holds each key's own entry; what was ever stored is in the map or was removed by a sweep. */
  ghost predicate StoreInv(s: State) {
    && (forall key :: key in s.store ==>
          Holds(s, key, s.store[key]) && s.heap[s.store[key]].stored && s.store[key] !in s.removed)
    && (forall id :: id in s.removed ==> id < |s.heap| && s.heap[id].stored)
    && (forall id :: 0 <= id < |s.heap| && s.heap[id].stored ==> Published(s, id))
  }

  predicate Published(s: State, id: nat)
    requires id < |s.heap|
  {
    id in s.removed || (s.heap[id].key in s.store && s.store[s.heap[id].key] == id)
  }

  predicate CallerOk(s: State, pc: Caller) {
    match pc
    case Storing(key, id) => Holds(s, key, id) && !s.heap[id].stored
    case Touching(key, id) => Holds(s, key, id) && s.heap[id].stored
    case Taking(key, id) => Holds(s, key, id) && s.heap[id].stored
    case _ => true
  }

  /** Both callers are about to offer the same entry to the map. */
  predicate SameOffer(pc: Caller, pc': Caller) {
    pc.Storing? && pc'.Storing? && pc.id == pc'.id
  }

  ghost predicate CallersInv(s: State) {
    && (forall t :: t in s.callers ==> CallerOk(s, s.callers[t]))
    && (forall t, t' :: t in s.callers && t' in s.callers && SameOffer(s.callers[t], s.callers[t']) ==> t == t')
  }

  /** From observing an entry to deleting it, the map holds that very entry. */
  predicate SweeperInv(c: Config, s: State) {
    && (!s.sweeper.Waiting? ==> s.sweeper.cutoff <= s.clock)
    && (s.sweeper.Checking? || s.sweeper.Deleting? ==>
          s.sweeper.key in s.store && s.store[s.sweeper.key] == s.sweeper.id)
  }

  ghost predicate Inv(c: Config, s: State, start: int) {
    HeapInv(c, s, start) && StoreInv(s) && CallersInv(s) && SweeperInv(c, s)
  }

  lemma RecLater(c: Config, r: Rec, start: int, t: int, now: int)
    requires t <= now && RecOk(c, r, start, t)
    ensures RecOk(c, r, start, now)
  {
    LevelLater(c, r.bucket, t, now);
    InflowAdds(c, t - r.born, now - t);
  }

  lemma RecBuilt(c: Config, key: string, start: int, now: int)
    requires start <= now
    ensures RecOk(c, AsBuilt(c, key, now), start, now)
  {
  }

  lemma HeapTick(c: Config, s: State, l: Label, start: int)
    requires HeapInv(c, s, start) && l.Tick?
    ensures HeapInv(c, Next(c, s, l), start)
  {
    forall i | 0 <= i < |s.heap| ensures RecOk(c, s.heap[i], start, s.clock + l.d) {
      RecLater(c, s.heap[i], start, s.clock, s.clock + l.d);
    }
  }

  lemma HeapTake(c: Config, s: State, l: Label, start: int)
    requires HeapInv(c, s, start) && CallersInv(s) && l.Take?
    ensures HeapInv(c, Next(c, s, l), start)
  {
  }

  lemma HeapStep(c: Config, s: State, l: Label, start: int)
    requires Inv(c, s, start)
    ensures HeapInv(c, Next(c, s, l), start)
  {
    match l {
      case Tick(_) => HeapTick(c, s, l, start);
      case Take(_) => HeapTake(c, s, l, start);
      case Build(t) =>
        if s.At(t).Building? { RecBuilt(c, s.At(t).key, start, s.clock); }
      case _ =>
    }
  }

  /** Only LoadOrStore changes the map and the `stored` flags among the steps of callers. */
  lemma StoreStepOther(c: Config, s: State, l: Label, start: int)
    requires Inv(c, s, start) && (l.Load? || l.Build? || l.Touch? || l.Take?)
    ensures StoreInv(Next(c, s, l))
  {
  }

  lemma StoreStepStore(c: Config, s: State, l: Label, start: int)
    requires Inv(c, s, start) && l.LoadOrStore?
    ensures StoreInv(Next(c, s, l))
  {
  }

  lemma StoreStep(c: Config, s: State, l: Label, start: int)
    requires Inv(c, s, start)
    ensures StoreInv(Next(c, s, l))
  {
    if l.LoadOrStore? {
      StoreStepStore(c, s, l, start);
    } else if l.Load? || l.Build? || l.Touch? || l.Take? {
      StoreStepOther(c, s, l, start);
    } else if l == Delete && s.sweeper.Deleting? {
      var s' := Next(c, s, l);
      forall id | 0 <= id < |s'.heap| && s'.heap[id].stored ensures Published(s', id) {
        assert Published(s, id);
      }
    }
  }

  /** Entries stay allocated under their key and, once stored, stay stored; only LoadOrStore stores. */
  lemma HeapGrows(c: Config, s: State, l: Label, id: nat)
    requires id < |s.heap|
    ensures var s' := Next(c, s, l);
            && id < |s'.heap| && s'.heap[id].key == s.heap[id].key
            && (s.heap[id].stored ==> s'.heap[id].stored)
            && (!s.heap[id].stored && s'.heap[id].stored ==> l.LoadOrStore? && OffersIn(s, l.caller, id))
  {
  }

  predicate OffersIn(s: State, caller: nat, id: nat) {
    s.At(caller).Storing? && s.At(caller).id == id
  }

  lemma OneOffer(s: State, t: nat, t': nat, id: nat)
    requires CallersInv(s) && OffersIn(s, t, id) && OffersIn(s, t', id)
    ensures t == t'
  {
  }

  lemma CallerMoved(c: Config, s: State, l: Label, start: int)
    requires Inv(c, s, start) && (l.Load? || l.Build? || l.LoadOrStore? || l.Touch? || l.Take?)
    ensures CallerOk(Next(c, s, l), Next(c, s, l).At(l.caller))
  {
  }

  predicate Moves(l: Label, t: nat) {
    (l.Begin? || l.Load? || l.Build? || l.LoadOrStore? || l.Touch? || l.Take?) && l.caller == t
  }

  lemma OthersStand(c: Config, s: State, l: Label, t: nat)
    requires !Moves(l, t)
    ensures Next(c, s, l).At(t) == s.At(t) && (t in Next(c, s, l).callers <==> t in s.callers)
  {
  }

  lemma OfferStep(c: Config, s: State, l: Label, start: int, t: nat, t': nat)
    requires Inv(c, s, start)
    requires var s' := Next(c, s, l); t in s'.callers && t' in s'.callers && SameOffer(s'.callers[t], s'.callers[t'])
    ensures t == t'
  {
  }

  lemma CallersStep(c: Config, s: State, l: Label, start: int)
    requires Inv(c, s, start)
    ensures CallersInv(Next(c, s, l))
  {
    var s' := Next(c, s, l);
    forall t | t in s'.callers ensures CallerOk(s', s'.callers[t]) {
      if Moves(l, t) {
        if !l.Begin? { CallerMoved(c, s, l, start); }
      } else {
        CallerStands(c, s, l, start, t);
      }
    }
    forall t, t' | t in s'.callers && t' in s'.callers && SameOffer(s'.callers[t], s'.callers[t']) ensures t == t' {
      OfferStep(c, s, l, start, t, t');
    }
  }

  lemma CallerStands(c: Config, s: State, l: Label, start: int, t: nat)
    requires Inv(c, s, start) && !Moves(l, t)
    ensures CallerOk(Next(c, s, l), Next(c, s, l).At(t))
  {
    OthersStand(c, s, l, t);
    var pc := s.At(t);
    if pc.Storing? || pc.Touching? || pc.Taking? {
      assert CallerOk(s, s.callers[t]);
      HeapGrows(c, s, l, pc.id);
      if pc.Storing? && l.LoadOrStore? && OffersIn(s, l.caller, pc.id) {
        OneOffer(s, t, l.caller, pc.id);
      }
    }
  }

  lemma SweeperStepKeeps(c: Config, s: State, l: Label, start: int)
    requires Inv(c, s, start)
    ensures SweeperInv(c, Next(c, s, l))
  {
  }

  lemma StepKeeps(c: Config, s: State, l: Label, start: int)
    requires Inv(c, s, start)
    ensures Inv(c, Next(c, s, l), start)
  {
    HeapStep(c, s, l, start);
    StoreStep(c, s, l, start);
    CallersStep(c, s, l, start);
    SweeperStepKeeps(c, s, l, start);
  }

  lemma {:induction false} Invariant(c: Config, start: int, run: seq<Label>, n: nat)
    requires n <= |run|
    ensures Inv(c, After(c, start, run, n), start)
  {
    if n > 0 {
      Invariant(c, start, run, n - 1);
      StepKeeps(c, After(c, start, run, n - 1), run[n - 1], start);
    }
  }
}
