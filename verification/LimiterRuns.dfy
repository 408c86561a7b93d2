/** Whole runs of the limiter: any sequence of calls and sweeps under a clock that never goes back.
    `At(c, run, n, evicting)` is the table after the first n events; with `evicting` false the
    sweeps do nothing, which is a limiter that never forgets a key. */
module LimiterRuns {
  import opened TokenBuckets
  import opened Limiter

  datatype Event =
    | Call(key: string, at: int)
    | Sweep(at: int)

  type Run = seq<Event>

  ghost predicate Timed(run: Run) {
    forall i, j :: 0 <= i < j < |run| ==> run[i].at <= run[j].at
  }

  predicate IsCall(run: Run, key: string, n: nat) {
    n < |run| && run[n].Call? && run[n].key == key
  }

  function Apply(c: Config, t: Table, e: Event, evicting: bool): Table {
    match e
    case Call(key, at) => AfterAllow(c, t, key, at)
    case Sweep(at) => if evicting then AfterSweep(c, t, at) else t
  }

  function At(c: Config, run: Run, n: nat, evicting: bool): Table
    requires n <= |run|
  {
    if n == 0 then map[] else Apply(c, At(c, run, n - 1, evicting), run[n - 1], evicting)
  }

  /** The answer Allow gives at event n. */
  function Answer(c: Config, run: Run, n: nat, evicting: bool): bool
    requires n < |run| && run[n].Call?
  {
    Admits(c, At(c, run, n, evicting), run[n].key, run[n].at)
  }

  predicate Evicts(c: Config, run: Run, key: string, n: nat)
    requires n < |run|
  {
    key in At(c, run, n, true) && key !in At(c, run, n + 1, true)
  }

  /** Calls for `key` admitted at events lo .. hi-1. */
  function Admitted(c: Config, run: Run, key: string, lo: nat, hi: nat): nat
    requires lo <= hi <= |run|
  {
    if lo == hi then 0
    else Admitted(c, run, key, lo, hi - 1) + (if IsCall(run, key, hi - 1) && Answer(c, run, hi - 1, true) then 1 else 0)
  }

  /** Evictions of `key` at events lo .. hi-1. */
  function Evictions(c: Config, run: Run, key: string, lo: nat, hi: nat): nat
    requires lo <= hi <= |run|
  {
    if lo == hi then 0
    else Evictions(c, run, key, lo, hi - 1) + (if Evicts(c, run, key, hi - 1) then 1 else 0)
  }

  predicate SlotOk(c: Config, s: Slot, now: int) {
    BucketOk(c, s.bucket, s.lastSeen) && s.lastSeen <= now
  }

  ghost predicate TableOk(c: Config, t: Table, now: int) {
    forall key :: key in t ==> SlotOk(c, t[key], now)
  }

  lemma ApplyKeepsTable(c: Config, t: Table, e: Event, evicting: bool)
    requires TableOk(c, t, e.at)
    ensures TableOk(c, Apply(c, t, e, evicting), e.at)
  {
  }

  /** Every table a run reaches is well formed. */
  lemma {:induction false} TableAt(c: Config, run: Run, n: nat, evicting: bool, now: int)
    requires Timed(run) && n <= |run|
    requires forall i :: 0 <= i < n ==> run[i].at <= now
    ensures TableOk(c, At(c, run, n, evicting), now)
  {
    if n > 0 {
      TableAt(c, run, n - 1, evicting, run[n - 1].at);
      ApplyKeepsTable(c, At(c, run, n - 1, evicting), run[n - 1], evicting);
    }
  }

  // ---- Keys do not affect each other ----

  /** The run without the calls for other keys. */
  function Only(run: Run, key: string): Run {
    if run == [] then []
    else
      var front, e := Only(run[..|run| - 1], key), run[|run| - 1];
      if e.Call? && e.key != key then front else front + [e]
  }

  predicate SameEntry(t: Table, t': Table, key: string) {
    (key in t <==> key in t') && (key in t ==> t[key] == t'[key])
  }

  lemma {:induction false} AtPrefix(c: Config, run: Run, e: Event, n: nat, evicting: bool)
    requires n <= |run|
    ensures At(c, run + [e], n, evicting) == At(c, run, n, evicting)
  {
    if n > 0 { AtPrefix(c, run, e, n - 1, evicting); }
  }

  lemma {:induction false} EntryAlone(c: Config, run: Run, key: string, n: nat, evicting: bool)
    requires n <= |run|
    ensures var alone := Only(run[..n], key);
            SameEntry(At(c, run, n, evicting), At(c, alone, |alone|, evicting), key)
  {
    if n > 0 {
      EntryAlone(c, run, key, n - 1, evicting);
      var before, e := Only(run[..n - 1], key), run[n - 1];
      assert run[..n][..n - 1] == run[..n - 1];
      AtPrefix(c, before, e, |before|, evicting);
      var t, t' := At(c, run, n - 1, evicting), At(c, before, |before|, evicting);
      assert At(c, run, n, evicting) == Apply(c, t, e, evicting);
      if e.Call? && e.key != key {
        assert Only(run[..n], key) == before;
      } else {
        assert Only(run[..n], key) == before + [e];
        assert At(c, before + [e], |before| + 1, evicting) == Apply(c, t', e, evicting);
      }
    }
  }

  /** Every answer for a key is the one it would get if no other key were ever used. */
  lemma OtherKeysInvisible(c: Config, run: Run, key: string, n: nat, evicting: bool)
    requires IsCall(run, key, n)
    ensures var alone := Only(run[..n + 1], key);
            var m := |alone| - 1;
            0 <= m && IsCall(alone, key, m) && Answer(c, run, n, evicting) == Answer(c, alone, m, evicting)
  {
    var before := Only(run[..n], key);
    assert run[..n + 1][..n] == run[..n];
    EntryAlone(c, run, key, n, evicting);
    AtPrefix(c, before, run[n], |before|, evicting);
  }

  // ---- How much a window can admit ----

  /** burst tokens for each eviction and one more, and rate for the time that the evictions leave. */
  function Allowance(c: Config, evictions: nat, elapsed: int): int {
    (evictions + 1) * Capacity(c) + Inflow(c, elapsed - evictions * c.ttl)
  }

  predicate Separated(c: Config, evictions: nat, elapsed: int) {
    if evictions == 0 then 0 <= elapsed else evictions * c.ttl < elapsed
  }

  lemma AllowanceLater(c: Config, n: nat, d: int, d': int)
    ensures Allowance(c, n, d') == Allowance(c, n, d) + Inflow(c, d' - d)
    ensures d <= d' ==> Allowance(c, n, d) <= Allowance(c, n, d')
  {
  }

  lemma AllowanceEvicted(c: Config, n: nat, d: int, d': int)
    requires Separated(c, n, d) && d + c.ttl < d'
    ensures Separated(c, n + 1, d')
    ensures Allowance(c, n, d) + Capacity(c) <= Allowance(c, n + 1, d')
  {
  }

  /** What is known of `key` at event n of a window that opened with a call at event `lo`: what was
      admitted plus what is left in the bucket is within the allowance at the last use, and a key
      that is gone has left a whole bucket of allowance unused. */
  ghost predicate WithinAllowance(c: Config, run: Run, key: string, lo: nat, n: nat)
    requires lo < n <= |run|
  {
    var t := At(c, run, n, true);
    var admitted := Scaled(c, Admitted(c, run, key, lo, n));
    var evictions := Evictions(c, run, key, lo, n);
    if key in t then
      var elapsed := t[key].lastSeen - run[lo].at;
      && Separated(c, evictions, elapsed)
      && admitted + Level(c, t[key].bucket, t[key].lastSeen) <= Allowance(c, evictions, elapsed)
    else
      var elapsed := run[n - 1].at - run[lo].at;
      && evictions > 0
      && Separated(c, evictions, elapsed)
      && admitted + Capacity(c) <= Allowance(c, evictions, elapsed)
  }

  lemma WindowOpens(c: Config, run: Run, key: string, lo: nat)
    requires Timed(run) && IsCall(run, key, lo)
    ensures WithinAllowance(c, run, key, lo, lo + 1)
  {
  }

  lemma WindowCall(c: Config, run: Run, key: string, lo: nat, n: nat)
    requires Timed(run) && lo < n && IsCall(run, key, n)
    requires WithinAllowance(c, run, key, lo, n)
    ensures WithinAllowance(c, run, key, lo, n + 1)
  {
    var now := run[n].at;
    TableAt(c, run, n, true, now);
    var t := At(c, run, n, true);
    var b := WithEntry(c, t, key, now)[key].bucket;
    TakeLevel(c, b, now);
    LevelBounds(c, b, now);
    var admitted := Admitted(c, run, key, lo, n);
    ScaledAdds(c, admitted, 1);
    var evictions := Evictions(c, run, key, lo, n);
    assert Evictions(c, run, key, lo, n + 1) == evictions;
    if key in t {
      LevelLater(c, b, t[key].lastSeen, now);
      AllowanceLater(c, evictions, t[key].lastSeen - run[lo].at, now - run[lo].at);
    } else {
      AllowanceLater(c, evictions, run[n - 1].at - run[lo].at, now - run[lo].at);
    }
  }

  lemma WindowOther(c: Config, run: Run, key: string, lo: nat, n: nat)
    requires Timed(run) && lo < n < |run| && !IsCall(run, key, n)
    requires WithinAllowance(c, run, key, lo, n)
    ensures WithinAllowance(c, run, key, lo, n + 1)
  {
    var now := run[n].at;
    TableAt(c, run, n, true, now);
    var t := At(c, run, n, true);
    var evictions := Evictions(c, run, key, lo, n);
    if key in t {
      var s := t[key];
      LevelBounds(c, s.bucket, s.lastSeen);
      if Evicts(c, run, key, n) {
        AllowanceEvicted(c, evictions, s.lastSeen - run[lo].at, now - run[lo].at);
      }
    } else {
      AllowanceLater(c, evictions, run[n - 1].at - run[lo].at, now - run[lo].at);
    }
  }

  lemma {:induction false} WindowInvariant(c: Config, run: Run, key: string, lo: nat, n: nat)
    requires Timed(run) && lo < n <= |run| && IsCall(run, key, lo)
    ensures WithinAllowance(c, run, key, lo, n)
  {
    if n == lo + 1 {
      WindowOpens(c, run, key, lo);
    } else {
      WindowInvariant(c, run, key, lo, n - 1);
      if IsCall(run, key, n - 1) {
        WindowCall(c, run, key, lo, n - 1);
      } else {
        WindowOther(c, run, key, lo, n - 1);
      }
    }
  }

  /** Between two uses of a key, T apart, with n evictions of it in between: n evictions need more
      than n * ttl of the time, and the calls admitted are within (n + 1) bursts and the rate over
      what is left of T. */
  lemma AdmissionBound(c: Config, run: Run, key: string, lo: nat, hi: nat)
    requires Timed(run) && lo <= hi && IsCall(run, key, lo) && IsCall(run, key, hi)
    ensures var n := Evictions(c, run, key, lo, hi + 1);
            var elapsed := run[hi].at - run[lo].at;
            && (n > 0 ==> n * c.ttl < elapsed)
            && Admitted(c, run, key, lo, hi + 1) * c.unit
                 <= (n + 1) * Capacity(c) + c.rate * (elapsed - n * c.ttl)
  {
    WindowInvariant(c, run, key, lo, hi + 1);
    TableAt(c, run, hi + 1, true, run[hi].at);
    var s := At(c, run, hi + 1, true)[key];
    LevelBounds(c, s.bucket, s.lastSeen);
  }

  lemma {:induction false} AdmittedOutsideUses(c: Config, run: Run, key: string, open: nat, lo: nat, hi: nat, end: nat)
    requires open <= lo <= hi < end <= |run|
    requires forall i :: open <= i < end && IsCall(run, key, i) ==> lo <= i <= hi
    ensures Admitted(c, run, key, open, end) == Admitted(c, run, key, lo, hi + 1)
    decreases end
  {
    if end > hi + 1 {
      AdmittedOutsideUses(c, run, key, open, lo, hi, end - 1);
    } else if open < lo {
      AdmittedSplit(c, run, key, open, lo, end);
      NoneAdmitted(c, run, key, open, lo);
    }
  }

  lemma {:induction false} AdmittedSplit(c: Config, run: Run, key: string, lo: nat, mid: nat, hi: nat)
    requires lo <= mid <= hi <= |run|
    ensures Admitted(c, run, key, lo, hi) == Admitted(c, run, key, lo, mid) + Admitted(c, run, key, mid, hi)
  {
    if mid < hi { AdmittedSplit(c, run, key, lo, mid, hi - 1); }
  }

  lemma {:induction false} NoneAdmitted(c: Config, run: Run, key: string, lo: nat, hi: nat)
    requires lo <= hi <= |run|
    requires forall i :: lo <= i < hi ==> !IsCall(run, key, i)
    ensures Admitted(c, run, key, lo, hi) == 0
  {
    if lo < hi { NoneAdmitted(c, run, key, lo, hi - 1); }
  }

  /** The same bound for any window of events whatever, [open, end), where lo and hi are the first and
      last use of the key in it. */
  lemma AdmissionBoundAnyWindow(c: Config, run: Run, key: string, open: nat, lo: nat, hi: nat, end: nat)
    requires Timed(run) && open <= lo <= hi < end <= |run|
    requires IsCall(run, key, lo) && IsCall(run, key, hi)
    requires forall i :: open <= i < end && IsCall(run, key, i) ==> lo <= i <= hi
    ensures var n := Evictions(c, run, key, lo, hi + 1);
            var length := run[end - 1].at - run[open].at;
            && (n > 0 ==> n * c.ttl < length)
            && Admitted(c, run, key, open, end) * c.unit
                 <= (n + 1) * Capacity(c) + c.rate * (length - n * c.ttl)
  {
    AdmissionBound(c, run, key, lo, hi);
    AdmittedOutsideUses(c, run, key, open, lo, hi, end);
    AllowanceLater(c, Evictions(c, run, key, lo, hi + 1), run[hi].at - run[lo].at, run[end - 1].at - run[open].at);
  }

  // ---- When eviction cannot be noticed ----

  /** `t` and the table `all` that forgets nothing will answer alike from `now` on. */
  ghost predicate Agree(c: Config, t: Table, all: Table, now: int) {
    && t.Keys <= all.Keys
    && (forall key :: key in t ==> Level(c, t[key].bucket, now) == Level(c, all[key].bucket, now))
    && (forall key :: key in t ==> t[key].lastSeen == all[key].lastSeen)
    && (forall key :: key in all && key !in t ==> Level(c, all[key].bucket, now) == Capacity(c))
  }

  lemma AgreeLater(c: Config, t: Table, all: Table, t0: int, now: int)
    requires t0 <= now && TableOk(c, t, t0) && TableOk(c, all, t0) && Agree(c, t, all, t0)
    ensures Agree(c, t, all, now)
  {
    forall key | key in all
      ensures key in t ==> Level(c, t[key].bucket, now) == Level(c, all[key].bucket, now)
      ensures key !in t ==> Level(c, all[key].bucket, now) == Capacity(c)
    {
      LevelLater(c, all[key].bucket, t0, now);
      LevelBounds(c, all[key].bucket, now);
      if key in t { LevelLater(c, t[key].bucket, t0, now); }
    }
  }

  lemma AgreeAdmits(c: Config, t: Table, all: Table, key: string, now: int)
    requires Agree(c, t, all, now)
    ensures Admits(c, t, key, now) == Admits(c, all, key, now)
    ensures Level(c, WithEntry(c, t, key, now)[key].bucket, now)
         == Level(c, WithEntry(c, all, key, now)[key].bucket, now)
  {
  }

  lemma AgreeApply(c: Config, t: Table, all: Table, e: Event)
    requires TableOk(c, t, e.at) && TableOk(c, all, e.at) && Agree(c, t, all, e.at)
    requires c.rate * (c.ttl + 1) >= Capacity(c)
    ensures Agree(c, Apply(c, t, e, true), Apply(c, all, e, false), e.at)
  {
    match e {
      case Call(key, now) =>
        AgreeAdmits(c, t, all, key, now);
        TakeLevel(c, WithEntry(c, t, key, now)[key].bucket, now);
        TakeLevel(c, WithEntry(c, all, key, now)[key].bucket, now);
      case Sweep(now) =>
        forall key | key in t && Stale(c, t[key].lastSeen, now)
          ensures Level(c, all[key].bucket, now) == Capacity(c)
        {
          var b := all[key].bucket;
          InflowGrows(c, c.ttl + 1, now - b.last);
        }
    }
  }

  lemma {:induction false} RunsAgree(c: Config, run: Run, n: nat, now: int)
    requires Timed(run) && n <= |run|
    requires forall i :: 0 <= i < n ==> run[i].at <= now
    requires c.rate * (c.ttl + 1) >= Capacity(c)
    ensures Agree(c, At(c, run, n, true), At(c, run, n, false), now)
  {
    if n > 0 {
      var e := run[n - 1];
      RunsAgree(c, run, n - 1, e.at);
      TableAt(c, run, n - 1, true, e.at);
      TableAt(c, run, n - 1, false, e.at);
      AgreeStep(c, At(c, run, n - 1, true), At(c, run, n - 1, false), e, now);
    }
  }

  lemma AgreeStep(c: Config, t: Table, all: Table, e: Event, now: int)
    requires TableOk(c, t, e.at) && TableOk(c, all, e.at) && Agree(c, t, all, e.at) && e.at <= now
    requires c.rate * (c.ttl + 1) >= Capacity(c)
    ensures Agree(c, Apply(c, t, e, true), Apply(c, all, e, false), now)
  {
    AgreeApply(c, t, all, e);
    ApplyKeepsTable(c, t, e, true);
    ApplyKeepsTable(c, all, e, false);
    AgreeLater(c, Apply(c, t, e, true), Apply(c, all, e, false), e.at, now);
  }

  /** No run of the limiter can be told from the same run without sweeps. */
  ghost predicate EvictionInvisible(c: Config) {
    forall run: Run, n: nat :: Timed(run) && n < |run| && run[n].Call? ==>
      Answer(c, run, n, true) == Answer(c, run, n, false)
  }

  /** The run that tells them apart: drain the bucket at time 0, sweep as soon as the entry is stale,
      and ask again. */
  function DrainSweepDrain(c: Config): (run: Run)
    ensures Timed(run)
  {
    var burst: nat := if c.burst > 0 then c.burst else 0;
    seq(2 * burst + 1, i =>
      if i < burst then Call("k", 0) else if i == burst then Sweep(c.ttl + 1) else Call("k", c.ttl + 1))
  }

  lemma {:induction false} CallsDrain(c: Config, run: Run, lo: nat, n: nat, now: int, evicting: bool)
    requires lo < n <= |run|
    requires forall i :: lo <= i < n ==> run[i] == Call("k", now)
    requires TableOk(c, At(c, run, lo, evicting), now)
    requires forall i :: lo <= i < n ==> Answer(c, run, i, evicting)
    ensures TableOk(c, At(c, run, n, evicting), now)
    ensures "k" in At(c, run, n, evicting)
    ensures At(c, run, n, evicting)["k"].lastSeen == now
    ensures Level(c, At(c, run, n, evicting)["k"].bucket, now) + Scaled(c, n - lo)
         == Level(c, WithEntry(c, At(c, run, lo, evicting), "k", now)["k"].bucket, now)
  {
    if n - 1 > lo {
      CallsDrain(c, run, lo, n - 1, now, evicting);
    }
    var t := At(c, run, n - 1, evicting);
    ApplyKeepsTable(c, t, run[n - 1], evicting);
    TakeLevel(c, WithEntry(c, t, "k", now)["k"].bucket, now);
    ScaledAdds(c, n - 1 - lo, 1);
    assert Answer(c, run, n - 1, evicting);
  }

  lemma {:induction false} FreshDrain(c: Config, run: Run, lo: nat, n: nat, now: int, evicting: bool)
    requires lo <= n <= |run| && c.burst > 0 && n - lo <= c.burst
    requires forall i :: lo <= i < n ==> run[i] == Call("k", now)
    requires "k" !in At(c, run, lo, evicting) && TableOk(c, At(c, run, lo, evicting), now)
    ensures forall i :: lo <= i < n ==> Answer(c, run, i, evicting)
  {
    if lo < n {
      FreshDrain(c, run, lo, n - 1, now, evicting);
      assert Inflow(c, 0) == 0;
      if lo < n - 1 { CallsDrain(c, run, lo, n - 1, now, evicting); }
      ScaledAdds(c, n - 1 - lo, 1);
      ScaledGrows(c, n - lo, c.burst);
    }
  }

  /** Asking for a whole burst at once of a key whose level is below a burst fails somewhere. */
  lemma PartialDrainFails(c: Config, run: Run, lo: nat, now: int)
    requires c.burst > 0 && lo + c.burst <= |run|
    requires forall i :: lo <= i < lo + c.burst ==> run[i] == Call("k", now)
    requires var t := At(c, run, lo, false);
             TableOk(c, t, now) && "k" in t && Level(c, t["k"].bucket, now) < Capacity(c)
    ensures exists i :: lo <= i < lo + c.burst && !Answer(c, run, i, false)
  {
    var hi := lo + c.burst;
    if forall i :: lo <= i < hi ==> Answer(c, run, i, false) {
      CallsDrain(c, run, lo, hi, now, false);
      LevelBounds(c, At(c, run, hi, false)["k"].bucket, now);
      assert false;
    }
  }

  /** After the first burst. */
  lemma Drained(c: Config, evicting: bool)
    requires c.burst > 0
    ensures var t := At(c, DrainSweepDrain(c), c.burst, evicting);
            "k" in t && SlotOk(c, t["k"], 0) && t["k"].lastSeen == 0 && Level(c, t["k"].bucket, 0) == 0
  {
    var run := DrainSweepDrain(c);
    assert Inflow(c, 0) == 0;
    FreshDrain(c, run, 0, c.burst, 0, evicting);
    CallsDrain(c, run, 0, c.burst, 0, evicting);
  }

  /** After the first burst and the sweep: gone from one table, empty but for the inflow in the other. */
  lemma DrainedAndSwept(c: Config)
    requires c.rate * (c.ttl + 1) < Capacity(c)
    ensures c.burst > 0
    ensures var run, mid := DrainSweepDrain(c), c.burst + 1;
            var t := At(c, run, mid, false);
            && "k" !in At(c, run, mid, true)
            && "k" in t && Level(c, t["k"].bucket, c.ttl + 1) < Capacity(c)
  {
    InflowGrows(c, 0, c.ttl + 1);
    var run := DrainSweepDrain(c);
    Drained(c, true);
    Drained(c, false);
    assert run[c.burst] == Sweep(c.ttl + 1);
    LevelLater(c, At(c, run, c.burst, false)["k"].bucket, 0, c.ttl + 1);
  }

  lemma DrainTellsApart(c: Config)
    requires c.rate * (c.ttl + 1) < Capacity(c)
    ensures exists n: nat :: n < |DrainSweepDrain(c)| && DrainSweepDrain(c)[n].Call?
              && Answer(c, DrainSweepDrain(c), n, true) != Answer(c, DrainSweepDrain(c), n, false)
  {
    DrainedAndSwept(c);
    var run, mid, later := DrainSweepDrain(c), c.burst + 1, c.ttl + 1;
    TableAt(c, run, mid, true, later);
    TableAt(c, run, mid, false, later);
    FreshDrain(c, run, mid, |run|, later, true);
    PartialDrainFails(c, run, mid, later);
  }

  /** Eviction is invisible exactly when an entry that has just become stale has had the time to
      refill: the first clock reading at which it is stale is ttl + 1 after its last use. */
  lemma EvictionInvisibleIff(c: Config)
    ensures EvictionInvisible(c) <==> c.rate * (c.ttl + 1) >= Capacity(c)
  {
    if c.rate * (c.ttl + 1) >= Capacity(c) {
      forall run: Run, n: nat | Timed(run) && n < |run| && run[n].Call?
        ensures Answer(c, run, n, true) == Answer(c, run, n, false)
      {
        RunsAgree(c, run, n, run[n].at);
        AgreeAdmits(c, At(c, run, n, true), At(c, run, n, false), run[n].key, run[n].at);
      }
    } else {
      DrainTellsApart(c);
    }
  }

  // ---- What is kept, and for how long ----

  /** The time of the last sweep before event n; the limiter starts at `start`. */
  function LastSweep(run: Run, start: int, n: nat): int
    requires n <= |run|
  {
    if n == 0 then start
    else if run[n - 1].Sweep? then run[n - 1].at
    else LastSweep(run, start, n - 1)
  }

  /** No event comes later than `interval` after the sweep, or the start, before it. */
  ghost predicate SweptEvery(run: Run, start: int, interval: int) {
    forall n :: 0 <= n < |run| ==> start <= run[n].at <= LastSweep(run, start, n) + interval
  }

  /** An entry's time is that of a call for its key. */
  ghost predicate Remembered(t: Table, run: Run, n: nat)
    requires n <= |run|
  {
    forall key :: key in t ==> exists i :: 0 <= i < n && run[i] == Call(key, t[key].lastSeen)
  }

  lemma {:induction false} RememberedAt(c: Config, run: Run, n: nat)
    requires n <= |run|
    ensures Remembered(At(c, run, n, true), run, n)
  {
    if n > 0 {
      var e := run[n - 1];
      RememberedAt(c, run, n - 1);
      var t, t' := At(c, run, n - 1, true), At(c, run, n, true);
      forall key | key in t'
        ensures exists i :: 0 <= i < n && run[i] == Call(key, t'[key].lastSeen)
      {
        if e.Call? && e.key == key {
          assert run[n - 1] == Call(key, t'[key].lastSeen);
        } else {
          assert key in t && t[key] == t'[key];
        }
      }
    }
  }

  /** No entry is older than ttl before the last sweep. */
  lemma {:induction false} NoneOlder(c: Config, run: Run, start: int, n: nat, key: string)
    requires Timed(run) && n <= |run| && key in At(c, run, n, true)
    requires forall i :: 0 <= i < n ==> start <= run[i].at
    ensures At(c, run, n, true)[key].lastSeen >= LastSweep(run, start, n) - c.ttl
  {
    if n > 0 {
      var e := run[n - 1];
      if e.Call? && e.key == key {
        LastSweepBounds(run, start, n - 1, e.at);
      } else if e.Call? {
        NoneOlder(c, run, start, n - 1, key);
      }
    }
  }

  /** Every call recent enough at `now` is still remembered. */
  lemma {:induction false} RecentKept(c: Config, run: Run, n: nat, now: int, key: string, i: nat)
    requires Timed(run) && i < n <= |run| && IsCall(run, key, i)
    requires forall j :: 0 <= j < n ==> run[j].at <= now
    requires now - run[i].at <= c.ttl
    ensures key in At(c, run, n, true) && At(c, run, n, true)[key].lastSeen >= run[i].at
  {
    if i < n - 1 { RecentKept(c, run, n - 1, now, key, i); }
  }

  lemma {:induction false} LastSweepBounds(run: Run, start: int, n: nat, now: int)
    requires n <= |run| && start <= now
    requires forall i :: 0 <= i < n ==> start <= run[i].at <= now
    ensures start <= LastSweep(run, start, n) <= now
  {
    if n > 0 && !run[n - 1].Sweep? { LastSweepBounds(run, start, n - 1, now); }
  }

  /** With the limiter's own times: at every moment between two sweeps, each key stored was used in
      the last 15 minutes, and each key used in the last 10 minutes is stored. */
  lemma Retention(c: Config, run: Run, start: int, n: nat, now: int, key: string)
    requires c.ttl == TTL && Timed(run) && n <= |run|
    requires SweptEvery(run, start, SWEEP_INTERVAL)
    requires start <= now <= LastSweep(run, start, n) + SWEEP_INTERVAL
    requires forall i :: 0 <= i < n ==> run[i].at <= now
    ensures key in At(c, run, n, true) ==>
              exists i :: 0 <= i < n && IsCall(run, key, i) && now - run[i].at <= 15 * MINUTE
    ensures (exists i :: 0 <= i < n && IsCall(run, key, i) && now - run[i].at <= 10 * MINUTE) ==>
              key in At(c, run, n, true)
  {
    var t := At(c, run, n, true);
    if i :| 0 <= i < n && IsCall(run, key, i) && now - run[i].at <= 10 * MINUTE {
      RecentKept(c, run, n, now, key, i);
    }
    if key in t {
      RememberedAt(c, run, n);
      NoneOlder(c, run, start, n, key);
      var i :| 0 <= i < n && run[i] == Call(key, t[key].lastSeen);
      assert IsCall(run, key, i) && now - run[i].at <= 15 * MINUTE;
    }
  }
}
