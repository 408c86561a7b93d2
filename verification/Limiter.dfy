/** The per-key limiter with eviction, one operation at a time (ratelimit/tokenbucket.go).
    Every operation reads the clock once and gets the reading as `now`. */
module Limiter {
  import opened TokenBuckets

  const MINUTE: nat := 60_000_000_000
  const TTL: nat := 10 * MINUTE
  const SWEEP_INTERVAL: nat := 5 * MINUTE

  /** The contents of an entry: its bucket and when it was last used. */
  datatype Slot = Slot(bucket: Bucket, lastSeen: int)

  type Table = map<string, Slot>

  // ---- What the operations mean, on values ----

  /** The table once `key` has an entry. */
  function WithEntry(c: Config, t: Table, key: string, now: int): Table {
    if key in t then t else t[key := Slot(Fresh(c, now), now)]
  }

  function Admits(c: Config, t: Table, key: string, now: int): bool {
    Granted(c, WithEntry(c, t, key, now)[key].bucket, now)
  }

  function AfterAllow(c: Config, t: Table, key: string, now: int): Table {
    var t' := WithEntry(c, t, key, now);
    t'[key := Slot(TakeToken(c, t'[key].bucket, now), now)]
  }

  predicate Stale(c: Config, lastSeen: int, now: int) {
    lastSeen < now - c.ttl
  }

  function AfterSweep(c: Config, t: Table, now: int): Table {
    map key | key in t && !Stale(c, t[key].lastSeen, now) :: t[key]
  }

  // ---- The objects ----

  class Entry {
    var bucket: Bucket
    var lastSeen: int

    constructor (bucket: Bucket, lastSeen: int)
      ensures this.bucket == bucket && this.lastSeen == lastSeen
    {
      this.bucket := bucket;
      this.lastSeen := lastSeen;
    }

    method Touch(now: int)
      modifies this`lastSeen
      ensures lastSeen == now
    {
      lastSeen := now;
    }

    method Take(c: Config, now: int) returns (ok: bool)
      modifies this`bucket
      ensures ok == Granted(c, old(bucket), now)
      ensures bucket == TakeToken(c, old(bucket), now)
    {
      ok := Granted(c, bucket, now);
      bucket := TakeToken(c, bucket, now);
    }
  }

  class TokenBucketLimiter {
    var entries: map<string, Entry>
    const config: Config

    /** No entry is shared between keys. */
    ghost predicate Valid()
      reads this
    {
      forall key, key' :: key in entries && key' in entries && entries[key] == entries[key'] ==> key == key'
    }

    ghost function Contents(): Table
      reads this, entries.Values
    {
      map key | key in entries :: Slot(entries[key].bucket, entries[key].lastSeen)
    }

    constructor (unit: pos, rate: nat, burst: int)
      ensures Valid() && entries == map[]
      ensures config == Config(unit, rate, burst, 600_000_000_000)
    {
      entries := map[];
      config := Config(unit, rate, burst, TTL);
    }

    method GetOrCreate(key: string, now: int) returns (e: Entry)
      requires Valid()
      modifies this`entries
      ensures Valid()
      ensures key in entries && entries[key] == e
      ensures e in old(entries.Values) || fresh(e)
      ensures entries.Values <= old(entries.Values) + {e}
      ensures Contents() == WithEntry(config, old(Contents()), key, now)
    {
      if key in entries {
        return entries[key];
      }
      e := new Entry(Fresh(config, now), now);
      entries := entries[key := e];
    }

    method Allow(key: string, now: int) returns (ok: bool)
      requires Valid()
      modifies this`entries, entries.Values
      ensures Valid() && fresh(entries.Values - old(entries.Values))
      ensures ok == Admits(config, old(Contents()), key, now)
      ensures Contents() == AfterAllow(config, old(Contents()), key, now)
    {
      var e := GetOrCreate(key, now);
      ghost var entered := Contents();
      assert forall k :: k in entries && k != key ==> entries[k] != e;
      e.Touch(now);
      ok := e.Take(config, now);
      assert Contents() == entered[key := Slot(e.bucket, e.lastSeen)];
    }

    /** One sweep: visits the entries in any order and deletes the stale ones. */
    method EvictStale(now: int)
      requires Valid()
      modifies this`entries
      ensures Valid() && entries.Values <= old(entries.Values)
      ensures Contents() == AfterSweep(config, old(Contents()), now)
    {
      var cutoff := now - config.ttl;
      var todo := entries.Keys;
      ghost var before := entries;
      while todo != {}
        invariant todo <= entries.Keys <= before.Keys
        invariant forall key :: key in entries ==> entries[key] == before[key]
        invariant forall key :: key in before && key !in todo ==>
            (key in entries <==> !Stale(config, before[key].lastSeen, now))
        decreases todo
      {
        var key :| key in todo;
        todo := todo - {key};
        if entries[key].lastSeen < cutoff {
          entries := entries - {key};
        }
      }
    }
  }
}
