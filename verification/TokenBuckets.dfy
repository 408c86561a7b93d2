/** What the limiter assumes of the token bucket library it builds on: a bucket that starts full,
    refills lazily up to its capacity and gives out one token at a time.

    Time is an integer number of nanoseconds. Token levels are scaled: one token is `unit` level
    units and `rate` units flow in per nanosecond, so any rational rate is expressible exactly. */
module TokenBuckets {

  type pos = n: int | 0 < n witness 1

  datatype Config = Config(unit: pos, rate: nat, burst: int, ttl: nat)

  datatype Bucket = Bucket(tokens: int, last: int)

  /** A full bucket, in level units. A burst that is not positive holds nothing. */
  function Capacity(c: Config): nat {
    if c.burst > 0 then Scaled(c, c.burst) else 0
  }

  function Scaled(c: Config, tokens: nat): nat {
    tokens * c.unit
  }

  function Inflow(c: Config, d: int): int {
    c.rate * d
  }

  function Fresh(c: Config, now: int): Bucket {
    Bucket(Capacity(c), now)
  }

  function Min(x: int, y: int): int {
    if x <= y then x else y
  }

  /** The level a bucket has at time `now`, computed from its last update. */
  function Level(c: Config, b: Bucket, now: int): int {
    Min(Capacity(c), b.tokens + Inflow(c, now - b.last))
  }

  function Granted(c: Config, b: Bucket, now: int): bool {
    Level(c, b, now) >= c.unit
  }

  /** A refused take leaves the bucket alone, as the library does. */
  function TakeToken(c: Config, b: Bucket, now: int): Bucket {
    if Granted(c, b, now) then Bucket(Level(c, b, now) - c.unit, now) else b
  }

  predicate BucketOk(c: Config, b: Bucket, now: int) {
    0 <= b.tokens <= Capacity(c) && b.last <= now
  }

  lemma InflowAdds(c: Config, d: int, e: int)
    ensures Inflow(c, d + e) == Inflow(c, d) + Inflow(c, e)
  {
  }

  lemma InflowGrows(c: Config, d: int, e: int)
    requires d <= e
    ensures Inflow(c, d) <= Inflow(c, e)
  {
  }

  lemma LevelBounds(c: Config, b: Bucket, now: int)
    requires BucketOk(c, b, now)
    ensures 0 <= Level(c, b, now) <= Capacity(c)
  {
    InflowGrows(c, 0, now - b.last);
  }

  /** Lazy refilling is the same as continuous refilling: looking in between changes nothing. */
  lemma LevelLater(c: Config, b: Bucket, t: int, now: int)
    requires b.last <= t <= now
    ensures Level(c, b, now) == Min(Capacity(c), Level(c, b, t) + Inflow(c, now - t))
    ensures Level(c, b, t) <= Level(c, b, now)
  {
  }

  /** A take removes exactly one token when it is granted, nothing otherwise, and never overdraws. */
  lemma TakeLevel(c: Config, b: Bucket, now: int)
    requires BucketOk(c, b, now)
    ensures BucketOk(c, TakeToken(c, b, now), now)
    ensures Level(c, TakeToken(c, b, now), now)
         == Level(c, b, now) - (if Granted(c, b, now) then c.unit else 0)
  {
  }

  lemma ScaledAdds(c: Config, m: nat, n: nat)
    ensures Scaled(c, m + n) == Scaled(c, m) + Scaled(c, n)
  {
  }

  lemma ScaledGrows(c: Config, m: nat, n: nat)
    requires m <= n
    ensures Scaled(c, m) <= Scaled(c, n)
  {
  }
}
