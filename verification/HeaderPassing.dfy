/** Passing request headers on to gRPC metadata, with a decision cache that outlives the request
    (server/middleware.go). A header maps a canonical name to its values; a name with no values is as
    good as absent. */
module HeaderPassing {
  import opened Orders

  type Header = map<string, seq<string>>

  /** The prefix grpc-gateway gives to metadata headers. */
  const METADATA_PREFIX := "Grpc-Metadata-"

  function Prefixed(name: string): string {
    METADATA_PREFIX + name
  }

  /** The name that a prefixed name is made of. */
  function Source(name: string): string
    requires METADATA_PREFIX <= name
  {
    name[|METADATA_PREFIX|..]
  }

  lemma PrefixedIff(k: string, name: string)
    ensures Prefixed(k) == name <==> METADATA_PREFIX <= name && Source(name) == k
    ensures Prefixed(k) != k
  {
  }

  // ---- Header names, as net/textproto has them ----

  predicate IsUpper(c: char) { 'A' <= c <= 'Z' }
  predicate IsLower(c: char) { 'a' <= c <= 'z' }

  predicate NameChar(c: char) {
    IsUpper(c) || IsLower(c) || '0' <= c <= '9' || c in "!#$%&'*+-.^_`|~"
  }

  predicate NameChars(s: string) {
    forall i :: 0 <= i < |s| ==> NameChar(s[i])
  }

  function FixCase(c: char, upper: bool): char {
    if upper && IsLower(c) then (c as int - 32) as char
    else if !upper && IsUpper(c) then (c as int + 32) as char
    else c
  }

  /** Upper case at the start and after each hyphen, lower case elsewhere. */
  function FixedCase(s: string, upper: bool): (r: string)
    ensures |r| == |s|
  {
    if s == "" then "" else [FixCase(s[0], upper)] + FixedCase(s[1..], s[0] == '-')
  }

  /** A name with a character that names cannot have is left as it is. */
  function Canonical(name: string): string {
    if NameChars(name) then FixedCase(name, true) else name
  }

  lemma {:induction false} FixedAt(s: string, upper: bool, i: nat)
    requires i < |s|
    ensures FixedCase(s, upper)[i] == FixCase(s[i], if i == 0 then upper else s[i - 1] == '-')
  {
    if i > 0 { FixedAt(s[1..], s[0] == '-', i - 1); }
  }

  /** What the canonical form of a name is: the name itself when it has a character other than letters, digits and
      the punctuation that names can have. */
  lemma CanonicalOther(name: string)
    requires exists i :: 0 <= i < |name| && !('a' <= name[i] <= 'z') && !('A' <= name[i] <= 'Z')
                         && !('0' <= name[i] <= '9') && name[i] !in "!#$%&'*+-.^_`|~"
    ensures Canonical(name) == name
  {
  }

  /** Otherwise, letter by letter: upper case at the start and after a hyphen, lower case elsewhere, and all other
      characters as they are. */
  lemma CanonicalAt(name: string, i: nat)
    requires i < |name|
    requires forall j :: 0 <= j < |name| ==>
               'a' <= name[j] <= 'z' || 'A' <= name[j] <= 'Z' || '0' <= name[j] <= '9' || name[j] in "!#$%&'*+-.^_`|~"
    ensures |Canonical(name)| == |name|
    ensures var c := name[i] as int;
            var start := i == 0 || name[i - 1] == '-';
            Canonical(name)[i] as int
              == if start && 'a' as int <= c <= 'z' as int then c - 'a' as int + 'A' as int
                 else if !start && 'A' as int <= c <= 'Z' as int then c - 'A' as int + 'a' as int
                 else c
  {
    assert NameChars(name);
    FixedAt(name, true, i);
  }

  lemma PrefixFixed(i: nat)
    requires i < |METADATA_PREFIX|
    ensures FixCase(METADATA_PREFIX[i], i == 0 || METADATA_PREFIX[i - 1] == '-') == METADATA_PREFIX[i]
  {
  }

  lemma PrefixedFixed(name: string, i: nat)
    requires FixedCase(name, true) == name && i < |Prefixed(name)|
    ensures FixedCase(Prefixed(name), true)[i] == Prefixed(name)[i]
  {
    var p, n := Prefixed(name), |METADATA_PREFIX|;
    FixedAt(p, true, i);
    if i < n {
      PrefixFixed(i);
    } else {
      FixedAt(name, true, i - n);
      assert p[i] == name[i - n];
      assert p[n - 1] == '-';
      assert i > n ==> p[i - 1] == name[i - n - 1];
    }
  }

  /** Prefixing a canonical name gives a canonical name. */
  lemma PrefixedCanonical(name: string)
    requires Canonical(name) == name
    ensures Canonical(Prefixed(name)) == Prefixed(name)
  {
    var p := Prefixed(name);
    if NameChars(p) {
      assert NameChars(name) by {
        assert forall i :: 0 <= i < |name| ==> name[i] == p[|METADATA_PREFIX| + i];
      }
      forall i | 0 <= i < |p| ensures FixedCase(p, true)[i] == p[i] {
        PrefixedFixed(name, i);
      }
    }
  }

  // ---- The rule without a cache ----

  function Values(h: Header, name: string): seq<string> {
    if name in h then h[name] else []
  }

  /** Header.Add for each value. */
  function AddAll(h: Header, name: string, values: seq<string>): Header {
    if values == [] then h
    else
      var h' := AddAll(h, name, values[..|values| - 1]);
      h'[Canonical(name) := Values(h', Canonical(name)) + [values[|values| - 1]]]
  }

  /** A header is kept, and copied under the prefixed name when it is accepted. */
  function Visited(decide: string -> bool, h: Header, k: string, values: seq<string>): Header {
    if decide(k) then AddAll(AddAll(h, k, values), Prefixed(k), values) else AddAll(h, k, values)
  }

  /** The header made of the incoming one by visiting the first n names of the order. */
  function PassedFirst(decide: string -> bool, incoming: Header, order: seq<string>, n: nat): Header
    requires n <= |order|
  {
    if n == 0 then map[]
    else
      var k := order[n - 1];
      Visited(decide, PassedFirst(decide, incoming, order, n - 1), k, Values(incoming, k))
  }

  function Passed(decide: string -> bool, incoming: Header, order: seq<string>): Header {
    PassedFirst(decide, incoming, order, |order|)
  }

  lemma PassedNext(decide: string -> bool, incoming: Header, order: seq<string>, n: nat)
    requires n < |order|
    ensures PassedFirst(decide, incoming, order, n + 1)
         == Visited(decide, PassedFirst(decide, incoming, order, n), order[n], Values(incoming, order[n]))
  {
  }

  lemma {:induction false} PassedPrefix(decide: string -> bool, incoming: Header, front: seq<string>, k: string, n: nat)
    requires n <= |front|
    ensures PassedFirst(decide, incoming, front + [k], n) == PassedFirst(decide, incoming, front, n)
  {
    if n > 0 { PassedPrefix(decide, incoming, front, k, n - 1); }
  }

  lemma PassedStep(decide: string -> bool, incoming: Header, front: seq<string>, k: string)
    ensures Passed(decide, incoming, front + [k])
         == Visited(decide, Passed(decide, incoming, front), k, Values(incoming, k))
  {
    PassedPrefix(decide, incoming, front, k, |front|);
  }

  // ---- The middleware ----

  type Cache = map<string, string>

  /** The cache only ever says what the rule says. */
  ghost predicate CacheOk(decide: string -> bool, cache: Cache) {
    forall k :: k in cache ==> decide(k) && cache[k] == Prefixed(k)
  }

  method SetHeader(h: Header, name: string, values: seq<string>) returns (h': Header)
    ensures h' == AddAll(h, name, values)
  {
    h' := h;
    var i := 0;
    while i < |values|
      invariant i <= |values| && h' == AddAll(h, name, values[..i])
    {
      assert values[..i + 1][..i] == values[..i];
      var key := Canonical(name);
      h' := h'[key := (if key in h' then h'[key] else []) + [values[i]]];
      i := i + 1;
    }
    assert values[..i] == values;
  }

  /** A sound cache leads to the rule's header for the next name. */
  lemma HitOrMiss(decide: string -> bool, cache: Cache, h: Header, k: string, values: seq<string>)
    requires CacheOk(decide, cache)
    ensures k in cache ==> AddAll(AddAll(h, k, values), cache[k], values) == Visited(decide, h, k, values)
    ensures k !in cache && !decide(k) ==> AddAll(h, k, values) == Visited(decide, h, k, values)
  {
  }

  /** The cache after looking up and deciding on the first n names of the order. */
  function CacheFirst(decide: string -> bool, cache: Cache, order: seq<string>, n: nat): Cache
    requires n <= |order|
  {
    if n == 0 then cache else Gain(decide, CacheFirst(decide, cache, order, n - 1), order[n - 1])
  }

  function Gain(decide: string -> bool, cache: Cache, k: string): Cache {
    if k !in cache && decide(k) then cache[k := Prefixed(k)] else cache
  }

  lemma {:induction false} CacheStaysOk(decide: string -> bool, cache: Cache, order: seq<string>, n: nat)
    requires n <= |order| && CacheOk(decide, cache)
    ensures CacheOk(decide, CacheFirst(decide, cache, order, n))
  {
    if n > 0 { CacheStaysOk(decide, cache, order, n - 1); }
  }

  /** The cache gains the accepted names and stays sound. */
  lemma {:induction false} CacheGains(decide: string -> bool, cache: Cache, order: seq<string>, n: nat)
    requires n <= |order| && CacheOk(decide, cache)
    ensures CacheOk(decide, CacheFirst(decide, cache, order, n))
    ensures forall k :: k in CacheFirst(decide, cache, order, n) <==> k in cache || (k in order[..n] && decide(k))
  {
    if n > 0 {
      CacheGains(decide, cache, order, n - 1);
      assert order[..n] == order[..n - 1] + [order[n - 1]];
    }
  }

  class PassingHeaderMiddleware {
    var cache: Cache
    const decide: string -> bool

    ghost predicate Valid()
      reads this
    {
      CacheOk(decide, cache)
    }

    constructor (decide: string -> bool)
      ensures Valid() && this.decide == decide && cache == map[]
    {
      this.decide := decide;
      cache := map[];
    }

    /** What ServeHTTP does with one header. */
    method Pass(header: Header, k: string, v: seq<string>) returns (newHeader: Header)
      requires Valid()
      modifies this`cache
      ensures cache == Gain(decide, old(cache), k)
      ensures newHeader == Visited(decide, header, k, v)
    {
      HitOrMiss(decide, cache, header, k, v);
      newHeader := SetHeader(header, k, v);
      if k in cache {
        newHeader := SetHeader(newHeader, cache[k], v);
      } else if decide(k) {
        var prefixed := Prefixed(k);
        cache := cache[k := prefixed];
        newHeader := SetHeader(newHeader, prefixed, v);
      }
    }

    /** The header the next handler gets, when the incoming one is visited in the given order. */
    method ServeHTTP(incoming: Header, order: seq<string>) returns (header: Header)
      requires Valid() && VisitOrder(order, incoming.Keys)
      modifies this`cache
      ensures Valid()
      ensures forall k :: k in cache <==> k in old(cache) || (k in incoming && decide(k))
      ensures header == Passed(decide, incoming, order)
    {
      header := map[];
      var i := 0;
      while i < |order|
        invariant i <= |order|
        invariant cache == CacheFirst(decide, old(cache), order, i)
        invariant header == PassedFirst(decide, incoming, order, i)
      {
        CacheStaysOk(decide, old(cache), order, i);
        PassedNext(decide, incoming, order, i);
        header := Pass(header, order[i], incoming[order[i]]);
        i := i + 1;
      }
      CacheGains(decide, old(cache), order, i);
      assert order[..i] == order;
    }
  }

  // ---- Requests at the same time ----

  /** A request while its headers are visited: `done` names are through; when `storing`, the next one was
      kept, missed in the cache and accepted, and its entry is about to be stored. */
  datatype Request = Request(incoming: Header, order: seq<string>, done: nat, storing: bool, header: Header)

  /** The requests being served and the cache they share. */
  datatype Shared = Shared(cache: Cache, requests: map<nat, Request>)

  /** One operation on the shared cache and what the request goes on to do with the outcome. */
  datatype Move =
    | Arrive(r: nat, incoming: Header, order: seq<string>)
    | Load(r: nat)
    | Store(r: nat)

  ghost predicate WellFormed(q: Request) {
    VisitOrder(q.order, q.incoming.Keys) && q.done <= |q.order| && (q.storing ==> q.done < |q.order|)
  }

  function AfterLoad(decide: string -> bool, cache: Cache, q: Request): Request {
    if q.storing || q.done >= |q.order| || q.order[q.done] !in q.incoming then q
    else
      var k := q.order[q.done];
      var v := q.incoming[k];
      var kept := q.(header := AddAll(q.header, k, v));
      if k in cache then kept.(header := AddAll(kept.header, cache[k], v), done := q.done + 1)
      else if decide(k) then kept.(storing := true)
      else kept.(done := q.done + 1)
  }

  function AfterStore(cache: Cache, q: Request): (Cache, Request) {
    if !q.storing || q.done >= |q.order| || q.order[q.done] !in q.incoming then (cache, q)
    else
      var k := q.order[q.done];
      (cache[k := Prefixed(k)],
       q.(header := AddAll(q.header, Prefixed(k), q.incoming[k]), done := q.done + 1, storing := false))
  }

  /** A move that is not possible does nothing, so every schedule is a sequence of moves. */
  ghost function Moved(decide: string -> bool, s: Shared, m: Move): Shared {
    match m
    case Arrive(r, incoming, order) =>
      if r in s.requests || !VisitOrder(order, incoming.Keys) then s
      else s.(requests := s.requests[r := Request(incoming, order, 0, false, map[])])
    case Load(r) =>
      if r !in s.requests then s
      else s.(requests := s.requests[r := AfterLoad(decide, s.cache, s.requests[r])])
    case Store(r) =>
      if r !in s.requests then s
      else
        var (cache, q) := AfterStore(s.cache, s.requests[r]);
        Shared(cache, s.requests[r := q])
  }

  ghost function AfterMoves(decide: string -> bool, moves: seq<Move>): Shared {
    if moves == [] then Shared(map[], map[])
    else Moved(decide, AfterMoves(decide, moves[..|moves| - 1]), moves[|moves| - 1])
  }

  /** The header so far is the rule's for the names that are through, and the next one's own values. */
  ghost predicate Sound(decide: string -> bool, q: Request) {
    && WellFormed(q)
    && var passed := PassedFirst(decide, q.incoming, q.order, q.done);
       if q.storing then
         var k := q.order[q.done];
         decide(k) && q.header == AddAll(passed, k, q.incoming[k])
       else q.header == passed
  }

  lemma VisitedSound(decide: string -> bool, q: Request, q': Request)
    requires WellFormed(q) && q.done < |q.order| && q'.done == q.done + 1 && !q'.storing
    requires q'.incoming == q.incoming && q'.order == q.order
    requires q'.header == Visited(decide, PassedFirst(decide, q.incoming, q.order, q.done), q.order[q.done],
                                  Values(q.incoming, q.order[q.done]))
    ensures Sound(decide, q')
  {
    PassedNext(decide, q.incoming, q.order, q.done);
  }

  lemma LoadKeeps(decide: string -> bool, cache: Cache, q: Request)
    requires CacheOk(decide, cache) && Sound(decide, q)
    ensures Sound(decide, AfterLoad(decide, cache, q))
  {
    if !q.storing && q.done < |q.order| {
      var k := q.order[q.done];
      assert k in q.incoming;
      if k in cache || !decide(k) {
        HitOrMiss(decide, cache, q.header, k, Values(q.incoming, k));
        VisitedSound(decide, q, AfterLoad(decide, cache, q));
      }
    }
  }

  lemma StoreKeeps(decide: string -> bool, cache: Cache, q: Request)
    requires CacheOk(decide, cache) && Sound(decide, q)
    ensures var (cache', q') := AfterStore(cache, q); CacheOk(decide, cache') && Sound(decide, q')
  {
    if q.storing { VisitedSound(decide, q, AfterStore(cache, q).1); }
  }

  /** The accepted names that the request is through with are in the cache. */
  ghost predicate Learned(decide: string -> bool, cache: Cache, q: Request) {
    forall j :: 0 <= j < q.done && j < |q.order| && decide(q.order[j]) ==> q.order[j] in cache
  }

  lemma LearnedOn(decide: string -> bool, cache: Cache, q: Request)
    requires Learned(decide, cache, q)
    ensures Learned(decide, cache, AfterLoad(decide, cache, q))
    ensures var (cache', q') := AfterStore(cache, q);
            cache.Keys <= cache'.Keys && Learned(decide, cache', q')
  {
  }

  /** A load and a store bring a request that is not through one name further. */
  lemma Progress(decide: string -> bool, cache: Cache, cache': Cache, q: Request)
    requires WellFormed(q) && !q.storing && q.done < |q.order|
    ensures var q' := AfterStore(cache', AfterLoad(decide, cache, q)).1;
            q'.done == q.done + 1 && !q'.storing && q'.order == q.order && q'.incoming == q.incoming
  {
  }

  ghost predicate AllSound(decide: string -> bool, s: Shared) {
    && CacheOk(decide, s.cache)
    && (forall r :: r in s.requests ==> Sound(decide, s.requests[r]) && Learned(decide, s.cache, s.requests[r]))
  }

  lemma MoveKeeps(decide: string -> bool, s: Shared, m: Move)
    requires AllSound(decide, s)
    ensures AllSound(decide, Moved(decide, s, m))
  {
    if m.r in s.requests {
      LearnedOn(decide, s.cache, s.requests[m.r]);
      LoadKeeps(decide, s.cache, s.requests[m.r]);
      StoreKeeps(decide, s.cache, s.requests[m.r]);
    }
  }

  /** However the cache operations of any number of requests are interleaved, the cache only ever says what
      the rule says, it has the accepted names that any request is through with, and every request that is all
      through has the header of the rule without a cache. */
  lemma {:induction false} CacheInvisible(decide: string -> bool, moves: seq<Move>)
    ensures var s := AfterMoves(decide, moves);
            && CacheOk(decide, s.cache)
            && (forall r :: r in s.requests ==> Sound(decide, s.requests[r]) && Learned(decide, s.cache, s.requests[r]))
            && (forall r :: r in s.requests && s.requests[r].done == |s.requests[r].order| ==>
                  s.requests[r].header == Passed(decide, s.requests[r].incoming, s.requests[r].order))
  {
    if moves != [] {
      CacheInvisible(decide, moves[..|moves| - 1]);
      MoveKeeps(decide, AfterMoves(decide, moves[..|moves| - 1]), moves[|moves| - 1]);
    }
    var s := AfterMoves(decide, moves);
    forall r | r in s.requests && s.requests[r].done == |s.requests[r].order|
      ensures s.requests[r].header == Passed(decide, s.requests[r].incoming, s.requests[r].order)
    {
      assert Sound(decide, s.requests[r]);
    }
  }

  // ---- What the rule gives ----

  /** What visiting a name adds to the values of `name`. */
  function Contribution(decide: string -> bool, incoming: Header, name: string): string -> seq<string> {
    k => (if Canonical(k) == name then Values(incoming, k) else [])
         + (if decide(k) && Canonical(Prefixed(k)) == name then Values(incoming, k) else [])
  }

  lemma {:induction false} AddAllValues(h: Header, key: string, values: seq<string>, name: string)
    ensures Values(AddAll(h, key, values), name) == Values(h, name) + (if Canonical(key) == name then values else [])
  {
    if values != [] {
      var front, v := values[..|values| - 1], values[|values| - 1];
      AddAllValues(h, key, front, name);
      AddedOne(h, AddAll(h, key, front), Canonical(key), front, v, name);
      assert values == front + [v];
    }
  }

  lemma AddedOne(h: Header, h': Header, key: string, front: seq<string>, v: string, name: string)
    requires Values(h', name) == Values(h, name) + (if key == name then front else [])
    ensures Values(h'[key := Values(h', key) + [v]], name)
         == Values(h, name) + (if key == name then front + [v] else [])
  {
  }

  /** Visiting one name adds its contribution. */
  lemma VisitedValues(decide: string -> bool, incoming: Header, h: Header, k: string, name: string)
    ensures Values(Visited(decide, h, k, Values(incoming, k)), name)
         == Values(h, name) + Contribution(decide, incoming, name)(k)
  {
    var v := Values(incoming, k);
    var own := if Canonical(k) == name then v else [];
    var copied := if decide(k) && Canonical(Prefixed(k)) == name then v else [];
    AddAllValues(h, k, v, name);
    AddAllValues(AddAll(h, k, v), Prefixed(k), v, name);
    assert Values(Visited(decide, h, k, v), name) == (Values(h, name) + own) + copied;
    Associative(Values(h, name), own, copied);
    assert Contribution(decide, incoming, name)(k) == own + copied;
  }

  /** What the values of a name are after visiting the names in `order`. */
  ghost predicate Gathers(decide: string -> bool, incoming: Header, order: seq<string>, name: string) {
    Values(Passed(decide, incoming, order), name) == Gathered(order, Contribution(decide, incoming, name))
  }

  lemma MoreValues(decide: string -> bool, incoming: Header, front: seq<string>, k: string, name: string)
    requires Gathers(decide, incoming, front, name)
    ensures Gathers(decide, incoming, front + [k], name)
  {
    PassedStep(decide, incoming, front, k);
    VisitedValues(decide, incoming, Passed(decide, incoming, front), k, name);
    GatheredStep(front, Contribution(decide, incoming, name), k);
  }

  /** The values of a name are what the names visited contribute, in the order of the visit. */
  lemma PassedValues(decide: string -> bool, incoming: Header, order: seq<string>, name: string)
    ensures Gathers(decide, incoming, order, name)
  {
    forall front: seq<string>, k | Gathers(decide, incoming, front, name)
      ensures Gathers(decide, incoming, front + [k], name)
    {
      MoreValues(decide, incoming, front, k, name);
    }
    BuiltUp(visited => Gathers(decide, incoming, visited, name), order);
  }

  /** The values of each name, as a multiset, are the same for every order of visiting the names: each
      incoming header once under its own name, and once more prefixed when it is accepted. */
  lemma OrderInvisible(decide: string -> bool, incoming: Header, order: seq<string>, order': seq<string>, name: string)
    requires VisitOrder(order, incoming.Keys) && VisitOrder(order', incoming.Keys)
    ensures multiset(Values(Passed(decide, incoming, order), name))
         == multiset(Values(Passed(decide, incoming, order'), name))
    ensures Values(Passed(decide, incoming, order), name) == Gathered(order, Contribution(decide, incoming, name))
  {
    PassedValues(decide, incoming, order, name);
    PassedValues(decide, incoming, order', name);
    GatheredSame(incoming.Keys, order, order', Contribution(decide, incoming, name));
  }

  // ---- Canonical incoming names ----

  /** Incoming names are canonical, as net/http makes them. */
  ghost predicate CanonicalNames(incoming: Header) {
    forall k :: k in incoming ==> Canonical(k) == k
  }

  /** The name that `name` is the prefixed form of, when there is an accepted one. */
  predicate IsCopy(decide: string -> bool, keys: set<string>, name: string) {
    METADATA_PREFIX <= name && Source(name) in keys && decide(Source(name))
  }

  /** The values that came in under the name itself. */
  function Own(incoming: Header, keys: set<string>, name: string): seq<string>
    requires keys <= incoming.Keys
  {
    if name in keys then incoming[name] else []
  }

  /** The values copied to the name. */
  function Copied(decide: string -> bool, incoming: Header, keys: set<string>, name: string): seq<string>
    requires keys <= incoming.Keys
  {
    if IsCopy(decide, keys, name) then incoming[Source(name)] else []
  }

  lemma ContributionIs(decide: string -> bool, incoming: Header, name: string, k: string)
    requires Canonical(k) == k
    ensures Contribution(decide, incoming, name)(k)
         == if k == name || (Prefixed(k) == name && decide(k)) then Values(incoming, k) else []
  {
    PrefixedCanonical(k);
    PrefixedIff(k, name);
  }

  lemma LastVisited(decide: string -> bool, incoming: Header, front: seq<string>, k: string, name: string)
    requires CanonicalNames(incoming) && k in incoming
    ensures Values(Passed(decide, incoming, front + [k]), name) == Values(Passed(decide, incoming, front), name)
              + (if k == name || (Prefixed(k) == name && decide(k)) then incoming[k] else [])
  {
    PassedStep(decide, incoming, front, k);
    VisitedValues(decide, incoming, Passed(decide, incoming, front), k, name);
    ContributionIs(decide, incoming, name, k);
  }

  /** How the last name of a visit enters into the two parts of a name's values. */
  lemma PartsWithout(decide: string -> bool, incoming: Header, keys: set<string>, k: string, name: string)
    requires keys <= incoming.Keys && k in keys
    ensures Own(incoming, keys, name) == if k == name then incoming[k] else Own(incoming, keys - {k}, name)
    ensures Copied(decide, incoming, keys, name)
         == if Prefixed(k) == name && decide(k) then incoming[k] else Copied(decide, incoming, keys - {k}, name)
    ensures k == name ==> Own(incoming, keys - {k}, name) == [] && Prefixed(k) != name
    ensures Prefixed(k) == name ==> Copied(decide, incoming, keys - {k}, name) == []
  {
  }

  predicate EitherWay(values: seq<string>, own: seq<string>, copied: seq<string>) {
    values == own + copied || values == copied + own
  }

  lemma OnePart(values: seq<string>, part: seq<string>, added: seq<string>)
    requires EitherWay(values, [], part) || EitherWay(values, part, [])
    ensures values == part
    ensures EitherWay(values + added, added, part) && EitherWay(values + added, part, added)
  {
  }

  /** One prefixed copy of each accepted header beside the originals, and nothing else: a name has its
      own values and those copied to it, one after the other. */
  lemma {:induction false} OwnAndCopied(decide: string -> bool, incoming: Header, keys: set<string>,
                                         order: seq<string>, name: string)
    requires CanonicalNames(incoming) && VisitOrder(order, keys) && keys <= incoming.Keys
    ensures EitherWay(Values(Passed(decide, incoming, order), name),
                      Own(incoming, keys, name), Copied(decide, incoming, keys, name))
    decreases |order|, 0
  {
    if order == [] {
      assert keys == {} by { assert forall k :: k in keys ==> k in order; }
    } else {
      var n := |order| - 1;
      var front, k := order[..n], order[n];
      VisitWithout(order, keys, n);
      assert Without(order, n) == front && order == front + [k];
      LastStep(decide, incoming, keys, front, k, name);
    }
  }

  lemma LastStep(decide: string -> bool, incoming: Header, keys: set<string>, front: seq<string>, k: string,
                 name: string)
    requires CanonicalNames(incoming) && keys <= incoming.Keys
    requires k in keys && VisitOrder(front, keys - {k})
    ensures EitherWay(Values(Passed(decide, incoming, front + [k]), name),
                      Own(incoming, keys, name), Copied(decide, incoming, keys, name))
    ensures var values := Values(Passed(decide, incoming, front + [k]), name);
            var own, copied := Own(incoming, keys, name), Copied(decide, incoming, keys, name);
            && (k == name ==> values == copied + own)
            && (Prefixed(k) == name && decide(k) ==> values == own + copied)
    decreases |front|, 1
  {
    OwnAndCopied(decide, incoming, keys - {k}, front, name);
    LastVisited(decide, incoming, front, k, name);
    PartsWithout(decide, incoming, keys, k, name);
    var values := Values(Passed(decide, incoming, front), name);
    if k == name {
      OnePart(values, Copied(decide, incoming, keys, name), incoming[k]);
    } else if Prefixed(k) == name && decide(k) {
      OnePart(values, Own(incoming, keys, name), incoming[k]);
    } else {
      assert values + [] == values;
    }
  }

  /** The same spelled out: a name has the values that came in under it and those that came in under an accepted
      name that it is the prefixed form of, each once, one after the other, and no others. */
  lemma PassedIs(decide: string -> bool, incoming: Header, order: seq<string>, name: string)
    requires CanonicalNames(incoming) && VisitOrder(order, incoming.Keys)
    ensures var h := Passed(decide, incoming, order);
            var values := if name in h then h[name] else [];
            var own := if name in incoming then incoming[name] else [];
            && (forall k :: k in incoming && decide(k) && "Grpc-Metadata-" + k == name ==>
                  values == own + incoming[k] || values == incoming[k] + own)
            && ((forall k :: k in incoming && decide(k) ==> "Grpc-Metadata-" + k != name) ==> values == own)
  {
    OwnAndCopied(decide, incoming, incoming.Keys, order, name);
    var own, copied := Own(incoming, incoming.Keys, name), Copied(decide, incoming, incoming.Keys, name);
    assert own + [] == own && [] + own == own;
    forall k | k in incoming && decide(k) && "Grpc-Metadata-" + k == name ensures copied == incoming[k] {
      PrefixedIff(k, name);
    }
    if IsCopy(decide, incoming.Keys, name) { PrefixedIff(Source(name), name); }
  }

  /** Values keep their order when no incoming name is the prefixed form of an accepted one. */
  lemma ValuesInOrder(decide: string -> bool, incoming: Header, order: seq<string>, k: string)
    requires CanonicalNames(incoming) && VisitOrder(order, incoming.Keys) && k in incoming
    requires forall k' :: k' in incoming && decide(k') ==> Prefixed(k') !in incoming
    ensures Values(Passed(decide, incoming, order), k) == incoming[k]
    ensures decide(k) ==> Values(Passed(decide, incoming, order), "Grpc-Metadata-" + k) == incoming[k]
    ensures !decide(k) ==>
              Values(Passed(decide, incoming, order), "Grpc-Metadata-" + k) == Values(incoming, "Grpc-Metadata-" + k)
  {
    OwnAndCopied(decide, incoming, incoming.Keys, order, k);
    OwnAndCopied(decide, incoming, incoming.Keys, order, Prefixed(k));
    PrefixedIff(k, Prefixed(k));
    if METADATA_PREFIX <= k { PrefixedIff(Source(k), k); }
  }

  ghost predicate ValueOrderFixed(decide: string -> bool, incoming: Header, name: string) {
    forall order, order' :: VisitOrder(order, incoming.Keys) && VisitOrder(order', incoming.Keys) ==>
      Values(Passed(decide, incoming, order), name) == Values(Passed(decide, incoming, order'), name)
  }

  /** A name's values come in the same order for every iteration exactly when its own values and those
      copied to it commute, in particular when one of the two is missing. */
  lemma ValueOrderFixedIff(decide: string -> bool, incoming: Header, name: string)
    requires CanonicalNames(incoming)
    ensures ValueOrderFixed(decide, incoming, name) <==>
              var own, copied := Own(incoming, incoming.Keys, name), Copied(decide, incoming, incoming.Keys, name);
              own + copied == copied + own
  {
    var keys := incoming.Keys;
    var own, copied := Own(incoming, keys, name), Copied(decide, incoming, keys, name);
    if own + copied == copied + own {
      forall order, order' | VisitOrder(order, keys) && VisitOrder(order', keys)
        ensures Values(Passed(decide, incoming, order), name) == Values(Passed(decide, incoming, order'), name)
      {
        OwnAndCopied(decide, incoming, keys, order, name);
        OwnAndCopied(decide, incoming, keys, order', name);
      }
    } else {
      assert own + [] == own && copied + [] == copied && [] + own == own && [] + copied == copied;
      var order := OwnLast(decide, incoming, name);
      var order' := CopyLast(decide, incoming, name);
    }
  }

  /** A visit in which a name's own values come last. */
  lemma OwnLast(decide: string -> bool, incoming: Header, name: string) returns (order: seq<string>)
    requires CanonicalNames(incoming) && name in incoming
    ensures VisitOrder(order, incoming.Keys)
    ensures Values(Passed(decide, incoming, order), name)
         == Copied(decide, incoming, incoming.Keys, name) + Own(incoming, incoming.Keys, name)
  {
    var front := OrderEndingWith(incoming.Keys, name);
    order := front + [name];
    LastStep(decide, incoming, incoming.Keys, front, name, name);
  }

  /** A visit in which the values copied to a name come last. */
  lemma CopyLast(decide: string -> bool, incoming: Header, name: string) returns (order: seq<string>)
    requires CanonicalNames(incoming) && IsCopy(decide, incoming.Keys, name)
    ensures VisitOrder(order, incoming.Keys)
    ensures Values(Passed(decide, incoming, order), name)
         == Own(incoming, incoming.Keys, name) + Copied(decide, incoming, incoming.Keys, name)
  {
    var k := Source(name);
    var front := OrderEndingWith(incoming.Keys, k);
    order := front + [k];
    PrefixedIff(k, name);
    LastStep(decide, incoming, incoming.Keys, front, k, name);
  }
}
