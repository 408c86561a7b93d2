/** The deduplication functions of collection/collection.go. Where the source iterates over a map the
    methods pick the keys in any order. */
module Collections {
  import opened Orders
  import opened SlicesSort

  // ---- The first element of each key ----

  predicate HasKey<E, K(==)>(s: seq<E>, key: E -> K, k: K) {
    exists i :: 0 <= i < |s| && key(s[i]) == k
  }

  /** What is left of `s` when every element whose key was seen before is dropped. */
  function FirstByKey<E, K(==)>(s: seq<E>, key: E -> K): seq<E> {
    if s == [] then []
    else
      var front, e := s[..|s| - 1], s[|s| - 1];
      FirstByKey(front, key) + (if HasKey(front, key, key(e)) then [] else [e])
  }

  /** The same for elements that are their own key. */
  function FirstOccurrences<E(==)>(s: seq<E>): seq<E> {
    if s == [] then []
    else
      var front, e := s[..|s| - 1], s[|s| - 1];
      FirstOccurrences(front) + (if e in front then [] else [e])
  }

  function Keep<E>(s: seq<E>, p: E -> bool): seq<E> {
    if s == [] then [] else Keep(s[..|s| - 1], p) + (if p(s[|s| - 1]) then [s[|s| - 1]] else [])
  }

  function Keys<E, K>(s: seq<E>, key: E -> K): seq<K> {
    seq(|s|, i requires 0 <= i < |s| => key(s[i]))
  }

  /** Position i holds the first element of its key. */
  predicate IsFirst<E, K(==)>(s: seq<E>, key: E -> K, i: nat)
    requires i < |s|
  {
    forall j :: 0 <= j < i ==> key(s[j]) != key(s[i])
  }

  /** `at` lists, in order, exactly the positions that hold the first element of their key, and r has
      those elements. */
  ghost predicate FirstsAt<E, K>(s: seq<E>, key: E -> K, r: seq<E>, at: seq<nat>) {
    && |at| == |r|
    && (forall j :: 0 <= j < |at| ==> at[j] < |s| && IsFirst(s, key, at[j]) && r[j] == s[at[j]])
    && (forall j, l :: 0 <= j < l < |at| ==> at[j] < at[l])
    && (forall i :: 0 <= i < |s| && IsFirst(s, key, i) ==> i in at)
  }

  lemma {:induction false} FirstByKeyIs<E, K>(s: seq<E>, key: E -> K) returns (at: seq<nat>)
    ensures FirstsAt(s, key, FirstByKey(s, key), at)
  {
    at := [];
    if s != [] {
      var n := |s| - 1;
      var front := FirstByKeyIs(s[..n], key);
      at := FirstsStep(s[..n], key, s[n], front);
      assert s == s[..n] + [s[n]];
    }
  }

  lemma FirstsStep<E, K>(s: seq<E>, key: E -> K, e: E, at: seq<nat>) returns (at': seq<nat>)
    requires FirstsAt(s, key, FirstByKey(s, key), at)
    ensures FirstsAt(s + [e], key, FirstByKey(s + [e], key), at')
  {
    assert (s + [e])[..|s|] == s;
    if HasKey(s, key, key(e)) {
      at' := at;
      OldKey(s, key, e, FirstByKey(s, key), at);
    } else {
      at' := at + [|s|];
      NewKey(s, key, e, FirstByKey(s, key), at);
    }
  }

  lemma StaysFirst<E, K>(s: seq<E>, key: E -> K, e: E, i: nat)
    requires i < |s|
    ensures IsFirst(s + [e], key, i) == IsFirst(s, key, i)
  {
    assert forall j :: 0 <= j <= i ==> (s + [e])[j] == s[j];
  }

  lemma LastIsFirst<E, K>(s: seq<E>, key: E -> K, e: E)
    ensures IsFirst(s + [e], key, |s|) <==> !HasKey(s, key, key(e))
  {
    var t := s + [e];
    assert t[|s|] == e && forall j :: 0 <= j < |s| ==> t[j] == s[j];
    if HasKey(s, key, key(e)) {
      var j :| 0 <= j < |s| && key(s[j]) == key(e);
      assert key(t[j]) == key(t[|s|]);
    }
  }

  lemma OldKey<E, K>(s: seq<E>, key: E -> K, e: E, r: seq<E>, at: seq<nat>)
    requires FirstsAt(s, key, r, at) && HasKey(s, key, key(e))
    ensures FirstsAt(s + [e], key, r, at)
  {
    forall i | 0 <= i < |s| ensures IsFirst(s + [e], key, i) == IsFirst(s, key, i) { StaysFirst(s, key, e, i); }
    LastIsFirst(s, key, e);
  }

  lemma NewKey<E, K>(s: seq<E>, key: E -> K, e: E, r: seq<E>, at: seq<nat>)
    requires FirstsAt(s, key, r, at) && !HasKey(s, key, key(e))
    ensures FirstsAt(s + [e], key, r + [e], at + [|s|])
  {
    var t, at' := s + [e], at + [|s|];
    forall i | 0 <= i < |s| ensures IsFirst(t, key, i) == IsFirst(s, key, i) { StaysFirst(s, key, e, i); }
    LastIsFirst(s, key, e);
    forall i | 0 <= i < |t| && IsFirst(t, key, i) ensures i in at' {
      if i < |s| { assert i in at; } else { assert at'[|at|] == i; }
    }
  }

  /** The elements kept have different keys. */
  lemma FirstKeysDistinct<E, K>(s: seq<E>, key: E -> K)
    ensures Distinct(Keys(FirstByKey(s, key), key))
  {
    var at := FirstByKeyIs(s, key);
    var r := FirstByKey(s, key);
    forall j, l | 0 <= j < l < |r| ensures Keys(r, key)[j] != Keys(r, key)[l] {
      assert IsFirst(s, key, at[l]);
    }
  }

  /** There is one for each key. */
  lemma FirstHasKey<E, K>(s: seq<E>, key: E -> K, k: K)
    ensures HasKey(FirstByKey(s, key), key, k) <==> HasKey(s, key, k)
  {
    var at := FirstByKeyIs(s, key);
    var r := FirstByKey(s, key);
    if HasKey(s, key, k) {
      var i := FirstWith(s, key, k);
      var j :| 0 <= j < |at| && at[j] == i;
      assert key(r[j]) == k;
    }
    if j :| 0 <= j < |r| && key(r[j]) == k {
      assert key(s[at[j]]) == k;
    }
  }

  /** And each is the first of its key. */
  lemma FirstElement<E, K>(s: seq<E>, key: E -> K, e: E) returns (i: nat)
    requires e in FirstByKey(s, key)
    ensures i < |s| && s[i] == e && IsFirst(s, key, i)
  {
    var at := FirstByKeyIs(s, key);
    var j :| 0 <= j < |at| && FirstByKey(s, key)[j] == e;
    i := at[j];
  }

  lemma {:induction false} FirstWith<E, K>(s: seq<E>, key: E -> K, k: K) returns (i: nat)
    requires HasKey(s, key, k)
    ensures i < |s| && key(s[i]) == k && IsFirst(s, key, i)
  {
    i :| i < |s| && key(s[i]) == k;
    if !IsFirst(s, key, i) {
      var j :| 0 <= j < i && key(s[j]) == key(s[i]);
      assert key(s[..i][j]) == k;
      i := FirstWith(s[..i], key, k);
    }
  }

  lemma {:induction false} DistinctKeysKept<E, K>(s: seq<E>, key: E -> K)
    requires Distinct(Keys(s, key))
    ensures FirstByKey(s, key) == s
  {
    if s != [] {
      var front, e := s[..|s| - 1], s[|s| - 1];
      assert s == front + [e];
      NewKeyKept(front, key, e);
      DistinctKeysKept(front, key);
    }
  }

  lemma NewKeyKept<E, K>(front: seq<E>, key: E -> K, e: E)
    requires Distinct(Keys(front + [e], key))
    ensures Distinct(Keys(front, key))
    ensures FirstByKey(front + [e], key) == FirstByKey(front, key) + [e]
  {
    var s := front + [e];
    assert s[..|front|] == front;
    assert forall i :: 0 <= i < |front| ==> Keys(front, key)[i] == Keys(s, key)[i];
    forall i | 0 <= i < |front| ensures key(front[i]) != key(e) {
      assert Keys(s, key)[i] != Keys(s, key)[|front|];
    }
  }

  /** Deduplicating twice changes nothing. */
  lemma DeduplicateIdempotent<E, K>(s: seq<E>, key: E -> K)
    ensures FirstByKey(FirstByKey(s, key), key) == FirstByKey(s, key)
  {
    FirstKeysDistinct(s, key);
    DistinctKeysKept(FirstByKey(s, key), key);
  }

  lemma {:induction false} KeepElements<E(!new)>(s: seq<E>, p: E -> bool)
    ensures forall e :: e in Keep(s, p) <==> e in s && p(e)
  {
    if s != [] {
      KeepElements(s[..|s| - 1], p);
      assert s == s[..|s| - 1] + [s[|s| - 1]];
    }
  }

  /** `at` lists, in order, exactly the positions that hold an accepted element, and r has those elements. */
  ghost predicate KeptAt<E>(s: seq<E>, p: E -> bool, r: seq<E>, at: seq<nat>) {
    && |at| == |r|
    && (forall j :: 0 <= j < |at| ==> at[j] < |s| && p(s[at[j]]) && r[j] == s[at[j]])
    && (forall j, l :: 0 <= j < l < |at| ==> at[j] < at[l])
    && (forall i :: 0 <= i < |s| && p(s[i]) ==> i in at)
  }

  /** What is kept is the subsequence, in input order, of exactly the accepted elements. */
  lemma {:induction false} KeepIs<E>(s: seq<E>, p: E -> bool) returns (at: seq<nat>)
    ensures KeptAt(s, p, Keep(s, p), at)
  {
    at := [];
    if s != [] {
      var front, e := s[..|s| - 1], s[|s| - 1];
      assert s == front + [e];
      at := KeepIs(front, p);
      KeepStep(front, e, p);
      if p(e) {
        KeptAlso(front, p, Keep(front, p), at, e);
        at := at + [|front|];
      } else {
        KeptStill(front, p, Keep(front, p), at, e);
      }
    }
  }

  lemma KeptAlso<E>(s: seq<E>, p: E -> bool, r: seq<E>, at: seq<nat>, e: E)
    requires KeptAt(s, p, r, at) && p(e)
    ensures KeptAt(s + [e], p, r + [e], at + [|s|])
  {
    var t, at' := s + [e], at + [|s|];
    forall i | 0 <= i < |t| && p(t[i]) ensures i in at' {
      if i < |s| { assert i in at; } else { assert at'[|at|] == i; }
    }
  }

  lemma KeptStill<E>(s: seq<E>, p: E -> bool, r: seq<E>, at: seq<nat>, e: E)
    requires KeptAt(s, p, r, at) && !p(e)
    ensures KeptAt(s + [e], p, r, at)
  {
    var t := s + [e];
    forall i | 0 <= i < |t| && p(t[i]) ensures i in at { assert t[i] == s[i]; }
  }

  lemma FirstOccurrencesStep<E>(s: seq<E>, e: E)
    ensures FirstOccurrences(s + [e]) == if e in s then FirstOccurrences(s) else FirstOccurrences(s) + [e]
  {
  }

  lemma KeepStep<E>(s: seq<E>, e: E, p: E -> bool)
    ensures Keep(s + [e], p) == if p(e) then Keep(s, p) + [e] else Keep(s, p)
  {
  }

  /** Excluding elements and dropping repetitions can be done in either order. */
  lemma {:induction false} KeepFirstCommute<E(!new)>(s: seq<E>, p: E -> bool)
    ensures FirstOccurrences(Keep(s, p)) == Keep(FirstOccurrences(s), p)
  {
    if s != [] {
      var front, e := s[..|s| - 1], s[|s| - 1];
      assert s == front + [e];
      KeepFirstCommute(front, p);
      KeepElements(front, p);
      KeepStep(front, e, p);
      FirstOccurrencesStep(front, e);
      if p(e) {
        FirstOccurrencesStep(Keep(front, p), e);
      }
      if e !in front {
        KeepStep(FirstOccurrences(front), e, p);
      }
    }
  }

  lemma {:induction false} FirstOccurrencesElements<E(!new)>(s: seq<E>)
    ensures Distinct(FirstOccurrences(s)) && SameElements(FirstOccurrences(s), s)
  {
    if s != [] {
      var front := s[..|s| - 1];
      FirstOccurrencesElements(front);
      assert s == front + [s[|s| - 1]];
    }
  }

  /** Deduplicating elements is deduplicating objects by a key that tells all elements apart. */
  lemma {:induction false} FirstOccurrencesByKey<E(!new), K>(s: seq<E>, key: E -> K)
    requires forall x, y :: key(x) == key(y) ==> x == y
    ensures FirstOccurrences(s) == FirstByKey(s, key)
  {
    if s != [] {
      var front, e := s[..|s| - 1], s[|s| - 1];
      FirstOccurrencesByKey(front, key);
      if e in front {
        var i :| 0 <= i < |front| && front[i] == e;
        assert key(front[i]) == key(e);
      }
    }
  }

  lemma {:induction false} DistinctStays<E>(s: seq<E>)
    requires Distinct(s)
    ensures FirstOccurrences(s) == s
  {
    if s != [] {
      var front, e := s[..|s| - 1], s[|s| - 1];
      DistinctStays(front);
      assert s == front + [e];
    }
  }

  lemma {:induction false} KeptStays<E>(s: seq<E>, p: E -> bool)
    requires forall i :: 0 <= i < |s| ==> p(s[i])
    ensures Keep(s, p) == s
  {
    if s != [] {
      var front, e := s[..|s| - 1], s[|s| - 1];
      KeptStays(front, p);
      assert s == front + [e];
    }
  }

  /** Excluding and deduplicating twice changes nothing. */
  lemma RemoveIdempotent<E(!new)>(s: seq<E>, p: E -> bool)
    ensures var once := FirstOccurrences(Keep(s, p));
            FirstOccurrences(Keep(once, p)) == once
  {
    var once := FirstOccurrences(Keep(s, p));
    KeepElements(s, p);
    FirstOccurrencesElements(Keep(s, p));
    assert forall i :: 0 <= i < |once| ==> once[i] in once;
    KeptStays(once, p);
    DistinctStays(once);
  }

  // ---- The functions ----

  method DeduplicateSliceOfObject<E, K(==)>(s: seq<E>, key: E -> K) returns (result: seq<E>)
    ensures result == FirstByKey(s, key)
  {
    var seen: set<K> := {};
    result := [];
    var i := 0;
    while i < |s|
      invariant i <= |s|
      invariant forall k :: k in seen ==> HasKey(s[..i], key, k)
      invariant forall j :: 0 <= j < i ==> key(s[j]) in seen
      invariant result == FirstByKey(s[..i], key)
    {
      var k := key(s[i]);
      assert s[..i + 1][..i] == s[..i];
      forall k' | k' in seen + {k} ensures HasKey(s[..i + 1], key, k') {
        if k' in seen {
          var j :| 0 <= j < i && key(s[..i][j]) == k';
          assert s[..i + 1][j] == s[..i][j];
        } else {
          assert key(s[..i + 1][i]) == k';
        }
      }
      if k !in seen {
        seen := seen + {k};
        result := result + [s[i]];
      }
      i := i + 1;
    }
    assert s[..i] == s;
  }

  method DeduplicateSlice<E(==)>(s: seq<E>) returns (result: seq<E>)
    ensures result == FirstOccurrences(s)
  {
    var seen: set<E> := {};
    result := [];
    var i := 0;
    while i < |s|
      invariant i <= |s|
      invariant forall e :: e in seen ==> e in s[..i]
      invariant forall e :: e in s[..i] ==> e in seen
      invariant result == FirstOccurrences(s[..i])
    {
      assert s[..i + 1][..i] == s[..i] && s[..i + 1] == s[..i] + [s[i]];
      if s[i] !in seen {
        seen := seen + {s[i]};
        result := result + [s[i]];
      }
      i := i + 1;
    }
    assert s[..i] == s;
  }

  method FilterSlice<E>(s: seq<E>, keep: E -> bool) returns (result: seq<E>)
    ensures result == Keep(s, keep)
  {
    result := [];
    var i := 0;
    while i < |s|
      invariant i <= |s| && result == Keep(s[..i], keep)
    {
      assert s[..i + 1][..i] == s[..i];
      if keep(s[i]) {
        result := result + [s[i]];
      }
      i := i + 1;
    }
    assert s[..i] == s;
  }

  method MapSlice<T, R>(s: seq<T>, mapper: T --> R) returns (result: seq<R>)
    requires forall i :: 0 <= i < |s| ==> mapper.requires(s[i])
    ensures |result| == |s| && forall i :: 0 <= i < |s| ==> result[i] == mapper(s[i])
  {
    result := [];
    var i := 0;
    while i < |s|
      invariant i <= |s| && |result| == i
      invariant forall j :: 0 <= j < i ==> result[j] == mapper(s[j])
    {
      result := result + [mapper(s[i])];
      i := i + 1;
    }
  }

  function NotIn<E(==)>(excluded: seq<E>): E -> bool {
    e => e !in excluded
  }

  method DeduplicateSliceAndRemove<E(==, !new)>(s: seq<E>, toRemove: seq<E>) returns (result: seq<E>)
    ensures result == FirstOccurrences(Keep(s, NotIn(toRemove)))
    ensures result == Keep(FirstOccurrences(s), NotIn(toRemove))
    ensures Distinct(result) && forall e :: e in result <==> e in s && e !in toRemove
  {
    var exclude := set e | e in toRemove;
    var seen: set<E> := {};
    result := [];
    ghost var p := NotIn(toRemove);
    var i := 0;
    while i < |s|
      invariant i <= |s|
      invariant forall e :: e in seen <==> e in Keep(s[..i], p)
      invariant result == FirstOccurrences(Keep(s[..i], p))
    {
      var e := s[i];
      assert s[..i + 1] == s[..i] + [e];
      KeepStep(s[..i], e, p);
      FirstOccurrencesStep(Keep(s[..i], p), e);
      if e !in exclude {
        if e !in seen {
          seen := seen + {e};
          result := result + [e];
        }
      }
      i := i + 1;
    }
    assert s[..i] == s;
    KeepFirstCommute(s, p);
    KeepElements(s, p);
    FirstOccurrencesElements(Keep(s, p));
  }

  /** In place: the first n elements become the input's elements, once each and ascending; what is left
      of the array is cleared when anything was dropped. */
  method DeduplicateAndSortSlice<E(==, !new)>(a: array<E>, leq: (E, E) -> bool, zero: E) returns (n: nat)
    requires TotalOrder(leq)
    modifies a
    ensures n <= a.Length && Ascending(leq, a[..n]) && SameElements(a[..n], old(a[..]))
    ensures forall i :: n <= i < a.Length ==> a[i] == zero
  {
    Sort(a, leq);
    ghost var sorted := a[..];
    assert SameElements(sorted, old(a[..])) by { MultisetElements(sorted, old(a[..])); }
    n := Compact(a, zero);
    CompactedSorted(leq, sorted);
  }

  lemma MultisetElements<E>(s: seq<E>, t: seq<E>)
    requires multiset(s) == multiset(t)
    ensures SameElements(s, t)
  {
    forall x | x in s ensures x in t { assert x in multiset(t); }
    forall x | x in t ensures x in s { assert x in multiset(s); }
  }

  /** Whatever sorts the deduplicated input gives what DeduplicateAndSortSlice leaves, for any input with
      the same elements, in any order and number. */
  lemma SortedDedupUnique<E(!new)>(leq: (E, E) -> bool, input: seq<E>, result: seq<E>, other: seq<E>, t: seq<E>)
    requires TotalOrder(leq)
    requires Ascending(leq, result) && SameElements(result, input)
    requires SameElements(input, other)
    requires Sorted(leq, t) && multiset(t) == multiset(FirstOccurrences(other))
    ensures result == t
  {
    FirstOccurrencesElements(other);
    SortedDistinct(leq, FirstOccurrences(other), t);
    forall x ensures x in result <==> x in t {
      assert x in t <==> x in FirstOccurrences(other);
    }
    AscendingUnique(leq, result, t);
  }

  // ---- The last element of each key, by key ----

  /** Position i holds the last element of its key. */
  predicate IsLast<E, K(==)>(s: seq<E>, key: E -> K, i: nat)
    requires i < |s|
  {
    forall j :: i < j < |s| ==> key(s[j]) != key(s[i])
  }

  /** e is the last element of s with its key. */
  predicate IsLastOfKey<E(==), K(==)>(s: seq<E>, key: E -> K, e: E) {
    exists i :: 0 <= i < |s| && s[i] == e && IsLast(s, key, i)
  }

  /** r has, strictly ascending by key, the last element of each key of s. */
  ghost predicate LastByKey<E, K(!new)>(leq: (K, K) -> bool, s: seq<E>, key: E -> K, r: seq<E>) {
    && Ascending(leq, Keys(r, key))
    && (forall e :: e in r ==> IsLastOfKey(s, key, e))
    && (forall i :: 0 <= i < |s| ==> HasKey(r, key, key(s[i])))
  }

  lemma LastOfKeyUnique<E, K>(s: seq<E>, key: E -> K, e: E, e': E)
    requires IsLastOfKey(s, key, e) && IsLastOfKey(s, key, e') && key(e) == key(e')
    ensures e == e'
  {
  }

  lemma LastOfKeyStep<E, K>(s: seq<E>, key: E -> K, e: E, x: E)
    ensures IsLastOfKey(s + [x], key, e) <==> e == x || (IsLastOfKey(s, key, e) && key(e) != key(x))
  {
    var t := s + [x];
    if IsLastOfKey(t, key, e) && e != x {
      var i :| 0 <= i < |t| && t[i] == e && IsLast(t, key, i);
      assert key(t[|s|]) != key(e);
      forall j | i < j < |s| ensures key(s[j]) != key(s[i]) { assert t[j] == s[j]; }
      assert IsLast(s, key, i);
    }
    if IsLastOfKey(s, key, e) && key(e) != key(x) {
      var i :| 0 <= i < |s| && s[i] == e && IsLast(s, key, i);
      assert t[i] == e && IsLast(t, key, i);
    }
    if e == x { assert t[|s|] == e && IsLast(t, key, |s|); }
  }

  method DeduplicateAndSortSliceOfObject<E(==), K(==, 0, !new)>(s: seq<E>, key: E -> K, leq: (K, K) -> bool)
    returns (result: seq<E>)
    requires TotalOrder(leq)
    ensures LastByKey(leq, s, key, result)
  {
    var dedup := LastOfEachKey(s, key);
    var listed := ListKeys(dedup.Keys);
    var keys := new K[|listed|](j requires 0 <= j < |listed| => listed[j]);
    assert keys[..] == listed;
    Sort(keys, leq);
    SortedDistinct(leq, listed, keys[..]);
    var sorted := keys[..];
    assert forall j :: 0 <= j < |sorted| ==> sorted[j] in sorted;
    result := MapSlice(sorted, k requires k in dedup => dedup[k]);
    assert Keys(result, key) == sorted;
    forall i | 0 <= i < |s| ensures HasKey(result, key, key(s[i])) {
      var l :| 0 <= l < |sorted| && sorted[l] == key(s[i]);
      assert key(result[l]) == key(s[i]);
    }
  }

  /** The map by key, in which later elements replace earlier ones. */
  method LastOfEachKey<E, K(==)>(s: seq<E>, key: E -> K) returns (dedup: map<K, E>)
    ensures forall k :: k in dedup ==> key(dedup[k]) == k && IsLastOfKey(s, key, dedup[k])
    ensures forall j :: 0 <= j < |s| ==> key(s[j]) in dedup
  {
    dedup := map[];
    var i := 0;
    while i < |s|
      invariant i <= |s|
      invariant forall k :: k in dedup ==> key(dedup[k]) == k && IsLastOfKey(s[..i], key, dedup[k])
      invariant forall j :: 0 <= j < i ==> key(s[j]) in dedup
    {
      ghost var before := dedup;
      dedup := dedup[key(s[i]) := s[i]];
      assert s[..i + 1] == s[..i] + [s[i]];
      forall k | k in dedup ensures key(dedup[k]) == k && IsLastOfKey(s[..i + 1], key, dedup[k]) {
        LastOfKeyStep(s[..i], key, dedup[k], s[i]);
      }
      i := i + 1;
    }
    assert s[..i] == s;
  }

  /** The keys of a map as a slice, in the order the iteration happens to take. */
  method ListKeys<K(==)>(keys: set<K>) returns (order: seq<K>)
    ensures VisitOrder(order, keys)
  {
    order := [];
    var todo := keys;
    while todo != {}
      invariant todo <= keys && Distinct(order)
      invariant forall k :: k in order ==> k in keys && k !in todo
      invariant forall k :: k in keys ==> k in todo || k in order
      decreases todo
    {
      var k :| k in todo;
      todo := todo - {k};
      order := order + [k];
    }
  }

  /** There is only one such result, so the order of the map iteration does not show. */
  lemma LastByKeyUnique<E, K(!new)>(leq: (K, K) -> bool, s: seq<E>, key: E -> K, r: seq<E>, r': seq<E>)
    requires TotalOrder(leq) && LastByKey(leq, s, key, r) && LastByKey(leq, s, key, r')
    ensures r == r'
  {
    KeysOfLast(leq, s, key, r, r');
    KeysOfLast(leq, s, key, r', r);
    AscendingUnique(leq, Keys(r, key), Keys(r', key));
    assert |r| == |Keys(r, key)| && |r'| == |Keys(r', key)|;
    forall i | 0 <= i < |r| ensures r[i] == r'[i] {
      assert Keys(r, key)[i] == key(r[i]) && Keys(r', key)[i] == key(r'[i]);
      LastOfKeyUnique(s, key, r[i], r'[i]);
    }
  }

  lemma KeysOfLast<E, K(!new)>(leq: (K, K) -> bool, s: seq<E>, key: E -> K, r: seq<E>, r': seq<E>)
    requires LastByKey(leq, s, key, r) && LastByKey(leq, s, key, r')
    ensures forall k :: k in Keys(r, key) ==> k in Keys(r', key)
  {
    forall k | k in Keys(r, key) ensures k in Keys(r', key) {
      var i :| 0 <= i < |r| && Keys(r, key)[i] == k;
      assert r[i] in r && IsLastOfKey(s, key, r[i]);
      var l :| 0 <= l < |s| && s[l] == r[i];
      assert HasKey(r', key, k);
      var m :| 0 <= m < |r'| && key(r'[m]) == k;
      assert Keys(r', key)[m] == k;
    }
  }

  function Reverse<E>(s: seq<E>): seq<E> {
    seq(|s|, i requires 0 <= i < |s| => s[|s| - 1 - i])
  }

  lemma FirstOfReverseIsLast<E, K>(s: seq<E>, key: E -> K, i: nat)
    requires i < |s| && IsFirst(Reverse(s), key, i)
    ensures IsLastOfKey(s, key, Reverse(s)[i])
  {
    var t, n := Reverse(s), |s|;
    var l := n - 1 - i;
    forall j | l < j < n ensures key(s[j]) != key(s[l]) {
      assert t[n - 1 - j] == s[j];
    }
    assert s[l] == t[i] && IsLast(s, key, l);
  }

  lemma ReversedHasKeys<E, K>(s: seq<E>, key: E -> K, i: nat)
    requires i < |s|
    ensures HasKey(Reverse(s), key, key(s[i]))
  {
    var t, j := Reverse(s), |s| - 1 - i;
    assert 0 <= j < |t| && key(t[j]) == key(s[i]);
  }

  lemma ReversedFirst<E, K>(s: seq<E>, key: E -> K)
    ensures var first := FirstByKey(Reverse(s), key);
            && Distinct(Keys(first, key))
            && (forall e :: e in first ==> IsLastOfKey(s, key, e))
            && (forall i :: 0 <= i < |s| ==> HasKey(first, key, key(s[i])))
  {
    var t := Reverse(s);
    var first := FirstByKey(t, key);
    FirstKeysDistinct(t, key);
    forall e | e in first ensures IsLastOfKey(s, key, e) {
      var i := FirstElement(t, key, e);
      FirstOfReverseIsLast(s, key, i);
    }
    forall i | 0 <= i < |s| ensures HasKey(first, key, key(s[i])) {
      ReversedHasKeys(s, key, i);
      FirstHasKey(t, key, key(s[i]));
    }
  }

  /** Keeping the last element of each key and sorting by key is the same as deduplicating the reversed
      input first-wins and sorting that by key. */
  lemma LastByKeyIsReversedFirst<E(!new), K(!new)>(leq: (K, K) -> bool, s: seq<E>, key: E -> K, r: seq<E>, t: seq<E>)
    requires TotalOrder(leq) && LastByKey(leq, s, key, r)
    requires Sorted(leq, Keys(t, key)) && multiset(t) == multiset(FirstByKey(Reverse(s), key))
    ensures r == t
  {
    var first := FirstByKey(Reverse(s), key);
    ReversedFirst(s, key);
    MultisetElements(t, first);
    KeysDistinct(first, t, key);
    forall i | 0 <= i < |s| ensures HasKey(t, key, key(s[i])) {
      var j :| 0 <= j < |first| && key(first[j]) == key(s[i]);
      assert first[j] in t;
    }
    LastByKeyUnique(leq, s, key, r, t);
  }

  /** A permutation of elements with different keys has different keys. */
  lemma KeysDistinct<E(!new), K>(s: seq<E>, t: seq<E>, key: E -> K)
    requires Distinct(Keys(s, key)) && multiset(s) == multiset(t)
    ensures Distinct(Keys(t, key))
  {
    forall i, j | 0 <= i < j < |t| ensures Keys(t, key)[i] != Keys(t, key)[j] {
      assert t[i] in multiset(s) && t[j] in multiset(s);
      var l :| 0 <= l < |s| && s[l] == t[i];
      var m :| 0 <= m < |s| && s[m] == t[j];
      assert Keys(s, key)[l] == key(t[i]) && Keys(s, key)[m] == key(t[j]);
      if l == m {
        assert Distinct(s) by {
          forall x, y | 0 <= x < y < |s| ensures s[x] != s[y] { assert Keys(s, key)[x] != Keys(s, key)[y]; }
        }
        DistinctOnce(s, t[i]);
        Twice(t, i, j);
      }
    }
  }
}
