/** The two in-place operations of the standard library that the collection package builds on:
    sorting a slice and compacting runs of equal elements. */
module SlicesSort {
  import opened Orders

  lemma SwapMultiset<T>(s: seq<T>, t: seq<T>, i: nat)
    requires i + 1 < |s| && t == s[i := s[i + 1]][i + 1 := s[i]]
    ensures multiset(t) == multiset(s)
  {
  }

  /** The first n elements are in order but for the one at k, which may still have to move left. */
  ghost predicate SortedBut<T>(leq: (T, T) -> bool, s: seq<T>, n: nat, k: nat) {
    && k < n <= |s|
    && (forall i, j :: 0 <= i < j < n && j != k ==> leq(s[i], s[j]))
  }

  /** Exchanging that element with a greater one to its left. */
  lemma SwapLeft<T(!new)>(leq: (T, T) -> bool, s: seq<T>, t: seq<T>, n: nat, k: nat)
    requires TotalOrder(leq) && SortedBut(leq, s, n, k) && k > 0 && !leq(s[k - 1], s[k])
    requires t == s[k - 1 := s[k]][k := s[k - 1]]
    ensures SortedBut(leq, t, n, k - 1) && multiset(t) == multiset(s)
  {
    SwapMultiset(s, t, k - 1);
    forall i, j | 0 <= i < j < n && j != k - 1 ensures leq(t[i], t[j]) {
      if j == k {
        assert i == k - 1 || leq(s[i], s[k - 1]);
      } else if i == k - 1 {
        assert leq(s[k], s[j]);
      } else if i == k {
        assert leq(s[k - 1], s[j]);
      } else {
        assert leq(s[i], s[j]);
      }
    }
  }

  /** Moves the element at n into its place among the n sorted ones before it. */
  method Insert<T(!new)>(a: array<T>, leq: (T, T) -> bool, n: nat)
    requires TotalOrder(leq) && n < a.Length && Sorted(leq, a[..n])
    modifies a
    ensures Sorted(leq, a[..n + 1])
    ensures multiset(a[..]) == multiset(old(a[..]))
  {
    var k := n;
    while k > 0 && !leq(a[k - 1], a[k])
      invariant 0 <= k <= n
      invariant SortedBut(leq, a[..], n + 1, k)
      invariant multiset(a[..]) == multiset(old(a[..]))
    {
      ghost var before := a[..];
      a[k - 1], a[k] := a[k], a[k - 1];
      SwapLeft(leq, before, a[..], n + 1, k);
      k := k - 1;
    }
  }

  /** Sorts in place. Under a total order every sort gives the same result, so which algorithm the
      library uses does not show. */
  method Sort<T(!new)>(a: array<T>, leq: (T, T) -> bool)
    requires TotalOrder(leq)
    modifies a
    ensures Sorted(leq, a[..])
    ensures multiset(a[..]) == multiset(old(a[..]))
  {
    var n := 0;
    while n < a.Length
      invariant n <= a.Length
      invariant Sorted(leq, a[..n])
      invariant multiset(a[..]) == multiset(old(a[..]))
    {
      Insert(a, leq, n);
      n := n + 1;
    }
    assert a[..] == a[..n];
  }

  /** Each element that differs from the one before it. */
  function Compacted<T(==)>(s: seq<T>): seq<T> {
    if |s| < 2 then s
    else Compacted(s[..|s| - 1]) + (if s[|s| - 1] == s[|s| - 2] then [] else [s[|s| - 1]])
  }

  lemma CompactedStep<T>(s: seq<T>, n: nat)
    requires 1 <= n < |s|
    ensures Compacted(s[..n + 1]) == Compacted(s[..n]) + (if s[n] == s[n - 1] then [] else [s[n]])
  {
    assert s[..n + 1][..n] == s[..n];
  }

  /** Keeps the first of each run of equal elements and clears what is left over: a scan for the first
      repetition, then a reading and a writing index. */
  method Compact<T(==)>(a: array<T>, zero: T) returns (n: nat)
    modifies a
    ensures n <= a.Length && a[..n] == Compacted(old(a[..]))
    ensures forall i :: n <= i < a.Length ==> a[i] == zero
  {
    ghost var s := a[..];
    if a.Length < 2 {
      assert a[..a.Length] == s;
      return a.Length;
    }
    n := 1;
    while n < a.Length && a[n] != a[n - 1]
      invariant 1 <= n <= a.Length
      invariant a[..] == s && Compacted(s[..n]) == s[..n]
    {
      CompactedStep(s, n);
      assert s[..n] + [s[n]] == s[..n + 1];
      n := n + 1;
    }
    if n == a.Length {
      assert s[..n] == s;
      return;
    }
    CompactedStep(s, n);
    var r := n + 1;
    while r < a.Length
      invariant 1 <= n < r <= a.Length
      invariant a[..n] == Compacted(s[..r])
      invariant forall i :: n <= i < a.Length ==> a[i] == s[i]
    {
      CompactedStep(s, r);
      if a[r] != a[r - 1] {
        a[n] := a[r];
        assert a[..n + 1] == a[..n] + [s[r]];
        n := n + 1;
      }
      r := r + 1;
    }
    assert s[..r] == s;
    ghost var kept := a[..n];
    r := n;
    while r < a.Length
      invariant n <= r <= a.Length
      invariant a[..n] == kept
      invariant forall i :: n <= i < r ==> a[i] == zero
    {
      a[r] := zero;
      r := r + 1;
    }
  }

  /** Compacting a sorted sequence leaves each of its elements once, in order. */
  lemma {:induction false} CompactedSorted<T(!new)>(leq: (T, T) -> bool, s: seq<T>)
    requires TotalOrder(leq) && Sorted(leq, s)
    ensures Ascending(leq, Compacted(s)) && SameElements(Compacted(s), s)
    ensures s != [] ==> Compacted(s) != [] && Compacted(s)[|Compacted(s)| - 1] == s[|s| - 1]
  {
    if |s| >= 2 {
      var n := |s| - 1;
      var front := Compacted(s[..n]);
      CompactedSorted(leq, s[..n]);
      assert s == s[..n] + [s[n]];
      if s[n] != s[n - 1] {
        forall i | 0 <= i < |front| ensures leq(front[i], s[n]) && front[i] != s[n] {
          assert front[i] in s[..n];
          assert leq(front[i], s[n - 1]);
        }
      } else {
        assert s[n] in s[..n];
      }
    }
  }
}
