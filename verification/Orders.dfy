/** Total orders, sorted sequences and the orders in which a map may be visited. */
module Orders {

  ghost predicate TotalOrder<T(!new)>(leq: (T, T) -> bool) {
    && (forall x :: leq(x, x))
    && (forall x, y :: leq(x, y) && leq(y, x) ==> x == y)
    && (forall x, y, z :: leq(x, y) && leq(y, z) ==> leq(x, z))
    && (forall x, y :: leq(x, y) || leq(y, x))
  }

  ghost predicate Sorted<T>(leq: (T, T) -> bool, s: seq<T>) {
    forall i, j :: 0 <= i < j < |s| ==> leq(s[i], s[j])
  }

  ghost predicate Distinct<T>(s: seq<T>) {
    forall i, j :: 0 <= i < j < |s| ==> s[i] != s[j]
  }

  ghost predicate Ascending<T>(leq: (T, T) -> bool, s: seq<T>) {
    Sorted(leq, s) && Distinct(s)
  }

  ghost predicate SameElements<T>(s: seq<T>, t: seq<T>) {
    (forall x :: x in s ==> x in t) && (forall x :: x in t ==> x in s)
  }

  /** One of the orders in which iterating over the keys of a map may visit them. */
  ghost predicate VisitOrder<T>(order: seq<T>, keys: set<T>) {
    Distinct(order) && (forall x :: x in order ==> x in keys) && (forall x :: x in keys ==> x in order)
  }

  /** A set can be visited in some order. */
  lemma {:induction false} SomeOrder<T>(keys: set<T>) returns (order: seq<T>)
    ensures VisitOrder(order, keys)
  {
    order := [];
    if keys != {} {
      var k :| k in keys;
      order := SomeOrder(keys - {k});
      order := order + [k];
    }
  }

  /** Any key can be the one visited last. */
  lemma OrderEndingWith<T>(keys: set<T>, k: T) returns (front: seq<T>)
    requires k in keys
    ensures VisitOrder(front, keys - {k}) && VisitOrder(front + [k], keys)
  {
    front := SomeOrder(keys - {k});
  }

  /** Induction on how a sequence is built up at its end. */
  lemma {:induction false} BuiltUp<T(!new)>(holds: seq<T> -> bool, s: seq<T>)
    requires holds([])
    requires forall front: seq<T>, x: T :: holds(front) ==> holds(front + [x])
    ensures holds(s)
  {
    if s != [] {
      var front, x := s[..|s| - 1], s[|s| - 1];
      BuiltUp(holds, front);
      assert s == front + [x];
    }
  }

  /** Induction from one number up to another. */
  lemma {:induction false} CountedUp(holds: nat -> bool, n: nat, m: nat)
    requires n <= m && holds(n)
    requires forall i :: n <= i < m && holds(i) ==> holds(i + 1)
    ensures holds(m)
  {
    if n < m { CountedUp(holds, n, m - 1); }
  }

  // ---- Gathering over a visit ----

  /** What a visit collects when the step at k appends f(k). */
  function Gathered<K, V>(order: seq<K>, f: K -> seq<V>): seq<V> {
    if order == [] then [] else Gathered(order[..|order| - 1], f) + f(order[|order| - 1])
  }

  function Without<K>(order: seq<K>, i: nat): seq<K>
    requires i < |order|
  {
    order[..i] + order[i + 1..]
  }

  lemma GatheredStep<K, V>(order: seq<K>, f: K -> seq<V>, k: K)
    ensures Gathered(order + [k], f) == Gathered(order, f) + f(k)
  {
  }

  lemma Associative<T>(a: seq<T>, b: seq<T>, c: seq<T>)
    ensures (a + b) + c == a + (b + c)
  {
  }

  lemma {:induction false} GatheredConcat<K, V>(s: seq<K>, t: seq<K>, f: K -> seq<V>)
    ensures Gathered(s + t, f) == Gathered(s, f) + Gathered(t, f)
  {
    if t == [] {
      assert s + t == s;
    } else {
      var front, k := t[..|t| - 1], t[|t| - 1];
      GatheredConcat(s, front, f);
      assert t == front + [k];
      Associative(s, front, [k]);
      GatheredStep(s + front, f, k);
      GatheredStep(front, f, k);
      Associative(Gathered(s, f), Gathered(front, f), f(k));
    }
  }

  lemma MiddleOut<T>(a: seq<T>, b: seq<T>, c: seq<T>)
    ensures multiset((a + b) + c) == multiset(a + c) + multiset(b)
  {
  }

  lemma GatheredMiddle<K, V>(pre: seq<K>, k: K, post: seq<K>, f: K -> seq<V>)
    ensures multiset(Gathered((pre + [k]) + post, f)) == multiset(Gathered(pre + post, f)) + multiset(f(k))
  {
    GatheredConcat(pre + [k], post, f);
    GatheredStep(pre, f, k);
    GatheredConcat(pre, post, f);
    MiddleOut(Gathered(pre, f), f(k), Gathered(post, f));
  }

  lemma SplitAt<K>(s: seq<K>, i: nat)
    requires i < |s|
    ensures s == (s[..i] + [s[i]]) + s[i + 1..]
  {
  }

  lemma GatheredWithout<K, V>(order: seq<K>, f: K -> seq<V>, i: nat)
    requires i < |order|
    ensures multiset(Gathered(order, f)) == multiset(Gathered(Without(order, i), f)) + multiset(f(order[i]))
  {
    SplitAt(order, i);
    GatheredMiddle(order[..i], order[i], order[i + 1..], f);
  }

  lemma VisitWithout<K>(order: seq<K>, keys: set<K>, i: nat)
    requires VisitOrder(order, keys) && i < |order|
    ensures VisitOrder(Without(order, i), keys - {order[i]})
  {
  }

  /** However a set is visited, the same is collected, up to order. */
  lemma {:induction false} GatheredSame<K, V>(keys: set<K>, order: seq<K>, order': seq<K>, f: K -> seq<V>)
    requires VisitOrder(order, keys) && VisitOrder(order', keys)
    ensures multiset(Gathered(order, f)) == multiset(Gathered(order', f))
  {
    assert |order'| > 0 ==> order'[0] in order;
    if order != [] {
      var n := |order| - 1;
      assert order[n] in order';
      var i :| 0 <= i < |order'| && order'[i] == order[n];
      VisitWithout(order', keys, i);
      VisitWithout(order, keys, n);
      assert Without(order, n) == order[..n];
      GatheredSame(keys - {order[n]}, order[..n], Without(order', i), f);
      GatheredWithout(order', f, i);
    }
  }

  /** A strictly ascending sequence is determined by its elements. */
  lemma {:induction false} AscendingUnique<T(!new)>(leq: (T, T) -> bool, s: seq<T>, t: seq<T>)
    requires TotalOrder(leq) && Ascending(leq, s) && Ascending(leq, t) && SameElements(s, t)
    ensures s == t
  {
    assert |s| > 0 ==> s[0] in s;
    assert |t| > 0 ==> t[0] in t;
    if s != [] {
      assert s[0] in t && t[0] in s;
      assert s[0] == t[0];
      forall x ensures x in s[1..] <==> x in t[1..] {
        assert x in s <==> x == s[0] || x in s[1..];
        assert x in t <==> x == t[0] || x in t[1..];
      }
      AscendingUnique(leq, s[1..], t[1..]);
    }
  }

  lemma {:induction false} DistinctOnce<T>(s: seq<T>, x: T)
    requires Distinct(s)
    ensures multiset(s)[x] == if x in s then 1 else 0
  {
    if s != [] {
      var n := |s| - 1;
      assert s == s[..n] + [s[n]];
      DistinctOnce(s[..n], x);
    }
  }

  lemma Twice<T>(s: seq<T>, i: nat, j: nat)
    requires i < j < |s| && s[i] == s[j]
    ensures multiset(s)[s[i]] >= 2
  {
    assert s == s[..j] + [s[j]] + s[j + 1..];
    assert s[i] in s[..j];
  }

  /** Sorting a duplicate-free sequence gives a strictly ascending one. */
  lemma SortedDistinct<T(!new)>(leq: (T, T) -> bool, s: seq<T>, t: seq<T>)
    requires Distinct(s) && multiset(s) == multiset(t) && Sorted(leq, t)
    ensures Ascending(leq, t) && SameElements(s, t)
  {
    forall x ensures x in s <==> x in t {
      assert x in s <==> x in multiset(s);
      assert x in t <==> x in multiset(t);
    }
    forall i, j | 0 <= i < j < |t| ensures t[i] != t[j] {
      DistinctOnce(s, t[i]);
      if t[i] == t[j] { Twice(t, i, j); }
    }
  }

  // ---- The order of strings ----

  /** Lexicographic order. Comparing code points agrees with comparing the bytes of UTF-8. */
  predicate LexLeq(s: string, t: string) {
    s == [] || (t != [] && (s[0] < t[0] || (s[0] == t[0] && LexLeq(s[1..], t[1..]))))
  }

  /** Up to i the two are alike, and there s has the smaller character. */
  predicate LessAt(s: string, t: string, i: nat) {
    i < |s| && i < |t| && s[..i] == t[..i] && s[i] < t[i]
  }

  lemma LessLater(s: string, t: string, i: nat)
    requires s != [] && t != [] && s[0] == t[0]
    ensures LessAt(s, t, i + 1) <==> LessAt(s[1..], t[1..], i)
  {
    if i < |s| - 1 && i < |t| - 1 {
      assert s[..i + 1] == [s[0]] + s[1..][..i] && t[..i + 1] == [t[0]] + t[1..][..i];
      assert s[1..][..i] == s[..i + 1][1..] && t[1..][..i] == t[..i + 1][1..];
    }
  }

  lemma PrefixLater(s: string, t: string)
    requires s != [] && t != [] && s[0] == t[0]
    ensures s <= t <==> s[1..] <= t[1..]
  {
    assert s == [s[0]] + s[1..] && t == [t[0]] + t[1..];
  }

  /** What LexLeq says, spelled out: a prefix comes first, and otherwise the first difference decides. */
  lemma {:induction false} LexLeqIff(s: string, t: string)
    ensures LexLeq(s, t) <==> s <= t || exists i :: 0 <= i < |s| && i < |t| && s[..i] == t[..i] && s[i] < t[i]
  {
    LexLeqAt(s, t);
    if i: nat :| LessAt(s, t, i) { assert s[..i] == t[..i]; }
    if i :| 0 <= i < |s| && i < |t| && s[..i] == t[..i] && s[i] < t[i] { assert LessAt(s, t, i); }
  }

  lemma {:induction false} LexLeqAt(s: string, t: string)
    ensures LexLeq(s, t) <==> s <= t || exists i: nat :: LessAt(s, t, i)
  {
    if s != [] && t != [] {
      if s[0] == t[0] {
        LexLeqAt(s[1..], t[1..]);
        PrefixLater(s, t);
        if i: nat :| LessAt(s[1..], t[1..], i) { LessLater(s, t, i); }
        if i: nat :| LessAt(s, t, i) { LessLater(s, t, i - 1); }
      } else {
        assert LessAt(s, t, 0) <==> s[0] < t[0];
        assert forall i: nat :: LessAt(s, t, i) ==> i == 0;
      }
    }
  }

  lemma {:induction false} LexReflexive(s: string)
    ensures LexLeq(s, s)
  {
    if s != [] { LexReflexive(s[1..]); }
  }

  lemma {:induction false} LexTotal(s: string, t: string)
    ensures LexLeq(s, t) || LexLeq(t, s)
  {
    if s != [] && t != [] && s[0] == t[0] { LexTotal(s[1..], t[1..]); }
  }

  lemma {:induction false} LexAntisymmetric(s: string, t: string)
    requires LexLeq(s, t) && LexLeq(t, s)
    ensures s == t
  {
    if s != [] {
      LexAntisymmetric(s[1..], t[1..]);
      assert s == [s[0]] + s[1..] && t == [t[0]] + t[1..];
    }
  }

  lemma {:induction false} LexTransitive(s: string, t: string, u: string)
    requires LexLeq(s, t) && LexLeq(t, u)
    ensures LexLeq(s, u)
  {
    if s != [] && s[0] == t[0] && t[0] == u[0] { LexTransitive(s[1..], t[1..], u[1..]); }
  }

  lemma LexIsTotalOrder()
    ensures TotalOrder(LexLeq)
  {
    forall s: string ensures LexLeq(s, s) { LexReflexive(s); }
    forall s: string, t: string ensures LexLeq(s, t) || LexLeq(t, s) { LexTotal(s, t); }
    forall s: string, t: string | LexLeq(s, t) && LexLeq(t, s) ensures s == t { LexAntisymmetric(s, t); }
    forall s: string, t: string, u: string | LexLeq(s, t) && LexLeq(t, u) ensures LexLeq(s, u) {
      LexTransitive(s, t, u);
    }
  }
}
