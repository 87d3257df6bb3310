/** Sorting by a key, and what a permutation keeps. */
module Sorting {
  ghost predicate SortedBy<T>(xs: seq<T>, key: T -> int) {
    forall i, j | 0 <= i < j < |xs| :: key(xs[i]) <= key(xs[j])
  }

  /** The elements with this key, in order. */
  ghost function WithKey<T>(xs: seq<T>, key: T -> int, k: int): seq<T> {
    if xs == [] then []
    else WithKey(xs[..|xs| - 1], key, k) + if key(xs[|xs| - 1]) == k then [xs[|xs| - 1]] else []
  }

  /** Elements with the same key come in the same order in both. */
  ghost predicate SameOrder<T>(xs: seq<T>, ys: seq<T>, key: T -> int) {
    forall k :: WithKey(xs, key, k) == WithKey(ys, key, k)
  }

  /** The elements in ascending order of key; the order of equal keys is left open. */
  method Sort<T(==)>(xs: seq<T>, key: T -> int) returns (ys: seq<T>)
    ensures multiset(ys) == multiset(xs) && |ys| == |xs|
    ensures SortedBy(ys, key)
  {
    ys := StableSort(xs, key);
  }

  /** The elements in ascending order of key, equal keys in their old order. */
  method StableSort<T(==)>(xs: seq<T>, key: T -> int) returns (ys: seq<T>)
    ensures multiset(ys) == multiset(xs) && |ys| == |xs|
    ensures SortedBy(ys, key) && SameOrder(xs, ys, key)
  {
    ys := [];
    for i := 0 to |xs|
      invariant multiset(ys) == multiset(xs[..i]) && |ys| == i
      invariant SortedBy(ys, key) && SameOrder(xs[..i], ys, key)
    {
      assert xs[..i + 1] == xs[..i] + [xs[i]];
      SameOrderNext(xs[..i], ys, xs[i], key);
      ys := Insert(ys, xs[i], key);
    }
    assert xs[..|xs|] == xs;
  }

  method Insert<T(==)>(ys: seq<T>, x: T, key: T -> int) returns (zs: seq<T>)
    requires SortedBy(ys, key)
    ensures multiset(zs) == multiset(ys) + multiset{x} && |zs| == |ys| + 1
    ensures SortedBy(zs, key) && SameOrder(ys + [x], zs, key)
  {
    var k := |ys|;
    while k > 0 && key(x) < key(ys[k - 1])
      invariant 0 <= k <= |ys|
      invariant forall i | k <= i < |ys| :: key(x) < key(ys[i])
    {
      k := k - 1;
    }
    InsertSorted(ys, k, x, key);
    InsertMultiset(ys, k, x);
    InsertOrder(ys, k, x, key);
    zs := ys[..k] + [x] + ys[k..];
  }

  lemma {:induction false} WithKeyConcat<T>(a: seq<T>, b: seq<T>, key: T -> int, k: int)
    ensures WithKey(a + b, key, k) == WithKey(a, key, k) + WithKey(b, key, k)
  {
    if b == [] {
      assert a + b == a;
    } else {
      assert (a + b)[..|a + b| - 1] == a + b[..|b| - 1];
      WithKeyConcat(a, b[..|b| - 1], key, k);
    }
  }

  lemma {:induction false} WithoutKey<T>(xs: seq<T>, key: T -> int, k: int)
    requires forall i | 0 <= i < |xs| :: key(xs[i]) != k
    ensures WithKey(xs, key, k) == []
  {
    if xs != [] {
      WithoutKey(xs[..|xs| - 1], key, k);
    }
  }

  lemma SameOrderNext<T>(xs: seq<T>, ys: seq<T>, x: T, key: T -> int)
    requires SameOrder(xs, ys, key)
    ensures SameOrder(xs + [x], ys + [x], key)
  {
    forall k ensures WithKey(xs + [x], key, k) == WithKey(ys + [x], key, k) {
      WithKeyConcat(xs, [x], key, k);
      WithKeyConcat(ys, [x], key, k);
    }
  }

  /** An element inserted in front of larger ones only has passed none of its equals. */
  lemma InsertOrder<T>(ys: seq<T>, k: nat, x: T, key: T -> int)
    requires k <= |ys| && forall i | k <= i < |ys| :: key(x) < key(ys[i])
    ensures SameOrder(ys + [x], ys[..k] + [x] + ys[k..], key)
  {
    forall v ensures WithKey(ys + [x], key, v) == WithKey(ys[..k] + [x] + ys[k..], key, v) {
      InsertOrderAt(ys, k, x, key, v);
    }
  }

  lemma InsertOrderAt<T>(ys: seq<T>, k: nat, x: T, key: T -> int, v: int)
    requires k <= |ys| && forall i | k <= i < |ys| :: key(x) < key(ys[i])
    ensures WithKey(ys + [x], key, v) == WithKey(ys[..k] + [x] + ys[k..], key, v)
  {
    var a, b := ys[..k], ys[k..];
    assert ys == a + b;
    WithKeyConcat(ys, [x], key, v);
    WithKeyConcat(a, b, key, v);
    WithKeyConcat(a + [x], b, key, v);
    WithKeyConcat(a, [x], key, v);
    if key(x) == v {
      WithoutKey(b, key, v);
    } else {
      WithoutKey([x], key, v);
    }
  }

  lemma InsertMultiset<T>(ys: seq<T>, k: nat, x: T)
    requires k <= |ys|
    ensures multiset(ys[..k] + [x] + ys[k..]) == multiset(ys) + multiset{x}
  {
    assert ys == ys[..k] + ys[k..];
    assert multiset(ys) == multiset(ys[..k]) + multiset(ys[k..]);
  }

  lemma Cancel<T>(m: multiset<T>, n: multiset<T>, x: T)
    requires m + multiset{x} == n + multiset{x}
    ensures m == n
  {
    assert m == (m + multiset{x}) - multiset{x};
    assert n == (n + multiset{x}) - multiset{x};
  }

  lemma InsertSorted<T>(ys: seq<T>, k: nat, x: T, key: T -> int)
    requires SortedBy(ys, key) && k <= |ys|
    requires k > 0 ==> key(ys[k - 1]) <= key(x)
    requires forall i | k <= i < |ys| :: key(x) < key(ys[i])
    ensures SortedBy(ys[..k] + [x] + ys[k..], key)
  {
    var zs := ys[..k] + [x] + ys[k..];
    forall i | 0 <= i < k ensures key(ys[i]) <= key(x) {
      assert i < k - 1 ==> key(ys[i]) <= key(ys[k - 1]);
    }
    forall i, j | 0 <= i < j < |zs| ensures key(zs[i]) <= key(zs[j]) {
      InsertedPair(ys, k, x, key, i, j);
    }
  }

  lemma InsertedPair<T>(ys: seq<T>, k: nat, x: T, key: T -> int, i: nat, j: nat)
    requires SortedBy(ys, key) && k <= |ys| && i < j <= |ys|
    requires forall m | 0 <= m < k :: key(ys[m]) <= key(x)
    requires forall m | k <= m < |ys| :: key(x) < key(ys[m])
    ensures var zs := ys[..k] + [x] + ys[k..]; key(zs[i]) <= key(zs[j])
  {
    var zs := ys[..k] + [x] + ys[k..];
    if i < k && j > k {
      assert zs[i] == ys[i] && zs[j] == ys[j - 1];
    } else if j < k {
      assert zs[i] == ys[i] && zs[j] == ys[j];
    } else if i > k {
      assert zs[i] == ys[i - 1] && zs[j] == ys[j - 1];
    }
  }

  lemma TwiceInMultiset<T>(a: seq<T>, i: nat, j: nat)
    requires i < j < |a| && a[i] == a[j]
    ensures multiset(a)[a[i]] >= 2
  {
    assert a == a[..j] + a[j..];
    assert a[i] in a[..j] && a[i] in a[j..] by {
      assert a[..j][i] == a[i] && a[j..][0] == a[i];
    }
  }

  lemma {:induction false} OnceInMultiset<T>(a: seq<T>, x: T)
    requires forall i, j | 0 <= i < j < |a| :: a[i] != a[j]
    ensures multiset(a)[x] <= 1
  {
    if a != [] {
      var front := a[..|a| - 1];
      OnceInMultiset(front, x);
      assert a == front + [a[|a| - 1]];
      if x == a[|a| - 1] {
        assert x !in front;
      }
    }
  }

  ghost predicate Pairwise<T>(xs: seq<T>, related: (T, T) -> bool) {
    forall i, j | 0 <= i < |xs| && 0 <= j < |xs| && i != j :: related(xs[i], xs[j])
  }

  lemma SameMembers<T>(a: seq<T>, b: seq<T>, x: T)
    requires multiset(a) == multiset(b)
    ensures x in a <==> x in b
  {
    assert x in a <==> x in multiset(a);
    assert x in b <==> x in multiset(b);
  }

  /** A relation that holds between all distinct positions, and of no element with
      itself, holds between all distinct positions of a permutation. */
  lemma PairwisePermuted<T>(a: seq<T>, b: seq<T>, related: (T, T) -> bool)
    requires multiset(a) == multiset(b) && Pairwise(a, related)
    requires forall i | 0 <= i < |a| :: !related(a[i], a[i])
    ensures Pairwise(b, related)
  {
    forall i, j | 0 <= i < |b| && 0 <= j < |b| && i != j ensures related(b[i], b[j]) {
      SameMembers(a, b, b[i]);
      SameMembers(a, b, b[j]);
      var p :| 0 <= p < |a| && a[p] == b[i];
      var q :| 0 <= q < |a| && a[q] == b[j];
      if p == q {
        TwiceInMultiset(b, if i < j then i else j, if i < j then j else i);
        OnceInMultiset(a, b[i]);
        assert false;
      }
    }
  }

  /** The elements that a sequence's members contribute. */
  ghost function Collect<T, U>(xs: seq<T>, from: T -> multiset<U>): multiset<U> {
    if xs == [] then multiset{} else Collect(xs[..|xs| - 1], from) + from(xs[|xs| - 1])
  }

  lemma {:induction false} CollectConcat<T, U>(a: seq<T>, b: seq<T>, from: T -> multiset<U>)
    ensures Collect(a + b, from) == Collect(a, from) + Collect(b, from)
  {
    if b == [] {
      assert a + b == a;
    } else {
      assert (a + b)[..|a + b| - 1] == a + b[..|b| - 1];
      CollectConcat(a, b[..|b| - 1], from);
    }
  }

  lemma CollectWithoutOne<T, U>(u: seq<T>, x: T, v: seq<T>, from: T -> multiset<U>)
    ensures Collect(u + ([x] + v), from) == Collect(u + v, from) + from(x)
  {
    CollectConcat(u, [x] + v, from);
    CollectConcat([x], v, from);
    CollectConcat(u, v, from);
    assert [x][..0] == [];
    assert Collect([x], from) == from(x);
  }

  /** The order of the members does not matter to what they contribute. */
  lemma {:induction false} CollectPermuted<T, U>(a: seq<T>, b: seq<T>, from: T -> multiset<U>)
    requires multiset(a) == multiset(b)
    ensures Collect(a, from) == Collect(b, from)
    decreases |a|
  {
    if a == [] {
      assert |b| == |multiset(b)| == 0;
    } else {
      var x := a[|a| - 1];
      SameMembers(a, b, x);
      var k :| 0 <= k < |b| && b[k] == x;
      var u, v := b[..k], b[k + 1..];
      var front := a[..|a| - 1];
      assert a == front + [x] && b == u + ([x] + v);
      Cancel(multiset(front), multiset(u + v), x);
      CollectPermuted(front, u + v, from);
      CollectWithoutOne(u, x, v, from);
    }
  }
}
