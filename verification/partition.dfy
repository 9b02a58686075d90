/**
 * Grouping a list by a key, as the progress panels do it: the distinct keys in
 * first-appearance order (`Array.from(new Set(xs.map(f)))`) and, for each key, the elements
 * carrying it in list order (`xs.filter(x => f(x) === k)`).
 */
module Partition {

  predicate NoDup<K(==)>(ks: seq<K>) {
    forall i, j :: 0 <= i < j < |ks| ==> ks[i] != ks[j]
  }

  /** Some element of `xs` has key `k`. */
  predicate HasKey<T, K(==)>(xs: seq<T>, f: T -> K, k: K) {
    exists i :: 0 <= i < |xs| && f(xs[i]) == k
  }

  /** The distinct keys of `xs`, each where it first appears. */
  function Distinct<T, K(==)>(xs: seq<T>, f: T -> K): (r: seq<K>)
    ensures NoDup(r)
  {
    if xs == [] then []
    else
      var d := Distinct(xs[..|xs| - 1], f);
      var k := f(xs[|xs| - 1]);
      if k in d then d else d + [k]
  }

  /** The distinct keys are exactly the keys some element carries. */
  lemma {:induction false} DistinctKeys<T, K>(xs: seq<T>, f: T -> K, k: K)
    ensures k in Distinct(xs, f) <==> HasKey(xs, f, k)
  {
    if xs != [] {
      var init := xs[..|xs| - 1];
      DistinctKeys(init, f, k);
      if HasKey(init, f, k) {
        var i :| 0 <= i < |init| && f(init[i]) == k;
        assert xs[i] == init[i];
      }
      if HasKey(xs, f, k) && k != f(xs[|xs| - 1]) {
        var i :| 0 <= i < |xs| && f(xs[i]) == k;
        assert init[i] == xs[i];
      }
    }
  }

  /** Keys already seen in a prefix keep their positions: the order is first appearance. */
  lemma {:induction false} DistinctPrefix<T, K>(xs: seq<T>, f: T -> K, n: nat)
    requires n <= |xs|
    ensures Distinct(xs[..n], f) <= Distinct(xs, f)
    decreases |xs| - n
  {
    if n < |xs| {
      var init := xs[..|xs| - 1];
      assert init[..n] == xs[..n];
      DistinctPrefix(init, f, n);
    } else {
      assert xs[..n] == xs;
    }
  }

  /** The elements of `xs` with key `k`, in order. */
  function Filter<T, K(==)>(xs: seq<T>, f: T -> K, k: K): (r: seq<T>)
    ensures |r| <= |xs|
    ensures forall i :: 0 <= i < |r| ==> f(r[i]) == k
  {
    if xs == [] then []
    else
      var x := xs[|xs| - 1];
      Filter(xs[..|xs| - 1], f, k) + if f(x) == k then [x] else []
  }

  /** An element is kept exactly when it is in the list and carries the key. */
  lemma {:induction false} FilterMembers<T, K>(xs: seq<T>, f: T -> K, k: K, x: T)
    ensures x in Filter(xs, f, k) <==> x in xs && f(x) == k
  {
    if xs != [] {
      var init := xs[..|xs| - 1];
      assert xs == init + [xs[|xs| - 1]];
      FilterMembers(init, f, k, x);
    }
  }

  /** A key that no element carries has an empty group. */
  lemma {:induction false} FilterAbsent<T, K>(xs: seq<T>, f: T -> K, k: K)
    requires !HasKey(xs, f, k)
    ensures Filter(xs, f, k) == []
  {
    if xs != [] {
      var init := xs[..|xs| - 1];
      assert !HasKey(init, f, k);
      FilterAbsent(init, f, k);
    }
  }

  /** When every element carries `k`, filtering by `k` keeps the whole list. */
  lemma {:induction false} FilterAll<T, K>(xs: seq<T>, f: T -> K, k: K)
    requires forall i :: 0 <= i < |xs| ==> f(xs[i]) == k
    ensures Filter(xs, f, k) == xs
  {
    if xs != [] {
      var init := xs[..|xs| - 1];
      FilterAll(init, f, k);
      assert xs == init + [xs[|xs| - 1]];
    }
  }

  /** The total size of the groups named by `ks`. */
  function GroupSizes<T(!new), K(==)>(xs: seq<T>, f: T -> K, ks: seq<K>): nat {
    if ks == [] then 0 else GroupSizes(xs, f, ks[..|ks| - 1]) + |Filter(xs, f, ks[|ks| - 1])|
  }

  /** One more element adds one to the groups exactly when its key is among them. */
  lemma {:induction false} GroupSizesSnoc<T(!new), K>(xs: seq<T>, x: T, f: T -> K, ks: seq<K>)
    requires NoDup(ks)
    ensures GroupSizes(xs + [x], f, ks) == GroupSizes(xs, f, ks) + if f(x) in ks then 1 else 0
  {
    assert (xs + [x])[..|xs + [x]| - 1] == xs;
    if ks != [] {
      var init := ks[..|ks| - 1];
      GroupSizesSnoc(xs, x, f, init);
      assert f(x) in ks <==> f(x) in init || f(x) == ks[|ks| - 1];
      assert f(x) == ks[|ks| - 1] ==> f(x) !in init;
    }
  }

  /** The groups of the distinct keys partition the list: their sizes add up to its length. */
  lemma {:induction false} GroupsPartition<T(!new), K(!new)>(xs: seq<T>, f: T -> K)
    ensures GroupSizes(xs, f, Distinct(xs, f)) == |xs|
  {
    if xs != [] {
      var init := xs[..|xs| - 1];
      var x := xs[|xs| - 1];
      assert xs == init + [x];
      var d := Distinct(init, f);
      GroupsPartition(init, f);
      GroupSizesSnoc(init, x, f, d);
      if f(x) !in d {
        DistinctKeys(init, f, f(x));
        FilterAbsent(init, f, f(x));
        assert Distinct(xs, f)[..|Distinct(xs, f)| - 1] == d;
      }
    }
  }

  /** Every listed key has a non-empty group, and every element is in the group of its key. */
  lemma GroupsNonEmpty<T, K>(xs: seq<T>, f: T -> K, k: K, i: nat)
    requires i < |xs|
    ensures k in Distinct(xs, f) ==> |Filter(xs, f, k)| > 0
    ensures f(xs[i]) in Distinct(xs, f) && xs[i] in Filter(xs, f, f(xs[i]))
  {
    DistinctKeys(xs, f, k);
    DistinctKeys(xs, f, f(xs[i]));
    FilterMembers(xs, f, f(xs[i]), xs[i]);
    if k in Distinct(xs, f) {
      var j :| 0 <= j < |xs| && f(xs[j]) == k;
      FilterMembers(xs, f, k, xs[j]);
    }
  }

  /** `xs.map(g)`. */
  function Map<T, U>(xs: seq<T>, g: T -> U): (r: seq<U>)
    ensures |r| == |xs| && forall i :: 0 <= i < |xs| ==> r[i] == g(xs[i])
  {
    seq(|xs|, i requires 0 <= i < |xs| => g(xs[i]))
  }

  /** Mapping distributes over concatenation. */
  lemma MapAppend<T, U>(a: seq<T>, b: seq<T>, g: T -> U)
    ensures Map(a + b, g) == Map(a, g) + Map(b, g)
  {
    var l, r := Map(a + b, g), Map(a, g) + Map(b, g);
    forall i | 0 <= i < |l| ensures l[i] == r[i] {
      if i < |a| {
        assert (a + b)[i] == a[i];
      } else {
        assert (a + b)[i] == b[i - |a|];
      }
    }
  }
}
