/**
 * Python's `sorted(xs, key=k, reverse=True)` (equivalently `xs.sort(key=lambda x: -k(x))`):
 * a stable sort into descending key order, modelled as insertion sort.
 */
module StableSort {

  predicate SortedDesc<T>(s: seq<T>, key: T -> real) {
    forall i, j :: 0 <= i < j < |s| ==> key(s[i]) >= key(s[j])
  }

  /** `[y]` when `y` has key `v`, else nothing. */
  function Keep<T>(y: T, key: T -> real, v: real): (r: seq<T>)
    ensures key(y) == v ==> r == [y]
    ensures key(y) != v ==> r == []
  {
    if key(y) == v then [y] else []
  }

  /** The elements whose key is `v`, in order. */
  function WithKey<T>(s: seq<T>, key: T -> real, v: real): (r: seq<T>)
    ensures |r| <= |s|
  {
    if s == [] then [] else Keep(s[0], key, v) + WithKey(s[1..], key, v)
  }

  /** Place `x` after every element with a larger key and before the rest. */
  function InsertDesc<T>(x: T, s: seq<T>, key: T -> real): (r: seq<T>)
    ensures multiset(r) == multiset(s) + multiset{x}
    ensures forall i :: 0 <= i < |r| ==> r[i] == x || r[i] in s
  {
    if s == [] || key(s[0]) <= key(x) then
      [x] + s
    else
      assert s == [s[0]] + s[1..];
      [s[0]] + InsertDesc(x, s[1..], key)
  }

  lemma {:induction false} InsertDescSorted<T>(x: T, s: seq<T>, key: T -> real)
    requires SortedDesc(s, key)
    ensures SortedDesc(InsertDesc(x, s, key), key)
  {
    var r := InsertDesc(x, s, key);
    if s == [] || key(s[0]) <= key(x) {
      forall i, j | 0 <= i < j < |r| ensures key(r[i]) >= key(r[j]) {
        if i == 0 {
          assert r[j] == s[j - 1];
          assert key(s[0]) >= key(s[j - 1]);
        } else {
          assert r[i] == s[i - 1] && r[j] == s[j - 1];
        }
      }
    } else {
      var rest := InsertDesc(x, s[1..], key);
      InsertDescSorted(x, s[1..], key);
      assert r == [s[0]] + rest;
      forall i, j | 0 <= i < j < |r| ensures key(r[i]) >= key(r[j]) {
        if i == 0 {
          assert r[j] == rest[j - 1];
          if rest[j - 1] != x {
            var m :| 0 <= m < |s[1..]| && s[1..][m] == rest[j - 1];
            assert s[m + 1] == rest[j - 1];
          }
        } else {
          assert r[i] == rest[i - 1] && r[j] == rest[j - 1];
        }
      }
    }
  }

  /** Unfolding `WithKey` once on a sequence with a known head. */
  lemma WithKeyCons<T>(y: T, s: seq<T>, key: T -> real, v: real)
    ensures WithKey([y] + s, key, v) == Keep(y, key, v) + WithKey(s, key, v)
  {
    assert ([y] + s)[0] == y && ([y] + s)[1..] == s;
  }

  /** Of two elements with different keys at most one is kept, so their order does not matter. */
  lemma KeepSwap<T>(a: T, b: T, key: T -> real, v: real, rest: seq<T>)
    requires key(a) != key(b)
    ensures Keep(a, key, v) + (Keep(b, key, v) + rest) == Keep(b, key, v) + (Keep(a, key, v) + rest)
  {
    if key(a) == v {
      assert Keep(b, key, v) + rest == rest;
    } else if key(b) == v {
      assert Keep(a, key, v) + rest == rest;
    } else {
      assert Keep(a, key, v) + rest == rest;
      assert Keep(b, key, v) + rest == rest;
    }
  }

  lemma {:induction false} InsertDescWithKey<T>(x: T, s: seq<T>, key: T -> real, v: real)
    ensures WithKey(InsertDesc(x, s, key), key, v) == Keep(x, key, v) + WithKey(s, key, v)
  {
    if s != [] && key(s[0]) > key(x) {
      var rest := InsertDesc(x, s[1..], key);
      InsertDescWithKey(x, s[1..], key, v);
      assert InsertDesc(x, s, key) == [s[0]] + rest;
      WithKeyCons(s[0], rest, key, v);
      WithKeyCons(s[0], s[1..], key, v);
      assert s == [s[0]] + s[1..];
      KeepSwap(s[0], x, key, v, WithKey(s[1..], key, v));
    } else {
      WithKeyCons(x, s, key, v);
    }
  }

  /** `sorted(xs, key=key, reverse=True)` */
  function SortDesc<T>(xs: seq<T>, key: T -> real): (r: seq<T>)
    ensures multiset(r) == multiset(xs) && |r| == |xs|
    ensures SortedDesc(r, key)
  {
    if xs == [] then []
    else
      assert xs == [xs[0]] + xs[1..];
      InsertDescSorted(xs[0], SortDesc(xs[1..], key), key);
      InsertDesc(xs[0], SortDesc(xs[1..], key), key)
  }

  /** Equal keys keep their original relative order. */
  lemma {:induction false} SortDescStable<T>(xs: seq<T>, key: T -> real, v: real)
    ensures WithKey(SortDesc(xs, key), key, v) == WithKey(xs, key, v)
  {
    if xs != [] {
      SortDescStable(xs[1..], key, v);
      InsertDescWithKey(xs[0], SortDesc(xs[1..], key), key, v);
    }
  }

  /** Sorting a sequence that is already in descending order leaves it unchanged. */
  lemma {:induction false} SortDescSorted<T>(xs: seq<T>, key: T -> real)
    requires SortedDesc(xs, key)
    ensures SortDesc(xs, key) == xs
  {
    if xs != [] {
      assert SortedDesc(xs[1..], key);
      SortDescSorted(xs[1..], key);
      assert xs == [xs[0]] + xs[1..];
    }
  }
}
