/**
 * Python dictionaries: key-value pairs in insertion order with distinct keys.
 * Writing an existing key replaces its value and keeps its position; writing a new key
 * appends it.
 */
module PyDict {
  import opened Wrappers

  predicate DistinctKeys<K(==), V>(d: seq<(K, V)>) {
    forall i, j :: 0 <= i < j < |d| ==> d[i].0 != d[j].0
  }

  type Dict<K(==,!new), V> = d: seq<(K, V)> | DistinctKeys(d) witness []

  function Keys<K(==,!new), V>(d: Dict<K, V>): (r: seq<K>)
    ensures |r| == |d| && forall i :: 0 <= i < |d| ==> r[i] == d[i].0
  {
    seq(|d|, i requires 0 <= i < |d| => d[i].0)
  }

  /** `d.get(k)` */
  function Get<K(==,!new), V>(d: Dict<K, V>, k: K): (r: Option<V>)
    ensures r.Some? <==> exists i :: 0 <= i < |d| && d[i].0 == k
    ensures forall i :: 0 <= i < |d| && d[i].0 == k ==> r == Some(d[i].1)
  {
    if d == [] then None
    else if d[0].0 == k then Some(d[0].1)
    else
      var r := Get(d[1..], k);
      assert forall i :: 1 <= i < |d| ==> d[1..][i - 1] == d[i];
      r
  }

  /** `d.get(k, default)` */
  function GetOr<K(==,!new), V>(d: Dict<K, V>, k: K, default: V): V {
    Get(d, k).GetOr(default)
  }

  /** Position of key `k`, if present. */
  function IndexOfKey<K(==,!new), V>(d: Dict<K, V>, k: K): (r: Option<nat>)
    ensures r.Some? ==> r.value < |d| && d[r.value].0 == k
    ensures r.None? <==> Get(d, k).None?
  {
    if d == [] then None
    else if d[0].0 == k then Some(0)
    else match IndexOfKey(d[1..], k)
      case None => None
      case Some(i) => Some(i + 1)
  }

  /** `d[k] = v` */
  function Put<K(==,!new), V>(d: Dict<K, V>, k: K, v: V): (r: Dict<K, V>)
    ensures Get(d, k).Some? ==> |r| == |d| && forall i :: 0 <= i < |d| ==> r[i].0 == d[i].0
    ensures Get(d, k).None? ==> r == d + [(k, v)]
  {
    match IndexOfKey(d, k)
    case Some(i) => d[i := (k, v)]
    case None =>
      assert forall i :: 0 <= i < |d| ==> d[i].0 != k;
      d + [(k, v)]
  }

  /** Reading back what was written, and nothing else disturbed. */
  lemma GetPut<K(!new), V>(d: Dict<K, V>, k: K, v: V, k': K)
    ensures Get(Put(d, k, v), k') == if k' == k then Some(v) else Get(d, k')
  {
    var r := Put(d, k, v);
    if k' == k {
      match IndexOfKey(d, k)
      case Some(i) => assert r[i] == (k, v);
      case None => assert r[|d|] == (k, v);
    } else {
      if Get(d, k').Some? {
        var i :| 0 <= i < |d| && d[i].0 == k';
        assert r[i] == d[i];
      }
      if Get(r, k').Some? {
        var i :| 0 <= i < |r| && r[i].0 == k';
        assert i < |d| && r[i] == d[i];
      }
    }
  }

  /** Building a dict from pairs, later pairs overwriting earlier ones: `{k: v for k, v in pairs}`. */
  function FromPairs<K(==,!new), V>(pairs: seq<(K, V)>): (r: Dict<K, V>)
    ensures forall k :: Get(r, k).Some? <==> exists i :: 0 <= i < |pairs| && pairs[i].0 == k
  {
    if pairs == [] then []
    else
      var init := FromPairs(pairs[..|pairs| - 1]);
      var r := Put(init, pairs[|pairs| - 1].0, pairs[|pairs| - 1].1);
      assert forall i :: 0 <= i < |pairs| - 1 ==> pairs[..|pairs| - 1][i] == pairs[i];
      forall k ensures Get(r, k) == if k == pairs[|pairs| - 1].0 then Some(pairs[|pairs| - 1].1) else Get(init, k) {
        GetPut(init, pairs[|pairs| - 1].0, pairs[|pairs| - 1].1, k);
      }
      r
  }

  /** The last pair for a key wins. */
  lemma {:induction false} FromPairsLastWins<K(!new), V>(pairs: seq<(K, V)>, i: nat)
    requires i < |pairs|
    requires forall j :: i < j < |pairs| ==> pairs[j].0 != pairs[i].0
    ensures Get(FromPairs(pairs), pairs[i].0) == Some(pairs[i].1)
  {
    var init := FromPairs(pairs[..|pairs| - 1]);
    GetPut(init, pairs[|pairs| - 1].0, pairs[|pairs| - 1].1, pairs[i].0);
    if i < |pairs| - 1 {
      FromPairsLastWins(pairs[..|pairs| - 1], i);
    }
  }

  /** Two dicts with the same keys in the same positions answer lookups position by position. */
  lemma GetAligned<K(!new), V, W>(d: Dict<K, V>, r: Dict<K, W>)
    requires |r| == |d| && forall i :: 0 <= i < |d| ==> r[i].0 == d[i].0
    ensures forall k :: Get(r, k).Some? <==> Get(d, k).Some?
    ensures forall i :: 0 <= i < |d| ==> Get(r, d[i].0) == Some(r[i].1)
  {
  }

  /** Every entry after `d[k] = v` is either the new entry or an old one. */
  lemma PutEntries<K(!new), V>(d: Dict<K, V>, k: K, v: V)
    ensures forall i :: 0 <= i < |Put(d, k, v)| ==> Put(d, k, v)[i] == (k, v) || Put(d, k, v)[i] in d
  {
  }
}
