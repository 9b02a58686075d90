/**
 * The per-user read-through caches in front of the task and skill tables: a GET answers
 * from the cache when it holds a non-empty list, otherwise reads the table and caches the
 * rows only when there are some. Writes drop the user's entry; the LRU policy may drop
 * any entry at any time.
 */
module ReadThrough {

  /** user id -> cached rows */
  type Cache<T> = map<int, seq<T>>

  /** What one GET answers and the cache it leaves behind. */
  datatype Read<T> = Read(value: seq<T>, cache: Cache<T>)

  /**
   * `cached = get(u); if cached: return cached; rows = query(u); if not rows: return [];
   * cache(u, rows); return rows`
   */
  function ReadList<T>(cache: Cache<T>, u: int, stored: seq<T>): (r: Read<T>)
    ensures u in cache && |cache[u]| > 0 ==> r == Read(cache[u], cache)
    ensures !(u in cache && |cache[u]| > 0) ==> r.value == stored
    ensures forall v :: v != u ==> (v in r.cache <==> v in cache) && (v in cache ==> r.cache[v] == cache[v])
    ensures u in r.cache ==> (u in cache && r.cache[u] == cache[u]) || (r.cache[u] == stored && |stored| > 0)
  {
    if u in cache && |cache[u]| > 0 then Read(cache[u], cache)
    else if |stored| == 0 then Read([], cache)
    else Read(stored, cache[u := stored])
  }

  /** The cache entry for `u`, if any, agrees with the table. */
  ghost predicate Fresh<T>(cache: Cache<T>, u: int, stored: seq<T>) {
    u in cache ==> cache[u] == stored
  }

  /** A fresh entry makes the cache invisible: the GET answers what the table holds and stays fresh. */
  lemma ReadFresh<T>(cache: Cache<T>, u: int, stored: seq<T>)
    requires Fresh(cache, u, stored)
    ensures ReadList(cache, u, stored).value == stored
    ensures Fresh(ReadList(cache, u, stored).cache, u, stored)
  {
  }
}
