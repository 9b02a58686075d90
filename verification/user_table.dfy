/**
 * A table whose rows each belong to one user, kept in insertion order: the per-user
 * query `filter(user_id == u).all()` and the per-user delete `filter(user_id == u).delete()`.
 */
module UserTable {

  /** The rows of user `u`, in table order. */
  function Owned<T>(rows: seq<T>, owner: T -> int, u: int): (r: seq<T>)
    ensures forall i :: 0 <= i < |r| ==> owner(r[i]) == u
    ensures |r| <= |rows|
  {
    if rows == [] then []
    else (if owner(rows[0]) == u then [rows[0]] else []) + Owned(rows[1..], owner, u)
  }

  lemma {:induction false} OwnedAppend<T>(a: seq<T>, b: seq<T>, owner: T -> int, u: int)
    ensures Owned(a + b, owner, u) == Owned(a, owner, u) + Owned(b, owner, u)
  {
    if a == [] {
      assert a + b == b;
    } else {
      assert (a + b)[0] == a[0];
      assert (a + b)[1..] == a[1..] + b;
      OwnedAppend(a[1..], b, owner, u);
    }
  }

  /** Rows that all belong to `u` are all of `u`'s rows, and none of anyone else's. */
  lemma {:induction false} OwnedAll<T>(rows: seq<T>, owner: T -> int, u: int, v: int)
    requires forall i :: 0 <= i < |rows| ==> owner(rows[i]) == u
    ensures Owned(rows, owner, v) == if v == u then rows else []
  {
    if rows != [] {
      OwnedAll(rows[1..], owner, u, v);
    }
  }

  /** The table after deleting the rows of user `u`. */
  function Without<T>(rows: seq<T>, owner: T -> int, u: int): (r: seq<T>)
    ensures forall i :: 0 <= i < |r| ==> owner(r[i]) != u && r[i] in rows
    ensures forall v :: v != u ==> Owned(r, owner, v) == Owned(rows, owner, v)
    ensures Owned(r, owner, u) == []
  {
    if rows == [] then []
    else
      var head := if owner(rows[0]) == u then [] else [rows[0]];
      var rest := Without(rows[1..], owner, u);
      assert rows == [rows[0]] + rows[1..];
      OwnedAppend(head, rest, owner, u);
      forall v | v != u ensures Owned(head + rest, owner, v) == Owned(rows, owner, v) {
        OwnedAppend([rows[0]], rows[1..], owner, v);
        OwnedAppend(head, rest, owner, v);
      }
      head + rest
  }

  /**
   * Replacing user `u`'s rows with `added`, all of them `u`'s, gives `u` exactly `added`
   * and leaves every other user's rows alone.
   */
  lemma Replace<T>(rows: seq<T>, added: seq<T>, owner: T -> int, u: int, v: int)
    requires forall i :: 0 <= i < |added| ==> owner(added[i]) == u
    ensures Owned(Without(rows, owner, u) + added, owner, v) == if v == u then added else Owned(rows, owner, v)
  {
    OwnedAppend(Without(rows, owner, u), added, owner, v);
    OwnedAll(added, owner, u, v);
  }

  /** Changing a row without changing its owner leaves every other user's rows alone. */
  lemma {:induction false} OwnedUpdate<T>(rows: seq<T>, i: nat, t: T, owner: T -> int, v: int)
    requires i < |rows| && owner(t) == owner(rows[i]) && owner(rows[i]) != v
    ensures Owned(rows[i := t], owner, v) == Owned(rows, owner, v)
  {
    if i > 0 {
      assert rows[i := t][1..] == rows[1..][i - 1 := t];
      OwnedUpdate(rows[1..], i - 1, t, owner, v);
    }
  }
}
