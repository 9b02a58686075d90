/**
 * The scheduled-task endpoints over an abstract task table with a per-user cache:
 * GET reads through the cache, POST replaces all of a user's tasks, PATCH sets the
 * status of one task. The table keeps rows in insertion order and numbers new rows
 * from a counter, as an auto-increment key does.
 */
module TaskStore {
  import opened Wrappers
  import opened ReadThrough
  import opened UserTable

  /** The fields of a task request; dates are day numbers and times minutes of the day. */
  datatype TaskFields = TaskFields(
    userId: int, moduleNumber: int, skill: string, date: int,
    resourceName: string, resourceUrl: string, thumbnailUrl: string,
    start: int, end: int, status: string)

  datatype Task = Task(id: nat, fields: TaskFields)

  datatype Store = Store(rows: seq<Task>, nextId: nat, cache: Cache<Task>)

  function Owner(t: Task): int {
    t.fields.userId
  }

  /** `filter(Scheduled_Tasks.user_id == u).all()`, in table order. */
  function UserTasks(rows: seq<Task>, u: int): seq<Task> {
    Owned(rows, Owner, u)
  }

  /** Every cache entry holds exactly the user's rows. */
  predicate Coherent(s: Store) {
    forall u :: u in s.cache ==> s.cache[u] == UserTasks(s.rows, u)
  }

  /** Row ids are distinct and below the counter. */
  predicate ValidIds(s: Store) {
    (forall i :: 0 <= i < |s.rows| ==> s.rows[i].id < s.nextId)
    && forall i, j :: 0 <= i < j < |s.rows| ==> s.rows[i].id != s.rows[j].id
  }

  predicate Valid(s: Store) {
    Coherent(s) && ValidIds(s)
  }

  // ---------------------------------------------------------------------------
  // GET
  // ---------------------------------------------------------------------------

  datatype Answer = Answer(tasks: seq<Task>, store: Store)

  /** `get_scheduled_tasks(u)` */
  function GetTasks(s: Store, u: int): (r: Answer)
    ensures r.store.rows == s.rows && r.store.nextId == s.nextId
  {
    var read := ReadList(s.cache, u, UserTasks(s.rows, u));
    Answer(read.value, s.(cache := read.cache))
  }

  /** With a coherent cache, GET answers exactly the user's rows and keeps the cache coherent. */
  lemma GetReadsTable(s: Store, u: int)
    requires Coherent(s)
    ensures GetTasks(s, u).tasks == UserTasks(s.rows, u)
    ensures Coherent(GetTasks(s, u).store)
  {
    ReadFresh(s.cache, u, UserTasks(s.rows, u));
  }

  /** The LRU policy dropping an entry. */
  function Evict(s: Store, u: int): (r: Store)
    ensures Coherent(s) ==> Coherent(r)
    ensures r.rows == s.rows && u !in r.cache
  {
    s.(cache := s.cache - {u})
  }

  // ---------------------------------------------------------------------------
  // POST
  // ---------------------------------------------------------------------------

  /**
   * The rows `add_all` inserts: one per request item, in order, each owned by the user id the
   * item carries, with fresh ids from `next` up that increase along the sequence.
   */
  function NewRows(reqs: seq<TaskFields>, next: nat): (r: seq<Task>)
    ensures |r| == |reqs|
    ensures forall i :: 0 <= i < |r| ==> r[i] == Task(next + i, reqs[i])
    ensures forall i :: 0 <= i < |r| ==> r[i].fields == reqs[i] && Owner(r[i]) == reqs[i].userId
    ensures forall i :: 0 <= i < |r| ==> next <= r[i].id < next + |reqs|
    ensures forall i, j :: 0 <= i < j < |r| ==> r[i].id < r[j].id
    ensures DistinctIds(r)
  {
    seq(|reqs|, i requires 0 <= i < |reqs| => Task(next + i, reqs[i]))
  }

  /** The user ids the request rows carry. */
  function RequestUsers(reqs: seq<TaskFields>): (r: set<int>)
    ensures forall v :: v in r <==> exists i :: 0 <= i < |reqs| && reqs[i].userId == v
  {
    set i | 0 <= i < |reqs| :: reqs[i].userId
  }

  /** The table after POST: the path user's rows deleted, the request rows appended. */
  function Replaced(s: Store, u: int, reqs: seq<TaskFields>): Store {
    Store(Without(s.rows, Owner, u) + NewRows(reqs, s.nextId), s.nextId + |reqs|, s.cache)
  }

  datatype Posted = Posted(tasksAdded: nat, store: Store)

  /** `update_scheduled_tasks(u, request)` as written: only the path user's entry is dropped. */
  function PostTasksAsWritten(s: Store, u: int, reqs: seq<TaskFields>): (r: Posted)
    ensures r.tasksAdded == |reqs|
    ensures r.store.rows == Replaced(s, u, reqs).rows
    ensures u !in r.store.cache
  {
    var t := Replaced(s, u, reqs);
    Posted(|reqs|, t.(cache := t.cache - {u}))
  }

  /** POST with the entries of every user whose rows changed dropped: the path user and the request's users. */
  function PostTasks(s: Store, u: int, reqs: seq<TaskFields>): (r: Posted)
    ensures r.tasksAdded == |reqs|
    ensures r.store.rows == Replaced(s, u, reqs).rows
    ensures u !in r.store.cache && forall v :: v in RequestUsers(reqs) ==> v !in r.store.cache
  {
    var t := Replaced(s, u, reqs);
    Posted(|reqs|, t.(cache := t.cache - ({u} + RequestUsers(reqs))))
  }

  /** The request rows of user `v`, numbered as inserted. */
  lemma NewRowsOf(reqs: seq<TaskFields>, next: nat, v: int)
    requires forall i :: 0 <= i < |reqs| ==> reqs[i].userId != v
    ensures UserTasks(NewRows(reqs, next), v) == []
    decreases |reqs|
  {
    if reqs != [] {
      assert NewRows(reqs, next)[1..] == NewRows(reqs[1..], next + 1);
      NewRowsOf(reqs[1..], next + 1, v);
    }
  }

  /**
   * After POST the path user's rows are exactly the request rows that carry the path id,
   * and every user the request does not mention keeps exactly their rows.
   */
  lemma PostReplacesRows(s: Store, u: int, reqs: seq<TaskFields>, v: int)
    ensures UserTasks(PostTasks(s, u, reqs).store.rows, u) == UserTasks(NewRows(reqs, s.nextId), u)
    ensures v != u && v !in RequestUsers(reqs) ==>
      UserTasks(PostTasks(s, u, reqs).store.rows, v) == UserTasks(s.rows, v)
  {
    OwnedAppend(Without(s.rows, Owner, u), NewRows(reqs, s.nextId), Owner, u);
    OwnedAppend(Without(s.rows, Owner, u), NewRows(reqs, s.nextId), Owner, v);
    if v != u && v !in RequestUsers(reqs) {
      NewRowsOf(reqs, s.nextId, v);
    }
  }

  /** When every request row carries the path id, the user's rows after POST are the request rows, in order. */
  lemma PostOwnRows(s: Store, u: int, reqs: seq<TaskFields>)
    requires forall i :: 0 <= i < |reqs| ==> reqs[i].userId == u
    ensures UserTasks(PostTasks(s, u, reqs).store.rows, u) == NewRows(reqs, s.nextId)
  {
    Replace(s.rows, NewRows(reqs, s.nextId), Owner, u, u);
  }

  predicate DistinctIds(rows: seq<Task>) {
    forall i, j :: 0 <= i < j < |rows| ==> rows[i].id != rows[j].id
  }

  /** Deleting rows keeps ids distinct. */
  lemma {:induction false} WithoutDistinct(rows: seq<Task>, u: int)
    requires DistinctIds(rows)
    ensures DistinctIds(Without(rows, Owner, u))
  {
    if rows != [] {
      var rest := Without(rows[1..], Owner, u);
      WithoutDistinct(rows[1..], u);
      forall k | 0 <= k < |rest| ensures rest[k].id != rows[0].id {
        var p :| 0 <= p < |rows[1..]| && rows[1..][p] == rest[k];
        assert rows[p + 1] == rest[k];
      }
    }
  }

  /** POST keeps ids distinct and below the counter. */
  lemma PostValidIds(s: Store, u: int, reqs: seq<TaskFields>)
    requires ValidIds(s)
    ensures ValidIds(PostTasks(s, u, reqs).store)
  {
    var kept := Without(s.rows, Owner, u);
    assert DistinctIds(s.rows);
    WithoutDistinct(s.rows, u);
    forall i | 0 <= i < |kept| ensures kept[i].id < s.nextId {
      assert kept[i] in s.rows;
    }
    FreshRowsValid(kept, reqs, s.nextId);
  }

  /** Rows with distinct ids below `next`, followed by rows numbered from `next` on, have distinct ids below the new counter. */
  lemma FreshRowsValid(kept: seq<Task>, reqs: seq<TaskFields>, next: nat)
    requires DistinctIds(kept) && forall i :: 0 <= i < |kept| ==> kept[i].id < next
    ensures var rows := kept + NewRows(reqs, next);
      DistinctIds(rows) && forall i :: 0 <= i < |rows| ==> rows[i].id < next + |reqs|
  {
    var added := NewRows(reqs, next);
    var rows := kept + added;
    forall i | 0 <= i < |rows| ensures rows[i].id < next + |reqs| && (i >= |kept| ==> rows[i].id == next + (i - |kept|)) {
      if i >= |kept| {
        assert rows[i] == added[i - |kept|];
      } else {
        assert rows[i] == kept[i];
      }
    }
  }

  /** POST keeps the cache coherent. */
  lemma PostCoherent(s: Store, u: int, reqs: seq<TaskFields>)
    requires Coherent(s)
    ensures Coherent(PostTasks(s, u, reqs).store)
  {
    var t := PostTasks(s, u, reqs).store;
    forall v | v in t.cache ensures t.cache[v] == UserTasks(t.rows, v) {
      PostReplacesRows(s, u, reqs, v);
    }
  }

  /** As written, POST keeps the cache coherent when every request row carries the path id. */
  lemma PostAsWrittenCoherentOwnRows(s: Store, u: int, reqs: seq<TaskFields>)
    requires Coherent(s)
    requires forall i :: 0 <= i < |reqs| ==> reqs[i].userId == u
    ensures Coherent(PostTasksAsWritten(s, u, reqs).store)
    ensures PostTasksAsWritten(s, u, reqs) == PostTasks(s, u, reqs)
  {
    assert {u} + RequestUsers(reqs) == {u};
    PostCoherent(s, u, reqs);
  }

  /** The cache goes stale when a request row names another user whose list is cached. */
  lemma PostAsWrittenGoesStale()
    ensures var task := TaskFields(2, 1, "Python", 0, "r", "", "", 480, 540, "pending");
      var s := Store([Task(0, task)], 1, map[2 := [Task(0, task)]]);
      && Coherent(s)
      && var t := PostTasksAsWritten(s, 1, [task]).store;
      && GetTasks(t, 2).tasks == [Task(0, task)]
      && UserTasks(t.rows, 2) == [Task(0, task), Task(1, task)]
  {
    var task := TaskFields(2, 1, "Python", 0, "r", "", "", 480, 540, "pending");
    var s := Store([Task(0, task)], 1, map[2 := [Task(0, task)]]);
    assert UserTasks(s.rows, 2) == [Task(0, task)];
    var t := PostTasksAsWritten(s, 1, [task]).store;
    assert Without(s.rows, Owner, 1) == [Task(0, task)];
    assert t.rows == [Task(0, task), Task(1, task)];
    assert UserTasks(t.rows, 2) == [Task(0, task)] + UserTasks([Task(1, task)], 2);
  }

  // ---------------------------------------------------------------------------
  // PATCH
  // ---------------------------------------------------------------------------

  /** `filter(Scheduled_Tasks.id == id).first()` */
  function FindTask(rows: seq<Task>, id: nat): (r: Option<nat>)
    ensures r.None? <==> forall i :: 0 <= i < |rows| ==> rows[i].id != id
    ensures r.Some? ==> r.value < |rows| && rows[r.value].id == id
    ensures r.Some? ==> forall i :: 0 <= i < r.value ==> rows[i].id != id
  {
    if rows == [] then None
    else if rows[0].id == id then Some(0)
    else match FindTask(rows[1..], id)
      case None => None
      case Some(i) => Some(i + 1)
  }

  /** `update_task_status(id, status)`: 404 for an unknown id, else the one status set and its user's entry dropped. */
  function PatchStatus(s: Store, id: nat, status: string): (r: Result<Store, HttpError>)
    ensures r.Err? <==> forall i :: 0 <= i < |s.rows| ==> s.rows[i].id != id
    ensures r.Err? ==> r.error == NotFound
    ensures r.Ok? ==> |r.value.rows| == |s.rows| && r.value.nextId == s.nextId
    ensures r.Ok? ==> forall i :: 0 <= i < |s.rows| ==>
      if s.rows[i].id == id && FindTask(s.rows, id).value == i
      then r.value.rows[i] == s.rows[i].(fields := s.rows[i].fields.(status := status))
      else r.value.rows[i] == s.rows[i]
  {
    match FindTask(s.rows, id)
    case None => Err(NotFound)
    case Some(i) =>
      var t := s.rows[i];
      Ok(Store(s.rows[i := t.(fields := t.fields.(status := status))], s.nextId, s.cache - {t.fields.userId}))
  }

  /** PATCH keeps the cache coherent and the ids valid. */
  lemma PatchValid(s: Store, id: nat, status: string)
    requires Valid(s)
    ensures PatchStatus(s, id, status).Ok? ==> Valid(PatchStatus(s, id, status).value)
  {
    match FindTask(s.rows, id)
    case None =>
    case Some(i) =>
      var t := s.rows[i];
      var nt := t.(fields := t.fields.(status := status));
      var r := PatchStatus(s, id, status).value;
      forall v | v in r.cache ensures r.cache[v] == UserTasks(r.rows, v) {
        OwnedUpdate(s.rows, i, nt, Owner, v);
      }
  }

  /** With distinct ids the task PATCH touches is the only one carrying that id. */
  lemma PatchTouchesOne(s: Store, id: nat, status: string, j: nat)
    requires ValidIds(s) && PatchStatus(s, id, status).Ok? && j < |s.rows|
    ensures s.rows[j].id != id ==> PatchStatus(s, id, status).value.rows[j] == s.rows[j]
    ensures s.rows[j].id == id ==> PatchStatus(s, id, status).value.rows[j].fields.status == status
    ensures s.rows[j].id == id ==> PatchStatus(s, id, status).value.rows[j].id == id
  {
  }
}
