/**
 * The task board's shared state: the fetched task list, its active and
 * completed partitions, the abstract `tasks` table, and the four handlers
 * that act on them (loading, status change, creation and drag-and-drop
 * reordering).
 *
 * The database is the `table` field, a map from task id to stored row.
 * Query outcomes and write failures are inputs of the handlers.
 */
module TasksContext {
  import opened TaskTypes
  import opened TaskServices
  import opened Departments

  // ---------------------------------------------------------------------------
  // Status partitions.

  /** `tasks.filter((task) => task.status === status)`. */
  function StatusFilter(ts: seq<Task>, status: string): (r: seq<Task>)
    ensures |r| <= |ts|
  {
    if ts == [] then []
    else (if ts[0].status == status then [ts[0]] else []) + StatusFilter(ts[1..], status)
  }

  function ActiveOf(ts: seq<Task>): seq<Task>
  {
    StatusFilter(ts, ACTIVE)
  }

  function CompletedOf(ts: seq<Task>): seq<Task>
  {
    StatusFilter(ts, COMPLETED)
  }

  /** A task is in a partition exactly when it is in the list with that status. */
  lemma {:induction false} StatusFilterMembership(ts: seq<Task>, status: string, t: Task)
    ensures t in StatusFilter(ts, status) <==> t in ts && t.status == status
  {
    if ts != [] {
      StatusFilterMembership(ts[1..], status, t);
      assert ts == [ts[0]] + ts[1..];
    }
  }

  /** Filtering is order-preserving: it distributes over concatenation. */
  lemma {:induction false} StatusFilterConcat(a: seq<Task>, b: seq<Task>, status: string)
    ensures StatusFilter(a + b, status) == StatusFilter(a, status) + StatusFilter(b, status)
  {
    if a != [] {
      StatusFilterConcat(a[1..], b, status);
      var head := if a[0].status == status then [a[0]] else [];
      assert (a + b)[0] == a[0];
      assert (a + b)[1..] == a[1..] + b;
      assert StatusFilter(a + b, status) == head + StatusFilter(a[1..] + b, status);
      assert StatusFilter(a, status) == head + StatusFilter(a[1..], status);
    } else {
      assert a + b == b;
    }
  }

  /** The partitions are disjoint and, together, never larger than the list. */
  lemma {:induction false} PartitionsDisjoint(ts: seq<Task>)
    ensures forall t :: t in ActiveOf(ts) ==> t !in CompletedOf(ts)
    ensures |ActiveOf(ts)| + |CompletedOf(ts)| <= |ts|
    ensures (forall i :: 0 <= i < |ts| ==> ts[i].status in {ACTIVE, COMPLETED}) ==>
      |ActiveOf(ts)| + |CompletedOf(ts)| == |ts|
  {
    forall t | t in ActiveOf(ts)
      ensures t !in CompletedOf(ts)
    {
      StatusFilterMembership(ts, ACTIVE, t);
      StatusFilterMembership(ts, COMPLETED, t);
    }
    if ts != [] {
      PartitionsDisjoint(ts[1..]);
    }
  }

  // ---------------------------------------------------------------------------
  // Status change (local part).

  function StatusFor(completed: bool): string
  {
    if completed then COMPLETED else ACTIVE
  }

  /** The `map` of `handleStatusChange`: rewrite the status of the task with `id`. */
  function SetStatus(ts: seq<Task>, id: string, completed: bool): (r: seq<Task>)
    ensures |r| == |ts|
  {
    seq(|ts|, i requires 0 <= i < |ts| =>
      if ts[i].id == id then ts[i].(status := StatusFor(completed)) else ts[i])
  }

  /**
   * A status change touches only the status of the task with the given id:
   * every other task and every other field stays as it was.
   */
  lemma SetStatusOnlyTouchesTarget(ts: seq<Task>, id: string, completed: bool)
    ensures var r := SetStatus(ts, id, completed);
      && |r| == |ts|
      && (forall i :: 0 <= i < |ts| && ts[i].id != id ==> r[i] == ts[i])
      && (forall i :: 0 <= i < |ts| && ts[i].id == id ==>
            r[i].status == StatusFor(completed) && r[i].(status := ts[i].status) == ts[i])
  {
  }

  /**
   * After the change, the task with `id` sits in the partition its new
   * status names, and every other task keeps its partition.
   */
  lemma SetStatusMovesBetweenPartitions(ts: seq<Task>, id: string, completed: bool, t: Task)
    requires t in SetStatus(ts, id, completed)
    ensures t.id == id ==> (t in ActiveOf(SetStatus(ts, id, completed)) <==> !completed)
    ensures t.id == id ==> (t in CompletedOf(SetStatus(ts, id, completed)) <==> completed)
    ensures t.id != id ==> (t in ActiveOf(SetStatus(ts, id, completed)) <==> t in ActiveOf(ts))
    ensures t.id != id ==> (t in CompletedOf(SetStatus(ts, id, completed)) <==> t in CompletedOf(ts))
  {
    var r := SetStatus(ts, id, completed);
    StatusFilterMembership(r, ACTIVE, t);
    StatusFilterMembership(r, COMPLETED, t);
    StatusFilterMembership(ts, ACTIVE, t);
    StatusFilterMembership(ts, COMPLETED, t);
    var i :| 0 <= i < |r| && r[i] == t;
    if t.id != id {
      assert ts[i] == t;
    } else {
      assert t.status == StatusFor(completed);
    }
  }

  // ---------------------------------------------------------------------------
  // Single-element list move.

  /** `findIndex` by id: the first index carrying `id`, or -1. */
  function FindIndex(ts: seq<Task>, id: string): (r: int)
    ensures -1 <= r < |ts|
    ensures r == -1 <==> forall i :: 0 <= i < |ts| ==> ts[i].id != id
    ensures r >= 0 ==> ts[r].id == id && forall j :: 0 <= j < r ==> ts[j].id != id
  {
    if ts == [] then -1
    else if ts[0].id == id then 0
    else
      var r := FindIndex(ts[1..], id);
      if r == -1 then -1 else r + 1
  }

  /** `splice(i, 1)`: the list without its element at `i`. */
  function RemoveAt<T>(s: seq<T>, i: nat): (r: seq<T>)
    requires i < |s|
    ensures |r| == |s| - 1
  {
    s[..i] + s[i + 1..]
  }

  /** `splice(i, 0, x)`: the list with `x` inserted before index `i`. */
  function InsertAt<T>(s: seq<T>, i: nat, x: T): (r: seq<T>)
    requires i <= |s|
    ensures |r| == |s| + 1
  {
    s[..i] + [x] + s[i..]
  }

  /** Take the element at `from` out and put it back in at `to`. */
  function Move<T>(s: seq<T>, from: nat, to: nat): (r: seq<T>)
    requires from < |s| && to < |s|
    ensures |r| == |s|
  {
    InsertAt(RemoveAt(s, from), to, s[from])
  }

  /**
   * Where every element of a move ends up: the moved element lands at `to`;
   * the elements between the two indices shift by one slot towards `from`;
   * all others stay where they were.
   */
  lemma MoveAt<T>(s: seq<T>, from: nat, to: nat, i: nat)
    requires from < |s| && to < |s| && i < |s|
    ensures Move(s, from, to)[i] ==
      if i == to then s[from]
      else if from < to && from <= i < to then s[i + 1]
      else if to < from && to < i <= from then s[i - 1]
      else s[i]
  {
  }

  /** A move is a permutation: same length, same elements with the same multiplicities. */
  lemma MoveIsPermutation<T>(s: seq<T>, from: nat, to: nat)
    requires from < |s| && to < |s|
    ensures |Move(s, from, to)| == |s|
    ensures multiset(Move(s, from, to)) == multiset(s)
  {
    var rest := RemoveAt(s, from);
    assert s == s[..from] + [s[from]] + s[from + 1..];
    assert rest[..to] + rest[to..] == rest;
    calc {
      multiset(Move(s, from, to));
      multiset(rest[..to]) + multiset([s[from]]) + multiset(rest[to..]);
      multiset(rest) + multiset([s[from]]);
      multiset(s[..from]) + multiset(s[from + 1..]) + multiset([s[from]]);
      multiset(s);
    }
  }

  /**
   * The moved element lands at `to`, and the others keep their relative
   * order: taking the moved element back out gives the list without it.
   */
  lemma MoveKeepsRelativeOrder<T>(s: seq<T>, from: nat, to: nat)
    requires from < |s| && to < |s|
    ensures Move(s, from, to)[to] == s[from]
    ensures RemoveAt(Move(s, from, to), to) == RemoveAt(s, from)
  {
  }

  /** Moving a list's ids moves the tasks: distinct ids stay distinct. */
  lemma MoveKeepsDistinctIds(ts: seq<Task>, from: nat, to: nat)
    requires from < |ts| && to < |ts|
    requires DistinctIds(ts)
    ensures DistinctIds(Move(ts, from, to))
  {
    var r := Move(ts, from, to);
    forall i, j | 0 <= i < j < |r|
      ensures r[i].id != r[j].id
    {
      MoveAt(ts, from, to, i);
      MoveAt(ts, from, to, j);
    }
  }

  // ---------------------------------------------------------------------------
  // Position writes.

  datatype PositionUpdate = PositionUpdate(id: string, position: int)

  /** `newActiveTasks.map((task, index) => ({ id: task.id, position: index }))`. */
  function PositionUpdates(ts: seq<Task>): (us: seq<PositionUpdate>)
    ensures |us| == |ts|
    ensures forall i :: 0 <= i < |ts| ==> us[i] == PositionUpdate(ts[i].id, i)
  {
    seq(|ts|, i requires 0 <= i < |ts| => PositionUpdate(ts[i].id, i))
  }

  /** `update({ position }).eq("id", id)`: no row with that id, no change. */
  function ApplyPosition(table: map<string, Row>, u: PositionUpdate): (r: map<string, Row>)
    ensures r.Keys == table.Keys
    ensures u.id in table ==> r[u.id] == table[u.id].(position := u.position)
    ensures forall id :: id in table && id != u.id ==> r[id] == table[id]
  {
    if u.id in table then table[u.id := table[u.id].(position := u.position)] else table
  }

  /** The updates applied one after the other. */
  function ApplyPositions(table: map<string, Row>, us: seq<PositionUpdate>): (r: map<string, Row>)
    ensures r.Keys == table.Keys
  {
    if us == [] then table
    else ApplyPosition(ApplyPositions(table, us[..|us| - 1]), us[|us| - 1])
  }

  /**
   * After the first `k` writes of a reorder of tasks with distinct ids, each
   * of the first `k` tasks that has a row stores its index as position and
   * nothing else about it; every other row is as it was.
   */
  lemma {:induction false} PositionsPersisted(table: map<string, Row>, ts: seq<Task>, k: nat)
    requires DistinctIds(ts) && k <= |ts|
    ensures var r := ApplyPositions(table, PositionUpdates(ts)[..k]);
      && r.Keys == table.Keys
      && (forall i :: 0 <= i < k && ts[i].id in table ==> r[ts[i].id] == table[ts[i].id].(position := i))
      && (forall id :: id in table && id !in IdsOfTasks(ts[..k]) ==> r[id] == table[id])
  {
    if k > 0 {
      PositionsPersisted(table, ts, k - 1);
      var us := PositionUpdates(ts)[..k];
      assert us[..k - 1] == PositionUpdates(ts)[..k - 1];
      assert us[k - 1] == PositionUpdate(ts[k - 1].id, k - 1);
      assert IdsOfTasks(ts[..k]) == IdsOfTasks(ts[..k - 1]) + [ts[k - 1].id];
      assert ts[k - 1].id !in IdsOfTasks(ts[..k - 1]);
    }
  }

  /**
   * A reorder whose writes all succeed stores, for every task that has a row,
   * its index in the new order as its position.
   */
  lemma PersistedDragStoresNewOrder(table: map<string, Row>, ts: seq<Task>, from: nat, to: nat)
    requires from < |ts| && to < |ts| && DistinctIds(ts)
    ensures var moved := Move(ts, from, to);
      var r := ApplyPositions(table, PositionUpdates(moved));
      forall i :: 0 <= i < |moved| && moved[i].id in table ==> r[moved[i].id] == table[moved[i].id].(position := i)
  {
    var moved := Move(ts, from, to);
    MoveKeepsDistinctIds(ts, from, to);
    PositionsPersisted(table, moved, |moved|);
    assert PositionUpdates(moved)[..|moved|] == PositionUpdates(moved);
  }

  /**
   * Dragging the first of three tasks onto the last gives the order
   * `[b, c, a]` and the writes `b:0`, `c:1`, `a:2`.
   */
  lemma DragFirstOntoLast(a: Task, b: Task, c: Task)
    requires a.id != b.id && b.id != c.id && a.id != c.id
    ensures FindIndex([a, b, c], a.id) == 0 && FindIndex([a, b, c], c.id) == 2
    ensures Move([a, b, c], 0, 2) == [b, c, a]
    ensures PositionUpdates(Move([a, b, c], 0, 2)) ==
      [PositionUpdate(b.id, 0), PositionUpdate(c.id, 1), PositionUpdate(a.id, 2)]
  {
    assert [a, b, c][1..] == [b, c];
    assert [b, c][1..] == [c];
    assert FindIndex([c], c.id) == 0;
    assert FindIndex([b, c], c.id) == 1;
    assert RemoveAt([a, b, c], 0) == [b, c];
  }

  // ---------------------------------------------------------------------------
  // Scope selection.

  datatype Scope = AllTasks | DepartmentTasks(departmentId: string) | UserTasks(userId: string) | NoScope

  /** A JavaScript truthiness test for an optional string. */
  predicate Truthy(s: Option<string>)
  {
    s.Some? && s.value != ""
  }

  /**
   * `refreshTasks`: administrators see every task; otherwise a member of a
   * department sees the department's tasks; otherwise a signed-in user sees
   * their own; with no user nothing is fetched.
   */
  function ChooseScope(userEmail: Option<string>, userDepartment: Option<string>, userId: Option<string>): (r: Scope)
    ensures r == AllTasks <==> IsAdmin(userEmail)
    ensures r.DepartmentTasks? <==> !IsAdmin(userEmail) && Truthy(userDepartment)
    ensures r.DepartmentTasks? ==> userDepartment == Some(r.departmentId)
    ensures r.UserTasks? <==> !IsAdmin(userEmail) && !Truthy(userDepartment) && Truthy(userId)
    ensures r.UserTasks? ==> userId == Some(r.userId)
  {
    if IsAdmin(userEmail) then AllTasks
    else if Truthy(userDepartment) then DepartmentTasks(userDepartment.value)
    else if Truthy(userId) then UserTasks(userId.value)
    else NoScope
  }

  // ---------------------------------------------------------------------------
  // Creation.

  /** The form values of a new task. */
  datatype NewTaskValues = NewTaskValues(
    title: string,
    description: Option<string>,
    priority: string,
    department_id: Option<string>,
    due_date: Option<string>)

  /** `(maxPositionData?.[0]?.position || 0) + 1`. */
  function NextPosition(top: seq<int>): (p: int)
    ensures top == [] ==> p == 1
    ensures top != [] ==> p > top[0]
  {
    (if top == [] then 0 else top[0]) + 1
  }

  /**
   * When the query answers with the largest position first (as ordering by
   * position, descending, does), the new position is larger than every stored
   * one.
   */
  lemma NextPositionIsFresh(table: map<string, Row>, top: seq<int>)
    requires top == [] ==> table == map[]
    requires top != [] ==> forall id :: id in table ==> table[id].position <= top[0]
    ensures forall id :: id in table ==> table[id].position < NextPosition(top)
  {
  }

  /** The row `handleTaskCreate` inserts. */
  function NewRow(id: string, user: string, values: NewTaskValues, top: seq<int>): (r: Row)
    ensures r.status == ACTIVE && r.shared_with == Some([])
    ensures r.created_by == user && r.assigned_to == user
    ensures r.position == (if top == [] then 0 else top[0]) + 1
    ensures r.description == (if values.description.Some? then values.description.value else "")
  {
    Row(id, values.title, values.description.GetOr(""), values.priority, values.department_id,
        user, user, ACTIVE, NextPosition(top), values.due_date, Some([]))
  }

  datatype CreateOutcome = NotAuthenticated | CreateFailed(message: string) | Created(row: Row)

  datatype DragOutcome = Ignored | Persisted | Reverted

  /** Writes that a reorder of `n` tasks issues when the write with index `failAt` fails. */
  function WritesIssued(failAt: Option<nat>, n: nat): nat
  {
    if failAt.Some? && failAt.value < n then failAt.value + 1 else n
  }

  /** Writes that succeed. */
  function WritesDone(failAt: Option<nat>, n: nat): nat
  {
    if failAt.Some? && failAt.value < n then failAt.value else n
  }

  // ---------------------------------------------------------------------------
  // The provider's state.

  class TasksProvider {
    var tasks: seq<Task>
    var activeTasks: seq<Task>
    var completedTasks: seq<Task>
    var userEmail: Option<string>
    var userId: Option<string>
    var userDepartment: Option<string>
    /** The `tasks` table: stored rows by id. */
    var table: map<string, Row>

    /**
     * `completedTasks` is the completed partition of `tasks`; `activeTasks`
     * holds the active partition, in the order the user last dragged it to.
     */
    ghost predicate Valid()
      reads this
    {
      && multiset(activeTasks) == multiset(ActiveOf(tasks))
      && completedTasks == CompletedOf(tasks)
    }

    constructor (userEmail: Option<string>, userId: Option<string>, userDepartment: Option<string>, table: map<string, Row>)
      ensures Valid()
      ensures tasks == [] && activeTasks == [] && completedTasks == []
      ensures this.userEmail == userEmail && this.userId == userId
      ensures this.userDepartment == userDepartment && this.table == table
    {
      this.tasks := [];
      this.activeTasks := [];
      this.completedTasks := [];
      this.userEmail := userEmail;
      this.userId := userId;
      this.userDepartment := userDepartment;
      this.table := table;
    }

    /** Install a fetched list and derive both partitions from it. */
    method SetTaskList(ts: seq<Task>)
      modifies this
      ensures Valid()
      ensures tasks == ts && activeTasks == ActiveOf(ts) && completedTasks == CompletedOf(ts)
      ensures table == old(table) && userEmail == old(userEmail)
      ensures userId == old(userId) && userDepartment == old(userDepartment)
    {
      tasks := ts;
      activeTasks := ActiveOf(ts);
      completedTasks := CompletedOf(ts);
    }

    /**
     * `fetchAllTasks` / `fetchTasksByDepartment`: on success the normalised
     * rows and their partitions replace the lists; on error nothing changes.
     */
    method LoadTasks(query: Query<Joined>)
      requires Valid()
      modifies this
      ensures Valid()
      ensures query.QueryError? ==> tasks == old(tasks) && activeTasks == old(activeTasks) && completedTasks == old(completedTasks)
      ensures query.Data? ==> tasks == FetchScoped(query)
      ensures query.Data? ==> activeTasks == ActiveOf(tasks) && completedTasks == CompletedOf(tasks)
      ensures table == old(table) && userEmail == old(userEmail)
      ensures userId == old(userId) && userDepartment == old(userDepartment)
    {
      if query.Data? {
        SetTaskList(FetchScoped(query));
      }
    }

    /**
     * `fetchUserTasks`: on success the deduplicated, normalised union of the
     * three queries and its partitions replace the lists; if any query
     * fails nothing changes.
     */
    method LoadUserTasks(created: Query<Joined>, assignedTo: Query<Joined>, shared: Query<Joined>)
      requires Valid()
      modifies this
      ensures Valid()
      ensures created.QueryError? || assignedTo.QueryError? || shared.QueryError? ==>
        tasks == old(tasks) && activeTasks == old(activeTasks) && completedTasks == old(completedTasks)
      ensures created.Data? && assignedTo.Data? && shared.Data? ==>
        tasks == FetchUserTasks(created, assignedTo, shared) &&
        activeTasks == ActiveOf(tasks) && completedTasks == CompletedOf(tasks)
      ensures table == old(table) && userEmail == old(userEmail)
      ensures userId == old(userId) && userDepartment == old(userDepartment)
    {
      if created.Data? && assignedTo.Data? && shared.Data? {
        SetTaskList(FetchUserTasks(created, assignedTo, shared));
      }
    }

    /**
     * `refreshTasks`: load the scope `ChooseScope` picks. `scoped` answers the
     * all-tasks or the department query; `created`, `assignedTo` and `shared`
     * answer the three queries of a user's own tasks. With no scope nothing
     * is fetched.
     */
    method Refresh(scoped: Query<Joined>, created: Query<Joined>, assignedTo: Query<Joined>, shared: Query<Joined>)
      returns (scope: Scope)
      requires Valid()
      modifies this
      ensures Valid()
      ensures scope == ChooseScope(userEmail, userDepartment, userId)
      ensures (scope.AllTasks? || scope.DepartmentTasks?) && scoped.Data? ==>
        tasks == FetchScoped(scoped) && activeTasks == ActiveOf(tasks) && completedTasks == CompletedOf(tasks)
      ensures scope.UserTasks? && created.Data? && assignedTo.Data? && shared.Data? ==>
        tasks == FetchUserTasks(created, assignedTo, shared) &&
        activeTasks == ActiveOf(tasks) && completedTasks == CompletedOf(tasks)
      ensures || scope.NoScope?
              || ((scope.AllTasks? || scope.DepartmentTasks?) && scoped.QueryError?)
              || (scope.UserTasks? && (created.QueryError? || assignedTo.QueryError? || shared.QueryError?)) ==>
        tasks == old(tasks) && activeTasks == old(activeTasks) && completedTasks == old(completedTasks)
      ensures table == old(table) && userEmail == old(userEmail)
      ensures userId == old(userId) && userDepartment == old(userDepartment)
    {
      scope := ChooseScope(userEmail, userDepartment, userId);
      match scope
      case AllTasks => LoadTasks(scoped);
      case DepartmentTasks(_) => LoadTasks(scoped);
      case UserTasks(_) => LoadUserTasks(created, assignedTo, shared);
      case NoScope =>
    }

    /**
     * `handleStatusChange`: write the new status; only if the write
     * succeeded, rewrite the local list and re-derive both partitions.
     */
    method HandleStatusChange(id: string, completed: bool, updateError: Option<string>) returns (ok: bool)
      requires Valid()
      modifies this
      ensures Valid()
      ensures ok <==> updateError.None?
      ensures !ok ==> && tasks == old(tasks) && activeTasks == old(activeTasks)
                      && completedTasks == old(completedTasks) && table == old(table)
      ensures ok ==> tasks == SetStatus(old(tasks), id, completed)
      ensures ok ==> activeTasks == ActiveOf(tasks) && completedTasks == CompletedOf(tasks)
      ensures ok ==> table == if id in old(table)
        then old(table)[id := old(table)[id].(status := StatusFor(completed))]
        else old(table)
      ensures userEmail == old(userEmail) && userId == old(userId) && userDepartment == old(userDepartment)
    {
      if updateError.Some? {
        return false;
      }
      if id in table {
        table := table[id := table[id].(status := StatusFor(completed))];
      }
      SetTaskList(SetStatus(tasks, id, completed));
      ok := true;
    }

    /**
     * `handleTaskCreate`: with a signed-in user and the top position read,
     * insert an active row at the next position, shared with nobody, created
     * by and assigned to the user; then ask for a refresh. `newId` is the id
     * the database gives the row; an id already taken makes the insert fail.
     */
    method HandleTaskCreate(values: NewTaskValues, user: Option<string>, top: Query<int>,
                            newId: string, insertError: Option<string>)
      returns (outcome: CreateOutcome, refresh: bool)
      requires Valid()
      modifies this
      ensures Valid()
      ensures tasks == old(tasks) && activeTasks == old(activeTasks) && completedTasks == old(completedTasks)
      ensures userEmail == old(userEmail) && userId == old(userId) && userDepartment == old(userDepartment)
      ensures refresh <==> outcome.Created?
      ensures user.None? ==> outcome == NotAuthenticated && table == old(table)
      ensures user.Some? && top.QueryError? ==> outcome == CreateFailed(top.message) && table == old(table)
      ensures user.Some? && top.Data? && (newId in old(table) || insertError.Some?) ==>
        outcome.CreateFailed? && table == old(table)
      ensures user.Some? && top.Data? && newId !in old(table) && insertError.Some? ==>
        outcome == CreateFailed(insertError.value)
      ensures user.Some? && top.Data? && newId !in old(table) && insertError.None? ==>
        var row := NewRow(newId, user.value, values, top.RowsOrEmpty());
        outcome == Created(row) && table == old(table)[newId := row]
    {
      refresh := false;
      if user.None? {
        return NotAuthenticated, false;
      }
      if top.QueryError? {
        return CreateFailed(top.message), false;
      }
      var row := NewRow(newId, user.value, values, top.RowsOrEmpty());
      if newId in table {
        // A stand-in for the database's unique-violation message, whose exact
        // text depends on the server's version.
        return CreateFailed("duplicate key value violates unique constraint"), false;
      }
      if insertError.Some? {
        return CreateFailed(insertError.value), false;
      }
      table := table[newId := row];
      outcome, refresh := Created(row), true;
    }

    /**
     * `handleDragEnd`: move the dragged task to the index of the task it was
     * dropped on, show the new order, then write `position = index` for every
     * task, one write at a time, stopping at the first failure (the write
     * with index `failAt`). On failure the shown order goes back to the old
     * one; the writes already done stay.
     */
    method HandleDragEnd(activeId: string, overId: string, failAt: Option<nat>)
      returns (outcome: DragOutcome, writes: seq<PositionUpdate>)
      requires Valid()
      modifies this
      ensures Valid()
      ensures tasks == old(tasks) && completedTasks == old(completedTasks)
      ensures userEmail == old(userEmail) && userId == old(userId) && userDepartment == old(userDepartment)
      ensures var from := FindIndex(old(activeTasks), activeId);
        var to := FindIndex(old(activeTasks), overId);
        if activeId == overId || from == -1 || to == -1 then
          outcome == Ignored && writes == [] && activeTasks == old(activeTasks) && table == old(table)
        else
          var moved := Move(old(activeTasks), from, to);
          var updates := PositionUpdates(moved);
          var n := |moved|;
          && writes == updates[..WritesIssued(failAt, n)]
          && table == ApplyPositions(old(table), updates[..WritesDone(failAt, n)])
          && (WritesDone(failAt, n) < n ==> outcome == Reverted && activeTasks == old(activeTasks))
          && (WritesDone(failAt, n) == n ==> outcome == Persisted && activeTasks == moved)
    {
      writes := [];
      if activeId == overId {
        return Ignored, [];
      }
      var oldIndex := FindIndex(activeTasks, activeId);
      var newIndex := FindIndex(activeTasks, overId);
      if oldIndex == -1 || newIndex == -1 {
        return Ignored, [];
      }
      var previous := activeTasks;
      var moved := Move(activeTasks, oldIndex, newIndex);
      MoveIsPermutation(activeTasks, oldIndex, newIndex);
      // The new order is shown before anything is written.
      activeTasks := moved;
      var updates := PositionUpdates(moved);
      var done;
      writes, done := PersistPositions(updates, failAt);
      if done < |moved| {
        // Revert what is shown; the writes already done are not undone.
        activeTasks := previous;
        outcome := Reverted;
      } else {
        outcome := Persisted;
      }
    }

    /**
     * The write loop of `handleDragEnd`: issue the updates in order and stop
     * after the first failing one (the one with index `failAt`). Returns the
     * writes issued and how many succeeded; only the table changes.
     */
    method PersistPositions(updates: seq<PositionUpdate>, failAt: Option<nat>)
      returns (writes: seq<PositionUpdate>, done: nat)
      modifies this`table
      ensures done == WritesDone(failAt, |updates|)
      ensures writes == updates[..WritesIssued(failAt, |updates|)]
      ensures table == ApplyPositions(old(table), updates[..done])
    {
      writes := [];
      var i := 0;
      while i < |updates|
        invariant 0 <= i <= |updates|
        invariant writes == updates[..i]
        invariant table == ApplyPositions(old(table), updates[..i])
        invariant failAt.Some? ==> i <= failAt.value
      {
        writes := writes + [updates[i]];
        if failAt == Some(i) {
          assert writes == updates[..i + 1];
          return writes, i;
        }
        assert updates[..i + 1][..i] == updates[..i];
        table := ApplyPosition(table, updates[i]);
        i := i + 1;
      }
      assert updates[..i] == updates;
      done := i;
    }
  }
}
