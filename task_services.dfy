/**
 * Loading tasks: priority normalisation, the row-to-task mapping, the
 * deduplication of the user's created, assigned and shared tasks by id, and
 * the fallback to an empty list when a query fails.
 *
 * The database queries themselves (their `eq`/`contains` filters and their
 * ordering by position) are not modelled: each query's outcome is an input.
 */
module TaskServices {
  import opened TaskTypes

  const VALID_PRIORITIES: set<string> := {"low", "medium", "high"}

  /** Unknown priorities default to "medium"; valid ones are kept. */
  function EnsureValidPriority(priority: string): (r: string)
    ensures r in VALID_PRIORITIES
    ensures priority in VALID_PRIORITIES ==> r == priority
    ensures priority !in VALID_PRIORITIES ==> r == "medium"
  {
    if priority == "low" || priority == "medium" || priority == "high" then priority
    else "medium"
  }

  lemma EnsureValidPriorityIdempotent(priority: string)
    ensures EnsureValidPriority(EnsureValidPriority(priority)) == EnsureValidPriority(priority)
  {
  }

  /**
   * The per-row mapping of every fetch: the department name (or ""), a valid
   * priority, and `shared_with` defaulted to the empty list; every other
   * field is carried over unchanged.
   */
  function Normalize(j: Joined): (t: Task)
    ensures var row := j.row;
      && t.priority in VALID_PRIORITIES
      && (row.priority in VALID_PRIORITIES ==> t.priority == row.priority)
      && (row.priority !in VALID_PRIORITIES ==> t.priority == "medium")
      && t.shared_with == (if row.shared_with.Some? then row.shared_with.value else [])
      && t.department == (if j.department_name.Some? then j.department_name.value else "")
      && t.id == row.id && t.title == row.title && t.description == row.description
      && t.department_id == row.department_id && t.created_by == row.created_by
      && t.assigned_to == row.assigned_to && t.status == row.status
      && t.position == row.position && t.due_date == row.due_date
  {
    var row := j.row;
    Task(row.id, row.title, row.description, EnsureValidPriority(row.priority),
         row.department_id, row.created_by, row.assigned_to, row.status,
         row.position, row.due_date, row.shared_with.GetOr([]),
         j.department_name.GetOr(""))
  }

  function NormalizeAll(rows: seq<Joined>): (ts: seq<Task>)
    ensures |ts| == |rows|
    ensures forall i :: 0 <= i < |rows| ==> ts[i] == Normalize(rows[i])
  {
    seq(|rows|, i requires 0 <= i < |rows| => Normalize(rows[i]))
  }

  function IdsOfRows(rows: seq<Joined>): (ids: seq<string>)
    ensures |ids| == |rows|
    ensures forall i :: 0 <= i < |rows| ==> ids[i] == rows[i].id
  {
    seq(|rows|, i requires 0 <= i < |rows| => rows[i].id)
  }

  /**
   * The same projection over normalised tasks: `Joined` and `Task` share no
   * common type, so each element type has its own id list.
   */
  function IdsOfTasks(ts: seq<Task>): (ids: seq<string>)
    ensures |ids| == |ts|
    ensures forall i :: 0 <= i < |ts| ==> ids[i] == ts[i].id
  {
    seq(|ts|, i requires 0 <= i < |ts| => ts[i].id)
  }

  predicate DistinctIds(ts: seq<Task>)
  {
    forall i, j :: 0 <= i < j < |ts| ==> ts[i].id != ts[j].id
  }

  // ---------------------------------------------------------------------------
  // Reference definitions: first and last occurrence of an id in a list.

  /** The index of the first occurrence of `k` in `ids`. */
  function FirstIndex(ids: seq<string>, k: string): (r: nat)
    requires k in ids
    ensures r < |ids| && ids[r] == k
    ensures forall j :: 0 <= j < r ==> ids[j] != k
  {
    if ids[0] == k then 0 else 1 + FirstIndex(ids[1..], k)
  }

  /** The index of the last occurrence of `k` in `ids`. */
  function LastIndex(ids: seq<string>, k: string): (r: nat)
    requires k in ids
    ensures r < |ids| && ids[r] == k
    ensures forall j :: r < j < |ids| ==> ids[j] != k
  {
    if ids[|ids| - 1] == k then |ids| - 1 else LastIndex(ids[..|ids| - 1], k)
  }

  // ---------------------------------------------------------------------------
  // A JavaScript `Map` keyed by task id: keys in first-insertion order, and
  // setting an existing key replaces its value without moving it.

  datatype IdMap = IdMap(keys: seq<string>, values: map<string, Joined>)

  ghost predicate IdMapValid(m: IdMap)
  {
    && (forall i, j :: 0 <= i < j < |m.keys| ==> m.keys[i] != m.keys[j])
    && (forall k :: k in m.values <==> k in m.keys)
    && (forall k :: k in m.values ==> m.values[k].id == k)
  }

  /** `map.set(row.id, row)`. */
  function MapSet(m: IdMap, row: Joined): (r: IdMap)
    // Existing keys keep their place; only a new key is added, at the end.
    ensures |m.keys| <= |r.keys| <= |m.keys| + 1 && r.keys[..|m.keys|] == m.keys
    ensures row.id in m.values ==> r.keys == m.keys
    ensures row.id !in m.values ==> r.keys == m.keys + [row.id]
    // The key now holds the row; every other key keeps its value.
    ensures r.values == m.values[row.id := row]
  {
    if row.id in m.values then IdMap(m.keys, m.values[row.id := row])
    else IdMap(m.keys + [row.id], m.values[row.id := row])
  }

  /**
   * `new Map(rows.map(task => [task.id, task]))`: the entries are set one
   * after the other, so the map holds exactly the ids of `rows`.
   */
  function FromEntries(rows: seq<Joined>): (m: IdMap)
    ensures IdMapValid(m)
    ensures forall k :: k in m.values <==> k in IdsOfRows(rows)
  {
    if rows == [] then IdMap([], map[])
    else
      var prefix := rows[..|rows| - 1];
      var last := rows[|rows| - 1];
      assert IdsOfRows(rows) == IdsOfRows(prefix) + [last.id];
      MapSet(FromEntries(prefix), last)
  }

  /** `Array.from(map.values())`. */
  function MapValues(m: IdMap): (vs: seq<Joined>)
    requires IdMapValid(m)
    ensures |vs| == |m.keys|
    ensures forall i {:trigger vs[i]} :: 0 <= i < |vs| ==> vs[i] == m.values[m.keys[i]]
  {
    seq(|m.keys|, i requires 0 <= i < |m.keys| => m.values[m.keys[i]])
  }

  /** The deduplication step of `fetchUserTasks`. */
  function UniqueById(rows: seq<Joined>): (u: seq<Joined>)
    ensures forall i, j :: 0 <= i < j < |u| ==> u[i].id != u[j].id
  {
    MapValues(FromEntries(rows))
  }

  lemma IdsOfRowsSnoc(rows: seq<Joined>, x: Joined)
    ensures IdsOfRows(rows + [x]) == IdsOfRows(rows) + [x.id]
  {
  }

  /** Appending an id leaves the first occurrence of the ids already present. */
  lemma FirstIndexSnoc(ids: seq<string>, x: string, k: string)
    requires k in ids
    ensures FirstIndex(ids + [x], k) == FirstIndex(ids, k)
  {
    var b := FirstIndex(ids, k);
    assert (ids + [x])[b] == k;
  }

  lemma FirstIndexSnocNew(ids: seq<string>, x: string)
    requires x !in ids
    ensures FirstIndex(ids + [x], x) == |ids|
  {
  }

  /** `keys` lists ids of `ids` in the order of their first occurrence there. */
  ghost predicate InFirstOccurrenceOrder(keys: seq<string>, ids: seq<string>)
  {
    && (forall k :: k in keys ==> k in ids)
    && (forall i, j :: 0 <= i < j < |keys| ==> FirstIndex(ids, keys[i]) < FirstIndex(ids, keys[j]))
  }

  /**
   * The keys of `FromEntries(rows)` are the distinct ids of `rows` in the
   * order of their first occurrence.
   */
  lemma {:induction false} FromEntriesKeyOrder(rows: seq<Joined>)
    ensures InFirstOccurrenceOrder(FromEntries(rows).keys, IdsOfRows(rows))
  {
    if rows != [] {
      var prefix := rows[..|rows| - 1];
      var last := rows[|rows| - 1];
      assert rows == prefix + [last];
      FromEntriesKeyOrder(prefix);
      IdsOfRowsSnoc(prefix, last);
      var pids := IdsOfRows(prefix);
      var pm := FromEntries(prefix);
      assert forall k :: k in pm.keys <==> k in pids;
      assert FromEntries(rows).keys == if last.id in pm.keys then pm.keys else pm.keys + [last.id];
      KeyOrderStep(pm.keys, pids, last.id);
    }
  }

  /** One `set` keeps the keys in first-occurrence order. */
  lemma KeyOrderStep(keys: seq<string>, ids: seq<string>, x: string)
    requires forall k :: k in keys <==> k in ids
    requires InFirstOccurrenceOrder(keys, ids)
    ensures InFirstOccurrenceOrder(if x in keys then keys else keys + [x], ids + [x])
  {
    var keys' := if x in keys then keys else keys + [x];
    forall i, j | 0 <= i < j < |keys'|
      ensures FirstIndex(ids + [x], keys'[i]) < FirstIndex(ids + [x], keys'[j])
    {
      assert keys'[i] == keys[i];
      FirstIndexSnoc(ids, x, keys[i]);
      if j < |keys| {
        assert keys'[j] == keys[j];
        FirstIndexSnoc(ids, x, keys[j]);
      } else {
        assert x !in keys && keys'[j] == x;
        FirstIndexSnocNew(ids, x);
      }
    }
  }

  /** Each key of `FromEntries(rows)` maps to the last row carrying it. */
  lemma {:induction false} FromEntriesLastWins(rows: seq<Joined>)
    ensures var m := FromEntries(rows); var ids := IdsOfRows(rows);
      forall k :: k in m.values ==> m.values[k] == rows[LastIndex(ids, k)]
  {
    if rows != [] {
      var prefix := rows[..|rows| - 1];
      var last := rows[|rows| - 1];
      assert rows == prefix + [last];
      FromEntriesLastWins(prefix);
      IdsOfRowsSnoc(prefix, last);
      var ids := IdsOfRows(rows);
      var pids := IdsOfRows(prefix);
      var pm := FromEntries(prefix);
      var m := FromEntries(rows);
      forall k | k in m.values
        ensures m.values[k] == rows[LastIndex(ids, k)]
      {
        if k == last.id {
          assert LastIndex(ids, k) == |rows| - 1;
        } else {
          assert k in pm.values;
          var b := LastIndex(pids, k);
          assert ids[b] == k;
          assert LastIndex(ids, k) == b;
        }
      }
    }
  }

  /**
   * The result of deduplication: ids are unique; the ids present are exactly
   * the ids of the input; they follow the order of first occurrence; the row
   * kept for an id is its last occurrence; and no row is invented.
   */
  lemma UniqueByIdSpec(rows: seq<Joined>)
    ensures var u := UniqueById(rows); var ids := IdsOfRows(rows);
      && |u| <= |rows|
      && (forall i, j :: 0 <= i < j < |u| ==> u[i].id != u[j].id)
      && (forall k :: k in IdsOfRows(u) <==> k in ids)
      && (forall i, j :: 0 <= i < j < |u| ==> FirstIndex(ids, u[i].id) < FirstIndex(ids, u[j].id))
      && (forall i :: 0 <= i < |u| ==> u[i] == rows[LastIndex(ids, u[i].id)])
  {
    var m := FromEntries(rows);
    var u := UniqueById(rows);
    var ids := IdsOfRows(rows);
    UniqueByIdIsKeys(rows);
    FromEntriesKeyOrder(rows);
    FromEntriesLastWins(rows);
    assert forall k :: k in IdsOfRows(u) <==> k in m.keys;
    DistinctIdsBounded(m.keys, ids);
  }

  /** The deduplicated rows are the map's values in key order, so their ids are the keys. */
  lemma UniqueByIdIsKeys(rows: seq<Joined>)
    ensures var m := FromEntries(rows); var u := UniqueById(rows);
      && IdsOfRows(u) == m.keys
      && (forall i :: 0 <= i < |u| ==> u[i] == m.values[m.keys[i]])
  {
  }

  /** A list of distinct ids drawn from `ids` is no longer than `ids`. */
  lemma {:induction false} DistinctIdsBounded(keys: seq<string>, ids: seq<string>)
    requires forall i, j :: 0 <= i < j < |keys| ==> keys[i] != keys[j]
    requires forall k :: k in keys ==> k in ids
    ensures |keys| <= |ids|
  {
    var ks := set k | k in keys;
    var all := set k | k in ids;
    DistinctCard(keys);
    SeqSetCard(ids);
    assert ks <= all;
    assert all == ks + (all - ks);
    assert |all| == |ks| + |all - ks|;
  }

  lemma {:induction false} DistinctCard(keys: seq<string>)
    requires forall i, j :: 0 <= i < j < |keys| ==> keys[i] != keys[j]
    ensures |set k | k in keys| == |keys|
  {
    if keys != [] {
      var rest := keys[1..];
      DistinctCard(rest);
      assert (set k | k in keys) == (set k | k in rest) + {keys[0]};
      assert keys[0] !in rest;
    }
  }

  lemma {:induction false} SeqSetCard(ids: seq<string>)
    ensures |set k | k in ids| <= |ids|
  {
    if ids != [] {
      var rest := ids[1..];
      SeqSetCard(rest);
      assert (set k | k in ids) == (set k | k in rest) + {ids[0]};
    }
  }

  // ---------------------------------------------------------------------------
  // The three fetches.

  /**
   * `fetchAllTasks` and `fetchTasksByDepartment`: the normalised rows of the
   * query, or the empty list when the query reports an error.
   */
  function FetchScoped(query: Query<Joined>): (ts: seq<Task>)
    ensures query.QueryError? ==> ts == []
    ensures query.Data? ==> |ts| == |query.RowsOrEmpty()|
    ensures query.Data? ==> forall i :: 0 <= i < |ts| ==> ts[i] == Normalize(query.RowsOrEmpty()[i])
  {
    if query.QueryError? then [] else NormalizeAll(query.RowsOrEmpty())
  }

  /**
   * `fetchUserTasks`: the tasks the user created, is assigned or has been
   * shared, deduplicated by id and normalised; the empty list as soon as one
   * of the three queries fails.
   */
  function FetchUserTasks(created: Query<Joined>, assignedTo: Query<Joined>, shared: Query<Joined>): (ts: seq<Task>)
    ensures created.QueryError? || assignedTo.QueryError? || shared.QueryError? ==> ts == []
    ensures created.Data? && assignedTo.Data? && shared.Data? ==> DistinctIds(ts)
  {
    if created.QueryError? || assignedTo.QueryError? || shared.QueryError? then []
    else NormalizeAll(UniqueById(created.RowsOrEmpty() + assignedTo.RowsOrEmpty() + shared.RowsOrEmpty()))
  }

  /**
   * On success the result has unique ids, contains every id of the three
   * inputs and nothing else, lists them in the order of their first
   * occurrence, keeps for each id its last occurrence (normalised), and is no
   * longer than the three inputs together.
   */
  lemma FetchUserTasksSpec(created: Query<Joined>, assignedTo: Query<Joined>, shared: Query<Joined>)
    requires created.Data? && assignedTo.Data? && shared.Data?
    ensures var all := created.RowsOrEmpty() + assignedTo.RowsOrEmpty() + shared.RowsOrEmpty();
      var ts := FetchUserTasks(created, assignedTo, shared);
      && DistinctIds(ts)
      && (forall k :: k in IdsOfTasks(ts) <==> k in IdsOfRows(all))
      && (forall i, j :: 0 <= i < j < |ts| ==>
            FirstIndex(IdsOfRows(all), ts[i].id) < FirstIndex(IdsOfRows(all), ts[j].id))
      && (forall i :: 0 <= i < |ts| ==> ts[i] == Normalize(all[LastIndex(IdsOfRows(all), ts[i].id)]))
      && |ts| <= |created.RowsOrEmpty()| + |assignedTo.RowsOrEmpty()| + |shared.RowsOrEmpty()|
  {
    var all := created.RowsOrEmpty() + assignedTo.RowsOrEmpty() + shared.RowsOrEmpty();
    assert FetchUserTasks(created, assignedTo, shared) == NormalizeAll(UniqueById(all));
    NormalizedUniqueSpec(all);
  }

  /** `UniqueByIdSpec`, carried through the per-row normalisation. */
  lemma NormalizedUniqueSpec(all: seq<Joined>)
    ensures var ts := NormalizeAll(UniqueById(all)); var ids := IdsOfRows(all);
      && DistinctIds(ts)
      && (forall k :: k in IdsOfTasks(ts) <==> k in ids)
      && (forall i, j :: 0 <= i < j < |ts| ==> FirstIndex(ids, ts[i].id) < FirstIndex(ids, ts[j].id))
      && (forall i :: 0 <= i < |ts| ==> ts[i] == Normalize(all[LastIndex(ids, ts[i].id)]))
      && |ts| <= |all|
  {
    var ids := IdsOfRows(all);
    var u := UniqueById(all);
    UniqueByIdSpec(all);
    var ts := NormalizeAll(u);
    assert IdsOfTasks(ts) == IdsOfRows(u);
    forall i, j | 0 <= i < j < |ts|
      ensures FirstIndex(ids, ts[i].id) < FirstIndex(ids, ts[j].id)
    {
      assert ts[i].id == u[i].id && ts[j].id == u[j].id;
    }
    forall i | 0 <= i < |ts|
      ensures ts[i] == Normalize(all[LastIndex(ids, ts[i].id)])
    {
      assert ts[i].id == u[i].id;
    }
  }

  /**
   * With the three queries answered from one table (created by, assignedTo to,
   * or shared with `user`, in table order), every task in the user's scope is
   * in the result.
   */
  lemma FetchUserTasksCoversScope(table: seq<Joined>, user: string, row: Joined)
    requires row in table
    requires row.row.created_by == user || row.row.assigned_to == user
      || (row.row.shared_with.Some? && Value(user) in row.row.shared_with.value)
    ensures row.id in IdsOfTasks(FetchUserTasks(
      Data(Some(Select(table, CreatedBy(user)))),
      Data(Some(Select(table, AssignedTo(user)))),
      Data(Some(Select(table, SharedWith(user))))))
  {
    var c := Select(table, CreatedBy(user));
    var a := Select(table, AssignedTo(user));
    var s := Select(table, SharedWith(user));
    FetchUserTasksSpec(Data(Some(c)), Data(Some(a)), Data(Some(s)));
    var all := c + a + s;
    assert row in all;
    var i :| 0 <= i < |all| && all[i] == row;
    assert IdsOfRows(all)[i] == row.id;
  }

  /** The filters `eq("created_by", user)`, `eq("assigned_to", user)` and `contains("shared_with", [user])`. */
  function CreatedBy(user: string): Joined -> bool
  {
    (r: Joined) => r.row.created_by == user
  }

  function AssignedTo(user: string): Joined -> bool
  {
    (r: Joined) => r.row.assigned_to == user
  }

  function SharedWith(user: string): Joined -> bool
  {
    (r: Joined) => r.row.shared_with.Some? && Value(user) in r.row.shared_with.value
  }

  /** A server-side filter, kept in table order. */
  function Select(table: seq<Joined>, keep: Joined -> bool): (r: seq<Joined>)
    ensures |r| <= |table|
    ensures forall x :: x in r <==> x in table && keep(x)
  {
    if table == [] then []
    else (if keep(table[0]) then [table[0]] else []) + Select(table[1..], keep)
  }
}
