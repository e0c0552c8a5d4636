# teamworks-connect task board, modelled in Dafny

This project models the core of teamworks-connect's task board:

- how the task list is loaded and normalised;
- how it is split into active and completed partitions;
- how a task's status changes;
- how a task is created;
- how active tasks are reordered by drag and drop and their positions written back;
- how a task is shared with another user by email;
- the administrator test;
- the seeding of the predefined departments.

Modules, one per source file of the core:

| module | file | models |
|---|---|---|
| `TaskTypes` | `task_types.dfy` | The stored row, the row joined with its department name, the normalised `Task`, and a query outcome (`Data(rows)` or `QueryError(message)`). |
| `Departments` | `departments.dfy` | `PREDEFINED_DEPARTMENTS` and `isAdmin`. |
| `TaskServices` | `task_services.dfy` | `ensureValidPriority`, the per-row normalisation, the three fetches with their error-to-`[]` fallback, and the deduplication by id through a JavaScript `Map` (keys kept in first-insertion order, last value wins). |
| `TasksContext` | `tasks_context.dfy` | The provider's state as the class `TasksProvider`: `tasks`, `activeTasks`, `completedTasks`, the user fields and the `tasks` table. It also holds the four handlers and the scope choice of `refreshTasks`. |
| `TaskActions` | `task_actions.dfy` | `handleShareWithUser` as a method of the state class `ShareUserState`, with the cleaning loop as its own method. |
| `SetupAdmin` | `setup_admin.dfy` | `setupPredefinedDepartments` as a method of `DepartmentsTable`, proved against a pure `Setup` function. |

How the model treats the database and the outside world:

- Tables are fields: the `tasks` table is a map from id to row, and the departments table is a list of names.
- Every answer that depends on the server is an input of the handler that makes the call:
  - the outcome of a read query;
  - whether a write fails, and at which write;
  - the id the database gives a new row.
- `shared_with` entries are `Cell`s (`Null`, `Undefined` or `Value(text)`). The code defends against null entries even though the column is typed as a list of strings.

`isAdmin` lower-cases with JavaScript's `toLowerCase`. The model maps the ASCII letters, plus the dotless small i (U+0131), which `toUpperCase` maps to `I`. No other character lower-cases to a letter of `admin@team.com` in JavaScript, so for the allow-list the test is exact.

Behaviour worth knowing when reading the contracts:

- **A drag reorders only `activeTasks`.** `tasks` keeps its old order. The class invariant `Valid` therefore says that `activeTasks` is a permutation of the active partition of `tasks`, not equal to it. The next status change re-derives `activeTasks` from `tasks` in the fetched order.
- **A drag writes the new index of every active task.** It writes one row at a time. If the k-th write fails, the shown order reverts, but the first k writes stay in the table (`HandleDragEnd`, `PersistPositions`).
- **Sharing appends without de-duplicating.** It appends the new id to the cleaned list only when the id is not already there. It does not remove duplicates the stored list already had. It is therefore a set-add only on duplicate-free lists (`ShareWriteIsSetAdd`).
- **The two sets of fetch functions handle errors differently.**
  - The copies inside `src/context/TasksContext.tsx` show an error and leave the lists as they were (`LoadTasks`, `LoadUserTasks`).
  - The copies in `src/lib/taskServices.ts` return `[]` (`FetchScoped`, `FetchUserTasks`).
  - Both are modelled as written.

## Model

| member | source | states |
|---|---|---|
| `Departments.IsAdmin` | src/lib/departments.ts:20-26 | A missing or empty email is never an administrator; an administrator's email lower-cases to `admin@team.com`. |
| `Departments.IsAdminIff` | src/lib/departments.ts:24-25 | `isAdmin(e)` holds exactly when `e` lower-cases to `admin@team.com` (both directions). |
| `Departments.LowerIdempotent` | src/lib/departments.ts:25 | Lower-casing twice is lower-casing once. |
| `Departments.IsAdminOfLowerCase` | src/lib/departments.ts:25 | An email and its lower-cased form get the same answer. |
| `Departments.IsAdminOfUpperCase` | src/lib/departments.ts:25 | An email and its upper-cased form get the same answer, for every email without a dotless i. |
| `Departments.DotlessIBreaksUpperCase` | src/lib/departments.ts:25 | `admın@team.com` (with a dotless i) is not an administrator, but its upper-cased form is. |
| `Departments.PredefinedDepartmentsDistinct` | src/lib/departments.ts:10-17 | Six predefined departments, with pairwise distinct names. |
| `TaskServices.EnsureValidPriority` | src/lib/taskServices.ts:5-10 | The result is one of low/medium/high; it is the identity on those three and "medium" on anything else. |
| `TaskServices.EnsureValidPriorityIdempotent` | src/lib/taskServices.ts:5-10 | Applying the normalisation twice gives the same priority as once. |
| `TaskServices.Normalize` | src/lib/taskServices.ts:24-29 | A fetched row becomes a task whose priority is the stored one when valid and "medium" otherwise, with the stored `shared_with` or `[]`, the joined department name or `""`, and every other field unchanged. |
| `TaskServices.NormalizeAll` | src/lib/taskServices.ts:107-112 | The mapping keeps length and order: task i is the normalised row i. |
| `TaskServices.FirstIndex` | src/lib/taskServices.ts:105 | The position of the first occurrence of an id: it holds the id and no earlier slot does. |
| `TaskServices.LastIndex` | src/lib/taskServices.ts:105 | The position of the last occurrence of an id: it holds the id and no later slot does. |
| `TaskServices.MapSet` | src/lib/taskServices.ts:105 | `map.set(id, row)`: when the id is already a key the key list is unchanged, otherwise the id is appended at the end; the key now holds the row and every other key keeps its value. |
| `TaskServices.FromEntries` | src/lib/taskServices.ts:105 | Building the `Map` from the rows gives a well-formed map (distinct keys, each value carrying its key) whose keys are exactly the ids of the rows. |
| `TaskServices.MapValues` | src/lib/taskServices.ts:105 | `Array.from(map.values())` has one entry per key: entry i is the value of key i, in key order. |
| `TaskServices.UniqueById` | src/lib/taskServices.ts:105 | `Array.from(new Map(...).values())`: the deduplicated rows have pairwise distinct ids. |
| `TaskServices.UniqueByIdIsKeys` | src/lib/taskServices.ts:105 | The deduplicated rows are the map's values in key order, so their ids are exactly the keys. |
| `TaskServices.FromEntriesKeyOrder` | src/lib/taskServices.ts:105 | The map's keys follow the order in which their ids first occur in the rows. |
| `TaskServices.FromEntriesLastWins` | src/lib/taskServices.ts:105 | Each key maps to the last row carrying that id. |
| `TaskServices.UniqueByIdSpec` | src/lib/taskServices.ts:104-105 | Deduplication gives unique ids. The ids are exactly the input's, in first-occurrence order, each with the value of its last occurrence. The result is never longer than the input. |
| `TaskServices.FetchScoped` | src/lib/taskServices.ts:12-63 | An error gives `[]`; otherwise the result has one normalised task per returned row, in order (`null` data counts as no rows). |
| `TaskServices.FetchUserTasks` | src/lib/taskServices.ts:65-118 | `fetchUserTasks`: if any of the three queries fails the result is `[]`; otherwise the tasks have distinct ids. |
| `TaskServices.FetchUserTasksSpec` | src/lib/taskServices.ts:103-114 | When all three queries succeed, the result has unique ids and holds exactly the ids of the three inputs, in the order of their first occurrence. Each task is the normalised last occurrence of its id. The length is at most the three lengths summed. |
| `TaskServices.NormalizedUniqueSpec` | src/lib/taskServices.ts:104-112 | Normalising the deduplicated rows keeps their unique ids, exactly the input ids in first-occurrence order, each task being the normalised last occurrence of its id, and no more tasks than input rows. |
| `TaskServices.Select` | src/lib/taskServices.ts:74 | A server-side filter keeps exactly the table rows that pass it, and is never longer than the table. |
| `TaskServices.FetchUserTasksCoversScope` | src/lib/taskServices.ts:67-101 | If the three queries are answered from one table, every row the user created, is assigned, or is shared with appears in the result. |
| `TasksContext.StatusFilter` | src/context/TasksContext.tsx:117-118 | A status partition is never longer than the list. |
| `TasksContext.StatusFilterMembership` | src/context/TasksContext.tsx:117-118 | A task is in a partition exactly when it is in the list and has that status. |
| `TasksContext.StatusFilterConcat` | src/context/TasksContext.tsx:117-118 | Filtering preserves order: it distributes over concatenation. |
| `TasksContext.PartitionsDisjoint` | src/context/TasksContext.tsx:304-305 | The active and completed partitions are disjoint and together no longer than `tasks`. They are exactly as long as `tasks` when every status is active or completed. |
| `TasksContext.SetStatus` | src/context/TasksContext.tsx:299-301 | The status rewrite keeps the list's length. |
| `TasksContext.SetStatusOnlyTouchesTarget` | src/context/TasksContext.tsx:299-301 | Only the status of tasks with the given id changes; every other task and every other field is unchanged. |
| `TasksContext.SetStatusMovesBetweenPartitions` | src/context/TasksContext.tsx:299-305 | After the change, the task with the id is active exactly when not completed, and completed exactly when completed. Every other task keeps its partition. |
| `TasksContext.FindIndex` | src/context/TasksContext.tsx:326-327 | `findIndex` by id: -1 exactly when no task has the id, otherwise the first index that has it. |
| `TasksContext.RemoveAt` | src/context/TasksContext.tsx:333 | `splice(i, 1)` shortens the list by one. |
| `TasksContext.InsertAt` | src/context/TasksContext.tsx:334 | `splice(i, 0, x)` lengthens the list by one. |
| `TasksContext.Move` | src/context/TasksContext.tsx:332-334 | The two splices keep the list's length. |
| `TasksContext.MoveAt` | src/context/TasksContext.tsx:332-334 | The moved task lands at the target index. Tasks between the two indices shift one slot toward the source index, and all others stay where they were. |
| `TasksContext.MoveIsPermutation` | src/context/TasksContext.tsx:332-334 | The moved list is a permutation of the old one (same length, same multiset). |
| `TasksContext.MoveKeepsRelativeOrder` | src/context/TasksContext.tsx:332-334 | The moved task is at the target index; taking it out again gives the old list without it, so all other tasks keep their relative order. |
| `TasksContext.MoveKeepsDistinctIds` | src/context/TasksContext.tsx:332-334 | A move of tasks with distinct ids leaves the ids distinct. |
| `TasksContext.PositionUpdates` | src/context/TasksContext.tsx:341-344 | Update i is (id of task i, position i). |
| `TasksContext.ApplyPosition` | src/context/TasksContext.tsx:347-350 | One `update({ position }).eq("id", id)`: no row is added or removed; the row with the id gets the new position and nothing else; every other row is untouched. |
| `TasksContext.ApplyPositions` | src/context/TasksContext.tsx:346-353 | Position writes never add or remove rows. |
| `TasksContext.PositionsPersisted` | src/context/TasksContext.tsx:346-353 | After the first k writes, each of the first k tasks that has a row stores its index as position and nothing else changes in it; every other row is untouched. |
| `TasksContext.PersistedDragStoresNewOrder` | src/context/TasksContext.tsx:332-353 | When every write of a reorder succeeds, each moved task with a row stores its index in the new order. |
| `TasksContext.DragFirstOntoLast` | src/context/TasksContext.tsx:326-344 | Dragging the first of `[a, b, c]` onto the last gives `[b, c, a]` and the writes `b:0, c:1, a:2`. |
| `TasksContext.ChooseScope` | src/context/TasksContext.tsx:366-374 | An administrator gets all tasks. Otherwise a user with a non-empty department gets that department's tasks, and otherwise a user with a non-empty id gets their own (each case in both directions). |
| `TasksContext.NextPosition` | src/context/TasksContext.tsx:251-261 | `(first position \|\| 0) + 1`: 1 when the query returns no row, otherwise larger than the first returned position. |
| `TasksContext.NextPositionIsFresh` | src/context/TasksContext.tsx:243-251 | If the top-position query returns the largest stored position first, the new position exceeds every stored one. |
| `TasksContext.NewRow` | src/context/TasksContext.tsx:251-264 | A new task is active and shared with nobody, is created by and assigned to the user, and sits at (first returned position, or 0) + 1. Its description defaults to `""`. |
| `TasksContext.TasksProvider.constructor` | src/context/TasksContext.tsx:35-41 | The lists start empty (so the invariant holds); the user fields and table are as given. |
| `TasksContext.TasksProvider.SetTaskList` | src/context/TasksContext.tsx:116-118 | Installing a list sets `tasks` and derives both partitions from it; the table and user fields are unchanged. |
| `TasksContext.TasksProvider.LoadTasks` | src/context/TasksContext.tsx:97-158 | On success `tasks` becomes the normalised rows and both partitions are re-derived. On error no list changes. The invariant is kept. |
| `TasksContext.TasksProvider.LoadUserTasks` | src/context/TasksContext.tsx:160-219 | On success `tasks` becomes the deduplicated, normalised union and both partitions are re-derived. If any query fails, no list changes. |
| `TasksContext.TasksProvider.Refresh` | src/context/TasksContext.tsx:366-374 | The scope loaded is the one `ChooseScope` picks. Admin and department scopes install the scoped query's normalised rows, the user scope the deduplicated union of its three queries. With no scope or a failing query no list changes. |
| `TasksContext.TasksProvider.HandleStatusChange` | src/context/TasksContext.tsx:289-318 | Success holds exactly when the write does not fail. On success the row's status is written, `tasks` gets the status rewrite, and both partitions are re-derived. On failure nothing changes. |
| `TasksContext.TasksProvider.HandleTaskCreate` | src/context/TasksContext.tsx:229-287 | With no user, or a failing position query, duplicate id or failing insert, nothing is written and a refresh is not requested; a failing query or insert reports its own message. Otherwise exactly the new row is inserted and a refresh is requested. The lists never change. |
| `TasksContext.TasksProvider.HandleDragEnd` | src/context/TasksContext.tsx:320-364 | Equal ids or an id not in `activeTasks`: nothing is written and nothing changes. Otherwise the writes are the position updates of the moved list, in order, up to and including the first failure, and the table holds the successful ones. `activeTasks` ends as the moved list if every write succeeded and as the old list otherwise. |
| `TasksContext.TasksProvider.PersistPositions` | src/context/TasksContext.tsx:346-353 | The write loop issues the updates in order, stops after the first failing one, and applies exactly the successful ones to the table. |
| `TaskActions.ErrorText` | src/components/tasks/TaskActions.tsx:88 | The error shown is the error's message, or "Erro ao compartilhar tarefa" when it has none; it is never empty. |
| `TaskActions.Clean` | src/components/tasks/TaskActions.tsx:42-55 | The cleaned list is never longer than the stored one, and every id in it is stored as a non-null value. |
| `TaskActions.CleanedOf` | src/components/tasks/TaskActions.tsx:45-55 | A missing `shared_with` gives no ids; otherwise every id kept is a non-null value of the stored list. |
| `TaskActions.CleanConcat` | src/components/tasks/TaskActions.tsx:42-55 | Cleaning preserves order: it distributes over concatenation. |
| `TaskActions.CleanMembership` | src/components/tasks/TaskActions.tsx:50-54 | An id is in the cleaned list exactly when the stored list holds it as a non-null value. |
| `TaskActions.CleanShorter` | src/components/tasks/TaskActions.tsx:50-54 | The cleaned list is never longer than the stored list, and equally long when no entry is null. |
| `TaskActions.AsCells` | src/components/tasks/TaskActions.tsx:70-72 | The written array holds each id as a value, in order. |
| `TaskActions.CleanAsCells` | src/components/tasks/TaskActions.tsx:42-72 | Cleaning a written array gives back the list that was written. |
| `TaskActions.ShareWrite` | src/components/tasks/TaskActions.tsx:57-66 | Nothing is written exactly when the id is already shared. Otherwise the write is the cleaned list followed by the id, one longer. |
| `TaskActions.ShareWriteIsSetAdd` | src/components/tasks/TaskActions.tsx:66 | The written list holds exactly the old ids and the new one, and it has no duplicates if the cleaned list had none. |
| `TaskActions.ShareTwiceWritesOnce` | src/components/tasks/TaskActions.tsx:42-73 | Sharing again with the same user after a successful share writes nothing. |
| `TaskActions.ShareScenarios` | src/components/tasks/TaskActions.tsx:42-66 | A task already shared with `u1` is not written when shared with `u1`. A task shared with nobody is written as `[u2]` when shared with `u2`. |
| `TaskActions.ShareUserState.CleanSharedWith` | src/components/tasks/TaskActions.tsx:42-55 | The cleaning loop's result is the cleaned list of the stored entries. |
| `TaskActions.ShareUserState.HandleShareWithUser` | src/components/tasks/TaskActions.tsx:2-94 | Each path is fixed in turn. An empty email makes no call. A lookup error gives "not found" for PGRST116 and the generic error otherwise, with no write. An unreadable task gives the generic error. An id already there (`ShareWrite` gives nothing) gives "already shared" with no write and closes the dialog. Otherwise the list `ShareWrite` gives is written; on success the email is cleared, the dialog closed and a refresh requested. The loading flag always ends false. |
| `SetupAdmin.Setup` | src/lib/setupAdmin.ts:5-32 | Failure occurs exactly on an error that is reached, and carries that error's message. The table changes only when it was empty and the insert succeeded, and then it becomes the predefined list with the "added" message. A non-empty table reports "already exist". |
| `SetupAdmin.SetupIdempotent` | src/lib/setupAdmin.ts:15-27 | When no call fails, a second run leaves the table the first run produced and reports "already exist". |
| `SetupAdmin.SetupKeepsDepartments` | src/lib/setupAdmin.ts:15-31 | After a successful run the table is non-empty, and no run removes a department. |
| `SetupAdmin.DepartmentsTable.SetupPredefinedDepartments` | src/lib/setupAdmin.ts:5-32 | The new table and the `{ success, message }` result are those of `Setup` on the old table and the two errors. |

## Left out

- Supabase queries, auth calls and server-side behaviour:
  - the `order("position")` sort, the `eq`/`contains` filters and `single()` are not executed;
  - each query's outcome, each write's failure and a new row's id are inputs;
  - `Select` models a filter only to state `FetchUserTasksCoversScope`.
- Toasts, React state hooks, dialogs and dnd-kit sensors are not modelled. A handler's return values and the class fields stand for what the user is shown.
- Concurrency is not modelled:
  - the read-then-write of `shared_with` races with other clients;
  - overlapping drags and fetches also race.
- The initial effect `fetchUserDetails` (src/context/TasksContext.tsx:44-95) and `fetchDepartments` (src/context/TasksContext.tsx:79-91) are not modelled. The effect makes the same scope choice as `refreshTasks` (`ChooseScope`), with the department read from the profile, and `fetchDepartments` only installs a read list.
- The toast texts of the context's handlers are not modelled, including the `error.message || default` fallbacks of src/context/TasksContext.tsx. `CreateFailed` carries the raw error message.
- `due_date` formatting with `toISOString` is not modelled: the form's due date is an already formatted optional string.
- Stored columns the handlers never read (timestamps, the `departments` object kept by the spread) are not part of the rows.
- Departments.IsAdmin: case mapping covers the ASCII letters and the dotless i only. Other characters map to themselves, and JavaScript's multi-character mappings are not modelled. None of them can lower-case to a letter of `admin@team.com`.
- Departments.IsAdminOfUpperCase: holds only for emails without a dotless i, because `toUpperCase` maps it to `I` while `toLowerCase` keeps it; `DotlessIBreaksUpperCase` exhibits the difference.
- TasksContext.TasksProvider.HandleTaskCreate: does not state the text of the duplicate-id error. A failing position query or insert reports the database's message.
- `handleTaskCreate` re-throws to its caller as a rejected promise; the model returns the outcome instead.
