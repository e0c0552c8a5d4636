/**
 * Values shared by the task board: the stored `tasks` row, the normalised
 * task the UI holds, and the outcome of a database query.
 */
module TaskTypes {

  datatype Option<+T> = None | Some(value: T)
  {
    function GetOr(default: T): T
    {
      match this
      case Some(v) => v
      case None => default
    }
  }

  /**
   * One entry of a stored `shared_with` array as the client sees it at run
   * time: the column is typed as a list of strings, but the code defends
   * against `null`/`undefined` entries and non-string values. `Value(text)`
   * carries the entry's `String(...)` conversion.
   */
  datatype Cell = Null | Undefined | Value(text: string)

  /** A row of the `tasks` table. */
  datatype Row = Row(
    id: string,
    title: string,
    description: string,
    priority: string,
    department_id: Option<string>,
    created_by: string,
    assigned_to: string,
    status: string,
    position: int,
    due_date: Option<string>,
    shared_with: Option<seq<Cell>>)

  /**
   * A row as the fetch queries return it: the stored row joined with its
   * department's name (`departments(name)`, absent when there is none).
   */
  datatype Joined = Joined(row: Row, department_name: Option<string>)
  {
    const id: string := row.id
  }

  /**
   * A task as the board holds it: a row whose priority has been made valid,
   * whose `shared_with` is never missing and which carries the department
   * name as plain text.
   */
  datatype Task = Task(
    id: string,
    title: string,
    description: string,
    priority: string,
    department_id: Option<string>,
    created_by: string,
    assigned_to: string,
    status: string,
    position: int,
    due_date: Option<string>,
    shared_with: seq<Cell>,
    department: string)

  /**
   * What a query returns: either data (possibly `null`) or an error carrying
   * the message the client would show.
   */
  datatype Query<T> = Data(rows: Option<seq<T>>) | QueryError(message: string)
  {
    /** `data || []`: the rows of a successful query, empty when `null`. */
    function RowsOrEmpty(): seq<T>
      requires Data?
    {
      rows.GetOr([])
    }
  }

  /** The statuses the board partitions by. */
  const ACTIVE: string := "active"
  const COMPLETED: string := "completed"
}
