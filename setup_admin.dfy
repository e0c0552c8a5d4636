/**
 * Seeding the `departments` table with the predefined departments when it
 * is empty.
 *
 * The table is the `names` field of `DepartmentsTable`, in insertion order.
 * Whether the read or the insert fails is an input: `Some(message)` is the
 * error the database returns.
 */
module SetupAdmin {
  import opened TaskTypes
  import opened Departments

  const SEEDED_MESSAGE: string := "Departamentos predefinidos adicionados com sucesso"
  const ALREADY_EXIST_MESSAGE: string := "Departamentos já existem"

  /** The result object `{ success, message }` together with the table afterwards. */
  datatype SetupResult = SetupResult(names: seq<string>, success: bool, message: string)

  /**
   * What one run does to a table holding `names`: an error from the read or
   * from the insert reports failure with its message and leaves the table
   * alone; otherwise an empty table receives the predefined departments and
   * a non-empty one is left as it is.
   */
  function Setup(names: seq<string>, checkError: Option<string>, insertError: Option<string>): (r: SetupResult)
    // Failure exactly on an error that is reached, with that error's message.
    ensures !r.success <==> checkError.Some? || (names == [] && insertError.Some?)
    ensures checkError.Some? ==> r.message == checkError.value
    ensures checkError.None? && names == [] && insertError.Some? ==> r.message == insertError.value
    // The table changes only when it was empty and the insert went through.
    ensures r.names != names <==> checkError.None? && names == [] && insertError.None?
    ensures r.names != names ==> r.names == PREDEFINED_DEPARTMENTS && r.message == SEEDED_MESSAGE
    ensures r.success && names != [] ==> r.message == ALREADY_EXIST_MESSAGE
  {
    if checkError.Some? then SetupResult(names, false, checkError.value)
    else if names == [] then
      if insertError.Some? then SetupResult(names, false, insertError.value)
      else SetupResult(names + PREDEFINED_DEPARTMENTS, true, SEEDED_MESSAGE)
    else SetupResult(names, true, ALREADY_EXIST_MESSAGE)
  }

  /**
   * Idempotence: when no call fails, a second run leaves the table the first
   * run produced and reports that the departments already exist.
   */
  lemma SetupIdempotent(names: seq<string>)
    ensures var once := Setup(names, None, None);
      var twice := Setup(once.names, None, None);
      && twice.names == once.names
      && twice.success
      && twice.message == ALREADY_EXIST_MESSAGE
  {
  }

  /** After a successful run the table is never empty, and no run ever drops a department. */
  lemma SetupKeepsDepartments(names: seq<string>, checkError: Option<string>, insertError: Option<string>)
    ensures var r := Setup(names, checkError, insertError);
      && (r.success ==> r.names != [])
      && (forall n :: n in names ==> n in r.names)
  {
  }

  class DepartmentsTable {
    /** The department names stored, in insertion order. */
    var names: seq<string>

    constructor (names: seq<string>)
      ensures this.names == names
    {
      this.names := names;
    }

    /** `setupPredefinedDepartments`. */
    method SetupPredefinedDepartments(checkError: Option<string>, insertError: Option<string>)
      returns (success: bool, message: string)
      modifies this
      ensures SetupResult(names, success, message) == Setup(old(names), checkError, insertError)
    {
      if checkError.Some? {
        return false, checkError.value;
      }
      var existing := names;
      if |existing| == 0 {
        if insertError.Some? {
          return false, insertError.value;
        }
        names := names + PREDEFINED_DEPARTMENTS;
        return true, SEEDED_MESSAGE;
      }
      return true, ALREADY_EXIST_MESSAGE;
    }
  }
}
