/**
 * Sharing a task with another user by email: validate the email, resolve it
 * to a user id, read the task's stored `shared_with`, clean it, and append
 * the id unless it is already there.
 *
 * The handler's free variables (the task, the email field, the loading flag
 * and the dialog flag) are fields of `ShareUserState`; the `tasks` table is
 * its `table` field. The profile lookup's answer and the failures of the
 * read and of the write are inputs.
 */
module TaskActions {
  import opened TaskTypes

  /** The outcome of `.from("profiles").select("id").eq("email", ...).single()`. */
  datatype Lookup = Found(userId: string) | LookupError(code: string, message: string)

  /** The `single()` error code for "no row". */
  const NOT_FOUND_CODE: string := "PGRST116"

  /**
   * A stand-in for the message `single()` reports when the task row is
   * missing: the handler only displays it, and its exact text depends on the
   * server's version.
   */
  const NO_ROWS_MESSAGE: string := "JSON object requested, multiple (or no) rows returned"

  /** The description shown when a thrown error carries no message. */
  const SHARE_ERROR_DEFAULT: string := "Erro ao compartilhar tarefa"

  /** `error.message || "Erro ao compartilhar tarefa"`. */
  function ErrorText(message: string): (r: string)
    ensures r != ""
    ensures message != "" ==> r == message
    ensures message == "" ==> r == SHARE_ERROR_DEFAULT
  {
    if message != "" then message else SHARE_ERROR_DEFAULT
  }

  /** Failures of the two task queries that the table alone does not decide. */
  datatype Fault = NoFault | ReadFault(message: string) | WriteFault(message: string)

  /** The database calls the handler makes, in order. */
  datatype Call = LookupProfile(email: string) | ReadSharedWith(taskId: string) | WriteSharedWith(taskId: string, ids: seq<string>)

  /** What the user is told. */
  datatype ShareOutcome =
    | EmailRequired
    | UserNotFound
    | AlreadyShared
    | Shared
    | ShareFailed(message: string)

  predicate IsNull(c: Cell)
  {
    c.Null? || c.Undefined?
  }

  /**
   * The ids kept from a stored `shared_with`: every entry that is neither
   * `null` nor `undefined`, converted to text, in the stored order.
   */
  function Clean(stored: seq<Cell>): (ids: seq<string>)
    ensures |ids| <= |stored|
    ensures forall x :: x in ids ==> Value(x) in stored
  {
    if stored == [] then []
    else
      var last := stored[|stored| - 1];
      Clean(stored[..|stored| - 1]) + (if IsNull(last) then [] else [last.text])
  }

  /** The cleaned list of a row: empty when `shared_with` is missing. */
  function CleanedOf(row: Row): (ids: seq<string>)
    ensures row.shared_with.None? ==> ids == []
    ensures forall x :: x in ids ==> row.shared_with.Some? && Value(x) in row.shared_with.value
  {
    if row.shared_with.Some? then Clean(row.shared_with.value) else []
  }

  /** Cleaning distributes over concatenation, so it keeps the stored order. */
  lemma {:induction false} CleanConcat(a: seq<Cell>, b: seq<Cell>)
    ensures Clean(a + b) == Clean(a) + Clean(b)
  {
    if b == [] {
      assert a + b == a;
    } else {
      var lastB := b[|b| - 1];
      CleanConcat(a, b[..|b| - 1]);
      assert (a + b)[..|a + b| - 1] == a + b[..|b| - 1];
    }
  }

  /** An id is in the cleaned list exactly when the stored list holds it as a value. */
  lemma {:induction false} CleanMembership(stored: seq<Cell>, id: string)
    ensures id in Clean(stored) <==> Value(id) in stored
  {
    if stored != [] {
      var prefix := stored[..|stored| - 1];
      CleanMembership(prefix, id);
      assert stored == prefix + [stored[|stored| - 1]];
    }
  }

  /**
   * The cleaned list is never longer than the stored one, and exactly as long
   * when no stored entry is `null` or `undefined`.
   */
  lemma {:induction false} CleanShorter(stored: seq<Cell>)
    ensures |Clean(stored)| <= |stored|
    ensures (forall i :: 0 <= i < |stored| ==> !IsNull(stored[i])) ==> |Clean(stored)| == |stored|
  {
    if stored != [] {
      CleanShorter(stored[..|stored| - 1]);
    }
  }

  /** The ids as they are written back: every one a value. */
  function AsCells(ids: seq<string>): (cs: seq<Cell>)
    ensures |cs| == |ids|
    ensures forall i :: 0 <= i < |ids| ==> cs[i] == Value(ids[i])
  {
    seq(|ids|, i requires 0 <= i < |ids| => Value(ids[i]))
  }

  /** Cleaning a list that was written back gives that list again. */
  lemma {:induction false} CleanAsCells(ids: seq<string>)
    ensures Clean(AsCells(ids)) == ids
  {
    if ids != [] {
      var prefix := ids[..|ids| - 1];
      var cs := AsCells(ids);
      CleanAsCells(prefix);
      assert cs[..|cs| - 1] == AsCells(prefix);
      assert !IsNull(cs[|cs| - 1]) && cs[|cs| - 1].text == ids[|ids| - 1];
      assert ids == prefix + [ids[|ids| - 1]];
    }
  }

  predicate NoDuplicates(ids: seq<string>)
  {
    forall i, j :: 0 <= i < j < |ids| ==> ids[i] != ids[j]
  }

  /**
   * The list a share writes, if any: nothing when the id is already there,
   * otherwise the cleaned list with the id appended.
   */
  function ShareWrite(cleaned: seq<string>, id: string): (r: Option<seq<string>>)
    ensures r.None? <==> id in cleaned
    ensures r.Some? ==> |r.value| == |cleaned| + 1 && r.value[..|cleaned|] == cleaned && r.value[|cleaned|] == id
  {
    if id in cleaned then None else Some(cleaned + [id])
  }

  /**
   * Appending is a set-add: the written list holds exactly the old ids and
   * the new one, and it stays free of duplicates when the old list was.
   */
  lemma ShareWriteIsSetAdd(cleaned: seq<string>, id: string)
    requires id !in cleaned
    ensures var w := ShareWrite(cleaned, id).value;
      && (forall x :: x in w <==> x in cleaned || x == id)
      && (NoDuplicates(cleaned) ==> NoDuplicates(w))
  {
  }

  /**
   * Sharing twice with the same user writes once: after a successful write,
   * the list read back already holds the id, so the next share writes nothing.
   */
  lemma ShareTwiceWritesOnce(cleaned: seq<string>, id: string)
    requires id !in cleaned
    ensures ShareWrite(Clean(AsCells(ShareWrite(cleaned, id).value)), id).None?
  {
  }

  /**
   * A task already shared with `u1` is not written again; a task shared with
   * nobody is written with exactly the new id.
   */
  lemma ShareScenarios(u1: string, u2: string)
    ensures ShareWrite(Clean([Value(u1)]), u1).None?
    ensures ShareWrite(Clean([]), u2) == Some([u2])
  {
  }

  class ShareUserState {
    /** The task the dialog belongs to. */
    const taskId: string
    var userEmail: string
    var isLoading: bool
    var isShareUserDialogOpen: bool
    /** The `tasks` table: stored rows by id. */
    var table: map<string, Row>

    constructor (taskId: string, userEmail: string, table: map<string, Row>)
      ensures this.taskId == taskId && this.userEmail == userEmail && this.table == table
      ensures !isLoading && isShareUserDialogOpen
    {
      this.taskId := taskId;
      this.userEmail := userEmail;
      this.table := table;
      this.isLoading := false;
      this.isShareUserDialogOpen := true;
    }

    /**
     * The cleaning loop: push the text of every entry that is neither `null`
     * nor `undefined`, in order.
     */
    method CleanSharedWith(stored: seq<Cell>) returns (sharedWithIds: seq<string>)
      ensures sharedWithIds == Clean(stored)
    {
      sharedWithIds := [];
      var i := 0;
      while i < |stored|
        invariant 0 <= i <= |stored|
        invariant sharedWithIds == Clean(stored[..i])
      {
        assert stored[..i + 1][..i] == stored[..i];
        if !IsNull(stored[i]) {
          sharedWithIds := sharedWithIds + [stored[i].text];
        }
        i := i + 1;
      }
      assert stored[..i] == stored;
    }

    /**
     * `handleShareWithUser`. Returns what the user is told, the database
     * calls made in order, and whether the task list was asked to refresh.
     */
    method HandleShareWithUser(lookup: Lookup, fault: Fault)
      returns (outcome: ShareOutcome, calls: seq<Call>, refreshed: bool)
      modifies this
      ensures !isLoading
      ensures refreshed <==> outcome == Shared
      // An empty email is refused before any database call.
      ensures old(userEmail) == "" ==>
        && outcome == EmailRequired && calls == [] && table == old(table)
        && isShareUserDialogOpen == old(isShareUserDialogOpen) && userEmail == old(userEmail)
      // A failed lookup: "not found" for PGRST116, a generic error otherwise; no write.
      ensures old(userEmail) != "" && lookup.LookupError? ==>
        && outcome == (if lookup.code == NOT_FOUND_CODE then UserNotFound else ShareFailed(ErrorText(lookup.message)))
        && calls == [LookupProfile(old(userEmail))] && table == old(table)
        && isShareUserDialogOpen == old(isShareUserDialogOpen) && userEmail == old(userEmail)
      // The task row cannot be read: a generic error; no write.
      ensures old(userEmail) != "" && lookup.Found? && (taskId !in old(table) || fault.ReadFault?) ==>
        && outcome == ShareFailed(ErrorText(if taskId !in old(table) then NO_ROWS_MESSAGE else fault.message))
        && calls == [LookupProfile(old(userEmail)), ReadSharedWith(taskId)] && table == old(table)
        && isShareUserDialogOpen == old(isShareUserDialogOpen) && userEmail == old(userEmail)
      // The read succeeded: already shared (`ShareWrite` gives nothing), or
      // write the list `ShareWrite` gives.
      ensures old(userEmail) != "" && lookup.Found? && taskId in old(table) && !fault.ReadFault? ==>
        var write := ShareWrite(CleanedOf(old(table)[taskId]), lookup.userId);
        var prefix := [LookupProfile(old(userEmail)), ReadSharedWith(taskId)];
        if write.None? then
          && outcome == AlreadyShared && calls == prefix && table == old(table)
          && !isShareUserDialogOpen && userEmail == old(userEmail)
        else
          && calls == prefix + [WriteSharedWith(taskId, write.value)]
          && (fault.WriteFault? ==>
                && outcome == ShareFailed(ErrorText(fault.message)) && table == old(table)
                && isShareUserDialogOpen == old(isShareUserDialogOpen) && userEmail == old(userEmail))
          && (!fault.WriteFault? ==>
                && outcome == Shared
                && table == old(table)[taskId := old(table)[taskId].(shared_with := Some(AsCells(write.value)))]
                && !isShareUserDialogOpen && userEmail == "")
    {
      isLoading := true;
      calls := [];
      refreshed := false;
      outcome := ShareFailed("");
      if userEmail == "" {
        outcome := EmailRequired;
      } else {
        calls := calls + [LookupProfile(userEmail)];
        if lookup.LookupError? {
          if lookup.code == NOT_FOUND_CODE {
            outcome := UserNotFound;
          } else {
            outcome := ShareFailed(ErrorText(lookup.message));
          }
        } else {
          calls := calls + [ReadSharedWith(taskId)];
          if taskId !in table {
            outcome := ShareFailed(ErrorText(NO_ROWS_MESSAGE));
          } else if fault.ReadFault? {
            outcome := ShareFailed(ErrorText(fault.message));
          } else {
            var sharedWithIds: seq<string> := [];
            var row := table[taskId];
            if row.shared_with.Some? {
              sharedWithIds := CleanSharedWith(row.shared_with.value);
            }
            if lookup.userId in sharedWithIds {
              outcome := AlreadyShared;
              isShareUserDialogOpen := false;
            } else {
              sharedWithIds := sharedWithIds + [lookup.userId];
              calls := calls + [WriteSharedWith(taskId, sharedWithIds)];
              if fault.WriteFault? {
                outcome := ShareFailed(ErrorText(fault.message));
              } else {
                table := table[taskId := row.(shared_with := Some(AsCells(sharedWithIds)))];
                outcome := Shared;
                refreshed := true;
                isShareUserDialogOpen := false;
                userEmail := "";
              }
            }
          }
        }
      }
      // `finally`: the loading flag is always cleared.
      isLoading := false;
    }
  }
}
