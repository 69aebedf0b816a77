/**
 * The create form (`AddNewTask`). Its state slots are the fields of `Form`;
 * each handler is one atomic transition in which the last value set for a
 * slot wins. The fresh id `uuidv4()` would produce is a parameter, and the
 * navigation to the list view is the handler's `navigated` result.
 */
module AddNewTask {
  import opened Text
  import opened Emails
  import opened Tasks

  const DefaultStatus := "To Do"

  class Form {
    var taskTitle: string
    var taskDescription: string
    var taskStatus: string
    var email: string
    var emailsList: seq<string>
    var taskCompleted: bool
    var errorMessage: string

    /** Every assignee the draft holds passed `validateEmail`, so each one has
        a first character for its badge. */
    ghost predicate Valid()
      reads this
    {
      AllValid(emailsList)
    }

    /** The initial `useState` values. */
    constructor ()
      ensures taskTitle == "" && taskDescription == "" && taskStatus == DefaultStatus
      ensures email == "" && emailsList == [] && !taskCompleted && errorMessage == ""
      ensures Valid()
    {
      taskTitle, taskDescription, taskStatus := "", "", DefaultStatus;
      email, emailsList, taskCompleted, errorMessage := "", [], false, "";
    }

    /** `handleAddEmail`: blank pending input changes nothing; otherwise the
        pieces are checked in input order and the first invalid one is
        reported alone, leaving list and input as they were; when all are
        valid they are appended in order and both input and error are
        cleared. */
    method HandleAddEmail()
      modifies this`email, this`emailsList, this`errorMessage
      ensures Trim(old(email)) == [] ==>
        email == old(email) && emailsList == old(emailsList) && errorMessage == old(errorMessage)
      ensures Trim(old(email)) != [] && !AllValid(Pieces(old(email))) ==>
        && email == old(email) && emailsList == old(emailsList)
        && errorMessage == InvalidFormatPrefix + InvalidPieces(Pieces(old(email)))[0]
      ensures Trim(old(email)) != [] && AllValid(Pieces(old(email))) ==>
        email == "" && emailsList == old(emailsList) + Pieces(old(email)) && errorMessage == ""
      ensures old(Valid()) ==> Valid()
    {
      if Trim(email) != [] {
        var newEmails := Pieces(email);
        ghost var before := emailsList;
        for k := 0 to |newEmails|
          invariant forall m | 0 <= m < k :: ValidateEmail(newEmails[m])
          modifies this`errorMessage
        {
          if !ValidateEmail(newEmails[k]) {
            assert newEmails[k] in newEmails;
            FirstInvalidPiece(newEmails, k);
            errorMessage := InvalidFormatPrefix + newEmails[k];
            return;
          }
        }
        assert AllValid(newEmails) by {
          forall e <- newEmails ensures ValidateEmail(e) {
            var i :| 0 <= i < |newEmails| && newEmails[i] == e;
          }
        }
        AllValidAppend(before, newEmails);
        emailsList := emailsList + newEmails;
        email := "";
        errorMessage := "";
      }
    }

    /** `handleRemoveEmail`: `splice(index, 1)` on a copy of the list. */
    method HandleRemoveEmail(index: int)
      modifies this`emailsList
      ensures emailsList == SpliceOne(old(emailsList), index)
      ensures 0 <= index < |old(emailsList)| ==> |emailsList| == |old(emailsList)| - 1
      ensures old(Valid()) ==> Valid()
    {
      SpliceOneSubset(emailsList, index);
      var updatedEmailsList := emailsList;
      updatedEmailsList := SpliceOne(updatedEmailsList, index);
      emailsList := updatedEmailsList;
    }

    /** `handleEmailChange`: the new pending input, and no error left. */
    method HandleEmailChange(value: string)
      modifies this`email, this`errorMessage
      ensures email == value && errorMessage == ""
    {
      email := value;
      if errorMessage != "" {
        errorMessage := "";
      }
    }

    /** `handleSubmit`. Pending input with an invalid piece is rejected with
        the message naming all invalid pieces and nothing else changes.
        Otherwise the merged list is committed and the input cleared; then a
        blank title stops with "Task title is required." before the store is
        touched; else the store gains exactly one task built from the draft,
        the draft resets and the form navigates away. */
    method HandleSubmit(store: LocalStorage, freshId: string) returns (navigated: bool)
      modifies this, store
      ensures var m := MergePending(old(emailsList), old(email));
        m.Rejected? ==>
          && errorMessage == m.message
          && email == old(email) && emailsList == old(emailsList)
          && taskTitle == old(taskTitle) && taskDescription == old(taskDescription)
          && taskStatus == old(taskStatus) && taskCompleted == old(taskCompleted)
          && store.tasks == old(store.tasks) && !navigated
      ensures var m := MergePending(old(emailsList), old(email));
        m.Merged? && Trim(old(taskTitle)) == [] ==>
          && emailsList == m.list && email == "" && errorMessage == TitleRequired
          && taskTitle == old(taskTitle) && taskDescription == old(taskDescription)
          && taskStatus == old(taskStatus) && taskCompleted == old(taskCompleted)
          && store.tasks == old(store.tasks) && !navigated
      ensures var m := MergePending(old(emailsList), old(email));
        m.Merged? && Trim(old(taskTitle)) != [] ==>
          && store.tasks == Some(Appended(old(store.tasks),
               Task(freshId, old(taskTitle), old(taskDescription), old(taskStatus),
                    m.list, old(taskCompleted))))
          && taskTitle == "" && taskDescription == "" && taskStatus == DefaultStatus
          && emailsList == [] && !taskCompleted && email == "" && errorMessage == ""
          && navigated
      ensures old(Valid()) ==> Valid()
    {
      var merge := MergePending(emailsList, email);
      if merge.Rejected? {
        errorMessage := merge.message;
        return false;
      }

      var updatedEmailsList := merge.list;
      emailsList := updatedEmailsList;
      email := "";
      errorMessage := "";

      if Trim(taskTitle) == [] {
        errorMessage := TitleRequired;
        return false;
      }

      var newTask := Task(freshId, taskTitle, taskDescription, taskStatus, updatedEmailsList, taskCompleted);
      store.Save(Appended(store.tasks, newTask));
      ResetDraft();
      navigated := true;
    }

    /** The draft fields back at their initial values after a stored task. */
    method ResetDraft()
      modifies this`taskTitle, this`taskDescription, this`taskStatus, this`emailsList, this`taskCompleted
      ensures taskTitle == "" && taskDescription == "" && taskStatus == DefaultStatus
      ensures emailsList == [] && !taskCompleted && Valid()
    {
      taskTitle := "";
      taskDescription := "";
      taskStatus := DefaultStatus;
      emailsList := [];
      taskCompleted := false;
    }
  }

  /** The task the create form stores is well formed when the draft's list was
      valid, so a well-formed store stays well formed. */
  lemma SubmittedTaskKeepsStore(slot: Option<seq<Task>>, list: seq<string>, email: string, t: Task)
    requires MergePending(list, email).Merged? && t.emailsList == MergePending(list, email).list
    requires Trim(t.taskTitle) != [] && AllValid(list)
    requires slot.Some? ==> AllWellFormed(slot.value)
    ensures AllWellFormed(Appended(slot, t))
  {
    FormChangesKeepWellFormed(slot, [], t.id, t);
  }
}
