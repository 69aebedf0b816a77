/**
 * The update form (`UpdateTask`), shown over the list for one stored task.
 * Its state slots are the fields of `Form`, the `task` prop is the field
 * `task`, and each handler is one atomic transition in which the last value
 * set for a slot wins. Calling `onClose()` is the handler's `closed` result.
 */
module UpdateTask {
  import opened Text
  import opened Emails
  import opened Tasks

  class Form {
    var task: Task
    var taskId: string
    var taskTitle: string
    var taskDescription: string
    var taskStatus: string
    var email: string
    var emailsList: seq<string>
    var taskCompleted: bool
    var errorMessage: string

    /** Every assignee the draft holds passed `validateEmail`. */
    ghost predicate Valid()
      reads this
    {
      AllValid(emailsList)
    }

    /** The form as first shown for `t`: the empty `useState` values, then the
        effect that copies the task's fields into the draft. */
    constructor (t: Task)
      ensures task == t && taskId == t.id && taskTitle == t.taskTitle
      ensures taskDescription == t.taskDescription && taskStatus == t.taskStatus
      ensures emailsList == t.emailsList && taskCompleted == t.taskCompleted
      ensures email == "" && errorMessage == ""
      ensures WellFormed(t) ==> Valid()
    {
      task := t;
      taskId, taskTitle, taskDescription, taskStatus := "", "", "", "";
      email, emailsList, taskCompleted, errorMessage := "", [], false, "";
      new;
      SyncFromTask(t);
    }

    /** The effect keyed on `task`: a new prop overwrites the draft's editable
        fields and its id; the pending input and the error stay. */
    method SyncFromTask(t: Task)
      modifies this`task, this`taskId, this`taskTitle, this`taskDescription
      modifies this`taskStatus, this`emailsList, this`taskCompleted
      ensures task == t && taskId == t.id && taskTitle == t.taskTitle
      ensures taskDescription == t.taskDescription && taskStatus == t.taskStatus
      ensures emailsList == t.emailsList && taskCompleted == t.taskCompleted
      ensures WellFormed(t) ==> Valid()
    {
      task := t;
      taskTitle := t.taskTitle;
      taskDescription := t.taskDescription;
      taskStatus := t.taskStatus;
      emailsList := t.emailsList;
      taskCompleted := t.taskCompleted;
      taskId := t.id;
    }

    /** `handleAddEmail`: blank pending input changes nothing; otherwise every
        invalid piece is reported, leaving list and input as they were; when
        all are valid they are appended in order and the input is cleared,
        while the error keeps whatever it held. */
    method HandleAddEmail()
      modifies this`email, this`emailsList, this`errorMessage
      ensures Trim(old(email)) == [] ==>
        email == old(email) && emailsList == old(emailsList) && errorMessage == old(errorMessage)
      ensures Trim(old(email)) != [] && !AllValid(Pieces(old(email))) ==>
        && email == old(email) && emailsList == old(emailsList)
        && errorMessage == InvalidEmailsMessage(InvalidPieces(Pieces(old(email))))
      ensures Trim(old(email)) != [] && AllValid(Pieces(old(email))) ==>
        && email == "" && emailsList == old(emailsList) + Pieces(old(email))
        && errorMessage == old(errorMessage)
      ensures old(Valid()) ==> Valid()
    {
      if Trim(email) != [] {
        var newEmails := Pieces(email);
        var invalidEmails := InvalidPieces(newEmails);
        if invalidEmails != [] {
          errorMessage := InvalidEmailsMessage(invalidEmails);
          return;
        }
        AllValidAppend(emailsList, newEmails);
        emailsList := emailsList + newEmails;
        email := "";
      }
    }

    /** `handleRemoveEmail`: `splice(index, 1)` on a copy of the list. */
    method HandleRemoveEmail(index: int)
      modifies this`emailsList
      ensures emailsList == SpliceOne(old(emailsList), index)
      ensures 0 <= index < |old(emailsList)| ==> |emailsList| == |old(emailsList)| - 1
      ensures old(Valid()) ==> Valid()
    {
      SpliceOneSubset(emailsList, index);
      var updatedEmailsList := emailsList;
      updatedEmailsList := SpliceOne(updatedEmailsList, index);
      emailsList := updatedEmailsList;
    }

    /** `handleEmailChange`: the new pending input, and no error left. */
    method HandleEmailChange(value: string)
      modifies this`email, this`errorMessage
      ensures email == value && errorMessage == ""
    {
      email := value;
      if errorMessage != "" {
        errorMessage := "";
      }
    }

    /** `handleSubmit`. Pending input with an invalid piece is rejected with
        the message naming all invalid pieces and nothing else changes.
        Otherwise the merged list is committed and the input cleared; then a
        blank title is put back to the prop's title with "Task title is
        required." and the store is not touched; else the first stored entry
        whose id is the draft's takes the draft's editable fields (no entry,
        no write) and the form closes. */
    method HandleSubmit(store: LocalStorage) returns (closed: bool)
      modifies this`emailsList, this`email, this`errorMessage, this`taskTitle, store
      ensures var m := MergePending(old(emailsList), old(email));
        m.Rejected? ==>
          && errorMessage == m.message
          && email == old(email) && emailsList == old(emailsList) && taskTitle == old(taskTitle)
          && store.tasks == old(store.tasks) && !closed
      ensures var m := MergePending(old(emailsList), old(email));
        m.Merged? && Trim(old(taskTitle)) == [] ==>
          && emailsList == m.list && email == "" && taskTitle == task.taskTitle
          && errorMessage == TitleRequired
          && store.tasks == old(store.tasks) && !closed
      ensures var m := MergePending(old(emailsList), old(email));
        m.Merged? && Trim(old(taskTitle)) != [] ==>
          && emailsList == m.list && email == "" && taskTitle == old(taskTitle)
          && errorMessage == "" && closed
          && var stored := old(store.Load());
             var draft := Task(taskId, taskTitle, taskDescription, taskStatus, m.list, taskCompleted);
             && (FindIndex(stored, ById(taskId)) == -1 ==> store.tasks == old(store.tasks))
             && (FindIndex(stored, ById(taskId)) != -1 ==>
                   store.tasks == Some(UpdatedById(stored, taskId, draft)))
      ensures old(Valid()) ==> Valid()
    {
      var merge := MergePending(emailsList, email);
      if merge.Rejected? {
        errorMessage := merge.message;
        return false;
      }

      var updatedEmailsList := merge.list;
      emailsList := updatedEmailsList;
      email := "";
      errorMessage := "";

      if Trim(taskTitle) == [] {
        taskTitle := task.taskTitle;
        errorMessage := TitleRequired;
        return false;
      }

      var tasks := store.Load();
      var taskIndexToUpdate := FindIndex(tasks, ById(taskId));
      if taskIndexToUpdate != -1 {
        var draft := Task(taskId, taskTitle, taskDescription, taskStatus, updatedEmailsList, taskCompleted);
        var updatedTask := Edited(tasks[taskIndexToUpdate], draft);
        var updatedTasks := CopyWithEntry(tasks, taskIndexToUpdate, updatedTask);
        assert updatedTasks == UpdatedById(tasks, taskId, draft);
        store.Save(updatedTasks);
      }
      closed := true;
    }
  }

  /** The entry the update form writes back is well formed when the draft was,
      so a well-formed store stays well formed. */
  lemma UpdatedTaskKeepsStore(ts: seq<Task>, list: seq<string>, email: string, draft: Task)
    requires MergePending(list, email).Merged? && draft.emailsList == MergePending(list, email).list
    requires Trim(draft.taskTitle) != [] && AllValid(list)
    requires AllWellFormed(ts)
    ensures AllWellFormed(UpdatedById(ts, draft.id, draft))
  {
    FormChangesKeepWellFormed(None, ts, draft.id, draft);
  }
}
