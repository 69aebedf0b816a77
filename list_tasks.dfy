/**
 * The list view (`ListTasks`): the tasks as last loaded from the store, and
 * the update pop-up with the task it edits. Delete and status change find
 * their entry by title, change a copy of the list and write that copy both
 * to the view and to the store.
 */
module ListTasks {
  import opened Text
  import opened Emails
  import opened Tasks

  /** How many characters of a description the list shows before `...`. */
  const ShownLength := 30

  /** The description as the list shows it: the first 30 characters followed
      by "..." when it is longer than that, otherwise all of it. */
  function DisplayedDescription(d: string): (r: string)
    ensures |r| <= ShownLength + 3
    ensures |d| <= ShownLength ==> r == d
    ensures |d| > ShownLength ==> |r| == ShownLength + 3 && r[ShownLength..] == "..."
    ensures var n := if |d| < ShownLength then |d| else ShownLength;
      n <= |r| && r[..n] == d[..n]
  {
    if |d| > ShownLength then d[..ShownLength] + "..." else d
  }

  /** "No tasks available." is shown exactly when the list is absent or has
      no entries. */
  predicate ShowsNoTasks(list: Option<seq<Task>>) {
    list.None? || |list.value| == 0
  }

  /** Each assignee's badge: its first character, upper-cased. */
  function Badges(emails: seq<string>): (bs: seq<char>)
    requires forall k | 0 <= k < |emails| :: emails[k] != []
    ensures |bs| == |emails|
    ensures forall k | 0 <= k < |emails| :: bs[k] == Badge(emails[k])
  {
    seq(|emails|, k requires 0 <= k < |emails| => Badge(emails[k]))
  }

  /** A well-formed task has a badge for every assignee. */
  lemma WellFormedHasBadges(t: Task)
    requires WellFormed(t)
    ensures forall k | 0 <= k < |t.emailsList| :: t.emailsList[k] != []
  {
    forall k | 0 <= k < |t.emailsList|
      ensures t.emailsList[k] != []
    {
      assert t.emailsList[k] in t.emailsList;
      ValidEmailHasBadge(t.emailsList[k]);
    }
  }

  class View {
    var tasksList: seq<Task>
    var showUpdatePopup: bool
    var selectedTask: Option<Task>

    /** The initial `useState` values. */
    constructor ()
      ensures tasksList == [] && !showUpdatePopup && selectedTask == None
    {
      tasksList, showUpdatePopup, selectedTask := [], false, None;
    }

    /** The effect keyed on the pop-up flag: the stored tasks replace the list
        when the slot exists; an absent slot leaves the list as it was. */
    method LoadTasks(store: LocalStorage)
      modifies this`tasksList
      ensures store.tasks.Some? ==> tasksList == store.tasks.value
      ensures store.tasks.None? ==> tasksList == old(tasksList)
    {
      var existingTasks := store.tasks;
      if existingTasks.Some? {
        tasksList := existingTasks.value;
      }
    }

    /** `handleDeleteTask`: the first entry titled like `task` leaves the list
        and the list is written to the store; with no such entry neither the
        list nor the store changes. */
    method HandleDeleteTask(store: LocalStorage, task: Task)
      modifies this`tasksList, store
      ensures tasksList == RemovedByTitle(old(tasksList), task.taskTitle)
      ensures FindIndex(old(tasksList), ByTitle(task.taskTitle)) == -1 ==> store.tasks == old(store.tasks)
      ensures FindIndex(old(tasksList), ByTitle(task.taskTitle)) != -1 ==> store.tasks == Some(tasksList)
    {
      var taskIndex := FindIndex(tasksList, ByTitle(task.taskTitle));
      if taskIndex != -1 {
        var updatedTasks := tasksList;
        updatedTasks := SpliceOne(updatedTasks, taskIndex);
        tasksList := updatedTasks;
        store.Save(updatedTasks);
      }
    }

    /** `handleStatusChange`: the first entry titled like `task` takes status
        `newStatus` in place in a copy of the list, which becomes the list and
        is written to the store; with no such entry nothing changes. */
    method HandleStatusChange(store: LocalStorage, task: Task, newStatus: string)
      modifies this`tasksList, store
      ensures tasksList == StatusSetByTitle(old(tasksList), task.taskTitle, newStatus)
      ensures FindIndex(old(tasksList), ByTitle(task.taskTitle)) == -1 ==> store.tasks == old(store.tasks)
      ensures FindIndex(old(tasksList), ByTitle(task.taskTitle)) != -1 ==> store.tasks == Some(tasksList)
    {
      var taskIndex := FindIndex(tasksList, ByTitle(task.taskTitle));
      if taskIndex != -1 {
        var updatedTasks := CopyWithEntry(tasksList, taskIndex, tasksList[taskIndex].(taskStatus := newStatus));
        assert updatedTasks == StatusSetByTitle(tasksList, task.taskTitle, newStatus);
        tasksList := updatedTasks;
        store.Save(updatedTasks);
      }
    }

    /** `handleEditTask`: the pop-up opens on `task`. */
    method HandleEditTask(task: Task)
      modifies this`selectedTask, this`showUpdatePopup
      ensures selectedTask == Some(task) && showUpdatePopup
    {
      selectedTask := Some(task);
      showUpdatePopup := true;
    }

    /** `handleCloseUpdatePopup`: only the flag is cleared; the task that was
        selected stays selected. */
    method HandleCloseUpdatePopup()
      modifies this`showUpdatePopup
      ensures !showUpdatePopup
    {
      showUpdatePopup := false;
    }
  }

  /** Deleting the only task empties both the list and the store, and the
      list then shows "No tasks available.". */
  lemma DeleteOnlyTaskShowsNoTasks(t: Task)
    ensures ShowsNoTasks(Some(RemovedByTitle([t], t.taskTitle)))
  {
    RemoveOnlyTask(t);
  }
}
