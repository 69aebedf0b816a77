/**
 * The task record and the store that holds every task: one browser-storage
 * slot, `tasks`, read and written as a whole. The slot is modelled as an
 * optional sequence (absent until first written) instead of its JSON text.
 * The functions here are the changes the three components make to that
 * sequence: append, replace the first entry with a given id, remove or
 * re-status the first entry with a given title.
 */
module Tasks {
  import opened Text
  import opened Emails

  datatype Option<T> = None | Some(value: T)

  datatype Task = Task(
    id: string,
    taskTitle: string,
    taskDescription: string,
    taskStatus: string,
    emailsList: seq<string>,
    taskCompleted: bool)

  /** What the forms guarantee of every task they store: a title that is not
      blank and assignees that all pass `validateEmail`. */
  predicate WellFormed(t: Task) {
    Trim(t.taskTitle) != [] && AllValid(t.emailsList)
  }

  predicate AllWellFormed(ts: seq<Task>) {
    forall t <- ts :: WellFormed(t)
  }

  /** The browser's `localStorage` slot `tasks`. */
  class LocalStorage {
    var tasks: Option<seq<Task>>

    constructor (initial: Option<seq<Task>>)
      ensures tasks == initial
    {
      tasks := initial;
    }

    /** `existingTasks ? JSON.parse(existingTasks) : []`: the stored tasks, or
        none when the slot is absent. */
    function Load(): (ts: seq<Task>)
      reads this
      ensures tasks.None? ==> ts == []
      ensures tasks.Some? ==> ts == tasks.value
    {
      if tasks.Some? then tasks.value else []
    }

    /** `localStorage.setItem('tasks', JSON.stringify(ts))`. */
    method Save(ts: seq<Task>)
      modifies this
      ensures tasks == Some(ts)
      ensures Load() == ts
    {
      tasks := Some(ts);
    }
  }

  /** How the components look a task up: the update form by `id`, the list
      view by `taskTitle`. */
  datatype Key = ById(id: string) | ByTitle(title: string)

  predicate Matches(t: Task, key: Key) {
    match key
    case ById(id) => t.id == id
    case ByTitle(title) => t.taskTitle == title
  }

  /** `tasks.findIndex(...)`: the index of the first entry matching `key`, or
      -1 when none does. */
  function FindIndex(ts: seq<Task>, key: Key): (r: int)
    ensures -1 <= r < |ts|
    ensures r == -1 <==> forall k | 0 <= k < |ts| :: !Matches(ts[k], key)
    ensures r >= 0 ==> Matches(ts[r], key) && forall k | 0 <= k < r :: !Matches(ts[k], key)
  {
    if ts == [] then -1
    else if Matches(ts[0], key) then 0
    else
      var r := FindIndex(ts[1..], key);
      assert forall k | 1 <= k < |ts| :: ts[k] == ts[1..][k - 1];
      if r == -1 then -1 else r + 1
  }

  /** The create form's write: the stored tasks (none if the slot is absent)
      followed by exactly one new task; nothing before it changes. */
  function Appended(slot: Option<seq<Task>>, t: Task): (ts: seq<Task>)
    ensures slot.None? ==> ts == [t]
    ensures slot.Some? ==> |ts| == |slot.value| + 1 && ts[..|slot.value|] == slot.value
    ensures ts[|ts| - 1] == t
  {
    if slot.Some? then slot.value + [t] else [t]
  }

  /** `{...stored, taskTitle, taskDescription, taskStatus, emailsList,
      taskCompleted}`: the stored entry with the draft's editable fields; the
      stored `id` stays. */
  function Edited(stored: Task, draft: Task): (t: Task)
    ensures t.id == stored.id
    ensures t.taskTitle == draft.taskTitle && t.taskDescription == draft.taskDescription
    ensures t.taskStatus == draft.taskStatus && t.emailsList == draft.emailsList
    ensures t.taskCompleted == draft.taskCompleted
  {
    stored.(taskTitle := draft.taskTitle, taskDescription := draft.taskDescription,
            taskStatus := draft.taskStatus, emailsList := draft.emailsList,
            taskCompleted := draft.taskCompleted)
  }

  /** The update form's change: the first entry whose `id` is `id` takes the
      draft's editable fields and keeps its `id`; every other entry and the
      length are unchanged; with no such entry nothing changes. */
  function UpdatedById(ts: seq<Task>, id: string, draft: Task): (r: seq<Task>)
    ensures |r| == |ts|
    ensures var i := FindIndex(ts, ById(id));
      && (i == -1 ==> r == ts)
      && (i >= 0 ==> r[i] == Edited(ts[i], draft) && r[i].id == id
                     && forall k | 0 <= k < |ts| && k != i :: r[k] == ts[k])
  {
    var i := FindIndex(ts, ById(id));
    if i == -1 then ts else ts[i := Edited(ts[i], draft)]
  }

  /** A copy of `ts` in an array whose slot `i` is then assigned `t`, read
      back as a sequence: every entry but the `i`th is the original. */
  method CopyWithEntry(ts: seq<Task>, i: nat, t: Task) returns (r: seq<Task>)
    requires i < |ts|
    ensures |r| == |ts| && r[i] == t
    ensures forall k | 0 <= k < |ts| && k != i :: r[k] == ts[k]
  {
    var copy := new Task[|ts|](k requires 0 <= k < |ts| => ts[k]);
    copy[i] := t;
    r := copy[..];
  }

  /** The list view's delete: the first entry titled `title` is removed and
      the others keep their order; with no such entry nothing changes. */
  function RemovedByTitle(ts: seq<Task>, title: string): (r: seq<Task>)
    ensures var i := FindIndex(ts, ByTitle(title));
      && (i == -1 ==> r == ts)
      && (i >= 0 ==> |r| == |ts| - 1
                     && (forall k | 0 <= k < i :: r[k] == ts[k])
                     && (forall k | i <= k < |r| :: r[k] == ts[k + 1])
                     && multiset(r) + multiset{ts[i]} == multiset(ts))
  {
    var i := FindIndex(ts, ByTitle(title));
    if i == -1 then ts
    else
      SpliceOneInRange(ts, i);
      SpliceOne(ts, i)
  }

  /** The list view's status change: the first entry titled `title` gets
      status `status`, with every other field and every other entry as it
      was; with no such entry nothing changes. */
  function StatusSetByTitle(ts: seq<Task>, title: string, status: string): (r: seq<Task>)
    ensures |r| == |ts|
    ensures var i := FindIndex(ts, ByTitle(title));
      && (i == -1 ==> r == ts)
      && (i >= 0 ==> r[i] == ts[i].(taskStatus := status)
                     && forall k | 0 <= k < |ts| && k != i :: r[k] == ts[k])
  {
    var i := FindIndex(ts, ByTitle(title));
    if i == -1 then ts else ts[i := ts[i].(taskStatus := status)]
  }

  /** Only the first entry with the title is removed: every later entry with
      the same title is still there. */
  lemma RemoveSparesLaterDuplicates(ts: seq<Task>, title: string, b: nat)
    requires b < |ts| && ts[b].taskTitle == title
    requires b != FindIndex(ts, ByTitle(title))
    ensures ts[b] in RemovedByTitle(ts, title)
  {
    var i := FindIndex(ts, ByTitle(title));
    var r := RemovedByTitle(ts, title);
    assert i < b;
    assert r[b - 1] == ts[b];
  }

  /** Removing the only task leaves an empty store. */
  lemma RemoveOnlyTask(t: Task)
    ensures RemovedByTitle([t], t.taskTitle) == []
  {
    assert FindIndex([t], ByTitle(t.taskTitle)) == 0;
  }

  /** The title-keyed changes never break the forms' guarantees: removal
      keeps a subset of the entries and a status change touches neither
      title nor assignees. */
  lemma ListChangesKeepWellFormed(ts: seq<Task>, title: string, status: string)
    requires AllWellFormed(ts)
    ensures AllWellFormed(RemovedByTitle(ts, title))
    ensures AllWellFormed(StatusSetByTitle(ts, title, status))
  {
    var i := FindIndex(ts, ByTitle(title));
    if i >= 0 {
      SpliceOneSubset(ts, i);
      var r := StatusSetByTitle(ts, title, status);
      forall t <- r ensures WellFormed(t) {
        var k :| 0 <= k < |r| && r[k] == t;
        assert ts[k] in ts;
      }
    }
  }

  /** Appending or updating with a well-formed draft keeps every stored task
      well formed. */
  lemma FormChangesKeepWellFormed(slot: Option<seq<Task>>, ts: seq<Task>, id: string, draft: Task)
    requires slot.Some? ==> AllWellFormed(slot.value)
    requires AllWellFormed(ts) && WellFormed(draft)
    ensures AllWellFormed(Appended(slot, draft))
    ensures AllWellFormed(UpdatedById(ts, id, draft))
  {
    var a := Appended(slot, draft);
    forall t <- a ensures WellFormed(t) {
      var k :| 0 <= k < |a| && a[k] == t;
      if k < |a| - 1 { assert t in slot.value; }
    }
    var r := UpdatedById(ts, id, draft);
    forall t <- r ensures WellFormed(t) {
      var k :| 0 <= k < |r| && r[k] == t;
      if k != FindIndex(ts, ById(id)) { assert ts[k] in ts; }
    }
  }
}
