# Task manager: forms, assignee emails and the task store

A model of the logic in the task manager's three React components. These
components let a user create a task, edit it in a pop-up and list it with
delete and status controls. Every task lives in one browser-storage slot,
`tasks`, and is read and written as a whole.

- `Text` (text.dfy) covers the JavaScript library behaviour the forms rely on:
  - the `\s` whitespace class, which is also what `trim` strips;
  - `trim`;
  - `split` on one character and `join`;
  - `filter`;
  - a one-element `splice` with JavaScript's clamping of negative and
    too-large start indices;
  - ASCII upper-casing.
- `Emails` (emails.dfy) holds what both forms share:
  - `validateEmail`, stated directly over characters. It is proved equal to
    a character-by-character shape: no whitespace, exactly one `@` that is
    not first, and a later `.` that is neither right after it nor last;
  - the pending input broken into trimmed non-empty comma pieces;
  - the invalid pieces and the error messages;
  - `MergePending`, the first half of both `handleSubmit`s.
- `Tasks` (tasks.dfy) holds the task record and the storage slot.
  - The slot is a class `LocalStorage` with an optional sequence: `None`
    means the key is absent, and a handler that does not write leaves it
    unchanged.
  - It also holds the four changes the components make to the sequence:
    append, replace the first entry with a given id, and remove or re-status
    the first entry with a given title.
  - It states the invariant the forms maintain, `WellFormed`: a title that
    is not blank and assignees that all pass `validateEmail`.
- `AddNewTask`, `UpdateTask` and `ListTasks` (add_new_task.dfy,
  update_task.dfy, list_tasks.dfy) are one class per component.
  - Each `useState` slot is a field, and each handler is a method that
    changes the fields it sets. Within one handler the last value set for a
    slot wins.
  - The fresh id `uuidv4()` produces is a parameter. Navigating to the list
    and calling `onClose()` are boolean results.
  - `handleAddEmail` in the create form keeps the component's `for` loop
    with early return. It is proved to report the first invalid piece in input order.
  - The update form's `handleSubmit` and the list view's
    `handleStatusChange` copy the tasks into an array, assign one slot in
    place, then write the copy back.

The two forms differ, and the model keeps each difference:

| | create form | update form |
|---|---|---|
| `handleAddEmail` on an invalid piece | reports only the first invalid piece | reports all invalid pieces, joined by `", "` |
| `handleAddEmail` on success | clears the error | leaves the error as it was |
| `handleSubmit` with a blank title | commits the merged emails and keeps the title | commits the merged emails and puts the title back to the task's own |

Four behaviours of the code that a reader might not expect; the model
keeps each of them:

- Delete and status change look the task up with `findIndex` on the title.
  Only the first entry with that title changes; later entries with the same
  title survive (`Tasks.RemoveSparesLaterDuplicates`).
- The update form's `handleAddEmail` does not clear the error on success.
- `handleRemoveEmail` accepts any index. Out-of-range and negative indices
  follow `splice`: a negative index counts from the end, and one past the
  end removes nothing.
- When no stored entry has the draft's id, the update form's `handleSubmit`
  writes nothing and still closes.

## Model

| member | source | states |
|---|---|---|
| Text.IsSpace | src/components/AddNewTask.jsx:17 | the characters JavaScript's `\s` and `trim` treat as whitespace: tab, line feed, vertical tab, form feed, carriage return, space, no-break space, the Unicode space separators, the line and paragraph separators and the byte-order mark |
| Text.Trim | src/components/AddNewTask.jsx:22 | `trim` is no longer than its input, keeps no whitespace at either end, and is empty exactly when the input is all whitespace |
| Text.TrimInfix | src/components/AddNewTask.jsx:23 | what `trim` keeps is a contiguous infix of the input, and everything dropped on either side is whitespace |
| Text.TrimIdempotent | src/components/AddNewTask.jsx:23 | trimming a trimmed piece changes nothing |
| Text.TrimFixed | src/components/AddNewTask.jsx:23 | a string with no whitespace at either end is its own trim |
| Text.SkipSpaces | src/components/AddNewTask.jsx:23 | the index where `trim`'s result starts: everything before it (from the start index) is whitespace, and the character there is not |
| Text.SkipSpacesBack | src/components/AddNewTask.jsx:23 | the index where `trim`'s result ends: everything after it is whitespace, and the character before it is not |
| Text.Split | src/components/AddNewTask.jsx:23 | `split(',')` yields at least one piece, and no piece holds the separator |
| Text.Join | src/components/AddNewTask.jsx:64 | `join`: the parts with the separator between consecutive ones; `Text.SplitJoin` and `Text.JoinSplit` prove it inverse to `split` |
| Text.JoinSplit | src/components/AddNewTask.jsx:23 | joining the pieces of `split` with the separator gives back the input: nothing is lost or invented |
| Text.SplitJoin | src/components/AddNewTask.jsx:23 | splitting the join of separator-free parts gives back the parts, so with `JoinSplit` the two are inverse |
| Text.SplitNoSeparator | src/components/AddNewTask.jsx:23 | input without a comma is one piece |
| Text.SplitAfterPiece | src/components/AddNewTask.jsx:23 | a separator-free prefix followed by the separator splits off as the first piece |
| Text.SplitAllSpace | src/components/AddNewTask.jsx:22-23 | every piece of an all-whitespace input is all whitespace |
| Text.Filter | src/components/AddNewTask.jsx:60 | `filter` keeps exactly the accepted elements: everything kept is in the input and accepted, and every accepted element is kept; `Text.FilterAppend` fixes their order and repeats |
| Text.FilterAppend | src/components/AddNewTask.jsx:60 | filtering a concatenation is filtering each part and concatenating, so the kept elements keep their input order and every repeat |
| Text.FilterNone | src/components/AddNewTask.jsx:60 | when no element is accepted the result is empty |
| Text.FilterAll | src/components/AddNewTask.jsx:60 | when every element is accepted the result is the input itself |
| Text.FilterFirst | src/components/AddNewTask.jsx:24-29 | the first accepted element heads the filtered sequence |
| Text.SpliceOne | src/components/AddNewTask.jsx:36-40 | `splice(start, 1)` on a copy: an in-range index drops that element; a negative one counts from the end; below `-length` drops the first; at or past the end drops nothing |
| Text.SpliceOneInRange | src/components/UpdateTask.jsx:40-44 | removing at an in-range index drops the length by one, keeps the earlier elements in place, moves the later ones down one, and removes exactly that element as a multiset |
| Text.SpliceOneSubset | src/components/UpdateTask.jsx:40-44 | every element left after `splice` was in the list before |
| Text.Upper | src/components/AddNewTask.jsx:168 | a lower-case ASCII letter becomes its upper-case letter, and every other character is unchanged |
| Emails.ValidateEmail | src/components/AddNewTask.jsx:16-19 | `validateEmail`: a run of plain characters, `@`, a run of plain characters, `.` and a run of plain characters, where plain means neither whitespace nor `@`; `Emails.ValidateEmailIffShape` states what that means character by character |
| Emails.ValidateEmailIffShape | src/components/UpdateTask.jsx:22-25 | `validateEmail` holds exactly when there is no whitespace, exactly one `@` that is not first, and a later `.` that is neither right after it nor last |
| Emails.ValidImpliesShape | src/components/AddNewTask.jsx:16-19 | an accepted address has that shape |
| Emails.ShapeImpliesValid | src/components/AddNewTask.jsx:16-19 | a string of that shape is accepted, whichever `.` the match uses |
| Emails.PlainInSegment | src/components/AddNewTask.jsx:17 | every character of a `[^\s@]+` segment is neither whitespace nor `@` |
| Emails.ValidateEmailExamples | src/components/AddNewTask.jsx:16-19 | `a@b.com` and `a@b.c.d` are accepted; `a@b`, `a b@c.com` and `a@b@c.d` are not |
| Emails.ValidEmailHasBadge | src/components/AddNewTask.jsx:166-168 | an accepted address has at least five characters and a plain first character, so `email[0]` always exists |
| Emails.Badge | src/components/AddNewTask.jsx:168 | the badge is the address's first character: a lower-case ASCII letter becomes the upper-case letter 32 code points below it, and any other first character is shown as it is |
| Emails.AllValidAppend | src/components/AddNewTask.jsx:30 | appending valid addresses to a valid list keeps it valid |
| Emails.Pieces | src/components/AddNewTask.jsx:23 | every piece of the pending input is non-empty and holds no comma; with `Emails.TrimmedNonBlankSound` every piece is the trim of a comma part and nothing is invented, and `Emails.PiecesOfJoin` shows that typed addresses come back exactly and in order |
| Emails.TrimmedNonBlank | src/components/AddNewTask.jsx:23 | the trimmed split parts without the empty ones: each is non-empty, none holds a comma when no part did, and every part whose trim is not blank survives as that trim; `Emails.TrimmedNonBlankSound` gives the converse |
| Emails.TrimmedNonBlankAppend | src/components/AddNewTask.jsx:23 | the pieces of a concatenation of parts are the pieces of each, concatenated: pieces keep the input order |
| Emails.TrimmedNonBlankSound | src/components/AddNewTask.jsx:23 | `map(trim).filter` invents nothing: there are no more pieces than parts, and every piece is the trim of some part |
| Emails.TrimmedNonBlankFixed | src/components/AddNewTask.jsx:23 | parts that are already non-empty and trimmed are kept exactly as they are |
| Emails.PiecesOfJoin | src/components/AddNewTask.jsx:23 | non-empty, trimmed, comma-free addresses typed with commas between them come back as exactly those addresses, in order |
| Emails.PiecesTrimmed | src/components/AddNewTask.jsx:23 | every piece is its own trim: no whitespace is left at either end |
| Emails.AllTrimmed | src/components/AddNewTask.jsx:23 | every kept trimmed part is its own trim |
| Emails.TrimKeepsCharacters | src/components/AddNewTask.jsx:23 | every character `trim` keeps comes from its input |
| Emails.PiecesOfBlank | src/components/AddNewTask.jsx:22-23 | empty or whitespace-only input yields no pieces at all |
| Emails.NoPiecesOfBlankParts | src/components/AddNewTask.jsx:23 | all-whitespace parts leave nothing after trimming and dropping empties |
| Emails.InvalidPieces | src/components/AddNewTask.jsx:60 | the invalid pieces are empty exactly when every piece is valid; each one listed is a piece that fails `validateEmail`, and every piece that fails it is listed |
| Emails.InvalidPiecesAppend | src/components/AddNewTask.jsx:60 | the invalid pieces of a concatenation are those of each part, in order, so the message names them in input order with every repeat |
| Emails.InvalidEmailsMessage | src/components/AddNewTask.jsx:64 | every invalid-email message, in both forms, starts with "Invalid email format: "; with one invalid piece it is that prefix followed by the piece |
| Emails.FirstInvalidPiece | src/components/AddNewTask.jsx:24-29 | the first piece that fails `validateEmail` heads the list of invalid pieces |
| Emails.MergePending | src/components/AddNewTask.jsx:59-68 | submit rejects the pending input exactly when some piece is invalid, with the prefix followed by all invalid pieces; otherwise the list becomes the old entries followed by the pieces in order, and a valid list stays valid |
| Tasks.LocalStorage.Load | src/components/UpdateTask.jsx:69-70 | reading the slot: the stored tasks, or none when the slot is absent; with `Save`'s contract, a read after a write gives back exactly the written tasks |
| Tasks.LocalStorage.Save | src/components/UpdateTask.jsx:87 | after a write the slot holds exactly the written tasks, and `Load` reads them back unchanged |
| Tasks.FindIndex | src/components/UpdateTask.jsx:72 | `findIndex`: -1 exactly when no entry matches; otherwise a matching entry with no match before it |
| Tasks.Appended | src/components/AddNewTask.jsx:80-89 | the stored tasks, or none when absent, followed by exactly the one new task; every earlier entry is unchanged |
| Tasks.Edited | src/components/UpdateTask.jsx:75-82 | the spread keeps the stored id and takes the draft's title, description, status, emails and completed flag |
| Tasks.UpdatedById | src/components/UpdateTask.jsx:72-85 | same length; the first entry with the id is edited and keeps that id; every other entry is unchanged; with no match nothing changes |
| Tasks.CopyWithEntry | src/components/UpdateTask.jsx:84-85 | a copy of the tasks of the same length whose given slot holds the new entry and every other slot its old entry |
| Tasks.RemovedByTitle | src/components/ListTasks.jsx:21-27 | with no title match nothing changes; otherwise the length drops by one, earlier entries stay in place, later ones move down one, and exactly the first match is removed as a multiset |
| Tasks.StatusSetByTitle | src/components/ListTasks.jsx:38-44 | same length; the first title match gets the new status and keeps every other field; every other entry is unchanged; with no match nothing changes |
| Tasks.RemoveSparesLaterDuplicates | src/components/ListTasks.jsx:21-27 | a later entry with the same title as the one removed is still in the list |
| Tasks.RemoveOnlyTask | src/components/ListTasks.jsx:21-27 | deleting the only task leaves an empty list |
| Tasks.ListChangesKeepWellFormed | src/components/ListTasks.jsx:19-49 | delete and status change keep every stored task well formed |
| Tasks.FormChangesKeepWellFormed | src/components/AddNewTask.jsx:79-90 | appending or updating with a well-formed draft keeps every stored task well formed |
| AddNewTask.Form.constructor | src/components/AddNewTask.jsx:7-13 | the initial draft: empty title, description, input and error; status "To Do"; no emails; not completed |
| AddNewTask.Form.HandleAddEmail | src/components/AddNewTask.jsx:21-34 | blank input changes nothing; an invalid piece leaves list and input unchanged and reports only the first invalid piece; all-valid input is appended in order, and the input and error are cleared; a valid list stays valid |
| AddNewTask.Form.HandleRemoveEmail | src/components/AddNewTask.jsx:36-40 | the list after `splice(index, 1)`, one shorter for an in-range index; a valid list stays valid |
| AddNewTask.Form.HandleEmailChange | src/components/AddNewTask.jsx:42-47 | the input takes the new value and no error is left |
| AddNewTask.Form.HandleSubmit | src/components/AddNewTask.jsx:56-98 | rejected input: the message is set and nothing else changes, the store included. Blank title: the merged list is committed, the input is cleared, the error is "Task title is required." and the store is not written. Otherwise: the store gains exactly one task (fresh id, draft fields, merged list), the draft resets and the form navigates |
| AddNewTask.Form.ResetDraft | src/components/AddNewTask.jsx:92-96 | the draft after a stored submit: empty title and description, status "To Do", no emails and not completed; the reset draft is valid |
| AddNewTask.SubmittedTaskKeepsStore | src/components/AddNewTask.jsx:79-90 | the task the create form stores keeps a well-formed store well formed |
| UpdateTask.Form.constructor | src/components/UpdateTask.jsx:4-20 | the form opens with the task's id, title, description, status, emails and completed flag, an empty input and no error |
| UpdateTask.Form.SyncFromTask | src/components/UpdateTask.jsx:13-20 | a new task prop overwrites the draft's id and editable fields, and leaves the input and error alone |
| UpdateTask.Form.HandleAddEmail | src/components/UpdateTask.jsx:27-38 | blank input changes nothing; any invalid piece leaves list and input unchanged and reports all invalid pieces; all-valid input is appended in order, the input is cleared and the error is kept |
| UpdateTask.Form.HandleRemoveEmail | src/components/UpdateTask.jsx:40-44 | the list after `splice(index, 1)`, one shorter for an in-range index |
| UpdateTask.Form.HandleEmailChange | src/components/UpdateTask.jsx:93-98 | the input takes the new value and no error is left |
| UpdateTask.Form.HandleSubmit | src/components/UpdateTask.jsx:46-91 | rejected input: the message is set, nothing else changes and the form stays open. Blank title: the merged list is committed, the input is cleared, the title is put back to the task's own, the error is "Task title is required." and the store is not written. Otherwise: the first stored entry with the draft's id takes the draft's fields, or nothing is written when none has it; the form closes either way |
| UpdateTask.UpdatedTaskKeepsStore | src/components/UpdateTask.jsx:69-88 | writing back a well-formed draft keeps a well-formed store well formed |
| ListTasks.DisplayedDescription | src/components/ListTasks.jsx:97-99 | at most 33 characters; unchanged up to 30; longer text is cut to 30 followed by "..."; it always starts with the first min(length, 30) characters |
| ListTasks.Badges | src/components/ListTasks.jsx:121-130 | one badge per assignee, each the first character upper-cased |
| ListTasks.WellFormedHasBadges | src/components/ListTasks.jsx:121-130 | every assignee of a well-formed task has a first character to show |
| ListTasks.ShowsNoTasks | src/components/ListTasks.jsx:73 | "No tasks available." is shown exactly when the list is absent or has no entries |
| ListTasks.DeleteOnlyTaskShowsNoTasks | src/components/ListTasks.jsx:73 | after deleting the only task, the list shows "No tasks available." |
| ListTasks.View.constructor | src/components/ListTasks.jsx:6-8 | an empty list, the pop-up closed and no task selected |
| ListTasks.View.LoadTasks | src/components/ListTasks.jsx:10-17 | the stored tasks replace the list when the slot exists; otherwise the list stays |
| ListTasks.View.HandleDeleteTask | src/components/ListTasks.jsx:19-34 | the list loses the first entry with the task's title, and the store is written with that same list; with no match neither changes |
| ListTasks.View.HandleStatusChange | src/components/ListTasks.jsx:36-51 | the first entry with the task's title takes the new status, and the store is written with that same list; with no match neither changes |
| ListTasks.View.HandleEditTask | src/components/ListTasks.jsx:53-56 | the task is selected and the pop-up opens |
| ListTasks.View.HandleCloseUpdatePopup | src/components/ListTasks.jsx:58-60 | only the pop-up flag is cleared; the selected task stays |

## Left out

- JSX rendering, CSS and React's scheduling of state updates and effects
  are not modelled. Each handler is one atomic step. The effect that reloads
  the list when the pop-up flag changes is `ListTasks.View.LoadTasks`, and
  the caller invokes it.
- `localStorage` and JSON are not modelled. The slot holds a sequence of
  tasks rather than JSON text, so corrupt JSON, a stored value that is not
  an array, and a storage failure cannot occur.
- The stored record has exactly the six task fields. The spread in the
  update form keeps any other stored field, and here that means keeping the
  id.
- `uuidv4()` is a parameter. Its uniqueness is not modelled.
- Navigation (`useNavigate`, Header.jsx) and what `onClose` does are not
  modelled. Both are reduced to a boolean result.
- `handleEmailKeyPress` is not modelled as its own member. It prevents the
  default and calls `handleAddEmail` when the key is Enter, which the
  caller can do with `HandleAddEmail`.
- The create form's title input carries `required`
  (src/components/AddNewTask.jsx:115), so the browser does not submit an
  empty title. Its blank-title branch is then reached only for a title of
  whitespace. The model does not model the browser's form validation, and
  `AddNewTask.Form.HandleSubmit` accepts an empty title too. The update
  form's title input (src/components/UpdateTask.jsx:114-120) has no
  `required`, so there an empty title does reach that branch.
- The `onChange` setters for title, description, status and completed are
  plain field assignments, so they are not modelled separately.
- Text.Upper: only ASCII letters are upper-cased. Full Unicode
  `toUpperCase`, which can change other letters or produce two characters,
  is not modelled.
- Emails.Badge: inherits the ASCII-only upper-casing of `Text.Upper`.
  JavaScript's `email[0]` is one UTF-16 code unit, so for an address that
  starts with a character outside the Basic Multilingual Plane it shows a
  lone surrogate. The model shows the whole character.
- ListTasks.DisplayedDescription: lengths and the 30-character cut count
  Unicode characters. JavaScript counts UTF-16 code units, so the two
  differ for text outside the Basic Multilingual Plane.
- Text.Split: only a one-character separator is modelled, which is the only
  kind the forms use.
- `handleStatusChange` assigns the status through a shallow copy, so the
  old list's task object changes too. The model updates a copy of the
  sequence without any sharing, so that aliasing is not captured.
- Several browser tabs writing the slot at once are not modelled.
