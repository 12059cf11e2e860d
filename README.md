# To-do list component, modelled in Dafny

This project models the `TodoList` React component in `src/todolist.jsx`. Without the
rendering, the component is a small state machine. Its state is a list of task records
`{id, name, status}` and a few other slots:

- the pending new-task text (`taskName`);
- the edit dialog, which holds a scratch copy of one task (`editMode`, `currentTask`);
- the delete confirmation, which holds its target (`deleteMode`, `taskToDelete`);
- a validation message (`nameError`);
- the number of completed tasks (`completedTasks`), which an effect recomputes every time
  the list is replaced.

Each event handler is one transition on that state.

The project has three files:

- `js_string.dfy` (module `JsString`) models JavaScript's `String.prototype.trim`. It uses
  the ECMAScript white-space and line-terminator characters. `Trim(s) == ""` is proved
  equivalent to "every character of `s` is white space".
- `task_list.dfy` (module `TaskList`) holds the task record and the pure list operations
  the handlers use:
  - `Toggle` is the `map` that flips `status` by id;
  - `Replace` is the `map` that writes the scratch copy back;
  - `RemoveId` is the `filter` that deletes by id;
  - `CountCompleted` is `filter(...).length`;
  - `SummaryOf` is the condition that picks the summary line.

  The lemmas about them are in the same file.
- `todo_list.dfy` (module `TodoListComponent`) holds the class `TodoList`. Its fields mirror
  the `useState` slots, and it has one method per handler. Each handler that replaces the
  list calls `RecountCompleted` after replacing it, which stands for the `useEffect` on `[todo]`.
  `Valid()` holds after every handler. It says three things:
  - the count agrees with the list;
  - the edit dialog is open exactly when a scratch copy is held;
  - the delete dialog is open exactly when a target is held.

Some details of the code that the model keeps:

- The completion flag is called `status`.
- `name` is stored untrimmed.
- `handleCancel` does not clear `nameError`.
- `handleUpdate` writes the whole scratch copy back, `status` included.
- `handleConfirmDelete` removes every entry with the target's id, not just one.
- The list starts empty. It is never read back from local storage.

Ids are distinct only if the caller supplies fresh ones. `AddTask` keeps them distinct when
`newId` is new to the list. Toggle, update and delete always keep them distinct.

## Model

| member | source | states |
|---|---|---|
| `JsString.SkipBlankFrom` | src/todolist.jsx:22 | The scan stops at the first character at or after the start that is not white space, or at the end. Everything it skipped is white space. |
| `JsString.SkipBlankBack` | src/todolist.jsx:22 | The backward scan stops just after the last character before the end that is not white space, never going below the lower bound. Everything it skipped is white space. |
| `JsString.Trim` | src/todolist.jsx:22 | `trim()` is never longer than its input and has no white space at either end. It is empty exactly when the input is blank. |
| `JsString.TrimSlice` | src/todolist.jsx:22 | What `trim()` keeps is a slice of the input that only white space precedes and only white space follows. |
| `TaskList.Toggle` | src/todolist.jsx:34-40 | Length, order, ids and names are preserved. `status` is flipped exactly on the entries whose id matches. |
| `TaskList.ToggleTwice` | src/todolist.jsx:34-40 | Toggling the same id twice gives back the original list. |
| `TaskList.ToggleAbsent` | src/todolist.jsx:34-40 | Toggling an id that no entry carries leaves the list unchanged. |
| `TaskList.ToggleCount` | src/todolist.jsx:14-40 | With distinct ids, toggling entry k changes the completed count by exactly one: down if the entry was completed, up otherwise. |
| `TaskList.Replace` | src/todolist.jsx:62-64 | Length and ids are preserved. Every entry whose id equals the copy's id becomes the whole copy. Every other entry is unchanged. |
| `TaskList.ReplaceAbsent` | src/todolist.jsx:62-64 | A copy whose id is not in the list leaves the list unchanged. |
| `TaskList.ReplaceUnique` | src/todolist.jsx:62-64 | With distinct ids, writing back the copy of entry k changes entry k alone, and changes it into the copy. |
| `TaskList.ReplaceKeepsIds` | src/todolist.jsx:62-64 | Writing back a copy keeps ids pairwise distinct. |
| `TaskList.RemoveId` | src/todolist.jsx:81 | No surviving entry carries the target id, and the list never grows. |
| `TaskList.RemoveIdMembers` | src/todolist.jsx:81 | A task survives exactly when it was in the list and its id differs from the target id. |
| `TaskList.RemoveIdConcat` | src/todolist.jsx:81 | Deletion distributes over concatenation, so the surviving entries keep their relative order. |
| `TaskList.RemoveIdAbsent` | src/todolist.jsx:81 | Deleting an id that no entry carries leaves the list unchanged. |
| `TaskList.RemoveIdUnique` | src/todolist.jsx:81 | With distinct ids, deleting the id of entry k gives exactly the list without entry k. |
| `TaskList.RemoveIdKeepsDistinct` | src/todolist.jsx:81 | Deleting keeps ids pairwise distinct. |
| `TaskList.RemoveIdIdempotent` | src/todolist.jsx:81 | Deleting the same id twice has the effect of deleting it once. |
| `TaskList.CountCompleted` | src/todolist.jsx:17 | The count is at most the length. |
| `TaskList.CountAllOrNone` | src/todolist.jsx:17 | The count equals the length exactly when every task is completed. It is 0 exactly when none is. |
| `TaskList.CountConcat` | src/todolist.jsx:17 | The count of a concatenation is the sum of the two counts. |
| `TaskList.AppendOpenCount` | src/todolist.jsx:23-28 | Appending a task with `status` false leaves the count unchanged. |
| `TaskList.SummaryOf` | src/todolist.jsx:135-140 | Hidden exactly when the length is 0. "All completed" exactly when the length is positive and the count equals it. Otherwise the count is shown, and it differs from the length. |
| `TaskList.SummaryOfList` | src/todolist.jsx:135-140 | For an empty list the summary is hidden. The "all completed" message shows exactly when the list is non-empty and every task is completed. Otherwise the count shows, and it is below the length. |
| `TodoListComponent.TodoList.constructor` | src/todolist.jsx:5-12 | The initial state: an empty list, empty texts, both dialogs closed, and a count of 0. |
| `TodoListComponent.TodoList.RecountCompleted` | src/todolist.jsx:14-19 | The stored count becomes the number of completed tasks in the current list. |
| `TodoListComponent.TodoList.SetTaskName` | src/todolist.jsx:97 | The pending text becomes the typed text. Nothing else changes. |
| `TodoListComponent.TodoList.AddTask` | src/todolist.jsx:21-32 | Non-blank pending text: exactly one task is appended at the end, with the given id, the untrimmed text and `status` false. Earlier entries are unchanged and the pending text is cleared. Blank text: the list and the pending text are unchanged. The count is unchanged either way. Ids stay distinct when the new id is fresh. |
| `TodoListComponent.TodoList.HandleStatusChange` | src/todolist.jsx:34-40 | The list becomes `Toggle` of the old list. An absent id leaves the list unchanged. Distinct ids stay distinct. The count is recomputed. |
| `TodoListComponent.TodoList.HandleEdit` | src/todolist.jsx:42-45 | The edit dialog opens holding the given task. The list and every other slot are unchanged. |
| `TodoListComponent.TodoList.HandleNameChange` | src/todolist.jsx:47-49 | Only the scratch copy's name changes. Its id and status stay, and the list is unchanged. |
| `TodoListComponent.TodoList.HandleCancel` | src/todolist.jsx:51-54 | The edit dialog closes and the copy is dropped. The list and `nameError` are unchanged. |
| `TodoListComponent.TodoList.HandleUpdate` | src/todolist.jsx:56-68 | Blank copy name: `nameError` becomes the non-empty message, and the list, the dialog and the copy are unchanged. Otherwise: the list becomes `Replace` of the old list with the copy, the dialog closes, the copy is dropped and `nameError` is cleared. Distinct ids stay distinct. |
| `TodoListComponent.TodoList.HandleDeleteRequest` | src/todolist.jsx:70-73 | The confirmation dialog opens for the given task. The list is unchanged. |
| `TodoListComponent.TodoList.HandleCancelDelete` | src/todolist.jsx:75-78 | The confirmation dialog closes. The list is unchanged. |
| `TodoListComponent.TodoList.HandleConfirmDelete` | src/todolist.jsx:80-84 | The list becomes `RemoveId` of the old list with the target's id, and the dialog closes. Distinct ids stay distinct. The count is recomputed. |
| `TodoListComponent.TodoList.Summary` | src/todolist.jsx:135-143 | For the current state: hidden exactly when the list is empty, "all completed" exactly when the list is non-empty and every task is completed, otherwise the stored count, which is below the length. |

## Left out

- Rendering: the JSX, the icons, the stylesheet and the empty-list image (src/todolist.jsx:86-203). The one Vietnamese string the handlers set is kept as the constant `NameRequired`. The other display strings are replaced by the `Summary` datatype.
- Saving the list to browser storage as JSON (src/todolist.jsx:16). This is storage I/O through a foreign serialiser.
- Input focus through `inputRef` (src/todolist.jsx:13, 15, 30). This is a DOM side effect.
- `Date.now()` (src/todolist.jsx:24). This is the clock. `AddTask` takes the new id as its parameter `newId`. Ids are unbounded integers; a JavaScript number holds any millisecond timestamp exactly.
- DOM event objects (src/todolist.jsx:48, 57). `HandleNameChange` takes the typed text. `preventDefault` has no state effect.
- React's batching of state updates and the scheduling of `useEffect`. Each handler is one atomic transition, followed by the recount when the list was replaced.
- HandleNameChange, HandleUpdate and HandleConfirmDelete require their dialog to be open. The component calls them only from inside that dialog. With the dialog closed the slot is `null`: `handleUpdate` and `handleConfirmDelete` would throw, and `handleNameChange` would build a record that has only a name.
- Names are Dafny strings, which hold Unicode scalar values. A JavaScript string is a sequence of UTF-16 code units and may hold lone surrogates, so the model covers fewer possible names. `Trim` behaves the same on every string the model can represent, because every white-space character is in the Basic Multilingual Plane.
