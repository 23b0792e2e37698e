# Task list component, modelled in Dafny

A model of the client-side state of the task list (`TodoItem` in
`frontend/src/components/TodoItem.jsx`). The component holds four pieces of
state: the rows `tasks`, the add box `newTask`, the edit box `editTask` and
the position `editIndex` of the row being edited (or none). Each user action
is one transition on that state:

- **load** (`fetchTodos`): the server's list replaces the local one;
- **add** (`handleAdd`): ignored when the add box is blank after JavaScript's
  `trim`; otherwise the untrimmed text is posted, the returned record is put in
  front of the list and the add box is cleared;
- **toggle** (`toggleComplete`): flips `completed` of one row, locally only;
- **edit** (`handleEdit`): copies a row's title into the edit box and remembers
  the row's position;
- **save** (`handleSave`): puts the edit box's text (title only) under the edited
  row's id, replaces every row with that id by the server's record and leaves
  edit mode;
- **delete** (`handleDelete`): on an ok response drops every row with that id.

Files:

- `js_string.dfy`, module `JsString`: `String.prototype.trim` with the
  WhiteSpace and LineTerminator code points of ECMAScript (sections 12.2 and
  12.3 of ECMA-262), and the fact that a string trims to `""` exactly when it is
  white space only.
- `tasks.dfy`, module `Tasks`: the `Task` record and the three list computations
  the handlers perform (`ToggleAt` for the indexed `map`, `ReplaceById` for the
  `map` by id, `RemoveById` for the `filter`), with lemmas: toggling twice
  restores the list; with unique ids, replace-by-id and remove-by-id touch
  exactly the row the id came from; removal keeps the survivors' order and
  multiplicities, is idempotent, and is the identity for an absent id.
- `todo_item.dfy`, module `TodoItemComponent`: the class `TodoItem` with the four
  state fields and one method per handler. A handler takes the server's reply
  as a parameter (`Reply<T>`: the decoded body, or `Threw` for a failure of
  `fetch` or `response.json()`) and returns the `Request` it sends, so "no
  request is made" is part of its contract. Two client methods chain the
  handlers: `EditThenSave` (edit, type, save rewrites exactly that row) and
  `DeleteWhileEditing`.

`editIndex` is a position, not an id. Neither `handleAdd` nor `handleDelete`
adjusts it. So after a row in front of the edited one is deleted (or a new row
is added in front), the edit box and the Save button move to a different task,
and the next save sends the edit text under that task's id. `DeleteShiftsEditedRow`
and `DeleteWhileEditing` state this behaviour as the code has it. For the same
reason the class has no invariant tying `editIndex` to the length of `tasks`.
`HandleSave` instead requires what the rendering guarantees: Save is only
rendered on the row at `editIndex` (line 159).

The model covers what this component's code does and nothing more. The
component has no duplicate-title check, no completed/uncompleted filter, no
title search and no clear-all action, so the model has none either. It never
sends priority or deadline; those are carried through unchanged.

## Model

| member | source | states |
|---|---|---|
| `JsString.TrimStart` | frontend/src/components/TodoItem.jsx:13 | the result is the suffix of the input after its leading white space and does not start with white space |
| `JsString.TrimEnd` | frontend/src/components/TodoItem.jsx:13 | the result is the prefix of the input before its trailing white space and does not end with white space |
| `JsString.Trim` | frontend/src/components/TodoItem.jsx:13 | `s.trim() === ""` holds exactly when every character of `s` is white space; a non-empty result starts and ends with a non-white-space character |
| `Tasks.ToggleAt` | frontend/src/components/TodoItem.jsx:42-46 | same length; only row `index` changes, and only in `completed`, which is negated; an out-of-range index leaves the list unchanged |
| `Tasks.ToggleTwiceRestores` | frontend/src/components/TodoItem.jsx:42-46 | toggling the same index twice restores the original list |
| `Tasks.ReplaceById` | frontend/src/components/TodoItem.jsx:67 | same length; every row with the id becomes exactly the server's record; every other row is unchanged |
| `Tasks.ReplaceByIdAtUnique` | frontend/src/components/TodoItem.jsx:55-69 | with unique ids, replacing by the id of row `k` equals updating position `k` alone |
| `Tasks.ReplaceByIdKeepsUniqueIds` | frontend/src/components/TodoItem.jsx:67 | a server record that keeps the id keeps the ids of the list unique |
| `Tasks.RemoveById` | frontend/src/components/TodoItem.jsx:82 | no row of the result carries the deleted id, and the result is no longer than the input |
| `Tasks.RemoveByIdCounts` | frontend/src/components/TodoItem.jsx:82 | a record with the deleted id occurs zero times afterwards; every other record occurs as often as before |
| `Tasks.RemoveByIdIsSubsequence` | frontend/src/components/TodoItem.jsx:82 | the result is a subsequence of the old list: the remaining rows keep their relative order |
| `Tasks.RemoveAbsentIdUnchanged` | frontend/src/components/TodoItem.jsx:82 | deleting an id no row carries leaves the list unchanged |
| `Tasks.RemoveByIdIdempotent` | frontend/src/components/TodoItem.jsx:82 | filtering the same id twice equals filtering it once |
| `Tasks.RemoveByIdAtUnique` | frontend/src/components/TodoItem.jsx:82 | with unique ids, deleting the id of row `j` cuts out exactly position `j` |
| `Tasks.DeleteShiftsEditedRow` | frontend/src/components/TodoItem.jsx:76-86 | with unique ids, deleting a row in front of position `k` shortens the list by one, and position `k` then holds the next task, whose id differs |
| `TodoItemComponent.TodoItem.constructor` | frontend/src/components/TodoItem.jsx:4-7 | the component starts with no rows, empty add and edit boxes and no row in edit mode |
| `TodoItemComponent.TodoItem.LoadTodos` | frontend/src/components/TodoItem.jsx:32-40 | sends a list request; a reply replaces `tasks` wholesale; a failure changes nothing; the other fields never change |
| `TodoItemComponent.TodoItem.TypeNewTask` | frontend/src/components/TodoItem.jsx:100 | typing in the add box sets `newTask` and nothing else |
| `TodoItemComponent.TodoItem.TypeEditTask` | frontend/src/components/TodoItem.jsx:128 | typing in the edit box sets `editTask` and nothing else |
| `TodoItemComponent.TodoItem.HandleAdd` | frontend/src/components/TodoItem.jsx:12-30 | no request is made exactly when the add box is blank after trim, and then nothing changes; otherwise the untrimmed text is posted; on a reply `tasks` becomes the server's record followed by the old list and the add box is cleared; on a failure nothing changes; the edit state never changes |
| `TodoItemComponent.TodoItem.ToggleComplete` | frontend/src/components/TodoItem.jsx:42-47 | `tasks` becomes `ToggleAt` of the old list; no other field changes and no request is made |
| `TodoItemComponent.TodoItem.HandleEdit` | frontend/src/components/TodoItem.jsx:49-52 | for a row the Edit button is shown on (line 150: in range, not completed, not already edited), the edit box gets that row's title and `editIndex` names it; `tasks` and the add box are unchanged |
| `TodoItemComponent.TodoItem.HandleSave` | frontend/src/components/TodoItem.jsx:54-74 | sends a `Put` with the edited row's id and the edit box's title only; on a reply every row with that id becomes the server's record, so the edited row is exactly that record and a local toggle is lost, and edit mode ends; on a failure `tasks` and `editIndex` are unchanged |
| `TodoItemComponent.TodoItem.HandleDelete` | frontend/src/components/TodoItem.jsx:76-86 | sends a delete for the id; an ok response filters that id out of `tasks`; a non-ok response or a failure leaves `tasks` unchanged; the other fields never change |
| `TodoItemComponent.EditThenSave` | frontend/src/components/TodoItem.jsx:49-74 | with unique ids, editing row `k`, typing a title and saving with the server's record replaces position `k` alone and ends edit mode |
| `TodoItemComponent.DeleteWhileEditing` | frontend/src/components/TodoItem.jsx:49-86 | deleting a row in front of the edited one leaves `editIndex` in place, so it now names the next task, with a different id |

## Left out

- `backend/index.js` is not part of this model. Each route passes one SQL statement to the database. Id generation, the `ORDER BY id DESC` listing and the row counts are database behaviour, not code that can be verified. Unique ids are therefore an explicit precondition (`UniqueIds`) where a lemma needs them.
- `fetch`, `response.json()`, `async`/`await` and the base URL (lines 9-10): each server reply is a parameter of the handler.
- Interleaving of overlapping requests is not modelled. Each handler captures `tasks` across an `await`, so two requests in flight can overwrite each other's result. Each handler is modelled as one atomic transition.
- Rendering and styling (lines 88-173) are not modelled, except the two guards that make handlers reachable. The Edit button guard (line 150) is the precondition of `HandleEdit`. The Save button guard (line 159) is the precondition of `HandleSave`.
- `console.error` logging is left out. A logged failure is modelled as "state unchanged".
- Response bodies that are not task records are not modelled. `handleAdd` and `handleSave` do not check `response.ok`, so a server error body such as `{error: ...}` would be inserted or substituted as if it were a row. The model types the reply as a `Task`, so such a body appears only as some `Task` value.
- A save of an id the server no longer has gets back an empty body. Then `response.json()` throws, and the model represents this as `Threw`.
- `LoadTodos`: a reply that is not an array would break rendering; this is not modelled.
- Priority and deadline are modelled as opaque optional strings. The component never reads them.
