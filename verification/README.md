# Todolist state model

A verified model of the state logic of the Todolist React app (`src/App.js`):
a browser task list where the user adds, ticks off, edits and deletes short
text tasks, and the list is kept in the browser's local storage under the key
`items`.

- `tasks.dfy` (module `Tasks`): the task record `{id, description, state}` and the
  root component's four list handlers as pure functions on `seq<Task>`. Add is a
  spread-append. Delete is a `filter`. Toggle and Edit are `map`s. Ids are
  creation timestamps and are not assumed unique, so each operation acts on every
  task that carries the id. The lemmas cover order preservation, "nothing else
  changes", no-ops on unknown ids, toggle as its own inverse, and last edit wins.
  They also show that three pairs of operations give the same result in either order:
  two toggles, a toggle and a delete, and a toggle and an edit.
- `text.dfy` (module `Text`): `String.prototype.trim` with ECMAScript's white space
  and line terminators. The row editor's guard uses it.
- `components.dfy` (module `Components`): the components that hold state, as classes.
  - `App` holds the `items` cell and the storage slot, and its handlers call the pure
    functions and then run the persistence effect.
  - `EntryForm` holds the entry draft.
  - `ItemRow` holds a row's edit flag and edit draft.
- `wrappers.dfy` (module `Wrappers`): `Option`, which models the storage slot.

Behaviour follows the code:
- The entry form refuses only the exact empty draft (`!description`), so a draft
  made only of white space is added.
- The row editor commits the draft untrimmed. Only the guard trims it.
- A row's edit draft is seeded once, when the row is created (`useState`). Leaving
  edit mode without submitting keeps the abandoned draft.
- The persistence effect writes only a non-empty list. After the last task is
  deleted, the old snapshot stays stored, and the next mount reloads it
  (`ClearingLeavesStaleSnapshot`).

## Model

| member | source | states |
|---|---|---|
| Tasks.Add | src/App.js:21-23 | the new task is last; the earlier tasks are unchanged and in order; the length grows by one |
| Tasks.Delete | src/App.js:26-28 | the result is no longer than the input; a task is in the result exactly when it is in the input and its id differs |
| Tasks.DeleteUnknown | src/App.js:27 | deleting an id no task carries leaves the list unchanged |
| Tasks.DeleteAppend | src/App.js:27 | delete distributes over concatenation, so kept tasks keep their relative order |
| Tasks.DeleteMultiplicity | src/App.js:27 | every copy of a task with a different id is kept and every copy of a task with the id is removed |
| Tasks.DeleteLength | src/App.js:27 | the length drops by exactly the number of positions whose task carries the id (all matches go, not only the first) |
| Tasks.DeleteIdempotent | src/App.js:27 | deleting the same id twice equals deleting it once |
| Tasks.DeleteAfterAdd | src/App.js:21-28 | deleting after an add removes the new task exactly when it carries the id, and the rest as usual |
| Tasks.Toggle | src/App.js:31-37 | length, every id and every description are kept; `state` flips exactly on tasks with the id; other tasks are identical |
| Tasks.ToggleTwice | src/App.js:31-37 | toggling the same id twice restores the original list |
| Tasks.ToggleUnknown | src/App.js:31-37 | toggling an id no task carries leaves the list unchanged |
| Tasks.ToggleCommutes | src/App.js:31-37 | toggles of two ids give the same list in either order |
| Tasks.DeleteToggle | src/App.js:26-37 | deleting the toggled id forgets the toggle; deleting another id commutes with the toggle |
| Tasks.Edit | src/App.js:40-46 | length, every id and every state are kept; the description becomes the new text on tasks with the id and is unchanged elsewhere |
| Tasks.EditUnknown | src/App.js:40-46 | editing an id no task carries leaves the list unchanged |
| Tasks.EditLastWins | src/App.js:40-46 | a second edit of the same id overrides the first (so an edit repeated is idempotent) |
| Tasks.EditToggleCommute | src/App.js:31-46 | an edit and a toggle give the same list in either order |
| Text.SkipLeading | src/App.js:138 | the scan stops at the first character that is not white space, or at the end; everything it skipped is white space |
| Text.SkipTrailing | src/App.js:138 | the scan from the end stops just after the last character that is not white space, or at its lower bound; everything it skipped is white space |
| Text.Trim | src/App.js:138 | `trim()` is empty exactly when the text is all white space; otherwise it neither starts nor ends with white space |
| Text.TrimSplits | src/App.js:138 | the text splits into a blank prefix, then `trim()`, then a blank suffix |
| Components.App.constructor | src/App.js:5-18 | mounting loads the stored snapshot, or the empty list when the slot is empty; the slot is unchanged and the store is in sync |
| Components.App.Persist | src/App.js:14-18 | a non-empty list is written to the slot; an empty list leaves the slot as it was |
| Components.App.AddItem | src/App.js:21-23 | the list becomes the append, and the slot holds the new list |
| Components.App.DeleteItem | src/App.js:26-28 | the list becomes the filtered list; the slot holds it unless it is empty, when the slot keeps its previous snapshot |
| Components.App.ToggleItem | src/App.js:31-37 | the list becomes the toggled list; the slot follows the persistence guard |
| Components.App.EditItem | src/App.js:40-46 | the list becomes the edited list; the slot follows the persistence guard |
| Components.EntryForm.constructor | src/App.js:68 | the draft starts empty |
| Components.EntryForm.Change | src/App.js:96 | the draft becomes the input's value |
| Components.EntryForm.Submit | src/App.js:70-85 | the empty draft changes neither the list, the slot nor the draft; any other draft (white space included) appends one undone task with that text and the given timestamp, stores the list and clears the draft |
| Components.ItemRow.constructor | src/App.js:121-123 | a row starts out of edit mode, with its draft set to the task's text |
| Components.ItemRow.ToggleEditMode | src/App.js:126-128 | edit mode flips; the draft is kept |
| Components.ItemRow.EditChange | src/App.js:131-133 | in edit mode (the only mode in which the edit input is rendered), the edit draft becomes the input's value |
| Components.ItemRow.EditSubmit | src/App.js:136-143 | in edit mode (the only mode in which the edit form is rendered), an all-white-space draft changes neither the list nor the slot, and the row stays in edit mode; any other draft edits every task with the row's id to the untrimmed draft, persists, and leaves edit mode |
| Components.ItemRow.CheckboxChange | src/App.js:152 | the checkbox toggles the row's task whatever the edit mode |
| Components.ItemRow.DeleteClick | src/App.js:178 | the delete icon deletes the row's task whatever the edit mode |
| Components.ClearingLeavesStaleSnapshot | src/App.js:8-28 | adding one task and deleting it leaves the list empty, and a fresh mount reloads that task |
| Components.PersistThenReload | src/App.js:8-18 | a synced non-empty list is exactly what the next mount loads |

## Left out

- Rendering: `Logo`, the `List` fan-out, the checkbox's `value` binding and the
  struck-through style (`src/App.js:48-64, 103-119, 145-182`). These are presentation.
  The one exception is the conditional at `src/App.js:156`: it renders the edit form only
  in edit mode, and the model keeps it as the `isEditing` precondition of
  `ItemRow.EditChange` and `ItemRow.EditSubmit`. The row keeps only its task's id, which
  is what its handlers use.
- `localStorage` and `JSON.parse`/`JSON.stringify`: the slot is an abstract
  `Option<seq<Task>>`, and serialisation is taken to be exact. A stored value that
  fails to parse (the code would throw) is not modelled.
- `Date.now()`: the timestamp is the `now` parameter of `EntryForm.Submit`.
- `console.log`, `e.preventDefault()`, reading `e.target.value`, and React's
  scheduling of state updates and effects. Each handler, together with the
  persistence effect it triggers, is one atomic step.
