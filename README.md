# Task list state machine of the `App` component

This project models the task-list logic of a single-page to-do application
(`frontend-todo-app/src/App.js`): an ordered list of tasks `{id, text,
completed}` that the user adds to, edits, ticks off, deletes, clears of
completed tasks and reorders by drag and drop, together with the derived view
that the filter selector (All / Active / Completed) and the search box produce,
and the theme flag.

The model has four modules:

- `Text` (`text.dfy`): the string operations the handlers use. These are
  `trim` (with the ECMAScript whitespace and line-terminator code points),
  `toLowerCase` (ASCII letters only) and `includes`.
- `Seqs` (`seqs.dfy`): `filter` as `Select`, the subsequence relation it
  establishes, the two `splice` calls of a drag-and-drop move as `Delete`,
  `Insert` and `Moved`, and `MoveWithin`. `MoveWithin` performs that move in
  place on an array, with loop invariants.
- `Tasks` (`tasks.dfy`): the `Task` value and the pure list transformations
  inside the handlers (`Submit`, `Rename`, `Toggle`, `Remove`,
  `ClearCompleted`), the `filtered` view (`Filtered`), and the stored-value
  rules for the list and the theme. The list transformations and the view come
  with lemmas: idempotence, involution, subsequence, permutation, inverse and
  preservation of unique ids. The load rule `LoadTasks` is a plain definition.
- `Store` (`store.dfy`): the class `TaskStore`. Its fields are the
  component's state (`tasks`, `input`, `editId`, `filter`, `q`, the drag ref
  `dragSource`, `dark`). It has one method per event handler, each a single
  atomic transition whose postcondition gives the whole new state in terms of
  the old one and the `Tasks` functions. Each method also preserves the
  uniqueness of ids (`Valid`). Two client methods drive the store through the
  handlers for two usage scenarios.

Behaviour modelled as written, where it differs from what a reader might expect:

- **Empty input while editing.** Submitting whitespace-only input returns
  before anything else, even while an edit is pending. `tasks`, `input` and
  `editId` all keep their values (`Submit`, App.js:47-48): whitespace-only
  input does not clear the text box and does not end the pending edit.
- **Truthiness of `editId`.** `if (editId)` treats both `null` and the id `0`
  as "not editing" (`IsEditing`). Submitting while editing a task whose id is
  0 therefore adds a new task instead of renaming.
- **Reorder indices.** `onDragStart` and `onDrop` receive positions in the
  *filtered* list (App.js:194, 205-206). The two `splice` calls apply them to
  the whole list (App.js:79-83). The model keeps this. `Drop` takes
  whole-list indices, and `DropInFilteredViewMovesHiddenTask` shows the
  consequence: with a completed task hidden by "Active", dragging the first
  shown task onto the second moves the hidden task and leaves the view as it
  was. `Drop` neither maps view positions back to list positions nor checks
  that they are in range.
- **A drop on the drag's own row** returns before the drag ref is cleared.
  The recorded index therefore survives (`Drop`, App.js:78).
- **`startEdit`** receives the task object itself and does not look it up in
  the list (App.js:62-64). There is no "absent id" case to fail on.
- **The task ids** come from `Date.now()` (App.js:53). Here they are a
  `freshId` argument that must not already be in the list, which is what keeps
  the ids unique.

## Model

| member | source | states |
|---|---|---|
| `Text.Trim` | frontend-todo-app/src/App.js:47 | the trimmed input neither starts nor ends with whitespace and is no longer than the input |
| `Text.TrimInfix` | frontend-todo-app/src/App.js:47 | the trimmed input is an infix of the input, and only whitespace is cut off on either side |
| `Text.TrimEmptyIff` | frontend-todo-app/src/App.js:47-48 | the trimmed input is empty exactly when the input is all whitespace, the inputs `addOrUpdate` ignores |
| `Text.TrimKeepsTrimmed` | frontend-todo-app/src/App.js:47 | input with no whitespace at either end is left as it is |
| `Text.TrimIdempotent` | frontend-todo-app/src/App.js:47 | trimming twice is trimming once |
| `Text.LowerChar` | frontend-todo-app/src/App.js:94 | a lower-cased character is never an upper-case ASCII letter; letters move by 32, everything else is kept |
| `Text.Lower` | frontend-todo-app/src/App.js:94 | lower-casing keeps the length and lower-cases each character |
| `Text.LowerIdempotent` | frontend-todo-app/src/App.js:94 | lower-casing twice is lower-casing once |
| `Text.Includes` | frontend-todo-app/src/App.js:94 | every text includes the empty query, and no text includes a query longer than itself |
| `Text.IncludesSelf` | frontend-todo-app/src/App.js:94 | every text includes itself |
| `Seqs.Select` | frontend-todo-app/src/App.js:59 | a filtered list is no longer than the list and every element passes the test |
| `Seqs.SelectCount` | frontend-todo-app/src/App.js:67 | filtering keeps every occurrence of a passing element and none of a failing one |
| `Seqs.SelectCons` | frontend-todo-app/src/App.js:89-94 | filtering a list with a head keeps the head exactly when it passes |
| `Seqs.SelectIsSubsequence` | frontend-todo-app/src/App.js:88-94 | the filtered list is a subsequence of the list: survivors keep their relative order |
| `Seqs.SubsequenceTransitive` | frontend-todo-app/src/App.js:88-94 | a subsequence of a subsequence is a subsequence, which covers the two filters of the view in a row |
| `Seqs.SelectAll` | frontend-todo-app/src/App.js:92 | a test every element passes leaves the list unchanged |
| `Seqs.SelectIdempotent` | frontend-todo-app/src/App.js:67 | filtering twice by the same test is filtering once |
| `Seqs.Delete` | frontend-todo-app/src/App.js:81 | `splice(i, 1)` shortens the array by one and closes the gap at `i` |
| `Seqs.Insert` | frontend-todo-app/src/App.js:82 | `splice(i, 0, x)` lengthens the array by one, puts `x` at `i` and shifts the rest right |
| `Seqs.Moved` | frontend-todo-app/src/App.js:80-83 | the two-splice move keeps the length and puts the element taken from the source index at the target index |
| `Seqs.MovedPermutation` | frontend-todo-app/src/App.js:79-83 | a move keeps the length, puts the moved element at the target index and is a permutation |
| `Seqs.MovedKeepsOthersInOrder` | frontend-todo-app/src/App.js:79-83 | apart from the moved element, every element keeps its relative order |
| `Seqs.MovedInverse` | frontend-todo-app/src/App.js:79-83 | moving the element back from the target to the source index restores the list |
| `Seqs.MovedAt` | frontend-todo-app/src/App.js:79-83 | where each element of a moved list comes from: the elements between the two indices shift one step towards the source |
| `Seqs.MoveWithin` | frontend-todo-app/src/App.js:80-83 | the in-place move on an array ends with the array equal to the two-splice result on its old contents |
| `Tasks.IsEditing` | frontend-todo-app/src/App.js:49 | the truthiness test on `editId`: `null` and the id 0 mean no pending edit, every other id means one |
| `Tasks.Submit` | frontend-todo-app/src/App.js:46-57 | whitespace-only input leaves list, input and edit untouched even while editing; an edit replaces the text of the tasks with that id only, keeping ids, flags, positions and length, and ends the edit; otherwise the new active task comes first, the old list follows unchanged, and the length grows by one; the input is cleared |
| `Tasks.SubmitKeepsUnique` | frontend-todo-app/src/App.js:53-54 | with a fresh id, submitting keeps the ids unique |
| `Tasks.PrependFreshKeepsUnique` | frontend-todo-app/src/App.js:54 | putting a task with a fresh id in front keeps the ids unique |
| `Tasks.Rename` | frontend-todo-app/src/App.js:50 | renaming keeps length, ids and flags, and changes the text exactly of the tasks with that id |
| `Tasks.RenameAbsent` | frontend-todo-app/src/App.js:50 | renaming an id not in the list changes nothing |
| `Tasks.RenameKeepsIds` | frontend-todo-app/src/App.js:50 | renaming keeps the set of ids, and so their uniqueness |
| `Tasks.Toggle` | frontend-todo-app/src/App.js:60-61 | toggling keeps length, ids and texts, and flips the flag exactly of the tasks with that id |
| `Tasks.ToggleInvolutive` | frontend-todo-app/src/App.js:60-61 | toggling the same id twice restores the list |
| `Tasks.ToggleKeepsUnique` | frontend-todo-app/src/App.js:60-61 | toggling keeps the ids unique |
| `Tasks.Remove` | frontend-todo-app/src/App.js:59 | removing keeps every occurrence of each task with another id and none with that id |
| `Tasks.RemoveIsSubsequence` | frontend-todo-app/src/App.js:59 | removing keeps the other tasks in their original relative order |
| `Tasks.RemoveIdempotent` | frontend-todo-app/src/App.js:59 | removing the same id twice is removing it once, and removing an absent id changes nothing |
| `Tasks.ClearCompleted` | frontend-todo-app/src/App.js:67 | clearing leaves no completed task and keeps every occurrence of each active task |
| `Tasks.ClearCompletedIsSubsequence` | frontend-todo-app/src/App.js:67 | clearing keeps the active tasks in their original relative order |
| `Tasks.ClearCompletedIdempotent` | frontend-todo-app/src/App.js:67 | clearing twice is clearing once |
| `Tasks.SubsequenceKeepsUnique` | frontend-todo-app/src/App.js:59 | a subsequence of a list with unique ids has unique ids, so removing and clearing keep them unique |
| `Tasks.MovedKeepsUnique` | frontend-todo-app/src/App.js:79-83 | a drag-and-drop move keeps the ids unique |
| `Tasks.SearchOwnTextMatches` | frontend-todo-app/src/App.js:94 | searching for a task's own text, or its lower-cased text, matches that task |
| `Tasks.Filtered` | frontend-todo-app/src/App.js:88-94 | every shown task passes the filter and matches the query case-insensitively, and each such task is shown as often as it occurs in the list |
| `Tasks.FilteredIsSubsequence` | frontend-todo-app/src/App.js:88-94 | the view is a subsequence of the list, in canonical order |
| `Tasks.FilteredByStatus` | frontend-todo-app/src/App.js:89-94 | under "Completed" the view holds exactly the completed tasks that match the query, and under "Active" exactly the others that match it |
| `Tasks.FilteredAllEmptyQuery` | frontend-todo-app/src/App.js:88-94 | under "All" with an empty query the view is the whole list |
| `Tasks.CompletedTaskGoes` | frontend-todo-app/src/App.js:67 | a completed task is neither shown under "Active" nor kept by clearing |
| `Tasks.ActiveOfThree` | frontend-todo-app/src/App.js:90 | under "Active" with an empty query, a three-task list loses just its one completed task among the first two |
| `Tasks.MoveFirstToSecond` | frontend-todo-app/src/App.js:80-82 | dropping the first of three tasks on the second swaps them |
| `Tasks.DropInFilteredViewMovesHiddenTask` | frontend-todo-app/src/App.js:194-206 | view indices applied to the whole list: dragging the first shown task onto the second moves a hidden completed task and leaves the view unchanged |
| `Tasks.ThemeToStorage` | frontend-todo-app/src/App.js:38 | the saved mode is "dark" or "light" |
| `Tasks.ThemeRoundTrip` | frontend-todo-app/src/App.js:27-38 | saving the theme and loading it back gives the same theme |
| `Store.TaskStore.constructor` | frontend-todo-app/src/App.js:9-29 | the list is `LoadTasks` of the stored value (the parsed list when the stored string is present, non-empty and parses, else empty) and the theme is `ThemeFromStorage` of the stored mode (dark only for "dark"); the input, edit, filter, search and drag ref start at their initial values; a parsed list with unique ids makes the store valid |
| `Store.TaskStore.Visible` | frontend-todo-app/src/App.js:88-94 | the view of the store's state is no longer than the list, and every task shown is in the list, passes the filter and matches the search |
| `Store.TaskStore.AddOrUpdate` | frontend-todo-app/src/App.js:46-57 | list, input and pending edit become the `Submit` result; the other fields are unchanged; unique ids are preserved |
| `Store.TaskStore.Remove` | frontend-todo-app/src/App.js:59 | the list becomes `Remove` of the old list, nothing else changes, unique ids are preserved |
| `Store.TaskStore.ToggleComplete` | frontend-todo-app/src/App.js:60-61 | the list becomes `Toggle` of the old list, nothing else changes, unique ids are preserved |
| `Store.TaskStore.StartEdit` | frontend-todo-app/src/App.js:62-64 | the input holds the task's text and the pending edit is its id; the list is unchanged |
| `Store.TaskStore.ClearCompleted` | frontend-todo-app/src/App.js:67 | the list becomes `ClearCompleted` of the old list, nothing else changes, unique ids are preserved |
| `Store.TaskStore.DragStart` | frontend-todo-app/src/App.js:70-71 | the drag ref records the index; nothing else changes |
| `Store.TaskStore.Drop` | frontend-todo-app/src/App.js:75-86 | with no recorded index, or a drop on the same index, list and ref are unchanged; otherwise the list becomes the two-splice move of the old list and the ref is cleared; unique ids are preserved |
| `Store.TaskStore.SetFilter` | frontend-todo-app/src/App.js:146 | the filter takes the chosen value; nothing else changes |
| `Store.TaskStore.SetQuery` | frontend-todo-app/src/App.js:169 | the search query takes the typed value; nothing else changes |
| `Store.TaskStore.SetInput` | frontend-todo-app/src/App.js:126 | the input takes the typed value; nothing else changes |
| `Store.TaskStore.ToggleTheme` | frontend-todo-app/src/App.js:113 | the theme flag flips; nothing else changes |

## Left out

- Rendering (JSX, CSS classes, framer-motion animation, App.js:96-260) is left out. It is presentation only. The counter `filtered.length / tasks.length` is the lengths of `Filtered` and the list.
- Writing to `localStorage` (App.js:31-34, 37-38) is left out: it is a browser call. The model gives the saved mode string (`ThemeToStorage`) but not the store itself.
- `JSON.stringify` and `JSON.parse` are left out: they are library calls. Parsing is an `Option<seq<Task>>` argument to the constructor. A stored value that parses to something other than a task array is not modelled.
- The round trip "save the list, then load it" is not stated: it rests entirely on `JSON.parse` inverting `JSON.stringify`, which is not part of this model.
- `document.documentElement.classList` (App.js:39-43) and `window.scrollTo` (App.js:65) are left out: they are DOM side effects with no effect on the state.
- The drag event plumbing (`dataTransfer`, `preventDefault`, `onDragOver`; App.js:72-73, 76, 207) is left out. Only the index bookkeeping is kept.
- `Date.now()` is a clock read and becomes the `freshId` argument. Two additions within the same millisecond would collide in the source; the freshness precondition rules that out.
- Strings are sequences of Unicode code points here, while JavaScript strings are sequences of UTF-16 code units. For well-formed text `trim` (every whitespace code point lies in the Basic Multilingual Plane), `includes` and ASCII lower-casing agree on both. Only a lone surrogate in the input or the search query could tell them apart, and that case is not modelled.
- `Text.Lower`: does not model Unicode case mapping beyond the ASCII letters. Full `toLowerCase` depends on Unicode tables that are not part of this model.
- React's update batching and functional updates are not modelled. Each handler is one atomic transition.
- `Store.TaskStore.Drop`: requires both indices to be in range of the whole list whenever a move happens. The source does not check this. The target index is a view position and so always within the list, but the recorded source index can be stale. There is no `onDragEnd` handler, so a drag that ends outside every row, or on its own row (App.js:78), leaves the recorded index set until the next drag starts. A later `remove` or `clearCompleted` can shrink the list below it. A drop that did not start on a row is accepted by any row (`onDragOver`, App.js:207), and then `splice(src, 1)` (App.js:81) takes nothing out. `moved` is `undefined` and is inserted into the list, and the next render throws while computing the view, when the filter reads a field of that entry (`completed` at App.js:90-91 under "Active" or "Completed", `text` at App.js:94 under "All"). The model does not capture this failing state.
- `Store.TaskStore.AddOrUpdate`: requires `freshId` to be fresh even when the submission does not add a task. The clock value is unused in that case.
