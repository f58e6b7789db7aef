# Toast lists of the custom-toaster demo

This project models the toast bookkeeping of the demo page of
custom-toaster. A form lets the user type a message, tick "Auto-dismiss",
enter a duration in seconds and pick one of five screen corners. The
Success, Error and Warning buttons then spawn a toast into that corner's
list. The page keeps one ordered list of toasts per corner (`toastList`):

- **Enqueue** (`addNewToast`) builds the toast. The typed message is used when
  there is one; otherwise the button's type picks a default text. The duration
  is absent unless auto-dismiss is ticked; then it is the entered duration, or 1
  when nothing was entered. The toast gets a fresh id and is pushed onto the
  tail of the selected corner's list. When it has a duration, a removal timer
  is armed.
- **Remove** (the timer's callback) filters the toast's id out of its
  corner's list.
- **Clear all** resets all five lists to empty.

Module `Toasts` (`toasts.dfy`) holds the entities and the defaulting rules.
Module `ToastList` (`toast_list.dfy`) holds the list operations as functions
on `map<Position, seq<Toast>>`, the lemmas about them, and the class
`ToastStore`. The class keeps the lists in a field that `Enqueue`, `Remove` and
`ClearAll` reassign.

The invariant (`Inv`, kept by `ToastStore.Valid`) says that:

- every position has a list;
- every toast sits in the list of its own position;
- no id occurs twice.

`ToastStore` also keeps a ghost set `issued` of every id handed out so far.
`Enqueue` requires its id to be outside that set. This stands in for the uuid
generator: ids are never reused in a session. So a timer that fires after its
toast is gone finds nothing to remove.

A timer is modelled as the `Removal` value that `Enqueue` returns. Its firing
is a later call `Remove(removal.position, removal.id)`, made at any point
after the enqueue, in any order with other firings. `AutoDismissScenario` walks
through one such run.

## Model

| member | source | states |
|---|---|---|
| `Toasts.ResolveMessage` | src/App.js:39-45 | The result is never empty. It equals the typed message exactly when one was typed. With no message, success gives "Data fetched successfully", error gives "Internal server error" and warn gives "Invalid data provided". |
| `Toasts.ResolveDuration` | src/App.js:46 | There is no duration exactly when auto-dismiss is unchecked. When it is checked, the duration is the entered one, or 1 second when none was entered. |
| `Toasts.NewToast` | src/App.js:36-48 | The toast carries the given id and type and the selected position. Its message is the resolved message: the typed text when there is some, otherwise the type's default text. So it is never empty and equals the typed text iff text was typed. Its duration is the resolved duration: absent iff auto-dismiss is unchecked, otherwise the entered value or 1. |
| `Toasts.ScheduledRemoval` | src/App.js:54-63 | A removal is armed exactly when the toast has a duration. It targets the toast's own position and id, and its delay is the toast's duration. |
| `Toasts.AutoDismissArmsRemoval` | src/App.js:46-64 | A toast made with auto-dismiss unchecked never arms a removal. With it checked, the removal's delay is the entered duration, or 1 without one. |
| `ToastList.Empty` | src/App.js:14-20 | Every list in the initial state is empty. |
| `ToastList.EmptyInv` | src/App.js:173-179 | The initial (and cleared) state has a list for all five positions, satisfies the invariant and holds no id. |
| `ToastList.Append` | src/App.js:50-51 | The selected position's list gains the new toast at its tail, with the earlier entries unchanged and in order. Every other position's list is unchanged, and no key is added. |
| `ToastList.Without` | src/App.js:58-60 | The filtered list is no longer than the input. It holds exactly the input's entries whose id differs from the removed id. |
| `ToastList.Removed` | src/App.js:56-62 | Only the named position's list is filtered. Every other position is unchanged and no key is added. |
| `ToastList.WithoutAppend` | src/App.js:58-60 | Filtering distributes over concatenation, so kept entries stay in their original relative order. |
| `ToastList.WithoutSingle` | src/App.js:59 | A single entry is kept exactly when its id differs from the removed one. |
| `ToastList.WithoutCounts` | src/App.js:58-60 | Every entry with the removed id is dropped. Every other entry is kept as many times as it occurred. |
| `ToastList.WithoutAbsent` | src/App.js:58-60 | Filtering an id that does not occur returns the list unchanged. |
| `ToastList.WithoutIdempotent` | src/App.js:58-60 | Filtering the same id twice equals filtering it once. |
| `ToastList.WithoutCommutes` | src/App.js:58-60 | Filters on two ids give the same list in either order. |
| `ToastList.WithoutKeepsDistinct` | src/App.js:58-60 | Filtering a list whose ids are distinct leaves them distinct. |
| `ToastList.AppendKeepsInv` | src/App.js:36-51 | Appending a toast with a fresh id under its own position keeps the invariant. The shown ids grow by exactly that id. |
| `ToastList.RemovedKeepsInv` | src/App.js:56-62 | Removal keeps the invariant. It shows no id that was not shown before and loses no id other than the removed one. |
| `ToastList.RemoveUndoesAppend` | src/App.js:50-60 | Firing a new toast's removal right after its enqueue restores the lists exactly as they were before the enqueue. |
| `ToastList.RemoveAbsentIsNoOp` | src/App.js:56-62 | A removal whose id is no longer shown (already removed or cleared) leaves the lists unchanged. |
| `ToastList.RemoveIdempotent` | src/App.js:56-62 | Firing the same removal twice equals firing it once. |
| `ToastList.RemovalsCommute` | src/App.js:54-63 | Two removals give the same lists whichever fires first. |
| `ToastList.ToastStore.constructor` | src/App.js:14-20 | The store starts with every position mapped to an empty list, valid, and with no id issued. |
| `ToastList.ToastStore.Enqueue` | src/App.js:31-65 | The store stays valid. It returns the built toast and the removal it arms. The lists become the old lists with the toast appended under its position. The shown and issued ids grow by exactly the new id. |
| `ToastList.ToastStore.Remove` | src/App.js:56-62 | The store stays valid and the lists become the filtered old lists. A removal of an id no longer shown changes nothing. No id other than the removed one disappears. |
| `ToastList.ToastStore.ClearAll` | src/App.js:172-179 | The store stays valid. Every position maps to an empty list, whatever was there before, and the issued ids are kept. |

## Left out

- Rendering, styling and the `Toast` component the page hands the lists to
  (src/App.js:67-188). That component is not part of this model, so manual
  dismissal from it is modelled only as a call to `Remove`.
- Form plumbing: `handleChange` (src/App.js:23-28), the checkbox toggle and the
  inputs. `FormData` stands for the form's contents when a button is pressed.
- `setTimeout` timing and the seconds-to-milliseconds conversion. A firing is
  an explicit later call to `Remove` with the armed `Removal`.
- The `uuid` generator. It is replaced by the requirement that the new id is
  outside the ghost set `issued` of ids handed out so far.
- React's state batching and functional updates. Each operation is one
  sequential step on the store.
- Toasts.ResolveDuration: the source stores the duration as the raw input
  string and tests it for JavaScript truthiness, so "0" or a negative number
  is used as typed. The model takes the entered duration as an optional
  positive whole number and does not reproduce string coercion.
- Toasts.ResolveMessage: the source compares a free-form `type` string. The
  model has only the three values the buttons pass, and `Warn` takes the
  fallback branch that any other string would take.
- ToastList.ToastStore.Enqueue: `addNewToast` copies the map shallowly and
  pushes onto the existing array, which the previous state object shares. The
  model replaces the list by value, so it does not capture that aliasing.
- The source gives no way to cancel a timer, so neither does the model. A
  timer that fires after clear-all or after an earlier removal is a no-op
  (`RemoveAbsentIsNoOp`).
