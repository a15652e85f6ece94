# To-do list controller

A model of the controller of a single-page to-do list (`src/App.tsx`): the
React component that holds the list of items, the composer text, the
inline-edit selection, the in-flight id lists and the single error slot, and
the handlers that change them around four network calls (list, create,
update, delete).

The controller is modelled as the class `App.TodoApp`, one field per piece
of component state. Each handler that makes a network call is split into two
events: a start method (what runs before the promise settles) and a settle
method (the `.then` or `.catch` body followed by the `.finally` body). The
settle method receives what the server answered as an `Outcome`. Every
mutating method keeps the object invariant `Valid()` (the composer is
disabled exactly while the create placeholder is shown, and the placeholder
is this client's active item with id 0 and a trimmed, non-empty title). It
also states the whole new state as an update of the old one through
`State()`, so what it leaves alone is stated too.

The pure parts of the component are functions in module `Todos`. These are
the status filter, `hasCompletedTodos`, the list operations the settle
methods apply, the toggle-all plan and the inline-edit decision. Lemmas
state the properties of these functions. Module `JsString` models
JavaScript's `String.prototype.trim` over ECMAScript's white-space and
line-terminator characters. Module `AppScenarios` proves what short event
sequences lead to, from the controller's contracts alone.

Behaviour of the code that the model keeps as written:

- A successful delete or update clears the inline-edit selection whatever it
  pointed at, not only when it pointed at the deleted or updated item.
- The settle of a delete or update empties the whole deleting or updating id
  list, not just the settled id. `OverlappingDeletes` shows an outstanding
  delete losing its busy overlay this way.
- Starting a create replaces the updating ids by `[0]` instead of adding 0.
- The code never enforces that ids are unique. The model proves that an
  update, a delete, the filter and a create whose server id is fresh keep ids
  unique, and what holds when they are.

## Model

| member | source | states |
|---|---|---|
| JsString.TrimStartSpec | src/App.tsx:90 | the result is the suffix of the input left after a prefix made only of white space, and it does not start with white space |
| JsString.TrimEndSpec | src/App.tsx:90 | the result is the prefix left before a suffix made only of white space, and it does not end with white space |
| JsString.Trim | src/App.tsx:90 | `trim()` is no longer than its input and is empty or starts and ends with a character that is not white space |
| JsString.TrimIsSlice | src/App.tsx:90 | `trim()` is a contiguous slice of the input, and what is cut on each side is only white space |
| JsString.TrimEmptyIff | src/App.tsx:121 | `trim()` is empty exactly when the input is made only of white space, which is when `!inputText.trim()` rejects a submit |
| JsString.TrimIdempotent | src/App.tsx:200 | trimming an already trimmed title changes nothing |
| Todos.TodosByStatus | src/App.tsx:70-83 | the filtered list is no longer than the list and holds exactly the list's items that match the status |
| Todos.TodosByStatusIsSubsequence | src/App.tsx:70-83 | the filter keeps the list's order: its result is a subsequence of the list |
| Todos.TodosByStatusAll | src/App.tsx:79-80 | the `all` filter is the identity, because an item is truthy |
| Todos.ActiveCompletedPartition | src/App.tsx:73-77 | `active` and `completed` partition the list: their lengths add up to its length, their multisets to its multiset, and each item is in exactly one |
| Todos.TodosByStatusKeepsAll | src/App.tsx:173-177 | a filter's count equals the list's length exactly when every item matches, which is what toggle-all's count comparison tests |
| Todos.TodosByStatusUniqueIds | src/App.tsx:182 | filtering a list with unique ids gives a list with unique ids |
| Todos.HasCompletedTodosIff | src/App.tsx:217-219 | `hasCompletedTodos` holds exactly when the `completed` filter is not empty |
| Todos.ToggleAllActiveIff | src/Header.tsx:32 | the toggle-all button has the `active` class exactly when every item is completed (the button itself is only rendered for a non-empty list) |
| Todos.ReplaceById | src/App.tsx:159-161 | a successful update puts the server copy at every position holding its id, and leaves the length, the ids and every other position unchanged |
| Todos.ReplaceByIdAbsent | src/App.tsx:159-161 | a server copy whose id is not in the list changes nothing |
| Todos.ReplaceByIdKeepsUniqueIds | src/App.tsx:159-161 | an update keeps ids unique, and the server copy is in the list afterwards exactly when its id was |
| Todos.RemoveById | src/App.tsx:136 | a successful delete leaves exactly the items whose id differs from the deleted one, each as many times as it occurred in the list |
| Todos.RemoveByIdIsSubsequence | src/App.tsx:136 | the remaining items keep their relative order |
| Todos.RemoveByIdCount | src/App.tsx:136 | on a list with unique ids, a delete of a present id removes exactly one item, and a delete of an absent id changes nothing |
| Todos.RemoveByIdKeepsUniqueIds | src/App.tsx:136 | a delete keeps ids unique |
| Todos.AppendKeepsUniqueIds | src/App.tsx:103 | appending a created item whose server id is not already in the list keeps ids unique |
| Todos.WithoutId | src/App.tsx:105 | the updating ids after a successful create are the old ones without the placeholder id 0 |
| Todos.ApplyUpdatesAt | src/App.tsx:159-161 | after a series of successful updates each position holds the last server copy with its id, or its old item if none had that id, and the ids and length are unchanged |
| Todos.LastWithIdAt | src/App.tsx:159-161 | an update followed by no later update of the same id is the one that stays |
| Todos.LastWithIdAbsent | src/App.tsx:159-161 | if no update carries an id, the item with that id is untouched |
| Todos.FlipEach | src/App.tsx:178-180 | flipping every item's completion keeps the length and the ids in order |
| Todos.CompleteEach | src/App.tsx:182-184 | completing every item keeps the length and the ids in order |
| Todos.ToggleAllPlanPolicy | src/App.tsx:172-186 | on a uniform list (all active, all completed, or empty) toggle-all issues one update per item with completion flipped, in list order; on a mixed list it issues one completing update per active item, in order, and every update it issues is an item of the list marked completed |
| Todos.ToggleAllSettledUniform | src/App.tsx:172-186 | on a uniform list with unique ids, once every issued update has succeeded (the server storing each update as sent, settling in issue order, nothing else in between), every item has its completion flipped and nothing else changed |
| Todos.ToggleAllSettledMixed | src/App.tsx:172-186 | on a mixed list with unique ids, once every issued update has succeeded (the server storing each update as sent, settling in issue order, nothing else in between), every item is completed and the items that already were are untouched |
| Todos.MixedPlanLast | src/App.tsx:182-184 | in the mixed case the last update for an active item's id completes that item, and no update carries a completed item's id |
| Todos.DecideEditCases | src/App.tsx:193-209 | an edit commit does nothing without a selection; it deletes the selected item when the field is only white space; when the trimmed field differs from the title it updates the selected item with exactly `title := newTitle.trim()` (non-empty, without edge white space), changing nothing else; it discards the edit when the trimmed field equals the title |
| App.TodoApp.constructor | src/App.tsx:12-24 | the initial state: no items, filter `all`, no error, no placeholder, empty texts and id lists, no selection |
| App.TodoApp.CloseErrMessage | src/App.tsx:26-28 | the banner is hidden and nothing else changes |
| App.TodoApp.HandleErrMessage | src/App.tsx:30-40 | the new message overwrites whatever was shown, and a dismissal is pending; nothing else changes |
| App.TodoApp.DismissalFires | src/App.tsx:37-39 | a pending dismissal hides the banner; without one nothing changes |
| App.TodoApp.LoadStart | src/App.tsx:50 | the list is marked loading |
| App.TodoApp.LoadSettle | src/App.tsx:52-56 | a successful load replaces the list; a failed one shows the load error; either way loading ends |
| App.TodoApp.InputChange | src/App.tsx:66-68 | the composer text becomes the given value |
| App.TodoApp.SetQueryStatus | src/App.tsx:13 | the filter becomes the given status |
| App.TodoApp.SetNewTitle | src/App.tsx:24 | the inline-edit text becomes the given value |
| App.TodoApp.AddStart | src/App.tsx:85-98 | the create request is user 837, the trimmed composer text and not completed; the composer is disabled, the placeholder with id 0 is shown, and the updating ids become exactly `[0]`, so the busy items are id 0 and those being deleted |
| App.TodoApp.Submit | src/App.tsx:118-128 | text made only of white space shows the empty-title error, sends no request and leaves the list, placeholder and composer as they were; other text starts the create |
| App.TodoApp.AddSettle | src/App.tsx:100-115 | success appends the server item at the end, empties the composer text and removes 0 from the updating ids; failure shows the add error and leaves the list unchanged; either way the placeholder goes and the composer is enabled |
| App.TodoApp.DeleteStart | src/App.tsx:131 | the id is appended to the deleting ids and its item shows busy |
| App.TodoApp.DeleteSettle | src/App.tsx:133-148 | success removes the items with that id and clears the selection; failure shows the delete error and leaves the list unchanged; either way the deleting ids become empty, so only items with an update outstanding stay busy |
| App.TodoApp.UpdateStart | src/App.tsx:152 | the item's id is appended to the updating ids and it shows busy |
| App.TodoApp.UpdateSettle | src/App.tsx:154-169 | success replaces by id with the server copy and clears the selection; failure shows the update error and leaves the list unchanged; either way the updating ids become empty, so every update's busy overlay clears at once and only items being deleted stay busy |
| App.TodoApp.ToggleAll | src/App.tsx:172-186 | the updates started are exactly the toggle-all plan, in order, and their ids are appended to the updating ids; nothing else changes |
| App.TodoApp.UpdateEachFlipped | src/App.tsx:178-180 | one update is started per given item, in order, each with its completion flipped, and their ids are appended to the updating ids |
| App.TodoApp.UpdateEachCompleted | src/App.tsx:182-184 | one update is started per given item, in order, each marked completed, and their ids are appended to the updating ids |
| App.TodoApp.DoubleClick | src/App.tsx:188-191 | the item becomes the selection and the edit field holds its title |
| App.TodoApp.HandleTitle | src/App.tsx:193-209 | the commit is the edit decision; a blank title starts the delete of the selected id, a changed title starts exactly one update, an unchanged title clears the selection, and no selection changes nothing |
| App.TodoApp.EscapeKey | src/App.tsx:211-215 | Escape with a selection clears it; any other key, or no selection, changes nothing |

## Left out

- Rendering: the JSX of `src/App.tsx` (lines 221-287), `src/Header.tsx`, `src/TodoList.tsx`, `src/TodoItem.tsx` and `src/Notification.tsx` are presentation. Only two view predicates are kept: the busy overlay (`IsBusy`) and the toggle button's active state (`ToggleAllActive`). The footer, the item type and the status and message enums are not part of this model; `Status` and `Emessage` are defined here with the members the controller uses.
- Network: the list, create, update and delete calls are not modelled. Each settle method takes the server's answer (`Outcome`) as a parameter. The id a delete's continuation captured is a parameter of `DeleteSettle`.
- Concurrency: several requests may be outstanding at once (toggle-all starts one per item). Each settle is one sequential event. The model does not record which requests are outstanding or match a settle to its start.
- Timers: the 3-second auto-dismiss is reduced to the `dismissalPending` flag, and time itself is not modelled. Clearing the timer when the component unmounts is left out.
- Focus: the `focus()` calls and the zero-delay timers that schedule them are side effects on the page and are left out.
- Loading: `isLoading` is kept as a field. That it hides the list while loading is rendering.
- Strings: titles are sequences of Unicode scalar values, while JavaScript strings are sequences of UTF-16 code units, so a title holding a lone surrogate cannot be represented. Every character `trim` strips is in the Basic Multilingual Plane, so trimming and the title comparisons agree on every string the model can hold.
- Numbers: ids are unbounded integers. JavaScript's numbers are doubles, which only matters beyond 2^53.
