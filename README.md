# Todos: a verified model of the to-do list screen

The repository is a single SwiftUI screen, `TodosView`, that keeps a to-do list in four
pieces of view state: the input buffer `text`, the list `todos` of `Item`s, the toggle-all
flag `isAllSelected` and the selected tab `activeTab`. Its buttons and fields change that
state in place: add an item from the buffer, delete a row, toggle every row, check a row,
edit a row's text, pick a tab and clear the completed rows. The list the screen shows is a
filter of `todos` by tab, and the footer counts the items not done.

This project models that state and those actions in Dafny:

- `item.dfy` (module `TodoItem`): the `Item` value and the list operations the actions are
  made of, as functions with the properties proved about them: `Filter` (Swift's `filter`
  and `removeAll(where:)`), `FindIndex` (`firstIndex(where:)`), `RemoveFirst` (what
  `remove(at:)` after `firstIndex` leaves) and `FlipAll` (the result of the toggle-all loop).
- `display.dfy` (module `TodoDisplay`): the pure parts of the view: the rows shown for a
  tab, the "items left" count and its label "N item(s) left".
- `store.dfy` (module `TodoStore`): class `TodosView` with the four state fields plus a
  counter `nextId` that hands out item ids, and one method per action. Each method states
  the whole new state in terms of the old one, and every method requires and keeps the
  invariant `Valid()`: ids are unique and all below `nextId`.
- `scenario.dfy` (module `TodoScenario`): two clients that use only the method contracts:
  toggle-all pressed twice, and a short session of adding, checking, filtering and clearing.

Toggle-all negates each item's own `isComplete` (`TodosView.swift:58-60`); it does not set
every item to one common value, so items checked one by one before the press end up
unchecked after it.
The tab is kept as a string, as in the source: "All" shows every row, "Active" the rows not
done, and any other value the rows done.

## Model

| member | source | states |
|---|---|---|
| `TodoItem.Filter` | Todos-ios/TodosView.swift:82-87 | the result holds exactly the items of the list that satisfy the predicate, is no longer than the list, and is a subsequence of it (order kept) |
| `TodoItem.FilterSplit` | Todos-ios/TodosView.swift:133 | the items kept by a predicate and the items kept by its negation together number the whole list |
| `TodoItem.FilterAppend` | Todos-ios/TodosView.swift:38 | filtering a list with one item appended keeps what it kept before, then that item exactly when it qualifies |
| `TodoItem.FilterKeepsAll` | Todos-ios/TodosView.swift:83-84 | a predicate true of every item keeps the whole list unchanged |
| `TodoItem.FilterIdempotent` | Todos-ios/TodosView.swift:166 | filtering twice with one predicate gives the same as filtering once |
| `TodoItem.FilterKeepsIdsUnique` | Todos-ios/TodosView.swift:166 | removing items from a list with unique ids leaves a list with unique ids |
| `TodoItem.FindIndex` | Todos-ios/TodosView.swift:44 | the result is the first position whose item carries the id (all earlier ones do not), and there is none exactly when no item carries it |
| `TodoItem.FindIndexUnique` | Todos-ios/TodosView.swift:89 | when ids are unique, the position found for an item's id is that item's own position |
| `TodoItem.RemoveFirst` | Todos-ios/TodosView.swift:42-48 | the result is a subsequence of the list, one item shorter when some item carries the id and as long otherwise |
| `TodoItem.RemoveFirstAt` | Todos-ios/TodosView.swift:44-46 | removing the first match equals cutting out the position the search reports |
| `TodoItem.RemoveFirstAbsent` | Todos-ios/TodosView.swift:44 | an id no item carries leaves the list unchanged |
| `TodoItem.RemoveFirstExactly` | Todos-ios/TodosView.swift:42-48 | with unique ids, an item survives the removal exactly when it was in the list and does not carry the id |
| `TodoItem.Toggled` | Todos-ios/TodosView.swift:22 | the completion flag is negated and the id, text and edit flag are kept |
| `TodoItem.FlipAll` | Todos-ios/TodosView.swift:58-60 | the result has the list's length and each position holds that position's item with its own completion flag negated |
| `TodoItem.FlipAllTwice` | Todos-ios/TodosView.swift:58-60 | negating every item's flag twice restores the list exactly |
| `TodoDisplay.Shown` | Todos-ios/TodosView.swift:83-86 | the per-row test of the filter: tab "All" shows every item; any other tab shows an item exactly when its completion flag is false for "Active" and true for every other value |
| `TodoDisplay.ShownComplementary` | Todos-ios/TodosView.swift:85-86 | tab "Active" and any tab value other than "All" and "Active" never both show, nor both hide, one item |
| `TodoDisplay.Visible` | Todos-ios/TodosView.swift:82-87 | the rows shown (`todos.filter` with the tab test) are a subsequence of the list and hold exactly the items `Shown` selects; `VisibleAll`, `VisibleActive` and `VisibleOther` pin the result per tab |
| `TodoDisplay.VisibleAll` | Todos-ios/TodosView.swift:83-84 | tab "All" shows the whole list |
| `TodoDisplay.VisibleActive` | Todos-ios/TodosView.swift:85-86 | tab "Active" shows exactly the items not done, which is what "Clear completed" keeps |
| `TodoDisplay.VisibleOther` | Todos-ios/TodosView.swift:86 | any tab value other than "All" and "Active" shows exactly the items done |
| `TodoDisplay.Texts` | Todos-ios/TodosView.swift:105 | one text per row, each the text of the row's item |
| `TodoDisplay.ItemsLeft` | Todos-ios/TodosView.swift:133 | the count `todos.filter { !$0.isComplete }.count`: it takes no tab, items left plus items done equals the list's length, and so it is at most the length; `ItemsLeftZero`, `ItemsLeftAppend` and `ItemsLeftFlipAll` relate it to the actions |
| `TodoDisplay.ItemsLeftIsActiveRows` | Todos-ios/TodosView.swift:133 | the count equals the number of rows tab "Active" shows |
| `TodoDisplay.ItemsLeftAppend` | Todos-ios/TodosView.swift:38 | appending an item not done raises the count by one |
| `TodoDisplay.ItemsLeftZero` | Todos-ios/TodosView.swift:133 | the count is zero exactly when every item is done |
| `TodoDisplay.ItemsLeftFlipAll` | Todos-ios/TodosView.swift:58-60 | after toggle-all the count is the list's length minus the count before |
| `TodoDisplay.ClearedHasNoneDone` | Todos-ios/TodosView.swift:166 | after keeping the items not done, none is done and the count is unchanged |
| `TodoDisplay.Decimal` | Todos-ios/TodosView.swift:134 | the decimal text of a count is non-empty, all digits, without a leading zero |
| `TodoDisplay.DecimalRoundTrip` | Todos-ios/TodosView.swift:134 | reading the decimal text back gives the count |
| `TodoDisplay.ItemsLeftLabel` | Todos-ios/TodosView.swift:134 | the footer text opens with the count in decimal followed by a space, and ends in " item left" exactly when the count is 1 and in " items left" exactly otherwise; `ItemsLeftLabelReads` reads the count back |
| `TodoDisplay.ItemsLeftLabelReads` | Todos-ios/TodosView.swift:134 | the label's leading digits read back as the count |
| `TodoStore.TodosView.constructor` | Todos-ios/TodosView.swift:31-34 | the screen starts with an empty buffer, an empty list, the flag off and tab "All" |
| `TodoStore.TodosView.SetText` | Todos-ios/TodosView.swift:71 | the input field's binding sets the buffer and nothing else |
| `TodoStore.TodosView.AddTodo` | Todos-ios/TodosView.swift:36-40 | an empty buffer changes nothing; otherwise exactly one item with the buffer's text, not done and not being edited, is appended after the unchanged earlier items, with a fresh id, and the buffer becomes empty |
| `TodoStore.TodosView.RemoveTodoItem` | Todos-ios/TodosView.swift:42-49 | the list becomes the list without its first item carrying the id; the invariant is kept |
| `TodoStore.TodosView.ToggleAll` | Todos-ios/TodosView.swift:57-61 | every item's own completion flag is negated, ids, texts and edit flags kept, and the toggle-all flag is negated |
| `TodoStore.TodosView.ToggleComplete` | Todos-ios/TodosView.swift:89-93 | only the item carrying the id changes, and only its completion flag, which is negated; an unknown id changes nothing |
| `TodoStore.TodosView.BeginEdit` | Todos-ios/TodosView.swift:102-104 | only the item carrying the id changes, and only its edit flag, which becomes true; an unknown id changes nothing |
| `TodoStore.TodosView.SaveEdit` | Todos-ios/TodosView.swift:113-115 | only the item carrying the id changes, and only its edit flag, which becomes false; an unknown id changes nothing |
| `TodoStore.TodosView.EditText` | Todos-ios/TodosView.swift:97-100 | only the item carrying the id changes, and only its text, which becomes the new text, empty or not |
| `TodoStore.TodosView.SelectTab` | Todos-ios/TodosView.swift:137-155 | the tab buttons set the selected tab and nothing else |
| `TodoStore.TodosView.ClearCompleted` | Todos-ios/TodosView.swift:163-167 | the tab becomes "All", the flag false, and the list keeps exactly the items not done, in order |
| `TodoScenario.ToggleAllTwice` | Todos-ios/TodosView.swift:57-61 | two presses of toggle-all restore the list and the flag exactly and change no other field |
| `TodoScenario.BuyMilkWalkDog` | Todos-ios/TodosView.swift:36-40 | after adding "Buy milk" and "Walk dog" and checking the first, one item is left, tab "Completed" shows only "Buy milk", and clearing leaves only "Walk dog" under tab "All" |

## Left out

- The SwiftUI view tree, styling, images and the preview: presentation only.
- `withAnimation` around the removal: a rendering effect; only the removal is modelled.
- `UUID()`: replaced by the counter `nextId`, which makes ids unique by construction.
- The `guard !id.uuidString.isEmpty` in `removeTodoItem`: always true for a real UUID, so there is nothing to model.
- The two-way bindings `$text`, `$todos[index].isComplete` and `$todos[index].text`: each write through them is a method: `SetText` writes the buffer, and `ToggleComplete` and `EditText` look the row's item up by id, as the row does with `firstIndex` at line 89.
- The `.disabled` modifiers (toggle-all on an empty list at line 69, "+" on an empty buffer at line 75, the checkbox while the row is in edit mode at line 95) make those controls unresponsive. The methods still accept these calls, so the model allows `ToggleComplete` on an item in edit mode and `ToggleAll` on an empty list, which flips `isAllSelected` and nothing else; the screen cannot make either transition. `AddTodo` on an empty buffer changes nothing, as its own guard does.
- Which controls a row shows: the per-item methods accept calls the screen offers no control for, so the model allows more transitions than the screen can make. A row in edit mode shows no delete button and a row not in edit mode shows no edit field (lines 96-124), yet `RemoveTodoItem` accepts the id of an item being edited and `EditText` the id of an item not being edited. Rows exist only for the items the selected tab shows (lines 81-88), yet `ToggleComplete`, `BeginEdit`, `SaveEdit`, `EditText` and `RemoveTodoItem` accept the id of an item the tab hides. Each method's effect on the list is stated for every id.
- Unique ids: the invariant `Valid()` that ids are unique is an invariant of the model that the source gets from `UUID()`, not something the source checks.
- Swift's `String` is made of grapheme clusters; strings here are sequences of characters. The code inspects strings in three ways: emptiness (lines 37, 75), equality of `activeTab` with the ASCII literals "All", "Active" and "Completed" (lines 83, 85, 143, 151, 159), and the interpolated label (line 134), whose parts are ASCII digits and letters. On these, sequences of characters and grapheme clusters agree.
- Counts are unbounded integers; Swift's 64-bit `Int` cannot overflow for a list that fits in memory.
