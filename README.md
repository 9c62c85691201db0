# ToDoListApp: the task entity and the task query pipeline

A Dafny model of the logic in a SwiftUI to-do list app. The rest of the app is layout.

- **The task entity** (`Item`). It has a name, details, a completion flag, a creation date, an optional due date and a category. Its initialiser has documented defaults. `isOverdue` is derived from the fields and the start of the current day.
- **The query pipeline** (`filteredAndSortedItems`). It copies the stored tasks and keeps the selected category. It then keeps the tasks whose name or details contain the search text, ignoring case. Last, it sorts by one of seven options.
- **The category list** (`uniqueCategories`): each category in use, once, ascending.
- **The store mutations**: quick add, toolbar add, swipe-to-delete, and the completion toggle.

Files:

- `items.dfy` (module `Items`): the `Item` datatype, the initialiser `NewItem`, `IsOverdue` and its properties. Dates are integer timestamps. The start of today is a parameter.
- `sequences.dfy` (module `Sequences`): picking a subsequence by a mask of flags (`Keep`), and the positions it keeps (`LiveIndices`). These describe "keeps these, in order" facts for the filters and for deletion.
- `sorting.dfy` (module `Sorting`): the insertion sort `SortBy`, which takes an "is before" predicate.
- `query.dfy` (module `Query`): `SortOption`, the locale operations, the two filters, the seven comparators and the method `FilteredAndSortedItems`.
- `orders.dfy` (module `Orders`): what each comparator's "no neighbours out of order" means as an order on the whole list.
- `categories.dfy` (module `Categories`): `UniqueCategories` and the lexicographic string order.
- `store.dfy` (module `Store`): the class `TaskStore`. It holds the stored tasks and the quick-add field, and has the four mutations. This file also has the corrected deletion.

Modelling decisions:

- `Item` is a datatype.
  - In the app it is a class, and its rows share objects with the store.
  - Here the completion toggle names a task by its position in the stored list.
- `Date` becomes `int`.
  - "Now" becomes a parameter of the adding operations.
  - `Calendar.current.startOfDay(for: Date())` becomes the parameter `todayStart`.
- The pipeline depends on two locale-aware operations. The `Locale` value holds both, and they stay abstract.
  - `localizedCaseInsensitiveContains` becomes substring containment (`Contains`) after a case-folding function `fold`.
  - `localizedCaseInsensitiveCompare` becomes a three-way `compare`. The pipeline needs only that `compare` is antisymmetric: `a` is ascending to `b` exactly when `b` is descending to `a`. The whole-list name-order lemmas also assume a total preorder.
- The sort is an insertion sort on the local copy. A Swift `Array` is a value, so the copy is a `seq`.
  - The sort's contract is the one the app relies on: the result is a permutation, and no element is strictly before its left neighbour.
  - It does not promise stability, because `Array.sort` does not document it.
- `String <`, which orders the category list, is modelled as lexicographic order on characters.
- New tasks are put first in `items`. That is where the query's newest-first order (ContentView.swift:26) lists a task created now. Otherwise the order of `items` is taken as given.

## Model

| member | source | states |
|---|---|---|
| `Items.NewItem` | ToDoListApp/Item.swift:20-27 | The initialiser stores every argument unchanged in its field. |
| `Items.NewItemDefaults` | ToDoListApp/Item.swift:20 | A task built from only a name and a creation date has empty details, is not completed, has no due date and has category "Default". |
| `Items.NewItemFromFields` | ToDoListApp/Item.swift:20-27 | Every task is what the initialiser builds from its own fields, so the initialiser reaches every task. |
| `Items.IsOverdue` | ToDoListApp/Item.swift:29-35 | A task is overdue only when it has a due date and is still open; it is then overdue exactly when that date is strictly before the start of today. |
| `Items.NotOverdueWithoutDueDate` | ToDoListApp/Item.swift:29-35 | A task with no due date is never overdue, completed or not. |
| `Items.NotOverdueWhenCompleted` | ToDoListApp/Item.swift:30 | A completed task is never overdue, whatever its due date. |
| `Items.OverdueIffDueBeforeToday` | ToDoListApp/Item.swift:30-32 | An open task due at `d` is overdue exactly when `d` is strictly before the start of today. A task due at the start of today is not overdue. |
| `Items.OverdueMonotone` | ToDoListApp/Item.swift:32 | If a task is overdue at day start `s`, it is overdue at every later day start. |
| `Query.SortOption.RawValue` | ToDoListApp/ContentView.swift:11-18 | Each option's label is a raw value that the raw-value initialiser maps back to that same option. |
| `Query.FromRawValueExact` | ToDoListApp/ContentView.swift:11-18 | The raw-value initialiser accepts a string exactly when it is the label of some option. |
| `Query.AllSortOptions` | ToDoListApp/ContentView.swift:11-18 | The list of all cases contains every option and repeats none. |
| `Query.SortOptionsIdentified` | ToDoListApp/ContentView.swift:20 | Options with the same raw value (their `id`) are the same option. |
| `Query.ContainsIffOccursAt` | ToDoListApp/ContentView.swift:46-49 | The containment test is true exactly when the search text occurs at some offset of the folded name or details. |
| `Query.CaseInsensitiveContains` | ToDoListApp/ContentView.swift:47-48 | A string contains the search text, ignoring case, exactly when the folded text occurs at some offset of the folded string. |
| `Query.MatchesSearch` | ToDoListApp/ContentView.swift:47-48 | A task matches exactly when the folded search text occurs in its folded name or in its folded details. |
| `Query.FilterMembership` | ToDoListApp/ContentView.swift:41 | `filter` keeps an element exactly when it was in the input and passes the test. |
| `Query.FilterMultiplicity` | ToDoListApp/ContentView.swift:41 | `filter` keeps each passing element as often as it occurs, and no failing one. |
| `Query.FilterKeepsOrder` | ToDoListApp/ContentView.swift:41 | `filter`'s result is the subsequence at the passing positions, in their original order. |
| `Query.FilterItems` | ToDoListApp/ContentView.swift:41-49 | The filtering loop builds exactly the filter of its input. |
| `Query.CategoryStage` | ToDoListApp/ContentView.swift:40-42 | The category stage never lengthens the list, and keeps only stored tasks; with a category selected, every kept task has that category. |
| `Query.CategoryStageExact` | ToDoListApp/ContentView.swift:39-42 | With no selection nothing is removed. With category `c` selected, the result is the tasks whose category equals `c` exactly, with their multiplicity, in their original order. |
| `Query.SearchStage` | ToDoListApp/ContentView.swift:45-50 | The search stage never lengthens the list, and keeps only tasks of its input; with a non-empty text, every kept task matches it. |
| `Query.SearchStageExact` | ToDoListApp/ContentView.swift:44-50 | An empty search text leaves the list unchanged. Otherwise the result is exactly the tasks whose folded name or details contain the folded text, in their original order. |
| `Query.FilteredExact` | ToDoListApp/ContentView.swift:36-50 | The two filters together keep each task that passes both, as often as it is stored, and nothing else. |
| `Query.InIncreasingOrder` | ToDoListApp/ContentView.swift:53-76 | Under either due-date option an undated task never goes first and a dated task goes before an undated one. Under Completion Status a completed task never goes first and an open task goes before a completed one. |
| `Query.ComparatorAsymmetric` | ToDoListApp/ContentView.swift:52-76 | None of the seven comparators holds in both directions, given an antisymmetric string comparison. |
| `Query.FilteredAndSortedItems` | ToDoListApp/ContentView.swift:36-78 | The result is a permutation of the filtered tasks. A task is in it exactly when it is stored and passes both filters. No element is strictly before its left neighbour under the chosen option's comparator. |
| `Sorting.SortBy` | ToDoListApp/ContentView.swift:52-76 | For any comparator that never holds both ways, the sort returns a permutation of its input with no neighbours out of order. |
| `Sorting.AdjacentToPairwise` | ToDoListApp/ContentView.swift:52-76 | If a transitive relation holds between every pair of neighbours, it holds between every earlier and later element. |
| `Orders.NewestFirstOrder` | ToDoListApp/ContentView.swift:54-55 | Under Newest First, creation dates never increase along the list. |
| `Orders.OldestFirstOrder` | ToDoListApp/ContentView.swift:56-57 | Under Oldest First, creation dates never decrease along the list. |
| `Orders.DueDateEarliestFirstOrder` | ToDoListApp/ContentView.swift:58-63 | Under Earliest First, every dated task precedes every undated one, and due dates never decrease among dated tasks. |
| `Orders.DueDateLatestFirstOrder` | ToDoListApp/ContentView.swift:64-69 | Under Latest First, undated tasks also come after every dated one, and due dates never increase among dated tasks. |
| `Orders.NameAscendingOrder` | ToDoListApp/ContentView.swift:70-71 | Under Name (A-Z), no name compares descending to the next one. Under a total preorder, no name compares descending to any later one. |
| `Orders.NameDescendingOrder` | ToDoListApp/ContentView.swift:72-73 | Under Name (Z-A), no name compares ascending to the next one. Under a total preorder, no name compares ascending to any later one. |
| `Orders.CompletionStatusOrder` | ToDoListApp/ContentView.swift:74-75 | Under Completion Status, no completed task precedes an open one. |
| `Categories.Insert` | ToDoListApp/ContentView.swift:33 | Adding a category to a strictly ascending list keeps it strictly ascending. Its elements become the old ones plus the new one, so a duplicate is dropped. |
| `Categories.UniqueCategories` | ToDoListApp/ContentView.swift:32-34 | The category list is strictly ascending. Its elements are exactly the categories of all stored tasks. It depends on nothing but the stored tasks. |
| `Categories.NoDuplicates` | ToDoListApp/ContentView.swift:33 | A strictly ascending list, the category list included, has no repeated element. |
| `Categories.AscendingUnique` | ToDoListApp/ContentView.swift:33 | Two strictly ascending lists with the same elements are equal. So the model's list is the one that sorting the de-duplicated set gives. |
| `Categories.UniqueCategoriesExample` | ToDoListApp/ContentView.swift:33 | Tasks with categories B, A, A give the list A, B. |
| `Categories.Less` | ToDoListApp/ContentView.swift:33 | The string order used to sort the categories never relates a string to itself. |
| `Categories.LessTotal` | ToDoListApp/ContentView.swift:33 | Of two different strings, one is less than the other under the string order. |
| `Store.TaskStore.constructor` | ToDoListApp/ContentView.swift:26-28 | A new store has no tasks and an empty quick-add field. |
| `Store.TaskStore.AddItem` | ToDoListApp/ContentView.swift:164-169 | The toolbar add stores exactly one new task, with the placeholder name, the given creation time and default fields. Nothing else changes. |
| `Store.TaskStore.SubmitNewTask` | ToDoListApp/ContentView.swift:171-178 | With an empty field nothing changes. Otherwise exactly one task named by the field, with default fields, is stored, and the field is reset to "". |
| `Store.TaskStore.DeleteItems` | ToDoListApp/ContentView.swift:180-186 | Deleting by offsets leaves the stored list with the tasks at the given offsets dropped, indexing the stored list as the source does. |
| `Store.AfterDelete` | ToDoListApp/ContentView.swift:180-186 | Dropping the tasks at the offsets shortens the list by exactly the number of offsets and keeps only stored tasks. |
| `Store.AfterDeleteExact` | ToDoListApp/ContentView.swift:180-186 | The list after deletion is `|offsets|` shorter. Its k-th task is the stored task at the k-th position not among the offsets, so exactly the tasks at the offsets go and the rest stay unchanged, in order. |
| `Store.TaskStore.ToggleCompleted` | ToDoListApp/ContentView.swift:89 | The toggle flips one task's completion flag and changes nothing else. |
| `Store.DeleteItemsMissesDisplayedRow` | ToDoListApp/ContentView.swift:183 | With a category selected, the displayed list is just "Buy milk", but deleting its row 0 removes the hidden "Write report". The corrected deletion removes "Buy milk". |
| `Store.TaskStore.DeleteShownItems` | ToDoListApp/ContentView.swift:180-186 | The corrected deletion removes from the stored list the tasks shown at the offsets of the displayed list, and keeps every other task, in order. |
| `Store.DeleteShownExact` | ToDoListApp/ContentView.swift:180-186 | After the corrected deletion, a task remains exactly when it was stored and is none of the tasks shown at the offsets. |

## Left out

- The SwiftUI `body` (ContentView.swift:80-154) is left out: list rows, navigation, pickers, toolbar, animations and styling. It is layout, not logic.
- `dateFormatter` and every localised string are left out. The toolbar placeholder name is the constant `Store.ToolbarTaskName`.
- SwiftData persistence is left out: `@Model`, `@Query`, `modelContext.insert/delete` and the container. The store is an in-memory sequence. The query's newest-first order of `items` is not kept as an invariant; new tasks are just put first.
- `Date` (a floating-point interval), the clock and `Calendar.current.startOfDay` are left out. Integers and explicit parameters stand for them.
- Locale-aware containment and comparison are left out. `fold` and `compare` are opaque parameters, and Unicode folding, normalisation and collation are not modelled. Swift's `String ==` and `String <` treat canonically equivalent strings as equal; the model uses plain character equality and order. This affects the category filter (ContentView.swift:41) and the de-duplication through `Set` (ContentView.swift:33), as well as the sort of the category list.
- Object identity is left out. Tasks are values, so a toggle names its task by position, not through the row that shows it. The corrected deletion removes every stored task equal in all fields to a picked one, where the app would delete one object.
- `Sorting.SortBy`: it is an insertion sort, not Swift's own algorithm. Its contract states only what any correct sort with these comparators gives (a permutation with no neighbours out of order). Where equal keys are involved, the order may differ from the app's, which the app does not specify.
- `Store.TaskStore.DeleteItems`: it visits the offsets in an arbitrary order, where `IndexSet` visits them ascending. Each visit only marks a task, so the order does not change the result.
- `Store.TaskStore.DeleteItems`: its requires excludes offsets outside the stored list. Swift traps on such an index (`items[index]`), so the model does not give that case a result. The offsets `.onDelete` passes always meet it: they index the displayed list, which is never longer than the stored one (`Query.CategoryStage`, `Query.SearchStage`).
- ToDoListApp/EditTaskView.swift is not part of this model. It is form plumbing. Its one piece of logic, clearing the due date, is a plain field update.

## Findings

| source | as written | input that shows it | evidently intended | confidence | as-written member | corrected member |
|---|---|---|---|---|---|---|
| ToDoListApp/ContentView.swift:183 | Swipe-to-delete gets offsets into the displayed list (`ForEach(filteredAndSortedItems)` with `.onDelete`). `deleteItems` applies them to `items`, which is unfiltered and in the query's order. | Stored `["Write report" (Work), "Buy milk" (Home)]` with category Home selected shows only "Buy milk". Deleting row 0 removes "Write report" and keeps "Buy milk". | Delete the tasks shown at those offsets of the displayed list. | high; not executed | `Store.TaskStore.DeleteItems` (shown wrong by `Store.DeleteItemsMissesDisplayedRow`) | `Store.TaskStore.DeleteShownItems` (proved by `Store.DeleteShownExact`) |
