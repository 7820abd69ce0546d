# ListViewController, modelled in Dafny

`ListViewController` is the grouped-table screen that lists payment methods in
the Adyen iOS SDK. Beneath its UIKit glue is a small state machine:

- an ordered list of sections, each with an optional title and an ordered list of items;
- a `reloadDataOnSectionUpdate` flag;
- the last selected item.

Assigning the sections drops empty ones and may reload the table. A
swipe-to-delete removes either a row or a whole section. Tapping a row records the
item. `startProcessing` and `stopProcessing` toggle the loading indicator of the
first visible cell bound to that item.

Files:

- `options.dfy` (module `Options`): Swift's optionals.
- `list_data.dfy` (module `ListData`): items, sections, cells, editing styles, and
  the table-view events as datatypes. It also holds the pure table queries, the
  empty-section filter, the arithmetic of a delete, the first-match search over
  visible cells, and the lemmas about them.
- `list_view_controller.dfy` (module `ListView`): the class `ListViewController`.
  Its fields are `sections`, `reloadDataOnSectionUpdate`, `lastSelectedItem` and
  `visibleCells`. A ghost `log` records every table-view call (`reloadData`,
  `deleteSections`, `deleteRows`, `deselectRow`) and every handler invocation,
  in order. `Valid()` is the invariant that no stored section is empty.

Modelling decisions:

- Items compare by an `id`. Handlers are opaque names. Running a handler appends
  an event to the log.
- A visible cell is a pair of the item id it is bound to and its loading flag.
  `lastSelectedCell` returns the index of that cell in `visibleCells`.
- The header height is the enumeration `Forty | Minimal`. A row height is the
  number 56.
- The `didSet` observer of `sections` is `SectionsDidSet`. When it drops empty
  sections, it stores the rest. Swift does not re-run an observer for an
  assignment made inside it, so that path issues no reload.
- The two in-place removals in `commit editingStyle` do run the observer. The
  model therefore calls `SectionsDidSet` after each one. There the flag is off
  and no section is empty, so nothing is filtered and nothing is reloaded.
- `stopProcessing` forgets the selection only when a matching visible cell is
  found; the `guard` at lines 201-203 returns early otherwise.
- The store inside the observer does not re-enter it. A second pass would
  filter nothing more (`FilterIdempotent`), but it would reload the table. So an
  assignment that contains an empty section stores the filtered sections and
  never calls `reloadData` (`SetSections`). Lines 159-160 read as if written
  for an observer that runs again and reloads; that is an observation from
  reading the code, not executed.

## Model

| member | source | states |
|---|---|---|
| `ListData.HeaderHeightFor` | Adyen/CoreUI/List/ListViewController.swift:37-43 | the header is 40 points high iff the section has a title, otherwise the minimal height |
| `ListData.RowHeight` | Adyen/CoreUI/List/ListViewController.swift:82-84 | every row is 56 points high, for any sections and any index path |
| `ListData.NumberOfRows` | Adyen/CoreUI/List/ListViewController.swift:86-88 | a section's row count is its item count, and at least 1 when no section is empty |
| `ListData.CanEditRow` | Adyen/CoreUI/List/ListViewController.swift:122-125 | a row can be edited iff its item has a deletion handler |
| `ListData.ActivityIndicatorColor` | Adyen/CoreUI/List/ListViewController.swift:101 | the screen's colour if set; else the shared appearance's; else the disclosure colour |
| `ListData.FirstPresent` | Adyen/CoreUI/List/ListViewController.swift:101 | the first present value of a `??` chain; absent iff every value is absent |
| `ListData.ActivityIndicatorColorIsFirstPresent` | Adyen/CoreUI/List/ListViewController.swift:101 | the indicator colour is the first present of the three candidates, in that priority |
| `ListData.FilterNonEmpty` | Adyen/CoreUI/List/ListViewController.swift:158 | the filtered sections are no more than the input, none is empty, and a section is kept iff it was in the input and non-empty |
| `ListData.FilterUnchangedIff` | Adyen/CoreUI/List/ListViewController.swift:158-159 | filtering keeps the count iff it keeps the sequence, iff no input section is empty |
| `ListData.FilterConcat` | Adyen/CoreUI/List/ListViewController.swift:158 | filtering distributes over concatenation |
| `ListData.FilterKeepsOrder` | Adyen/CoreUI/List/ListViewController.swift:155-160 | two non-empty sections stay in their original relative order, with each gap filtered on its own |
| `ListData.FilterIdempotent` | Adyen/CoreUI/List/ListViewController.swift:158-160 | storing the filtered sections again would filter nothing more |
| `ListData.RemoveAt` | Adyen/CoreUI/List/ListViewController.swift:142-145 | `remove(at:)` shortens by one, keeps the elements before the index and shifts those after it down by one |
| `ListData.NumberOfSections` | Adyen/CoreUI/List/ListViewController.swift:33-35 | the table has one section per stored section |
| `ListData.AfterDelete` | Adyen/CoreUI/List/ListViewController.swift:141-146 | a delete drops one section when that section held one item and keeps the section count otherwise; the full meaning is stated by `DeleteOnlyItemRemovesSection` (the whole one-item section goes) and `DeleteRowKeepsSection` (only the row goes) |
| `ListData.DeleteEvent` | Adyen/CoreUI/List/ListViewController.swift:141-147 | the table update is `deleteSections(i)` iff the section held one item, and `deleteRows` iff it held more |
| `ListData.DeleteOnlyItemRemovesSection` | Adyen/CoreUI/List/ListViewController.swift:134-143 | deleting the one item of a section removes that section; the count drops by one; the other sections keep their order |
| `ListData.DeleteRowKeepsSection` | Adyen/CoreUI/List/ListViewController.swift:144-146 | deleting from a larger section keeps the section count and the title; it removes exactly that item (row count minus one, multiset minus that item); every other section is untouched |
| `ListData.DeleteKeepsSectionsNonEmpty` | Adyen/CoreUI/List/ListViewController.swift:141-163 | after a delete no section is empty, so the observer that follows filters nothing |
| `ListData.FirstMatch` | Adyen/CoreUI/List/ListViewController.swift:182-186 | the index of the first visible cell bound to the item; absent iff no cell is bound to it |
| `ListData.SelectedCell` | Adyen/CoreUI/List/ListViewController.swift:177-187 | no cell without a selection; with one, the first visible cell bound to the selected item, and none exactly when no visible cell is bound to it |
| `ListData.ShowLoadingIndicator` | Adyen/CoreUI/List/ListViewController.swift:197-205 | only the loading flag of the targeted cell changes; bindings and all other cells stay as they were |
| `ListData.LoadingKeepsMatch` | Adyen/CoreUI/List/ListViewController.swift:192-206 | showing or hiding an indicator does not change which cell an item is found in |
| `ListData.StartThenStopRestores` | Adyen/CoreUI/List/ListViewController.swift:192-207 | with no indicator showing, a start then a stop target the same cell and return the cells to their prior state |
| `ListView.ListViewController.constructor` | Adyen/CoreUI/List/ListViewController.swift:155-175 | initial state: no sections, reload on, no selection, empty log |
| `ListView.ListViewController.SectionsDidSet` | Adyen/CoreUI/List/ListViewController.swift:155-165 | the stored sections become the filtered ones; one reload is logged iff nothing was filtered and the flag is on, otherwise none |
| `ListView.ListViewController.SetSections` | Adyen/CoreUI/List/ListViewController.swift:155-165 | after an assignment no stored section is empty; one reload is logged iff the input had no empty section and the flag is on |
| `ListView.ListViewController.DidSelectRow` | Adyen/CoreUI/List/ListViewController.swift:114-120 | the tapped item becomes the last selected item; the deselect is logged, then its selection handler if it has one |
| `ListView.ListViewController.CommitEditingStyle` | Adyen/CoreUI/List/ListViewController.swift:127-151 | a non-delete style or an item without a handler changes nothing; otherwise the sections become the delete's result and the flag ends on; the log gains exactly the table update and then the handler, never a reload |
| `ListView.ListViewController.LastSelectedCell` | Adyen/CoreUI/List/ListViewController.swift:177-187 | the loop returns the first visible cell bound to the last selected item, or none |
| `ListView.ListViewController.StartProcessing` | Adyen/CoreUI/List/ListViewController.swift:192-198 | turns on the loading flag of exactly that cell; with no selection or no matching cell, nothing changes |
| `ListView.ListViewController.StopProcessing` | Adyen/CoreUI/List/ListViewController.swift:200-207 | turns off the loading flag of exactly that cell and forgets the selection only when that cell was found |

`ListView.DeleteExample` replays a two-section example: an untitled section
with one deletable item, and a section titled "B" with an item that has no
deletion handler and one that has. Deleting the only item of the first section leaves the titled
section with its two items and logs `deleteSections(0)`, then the handler. A
delete attempted on the item without a handler changes nothing.

## Left out

- `init`, `init(coder:)` with its `fatalError`, and the table setup in `viewDidLoad` (lines 11-29): UIKit plumbing. The constructor sets the property initial values of lines 155-175, and starts the model's own `visibleCells` and `log` empty.
- Header views, their Auto Layout constraints, and footer heights and views (lines 45-80): layout only, with no state.
- Cell dequeue and styling (lines 90-112): colours, text attributes, the selected background view, and the `fatalError` on a wrongly registered cell. Only the colour fallback at line 101 is modelled.
- `CGFloat` values: the header height is an enumeration and the row height an integer. `leastNonzeroMagnitude` is represented by `Minimal`.
- `Appearance.shared`, `ListItem` and `ListCell`: these types are not part of this model. `ListItem` equality becomes equality of ids. A cell's binding and loading flag are plain data.
- Animations and the bodies of handler closures: only the calls are logged.
- The table view's own bookkeeping: `visibleCells` is a field that the table view sets, and the model does not change it when rows or sections are deleted.
- UIKit's callback dispatch: index paths are taken as given. A `requires` states that a path names an existing row, because the code subscripts without a check.
