# ToDo App core, modelled in Dafny

The Go program `ToDoList_App/main.go` is a one-window to-do list. It is built
on the Fyne GUI toolkit and stores its tasks in a SQLite file through GORM.
Almost all of `main` is widget construction. This project models the logic
that the callbacks registered in `main` carry out:

- **Space collapsing** (`collapse.dfy`, module `SpaceCollapse`). Each of the
  four text entries runs the same `OnChanged` loop. While the text contains
  two adjacent spaces, it replaces each pair with one space using
  `strings.ReplaceAll`. `ReplaceDoubleSpaces` models one `ReplaceAll` pass:
  pairs are matched left to right and never overlap, so three spaces become
  two. `Collapse` is the loop as a recursive function, and `CollapseSpaces`
  is the loop itself, as a `while` method proved equal to `Collapse`.
  `Squeeze` is an independent reference definition that turns each run of
  spaces into one space. It is proved equal to `Collapse`.
- **The blank-title gate** (`trim.dfy`, module `Trim`). `TrimSpace` models
  `strings.TrimSpace`, using the white-space set of Go's `unicode.IsSpace`.
  The create button saves only when the trimmed title is not empty.
- **The task table** (`store.dfy`, module `Store`). The database is kept
  abstract as a value `Db(rows, nextId)`. `rows` holds the table in
  insertion order, and `nextId` is the id the next insert receives. Create,
  delete-by-id and update-by-id are pure functions on that value.
  `DB.Find(&tasks)` reads `rows`.
- **The screen state machine** (`app.dfy`, module `App`). The class
  `ToDoApp` holds the variables that the closures in `main` capture:
  - the database;
  - the cached `tasks` slice;
  - the window content, which is one of the `Screen` values;
  - the list selection;
  - the create and edit entries;
  - whether the "No tasks" label is visible.

  Each button or entry callback is one method. `Valid()` is the invariant
  that every callback keeps:
  - the cache equals the table;
  - the label is visible exactly when the cache is empty;
  - a task is selected exactly while its detail screen or edit form is shown;
  - the create form is empty whenever it is not on screen;
  - the create form's entries never hold two adjacent spaces, so a created
    task is stored with its runs of spaces collapsed.

  Each method states its whole new state through the snapshot `State()`.

Go strings are byte strings; they are modelled as `seq<char>`. This does not
change the space collapsing, because the byte 0x20 never occurs inside a
multi-byte UTF-8 sequence. `strings.TrimSpace` decodes runes, and the model
treats them as characters.

The model follows the code in three places where one might expect
otherwise:
- The stored title and description are the raw entry texts. They are not
  trimmed.
- The edit form's save has no blank-title check.
- Collapsing touches only U+0020. It never trims.

## Model

| member | source | states |
|---|---|---|
| SpaceCollapse.HasDoubleSpace | ToDoList_App/main.go:61 | models `strings.Contains(text, "  ")`: some space is immediately followed by another (its index form is `HasDoubleSpaceIff`) |
| SpaceCollapse.HasDoubleSpaceIff | ToDoList_App/main.go:61 | `strings.Contains(text, "  ")` holds exactly when some index of the text carries two adjacent spaces |
| SpaceCollapse.ReplaceDoubleSpaces | ToDoList_App/main.go:62 | one `ReplaceAll` pass never lengthens the text; it shortens it whenever a pair of spaces is present; otherwise it returns the text unchanged; it keeps the first character |
| SpaceCollapse.Collapse | ToDoList_App/main.go:61-63 | the loop terminates; its result has no two adjacent spaces and is no longer than the input |
| SpaceCollapse.CollapseSpaces | ToDoList_App/main.go:61-64 | the `while` loop returns exactly `Collapse(text)`, which contains no pair of spaces (identical loops at lines 72-74, 176-178 and 184-186) |
| SpaceCollapse.SqueezeReplace | ToDoList_App/main.go:62 | one `ReplaceAll` pass leaves the run-squeezed form of the text unchanged |
| SpaceCollapse.SqueezeFixed | ToDoList_App/main.go:61 | a text with no pair of spaces is already squeezed |
| SpaceCollapse.CollapseIsSqueeze | ToDoList_App/main.go:61-63 | the loop's result equals the reference definition: every maximal run of spaces becomes a single space, and every other character is kept |
| SpaceCollapse.CollapseNoAdjacentSpaces | ToDoList_App/main.go:61-63 | no index of the result holds two adjacent spaces |
| SpaceCollapse.CollapseIdempotent | ToDoList_App/main.go:61-63 | collapsing an already collapsed text changes nothing |
| SpaceCollapse.CollapseUnchangedIff | ToDoList_App/main.go:61-62 | the text comes back unchanged exactly when it has no pair of spaces, which is when the loop body never runs |
| SpaceCollapse.SqueezeKeepsNonSpaces | ToDoList_App/main.go:61-63 | squeezing keeps every non-space character in order |
| SpaceCollapse.CollapseKeepsNonSpaces | ToDoList_App/main.go:61-64 | collapsing deletes only U+0020: every other character, tabs and newlines included, survives in order |
| SpaceCollapse.SqueezeEnds | ToDoList_App/main.go:61-63 | squeezing a non-empty text keeps its first and last character |
| SpaceCollapse.CollapseKeepsEnds | ToDoList_App/main.go:61-64 | collapsing does not trim: the first and last characters are kept, so a leading or trailing single space survives |
| Trim.IsSpace | ToDoList_App/main.go:246 | models `unicode.IsSpace`, the white-space set `strings.TrimSpace` cuts: '\t', '\n', '\v', '\f', '\r', ' ', U+0085, U+00A0 and the other Unicode White_Space characters |
| Trim.TrimLeft | ToDoList_App/main.go:246 | the result is the suffix of the text that starts at its first non-white-space character; everything cut off is white space |
| Trim.TrimRight | ToDoList_App/main.go:246 | the result is the prefix of the text that ends at its last non-white-space character; everything cut off is white space |
| Trim.TrimSpace | ToDoList_App/main.go:246 | the result is the slice of the text left after cutting a blank prefix and a blank suffix; when non-empty it starts and ends with a non-white-space character |
| Trim.TrimSpaceEmptyIff | ToDoList_App/main.go:246 | the gate `strings.TrimSpace(title) != ""` fails exactly when every character of the title is white space |
| Trim.TrimSpaceKeepsCore | ToDoList_App/main.go:246 | a text that already starts and ends with non-white-space is not changed by trimming |
| Store.Insert | ToDoList_App/main.go:248-249 | creating a task keeps the table well formed: ids stay unique, and every id is below the counter |
| Store.InsertAppends | ToDoList_App/main.go:248-250 | creating appends exactly one row, holding the given title and description, and no current row carries its id |
| Store.InsertAfterDeleteFresh | ToDoList_App/main.go:135-136 | ids are not reissued: a task created after a delete never gets the deleted task's id |
| Store.RemoveId | ToDoList_App/main.go:135 | the remaining rows are exactly the rows whose id differs from the deleted one |
| Store.DeleteById | ToDoList_App/main.go:135-136 | after a delete the table is still well formed and no row carries the deleted id |
| Store.RemoveIdDistinct | ToDoList_App/main.go:135 | deleting keeps ids distinct |
| Store.ReplaceId | ToDoList_App/main.go:197-206 | the update keeps the number of rows; a row with the given id gets the new title and description, and every other row is unchanged |
| Store.UpdateById | ToDoList_App/main.go:197-207 | after an update the table is still well formed and has the same number of rows |
| Store.DeleteAt | ToDoList_App/main.go:135-136 | deleting the id of the row at index i removes exactly that row and keeps the others in order |
| Store.DistinctTail | ToDoList_App/main.go:135 | in a table with distinct ids, no later row carries the first row's id |
| Store.RemoveOnly | ToDoList_App/main.go:135 | with distinct ids, removing the id of row i yields the rows before i followed by the rows after i |
| Store.RemoveAbsent | ToDoList_App/main.go:135 | deleting an id that no row carries changes nothing |
| Store.UpdateAt | ToDoList_App/main.go:197-207 | updating the id of row i rewrites that row alone and keeps its id |
| Store.CreateThenUpdate | ToDoList_App/main.go:196-207 | round trip: after a task is created and then updated, re-reading the table shows the new title and description, not the old ones |
| Store.CreateThenDelete | ToDoList_App/main.go:133-136 | round trip: deleting a task that was just created restores the previous rows |
| App.ToDoApp.constructor | ToDoList_App/main.go:33-49 | at start-up the table is read into the cache; the "No tasks" label is visible exactly when there are no tasks; the list screen is shown with empty entries and no selection |
| App.ToDoApp.NewTask | ToDoList_App/main.go:82-84 | "new" goes from the list screen to the create form and changes nothing else |
| App.ToDoApp.TitleChanged | ToDoList_App/main.go:60-66 | the title entry holds the collapsed text |
| App.ToDoApp.DescriptionChanged | ToDoList_App/main.go:71-77 | the description entry holds the collapsed text |
| App.ToDoApp.SaveTask | ToDoList_App/main.go:244-266 | a blank title (empty after `TrimSpace`) changes nothing, and the state is unchanged only then; otherwise the raw untrimmed entry texts, which never hold two adjacent spaces, are appended under a fresh id, the cache is re-read, both entries are cleared, the list is shown unselected and the label is hidden |
| App.ToDoApp.CreateBack | ToDoList_App/main.go:271-278 | back from the create form clears both entries and shows the list unselected |
| App.ToDoApp.Select | ToDoList_App/main.go:99-112 | selecting row id on the list screen shows that task's detail screen with the row selected |
| App.ToDoApp.DetailBack | ToDoList_App/main.go:109-112 | back from the detail screen shows the list and unselects the task |
| App.ToDoApp.DeleteConfirm | ToDoList_App/main.go:133-147 | only a confirmed dialog changes the table; it then removes exactly the shown task, keeps the others in order, re-reads the cache and sets the label to whether the cache is empty; either way the list is shown with nothing selected |
| App.ToDoApp.Edit | ToDoList_App/main.go:156-173 | "edit" opens the edit form, filled with the selected task's raw title and description |
| App.ToDoApp.EditTitleChanged | ToDoList_App/main.go:175-181 | the edit title entry holds the collapsed text |
| App.ToDoApp.EditDescriptionChanged | ToDoList_App/main.go:183-189 | the edit description entry holds the collapsed text |
| App.ToDoApp.EditBack | ToDoList_App/main.go:165-168 | back from the edit form discards the edits, shows the list and unselects |
| App.ToDoApp.EditSave | ToDoList_App/main.go:196-210 | the selected task gets the edited title and description, with no blank-title check (an edited text that is exactly empty is replaced too; see the `Store.UpdateById` line under Left out); every other task and the order are unchanged; the cache is re-read and the list is shown unselected |

## Left out

- Rendering and layout: the window, its size, text styles, icons loaded from
  disk, containers, `Refresh()` calls and `app.Run()`. These are GUI library
  code. The window content is modelled only as the current `Screen`.
- The SQLite and GORM layer: opening `todo.db`, `AutoMigrate`, SQL
  execution, and the database errors that the program ignores. The model
  treats every store call as succeeding.
- How SQLite assigns ids: the model uses a counter that only grows, so an id
  is never reused. That is an assumption of the model, not something shown
  about SQLite.
- Store.UpdateById: GORM's `Updates` with a struct skips zero-value fields,
  so an empty edited title or description would leave the stored value in
  place. The model replaces both fields whatever they hold.
- The order of `DB.Find(&tasks)`: the query has no ORDER BY, and the model
  assumes the rows come back in insertion order. Index-based selection and
  the "others keep their order" clauses of `DeleteConfirm` and `EditSave`
  rest on that assumption.
- The modal display of `dialog.ShowConfirm`: the delete button only opens the
  dialog and changes nothing in the model. The dialog's answer is the
  parameter of `DeleteConfirm`.
- The labels of the detail screen and the dialog text (`fmt.Sprintf` of the
  selected title). They are display only.
- Fyne's firing of `OnChanged` on every keystroke: each entry method receives
  the entry's whole new text, as the handler does.
