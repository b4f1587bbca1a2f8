# A verified model of a Qt to-do list's core

This project models the core of a small Qt desktop to-do application backed by
SQLite. It covers four parts and proves properties of each:

- the `Todo` record (`src/core/models/Todo.h`, `Todo.cpp`): its constructors, its
  setters that stamp `updated_at`, the guarded `setPriority`, `isOverdue` and
  `daysUntilDue`;
- the `TodoDatabase` store (`src/core/database/TodoDatabase.h`, `.cpp`): opening
  and closing, `initialize`, and the CRUD operations over the `todos` table;
- the list logic of `src/gui/MainWindow.cpp` and the `TodoItemDelegate` of
  `src/gui/MainWindow.h`. This covers the filter, the sort comparator, the row
  text (marker, title, line break, metadata) and its decoding by the delegate,
  row styling and height, the checkbox hit test, the status line and the two
  completion toggles;
- the "New Todo" dialog of `src/gui/AddTodoDialog.cpp`: its category choices and
  what `onSave` builds from the form.

Files, one module each:

| file | module | models |
|---|---|---|
| `wrappers.dfy` | `Wrappers` | `Option`, for nullable columns, `std::optional` and `std::unique_ptr` results |
| `sorting.dfy` | `Sorting` | a stable insertion sort, proved sorted and a permutation for any strict order; used for `ORDER BY` and for `std::sort` |
| `text.dfy` | `Text` | the `QString` operations the code relies on: `trimmed`, `split('\n')`, `arg` of a count, reading digits back, and SQLite's BINARY order on text |
| `todo.dfy` | `TodoModel` | the `Todo` record |
| `todo_database.dfy` | `TodoStore` | the table as rows, and the `TodoDatabase` class |
| `item_delegate.dfy` | `ItemDelegate` | `TodoItemDelegate` |
| `todo_list_view.dfy` | `TodoListView` | the list logic and the `MainWindow` class |
| `add_todo_dialog.dfy` | `AddDialog` | `AddTodoDialog` |

Modelling choices:

- **Todo is a datatype.** `Todo` is a value type in the program: it is copied
  into vectors, returned by value and passed by const reference. It is
  therefore a `datatype`. A setter call `t.setX(v)` becomes `t := t.SetX(v, now)`, and the
  getters are the datatype's fields.
- **The clock is a parameter.** `std::time(nullptr)` becomes a parameter
  `now`, one reading per modelled operation. Where the program reads the clock
  several times within one operation, those readings are taken to be equal
  (see "## Left out").
- **Text is bound as a C string.** Every text reaches SQLite through
  `c_str()` with length -1, so SQLite keeps it only up to its first NUL
  character. `Text.CText` is that cut; the INSERT and UPDATE rows apply it.
- **The store is a class.** `TodoDatabase` is a class with three fields:
  - `open`: the connection handle is non-null;
  - `rows`: the table in insertion order;
  - `nextId`: the `AUTOINCREMENT` counter, which only grows.

  `Valid()` says that ids are distinct and below the counter, that the
  `CHECK(priority >= 1 AND priority <= 3)` constraint holds, and that no stored
  text holds a NUL. Reading a text column back therefore takes it whole. A Dafny object
  reference never duplicates the connection, which is what the deleted copy
  operations guarantee.
- **The engine decides failures.** Whether SQLite prepares a statement and how
  far stepping gets is up to the engine, not this code. Every store operation
  therefore takes an `Engine`, which is `Healthy` or `Faulty(k)`:
  - a faulty query delivers `k` result rows and then stops (`k = 0`: preparing failed);
  - a faulty write changes nothing.
- **Loops stay loops.** Each query's `while (sqlite3_step(stmt) == SQLITE_ROW)`
  loop, the row-building loop of `refreshTodoList`, the counting loop of
  `updateStatusBar` and the category loop of the dialog's constructor are
  `while` loops. Each is proved against a specification function.

Where the code does something other than a reader of its interface would
expect, or other than its header comment at `src/core/models/Todo.h:52` says,
the model follows the code:

- `updateTodo` and `deleteTodo` report success whenever the statement
  completes, including when no row has the id (`MissingIdChangesNothing`).
- `getAllCategories` skips only NULL, so an empty category is returned, and it
  sorts first (`EmptyCategoryIsListed`).
- `daysUntilDue` truncates toward zero, as `static_cast<int>` does. A task
  overdue by less than a day counts 0 days, not a negative number as the header
  comment at `src/core/models/Todo.h:52` says (`PartialDayOverdueCountsZero`).
- Reading a record back does not restore `created_at` or `updated_at`. Both take
  the time of reading, because every setter stamps `updated_at`
  (`ReadBackOfStored`).
- The "None" category choice stores the literal text `"None"`, because `onSave`
  reads the entry's text, not its data (`NoneChoiceIsLiteral`).

## Model

| member | source | states |
|---|---|---|
| `TodoModel.Todo.UpdateTimestamp` | src/core/models/Todo.cpp:55-57 | only `updated_at` changes, to the current time |
| `TodoModel.Todo.SetId` | src/core/models/Todo.h:40 | only `id` changes; unlike the other setters, `updated_at` is kept |
| `TodoModel.Todo.SetTitle` | src/core/models/Todo.cpp:18-21 | the title and `updated_at := now` change; every other field is kept |
| `TodoModel.Todo.SetDescription` | src/core/models/Todo.cpp:23-26 | the description and `updated_at := now` change; every other field is kept |
| `TodoModel.Todo.SetCategory` | src/core/models/Todo.cpp:28-31 | the category and `updated_at := now` change; every other field is kept |
| `TodoModel.Todo.SetCompleted` | src/core/models/Todo.cpp:33-36 | completion and `updated_at := now` change; every other field is kept |
| `TodoModel.Todo.SetPriority` | src/core/models/Todo.cpp:38-43 | a priority in 1..3 is set and stamps `updated_at`; any other value leaves the whole record unchanged |
| `TodoModel.Todo.SetDueDate` | src/core/models/Todo.cpp:45-48 | the deadline becomes present with the given time, and `updated_at := now`; nothing else changes |
| `TodoModel.Todo.ClearDueDate` | src/core/models/Todo.cpp:50-53 | the deadline becomes absent, and `updated_at := now`; nothing else changes |
| `TodoModel.Todo.DaysUntilDue` | src/core/models/Todo.cpp:67-75 | 0 without a deadline; otherwise the whole days between now and the deadline, rounded toward zero, bounded on both sides by multiples of 86400 |
| `TodoModel.Todo.IsOverdue` | src/core/models/Todo.cpp:59-65 | overdue exactly for an open task whose deadline is strictly before now (`NeverOverdueWithoutOpenDeadline`, `OverdueAgreesWithDays`) |
| `TodoModel.Create` | src/core/models/Todo.cpp:10-16 | id 0, open, no deadline, both timestamps now, and the given title, description, category and priority (the priority is not range-checked) |
| `TodoModel.Default` | src/core/models/Todo.cpp:4-8 | id 0, empty title and description, category "general", open, priority 2, no deadline, both timestamps now |
| `TodoModel.DefaultIsCreateWithDefaults` | src/core/models/Todo.h:22-26 | the default constructor equals the other constructor given only an empty title, so the default arguments are "", "general" and 2 |
| `TodoModel.EditsKeepIdentity` | src/core/models/Todo.cpp:18-57 | after any series of setter calls, `id` and `created_at` are unchanged, and a priority in 1..3 stays in 1..3 |
| `TodoModel.EditChangesOnlyItsField` | src/core/models/Todo.cpp:18-57 | a setter changes no field but its own, and it either stamps `updated_at` or changes nothing (a rejected priority) |
| `TodoModel.NeverOverdueWithoutOpenDeadline` | src/core/models/Todo.cpp:59-62 | a task without a deadline, or a finished one, is not overdue |
| `TodoModel.OverdueAgreesWithDays` | src/core/models/Todo.cpp:59-75 | for an open dated task, overdue implies at most 0 days left, and not overdue implies at least 0 |
| `TodoModel.PartialDayOverdueCountsZero` | src/core/models/Todo.cpp:67-75 | a task overdue by less than a day counts 0 days, not -1 |
| `TodoModel.DaysRoundTowardZero` | src/core/models/Todo.cpp:72-74 | the day count is the floor quotient, plus one when the difference is negative and not a whole number of days |
| `TodoStore.Delivered` | src/core/database/TodoDatabase.cpp:129-154 | the result loop sees at most all rows, and all of them when the engine runs normally |
| `TodoStore.ReadBack` | src/core/database/TodoDatabase.cpp:129-154 | a default record filled through its setters from the row's columns; `ReadBackFields` gives every field |
| `TodoStore.ReadBackFields` | src/core/database/TodoDatabase.cpp:129-154 | a read-back record has the row's id, title, completion (`== 1`) and deadline; "" or "general" for a NULL description or category; priority 2 when the stored one is outside 1..3; both timestamps the time of reading |
| `TodoStore.RowOf` | src/core/database/TodoDatabase.cpp:88-101 | the row the INSERT binds; `ReadBackOfStored` and `CreateThenRead` show it reads back as the record, texts cut at their first NUL |
| `TodoStore.ReadBackOfStored` | src/core/database/TodoDatabase.cpp:88-101 | a record written by the INSERT reads back with every field except the two timestamps, each text cut at its first NUL |
| `TodoStore.ByNewest` | src/core/database/TodoDatabase.cpp:121 | the rows in `ORDER BY created_at DESC` order; `ByNewestOrdered` shows a permutation sorted newest first |
| `TodoStore.ByNewestOrdered` | src/core/database/TodoDatabase.cpp:121 | `ORDER BY created_at DESC` returns each row exactly once, with `created_at` never increasing |
| `TodoStore.InCategory` | src/core/database/TodoDatabase.cpp:164-172 | the rows whose category equals the argument; `InCategorySpec` states which rows and how often |
| `TodoStore.InCategorySpec` | src/core/database/TodoDatabase.cpp:164-172 | `WHERE category = ?` keeps every row whose category equals the argument exactly, as often as it occurs, and no other row; NULL never matches |
| `TodoStore.ReadBackAll` | src/core/database/TodoDatabase.cpp:129-154 | one record per row, in row order, each row read back |
| `TodoStore.FindById` | src/core/database/TodoDatabase.cpp:204-214 | a row is found exactly when some row has the id, and the found row has that id |
| `TodoStore.Rewritten` | src/core/database/TodoDatabase.cpp:247-274 | a row with the UPDATE's SET columns written; `FindAfterUpdate` and `UpdateThenRead` show the record reads back as written |
| `TodoStore.UpdateRows` | src/core/database/TodoDatabase.cpp:247-251 | the UPDATE keeps the number of rows; a row with the record's id gets the SET columns (`Rewritten`) and keeps its `id` and `created_at`; every other row is unchanged |
| `TodoStore.WithoutId` | src/core/database/TodoDatabase.cpp:285 | the DELETE leaves no row with that id, keeps every other row, and adds none |
| `TodoStore.CategoryValues` | src/core/database/TodoDatabase.cpp:313-317 | a value is listed exactly when some row has that non-NULL category |
| `TodoStore.Distinct` | src/core/database/TodoDatabase.cpp:305 | `DISTINCT`: the same values, each once |
| `TodoStore.DistinctCategories` | src/core/database/TodoDatabase.cpp:305 | the category list of `SELECT DISTINCT ... ORDER BY category`; `DistinctCategoriesSpec` states its contents and order |
| `TodoStore.DistinctCategoriesSpec` | src/core/database/TodoDatabase.cpp:305-318 | the category list has exactly the non-NULL categories in the table, the empty one included, in strictly ascending order (so each once) |
| `TodoStore.EmptyCategoryIsListed` | src/core/database/TodoDatabase.cpp:313-318 | rows with categories "work", "work", "" and "personal" give `["", "personal", "work"]` |
| `TodoStore.CategoryResultValues` | src/core/database/TodoDatabase.cpp:313-318 | skipping the NULL entry of the result set leaves exactly the promised category list |
| `TodoStore.CategoriesDelivered` | src/core/database/TodoDatabase.cpp:313-318 | the categories from the first n result rows are a prefix of the promised list, and all of it when every row was delivered |
| `TodoStore.MissingIdChangesNothing` | src/core/database/TodoDatabase.cpp:244-299 | an UPDATE or DELETE naming an id that no row has leaves the table as it was |
| `TodoStore.FindAfterUpdate` | src/core/database/TodoDatabase.cpp:247-251 | on a well-formed table, after the UPDATE the lookup by the record's id finds exactly its old row with the SET columns rewritten |
| `TodoStore.UpdateThenRead` | src/core/database/TodoDatabase.cpp:244-280 | after updating a stored record, reading its id gives the record as written, its texts cut at their first NUL, except for the timestamps |
| `TodoStore.CreateThenRead` | src/core/database/TodoDatabase.cpp:71-115 | an inserted record reads back by its new id with every field but the timestamps, its texts cut at their first NUL, and the table stays well formed |
| `TodoStore.DistinctIdsKept` | src/core/database/TodoDatabase.cpp:282-299 | deleting rows keeps ids distinct and below the counter, every priority in 1..3 and every text free of NUL |
| `TodoStore.TodoDatabase.constructor` | src/core/database/TodoDatabase.cpp:5-14 | a failed open leaves the store closed; the store starts empty and well formed |
| `TodoStore.TodoDatabase.Close` | src/core/database/TodoDatabase.cpp:20-25 | after `close` the store is closed, whether or not it was open; the table is kept |
| `TodoStore.TodoDatabase.Initialize` | src/core/database/TodoDatabase.cpp:27-48 | succeeds exactly on an open store whose engine runs normally, and never changes the rows |
| `TodoStore.TodoDatabase.CreateTodo` | src/core/database/TodoDatabase.cpp:71-115 | succeeds exactly when the store is open, the statement runs and the priority is in 1..3; appends the record's row under the next id, writes that id (distinct from every existing one) into the record, and advances the counter; on failure nothing changes and the id stays as it was |
| `TodoStore.TodoDatabase.GetAllTodos` | src/core/database/TodoDatabase.cpp:117-158 | exactly the rows the engine delivers of the table read back newest first (`Fetched`): all of them when it runs normally, nothing on a closed store |
| `TodoStore.TodoDatabase.GetTodosByCategory` | src/core/database/TodoDatabase.cpp:160-199 | exactly the delivered rows, newest first, of the rows whose category equals the argument cut at its first NUL; nothing on a closed store |
| `TodoStore.TodoDatabase.GetTodoById` | src/core/database/TodoDatabase.cpp:201-242 | a record exactly when the store is open, the first step delivers and a row has the id; it is that row read back |
| `TodoStore.TodoDatabase.UpdateTodo` | src/core/database/TodoDatabase.cpp:244-280 | on success, every row with the id is rewritten, keeping `id` and `created_at`; success includes an id that matches no row; the CHECK constraint fails the statement only when a matched row would get a priority outside 1..3 |
| `TodoStore.TodoDatabase.DeleteTodo` | src/core/database/TodoDatabase.cpp:282-299 | succeeds exactly when the store is open and the statement runs, even for an id no row has; on success the rows with that id are gone |
| `TodoStore.TodoDatabase.GetAllCategories` | src/core/database/TodoDatabase.cpp:301-322 | the distinct non-NULL categories in ascending order on a healthy open store; a prefix of them when the engine stops early; nothing on a closed store |
| `Sorting.SortBySorted` | src/gui/MainWindow.cpp:316-326 | sorting with any irreflexive, transitive order never leaves a later element that sorts before an earlier one |
| `Text.TrimEmptyIffBlank` | src/gui/AddTodoDialog.cpp:240-242 | `trimmed()` is empty exactly when the text is all white space |
| `Text.TrimmedEnds` | src/gui/AddTodoDialog.cpp:240 | a non-empty trimmed text starts and ends with a character that is not white space |
| `Text.Trim` | src/gui/AddTodoDialog.cpp:240 | `trimmed()`; `TrimEmptyIffBlank` and `TrimmedEnds` state what it removes |
| `Text.CText` | src/core/database/TodoDatabase.cpp:88-90 | a text bound with length -1 is the longest prefix without a NUL, ending where the first NUL stands |
| `TodoStore.NulCutsStoredText` | src/core/database/TodoDatabase.cpp:88-90 | a title "a\0b" is stored and read back as "a" |
| `TodoStore.Fetched` | src/core/database/TodoDatabase.cpp:129-154 | a query yields a prefix of its full result: all of it when the engine runs normally, nothing on a closed store |
| `Text.Split` | src/gui/MainWindow.h:67 | `split('\n')` gives at least one line, and no line holds a line break |
| `Text.JoinSplit` | src/gui/MainWindow.h:67 | joining the split lines with line breaks gives back the text |
| `Text.SplitFirstLine` | src/gui/MainWindow.h:67-69 | a single line, a line break and the rest split into that line followed by the rest's lines |
| `Text.SplitOneLine` | src/gui/MainWindow.h:67-69 | text without line breaks splits into just itself |
| `Text.NatToString` | src/gui/MainWindow.cpp:365 | `arg` of a count writes a non-empty string of decimal digits without a leading zero |
| `Text.NatToStringValue` | src/gui/MainWindow.cpp:365 | the written digits read back as the count |
| `Text.LexLessIsStrictOrder` | src/core/database/TodoDatabase.cpp:305 | the `ORDER BY category` order is irreflexive and transitive |
| `Text.LexLessTotal` | src/core/database/TodoDatabase.cpp:305 | any two different category texts are ordered one way or the other |
| `Text.LexLess` | src/core/database/TodoDatabase.cpp:305 | SQLite's BINARY order on text; `LexLessIsStrictOrder` and `LexLessTotal` make it a strict total order |
| `ItemDelegate.StripMarker` | src/gui/MainWindow.h:71-76 | the title is the line without its first two characters, or the whole line when it starts with neither marker |
| `ItemDelegate.StripMarkerOfMarked` | src/gui/MainWindow.h:71-76 | either marker, `"● "` or two spaces, put before a title is taken off again |
| `ItemDelegate.DecodeRow` | src/gui/MainWindow.h:67-76 | the title line without its marker and line 1; `RowTextRoundTrip` shows it recovers what the list wrote |
| `ItemDelegate.RowHeight` | src/gui/MainWindow.h:154-160 | the row is 76 high exactly when line 1 has something besides white space, and 60 otherwise |
| `ItemDelegate.TallExactlyWhenMetadataDrawn` | src/gui/MainWindow.h:135-160 | `sizeHint` makes a row tall exactly when `paint` draws a metadata line in it, that is, when the decoded line 1 is not all white space |
| `ItemDelegate.CheckboxHitArea` | src/gui/MainWindow.h:28-48 | exactly the releases on the pixels left+18..left+39 by top+18..top+39 tick the row; every other event goes to the base class |
| `ItemDelegate.EditorEvent` | src/gui/MainWindow.h:28-48 | a release inside the checkbox square ticks the row, anything else goes to the base class; `CheckboxHitArea` gives the pixel bounds |
| `TodoListView.ComparatorIsStrictWeakOrder` | src/gui/MainWindow.cpp:316-326 | the comparator is irreflexive and transitive, and being tied is transitive, as `std::sort` requires |
| `TodoListView.SortsBefore` | src/gui/MainWindow.cpp:316-326 | the comparator; `ComparatorIsStrictWeakOrder` and `DisplayOrder` state what order it yields |
| `TodoListView.DisplayOrder` | src/gui/MainWindow.cpp:316-326 | the list is a permutation of the fetched records; open tasks come before finished ones, then higher priorities first, then dated before undated, earliest first |
| `TodoListView.MetadataIsJoinedParts` | src/gui/MainWindow.cpp:344-367 | the metadata line is the category (in the "All" view, when non-empty) and the deadline note ("overdue", "due today", "due tomorrow", "due in Nd" for 2..7 days, else nothing), joined by " • " |
| `TodoListView.MetadataOneLine` | src/gui/MainWindow.cpp:344-367 | with a category free of line breaks, the metadata is a single line |
| `TodoListView.Metadata` | src/gui/MainWindow.cpp:344-367 | the metadata line; `MetadataIsJoinedParts` gives it as category and deadline note joined by " • " |
| `TodoListView.RowTextRoundTrip` | src/gui/MainWindow.h:62-76 | decoding a row's text gives back the exact title and metadata whenever neither title nor category holds a line break |
| `TodoListView.ItemText` | src/gui/MainWindow.cpp:331-369 | marker, title, line break and metadata; `RowTextRoundTrip` shows the delegate decodes title and metadata back |
| `TodoListView.RowHeightFollowsMetadata` | src/gui/MainWindow.h:154-160 | a row built for a record is tall exactly when its metadata has something besides white space |
| `TodoListView.ItemStylingRoundTrip` | src/gui/MainWindow.cpp:373-394 | the delegate reads completion back from the grey foreground; strike-out means finished; the row stores the record's id; the marker shows exactly for open high-priority tasks |
| `TodoListView.ItemFor` | src/gui/MainWindow.cpp:371-394 | a row's text, styling and stored id; `ItemStylingRoundTrip` shows the delegate reads them back |
| `TodoListView.ItemsFor` | src/gui/MainWindow.cpp:329-397 | one row per record, in the sorted order |
| `TodoListView.BuildItems` | src/gui/MainWindow.cpp:329-397 | the row-building loop produces exactly one row per record, in order |
| `TodoListView.CountsWithinTotal` | src/gui/MainWindow.cpp:408-411 | a record is counted as finished or as overdue, never both |
| `TodoListView.CountStatus` | src/gui/MainWindow.cpp:403-411 | the counting loop gives the number of finished records and of open overdue ones, together at most the total |
| `TodoListView.StatusTextRoundTrip` | src/gui/MainWindow.cpp:413-428 | the status line ("No items", "1 item" or "N items", then " · C completed" if C > 0, then " · O overdue" if O > 0) can be read back into the three counts it was written from |
| `TodoListView.StatusText` | src/gui/MainWindow.cpp:413-428 | the status line; `StatusTextRoundTrip` reads the three counts back from it |
| `TodoListView.MainWindow.UpdateStatusBar` | src/gui/MainWindow.cpp:402-431 | the status line is written from every record `getAllTodos` returns, whatever the filter shows; "No items" on a closed store |
| `TodoListView.MainWindow.FetchForFilter` | src/gui/MainWindow.cpp:307-313 | "All" fetches every record, any other filter text only records of exactly that category; in both cases what the engine delivers |
| `TodoListView.MainWindow.RefreshTodoList` | src/gui/MainWindow.cpp:302-400 | the list is one row per fetched record for the filter, in comparator order, and the status line is then rewritten from all records |
| `TodoListView.MainWindow.ToggleCompletion` | src/gui/MainWindow.cpp:717-723 | when the record can be read and the write runs, its row is rewritten with the read-back record with completion flipped; otherwise the table is unchanged; the store stays open or closed as it was and the id counter is kept |
| `TodoListView.MainWindow.OnToggleButton` | src/gui/MainWindow.cpp:671-676 | the detail dialog's toggle rewrites the record with completion flipped, or leaves the table unchanged when the read or the write fails; then the list and the status line are those of the new table; open flag and id counter kept |
| `TodoListView.MainWindow.OnCheckboxClicked` | src/gui/MainWindow.cpp:708-731 | a click on a row toggles the record whose id the row stores, or leaves the table unchanged when the read or the write fails; a row index outside the list changes nothing; open flag and id counter kept |
| `TodoListView.ToggleFlipsCompletion` | src/gui/MainWindow.cpp:721-723 | after a toggle the row is finished exactly when it was not, keeps its title and `created_at`, and gets "" or "general" where its description or category was NULL |
| `TodoListView.Toggled` | src/gui/MainWindow.cpp:721-722 | the read-back record with completion flipped; `ToggleFlipsCompletion` states what the table then holds |
| `AddDialog.NonEmpty` | src/gui/AddTodoDialog.cpp:140-144 | the store's categories without the empty one |
| `AddDialog.CategoryOptions` | src/gui/AddTodoDialog.cpp:135-144 | the choices are "None" first, then each non-empty store category in the store's order |
| `AddDialog.OptionsFromStore` | src/gui/AddTodoDialog.cpp:139-144 | given a healthy store, the choices after "None" are exactly the non-empty categories in the table, each once, in ascending order |
| `AddDialog.BuildTodo` | src/gui/AddTodoDialog.cpp:239-266 | the record `onSave` builds, or nothing; `BuildTodoRejectsBlank` and `BuildTodoFields` state when and with which fields |
| `AddDialog.BuildTodoRejectsBlank` | src/gui/AddTodoDialog.cpp:240-246 | nothing is built exactly when the title is blank after trimming |
| `AddDialog.BuildTodoFields` | src/gui/AddTodoDialog.cpp:248-263 | on success the record has the trimmed title, the notes as typed, the trimmed category text, the chosen priority, the deadline only when the box is ticked, id 0, open, both timestamps now |
| `AddDialog.NoneChoiceIsLiteral` | src/gui/AddTodoDialog.cpp:251-256 | choosing "None" stores the category "None", not "" |
| `AddDialog.AddTodoDialog.constructor` | src/gui/AddTodoDialog.cpp:135-153 | the choices are "None" and then a prefix of the store's non-empty categories: all of them on a healthy open store, none on a closed one; the dialog starts unaccepted, without an error, holding a default record |
| `AddDialog.AddTodoDialog.OnSave` | src/gui/AddTodoDialog.cpp:239-266 | a blank title shows the error and changes nothing else; otherwise the error is cleared, the built record is kept and the dialog is accepted; an accepted record's priority is always in 1..3 |

## Left out

- Logging to `stderr` (`handleError`, `executeSQL`) has no effect on results and is not modelled.
- The SQLite engine is abstracted. Whether a statement prepares and how many rows a step delivers is the `Engine` parameter. The indexes created by `initialize` affect only speed.
- `TodoStore.TodoDatabase.constructor` models only a new database file. Opening a file that already holds rows is not modelled.
- `TodoStore.ByNewest` breaks ties in `created_at` by table order. SQLite leaves that order unspecified, so the lemmas state only sortedness and permutation.
- `TodoListView.SortForDisplay` is one particular sorted permutation. `std::sort` may put tied records in another order, so `DisplayOrder` states only sortedness and permutation.
- The `int` narrowing of `sqlite3_last_insert_rowid` assumes ids fit in an `int`. Ids are unbounded integers here.
- `daysUntilDue` computes with floating point (`difftime`, then a division). It is modelled as exact integer division rounding toward zero, which agrees whenever the difference is below 2^53 seconds.
- Local time is not modelled. The dialog's end of day (23:59:59) arrives already converted to epoch seconds, and the detail dialog's date display is out of scope.
- `QString::trimmed` white space is modelled as ASCII white space plus U+0085 and U+00A0. Other Unicode spaces are not included.
- Text order is compared by code point. This matches SQLite's BINARY collation on UTF-8.
- TodoModel.Todo.DaysUntilDue: does not model overflow of the `int` cast, which needs a deadline millions of years away.
- Widgets, painting, stylesheets, layouts, message boxes, shortcuts and `resizeEvent` positioning are not modelled. Only the values they carry are: row text, colour, strike-out, boldness, stored id and size.
- The `checkboxWasClicked` flag and the deferred `QTimer` refresh are left out. In the model the refresh that follows a checkbox click is a separate `RefreshTodoList` call.
- `isOpen` is `TodoDatabase.IsOpen`, which returns the `open` flag; it has no contract of its own.
- The getters of `Todo` are the datatype's fields.
- `src/gui/AddTodoDialog.h` and `src/gui/EditTodoDialog.h` are widget declarations and are not part of this model. The edit dialog's implementation is not part of this model either.
- The dialog's preselected priority entry ("Medium") is widget state; `OnSave` takes the chosen entry's index as a parameter.
- TodoModel.Default: both timestamps are one clock reading; the constructor reads the clock once for each (`src/core/models/Todo.cpp:6`), so across a second boundary they can differ by one.
- TodoModel.Create: as `Default`, one clock reading for both timestamps (`src/core/models/Todo.cpp:14`).
- TodoStore.ReadBack and TodoStore.ReadBackFields: one clock reading for the default record and for every setter the read-back loop calls; the program reads the clock in each of them.
- TodoListView.Metadata: one clock reading for `isOverdue` and `daysUntilDue`; the program reads the clock in each (`src/core/models/Todo.cpp:64` and `:72`).
- TodoListView.MainWindow.OnToggleButton: the program flips the record the detail dialog read when it opened; the model reads it again at the click, with the `read` engine.
