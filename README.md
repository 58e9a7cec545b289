# Wildlife Animal Tracking System: the record store and its rules

This project models the core of the Wildlife Animal Tracking System (WATS). WATS is a Swing
desktop program that keeps wild-animal records in one SQLite table, `WildAnimals`. Each record
has seven columns: tag id, species, name, age, gender, weight and health status. The model covers
four parts of the program:

- **The entity** `WildAnimal` (module `Animal`). It is a class with seven fields. The constructor
  stores its arguments verbatim. There is one frame-restricted setter per field. `id` has none and is a `const`, set only by the constructor.
  `AnimalRow` is the value of one record.
- **The record store** `DatabaseManager` (module `Store`). The table is a `seq<AnimalRow>` field
  `rows`, in storage order. The five SQL statements (`SELECT *`, `SELECT ... WHERE id = ?`,
  `INSERT`, `UPDATE ... WHERE id = ?`, `DELETE ... WHERE id = ?`) get their meaning as functions
  over that sequence: `ListedRows`, `SelectById`, `rows + [row]`, `UpdateRows` and `DeleteRows`.
  Each `DatabaseManager` method is proved against those functions. A storage fault is an explicit
  parameter. A failing mutation returns `false` and leaves `rows` as it was. A listing that fails
  after `k` rows returns the first `k` rows.
- **The two keystroke filters** (modules `NumericDocumentFilter`, `DecimalDocumentFilter`, over the
  shared `TextDocument`). Each filter is a predicate on the inserted text that gates a splice of
  the document text. The digit filter requires `\d+`; the decimal filter requires `[0-9.]*`.
  `remove` is not overridden, so it is never filtered: it cuts the range when the range lies inside the document (`TextDocument.DefaultRemove`). An edit outside the document is an
  explicit `BadLocation` outcome that leaves the text unchanged. The proved invariant: a document
  made only of allowed characters keeps that property through any sequence of edits.
- **The main window's decision logic** (module `MainFrame`):
  - Java's `String.trim`.
  - The average-weight rule: blank or cancelled input issues no query. Otherwise a row matches when
    its species equals the trimmed input exactly. No match gives SQL NULL ("no animals found"),
    which is distinct from an average of 0. Any other result is the exact mean.
  - `refreshAnimalTable` copies the listed records into display rows in order.
  - The guard chain of `handleDeleteAnimal`.

I/O and user interaction are parameters of the model:
- `fault` / `deleteFault`: whether the SQL statement throws.
- `readFault`: the number of rows read before the listing throws.
- `selectedRow`: `JTable.getSelectedRow()`.
- `confirmed`: the answer to the confirmation dialog.
- `input`: the text typed into the species dialog; `None` is a cancelled dialog, i.e. `null`.

Facts about the code that the model keeps:
- The constructor of `WildAnimal` stores a negative age or weight unchanged (`WildAnimal.java:60-68`).
  No validation error is raised or modelled; see `Animal.SettersNeverChangeId`.
- A listing that fails mid-way returns the rows already read, not an empty list
  (`DatabaseManager.java:64`, `82-87`).
- The average-weight query is not a store operation. It lives in the main window
  (`WATSMainFrame.java:336-362`), and it is that window which trims the input.
- The store performs no non-empty check on species or name.

## Model

| member | source | states |
|---|---|---|
| `Animal.WildAnimal.constructor` | src/WATSSwingApp/WildAnimal.java:60-89 | every getter returns exactly the value passed for its field; nothing is trimmed or range-checked |
| `Animal.WildAnimal.SetSpecies` | src/WATSSwingApp/WildAnimal.java:96 | only `species` changes, the other six fields keep their values, setting the current value changes nothing |
| `Animal.WildAnimal.SetName` | src/WATSSwingApp/WildAnimal.java:103 | only `name` changes; idempotent on the current value |
| `Animal.WildAnimal.SetAge` | src/WATSSwingApp/WildAnimal.java:110 | only `age` changes; idempotent on the current value |
| `Animal.WildAnimal.SetGender` | src/WATSSwingApp/WildAnimal.java:117 | only `gender` changes; idempotent on the current value |
| `Animal.WildAnimal.SetWeight` | src/WATSSwingApp/WildAnimal.java:124 | only `weight` changes; idempotent on the current value |
| `Animal.WildAnimal.SetHealthStatus` | src/WATSSwingApp/WildAnimal.java:131 | only `healthStatus` changes; idempotent on the current value |
| `Animal.SettersNeverChangeId` | src/WATSSwingApp/WildAnimal.java:60-131 | after calls to all six setters the id is still the constructed one; age -1 and weight -1.0 are accepted |
| `Store.CountId` | src/WATSSwingApp/DatabaseManager.java:174-175 | the affected-row count is positive exactly when some row has the id |
| `Store.SelectById` | src/WATSSwingApp/DatabaseManager.java:96-122 | null exactly when no row has the id; otherwise the first row (in storage order) with that id |
| `Store.UpdateRows` | src/WATSSwingApp/DatabaseManager.java:161-172 | same length and ids; each matching row carries the six new columns, every other row is untouched |
| `Store.DeleteRows` | src/WATSSwingApp/DatabaseManager.java:190-197 | exactly the rows with other ids remain; the count of removed rows is the affected-row count |
| `Store.ListedRows` | src/WATSSwingApp/DatabaseManager.java:62-87 | all rows without a fault, none on a fault at connect, otherwise a prefix of the table |
| `Store.UniqueCountAtMostOne` | src/WATSSwingApp/DatabaseManager.java:161-197 | with the id as primary key a `WHERE id = ?` statement affects at most one row |
| `Store.SelectFindsTheOnlyMatch` | src/WATSSwingApp/DatabaseManager.java:96-116 | with unique ids, selecting a row's id returns that row |
| `Store.InsertThenSelect` | src/WATSSwingApp/DatabaseManager.java:131-146 | after inserting a record with a fresh id, selecting the id returns it field for field |
| `Store.InsertKeepsUnique` | src/WATSSwingApp/DatabaseManager.java:131-151 | an accepted insert keeps the ids unique |
| `Store.InsertKeepsOtherSelects` | src/WATSSwingApp/DatabaseManager.java:131-146 | an insert changes nothing that another id selects |
| `Store.UpdateWithoutMatchIsIdentity` | src/WATSSwingApp/DatabaseManager.java:174-175 | an update with no matching row leaves the table unchanged |
| `Store.UpdateThenSelect` | src/WATSSwingApp/DatabaseManager.java:161-175 | after an update of a present id, selecting it returns the record passed in |
| `Store.UpdateKeepsIds` | src/WATSSwingApp/DatabaseManager.java:161-172 | an update never changes an id: ids stay unique and other ids select what they did |
| `Store.DeleteWithoutMatchIsIdentity` | src/WATSSwingApp/DatabaseManager.java:196-197 | a delete with no matching row leaves the table unchanged |
| `Store.DeleteRemovesOneRow` | src/WATSSwingApp/DatabaseManager.java:190-197 | with unique ids, delete removes exactly the matching row and keeps the others in order |
| `Store.DeleteThenSelect` | src/WATSSwingApp/DatabaseManager.java:190-197 | after a delete, selecting the id returns null |
| `Store.DeleteKeepsUnique` | src/WATSSwingApp/DatabaseManager.java:190-197 | a delete keeps the ids unique |
| `Store.RemoveRowKeepsUnique` | src/WATSSwingApp/DatabaseManager.java:190-197 | removing one row of a table with unique ids keeps them unique |
| `Store.DatabaseManager.constructor` | src/WATSSwingApp/DatabaseManager.java:42-44 | the manager holds the path and the file's table, whose ids are unique |
| `Store.DatabaseManager.GetAllWildAnimalRecords` | src/WATSSwingApp/DatabaseManager.java:62-88 | one fresh, distinct `WildAnimal` per listed row, in storage order, fields column for column; table unchanged |
| `Store.DatabaseManager.GetWildAnimalById` | src/WATSSwingApp/DatabaseManager.java:96-123 | a fresh object equal to the first row with the id, null when none matches or on a fault; table unchanged |
| `Store.DatabaseManager.InsertWildAnimal` | src/WATSSwingApp/DatabaseManager.java:131-152 | true iff no fault and the id is new; then the row is appended and found by its id, else the table is unchanged |
| `Store.DatabaseManager.UpdateWildAnimal` | src/WATSSwingApp/DatabaseManager.java:160-181 | true iff no fault and some row matched; the table becomes `UpdateRows`, unchanged on false |
| `Store.DatabaseManager.DeleteWildAnimal` | src/WATSSwingApp/DatabaseManager.java:189-203 | true iff no fault and some row matched; the table becomes `DeleteRows`, unchanged on false; no row keeps the id |
| `TextDocument.Bypass` | src/WATSSwingApp/NumericDocumentFilter.java:43 | the delegated splice: applied inside the document, `BadLocation` outside it |
| `TextDocument.DefaultRemove` | src/WATSSwingApp/NumericDocumentFilter.java:28 | the `remove` both filters inherit is never filtered; it cuts the range when it lies inside the document |
| `TextDocument.ApplyAllPreserves` | src/WATSSwingApp/NumericDocumentFilter.java:40-63 | a property preserved by every single edit is preserved by every sequence of edits |
| `NumericDocumentFilter.InsertString` | src/WATSSwingApp/NumericDocumentFilter.java:40-45 | applied iff the text is non-null, one or more ASCII digits and the offset is inside; then the splice at the offset; otherwise unchanged |
| `NumericDocumentFilter.Replace` | src/WATSSwingApp/NumericDocumentFilter.java:58-63 | applied iff the text matches `\d+` and the range is inside; then the range is replaced by the text |
| `NumericDocumentFilter.FilterKeepsAllDigits` | src/WATSSwingApp/NumericDocumentFilter.java:40-63 | an all-digit document stays all digits after any one edit |
| `NumericDocumentFilter.EditsKeepAllDigits` | src/WATSSwingApp/NumericDocumentFilter.java:40-63 | an all-digit document stays all digits after any sequence of edits |
| `NumericDocumentFilter.EmptyReplacementDropped` | src/WATSSwingApp/NumericDocumentFilter.java:42-60 | the empty text is rejected by both insert and replace |
| `DecimalDocumentFilter.InsertString` | src/WATSSwingApp/DecimalDocumentFilter.java:42-45 | applied iff the text is non-null, only digits and dots, and the offset is inside; otherwise unchanged |
| `DecimalDocumentFilter.Replace` | src/WATSSwingApp/DecimalDocumentFilter.java:60-63 | applied iff the text matches `[0-9.]*` and the range is inside; then the range is replaced |
| `DecimalDocumentFilter.FilterKeepsDecimalChars` | src/WATSSwingApp/DecimalDocumentFilter.java:42-63 | a document of digits and dots stays one after any one edit |
| `DecimalDocumentFilter.EditsKeepDecimalChars` | src/WATSSwingApp/DecimalDocumentFilter.java:42-63 | a document of digits and dots stays one after any sequence of edits |
| `DecimalDocumentFilter.EmptyInsertAccepted` | src/WATSSwingApp/DecimalDocumentFilter.java:44 | the empty text is accepted and leaves the document as it was |
| `DecimalDocumentFilter.SeveralDotsReachable` | src/WATSSwingApp/DecimalDocumentFilter.java:44-45 | typing 1 . . 2 into an empty field yields "1..2": the number of dots is not limited |
| `MainFrame.TrimStartIndex` | src/WATSSwingApp/WATSMainFrame.java:339 | the forward scan of `trim`: stops at the first character that is not a blank; everything skipped is a blank |
| `MainFrame.TrimEndIndex` | src/WATSSwingApp/WATSMainFrame.java:339 | the backward scan of `trim`: stops after the last character that is not a blank; everything dropped is a blank |
| `MainFrame.Trim` | src/WATSSwingApp/WATSMainFrame.java:339-345 | the infix left after dropping blanks at both ends, neither end a blank |
| `MainFrame.TrimEmptyIffBlank` | src/WATSSwingApp/WATSMainFrame.java:339 | the trimmed input is empty exactly when every character is a blank |
| `MainFrame.TrimIdempotent` | src/WATSSwingApp/WATSMainFrame.java:345 | trimming the trimmed key changes nothing |
| `MainFrame.SpeciesKey` | src/WATSSwingApp/WATSMainFrame.java:339-345 | no query for null or all-blank input; otherwise the non-empty trimmed input |
| `MainFrame.CountSpecies` | src/WATSSwingApp/WATSMainFrame.java:340 | the number of rows `WHERE species = ?` selects: at most the table size, positive exactly when some row has the species |
| `MainFrame.MatchingWeights` | src/WATSSwingApp/WATSMainFrame.java:340 | one weight per row of the species: its length is that row count, so it is empty exactly when no row has the species |
| `MainFrame.MatchingWeightsAreTheSpeciesWeights` | src/WATSSwingApp/WATSMainFrame.java:340 | every matched weight is the weight of a row of that species, and every such row's weight is matched |
| `MainFrame.MatchingWeightsAppend` | src/WATSSwingApp/WATSMainFrame.java:340 | matching distributes over concatenation of tables, so the weights come in table order |
| `MainFrame.AverageWeight` | src/WATSSwingApp/WATSMainFrame.java:340-349 | NULL exactly when no row has the species; otherwise the mean times the number of rows of the species is the sum of their weights |
| `MainFrame.AverageWeightDialog` | src/WATSSwingApp/WATSMainFrame.java:336-362 | no query / query failed / no animals found / the average of the rows whose species equals the trimmed input |
| `MainFrame.SumBounds` | src/WATSSwingApp/WATSMainFrame.java:340 | weights in `[lo, hi]` give a sum in `[lo*n, hi*n]` |
| `MainFrame.MatchingWeightsWithin` | src/WATSSwingApp/WATSMainFrame.java:340 | when every row of the species weighs within `[lo, hi]`, so does every matched weight |
| `MainFrame.AverageWithinWeights` | src/WATSSwingApp/WATSMainFrame.java:340-353 | the average lies between the least and greatest weight of the species |
| `MainFrame.MeanBetween` | src/WATSSwingApp/WATSMainFrame.java:349 | dividing the sum bounds by the positive count bounds the mean |
| `MainFrame.PaddedInputIsTrimmed` | src/WATSSwingApp/WATSMainFrame.java:345 | "  Lion " is queried as "Lion" |
| `MainFrame.LionAverage` | src/WATSSwingApp/WATSMainFrame.java:340-353 | Lion:100 and Lion:150 average 125 |
| `MainFrame.LionExample` | src/WATSSwingApp/WATSMainFrame.java:336-356 | the dialog reports 125 for "  Lion " and no animals for "Zebra" over Lion:100, Lion:150, Tiger:200 |
| `MainFrame.NoDataIsNotZero` | src/WATSSwingApp/WATSMainFrame.java:348-354 | an empty match reports no data while a single 0 kg lion reports an average of 0 |
| `MainFrame.DeclaredHeadersSwapped` | src/WATSSwingApp/WATSMainFrame.java:142-144 | as declared, the "Name" header stands over the species and "Species" over the name |
| `MainFrame.ColumnNamesDescribeRows` | src/WATSSwingApp/WATSMainFrame.java:229-243 | with headers in row order every column is headed by the field it shows |
| `MainFrame.WATSMainFrame.constructor` | src/WATSSwingApp/WATSMainFrame.java:141-152 | an empty table model over a valid store, with the seven headers in row order (the corrected order, see "## Findings") |
| `MainFrame.WATSMainFrame.RefreshAnimalTable` | src/WATSSwingApp/WATSMainFrame.java:227-244 | one display row per listed record, in list order, cells (id, species, name, age, gender, weight, health status) |
| `MainFrame.WATSMainFrame.HandleDeleteAnimal` | src/WATSSwingApp/WATSMainFrame.java:287-321 | delete is issued only for a non-empty table, a selected row and a confirmation, with the Tag ID from column 0; on success the table is reloaded, otherwise nothing changes |

## Findings

| source | as written | input that shows it | evidently intended | confidence | as-written member | corrected member |
|---|---|---|---|---|---|---|
| src/WATSSwingApp/WATSMainFrame.java:142-144 | the headers are "Tag ID", "Name", "Species", ..., but rows are filled id, species, name, ... (lines 233-241) | a record with species "Lion" and name "Leo": the "Name" column shows "Lion" | headers in row order, "Tag ID", "Species", "Name", ..., as the doc comment at line 224 lists them | not executed; high | `MainFrame.DeclaredHeadersSwapped` | `MainFrame.ColumnNamesDescribeRows` |

The frame's `columnNames` uses the corrected `ColumnNames()`.

## Left out

- JDBC plumbing is not modelled: `connect`, `DriverManager`, closing resources and the causes of
  `SQLException`. A fault is a parameter. A fault while closing, after a successful
  `executeUpdate`, would change the table yet return `false`. The model lets a failing mutation
  change nothing.
- `Store.DatabaseManager.InsertWildAnimal`: the primary-key constraint on `id` is assumed, because
  the `CREATE TABLE` is not part of this model. `Valid()` (unique ids) is that assumption.
- `Store.DatabaseManager.InsertWildAnimal`: the new row goes at the end of the storage order. In a
  table keyed by an integer primary key, SQLite would list the rows in id order instead. No
  property of the model depends on where the row goes except `GetAllWildAnimalRecords`' order.
- Java's 32-bit `int` for id and age is modelled as unbounded `int`. No arithmetic is done on
  these values, so nothing can wrap around.
- Java's `double` weight is modelled as `real`. `AVG` is the exact mean. `%.2f` rendering in
  `toString` and in the dialog message is not modelled, and neither is `Double.parseDouble`.
- `WildAnimal.toString` is not modelled: it is display formatting only.
- `MainFrame.WATSMainFrame.constructor`: the frame's `columnNames` are the corrected `ColumnNames()`
  ("Tag ID", "Species", "Name", ...), not the order written at `WATSMainFrame.java:142-144`
  ("Tag ID", "Name", "Species", ...). The as-written list is `DeclaredColumnNames()`, and
  `DeclaredHeadersSwapped` shows what it gets wrong.
- Java `null` strings are not modelled. The text fields are Dafny `string`, which has no null.
  `WildAnimal.java:60-68` and `96-131` store and return a null `String` as given, and
  `rs.getString` yields `null` for an SQL NULL column. Neither case is modelled.
- In the text filters, Swing's own handling of its arguments is reduced to one rule: an edit
  whose range lies outside the document fails with `BadLocation` and changes nothing. `AbstractDocument` is not part of this model.
  Its early return for a replace of zero characters by the empty text is therefore not modelled.
  Nor is its treatment of a negative length.
- All Swing layout, menus, `JOptionPane` messages, `JTable` rendering, the context menu and
  `openEditAnimalDialog`. The last one has the same empty-table and selection guards as the delete
  action, without the confirmation step.
- `AddAnimalDialog` and `UpdateAnimalDialog`: these form widgets only trim, parse and call
  insert or update. They do not check that species or name are non-empty.
- `DatabaseFileChooser`, `WATSSwingApp.main` and `promptForDatabase`: choosing the file and
  replacing the store. The frame's store is fixed at construction.
- The null-pointer failure when no database has been chosen yet (`WATSMainFrame.java:213`, `229`):
  in the model the frame always has a store.
