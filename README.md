# Status table widget — Dafny model

A Dafny model of `widget.js`, the status-table widget. The widget renders a
three-column table inside a host page. Column 1 holds a task label. Column 2
holds a "Complete" / "Not Applicable" radio group. Column 3 holds a date
picker. The host supplies the labels through a "tasks" setting: either an
array or one multi-line string.

The model has four modules:

- `SeedRows` (`seed_rows.dfy`) covers `parseSeedRows`, written as pure functions.
  - An array setting is copied element by element.
  - A string setting is split on `/\r?\n/`. Each piece is trimmed with the
    ECMAScript whitespace set, and empty pieces are dropped.
  - Any other value gives no labels.
- `Builders` (`builders.dfy`) covers `buildStatusRadios` and `buildDatePicker`.
  They are record constructors that tag a row's controls with the row index.
  The tag is written as the decimal string of the index: `status-i`,
  `complete-i`, `na-i`, `date-i`.
- `Table` (`table.dfy`) models the `<tbody id="stw-body">` element as a class
  `TableBody`. Its field `rows` is a sequence of row records. Each record
  holds the column-1 text, the radio group, the date picker, and the user's
  input (checked option and date value). The three table operations are
  loop methods on `TableBody`:
  - `ensureFirstColumnText`
  - `renderStatusTable`
  - `applyTasksToExistingTable`

  Each method is proved equal to a specification function:
  `FillBlankCells`, `Rendered` and `Applied`. Lemmas state what those
  functions guarantee.
- `Widget` (`widget.dfy`) covers the shared `State` and the `init` /
  `setTasks` API, as the class `StatusTableWidget`.

The model keeps these invariants:
- After `init` or `setTasks`, the table has one row per task, and column 1 of
  row `i` shows task `i`.
- Row `i` carries the controls built for index `i`. In such a table, no two
  rows share a radio-group name or an element id.
- `setTasks` keeps the controls and the user's input of every row it does not
  remove.

In this file, `setTasks` keeps a row's answers by the row's position, not by
its label text. Row `i` keeps its checked option and date when the list
changes, even if its label changes. There is no snapshot of answers and no
matching by label: the code in `widget.js` has none, and the model follows
the code.

## Model

| member | source | states |
|---|---|---|
| `SeedRows.ParseSeedRows` | widget.js:5-12 | An array gives a list of the same length with element `i` equal to input `i`; a value that is neither array nor string gives `[]`; a string gives non-empty, trimmed labels with no line feed, at most one more than the number of line feeds |
| `SeedRows.ParseText` | widget.js:8-11 | Every label parsed from a string is non-empty, has no whitespace at either end, contains no `'\n'`, and there are at most (number of `'\n'`) + 1 of them |
| `SeedRows.TrimStart` | widget.js:10 | The result is a suffix of the input; everything cut off is whitespace; the result does not start with whitespace |
| `SeedRows.TrimEnd` | widget.js:10 | The result is a prefix of the input; everything cut off is whitespace; the result does not end with whitespace |
| `SeedRows.Trim` | widget.js:10 | `trim()` leaves no whitespace at either end and leaves an already trimmed string unchanged |
| `SeedRows.TrimKeepsChars` | widget.js:10 | `trim()` only removes characters: every character of the result is in the input |
| `SeedRows.TrimBlank` | widget.js:10 | `trim()` gives the empty string exactly when the input is all whitespace |
| `SeedRows.SplitLines` | widget.js:9 | `split(/\r?\n/)` gives exactly (number of `'\n'`) + 1 pieces, none containing `'\n'` |
| `SeedRows.JoinSplitLines` | widget.js:9 | Joining the pieces with `"\n"` restores the text, with each `"\r\n"` turned into `"\n"` |
| `SeedRows.SplitJoinLines` | widget.js:9 | Splitting the `"\n"`-join of lines that hold no `'\n'` and do not end in `'\r'` gives those lines back |
| `SeedRows.SplitSingleLine` | widget.js:9 | Text without a line feed splits into the one piece that is the text itself |
| `SeedRows.SplitLeadingLine` | widget.js:9 | A line, then `"\n"`, then the rest, splits into that line followed by the pieces of the rest |
| `SeedRows.SplitLeadingCRLF` | widget.js:9 | A line without `'\n'`, then `"\r\n"`, then the rest, splits into that line (without the `'\r'`) followed by the pieces of the rest |
| `SeedRows.TrimDropsFinalWs` | widget.js:10 | A whitespace character at the very end of a string never changes what `trim()` gives |
| `SeedRows.TrimEach` | widget.js:10 | `map(s => s.trim())` keeps the length and trims entry `k` into entry `k` |
| `SeedRows.TrimEachCons` | widget.js:10 | The map trims the first line, then maps the rest |
| `SeedRows.TrimmedLines` | widget.js:9-10 | Trimming pieces that hold no `'\n'` gives trimmed entries that hold no `'\n'` |
| `SeedRows.DropEmpty` | widget.js:11 | `filter(Boolean)` keeps only non-empty entries, each taken from the input, and never grows the list |
| `SeedRows.DropEmptyAppend` | widget.js:11 | The filter distributes over concatenation, so the order of the kept entries is the input order |
| `SeedRows.DropEmptyNoEmpty` | widget.js:11 | A list without empty entries passes the filter unchanged |
| `SeedRows.DropEmptyCount` | widget.js:11 | The filter removes exactly the empty entries: kept plus empty equals the input length |
| `SeedRows.ParsedLabelsAreLines` | widget.js:8-11 | Every label parsed from a string is a line: no `'\n'` and no final `'\r'` |
| `SeedRows.ParseTextRoundTrip` | widget.js:8-11 | Re-parsing the `"\n"`-join of a parse result gives the same list, so parsing is idempotent on its own output |
| `SeedRows.ParseSingleLine` | widget.js:8-11 | A text without line feeds parses to its trimmed self, or to nothing when it is blank |
| `SeedRows.ParseLeadingLine` | widget.js:8-11 | The labels of a line without `'\n'` (ending in `'\r'` or not, so lines ended by `"\n"` and by `"\r\n"` alike), then `"\n"`, then the rest, are the line's trimmed label (unless blank) followed by the rest's labels; with `ParseSingleLine` for the last line, labels are the non-blank lines, trimmed, in order |
| `Builders.NatToString` | widget.js:31-32 | The decimal form of a row index is non-empty, all digits, without a leading zero, and at least two digits from 10 on |
| `Builders.NatToStringValue` | widget.js:31-32 | The digits written for a row index spell exactly that index in decimal: `${i}` is the decimal form of `i` |
| `Builders.PrefixedIndex` | widget.js:41 | A prefix followed by the decimal form of `i` reads as that prefix, then digits without a leading zero whose value is `i` |
| `Builders.StatusRadiosSpellsIndex` | widget.js:26-50 | The radio group of row `i` is named `status-i` and has exactly two options, "Complete" with id `complete-i` and "Not Applicable" with id `na-i`, in that order |
| `Builders.DatePickerSpellsIndex` | widget.js:52-58 | The date picker of row `i` has id `date-i` |
| `Builders.NatToStringInjective` | widget.js:31-32 | Different row indexes have different decimal forms |
| `Builders.RowElementIdsDistinct` | widget.js:26-57 | The ids `complete-i`, `na-i` and `date-i` of one row are pairwise distinct |
| `Builders.DistinctRowsDistinctControls` | widget.js:26-57 | Controls built for different row indexes share no radio-group name and no element id |
| `Table.NewRowShape` | widget.js:68-84 | A freshly created row `i` has a blank column 1, no user input, radio group `status-i` and date picker `date-i` |
| `Table.FillBlankCells` | widget.js:14-21 | ensureFirstColumnText keeps the row count and changes nothing but column 1: every row keeps its controls and user input |
| `Table.FillBlankCellsEffect` | widget.js:14-21 | ensureFirstColumnText keeps the row count and all other columns; keeps every non-blank column-1 text; sets a blank cell `i` to `tasks[i]`, or `''` when `i` is past the end of `tasks` |
| `Table.FillBlankCellsIdempotent` | widget.js:14-21 | Applying ensureFirstColumnText twice equals applying it once |
| `Table.FillBlankCellsKeepsTags` | widget.js:14-21 | ensureFirstColumnText keeps "row `i` is tagged `i`" |
| `Table.Rendered` | widget.js:63-90 | After renderStatusTable(tasks) there is one row per task, and row `i` carries the controls built for index `i` |
| `Table.FillFreshRowsIsRendered` | widget.js:63-90 | Appending one fresh row per task and then running ensureFirstColumnText gives `Rendered(tasks)`: row `i` is the fresh row of index `i` with column 1 = `tasks[i]` |
| `Table.RenderedShape` | widget.js:63-90 | renderStatusTable(tasks) yields exactly one row per task, with untouched user input; row `i` has column 1 = `tasks[i]` and the radio group and date picker of index `i` |
| `Table.Applied` | widget.js:96-134 | After applyTasksToExistingTable(tasks) there is one row per task, and column 1 of row `i` shows `tasks[i]` |
| `Table.AppliedShape` | widget.js:96-134 | applyTasksToExistingTable leaves one row per task, with column 1 of row `i` = `tasks[i]`; rows below min(old, new) keep radios, date picker and user input; appended rows are fresh and tagged with their own index |
| `Table.AppliedShrinkIsPrefix` | widget.js:122-133 | When the list shrinks, the surviving rows are a prefix of the old rows with only column 1 rewritten |
| `Table.AppliedKeepsTags` | widget.js:102-127 | applyTasksToExistingTable re-tags nothing, so a table whose row `i` is tagged `i` stays so |
| `Table.AppliedIdempotent` | widget.js:96-134 | Applying the same tasks twice equals applying them once |
| `Table.AppliedAfterRendered` | widget.js:63-134 | On a freshly rendered table, updating in place gives the same rows as rendering the new tasks from scratch |
| `Table.FillAfterAppliedNoChange` | widget.js:14-21 | After applyTasksToExistingTable, ensureFirstColumnText with the same tasks changes nothing |
| `Table.WellTaggedIdsUnique` | widget.js:26-57 | In a table whose row `i` is tagged `i`, the radio-group names of different rows differ, and the element ids the rows carry (their radio options' ids and their date picker's id) are all distinct |
| `Table.TableBody.constructor` | widget.js:64 | The body starts with the rows the host page holds |
| `Table.TableBody.EnsureFirstColumnText` | widget.js:14-21 | The new rows equal `FillBlankCells(old rows, tasks)`: same count, same controls and input, non-blank text kept, blank cells filled from `tasks` |
| `Table.TableBody.RenderStatusTable` | widget.js:63-90 | The old rows are discarded; the new rows are `Rendered(tasks)`: one fresh row per task, row `i` tagged `i` with column 1 = `tasks[i]` |
| `Table.TableBody.ApplyTasksToExistingTable` | widget.js:96-134 | The new rows are `Applied(old rows, tasks)`: one row per task with column 1 = `tasks[i]`; kept rows keep their controls and input; added rows are fresh for their index; tagging is preserved |
| `Widget.StatusTableWidget.constructor` | widget.js:157-159 | State.tasks starts as the empty list |
| `Widget.StatusTableWidget.Init` | widget.js:165-169 | State.tasks becomes `parseSeedRows(input)`, and the table is rebuilt with exactly one fresh row per task, row `i` tagged `i` with column 1 = `tasks[i]` |
| `Widget.StatusTableWidget.SetTasks` | widget.js:175-178 | State.tasks becomes `parseSeedRows(input)`; the table then has exactly one row per entry of State.tasks, with column 1 of row `i` = `State.tasks[i]`; kept rows keep their controls and input; tagging is preserved |
| `Widget.SetTasksWithOwnLinesNoChange` | widget.js:5-12 | When the labels were parsed from a string setting, calling setTasks again with those labels written one per line leaves the table unchanged (for labels from an array setting this does not hold: `[" c"]` re-parses to `["c"]`) |

## Left out

- DOM construction is not modelled: element kinds, `className`, `type`, text nodes, `appendChild`, `querySelectorAll`, `getElementById`. A row is a record with exactly one column-1 cell. The case of a row without a `td.p-col1` cell is not modelled.
- `observeLateRows` and its `MutationObserver` (widget.js:139-152) are not modelled. They are asynchronous host-mutation callbacks, and their only effect is a call to `ensureFirstColumnText`, which is modelled. The observer keeps the list passed to `init`, so a later `setTasks` would not change which list it fills blank cells from. The model does not capture this.
- Registration on `window.StatusTableWidget` (widget.js:161) is left out. The API is the class `StatusTableWidget`.
- `init`'s destructuring default (`{ tasks = [] } = {}`) is not modelled. A missing setting is passed as `ArrayInput([])`.
- JavaScript's `String(x)` coercion of array elements is not modelled. Array input is taken as a list of strings, for which `String` is the identity. Sparse arrays are left out as well.
- `Trim`'s whitespace set is ECMAScript's WhiteSpace and LineTerminator code points, with the space separators as of Unicode 15. Later Unicode versions are not tracked.
- The browser rule that at most one radio of a group is checked is not modelled, because it is browser behaviour. The user's input is kept as an opaque record that the widget never reads or writes.
- JavaScript strings are sequences of UTF-16 code units and can hold lone surrogates; a Dafny `string` is a sequence of Unicode scalar values and cannot. Every line separator and whitespace character the parser looks at is in the Basic Multilingual Plane, so the split and the trim treat the other characters the same either way.
- `NatToString` does not model the exponent form (`1e+21`) that JavaScript's number-to-string conversion uses from 10^21 on; row indexes never come near that.
- The larger repository also has CSV ingestion, configuration coercion, column lookup and answer reconciliation. That code is not part of `widget.js` and is not part of this model.
