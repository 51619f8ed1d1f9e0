/**
 * The body of the status table (the `#stw-body` element) as a list of row
 * records. Each row has exactly one column-1 cell (the task text), the
 * radio group and date picker built for some row index, and whatever the
 * user has entered into those controls.
 */
module Table {
  import opened SeedRows
  import opened Builders

  /** Which option of the row's radio group is checked, if any. */
  datatype Selection = Unselected | Checked(optionId: string)

  /** What the user has entered in a row: opaque to the widget, which never reads it. */
  datatype UserState = UserState(selection: Selection, dateValue: string)

  /** The state of freshly created controls: nothing checked, no date. */
  const Untouched := UserState(Unselected, "")

  /** One `<tr>`: column-1 text, status radios, date picker, user input. */
  datatype Row = Row(col1: string, radios: RadioGroup, picker: DatePicker, user: UserState)

  /** The `<tr>` the widget creates for row `i`: column 1 still empty. */
  function NewRow(i: nat): Row
  {
    Row("", BuildStatusRadios(i), BuildDatePicker(i), Untouched)
  }

  /**
   * A fresh row of index `i`: blank column 1, nothing entered, radio group
   * `status-i` and date picker `date-i`.
   */
  lemma NewRowShape(i: nat)
    ensures IsBlank(NewRow(i).col1) && NewRow(i).user == Untouched
    ensures SpellsIndex(NewRow(i).radios.name, "status-", i)
    ensures SpellsIndex(NewRow(i).picker.id, "date-", i)
  {
    StatusRadiosSpellsIndex(i);
    DatePickerSpellsIndex(i);
  }

  /** The controls of `row` were built for row index `i`. */
  predicate TaggedAt(row: Row, i: nat)
  {
    row.radios == BuildStatusRadios(i) && row.picker == BuildDatePicker(i)
  }

  /** Row `i` carries the controls of index `i`, for every row. */
  predicate WellTagged(rows: seq<Row>)
  {
    forall i :: 0 <= i < |rows| ==> TaggedAt(rows[i], i)
  }

  /** Rows that agree on everything but column 1. */
  predicate SameControls(a: Row, b: Row)
  {
    a.radios == b.radios && a.picker == b.picker && a.user == b.user
  }

  /** `tasks[i] || ''`: the task text for cell `i`, empty past the end of the list. */
  function TaskText(tasks: seq<string>, i: nat): string
  {
    if i < |tasks| then tasks[i] else ""
  }

  /** `!td.textContent.trim()` */
  predicate IsBlank(text: string)
  {
    Trim(text) == ""
  }

  // ----- ensureFirstColumnText -----

  /** ensureFirstColumnText on one cell: fill it with the task text only when blank. */
  function FillCell(row: Row, tasks: seq<string>, i: nat): Row
  {
    if IsBlank(row.col1) then row.(col1 := TaskText(tasks, i)) else row
  }

  /** ensureFirstColumnText on the whole body. */
  function FillBlankCells(rows: seq<Row>, tasks: seq<string>): (r: seq<Row>)
    ensures |r| == |rows|
    ensures forall i :: 0 <= i < |r| ==> SameControls(r[i], rows[i])
  {
    seq(|rows|, i requires 0 <= i < |rows| => FillCell(rows[i], tasks, i))
  }

  /**
   * ensureFirstColumnText keeps the row count and every column but the
   * first, leaves text that is not blank alone, and puts `tasks[i]` (or
   * '' past the end of the list) into every blank cell.
   */
  lemma FillBlankCellsEffect(rows: seq<Row>, tasks: seq<string>)
    ensures |FillBlankCells(rows, tasks)| == |rows|
    ensures forall i :: 0 <= i < |rows| ==> SameControls(FillBlankCells(rows, tasks)[i], rows[i])
    ensures forall i :: 0 <= i < |rows| && !IsBlank(rows[i].col1) ==>
              FillBlankCells(rows, tasks)[i].col1 == rows[i].col1
    ensures forall i :: 0 <= i < |rows| && IsBlank(rows[i].col1) ==>
              FillBlankCells(rows, tasks)[i].col1 == TaskText(tasks, i)
  {
  }

  /** Filling blank cells a second time changes nothing. */
  lemma FillBlankCellsIdempotent(rows: seq<Row>, tasks: seq<string>)
    ensures FillBlankCells(FillBlankCells(rows, tasks), tasks) == FillBlankCells(rows, tasks)
  {
    var once := FillBlankCells(rows, tasks);
    var twice := FillBlankCells(once, tasks);
    forall i | 0 <= i < |rows| ensures twice[i] == once[i] {
      if IsBlank(rows[i].col1) {
        assert once[i] == rows[i].(col1 := TaskText(tasks, i));
      }
    }
  }

  /** Filling blank cells keeps every row's tag. */
  lemma FillBlankCellsKeepsTags(rows: seq<Row>, tasks: seq<string>)
    requires WellTagged(rows)
    ensures WellTagged(FillBlankCells(rows, tasks))
  {
    var r := FillBlankCells(rows, tasks);
    forall i | 0 <= i < |r| ensures TaggedAt(r[i], i) {
      assert SameControls(r[i], rows[i]);
    }
  }

  // ----- renderStatusTable -----

  /** The rows renderStatusTable appends before filling column 1: row `i` built for index `i`. */
  function FreshRows(n: nat): seq<Row>
  {
    seq(n, i requires 0 <= i < n => NewRow(i))
  }

  /** The body after renderStatusTable(tasks): row `i` built for index `i`, showing `tasks[i]`. */
  function Rendered(tasks: seq<string>): (r: seq<Row>)
    ensures |r| == |tasks| && WellTagged(r)
  {
    seq(|tasks|, i requires 0 <= i < |tasks| => NewRow(i).(col1 := tasks[i]))
  }

  /**
   * renderStatusTable appends one fresh row per task, all with a blank
   * column 1, and then fills the blank cells: the outcome is `Rendered`.
   */
  lemma FillFreshRowsIsRendered(tasks: seq<string>)
    ensures FillBlankCells(FreshRows(|tasks|), tasks) == Rendered(tasks)
  {
    var filled := FillBlankCells(FreshRows(|tasks|), tasks);
    forall i | 0 <= i < |tasks| ensures filled[i] == Rendered(tasks)[i] {
      assert IsBlank(NewRow(i).col1);
    }
  }

  /**
   * renderStatusTable(tasks) yields exactly one untouched row per task,
   * row `i` showing `tasks[i]` with the controls of index `i`.
   */
  lemma RenderedShape(tasks: seq<string>)
    ensures |Rendered(tasks)| == |tasks|
    ensures WellTagged(Rendered(tasks))
    ensures forall i :: 0 <= i < |tasks| ==> Rendered(tasks)[i].col1 == tasks[i]
    ensures forall i :: 0 <= i < |tasks| ==> Rendered(tasks)[i].user == Untouched
  {
  }

  // ----- applyTasksToExistingTable -----

  /**
   * The rows after the resizing phase of applyTasksToExistingTable: the
   * first `n` rows of `rows`, followed by fresh rows up to `n`.
   */
  function Resized(rows: seq<Row>, n: nat): seq<Row>
  {
    seq(n, i requires 0 <= i < n => if i < |rows| then rows[i] else NewRow(i))
  }

  /** Column 1 of every row rewritten from `tasks`, the last phase of applyTasksToExistingTable. */
  function SetColumn1(rows: seq<Row>, tasks: seq<string>): seq<Row>
  {
    seq(|rows|, i requires 0 <= i < |rows| => rows[i].(col1 := TaskText(tasks, i)))
  }

  /** The body after applyTasksToExistingTable(tasks). */
  function Applied(rows: seq<Row>, tasks: seq<string>): (r: seq<Row>)
    ensures |r| == |tasks|
    ensures forall i :: 0 <= i < |r| ==> r[i].col1 == tasks[i]
  {
    SetColumn1(Resized(rows, |tasks|), tasks)
  }

  /**
   * applyTasksToExistingTable(tasks) leaves one row per task, row `i`
   * showing `tasks[i]`. The rows both lists share keep their controls and
   * user input; added rows are untouched and built for their own index.
   */
  lemma AppliedShape(rows: seq<Row>, tasks: seq<string>)
    ensures |Applied(rows, tasks)| == |tasks|
    ensures forall i :: 0 <= i < |tasks| ==> Applied(rows, tasks)[i].col1 == tasks[i]
    ensures forall i :: 0 <= i < |tasks| && i < |rows| ==> SameControls(Applied(rows, tasks)[i], rows[i])
    ensures forall i :: |rows| <= i < |tasks| ==> Applied(rows, tasks)[i] == NewRow(i).(col1 := tasks[i])
  {
  }

  /** Shrinking removes rows from the end: what survives is a prefix of the old body. */
  lemma AppliedShrinkIsPrefix(rows: seq<Row>, tasks: seq<string>)
    requires |tasks| <= |rows|
    ensures Applied(rows, tasks) == SetColumn1(rows[..|tasks|], tasks)
  {
  }

  /** applyTasksToExistingTable never re-tags a row, so "row i is tagged i" survives it. */
  lemma AppliedKeepsTags(rows: seq<Row>, tasks: seq<string>)
    requires WellTagged(rows)
    ensures WellTagged(Applied(rows, tasks))
  {
    var r := Applied(rows, tasks);
    forall i | 0 <= i < |r| ensures TaggedAt(r[i], i) {
      if i < |rows| {
        assert TaggedAt(rows[i], i);
      }
    }
  }

  /** Applying the same tasks twice is the same as applying them once. */
  lemma AppliedIdempotent(rows: seq<Row>, tasks: seq<string>)
    ensures Applied(Applied(rows, tasks), tasks) == Applied(rows, tasks)
  {
  }

  /**
   * On a body nobody has touched since it was rendered, updating in place
   * gives exactly what rendering from scratch would.
   */
  lemma AppliedAfterRendered(before: seq<string>, tasks: seq<string>)
    ensures Applied(Rendered(before), tasks) == Rendered(tasks)
  {
    var a := Applied(Rendered(before), tasks);
    forall i | 0 <= i < |tasks| ensures a[i] == Rendered(tasks)[i] {
      assert SameControls(Resized(Rendered(before), |tasks|)[i], NewRow(i));
    }
  }

  /**
   * After applyTasksToExistingTable no cell is left for
   * ensureFirstColumnText to fill: filling with the same tasks is a no-op.
   */
  lemma FillAfterAppliedNoChange(rows: seq<Row>, tasks: seq<string>)
    ensures FillBlankCells(Applied(rows, tasks), tasks) == Applied(rows, tasks)
  {
  }

  /** The element ids a row puts in the document: its radio options', then its date picker's. */
  function ElementIds(row: Row): (ids: seq<string>)
    ensures |ids| == |row.radios.options| + 1 && ids[|ids| - 1] == row.picker.id
  {
    seq(|row.radios.options|, k requires 0 <= k < |row.radios.options| => row.radios.options[k].id)
      + [row.picker.id]
  }

  /**
   * In a well-tagged body no two rows share a radio-group name or an
   * element id: the ids the rows put into the document are all distinct.
   */
  lemma WellTaggedIdsUnique(rows: seq<Row>)
    requires WellTagged(rows)
    ensures forall i, j :: 0 <= i < j < |rows| ==> rows[i].radios.name != rows[j].radios.name
    ensures forall i, j, x, y ::
              0 <= i < |rows| && 0 <= j < |rows| && 0 <= x < |ElementIds(rows[i])| &&
              0 <= y < |ElementIds(rows[j])| && (i, x) != (j, y) ==>
              ElementIds(rows[i])[x] != ElementIds(rows[j])[y]
  {
    forall i, j | 0 <= i < j < |rows| ensures rows[i].radios.name != rows[j].radios.name {
      DistinctRowsDistinctControls(i, j);
    }
    forall i | 0 <= i < |rows| ensures ElementIds(rows[i]) == RowElementIds(i) {
      assert TaggedAt(rows[i], i);
    }
    forall i, j, x, y |
      0 <= i < |rows| && 0 <= j < |rows| && 0 <= x < |ElementIds(rows[i])| &&
      0 <= y < |ElementIds(rows[j])| && (i, x) != (j, y)
      ensures ElementIds(rows[i])[x] != ElementIds(rows[j])[y]
    {
      if i == j {
        RowElementIdsDistinct(i);
      } else {
        DistinctRowsDistinctControls(i, j);
      }
    }
  }


  /** The `<tbody id="stw-body">` element and the operations the widget runs on it. */
  class TableBody {
    var rows: seq<Row>

    /** A body holding whatever rows the host page put there. */
    constructor (initial: seq<Row>)
      ensures rows == initial
    {
      rows := initial;
    }

    /** ensureFirstColumnText(tasks, tbody): fill every blank column-1 cell, row by row. */
    method EnsureFirstColumnText(tasks: seq<string>)
      modifies this
      ensures rows == FillBlankCells(old(rows), tasks)
      ensures |rows| == |old(rows)|
      ensures forall i :: 0 <= i < |rows| ==> SameControls(rows[i], old(rows)[i])
      ensures forall i :: 0 <= i < |rows| && !IsBlank(old(rows)[i].col1) ==> rows[i].col1 == old(rows)[i].col1
      ensures forall i :: 0 <= i < |rows| && IsBlank(old(rows)[i].col1) ==> rows[i].col1 == TaskText(tasks, i)
    {
      var i := 0;
      while i < |rows|
        invariant 0 <= i <= |rows| == |old(rows)|
        invariant forall k :: 0 <= k < i ==> rows[k] == FillCell(old(rows)[k], tasks, k)
        invariant forall k :: i <= k < |rows| ==> rows[k] == old(rows)[k]
      {
        if IsBlank(rows[i].col1) {
          rows := rows[i := rows[i].(col1 := TaskText(tasks, i))];
        }
        i := i + 1;
      }
      FillBlankCellsEffect(old(rows), tasks);
    }

    /**
     * renderStatusTable(tasks): empty the body, append one fresh row per
     * task, then fill column 1.
     */
    method RenderStatusTable(tasks: seq<string>)
      modifies this
      ensures rows == Rendered(tasks)
      ensures |rows| == |tasks| && WellTagged(rows)
      ensures forall i :: 0 <= i < |tasks| ==> rows[i] == NewRow(i).(col1 := tasks[i])
    {
      rows := [];
      var i := 0;
      while i < |tasks|
        invariant 0 <= i <= |tasks|
        invariant rows == FreshRows(i)
      {
        rows := rows + [NewRow(i)];
        i := i + 1;
      }
      EnsureFirstColumnText(tasks);
      FillFreshRowsIsRendered(tasks);
    }

    /**
     * applyTasksToExistingTable(tasks): append fresh rows or remove rows
     * from the end until there is one row per task, then rewrite column 1
     * of every row.
     */
    method ApplyTasksToExistingTable(tasks: seq<string>)
      modifies this
      ensures rows == Applied(old(rows), tasks)
      ensures |rows| == |tasks|
      ensures forall i :: 0 <= i < |tasks| ==> rows[i].col1 == tasks[i]
      ensures forall i :: 0 <= i < |tasks| && i < |old(rows)| ==> SameControls(rows[i], old(rows)[i])
      ensures forall i :: |old(rows)| <= i < |tasks| ==> rows[i] == NewRow(i).(col1 := tasks[i])
      ensures WellTagged(old(rows)) ==> WellTagged(rows)
    {
      var current := |rows|;
      var delta := |tasks| - current;

      if delta > 0 {
        var i := current;
        while i < |tasks|
          invariant current <= i <= |tasks|
          invariant rows == Resized(old(rows), i)
        {
          rows := rows + [NewRow(i)];
          i := i + 1;
        }
      }

      if delta < 0 {
        var i := 0;
        while i < -delta
          invariant 0 <= i <= -delta
          invariant rows == old(rows)[..current - i]
        {
          rows := rows[..|rows| - 1];
          i := i + 1;
        }
      }

      assert rows == Resized(old(rows), |tasks|);
      ghost var resized := rows;
      var j := 0;
      while j < |rows|
        invariant 0 <= j <= |rows| == |resized|
        invariant forall k :: 0 <= k < j ==> rows[k] == resized[k].(col1 := TaskText(tasks, k))
        invariant forall k :: j <= k < |rows| ==> rows[k] == resized[k]
      {
        rows := rows[j := rows[j].(col1 := TaskText(tasks, j))];
        j := j + 1;
      }
      assert rows == SetColumn1(resized, tasks);
      AppliedShape(old(rows), tasks);
      if WellTagged(old(rows)) {
        AppliedKeepsTags(old(rows), tasks);
      }
    }
  }
}
