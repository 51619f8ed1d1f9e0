/**
 * The public API of the status-table widget: the shared `State` (the
 * current task list) and the `init` / `setTasks` entry points, acting on
 * the table body of the page.
 */
module Widget {
  import opened SeedRows
  import opened Table

  /** `State` together with the table body the API renders into. */
  class StatusTableWidget {
    /** State.tasks: the labels of the rows, as last parsed. */
    var tasks: seq<string>
    /** The `#stw-body` element of the page. */
    const body: TableBody

    /** The widget before `init`: no tasks, the page's body as it is. */
    constructor (body: TableBody)
      ensures this.body == body && tasks == []
    {
      this.body := body;
      tasks := [];
    }

    /**
     * init({ tasks }): parse the setting into State.tasks and rebuild the
     * table from scratch, one untouched row per task. A call without a
     * tasks setting passes `ArrayInput([])`.
     */
    method Init(input: SeedInput)
      modifies this, body
      ensures tasks == ParseSeedRows(input)
      ensures body.rows == Rendered(tasks)
      ensures |body.rows| == |tasks| && WellTagged(body.rows)
      ensures forall i :: 0 <= i < |tasks| ==> body.rows[i] == NewRow(i).(col1 := tasks[i])
    {
      tasks := ParseSeedRows(input);
      body.RenderStatusTable(tasks);
    }

    /**
     * setTasks(input): parse the setting into State.tasks and update the
     * existing table in place: one row per task, column 1 showing the
     * task, every row that survives keeping its controls and user input.
     */
    method SetTasks(input: SeedInput)
      modifies this, body
      ensures tasks == ParseSeedRows(input)
      ensures body.rows == Applied(old(body.rows), tasks)
      ensures |body.rows| == |tasks|
      ensures forall i :: 0 <= i < |tasks| ==> body.rows[i].col1 == tasks[i]
      ensures forall i :: 0 <= i < |tasks| && i < |old(body.rows)| ==> SameControls(body.rows[i], old(body.rows)[i])
      ensures WellTagged(old(body.rows)) ==> WellTagged(body.rows)
    {
      tasks := ParseSeedRows(input);
      body.ApplyTasksToExistingTable(tasks);
    }
  }

  /**
   * Writing the current task list back as a multi-line "tasks" setting and
   * calling setTasks with it leaves the table exactly as it is.
   */
  lemma SetTasksWithOwnLinesNoChange(rows: seq<Row>, text: string)
    ensures var tasks := ParseSeedRows(StringInput(text));
            Applied(Applied(rows, tasks), ParseSeedRows(StringInput(JoinLines(tasks))))
              == Applied(rows, tasks)
  {
    ParseTextRoundTrip(text);
    AppliedIdempotent(rows, ParseText(text));
  }
}
