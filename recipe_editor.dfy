/** The recipe editor window's state: the step table as a sequence of rows,
    the recipe dictionary it was loaded from, the recipe-name field and the
    recipe built by the last save. The row buttons read the whole table,
    transform the list of steps and rebuild the table from it. */
module RecipeEditorWindow {
  import opened Wrappers
  import opened StepWidgets
  import opened StepList

  /** The part of the recipe dictionary the editor uses: the roast name, the
      steps and the optional `file` key. */
  datatype RecipeDocument = RecipeDocument(roastName: string, steps: seq<StepEntry>, file: Option<string>)

  /** The dictionary `save_recipe` builds: the name, the harvested steps and
      their total time. */
  datatype SavedRecipe = SavedRecipe(roastName: string, steps: seq<StepEntry>, totalTime: int)

  /** How appending rendered rows ends: every step got its row, or a step
      could not be rendered and its inserted row was left without widgets. */
  datatype LoadResult = Loaded(rows: seq<Row>) | Stopped(rows: seq<Row>, error: RenderError)

  /** How a rebuild ends: the table was rebuilt, the empty list was refused
      (the "at least one step" alert), or a step could not be rendered. */
  datatype RebuildOutcome = Rebuilt | RejectedEmpty | RenderFailed(error: RenderError)

  /** The save directory under the user's home directory. */
  const RecipesDirectory := "/Documents/Openroast/Recipes/My Recipes/"

  /** All rows of a table are well-formed. */
  ghost predicate WellFormedTable(rows: seq<Row>) {
    forall i :: 0 <= i < |rows| ==> WellFormedRow(rows[i])
  }

  /** The steps of a table, read row by row; the first row that cannot be
      read stops the read with its error. */
  function ReadTable(rows: seq<Row>): (r: Result<seq<StepEntry>, ReadError>)
    ensures r.Ok? <==> forall i :: 0 <= i < |rows| ==> ReadRow(rows[i]).Ok?
    ensures r.Ok? ==>
              |r.value| == |rows| &&
              forall i :: 0 <= i < |rows| ==> ReadRow(rows[i]) == Ok(r.value[i])
  {
    if rows == [] then Ok([])
    else
      var last := |rows| - 1;
      match ReadTable(rows[..last])
      case Err(e) => Err(e)
      case Ok(prefix) =>
        match ReadRow(rows[last])
        case Err(e) => Err(e)
        case Ok(s) => Ok(prefix + [s])
  }

  /** Appends one rendered row per step, as `load_recipe_steps` is documented
      to do: a row is inserted at the bottom and its widgets are set on that
      new row. A step that cannot be rendered stops the load, leaving its
      inserted row without widgets. */
  function AppendRendered(render: StepEntry -> Result<Row, RenderError>, rows: seq<Row>, steps: seq<StepEntry>): (r: LoadResult)
    ensures r.Loaded? <==> forall i :: 0 <= i < |steps| ==> render(steps[i]).Ok?
    ensures r.Loaded? ==>
              |r.rows| == |rows| + |steps| && r.rows[..|rows|] == rows &&
              forall i :: 0 <= i < |steps| ==> render(steps[i]) == Ok(r.rows[|rows| + i])
    ensures r.Stopped? ==>
      var done := |r.rows| - |rows| - 1;
      0 <= done < |steps| && r.rows[..|rows|] == rows && r.rows[|r.rows| - 1] == Blank &&
      render(steps[done]) == Err(r.error) &&
      forall i :: 0 <= i < done ==> render(steps[i]) == Ok(r.rows[|rows| + i])
  {
    if steps == [] then Loaded(rows)
    else
      var last := |steps| - 1;
      match AppendRendered(render, rows, steps[..last])
      case Stopped(rs, e) => Stopped(rs, e)
      case Loaded(rs) =>
        var inserted := rs + [Blank];
        match render(steps[last])
        case Err(e) => Stopped(inserted, e)
        case Ok(row) => Loaded(inserted[|inserted| - 1 := row])
  }

  /** `load_recipe_steps` as written: a row is inserted at the bottom, but the
      widgets of step `row` are set on table row `row`, the step's index in
      the list, which is the new row only when the table started empty. */
  function LoadAsWritten(render: StepEntry -> Result<Row, RenderError>, rows: seq<Row>, steps: seq<StepEntry>): (r: LoadResult)
    ensures r.Loaded? ==> |r.rows| == |rows| + |steps|
  {
    if steps == [] then Loaded(rows)
    else
      var last := |steps| - 1;
      match LoadAsWritten(render, rows, steps[..last])
      case Stopped(rs, e) => Stopped(rs, e)
      case Loaded(rs) =>
        var inserted := rs + [Blank];
        match render(steps[last])
        case Err(e) => Stopped(inserted, e)
        case Ok(row) => Loaded(inserted[last := row])
  }

  // ---------------------------------------------------------------------------
  // Lemmas about loading and reading the table

  /** On an empty table, which is how every caller uses it, the load as
      written appends exactly like the documented load. */
  lemma {:induction false} LoadAgreesOnEmptyTable(render: StepEntry -> Result<Row, RenderError>, steps: seq<StepEntry>)
    ensures LoadAsWritten(render, [], steps) == AppendRendered(render, [], steps)
  {
    if steps != [] {
      LoadAgreesOnEmptyTable(render, steps[..|steps| - 1]);
    }
  }

  /** As written, loading into a table that already has rows writes the new
      widgets over the first rows and leaves the appended rows without
      widgets: rows below both the old rows and the written ones stay blank. */
  lemma {:induction false} LoadAsWrittenOverwrites(render: StepEntry -> Result<Row, RenderError>, rows: seq<Row>, steps: seq<StepEntry>)
    requires forall i :: 0 <= i < |steps| ==> render(steps[i]).Ok?
    ensures LoadAsWritten(render, rows, steps).Loaded?
    ensures var r := LoadAsWritten(render, rows, steps).rows;
      |r| == |rows| + |steps| &&
      (forall i :: 0 <= i < |steps| ==> r[i] == render(steps[i]).value) &&
      (forall i :: |steps| <= i < |rows| ==> r[i] == rows[i]) &&
      (forall i :: |rows| <= i < |r| && |steps| <= i ==> r[i] == Blank)
  {
    if steps != [] {
      var last := |steps| - 1;
      LoadAsWrittenOverwrites(render, rows, steps[..last]);
    }
  }

  /** Loading one step into a table of one row, with any renderer that
      accepts the step: the documented load keeps the existing row and appends
      the new one; as written, the existing row is replaced and a blank row is
      appended. */
  lemma LoadAsWrittenReplacesRow(render: StepEntry -> Result<Row, RenderError>, existing: Row, s: StepEntry)
    requires render(s).Ok?
    ensures LoadAsWritten(render, [existing], [s]) == Loaded([render(s).value, Blank])
    ensures AppendRendered(render, [existing], [s]) == Loaded([existing, render(s).value])
  {
    assert [s][..0] == [];
  }

  /** The discrepancy with the editor's renderer: one filled row, then any
      renderable step (the default step, say) loaded below it. As written the
      filled row is lost and the new row stays blank. */
  lemma LoadAsWrittenLosesRow(existing: Row, s: StepEntry)
    requires existing.Filled? && Renderable(s)
    ensures RenderRow(s).Ok?
    ensures LoadAsWritten(RenderRow, [existing], [s]) == Loaded([RenderRow(s).value, Blank])
    ensures AppendRendered(RenderRow, [existing], [s]) == Loaded([existing, RenderRow(s).value])
  {
    RenderSucceedsIff(s);
    LoadAsWrittenReplacesRow(RenderRow, existing, s);
  }

  /** `render` turns each step into a well-formed row that reads back as the
      matching entry of `expected`. */
  ghost predicate RendersAs(render: StepEntry -> Result<Row, RenderError>, steps: seq<StepEntry>,
                            expected: seq<StepEntry>)
  {
    |expected| == |steps| &&
    forall i :: 0 <= i < |steps| ==>
      render(steps[i]).Ok? && WellFormedRow(render(steps[i]).value) &&
      ReadRow(render(steps[i]).value) == Ok(expected[i])
  }

  /** Loading such steps into an empty table gives a well-formed table that
      reads back as `expected`. */
  lemma {:induction false} LoadedTableReads(render: StepEntry -> Result<Row, RenderError>, steps: seq<StepEntry>,
                                            expected: seq<StepEntry>)
    requires RendersAs(render, steps, expected)
    ensures AppendRendered(render, [], steps).Loaded?
    ensures var rows := AppendRendered(render, [], steps).rows;
      WellFormedTable(rows) && ReadTable(rows) == Ok(expected)
  {
    var rows := AppendRendered(render, [], steps).rows;
    assert |rows| == |steps|;
    forall i | 0 <= i < |rows| ensures WellFormedRow(rows[i]) && ReadRow(rows[i]) == Ok(expected[i]) {
      assert rows[0 + i] == rows[i];
      var rendered := render(steps[i]);
      assert rendered.Ok? && WellFormedRow(rendered.value) && ReadRow(rendered.value) == Ok(expected[i]);
      assert rows[i] == rendered.value;
    }
    var read := ReadTable(rows);
    assert read.Ok? && |read.value| == |expected|;
    assert forall i :: 0 <= i < |rows| ==> read.value[i] == expected[i];
    assert read.value == expected;
  }

  /** The steps as they read back once rendered. */
  function NormalizedSteps(steps: seq<StepEntry>): (r: seq<StepEntry>)
    ensures |r| == |steps| && forall i :: 0 <= i < |steps| ==> r[i] == Normalized(steps[i])
  {
    seq(|steps|, i requires 0 <= i < |steps| => Normalized(steps[i]))
  }

  /** Renderable steps render to rows that read back normalized. */
  lemma {:induction false} RenderableStepsRead(steps: seq<StepEntry>)
    requires forall i :: 0 <= i < |steps| ==> Renderable(steps[i])
    ensures RendersAs(RenderRow, steps, NormalizedSteps(steps))
  {
    var expected := NormalizedSteps(steps);
    forall i | 0 <= i < |steps|
      ensures RenderRow(steps[i]).Ok? && WellFormedRow(RenderRow(steps[i]).value) &&
              ReadRow(RenderRow(steps[i]).value) == Ok(expected[i])
    {
      RenderedRowWellFormed(steps[i]);
      RenderThenRead(steps[i]);
    }
  }

  /** Renderable steps loaded into an empty table give a well-formed table
      that reads back as the normalized steps. */
  lemma {:induction false} RenderableTableReads(steps: seq<StepEntry>)
    requires forall i :: 0 <= i < |steps| ==> Renderable(steps[i])
    ensures AppendRendered(RenderRow, [], steps).Loaded?
    ensures var rows := AppendRendered(RenderRow, [], steps).rows;
      WellFormedTable(rows) && ReadTable(rows) == Ok(NormalizedSteps(steps))
  {
    RenderableStepsRead(steps);
    LoadedTableReads(RenderRow, steps, NormalizedSteps(steps));
  }

  /** Table steps render to rows that read back exactly. */
  lemma {:induction false} TableStepsRead(steps: seq<StepEntry>)
    requires TableSteps(steps)
    ensures RendersAs(RenderRow, steps, steps)
  {
    forall i | 0 <= i < |steps|
      ensures RenderRow(steps[i]).Ok? && WellFormedRow(RenderRow(steps[i]).value) &&
              ReadRow(RenderRow(steps[i]).value) == Ok(steps[i])
    {
      RenderedRowWellFormed(steps[i]);
      CanonicalRoundTrip(steps[i]);
    }
  }

  /** Rendering a list of table steps into an empty table succeeds, gives
      well-formed rows, and reading them back yields exactly that list. */
  lemma {:induction false} RebuildReadsBack(steps: seq<StepEntry>)
    requires TableSteps(steps)
    ensures AppendRendered(RenderRow, [], steps).Loaded?
    ensures var rows := AppendRendered(RenderRow, [], steps).rows;
      WellFormedTable(rows) && ReadTable(rows) == Ok(steps)
  {
    TableStepsRead(steps);
    LoadedTableReads(RenderRow, steps, steps);
  }

  /** A table of well-formed rows always reads back, as table steps. */
  lemma {:induction false} WellFormedTableReads(rows: seq<Row>)
    requires WellFormedTable(rows)
    ensures ReadTable(rows).Ok? && TableSteps(ReadTable(rows).value)
  {
    forall i | 0 <= i < |rows| ensures ReadRow(rows[i]).Ok? {
      WellFormedRowReads(rows[i]);
    }
    var steps := ReadTable(rows).value;
    forall i | 0 <= i < |steps| ensures Canonical(steps[i]) && Renderable(steps[i]) {
      WellFormedRowReads(rows[i]);
    }
  }

  /** Every step read back from a table has exactly one of `targetTemp` and
      `cooling`. */
  lemma {:induction false} ReadTableHasOneKind(rows: seq<Row>)
    requires ReadTable(rows).Ok?
    ensures forall i :: 0 <= i < |rows| ==> HasOneKind(ReadTable(rows).value[i])
  {
    forall i | 0 <= i < |rows| ensures HasOneKind(ReadTable(rows).value[i]) {
      ReadRowHasOneKind(rows[i]);
    }
  }

  // ---------------------------------------------------------------------------
  // The editor window

  class RecipeEditor {
    /** The step table's rows, top to bottom. */
    var rows: seq<Row>
    /** The recipe dictionary as loaded (or the default one for a new recipe). */
    var recipe: RecipeDocument
    /** The text of the recipe-name field. */
    var recipeName: string
    /** The recipe built by the last save. */
    var newRecipe: Option<SavedRecipe>

    /** Every row of the table is well-formed. */
    ghost predicate Valid()
      reads this
    {
      WellFormedTable(rows)
    }

    /** The steps the table shows, as `get_current_table_values` reads them. */
    ghost function Steps(): (s: seq<StepEntry>)
      reads this
      requires Valid()
      ensures |s| == |rows| && TableSteps(s)
    {
      WellFormedTableReads(rows);
      ReadTable(rows).value
    }

    /** A new recipe: one default step. */
    constructor New()
      ensures Valid() && Steps() == [DefaultStep]
      ensures recipe == RecipeDocument("", [DefaultStep], None)
      ensures recipeName == "" && newRecipe == None
    {
      rows := [];
      recipe := RecipeDocument("", [DefaultStep], None);
      recipeName := "";
      newRecipe := None;
      new;
      PreloadIntoEmptyTable();
    }

    /** A recipe opened from a file whose parsed contents are `document`:
        the recipe remembers the file, the name field is filled in and the
        steps are rendered. When every step renders, the table is well-formed
        and reads back as the normalized steps. */
    constructor Open(location: string, document: RecipeDocument)
      requires location != ""
      ensures recipe == document.(file := Some(location))
      ensures recipeName == document.roastName && newRecipe == None
      ensures rows == AppendRendered(RenderRow, [], document.steps).rows
      ensures (forall i :: 0 <= i < |document.steps| ==> Renderable(document.steps[i])) ==>
                Valid() && ReadTable(rows) == Ok(NormalizedSteps(document.steps))
    {
      rows := [];
      recipe := document;  // replaced by load_recipe_file below
      recipeName := "";
      newRecipe := None;
      new;
      LoadRecipeFile(location, document);
      var _ := PreloadRecipeInformation();
      if forall i :: 0 <= i < |document.steps| ==> Renderable(document.steps[i]) {
        RenderableTableReads(document.steps);
      }
    }

    /** `load_recipe_file`: the parsed file becomes the recipe and its `file`
        key is set to the path it was read from. */
    method LoadRecipeFile(location: string, document: RecipeDocument)
      modifies this`recipe
      ensures recipe == document.(file := Some(location))
    {
      recipe := document.(file := Some(location));
    }

    /** `preload_recipe_information`: the name field gets the recipe's name
        and the recipe's steps are loaded into the table. */
    method PreloadRecipeInformation() returns (r: LoadResult)
      modifies this`rows, this`recipeName
      ensures recipeName == recipe.roastName
      ensures r == LoadAsWritten(RenderRow, old(rows), recipe.steps) && rows == r.rows
      ensures old(rows) == [] ==> r == AppendRendered(RenderRow, [], recipe.steps)
    {
      recipeName := recipe.roastName;
      r := PreloadRecipeSteps();
    }

    /** `preload_recipe_steps`: the recipe's own steps are loaded into the
        table. */
    method PreloadRecipeSteps() returns (r: LoadResult)
      modifies this`rows
      ensures r == LoadAsWritten(RenderRow, old(rows), recipe.steps) && rows == r.rows
      ensures old(rows) == [] ==> r == AppendRendered(RenderRow, [], recipe.steps)
    {
      r := LoadRecipeSteps(recipe.steps);
    }

    /** `preload_recipe_steps` on the empty table of a new window, with steps
        the table can show: the table then shows exactly those steps. */
    method PreloadIntoEmptyTable()
      requires rows == [] && TableSteps(recipe.steps)
      modifies this`rows
      ensures Valid() && Steps() == recipe.steps
    {
      var _ := PreloadRecipeSteps();
      RebuildReadsBack(recipe.steps);
    }

    /** `load_recipe_steps`: for each step a blank row is inserted at the
        bottom of the table and the step's widgets are set on the row whose
        number is the step's position in `steps`. On the empty table every
        caller passes, this appends one rendered row per step. */
    method LoadRecipeSteps(steps: seq<StepEntry>) returns (r: LoadResult)
      modifies this`rows
      ensures r == LoadAsWritten(RenderRow, old(rows), steps) && rows == r.rows
      ensures old(rows) == [] ==> r == AppendRendered(RenderRow, [], steps)
    {
      var before := rows;
      var row := 0;
      while row < |steps|
        invariant 0 <= row <= |steps|
        invariant LoadAsWritten(RenderRow, before, steps[..row]) == Loaded(rows)
      {
        assert steps[..row + 1][..row] == steps[..row];
        rows := rows + [Blank];
        match RenderRow(steps[row])
        case Err(e) =>
          r := Stopped(rows, e);
          assert steps[..row + 1][row] == steps[row];
          LoadAsWrittenStopsHere(RenderRow, before, steps, row);
          LoadAgreesOnEmptyTable(RenderRow, steps);
          return;
        case Ok(widgets) =>
          rows := rows[row := widgets];
        row := row + 1;
      }
      assert steps[..row] == steps;
      r := Loaded(rows);
      LoadAgreesOnEmptyTable(RenderRow, steps);
    }

    /** `get_current_table_values`: the steps read row by row. */
    method GetCurrentTableValues() returns (r: Result<seq<StepEntry>, ReadError>)
      ensures r == ReadTable(rows)
    {
      var steps := [];
      var row := 0;
      while row < |rows|
        invariant 0 <= row <= |rows|
        invariant ReadTable(rows[..row]) == Ok(steps)
      {
        assert rows[..row + 1][..row] == rows[..row];
        match ReadRow(rows[row])
        case Err(e) =>
          assert rows[..row + 1][row] == rows[row];
          ReadStopsHere(rows, row);
          return Err(e);
        case Ok(step) =>
          steps := steps + [step];
        row := row + 1;
      }
      assert rows[..row] == rows;
      r := Ok(steps);
    }

    /** `rebuild_recipe_steps_table`: an empty list is refused and the table
        left alone; otherwise every row is removed and the new steps are
        loaded into the emptied table. */
    method RebuildRecipeStepsTable(newSteps: seq<StepEntry>) returns (outcome: RebuildOutcome)
      modifies this`rows
      ensures |newSteps| < 1 ==> outcome == RejectedEmpty && rows == old(rows)
      ensures |newSteps| >= 1 ==>
        var loaded := AppendRendered(RenderRow, [], newSteps);
        rows == loaded.rows &&
        outcome == (if loaded.Loaded? then Rebuilt else RenderFailed(loaded.error))
    {
      if |newSteps| < 1 {
        outcome := RejectedEmpty;
      } else {
        while |rows| > 0
          decreases |rows|
        {
          rows := rows[1..];
        }
        var loaded := LoadRecipeSteps(newSteps);
        outcome := if loaded.Loaded? then Rebuilt else RenderFailed(loaded.error);
      }
    }

    /** Rebuilding from a list of table steps gives a well-formed table that
        reads back as that list. */
    method RebuildFromTableSteps(newSteps: seq<StepEntry>)
      requires TableSteps(newSteps) && |newSteps| >= 1
      modifies this`rows
      ensures Valid() && Steps() == newSteps
    {
      var outcome := RebuildRecipeStepsTable(newSteps);
      RebuildReadsBack(newSteps);
    }

    /** `move_recipe_step_up`: nothing happens on the first row; otherwise the
        step swaps places with the one above it. */
    method MoveRecipeStepUp(row: nat)
      requires Valid() && row < |rows|
      modifies this`rows
      ensures Valid() && Steps() == MovedUp(old(Steps()), row)
      ensures row == 0 ==> rows == old(rows)
    {
      if row != 0 {
        var steps := GetCurrentTableValues();
        WellFormedTableReads(rows);
        OperationsKeepTableSteps(steps.value, row);
        RebuildFromTableSteps(MovedUp(steps.value, row));
      }
    }

    /** `move_recipe_step_down`: nothing happens on the last row; otherwise the
        step swaps places with the one below it. */
    method MoveRecipeStepDown(row: nat)
      requires Valid() && row < |rows|
      modifies this`rows
      ensures Valid() && Steps() == MovedDown(old(Steps()), row)
      ensures row == |old(rows)| - 1 ==> rows == old(rows)
    {
      if row != |rows| - 1 {
        var steps := GetCurrentTableValues();
        WellFormedTableReads(rows);
        OperationsKeepTableSteps(steps.value, row);
        RebuildFromTableSteps(MovedDown(steps.value, row));
      }
    }

    /** `delete_recipe_step`: the step at `row` is removed, unless it is the
        only step, in which case the rebuild refuses the empty list and the
        table is left exactly as it was. */
    method DeleteRecipeStep(row: nat) returns (rejected: bool)
      requires Valid() && row < |rows|
      modifies this`rows
      ensures rejected <==> |old(rows)| == 1
      ensures rejected ==> rows == old(rows)
      ensures Valid() && Steps() == if rejected then old(Steps()) else Deleted(old(Steps()), row)
    {
      var steps := GetCurrentTableValues();
      WellFormedTableReads(rows);
      var newSteps := Deleted(steps.value, row);
      if |newSteps| < 1 {
        var outcome := RebuildRecipeStepsTable(newSteps);
        rejected := true;
      } else {
        OperationsKeepTableSteps(steps.value, row);
        RebuildFromTableSteps(newSteps);
        rejected := false;
      }
    }

    /** `insert_recipe_step`: a default step (temperature 150, fan speed 5,
        time 0) is inserted right below `row`. */
    method InsertRecipeStep(row: nat)
      requires Valid() && row < |rows|
      modifies this`rows
      ensures Valid() && Steps() == Inserted(old(Steps()), row)
    {
      var steps := GetCurrentTableValues();
      WellFormedTableReads(rows);
      OperationsKeepTableSteps(steps.value, row);
      RebuildFromTableSteps(Inserted(steps.value, row));
    }

    /** `save_recipe` without the file write: the target path is the recipe's
        `file` if it has one, otherwise the recipes directory under `home`
        joined with `formatFilename` of the name field and ".json"; the saved
        recipe holds the name, the table's steps and their total time. */
    method SaveRecipe(home: string, formatFilename: string -> string) returns (path: string)
      requires Valid()
      modifies this`newRecipe
      ensures recipe.file.Some? ==> path == recipe.file.value
      ensures recipe.file.None? ==> path == home + RecipesDirectory + formatFilename(recipeName) + ".json"
      ensures newRecipe == Some(SavedRecipe(recipeName, Steps(), SumSectionTimes(Steps())))
    {
      if recipe.file.Some? {
        path := recipe.file.value;
      } else {
        path := home + RecipesDirectory + formatFilename(recipeName) + ".json";
      }
      var steps := GetCurrentTableValues();
      WellFormedTableReads(rows);
      var total := TotalTime(steps.value);
      newRecipe := Some(SavedRecipe(recipeName, steps.value, total));
    }
  }

  /** The `totalTime` loop of `save_recipe`. */
  method TotalTime(steps: seq<StepEntry>) returns (total: int)
    ensures total == SumSectionTimes(steps)
  {
    total := 0;
    var i := 0;
    while i < |steps|
      invariant 0 <= i <= |steps|
      invariant total == SumSectionTimes(steps[..i])
    {
      assert steps[..i + 1][..i] == steps[..i];
      total := total + steps[i].sectionTime;
      i := i + 1;
    }
    assert steps[..i] == steps;
  }

  /** The load loop stopped at step `k`: the result is the one the
      specification gives for the whole list. */
  lemma {:induction false} LoadStopsHere(render: StepEntry -> Result<Row, RenderError>, rows: seq<Row>, steps: seq<StepEntry>, k: nat)
    requires k < |steps|
    requires AppendRendered(render, rows, steps[..k]).Loaded? && render(steps[k]).Err?
    ensures AppendRendered(render, rows, steps) ==
      Stopped(AppendRendered(render, rows, steps[..k]).rows + [Blank], render(steps[k]).error)
    decreases |steps| - k
  {
    if k + 1 < |steps| {
      assert steps[..|steps| - 1][..k] == steps[..k];
      assert steps[..|steps| - 1][k] == steps[k];
      LoadStopsHere(render, rows, steps[..|steps| - 1], k);
    } else {
      assert steps[..|steps| - 1] == steps[..k];
    }
  }

  /** The as-written load stopped at step `k`: the result is the one the
      definition gives for the whole list. */
  lemma {:induction false} LoadAsWrittenStopsHere(render: StepEntry -> Result<Row, RenderError>, rows: seq<Row>, steps: seq<StepEntry>, k: nat)
    requires k < |steps|
    requires LoadAsWritten(render, rows, steps[..k]).Loaded? && render(steps[k]).Err?
    ensures LoadAsWritten(render, rows, steps) ==
      Stopped(LoadAsWritten(render, rows, steps[..k]).rows + [Blank], render(steps[k]).error)
    decreases |steps| - k
  {
    if k + 1 < |steps| {
      assert steps[..|steps| - 1][..k] == steps[..k];
      assert steps[..|steps| - 1][k] == steps[k];
      LoadAsWrittenStopsHere(render, rows, steps[..|steps| - 1], k);
    } else {
      assert steps[..|steps| - 1] == steps[..k];
    }
  }

  /** The read loop stopped at row `k`: the result is the one the
      specification gives for the whole table. */
  lemma {:induction false} ReadStopsHere(rows: seq<Row>, k: nat)
    requires k < |rows|
    requires ReadTable(rows[..k]).Ok? && ReadRow(rows[k]).Err?
    ensures ReadTable(rows) == Err(ReadRow(rows[k]).error)
    decreases |rows| - k
  {
    if k + 1 < |rows| {
      assert rows[..|rows| - 1][..k] == rows[..k];
      assert rows[..|rows| - 1][k] == rows[k];
      ReadStopsHere(rows[..|rows| - 1], k);
    } else {
      assert rows[..|rows| - 1] == rows[..k];
    }
  }

  // ---------------------------------------------------------------------------
  // Clients of the editor's contracts

  /** Moving row i up and then row i - 1 down leaves the table's steps as
      they were. */
  method UpThenDown(editor: RecipeEditor, i: nat)
    requires editor.Valid() && 1 <= i < |editor.rows|
    modifies editor
    ensures editor.Valid() && editor.Steps() == old(editor.Steps())
  {
    editor.MoveRecipeStepUp(i);
    editor.MoveRecipeStepDown(i - 1);
    UpThenDownRestores(old(editor.Steps()), i);
  }

  /** The only step of a new recipe cannot be deleted. */
  method DeleteOnlyStep() returns (rejected: bool)
    ensures rejected
  {
    var editor := new RecipeEditor.New();
    rejected := editor.DeleteRecipeStep(0);
  }

  /** Inserting below the only step of a new recipe adds a second default
      step, and the table reads back as the two steps. */
  method InsertBelowOnlyStep(editor: RecipeEditor) returns (steps: seq<StepEntry>)
    requires editor.Valid() && editor.Steps() == [DefaultStep]
    modifies editor
    ensures steps == [DefaultStep, DefaultStep]
  {
    editor.InsertRecipeStep(0);
    assert editor.Steps() == Inserted([DefaultStep], 0);
    var read := editor.GetCurrentTableValues();
    steps := read.value;
    assert steps == editor.Steps();
  }
}
