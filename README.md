# OpenRoast recipe editor: the step table

A Dafny model of the step-table editor in OpenRoast's recipe editor window.
A roast recipe is a list of steps. A heating step has a target temperature,
a fan speed and a section time. A cooling step has a fan speed and a section
time. The window shows the steps in a table with one row per step. Each row
has a temperature combo box, a fan-speed combo box and an `mm:ss` time editor.

The model has three layers:

- `wrappers.dfy`: `Option` and `Result`.
- `step_widgets.dfy` (module `StepWidgets`): one row. A step is a
  `StepEntry` with optional `targetTemp` and `cooling` keys. A row is either
  `Blank` (inserted, widgets not yet set) or `Filled` with the state of its
  three widgets. `RenderRow` builds a row the way the load loop does:
  - the temperature combo gets the entries `"Cooling"`, a separator, then
    `"150"`…`"550"`;
  - a grid temperature is selected one past its index in the choices list;
  - an off-grid temperature gets its own entry right after its rounded-down
    grid value;
  - the time goes through `%M:%S` text, so only the time within the hour
    survives.
  `ReadRow` reads a row back the way `get_current_table_values` does.
  Where Python's `list.index` or `int()` would raise, the functions return an
  error value instead.
- `step_list.dfy` (module `StepList`): the list transformations behind the
  row buttons (move up, move down, delete, insert below) and the sum of
  section times.
- `recipe_editor.dfy` (module `RecipeEditorWindow`): the window as a class
  `RecipeEditor`. It holds the table rows, the recipe dictionary, the name
  field and the recipe built by the last save. Its methods are the loops of
  the source: loading steps, reading the table, clearing and rebuilding it,
  and summing the total time. Each row button reads the table, transforms the
  list and rebuilds the table. Each button method is proved against the
  `StepList` function it applies, on the steps the table shows (`Steps()`).

`Valid()` says every row is well-formed: a filled row whose combo boxes hold
values the renderer can produce and whose time is within the hour. Any
selection a user makes in the widgets keeps a row well-formed. A well-formed
table always reads back, and rendering a list of readable steps gives a
well-formed table that reads back as that same list.

Saving does not make the window remember its file: `save_recipe` only reads
`file` and never sets it, so only a recipe opened from a file has one.

## Model

| member | source | states |
|---|---|---|
| StepWidgets.IndexOf | openroast/views/recipeeditorwindow.py:201-212 | `list.index`: the result holds `x` and no earlier position does; it is `None` (Python raises) exactly when `x` is absent |
| StepWidgets.TargetTempChoices | openroast/views/recipeeditorwindow.py:187 | 42 choices: `"Cooling"` at 0, then the text of 140 + 10·i at index i |
| StepWidgets.FanSpeedChoices | openroast/views/recipeeditorwindow.py:186 | the nine choices listed one by one are fan speeds 1 to 9 in order: entry i is i + 1 |
| StepWidgets.GridIndex | openroast/views/recipeeditorwindow.py:203-204 | a grid temperature t is found at choice index t/10 − 14 |
| StepWidgets.OfferedIffOnGrid | openroast/views/recipeeditorwindow.py:201 | `str(t) in targetTempChoices` holds exactly for multiples of 10 from 150 to 550 |
| StepWidgets.ComboLayout | openroast/views/recipeeditorwindow.py:195-196 | after `addItems` and `insertSeparator(1)` the combo holds 43 entries: Cooling, the separator, then 150…550 |
| StepWidgets.InsertAtLayout | openroast/views/recipeeditorwindow.py:207 | `insertItem(k, x)` puts `x` at k and shifts the later entries by one |
| StepWidgets.CoolingSelected | openroast/views/recipeeditorwindow.py:198-212 | a step without `targetTemp` selects index 0, "Cooling" |
| StepWidgets.GridSelected | openroast/views/recipeeditorwindow.py:201-204 | a grid temperature is selected at choice index + 1, and that entry is its text |
| StepWidgets.OffGridSelected | openroast/views/recipeeditorwindow.py:205-208 | an off-grid temperature is inserted and selected directly after its rounded-down grid entry |
| StepWidgets.RenderTemperatureOk | openroast/views/recipeeditorwindow.py:198-212 | for a renderable step the selected entry is the step's temperature or Cooling, never the separator, and every entry is within 150..559 |
| StepWidgets.RenderTemperatureRefuses | openroast/views/recipeeditorwindow.py:205-208 | a temperature outside 150..559 is refused: `index` of its rounded value raises |
| StepWidgets.TwoDigitsRead | openroast/views/recipeeditorwindow.py:221-222 | each digit of a zero-padded field parses back to that digit |
| StepWidgets.ClockTextRoundTrip | openroast/views/recipeeditorwindow.py:221-222 | `mm:ss` text of a minute and a second parses back to that time |
| StepWidgets.MinSecTextRoundTrip | openroast/views/recipeeditorwindow.py:221-223 | the time editor holds minutes and seconds of s mod 3600, and `secsTo` gives back s mod 3600 |
| StepWidgets.RenderSucceedsIff | openroast/views/recipeeditorwindow.py:198-230 | rendering succeeds exactly when the temperature (if any) is in 150..559 and the fan speed in 1..9 |
| StepWidgets.FanSpeedIndex | openroast/views/recipeeditorwindow.py:229-230 | fan speed f is selected at index f − 1 |
| StepWidgets.RenderedRowWellFormed | openroast/views/recipeeditorwindow.py:190-230 | a rendered row is well-formed |
| StepWidgets.RenderThenRead | openroast/views/recipeeditorwindow.py:198-230 | render then read gives the same temperature (or cooling = true), the same fan speed and the time mod 3600 |
| StepWidgets.CanonicalRoundTrip | openroast/views/recipeeditorwindow.py:372-381 | a step with one kind and a time under an hour reads back unchanged |
| StepWidgets.WellFormedRowReads | openroast/views/recipeeditorwindow.py:372-381 | a well-formed row always reads back, as a step of one kind with a time under an hour and renderable values |
| StepWidgets.ReadRowHasOneKind | openroast/views/recipeeditorwindow.py:377-380 | every read-back step has exactly one of `targetTemp` and `cooling` |
| StepList.MovedUp | openroast/views/recipeeditorwindow.py:322-332 | row 0 is unchanged; otherwise steps row − 1 and row swap and all others stay |
| StepList.MovedDown | openroast/views/recipeeditorwindow.py:334-344 | the last row is unchanged; otherwise steps row and row + 1 swap and all others stay |
| StepList.Deleted | openroast/views/recipeeditorwindow.py:352 | one shorter; steps before `row` stay, steps after it move up by one |
| StepList.Inserted | openroast/views/recipeeditorwindow.py:363 | one longer; the default step at row + 1, the others in order around it |
| StepList.MoveUpPermutes | openroast/views/recipeeditorwindow.py:322-332 | moving up only reorders: same multiset of steps |
| StepList.MoveDownPermutes | openroast/views/recipeeditorwindow.py:334-344 | moving down only reorders: same multiset of steps |
| StepList.UpThenDownRestores | openroast/views/recipeeditorwindow.py:322-344 | up(i) then down(i − 1) restores the list |
| StepList.DownThenUpRestores | openroast/views/recipeeditorwindow.py:322-344 | down(i) then up(i + 1) restores the list |
| StepList.DeletedRemovesOne | openroast/views/recipeeditorwindow.py:346-355 | delete removes exactly one occurrence of the step at `row` |
| StepList.DeleteUndoesInsert | openroast/views/recipeeditorwindow.py:346-366 | deleting the inserted row gives back the original list |
| StepList.OperationsKeepTableSteps | openroast/views/recipeeditorwindow.py:322-366 | every row operation maps steps a table can show to steps a table can show |
| StepList.SumAppend | openroast/views/recipeeditorwindow.py:430-432 | the total of two lists joined is the sum of their totals |
| StepList.SumSplit | openroast/views/recipeeditorwindow.py:430-432 | the total is the prefix total plus the step's time plus the suffix total |
| StepList.MovesKeepTotalTime | openroast/views/recipeeditorwindow.py:322-344 | moving a step does not change the total time |
| StepList.DeleteTotalTime | openroast/views/recipeeditorwindow.py:346-355 | deleting a step takes its time off the total |
| StepList.InsertTotalTime | openroast/views/recipeeditorwindow.py:357-366 | inserting the default step (time 0) keeps the total |
| StepList.TotalTimeExample | openroast/views/recipeeditorwindow.py:430-432 | section times 30, 45 and 125 total 200 |
| RecipeEditorWindow.ReadTable | openroast/views/recipeeditorwindow.py:368-386 | the table reads back exactly when every row does, one step per row, step i being row i read back |
| RecipeEditorWindow.ReadStopsHere | openroast/views/recipeeditorwindow.py:372-383 | the first row that cannot be read decides the error |
| RecipeEditorWindow.AppendRendered | openroast/views/recipeeditorwindow.py:181-191 | the load as documented at lines 182-184, not as written (that is `LoadAsWritten`): loading succeeds exactly when every step renders; the old rows stay, and row \|rows\| + i is step i rendered; on failure the failing step's inserted row is left blank |
| RecipeEditorWindow.LoadAsWrittenStopsHere | openroast/views/recipeeditorwindow.py:190-212 | as written too, the first step that cannot be rendered stops the load with its error and a blank row below the rows so far |
| RecipeEditorWindow.LoadStopsHere | openroast/views/recipeeditorwindow.py:190-212 | the first step that cannot be rendered stops the load with its error and a blank row |
| RecipeEditorWindow.LoadAsWritten | openroast/views/recipeeditorwindow.py:190-191 | as written, a successful load adds one row per step |
| RecipeEditorWindow.LoadAgreesOnEmptyTable | openroast/views/recipeeditorwindow.py:190-191 | on an empty table the load as written and the documented append give the same table |
| RecipeEditorWindow.LoadAsWrittenOverwrites | openroast/views/recipeeditorwindow.py:190-191 | as written, step i's widgets land on table row i, and appended rows past the old rows and the steps stay blank |
| RecipeEditorWindow.LoadAsWrittenReplacesRow | openroast/views/recipeeditorwindow.py:190-191 | one existing row plus one step: as written the row is replaced and a blank row appended; the documented load keeps the row and appends the new one |
| RecipeEditorWindow.LoadAsWrittenLosesRow | openroast/views/recipeeditorwindow.py:181-191 | the same discrepancy with the editor's renderer and any renderable step |
| RecipeEditorWindow.LoadedTableReads | openroast/views/recipeeditorwindow.py:399-404 | steps whose rows read back as `expected` load into an empty table that is well-formed and reads back as `expected` |
| RecipeEditorWindow.RenderableStepsRead | openroast/views/recipeeditorwindow.py:198-230 | each renderable step renders to a well-formed row that reads back normalized |
| RecipeEditorWindow.RenderableTableReads | openroast/views/recipeeditorwindow.py:308-320 | renderable steps loaded into an empty table read back normalized |
| RecipeEditorWindow.TableStepsRead | openroast/views/recipeeditorwindow.py:198-230 | each table step renders to a well-formed row that reads back unchanged |
| RecipeEditorWindow.RebuildReadsBack | openroast/views/recipeeditorwindow.py:399-404 | rebuilding from table steps succeeds, gives a well-formed table, and reading it back yields exactly those steps |
| RecipeEditorWindow.WellFormedTableReads | openroast/views/recipeeditorwindow.py:368-386 | a well-formed table always reads back, as steps a table can show |
| RecipeEditorWindow.ReadTableHasOneKind | openroast/views/recipeeditorwindow.py:377-380 | every step read from the table has exactly one of the two keys |
| RecipeEditorWindow.RecipeEditor.Steps | openroast/views/recipeeditorwindow.py:368-386 | one step per row, each one a step the table can show |
| RecipeEditorWindow.RecipeEditor.New | openroast/views/recipeeditorwindow.py:29-37 | a new window: no name, no file, one default step in a well-formed table |
| RecipeEditorWindow.RecipeEditor.Open | openroast/views/recipeeditorwindow.py:32-34 | for a non-empty path, the recipe remembers its file, the name field holds its name, the table holds its steps rendered; when they all render the table is well-formed and reads back as the normalized steps |
| RecipeEditorWindow.RecipeEditor.LoadRecipeFile | openroast/views/recipeeditorwindow.py:298-306 | the parsed file becomes the recipe, with `file` set to its path |
| RecipeEditorWindow.RecipeEditor.PreloadRecipeInformation | openroast/views/recipeeditorwindow.py:308-320 | the name field gets the recipe's name and the recipe's steps are loaded as `load_recipe_steps` does it; on an empty table that is one rendered row per step, as `AppendRendered` specifies |
| RecipeEditorWindow.RecipeEditor.PreloadRecipeSteps | openroast/views/recipeeditorwindow.py:175-179 | the recipe's own steps are loaded as `load_recipe_steps` does it; on an empty table that is one rendered row per step |
| RecipeEditorWindow.RecipeEditor.PreloadIntoEmptyTable | openroast/views/recipeeditorwindow.py:36-37 | on the empty table of a new window the table then shows exactly the recipe's steps |
| RecipeEditorWindow.RecipeEditor.LoadRecipeSteps | openroast/views/recipeeditorwindow.py:181-296 | the loop inserts a blank row at the bottom and sets the step's widgets on row `row`, as `LoadAsWritten` defines; on an empty table the result is one rendered row per step, as `AppendRendered` specifies |
| RecipeEditorWindow.RecipeEditor.GetCurrentTableValues | openroast/views/recipeeditorwindow.py:368-386 | the loop's result is the table read row by row (`ReadTable`) |
| RecipeEditorWindow.RecipeEditor.RebuildRecipeStepsTable | openroast/views/recipeeditorwindow.py:388-404 | an empty list is refused and the table kept; otherwise the table becomes the new steps rendered into an emptied table |
| RecipeEditorWindow.RecipeEditor.RebuildFromTableSteps | openroast/views/recipeeditorwindow.py:399-404 | rebuilding from table steps leaves a well-formed table showing exactly those steps |
| RecipeEditorWindow.RecipeEditor.MoveRecipeStepUp | openroast/views/recipeeditorwindow.py:322-332 | the table shows `MovedUp` of the old steps and stays well-formed; row 0 leaves the rows untouched |
| RecipeEditorWindow.RecipeEditor.MoveRecipeStepDown | openroast/views/recipeeditorwindow.py:334-344 | the table shows `MovedDown` of the old steps and stays well-formed; the last row leaves the rows untouched |
| RecipeEditorWindow.RecipeEditor.DeleteRecipeStep | openroast/views/recipeeditorwindow.py:346-355 | refused exactly when the table has one step, leaving the rows untouched; otherwise the table shows `Deleted` of the old steps |
| RecipeEditorWindow.RecipeEditor.InsertRecipeStep | openroast/views/recipeeditorwindow.py:357-366 | the table shows `Inserted` of the old steps and stays well-formed |
| RecipeEditorWindow.RecipeEditor.SaveRecipe | openroast/views/recipeeditorwindow.py:406-432 | the path is the recipe's `file` if present, else the recipes directory + `format_filename(name)` + ".json"; the saved recipe holds the name, the table's steps and their total time |
| RecipeEditorWindow.TotalTime | openroast/views/recipeeditorwindow.py:430-432 | the loop's total is the sum of the section times |
| RecipeEditorWindow.UpThenDown | openroast/views/recipeeditorwindow.py:322-344 | on an editor, up(i) then down(i − 1) leaves the steps as they were |
| RecipeEditorWindow.DeleteOnlyStep | openroast/views/recipeeditorwindow.py:392-397 | the only step of a new recipe cannot be deleted |
| RecipeEditorWindow.InsertBelowOnlyStep | openroast/views/recipeeditorwindow.py:357-366 | inserting below a new recipe's step gives two default steps |

## Left out

- Qt widget construction, layout, styling, icons, focus attributes and the
  wiring of each row's buttons. A button press is a method call with its row
  number.
- The alert shown for an empty step list. The model returns `RejectedEmpty`
  (or `rejected`) and leaves the table unchanged.
- User edits inside the widgets (choosing another combo entry, editing the
  time). They are not operations of the model. `Valid()` is a property of
  each row's contents, so it covers any such edit.
- The text fields other than the recipe name (creator, roast type,
  description, bean region, country, link, reseller). They are copied into
  and out of widgets unchanged.
- Reading and writing files, `json.load` and `json.dumps`, and creating the
  recipes directory. `Open` and `LoadRecipeFile` take the parsed file as a
  `RecipeDocument`; `SaveRecipe` returns the path it would write to.
- `os.path.expanduser('~')` and `tools.format_filename`: `SaveRecipe` takes
  the home directory and the filename function as parameters. The source of
  `format_filename` is not part of this model.
- `close_edit_window` and the dialog's lifecycle.
- JSON values of the wrong type, and missing `steps`, `fanSpeed`,
  `sectionTime` or `roastName` keys (Python raises; without `steps` the
  window is never built). `RecipeDocument` always has a step list, and
  `StepEntry` always has an integer fan speed and section time.
- The row operations change a fresh Python list in place. That list is not
  shared with anything, so the model uses the values `MovedUp`, `MovedDown`,
  `Deleted` and `Inserted` instead.
- `time.gmtime` raising on section times too large for the platform.
- RecipeEditorWindow.RecipeEditor.MoveRecipeStepUp: requires a well-formed
  table. On a table with a blank row the source raises while reading the
  table back; that path is not modelled.
- RecipeEditorWindow.RecipeEditor.MoveRecipeStepDown: requires a well-formed
  table, as for moving up.
- RecipeEditorWindow.RecipeEditor.DeleteRecipeStep: requires a well-formed
  table, as for moving up.
- RecipeEditorWindow.RecipeEditor.InsertRecipeStep: requires a well-formed
  table, as for moving up.
- RecipeEditorWindow.RecipeEditor.SaveRecipe: requires a well-formed table,
  as for moving up.
- RecipeEditorWindow.RecipeEditor.Open: requires a non-empty path. An empty
  path takes the new-recipe branch of `__init__`, which `New` models.
- RecipeEditorWindow.RecipeEditor.Open states what the table reads
  back as only when every step renders. Otherwise the source raises in the
  middle of loading; the model leaves the failing step's row blank.
- RecipeEditorWindow.LoadAsWritten: its own contract states only the row
  count. Its behaviour is stated by `LoadAgreesOnEmptyTable`,
  `LoadAsWrittenOverwrites` and `LoadAsWrittenReplacesRow`.

## Findings

| source | as written | input that shows it | evidently intended | confidence | as-written member | corrected member |
|---|---|---|---|---|---|---|
| openroast/views/recipeeditorwindow.py:293-296 | each step's widgets are set on table row `row`, the step's index in the list, while line 191 inserts the new row at the bottom (`rowCount()`) | a table with one filled row, then loading the default step: the filled row is overwritten and the appended row stays blank | the docstring says the rows are added at the bottom, so the widgets belong on the inserted row | not executed; latent, since every caller in the file loads into an empty table, where both agree | RecipeEditorWindow.LoadAsWrittenLosesRow | RecipeEditorWindow.AppendRendered |
