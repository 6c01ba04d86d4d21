# mousetracker kernel models in Dafny

This project models the discrete core of mousetracker. mousetracker is a Qt
application for following groups of mice over a skin-care experiment.

- **Import.** An experiment arrives as an Excel sheet with five rows per mouse.
  Each day has eleven columns under a two-level header.
  - `ExcelFilesModel.add_excel_file` normalises the sheet:
    - it fills the mouse ids and the weights down each five-row block;
    - it merges the paired readings `X`/`X.1` into their NaN-skipping mean;
    - it suffixes repeated mouse ids with their occurrence number;
    - it flattens the header into `J<d>-<measure>` names.
  - The resulting frame is stored with a fresh group registry.
- **Registry.** `GroupsModel` keeps the registry. Each group is an ordered
  `[name, members, selected]` triple, and the registry has a control index.
- **Averages.** `compute_averages` builds one frame per group from a property's
  daily columns:
  - the control gets a single `ABCDE` column;
  - every other selected group gets `ABCD`, `AB` and `CD` columns.
  - Rows are kept by group membership and by the zone (A to E) the row lies in
    on every day.
  - Values are averaged with a NaN-skipping mean.
- **Monitoring table.** `MouseMonitoringModel.data` answers the table's
  queries. It flags a mouse's row in red when its weight changes sharply
  between two consecutive days.
- **Groups widget.** It computes the pool of mice not yet placed in a group.

Modules, one per source file plus a shared one:

- `Tables` (`tables.dfy`) holds the shared vocabulary:
  - frame cells (`Empty` stands for NaN, and ints, reals and strings are kept apart);
  - column-major grids;
  - `Option` and `Result`;
  - decimal rendering and parsing of integers;
  - the NaN-skipping mean, which is exact on reals.
- `Averages` (`averages.dfy`) holds the specification of `compute_averages`:
  - row filters, the control's witness rows, per-day means and the shape of the result;
  - a worked example on a three-row frame.
- `Groups` (`groups_model.dfy`) models `groups_model.py`:
  - `extract_property_filter` as a specification function and a loop;
  - the registry as the class `GroupsModel`, which has a `seq<Group>` field and
    an `int` control field;
  - `compute_averages` as a method proved equal to the specification in `Averages`;
  - the removal algorithm of `remove_groups`, as written and as intended.
- `ExcelFiles` (`excel_files_model.dfy`) models `excel_files_model.py`:
  - each normalisation rule as a function with its lemmas;
  - the import loop as methods proved equal to those functions;
  - the registry of imported files as the class `ExcelFilesModel`.
- `MouseMonitoring` (`mouse_monitoring_model.dfy`) models the read-only query
  `data` as functions.
- `GroupsWidget` (`groups_widget.dfy`) models three parts of `groups_widget.py`:
  - the pool computation in `on_set_groups_model`;
  - the filtered samples of `on_load_groups`;
  - the guard of `on_create_new_group`.

Where the code and its description differ, the model follows the code:

- **The control's fold includes the control.** The loop at
  `groups_model.py:89-99` folds the zone-E rows of *every* selected group into
  the control's average, the control included. A selected control's own zone-E
  rows therefore count twice (`Averages.ControlRowsCountedTwice`).
- **Renamed mice are always distinct.** Mouse ids are integers after
  `astype(int)`, so the renaming at `excel_files_model.py:72` yields pairwise
  distinct names (`ExcelFiles.RenamedDistinct`). A clash such as a pre-existing
  `1_1` cannot arise from integer ids.
- **The "weight loss" rule flags a gain.** The rule commented as "weight loss"
  in `mouse_monitoring_model.py:48-49` fires, for a positive old weight,
  exactly on a gain of at least 10% (`MouseMonitoring.JumpMeansGain`).
- **The background query cannot find a mouse after import.** The query looks a
  mouse up by the number `1 + row // 5`. The import leaves the `Souris` column
  holding strings, so on such a frame the lookup matches no row and the query
  raises (`MouseMonitoring.BackgroundOnRenamedFrame`). The control filter of
  `compute_averages` (`groups_model.py:81`) compares the same column with
  integer ids, so on an imported frame it keeps no row either.

## Model

| member | source | states |
|---|---|---|
| Tables.FindKey | src/mousetracker/kernel/models/groups_model.py:15 | a column lookup by label returns the first column carrying the label, and None exactly when no column carries it |
| Tables.NanMeanSkipsMissing | src/mousetracker/kernel/models/groups_model.py:101 | `np.nanmean` ignores a missing value wherever it sits |
| Tables.NanMeanOfTwo | src/mousetracker/kernel/models/excel_files_model.py:61 | the NaN-skipping mean of two cells is their average when both are present, the present one when only one is, NaN when neither is, and a type error on text |
| Tables.NanMeanBounded | src/mousetracker/kernel/models/groups_model.py:101 | a NaN-skipping mean of present values that all lie in [lo, hi] also lies in [lo, hi] |
| Tables.NanMean | src/mousetracker/kernel/models/groups_model.py:101 | the NaN-skipping mean raises exactly when a string is among the values, and is NaN exactly when every value is missing |
| Tables.NanMeanExample | src/mousetracker/kernel/models/groups_model.py:101 | the NaN-skipping mean of 2, NaN and 4 is 3 |
| Tables.CastInt | src/mousetracker/kernel/models/excel_files_model.py:51 | one cell's `astype(int)`: an integer stays, a float is truncated toward zero (an integral float converts to itself), a string is parsed as `int()` parses it, a NaN raises |
| Tables.ParseRendered | src/mousetracker/kernel/models/excel_files_model.py:51 | parsing a string undoes decimal rendering: `int(str(i)) == i` |
| Tables.ParsePadded | src/mousetracker/kernel/models/excel_files_model.py:51 | blanks around a rendered integer, ASCII or Unicode such as a non-breaking space, are stripped before parsing, so `int(' 5\xa0') == 5` |
| Tables.IsInIntsMeansEqualsSome | src/mousetracker/kernel/models/groups_model.py:81 | `isin` on a list of ids holds exactly when the cell equals one of them |
| Groups.PropertyFilterExists | src/mousetracker/kernel/models/groups_model.py:13-20 | the filter can be built exactly when the mouse column and the zone column of every requested day exist |
| Groups.PropertyFilterRow | src/mousetracker/kernel/models/groups_model.py:13-20 | a row passes exactly when its mouse is one of the requested mice and its zone is in the requested zones on every requested day |
| Groups.ExtractPropertyFilter | src/mousetracker/kernel/models/groups_model.py:13-20 | the `fylter &=` loop over the days computes that filter, or reports the missing column |
| Groups.GroupsModel.constructor | src/mousetracker/kernel/models/groups_model.py:29-37 | a new registry holds its frame, no groups, and control index -1 |
| Groups.Added | src/mousetracker/kernel/models/groups_model.py:46-54 | adding a present name changes nothing; adding an absent one appends exactly `(name, [], selected)` at the end and keeps the earlier groups |
| Groups.AddedKeepsNamesDistinct | src/mousetracker/kernel/models/groups_model.py:46-54 | adding a group keeps the group names pairwise distinct |
| Groups.GroupsModel.AddGroup | src/mousetracker/kernel/models/groups_model.py:46-54 | the registry becomes `Added(old groups, name)`; the control index is untouched |
| Groups.GroupsModel.Clear | src/mousetracker/kernel/models/groups_model.py:56-60 | `clear` empties the groups and leaves the control index as it was |
| Groups.GroupsModel.Reset | src/mousetracker/kernel/models/groups_model.py:269-270 | `reset` empties the groups and leaves the control index as it was |
| Groups.GroupsModel.SetControl | src/mousetracker/kernel/models/groups_model.py:192-195 | an index in range becomes the control; any other index is ignored; the groups are untouched |
| Groups.GroupsModel.IsSelected | src/mousetracker/kernel/models/groups_model.py:216-219 | false out of range, the stored flag in range |
| Groups.GroupsModel.SetData | src/mousetracker/kernel/models/groups_model.py:285-294 | an invalid index gives an empty variant and any other role gives false, both changing nothing; with CheckStateRole on an existing row, only that row's flag changes, to `value == Checked`, and its name and members stay; a row past the end raises and changes nothing |
| Groups.LoadedGroups | src/mousetracker/kernel/models/groups_model.py:228-239 | each loaded group is named after its column and selected, and its members are exactly that column's non-missing values |
| Groups.GroupsModel.LoadGroups | src/mousetracker/kernel/models/groups_model.py:228-239 | the loop over the columns replaces the registry by `Loaded(sheet)` and leaves the control index as it was |
| Groups.IdsOfMembership | src/mousetracker/kernel/models/groups_model.py:231-235 | `dropna` keeps exactly the ids of the non-missing cells |
| Groups.GroupsModel.RemoveGroups | src/mousetracker/kernel/models/groups_model.py:248-263 | the method does what `remove_groups` does: it looks up each name's first position, skipping absent names, then deletes those positions in reversed order, reporting whether an IndexError stopped it; the control index is never adjusted |
| Groups.RemoveInOrder | src/mousetracker/kernel/models/groups_model.py:248-263 | with distinct names, and requested names present in registry order, exactly the named groups are removed and the rest keep their order |
| Groups.RemoveAbsent | src/mousetracker/kernel/models/groups_model.py:252-256 | absent names are ignored wherever they come in the request: the outcome is that of the present names alone, and a request with no present name changes nothing |
| Groups.RemoveOutOfOrder | src/mousetracker/kernel/models/groups_model.py:258-262 | asking to remove `b`, `a` from `[a, b, c]` leaves `[b]` where `[c]` was meant |
| Groups.RemoveTwice | src/mousetracker/kernel/models/groups_model.py:254-262 | asking to remove `b` twice from `[a, b]` deletes `b` and then fails on a too-short list |
| Groups.FilterOutMembership | src/mousetracker/kernel/models/groups_model.py:248-263 | the intended removal keeps exactly the groups whose name was not requested |
| Groups.FilterOutKeepsNamesDistinct | src/mousetracker/kernel/models/groups_model.py:248-263 | removal keeps the group names pairwise distinct |
| Groups.GroupsModel.RemoveNamed | src/mousetracker/kernel/models/groups_model.py:248-263 | the corrected removal removes exactly the named groups in any request order, keeps the others in order, and leaves the control index as it was |
| Groups.TargetColumns | src/mousetracker/kernel/models/groups_model.py:117-125 | the loop over the target zones computes one averaged column per zone subset, or fails on non-numeric values |
| Groups.FoldedRows | src/mousetracker/kernel/models/groups_model.py:89-99 | the concat loop collects, group by group, the zone-E rows of every selected group |
| Groups.TargetEntries | src/mousetracker/kernel/models/groups_model.py:108-127 | the loop over the groups adds one entry per selected non-control group, in registry order |
| Groups.GroupsModel.ComputeAverages | src/mousetracker/kernel/models/groups_model.py:62-129 | the method computes `AveragesOf(frame, groups, control, prop)` |
| Averages.Resolve | src/mousetracker/kernel/models/groups_model.py:76-86 | the mouse, zone and property columns of every day are found exactly when they all exist; otherwise the lookup fails with a missing column |
| Averages.ZoneFilter | src/mousetracker/kernel/models/groups_model.py:81-84 | the filter loop keeps exactly the rows of the members whose zone lies in the subset on every day |
| Averages.KeepsMonotone | src/mousetracker/kernel/models/groups_model.py:84-97 | a row kept for a zone subset is kept for any larger subset, so zone-E rows also pass the ABCDE filter |
| Averages.RowsMembership | src/mousetracker/kernel/models/groups_model.py:86 | boolean indexing selects exactly the rows whose flag is set |
| Averages.RowsCount | src/mousetracker/kernel/models/groups_model.py:86 | boolean indexing selects each row at most once |
| Averages.Means | src/mousetracker/kernel/models/groups_model.py:101 | the per-day mean fails exactly when some day's selected values hold text, and otherwise gives one mean per day |
| Averages.FoldedCount | src/mousetracker/kernel/models/groups_model.py:89-99 | a row occurs in the fold once per selected group that keeps it in zone E |
| Averages.WitnessMembership | src/mousetracker/kernel/models/groups_model.py:81-99 | a row enters the control's average exactly when it is a control row in zones A to E on every day, or when some selected group, the control included, keeps it in zone E on every day |
| Averages.ControlRowsCountedTwice | src/mousetracker/kernel/models/groups_model.py:89-99 | a selected control's own zone-E rows are averaged twice |
| Averages.ZoneColumnsMeaning | src/mousetracker/kernel/models/groups_model.py:117-125 | a target group's columns succeed exactly when each subset's means do; the z-th column is named after its subset and holds that subset's means |
| Averages.TargetIndices | src/mousetracker/kernel/models/groups_model.py:108-114 | the groups given an entry are exactly the selected non-control ones, in increasing order |
| Averages.AveragesOf | src/mousetracker/kernel/models/groups_model.py:68-70 | the result is None, here InvalidControl, exactly when the control index is out of range |
| Averages.TargetsShape | src/mousetracker/kernel/models/groups_model.py:108-127 | after the control's entry, the target loop adds exactly one entry per selected non-control group, in registry order |
| Averages.AveragesShape | src/mousetracker/kernel/models/groups_model.py:62-129 | on success the keys are the control's name followed by the selected non-control groups' names; the control's entry is the single column `ABCDE` of means over the witness rows, and each target entry holds `ABCD`, `AB` and `CD` over its own rows |
| Averages.ExampleAverages | src/mousetracker/kernel/models/groups_model.py:62-129 | on a three-row, one-day frame, the control averages to 20 and a treated group outside zones A to D gets NaN in all three columns |
| ExcelFiles.NDaysIn | src/mousetracker/kernel/models/excel_files_model.py:53 | the days are the most whole eleven-column blocks that fit after the mouse column, none without columns |
| ExcelFiles.FillDownBlocks | src/mousetracker/kernel/models/excel_files_model.py:49-50 | after the fill, all five rows of a block hold the block's first value |
| ExcelFiles.FillDownIdempotent | src/mousetracker/kernel/models/excel_files_model.py:49-50 | filling twice is filling once |
| ExcelFiles.FillColumn | src/mousetracker/kernel/models/excel_files_model.py:49-50 | the loop over the blocks computes the fill-down of the column |
| ExcelFiles.AsInts | src/mousetracker/kernel/models/excel_files_model.py:51 | `astype(int)` succeeds exactly when every cell converts (integers, floats truncated, strings spelling an integer parsed), and only a NaN or a string can make it fail |
| ExcelFiles.MergedCells | src/mousetracker/kernel/models/excel_files_model.py:61-68 | the merge succeeds exactly when both columns are numeric, giving one value per row |
| ExcelFiles.MergedMeaning | src/mousetracker/kernel/models/excel_files_model.py:61-68 | each merged cell is the mean of both readings, the one present reading, or NaN |
| ExcelFiles.WithoutKeepsFirst | src/mousetracker/kernel/models/excel_files_model.py:62 | dropping `X.1` keeps a column with another label at the front |
| ExcelFiles.ProcessDay | src/mousetracker/kernel/models/excel_files_model.py:56-68 | one day's weight fill and four merges, stopping at the first missing column |
| ExcelFiles.ProcessDays | src/mousetracker/kernel/models/excel_files_model.py:55-68 | the loop over the days applies them in day order |
| ExcelFiles.Renamed | src/mousetracker/kernel/models/excel_files_model.py:72 | one name per block head; its forms are stated by `RenamedForms` and their distinctness by `RenamedDistinct` |
| ExcelFiles.RenamedDistinct | src/mousetracker/kernel/models/excel_files_model.py:72 | the renamed mouse names are pairwise distinct |
| ExcelFiles.RenamedForms | src/mousetracker/kernel/models/excel_files_model.py:72 | an id met once keeps its decimal form; the k-th occurrence of a repeated id, counting from 1 in row order, becomes `id_k`, with k at most the id's count |
| ExcelFiles.NamedCellsBlocks | src/mousetracker/kernel/models/excel_files_model.py:73-74 | every row of block i carries name i |
| ExcelFiles.AssignNames | src/mousetracker/kernel/models/excel_files_model.py:73-74 | the assignment loop writes each block's name over its five rows |
| ExcelFiles.Flattened | src/mousetracker/kernel/models/excel_files_model.py:76-79 | flattening succeeds exactly when there is a column; column 0 becomes `Souris` and every other column is labelled with its two header levels joined by `-`, each keeping its cells |
| ExcelFiles.JoinedInjective | src/mousetracker/kernel/models/excel_files_model.py:77 | joining the two header levels with `-` loses no label when the first level has no `-` |
| ExcelFiles.ZoneLabelFlattens | src/mousetracker/kernel/models/excel_files_model.py:77 | the flattened zone label of day d is the `J<d>-Zone` that the averages look up |
| ExcelFiles.Normalize | src/mousetracker/kernel/models/excel_files_model.py:44-81 | the whole import computes `Normalized(sheet)`, or the first error it meets |
| ExcelFiles.ExcelFilesModel.AddExcelFile | src/mousetracker/kernel/models/excel_files_model.py:38-85 | a stored file name changes nothing; a failed read or import changes nothing; on success exactly one entry, holding the file, its frame and an empty registry, is appended at the end |
| ExcelFiles.ExcelFilesModel.Clear | src/mousetracker/kernel/models/excel_files_model.py:93 | `clear` empties the list |
| MouseMonitoring.MouseOfRowBlocks | src/mousetracker/kernel/models/mouse_monitoring_model.py:38 | row r belongs to mouse i + 1 exactly when r lies in block i |
| MouseMonitoring.WeightColumns | src/mousetracker/kernel/models/mouse_monitoring_model.py:40-41 | there is one weight column per day, at positions 1, 8, 15, … below `7 * n_days` |
| MouseMonitoring.FirstRowOf | src/mousetracker/kernel/models/mouse_monitoring_model.py:39-43 | the mouse's first row is the first whose `Souris` cell equals the mouse number, and None when none does |
| MouseMonitoring.Jump | src/mousetracker/kernel/models/mouse_monitoring_model.py:47-49 | a missing weight never fires the rule; from a zero old weight it fires exactly on a positive new weight |
| MouseMonitoring.JumpMeansGain | src/mousetracker/kernel/models/mouse_monitoring_model.py:47-49 | for a positive old weight the rule fires exactly on `new >= 1.1 * old`, for a negative one exactly on `new <= 1.1 * old` |
| MouseMonitoring.LossNeverFlagged | src/mousetracker/kernel/models/mouse_monitoring_model.py:47-49 | a loss from a positive weight never fires the rule |
| MouseMonitoring.ScanWeights | src/mousetracker/kernel/models/mouse_monitoring_model.py:44-50 | fewer than two days never fire, and the scan raises only when a string is among the weights |
| MouseMonitoring.ScanMeaning | src/mousetracker/kernel/models/mouse_monitoring_model.py:44-50 | on numeric weights the scan reports a jump exactly when some consecutive pair fires, and it raises only on a string weight |
| MouseMonitoring.CellColour | src/mousetracker/kernel/models/mouse_monitoring_model.py:52-55 | orange exactly for NaN (empty, or a string `float` reads as nan); white for numbers and unreadable strings |
| MouseMonitoring.Background | src/mousetracker/kernel/models/mouse_monitoring_model.py:33-55 | the background is a brush or an exception; a brush other than red is the cell's own colour; without a `Souris` column the query raises KeyError |
| MouseMonitoring.Data | src/mousetracker/kernel/models/mouse_monitoring_model.py:17-57 | only display and tooltip give a string and only the background role gives a brush; an index past the end of a non-empty frame raises IndexError, and nothing else raises outside the background role |
| MouseMonitoring.DataRoles | src/mousetracker/kernel/models/mouse_monitoring_model.py:19-31 | an invalid index, an empty frame or any other role gives None; display and tooltip give the same string of the cell |
| MouseMonitoring.BackgroundRule | src/mousetracker/kernel/models/mouse_monitoring_model.py:35-55 | red when the mouse's weights jump; otherwise, on numeric weights, the cell's own colour |
| MouseMonitoring.RedWinsOverCell | src/mousetracker/kernel/models/mouse_monitoring_model.py:44-53 | the red flag does not depend on the cell's value |
| MouseMonitoring.BackgroundOnRenamedFrame | src/mousetracker/kernel/models/mouse_monitoring_model.py:38-43 | on a frame whose `Souris` cells are strings, the background query raises IndexError |
| GroupsWidget.SortedSet | src/mousetracker/gui/widgets/groups_widget.py:246 | `sorted` of a set lists exactly its elements, in strictly increasing order |
| GroupsWidget.AvailableMice | src/mousetracker/gui/widgets/groups_widget.py:236-246 | the pool is strictly increasing, so sorted and without duplicates, and holds exactly the given mice that are in no group |
| GroupsWidget.FilteredSamples | src/mousetracker/gui/widgets/groups_widget.py:210 | the filtered samples are exactly the samples found in the groups sheet |
| GroupsWidget.FilteredCounts | src/mousetracker/gui/widgets/groups_widget.py:210-215 | a sample found in the sheet is kept as often as it is given; any other sample is dropped |
| GroupsWidget.FilteredAreLoadedMembers | src/mousetracker/gui/widgets/groups_widget.py:208-215 | on a sheet of ids with gaps, the ids being integers or, in a column with gaps, integral floats, a sample is taken out of the pool exactly when it is a member of a group that `load_groups` builds |
| GroupsWidget.OnCreateNewGroup | src/mousetracker/gui/widgets/groups_widget.py:152-160 | a group is added only when the dialog returns ok with a non-empty name; otherwise, or without a registry, nothing changes |

## Left out

- Qt plumbing is not modelled:
  - row insertion and removal signals, `layoutChanged` and the list views;
  - `GroupsModel.data`, `flags` and `rowCount`;
  - brushes, which are the enum `Colour`.
  - QModelIndex and roles are the datatypes `ModelIndex` and `Role`.
- `pd.read_excel` is not modelled. `AddExcelFile` takes what it returned as a parameter: None when it raised, otherwise the sheet.
- `round(1)` at excel_files_model.py:81 is not applied to the stored frame, because decimal rounding of floats is not modelled.
- IEEE floating point is not modelled:
  - values are exact reals and NaN is a missing cell;
  - means are exact `sum / count`;
  - the threshold `-0.1` is exact.
- The zero-old-weight cases of the jump rule follow numpy's infinities, not Python's ZeroDivisionError on plain ints.
- MouseMonitoring.Str: how `str` writes a float is the parameter `floatRepr`.
- MouseMonitoring.Data takes the frame as a parameter; the constructor wiring of `MouseMonitoringModel` is not modelled.
- DroppableModel and AvailableSamplesModel are not part of this model. A group's members are a `seq<int>`, and the available pool is returned as a sequence.
- ExcelFiles.AsInts: int64 overflow is not modelled, because integers are unbounded here. Python's `int()` also accepts underscores between digits and non-ASCII digits in a string; the model refuses both.
- `remove_items` is not modelled. What it removes is stated through `FilteredCounts`.
- ExcelFiles.Normalize reads the mouse names from column 0, as the source does by position. A sheet whose mouse column is elsewhere is reported as an import failure.
- Pairwise t-tests and the Holm correction are not part of this model. No core file computes them.
- The layout and event handling of the groups widget are not modelled, nor are the other widgets and dialogs.

## Findings

| source | as written | input that shows it | evidently intended | confidence | as-written member | corrected member |
|---|---|---|---|---|---|---|
| src/mousetracker/kernel/models/groups_model.py:252-262 | positions are collected in request order, reversed, then deleted one by one | registry `[a, b, c]`, remove `["b", "a"]`: positions `[1, 0]` are deleted as 0 then 1, leaving `[b]` | remove exactly the named groups, leaving `[c]` | not executed | Groups.RemoveOutOfOrder | Groups.GroupsModel.RemoveNamed |

The only caller of `remove_groups` in the user interface is the Delete key of the groups list (src/mousetracker/gui/views/groups_listview.py:22-24), and that list allows a single selection (src/mousetracker/gui/widgets/groups_widget.py:86). It therefore passes at most one name, so users cannot reach this through the interface. The bug is in `remove_groups` itself and shows with any caller that passes several names.
