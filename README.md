# CIF loading and cleaning pipeline, modelled in Dafny

This project models the data-preparation core of `functions.py`. That code reads crystallographic CIF files from two databases, PCD and ICSD, into one pandas data frame. The pipeline then:

- projects and renames the columns;
- normalises the text of several columns;
- fills in missing temperatures and pressures;
- drops rare crystals and incomplete rows and columns;
- rounds temperatures into bins.

A data frame is modelled as a `Frames.Table`: a sequence of column labels and a sequence of rows. Each row carries its index label and one `Cell` per column. A cell is missing (NaN), a string, a list of strings (a multi-valued CIF tag) or an exact number. Every exception the modelled paths can raise becomes an `Error` inside a `Result`; the exceptions outside them are listed under "Left out".

Modules:

- `Seqs`: filtering, mapping and subsequences, the generic facts the row and column masks need.
- `Frames`: the table, cells and errors.
- `Text`: the string and regular-expression operations the pipeline uses:
  - `re.sub` of a literal pattern;
  - removal of characters;
  - `str.join`;
  - counting commas;
  - removing `(...)` groups, as `\(.*?\)` does.
- `Ingestion`: the body of `load_PCD_cif` and `load_ICSD_cif`. It covers:
  - `dict.update` of the two parser dictionaries;
  - the one-row frame with the `database` column;
  - the loop counting files `x` and failures `n`;
  - `pd.concat`;
  - the ID prefixes;
  - the failure percentage.
- `Schema`: `keep_columns`, `rename_columns` with `set_index('ID')`, and `remove_characters`. The column loop of `remove_characters` is a method over the rows, proved equal to its specification.
- `Cleaning`: `fill_missing_values`, `remove_few_entries` and `drop_NaN`.
- `Binning`: `temperature_bins`. The loop over bins is a method that updates an array in place. It is proved equal to replacing every value by its bin's midpoint in one step.

The foreign parsers are parameters of the model:

- The outcome of `MMCIF2Dict` and `Structure.as_dict()` for each file is a `ParseOutcome`: the two dictionaries, or a failure.
- `chemparse.parse_formula` is a function argument `parse` of type `Parser`. It returns the ordered list of (element, count-text) pairs of a formula it accepts, or `None` for one it rejects, which the model turns into the error `Unparsable("FORMULA")`.
- `astype(float)` is a function argument `parseReal` that returns a number or None.

## Model

| member | source | states |
|---|---|---|
| Ingestion.Update | functions.py:36-42 | `dict.update`: the merged record has the union of both key sets; the structure dictionary wins on a shared key; the raw dictionary's keys keep their order and come first |
| Ingestion.LoadCifs | functions.py:24-66 | the loader loop (one pass per file: append a frame or count a failure), then concat and ID tagging, returns exactly the specified report `Load` |
| Ingestion.Accounting | functions.py:31-53 | every file is either appended or counted: `n + len(cif_data) == x` |
| Ingestion.NoFramesIffAllFail | functions.py:31-53 | the frame list is empty exactly when every file failed |
| Ingestion.NothingLoaded | functions.py:56 | loading fails with "no objects to concatenate" exactly when no file yields a frame |
| Ingestion.Concat | functions.py:56 | concatenation fails exactly on an empty list, with that error; otherwise every row has one cell per column |
| Ingestion.UnionColumns | functions.py:56 | the concatenated labels are exactly the labels of some frame |
| Ingestion.UnionStartsWithFirst | functions.py:56 | the concatenated labels start with the first frame's labels, in order |
| Ingestion.Align | functions.py:56 | a row placed under the union of labels keeps its label and cells, and is missing under labels its frame lacks |
| Ingestion.ConcatSingleRows | functions.py:56 | concatenating one-row frames gives one row per frame, in order, each aligned to the union of labels |
| Ingestion.FrameTagged | functions.py:44-49 | a frame built from a file has one row and `database` as its first column, holding the database name |
| Ingestion.FramesTagged | functions.py:32-49 | every frame appended by the loop is such a tagged one-row frame |
| Ingestion.RecordFrameCell | functions.py:44-47 | in the transposed record frame each key of the record is a column holding its value, beside the `database` tag |
| Ingestion.MergedRecord | functions.py:38-47 | the file's frame is a well-formed one-row table with a `database` column holding the tag; each key of either dictionary is a column, whose cell holds the structure value if there is one, else the raw value |
| Ingestion.TagIds | functions.py:59 | the ID column is rewritten only if it exists and holds strings; otherwise the matching error; labels and row count are kept |
| Ingestion.TagIdsCells | functions.py:104-105 | each ID cell becomes the tagged ID; the row's index and every other cell are unchanged |
| Ingestion.Percent | functions.py:62 | the failure percentage is `floor(n * 100 / x)`, below 100 while some file loaded |
| Ingestion.LoadReport | functions.py:62 | in a successful load, files = x, failures = n, rows + failures = files, and the percentage is `n * 100 / x`, below 100 |
| Ingestion.LoadTags | functions.py:47-59 | every loaded row has the database name in its `database` column; the concatenation has as many rows, and each row's ID is the rewritten ID of the same row before tagging |
| Ingestion.PcdTagInjective | functions.py:59 | distinct PCD IDs stay distinct after the `PCD_` prefix |
| Ingestion.TagsDisjoint | functions.py:105 | no PCD-tagged ID equals an ICSD-tagged ID |
| Ingestion.IcsdTagWithoutMarker | functions.py:104-105 | an ICSD ID without `-ICSD` only gains the `ICSD_` prefix, which can be taken off again |
| Ingestion.Examples | functions.py:59 | `"1"` becomes `"PCD_1"` for PCD and `"1-ICSD"` becomes `"ICSD_1"` for ICSD |
| Ingestion.IcsdTagCollides | functions.py:104-105 | the ICSD tagging is not injective: `"1"` and `"1-ICSD"` get the same ID |
| Ingestion.IcsdSinglePass | functions.py:104 | the marker removal is one left-to-right pass: `"--ICSDICSD"` keeps the `-ICSD` that the removal creates |
| Text.ReplaceAllAbsent | functions.py:104 | a regex replacement of a pattern that does not occur changes nothing |
| Text.ReplaceAllRemovesPattern | functions.py:187-188 | when the replacement cannot start or extend the pattern, no occurrence of the pattern is left |
| Text.ReplaceAllMarks | functions.py:188 | in the rewritten space group, every space begins a ` O2` |
| Text.RemoveChars | functions.py:183 | removing characters keeps exactly the other characters, in order, each as many times as it occurred |
| Text.JoinCommas | functions.py:190 | joining k comma-free items with `", "` gives k - 1 commas |
| Text.StripGroupsNoParen | functions.py:207 | removing `(...)` groups leaves text without `(` unchanged |
| Text.StripGroupsFirst | functions.py:207 | a leading group is removed up to its first `)`, and the text before it is kept |
| Schema.KeepColumns | functions.py:118-149 | the projection succeeds exactly when every requested column exists (an empty request means the 25 default columns); on failure, a missing requested label; on success, exactly the requested labels in order, with each row's label and cells taken from the input |
| Schema.KeepColumnsIdempotent | functions.py:148 | projecting a projection again onto the same distinct columns changes nothing |
| Schema.KeepOwnColumns | functions.py:148 | projecting a table with distinct labels onto all its own labels returns it unchanged |
| Schema.DefaultColumnsDistinct | functions.py:120-147 | the default request has 25 distinct labels |
| Schema.Relabel | functions.py:173 | renaming changes exactly the mapped labels and keeps the rest and the count |
| Schema.RenameColumns | functions.py:151-175 | `set_index('ID')` fails when no label, or more than one, is `ID` after renaming; on success the `ID` column is removed, its cells become the row index, and all other cells keep their order |
| Schema.OnlyOnce | functions.py:174 | after `set_index` no column is labelled `ID` |
| Schema.RenameKeepsCells | functions.py:173-174 | every non-ID column keeps its renamed label and its cell, shifted left past the removed ID column |
| Schema.DefaultPipelineIndexesById | functions.py:118-175 | with the defaults, a successful projection can always be renamed, and each row is indexed by its CIF block name `data_` |
| Schema.DefaultNames | functions.py:120-172 | the default renaming turns exactly one default column, the first, into `ID` |
| Schema.JoinCell | functions.py:181 | `str.join(', ')` joins a list, joins the characters of a string, and makes any other cell (missing or a number) missing |
| Schema.FormulaInput | functions.py:183 | the formula given to the parser has no space and no `~`, and keeps every other character in order, as many times as it occurred |
| Schema.CellStep | functions.py:180-190 | one column step fails exactly on a FORMULA cell that is not a string after the join or whose cleaned text the parser rejects, and the error is the parser's |
| Schema.FormulaStep | functions.py:183-185 | the FORMULA rewrite fails exactly when the joined cell is not a string or the parser rejects its cleaned text |
| Schema.ColumnStep | functions.py:179-190 | a column step succeeds exactly when every cell's step does, and otherwise raises the parser's error; then each row keeps its index label and its cell count, cell `k` becomes that cell's step result, and every other cell is unchanged |
| Schema.CoerceColumnsCells | functions.py:179-190 | the sequential column loop succeeds exactly when every cell's step does, and then each cell is its own step's result |
| Schema.ColumnStepCells | functions.py:179-190 | one more pass of the loop succeeds exactly when the next column's cells can all be stepped, and then extends the per-cell result by that column |
| Schema.CoerceErrorStays | functions.py:179-190 | once a column step raises, the rest of the loop does not change the error |
| Schema.KeptPositions | functions.py:193 | the kept positions are exactly the non-journal columns, in increasing order |
| Schema.DropJournal | functions.py:193 | dropping the journal columns removes them all and keeps every other column's cell |
| Schema.WithCitation | functions.py:192 | REFERENCE becomes `(year) volume, first-last` in every row; nothing else changes |
| Schema.BuildReference | functions.py:192-193 | building the reference fails exactly when one of its four columns is missing, reporting REFERENCE first |
| Schema.RemoveCharacters | functions.py:177-195 | the column loop and the reference step together return exactly the specified result `RemovedCharacters` |
| Schema.RemovedCharactersReference | functions.py:192-193 | in the result the journal columns are gone and REFERENCE is the citation built from the four joined cells |
| Schema.RemovedCharactersCells | functions.py:179-193 | every other column holds its own cell step's result |
| Schema.LoopJoins | functions.py:181 | the four reference columns are joined by the loop before the citation is built |
| Schema.LoopCell | functions.py:179-190 | after the loop each cell is its own step's result |
| Schema.SpacegroupClean | functions.py:186-188 | the cleaned space-group symbol has no `~`, `(`, `)` or `originchoice2`, and every space in it begins ` O2` |
| Schema.ElementCountOfList | functions.py:190 | a list of k ≥ 1 comma-free symbols counts as k |
| Schema.ElementCountOfString | functions.py:190 | a plain non-empty comma-free string counts its characters, as the join makes it |
| Schema.ElementCountEdges | functions.py:190 | a number or a missing cell gives a missing count; an empty list gives 1 |
| Schema.FormulaCell | functions.py:182-185 | a list formula is joined, cleaned, parsed and rendered as element-count pairs, and raises when the parser rejects it; a missing or numeric formula raises |
| Cleaning.ClearQuestion | functions.py:205 | a string containing `?` becomes missing; every other cell is unchanged |
| Cleaning.ClearQuestions | functions.py:205 | the replacement is applied to every cell of every row; labels and indices are kept |
| Cleaning.TemperatureCell | functions.py:207-208 | the temperature conversion yields a number or a missing cell, and can only fail as not-a-number |
| Cleaning.FillCell | functions.py:213 | `fillna` leaves no missing cell and leaves present cells unchanged |
| Cleaning.ReplaceQuestionCell | functions.py:214 | `replace('?', rt)` changes only a cell equal to `?` |
| Cleaning.MapColumn | functions.py:213-216 | a column update changes only that column |
| Cleaning.ConvertTemperatures | functions.py:207-208 | the conversion succeeds exactly when every cell converts; then each TEMPERATURE cell holds its converted value and nothing else changes |
| Cleaning.FillMissingValues | functions.py:201-217 | a missing TEMPERATURE or PRESSURE column raises; with both present it succeeds exactly when every cleared, group-stripped temperature converts, and otherwise raises not-a-number; on success the labels and row count are kept |
| Cleaning.FillMissingValuesFails | functions.py:207-208 | the not-a-number error occurs exactly when some temperature string, with `?` cleared and groups removed, does not parse |
| Cleaning.FilledCells | functions.py:201-217 | afterwards no TEMPERATURE or PRESSURE cell is missing; a temperature is its parsed string or `rt`; a pressure is its `?`-free value or `rt`; every other cell only lost `?` strings |
| Cleaning.PressureDefaultUnused | functions.py:201 | the result does not depend on `rp`: missing pressures are filled with `rt` |
| Cleaning.QuestionReplaceIsNoOp | functions.py:214-216 | the two `replace('?', rt)` calls never fire, because the first step left no `?` |
| Cleaning.TemperatureExample | functions.py:207 | `"300(5)"` becomes `"300"` before parsing |
| Cleaning.KeptRows | functions.py:222-224 | the kept rows are an ordered subsequence of the input |
| Cleaning.RemoveFewEntries | functions.py:219-232 | grouping fails without FORMULA or SPACEGROUP_SYM; otherwise the labels are kept and the rows are the kept rows |
| Cleaning.GroupFloor | functions.py:224 | a row is kept exactly when it belongs to a crystal with at least `num_entries` rows; a kept crystal keeps all of its rows |
| Cleaning.KeptGroups | functions.py:227-230 | the kept crystals are exactly those with at least `num_entries` rows |
| Cleaning.GroupCounts | functions.py:226-231 | kept entries = the output's row count, removed entries = input rows minus kept; kept crystals = large crystals; removed crystals = small crystals |
| Cleaning.KeptColumns | functions.py:246-248 | a column survives exactly when, among the rows with a temperature, it has at least one value and at least `int(N * 0.2)` values, for N the input row count; the positions increase |
| Cleaning.DropNaN | functions.py:241-257 | a missing TEMPERATURE column raises, and only then; the output labels are the kept columns, in order; the kept entries are the output's row count and the removed entries the rest of the input rows |
| Cleaning.DropNaNRows | functions.py:244-255 | the output rows are the input rows with a temperature and a value in every kept column, in order, restricted to the kept columns; no output cell is missing; kept entries = the output's row count, removed entries = input rows minus kept |
| Cleaning.SelectedAllPresent | functions.py:250 | a row restricted to the kept columns has all its values exactly when the original had them there |
| Cleaning.DropNaNKeepsTemperature | functions.py:244-248 | the TEMPERATURE column survives exactly when at least one row, and at least `int(N * 0.2)` rows, have a temperature |
| Binning.RoundHalfEven | functions.py:267 | `round` gives an integer within one half of its argument, and the even one on a tie |
| Binning.RoundExamples | functions.py:267 | `round(2.5) == 2`, `round(3.5) == 4`, `round(-0.5) == 0` |
| Binning.Min | functions.py:265 | `min` is a column value no larger than any other |
| Binning.Max | functions.py:266 | `max` is a column value no smaller than any other |
| Binning.BinToMidpoint | functions.py:270-273 | a value `i * s + k` with whole `0 <= k < s`, in one of the first `steps` bins, becomes `(2i + 1) * s / 2` |
| Binning.OutsideBinsUnchanged | functions.py:270-273 | a value in no bin is unchanged |
| Binning.BinningMovesLittle | functions.py:270-273 | a binned value stays in the spacing interval of the original value |
| Binning.BinningIdempotent | functions.py:270-273 | binning again with the same bins changes nothing |
| Binning.IntervalUnique | functions.py:270-273 | the bins do not overlap |
| Binning.SequentialIsSimultaneous | functions.py:270-273 | for a positive spacing, running the bins one after another equals replacing every value by its bin's midpoint at once |
| Binning.SequentialStep | functions.py:270-273 | one pass of the loop extends the simultaneous binning by one bin |
| Binning.StepsNeedPositiveSpacing | functions.py:267-270 | the loop makes a pass only for a positive spacing |
| Binning.ReplaceBinInPlace | functions.py:271-273 | the in-place `replace` over the array sets exactly the bin's values to its midpoint |
| Binning.LoopResult | functions.py:270-273 | after all passes the column holds the simultaneous bin values |
| Binning.BinnedTable | functions.py:261-274 | a missing or empty column, a non-number and a zero spacing raise; otherwise each TEMPERATURE becomes its bin value, and the labels, indices, row count and other cells are unchanged |
| Binning.NoStepsNoChange | functions.py:267-270 | when the column spans no whole step the table is returned unchanged |
| Binning.BinColumn | functions.py:267-273 | the loop over bins, on an array of the column's values, returns each value's simultaneous bin value |
| Binning.TemperatureBins | functions.py:261-274 | the loop over bins, on an array, returns exactly `BinnedTable` |

## Left out

- File system access, `Path.glob`, `MMCIF2Dict` and `Structure`. Each file appears only as the outcome of the two parsers. Any exception they raise is a failed parse.
- `DataFrame.from_dict(..., orient='index').transpose()` is modelled for records whose values are single cells. Lists stay `List` cells in one row. A record whose values would spread over several rows is not modelled.
- A record that already has a `database` key counts as a failure, as the column insertion raises. Its other causes of failure are not distinguished.
- `chemparse.parse_formula` is a parameter that returns the pairs of a formula or rejects it. Which strings it accepts, and how it splits them, is not modelled. Its exception on a rejected string and its exception on a missing cell (a float NaN) are both the one error `Unparsable("FORMULA")`; the model does not tell them apart.
- `astype(float)` and `astype(str)` on numbers are parameters or approximations. The text of a number in a citation is not modelled; `AsText` is exact only for strings and missing cells.
- Floating point is not modelled. All numbers are exact reals, so `int(n / x * 100)` is `floor(n * 100 / x)`. Rounding of `n / x * 100`, and of `np.arange` near a bin's upper end, is not captured.
- pandas dtype inference is not modelled. A numeric TEMPERATURE cell is not a string, so the regex step makes it missing and it is then filled with `rt`.
- The `.str` accessor on a column without any string raises in pandas. The model instead makes every cell of such a column missing (and raises only for FORMULA).
- Repeated column labels are not modelled beyond the first. Every lookup uses the first column with that label.
- `set_index` does not enforce unique index values, and the model claims no uniqueness of IDs.
- RemoveFewEntries: a list-valued FORMULA or SPACEGROUP_SYM makes pandas' `groupby` raise (a list is unhashable); the model groups such a row by the list instead. `remove_characters` joins both columns into strings before this step, so the pipeline's own order does not reach it.
- Rows whose FORMULA or SPACEGROUP_SYM is missing belong to no group. They are dropped by `remove_few_entries`, as pandas' `groupby` drops NaN keys.
- Binning.BinnedTable: a missing or non-numeric TEMPERATURE cell raises not-a-number. Python's `min` and `max` over a column containing NaN or strings give order-dependent results or a later type error, which are not modelled.
- Binning.TemperatureBins: the chained `df_mod['TEMPERATURE'].replace(..., inplace=True)` is modelled as changing the column. This holds for the pandas versions without copy-on-write.
- `progress_bar`, `print` and `time` have no effect on the result and are not modelled.
- `average_temperature`, `CTE_reg` and `grouped_histogram` are not part of this model. They are statistics and plots built on the cleaned table.
