# Demo-viewer core: event reshaping, map projection and per-point rendering

This project models the algorithmic core of a match-replay viewer. The
viewer takes recorded events (attacks, grenade throws, player positions) and
draws them over a map image. The model has three parts.

- **Projection** (`utils/transformers.py`). World coordinates become pixels
  on the 1024-pixel map image, using the map's calibration
  (`pos_x`, `pos_y`, `scale`) as `x' = (x - pos_x) / scale` and
  `y' = 1024 - (pos_y - y) / scale`. `transform_coords` applies this to the
  `_x` / `_y` pair of every status.
- **Reshaping** (`utils/transformers.py`, `transform_actions`). One wide row
  per event holds a block of columns per role (`attacker_...`,
  `victim_...`). It becomes a long table with one row per role. The steps are:
  - select that role's columns;
  - stamp the `status` column;
  - strip the role prefix and rename;
  - concatenate with row de-duplication;
  - coalesce a single `side` column;
  - run an optional duplicate pass that stamps `assign_dup` values and keeps the
    first or the last of each key.
- **Rendering** (`utils/components.py`, `count_colorbar` and
  `plot_loc_unicode`). Each row is drawn as a text glyph. A "previous
  colormap" is carried from row to row, the markers are stateless, one normaliser is
  built from the global minimum and maximum, and a budget of two colorbar
  slots is read from the figure.

The files are:

- `wrappers.dfy`: Option and Result.
- `strings.dfy`: `startswith`, `in`, `replace(pat, "")`, ASCII `lower` /
  `upper` / `title`.
- `tables.dfy`: a small model of the pandas DataFrame operations the
  reshaper uses. A table is a list of labels, where repeats are allowed, plus rows
  of optional cells. It covers `loc`, column assignment, masked assignment,
  `drop_duplicates`, `duplicated`, `fillna`-style access and
  `concat`.
- `transformers.dfy`: projection and reshaping.
- `components.dfy`: a `Figure` class (its axes labels, the glyph log, the
  colorbar log and the axis labels) and the render.

Each loop of the source is a method whose `ensures` ties its result to a
specification function. The lemmas prove what the functions promise:
- round trips: projection against the inverse calibration;
- order-independence: the order of statuses does not matter;
- characterisations: selection membership and multiplicity, renaming,
  side coalescing as "first present in status order", duplicate survivors
  and stamping, carry-over of the colormap;
- bounds: levels in [0, 1], colorbar count and budget.

The model follows the code as written. In particular:
- The per-status `{st}_side` columns stay in the output. They are not
  dropped.
- The identity calibration `(0, 0, 1)` gives `y' = 1024 + y`
  (`IdentityCalibration`).
- A column is appended to the selection once for each test it passes, so a
  column that passes two tests is selected twice (`SelectedLabelsCount`).
- A common column that the table lacks is silently not selected. It raises no error.
- Nothing checks the scale. Zero is excluded by a precondition because it
  makes the projection undefined. A negative scale is allowed.
- Which error `transform_coords` raises depends on the order of the statuses
  (`ProjectedStatusesOrderFree`).
- A scalar assigned with `.loc` into a column that a frame without rows
  lacks raises ValueError in pandas. This happens to the `status` stamp at
  utils/transformers.py:83 and to an `assign_dup` key at :109. The model
  carries it as the `ScalarIntoEmpty` error (`AssignMasked`,
  `ActionsTransformedNoRows`).
- A constant gradient raises no error in the code. The model requires a
  non-degenerate range (see "Left out").

## Model

| member | source | states |
|---|---|---|
| Transformers.Project | utils/transformers.py:15-16 | `(v - pos_x) / scale` on X and `1024 - (pos_y - v) / scale` on Y; the world coordinate is recovered from the pixel coordinate by `Unproject` |
| Transformers.ProjectCell | utils/transformers.py:15-16 | a number is projected on the axis and can be unprojected back; a missing cell stays missing and a text cell stays the same text |
| Transformers.ProjectionInvertible | utils/transformers.py:15-16 | for a non-zero scale, each axis's projection is a bijection undone by `Unproject`, in both directions |
| Transformers.IdentityCalibration | utils/transformers.py:15-16 | the calibration (0, 0, 1) leaves x as it is and maps y to 1024 + y |
| Transformers.Inverse | utils/transformers.py:15-16 | the inverse calibration of a non-zero-scale calibration again has a non-zero scale |
| Transformers.InverseUnprojects | utils/transformers.py:15-16 | projecting with the inverse calibration is unprojecting with the original |
| Transformers.ProjectColumn | utils/transformers.py:15-16 | `result[col] = f(result[col])` succeeds iff the label is present and none of its cells is text; otherwise MissingLabel or NonNumeric; on success every column carrying the label is projected and all other cells are unchanged |
| Transformers.ProjectColumnKeepsText | utils/transformers.py:15-16 | projecting a column neither creates nor removes text cells under any label |
| Transformers.TransformCoord | utils/transformers.py:8-18 | succeeds iff both coordinate labels are present and numeric; the error is for `x_col` first, then `y_col`; on success the labels and row count are kept and each cell is projected on X if labelled `x_col`, then on Y if labelled `y_col` |
| Transformers.TransformCoordRoundTrip | utils/transformers.py:8-18 | for distinct labels, transforming with the inverse calibration restores the original table exactly |
| Transformers.ProjectedStatuses | utils/transformers.py:21-25 | the fold keeps the labels and the row count of the table |
| Transformers.ProjectedStatusesErr | utils/transformers.py:23-24 | the first failing status's error is the error of the whole call |
| Transformers.TransformCoords | utils/transformers.py:21-25 | the loop returns exactly the fold `ProjectedStatuses`, stopping at the first error |
| Transformers.CoordLabel | utils/transformers.py:24 | `f"{st}_x"` / `f"{st}_y"`: the status followed by `_` and the axis letter, two characters longer than the status |
| Transformers.CoordLabelInjective | utils/transformers.py:24 | `f"{st}_x"` / `f"{st}_y"` determine both the status and the axis |
| Transformers.ProjectedStatusesByName | utils/transformers.py:21-25 | for distinct statuses the call succeeds iff every status's `_x` and `_y` column is present and numeric, and then each such column is projected once on its axis and nothing else changes |
| Transformers.ProjectedStatusesOrderFree | utils/transformers.py:21-25 | two orders of the same distinct statuses both succeed or both fail, and give the same table on success |
| Transformers.CoordsNumericSameMembers | utils/transformers.py:21-25 | whether the coordinate columns are numeric depends only on which statuses are listed |
| Transformers.SameCoordLabels | utils/transformers.py:24 | statuses with the same members give the same coordinate labels |
| Transformers.Selections | utils/transformers.py:70-77 | one column yields at most three selections, and none iff it passes none of the three tests |
| Transformers.SelectedLabels | utils/transformers.py:69-77 | the selection over the columns has at most three labels per column |
| Transformers.SelectionsMembers | utils/transformers.py:70-77 | for one column, the appended labels are that column, present iff it passes at least one of the three tests |
| Transformers.AppendSelections | utils/transformers.py:69-77 | one pass of the column loop appends exactly that column's selections |
| Transformers.SelectedLabelsMembers | utils/transformers.py:67-77 | a label is selected iff it is a column of `actions` that starts with `st`, is in the extra list or is in the common list |
| Transformers.SelectedLabelsCount | utils/transformers.py:67-77 | each label occurs (occurrences in `actions.columns`) × (tests passed) times in `st_cols` |
| Transformers.SelectedLabelsInOrder | utils/transformers.py:67-77 | when no column passes two tests, `st_cols` is the passing columns in their original order |
| Transformers.SelectColumns | utils/transformers.py:67-77 | the three-test append loop builds exactly `SelectedLabels` |
| Transformers.StampedSlice | utils/transformers.py:78-83 | the stamp fails with ValueError iff `actions` has no rows and `status` is not among the selected columns; otherwise the slice keeps every row, has a `status` column holding `status_code.get(st, st)` in every row, and carries no label other than `status` and the selected columns |
| Transformers.StatusValue | utils/transformers.py:82-83 | the stamped status is the status's code, or the status itself when it has none |
| Transformers.LocColumnsLabels | utils/transformers.py:78 | `actions.loc[:, st_cols]` carries only requested labels |
| Transformers.RenameLabel | utils/transformers.py:86-91 | `{st}_side` keeps its name; a label that is not a value of `rename_col` is never longer than the original, since removing `{st}_` never lengthens |
| Transformers.RenameLabelRule | utils/transformers.py:85-92 | `{st}_side` keeps its name; `{st}_attr` becomes `rename_col.get(attr, attr)`; a label without `{st}_` is only renamed |
| Transformers.RenameColumns | utils/transformers.py:85-92 | the loop maps each label, position by position, to its new name |
| Transformers.StatusSlice | utils/transformers.py:78-92 | fails exactly when the stamp fails, with its error; otherwise renaming changes only the labels: same number of columns and the very same rows as the stamped slice |
| Transformers.DedupRows | utils/transformers.py:96 | `drop_duplicates()` keeps the labels and leaves the first occurrence of each row in order |
| Transformers.MergeStep | utils/transformers.py:78-96 | on `actions` without rows whose selection lacks `status`, the step fails with the stamp's ValueError; a successful concat step yields a well-formed table |
| Transformers.MergeStepParts | utils/transformers.py:96 | a step de-duplicates within the accumulator and within the slice but not across them: the two parts are each duplicate-free, and the row count is the sum of the parts |
| Transformers.MergedFrom | utils/transformers.py:65-96 | the status loop run from any pass: the first failing `concat` ends it with its error, and the accumulated table is well formed |
| Transformers.Merged | utils/transformers.py:64-96 | the loop started from the empty frame yields a well-formed table |
| Transformers.MergeStatus | utils/transformers.py:66-96 | one pass of the loop body (select, stamp, rename, `concat`) computes exactly `MergeStep`, the stamp's error included |
| Transformers.MergedFromNoRows | utils/transformers.py:66-96 | on `actions` without rows, the status loop fails once any status's selection lacks a `status` column |
| Transformers.SideLabel | utils/transformers.py:98-100 | `f"{st}_side"` starts with the status and is never one of that status's coordinate labels |
| Transformers.FillNa | utils/transformers.py:100 | `a.fillna(b)` keeps the length and every present cell of `a`; a cell is missing iff it is missing in both |
| Transformers.CoalescedSide | utils/transformers.py:98-100 | the coalesced side has one cell per row |
| Transformers.FirstPresent | utils/transformers.py:99-100 | the result is missing iff every cell is, and otherwise it is the first present cell |
| Transformers.CoalescedSideRule | utils/transformers.py:98-100 | coalescing succeeds iff every `{st}_side` names one column; then a row's side is its first present side value in `status` order |
| Transformers.CoalescedSideErr | utils/transformers.py:98-100 | a failing side lookup ends the `fillna` loop with its error |
| Transformers.CoalesceSide | utils/transformers.py:98-100 | the `fillna` loop returns exactly `CoalescedSide` |
| Transformers.SideResolved | utils/transformers.py:98-101 | an empty `status` raises at `status[0]`; otherwise succeeds iff the side labels are unique; `side` is set (or appended) with the coalesced values, the per-status side columns stay, other cells are unchanged |
| Transformers.KeyPositions | utils/transformers.py:103-105 | the key columns are exactly the positions whose label is not excluded |
| Transformers.Keys | utils/transformers.py:106-107 | one key per row, made of one cell per key column |
| Transformers.AssignLabels | utils/transformers.py:108 | one label per `assign_dup` entry |
| Transformers.Stamped | utils/transformers.py:108-109 | the `assign_dup` loop keeps every row and leaves the table well formed; it fails iff the table has no rows and some key is not a column, with ValueError naming such a key; on a table without rows it otherwise changes nothing |
| Transformers.StampedErrSticks | utils/transformers.py:108-109 | once one assignment of the loop fails, the whole loop ends with that error |
| Transformers.StampedColumns | utils/transformers.py:108-109 | with distinct keys, the `assign_dup` loop appends exactly the listed labels the table lacks, in order |
| Transformers.StampedRule | utils/transformers.py:108-109 | with distinct keys, the `assign_dup` loop sets each listed label on the masked rows, appends absent labels as new columns missing elsewhere, and changes nothing else |
| Transformers.DuplicatesResolved | utils/transformers.py:102-111 | no exclusion list leaves the table as it is; an unknown `keep` raises; otherwise the pass fails iff the table has rows and every column is excluded, or the table has no rows and some `assign_dup` key is not a column; the result never has more rows |
| Transformers.DuplicatesResolvedRows | utils/transformers.py:102-111 | exactly the first (or last) occurrence of each key survives, every row's representative survives, survivors have pairwise different keys, and the new `assign_dup` labels are appended to the columns |
| Transformers.DuplicatesResolvedRule | utils/transformers.py:102-111 | a survivor carries the `assign_dup` values iff another row shares its key; its other cells are its own, and new columns are missing |
| Transformers.KeptSurvivors | utils/transformers.py:106-107 | the unflagged rows are exactly one representative per key |
| Transformers.ResolveDuplicates | utils/transformers.py:102-111 | the duplicate pass with its assignment loop returns exactly `DuplicatesResolved` |
| Transformers.ActionsTransformed | utils/transformers.py:65-113 | an empty `status` is an error and a result is a well-formed table |
| Transformers.ActionsTransformedNoRows | utils/transformers.py:66-98 | `actions` without rows and without a `status` column always fails: with the stamp's ValueError, or with IndexError when `status` is empty |
| Transformers.TransformActions | utils/transformers.py:65-113 | the whole imperative procedure returns exactly `ActionsTransformed` |
| Tables.Dedup | utils/transformers.py:96 | `drop_duplicates()` keeps exactly the elements present, each once, never growing the sequence |
| Tables.DedupIsFilterFirst | utils/transformers.py:96 | `drop_duplicates()` equals `loc[~duplicated(keep="first")]` |
| Tables.Filter | utils/transformers.py:111 | `loc[~mask]` never has more rows than the table |
| Tables.FilterAt | utils/transformers.py:111 | `loc[~mask]` keeps exactly the unflagged rows, in order |
| Tables.Kept | utils/transformers.py:111 | the kept positions are exactly the unflagged ones, increasing |
| Tables.DupFlags | utils/transformers.py:106-107 | one flag per row, and the first row (under `keep="first"`) or the last row (under `keep="last"`) is never flagged |
| Tables.DupAt | utils/transformers.py:106-107 | a flagged row has another row with an equal key; the first (or last) row is never flagged |
| Tables.Representative | utils/transformers.py:106-107 | every key has an unflagged occurrence under either `keep` |
| Tables.AtMostOneSurvivor | utils/transformers.py:106-107 | no two unflagged positions hold equal keys |
| Tables.OppositeFlagMeansShared | utils/transformers.py:106-109 | a survivor is flagged in the opposite direction iff another row shares its key |
| Tables.Positions | utils/transformers.py:98 | the positions found all carry the label and increase, and some exist iff the label occurs |
| Tables.PositionsComplete | utils/transformers.py:98 | every position carrying the label is found |
| Tables.PositionsDistinct | utils/transformers.py:98 | over distinct labels a label that occurs sits at exactly one position |
| Tables.LocColumnsPresent | utils/transformers.py:78 | `t.loc[:, labels]` carries every requested label that `t` has |
| Tables.LabelPositionsDistinct | utils/transformers.py:78 | over distinct labels, selecting present labels yields one position per label, carrying that label |
| Tables.LocColumns | utils/transformers.py:78 | `loc[:, labels]` keeps the row count |
| Tables.LocColumnsDistinct | utils/transformers.py:78 | over distinct labels, `loc[:, labels]` carries exactly the requested labels in order |
| Tables.SetColumn | utils/transformers.py:83 | `t[lbl] = vals` overwrites every column carrying `lbl`, or appends it, and changes nothing else |
| Tables.AssignMasked | utils/transformers.py:109 | `t.loc[mask, lbl] = v` fails with ValueError iff `t` has no rows and lacks `lbl`; otherwise it sets the masked rows of `lbl`, or appends `lbl` missing outside the mask, and changes nothing else |
| Tables.ColumnValues | utils/transformers.py:98-100 | `t[lbl]` as one Series succeeds iff the label names exactly one column; otherwise MissingLabel or AmbiguousLabel |
| Tables.LabelUnion | utils/transformers.py:96 | the labels of the concatenation are exactly those of either part |
| Tables.Reindex | utils/transformers.py:96 | realignment succeeds iff the labels already agree or are distinct, and otherwise fails with the duplicate-label error; rows keep their number and take the new width |
| Tables.ReindexCell | utils/transformers.py:96 | over distinct labels each realigned cell comes from the column of the same label, missing when the label is absent |
| Tables.ReindexKeepsDistinct | utils/transformers.py:96 | realignment keeps distinct rows distinct |
| Tables.Concat | utils/transformers.py:96 | `pd.concat` succeeds iff each part can be realigned on the union, and then stacks the realigned rows |
| Tables.ConcatKeepsCrossDuplicates | utils/transformers.py:96 | over the same labels `concat` stacks both parts' rows unchanged, so each row's multiplicity is the sum of its multiplicities in the parts and a row present in both parts stays at least twice |
| Strings.RemoveAll | utils/transformers.py:90 | `replace(pat, "")` never lengthens a string |
| Strings.RemoveAllAbsent | utils/transformers.py:90 | a label without the role prefix is left as it is |
| Strings.RemoveAllPrefix | utils/transformers.py:90 | `(pat + rest).replace(pat, "") == rest` when `pat` does not occur in `rest` |
| Strings.ContainsAt | utils/components.py:112 | an occurrence at any index makes `sub in s` true |
| Strings.Lower | utils/components.py:149 | the model's ASCII lower-casing keeps the length, leaves no upper-case ASCII letter and keeps every other character |
| Strings.Upper | utils/components.py:216 | the model's ASCII upper-casing keeps the length, leaves no lower-case ASCII letter and keeps every other character |
| Strings.TitleAt | utils/components.py:216 | the model's ASCII title-casing upper-cases the letters that start a word, lower-cases the other letters and keeps non-letters |
| Strings.Title | utils/components.py:216 | the model's ASCII title-casing keeps the length |
| Strings.StartsWith | utils/transformers.py:70 | `col.startswith(st)`: the first `len(st)` characters of `col` are `st` |
| Strings.Contains | utils/components.py:112 | `sub in s`: `sub` starts `s` or occurs in its tail; an occurrence is never longer than `s` |
| Components.Figure.constructor | utils/components.py:132-133 | a figure with the given axes labels and nothing drawn |
| Components.Figure.Text | utils/components.py:179-188 | `ax.text` appends a glyph and changes nothing else |
| Components.Figure.AddColorbar | utils/components.py:208-216 | `fig.colorbar` appends the colorbar and one `<colorbar>` axes |
| Components.Figure.SetLabels | utils/components.py:190-191 | the axis labels are set and nothing else changes |
| Components.ColorbarCount | utils/components.py:109-114 | the count of axes whose label contains "colorbar" is at most the number of axes |
| Components.ColorbarCountExtremes | utils/components.py:109-114 | the count is 0 iff no label contains "colorbar", and equals the number of axes iff every label does |
| Components.ColorbarCountConcat | utils/components.py:109-114 | the count over two runs of axes is the sum of their counts |
| Components.ColorbarAxes | utils/components.py:208-215 | `k` colorbar axes are `k` labels `<colorbar>` |
| Components.ColorbarAxesCount | utils/components.py:109-114 | each colorbar axes counts once |
| Components.CountColorbar | utils/components.py:109-114 | the counting loop returns `ColorbarCount` of the figure's axes labels |
| Components.Lookup | utils/components.py:160-161 | `key in d` is false iff no entry has the key; otherwise `d[key]` is the value of the first entry with that key |
| Components.MinGradient | utils/components.py:144 | the minimum is at most every gradient value and is one of them |
| Components.MaxGradient | utils/components.py:145 | the maximum is at least every gradient value and is one of them |
| Components.Normalize | utils/components.py:146 | for `vmin < vmax`, values in range map into [0, 1]; the image is 0 iff the value is `vmin` and 1 iff it is `vmax` |
| Components.Switch | utils/components.py:148-149 | a row switches only when `color_by` is set and its category is present, and only to the value of a key equal to its lower-cased category (so never to a key with an upper-case letter); it does not switch iff no key matches |
| Components.NextCmap | utils/components.py:158-166 | a row that does not switch keeps `previous_cmap`; a row that switches sets it to its own colormap, one of `color_dict`'s values |
| Components.CmapAfter | utils/components.py:154-166 | the carried colormap after any run of rows is `default_color` or one of `color_dict`'s values |
| Components.MarkerOf | utils/components.py:173-177 | the marker is `default_marker` without `marker_by`, and otherwise `default_marker` or one of `marker_dict`'s values |
| Components.CmapDefaultWithoutSwitch | utils/components.py:154-166 | when no row switches, the carried colormap is still `default_color` |
| Components.CmapOfLastSwitch | utils/components.py:154-166 | the carried colormap is the one given by the last row that switched |
| Components.CarryOverExample | utils/components.py:154-166 | categories `[a, missing, b, missing]` mapped to `c1`, `c2` are drawn with `[c1, c1, c2, c2]` |
| Components.NoColorByKeepsDefault | utils/components.py:154-166 | without `color_by` the state stays `default_color` |
| Components.UpperCaseKeysNeverMatch | utils/components.py:148-160 | when every key holds an upper-case letter, no row switches and `default_color` is used throughout |
| Components.Glyphs | utils/components.py:156-188 | one glyph is drawn per row |
| Components.GlyphAt | utils/components.py:156-188 | glyph `i` is at row `i`'s (x, y), with that row's own marker, the given font size and alpha, the colormap carried after rows `0..i` and row `i`'s normalised gradient |
| Components.LevelsInUnitInterval | utils/components.py:144-146 | with the global min/max normaliser every level is in [0, 1], 0 exactly at the minimum and 1 exactly at the maximum |
| Components.NoColorByGlyphs | utils/components.py:154-166 | without `color_by` every glyph uses `default_color` |
| Components.ColorbarTitle | utils/components.py:216 | the colorbar label is the upper-cased category (no lower-case letter), a space, and the title-cased gradient name |
| Components.ColorbarsFor | utils/components.py:194-216 | none without `color_by`; otherwise one per each of the first `min(len(color_dict), 2 - n)` entries, in order, left then right, labelled as above, with the entry's colormap and the shared normaliser range; `n` plus the number added is at most 2 |
| Components.TwoCallsBudget | utils/components.py:151-152 | after a first call the figure counts `n + k1 <= 2` colorbars, and a second call adds at most what is left: both calls together stay within 2 |
| Components.DrawGlyphs | utils/components.py:156-188 | the row loop appends exactly `Glyphs` and changes nothing else |
| Components.DrawColorbars | utils/components.py:194-217 | the colorbar loop appends exactly `ColorbarsFor` and one `<colorbar>` axes each |
| Components.PlotLocUnicode | utils/components.py:117-219 | glyphs, axis labels and colorbars are exactly `Glyphs` (with the global min/max), the two axis labels and `ColorbarsFor` with the count read at call start |

## Left out

- Drawing itself is not modelled. This covers RGBA evaluation of a colormap, text alignment (`ha`, `va`), the figure size, colorbar geometry (pad, fraction, shrink), label and tick font sizes, and the invisible `s=0` dummy scatter and its data (`positions`). A glyph records its colour as the pair (colormap name, normalised level).
- `plt.get_cmap` raising on an unknown colormap name is not modelled, because colormaps are opaque names.
- The figure and its axes are one `Figure` object. A figure created inside `plot_loc_unicode` when both `fig` and `ax` are None corresponds to `new Figure([""])`. Passing only one of them, which fails in the source, is not modelled.
- The column selection `player_loc.reset_index()[selected_col]` is not modelled. Its missing-column KeyError is not modelled either. Rows arrive as `PointRow` values with string categories and string marker keys. A non-string category, which `str.lower()` turns into NaN, is not modelled.
- Components.PlotLocUnicode: options where `color_by` or `marker_by` repeats another selected name (`x`, `y`, `gradient_by`, or each other) are not modelled. The selection at utils/components.py:135-141 then keeps the name twice. The code raises AttributeError at :149 (`.str.lower()` on a two-column frame) or TypeError at :177 (`marker_dict.get` of an unhashable Series). The model instead draws every row, with each row's own category and marker key.
- Components.PlotLocUnicode: requires that the gradient take at least two values (`vmin < vmax`). `plt.Normalize` with `vmin == vmax`, or over an empty table, is library-defined and raises no error in the code.
- Components.PlotLocUnicode: requires that the figure already count at most 2 colorbars. With more, Python's negative slice and `side[idx]` would behave differently.
- Components.Lookup: `color_dict` is modelled as its list of entries in iteration order. A dictionary's keys are distinct, and lookup takes the first matching entry. A `color_dict` or `marker_dict` of None while `color_by` or `marker_by` is set is not modelled; in the code it raises TypeError or AttributeError.
- Components.MarkerOf: a missing marker key gets the default marker; `dict.get(NaN, default)` gives the same.
- Strings.Lower, Strings.Upper, Strings.TitleAt, Strings.Title: ASCII-only case mapping; Python's `str.lower()`, `str.upper()` and `str.title()` (utils/components.py:149, :216) follow Unicode. Python maps non-ASCII letters that the model leaves alone (`"É".lower() == "é"`), and its mapping can change the length (`"ß".upper() == "SS"`, `"ß".title() == "Ss"`, and `"İ".lower()` is two code points). So Components.Switch and Components.ColorbarTitle agree with the source only for ASCII categories, keys and gradient names.
- Floating point is not modelled. Coordinates, gradients and levels are exact `real` values.
- Transformers.Project: requires a non-zero scale. For a zero scale pandas would produce ±inf, or NaN where the value equals `pos_x` (on X) or `pos_y` (on Y). Missing keys of `map_data` are not modelled, because a calibration is always complete.
- Cells are numbers, text, or missing. Column dtypes are not modelled. A text cell in a coordinate column is a TypeError (`NonNumeric`).
- Rows are addressed by position. The pandas row index, which becomes non-unique after `concat`, is not modelled. Neither is index-based alignment in `fillna` and in `result["side"] = side`.
- The `SettingWithCopyWarning` suppression (utils/transformers.py:80-81) is not modelled, because it only silences a warning.
- The unused `drop_na_cols` parameter is not modelled.
- `check_dup_without_cols=None` is modelled as the empty list. The code takes the same branch for both.
- Tables.ColumnValues: a repeated `{st}_side` label is modelled as an AmbiguousLabel error. Pandas would return a DataFrame at that point.
- Transformers.StampedRule: requires distinct `assign_dup` labels, as a dictionary's keys are. `assign_dup` is modelled as its list of entries in iteration order.
- Transformers.DuplicatesResolvedRule: requires distinct `assign_dup` labels, as a dictionary's keys are; so does Transformers.DuplicatesResolvedRows.
- Transformers.ProjectedStatusesByName: requires distinct statuses. A repeated status would be projected twice.
- Transformers.ProjectedStatusesOrderFree: states only that success agrees and that successful results are equal. The error raised can depend on the order.
- Transformers.ActionsTransformed: its own contract states only the empty-status error and well-formedness, and `ActionsTransformedNoRows` adds the error on `actions` without rows. No end-to-end statement of the result is proved. The content is stated step by step: by `MergeStepParts` for each step of the `Merged` / `MergedFrom` fold, by `SideResolved` and `CoalescedSideRule` for the side column, and by `DuplicatesResolvedRows` and `DuplicatesResolvedRule` for the duplicate pass.
- `upload_and_parse_json` and `plot_map` in `utils/components.py`, and the page wiring in `app.py`, are not part of this model.
