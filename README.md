# OrCAD symbol library manager: reconciliation core

This project models the data work behind the OrCAD Symbol Library Manager window
(`src/OrCAD_SymblLibManager.py`). The window shows an OrCAD XML symbol library as a
spreadsheet. It takes CSV edits and merges the table back into a template library. The
model covers:

- **Library model.** A library is a sequence of `Package`s. Each has an optional
  `Package/Defn` attribute map and an optional `LibPart`. A `LibPart` has an optional
  `Defn` and an optional `NormalView` list of `SymbolUserProp/Defn` name/value pairs
  (module `Library`).
- **Python semantics the handlers rely on** (modules `Strings`, `Sorting` and `Dicts`):
  - `str.strip()` over Python's whitespace set, ASCII `lower()`, substring search and
    `' '.join`;
  - `sorted(set)` by code point;
  - insertion-ordered dicts, where a later duplicate key overwrites the value but keeps
    the first position.
- **Property-name scan** (`_extract_props`) and **template index**
  (`_extract_template_parts`), in module `Schema`.
- **Table rows** of `populate_table` and the **search** match of `apply_search`
  (module `Table`).
- **Compare CSV to Template** (module `Compare`) and **Validate CSV** (module
  `Validate`).
- **Save XML**: the update map built from the table (step 1) and the in-place merge
  into the template (step 2), in module `Merge`.
- **Edit routing** of `_save_edit`: where an edited cell would be written into a part
  (module `Edit`).
- **The window's state**, as the class `App.Spreadsheet`: the template (an array merged
  in place), the loaded parts, the property names, the table columns and rows with their
  attached/detached flags, the imported CSV data, the update history and the current
  filter. Each handler is a method that changes these fields.

Where the description of the program and its code differ, the model follows the code:

- **CSV header.** A CSV is accepted when `PartName` is anywhere in the header row. It
  need not be the first column. Compare and Save still use cell 0 of every row as the
  part name, while Validate reads the column named `PartName`.
- **Compare lookup.** Compare looks each row up in the template by its first cell with
  case taken into account; Save matches names after trimming and lowercasing. Compare
  also reads the imported CSV data (trimmed when imported), while Save reads the table,
  which cell edits may have changed since.
- **Cell edits.** A cell edit updates only the table. The write-back into the parts
  starts with `int(row_id)`, but the row id is a UUID string, so this always raises and
  the bare `except` swallows it. The parts and the update history therefore never
  change (`App.Spreadsheet.SaveEdit`). `Edit.RouteEdit` models the routing that the
  handler's unreachable branch describes.
- **Save without an output file.** Save changes the template in memory before it asks
  for an output file, so a cancelled dialog still leaves the template merged.

## Model

| member | source | states |
|---|---|---|
| Library.LoadPartsMembers | src/OrCAD_SymblLibManager.py:238 | The loaded parts are exactly the document's packages that have a `LibPart`, none added. |
| Library.LoadPartsAppend | src/OrCAD_SymblLibManager.py:238 | Loading keeps document order and repeats: the parts of two concatenated documents are the first's followed by the second's. |
| Library.LoadPartsOne | src/OrCAD_SymblLibManager.py:238 | A single package is kept, once, exactly when it has a `LibPart`. |
| Library.DefnKeys | src/OrCAD_SymblLibManager.py:392-396 | The mandatory-field names are exactly the attribute names of some loaded part's `Package/Defn`. |
| Schema.CollectPropNames | src/OrCAD_SymblLibManager.py:496-502 | Fails exactly when a part lacks `Package/Defn`. Otherwise the result is strictly sorted and holds exactly the names of `Package/Defn` attributes and user properties over all parts. |
| Sorting.SortDistinct | src/OrCAD_SymblLibManager.py:502 | `sorted(set)`: strictly increasing, with the same members as the input. |
| Sorting.SortedUnique | src/OrCAD_SymblLibManager.py:502 | Two strictly sorted lists with the same members are equal, so the sorted name list is determined by the name set. |
| Schema.TemplatePartsKeys | src/OrCAD_SymblLibManager.py:504-513 | The template index has exactly one key per non-empty `LibPart/Defn@CellName` of a package. |
| Schema.TemplatePartsLastWins | src/OrCAD_SymblLibManager.py:510-512 | The index maps a name to the user properties of the last package with that name (in document order when names do not repeat: `Schema.TemplateMaskInOrder`). |
| Schema.TemplateMaskInOrder | src/OrCAD_SymblLibManager.py:504-513 | When the last package with a name repeats no user property name, the index maps that name to its user properties, in document order, with their values. |
| Library.UserDictInOrder | src/OrCAD_SymblLibManager.py:511 | With no user property name repeated, the dict of user properties lists them in document order. |
| Dicts.FromPairsLastWins | src/OrCAD_SymblLibManager.py:263 | In a dict built from pairs, a key's value is the one from its last pair. |
| Dicts.FromDistinctPairs | src/OrCAD_SymblLibManager.py:390 | A dict built from pairs whose keys are distinct holds those pairs in their order. |
| Dicts.SelectAppend | src/OrCAD_SymblLibManager.py:398-399 | Filtering a dict by key keeps its order: filtering two runs of entries gives the first run's result followed by the second's. |
| Table.BuildRow | src/OrCAD_SymblLibManager.py:257-267 | A row has one cell per property after the name cell. The name is `LibPart/Defn@CellName`, else `Package/Defn@name`; when that attribute is missing the cell holds the text "None", as Tk stores Python's `None`. |
| Table.RowCellUser | src/OrCAD_SymblLibManager.py:262-265 | A property cell shows the value of the last user property of that name, or '' when it has none, even over a `Package/Defn` attribute of the same name. |
| Table.RowCellAttr | src/OrCAD_SymblLibManager.py:262-265 | Without a user property of that name, a property cell shows the `Package/Defn` attribute, else ''. |
| Table.EmptySearchMatchesAll | src/OrCAD_SymblLibManager.py:298-306 | A blank search term keeps every row. |
| Table.CellHitMatches | src/OrCAD_SymblLibManager.py:302-304 | A term found in one lowercased cell keeps the row. |
| Strings.StripIdempotent | src/OrCAD_SymblLibManager.py:334 | Stripping twice gives the same result as stripping once. |
| Compare.RowDiffContents | src/OrCAD_SymblLibManager.py:146-153 | `added` is the sorted, distinct row names unknown to the template up to case; `removed` is the sorted, distinct template names the row lacks. |
| Compare.NoDiffIffSameNames | src/OrCAD_SymblLibManager.py:149-155 | A row reports no difference exactly when its names and the template's agree as lowercase sets. |
| Compare.CompareRowsEmptyIff | src/OrCAD_SymblLibManager.py:142-157 | The report is empty (and no row fails) exactly when the rows agree with the template. |
| Compare.AllAgreeIff | src/OrCAD_SymblLibManager.py:143-145 | Agreement holds row by row: every row has a cell, and every row whose non-empty first cell names a template part exactly agrees with that part. |
| Compare.ExactMatchIff | src/OrCAD_SymblLibManager.py:132-160 | "Match exactly" appears exactly when every considered row has its template part's property names, up to case. |
| Validate.ClassifyPartition | src/OrCAD_SymblLibManager.py:358-359 | "To Update" and "To Add" split the names: their multisets add up to the input's. |
| Validate.ClassifySizes | src/OrCAD_SymblLibManager.py:358-359 | The two lists' lengths add up to the number of names. |
| Validate.ClassifyMembers | src/OrCAD_SymblLibManager.py:358-359 | Each list holds only input names on its own side: template names up to case for "To Update", others for "To Add". |
| Validate.ValidateCounts | src/OrCAD_SymblLibManager.py:346-359 | Each table row is counted once. "To Update" names match a template part up to case; "To Add" names match none. |
| Validate.ColumnIndex | src/OrCAD_SymblLibManager.py:356 | The `PartName` cell is read from the first column with that name. |
| Merge.ColumnRouted | src/OrCAD_SymblLibManager.py:390-399 | Each column goes to the mandatory-field edits exactly when it is a `Package/Defn` attribute name, and to the user-property edits otherwise. |
| Merge.CollectUpdates | src/OrCAD_SymblLibManager.py:385-400 | Step 1 loop: the update map of the table rows. It is absent exactly when some row has no cells. |
| Merge.UpdateMapKeys | src/OrCAD_SymblLibManager.py:387-400 | The update map's keys are exactly the rows' trimmed, lowercased names. |
| Merge.UpdateMapLastWins | src/OrCAD_SymblLibManager.py:400 | A key maps to the split of the last row with that normalised name. |
| Merge.SplitRowInOrder | src/OrCAD_SymblLibManager.py:390-399 | With no column name repeated, the mandatory-field edits and the user-property edits are the row's (column, cell) pairs after the name cell, on each side of the attribute names, in column order. |
| Merge.SplitRowDistinct | src/OrCAD_SymblLibManager.py:390-399 | A row's mandatory-field edits and user-property edits each name a field once. |
| Merge.UpdateMapDistinct | src/OrCAD_SymblLibManager.py:385-400 | Every entry of the update map names each field once, so `Merge.MergedPackage` applies to every package a save merges. |
| Merge.SetStrippedSpec | src/OrCAD_SymblLibManager.py:427-429 | Mandatory-field edits are written trimmed, and other `Package/Defn` attributes are kept. |
| Merge.MaskPropsKeepsOrder | src/OrCAD_SymblLibManager.py:449-456 | Without strict mode, the template mask is emitted in order, each entry with its edited or template value. The mask is in document order by `Schema.TemplateMaskInOrder`. |
| Merge.MaskOrderExample | src/OrCAD_SymblLibManager.py:449-456 | A template part with properties A, B, C, of which only B is edited, is rewritten as A, B', C. |
| Merge.StrictDropsEmpty | src/OrCAD_SymblLibManager.py:452-453 | Strict mode emits the same list with the empty values removed. |
| Merge.NewPropsAppend | src/OrCAD_SymblLibManager.py:460-464 | New properties keep the order of the user-property edits, which is column order by `Merge.SplitRowInOrder`: the result for two runs of edits is the first run's followed by the second's. |
| Merge.NewPropsOne | src/OrCAD_SymblLibManager.py:461-464 | One edit yields its property exactly when it has a value and its name, up to case, is neither a mask name nor a mandatory-field edit. |
| Merge.NewPropsSpec | src/OrCAD_SymblLibManager.py:458-464 | An edit is appended exactly when it has a value and its name, up to case, is neither a mask name nor a mandatory-field edit. |
| Merge.MergeSkips | src/OrCAD_SymblLibManager.py:405-423 | A package is merged exactly when it has a `LibPart`, both `Defn`s, a non-empty `CellName` and a matching row. Otherwise it is unchanged and not counted. |
| Merge.MergedPackage | src/OrCAD_SymblLibManager.py:425-466 | `Package/Defn` gains the trimmed mandatory-field edits and keeps its other attributes. `LibPart/Defn` holds only `CellName`, taken unstripped from the row when the row edits it. The user properties are the mask's, followed by the new edits. |
| Merge.MergeInPlace | src/OrCAD_SymblLibManager.py:403-466 | Every template package is replaced in place by its merged form; the count is the number merged. |
| Merge.ReplaceEach | src/OrCAD_SymblLibManager.py:403-423 | The step-2 loop: each array element is replaced by what the per-package step makes of it, and the flagged ones are counted. |
| Merge.CountWhereMerged | src/OrCAD_SymblLibManager.py:403-423 | Counting with the merge step gives the merged count. |
| Merge.MergedIffRowMatches | src/OrCAD_SymblLibManager.py:416-423 | A mergeable package is updated exactly when some row's name equals its `CellName` after trimming and lowercasing. |
| Edit.RouteEditSpec | src/OrCAD_SymblLibManager.py:193-204 | An edit sets the `Package/Defn` attribute if there is one, else the first user property of that name, else appends a new one. Nothing else changes. |
| Edit.EditToAttrHidden | src/OrCAD_SymblLibManager.py:195-196 | An edit of a column that is both a `Package/Defn` attribute and a user property goes to the attribute, while the rebuilt row (lines 262-264) still shows the user property. |
| Edit.EditToFirstHidden | src/OrCAD_SymblLibManager.py:198-201 | An edit of a name two user properties carry goes to the first, while the rebuilt row (line 263) shows the last. |
| Edit.EditShownInRow | src/OrCAD_SymblLibManager.py:193-204 | If the column is not both an attribute and a user property and names at most one user property, the rebuilt row shows the edit. |
| App.ShownAppend | src/OrCAD_SymblLibManager.py:297-308 | The table keeps insertion order: the rows shown from two runs of rows are the first run's followed by the second's. |
| App.Spreadsheet.constructor | src/OrCAD_SymblLibManager.py:14-21 | The window starts with no template, no parts, no properties, no rows, no CSV data, no history and no filter. |
| App.Spreadsheet.PopulateTable | src/OrCAD_SymblLibManager.py:243-269 | The columns are `PartName` plus the properties, with one attached row per part, in order. |
| App.Spreadsheet.LoadXml | src/OrCAD_SymblLibManager.py:232-241 | The parts are replaced. If the property scan fails, the names and table stay as they were; otherwise the names are sorted and the table is refilled. |
| App.Spreadsheet.LoadTemplate | src/OrCAD_SymblLibManager.py:289-295 | The template is replaced by a fresh copy of the document. |
| App.Spreadsheet.ImportCsv | src/OrCAD_SymblLibManager.py:327-344 | Accepted exactly when the header contains `PartName`, and a rejected file changes nothing. When accepted, the columns are the header, the properties its tail, and the CSV data and table are the trimmed data rows. |
| App.Spreadsheet.ApplySearch | src/OrCAD_SymblLibManager.py:297-308 | Exactly the rows that match the trimmed, lowercased term stay attached, and the term is recorded. |
| App.Spreadsheet.SaveEdit | src/OrCAD_SymblLibManager.py:189-210 | Only the edited row changes: as Tk does, it is first filled with empty cells up to the column count, then the edited cell takes the value. The parts and history do not change. |
| App.Spreadsheet.CompareToTemplate | src/OrCAD_SymblLibManager.py:132-160 | Reports the missing template or CSV. Otherwise it is the comparison of the imported data with the template's index, and when every row has a cell it reports an exact match exactly when every considered row agrees with the template. |
| App.Spreadsheet.ValidateCsv | src/OrCAD_SymblLibManager.py:346-371 | With a template, it is the classification of the shown rows' names: each counted once, "To Update" names matching a template part up to case and "To Add" names matching none, with both counts in the filter text. |
| App.Spreadsheet.SaveXml | src/OrCAD_SymblLibManager.py:374-474 | Without a template nothing happens. A nameless row stops the save before any change. Otherwise every template package is merged in place and the merged count is reported. |

## Left out

- Tk widgets, layout, scrolling, column auto-fit (`fit_columns_to_content`) and the
  status bar text (`update_status`): presentation only.
- Reading and writing files, the file dialogs and message boxes. Files are parameters:
  an XML document is a sequence of packages and a CSV is a sequence of rows. Writing the
  merged template (lines 468-474) and `export_csv` are output only.
- `sort_by_column`: its numeric ordering parses floats. Because it is left out, the
  model does not capture how a column sort reorders the shown rows.
- `show_update_history`: the history is never filled, because the write-back in
  `_save_edit` always raises, so it can only report that it is empty.
- `edit_cell`: finding the clicked cell is UI. `SaveEdit` takes the row and column.
- Row ids: rows are addressed by position instead of by UUID.
- Tk's coercion of cell values, which turns numeric-looking strings into numbers when
  they are read back: cells stay strings.
- Lowercasing is ASCII only. Python's Unicode case mapping is not modelled.
- XML attribute order and any elements other than `Package/Defn`, `LibPart/Defn` and
  `NormalView` user properties.
- Nested packages: the document is flat.
- User properties outside `NormalView`, since the source searches the whole `LibPart`.
- A user property with no `name` attribute: names are always strings.
- Python's `IndexError` on a row with no cells in Compare and Save becomes an explicit
  `RowWithoutName` outcome.
- The console notice a save prints for a template package with no matching row
  (line 422): output only. The package is still skipped, as `Merge.MergeSkips` states.
- Validate.ColumnIndex: the `PartName` cell is read through Tk by column name. Which of
  two columns with that name Tk picks is Tk's choice; the model takes the first.
- App.Spreadsheet.SaveEdit: Tk addresses a column by name. The model addresses it by position, which
  differs only for a header that names the same column twice.
- Report text formatting (joining names with commas, the five examples in Validate) is
  left out. The model keeps the underlying lists.
