# Personal-data masking and the work tracker, modelled in Dafny

This project models two programs from a set of office tools.

**The masking program** copies a CSV file or an Excel workbook and hides the personal data in it. Each column is handled according to its header.

- A header that contains a keyword such as 名前, 住所, 電話 or email makes every non-blank cell of the column `***`.
- A header that contains メモ or 備考 also cuts the column's cells to 255 characters.
- Every other cell goes through the entity tier, then the pattern tier:
  - the entity tier (a Japanese named-entity model) replaces each person, place or organisation span with `***`, from the last span to the first;
  - the pattern tier then replaces every match of five regular expressions, in order: email address, phone number, mobile number, postal code, address.
- A CSV file is read with the first encoding that works, out of utf-8-sig, cp932, shift_jis and utf-8. It is written back in the same encoding.
- An Excel workbook is masked sheet by sheet, in place. The first row of each sheet is never changed.

**The work tracker** (`ModernTracker`) keeps an ordered table of named groups, each holding an ordered list of tasks, plus an "expanded" flag per group. Its methods do the following:

- move groups and tasks up and down;
- add, rename and delete groups and tasks;
- run one task at a time, with a memo;
- append a record to the work log each time a running task ends.

## Modules

- `MaskSettings` (settings.dfy): the constants, and the cell value: Python's None, a string, or any other object with its `str()` text and its truth value.
- `PyText` (text.dfy): `str.strip()`, `str.lower()` and the substring test.
- `Detection` (detection.dfy): the parts of a run that are parameters. These are the entity parse, whether the model loaded, and three of the five patterns.
- `HeaderPolicy` (header_policy.dfy): `should_mask_header` and `should_truncate_header`.
- `PatternTier` (pattern_tier.dfy): `re.sub` as a left-to-right scan, and the email and postal-code patterns character by character.
- `EntityTier` (entity_tier.dfy):
  - the descending sort of the entities by start;
  - the splice loop;
  - a reference redaction at the original offsets.
- `CellRedactor` (cell_redactor.dfy): `mask_value`, `mask_by_pattern`, `mask_by_ner` and `truncate`.
- `CsvAdapter` (csv_adapter.dfy): `process_csv` over a reader function, one per encoding.
- `XlsxAdapter` (xlsx_adapter.dfy): `process_xlsx` over the sheets, as `array2`s that are updated in place.
- `GroupDict` (tracker_groups.dfy): the tracker's `groups` dictionary.
  - It is a value: the keys in insertion order, plus the map.
  - It comes with the list operations the tracker uses: `index`, swap, `remove`, and dictionary update and rebuild.
- `TaskTracker` (tracker.dfy): the class `Tracker`, whose methods update its fields in place.
  - A method that returns `ok` returns `false` exactly where the Python code raises `KeyError` or `ValueError`, and then changes nothing.
  - Dialog answers and the clock are parameters.

### Notes on the behaviour the code shows

- Every truncate keyword (メモ, 備考) is also in `HEADER_KEYWORDS`, so a memo column is masked whole: its cells become `***` or stay blank. The truncation can then only shorten a whitespace-only cell longer than 255 characters. This is proved as `CsvAdapter.MemoColumnsAreMasked` and `XlsxAdapter.MemoColumnIsMasked`.
- The bare keyword 名 makes any header containing it a mask column, for example 件名 or 品名.
- `edit_group_name` does not refuse a new name that is already a group. The two entries merge into one, at the earlier of the two positions. It holds the task list of whichever of the two names came later in the table, and the other list is lost. See `GroupDict.RenameOntoExistingName`.
- `edit_task` does not refuse a name that is already in the list, so renaming a task to the name of another task in the list leaves that name in the list twice. See `GroupDict.EditTaskCanDuplicate`.
- Deleting a group keeps its expanded flag.

## Model

| member | source | states |
|---|---|---|
| HeaderPolicy.MaskHeaderIffKeyword | 70_Frameworks/74_AI_Systems/74_1_Tools_Settings/bin/mask_personal_info.py:56-60 | A header is a mask header iff it is not None and some keyword occurs in its ASCII-lowered text; the strip never changes the answer. |
| HeaderPolicy.MaskHeaderIgnoresCase | 70_Frameworks/74_AI_Systems/74_1_Tools_Settings/bin/mask_personal_info.py:59-60 | The mask test gives the same answer for a header and its lower-cased form. |
| HeaderPolicy.NameCharMasks | 70_Frameworks/74_AI_Systems/74_1_Tools_Settings/bin/mask_personal_info.py:31 | Any header containing 名 is a mask header. |
| HeaderPolicy.TruncateHeaderIffKeyword | 70_Frameworks/74_AI_Systems/74_1_Tools_Settings/bin/mask_personal_info.py:63-67 | A header is a truncate header iff it is not None and contains メモ or 備考, case-sensitively. |
| HeaderPolicy.TruncateImpliesMask | 70_Frameworks/74_AI_Systems/74_1_Tools_Settings/bin/mask_personal_info.py:39-42 | Every truncate header is also a mask header. |
| HeaderPolicy.KeywordsAreFolded | 70_Frameworks/74_AI_Systems/74_1_Tools_Settings/bin/mask_personal_info.py:30-40 | Every mask keyword is non-empty, has no whitespace at either end, and is unchanged by lower-casing. |
| PyText.TrimStart | 70_Frameworks/74_AI_Systems/74_1_Tools_Settings/bin/mask_personal_info.py:59 | The result of lstrip is a suffix of the input; what was removed is all whitespace, and the result does not start with whitespace. |
| PyText.TrimEnd | 70_Frameworks/74_AI_Systems/74_1_Tools_Settings/bin/mask_personal_info.py:59 | The result of rstrip is a prefix of the input; what was removed is all whitespace, and the result does not end with whitespace. |
| PyText.StripIsSlice | 70_Frameworks/74_AI_Systems/74_1_Tools_Settings/bin/mask_personal_info.py:66 | strip() is a slice of the input with only whitespace outside it. |
| PyText.StripEmptyIffBlank | 70_Frameworks/74_AI_Systems/74_1_Tools_Settings/bin/mask_personal_info.py:71 | `s.strip() == ""` iff every character of `s` is whitespace. |
| PyText.Lower | 70_Frameworks/74_AI_Systems/74_1_Tools_Settings/bin/mask_personal_info.py:59 | lower() keeps the length and leaves no ASCII capital. Each capital becomes its small letter, and every other character is kept. |
| PyText.LowerIdempotent | 70_Frameworks/74_AI_Systems/74_1_Tools_Settings/bin/mask_personal_info.py:59 | Lowering twice is the same as lowering once. |
| PyText.ContainsIffOccurs | 70_Frameworks/74_AI_Systems/74_1_Tools_Settings/bin/mask_personal_info.py:60 | The substring test succeeds iff the keyword occurs at some index. |
| PyText.StripKeepsOccurrence | 70_Frameworks/74_AI_Systems/74_1_Tools_Settings/bin/mask_personal_info.py:59-60 | For a keyword with no whitespace at either end, stripping the text never changes whether it contains the keyword. |
| PyText.LowerKeepsOccurrence | 70_Frameworks/74_AI_Systems/74_1_Tools_Settings/bin/mask_personal_info.py:59-60 | A lower-case keyword found in a text is also found in the lowered text. |
| CellRedactor.MaskValue | 70_Frameworks/74_AI_Systems/74_1_Tools_Settings/bin/mask_personal_info.py:70-73 | None and whitespace-only cells come back unchanged; every other cell becomes the marker. |
| CellRedactor.Truncate | 70_Frameworks/74_AI_Systems/74_1_Tools_Settings/bin/mask_personal_info.py:100-104 | None stays None. Otherwise the result is a prefix of the text of at most 255 characters: the whole text when it fits, exactly 255 characters when it does not. |
| CellRedactor.TruncateIdempotent | 70_Frameworks/74_AI_Systems/74_1_Tools_Settings/bin/mask_personal_info.py:100-104 | Truncating twice is the same as truncating once. |
| CellRedactor.MaskByPattern | 70_Frameworks/74_AI_Systems/74_1_Tools_Settings/bin/mask_personal_info.py:76-82 | The loop over PATTERNS equals the five substitutions applied in list order. |
| CellRedactor.PatternMaskedKeepsMarker | 70_Frameworks/74_AI_Systems/74_1_Tools_Settings/bin/mask_personal_info.py:76-82 | An already masked cell (`***`) passes through the pattern tier unchanged, given that the three oracle patterns leave it alone. |
| CellRedactor.PatternMaskedWithoutMatch | 70_Frameworks/74_AI_Systems/74_1_Tools_Settings/bin/mask_personal_info.py:76-82 | A text in which no pattern matches comes out unchanged. |
| CellRedactor.NerMasked | 70_Frameworks/74_AI_Systems/74_1_Tools_Settings/bin/mask_personal_info.py:85-97 | None gives None. Without the language model the result is the pattern tier's. A blank cell is returned as it is when the model is present. |
| CellRedactor.MaskByNer | 70_Frameworks/74_AI_Systems/74_1_Tools_Settings/bin/mask_personal_info.py:85-97 | The splice loop over the sorted entities, followed by the pattern tier, equals the specification function NerMasked. |
| CellRedactor.NerMaskedIsReference | 70_Frameworks/74_AI_Systems/74_1_Tools_Settings/bin/mask_personal_info.py:91-97 | For well-formed entities, mask_by_ner equals the marker put in place of every target entity at its original offsets, followed by the pattern tier. |
| CellRedactor.NerMaskedIgnoresOtherLabels | 70_Frameworks/74_AI_Systems/74_1_Tools_Settings/bin/mask_personal_info.py:94-96 | When no entity has a target label, mask_by_ner on a non-blank cell equals mask_by_pattern. |
| EntityTier.SortDesc | 70_Frameworks/74_AI_Systems/74_1_Tools_Settings/bin/mask_personal_info.py:93 | The sort's output is ordered by descending start and is a permutation of its input. |
| EntityTier.InsertDesc | 70_Frameworks/74_AI_Systems/74_1_Tools_Settings/bin/mask_personal_info.py:93 | Each insertion step of the sort keeps the order and adds exactly one entity. |
| EntityTier.SortDescReverses | 70_Frameworks/74_AI_Systems/74_1_Tools_Settings/bin/mask_personal_info.py:93 | For entities in document order, the descending sort is their reverse. |
| EntityTier.ReverseRedactMatchesReference | 70_Frameworks/74_AI_Systems/74_1_Tools_Settings/bin/mask_personal_info.py:94-96 | Splicing from the last entity to the first never shifts an entity that is still to be spliced, so the result is the reference redaction. |
| EntityTier.EntityLoopIsReference | 70_Frameworks/74_AI_Systems/74_1_Tools_Settings/bin/mask_personal_info.py:93-96 | Sorting then splicing equals the reference redaction. |
| EntityTier.NonTargetsKeepText | 70_Frameworks/74_AI_Systems/74_1_Tools_Settings/bin/mask_personal_info.py:95 | A splice loop over entities none of which has a target label returns the text unchanged. |
| EntityTier.ReferenceLocal | 70_Frameworks/74_AI_Systems/74_1_Tools_Settings/bin/mask_personal_info.py:96 | The reference reads no text beyond the last entity's end. |
| EntityTier.ReferenceLast | 70_Frameworks/74_AI_Systems/74_1_Tools_Settings/bin/mask_personal_info.py:96 | The reference splits after its last entity. |
| PatternTier.SubLeavesNoMatch | 70_Frameworks/74_AI_Systems/74_1_Tools_Settings/bin/mask_personal_info.py:81 | After `re.sub` no match of the pattern starts anywhere in the output, for any pattern that cannot match the marker and whose match depends only on the matched text. |
| PatternTier.SubWithoutMatchIsIdentity | 70_Frameworks/74_AI_Systems/74_1_Tools_Settings/bin/mask_personal_info.py:81 | A text with no match comes out of `re.sub` unchanged. |
| PatternTier.SubIdempotent | 70_Frameworks/74_AI_Systems/74_1_Tools_Settings/bin/mask_personal_info.py:81 | Applying `re.sub` twice equals applying it once. |
| PatternTier.SubKeepsPrefix | 70_Frameworks/74_AI_Systems/74_1_Tools_Settings/bin/mask_personal_info.py:81 | The output of `re.sub` up to its first marker character is input text. |
| PatternTier.PostalMatcherFits | 70_Frameworks/74_AI_Systems/74_1_Tools_Settings/bin/mask_personal_info.py:48 | A postal match never covers a `*`, and any text that agrees with a match on the matched characters matches too. |
| PatternTier.ScrubPostalComplete | 70_Frameworks/74_AI_Systems/74_1_Tools_Settings/bin/mask_personal_info.py:48 | No postal code is left after scrubbing, and scrubbing is idempotent. |
| PatternTier.EmailMatcherFits | 70_Frameworks/74_AI_Systems/74_1_Tools_Settings/bin/mask_personal_info.py:45 | An email match never covers a `*`, and any text that agrees with a match on the matched characters matches too. |
| PatternTier.ScrubEmailComplete | 70_Frameworks/74_AI_Systems/74_1_Tools_Settings/bin/mask_personal_info.py:45 | No email address is left after scrubbing, and scrubbing is idempotent. |
| PatternTier.PatternsInOrder | 70_Frameworks/74_AI_Systems/74_1_Tools_Settings/bin/mask_personal_info.py:44-50 | The fold over PATTERNS applies email, phone, mobile, postal and address, in that order. |
| CsvAdapter.ReadWithFallback | 70_Frameworks/74_AI_Systems/74_1_Tools_Settings/bin/mask_personal_info.py:140-150 | The encoding loop returns the first encoding, in list order, with which the file reads, together with its rows. |
| CsvAdapter.FirstReadIsFirst | 70_Frameworks/74_AI_Systems/74_1_Tools_Settings/bin/mask_personal_info.py:143-150 | The fallback fails iff every encoding fails. On success, every earlier encoding failed and the rows are those read with the chosen one. |
| CsvAdapter.ProcessCsv | 70_Frameworks/74_AI_Systems/74_1_Tools_Settings/bin/mask_personal_info.py:139-176 | process_csv gives the error when no rows were read; otherwise it gives the header unchanged and every data row masked, in the encoding that read the file. |
| CsvAdapter.ProcessCsvEncoding | 70_Frameworks/74_AI_Systems/74_1_Tools_Settings/bin/mask_personal_info.py:140-153 | process_csv succeeds iff the first encoding that reads yields at least one row. The output then uses that encoding, and its rows are the rows read with it, masked by MaskRows. |
| CsvAdapter.TruncatedColsAreMasked | 70_Frameworks/74_AI_Systems/74_1_Tools_Settings/bin/mask_personal_info.py:156-157 | Every column in truncate_cols is also in masked_cols. |
| CsvAdapter.CsvCell | 70_Frameworks/74_AI_Systems/74_1_Tools_Settings/bin/mask_personal_info.py:165-171 | In a masked column, a non-blank cell gives the marker. A blank cell gives a blank prefix of itself, and the cell unchanged when the column is not also a truncate column. Other columns give mask_by_ner. A truncate column is at most 255 characters. |
| CsvAdapter.MaskCsvCell | 70_Frameworks/74_AI_Systems/74_1_Tools_Settings/bin/mask_personal_info.py:166-171 | The body of the cell loop equals the specification function CsvCell. |
| CsvAdapter.MaskDataRow | 70_Frameworks/74_AI_Systems/74_1_Tools_Settings/bin/mask_personal_info.py:164-172 | The cell loop masks every cell of a row by its column's policy. |
| CsvAdapter.MaskDataRows | 70_Frameworks/74_AI_Systems/74_1_Tools_Settings/bin/mask_personal_info.py:159-173 | The row loop keeps the header row, keeps the number of rows, and masks every data row with MaskRow under the given column sets. |
| CsvAdapter.MaskRowByPolicy | 70_Frameworks/74_AI_Systems/74_1_Tools_Settings/bin/mask_personal_info.py:164-172 | In a masked column a non-blank cell becomes the marker and a blank one stays blank (unchanged outside truncate columns). A column in neither set goes through mask_by_ner. A truncate column is at most 255 characters. |
| CsvAdapter.MaskRows | 70_Frameworks/74_AI_Systems/74_1_Tools_Settings/bin/mask_personal_info.py:159-173 | The table keeps its shape; the header row is unchanged and every data row is masked by the header's policy. |
| CsvAdapter.MaskedColumnsHideValues | 70_Frameworks/74_AI_Systems/74_1_Tools_Settings/bin/mask_personal_info.py:166-167 | In a masked column, every non-blank data cell becomes the marker. Every blank one stays blank, and is unchanged when the column is not also a truncate column. |
| CsvAdapter.CellsBeyondHeaderUseEntities | 70_Frameworks/74_AI_Systems/74_1_Tools_Settings/bin/mask_personal_info.py:165-169 | A cell beyond the end of the header row goes through mask_by_ner and is not cut. |
| CsvAdapter.MemoColumnsAreMasked | 70_Frameworks/74_AI_Systems/74_1_Tools_Settings/bin/mask_personal_info.py:166-171 | A memo column's data cells are the marker or blank, and at most 255 characters long. |
| XlsxAdapter.ScanHeader | 70_Frameworks/74_AI_Systems/74_1_Tools_Settings/bin/mask_personal_info.py:115-122 | The header scan loop puts a column in masked_cols iff its header cell is a mask header, and in truncate_cols iff it is a truncate header. |
| XlsxAdapter.TruncatedColumnsAreMasked | 70_Frameworks/74_AI_Systems/74_1_Tools_Settings/bin/mask_personal_info.py:118-122 | Every column in truncate_cols is also in masked_cols. |
| XlsxAdapter.XlsxCell | 70_Frameworks/74_AI_Systems/74_1_Tools_Settings/bin/mask_personal_info.py:128-133 | A masked column hides every non-blank value, whatever its type. Other columns give mask_by_ner. None stays None. A truthy value in a truncate column is cut to 255 characters. |
| XlsxAdapter.MaskXlsxCell | 70_Frameworks/74_AI_Systems/74_1_Tools_Settings/bin/mask_personal_info.py:128-133 | The body of the cell loop equals the specification function XlsxCell. |
| XlsxAdapter.MaskedSheet | 70_Frameworks/74_AI_Systems/74_1_Tools_Settings/bin/mask_personal_info.py:124-133 | A masked sheet keeps its shape and its first row. |
| XlsxAdapter.MaskSheetRow | 70_Frameworks/74_AI_Systems/74_1_Tools_Settings/bin/mask_personal_info.py:125-133 | One row's cells are replaced in place, the first row is skipped, and every other row is untouched. |
| XlsxAdapter.MaskSheet | 70_Frameworks/74_AI_Systems/74_1_Tools_Settings/bin/mask_personal_info.py:114-133 | The sheet's cells after the loop equal MaskedSheet of its cells before. |
| XlsxAdapter.CellsAreMaskedSheet | 70_Frameworks/74_AI_Systems/74_1_Tools_Settings/bin/mask_personal_info.py:124-133 | Agreement cell by cell with the per-cell rule is equality with MaskedSheet. |
| XlsxAdapter.ProcessXlsx | 70_Frameworks/74_AI_Systems/74_1_Tools_Settings/bin/mask_personal_info.py:109-134 | Without openpyxl the call raises ImportError and no sheet is touched; otherwise every sheet is masked in place. |
| XlsxAdapter.HeaderRowKept | 70_Frameworks/74_AI_Systems/74_1_Tools_Settings/bin/mask_personal_info.py:126-127 | Row 1 of every sheet is never changed. |
| XlsxAdapter.MaskedColumnHidesValues | 70_Frameworks/74_AI_Systems/74_1_Tools_Settings/bin/mask_personal_info.py:128-129 | In a masked column, every non-empty data cell becomes the marker. |
| XlsxAdapter.EmptyCellsStayEmpty | 70_Frameworks/74_AI_Systems/74_1_Tools_Settings/bin/mask_personal_info.py:128-133 | An empty cell stays empty. |
| XlsxAdapter.MemoColumnIsMasked | 70_Frameworks/74_AI_Systems/74_1_Tools_Settings/bin/mask_personal_info.py:128-133 | In a memo column a non-blank cell becomes the marker; an empty or blank cell is kept or cut; no cell is longer than 255 characters. |
| GroupDict.DefaultGroupsValid | 70_Frameworks/74_AI_Systems/74_1_Tools_Settings/bin/FinalTracker_ExcelReady.py:58-62 | The default group table has distinct names, and every name has a task list. |
| GroupDict.DistinctIsApart | 70_Frameworks/74_AI_Systems/74_1_Tools_Settings/bin/FinalTracker_ExcelReady.py:47 | The recursive "no name twice" agrees with the pairwise one. |
| GroupDict.IndexOf | 70_Frameworks/74_AI_Systems/74_1_Tools_Settings/bin/FinalTracker_ExcelReady.py:202 | `list.index` returns the first position that holds the element. |
| GroupDict.Swap | 70_Frameworks/74_AI_Systems/74_1_Tools_Settings/bin/FinalTracker_ExcelReady.py:204 | The two entries are exchanged and every other position is kept. |
| GroupDict.SwapPermutes | 70_Frameworks/74_AI_Systems/74_1_Tools_Settings/bin/FinalTracker_ExcelReady.py:204 | A swap keeps the same elements, with their counts. |
| GroupDict.RemoveFirst | 70_Frameworks/74_AI_Systems/74_1_Tools_Settings/bin/FinalTracker_ExcelReady.py:250 | `list.remove` takes out exactly one copy of the element, at its first occurrence, and keeps the rest in order. |
| GroupDict.Put | 70_Frameworks/74_AI_Systems/74_1_Tools_Settings/bin/FinalTracker_ExcelReady.py:235 | Assigning to the dictionary binds the key; a new key goes last, an existing key keeps its place, and the table stays well formed. |
| GroupDict.RebuildSwapped | 70_Frameworks/74_AI_Systems/74_1_Tools_Settings/bin/FinalTracker_ExcelReady.py:205 | Rebuilding the dictionary over the swapped key list keeps every name bound to its own list and gives exactly that order. |
| GroupDict.MovedUpSpec | 70_Frameworks/74_AI_Systems/74_1_Tools_Settings/bin/FinalTracker_ExcelReady.py:201-205 | Moving a group up keeps the bindings. It does nothing for the first group; otherwise it swaps the group with the one before it. |
| GroupDict.MovedDownSpec | 70_Frameworks/74_AI_Systems/74_1_Tools_Settings/bin/FinalTracker_ExcelReady.py:207-211 | Moving a group down keeps the bindings. It does nothing for the last group; otherwise it swaps the group with the one after it. |
| GroupDict.MovesPermute | 70_Frameworks/74_AI_Systems/74_1_Tools_Settings/bin/FinalTracker_ExcelReady.py:201-211 | A group move only reorders the names. |
| GroupDict.MoveUpThenDown | 70_Frameworks/74_AI_Systems/74_1_Tools_Settings/bin/FinalTracker_ExcelReady.py:201-211 | Moving a group that is not first up and then down restores the table. |
| GroupDict.AddedGroup | 70_Frameworks/74_AI_Systems/74_1_Tools_Settings/bin/FinalTracker_ExcelReady.py:230 | add_group puts the new name last with an empty list and keeps the table well formed. |
| GroupDict.RenamedNames | 70_Frameworks/74_AI_Systems/74_1_Tools_Settings/bin/FinalTracker_ExcelReady.py:232-236 | Whatever the names, a rename keeps the table well formed, and introduces no name except the new one. |
| GroupDict.RenameToFreshName | 70_Frameworks/74_AI_Systems/74_1_Tools_Settings/bin/FinalTracker_ExcelReady.py:234-236 | Renaming to a fresh name keeps the group at its position with its list. |
| GroupDict.RenameMissingName | 70_Frameworks/74_AI_Systems/74_1_Tools_Settings/bin/FinalTracker_ExcelReady.py:234-236 | Renaming a name that is not a group, to a name that is not one either, changes nothing. |
| GroupDict.RenameOntoExistingName | 70_Frameworks/74_AI_Systems/74_1_Tools_Settings/bin/FinalTracker_ExcelReady.py:232-236 | Renaming a group onto another group's name merges the two entries into one at the earlier position. The merged entry holds the list of whichever name came later, and the table has one group fewer. |
| GroupDict.AppendDistinct | 70_Frameworks/74_AI_Systems/74_1_Tools_Settings/bin/FinalTracker_ExcelReady.py:243 | Appending a name that is not yet in a distinct list keeps it distinct. |
| GroupDict.Removed | 70_Frameworks/74_AI_Systems/74_1_Tools_Settings/bin/FinalTracker_ExcelReady.py:239 | Deleting a group removes its name and its list and keeps the table well formed. Every other group keeps its list, and the order of the rest is kept. |
| GroupDict.RemoveFirstDistinct | 70_Frameworks/74_AI_Systems/74_1_Tools_Settings/bin/FinalTracker_ExcelReady.py:239 | Removing a name from distinct names leaves exactly the others, still distinct. |
| GroupDict.WithTasks | 70_Frameworks/74_AI_Systems/74_1_Tools_Settings/bin/FinalTracker_ExcelReady.py:216 | Replacing a group's list keeps the names and every other list. |
| GroupDict.TaskMoveUpSpec | 70_Frameworks/74_AI_Systems/74_1_Tools_Settings/bin/FinalTracker_ExcelReady.py:213-217 | Moving a task up keeps the tasks. It does nothing for the first task; otherwise it swaps the task with the one before it. |
| GroupDict.TaskMoveDownSpec | 70_Frameworks/74_AI_Systems/74_1_Tools_Settings/bin/FinalTracker_ExcelReady.py:219-223 | Moving a task down keeps the tasks. It does nothing for the last task; otherwise it swaps the task with the one after it. |
| GroupDict.TaskMoveUpThenDown | 70_Frameworks/74_AI_Systems/74_1_Tools_Settings/bin/FinalTracker_ExcelReady.py:213-223 | Moving a task that is not first up and then down restores the list, even with duplicates. |
| GroupDict.EditedTasks | 70_Frameworks/74_AI_Systems/74_1_Tools_Settings/bin/FinalTracker_ExcelReady.py:247 | The first occurrence of the old name takes the new name, and every other position is kept. |
| GroupDict.EditTaskCanDuplicate | 70_Frameworks/74_AI_Systems/74_1_Tools_Settings/bin/FinalTracker_ExcelReady.py:247 | Renaming a task to the name of another task in the list leaves that name in the list at least twice, so the list is no longer distinct. |
| TaskTracker.AllExpanded | 70_Frameworks/74_AI_Systems/74_1_Tools_Settings/bin/FinalTracker_ExcelReady.py:80-81 | The loop gives exactly the groups a flag, and every flag is True. |
| TaskTracker.Tracker.constructor | 70_Frameworks/74_AI_Systems/74_1_Tools_Settings/bin/FinalTracker_ExcelReady.py:36-81 | The tracker starts with the saved groups or the default ones, every group expanded, the status 停止中, an empty memo, no start time, and an empty log. |
| TaskTracker.Tracker.MoveGroupUp | 70_Frameworks/74_AI_Systems/74_1_Tools_Settings/bin/FinalTracker_ExcelReady.py:201-205 | The call fails iff the group is missing; otherwise the table becomes MovedUp of it. Nothing else changes. |
| TaskTracker.Tracker.MoveGroupDown | 70_Frameworks/74_AI_Systems/74_1_Tools_Settings/bin/FinalTracker_ExcelReady.py:207-211 | The call fails iff the group is missing; otherwise the table becomes MovedDown of it. Nothing else changes. |
| TaskTracker.Tracker.MoveTaskUp | 70_Frameworks/74_AI_Systems/74_1_Tools_Settings/bin/FinalTracker_ExcelReady.py:213-217 | The call fails iff the group or the task is missing; otherwise only that group's list moves the task up. |
| TaskTracker.Tracker.MoveTaskDown | 70_Frameworks/74_AI_Systems/74_1_Tools_Settings/bin/FinalTracker_ExcelReady.py:219-223 | The call fails iff the group or the task is missing; otherwise only that group's list moves the task down. |
| TaskTracker.Tracker.ToggleGroup | 70_Frameworks/74_AI_Systems/74_1_Tools_Settings/bin/FinalTracker_ExcelReady.py:225-226 | The flag is negated, with a missing flag read as True; nothing else changes. |
| TaskTracker.Tracker.AddGroup | 70_Frameworks/74_AI_Systems/74_1_Tools_Settings/bin/FinalTracker_ExcelReady.py:228-230 | A non-empty answer that is not yet a group is added last, empty and expanded; anything else changes nothing. |
| TaskTracker.Tracker.EditGroupName | 70_Frameworks/74_AI_Systems/74_1_Tools_Settings/bin/FinalTracker_ExcelReady.py:232-236 | On a non-empty, different answer, the rebuild loop gives Renamed, and the expanded flag moves to the new name (default True). Otherwise nothing changes. |
| TaskTracker.Tracker.DeleteGroup | 70_Frameworks/74_AI_Systems/74_1_Tools_Settings/bin/FinalTracker_ExcelReady.py:238-239 | When declined, nothing happens. When confirmed, the call fails iff the group is missing; otherwise the group is removed. The flags are kept. |
| TaskTracker.Tracker.AddTask | 70_Frameworks/74_AI_Systems/74_1_Tools_Settings/bin/FinalTracker_ExcelReady.py:241-243 | A non-empty answer is appended to the group's list when absent; the call fails iff the group is missing. |
| TaskTracker.Tracker.EditTask | 70_Frameworks/74_AI_Systems/74_1_Tools_Settings/bin/FinalTracker_ExcelReady.py:245-247 | On a non-empty, different answer, the first occurrence is renamed; the call fails iff the group or the old task is missing. |
| TaskTracker.Tracker.DeleteTask | 70_Frameworks/74_AI_Systems/74_1_Tools_Settings/bin/FinalTracker_ExcelReady.py:249-250 | When confirmed, the first occurrence is removed; the call fails iff the group or the task is missing. |
| TaskTracker.Tracker.AddMemo | 70_Frameworks/74_AI_Systems/74_1_Tools_Settings/bin/FinalTracker_ExcelReady.py:252-255 | While a task runs, a non-cancelled answer (even an empty one) replaces the memo; otherwise nothing changes. |
| TaskTracker.Tracker.SwitchTask | 70_Frameworks/74_AI_Systems/74_1_Tools_Settings/bin/FinalTracker_ExcelReady.py:257-260 | A running task is logged with its start time, the new time and its memo; the new task then runs from the new time with an empty memo. |
| TaskTracker.Tracker.CompleteDay | 70_Frameworks/74_AI_Systems/74_1_Tools_Settings/bin/FinalTracker_ExcelReady.py:262-266 | When a task runs and the day is confirmed, the task is logged and the tracker stops; otherwise nothing changes. |

## Left out

- The phone, mobile and address patterns (`70_Frameworks/74_AI_Systems/74_1_Tools_Settings/bin/mask_personal_info.py:46-47`, `70_Frameworks/74_AI_Systems/74_1_Tools_Settings/bin/mask_personal_info.py:49`) are functions passed in as parameters. The email and postal-code patterns are modelled character by character.
- `\d` in the postal pattern is limited to ASCII and full-width digits. Python accepts every Unicode decimal digit.
- `str.lower()` is modelled on ASCII letters only. This is enough for the keywords, which have no other letters that change case.
- spaCy/GiNZA is an oracle that returns spans. NerMaskedIsReference assumes the spans are well formed: inside the text, in order, and not overlapping.
- File I/O is left out:
  - the CSV reader's quoting;
  - errors from encodings while writing;
  - openpyxl's workbook loading and saving;
  - `ws.max_column` beyond the grid's width;
  - merged cells.
- A CSV file is given as one reader function per encoding, and a workbook as its sheets' cell grids.
- The command-line controller (`main`, `run`) is left out. So are `.xls` input, the progress print every 50 rows, and the `OUTPUT_PREFIX` file naming.
- The tracker's Tk user interface is left out: `setup_ui`, `refresh_buttons`, and the window geometry.
- The JSON settings file and `save_settings` are left out.
  - The saved groups come in as an `Option` of a table; `None` means the file was absent.
  - The file's two layouts (with or without the `"groups"` key) are not told apart.
  - `output_dir` is always the fixed folder and is not modelled.
- EntityTier.SortDesc: the contract does not state that Python's sort is stable among entities with equal starts. Well-formed entities have distinct starts, and there SortDescReverses fixes the order completely.
- TaskTracker.Tracker.SwitchTask: save_log is modelled as appending a record to `log`. The Excel file, the duration rounding, the sheet creation and the table formatting (`70_Frameworks/74_AI_Systems/74_1_Tools_Settings/bin/FinalTracker_ExcelReady.py:276-314`) are not modelled.
- The analysis view, `parse_date_safe`, and the output-folder commands are left out, because they only read or present the log.
- `datetime.now()` is passed in as an integer clock reading, and dialog answers as parameters. A cancelled string dialog is `None`.
