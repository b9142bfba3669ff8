# Excel combiner: a Dafny model of the sheet extractor

`excel_combiner.py` walks every workbook in a folder and every sheet in each
workbook. On each sheet it looks for a table: a header row that starts with
the cell "Sl. No.", ending in the column whose header reads "Sample". The
table's rows run down to the first row whose span holds "Total" or
"Summary". Blank rows are dropped and three metadata columns are added:
`Source_File`, `Sheet_Name` and a `Date` derived from the sheet name. The
resulting tables are collected in file order and then sheet order, and the
metadata columns are moved to the end of the combined column list.

This project models that core in Dafny and proves what each step promises.

- **`Strings`**: the Python string operations the code applies to cell text.
  These are `strip()` (with Python's full `isspace` set), `lower()` (ASCII
  letters only), single-character `replace`, the substring `in` test and
  `endswith`.
- **`Cells`**: a worksheet as a rectangular `Grid` of cells. Each cell is
  `Missing` (a NaN, shown as "nan") or `Text`. The module also holds the
  cell tests the detector uses:
  - the header and end markers;
  - the terminator test;
  - the fallback "has data" test;
  - the two blank-row filters.
- **`Locate`**: the detector. Each search has a reference function, written
  once over an arbitrary cell test. Lemmas say which match the function
  returns. A method mirrors the source's nested index loops and is proved
  equal to the reference function. The searches are:
  - `find_header_row`;
  - the end-column loop of `process_sheet`;
  - `find_total_row`;
  - `find_last_data_row`.
- **`Dates`**: `convert_sheet_name_to_date`. The sheet name is cleaned, a
  date is written in "%Y-%m-%d" form, and a failure becomes
  `PARSE_ERROR: <cleaned name>`. The date parser is a parameter.
- **`Extract`**: `process_sheet`. `SheetOutcome` and `RegionOutcome` give the
  outcome of a sheet: a table, or a skip with its reason. The methods
  `ProcessSheet` and `ExtractRegion` run the steps in source order and are
  proved equal to those functions. The lemmas cover where the extracted
  rows come from and what shape the table has.
- **`Combine`**: the collection loops of `combine_excel_files`, the column
  reorder, and the output-file-name rule of the command-line prompt.

In four places the code does something other than what its own comments
say. The model follows the code each time.

1. **No terminator row always means a skip.** The comments at
   excel_combiner.py:125 and :132 say that, without a "Total"/"Summary" row,
   the rows up to the last data row are extracted. But line 140 assigns
   `data_end = total_row` after the fallback branch. That overwrites the end
   just computed, so the last data row the fallback search finds is never
   used. With no terminator, `data_start >= None` raises at line 142, and the
   handler at lines 179-181 skips the sheet.
   - The model keeps the line as written: `ExtractRegion` performs the
     overwrite.
   - `NoTerminatorNoTable` proves that a sheet without a terminator never
     yields a table.
   - `NoTerminatorFallbackIgnored` proves that such a sheet is skipped with
     the error reason even when it has data.
2. **A row mixing NaN and blank text is kept.** The comment at line 154 says
   that rows where all columns are blank or empty are removed. The filters
   at lines 157-159 are `dropna(how='all')`, then "every cell's string form
   strips to ''". A NaN cell's string form is "nan", so a row holding both
   NaN cells and empty text passes both filters and is kept.
   `Cells.MixedBlankRowIsKept` shows this.
3. **The terminator search only looks inside the column span.** The
   comment at line 121 says the "Total"/"Summary" search runs across all
   columns. The loop at lines 54-62 covers only `start_col ..= end_col`, as
   the docstring at lines 50-51 says, and the model does the same.
4. **A failed date gives the cleaned name, not the original.** The comment
   at line 29 says that on failure the original sheet name is returned
   with a note. But `sheet_name` has already been stripped and had its dots
   replaced at lines 16-19. The value is therefore "PARSE_ERROR: " followed
   by the cleaned name, as `Dates.ConvertSheetNameToDateSpec` states.

## Model

| member | source | states |
|---|---|---|
| Strings.StripSpec | excel_combiner.py:41 | `strip()` gives a contiguous part of the text with only whitespace before and after it, leaves no whitespace at either end, never lengthens, gives "" exactly for all-whitespace text, and leaves trimmed text unchanged |
| Strings.StripLeftSpec | excel_combiner.py:41 | the left strip keeps the longest suffix not starting with whitespace and drops only whitespace |
| Strings.StripRightSpec | excel_combiner.py:41 | the right strip keeps the longest prefix not ending with whitespace and drops only whitespace |
| Strings.StripIdempotent | excel_combiner.py:16 | stripping twice is stripping once |
| Strings.LowerLength | excel_combiner.py:57 | `lower()` keeps the length of the text |
| Strings.RemoveAllSpec | excel_combiner.py:59 | `replace(ch, '')` never lengthens the text; a character occurs in the result exactly when it occurs in the input and is not `ch` |
| Strings.RemoveAllCounts | excel_combiner.py:59 | `replace(ch, '')` keeps every other character exactly as often as in the input, and no `ch` |
| Strings.RemoveAllMultiset | excel_combiner.py:59 | the result's multiset of characters is the input's with `ch` removed |
| Strings.RemoveAllAppend | excel_combiner.py:59 | `replace(ch, '')` works piecewise over a concatenation, so the kept characters keep their order |
| Strings.ReplaceSpec | excel_combiner.py:19 | `replace('.', '-')` keeps the length and changes exactly the dots, in place |
| Strings.ContainsIff | excel_combiner.py:61 | the `in` test holds exactly when the pattern occurs at some index |
| Cells.MarkersDiffer | excel_combiner.py:42 | a "Sl. No." cell is never a "Sample" cell |
| Cells.HasDataIff | excel_combiner.py:79-80 | the data test holds exactly when the stripped text is non-empty and its lower-case form is not "nan" |
| Cells.MissingIsInert | excel_combiner.py:41-42 | a NaN cell, shown as "nan", is never a marker, never data and never a terminator |
| Cells.MixedBlankRowIsKept | excel_combiner.py:157-159 | a row of one NaN and one empty text passes both blank-row filters |
| Locate.HeaderLimit | excel_combiner.py:39 | the header search covers min(20, number of rows) rows |
| Locate.FirstCellFromSpec | excel_combiner.py:40-43 | the first-match column search returns a passing column with none passing before it, and nothing exactly when no column passes |
| Locate.SpanAnyIff | excel_combiner.py:56-62 | a span test holds exactly when some column of the span passes |
| Locate.FirstRowFromSpec | excel_combiner.py:54-62 | the first-match row search returns a passing row with none passing before it, and nothing exactly when no row passes |
| Locate.FirstPosFromRows | excel_combiner.py:39-43 | the row-major search returns the first row holding a match, at that row's first matching column |
| Locate.FirstHeaderCell | excel_combiner.py:39-45 | the header position holds "Sl. No.", lies in the first min(20, len) rows, and no cell before it in row-major order holds the marker; none exactly when no cell there does |
| Locate.FindHeaderRow | excel_combiner.py:33-45 | the nested loop with early return computes the header position |
| Locate.EndColumnAfterHeader | excel_combiner.py:110-115 | the end column found lies strictly right of the header column and inside the grid |
| Locate.FindEndColumn | excel_combiner.py:110-115 | the loop with `break` returns the first "Sample" column at or right of the header column |
| Locate.TotalRowSpec | excel_combiner.py:48-64 | the terminator row lies below the header, has a terminator cell in the span, and no row between them does; none exactly when no row below qualifies |
| Locate.TotalRowBounds | excel_combiner.py:54 | a terminator row lies strictly below the header row and inside the grid |
| Locate.FindTotalRow | excel_combiner.py:48-64 | the nested loop with early return computes the terminator row |
| Locate.RunEndSpec | excel_combiner.py:84-89 | a run of data rows ends at the row before the first row without data, or at the last row |
| Locate.FirstRunEndSpec | excel_combiner.py:73-91 | the last data row is none exactly when no row below the header has data; otherwise rows from the first data row up to it all have data, none before does, and the row after it has none or is past the end |
| Locate.FirstRunEndFinds | excel_combiner.py:75-85 | one row with data below the header means a last data row is found |
| Locate.FindRunEnd | excel_combiner.py:73-91 | the loop that records data rows and stops at the first blank row after one computes the first run's last row |
| Locate.FindLastDataRow | excel_combiner.py:67-91 | `find_last_data_row` returns the last row of the first run of data rows below the header |
| Dates.PaddedDigits | excel_combiner.py:26 | zero-padding a number gives `width` digits that spell it |
| Dates.DigitsPadded | excel_combiner.py:26 | a digit string is the zero-padding of its value |
| Dates.FormatIsoShape | excel_combiner.py:26 | a formatted date has the "YYYY-MM-DD" shape with the padded fields in place |
| Dates.ReadFormatIso | excel_combiner.py:26 | reading a formatted date gives the date back |
| Dates.FormatReadIso | excel_combiner.py:26 | any string that reads as a date is that date's formatted form |
| Dates.CleanSheetNameSpec | excel_combiner.py:15-19 | the cleaned name has no '.', no surrounding whitespace, and cleaning it again changes nothing |
| Dates.ConvertSheetNameToDateSpec | excel_combiner.py:8-30 | the value reads back as a date exactly when the parser accepted the cleaned name, and then as that date; otherwise it is "PARSE_ERROR: " and the cleaned name |
| Extract.KeepRowsLength | excel_combiner.py:155-161 | a row filter never adds rows |
| Extract.KeepRowsSpec | excel_combiner.py:157-159 | a row filter keeps exactly the rows it does not drop |
| Extract.KeepRowsAppend | excel_combiner.py:157-159 | filtering commutes with concatenation, so kept rows stay in order |
| Extract.KeepRowsTwice | excel_combiner.py:157-159 | two filters in a row drop exactly what either drops |
| Extract.DropBlankRowsSpec | excel_combiner.py:154-159 | the two blank-row filters together keep, in order, exactly the rows that are neither all NaN nor all whitespace |
| Extract.StampKeepsRows | excel_combiner.py:167-172 | each row appears, with the metadata appended, among the stamped rows |
| Extract.ProcessSheet | excel_combiner.py:94-181 | the step-by-step sheet procedure yields the sheet outcome: a table or a skip with its reason |
| Extract.ExtractRegion | excel_combiner.py:121-177 | from a known header row and end column, the procedure (including the overwrite at line 140) yields the region outcome |
| Extract.NoTerminatorNoTable | excel_combiner.py:124-144 | a region without a terminator row in its span never yields a table |
| Extract.NoTerminatorFallbackIgnored | excel_combiner.py:124-142 | without a terminator, a region with data is still skipped because the end of data is overwritten with the missing terminator row |
| Extract.AdjacentTerminatorNoRows | excel_combiner.py:139-144 | a terminator right below the header gives the "no data rows" skip |
| Extract.ExtractedNeedsTerminator | excel_combiner.py:121-165 | a table comes only from a terminator row at least two rows below the header; it is the block table above that row, and it has rows |
| Extract.BlockTableRows | excel_combiner.py:146-159 | the block table's rows are, in order, the block rows between the header and the terminator that are not blank, each followed by the metadata; at most one per block row |
| Extract.StampedBlockSound | excel_combiner.py:146-172 | every stamped row is a kept row of the block, cut to the column span, followed by the metadata |
| Extract.StampedBlockComplete | excel_combiner.py:151-172 | every block row the filter keeps appears, followed by the metadata, among the stamped rows |
| Extract.StampedTableOf | excel_combiner.py:167-172 | stamping rows that fill the labelled columns gives a table with the metadata columns last and each row ending with the metadata |
| Extract.BlockTableStamped | excel_combiner.py:146-172 | a block table with rows has the metadata columns last and one cell per column in every row, ending with the metadata |
| Extract.SheetTableStamped | excel_combiner.py:94-177 | every table a sheet yields has the three metadata columns last, at least one row, and every row ends with that file's name, that sheet's name and its date value |
| Combine.AppendSheetTables | excel_combiner.py:216-222 | the sheet loop appends, in sheet order, exactly the tables the sheets yield |
| Combine.CombineExcelFiles | excel_combiner.py:184-232 | the file loop ends with "no files", "no valid data", or the tables of all sheets of all readable files in file and then sheet order |
| Combine.CollectedTablesAppend | excel_combiner.py:206-226 | collection keeps file order: the tables of a list of files are those of its first part followed by those of the rest |
| Combine.SheetTablesStamped | excel_combiner.py:216-222 | every table a workbook yields is stamped with the workbook's name and one of its sheets' names and dates |
| Combine.CollectedTablesStamped | excel_combiner.py:206-232 | every collected table is stamped with the name of some readable input file and of one of its sheets |
| Combine.DataColumnsCount | excel_combiner.py:241 | the data columns are the non-metadata columns, each as often as in the input |
| Combine.DataColumnsAppend | excel_combiner.py:241 | selecting data columns commutes with concatenation, so their order is kept |
| Combine.DataColumnsIdempotent | excel_combiner.py:241 | selecting data columns twice is selecting once |
| Combine.ReorderColumnsMembers | excel_combiner.py:239-242 | the reordered columns are the input columns plus the metadata columns and nothing else |
| Combine.ReorderColumnsCounts | excel_combiner.py:239-242 | each non-metadata column occurs as often as in the input, and each metadata column exactly once |
| Combine.ReorderColumnsPermutes | excel_combiner.py:239-242 | for distinct column names that include all three metadata columns, the reorder is a permutation |
| Combine.ReorderColumnsIdempotent | excel_combiner.py:239-242 | reordering twice is reordering once |
| Combine.OutputFileNameTrimmed | excel_combiner.py:262-267 | the output name is non-empty, has no whitespace at either end, and ends with ".xlsx" |
| Combine.OutputFileNameSpec | excel_combiner.py:262-267 | an empty entry gives "combined_output.xlsx"; otherwise the output name is the stripped entry, followed by ".xlsx" exactly when the entry did not already end with it. The name always ends with ".xlsx", and entering it again gives it unchanged |

## Left out

- Reading spreadsheets (`pd.read_excel`, `pd.ExcelFile`) is not modelled. A sheet's content is given as a grid, or as `None` when reading raised; a workbook's sheets are given as a list, or as `None` when opening it failed.
- Finding files by pattern (`Path.glob`), joining paths, checking that the folder exists, and `input()` are not modelled. The file list and the typed output name are parameters.
- Printed progress and diagnostics are not modelled, including the count of removed blank rows, which is only printed.
- `pd.concat` is not modelled: the union of column sets, filling missing cells with blanks, and resetting the row index. The model keeps the list of collected tables, and the reorder is modelled on a column list.
- Writing the output (`to_excel`) is not modelled.
- Dates.ConvertSheetNameToDate: `dateutil`'s day-first parser is a parameter. Which texts it accepts, and as which dates, is not modelled; only what the code does with its answer is.
- Strings.Lower: only ASCII letters are lower-cased, not the rest of Unicode `str.lower()`.
- Cells.Show: cell values other than NaN are given by their string form. How pandas renders numbers and dates as strings is not modelled.
- Dates.FormatIso: years are padded to four digits. Platform differences in how `%Y` renders years below 1000 are not modelled.
- Header labels that coincide with a metadata column name are not modelled: pandas would overwrite such a column. Duplicate header labels are not modelled either. The table keeps the labels as a list.
