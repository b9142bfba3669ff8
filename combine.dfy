/**
 * `combine_excel_files`: every sheet of every input workbook goes through
 * `process_sheet`, the tables it yields are collected in order, and the
 * combined columns are reordered so that the metadata columns come last.
 * Also the rule that turns the name typed at the prompt into the output
 * file name.
 */
module Combine {
  import opened Wrappers
  import opened Strings
  import opened Cells
  import opened Dates
  import opened Extract

  /** One worksheet: its name and the grid read from it, or `None` when
      reading it raised. */
  datatype Sheet = Sheet(name: string, grid: Option<Grid>)

  /** One input file: its name and its sheets, or `None` when opening the
      workbook raised. */
  datatype Workbook = Workbook(fileName: string, sheets: Option<seq<Sheet>>)

  datatype CombineResult = NoFilesFound | NoValidData | Combined(tables: seq<Table>)

  predicate SheetsValid(sheets: seq<Sheet>) {
    forall i :: 0 <= i < |sheets| && sheets[i].grid.Some? ==> sheets[i].grid.value.Valid()
  }

  predicate WorkbooksValid(files: seq<Workbook>) {
    forall i :: 0 <= i < |files| && files[i].sheets.Some? ==> SheetsValid(files[i].sheets.value)
  }

  // ---------------------------------------------------------------------
  // Collecting the sheet tables

  /** The tables the sheets of one workbook yield, in sheet order. */
  function SheetTables(fileName: string, sheets: seq<Sheet>, parse: string -> Option<CalendarDate>): seq<Table>
    requires SheetsValid(sheets)
  {
    if sheets == [] then []
    else
      var last := sheets[|sheets| - 1];
      SheetTables(fileName, sheets[..|sheets| - 1], parse)
        + match SheetOutcome(last.grid, fileName, last.name, parse)
          case Extracted(t) => [t]
          case Skipped(_) => []
  }

  /** The tables one workbook yields: none when it cannot be opened. */
  function FileTables(file: Workbook, parse: string -> Option<CalendarDate>): seq<Table>
    requires file.sheets.Some? ==> SheetsValid(file.sheets.value)
  {
    if file.sheets.None? then [] else SheetTables(file.fileName, file.sheets.value, parse)
  }

  /** The tables all workbooks yield, in file order, then sheet order. */
  function CollectedTables(files: seq<Workbook>, parse: string -> Option<CalendarDate>): seq<Table>
    requires WorkbooksValid(files)
  {
    if files == [] then []
    else CollectedTables(files[..|files| - 1], parse) + FileTables(files[|files| - 1], parse)
  }

  /** What `combine_excel_files` ends with, before the concatenation. */
  function CombineOutcome(files: seq<Workbook>, parse: string -> Option<CalendarDate>): CombineResult
    requires WorkbooksValid(files)
  {
    if files == [] then NoFilesFound
    else if CollectedTables(files, parse) == [] then NoValidData
    else Combined(CollectedTables(files, parse))
  }

  /** `combine_excel_files`: processes each sheet of each file in turn and
      appends every table it yields. */
  method CombineExcelFiles(files: seq<Workbook>, parse: string -> Option<CalendarDate>) returns (result: CombineResult)
    requires WorkbooksValid(files)
    ensures result == CombineOutcome(files, parse)
  {
    if |files| == 0 {
      return NoFilesFound;
    }
    var allTables: seq<Table> := [];
    var i := 0;
    while i < |files|
      invariant i <= |files|
      invariant allTables == CollectedTables(files[..i], parse)
    {
      assert files[..i + 1][..i] == files[..i];
      if files[i].sheets.Some? {
        allTables := AppendSheetTables(allTables, files[i].fileName, files[i].sheets.value, parse);
      }
      i := i + 1;
    }
    assert files[..|files|] == files;
    if |allTables| == 0 {
      return NoValidData;
    }
    return Combined(allTables);
  }

  /** The sheet loop of `combine_excel_files`: appends to `allTables` each
      table the workbook's sheets yield, in sheet order. */
  method AppendSheetTables(allTables: seq<Table>, fileName: string, sheets: seq<Sheet>,
                           parse: string -> Option<CalendarDate>) returns (collected: seq<Table>)
    requires SheetsValid(sheets)
    ensures collected == allTables + SheetTables(fileName, sheets, parse)
  {
    collected := allTables;
    var j := 0;
    while j < |sheets|
      invariant j <= |sheets|
      invariant collected == allTables + SheetTables(fileName, sheets[..j], parse)
    {
      assert sheets[..j + 1][..j] == sheets[..j];
      var sheetTable := ProcessSheet(sheets[j].grid, fileName, sheets[j].name, parse);
      if sheetTable.Extracted? {
        collected := collected + [sheetTable.table];
      }
      j := j + 1;
    }
    assert sheets[..|sheets|] == sheets;
  }

  /** Collection keeps file order: the tables of a longer list of files
      are those of its first part followed by those of the rest. */
  lemma {:induction false} CollectedTablesAppend(a: seq<Workbook>, b: seq<Workbook>, parse: string -> Option<CalendarDate>)
    requires WorkbooksValid(a) && WorkbooksValid(b)
    ensures WorkbooksValid(a + b)
    ensures CollectedTables(a + b, parse) == CollectedTables(a, parse) + CollectedTables(b, parse)
    decreases |b|
  {
    assert forall i :: 0 <= i < |a + b| ==> (a + b)[i] == if i < |a| then a[i] else b[i - |a|];
    if b == [] {
      assert a + b == a;
    } else {
      var init := b[..|b| - 1];
      assert (a + b)[..|a + b| - 1] == a + init;
      assert (a + b)[|a + b| - 1] == b[|b| - 1];
      CollectedTablesAppend(a, init, parse);
    }
  }

  /** Every table the sheets of a workbook yield carries the metadata
      columns last and at least one row, each ending with that workbook's
      name, some sheet's name and that sheet's date value. */
  lemma {:induction false} SheetTablesStamped(fileName: string, sheets: seq<Sheet>, parse: string -> Option<CalendarDate>)
    requires SheetsValid(sheets)
    ensures forall t :: t in SheetTables(fileName, sheets, parse) ==>
      exists s :: s in sheets && StampedTable(t, Metadata(fileName, s.name, parse))
  {
    if sheets != [] {
      var init := sheets[..|sheets| - 1];
      var last := sheets[|sheets| - 1];
      SheetTablesStamped(fileName, init, parse);
      SheetTableStamped(last.grid, fileName, last.name, parse);
      forall t | t in SheetTables(fileName, sheets, parse)
        ensures exists s :: s in sheets && StampedTable(t, Metadata(fileName, s.name, parse))
      {
        if t in SheetTables(fileName, init, parse) {
          var s :| s in init && StampedTable(t, Metadata(fileName, s.name, parse));
          assert s in sheets;
        } else {
          assert last in sheets;
        }
      }
    }
  }

  /** Every collected table has the metadata columns last and at least one
      row, each ending with the file name, a sheet name and its date. */
  lemma {:induction false} CollectedTablesStamped(files: seq<Workbook>, parse: string -> Option<CalendarDate>)
    requires WorkbooksValid(files)
    ensures forall t :: t in CollectedTables(files, parse) ==>
      exists f, s :: f in files && f.sheets.Some? && s in f.sheets.value && StampedTable(t, Metadata(f.fileName, s.name, parse))
  {
    if files != [] {
      var init := files[..|files| - 1];
      var last := files[|files| - 1];
      CollectedTablesStamped(init, parse);
      if last.sheets.Some? {
        SheetTablesStamped(last.fileName, last.sheets.value, parse);
      }
      forall t | t in CollectedTables(files, parse)
        ensures exists f, s :: f in files && f.sheets.Some? && s in f.sheets.value && StampedTable(t, Metadata(f.fileName, s.name, parse))
      {
        if t in CollectedTables(init, parse) {
          var f, s :| f in init && f.sheets.Some? && s in f.sheets.value && StampedTable(t, Metadata(f.fileName, s.name, parse));
          assert f in files;
        } else {
          var s :| s in last.sheets.value && StampedTable(t, Metadata(last.fileName, s.name, parse));
          assert last in files;
        }
      }
    }
  }

  // ---------------------------------------------------------------------
  // Column reorder

  /** The data columns: the columns that are not metadata, in order. */
  function DataColumns(cols: seq<string>): seq<string> {
    if cols == [] then []
    else (if cols[0] in MetadataColumns then [] else [cols[0]]) + DataColumns(cols[1..])
  }

  /** `data_cols + metadata_cols`. */
  function ReorderColumns(cols: seq<string>): seq<string> {
    DataColumns(cols) + MetadataColumns
  }

  /** The data columns are exactly the non-metadata columns, each as often
      as in the input. */
  lemma {:induction false} DataColumnsCount(cols: seq<string>)
    ensures forall c :: multiset(DataColumns(cols))[c] == if c in MetadataColumns then 0 else multiset(cols)[c]
  {
    if cols != [] {
      DataColumnsCount(cols[1..]);
      assert cols == [cols[0]] + cols[1..];
    }
  }

  /** Dropping the metadata commutes with concatenation, so the data
      columns keep their relative order. */
  lemma {:induction false} DataColumnsAppend(a: seq<string>, b: seq<string>)
    ensures DataColumns(a + b) == DataColumns(a) + DataColumns(b)
  {
    if a != [] {
      assert (a + b)[0] == a[0];
      assert (a + b)[1..] == a[1..] + b;
      DataColumnsAppend(a[1..], b);
    } else {
      assert a + b == b;
    }
  }

  lemma {:induction false} DataColumnsIdempotent(cols: seq<string>)
    ensures DataColumns(DataColumns(cols)) == DataColumns(cols)
  {
    if cols != [] {
      DataColumnsIdempotent(cols[1..]);
      var rest := DataColumns(cols[1..]);
      if cols[0] !in MetadataColumns {
        var once := [cols[0]] + rest;
        assert DataColumns(cols) == once;
        assert once[0] == cols[0] && once[1..] == rest;
        assert DataColumns(once) == [cols[0]] + DataColumns(rest);
      } else {
        assert DataColumns(cols) == [] + rest == rest;
      }
    }
  }

  predicate NoDuplicates(cols: seq<string>) {
    forall i, j :: 0 <= i < j < |cols| ==> cols[i] != cols[j]
  }

  lemma {:induction false} NoDuplicatesCount(cols: seq<string>)
    requires NoDuplicates(cols)
    ensures forall c :: multiset(cols)[c] == if c in cols then 1 else 0
  {
    if cols != [] {
      assert NoDuplicates(cols[1..]) by {
        forall i, j | 0 <= i < j < |cols| - 1 ensures cols[1..][i] != cols[1..][j] {
          assert cols[1..][i] == cols[i + 1] && cols[1..][j] == cols[j + 1];
        }
      }
      NoDuplicatesCount(cols[1..]);
      assert cols == [cols[0]] + cols[1..];
      assert cols[0] !in cols[1..] by {
        forall j | 0 <= j < |cols| - 1 ensures cols[1..][j] != cols[0] {
          assert cols[1..][j] == cols[j + 1];
        }
      }
    }
  }

  /** The reordered columns are the input columns plus the metadata
      columns, nothing else. */
  lemma ReorderColumnsMembers(cols: seq<string>)
    ensures forall c :: c in ReorderColumns(cols) <==> c in MetadataColumns || c in cols
  {
    DataColumnsCount(cols);
    forall c ensures c in ReorderColumns(cols) <==> c in MetadataColumns || c in cols {
      assert c in DataColumns(cols) <==> c in multiset(DataColumns(cols));
      assert c in cols <==> c in multiset(cols);
    }
  }

  /** Every non-metadata column occurs in the output as often as in the
      input, and each metadata column exactly once, at the end. */
  lemma ReorderColumnsCounts(cols: seq<string>)
    ensures forall c :: c !in MetadataColumns ==> multiset(ReorderColumns(cols))[c] == multiset(cols)[c]
    ensures forall c :: c in MetadataColumns ==> multiset(ReorderColumns(cols))[c] == 1
  {
    DataColumnsCount(cols);
    NoDuplicatesCount(MetadataColumns);
    assert multiset(ReorderColumns(cols)) == multiset(DataColumns(cols)) + multiset(MetadataColumns);
  }

  /** When the input has each column once and holds all three metadata
      columns, the reorder is a permutation of it. */
  lemma ReorderColumnsPermutes(cols: seq<string>)
    requires NoDuplicates(cols)
    requires forall m :: m in MetadataColumns ==> m in cols
    ensures multiset(ReorderColumns(cols)) == multiset(cols)
  {
    ReorderColumnsCounts(cols);
    NoDuplicatesCount(cols);
    forall c ensures multiset(ReorderColumns(cols))[c] == multiset(cols)[c] {
      if c in MetadataColumns {
        assert c in cols;
      }
    }
  }

  /** Reordering an already reordered column list changes nothing. */
  lemma ReorderColumnsIdempotent(cols: seq<string>)
    ensures ReorderColumns(ReorderColumns(cols)) == ReorderColumns(cols)
  {
    var data := DataColumns(cols);
    DataColumnsAppend(data, MetadataColumns);
    DataColumnsIdempotent(cols);
    assert DataColumns(MetadataColumns) == [];
    assert data + [] == data;
  }

  // ---------------------------------------------------------------------
  // Output file name

  const DefaultOutputName: string := "combined_output.xlsx"
  const OutputExtension: string := ".xlsx"

  /** The output name from the text typed at the prompt: stripped; empty
      gives the default; otherwise ".xlsx" is appended unless present. */
  function OutputFileName(entered: string): string {
    var name := Strip(entered);
    if name == [] then DefaultOutputName
    else if EndsWith(name, OutputExtension) then name
    else name + OutputExtension
  }

  /** The output name is the default when nothing but whitespace was
      typed; otherwise it is the typed name, stripped, followed by ".xlsx"
      exactly when it did not already end so. It always ends with ".xlsx",
      and feeding it back to the prompt gives it unchanged. */
  lemma OutputFileNameSpec(entered: string)
    ensures Strip(entered) == [] ==> OutputFileName(entered) == DefaultOutputName
    ensures Strip(entered) != [] ==>
      |OutputFileName(entered)| == |Strip(entered)| + (if EndsWith(Strip(entered), OutputExtension) then 0 else |OutputExtension|)
    ensures EndsWith(OutputFileName(entered), OutputExtension)
    ensures Strip(entered) != [] ==> OutputFileName(entered)[..|Strip(entered)|] == Strip(entered)
    ensures OutputFileName(OutputFileName(entered)) == OutputFileName(entered)
  {
    var name := Strip(entered);
    var out := OutputFileName(entered);
    OutputFileNameTrimmed(entered);
    if name != [] && !EndsWith(name, OutputExtension) {
      assert out[..|name|] == name;
    }
    StripKeepsTrimmed(out);
  }

  /** The output name has no whitespace at either end and ends with ".xlsx". */
  lemma OutputFileNameTrimmed(entered: string)
    ensures var out := OutputFileName(entered);
      out != [] && !IsSpace(out[0]) && !IsSpace(out[|out| - 1]) && EndsWith(out, OutputExtension)
  {
    var name := Strip(entered);
    var out := OutputFileName(entered);
    if name == [] {
      assert out == DefaultOutputName;
    } else {
      assert !IsSpace(name[0]) && !IsSpace(name[|name| - 1]) by {
        StripSpec(entered);
      }
      if !EndsWith(name, OutputExtension) {
        assert out == name + OutputExtension;
        assert out[|out| - |OutputExtension|..] == OutputExtension;
        assert out[0] == name[0];
      }
    }
  }
}
