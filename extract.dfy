/**
 * `process_sheet`: locate the table on one worksheet, cut out the block
 * between the header row and the terminator row, drop blank rows and stamp
 * the three metadata columns on every surviving row.
 */
module Extract {
  import opened Wrappers
  import opened Strings
  import opened Cells
  import opened Locate
  import opened Dates

  /** Names of the metadata columns, in the order they are added. */
  const MetadataColumns: seq<string> := ["Source_File", "Sheet_Name", "Date"]

  /** A labelled block of rows, the model of a pandas data frame. */
  datatype Table = Table(columns: seq<string>, rows: seq<seq<Cell>>)

  /** Why a sheet yields no table. `ReadFailed` and `NoneDataEnd` are the
      two exceptions the catch-all turns into a skip: the sheet cannot be
      read, or the comparison `data_start >= data_end` meets `None`. */
  datatype SkipReason =
    | ReadFailed
    | HeaderNotFound
    | SampleNotFound
    | NoEndOfData
    | NoneDataEnd
    | NoDataRows
    | AllRowsBlank

  datatype Outcome = Extracted(table: Table) | Skipped(reason: SkipReason)

  /** The block's columns: the header cell at `startCol` to the one at
      `endCol`, both included. */
  datatype Region = Region(headerRow: nat, startCol: nat, endCol: nat)

  predicate RegionIn(g: Grid, r: Region) {
    r.headerRow < |g.rows| && r.startCol <= r.endCol < g.width
  }

  // ---------------------------------------------------------------------
  // Slicing

  /** The column labels: each header cell's string form, stripped. */
  function HeaderLabels(row: seq<Cell>, startCol: nat, endCol: nat): seq<string>
    requires startCol <= endCol < |row|
  {
    seq(endCol - startCol + 1, k requires 0 <= k < endCol - startCol + 1 => Strip(Show(row[startCol + k])))
  }

  /** Rows `firstRow .. endRow - 1`, columns `startCol ..= endCol`. */
  function Body(g: Grid, firstRow: nat, endRow: nat, startCol: nat, endCol: nat): seq<seq<Cell>>
    requires g.Valid() && firstRow <= endRow <= |g.rows| && startCol <= endCol < g.width
  {
    seq(endRow - firstRow, k requires 0 <= k < endRow - firstRow => g.rows[firstRow + k][startCol..endCol + 1])
  }

  // ---------------------------------------------------------------------
  // Blank-row filters

  /** A row filter: the rows `drop` rejects are removed, the others kept in order. */
  function KeepRows(rows: seq<seq<Cell>>, drop: seq<Cell> -> bool): seq<seq<Cell>> {
    if rows == [] then []
    else (if drop(rows[0]) then [] else [rows[0]]) + KeepRows(rows[1..], drop)
  }

  /** A filter keeps no more rows than it was given. */
  lemma {:induction false} KeepRowsLength(rows: seq<seq<Cell>>, drop: seq<Cell> -> bool)
    ensures |KeepRows(rows, drop)| <= |rows|
  {
    if rows != [] {
      KeepRowsLength(rows[1..], drop);
    }
  }

  /** A filter keeps exactly the rows it does not drop. */
  lemma {:induction false} KeepRowsSpec(rows: seq<seq<Cell>>, drop: seq<Cell> -> bool)
    ensures forall row :: row in KeepRows(rows, drop) <==> row in rows && !drop(row)
  {
    if rows != [] {
      KeepRowsSpec(rows[1..], drop);
      forall row
        ensures row in KeepRows(rows, drop) <==> row in rows && !drop(row)
      {
        assert row in rows <==> row == rows[0] || row in rows[1..];
      }
    }
  }

  /** Filtering commutes with concatenation: surviving rows keep their
      relative order. */
  lemma {:induction false} KeepRowsAppend(a: seq<seq<Cell>>, b: seq<seq<Cell>>, drop: seq<Cell> -> bool)
    ensures KeepRows(a + b, drop) == KeepRows(a, drop) + KeepRows(b, drop)
  {
    if a != [] {
      assert (a + b)[0] == a[0];
      assert (a + b)[1..] == a[1..] + b;
      KeepRowsAppend(a[1..], b, drop);
    } else {
      assert a + b == b;
    }
  }

  /** Two filters in a row drop what either of them drops. */
  lemma {:induction false} KeepRowsTwice(rows: seq<seq<Cell>>, first: seq<Cell> -> bool,
                                         second: seq<Cell> -> bool, either: seq<Cell> -> bool)
    requires forall row :: either(row) == (first(row) || second(row))
    ensures KeepRows(KeepRows(rows, first), second) == KeepRows(rows, either)
  {
    if rows != [] {
      var x, rest := rows[0], rows[1..];
      var head := if first(x) then [] else [x];
      KeepRowsTwice(rest, first, second, either);
      KeepRowsAppend(head, KeepRows(rest, first), second);
      assert KeepRows(head, second) == if either(x) then [] else [x] by {
        if !first(x) {
          assert head[1..] == [];
        }
      }
    }
  }

  /** `dropna(how='all')` followed by the whitespace filter. */
  function DropBlankRows(rows: seq<seq<Cell>>): seq<seq<Cell>> {
    KeepRows(KeepRows(rows, AllMissing), AllWhitespace)
  }

  /** The two filters together remove exactly the blank rows and keep the
      others in order. */
  lemma DropBlankRowsSpec(rows: seq<seq<Cell>>)
    ensures DropBlankRows(rows) == KeepRows(rows, IsBlankRow)
    ensures |DropBlankRows(rows)| <= |rows|
    ensures forall row :: row in DropBlankRows(rows) <==> row in rows && !IsBlankRow(row)
  {
    KeepRowsTwice(rows, AllMissing, AllWhitespace, IsBlankRow);
    KeepRowsLength(rows, IsBlankRow);
    KeepRowsSpec(rows, IsBlankRow);
  }

  // ---------------------------------------------------------------------
  // Metadata

  /** The metadata cells: file name, sheet name, date value. */
  function Metadata(fileName: string, sheetName: string, parse: string -> Option<CalendarDate>): seq<Cell> {
    [Text(fileName), Text(sheetName), Text(ConvertSheetNameToDate(sheetName, parse))]
  }

  /** Every row with the same metadata cells appended. */
  function Stamp(rows: seq<seq<Cell>>, meta: seq<Cell>): seq<seq<Cell>> {
    seq(|rows|, i requires 0 <= i < |rows| => rows[i] + meta)
  }

  /** Stamping loses no row. */
  lemma StampKeepsRows(rows: seq<seq<Cell>>, meta: seq<Cell>)
    ensures |Stamp(rows, meta)| == |rows|
    ensures forall row :: row in rows ==> row + meta in Stamp(rows, meta)
  {
    forall row | row in rows
      ensures row + meta in Stamp(rows, meta)
    {
      var i :| 0 <= i < |rows| && rows[i] == row;
      assert Stamp(rows, meta)[i] == row + meta;
    }
  }

  // ---------------------------------------------------------------------
  // The sheet pipeline

  /** What `process_sheet` returns once the region is known: the terminator
      row ends the block; without one the sheet is always skipped, because
      `data_end` is overwritten with the missing terminator row. */
  function RegionOutcome(g: Grid, r: Region, meta: seq<Cell>): Outcome
    requires g.Valid() && RegionIn(g, r)
  {
    match TotalRow(g, r.headerRow, r.startCol, r.endCol)
    case None =>
      if LastDataRow(g, r.headerRow, r.startCol, r.endCol).None? then Skipped(NoEndOfData)
      else Skipped(NoneDataEnd)
    case Some(t) =>
      TotalRowBounds(g, r.headerRow, r.startCol, r.endCol);
      if r.headerRow + 1 >= t then Skipped(NoDataRows)
      else
        var table := BlockTable(g, r, t, meta);
        if table.rows == [] then Skipped(AllRowsBlank) else Extracted(table)
  }

  /** The table cut out above the terminator row `t`: the stripped header
      labels and the metadata names over the block's non-blank rows, each
      followed by the metadata. */
  function BlockTable(g: Grid, r: Region, t: nat, meta: seq<Cell>): Table
    requires g.Valid() && RegionIn(g, r) && r.headerRow < t <= |g.rows|
  {
    Table(HeaderLabels(g.rows[r.headerRow], r.startCol, r.endCol) + MetadataColumns,
          Stamp(DropBlankRows(Body(g, r.headerRow + 1, t, r.startCol, r.endCol)), meta))
  }

  /** What `process_sheet` returns for a sheet; `read` is the grid the
      spreadsheet reader produced, or `None` when reading raised. */
  function SheetOutcome(read: Option<Grid>, fileName: string, sheetName: string,
                        parse: string -> Option<CalendarDate>): Outcome
    requires read.Some? ==> read.value.Valid()
  {
    if read.None? then Skipped(ReadFailed)
    else
      var g := read.value;
      FirstHeaderCell(g);
      match HeaderPos(g)
      case None => Skipped(HeaderNotFound)
      case Some(h) =>
        EndColumnAfterHeader(g, h.row, h.col);
        match EndColumn(g, h.row, h.col)
        case None => Skipped(SampleNotFound)
        case Some(endCol) => RegionOutcome(g, Region(h.row, h.col, endCol), Metadata(fileName, sheetName, parse))
  }

  /** `process_sheet`, step by step: read, find the header and the end
      column, then cut out the region. */
  method ProcessSheet(read: Option<Grid>, fileName: string, sheetName: string,
                      parse: string -> Option<CalendarDate>) returns (out: Outcome)
    requires read.Some? ==> read.value.Valid()
    ensures out == SheetOutcome(read, fileName, sheetName, parse)
  {
    if read.None? {
      return Skipped(ReadFailed);
    }
    var g := read.value;
    FirstHeaderCell(g);
    var header := FindHeaderRow(g);
    if header.None? {
      return Skipped(HeaderNotFound);
    }
    var headerRow, startCol := header.value.row, header.value.col;

    EndColumnAfterHeader(g, headerRow, startCol);
    var endCol := FindEndColumn(g, headerRow, startCol);
    if endCol.None? {
      return Skipped(SampleNotFound);
    }
    out := ExtractRegion(g, Region(headerRow, startCol, endCol.value), Metadata(fileName, sheetName, parse));
  }

  /** The rest of `process_sheet` once the header row and the end column
      are known: the end of data, the slice, the blank-row filters and the
      metadata. */
  method ExtractRegion(g: Grid, r: Region, meta: seq<Cell>) returns (out: Outcome)
    requires g.Valid() && RegionIn(g, r)
    ensures out == RegionOutcome(g, r, meta)
  {
    var totalRow := FindTotalRow(g, r.headerRow, r.startCol, r.endCol);
    var dataEnd: Option<nat>;
    if totalRow.None? {
      var lastDataRow := FindLastDataRow(g, r.headerRow, r.startCol, r.endCol);
      if lastDataRow.None? {
        return Skipped(NoEndOfData);
      }
      dataEnd := Some(lastDataRow.value + 1);
    } else {
      dataEnd := totalRow;
    }

    var dataStart := r.headerRow + 1;
    dataEnd := totalRow;
    if dataEnd.None? {
      // `data_start >= None` raises, and the handler skips the sheet
      return Skipped(NoneDataEnd);
    }
    var t := dataEnd.value;
    if dataStart >= t {
      return Skipped(NoDataRows);
    }

    TotalRowBounds(g, r.headerRow, r.startCol, r.endCol);
    assert r.headerRow < t < |g.rows|;
    var headers := HeaderLabels(g.rows[r.headerRow], r.startCol, r.endCol);
    var kept := DropBlankRows(Body(g, dataStart, t, r.startCol, r.endCol));
    assert Table(headers + MetadataColumns, Stamp(kept, meta)) == BlockTable(g, r, t, meta);
    if |kept| == 0 {
      assert BlockTable(g, r, t, meta).rows == [];
      return Skipped(AllRowsBlank);
    }
    assert BlockTable(g, r, t, meta).rows != [];
    out := Extracted(Table(headers + MetadataColumns, Stamp(kept, meta)));
  }

  // ---------------------------------------------------------------------
  // Properties

  /** A sheet yields rows only through a terminator row. */
  lemma NoTerminatorNoTable(g: Grid, r: Region, meta: seq<Cell>)
    requires g.Valid() && RegionIn(g, r)
    requires forall k :: r.headerRow < k < |g.rows| ==> !SpanAny(g.rows[k], r.startCol, r.endCol, IsTerminator)
    ensures RegionOutcome(g, r, meta).Skipped?
  {
    assert TotalRow(g, r.headerRow, r.startCol, r.endCol).None? by {
      FirstRowFromSpec(g, r.headerRow + 1, r.startCol, r.endCol, IsTerminator);
    }
  }

  /** Without a terminator row the fallback search for the last data row
      never contributes: even when row `k` has data, the sheet is skipped
      because the end of data is overwritten with the missing terminator. */
  lemma NoTerminatorFallbackIgnored(g: Grid, r: Region, meta: seq<Cell>, k: nat)
    requires g.Valid() && RegionIn(g, r)
    requires forall k :: r.headerRow < k < |g.rows| ==> !SpanAny(g.rows[k], r.startCol, r.endCol, IsTerminator)
    requires r.headerRow < k < |g.rows| && SpanAny(g.rows[k], r.startCol, r.endCol, HasData)
    ensures RegionOutcome(g, r, meta) == Skipped(NoneDataEnd)
  {
    assert TotalRow(g, r.headerRow, r.startCol, r.endCol).None? by {
      FirstRowFromSpec(g, r.headerRow + 1, r.startCol, r.endCol, IsTerminator);
    }
    FirstRunEndFinds(g, r.headerRow + 1, r.startCol, r.endCol, HasData, k);
  }

  /** A terminator right below the header leaves no rows to extract. */
  lemma AdjacentTerminatorNoRows(g: Grid, r: Region, meta: seq<Cell>)
    requires g.Valid() && RegionIn(g, r) && r.headerRow + 1 < |g.rows|
    requires SpanAny(g.rows[r.headerRow + 1], r.startCol, r.endCol, IsTerminator)
    ensures RegionOutcome(g, r, meta) == Skipped(NoDataRows)
  {
  }

  /** A sheet region yields a table only through a terminator row `t`
      with at least one row between it and the header: the block table
      above `t`, which then has rows. */
  lemma ExtractedNeedsTerminator(g: Grid, r: Region, meta: seq<Cell>)
    requires g.Valid() && RegionIn(g, r)
    ensures RegionOutcome(g, r, meta).Extracted? ==>
      && TotalRow(g, r.headerRow, r.startCol, r.endCol).Some?
      && r.headerRow + 1 < TotalRow(g, r.headerRow, r.startCol, r.endCol).value < |g.rows|
      && RegionOutcome(g, r, meta).table == BlockTable(g, r, TotalRow(g, r.headerRow, r.startCol, r.endCol).value, meta)
      && RegionOutcome(g, r, meta).table.rows != []
  {
    TotalRowBounds(g, r.headerRow, r.startCol, r.endCol);
  }

  /** The block table's rows are, in order, the rows of the block strictly
      between the header row and `t` that are not blank, each followed by
      the metadata; at most one per block row. */
  lemma BlockTableRows(g: Grid, r: Region, t: nat, meta: seq<Cell>)
    requires g.Valid() && RegionIn(g, r) && r.headerRow < t <= |g.rows|
    ensures BlockTable(g, r, t, meta).rows == Stamp(KeepRows(Body(g, r.headerRow + 1, t, r.startCol, r.endCol), IsBlankRow), meta)
    ensures |BlockTable(g, r, t, meta).rows| <= t - r.headerRow - 1
  {
    var body := Body(g, r.headerRow + 1, t, r.startCol, r.endCol);
    assert DropBlankRows(body) == KeepRows(body, IsBlankRow) by {
      KeepRowsTwice(body, AllMissing, AllWhitespace, IsBlankRow);
    }
    KeepRowsLength(body, IsBlankRow);
  }

  /** Every stamped row of a block is one of its rows the filter keeps,
      in full, followed by the metadata. With `drop := IsBlankRow` and
      `ExtractedRows` this says each extracted row has one cell per column:
      a non-blank block row under the header labels, the metadata under
      the metadata names. */
  lemma StampedBlockSound(g: Grid, firstRow: nat, endRow: nat, startCol: nat, endCol: nat,
                          drop: seq<Cell> -> bool, meta: seq<Cell>)
    requires g.Valid() && firstRow <= endRow <= |g.rows| && startCol <= endCol < g.width
    ensures var rows := Stamp(KeepRows(Body(g, firstRow, endRow, startCol, endCol), drop), meta);
      forall i :: 0 <= i < |rows| ==>
        && |rows[i]| == endCol - startCol + 1 + |meta|
        && rows[i][endCol - startCol + 1..] == meta
        && !drop(rows[i][..endCol - startCol + 1])
        && exists k :: firstRow <= k < endRow && rows[i][..endCol - startCol + 1] == g.rows[k][startCol..endCol + 1]
  {
    var body := Body(g, firstRow, endRow, startCol, endCol);
    var kept := KeepRows(body, drop);
    KeepRowsSpec(body, drop);
    var rows := Stamp(kept, meta);
    var w := endCol - startCol + 1;
    forall i | 0 <= i < |rows|
      ensures |rows[i]| == w + |meta|
      ensures rows[i][w..] == meta
      ensures !drop(rows[i][..w])
      ensures exists k :: firstRow <= k < endRow && rows[i][..w] == g.rows[k][startCol..endCol + 1]
    {
      var row := kept[i];
      assert row in kept;
      var j :| 0 <= j < |body| && body[j] == row;
      assert rows[i] == row + meta;
      assert (row + meta)[..|row|] == row;
      assert (row + meta)[|row|..] == meta;
      assert row == g.rows[firstRow + j][startCol..endCol + 1];
    }
  }

  /** No block row the filter keeps is lost: each appears, followed by the
      metadata, among the stamped rows. */
  lemma StampedBlockComplete(g: Grid, firstRow: nat, endRow: nat, startCol: nat, endCol: nat,
                             drop: seq<Cell> -> bool, meta: seq<Cell>)
    requires g.Valid() && firstRow <= endRow <= |g.rows| && startCol <= endCol < g.width
    ensures forall k :: firstRow <= k < endRow && !drop(g.rows[k][startCol..endCol + 1]) ==>
      g.rows[k][startCol..endCol + 1] + meta in Stamp(KeepRows(Body(g, firstRow, endRow, startCol, endCol), drop), meta)
  {
    var body := Body(g, firstRow, endRow, startCol, endCol);
    var kept := KeepRows(body, drop);
    KeepRowsSpec(body, drop);
    StampKeepsRows(kept, meta);
    forall k | firstRow <= k < endRow && !drop(g.rows[k][startCol..endCol + 1])
      ensures g.rows[k][startCol..endCol + 1] in kept
    {
      assert body[k - firstRow] == g.rows[k][startCol..endCol + 1];
    }
  }

  /** A table as `process_sheet` returns it: the metadata columns last, at
      least one row, and every row one cell per column ending with `meta`. */
  predicate StampedTable(t: Table, meta: seq<Cell>) {
    && 3 < |t.columns| && t.columns[|t.columns| - 3..] == MetadataColumns
    && 1 <= |t.rows|
    && forall i :: 0 <= i < |t.rows| ==> |t.rows[i]| == |t.columns| && t.rows[i][|t.columns| - 3..] == meta
  }

  /** Stamping rows that each fill the labelled columns gives a table of
      that shape. */
  lemma StampedTableOf(labels: seq<string>, kept: seq<seq<Cell>>, meta: seq<Cell>)
    requires |meta| == |MetadataColumns| && kept != [] && labels != []
    requires forall row :: row in kept ==> |row| == |labels|
    ensures StampedTable(Table(labels + MetadataColumns, Stamp(kept, meta)), meta)
  {
    var cols := labels + MetadataColumns;
    var rows := Stamp(kept, meta);
    assert cols[|cols| - 3..] == MetadataColumns;
    forall i | 0 <= i < |rows|
      ensures |rows[i]| == |cols| && rows[i][|cols| - 3..] == meta
    {
      assert kept[i] in kept;
      assert rows[i] == kept[i] + meta;
      assert |cols| - 3 == |kept[i]|;
    }
  }

  /** Filtering keeps every row as wide as before. */
  lemma KeepRowsWidth(rows: seq<seq<Cell>>, drop: seq<Cell> -> bool, w: nat)
    requires forall row :: row in rows ==> |row| == w
    ensures forall row :: row in KeepRows(rows, drop) ==> |row| == w
  {
    KeepRowsSpec(rows, drop);
  }

  /** Every block row spans the columns `startCol ..= endCol`. */
  lemma BodyWidth(g: Grid, firstRow: nat, endRow: nat, startCol: nat, endCol: nat)
    requires g.Valid() && firstRow <= endRow <= |g.rows| && startCol <= endCol < g.width
    ensures forall row :: row in Body(g, firstRow, endRow, startCol, endCol) ==> |row| == endCol - startCol + 1
  {
    var body := Body(g, firstRow, endRow, startCol, endCol);
    forall row | row in body
      ensures |row| == endCol - startCol + 1
    {
      var j :| 0 <= j < |body| && body[j] == row;
    }
  }

  /** Stamping the rows two filters keep from equally wide rows gives a
      table of that shape. */
  lemma StampedFilteredRows(labels: seq<string>, body: seq<seq<Cell>>,
                            first: seq<Cell> -> bool, second: seq<Cell> -> bool, meta: seq<Cell>)
    requires |meta| == |MetadataColumns| && labels != []
    requires forall row :: row in body ==> |row| == |labels|
    requires KeepRows(KeepRows(body, first), second) != []
    ensures StampedTable(Table(labels + MetadataColumns, Stamp(KeepRows(KeepRows(body, first), second), meta)), meta)
  {
    KeepRowsWidth(body, first, |labels|);
    KeepRowsWidth(KeepRows(body, first), second, |labels|);
    StampedTableOf(labels, KeepRows(KeepRows(body, first), second), meta);
  }

  /** A block table with rows has the metadata columns last and every row
      one cell per column, ending with `meta`. */
  lemma BlockTableStamped(g: Grid, r: Region, t: nat, meta: seq<Cell>)
    requires g.Valid() && RegionIn(g, r) && r.headerRow < t <= |g.rows|
    requires |meta| == |MetadataColumns| && BlockTable(g, r, t, meta).rows != []
    ensures StampedTable(BlockTable(g, r, t, meta), meta)
  {
    var body := Body(g, r.headerRow + 1, t, r.startCol, r.endCol);
    var labels := HeaderLabels(g.rows[r.headerRow], r.startCol, r.endCol);
    var kept := KeepRows(KeepRows(body, AllMissing), AllWhitespace);
    assert BlockTable(g, r, t, meta) == Table(labels + MetadataColumns, Stamp(kept, meta));
    assert kept != [] by {
      assert |Stamp(kept, meta)| == |kept|;
    }
    BodyWidth(g, r.headerRow + 1, t, r.startCol, r.endCol);
    StampedFilteredRows(labels, body, AllMissing, AllWhitespace, meta);
  }

  /** Every table a sheet yields has the metadata columns last, at least
      one row, and every row one cell per column ending with that sheet's
      file name, sheet name and date value. */
  lemma SheetTableStamped(read: Option<Grid>, fileName: string, sheetName: string,
                          parse: string -> Option<CalendarDate>)
    requires read.Some? ==> read.value.Valid()
    ensures SheetOutcome(read, fileName, sheetName, parse).Extracted? ==>
      StampedTable(SheetOutcome(read, fileName, sheetName, parse).table, Metadata(fileName, sheetName, parse))
  {
    if read.Some? {
      var g := read.value;
      FirstHeaderCell(g);
      if HeaderPos(g).Some? {
        var h := HeaderPos(g).value;
        EndColumnAfterHeader(g, h.row, h.col);
        if EndColumn(g, h.row, h.col).Some? {
          var r := Region(h.row, h.col, EndColumn(g, h.row, h.col).value);
          var meta := Metadata(fileName, sheetName, parse);
          ExtractedNeedsTerminator(g, r, meta);
          if RegionOutcome(g, r, meta).Extracted? {
            BlockTableStamped(g, r, TotalRow(g, r.headerRow, r.startCol, r.endCol).value, meta);
          }
        }
      }
    }
  }
}
