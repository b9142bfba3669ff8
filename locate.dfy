/**
 * The table-region detector: where the header row is, which column closes
 * the table, and which row ends its data. Each search has a reference
 * function, lemmas saying which match it returns, and a method that runs
 * the search as nested index loops with early exits.
 *
 * The reference functions are written once over a cell test `p`; the
 * detector instantiates them with the tests of module Cells.
 */
module Locate {
  import opened Wrappers
  import opened Cells

  /** Rows searched for the header marker: the first 20, or all if fewer. */
  function HeaderLimit(g: Grid): (n: nat)
    ensures n <= |g.rows| && n <= HeaderSearchRows
    ensures n == |g.rows| || n == HeaderSearchRows
  {
    if |g.rows| < HeaderSearchRows then |g.rows| else HeaderSearchRows
  }

  // ---------------------------------------------------------------------
  // Generic first-match searches

  /** The first column at or after `from` whose cell passes `p`. */
  function FirstCellFrom(row: seq<Cell>, from: nat, p: Cell -> bool): Option<nat>
    decreases |row| - from
  {
    if from >= |row| then None
    else if p(row[from]) then Some(from)
    else FirstCellFrom(row, from + 1, p)
  }

  lemma {:induction false} FirstCellFromSpec(row: seq<Cell>, from: nat, p: Cell -> bool)
    decreases |row| - from
    ensures FirstCellFrom(row, from, p).Some? ==>
      var c := FirstCellFrom(row, from, p).value;
      && from <= c < |row| && p(row[c])
      && forall k :: from <= k < c ==> !p(row[k])
    ensures FirstCellFrom(row, from, p).None? <==> forall k :: from <= k < |row| ==> !p(row[k])
  {
    if from < |row| && !p(row[from]) {
      FirstCellFromSpec(row, from + 1, p);
    }
  }

  /** Some cell in columns `from ..= endCol` of `row` passes `p`. */
  predicate SpanAny(row: seq<Cell>, from: nat, endCol: nat, p: Cell -> bool)
    requires endCol < |row|
    decreases endCol + 1 - from
  {
    from <= endCol && (p(row[from]) || SpanAny(row, from + 1, endCol, p))
  }

  lemma {:induction false} SpanAnyIff(row: seq<Cell>, from: nat, endCol: nat, p: Cell -> bool)
    requires endCol < |row|
    decreases endCol + 1 - from
    ensures SpanAny(row, from, endCol, p) <==> exists c :: from <= c <= endCol && p(row[c])
  {
    if from <= endCol {
      SpanAnyIff(row, from + 1, endCol, p);
    }
  }

  /** The first row at or after `i` with a cell in columns
      `startCol ..= endCol` that passes `p`. */
  function FirstRowFrom(g: Grid, i: nat, startCol: nat, endCol: nat, p: Cell -> bool): Option<nat>
    requires g.Valid() && endCol < g.width
    decreases |g.rows| - i
  {
    if i >= |g.rows| then None
    else if SpanAny(g.rows[i], startCol, endCol, p) then Some(i)
    else FirstRowFrom(g, i + 1, startCol, endCol, p)
  }

  lemma {:induction false} FirstRowFromSpec(g: Grid, i: nat, startCol: nat, endCol: nat, p: Cell -> bool)
    requires g.Valid() && endCol < g.width
    decreases |g.rows| - i
    ensures FirstRowFrom(g, i, startCol, endCol, p).Some? ==>
      var r := FirstRowFrom(g, i, startCol, endCol, p).value;
      && i <= r < |g.rows| && SpanAny(g.rows[r], startCol, endCol, p)
      && forall k :: i <= k < r ==> !SpanAny(g.rows[k], startCol, endCol, p)
    ensures FirstRowFrom(g, i, startCol, endCol, p).None? <==>
      forall k :: i <= k < |g.rows| ==> !SpanAny(g.rows[k], startCol, endCol, p)
  {
    if i < |g.rows| && !SpanAny(g.rows[i], startCol, endCol, p) {
      FirstRowFromSpec(g, i + 1, startCol, endCol, p);
    }
  }

  /** The last row of the unbroken run of rows, starting at row `k`, whose
      column span has a cell passing `p`. */
  function RunEnd(g: Grid, k: nat, startCol: nat, endCol: nat, p: Cell -> bool): nat
    requires g.Valid() && endCol < g.width
    requires k < |g.rows| && SpanAny(g.rows[k], startCol, endCol, p)
    decreases |g.rows| - k
  {
    if k + 1 < |g.rows| && SpanAny(g.rows[k + 1], startCol, endCol, p)
    then RunEnd(g, k + 1, startCol, endCol, p)
    else k
  }

  lemma {:induction false} RunEndSpec(g: Grid, k: nat, startCol: nat, endCol: nat, p: Cell -> bool)
    requires g.Valid() && endCol < g.width
    requires k < |g.rows| && SpanAny(g.rows[k], startCol, endCol, p)
    decreases |g.rows| - k
    ensures var r := RunEnd(g, k, startCol, endCol, p);
      && k <= r < |g.rows|
      && (forall j :: k <= j <= r ==> SpanAny(g.rows[j], startCol, endCol, p))
      && (r + 1 == |g.rows| || !SpanAny(g.rows[r + 1], startCol, endCol, p))
  {
    if k + 1 < |g.rows| && SpanAny(g.rows[k + 1], startCol, endCol, p) {
      RunEndSpec(g, k + 1, startCol, endCol, p);
    }
  }

  // ---------------------------------------------------------------------
  // Header row

  /** The first cell passing `p` in row-major order among rows `i` up to
      the header search limit. */
  function FirstPosFrom(g: Grid, i: nat, p: Cell -> bool): Option<Pos>
    requires g.Valid()
    decreases HeaderLimit(g) - i
  {
    if i >= HeaderLimit(g) then None
    else match FirstCellFrom(g.rows[i], 0, p)
      case Some(c) => Some(Pos(i, c))
      case None => FirstPosFrom(g, i + 1, p)
  }

  lemma {:induction false} FirstPosFromRows(g: Grid, i: nat, p: Cell -> bool)
    requires g.Valid()
    decreases HeaderLimit(g) - i
    ensures FirstPosFrom(g, i, p).Some? ==>
      var h := FirstPosFrom(g, i, p).value;
      && i <= h.row < HeaderLimit(g)
      && FirstCellFrom(g.rows[h.row], 0, p) == Some(h.col)
      && forall a :: i <= a < h.row ==> FirstCellFrom(g.rows[a], 0, p).None?
    ensures FirstPosFrom(g, i, p).None? <==>
      forall a :: i <= a < HeaderLimit(g) ==> FirstCellFrom(g.rows[a], 0, p).None?
  {
    if i < HeaderLimit(g) && FirstCellFrom(g.rows[i], 0, p).None? {
      FirstPosFromRows(g, i + 1, p);
    }
  }

  /** The header position `find_header_row` returns. */
  function HeaderPos(g: Grid): Option<Pos>
    requires g.Valid()
  {
    FirstPosFrom(g, 0, IsHeaderCell)
  }

  /** The header found: the first "Sl. No." cell in row-major order over the
      first min(20, len) rows; none exactly when no such cell exists there. */
  lemma FirstHeaderCell(g: Grid)
    requires g.Valid()
    ensures HeaderPos(g).Some? ==>
      var h := HeaderPos(g).value;
      && h.row < HeaderLimit(g) && h.col < g.width
      && IsHeaderCell(g.rows[h.row][h.col])
      && (forall a, b :: 0 <= a < h.row && 0 <= b < g.width ==> !IsHeaderCell(g.rows[a][b]))
      && (forall b :: 0 <= b < h.col ==> !IsHeaderCell(g.rows[h.row][b]))
    ensures HeaderPos(g).None? <==>
      forall a, b :: 0 <= a < HeaderLimit(g) && 0 <= b < g.width ==> !IsHeaderCell(g.rows[a][b])
  {
    FirstPosFromRows(g, 0, IsHeaderCell);
    forall a | 0 <= a < HeaderLimit(g) {
      FirstCellFromSpec(g.rows[a], 0, IsHeaderCell);
    }
  }

  /** `find_header_row`: scans rows `0 .. min(20, len)` and, within each,
      every column, returning at the first "Sl. No." cell. */
  method FindHeaderRow(g: Grid) returns (r: Option<Pos>)
    requires g.Valid()
    ensures r == HeaderPos(g)
  {
    var limit := if |g.rows| < HeaderSearchRows then |g.rows| else HeaderSearchRows;
    var rowIdx := 0;
    while rowIdx < limit
      invariant rowIdx <= limit == HeaderLimit(g)
      invariant FirstPosFrom(g, rowIdx, IsHeaderCell) == HeaderPos(g)
    {
      var colIdx := 0;
      while colIdx < g.width
        invariant colIdx <= g.width
        invariant FirstCellFrom(g.rows[rowIdx], colIdx, IsHeaderCell) == FirstCellFrom(g.rows[rowIdx], 0, IsHeaderCell)
      {
        if IsHeaderCell(g.rows[rowIdx][colIdx]) {
          return Some(Pos(rowIdx, colIdx));
        }
        colIdx := colIdx + 1;
      }
      rowIdx := rowIdx + 1;
    }
    return None;
  }

  // ---------------------------------------------------------------------
  // End column

  /** The end column: the first "Sample" cell at or right of the header
      column on the header row. */
  function EndColumn(g: Grid, headerRow: nat, startCol: nat): Option<nat>
    requires g.Valid() && headerRow < |g.rows|
  {
    FirstCellFrom(g.rows[headerRow], startCol, IsEndCell)
  }

  /** When the header column holds "Sl. No.", any end column found lies
      strictly to its right and within the grid. */
  lemma EndColumnAfterHeader(g: Grid, headerRow: nat, startCol: nat)
    requires g.Valid() && headerRow < |g.rows|
    requires startCol < g.width && IsHeaderCell(g.rows[headerRow][startCol])
    ensures EndColumn(g, headerRow, startCol).Some? ==> startCol < EndColumn(g, headerRow, startCol).value < g.width
  {
    FirstCellFromSpec(g.rows[headerRow], startCol, IsEndCell);
    MarkersDiffer(g.rows[headerRow][startCol]);
  }

  /** The end-column loop of `process_sheet`: scans the header row rightward
      from the header column and stops at the first "Sample" cell. */
  method FindEndColumn(g: Grid, headerRow: nat, startCol: nat) returns (endCol: Option<nat>)
    requires g.Valid() && headerRow < |g.rows|
    ensures endCol == EndColumn(g, headerRow, startCol)
  {
    endCol := None;
    var colIdx := startCol;
    while colIdx < g.width
      invariant colIdx >= startCol
      invariant FirstCellFrom(g.rows[headerRow], colIdx, IsEndCell) == EndColumn(g, headerRow, startCol)
    {
      if IsEndCell(g.rows[headerRow][colIdx]) {
        endCol := Some(colIdx);
        break;
      }
      colIdx := colIdx + 1;
    }
  }

  // ---------------------------------------------------------------------
  // Terminator row

  /** The terminator row: the first row after `startRow` whose column span
      holds a cell containing "total" or "summary". */
  function TotalRow(g: Grid, startRow: nat, startCol: nat, endCol: nat): Option<nat>
    requires g.Valid() && endCol < g.width
  {
    FirstRowFrom(g, startRow + 1, startCol, endCol, IsTerminator)
  }

  /** `find_total_row`'s promise: the row lies after `startRow`, holds a
      terminator cell within columns `startCol ..= endCol`, and no row
      between `startRow` and it does; none exactly when no row qualifies. */
  lemma TotalRowSpec(g: Grid, startRow: nat, startCol: nat, endCol: nat)
    requires g.Valid() && endCol < g.width
    ensures TotalRow(g, startRow, startCol, endCol).Some? ==>
      var t := TotalRow(g, startRow, startCol, endCol).value;
      && startRow < t < |g.rows|
      && (exists c :: startCol <= c <= endCol && IsTerminator(g.rows[t][c]))
      && forall k, c :: startRow < k < t && startCol <= c <= endCol ==> !IsTerminator(g.rows[k][c])
    ensures TotalRow(g, startRow, startCol, endCol).None? <==>
      forall k, c :: startRow < k < |g.rows| && startCol <= c <= endCol ==> !IsTerminator(g.rows[k][c])
  {
    FirstRowFromSpec(g, startRow + 1, startCol, endCol, IsTerminator);
    forall k | startRow < k < |g.rows| {
      SpanAnyIff(g.rows[k], startCol, endCol, IsTerminator);
    }
  }

  /** The bounds clause of `TotalRowSpec` on its own. Callers that need
      only the bounds use it, because `TotalRowSpec` brings the terminator
      test into quantified facts, which makes their proofs much costlier. */
  lemma TotalRowBounds(g: Grid, startRow: nat, startCol: nat, endCol: nat)
    requires g.Valid() && endCol < g.width
    ensures TotalRow(g, startRow, startCol, endCol).Some? ==>
      startRow < TotalRow(g, startRow, startCol, endCol).value < |g.rows|
  {
    FirstRowFromSpec(g, startRow + 1, startCol, endCol, IsTerminator);
  }

  /** `find_total_row`: rows after `startRow` in order, and within each the
      columns `startCol ..= endCol`, returning at the first terminator cell. */
  method FindTotalRow(g: Grid, startRow: nat, startCol: nat, endCol: nat) returns (r: Option<nat>)
    requires g.Valid() && endCol < g.width
    ensures r == TotalRow(g, startRow, startCol, endCol)
  {
    var idx := startRow + 1;
    while idx < |g.rows|
      invariant idx >= startRow + 1
      invariant FirstRowFrom(g, idx, startCol, endCol, IsTerminator) == TotalRow(g, startRow, startCol, endCol)
    {
      var colIdx := startCol;
      while colIdx <= endCol
        invariant colIdx >= startCol
        invariant SpanAny(g.rows[idx], colIdx, endCol, IsTerminator) == SpanAny(g.rows[idx], startCol, endCol, IsTerminator)
      {
        if IsTerminator(g.rows[idx][colIdx]) {
          return Some(idx);
        }
        colIdx := colIdx + 1;
      }
      idx := idx + 1;
    }
    return None;
  }

  // ---------------------------------------------------------------------
  // Fallback: last data row

  /** The last row of the first run of rows after row `i - 1` whose span
      has a cell passing `p`; none when no such row exists. */
  function FirstRunEnd(g: Grid, i: nat, startCol: nat, endCol: nat, p: Cell -> bool): Option<nat>
    requires g.Valid() && endCol < g.width
  {
    FirstRowFromSpec(g, i, startCol, endCol, p);
    match FirstRowFrom(g, i, startCol, endCol, p)
    case None => None
    case Some(first) => Some(RunEnd(g, first, startCol, endCol, p))
  }

  /** A row from `i` on that passes means a run is found: the none-iff
      clause of `FirstRunEndSpec`, one way, for a given row `k`. Callers use
      it with a concrete test, where the quantified clause would be
      unfolded at a much higher proof cost. */
  lemma FirstRunEndFinds(g: Grid, i: nat, startCol: nat, endCol: nat, p: Cell -> bool, k: nat)
    requires g.Valid() && endCol < g.width
    requires i <= k < |g.rows| && SpanAny(g.rows[k], startCol, endCol, p)
    ensures FirstRunEnd(g, i, startCol, endCol, p).Some?
  {
    FirstRowFromSpec(g, i, startCol, endCol, p);
  }

  /** The first run found by `FirstRunEnd`: none exactly when no row from
      `i` on passes; otherwise every row from the first passing one up to
      the result passes, no row before that does, and the row after the
      result fails or is past the end. */
  lemma FirstRunEndSpec(g: Grid, i: nat, startCol: nat, endCol: nat, p: Cell -> bool)
    requires g.Valid() && endCol < g.width
    ensures FirstRunEnd(g, i, startCol, endCol, p).None? <==>
      forall k :: i <= k < |g.rows| ==> !SpanAny(g.rows[k], startCol, endCol, p)
    ensures FirstRunEnd(g, i, startCol, endCol, p).Some? ==>
      var last := FirstRunEnd(g, i, startCol, endCol, p).value;
      var first := FirstRowFrom(g, i, startCol, endCol, p).value;
      && i <= first <= last < |g.rows|
      && (forall k :: i <= k < first ==> !SpanAny(g.rows[k], startCol, endCol, p))
      && (forall k :: first <= k <= last ==> SpanAny(g.rows[k], startCol, endCol, p))
      && (last + 1 == |g.rows| || !SpanAny(g.rows[last + 1], startCol, endCol, p))
  {
    FirstRowFromSpec(g, i, startCol, endCol, p);
    var first := FirstRowFrom(g, i, startCol, endCol, p);
    if first.Some? {
      RunEndSpec(g, first.value, startCol, endCol, p);
    }
  }

  /** The fallback end of data: the last row of the first run of data rows
      after `startRow` (rows with a non-empty, non-"nan" cell in the span);
      `FirstRunEndSpec` with `p := HasData` is `find_last_data_row`'s
      promise. */
  function LastDataRow(g: Grid, startRow: nat, startCol: nat, endCol: nat): Option<nat>
    requires g.Valid() && endCol < g.width
  {
    FirstRunEnd(g, startRow + 1, startCol, endCol, HasData)
  }

  /** `find_last_data_row`, with the cell test `HasData`. */
  method FindLastDataRow(g: Grid, startRow: nat, startCol: nat, endCol: nat) returns (lastDataRow: Option<nat>)
    requires g.Valid() && endCol < g.width
    ensures lastDataRow == LastDataRow(g, startRow, startCol, endCol)
  {
    lastDataRow := FindRunEnd(g, startRow + 1, startCol, endCol, HasData);
  }

  /** The loop of `find_last_data_row`: from row `i` on, records each row
      whose span has a cell passing `p`, and stops at the first failing row
      that follows a recorded one. */
  method FindRunEnd(g: Grid, i: nat, startCol: nat, endCol: nat, p: Cell -> bool) returns (lastDataRow: Option<nat>)
    requires g.Valid() && endCol < g.width
    ensures lastDataRow == FirstRunEnd(g, i, startCol, endCol, p)
  {
    lastDataRow := None;
    var idx := i;
    while idx < |g.rows|
      invariant idx >= i
      invariant lastDataRow.None? ==>
        FirstRowFrom(g, idx, startCol, endCol, p) == FirstRowFrom(g, i, startCol, endCol, p)
      invariant lastDataRow.Some? ==> lastDataRow.value + 1 == idx <= |g.rows|
      invariant lastDataRow.Some? ==> SpanAny(g.rows[lastDataRow.value], startCol, endCol, p)
      invariant lastDataRow.Some? ==>
        FirstRunEnd(g, i, startCol, endCol, p) == Some(RunEnd(g, lastDataRow.value, startCol, endCol, p))
    {
      var rowHasData := false;
      var colIdx := startCol;
      while colIdx <= endCol
        invariant colIdx >= startCol
        invariant !rowHasData
        invariant SpanAny(g.rows[idx], colIdx, endCol, p) == SpanAny(g.rows[idx], startCol, endCol, p)
      {
        if p(g.rows[idx][colIdx]) {
          rowHasData := true;
          break;
        }
        colIdx := colIdx + 1;
      }

      if rowHasData {
        lastDataRow := Some(idx);
      } else if lastDataRow.Some? {
        break;
      }
      idx := idx + 1;
    }
  }
}
