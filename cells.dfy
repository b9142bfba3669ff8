/**
 * A worksheet as the spreadsheet reader hands it over: a rectangular grid of
 * cells, each either missing (pandas NaN) or carrying the text `str()` gives
 * for its value. Numbers are represented by their string form.
 */
module Cells {
  import opened Strings

  datatype Cell = Missing | Text(s: string)

  /** `str(value)` of a cell: NaN prints as "nan". */
  function Show(c: Cell): string {
    match c
    case Missing => "nan"
    case Text(s) => s
  }

  /** Marker of the first header column. */
  const HeaderMarker: string := "Sl. No."
  /** Marker of the last header column. */
  const EndMarker: string := "Sample"
  /** Number of leading rows searched for the header marker. */
  const HeaderSearchRows: nat := 20

  /** The stripped text of the cell equals `marker`. */
  predicate IsMarker(c: Cell, marker: string) {
    Strip(Show(c)) == marker
  }

  /** The cell reads "Sl. No.". */
  predicate IsHeaderCell(c: Cell) {
    IsMarker(c, HeaderMarker)
  }

  /** The cell reads "Sample". */
  predicate IsEndCell(c: Cell) {
    IsMarker(c, EndMarker)
  }

  lemma MarkersDiffer(c: Cell)
    ensures IsHeaderCell(c) ==> !IsEndCell(c)
  {}

  /** Text used for the terminator test: stripped, lower-cased, with every
      space and every '=' removed. */
  function Normalise(c: Cell): string {
    RemoveAll(RemoveAll(Lower(Strip(Show(c))), ' '), '=')
  }

  /** The cell marks the end of the data: its normalised text contains
      "total" or "summary". */
  predicate IsTerminator(c: Cell) {
    Contains(Normalise(c), "total") || Contains(Normalise(c), "summary")
  }

  /** The cell counts as data for the fallback search: its stripped text is
      non-empty and is not "nan" in any letter case. */
  predicate HasData(c: Cell) {
    var t := Strip(Show(c));
    |t| != 0 && !(|t| == 3 && Lower(t) == "nan")
  }

  /** `HasData` is the fallback test as written: the stripped text is
      truthy and its lower-cased form differs from "nan". */
  lemma HasDataIff(c: Cell)
    ensures HasData(c) <==> Strip(Show(c)) != "" && Lower(Strip(Show(c))) != "nan"
  {
    LowerLength(Strip(Show(c)));
  }

  /** `dropna(how='all')` drops the row: every cell is NaN. */
  predicate AllMissing(row: seq<Cell>) {
    forall c :: c in row ==> c == Missing
  }

  /** The second filter drops the row: every cell's string form strips to "". */
  predicate AllWhitespace(row: seq<Cell>) {
    forall c :: c in row ==> Strip(Show(c)) == ""
  }

  /** A body row the blank-row filters drop. */
  predicate IsBlankRow(row: seq<Cell>) {
    AllMissing(row) || AllWhitespace(row)
  }

  /** A worksheet: `rows` top to bottom, each holding `width` cells. */
  datatype Grid = Grid(rows: seq<seq<Cell>>, width: nat) {
    predicate Valid() {
      forall i :: 0 <= i < |rows| ==> |rows[i]| == width
    }
  }

  /** A (row, column) position, both 0-based. */
  datatype Pos = Pos(row: nat, col: nat)

  /** A NaN cell is never a marker, never data and never a terminator. */
  lemma MissingIsInert()
    ensures !IsMarker(Missing, HeaderMarker) && !IsMarker(Missing, EndMarker)
    ensures !HasData(Missing) && !IsTerminator(Missing)
  {
    var n := "nan";
    assert !IsSpace(n[0]) && !IsSpace(n[|n| - 1]);
    assert Strip(n) == n;
    assert Lower(n) == n;
    assert |Normalise(Missing)| <= 3;
  }

  /** The two blank-row rules do not combine: a row mixing NaN and empty
      text is kept. */
  lemma MixedBlankRowIsKept()
    ensures !IsBlankRow([Missing, Text("")])
  {
    var row := [Missing, Text("")];
    assert Strip(Show(Missing)) != "" by { MissingIsInert(); }
    assert row[1] in row && row[1] != Missing;
    assert row[0] in row;
  }
}
