/** Cell addresses and ranges, with the special indices of the library. */
module Address {
  // 32-bit signed row, column and sheet indices
  const INT32_MAX := 0x7FFF_FFFF
  const ROW_UNSET := INT32_MAX - 9
  const ROW_UPPER_BOUND := INT32_MAX - 10
  const COLUMN_UNSET := INT32_MAX - 9
  const COLUMN_UPPER_BOUND := INT32_MAX / 26 - 26

  lemma Limits()
    ensures ROW_UNSET == COLUMN_UNSET == 2147483638
    ensures ROW_UPPER_BOUND == 2147483637 && COLUMN_UPPER_BOUND == 82595498
  {
  }

  datatype AbsAddress = AbsAddress(sheet: int, row: int, column: int) {
    predicate Valid() {
      sheet >= 0 && 0 <= row <= ROW_UNSET && 0 <= column <= COLUMN_UNSET
    }
  }

  datatype AbsRange = AbsRange(first: AbsAddress, last: AbsAddress) {
    predicate Valid() {
      && first.Valid() && last.Valid()
      && first.sheet <= last.sheet && first.column <= last.column && first.row <= last.row
    }

    predicate AllColumns() {
      first.column == COLUMN_UNSET && last.column == COLUMN_UNSET
    }

    predicate AllRows() {
      first.row == ROW_UNSET && last.row == ROW_UNSET
    }

    /** In order, and neither whole columns nor whole rows. */
    predicate Specified() {
      Valid() && !AllColumns() && !AllRows()
    }

    predicate Contains(a: AbsAddress) {
      && first.sheet <= a.sheet <= last.sheet
      && first.row <= a.row <= last.row
      && first.column <= a.column <= last.column
    }
  }

  /** The sheets of a workbook, all of one size. */
  datatype Bounds = Bounds(sheets: nat, rows: nat, columns: nat) {
    predicate Valid() {
      0 < rows <= ROW_UNSET && 0 < columns <= COLUMN_UNSET
    }

    predicate Has(a: AbsAddress) {
      0 <= a.sheet < sheets && 0 <= a.row < rows && 0 <= a.column < columns
    }
  }

  /** Unset columns and rows stand for all those of the sheet. */
  function Expanded(r: AbsRange, bounds: Bounds): AbsRange {
    var columns := if r.AllColumns() then (0, bounds.columns - 1) else (r.first.column, r.last.column);
    var rows := if r.AllRows() then (0, bounds.rows - 1) else (r.first.row, r.last.row);
    AbsRange(AbsAddress(r.first.sheet, rows.0, columns.0), AbsAddress(r.last.sheet, rows.1, columns.1))
  }

  function Min(x: int, y: int): int {
    if x <= y then x else y
  }

  function Max(x: int, y: int): int {
    if x <= y then y else x
  }

  /** In either order. */
  predicate Between(x: int, p: int, q: int) {
    p <= x <= q || q <= x <= p
  }

  /** The corners of a range sorted. */
  function Reordered(r: AbsRange): AbsRange {
    AbsRange(
      AbsAddress(Min(r.first.sheet, r.last.sheet), Min(r.first.row, r.last.row), Min(r.first.column, r.last.column)),
      AbsAddress(Max(r.first.sheet, r.last.sheet), Max(r.first.row, r.last.row), Max(r.first.column, r.last.column)))
  }

  /** The one-cell range at an address. */
  function Cell(a: AbsAddress): AbsRange {
    AbsRange(a, a)
  }

  /** Row and column extent of a range, the key of the per-sheet search trees. */
  datatype Rect = Rect(firstRow: int, firstColumn: int, lastRow: int, lastColumn: int) {
    predicate Overlaps(r: Rect) {
      firstRow <= r.lastRow && r.firstRow <= lastRow && firstColumn <= r.lastColumn && r.firstColumn <= lastColumn
    }
  }

  function Extent(r: AbsRange): Rect {
    Rect(r.first.row, r.first.column, r.last.row, r.last.column)
  }
}
