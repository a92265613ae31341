/** Scans over the block-compressed columns of the sheets of a workbook, and
    what they mean cell by cell. */
module ColumnScans {
  import opened Address
  import opened ColumnStore

  type Sheet = seq<Column>

  /** Sheets of one common size. */
  predicate IsSheet(sheet: Sheet, rows: nat) {
    forall c :: 0 <= c < |sheet| ==> IsColumn(sheet[c]) && Size(sheet[c]) == rows
  }

  predicate IsWorkbook(sheets: seq<Sheet>, rows: nat, columns: nat) {
    forall s :: 0 <= s < |sheets| ==> IsSheet(sheets[s], rows) && |sheets[s]| == columns
  }

  // ---- counting ----

  /** The kinds of values to count. */
  datatype Values = Values(numeric: bool, boolean: bool, text: bool, empty: bool)

  predicate Counts(vt: Values, cell: CellKind) {
    match cell
    case NoCell => vt.empty
    case BooleanCell => vt.boolean
    case NumericCell => vt.numeric
    case StringCell => vt.text
    case FormulaCell(r) =>
      (match r
       case BooleanResult => vt.boolean
       case ValueResult => vt.numeric
       case StringResult => vt.text
       case _ => false)
  }

  /** The matching cells of a column from row i up to row j. */
  function CountCells(c: Column, i: nat, j: nat, vt: Values): nat
    requires AllValid(c) && j <= Size(c)
    decreases j - i
  {
    if i >= j then 0 else (if Counts(vt, CellAt(c, i)) then 1 else 0) + CountCells(c, i + 1, j, vt)
  }

  lemma {:induction false} CountSplits(c: Column, i: nat, m: nat, j: nat, vt: Values)
    requires AllValid(c) && i <= m <= j <= Size(c)
    ensures CountCells(c, i, j, vt) == CountCells(c, i, m, vt) + CountCells(c, m, j, vt)
    decreases m - i
  {
    if i == m {
    } else {
      CountSplits(c, i + 1, m, j, vt);
    }
  }

  lemma CountNext(c: Column, i: nat, j: nat, vt: Values)
    requires AllValid(c) && i <= j < Size(c)
    ensures CountCells(c, i, j + 1, vt) == CountCells(c, i, j, vt) + if Counts(vt, CellAt(c, j)) then 1 else 0
  {
    CountSplits(c, i, j, j + 1, vt);
  }

  /** All cells of a block other than a formula block count alike. */
  lemma {:induction false} BlockCounts(c: Column, k: nat, o: nat, len: nat, vt: Values)
    requires AllValid(c) && k < |c| && o + len <= c[k].size && !c[k].cellType.FormulaType?
    ensures Start(c, k) + o + len <= Size(c)
    ensures CountCells(c, Start(c, k) + o, Start(c, k) + o + len, vt) == if Counts(vt, c[k].Cell(0)) then len else 0
    decreases len
  {
    StartGrows(c, k + 1, |c|);
    if len > 0 {
      CellOfBlock(c, k, o);
      BlockCounts(c, k, o + 1, len - 1, vt);
    }
  }

  method CountsResult(r: ResultType, vt: Values) returns (counted: bool)
    ensures counted == Counts(vt, FormulaCell(r))
  {
    match r {
      case BooleanResult => counted := vt.boolean;
      case ValueResult => counted := vt.numeric;
      case StringResult => counted := vt.text;
      case ErrorResult => counted := false;
      case MatrixResult => counted := false;
    }
  }

  method CountFormulaBlock(c: Column, k: nat, o: nat, len: nat, vt: Values) returns (n: nat)
    requires AllValid(c) && k < |c| && o + len <= c[k].size && c[k].cellType.FormulaType?
    ensures Start(c, k) + o + len <= Size(c)
    ensures n == CountCells(c, Start(c, k) + o, Start(c, k) + o + len, vt)
  {
    StartGrows(c, k + 1, |c|);
    ghost var first := Start(c, k) + o;
    n := 0;
    for i := 0 to len
      invariant first + len <= Size(c)
      invariant n == CountCells(c, first, first + i, vt)
    {
      CellOfBlock(c, k, o + i);
      CountNext(c, first, first + i, vt);
      var counted := CountsResult(c[k].results[o + i], vt);
      if counted {
        n := n + 1;
      }
    }
  }

  /** The part of a block of the given length. */
  method CountBlock(c: Column, k: nat, o: nat, len: nat, vt: Values) returns (n: nat)
    requires AllValid(c) && k < |c| && o + len <= c[k].size
    ensures Start(c, k) + o + len <= Size(c)
    ensures n == CountCells(c, Start(c, k) + o, Start(c, k) + o + len, vt)
  {
    if !c[k].cellType.FormulaType? {
      BlockCounts(c, k, o, len, vt);
    }
    match c[k].cellType {
      case NumericType => n := if vt.numeric then len else 0;
      case BooleanType => n := if vt.boolean then len else 0;
      case StringType => n := if vt.text then len else 0;
      case EmptyType => n := if vt.empty then len else 0;
      case FormulaType => n := CountFormulaBlock(c, k, o, len, vt);
    }
  }

  /** One column of count_range, block by block. */
  method CountColumn(c: Column, first: nat, last: int, vt: Values) returns (ret: nat)
    requires AllValid(c) && first <= Size(c) && (first < Size(c) ==> first <= last)
    ensures ret == CountCells(c, first, Max(first, Min(last + 1, Size(c))), vt)
  {
    ret := 0;
    if first == Size(c) {
      return;
    }
    var (itb, offset) := Position(c, first);
    var curRow := first;
    var cont := true;
    while cont
      invariant cont ==> itb < |c| && offset < c[itb].size && curRow == Start(c, itb) + offset && curRow <= last
      invariant first <= curRow <= Size(c) && ret == CountCells(c, first, curRow, vt)
      invariant !cont ==> curRow == Min(last + 1, Size(c))
      decreases cont, |c| - itb
    {
      var len := c[itb].size - offset;
      var lastRow := curRow + len - 1;
      if lastRow >= last {
        lastRow := last;
        len := lastRow - curRow + 1;
        cont := false;
      }
      var n := CountBlock(c, itb, offset, len, vt);
      CountSplits(c, first, curRow, curRow + len, vt);
      ret := ret + n;
      curRow := lastRow + 1;
      itb := itb + 1;
      offset := 0;
      if itb == |c| {
        cont := false;
      }
    }
  }

  function ClipRange(range: AbsRange, rows: nat): AbsRange {
    range.(first := range.first.(row := if range.first.row == ROW_UNSET then 0 else range.first.row),
           last := range.last.(row := if range.last.row == ROW_UNSET then rows - 1 else range.last.row))
  }

  /** The columns of the range exist, and its rows are ordered and begin in the sheets. */
  predicate InBounds(range: AbsRange, rows: nat, columns: nat) {
    && 0 <= range.first.sheet && 0 <= range.first.column && range.last.column < columns
    && 0 <= range.first.row <= rows && (range.first.row < rows ==> range.first.row <= range.last.row)
  }

  /** The matching cells of the columns from column i on. */
  function CountColumns(sheet: Sheet, rows: nat, i: int, lastColumn: int, first: nat, end: nat, vt: Values): nat
    requires IsSheet(sheet, rows) && 0 <= i && lastColumn < |sheet| && end <= rows
    decreases lastColumn - i
  {
    if i > lastColumn then 0
    else CountCells(sheet[i], first, end, vt) + CountColumns(sheet, rows, i + 1, lastColumn, first, end, vt)
  }

  /** The matching cells of the sheets from sheet i on. */
  function CountSheets(sheets: seq<Sheet>, rows: nat, columns: nat, i: int, lastSheet: int, range: AbsRange,
          vt: Values): nat
    requires IsWorkbook(sheets, rows, columns) && 0 <= i && lastSheet < |sheets| && InBounds(range, rows, columns)
    decreases lastSheet - i
  {
    if i > lastSheet then 0
    else
      CountColumns(sheets[i], rows, range.first.column, range.last.column, range.first.row, RowEnd(range, rows), vt)
      + CountSheets(sheets, rows, columns, i + 1, lastSheet, range, vt)
  }

  /** The row after the last row of the range that exists. */
  function RowEnd(range: AbsRange, rows: nat): nat
    requires 0 <= range.first.row <= rows
  {
    Max(range.first.row, Min(range.last.row + 1, rows))
  }

  /** The count is the number of matching cells, cell by cell. */
  method CountRange(sheets: seq<Sheet>, rows: nat, columns: nat, original: AbsRange, vt: Values) returns (ret: nat)
    requires IsWorkbook(sheets, rows, columns) && InBounds(ClipRange(original, rows), rows, columns)
    ensures ret ==
      CountSheets(sheets, rows, columns, original.first.sheet, Min(original.last.sheet, |sheets| - 1),
        ClipRange(original, rows), vt)
    ensures ret == |WantedInRange(sheets, rows, columns, original, vt)|
  {
    CountIsWanted(sheets, rows, columns, original, vt);
    if sheets == [] {
      return 0;
    }
    var range := ClipRange(original, rows);
    ret := 0;
    var lastSheet := range.last.sheet;
    if lastSheet >= |sheets| {
      lastSheet := |sheets| - 1;
    }
    ghost var total := CountSheets(sheets, rows, columns, range.first.sheet, lastSheet, range, vt);
    var sheet := range.first.sheet;
    while sheet <= lastSheet
      invariant range.first.sheet <= sheet
      invariant total == ret + CountSheets(sheets, rows, columns, sheet, lastSheet, range, vt)
      decreases lastSheet - sheet
    {
      var n := CountSheet(sheets[sheet], rows, range, vt);
      ret := ret + n;
      sheet := sheet + 1;
    }
  }

  method CountSheet(ws: Sheet, rows: nat, range: AbsRange, vt: Values) returns (ret: nat)
    requires IsSheet(ws, rows) && InBounds(range, rows, |ws|)
    ensures ret ==
      CountColumns(ws, rows, range.first.column, range.last.column, range.first.row, RowEnd(range, rows), vt)
  {
    ret := 0;
    ghost var total := CountColumns(ws, rows, range.first.column, range.last.column, range.first.row,
            RowEnd(range, rows), vt);
    var col := range.first.column;
    while col <= range.last.column
      invariant range.first.column <= col
      invariant total == ret + CountColumns(ws, rows, col, range.last.column, range.first.row, RowEnd(range, rows), vt)
      decreases range.last.column - col
    {
      var n := CountColumn(ws[col], range.first.row, range.last.row, vt);
      ret := ret + n;
      col := col + 1;
    }
  }

  // ---- the count is a number of cells ----

  function Tagged<T>(tag: int, xs: set<T>): set<(int, T)> {
    set x | x in xs :: (tag, x)
  }

  lemma {:induction false} TaggedSize<T>(tag: int, xs: set<T>)
    ensures |Tagged(tag, xs)| == |xs|
    decreases xs
  {
    if xs == {} {
    } else {
      var x :| x in xs;
      TaggedSize(tag, xs - {x});
      assert Tagged(tag, xs) == Tagged(tag, xs - {x}) + {(tag, x)};
    }
  }

  function MatchingRows(c: Column, first: nat, end: nat, vt: Values): set<int>
    requires AllValid(c) && end <= Size(c)
  {
    set r | first <= r < end && Counts(vt, CellAt(c, r))
  }

  lemma {:induction false} CountCellsIsSize(c: Column, first: nat, end: nat, vt: Values)
    requires AllValid(c) && end <= Size(c)
    ensures CountCells(c, first, end, vt) == |MatchingRows(c, first, end, vt)|
    decreases end - first
  {
    if first < end {
      CountCellsIsSize(c, first + 1, end, vt);
    }
    MatchingRowsStep(c, first, end, vt);
  }

  lemma MatchingRowsStep(c: Column, first: nat, end: nat, vt: Values)
    requires AllValid(c) && end <= Size(c)
    ensures first >= end ==> MatchingRows(c, first, end, vt) == {}
    ensures first < end ==>
      && MatchingRows(c, first, end, vt) == (if Counts(vt, CellAt(c, first)) then {first} else {}) +
        MatchingRows(c, first + 1, end, vt)
      && first !in MatchingRows(c, first + 1, end, vt)
  {
  }

  /** Column and row of the matching cells of a sheet. */
  function MatchingCells(sheet: Sheet, rows: nat, i: int, lastColumn: int, first: nat, end: nat,
          vt: Values): set<(int, int)>
    requires IsSheet(sheet, rows) && 0 <= i && lastColumn < |sheet| && end <= rows
  {
    set c, r | i <= c <= lastColumn && first <= r < end && Counts(vt, CellAt(sheet[c], r)) :: (c, r)
  }

  lemma {:induction false} CountColumnsIsSize(sheet: Sheet, rows: nat, i: int, lastColumn: int, first: nat,
          end: nat, vt: Values)
    requires IsSheet(sheet, rows) && 0 <= i && lastColumn < |sheet| && end <= rows
    ensures CountColumns(sheet, rows, i, lastColumn, first, end, vt) ==
      |MatchingCells(sheet, rows, i, lastColumn, first, end, vt)|
    decreases lastColumn - i
  {
    MatchingCellsStep(sheet, rows, i, lastColumn, first, end, vt);
    if i <= lastColumn {
      CountColumnsIsSize(sheet, rows, i + 1, lastColumn, first, end, vt);
      CountCellsIsSize(sheet[i], first, end, vt);
      TaggedSize(i, MatchingRows(sheet[i], first, end, vt));
    }
  }

  lemma MatchingCellsStep(sheet: Sheet, rows: nat, i: int, lastColumn: int, first: nat, end: nat, vt: Values)
    requires IsSheet(sheet, rows) && 0 <= i && lastColumn < |sheet| && end <= rows
    ensures i > lastColumn ==> MatchingCells(sheet, rows, i, lastColumn, first, end, vt) == {}
    ensures i <= lastColumn ==>
      var here, rest := Tagged(i, MatchingRows(sheet[i], first, end, vt)),
        MatchingCells(sheet, rows, i + 1, lastColumn, first, end, vt);
      MatchingCells(sheet, rows, i, lastColumn, first, end, vt) == here + rest && here !! rest
  {
  }

  /** Sheet, column and row of the matching cells of a range. */
  function MatchingInRange(sheets: seq<Sheet>, rows: nat, columns: nat, i: int, lastSheet: int, range: AbsRange,
          vt: Values)
    : set<(int, (int, int))>
    requires IsWorkbook(sheets, rows, columns) && 0 <= i && lastSheet < |sheets| && InBounds(range, rows, columns)
  {
    set s, c, r | i <= s <= lastSheet && range.first.column <= c <= range.last.column
      && range.first.row <= r < RowEnd(range, rows) && Counts(vt, CellAt(sheets[s][c], r)) :: (s, (c, r))
  }

  lemma {:induction false} CountSheetsIsSize(sheets: seq<Sheet>, rows: nat, columns: nat, i: int, lastSheet: int,
          range: AbsRange, vt: Values)
    requires IsWorkbook(sheets, rows, columns) && 0 <= i && lastSheet < |sheets| && InBounds(range, rows, columns)
    ensures CountSheets(sheets, rows, columns, i, lastSheet, range, vt)
         == |MatchingInRange(sheets, rows, columns, i, lastSheet, range, vt)|
    decreases lastSheet - i
  {
    MatchingInRangeStep(sheets, rows, columns, i, lastSheet, range, vt);
    if i <= lastSheet {
      CountSheetsIsSize(sheets, rows, columns, i + 1, lastSheet, range, vt);
      CountSheetIsSize(sheets[i], rows, i, range, vt);
    }
  }

  lemma CountSheetIsSize(sheet: Sheet, rows: nat, i: int, range: AbsRange, vt: Values)
    requires IsSheet(sheet, rows) && InBounds(range, rows, |sheet|)
    ensures var first, end := range.first.row, RowEnd(range, rows);
      CountColumns(sheet, rows, range.first.column, range.last.column, first, end, vt)
      == |Tagged(i, MatchingCells(sheet, rows, range.first.column, range.last.column, first, end, vt))|
  {
    var first, end := range.first.row, RowEnd(range, rows);
    CountColumnsIsSize(sheet, rows, range.first.column, range.last.column, first, end, vt);
    TaggedSize(i, MatchingCells(sheet, rows, range.first.column, range.last.column, first, end, vt));
  }

  lemma MatchingInRangeStep(sheets: seq<Sheet>, rows: nat, columns: nat, i: int, lastSheet: int, range: AbsRange,
          vt: Values)
    requires IsWorkbook(sheets, rows, columns) && 0 <= i && lastSheet < |sheets| && InBounds(range, rows, columns)
    ensures i > lastSheet ==> MatchingInRange(sheets, rows, columns, i, lastSheet, range, vt) == {}
    ensures i <= lastSheet ==>
      var cells := MatchingCells(sheets[i], rows, range.first.column, range.last.column, range.first.row,
        RowEnd(range, rows), vt);
      var here, rest := Tagged(i, cells), MatchingInRange(sheets, rows, columns, i + 1, lastSheet, range, vt);
      MatchingInRange(sheets, rows, columns, i, lastSheet, range, vt) == here + rest && here !! rest
  {
  }

  // ---- the cells that are wanted ----

  /** The cells counted for each of the four flags. */
  predicate Wanted(vt: Values, cell: CellKind) {
    || (vt.numeric && (cell == NumericCell || cell == FormulaCell(ValueResult)))
    || (vt.boolean && (cell == BooleanCell || cell == FormulaCell(BooleanResult)))
    || (vt.text && (cell == StringCell || cell == FormulaCell(StringResult)))
    || (vt.empty && cell == NoCell)
  }

  /** Sheet, column and row of the wanted cells of a range as it is given. */
  ghost function WantedInRange(sheets: seq<Sheet>, rows: nat, columns: nat, range: AbsRange,
          vt: Values): set<(int, (int, int))>
    requires IsWorkbook(sheets, rows, columns)
  {
    set s, c, r |
      && 0 <= s < |sheets| && range.first.sheet <= s <= range.last.sheet
      && 0 <= c < columns && range.first.column <= c <= range.last.column
      && 0 <= r < rows
      && (range.first.row == ROW_UNSET || range.first.row <= r)
      && (range.last.row == ROW_UNSET || r <= range.last.row)
      && Wanted(vt, CellAt(sheets[s][c], r)) :: (s, (c, r))
  }

  lemma CountIsWanted(sheets: seq<Sheet>, rows: nat, columns: nat, original: AbsRange, vt: Values)
    requires IsWorkbook(sheets, rows, columns) && InBounds(ClipRange(original, rows), rows, columns)
    ensures CountSheets(sheets, rows, columns, original.first.sheet, Min(original.last.sheet, |sheets| - 1),
              ClipRange(original, rows), vt) == |WantedInRange(sheets, rows, columns, original, vt)|
  {
    var range, lastSheet := ClipRange(original, rows), Min(original.last.sheet, |sheets| - 1);
    CountSheetsIsSize(sheets, rows, columns, original.first.sheet, lastSheet, range, vt);
    WantedMatch(sheets, rows, columns, original, vt);
  }

  lemma WantedMatch(sheets: seq<Sheet>, rows: nat, columns: nat, original: AbsRange, vt: Values)
    requires IsWorkbook(sheets, rows, columns) && InBounds(ClipRange(original, rows), rows, columns)
    ensures MatchingInRange(sheets, rows, columns, original.first.sheet, Min(original.last.sheet, |sheets| - 1),
              ClipRange(original, rows), vt) == WantedInRange(sheets, rows, columns, original, vt)
  {
    forall cell
      ensures Wanted(vt, cell) <==> Counts(vt, cell)
    {
    }
  }
}
