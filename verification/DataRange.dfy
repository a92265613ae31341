/** The data range of a sheet: the smallest rectangle with all its cells. */
module DataRange {
  import opened Wrappers
  import opened Address
  import opened ColumnStore
  import opened ColumnScans

  predicate IsDataRow(c: Column, r: int)
    requires IsColumn(c)
  {
    0 <= r < Size(c) && CellAt(c, r) != NoCell
  }

  ghost predicate HasData(c: Column)
    requires IsColumn(c)
  {
    exists r :: IsDataRow(c, r)
  }

  ghost predicate IsFirstData(c: Column, r: int)
    requires IsColumn(c)
  {
    IsDataRow(c, r) && forall q :: IsDataRow(c, q) ==> r <= q
  }

  ghost predicate IsLastData(c: Column, r: int)
    requires IsColumn(c)
  {
    IsDataRow(c, r) && forall q :: IsDataRow(c, q) ==> q <= r
  }

  predicate OneEmptyBlock(c: Column) {
    |c| == 1 && c[0].cellType.EmptyType?
  }

  /** What the first and the last block say about the rows with data. */
  function FirstData(c: Column): nat
    requires |c| > 0
  {
    if c[0].cellType.EmptyType? then c[0].size else 0
  }

  function LastData(c: Column): int
    requires |c| > 0
  {
    var last := c[|c| - 1];
    if last.cellType.EmptyType? then Size(c) - last.size - 1 else Size(c) - 1
  }

  lemma EmptyBlockHasNoData(c: Column, k: nat, r: int)
    requires IsColumn(c) && k < |c| && c[k].cellType.EmptyType? && Start(c, k) <= r < Start(c, k) + c[k].size
    ensures !IsDataRow(c, r)
  {
    CellOfBlock(c, k, r - Start(c, k));
  }

  lemma OtherBlockHasData(c: Column, k: nat, r: int)
    requires IsColumn(c) && k < |c| && !c[k].cellType.EmptyType? && Start(c, k) <= r < Start(c, k) + c[k].size
    ensures IsDataRow(c, r)
  {
    CellOfBlock(c, k, r - Start(c, k));
  }

  lemma FirstDataIs(c: Column)
    requires IsColumn(c) && Size(c) > 0
    ensures |c| > 0 && if OneEmptyBlock(c) then !HasData(c) else IsFirstData(c, FirstData(c))
  {
    assert Start(c, 1) == c[0].size;
    if c[0].cellType.EmptyType? {
      forall q | 0 <= q < c[0].size
        ensures !IsDataRow(c, q)
      {
        EmptyBlockHasNoData(c, 0, q);
      }
      if |c| > 1 {
        OtherBlockHasData(c, 1, c[0].size);
      }
    } else {
      OtherBlockHasData(c, 0, 0);
    }
  }

  lemma LastDataIs(c: Column)
    requires IsColumn(c) && Size(c) > 0
    ensures |c| > 0 && (!OneEmptyBlock(c) ==> IsLastData(c, LastData(c)))
  {
    var k := |c| - 1;
    assert Start(c, k) + c[k].size == Size(c);
    if c[k].cellType.EmptyType? {
      forall q | Start(c, k) <= q < Size(c)
        ensures !IsDataRow(c, q)
      {
        EmptyBlockHasNoData(c, k, q);
      }
      if k > 0 {
        assert Start(c, k - 1) + c[k - 1].size == Start(c, k);
        OtherBlockHasData(c, k - 1, Start(c, k) - 1);
      }
    } else {
      OtherBlockHasData(c, k, Size(c) - 1);
    }
  }

  // ---- the specification ----

  predicate IsDataCell(sheet: Sheet, rows: nat, c: int, r: int)
    requires IsSheet(sheet, rows)
  {
    0 <= c < |sheet| && IsDataRow(sheet[c], r)
  }

  /** The smallest rectangle that contains every cell with data: each of its
      sides holds one. */
  ghost predicate IsSmallest(sheet: Sheet, rows: nat, x: Rect)
    requires IsSheet(sheet, rows)
  {
    && (forall c, r :: IsDataCell(sheet, rows, c, r) ==>
          x.firstColumn <= c <= x.lastColumn && x.firstRow <= r <= x.lastRow)
    && (exists r :: IsDataCell(sheet, rows, x.firstColumn, r))
    && (exists r :: IsDataCell(sheet, rows, x.lastColumn, r))
    && (exists c :: IsDataCell(sheet, rows, c, x.firstRow))
    && (exists c :: IsDataCell(sheet, rows, c, x.lastRow))
  }

  ghost predicate NoData(sheet: Sheet, rows: nat)
    requires IsSheet(sheet, rows)
  {
    forall c, r :: !IsDataCell(sheet, rows, c, r)
  }

  /** None stands for the invalid range. */
  ghost predicate IsDataRange(sheet: Sheet, rows: nat, range: Option<Rect>)
    requires IsSheet(sheet, rows)
  {
    match range
    case None => NoData(sheet, rows)
    case Some(x) => IsSmallest(sheet, rows, x)
  }

  // ---- the scan ----

  /** Where the scan stands after some columns; lastColumn is -1 until a column
      with data has been met. */
  datatype Scan = Scan(firstRow: int, lastRow: int, firstColumn: int, lastColumn: int)

  /** The data of the first i columns lies within the rows found, and none
      comes after the last column found. */
  ghost predicate Covered(sheet: Sheet, rows: nat, i: int, s: Scan)
    requires IsSheet(sheet, rows) && -1 <= s.lastColumn < i <= |sheet|
  {
    && (forall c :: s.lastColumn < c < i ==> !HasData(sheet[c]))
    && (forall c, r :: 0 <= c < i && IsDataRow(sheet[c], r) ==> s.firstRow <= r <= s.lastRow)
  }

  /** What has been found in the columns before column i, of which fc and lc
      hold the first and the last row with data. */
  ghost predicate Found(sheet: Sheet, rows: nat, i: int, s: Scan, fc: int, lc: int)
    requires IsSheet(sheet, rows) && 0 <= i <= |sheet|
  {
    && -1 <= s.lastColumn < i
    && Covered(sheet, rows, i, s)
    && if s.lastColumn < 0 then
         s.firstRow == rows - 1 && s.lastRow == 0 && s.firstColumn == if rows == 1 then 0 else i
       else
         && HasData(sheet[s.lastColumn])
         && 0 <= fc < i && 0 <= lc < i && IsDataRow(sheet[fc], s.firstRow) && IsDataRow(sheet[lc], s.lastRow)
         && if rows == 1 then s.firstColumn == 0
            else
              && 0 <= s.firstColumn < i && HasData(sheet[s.firstColumn])
              && forall c :: 0 <= c < s.firstColumn ==> !HasData(sheet[c])
  }

  /** First non-empty row; skip when the column turns out to be empty. */
  method WidenUp(col: Column, firstRow: nat) returns (row: nat, skip: bool)
    requires IsColumn(col) && |col| > 0
    ensures skip <==> firstRow > 0 && OneEmptyBlock(col)
    ensures row == if OneEmptyBlock(col) then firstRow else Min(firstRow, FirstData(col))
  {
    row, skip := firstRow, false;
    if row > 0 {
      if col[0].cellType.EmptyType? {
        var offset := col[0].size;
        if |col| == 1 {
          skip := true;
          return;
        }
        if row > offset {
          row := offset;
        }
      } else {
        row := 0;
      }
    }
  }

  /** Last non-empty row. */
  method WidenDown(col: Column, rows: nat, lastRow: nat) returns (row: nat, skip: bool)
    requires IsColumn(col) && Size(col) == rows > 0 && |col| > 0 && lastRow < rows
    ensures skip <==> lastRow < rows - 1 && OneEmptyBlock(col)
    ensures row == if OneEmptyBlock(col) then lastRow else Max(lastRow, LastData(col))
  {
    row, skip := lastRow, false;
    LastDataIs(col);
    if row < rows - 1 {
      var last := |col| - 1;
      if col[last].cellType.EmptyType? {
        var sizeLastBlock := col[last].size;
        if last == 0 {
          skip := true;
          return;
        }
        var lastDataRow := Size(col) - sizeLastBlock - 1;
        if row < lastDataRow {
          row := lastDataRow;
        }
      } else {
        row := rows - 1;
      }
    }
  }

  lemma FoundWithoutData(sheet: Sheet, rows: nat, i: nat, s: Scan, t: Scan, fc: int, lc: int)
    requires IsSheet(sheet, rows) && i < |sheet| && rows > 0 && Found(sheet, rows, i, s, fc, lc)
    requires !HasData(sheet[i]) && t == if s.lastColumn < 0 && rows > 1 then s.(firstColumn := s.firstColumn + 1) else s
    ensures Found(sheet, rows, i + 1, t, fc, lc)
  {
  }

  lemma CoveredWithData(sheet: Sheet, rows: nat, i: nat, s: Scan, t: Scan)
    requires IsSheet(sheet, rows) && i < |sheet| && -1 <= s.lastColumn < i && Covered(sheet, rows, i, s)
    requires |sheet[i]| > 0 && IsFirstData(sheet[i], FirstData(sheet[i])) && IsLastData(sheet[i], LastData(sheet[i]))
    requires t.firstRow == Min(s.firstRow, FirstData(sheet[i])) && t.lastRow == Max(s.lastRow, LastData(sheet[i]))
    requires t.lastColumn == i
    ensures Covered(sheet, rows, i + 1, t)
  {
  }

  lemma FoundWithData(sheet: Sheet, rows: nat, i: nat, s: Scan, t: Scan, fc: int, lc: int, f: int, l: int)
    requires IsSheet(sheet, rows) && i < |sheet| && rows > 0 && Found(sheet, rows, i, s, fc, lc)
    requires |sheet[i]| > 0 && IsFirstData(sheet[i], FirstData(sheet[i])) && IsLastData(sheet[i], LastData(sheet[i]))
    requires t == Scan(Min(s.firstRow, FirstData(sheet[i])), Max(s.lastRow, LastData(sheet[i])), s.firstColumn, i)
    requires f == if s.lastColumn < 0 || t.firstRow != s.firstRow then i else fc
    requires l == if s.lastColumn < 0 || t.lastRow != s.lastRow then i else lc
    ensures Found(sheet, rows, i + 1, t, f, l)
  {
    CoveredWithData(sheet, rows, i, s, t);
  }

  method ScanColumn(sheet: Sheet, rows: nat, i: nat, before: Scan, ghost fc: int, ghost lc: int)
    returns (s: Scan, ghost f: int, ghost l: int)
    requires IsSheet(sheet, rows) && i < |sheet| && rows > 0 && Found(sheet, rows, i, before, fc, lc)
    requires 0 <= before.firstRow < rows && 0 <= before.lastRow < rows
    ensures Found(sheet, rows, i + 1, s, f, l) && 0 <= s.firstRow < rows && 0 <= s.lastRow < rows
  {
    var col := sheet[i];
    FirstDataIs(col);
    LastDataIs(col);
    s, f, l := before, fc, lc;
    var row, skip := WidenUp(col, s.firstRow);
    if !skip {
      s := s.(firstRow := row);
      row, skip := WidenDown(col, rows, s.lastRow);
    }
    if skip {
      if s.lastColumn < 0 {
        s := s.(firstColumn := s.firstColumn + 1);
      }
      FoundWithoutData(sheet, rows, i, before, s, fc, lc);
      return;
    }
    s := s.(lastRow := row);
    if |col| > 1 || !col[0].cellType.EmptyType? {
      s := s.(lastColumn := i);
      f := if before.lastColumn < 0 || s.firstRow != before.firstRow then i else fc;
      l := if before.lastColumn < 0 || s.lastRow != before.lastRow then i else lc;
      FoundWithData(sheet, rows, i, before, s, fc, lc, f, l);
    } else {
      FoundWithoutData(sheet, rows, i, before, s, fc, lc);
    }
  }

  /** The first column with data. */
  lemma {:induction false} FirstDataColumn(sheet: Sheet, rows: nat, i: nat, known: nat) returns (c: nat)
    requires IsSheet(sheet, rows) && i <= known < |sheet| && HasData(sheet[known])
    requires forall b :: 0 <= b < i ==> !HasData(sheet[b])
    ensures c < |sheet| && HasData(sheet[c]) && forall b :: 0 <= b < c ==> !HasData(sheet[b])
    decreases known - i
  {
    if HasData(sheet[i]) {
      c := i;
    } else {
      c := FirstDataColumn(sheet, rows, i + 1, known);
    }
  }

  lemma SmallestFrom(sheet: Sheet, rows: nat, s: Scan, fc: int, lc: int, c: nat)
    requires IsSheet(sheet, rows) && s.lastColumn >= 0 && Found(sheet, rows, |sheet|, s, fc, lc)
    requires c < |sheet| && HasData(sheet[c]) && forall b :: 0 <= b < c ==> !HasData(sheet[b])
    ensures IsSmallest(sheet, rows, Rect(s.firstRow, c, s.lastRow, s.lastColumn))
  {
    var q :| IsDataRow(sheet[c], q);
    var r :| IsDataRow(sheet[s.lastColumn], r);
    assert IsDataCell(sheet, rows, c, q) && IsDataCell(sheet, rows, s.lastColumn, r);
    assert IsDataCell(sheet, rows, fc, s.firstRow) && IsDataCell(sheet, rows, lc, s.lastRow);
  }

  lemma FirstSideHasData(sheet: Sheet, rows: nat, x: Rect)
    requires IsSheet(sheet, rows) && IsSmallest(sheet, rows, x)
    ensures 0 <= x.firstColumn < |sheet| && HasData(sheet[x.firstColumn])
  {
    var r :| IsDataCell(sheet, rows, x.firstColumn, r);
  }

  lemma SomeData(sheet: Sheet, rows: nat, x: Rect)
    requires IsSheet(sheet, rows) && IsSmallest(sheet, rows, x)
    ensures !NoData(sheet, rows)
  {
    var r :| IsDataCell(sheet, rows, x.firstColumn, r);
  }

  /** The rectangle found is the smallest one, except for its first column in a
      sheet of one row. */
  lemma FoundAll(sheet: Sheet, rows: nat, s: Scan, fc: int, lc: int) returns (y: Rect)
    requires IsSheet(sheet, rows) && rows > 0 && s.lastColumn >= 0 && Found(sheet, rows, |sheet|, s, fc, lc)
    ensures IsSmallest(sheet, rows, y) && !NoData(sheet, rows)
    ensures Rect(s.firstRow, s.firstColumn, s.lastRow, s.lastColumn) == if rows == 1 then y.(firstColumn := 0) else y
    ensures y.firstColumn == 0 <==> HasData(sheet[0])
  {
    var c := FirstDataColumn(sheet, rows, 0, s.lastColumn);
    SmallestFrom(sheet, rows, s, fc, lc, c);
    y := Rect(s.firstRow, c, s.lastRow, s.lastColumn);
    SomeData(sheet, rows, y);
    assert rows != 1 ==> c == s.firstColumn;
    assert c == 0 <==> HasData(sheet[0]);
  }

  /** The data range, except that in a sheet of one row the first column is
      always 0. */
  method GetDataRange(sheet: Sheet, rows: nat) returns (range: Option<Rect>)
    requires IsSheet(sheet, rows)
    ensures range.None? <==> NoData(sheet, rows)
    ensures IsDataRange(sheet, rows, range) <==>
      rows != 1 || sheet == [] || HasData(sheet[0]) || NoData(sheet, rows)
    ensures range.Some? && rows == 1 ==> exists x :: IsSmallest(sheet, rows, x) && range.value == x.(firstColumn := 0)
  {
    var colSize := |sheet|;
    if colSize == 0 || rows == 0 {
      return None;
    }
    var s := Scan(rows - 1, 0, 0, -1);
    ghost var fc, lc := 0, 0;
    var i := 0;
    while i < colSize
      invariant 0 <= i <= colSize && 0 <= s.firstRow < rows && 0 <= s.lastRow < rows
      invariant Found(sheet, rows, i, s, fc, lc)
    {
      s, fc, lc := ScanColumn(sheet, rows, i, s, fc, lc);
      i := i + 1;
    }
    if s.lastColumn < 0 {
      return None;
    }
    range := Some(Rect(s.firstRow, s.firstColumn, s.lastRow, s.lastColumn));
    ghost var y := FoundAll(sheet, rows, s, fc, lc);
    if IsSmallest(sheet, rows, range.value) {
      FirstSideHasData(sheet, rows, range.value);
    }
  }

  /** There is at most one smallest rectangle. */
  lemma SmallestIsUnique(sheet: Sheet, rows: nat, x: Rect, y: Rect)
    requires IsSheet(sheet, rows) && IsSmallest(sheet, rows, x) && IsSmallest(sheet, rows, y)
    ensures x == y
  {
    SidesInside(sheet, rows, x, y);
    SidesInside(sheet, rows, y, x);
  }

  lemma SidesInside(sheet: Sheet, rows: nat, x: Rect, y: Rect)
    requires IsSheet(sheet, rows) && IsSmallest(sheet, rows, x) && IsSmallest(sheet, rows, y)
    ensures y.firstColumn <= x.firstColumn && x.lastColumn <= y.lastColumn && y.firstRow <= x.firstRow &&
      x.lastRow <= y.lastRow
  {
    var r :| IsDataCell(sheet, rows, x.firstColumn, r);
    var q :| IsDataCell(sheet, rows, x.lastColumn, q);
    var c :| IsDataCell(sheet, rows, c, x.firstRow);
    var d :| IsDataCell(sheet, rows, d, x.lastRow);
  }

  const EMPTY_CELL: Column := [Block(EmptyType, 1, [])]
  const FILLED_CELL: Column := [Block(NumericType, 1, [])]

  lemma OneCellColumns()
    ensures IsColumn(EMPTY_CELL) && Size(EMPTY_CELL) == 1 && !HasData(EMPTY_CELL)
    ensures IsColumn(FILLED_CELL) && Size(FILLED_CELL) == 1 && IsFirstData(FILLED_CELL, 0)
  {
    assert Start(EMPTY_CELL, 1) == 1 && Start(FILLED_CELL, 1) == 1;
    FirstDataIs(EMPTY_CELL);
    FirstDataIs(FILLED_CELL);
  }

  lemma OneRowSheet()
    ensures IsSheet([EMPTY_CELL, FILLED_CELL], 1) && IsSmallest([EMPTY_CELL, FILLED_CELL], 1, Rect(0, 1, 0, 1))
  {
    OneCellColumns();
    var sheet := [EMPTY_CELL, FILLED_CELL];
    assert IsDataCell(sheet, 1, 1, 0);
    forall c, r | IsDataCell(sheet, 1, c, r)
      ensures c == 1 && r == 0
    {
    }
  }

  /** A sheet of one row whose first column is empty: the empty column stays in
      the data range. */
  method LeadingColumnIsKept() returns (sheet: Sheet, range: Option<Rect>)
    ensures IsSheet(sheet, 1) && IsSmallest(sheet, 1, Rect(0, 1, 0, 1))
    ensures range == Some(Rect(0, 0, 0, 1)) && !IsDataRange(sheet, 1, range)
  {
    sheet := [EMPTY_CELL, FILLED_CELL];
    OneRowSheet();
    range := GetDataRange(sheet, 1);
    SomeData(sheet, 1, Rect(0, 1, 0, 1));
    ghost var x :| IsSmallest(sheet, 1, x) && range.value == x.(firstColumn := 0);
    SmallestIsUnique(sheet, 1, x, Rect(0, 1, 0, 1));
    OneCellColumns();
  }
}
