/** The walk over the blocks of a range, which hands intervals to a callback,
    and the test for emptiness. */
module ColumnWalks {
  import opened Wrappers
  import opened Address
  import opened ColumnStore
  import opened ColumnScans

  datatype Shape = Shape(position: nat, size: nat, offset: nat, cellType: ElementType)

  /** What the callback receives. */
  datatype Call = Call(column: int, firstRow: int, lastRow: int, shape: Shape) {
    predicate Covers(c: int, r: int) {
      column == c && firstRow <= r <= lastRow
    }
  }

  function CallAt(c: Column, ic: int, row: nat, last: int): Call
    requires row < Size(c)
  {
    var (k, offset) := Position(c, row);
    Call(ic, row, Min(row + c[k].size - offset - 1, last), Shape(Start(c, k), c[k].size, offset, c[k].cellType))
  }

  /** The first row after the block of a row. */
  function NextRow(c: Column, row: nat): (next: nat)
    requires row < Size(c)
    ensures row < next <= Size(c)
  {
    var (k, offset) := Position(c, row);
    StartGrows(c, k + 1, |c|);
    row + c[k].size - offset
  }

  /** The intervals of one column. */
  function ColumnWalk(c: Column, ic: int, row: nat, last: int): seq<Call>
    requires row <= Size(c) && last < Size(c)
    decreases Size(c) - row
  {
    if row > last then [] else [CallAt(c, ic, row, last)] + ColumnWalk(c, ic, NextRow(c, row), last)
  }

  /** The intervals of the columns from column ic on. */
  function WholeWalk(sheet: Sheet, rows: nat, ic: int, lastColumn: int, first: nat, last: int): seq<Call>
    requires IsSheet(sheet, rows) && 0 <= ic && lastColumn < |sheet| && first <= rows && last < rows
    decreases lastColumn - ic
  {
    if ic > lastColumn then []
    else ColumnWalk(sheet[ic], ic, first, last) + WholeWalk(sheet, rows, ic + 1, lastColumn, first, last)
  }

  /** The callback sees the calls so far and says whether to go on. */
  type Callback = seq<Call> -> bool

  /** The calls are as far as the callback lets the whole walk come. */
  predicate Stopped(calls: seq<Call>, whole: seq<Call>, cb: Callback) {
    && calls <= whole
    && (forall n :: 0 < n < |calls| ==> cb(calls[..n]))
    && (calls == whole || (calls != [] && !cb(calls)))
  }

  /** Calls made so far, all of them answered with yes, and what is to come. */
  ghost predicate GoingOn(calls: seq<Call>, more: seq<Call>, whole: seq<Call>, cb: Callback) {
    calls + more == whole && forall n :: 0 < n <= |calls| ==> cb(calls[..n])
  }

  lemma OneMoreCall(calls: seq<Call>, call: Call, more: seq<Call>, others: seq<Call>, whole: seq<Call>, cb: Callback)
    requires GoingOn(calls, [call] + more + others, whole, cb)
    ensures if cb(calls + [call]) then GoingOn(calls + [call], more + others, whole, cb)
      else Stopped(calls + [call], whole, cb)
  {
    var next := calls + [call];
    assert next + (more + others) == calls + ([call] + more + others);
    forall n | 0 < n < |next|
      ensures cb(next[..n])
    {
      assert next[..n] == calls[..n];
    }
    assert next[..|next|] == next;
  }

  method Walk(sheet: Sheet, rows: nat, firstColumn: nat, lastColumn: int, first: nat, last: int, cb: Callback)
    returns (calls: seq<Call>)
    requires IsSheet(sheet, rows) && lastColumn < |sheet| && first <= rows && last < rows
    ensures Stopped(calls, WholeWalk(sheet, rows, firstColumn, lastColumn, first, last), cb)
  {
    calls := [];
    ghost var whole := WholeWalk(sheet, rows, firstColumn, lastColumn, first, last);
    assert calls + whole == whole;
    var ic := firstColumn;
    while ic <= lastColumn
      invariant GoingOn(calls, WholeWalk(sheet, rows, ic, lastColumn, first, last), whole, cb)
      decreases lastColumn - ic
    {
      ghost var others := WholeWalk(sheet, rows, ic + 1, lastColumn, first, last);
      var stopped;
      calls, stopped := WalkColumn(sheet[ic], ic, first, last, cb, calls, others, whole);
      if stopped {
        return;
      }
      ic := ic + 1;
    }
    assert calls + [] == calls;
    assert calls[..|calls|] == calls;
  }

  /** The rounds for one column; others is what is to come after it. */
  method WalkColumn(col: Column, ic: int, first: nat, last: int, cb: Callback, before: seq<Call>,
          ghost others: seq<Call>, ghost whole: seq<Call>)
    returns (calls: seq<Call>, stopped: bool)
    requires first <= Size(col) && last < Size(col)
    requires GoingOn(before, ColumnWalk(col, ic, first, last) + others, whole, cb)
    ensures if stopped then Stopped(calls, whole, cb) else GoingOn(calls, others, whole, cb)
  {
    calls, stopped := before, false;
    var curRow := first;
    while curRow <= last
      invariant curRow <= Size(col)
      invariant GoingOn(calls, ColumnWalk(col, ic, curRow, last) + others, whole, cb)
      decreases Size(col) - curRow
    {
      var (blk, offset) := Position(col, curRow);
      var shape := Shape(Start(col, blk), col[blk].size, offset, col[blk].cellType);
      var lastRow := Min(col[blk].size - offset - 1 + curRow, last);
      var call := Call(ic, curRow, lastRow, shape);
      OneMoreCall(calls, call, ColumnWalk(col, ic, NextRow(col, curRow), last), others, whole, cb);
      calls := calls + [call];
      if !cb(calls) {
        stopped := true;
        return;
      }
      curRow := curRow + col[blk].size - offset;
    }
    assert [] + others == others;
  }

  /** How many of the calls cover a cell. */
  function Covering(calls: seq<Call>, c: int, r: int): nat {
    if calls == [] then 0 else (if calls[0].Covers(c, r) then 1 else 0) + Covering(calls[1..], c, r)
  }

  lemma {:induction false} CoveringJoined(a: seq<Call>, b: seq<Call>, c: int, r: int)
    ensures Covering(a + b, c, r) == Covering(a, c, r) + Covering(b, c, r)
    decreases |a|
  {
    if a == [] {
      assert a + b == b;
    } else {
      assert (a + b)[1..] == a[1..] + b;
      CoveringJoined(a[1..], b, c, r);
    }
  }

  lemma {:induction false} ColumnWalkCovers(c: Column, ic: int, row: nat, last: int, column: int, r: int)
    requires row <= Size(c) && last < Size(c)
    ensures Covering(ColumnWalk(c, ic, row, last), column, r) == if column == ic && row <= r <= last then 1 else 0
    decreases Size(c) - row
  {
    if row > last {
    } else {
      ColumnWalkCovers(c, ic, NextRow(c, row), last, column, r);
    }
  }

  /** With a callback that never stops, every cell of the range is covered by
      exactly one call, and no other cell by any. */
  lemma {:induction false} WalkPartitions(sheet: Sheet, rows: nat, ic: int, lastColumn: int, first: nat, last: int,
          c: int, r: int)
    requires IsSheet(sheet, rows) && 0 <= ic && lastColumn < |sheet| && first <= rows && last < rows
    ensures Covering(WholeWalk(sheet, rows, ic, lastColumn, first, last), c, r)
         == if ic <= c <= lastColumn && first <= r <= last then 1 else 0
    decreases lastColumn - ic
  {
    if ic > lastColumn {
    } else {
      WalkPartitions(sheet, rows, ic + 1, lastColumn, first, last, c, r);
      ColumnWalkCovers(sheet[ic], ic, first, last, c, r);
      CoveringJoined(ColumnWalk(sheet[ic], ic, first, last), WholeWalk(sheet, rows, ic + 1, lastColumn, first, last),
        c, r);
    }
  }

  /** A call describes a block of its column and lies in it. */
  predicate InsideOneBlock(sheet: Sheet, call: Call) {
    && 0 <= call.column < |sheet|
    && exists k :: 0 <= k < |sheet[call.column]| && DescribesBlock(sheet[call.column], k, call)
  }

  predicate DescribesBlock(c: Column, k: nat, call: Call)
    requires k < |c|
  {
    && call.shape.position == Start(c, k) && call.shape.size == c[k].size && call.shape.cellType == c[k].cellType
    && call.firstRow == Start(c, k) + call.shape.offset
    && call.firstRow <= call.lastRow < Start(c, k) + c[k].size
  }

  lemma {:induction false} ColumnWalkInBlocks(sheet: Sheet, ic: int, row: nat, last: int, n: nat)
    requires 0 <= ic < |sheet| && row <= Size(sheet[ic]) && last < Size(sheet[ic])
    requires n < |ColumnWalk(sheet[ic], ic, row, last)|
    ensures InsideOneBlock(sheet, ColumnWalk(sheet[ic], ic, row, last)[n])
    decreases n
  {
    var c := sheet[ic];
    if n == 0 {
      assert DescribesBlock(c, Position(c, row).0, CallAt(c, ic, row, last));
    } else {
      ColumnWalkInBlocks(sheet, ic, NextRow(c, row), last, n - 1);
    }
  }

  lemma {:induction false} WalkInBlocks(sheet: Sheet, rows: nat, ic: int, lastColumn: int, first: nat, last: int,
          n: nat)
    requires IsSheet(sheet, rows) && 0 <= ic && lastColumn < |sheet| && first <= rows && last < rows
    requires n < |WholeWalk(sheet, rows, ic, lastColumn, first, last)|
    ensures InsideOneBlock(sheet, WholeWalk(sheet, rows, ic, lastColumn, first, last)[n])
    decreases lastColumn - ic
  {
    var here := ColumnWalk(sheet[ic], ic, first, last);
    if n < |here| {
      ColumnWalkInBlocks(sheet, ic, first, last, n);
    } else {
      WalkInBlocks(sheet, rows, ic + 1, lastColumn, first, last, n - |here|);
    }
  }

  /** Column after column, and downwards within a column. */
  predicate Precedes(a: Call, b: Call) {
    a.column < b.column || (a.column == b.column && a.lastRow < b.firstRow)
  }

  predicate InOrder(calls: seq<Call>) {
    forall m, n :: 0 <= m < n < |calls| ==> Precedes(calls[m], calls[n])
  }

  /** Each interval reaches to the end of its block or to the last row. */
  predicate ReachesAsFar(call: Call, last: int) {
    && call.lastRow == Min(call.shape.position + call.shape.size - 1, last)
  }

  /** All of the calls begin at this column and row, or come later. */
  predicate ComeFrom(calls: seq<Call>, ic: int, row: int, last: int) {
    forall n :: 0 <= n < |calls| ==>
      && (calls[n].column > ic || (calls[n].column == ic && calls[n].firstRow >= row))
      && ReachesAsFar(calls[n], last)
  }

  predicate AllIn(calls: seq<Call>, ic: int) {
    forall n :: 0 <= n < |calls| ==> calls[n].column == ic
  }

  lemma OrderedFirst(call: Call, calls: seq<Call>, row: int, last: int)
    requires InOrder(calls) && ComeFrom(calls, call.column, row, last) && call.lastRow < row
    ensures InOrder([call] + calls)
  {
    var all := [call] + calls;
    forall m, n | 0 <= m < n < |all|
      ensures Precedes(all[m], all[n])
    {
      assert all[n] == calls[n - 1];
      if m > 0 {
        assert all[m] == calls[m - 1];
      }
    }
  }

  lemma OrderedParts(x: seq<Call>, y: seq<Call>, ic: int, last: int)
    requires InOrder(x) && AllIn(x, ic) && InOrder(y) && ComeFrom(y, ic + 1, 0, last)
    ensures InOrder(x + y)
  {
    var all := x + y;
    forall m, n | 0 <= m < n < |all|
      ensures Precedes(all[m], all[n])
    {
      if n >= |x| {
        assert all[n] == y[n - |x|];
        if m >= |x| {
          assert all[m] == y[m - |x|];
        }
      }
    }
  }

  lemma {:induction false} ColumnWalkInOrder(c: Column, ic: int, row: nat, last: int)
    requires row <= Size(c) && last < Size(c)
    ensures var calls := ColumnWalk(c, ic, row, last);
      InOrder(calls) && AllIn(calls, ic) && ComeFrom(calls, ic, row, last)
    decreases Size(c) - row
  {
    if row <= last {
      var call, rest := CallAt(c, ic, row, last), ColumnWalk(c, ic, NextRow(c, row), last);
      ColumnWalkInOrder(c, ic, NextRow(c, row), last);
      OrderedFirst(call, rest, NextRow(c, row), last);
    }
  }

  /** The whole walk goes column by column, downwards, block by block. */
  lemma {:induction false} WalkInOrder(sheet: Sheet, rows: nat, ic: int, lastColumn: int, first: nat, last: int)
    requires IsSheet(sheet, rows) && 0 <= ic && lastColumn < |sheet| && first <= rows && last < rows
    ensures var calls := WholeWalk(sheet, rows, ic, lastColumn, first, last);
      InOrder(calls) && ComeFrom(calls, ic, 0, last)
    decreases lastColumn - ic
  {
    if ic <= lastColumn {
      var here := ColumnWalk(sheet[ic], ic, first, last);
      var others := WholeWalk(sheet, rows, ic + 1, lastColumn, first, last);
      ColumnWalkInOrder(sheet[ic], ic, first, last);
      WalkInOrder(sheet, rows, ic + 1, lastColumn, first, last);
      OrderedParts(here, others, ic, last);
    }
  }

  // ---- emptiness ----

  predicate EmptyRows(c: Column, first: nat, last: int)
    requires IsColumn(c) && last < Size(c)
  {
    forall r :: first <= r <= last ==> CellAt(c, r) == NoCell
  }

  method ColumnIsEmpty(c: Column, first: nat, last: nat) returns (empty: bool)
    requires IsColumn(c) && first <= last < Size(c)
    ensures empty <==> EmptyRows(c, first, last)
  {
    var (k, offset) := Position(c, first);
    CellOfBlock(c, k, offset);
    if !c[k].cellType.EmptyType? {
      return false;
    }
    var lastEmptyRow := first + c[k].size - offset - 1;
    if lastEmptyRow < last {
      NextBlockIsFull(c, k, lastEmptyRow + 1);
      return false;
    }
    WithinEmptyBlock(c, k, first, last);
    return true;
  }

  lemma NextBlockIsFull(c: Column, k: nat, row: nat)
    requires IsColumn(c) && k < |c| && c[k].cellType.EmptyType? && row == Start(c, k) + c[k].size < Size(c)
    ensures CellAt(c, row) != NoCell
  {
    assert k + 1 < |c| by {
      assert row == Start(c, k + 1);
    }
    CellOfBlock(c, k + 1, 0);
  }

  lemma WithinEmptyBlock(c: Column, k: nat, first: nat, last: nat)
    requires IsColumn(c) && k < |c| && c[k].cellType.EmptyType?
    requires Start(c, k) <= first && last < Start(c, k) + c[k].size && last < Size(c)
    ensures EmptyRows(c, first, last)
  {
    forall r | first <= r <= last
      ensures CellAt(c, r) == NoCell
    {
      CellOfBlock(c, k, r - Start(c, k));
    }
  }

  /** None when the range begins outside of the workbook, which is an error. */
  function ShrinkToWorkbook(range: AbsRange, sheets: nat, rows: nat, columns: nat): (r: Option<AbsRange>)
    requires sheets > 0 && columns > 0
  {
    var o := Reordered(range);
    if o.first.sheet >= sheets || o.first.column >= columns || o.first.row >= rows then None
    else
      Some(o.(last := AbsAddress(Min(o.last.sheet, sheets - 1), Min(o.last.row, rows - 1),
        Min(o.last.column, columns - 1))))
  }

  predicate Spans(range: AbsRange, s: int, c: int, r: int) {
    && Between(s, range.first.sheet, range.last.sheet)
    && Between(c, range.first.column, range.last.column)
    && Between(r, range.first.row, range.last.row)
  }

  /** Every cell between the corners of the range that is in the workbook is
      empty. */
  predicate EmptyRange(sheets: seq<Sheet>, rows: nat, columns: nat, range: AbsRange)
    requires IsWorkbook(sheets, rows, columns)
  {
    forall s, c, r :: 0 <= s < |sheets| && 0 <= c < columns && 0 <= r < rows && Spans(range, s, c, r) ==>
      CellAt(sheets[s][c], r) == NoCell
  }

  predicate EmptyColumns(sheet: Sheet, rows: nat, firstColumn: nat, lastColumn: int, first: nat, last: int)
    requires IsSheet(sheet, rows) && lastColumn < |sheet| && last < rows
  {
    forall c :: firstColumn <= c <= lastColumn ==> EmptyRows(sheet[c], first, last)
  }

  method AreColumnsEmpty(sheet: Sheet, rows: nat, firstColumn: nat, lastColumn: int, first: nat,
          last: nat) returns (empty: bool)
    requires IsSheet(sheet, rows) && lastColumn < |sheet| && first <= last < rows
    ensures empty <==> EmptyColumns(sheet, rows, firstColumn, lastColumn, first, last)
  {
    var col := firstColumn;
    while col <= lastColumn
      invariant firstColumn <= col && (firstColumn <= lastColumn ==> col <= lastColumn + 1)
      invariant EmptyColumns(sheet, rows, firstColumn, Min(col - 1, lastColumn), first, last)
      decreases lastColumn - col
    {
      var colEmpty := ColumnIsEmpty(sheet[col], first, last);
      if !colEmpty {
        return false;
      }
      col := col + 1;
    }
    return true;
  }

  lemma SomeCellIsFull(sheets: seq<Sheet>, rows: nat, columns: nat, original: AbsRange, s: nat)
    requires IsWorkbook(sheets, rows, columns) && sheets != [] && columns > 0
    requires var shrunk := ShrinkToWorkbook(original, |sheets|, rows, columns);
      && shrunk.Some? && shrunk.value.first.sheet <= s <= shrunk.value.last.sheet
      && shrunk.value.first.row >= 0 && shrunk.value.first.column >= 0
      && !EmptyColumns(sheets[s], rows, shrunk.value.first.column, shrunk.value.last.column, shrunk.value.first.row,
                       shrunk.value.last.row)
    ensures !EmptyRange(sheets, rows, columns, original)
  {
    var range := ShrinkToWorkbook(original, |sheets|, rows, columns).value;
    var c :| range.first.column <= c <= range.last.column &&
      !EmptyRows(sheets[s][c], range.first.row, range.last.row);
    var r :| range.first.row <= r <= range.last.row && CellAt(sheets[s][c], r) != NoCell;
    assert Spans(original, s, c, r);
  }

  lemma AllCellsAreEmpty(sheets: seq<Sheet>, rows: nat, columns: nat, original: AbsRange)
    requires IsWorkbook(sheets, rows, columns) && sheets != [] && columns > 0
    requires var shrunk := ShrinkToWorkbook(original, |sheets|, rows, columns);
      && shrunk.Some? && shrunk.value.first.sheet >= 0
      && shrunk.value.first.row >= 0 && shrunk.value.first.column >= 0
      && forall s :: shrunk.value.first.sheet <= s <= shrunk.value.last.sheet ==>
           EmptyColumns(sheets[s], rows, shrunk.value.first.column, shrunk.value.last.column, shrunk.value.first.row,
                        shrunk.value.last.row)
    ensures EmptyRange(sheets, rows, columns, original)
  {
    var range := ShrinkToWorkbook(original, |sheets|, rows, columns).value;
    forall s, c, r | 0 <= s < |sheets| && 0 <= c < columns && 0 <= r < rows && Spans(original, s, c, r)
      ensures CellAt(sheets[s][c], r) == NoCell
    {
      assert EmptyRows(sheets[s][c], range.first.row, range.last.row);
    }
  }

  method IsRangeEmpty(sheets: seq<Sheet>, rows: nat, columns: nat, original: AbsRange) returns (empty: Option<bool>)
    requires IsWorkbook(sheets, rows, columns) && sheets != [] && columns > 0
    requires 0 <= Min(original.first.sheet, original.last.sheet)
    requires 0 <= Min(original.first.row, original.last.row)
    requires 0 <= Min(original.first.column, original.last.column)
    ensures empty.None? <==>
      || Min(original.first.sheet, original.last.sheet) >= |sheets|
      || Min(original.first.row, original.last.row) >= rows
      || Min(original.first.column, original.last.column) >= columns
    ensures empty.Some? ==> (empty.value <==> EmptyRange(sheets, rows, columns, original))
  {
    var shrunk := ShrinkToWorkbook(original, |sheets|, rows, columns);
    if shrunk.None? {
      return None;
    }
    var range := shrunk.value;
    var sh := range.first.sheet;
    while sh <= range.last.sheet
      invariant 0 <= range.first.sheet <= sh <= range.last.sheet + 1 <= |sheets|
      invariant forall s :: range.first.sheet <= s < sh ==>
        EmptyColumns(sheets[s], rows, range.first.column, range.last.column, range.first.row, range.last.row)
      decreases range.last.sheet - sh
    {
      var sheetEmpty := AreColumnsEmpty(sheets[sh], rows, range.first.column, range.last.column, range.first.row,
        range.last.row);
      if !sheetEmpty {
        SomeCellIsFull(sheets, rows, columns, original, sh);
        return Some(false);
      }
      sh := sh + 1;
    }
    AllCellsAreEmpty(sheets, rows, columns, original);
    return Some(true);
  }
}
