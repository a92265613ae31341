/** The scan over the references of a formula cell that looks for formula cells
    not known to be safe.  It goes sheet by sheet, column by column and row by
    row, and ends with an exception where it steps outside of the workbook. */
module CircularityScan {
  import opened Address
  import opened Recalculation

  datatype ScanResult = AllSafe | Unsafe | OutOfRange

  predicate ScannedBefore(b: AbsAddress, c: AbsAddress) {
    b.sheet < c.sheet || (b.sheet == c.sheet && (b.column < c.column || (b.column == c.column && b.row < c.row)))
  }

  /** The scan passes over b. */
  predicate Fine(unsafe: set<AbsAddress>, bounds: Bounds, b: AbsAddress) {
    bounds.Has(b) && b !in unsafe
  }

  /** b is the first cell of the range that the scan does not pass over. */
  ghost predicate StopsAt(unsafe: set<AbsAddress>, bounds: Bounds, r: AbsRange, b: AbsAddress) {
    && r.Contains(b) && !Fine(unsafe, bounds, b)
    && forall c :: r.Contains(c) && ScannedBefore(c, b) ==> Fine(unsafe, bounds, c)
  }

  ghost predicate Scans(unsafe: set<AbsAddress>, bounds: Bounds, r: AbsRange, out: ScanResult) {
    match out
    case AllSafe => forall b :: r.Contains(b) ==> Fine(unsafe, bounds, b)
    case Unsafe => exists b :: StopsAt(unsafe, bounds, r, b) && bounds.Has(b)
    case OutOfRange => exists b :: StopsAt(unsafe, bounds, r, b) && !bounds.Has(b)
  }

  /** The scan of reference i is the first to stop. */
  ghost predicate StopsIn(unsafe: set<AbsAddress>, bounds: Bounds, refs: seq<AbsRange>, i: int, out: ScanResult) {
    && 0 <= i < |refs| && Scans(unsafe, bounds, Expanded(refs[i], bounds), out)
    && forall j :: 0 <= j < i ==> Scans(unsafe, bounds, Expanded(refs[j], bounds), AllSafe)
  }

  ghost predicate ScansAll(unsafe: set<AbsAddress>, bounds: Bounds, refs: seq<AbsRange>, out: ScanResult) {
    if out.AllSafe? then forall i :: 0 <= i < |refs| ==> Scans(unsafe, bounds, Expanded(refs[i], bounds), AllSafe)
    else exists i :: StopsIn(unsafe, bounds, refs, i, out)
  }

  /** The cells that the scan of a reference comes to: whole columns and rows
      reach as far as the sheet. */
  predicate ComesTo(r: AbsRange, bounds: Bounds, b: AbsAddress) {
    && r.first.sheet <= b.sheet <= r.last.sheet
    && (if r.first.column == COLUMN_UNSET && r.last.column == COLUMN_UNSET then 0 <= b.column < bounds.columns
        else r.first.column <= b.column <= r.last.column)
    && (if r.first.row == ROW_UNSET && r.last.row == ROW_UNSET then 0 <= b.row < bounds.rows
        else r.first.row <= b.row <= r.last.row)
  }

  lemma PassesExactly(unsafe: set<AbsAddress>, bounds: Bounds, r: AbsRange)
    ensures Scans(unsafe, bounds, Expanded(r, bounds), AllSafe) <==>
      forall b :: ComesTo(r, bounds, b) ==>
        && b !in unsafe
        && 0 <= b.sheet < bounds.sheets && 0 <= b.row < bounds.rows && 0 <= b.column < bounds.columns
  {
    forall b
      ensures ComesTo(r, bounds, b) <==> Expanded(r, bounds).Contains(b)
    {
    }
  }

  /** The scan goes down a column before it turns to the next: on a sheet of one
      row it steps outside at A2 before it comes to B1. */
  lemma ColumnByColumn(bounds: Bounds)
    requires bounds.sheets > 0 && bounds.rows == 1 && bounds.columns > 1
    ensures Scans({AbsAddress(0, 0, 1)}, bounds, AbsRange(AbsAddress(0, 0, 0), AbsAddress(0, 1, 1)), OutOfRange)
  {
    assert StopsAt({AbsAddress(0, 0, 1)}, bounds, AbsRange(AbsAddress(0, 0, 0), AbsAddress(0, 1, 1)),
                   AbsAddress(0, 1, 0));
  }

  lemma OneResult(unsafe: set<AbsAddress>, bounds: Bounds, r: AbsRange, out: ScanResult, out': ScanResult)
    requires Scans(unsafe, bounds, r, out) && Scans(unsafe, bounds, r, out')
    ensures out == out'
  {
    if out != AllSafe && out' != AllSafe {
      var b :| StopsAt(unsafe, bounds, r, b) && (out.Unsafe? <==> bounds.Has(b));
      var c :| StopsAt(unsafe, bounds, r, c) && (out'.Unsafe? <==> bounds.Has(c));
      assert !ScannedBefore(b, c) && !ScannedBefore(c, b);
      assert b == c;
    }
  }

  /** There is but one way for the scans to end. */
  lemma OneResultOfAll(unsafe: set<AbsAddress>, bounds: Bounds, refs: seq<AbsRange>, out: ScanResult, out': ScanResult)
    requires ScansAll(unsafe, bounds, refs, out) && ScansAll(unsafe, bounds, refs, out')
    ensures out == out'
  {
    var i := StoppingScan(unsafe, bounds, refs, out);
    var j := StoppingScan(unsafe, bounds, refs, out');
    if i < j {
      OneResult(unsafe, bounds, Expanded(refs[i], bounds), out, AllSafe);
    } else if j < i {
      OneResult(unsafe, bounds, Expanded(refs[j], bounds), out', AllSafe);
    } else if i < |refs| {
      OneResult(unsafe, bounds, Expanded(refs[i], bounds), out, out');
    }
  }

  lemma StoppingScan(unsafe: set<AbsAddress>, bounds: Bounds, refs: seq<AbsRange>, out: ScanResult) returns (i: nat)
    requires ScansAll(unsafe, bounds, refs, out)
    ensures i <= |refs| && (i < |refs| ==> out != AllSafe && Scans(unsafe, bounds, Expanded(refs[i], bounds), out))
    ensures i == |refs| ==> out.AllSafe?
    ensures forall j :: 0 <= j < i ==> Scans(unsafe, bounds, Expanded(refs[j], bounds), AllSafe)
  {
    if out.AllSafe? {
      i := |refs|;
    } else {
      i :| StopsIn(unsafe, bounds, refs, i, out);
    }
  }

  /** Only the cells of the references matter. */
  lemma SameScan(unsafe: set<AbsAddress>, unsafe': set<AbsAddress>, bounds: Bounds, r: AbsRange, out: ScanResult)
    requires forall b :: r.Contains(b) ==> (b in unsafe <==> b in unsafe')
    requires Scans(unsafe, bounds, r, out)
    ensures Scans(unsafe', bounds, r, out)
  {
    assert forall b :: r.Contains(b) ==> (Fine(unsafe, bounds, b) <==> Fine(unsafe', bounds, b));
    if !out.AllSafe? {
      var b :| StopsAt(unsafe, bounds, r, b) && (out.Unsafe? <==> bounds.Has(b));
      assert StopsAt(unsafe', bounds, r, b);
    }
  }

  lemma SameScans(unsafe: set<AbsAddress>, unsafe': set<AbsAddress>, bounds: Bounds, refs: seq<AbsRange>,
          out: ScanResult)
    requires forall i, b :: 0 <= i < |refs| && Expanded(refs[i], bounds).Contains(b) ==> (b in unsafe <==> b in unsafe')
    requires ScansAll(unsafe, bounds, refs, out)
    ensures ScansAll(unsafe', bounds, refs, out)
  {
    var n := if out.AllSafe? then |refs| else var i :| StopsIn(unsafe, bounds, refs, i, out); i;
    forall j | 0 <= j < n
      ensures Scans(unsafe', bounds, Expanded(refs[j], bounds), AllSafe)
    {
      SameScan(unsafe, unsafe', bounds, Expanded(refs[j], bounds), AllSafe);
    }
    if !out.AllSafe? {
      SameScan(unsafe, unsafe', bounds, Expanded(refs[n], bounds), out);
      assert StopsIn(unsafe', bounds, refs, n, out);
    }
  }

  // ---- every scan ends in some way ----

  lemma {:induction false} FirstOf(cells: set<AbsAddress>) returns (b: AbsAddress)
    requires cells != {}
    ensures b in cells && forall c :: c in cells ==> !ScannedBefore(c, b)
    decreases |cells|
  {
    b :| b in cells;
    var before := set c | c in cells && ScannedBefore(c, b);
    assert forall c :: c in cells && ScannedBefore(c, b) ==> c in before;
    if before != {} {
      assert before < cells;
      SmallerSet(before, cells);
      var first := FirstOf(before);
      assert forall c :: c in cells && ScannedBefore(c, first) ==> c in before;
      b := first;
    }
  }

  function CellsOf(r: AbsRange): (cells: set<AbsAddress>)
    ensures forall b :: b in cells <==> r.Contains(b)
  {
    set sh, row, col |
      && r.first.sheet <= sh <= r.last.sheet
      && r.first.row <= row <= r.last.row
      && r.first.column <= col <= r.last.column
    :: AbsAddress(sh, row, col)
  }

  lemma ScanEnds(unsafe: set<AbsAddress>, bounds: Bounds, r: AbsRange) returns (out: ScanResult)
    ensures Scans(unsafe, bounds, r, out)
  {
    var stops := set b | b in CellsOf(r) && !Fine(unsafe, bounds, b);
    if stops == {} {
      assert forall b :: r.Contains(b) ==> b in CellsOf(r) && b !in stops;
      out := AllSafe;
    } else {
      var b := FirstOf(stops);
      assert StopsAt(unsafe, bounds, r, b);
      out := if bounds.Has(b) then Unsafe else OutOfRange;
    }
  }

  /** Where no cell of the references is unsafe, the scans step outside exactly
      when some reference reaches out of the workbook. */
  lemma OutsideExactly(unsafe: set<AbsAddress>, bounds: Bounds, refs: seq<AbsRange>)
    requires forall i, b :: 0 <= i < |refs| && Expanded(refs[i], bounds).Contains(b) ==> b !in unsafe
    ensures ScansAll(unsafe, bounds, refs, OutOfRange) <==>
      exists i, b :: 0 <= i < |refs| && Expanded(refs[i], bounds).Contains(b) && !bounds.Has(b)
  {
    if i, b :| 0 <= i < |refs| && Expanded(refs[i], bounds).Contains(b) && !bounds.Has(b) {
      var k := FirstReachingOut(unsafe, bounds, refs, i);
      assert StopsIn(unsafe, bounds, refs, k, OutOfRange);
    }
  }

  lemma {:induction false} FirstReachingOut(unsafe: set<AbsAddress>, bounds: Bounds, refs: seq<AbsRange>, i: nat)
          returns (k: nat)
    requires forall j, b :: 0 <= j < |refs| && Expanded(refs[j], bounds).Contains(b) ==> b !in unsafe
    requires i < |refs| && !Scans(unsafe, bounds, Expanded(refs[i], bounds), AllSafe)
    ensures StopsIn(unsafe, bounds, refs, k, OutOfRange)
    decreases i
  {
    if j :| 0 <= j < i && !Scans(unsafe, bounds, Expanded(refs[j], bounds), AllSafe) {
      k := FirstReachingOut(unsafe, bounds, refs, j);
    } else {
      k := i;
      var out := ScanEnds(unsafe, bounds, Expanded(refs[i], bounds));
    }
  }
}
