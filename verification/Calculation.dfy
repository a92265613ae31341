/** Formula cells with their cached status, and the recalculation of a sorted
    list of them on one thread. */
module Calculation {
  import opened Wrappers
  import opened Address
  import opened Graph
  import opened DepthFirstSearch
  import opened Recalculation
  import opened SheetTracking
  import opened CircularityScan

  class FormulaCell {
    const formula: Formula
    var result: Option<Value>
    var circularSafe: bool

    constructor (f: Formula)
      ensures formula == f && result.None? && !circularSafe
    {
      formula := f;
      result := None;
      circularSafe := false;
    }

    method Reset()
      modifies this
      ensures result.None? && !circularSafe
    {
      result := None;
      circularSafe := false;
    }

    /** Scans the references.  The cell is marked safe when all formula cells
        they cover are, and gets the reference error when one is not; it is left
        alone when the scan steps outside of the workbook first. */
    method CheckCircular(cells: Store, bounds: Bounds) returns (out: ScanResult)
      requires result.None? && forall i :: 0 <= i < |formula.refs| ==> formula.refs[i].Valid()
      modifies this
      ensures ScansAll(old(UnsafeCells(cells)), bounds, formula.refs, out)
      ensures circularSafe == (out.AllSafe? || old(circularSafe))
      ensures result == if out.Unsafe? then Some(Error(RefResultNotAvailable)) else None
    {
      ghost var unsafe := UnsafeCells(cells);
      for i := 0 to |formula.refs|
        invariant result.None? && circularSafe == old(circularSafe) && unsafe == UnsafeCells(cells)
        invariant forall j :: 0 <= j < i ==> Scans(unsafe, bounds, Expanded(formula.refs[j], bounds), AllSafe)
      {
        out := CheckRangeForCircularSafety(cells, formula.refs[i], bounds);
        if !out.AllSafe? {
          assert StopsIn(unsafe, bounds, formula.refs, i, out);
          if out.Unsafe? {
            result := Some(Error(RefResultNotAvailable));
          }
          return;
        }
      }
      out := AllSafe;
      circularSafe := true;
    }

    /** Computes the result unless there already is one.  The referenced formula
        cells have theirs, so that reading them never waits. */
    method Interpret(cells: Store, now: int)
      requires result.None? ==> ReferencesReady(cells, formula)
      requires result.None? ==> forall b :: Refers(cells, formula, b) ==> cells[b].cell != this
      modifies this`result
      ensures old(result).Some? ==> result == old(result)
      ensures old(result).None? ==> result == Some(formula.Evaluate(now, old(ReadReferences(cells, formula))))
    {
      if result.Some? {
        return;
      }
      // a placeholder is visible until the interpretation has finished
      result := Some(Numeric(0.0));
      var value := formula.Evaluate(now, ReadReferences(cells, formula));
      assert ReadReferences(cells, formula) == old(ReadReferences(cells, formula));
      result := Some(value);
    }
  }

  datatype Stored = Raw(v: Value) | FormulaAt(cell: FormulaCell)

  type Store = map<AbsAddress, Stored>

  ghost function Objects(cells: Store): set<object> {
    set a | a in cells && cells[a].FormulaAt? :: cells[a].cell
  }

  /** Every formula position has a cell of its own. */
  ghost predicate OneCellEach(cells: Store) {
    && (forall a, b ::
          a in cells && b in cells && cells[a].FormulaAt? && cells[b].FormulaAt? && cells[a].cell == cells[b].cell ==>
            a == b)
    && forall a :: a in cells && cells[a].FormulaAt? ==> cells[a].cell.formula.WellFormed()
  }

  ghost function View(cells: Store): (s: Sheet)
    ensures s.Keys == cells.Keys
    ensures forall a :: a in cells ==> (IsFormula(s, a) <==> cells[a].FormulaAt?)
  {
    map a | a in cells :: match cells[a] case Raw(v) => Literal(v) case FormulaAt(c) => Computed(c.formula)
  }

  predicate Refers(cells: Store, f: Formula, b: AbsAddress) {
    b in cells && cells[b].FormulaAt? && f.Covers(b)
  }

  ghost predicate ReferencesSafe(cells: Store, f: Formula)
    reads Objects(cells)
  {
    forall b :: Refers(cells, f, b) ==> cells[b].cell.circularSafe
  }

  ghost function UnsafeCells(cells: Store): set<AbsAddress>
    reads Objects(cells)
  {
    set b | b in cells && cells[b].FormulaAt? && !cells[b].cell.circularSafe
  }

  /** What the scans say of the formula cells referred to, where no reference is
      a whole row or column. */
  lemma ScansMean(cells: Store, f: Formula, bounds: Bounds, out: ScanResult)
    requires f.WellFormed() && ScansAll(UnsafeCells(cells), bounds, f.refs, out)
    ensures out.AllSafe? ==> ReferencesSafe(cells, f)
    ensures out.Unsafe? ==> !ReferencesSafe(cells, f)
  {
    if out.AllSafe? {
      forall b | Refers(cells, f, b)
        ensures cells[b].cell.circularSafe
      {
        var i :| 0 <= i < |f.refs| && f.refs[i].Contains(b);
        assert Scans(UnsafeCells(cells), bounds, Expanded(f.refs[i], bounds), AllSafe);
      }
    } else if out.Unsafe? {
      var i :| StopsIn(UnsafeCells(cells), bounds, f.refs, i, out);
      var b :| StopsAt(UnsafeCells(cells), bounds, Expanded(f.refs[i], bounds), b) && bounds.Has(b);
      assert Refers(cells, f, b);
    }
  }

  ghost predicate ReferencesReady(cells: Store, f: Formula)
    reads Objects(cells)
  {
    forall b :: Refers(cells, f, b) ==> cells[b].cell.result.Some?
  }

  function ReadReferences(cells: Store, f: Formula): Environment
    requires ReferencesReady(cells, f)
    reads Objects(cells)
  {
    map b | b in cells && f.Covers(b) :: 
      match cells[b]
      case Raw(v) => Seen(v, false)
      case FormulaAt(c) => assert Refers(cells, f, b); Seen(c.result.value, true)
  }

  /** The scan passes over the cells of a range before a position. */
  ghost predicate FineBefore(cells: Store, bounds: Bounds, r: AbsRange, sheet: int, col: int, row: int)
    reads Objects(cells)
  {
    forall b :: r.Contains(b) && ScannedBefore(b, AbsAddress(sheet, row, col)) ==> Fine(UnsafeCells(cells), bounds, b)
  }

  /** Looks at the cells of a range sheet by sheet and column by column. */
  method CheckRangeForCircularSafety(cells: Store, range: AbsRange, bounds: Bounds) returns (out: ScanResult)
    requires range.Valid()
    ensures Scans(UnsafeCells(cells), bounds, Expanded(range, bounds), out)
  {
    ghost var all := Expanded(range, bounds);
    for sheet := range.first.sheet to range.last.sheet + 1
      invariant FineBefore(cells, bounds, all, sheet, all.first.column, all.first.row)
    {
      var colFirst, colLast := range.first.column, range.last.column;
      if range.AllColumns() {
        colFirst, colLast := 0, bounds.columns - 1;
      }
      for col := colFirst to colLast + 1
        invariant FineBefore(cells, bounds, all, sheet, col, all.first.row)
      {
        var rowFirst, rowLast := range.first.row, range.last.row;
        if range.AllRows() {
          rowFirst, rowLast := 0, bounds.rows - 1;
        }
        for row := rowFirst to rowLast + 1
          invariant FineBefore(cells, bounds, all, sheet, col, row)
        {
          var addr := AbsAddress(sheet, row, col);
          out := LookAt(cells, addr, bounds);
          if !out.AllSafe? {
            assert StopsAt(UnsafeCells(cells), bounds, all, addr);
            return;
          }
        }
      }
    }
    out := AllSafe;
  }

  /** Looking outside of the workbook throws. */
  method LookAt(cells: Store, addr: AbsAddress, bounds: Bounds) returns (out: ScanResult)
    ensures out == if !bounds.Has(addr) then OutOfRange else if addr in UnsafeCells(cells) then Unsafe else AllSafe
  {
    if !bounds.Has(addr) {
      return OutOfRange;
    }
    out := if addr in cells && cells[addr].FormulaAt? && !cells[addr].cell.circularSafe then Unsafe else AllSafe;
  }

  /** The marking a recalculation must end with. */
  ghost predicate Marked(cells: Store, a: AbsAddress)
    requires a in cells && cells[a].FormulaAt?
    reads Objects(cells)
  {
    cells[a].cell.circularSafe <==> !Circular(View(cells), a)
  }

  ghost predicate Correct(cells: Store, clock: Clock, a: AbsAddress)
    requires a in cells && cells[a].FormulaAt?
    reads Objects(cells)
  {
    Marked(cells, a) && cells[a].cell.result == Some(Meaning(View(cells), clock, a))
  }

  ghost predicate AllFormulas(cells: Store, entries: seq<AbsAddress>) {
    forall a :: a in entries ==> a in cells && cells[a].FormulaAt?
  }

  ghost function EntryObjects(cells: Store, entries: seq<AbsAddress>): set<FormulaCell>
    requires AllFormulas(cells, entries)
  {
    set k | 0 <= k < |entries| :: cells[entries[k]].cell
  }

  /** The cells outside the entries are up to date. */
  ghost predicate OthersCorrect(cells: Store, clock: Clock, entries: seq<AbsAddress>)
    reads Objects(cells)
  {
    forall a :: a in cells && cells[a].FormulaAt? && a !in entries ==> Correct(cells, clock, a)
  }

  method ResetAll(cells: Store, entries: seq<AbsAddress>)
    requires OneCellEach(cells) && AllFormulas(cells, entries)
    modifies EntryObjects(cells, entries)
    ensures forall k :: 0 <= k < |entries| ==> IsReset(cells, entries[k])
  {
    for i := 0 to |entries|
      invariant forall k :: 0 <= k < i ==> IsReset(cells, entries[k])
    {
      cells[entries[i]].cell.Reset();
    }
  }

  /** Entry k may be marked once the entries before it and the other cells are. */
  lemma SafeExactlyWhenAcyclic(cells: Store, entries: seq<AbsAddress>, k: nat)
    requires OneCellEach(cells) && AllFormulas(cells, entries) && Distinct(entries) && k < |entries|
    requires ReferencesFirst(View(cells), entries)
    requires forall a :: a in cells && cells[a].FormulaAt? && a !in entries[k..] ==> Marked(cells, a)
    requires forall j :: k <= j < |entries| ==> !cells[entries[j]].cell.circularSafe
    ensures ReferencesSafe(cells, cells[entries[k]].cell.formula) <==> !Circular(View(cells), entries[k])
  {
    var s, e := View(cells), entries[k];
    var g, f := DependsOn(s), cells[e].cell.formula;
    if Circular(s, e) {
      CycleThroughSuccessor(g, e);
      var b :| g(e, b) && ReachesCycle(g, b);
      var c := CycleNodeIsFormula(s, b);
      assert Refers(cells, f, b);
      if b !in entries[k..] {
        assert Marked(cells, b);
      }
    } else {
      forall b | Refers(cells, f, b)
        ensures cells[b].cell.circularSafe
      {
        assert g(e, b);
        if Circular(s, b) {
          CycleFromSuccessor(g, e, b);
        }
        if Reach(g, b, e) {
          ReachCons(g, e, b, e);
        }
        assert b in entries ==> b in entries[..k];
        NotLater(entries, k, b);
        assert Marked(cells, b);
      }
    }
  }

  lemma NotLater(entries: seq<AbsAddress>, k: nat, a: AbsAddress)
    requires Distinct(entries) && k <= |entries|
    requires a in entries ==> a in entries[..k]
    ensures a !in entries[k..]
  {
  }

  lemma NotEarlier(entries: seq<AbsAddress>, k: nat, a: AbsAddress)
    requires Distinct(entries) && k <= |entries| && a in entries[k..]
    ensures a !in entries[..k]
  {
  }

  lemma CycleNodeIsFormula(s: Sheet, b: AbsAddress) returns (c: AbsAddress)
    requires Circular(s, b)
    ensures DependsOn(s)(b, c)
  {
    CycleThroughSuccessor(DependsOn(s), b);
    c :| DependsOn(s)(b, c) && ReachesCycle(DependsOn(s), c);
  }

  /** What the circular pass leaves of an entry. */
  ghost predicate Checked(cells: Store, a: AbsAddress)
    requires a in cells && cells[a].FormulaAt?
    reads Objects(cells)
  {
    && Marked(cells, a)
    && cells[a].cell.result == if Circular(View(cells), a) then Some(Error(RefResultNotAvailable)) else None
  }

  ghost predicate IsReset(cells: Store, a: AbsAddress)
    requires a in cells && cells[a].FormulaAt?
    reads Objects(cells)
  {
    cells[a].cell.result.None? && !cells[a].cell.circularSafe
  }

  /** The circular pass has come to entry i. */
  ghost predicate MarkedUpTo(cells: Store, entries: seq<AbsAddress>, i: nat)
    requires AllFormulas(cells, entries) && i <= |entries|
    reads Objects(cells)
  {
    && (forall a :: a in cells && cells[a].FormulaAt? && a !in entries ==> Marked(cells, a))
    && (forall k :: 0 <= k < i ==> Checked(cells, entries[k]))
    && (forall k :: i <= k < |entries| ==> IsReset(cells, entries[k]))
  }

  ghost function CircularCells(s: Sheet): set<AbsAddress> {
    set b | b in s && IsFormula(s, b) && Circular(s, b)
  }

  /** The circularity check of the cell at a steps outside of the workbook:
      before it comes to a circular formula cell, if it ever does. */
  ghost predicate StepsOutside(s: Sheet, bounds: Bounds, a: AbsAddress) {
    IsFormula(s, a) && ScansAll(CircularCells(s), bounds, s[a].f.refs, OutOfRange)
  }

  /** The formula refers to a cell outside of the workbook. */
  ghost predicate ReachesOut(f: Formula, bounds: Bounds) {
    exists b :: f.Covers(b) && !bounds.Has(b)
  }

  /** The check of a cell that reaches no cycle steps outside exactly when its
      formula refers to a cell there. */
  lemma StepsOutsideExactly(s: Sheet, bounds: Bounds, a: AbsAddress)
    requires IsFormula(s, a) && s[a].f.WellFormed() && !Circular(s, a)
    ensures StepsOutside(s, bounds, a) <==> ReachesOut(s[a].f, bounds)
  {
    var refs := s[a].f.refs;
    forall i, b | 0 <= i < |refs| && Expanded(refs[i], bounds).Contains(b)
      ensures b !in CircularCells(s)
    {
      assert DependsOn(s)(a, b);
      if Circular(s, b) {
        CycleFromSuccessor(DependsOn(s), a, b);
      }
    }
    OutsideExactly(CircularCells(s), bounds, refs);
    if b :| s[a].f.Covers(b) && !bounds.Has(b) {
      var i :| 0 <= i < |refs| && refs[i].Contains(b);
      assert Expanded(refs[i], bounds).Contains(b);
    }
  }

  /** Of the cells that entry k refers to, those not marked safe at its turn are
      the circular ones. */
  lemma UnsafeAreCircular(cells: Store, entries: seq<AbsAddress>, k: nat, b: AbsAddress)
    requires OneCellEach(cells) && AllFormulas(cells, entries) && Distinct(entries) && k < |entries|
    requires ReferencesFirst(View(cells), entries)
    requires forall a :: a in cells && cells[a].FormulaAt? && a !in entries[k..] ==> Marked(cells, a)
    requires forall j :: k <= j < |entries| ==> !cells[entries[j]].cell.circularSafe
    requires cells[entries[k]].cell.formula.Covers(b)
    ensures b in UnsafeCells(cells) <==> b in CircularCells(View(cells))
  {
    var s, e := View(cells), entries[k];
    var g := DependsOn(s);
    if b in cells && cells[b].FormulaAt? {
      assert g(e, b);
      if b in entries[k..] {
        var j :| k <= j < |entries| && entries[j] == b;
        assert b in entries && g(entries[k], b);
        NotEarlier(entries, k, b);
        assert Reach(g, b, e);
        CycleBack(g, e, b);
      } else {
        assert Marked(cells, b);
      }
    }
  }

  lemma CycleBack(g: Edges<AbsAddress>, e: AbsAddress, b: AbsAddress)
    requires g(e, b) && Reach(g, b, e)
    ensures ReachesCycle(g, b)
  {
    ReachSnoc(g, b, e, b);
  }

  /** The circular pass. */
  method MarkCircular(cells: Store, entries: seq<AbsAddress>, bounds: Bounds) returns (thrown: bool)
    requires OneCellEach(cells) && AllFormulas(cells, entries) && Distinct(entries)
    requires ReferencesFirst(View(cells), entries)
    requires forall k :: 0 <= k < |entries| ==> IsReset(cells, entries[k])
    requires forall a :: a in cells && cells[a].FormulaAt? && a !in entries ==> Marked(cells, a)
    modifies EntryObjects(cells, entries)
    ensures thrown <==> exists k :: 0 <= k < |entries| && StepsOutside(View(cells), bounds, entries[k])
    ensures !thrown ==> forall k :: 0 <= k < |entries| ==> Checked(cells, entries[k])
  {
    for i := 0 to |entries|
      invariant MarkedUpTo(cells, entries, i)
      invariant forall k :: 0 <= k < i ==> !StepsOutside(View(cells), bounds, entries[k])
    {
      thrown := MarkEntry(cells, entries, i, bounds);
      if thrown {
        return;
      }
    }
    thrown := false;
  }

  method MarkEntry(cells: Store, entries: seq<AbsAddress>, i: nat, bounds: Bounds) returns (thrown: bool)
    requires OneCellEach(cells) && AllFormulas(cells, entries) && Distinct(entries) && i < |entries|
    requires ReferencesFirst(View(cells), entries) && MarkedUpTo(cells, entries, i)
    modifies cells[entries[i]].cell
    ensures thrown <==> StepsOutside(View(cells), bounds, entries[i])
    ensures !thrown ==> MarkedUpTo(cells, entries, i + 1)
  {
    ghost var refs := cells[entries[i]].cell.formula.refs;
    MarkedOutside(cells, entries, i);
    forall out | ScansAll(UnsafeCells(cells), bounds, refs, out)
      ensures ScanVerdict(View(cells), bounds, entries[i], out)
    {
      EntryScanned(cells, entries, i, bounds, out);
    }
    var out := cells[entries[i]].cell.CheckCircular(cells, bounds);
    thrown := out.OutOfRange?;
  }

  /** What the end of the scan says of an entry. */
  ghost predicate ScanVerdict(s: Sheet, bounds: Bounds, a: AbsAddress, out: ScanResult) {
    match out
    case AllSafe => !StepsOutside(s, bounds, a) && !Circular(s, a)
    case Unsafe => !StepsOutside(s, bounds, a) && Circular(s, a)
    case OutOfRange => StepsOutside(s, bounds, a)
  }

  lemma EntryScanned(cells: Store, entries: seq<AbsAddress>, i: nat, bounds: Bounds, out: ScanResult)
    requires OneCellEach(cells) && AllFormulas(cells, entries) && Distinct(entries) && i < |entries|
    requires ReferencesFirst(View(cells), entries) && MarkedUpTo(cells, entries, i)
    requires ScansAll(UnsafeCells(cells), bounds, cells[entries[i]].cell.formula.refs, out)
    ensures ScanVerdict(View(cells), bounds, entries[i], out)
  {
    var s, e := View(cells), entries[i];
    var f := cells[e].cell.formula;
    MarkedOutside(cells, entries, i);
    SafeExactlyWhenAcyclic(cells, entries, i);
    ScansMean(cells, f, bounds, out);
    forall j, b | 0 <= j < |f.refs| && Expanded(f.refs[j], bounds).Contains(b)
      ensures b in UnsafeCells(cells) <==> b in CircularCells(s)
    {
      UnsafeAreCircular(cells, entries, i, b);
    }
    SameScans(UnsafeCells(cells), CircularCells(s), bounds, f.refs, out);
    if StepsOutside(s, bounds, e) {
      OneResultOfAll(CircularCells(s), bounds, f.refs, out, OutOfRange);
    }
  }

  lemma MarkedOutside(cells: Store, entries: seq<AbsAddress>, i: nat)
    requires AllFormulas(cells, entries) && i <= |entries| && MarkedUpTo(cells, entries, i)
    ensures forall a :: a in cells && cells[a].FormulaAt? && a !in entries[i..] ==> Marked(cells, a)
  {
    forall a | a in cells && cells[a].FormulaAt? && a !in entries[i..]
      ensures Marked(cells, a)
    {
      if a in entries {
        assert entries == entries[..i] + entries[i..];
        var k :| 0 <= k < i && entries[k] == a;
        assert Checked(cells, entries[k]);
      }
    }
  }

  /** The interpretation pass has come to entry i. */
  ghost predicate InterpretedUpTo(cells: Store, entries: seq<AbsAddress>, i: nat, clock: Clock)
    requires AllFormulas(cells, entries) && i <= |entries|
    reads Objects(cells)
  {
    && OthersCorrect(cells, clock, entries)
    && (forall k :: 0 <= k < i ==> Correct(cells, clock, entries[k]))
    && (forall k :: i <= k < |entries| ==> Checked(cells, entries[k]))
  }

  /** The interpretation pass: when an entry is interpreted, everything it reads
      already has its final result. */
  method InterpretAll(cells: Store, entries: seq<AbsAddress>, clock: Clock)
    requires OneCellEach(cells) && AllFormulas(cells, entries) && Distinct(entries)
    requires ReferencesFirst(View(cells), entries)
    requires OthersCorrect(cells, clock, entries)
    requires forall k :: 0 <= k < |entries| ==> Checked(cells, entries[k])
    modifies EntryObjects(cells, entries)`result
    ensures forall a :: a in cells && cells[a].FormulaAt? ==> Correct(cells, clock, a)
  {
    for i := 0 to |entries|
      invariant InterpretedUpTo(cells, entries, i, clock)
    {
      InterpretOneMore(cells, entries, i, clock);
    }
  }

  method InterpretOneMore(cells: Store, entries: seq<AbsAddress>, i: nat, clock: Clock)
    requires OneCellEach(cells) && AllFormulas(cells, entries) && Distinct(entries) && i < |entries|
    requires ReferencesFirst(View(cells), entries) && InterpretedUpTo(cells, entries, i, clock)
    modifies cells[entries[i]].cell`result
    ensures InterpretedUpTo(cells, entries, i + 1, clock)
  {
    InterpretEntry(cells, entries, i, clock);
  }

  method InterpretEntry(cells: Store, entries: seq<AbsAddress>, k: nat, clock: Clock)
    requires OneCellEach(cells) && AllFormulas(cells, entries) && k < |entries|
    requires ReferencesFirst(View(cells), entries)
    requires OthersCorrect(cells, clock, entries)
    requires forall j :: 0 <= j < k ==> Correct(cells, clock, entries[j])
    requires Checked(cells, entries[k])
    modifies cells[entries[k]].cell`result
    ensures Correct(cells, clock, entries[k])
  {
    ghost var s := View(cells);
    var e := entries[k];
    var cell := cells[e].cell;
    if !Circular(s, e) {
      forall b | Refers(cells, cell.formula, b)
        ensures b != e && Correct(cells, clock, b)
      {
        ReferenceComesEarlier(s, entries, k, b);
      }
      EnvironmentRead(cells, clock, e);
      MeaningUnfolds(s, clock, e, ReadReferences(cells, cell.formula));
    }
    cell.Interpret(cells, clock(e));
  }

  lemma EnvironmentRead(cells: Store, clock: Clock, e: AbsAddress)
    requires e in cells && cells[e].FormulaAt?
    requires forall b :: Refers(cells, cells[e].cell.formula, b) ==> Correct(cells, clock, b)
    ensures ReferencesReady(cells, cells[e].cell.formula)
    ensures IsEnvironment(View(cells), clock, e, ReadReferences(cells, cells[e].cell.formula))
  {
    var env := ReadReferences(cells, cells[e].cell.formula);
    forall b | b in env
      ensures env[b] == Seen(Meaning(View(cells), clock, b), cells[b].FormulaAt?)
    {
      if cells[b].FormulaAt? {
        assert Refers(cells, cells[e].cell.formula, b);
      }
    }
  }

  /** What a safe entry refers to is either no entry or an earlier one. */
  lemma ReferenceComesEarlier(s: Sheet, entries: seq<AbsAddress>, k: nat, b: AbsAddress)
    requires ReferencesFirst(s, entries) && k < |entries|
    requires DependsOn(s)(entries[k], b) && !Circular(s, entries[k])
    ensures b in entries ==> b in entries[..k]
    ensures b != entries[k] && !Circular(s, b)
  {
    var g, e := DependsOn(s), entries[k];
    ReachEdge(g, e, b);
    if Reach(g, b, e) {
      ReachCons(g, e, b, e);
    }
    assert b == e ==> ReachesCycle(g, e);
    if Circular(s, b) {
      CycleFromSuccessor(g, e, b);
    }
  }
}
