/** Whole histories of a document: any sequence of edits and recalculations,
    each of which may end with an exception that the caller catches. */
module History {
  import opened Wrappers
  import opened Address
  import opened Graph
  import opened Recalculation
  import opened CircularityScan
  import opened Calculation
  import opened SortedCalculation
  import opened Document

  datatype Edit =
    | SetValue(at: AbsAddress, v: Value)
    | Clear(at: AbsAddress)
    | SetFormula(at: AbsAddress, f: Formula)
    | Recalculate(clock: Clock, mode: Mode)
  {
    predicate WellFormed() {
      match this
      case SetValue(_, v) => !v.Error?
      case SetFormula(_, f) => f.WellFormed()
      case _ => true
    }

    predicate Overwrites(a: AbsAddress) {
      (SetValue? || Clear?) && at == a
    }
  }

  /** What a document holds: the stored cells, the positions modified and those
      given a formula since the last recalculation that went through. */
  datatype Book = Book(sheet: Sheet, modified: set<AbsAddress>, added: set<AbsAddress>)

  const EMPTY := Book(map[], {}, {})

  ghost function BookOf(doc: Document): Book
    reads doc
  {
    Book(View(doc.cells), doc.modified, doc.added)
  }

  ghost predicate CannotRecalculate(b: Book, bounds: Bounds) {
    StaleStepsOutside(b.sheet, bounds, b.modified, b.added)
  }

  /** The edit ends with an exception. */
  ghost predicate Throws(b: Book, bounds: Bounds, e: Edit) {
    if e.Recalculate? then CannotRecalculate(b, bounds) else !bounds.Has(e.at)
  }

  /** The effect of an edit; one that throws has none. */
  ghost function Step(b: Book, bounds: Bounds, e: Edit): Book {
    if Throws(b, bounds, e) then b
    else
      match e
      case SetValue(a, v) => Book(b.sheet[a := Literal(v)], b.modified + {a}, b.added)
      case Clear(a) => Book(b.sheet - {a}, b.modified + {a}, b.added)
      case SetFormula(a, f) => Book(b.sheet[a := Computed(f)], b.modified, b.added + {a})
      case Recalculate(_, _) => Book(b.sheet, {}, {})
  }

  ghost function After(edits: seq<Edit>, bounds: Bounds): Book {
    if edits == [] then EMPTY else Step(After(edits[..|edits| - 1], bounds), bounds, edits[|edits| - 1])
  }

  /** Recalculation may follow: every pending position still holds a formula. */
  ghost predicate MayRecalculate(b: Book) {
    forall a :: a in b.added ==> IsFormula(b.sheet, a)
  }

  /** Recalculations come when they may, and the threads they use compute the
      formulas of the sheet. */
  ghost predicate Runnable(edits: seq<Edit>, bounds: Bounds) {
    forall k :: 0 <= k < |edits| ==>
      && edits[k].WellFormed()
      && (edits[k].Recalculate? ==>
            && MayRecalculate(After(edits[..k], bounds))
            && Fits(After(edits[..k], bounds).sheet, edits[k].clock, edits[k].mode))
  }

  // ---- formulas overwritten before a recalculation ----

  ghost predicate GoesThrough(edits: seq<Edit>, bounds: Bounds, k: int) {
    0 <= k < |edits| && edits[k].Recalculate? && !CannotRecalculate(After(edits[..k], bounds), bounds)
  }

  /** A formula was entered at a and later overwritten by something else, all
      since the last recalculation that went through. */
  ghost predicate FormulaOverwritten(edits: seq<Edit>, bounds: Bounds, a: AbsAddress) {
    bounds.Has(a) && exists i, j :: EntersThenOverwrites(edits, bounds, a, i, j)
  }

  ghost predicate EntersThenOverwrites(edits: seq<Edit>, bounds: Bounds, a: AbsAddress, i: int, j: int) {
    && 0 <= i < j < |edits|
    && edits[i].SetFormula? && edits[i].at == a
    && edits[j].Overwrites(a)
    && (forall k :: i < k < |edits| ==> !GoesThrough(edits, bounds, k))
    && forall k :: j < k < |edits| ==> !(edits[k].SetFormula? && edits[k].at == a)
  }

  ghost predicate Pending(edits: seq<Edit>, bounds: Bounds, a: AbsAddress, i: int) {
    && 0 <= i < |edits| && edits[i].SetFormula? && edits[i].at == a && bounds.Has(a)
    && forall k :: i < k < |edits| ==> !GoesThrough(edits, bounds, k)
  }

  lemma SamePrefix(edits: seq<Edit>, bounds: Bounds)
    requires edits != []
    ensures var before := edits[..|edits| - 1];
      forall k :: 0 <= k < |before| ==> (GoesThrough(before, bounds, k) <==> GoesThrough(edits, bounds, k))
  {
    var before := edits[..|edits| - 1];
    assert forall k :: 0 <= k < |before| ==> before[..k] == edits[..k];
  }

  lemma {:induction false} PendingMeans(edits: seq<Edit>, bounds: Bounds, a: AbsAddress)
    ensures a in After(edits, bounds).added <==> exists i :: Pending(edits, bounds, a, i)
    decreases |edits|
  {
    if edits == [] {
    } else {
      var n := |edits| - 1;
      var before := edits[..n];
      PendingMeans(before, bounds, a);
      SamePrefix(edits, bounds);
      if a in After(edits, bounds).added {
        if edits[n].SetFormula? && edits[n].at == a && bounds.Has(a) {
          assert Pending(edits, bounds, a, n);
        } else {
          var i :| Pending(before, bounds, a, i);
          assert Pending(edits, bounds, a, i);
        }
      }
      if i :| Pending(edits, bounds, a, i) {
        if i < n {
          assert Pending(before, bounds, a, i);
          assert !GoesThrough(edits, bounds, n);
        }
      }
    }
  }

  /** Recalculation meets a position without a formula cell exactly when some
      formula was overwritten since the last one that went through. */
  lemma {:induction false} OverwrittenExactly(edits: seq<Edit>, bounds: Bounds, a: AbsAddress)
    ensures a in After(edits, bounds).added && !IsFormula(After(edits, bounds).sheet, a) <==>
      FormulaOverwritten(edits, bounds, a)
    decreases |edits|
  {
    if edits == [] {
    } else {
      var n := |edits| - 1;
      var before := edits[..n];
      OverwrittenExactly(before, bounds, a);
      PendingMeans(before, bounds, a);
      SamePrefix(edits, bounds);
      if a in After(edits, bounds).added && !IsFormula(After(edits, bounds).sheet, a) {
        if edits[n].Overwrites(a) {
          var i :| Pending(before, bounds, a, i);
          assert EntersThenOverwrites(edits, bounds, a, i, n);
        } else {
          var i, j :| EntersThenOverwrites(before, bounds, a, i, j);
          assert EntersThenOverwrites(edits, bounds, a, i, j);
        }
      }
      if FormulaOverwritten(edits, bounds, a) {
        var i, j :| EntersThenOverwrites(edits, bounds, a, i, j);
        assert Pending(before, bounds, a, i);
        assert !GoesThrough(edits, bounds, n);
        if j < n {
          assert EntersThenOverwrites(before, bounds, a, i, j);
        }
      }
    }
  }

  /** The smallest history after which recalculation would follow a null cell
      pointer: a formula entered and replaced by a number before calculating. */
  lemma OverwriteBreaksRecalculation(bounds: Bounds, a: AbsAddress, f: Formula, x: real)
    requires bounds.Has(a)
    ensures !MayRecalculate(After([SetFormula(a, f), SetValue(a, Numeric(x))], bounds))
  {
    var edits := [SetFormula(a, f), SetValue(a, Numeric(x))];
    assert edits[..1] == [SetFormula(a, f)];
    assert EntersThenOverwrites(edits, bounds, a, 0, 1);
    OverwrittenExactly(edits, bounds, a);
  }

  // ---- references out of the workbook ----

  /** While all formulas refer to cells in the workbook no recalculation throws. */
  lemma InsideGoesThrough(b: Book, bounds: Bounds)
    requires forall a :: IsFormula(b.sheet, a) ==> b.sheet[a].f.WellFormed() && !ReachesOut(b.sheet[a].f, bounds)
    ensures !CannotRecalculate(b, bounds)
  {
    forall a | StepsOutside(b.sheet, bounds, a)
      ensures false
    {
      InsideStaysInside(b.sheet, bounds, a);
    }
  }

  lemma InsideStaysInside(s: Sheet, bounds: Bounds, a: AbsAddress)
    requires IsFormula(s, a) && s[a].f.WellFormed() && !ReachesOut(s[a].f, bounds)
    ensures !StepsOutside(s, bounds, a)
  {
    var refs := s[a].f.refs;
    if i :| StopsIn(CircularCells(s), bounds, refs, i, OutOfRange) {
      var b :| StopsAt(CircularCells(s), bounds, Expanded(refs[i], bounds), b) && !bounds.Has(b);
      assert s[a].f.Covers(b);
    }
  }

  /** Entering a formula that refers to a cell outside of the workbook, and not
      to itself, into an empty document is enough for recalculation to throw. */
  lemma ReachingOutThrows(bounds: Bounds, at: AbsAddress, f: Formula)
    requires bounds.Has(at) && f.WellFormed() && ReachesOut(f, bounds) && !f.Covers(at)
    ensures CannotRecalculate(After([SetFormula(at, f)], bounds), bounds)
  {
    var b := After([SetFormula(at, f)], bounds);
    assert After([], bounds) == EMPTY && [SetFormula(at, f)][..0] == [];
    assert b == Book(map[at := Computed(f)], {}, {at});
    AloneIsNotCircular(b.sheet, at);
    StepsOutsideExactly(b.sheet, bounds, at);
    assert Stale(b.sheet, b.modified, b.added, at);
  }

  lemma AloneIsNotCircular(s: Sheet, at: AbsAddress)
    requires s.Keys == {at} && IsFormula(s, at) && !s[at].f.Covers(at)
    ensures !Circular(s, at)
  {
    var g := DependsOn(s);
    if Circular(s, at) {
      CycleThroughSuccessor(g, at);
      var b :| g(at, b) && ReachesCycle(g, b);
      assert s[at].f.Covers(b);
      assert b != at && b !in s.Keys;
      forall c
        ensures !g(b, c)
      {
        assert !IsFormula(s, b);
      }
      LeadsNowhere(g, b);
    }
  }

  lemma LeadsNowhere(g: Edges<AbsAddress>, b: AbsAddress)
    requires forall c :: !g(b, c)
    ensures !ReachesCycle(g, b)
  {
    if ReachesCycle(g, b) {
      CycleThroughSuccessor(g, b);
    }
  }

  /** A sheet of 1048576 rows and 16384 columns. */
  const ONE_SHEET := Bounds(1, 1048576, 16384)

  /** Formulas on A1:XFE1, one column too far, and on A1:B, which has no last
      row, make recalculation throw, and leave everything as it was, so that the
      next one throws again; entering a number in their place
      does not help, for then their position is pending without a formula. */
  lemma PastTheSheet(f: Formula, x: real)
    requires f.refs == [AbsRange(AbsAddress(0, 0, 0), AbsAddress(0, 0, 16384))] ||
             f.refs == [AbsRange(AbsAddress(0, 0, 0), AbsAddress(0, ROW_UNSET, 1))]
    ensures var at := AbsAddress(0, 1, 2);
      && SetFormula(at, f).WellFormed()
      && CannotRecalculate(After([SetFormula(at, f)], ONE_SHEET), ONE_SHEET)
      && (forall clock, mode ::
           After([SetFormula(at, f), Recalculate(clock, mode)], ONE_SHEET) == After([SetFormula(at, f)], ONE_SHEET))
      && forall clock, mode ::
           !MayRecalculate(After([SetFormula(at, f), Recalculate(clock, mode), SetValue(at, Numeric(x))], ONE_SHEET))
  {
    var at := AbsAddress(0, 1, 2);
    var out := if f.refs[0].last.row == 0 then AbsAddress(0, 0, 16384) else AbsAddress(0, 1048576, 0);
    assert f.refs[0].Contains(out) && f.Covers(out);
    ReachingOutThrows(ONE_SHEET, at, f);
    forall clock, mode
      ensures After([SetFormula(at, f), Recalculate(clock, mode)], ONE_SHEET) == After([SetFormula(at, f)], ONE_SHEET)
    {
      assert [SetFormula(at, f), Recalculate(clock, mode)][..1] == [SetFormula(at, f)];
    }
    forall clock, mode
      ensures !MayRecalculate(After([SetFormula(at, f), Recalculate(clock, mode), SetValue(at, Numeric(x))], ONE_SHEET))
    {
      var edits := [SetFormula(at, f), Recalculate(clock, mode), SetValue(at, Numeric(x))];
      assert edits[..1] == [SetFormula(at, f)];
      assert EntersThenOverwrites(edits, ONE_SHEET, at, 0, 2);
      OverwrittenExactly(edits, ONE_SHEET, at);
    }
  }

  // ---- documents ----

  method Perform(doc: Document, e: Edit) returns (thrown: bool)
    requires doc.Valid() && e.WellFormed()
    requires e.Recalculate? ==> MayRecalculate(BookOf(doc)) && Fits(View(doc.cells), e.clock, e.mode)
    modifies doc, doc.tracker, Objects(doc.cells)
    ensures doc.Valid()
    ensures BookOf(doc) == Step(old(BookOf(doc)), doc.bounds, e)
    ensures thrown <==> Throws(old(BookOf(doc)), doc.bounds, e)
    ensures e.Recalculate? && !thrown ==> forall a :: a in doc.cells && doc.cells[a].FormulaAt? ==>
      Correct(doc.cells, e.clock, a)
    ensures fresh(Objects(doc.cells) - old(Objects(doc.cells)))
  {
    if e.Recalculate? {
      thrown := doc.Calculate(e.clock, e.mode);
    } else {
      thrown := Enter(doc, e);
    }
  }

  method Enter(doc: Document, e: Edit) returns (thrown: bool)
    requires doc.Valid() && e.WellFormed() && !e.Recalculate?
    modifies doc, doc.tracker
    ensures doc.Valid()
    ensures BookOf(doc) == Step(old(BookOf(doc)), doc.bounds, e)
    ensures thrown <==> Throws(old(BookOf(doc)), doc.bounds, e)
    ensures fresh(Objects(doc.cells) - old(Objects(doc.cells)))
  {
    match e {
      case SetValue(a, v) => thrown := doc.SetValueCell(a, v);
      case Clear(a) => thrown := doc.EmptyCell(a);
      case SetFormula(a, f) => thrown := doc.SetFormulaCell(a, f);
    }
  }

  /** Runs a history from an empty document and recalculates at its end, each
      time on one thread or on several.  The last recalculation throws exactly
      when the circularity check of a stale cell steps outside of the workbook;
      otherwise the results depend on the final sheet alone, and are its
      meaning. */
  method Replay(edits: seq<Edit>, bounds: Bounds, clock: Clock, mode: Mode) returns (doc: Document, thrown: bool)
    requires bounds.Valid() && Runnable(edits, bounds)
    requires MayRecalculate(After(edits, bounds)) && Fits(After(edits, bounds).sheet, clock, mode)
    ensures doc.Valid()
    ensures BookOf(doc) == Step(After(edits, bounds), bounds, Recalculate(clock, mode))
    ensures thrown <==> CannotRecalculate(After(edits, bounds), bounds)
    ensures !thrown ==> forall a :: a in doc.cells && doc.cells[a].FormulaAt? ==>
                          && doc.cells[a].cell.result == Some(Meaning(After(edits, bounds).sheet, clock, a))
                          && doc.cells[a].cell.circularSafe == !Circular(After(edits, bounds).sheet, a)
  {
    doc := new Document(bounds);
    for i := 0 to |edits|
      invariant doc.Valid() && doc.bounds == bounds && fresh(doc) && fresh(doc.tracker) && fresh(Objects(doc.cells))
      invariant BookOf(doc) == After(edits[..i], bounds)
    {
      assert edits[..i + 1][..i] == edits[..i];
      var t := Perform(doc, edits[i]);
    }
    assert edits[..|edits|] == edits;
    thrown := Perform(doc, Recalculate(clock, mode));
    assert View(doc.cells) == After(edits, bounds).sheet;
  }
}
