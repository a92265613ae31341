/** The document: edits that keep the listener relation, and the partial
    recalculation that brings every formula cell up to date. */
module Document {
  import opened Address
  import Graph
  import opened DepthFirstSearch
  import opened DirtyCellTracker
  import opened Recalculation
  import opened SheetTracking
  import opened Calculation
  import opened Registration
  import opened SortedCalculation

  /** Cells that are not stale do not depend on the clock; any will do. */
  ghost const STILL: Clock := _ => 0

  /** Formula cells with stale results aside, everything is up to date. */
  ghost predicate FreshCorrect(cells: Store, modified: set<AbsAddress>, added: set<AbsAddress>)
    reads Objects(cells)
  {
    forall a :: a in cells && cells[a].FormulaAt? && !Stale(View(cells), modified, added, a) ==>
      Correct(cells, STILL, a)
  }

  /** The circularity check of some stale cell steps outside of the workbook. */
  ghost predicate StaleStepsOutside(s: Sheet, bounds: Bounds, modified: set<AbsAddress>, added: set<AbsAddress>) {
    exists a :: Stale(s, modified, added, a) && StepsOutside(s, bounds, a)
  }

  lemma ListeningsNameTheirCell(a: AbsAddress, f: Formula)
    ensures forall t :: t in FormulaListenings(a, f) ==> t.src == Cell(a)
  {
  }

  /** Taking a cell out takes out exactly what its formula stated. */
  lemma RelationWithout(s: Sheet, a: AbsAddress)
    requires a in s
    ensures SheetRelation(s - {a}) == SheetRelation(s) - (if IsFormula(s, a) then FormulaListenings(a, s[a].f) else {})
    ensures VolatileCells(s - {a}) == VolatileCells(s) - {Cell(a)}
  {
    var s' := s - {a};
    forall t
      ensures t in SheetRelation(s') <==>
        t in SheetRelation(s) - (if IsFormula(s, a) then FormulaListenings(a, s[a].f) else {})
    {
      if t in SheetRelation(s') {
        var b :| b in s' && IsFormula(s', b) && t in FormulaListenings(b, s'[b].f);
        ListeningsNameTheirCell(b, s'[b].f);
        assert IsFormula(s, b);
        if IsFormula(s, a) {
          ListeningsNameTheirCell(a, s[a].f);
        }
      }
      if t in SheetRelation(s) {
        var b :| b in s && IsFormula(s, b) && t in FormulaListenings(b, s[b].f);
        if b != a {
          assert IsFormula(s', b);
        }
      }
    }
    forall r
      ensures r in VolatileCells(s') <==> r in VolatileCells(s) - {Cell(a)}
    {
      if r in VolatileCells(s') {
        var b :| b in s' && IsVolatile(s', b) && r == Cell(b);
        assert IsVolatile(s, b);
      }
      if r in VolatileCells(s) && r != Cell(a) {
        var b :| b in s && IsVolatile(s, b) && r == Cell(b);
        assert IsVolatile(s', b);
      }
    }
  }

  /** Storing new content at an empty position adds exactly what it states. */
  lemma RelationWith(s: Sheet, a: AbsAddress, c: Content)
    requires a !in s
    ensures SheetRelation(s[a := c]) == SheetRelation(s) + (if c.Computed? then FormulaListenings(a, c.f) else {})
    ensures VolatileCells(s[a := c]) == VolatileCells(s) + (if c.Computed? && c.f.isVolatile then {Cell(a)} else {})
  {
    var s' := s[a := c];
    assert s' - {a} == s;
    RelationWithout(s', a);
    if c.Computed? {
      forall t | t in FormulaListenings(a, c.f)
        ensures t in SheetRelation(s')
      {
        assert IsFormula(s', a);
      }
    }
    if c.Computed? && c.f.isVolatile {
      assert IsVolatile(s', a);
      assert Cell(a) in VolatileCells(s');
    }
    if Cell(a) in VolatileCells(s') {
      var b :| b in s' && IsVolatile(s', b) && Cell(a) == Cell(b);
    }
  }

  lemma RelationReplaced(s: Sheet, a: AbsAddress, c: Content)
    ensures SheetRelation(s[a := c]) == SheetRelation(s - {a}) + (if c.Computed? then FormulaListenings(a, c.f) else {})
    ensures VolatileCells(s[a := c]) == VolatileCells(s - {a}) +
      (if c.Computed? && c.f.isVolatile then {Cell(a)} else {})
  {
    assert (s - {a})[a := c] == s[a := c];
    RelationWith(s - {a}, a, c);
  }

  lemma ViewReplaced(cells: Store, a: AbsAddress, c: Stored)
    ensures View(cells[a := c]) ==
      View(cells)[a := match c case Raw(v) => Literal(v) case FormulaAt(fc) => Computed(fc.formula)]
  {
  }

  function ContentOf(c: Stored): Content
  {
    match c case Raw(v) => Literal(v) case FormulaAt(fc) => Computed(fc.formula)
  }

  /** The positions that edits refuse: rows, columns and sheets count from 0. */
  lemma RefusedExactly(a: AbsAddress, bounds: Bounds)
    ensures !bounds.Has(a) <==>
      || a.sheet < 0 || a.row < 0 || a.column < 0
      || a.sheet >= bounds.sheets || a.row >= bounds.rows || a.column >= bounds.columns
  {
  }

  /** The relation of the sheet once c is stored at a. */
  lemma StoredRelation(cells: Store, a: AbsAddress, c: Stored)
    ensures View(cells[a := c]) == View(cells)[a := ContentOf(c)]
    ensures SheetRelation(View(cells[a := c])) ==
      SheetRelation(View(cells) - {a}) + (if c.FormulaAt? then FormulaListenings(a, c.cell.formula) else {})
    ensures VolatileCells(View(cells[a := c])) ==
      VolatileCells(View(cells) - {a}) + (if c.FormulaAt? && c.cell.formula.isVolatile then {Cell(a)} else {})
  {
    ViewReplaced(cells, a, c);
    RelationReplaced(View(cells), a, ContentOf(c));
  }

  lemma OneMoreFormula(cells: Store, a: AbsAddress, fc: FormulaCell)
    requires OneCellEach(cells) && fc !in Objects(cells) && fc.formula.WellFormed()
    ensures OneCellEach(cells[a := FormulaAt(fc)])
  {
  }

  lemma OneMoreValue(cells: Store, a: AbsAddress, v: Value)
    requires OneCellEach(cells)
    ensures OneCellEach(cells[a := Raw(v)])
  {
  }

  lemma OneMoreCell(addrs: set<AbsAddress>, a: AbsAddress)
    ensures Cells(addrs + {a}) == Cells(addrs) + {Cell(a)}
  {
    assert forall r :: r in Cells(addrs + {a}) <==> r in Cells(addrs) || r == Cell(a);
  }

  class Document {
    var cells: Store
    const tracker: Tracker
    const bounds: Bounds
    var modifiedCells: set<AbsRange>
    var modifiedFormulaCells: set<AbsRange>
    ghost var modified: set<AbsAddress>
    ghost var added: set<AbsAddress>

    ghost predicate Valid()
      reads this, tracker, Objects(cells)
    {
      && OneCellEach(cells)
      && tracker.Valid()
      && tracker.Relation() == SheetRelation(View(cells))
      && tracker.volatileCells == VolatileCells(View(cells))
      && modifiedCells == Cells(modified)
      && modifiedFormulaCells == Cells(added)
      && FreshCorrect(cells, modified, added)
      && bounds.Valid() && forall a :: a in cells.Keys + modified + added ==> bounds.Has(a)
    }

    /** Nothing stored or recorded has changed. */
    ghost predicate Unchanged(cells': Store, modified': set<AbsAddress>, added': set<AbsAddress>)
      reads this
    {
      cells == cells' && modified == modified' && added == added'
    }

    constructor (bounds: Bounds)
      requires bounds.Valid()
      ensures Valid() && cells == map[] && modified == {} && added == {}
      ensures fresh(tracker) && this.bounds == bounds
    {
      this.bounds := bounds;
      cells := map[];
      tracker := new Tracker();
      modifiedCells, modifiedFormulaCells := {}, {};
      modified, added := {}, {};
    }

    /** Removes the formula cell at a position, if any, from the tracker; the
        tracker then holds what the sheet without that position states. */
    method Unregister(addr: AbsAddress)
      requires Valid() && bounds.Has(addr)
      modifies tracker
      ensures tracker.Valid()
      ensures tracker.Relation() == SheetRelation(View(cells) - {addr})
      ensures tracker.volatileCells == VolatileCells(View(cells) - {addr})
    {
      ghost var s := View(cells);
      if addr in cells {
        RelationWithout(s, addr);
        if cells[addr].FormulaAt? {
          UnregisterWellFormed(tracker, addr, cells[addr].cell.formula);
        } else {
          assert forall r :: r in VolatileCells(s) ==> r != Cell(addr);
        }
      } else {
        assert s - {addr} == s;
      }
    }

    /** Sets a numeric, string or boolean cell.  A position outside of the
        workbook is refused by an exception, with nothing changed. */
    method SetValueCell(addr: AbsAddress, v: Value) returns (thrown: bool)
      requires Valid() && !v.Error?
      modifies this, tracker
      ensures Valid() && (thrown <==> !bounds.Has(addr))
      ensures thrown ==> Unchanged(old(cells), old(modified), old(added))
      ensures !thrown ==> View(cells) == old(View(cells))[addr := Literal(v)]
      ensures !thrown ==> modified == old(modified) + {addr} && added == old(added)
      ensures forall a :: a in cells && a != addr ==> a in old(cells) && cells[a] == old(cells)[a]
    {
      thrown := !bounds.Has(addr);
      if thrown {
        return;
      }
      ghost var s := View(cells);
      Unregister(addr);
      OneMoreValue(cells, addr, v);
      StoredRelation(cells, addr, Raw(v));
      cells := cells[addr := Raw(v)];
      modifiedCells := modifiedCells + {Cell(addr)};
      OneMoreCell(modified, addr);
      modified := modified + {addr};
      StaysCorrect(old(cells), cells, addr, old(modified), old(added), modified, added);
    }

    method EmptyCell(addr: AbsAddress) returns (thrown: bool)
      requires Valid()
      modifies this, tracker
      ensures Valid() && (thrown <==> !bounds.Has(addr))
      ensures thrown ==> Unchanged(old(cells), old(modified), old(added))
      ensures !thrown ==> View(cells) == old(View(cells)) - {addr}
      ensures !thrown ==> modified == old(modified) + {addr} && added == old(added)
      ensures forall a :: a in cells && a != addr ==> a in old(cells) && cells[a] == old(cells)[a]
    {
      thrown := !bounds.Has(addr);
      if thrown {
        return;
      }
      ghost var s := View(cells);
      Unregister(addr);
      cells := cells - {addr};
      assert View(cells) == s - {addr};
      modifiedCells := modifiedCells + {Cell(addr)};
      OneMoreCell(modified, addr);
      modified := modified + {addr};
      StaysCorrect(old(cells), cells, addr, old(modified), old(added), modified, added);
    }

    method SetFormulaCell(addr: AbsAddress, f: Formula) returns (thrown: bool)
      requires Valid() && f.WellFormed()
      modifies this, tracker
      ensures Valid() && (thrown <==> !bounds.Has(addr))
      ensures thrown ==> Unchanged(old(cells), old(modified), old(added))
      ensures !thrown ==> View(cells) == old(View(cells))[addr := Computed(f)]
      ensures !thrown ==> modified == old(modified) && added == old(added) + {addr}
      ensures forall a :: a in cells && a != addr ==> a in old(cells) && cells[a] == old(cells)[a]
      ensures !thrown ==> fresh(cells[addr].cell)
    {
      thrown := !bounds.Has(addr);
      if thrown {
        return;
      }
      Unregister(addr);
      var fc := new FormulaCell(f);
      ViewReplaced(cells, addr, FormulaAt(fc));
      EnterFormulaCell(addr, fc);
      modifiedFormulaCells := modifiedFormulaCells + {Cell(addr)};
      OneMoreCell(added, addr);
      added := added + {addr};
    }

    /** Stores and registers a formula cell at a position the tracker no longer
        knows of. */
    method EnterFormulaCell(addr: AbsAddress, fc: FormulaCell)
      requires OneCellEach(cells) && FreshCorrect(cells, modified, added)
      requires tracker.Valid() && bounds.Valid() && bounds.Has(addr) && fc !in Objects(cells) && fc.formula.WellFormed()
      requires tracker.Relation() == SheetRelation(View(cells) - {addr})
      requires tracker.volatileCells == VolatileCells(View(cells) - {addr})
      modifies this`cells, tracker
      ensures cells == old(cells)[addr := FormulaAt(fc)] && OneCellEach(cells)
      ensures tracker.Valid()
      ensures tracker.Relation() == SheetRelation(View(cells)) && tracker.volatileCells == VolatileCells(View(cells))
      ensures FreshCorrect(cells, modified, added + {addr})
    {
      OneMoreFormula(cells, addr, fc);
      StoredRelation(cells, addr, FormulaAt(fc));
      cells := cells[addr := FormulaAt(fc)];
      StaysCorrect(old(cells), cells, addr, modified, added, modified, added + {addr});
      RegisterWellFormed(tracker, bounds, addr, fc.formula);
    }

    /** The stale cells, each once, with references first. */
    method DirtyEntries() returns (entries: seq<AbsAddress>)
      requires Valid()
      ensures Distinct(entries) && ReferencesFirst(View(cells), entries)
      ensures forall a :: a in entries <==> Stale(View(cells), modified, added, a)
    {
      var sorted;
      ghost var recorded;
      sorted, recorded := tracker.QueryAndSortDirtyCells(modifiedCells, modifiedFormulaCells);
      SortedEntries(View(cells), modified, added, sorted);
      entries := FirstCells(sorted);
    }

    /** Recomputes the stale cells and touches no other, on one thread or on
        several; afterwards every formula cell has the result and the marking
        the sheet gives it from scratch.  An exception escapes, and everything
        stays recorded as modified, exactly when the circularity check of some
        stale cell steps outside of the workbook. */
    method Calculate(clock: Clock, mode: Mode) returns (thrown: bool)
      requires Valid() && Fits(View(cells), clock, mode)
      requires forall a :: a in added ==> a in cells && cells[a].FormulaAt?
      modifies this, Objects(cells)
      ensures Valid() && cells == old(cells)
      ensures thrown <==> StaleStepsOutside(View(cells), bounds, old(modified), old(added))
      ensures thrown ==> Unchanged(old(cells), old(modified), old(added))
      ensures !thrown ==> modified == {} && added == {}
      ensures !thrown ==> forall a :: a in cells && cells[a].FormulaAt? ==> Correct(cells, clock, a)
      ensures forall a :: a in cells && cells[a].FormulaAt? && !Stale(View(cells), old(modified), old(added), a) ==>
                            unchanged(cells[a].cell)
    {
      var entries := DirtyEntries();
      StaleAreFormulas(cells, modified, added, entries);
      StaleEntryStepsOutside(View(cells), bounds, modified, added, entries);
      thrown := Recompute(entries, clock, mode);
      if !thrown {
        AllFresh(cells, clock);
        ForgetModified();
      }
    }

    method ForgetModified()
      requires Valid() && FreshCorrect(cells, {}, {})
      modifies this
      ensures Valid() && cells == old(cells) && modified == {} && added == {}
    {
      modifiedCells, modifiedFormulaCells := {}, {};
      modified, added := {}, {};
    }

    method Recompute(entries: seq<AbsAddress>, clock: Clock, mode: Mode) returns (thrown: bool)
      requires Valid() && Fits(View(cells), clock, mode)
      requires Distinct(entries) && ReferencesFirst(View(cells), entries) && AllFormulas(cells, entries)
      requires forall a :: a in entries <==> Stale(View(cells), modified, added, a)
      modifies EntryObjects(cells, entries)
      ensures Valid()
      ensures thrown <==> exists k :: 0 <= k < |entries| && StepsOutside(View(cells), bounds, entries[k])
      ensures !thrown ==> forall a :: a in cells && cells[a].FormulaAt? ==> Correct(cells, clock, a)
      ensures forall a :: a in cells && cells[a].FormulaAt? && a !in entries ==> unchanged(cells[a].cell)
    {
      OthersAreCorrect(cells, modified, added, entries, clock);
      OthersAreNoEntries(cells, entries);
      thrown := CalculateSortedCells(cells, entries, bounds, clock, mode);
    }
  }

  lemma StaleEntryStepsOutside(s: Sheet, bounds: Bounds, modified: set<AbsAddress>, added: set<AbsAddress>,
          entries: seq<AbsAddress>)
    requires forall a :: a in entries <==> Stale(s, modified, added, a)
    ensures StaleStepsOutside(s, bounds, modified, added) <==>
            exists k :: 0 <= k < |entries| && StepsOutside(s, bounds, entries[k])
  {
  }

  lemma StaleAreFormulas(cells: Store, modified: set<AbsAddress>, added: set<AbsAddress>, entries: seq<AbsAddress>)
    requires forall a :: a in entries <==> Stale(View(cells), modified, added, a)
    requires forall a :: a in added ==> a in cells && cells[a].FormulaAt?
    ensures AllFormulas(cells, entries)
  {
    forall a | a in entries
      ensures a in cells && cells[a].FormulaAt?
    {
      StaleIsFormula(View(cells), modified, added, a);
    }
  }

  lemma OthersAreNoEntries(cells: Store, entries: seq<AbsAddress>)
    requires OneCellEach(cells) && AllFormulas(cells, entries)
    ensures forall a :: a in cells && cells[a].FormulaAt? && a !in entries ==>
      cells[a].cell !in EntryObjects(cells, entries)
  {
  }

  /** Cells that are not stale are right at any time. */
  lemma OthersAreCorrect(cells: Store, modified: set<AbsAddress>, added: set<AbsAddress>, entries: seq<AbsAddress>,
          clock: Clock)
    requires FreshCorrect(cells, modified, added)
    requires forall a :: a in entries <==> Stale(View(cells), modified, added, a)
    ensures OthersCorrect(cells, clock, entries)
  {
    var s := View(cells);
    forall a | a in cells && cells[a].FormulaAt? && a !in entries
      ensures Correct(cells, clock, a)
    {
      if Stale(s, {}, {}, a) {
        FewerStale(s, modified, added, a);
      }
      ClockKeepsMeaning(s, STILL, clock, a);
    }
  }

  lemma AllFresh(cells: Store, clock: Clock)
    requires forall a :: a in cells && cells[a].FormulaAt? ==> Correct(cells, clock, a)
    ensures FreshCorrect(cells, {}, {})
  {
    forall a | a in cells && cells[a].FormulaAt? && !Stale(View(cells), {}, {}, a)
      ensures Correct(cells, STILL, a)
    {
      ClockKeepsMeaning(View(cells), STILL, clock, a);
    }
  }

  /** Cells that an edit at addr does not make stale keep their status. */
  lemma StaysCorrect(before: Store, after: Store, addr: AbsAddress, modified: set<AbsAddress>, added: set<AbsAddress>,
                     modified': set<AbsAddress>, added': set<AbsAddress>)
    requires FreshCorrect(before, modified, added)
    requires forall a :: a != addr ==> (a in before <==> a in after) && (a in before ==> before[a] == after[a])
    requires modified <= modified' && added <= added' && addr in modified' + added'
    requires addr in added' || !(addr in after && after[addr].FormulaAt?)
    ensures FreshCorrect(after, modified', added')
  {
    var s, s' := View(before), View(after);
    forall a | a in after && after[a].FormulaAt? && !Stale(s', modified', added', a)
      ensures Correct(after, STILL, a)
    {
      if Stale(s, modified, added, a) {
        EditKeepsStale(s, s', addr, modified, added, modified', added', a);
      }
      EditKeepsMeaning(s, s', STILL, addr, a);
    }
  }

  lemma StaleIsFormula(s: Sheet, modified: set<AbsAddress>, added: set<AbsAddress>, a: AbsAddress)
    requires Stale(s, modified, added, a)
    ensures a in added || IsFormula(s, a)
  {
    if a !in added && !IsVolatile(s, a) {
      var m :| (m in modified || m in added || IsVolatile(s, m)) && Graph.Reach(DependsOn(s), a, m);
      var b := Graph.FirstStep(DependsOn(s), a, m);
    }
  }

  lemma FewerStale(s: Sheet, modified: set<AbsAddress>, added: set<AbsAddress>, a: AbsAddress)
    requires Stale(s, {}, {}, a)
    ensures Stale(s, modified, added, a)
  {
  }
}
