/** What the tracker has to hold for a sheet, and how its queries read in
    terms of references between cells. */
module SheetTracking {
  import opened Address
  import opened Graph
  import opened DepthFirstSearch
  import opened DirtyCellTracker
  import opened Recalculation

  ghost function FormulaListenings(a: AbsAddress, f: Formula): set<Listening> {
    set i, t | 0 <= i < |f.refs| && t in Listenings(Cell(a), f.refs[i]) :: t
  }

  /** One listening per sheet of each reference of each stored formula. */
  ghost function SheetRelation(s: Sheet): set<Listening> {
    set a, t | a in s && IsFormula(s, a) && t in FormulaListenings(a, s[a].f) :: t
  }

  ghost function VolatileCells(s: Sheet): set<AbsRange> {
    set a | a in s && IsVolatile(s, a) :: Cell(a)
  }

  ghost function Cells(addrs: set<AbsAddress>): set<AbsRange> {
    set a | a in addrs :: Cell(a)
  }

  lemma ListensTo(s: Sheet, b: AbsAddress, r: AbsRange)
    ensures Listens(SheetRelation(s))(Cell(b), r) <==> r == Cell(r.first) && DependsOn(s)(r.first, b)
  {
    var rel := SheetRelation(s);
    if r in Affected(rel, Cell(b)) {
      var t :| t in rel && t.sheet == b.sheet && t.rect.Overlaps(Extent(Cell(b))) && t.src == r;
      var a :| a in s && IsFormula(s, a) && t in FormulaListenings(a, s[a].f);
      var i :| 0 <= i < |s[a].f.refs| && t in Listenings(Cell(a), s[a].f.refs[i]);
      assert s[a].f.refs[i].Contains(b);
    }
    if r == Cell(r.first) && DependsOn(s)(r.first, b) {
      var f := s[r.first].f;
      var i :| 0 <= i < |f.refs| && f.refs[i].Contains(b);
      var t := Listening(b.sheet, Extent(f.refs[i]), r);
      assert t in Listenings(r, f.refs[i]);
      assert t in FormulaListenings(r.first, f);
      assert t in rel;
    }
  }

  ghost predicate IsCell(r: AbsRange) {
    r == Cell(r.first)
  }

  ghost function Feeds(s: Sheet): Edges<AbsAddress> {
    (b, a) => DependsOn(s)(a, b)
  }

  /** A chain of listeners starting at a cell is a chain of references ending there. */
  lemma ListenChain(s: Sheet, b: AbsAddress, r: AbsRange)
    requires Reach(Listens(SheetRelation(s)), Cell(b), r)
    ensures IsCell(r) && Reach(DependsOn(s), r.first, b)
  {
    var g := Listens(SheetRelation(s));
    forall x, y | IsCell(x) && g(x, y)
      ensures IsCell(y) && Feeds(s)(x.first, y.first)
    {
      ListensTo(s, x.first, y);
    }
    var p :| Connects(g, p, Cell(b), r);
    ReachImage(g, Feeds(s), (x: AbsRange) => IsCell(x), (x: AbsRange) => x.first, p, Cell(b), r);
    ReachReversed(Feeds(s), DependsOn(s), b, r.first);
  }

  lemma ReferenceChain(s: Sheet, b: AbsAddress, a: AbsAddress)
    requires Reach(DependsOn(s), a, b)
    ensures Reach(Listens(SheetRelation(s)), Cell(b), Cell(a))
  {
    var g := Listens(SheetRelation(s));
    ReachReversed(DependsOn(s), Feeds(s), a, b);
    forall x, y | Feeds(s)(x, y)
      ensures g(Cell(x), Cell(y))
    {
      ListensTo(s, x, Cell(y));
    }
    var p :| Connects(Feeds(s), p, b, a);
    ReachImage(Feeds(s), g, (x: AbsAddress) => true, (x: AbsAddress) => Cell(x), p, b, a);
  }

  /** The dirty ranges of the tracker are the stale cells of the sheet. */
  lemma DirtyIsStale(s: Sheet, modified: set<AbsAddress>, added: set<AbsAddress>, r: AbsRange)
    ensures IsDirty(SheetRelation(s), Cells(modified), VolatileCells(s), Cells(added), r) <==>
            IsCell(r) && Stale(s, modified, added, r.first)
  {
    var rel, from := SheetRelation(s), Cells(modified) + VolatileCells(s) + Cells(added);
    if IsDirty(rel, Cells(modified), VolatileCells(s), Cells(added), r) {
      if r !in VolatileCells(s) && r !in Cells(added) {
        var m :| m in from && Reach(Listens(rel), m, r);
        ListenChain(s, m.first, r);
      }
    }
    if IsCell(r) && Stale(s, modified, added, r.first) {
      if r.first in added {
        assert r in Cells(added);
      } else if !IsVolatile(s, r.first) {
        var m :| (m in modified || m in added || IsVolatile(s, m)) && Reach(DependsOn(s), r.first, m);
        ReferenceChain(s, m, r.first);
        assert Cell(m) in from;
      }
    }
  }

  /** A cell comes after every listed cell it refers to, unless the two are on
      a reference cycle. */
  ghost predicate ReferencesFirst(s: Sheet, entries: seq<AbsAddress>) {
    forall k, b :: 0 <= k < |entries| && b in entries && DependsOn(s)(entries[k], b) ==>
      b in entries[..k] || Reach(DependsOn(s), b, entries[k])
  }

  function FirstCells(sorted: seq<AbsRange>): (entries: seq<AbsAddress>)
    ensures |entries| == |sorted| && forall k :: 0 <= k < |sorted| ==> entries[k] == sorted[k].first
  {
    seq(|sorted|, k requires 0 <= k < |sorted| => sorted[k].first)
  }

  lemma SortedEntries(s: Sheet, modified: set<AbsAddress>, added: set<AbsAddress>, sorted: seq<AbsRange>)
    requires Distinct(sorted)
    requires forall r :: r in sorted <==> IsDirty(SheetRelation(s), Cells(modified), VolatileCells(s), Cells(added), r)
    requires ListenedFirst(SheetRelation(s), sorted)
    ensures Distinct(FirstCells(sorted))
    ensures forall a :: a in FirstCells(sorted) <==> Stale(s, modified, added, a)
    ensures ReferencesFirst(s, FirstCells(sorted))
  {
    var entries := FirstCells(sorted);
    forall r
      ensures r in sorted <==> IsCell(r) && Stale(s, modified, added, r.first)
    {
      DirtyIsStale(s, modified, added, r);
    }
    forall a
      ensures a in entries <==> Stale(s, modified, added, a)
    {
      if a in entries {
        var k :| 0 <= k < |entries| && entries[k] == a;
        assert sorted[k] in sorted;
      }
      if Stale(s, modified, added, a) {
        assert IsCell(Cell(a));
        var k :| 0 <= k < |sorted| && sorted[k] == Cell(a);
        assert entries[k] == a;
      }
    }
    assert forall k :: 0 <= k < |sorted| ==> sorted[k] in sorted && sorted[k] == Cell(entries[k]);
    forall k, b | 0 <= k < |entries| && b in entries && DependsOn(s)(entries[k], b)
      ensures b in entries[..k] || Reach(DependsOn(s), b, entries[k])
    {
      ListensTo(s, b, sorted[k]);
      assert IsCell(Cell(b)) && Cell(b) in sorted;
      if Cell(b) in sorted[..k] {
        var j :| 0 <= j < k && sorted[j] == Cell(b);
        assert entries[..k][j] == b;
      } else {
        ListenChain(s, entries[k], Cell(b));
      }
    }
  }
}
