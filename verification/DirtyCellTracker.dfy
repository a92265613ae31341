/** The listener relation between formula cells and the ranges they refer to,
    and the queries for the cells that a modification makes dirty. */
module DirtyCellTracker {
  import opened Address
  import opened Graph
  import opened DepthFirstSearch

  /** On this sheet, src listens to every cell of rect. */
  datatype Listening = Listening(sheet: int, rect: Rect, src: AbsRange)

  datatype TrackerError = InvalidSource | InvalidDestination | UnsetDestination
  datatype Outcome = Done | Rejected(error: TrackerError)

  /** The argument check shared by add and remove. */
  function CheckArguments(src: AbsRange, dest: AbsRange): Outcome {
    if !src.Valid() || src.first.sheet != src.last.sheet then Rejected(InvalidSource)
    else if !dest.Valid() then Rejected(InvalidDestination)
    else if dest.AllColumns() || dest.AllRows() then Rejected(UnsetDestination)
    else Done
  }

  /** The listenings stated by one reference from src to dest. */
  ghost function Listenings(src: AbsRange, dest: AbsRange): set<Listening> {
    set s | dest.first.sheet <= s <= dest.last.sheet :: Listening(s, Extent(dest), src)
  }

  /** The ranges that listen to some cell of the given range; only the sheet
      of its first corner is looked at. */
  ghost function Affected(rel: set<Listening>, range: AbsRange): set<AbsRange> {
    set t | t in rel && t.sheet == range.first.sheet && t.rect.Overlaps(Extent(range)) :: t.src
  }

  /** The rectangle covers the position b. */
  predicate Encloses(rect: Rect, b: AbsAddress) {
    rect.firstRow <= b.row <= rect.lastRow && rect.firstColumn <= b.column <= rect.lastColumn
  }

  predicate Ordered(rect: Rect) {
    rect.firstRow <= rect.lastRow && rect.firstColumn <= rect.lastColumn
  }

  /** A listener is affected by a range exactly when it listens to some cell of
      the range on its first sheet. */
  lemma AffectedExactly(rel: set<Listening>, range: AbsRange, r: AbsRange)
    requires Ordered(Extent(range)) && forall t :: t in rel ==> Ordered(t.rect)
    ensures r in Affected(rel, range) <==> exists t: Listening, b: AbsAddress ::
      && t in rel && t.src == r && t.sheet == b.sheet == range.first.sheet && Encloses(t.rect, b)
      && range.first.row <= b.row <= range.last.row && range.first.column <= b.column <= range.last.column
  {
    if r in Affected(rel, range) {
      var t :| t in rel && t.sheet == range.first.sheet && t.rect.Overlaps(Extent(range)) && t.src == r;
      var b := AbsAddress(t.sheet, Max(t.rect.firstRow, range.first.row), Max(t.rect.firstColumn, range.first.column));
      assert Encloses(t.rect, b);
    }
  }

  ghost function Listens(rel: set<Listening>): Edges<AbsRange> {
    (m, r) => r in Affected(rel, m)
  }

  ghost function Sources(rel: set<Listening>): set<AbsRange> {
    set t | t in rel :: t.src
  }

  /** Reached from some member of the set in one or more listener steps. */
  ghost predicate ReachedFrom(rel: set<Listening>, from: set<AbsRange>, c: AbsRange) {
    exists m :: m in from && Reach(Listens(rel), m, c)
  }

  /** Everything that is dirty once the given ranges have been modified. */
  ghost predicate IsDirty(rel: set<Listening>, modified: set<AbsRange>, vol: set<AbsRange>, dirty: set<AbsRange>,
          c: AbsRange) {
    c in vol || c in dirty || ReachedFrom(rel, modified + vol + dirty, c)
  }

  /** The dirty ranges are the least set that holds the volatile and the given
      dirty ones and is closed under listening. */
  lemma DirtyIsLeast(rel: set<Listening>, modified: set<AbsRange>, vol: set<AbsRange>, dirty: set<AbsRange>,
          s: set<AbsRange>, c: AbsRange)
    requires vol + dirty <= s
    requires forall m, r :: (m in s || m in modified) && r in Affected(rel, m) ==> r in s
    requires IsDirty(rel, modified, vol, dirty, c)
    ensures c in s
  {
    if c !in vol + dirty {
      var m :| m in modified + vol + dirty && Reach(Listens(rel), m, c);
      var p :| Connects(Listens(rel), p, m, c);
      assert Listens(rel)(p[0], p[1]);
      ReachStaysInside(Listens(rel), s, p, m, c);
    }
  }

  lemma DirtyIsClosed(rel: set<Listening>, modified: set<AbsRange>, vol: set<AbsRange>, dirty: set<AbsRange>,
          m: AbsRange, r: AbsRange)
    requires m in modified || IsDirty(rel, modified, vol, dirty, m)
    requires r in Affected(rel, m)
    ensures IsDirty(rel, modified, vol, dirty, r)
  {
    var from := modified + vol + dirty;
    var seed := if m in from then m else var seed :| seed in from && Reach(Listens(rel), seed, m); seed;
    ReachSnoc(Listens(rel), seed, m, r);
  }

  /** Everything that listens to some member of the set. */
  ghost function AffectedByAny(rel: set<Listening>, s: set<AbsRange>): set<AbsRange> {
    set m, r | m in s && r in Affected(rel, m) :: r
  }

  lemma AffectedByMore(rel: set<Listening>, s: set<AbsRange>, m: AbsRange)
    ensures AffectedByAny(rel, s + {m}) == AffectedByAny(rel, s) + Affected(rel, m)
  {
    forall r
      ensures r in AffectedByAny(rel, s + {m}) <==> r in AffectedByAny(rel, s) + Affected(rel, m)
    {
      if r in Affected(rel, m) {
        assert m in s + {m};
      }
      if r in AffectedByAny(rel, s) {
        var n :| n in s && r in Affected(rel, n);
        assert n in s + {m};
      }
    }
  }

  ghost predicate AllDirty(rel: set<Listening>, modified: set<AbsRange>, vol: set<AbsRange>, dirty: set<AbsRange>,
          s: set<AbsRange>) {
    forall c :: c in s ==> IsDirty(rel, modified, vol, dirty, c)
  }

  lemma AffectedAreDirty(rel: set<Listening>, modified: set<AbsRange>, vol: set<AbsRange>, dirty: set<AbsRange>,
          cur: set<AbsRange>)
    requires forall m :: m in cur ==> m in modified || IsDirty(rel, modified, vol, dirty, m)
    ensures AllDirty(rel, modified, vol, dirty, AffectedByAny(rel, cur))
  {
    forall c | c in AffectedByAny(rel, cur)
      ensures IsDirty(rel, modified, vol, dirty, c)
    {
      var m :| m in cur && c in Affected(rel, m);
      DirtyIsClosed(rel, modified, vol, dirty, m, c);
    }
  }

  /** The state of the work list: listeners of what is done have been found,
      and all else that was found is still to be worked off. */
  ghost predicate Worked(rel: set<Listening>, modified: set<AbsRange>, vol: set<AbsRange>, dirty: set<AbsRange>,
          found: set<AbsRange>, cur: set<AbsRange>, done: set<AbsRange>) {
    && AllDirty(rel, modified, vol, dirty, found)
    && done + cur == found + vol + dirty
    && forall m, r :: (m in done || m in modified) && r in Affected(rel, m) ==> r in found
  }

  lemma WorkedFurther(rel: set<Listening>, modified: set<AbsRange>, vol: set<AbsRange>, dirty: set<AbsRange>,
          found: set<AbsRange>, cur: set<AbsRange>, done: set<AbsRange>, more: set<AbsRange>)
    requires Worked(rel, modified, vol, dirty, found, cur, done) && more == found + AffectedByAny(rel, cur)
    ensures Worked(rel, modified, vol, dirty, more, more - found, done + cur)
    ensures more - found <= Sources(rel)
  {
    AffectedAreDirty(rel, modified, vol, dirty, cur);
  }

  lemma WorkedOff(rel: set<Listening>, modified: set<AbsRange>, vol: set<AbsRange>, dirty: set<AbsRange>,
          found: set<AbsRange>, done: set<AbsRange>)
    requires Worked(rel, modified, vol, dirty, found, {}, done)
    ensures done == found + vol + dirty && forall c :: c in done <==> IsDirty(rel, modified, vol, dirty, c)
  {
    forall c | IsDirty(rel, modified, vol, dirty, c)
      ensures c in done
    {
      DirtyIsLeast(rel, modified, vol, dirty, done, c);
    }
  }

  /** A dirty range comes after every dirty range it listens to, unless the two
      listen to each other through some chain. */
  ghost predicate ListenedFirst(rel: set<Listening>, s: seq<AbsRange>) {
    forall k, m :: 0 <= k < |s| && m in s && Listens(rel)(m, s[k]) ==> m in s[..k] || Reach(Listens(rel), s[k], m)
  }

  ghost function RelationOf(grids: seq<map<Rect, set<AbsRange>>>): set<Listening> {
    set i, rect, src | 0 <= i < |grids| && rect in grids[i] && src in grids[i][rect] :: Listening(i, rect, src)
  }

  lemma InRelation(grids: seq<map<Rect, set<AbsRange>>>, t: Listening)
    ensures t in RelationOf(grids) <==>
      0 <= t.sheet < |grids| && t.rect in grids[t.sheet] && t.src in grids[t.sheet][t.rect]
  {
  }

  class Tracker {
    var grids: seq<map<Rect, set<AbsRange>>>
    var volatileCells: set<AbsRange>

    /** No rectangle is kept without a listener. */
    ghost predicate Valid()
      reads this
    {
      forall i, rect :: 0 <= i < |grids| && rect in grids[i] ==> grids[i][rect] != {}
    }

    ghost function Relation(): set<Listening>
      reads this
    {
      RelationOf(grids)
    }

    constructor ()
      ensures Valid() && Relation() == {} && volatileCells == {}
    {
      grids := [];
      volatileCells := {};
    }

    method Add(src: AbsRange, dest: AbsRange) returns (r: Outcome)
      requires Valid()
      modifies this`grids
      ensures Valid()
      ensures r == CheckArguments(src, dest)
      ensures Relation() == if r.Done? then old(Relation()) + Listenings(src, dest) else old(Relation())
    {
      r := CheckArguments(src, dest);
      if r.Rejected? {
        return;
      }
      for sheet := dest.first.sheet to dest.last.sheet + 1
        invariant Valid()
        invariant forall t :: t in Relation() <==>
          t in old(Relation()) || (t in Listenings(src, dest) && t.sheet < sheet)
      {
        AddOnSheet(src, sheet, Extent(dest));
      }
    }

    method AddOnSheet(src: AbsRange, sheet: nat, searchBox: Rect)
      requires Valid()
      modifies this`grids
      ensures Valid()
      ensures Relation() == old(Relation()) + {Listening(sheet, searchBox, src)}
    {
      ghost var before := grids;
      if |grids| <= sheet {
        grids := grids + seq(sheet + 1 - |grids|, i => map[]);
      }
      var tree := grids[sheet];
      var listener := if searchBox in tree then tree[searchBox] + {src} else {src};
      grids := grids[sheet := tree[searchBox := listener]];
      forall t: Listening
        ensures t in Relation() <==> t in RelationOf(before) || t == Listening(sheet, searchBox, src)
      {
        InRelation(grids, t);
        InRelation(before, t);
      }
    }

    method Remove(src: AbsRange, dest: AbsRange) returns (r: Outcome)
      requires Valid()
      modifies this`grids
      ensures Valid()
      ensures r == CheckArguments(src, dest)
      ensures Relation() == if r.Done? then old(Relation()) - Listenings(src, dest) else old(Relation())
    {
      r := CheckArguments(src, dest);
      if r.Rejected? {
        return;
      }
      for sheet := dest.first.sheet to dest.last.sheet + 1
        invariant Valid()
        invariant forall t :: t in Relation() <==>
          t in old(Relation()) && !(t in Listenings(src, dest) && t.sheet < sheet)
      {
        RemoveOnSheet(src, sheet, Extent(dest));
      }
    }

    method RemoveOnSheet(src: AbsRange, sheet: nat, searchBox: Rect)
      requires Valid()
      modifies this`grids
      ensures Valid()
      ensures Relation() == old(Relation()) - {Listening(sheet, searchBox, src)}
    {
      ghost var before := grids;
      if sheet < |grids| && searchBox in grids[sheet] {
        var tree := grids[sheet];
        var listener := tree[searchBox] - {src};
        grids := grids[sheet := if listener == {} then tree - {searchBox} else tree[searchBox := listener]];
      }
      forall t: Listening
        ensures t in Relation() <==> t in RelationOf(before) && t != Listening(sheet, searchBox, src)
      {
        InRelation(grids, t);
        InRelation(before, t);
      }
    }

    method AddVolatile(pos: AbsRange)
      modifies this`volatileCells
      ensures volatileCells == old(volatileCells) + {pos}
    {
      volatileCells := volatileCells + {pos};
    }

    method RemoveVolatile(pos: AbsRange)
      modifies this`volatileCells
      ensures volatileCells == old(volatileCells) - {pos}
    {
      volatileCells := volatileCells - {pos};
    }

    method GetAffectedCellRanges(range: AbsRange) returns (ranges: set<AbsRange>)
      ensures ranges == Affected(Relation(), range)
    {
      if range.first.sheet < 0 || range.first.sheet >= |grids| {
        return {};
      }
      var grid := grids[range.first.sheet];
      var todo := grid.Keys;
      ranges := {};
      while todo != {}
        invariant todo <= grid.Keys
        invariant forall r :: r in ranges <==>
          exists rect :: rect in grid.Keys - todo && rect.Overlaps(Extent(range)) && r in grid[rect]
        decreases todo
      {
        var rect :| rect in todo;
        todo := todo - {rect};
        if rect.Overlaps(Extent(range)) {
          ranges := ranges + grid[rect];
        }
      }
      forall r
        ensures r in ranges <==> r in Affected(Relation(), range)
      {
        if r in ranges {
          var rect :| rect in grid.Keys && rect.Overlaps(Extent(range)) && r in grid[rect];
          assert Listening(range.first.sheet, rect, r) in Relation();
        }
      }
    }

    /** One round of the closure: everything listening to the current ranges
        becomes dirty, and what was not dirty before is looked at next. */
    method Spread(cur: set<AbsRange>, dirtyBefore: set<AbsRange>) returns (dirty: set<AbsRange>, next: set<AbsRange>)
      ensures dirty == dirtyBefore + AffectedByAny(Relation(), cur)
      ensures next == dirty - dirtyBefore
    {
      var todo := cur;
      dirty, next := dirtyBefore, {};
      while todo != {}
        invariant todo <= cur
        invariant dirty == dirtyBefore + AffectedByAny(Relation(), cur - todo)
        invariant next == dirty - dirtyBefore
        decreases todo
      {
        var mc :| mc in todo;
        AffectedByMore(Relation(), cur - todo, mc);
        assert cur - (todo - {mc}) == (cur - todo) + {mc};
        var affected := GetAffectedCellRanges(mc);
        next := next + (affected - dirty);
        dirty := dirty + affected;
        todo := todo - {mc};
      }
    }

    /** The same round, which also records who is a precedent of whom. */
    method RecordingSpread(cur: set<AbsRange>, dirtyBefore: set<AbsRange>, ghost done: set<AbsRange>,
            rels: Relations<AbsRange>)
      returns (dirty: set<AbsRange>, next: set<AbsRange>)
      requires forall r, m :: PrecedentEdges(rels.edges)(r, m) <==> m in done && r in Affected(Relation(), m)
      modifies rels
      ensures dirty == dirtyBefore + AffectedByAny(Relation(), cur)
      ensures next == dirty - dirtyBefore
      ensures forall r, m :: PrecedentEdges(rels.edges)(r, m) <==> m in done + cur && r in Affected(Relation(), m)
    {
      var todo := cur;
      dirty, next := dirtyBefore, {};
      while todo != {}
        invariant todo <= cur
        invariant dirty == dirtyBefore + AffectedByAny(Relation(), cur - todo)
        invariant next == dirty - dirtyBefore
        invariant forall r, m :: PrecedentEdges(rels.edges)(r, m) <==>
          (m in done || m in cur - todo) && r in Affected(Relation(), m)
        decreases todo
      {
        var mc :| mc in todo;
        AffectedByMore(Relation(), cur - todo, mc);
        assert cur - (todo - {mc}) == (cur - todo) + {mc};
        var affected := GetAffectedCellRanges(mc);
        RecordListeners(mc, affected, rels);
        next := next + (affected - dirty);
        dirty := dirty + affected;
        todo := todo - {mc};
      }
    }

    method RecordListeners(mc: AbsRange, affected: set<AbsRange>, rels: Relations<AbsRange>)
      modifies rels
      ensures forall r, m :: PrecedentEdges(rels.edges)(r, m) <==>
        PrecedentEdges(old(rels.edges))(r, m) || (m == mc && r in affected)
    {
      var rest := affected;
      while rest != {}
        invariant rest <= affected
        invariant forall r, m :: PrecedentEdges(rels.edges)(r, m) <==>
          PrecedentEdges(old(rels.edges))(r, m) || (m == mc && r in affected - rest)
        decreases rest
      {
        var r :| r in rest;
        rels.Insert(r, mc);
        rest := rest - {r};
      }
    }

    method QueryDirtyCells(modified: set<AbsRange>) returns (dirty: set<AbsRange>)
      requires Valid()
      ensures forall c :: c in dirty <==> IsDirty(Relation(), modified, volatileCells, {}, c)
    {
      ghost var rel := Relation();
      dirty := volatileCells;
      var cur := modified + volatileCells;
      while cur != {}
        invariant volatileCells <= dirty
        invariant forall c :: c in dirty ==> IsDirty(rel, modified, volatileCells, {}, c)
        invariant cur <= modified + dirty
        invariant forall m, r :: m in modified + dirty && m !in cur && r in Affected(rel, m) ==> r in dirty
        decreases Sources(rel) - dirty, cur
      {
        AffectedAreDirty(rel, modified, volatileCells, {}, cur);
        var next;
        dirty, next := Spread(cur, dirty);
        cur := next;
      }
      forall c | IsDirty(rel, modified, volatileCells, {}, c)
        ensures c in dirty
      {
        DirtyIsLeast(rel, modified, volatileCells, {}, dirty, c);
      }
    }

    /** The dirty ranges in calculation order. */
    method QueryAndSortDirtyCells(modified: set<AbsRange>, dirtyFormulas: set<AbsRange>)
      returns (sorted: seq<AbsRange>, ghost recorded: PrecedentMap<AbsRange>)
      requires Valid()
      ensures Distinct(sorted)
      ensures forall c :: c in sorted <==> IsDirty(Relation(), modified, volatileCells, dirtyFormulas, c)
      ensures ListenedFirst(Relation(), sorted)
      ensures forall r, m :: PrecedentEdges(recorded)(r, m) <==> m in sorted && r in Affected(Relation(), m)
    {
      var rels := new Relations<AbsRange>();
      // the modified cells themselves are not dirty formula cells
      AffectedAreDirty(Relation(), modified, volatileCells, dirtyFormulas, modified);
      var dirty, cur := Spread(modified, {});
      dirty := SpreadAndRecord(modified, dirtyFormulas, dirty, cur + volatileCells + dirtyFormulas, rels);
      dirty := dirty + volatileCells + dirtyFormulas;
      recorded := rels.edges;
      sorted := SortRanges(dirty, rels.edges);
      SortedByListening(Relation(), recorded, sorted);
    }

    /** Works off all the ranges given and those that follow from them. */
    method SpreadAndRecord(ghost modified: set<AbsRange>, ghost dirtyFormulas: set<AbsRange>,
            dirtyBefore: set<AbsRange>, all: set<AbsRange>, rels: Relations<AbsRange>)
      returns (dirty: set<AbsRange>)
      requires Valid() && rels.edges == map[]
      requires Worked(Relation(), modified, volatileCells, dirtyFormulas, dirtyBefore, all, {})
      modifies rels
      ensures forall c :: c in dirty + volatileCells + dirtyFormulas <==>
                          IsDirty(Relation(), modified, volatileCells, dirtyFormulas, c)
      ensures forall r, m :: PrecedentEdges(rels.edges)(r, m) <==>
                             m in dirty + volatileCells + dirtyFormulas && r in Affected(Relation(), m)
    {
      ghost var rel := Relation();
      ghost var done: set<AbsRange> := {};
      var cur := all;
      dirty := dirtyBefore;
      while cur != {}
        invariant Worked(rel, modified, volatileCells, dirtyFormulas, dirty, cur, done)
        invariant forall r, m :: PrecedentEdges(rels.edges)(r, m) <==> m in done && r in Affected(rel, m)
        decreases Sources(rel) - dirty, cur
      {
        ghost var before := dirty;
        var next;
        dirty, next := RecordingSpread(cur, dirty, done, rels);
        WorkedFurther(rel, modified, volatileCells, dirtyFormulas, before, cur, done, dirty);
        done := done + cur;
        cur := next;
      }
      WorkedOff(rel, modified, volatileCells, dirtyFormulas, dirty, done);
    }

    /** Without given dirty formulas the plain and the sorted query find the same. */
    method BothQueries(modified: set<AbsRange>) returns (dirty: set<AbsRange>, sorted: seq<AbsRange>)
      requires Valid()
      ensures forall c :: c in dirty <==> c in sorted
      ensures forall c :: c in dirty <==> IsDirty(Relation(), modified, volatileCells, {}, c)
    {
      dirty := QueryDirtyCells(modified);
      ghost var recorded;
      sorted, recorded := QueryAndSortDirtyCells(modified, {});
    }
  }

  lemma SortedByListening(rel: set<Listening>, recorded: PrecedentMap<AbsRange>, sorted: seq<AbsRange>)
    requires forall r, m :: PrecedentEdges(recorded)(r, m) <==> m in sorted && r in Affected(rel, m)
    requires PrecedentsFirst(recorded, sorted)
    ensures ListenedFirst(rel, sorted)
  {
    forall k, m | 0 <= k < |sorted| && m in sorted && Listens(rel)(m, sorted[k])
      ensures m in sorted[..k] || Reach(Listens(rel), sorted[k], m)
    {
      assert PrecedentEdges(recorded)(sorted[k], m);
      if m !in sorted[..k] {
        ReachReversed(PrecedentEdges(recorded), Listens(rel), m, sorted[k]);
      }
    }
  }

  /** Hands the ranges to the search in the order the hash set iterates. */
  method SortRanges(ranges: set<AbsRange>, rels: PrecedentMap<AbsRange>) returns (sorted: seq<AbsRange>)
    requires forall r, m :: r in ranges && PrecedentEdges(rels)(r, m) ==> m in ranges
    ensures Distinct(sorted) && forall c :: c in sorted <==> c in ranges
    ensures PrecedentsFirst(rels, sorted)
  {
    var nodes: seq<AbsRange> := [];
    var todo := ranges;
    while todo != {}
      invariant todo <= ranges
      invariant Distinct(nodes) && forall n :: n in nodes <==> n in ranges - todo
      decreases todo
    {
      var r :| r in todo;
      assert r !in nodes;
      nodes := nodes + [r];
      todo := todo - {r};
    }
    var sorter := new Search(nodes, rels);
    var ok := sorter.Run();
    assert ok;
    sorted := sorter.sorted;
  }
}
