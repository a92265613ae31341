/** Stating the references of a formula cell to the tracker, and taking them
    back.  Registering expands whole rows and columns and sorts the corners of a
    reference; unregistering does neither. */
module Registration {
  import opened Address
  import opened DirtyCellTracker
  import opened Recalculation
  import opened SheetTracking

  /** The exceptions: an invalid sheet, or arguments the tracker refuses. */
  datatype Registering = Stated | NoSheet | Refused(error: TrackerError)

  /** The range a reference is registered with. */
  function AsRegistered(r: AbsRange, bounds: Bounds): AbsRange {
    Reordered(Expanded(r, bounds))
  }

  function Attempt(pos: AbsAddress, r: AbsRange, dest: AbsRange): Registering {
    if r.first.sheet < 0 then NoSheet
    else match CheckArguments(Cell(pos), dest)
      case Done => Stated
      case Rejected(x) => Refused(x)
  }

  function Registers(pos: AbsAddress, r: AbsRange, bounds: Bounds): Registering {
    Attempt(pos, r, AsRegistered(r, bounds))
  }

  function Unregisters(pos: AbsAddress, r: AbsRange): Registering {
    Attempt(pos, r, r)
  }

  /** The first n references are accepted. */
  predicate AllRegister(pos: AbsAddress, refs: seq<AbsRange>, bounds: Bounds, n: nat)
    requires n <= |refs|
  {
    n == 0 || (AllRegister(pos, refs, bounds, n - 1) && Registers(pos, refs[n - 1], bounds).Stated?)
  }

  /** What registering the first n references states. */
  ghost function StatedBy(pos: AbsAddress, refs: seq<AbsRange>, bounds: Bounds, n: nat): set<Listening>
    requires n <= |refs|
  {
    if n == 0 then {}
    else StatedBy(pos, refs, bounds, n - 1) + Listenings(Cell(pos), AsRegistered(refs[n - 1], bounds))
  }

  /** What unregistering the first n references takes back. */
  ghost function TakenBy(pos: AbsAddress, refs: seq<AbsRange>, n: nat): set<Listening>
    requires n <= |refs|
  {
    if n == 0 then {} else TakenBy(pos, refs, n - 1) + Listenings(Cell(pos), refs[n - 1])
  }

  method RegisterReference(tracker: Tracker, bounds: Bounds, pos: AbsAddress, range: AbsRange) returns (r: Registering)
    requires tracker.Valid()
    modifies tracker
    ensures tracker.Valid() && tracker.volatileCells == old(tracker.volatileCells)
    ensures r == Registers(pos, range, bounds)
    ensures tracker.Relation() ==
      old(tracker.Relation()) + if r.Stated? then Listenings(Cell(pos), AsRegistered(range, bounds)) else {}
  {
    if range.first.sheet < 0 {
      return NoSheet;
    }
    var outcome := tracker.Add(Cell(pos), AsRegistered(range, bounds));
    r := if outcome.Done? then Stated else Refused(outcome.error);
  }

  /** States reference after reference, up to the first that is refused, n. */
  method RegisterFormulaCell(tracker: Tracker, bounds: Bounds, pos: AbsAddress, f: Formula)
    returns (r: Registering, ghost n: nat)
    requires tracker.Valid()
    modifies tracker
    ensures tracker.Valid() && n <= |f.refs|
    ensures AllRegister(pos, f.refs, bounds, n)
    ensures r == if n < |f.refs| then Registers(pos, f.refs[n], bounds) else Stated
    ensures r.Stated? <==> n == |f.refs|
    ensures tracker.Relation() == old(tracker.Relation()) + StatedBy(pos, f.refs, bounds, n)
    ensures tracker.volatileCells == old(tracker.volatileCells) + if r.Stated? && f.isVolatile then {Cell(pos)} else {}
    ensures forall x, b :: x in Affected(tracker.Relation(), Cell(b)) <==>
      || x in old(Affected(tracker.Relation(), Cell(b)))
      || (x == Cell(pos) && RefersTo(f.refs[..n], bounds, b))
  {
    n := 0;
    for i := 0 to |f.refs|
      invariant n == i && tracker.Valid() && tracker.volatileCells == old(tracker.volatileCells)
      invariant AllRegister(pos, f.refs, bounds, i)
      invariant tracker.Relation() == old(tracker.Relation()) + StatedBy(pos, f.refs, bounds, i)
    {
      r := RegisterReference(tracker, bounds, pos, f.refs[i]);
      if !r.Stated? {
        StatedAffectsMore(old(tracker.Relation()), pos, f.refs, bounds, n);
        return;
      }
      n := n + 1;
    }
    r := Stated;
    StatedAffectsMore(old(tracker.Relation()), pos, f.refs, bounds, n);
    if f.isVolatile {
      tracker.AddVolatile(Cell(pos));
    }
  }

  method UnregisterReference(tracker: Tracker, pos: AbsAddress, range: AbsRange) returns (r: Registering)
    requires tracker.Valid()
    modifies tracker
    ensures tracker.Valid() && tracker.volatileCells == old(tracker.volatileCells)
    ensures r == Unregisters(pos, range)
    ensures tracker.Relation() == old(tracker.Relation()) - if r.Stated? then Listenings(Cell(pos), range) else {}
  {
    if range.first.sheet < 0 {
      return NoSheet;
    }
    var outcome := tracker.Remove(Cell(pos), range);
    r := if outcome.Done? then Stated else Refused(outcome.error);
  }

  /** Takes back reference after reference as they are written, up to the first
      that is refused, n. */
  method UnregisterFormulaCell(tracker: Tracker, pos: AbsAddress, f: Formula) returns (r: Registering, ghost n: nat)
    requires tracker.Valid()
    modifies tracker
    ensures tracker.Valid() && n <= |f.refs|
    ensures forall i :: 0 <= i < n ==> Unregisters(pos, f.refs[i]).Stated?
    ensures r == if n < |f.refs| then Unregisters(pos, f.refs[n]) else Stated
    ensures r.Stated? <==> n == |f.refs|
    ensures tracker.Relation() == old(tracker.Relation()) - TakenBy(pos, f.refs, n)
    ensures tracker.volatileCells == old(tracker.volatileCells) - {Cell(pos)}
  {
    tracker.RemoveVolatile(Cell(pos));
    n := 0;
    for i := 0 to |f.refs|
      invariant n == i && tracker.Valid() && tracker.volatileCells == old(tracker.volatileCells) - {Cell(pos)}
      invariant forall k :: 0 <= k < i ==> Unregisters(pos, f.refs[k]).Stated?
      invariant tracker.Relation() == old(tracker.Relation()) - TakenBy(pos, f.refs, i)
    {
      r := UnregisterReference(tracker, pos, f.refs[i]);
      if !r.Stated? {
        return;
      }
      n := n + 1;
    }
    r := Stated;
  }

  // ---- what is stated and what is taken back ----

  /** The reference names the cell b, with its corners in either order, and
      whole columns and rows reaching as far as the sheet. */
  predicate Names(r: AbsRange, bounds: Bounds, b: AbsAddress) {
    && Between(b.sheet, r.first.sheet, r.last.sheet)
    && (if r.first.column == COLUMN_UNSET && r.last.column == COLUMN_UNSET then 0 <= b.column < bounds.columns
        else Between(b.column, r.first.column, r.last.column))
    && (if r.first.row == ROW_UNSET && r.last.row == ROW_UNSET then 0 <= b.row < bounds.rows
        else Between(b.row, r.first.row, r.last.row))
  }

  predicate RefersTo(refs: seq<AbsRange>, bounds: Bounds, b: AbsAddress) {
    exists i :: 0 <= i < |refs| && Names(refs[i], bounds, b)
  }

  predicate IndexAllowed(x: int) {
    0 <= x <= COLUMN_UNSET
  }

  /** Which references are accepted. */
  lemma RegistersExactly(pos: AbsAddress, r: AbsRange, bounds: Bounds)
    requires bounds.Valid() && pos.Valid()
    ensures Registers(pos, r, bounds).NoSheet? <==> r.first.sheet < 0
    ensures Registers(pos, r, bounds).Stated? <==>
      && r.first.sheet >= 0 && r.last.sheet >= 0
      && IndexAllowed(r.first.column) && IndexAllowed(r.last.column)
      && IndexAllowed(r.first.row) && IndexAllowed(r.last.row)
  {
  }

  lemma NamesRegistered(pos: AbsAddress, r: AbsRange, bounds: Bounds, b: AbsAddress)
    requires Registers(pos, r, bounds).Stated?
    ensures var l := Listening(b.sheet, Extent(AsRegistered(r, bounds)), Cell(pos));
      Names(r, bounds, b) <==>
      l in Listenings(Cell(pos), AsRegistered(r, bounds)) && l.rect.Overlaps(Extent(Cell(b)))
  {
  }

  /** Once references have been registered, exactly the cells they name affect
      the formula cell. */
  lemma {:induction false} StatedAffects(pos: AbsAddress, refs: seq<AbsRange>, bounds: Bounds, n: nat, b: AbsAddress)
    requires n <= |refs| && AllRegister(pos, refs, bounds, n)
    ensures Affected(StatedBy(pos, refs, bounds, n), Cell(b)) ==
      if RefersTo(refs[..n], bounds, b) then {Cell(pos)} else {}
    decreases n
  {
    if n > 0 {
      StatedAffects(pos, refs, bounds, n - 1, b);
      var r := AsRegistered(refs[n - 1], bounds);
      var l := Listening(b.sheet, Extent(r), Cell(pos));
      NamesRegistered(pos, refs[n - 1], bounds, b);
      AffectedByBoth(StatedBy(pos, refs, bounds, n - 1), Listenings(Cell(pos), r), Cell(b));
      assert Affected(Listenings(Cell(pos), r), Cell(b)) ==
             if Names(refs[n - 1], bounds, b) then {Cell(pos)} else {} by {
        if Names(refs[n - 1], bounds, b) {
          assert l in Listenings(Cell(pos), r);
        }
      }
      assert refs[..n] == refs[..n - 1] + [refs[n - 1]];
      RefersToOneMore(refs[..n - 1], refs[n - 1], bounds, b);
    }
  }

  lemma RefersToOneMore(refs: seq<AbsRange>, r: AbsRange, bounds: Bounds, b: AbsAddress)
    ensures RefersTo(refs + [r], bounds, b) <==> RefersTo(refs, bounds, b) || Names(r, bounds, b)
  {
    var all := refs + [r];
    if i :| 0 <= i < |refs| && Names(refs[i], bounds, b) {
      assert Names(all[i], bounds, b);
    }
    if Names(r, bounds, b) {
      assert Names(all[|refs|], bounds, b);
    }
  }

  lemma AffectedByBoth(rel: set<Listening>, rel': set<Listening>, range: AbsRange)
    ensures Affected(rel + rel', range) == Affected(rel, range) + Affected(rel', range)
  {
    forall x
      ensures x in Affected(rel + rel', range) <==> x in Affected(rel, range) + Affected(rel', range)
    {
      if t :| t in rel && t.sheet == range.first.sheet && t.rect.Overlaps(Extent(range)) && t.src == x {
        assert t in rel + rel';
      }
      if t :| t in rel' && t.sheet == range.first.sheet && t.rect.Overlaps(Extent(range)) && t.src == x {
        assert t in rel + rel';
      }
    }
  }

  lemma StatedAffectsMore(rel: set<Listening>, pos: AbsAddress, refs: seq<AbsRange>, bounds: Bounds, n: nat)
    requires n <= |refs| && AllRegister(pos, refs, bounds, n)
    ensures forall x, b :: x in Affected(rel + StatedBy(pos, refs, bounds, n), Cell(b)) <==>
      || x in Affected(rel, Cell(b))
      || (x == Cell(pos) && RefersTo(refs[..n], bounds, b))
  {
    forall b
      ensures Affected(rel + StatedBy(pos, refs, bounds, n), Cell(b)) ==
        Affected(rel, Cell(b)) + if RefersTo(refs[..n], bounds, b) then {Cell(pos)} else {}
    {
      AffectedByBoth(rel, StatedBy(pos, refs, bounds, n), Cell(b));
      StatedAffects(pos, refs, bounds, n, b);
    }
  }

  lemma {:induction false} TakenByMeans(pos: AbsAddress, refs: seq<AbsRange>, n: nat, t: Listening)
    requires n <= |refs|
    ensures t in TakenBy(pos, refs, n) <==> exists i :: 0 <= i < n && t in Listenings(Cell(pos), refs[i])
    decreases n
  {
    if n == 0 {
    } else {
      TakenByMeans(pos, refs, n - 1, t);
    }
  }

  lemma {:induction false} AllRegisterMeans(pos: AbsAddress, refs: seq<AbsRange>, bounds: Bounds, n: nat, i: nat)
    requires i < n <= |refs| && AllRegister(pos, refs, bounds, n)
    ensures Registers(pos, refs[i], bounds).Stated?
    decreases n
  {
    if i < n - 1 {
      AllRegisterMeans(pos, refs, bounds, n - 1, i);
    }
  }

  /** Taking back all references of a formula takes back all it listens to. */
  lemma AllTakenBack(pos: AbsAddress, f: Formula)
    ensures TakenBy(pos, f.refs, |f.refs|) == FormulaListenings(pos, f)
  {
    forall t
      ensures t in TakenBy(pos, f.refs, |f.refs|) <==> t in FormulaListenings(pos, f)
    {
      TakenByMeans(pos, f.refs, |f.refs|, t);
    }
  }

  /** Ordered references that are no whole rows or columns are registered as they
      are written. */
  lemma AsWritten(pos: AbsAddress, r: AbsRange, bounds: Bounds)
    requires pos.Valid() && r.Specified()
    ensures AsRegistered(r, bounds) == r && Registers(pos, r, bounds).Stated?
  {
  }

  lemma {:induction false} StatedAsWritten(pos: AbsAddress, refs: seq<AbsRange>, bounds: Bounds, n: nat)
    requires pos.Valid() && n <= |refs| && forall i :: 0 <= i < n ==> refs[i].Specified()
    ensures StatedBy(pos, refs, bounds, n) == TakenBy(pos, refs, n)
    ensures AllRegister(pos, refs, bounds, n)
    decreases n
  {
    if n == 0 {
    } else {
      StatedAsWritten(pos, refs, bounds, n - 1);
      AsWritten(pos, refs[n - 1], bounds);
    }
  }

  lemma AllUnregister(pos: AbsAddress, f: Formula)
    requires pos.Valid() && f.WellFormed()
    ensures forall i :: 0 <= i < |f.refs| ==> Unregisters(pos, f.refs[i]).Stated?
  {
  }

  /** The references of a formula can all be taken back exactly when they are
      ordered and no whole rows or columns, and then they can be stated too, and
      what is taken back is what is stated: all that the formula listens to. */
  lemma TakenBackExactly(pos: AbsAddress, f: Formula, bounds: Bounds)
    requires pos.Valid()
    ensures (forall i :: 0 <= i < |f.refs| ==> Unregisters(pos, f.refs[i]).Stated?) <==> f.WellFormed()
    ensures TakenBy(pos, f.refs, |f.refs|) == FormulaListenings(pos, f)
    ensures f.WellFormed() ==>
      && StatedBy(pos, f.refs, bounds, |f.refs|) == FormulaListenings(pos, f)
      && AllRegister(pos, f.refs, bounds, |f.refs|)
  {
    AllTakenBack(pos, f);
    if f.WellFormed() {
      StatedAsWritten(pos, f.refs, bounds, |f.refs|);
    }
    if forall i :: 0 <= i < |f.refs| ==> Unregisters(pos, f.refs[i]).Stated? {
      forall i | 0 <= i < |f.refs|
        ensures f.refs[i].Specified()
      {
        assert Unregisters(pos, f.refs[i]).Stated?;
      }
    }
  }

  /** A well-formed formula is registered with all it listens to. */
  method RegisterWellFormed(tracker: Tracker, bounds: Bounds, pos: AbsAddress, f: Formula)
    requires tracker.Valid() && pos.Valid() && f.WellFormed()
    modifies tracker
    ensures tracker.Valid()
    ensures tracker.Relation() == old(tracker.Relation()) + FormulaListenings(pos, f)
    ensures tracker.volatileCells == old(tracker.volatileCells) + if f.isVolatile then {Cell(pos)} else {}
  {
    var r, n := RegisterFormulaCell(tracker, bounds, pos, f);
    TakenBackExactly(pos, f, bounds);
    if n < |f.refs| {
      AllRegisterMeans(pos, f.refs, bounds, |f.refs|, n);
    }
  }

  method UnregisterWellFormed(tracker: Tracker, pos: AbsAddress, f: Formula)
    requires tracker.Valid() && pos.Valid() && f.WellFormed()
    modifies tracker
    ensures tracker.Valid()
    ensures tracker.Relation() == old(tracker.Relation()) - FormulaListenings(pos, f)
    ensures tracker.volatileCells == old(tracker.volatileCells) - {Cell(pos)}
  {
    AllTakenBack(pos, f);
    AllUnregister(pos, f);
    var r, n := UnregisterFormulaCell(tracker, pos, f);
  }

  /** A reference to a whole column, or one with its corners exchanged, is
      registered and can never be unregistered, so that its cell can be neither
      overwritten nor emptied. */
  lemma StatedForGood(pos: AbsAddress, bounds: Bounds, column: nat, a: AbsAddress, b: AbsAddress)
    requires pos.Valid() && a.Valid() && b.Valid() && 0 < bounds.rows <= ROW_UNSET && column < COLUMN_UNSET
    requires a.sheet == b.sheet && a.row < b.row < ROW_UNSET && a.column < b.column < COLUMN_UNSET
    ensures var whole := AbsRange(AbsAddress(a.sheet, ROW_UNSET, column), AbsAddress(a.sheet, ROW_UNSET, column));
      Registers(pos, whole, bounds).Stated? && Unregisters(pos, whole) == Refused(UnsetDestination)
    ensures Registers(pos, AbsRange(b, a), bounds).Stated? &&
      Unregisters(pos, AbsRange(b, a)) == Refused(InvalidDestination)
  {
  }
}
