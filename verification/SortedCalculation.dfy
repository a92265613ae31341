/** The recalculation of a sorted list of formula cells, on one thread or with
    the queue on several. */
module SortedCalculation {
  import opened Wrappers
  import opened Address
  import opened DepthFirstSearch
  import opened Recalculation
  import opened SheetTracking
  import opened Calculation
  import opened AdaptiveReading
  import opened SequentialInterpretation
  import opened CellQueue
  import opened ThreadedCalculation

  /** How a recalculation proceeds.  With threads, the interpretations read as
      the readers say, and the steps happen in the order the scheduler gives. */
  datatype Mode =
    | OneThread
    | Threads(count: nat, readers: Readers, scheduler: seq<AbsAddress> -> seq<Action>)

  /** The readers compute the formulas of the sheet, and the scheduler takes
      every sorted list of its formula cells to the end. */
  ghost predicate Fits(s: Sheet, clock: Clock, mode: Mode) {
    match mode
    case OneThread => true
    case Threads(count, readers, scheduler) =>
      && count >= 1 && AllInterpret(s, clock, readers)
      && forall entries :: Ready(s, clock, entries, readers, count) ==>
        var c := QueueFor(s, clock, entries, readers, count);
        Completes(c, Initial(c), scheduler(entries))
  }

  /** There are schedulers for all readers that compute the formulas. */
  lemma SchedulerExists(s: Sheet, clock: Clock, count: nat, readers: Readers)
    requires count >= 1 && AllInterpret(s, clock, readers)
    ensures exists scheduler :: Fits(s, clock, Threads(count, readers, scheduler))
  {
    var scheduler := (entries: seq<AbsAddress>) => ScheduleFor(s, clock, count, readers, entries);
    assert Fits(s, clock, Threads(count, readers, scheduler));
  }

  /** A recalculation on any number of threads is possible for every sheet. */
  lemma ThreadsFit(s: Sheet, clock: Clock, count: nat)
    requires count >= 1
    ensures exists readers, scheduler :: Fits(s, clock, Threads(count, readers, scheduler))
  {
    ReadersExist(s, clock);
    var readers :| AllInterpret(s, clock, readers);
    SchedulerExists(s, clock, count, readers);
    var scheduler :| Fits(s, clock, Threads(count, readers, scheduler));
  }

  ghost function ScheduleFor(s: Sheet, clock: Clock, count: nat, readers: Readers,
          entries: seq<AbsAddress>): (actions: seq<Action>)
    ensures Ready(s, clock, entries, readers, count) ==>
      Completes(QueueFor(s, clock, entries, readers, count), Initial(QueueFor(s, clock, entries, readers, count)),
        actions)
  {
    if Ready(s, clock, entries, readers, count) then
      var c := QueueFor(s, clock, entries, readers, count);
      QueueIsValid(s, clock, entries, readers, count);
      InitialInv(c);
      CanCompleteSomehow(c, Initial(c));
      var actions :| Completes(c, Initial(c), actions);
      actions
    else []
  }

  // ---- the queue at work on the cells ----

  /** What the state says of a cell is what its cached result shows. */
  ghost predicate Shows(result: Option<Value>, slot: Slot) {
    match slot
    case NoResult => result == None
    case Placeholder => result.Some?
    case Final(v) => result == Some(v)
  }

  ghost predicate AllShow(cells: Store, s: State)
    reads Objects(cells)
  {
    forall a :: a in cells && cells[a].FormulaAt? ==> Shows(cells[a].cell.result, SlotOf(s, a))
  }

  lemma SlotsAfter(c: Config, s: State, a: Action)
    requires Enabled(c, s, a)
    ensures var slots := Next(c, s, a).slots;
      match a
      case Begin(t) =>
        if SlotOf(s, c.entries[t]).NoResult? then slots == s.slots[c.entries[t] := Placeholder] else slots == s.slots
      case Store(t) => slots == s.slots[c.entries[t] := Final(c.NextStep(t, s.tasks[t].got).v)]
      case _ => slots == s.slots
  {
  }

  /** A task writes to its own cell only. */
  method SetResult(cells: Store, entries: seq<AbsAddress>, t: nat, v: Value, ghost s: State, ghost slot: Slot)
    requires OneCellEach(cells) && AllFormulas(cells, entries) && t < |entries| && AllShow(cells, s)
    requires Shows(Some(v), slot)
    modifies cells[entries[t]].cell`result
    ensures AllShow(cells, s.(slots := s.slots[entries[t] := slot]))
  {
    cells[entries[t]].cell.result := Some(v);
  }

  lemma SameSlotsShow(cells: Store, s: State, s': State)
    requires AllShow(cells, s) && s'.slots == s.slots
    ensures AllShow(cells, s')
  {
    assert forall a :: SlotOf(s', a) == SlotOf(s, a);
  }

  /** One step of the threads. */
  method PerformStep(cells: Store, c: Config, s: State, a: Action) returns (s': State)
    requires OneCellEach(cells) && AllFormulas(cells, c.entries)
    requires Enabled(c, s, a) && AllShow(cells, s)
    modifies EntryObjects(cells, c.entries)`result
    ensures s' == Next(c, s, a) && AllShow(cells, s')
  {
    s' := Next(c, s, a);
    SlotsAfter(c, s, a);
    ghost var shown := s;
    match a {
      case Begin(t) =>
        if SlotOf(s, c.entries[t]).NoResult? {
          SetResult(cells, c.entries, t, PLACEHOLDER, s, Placeholder);
          shown := s.(slots := s.slots[c.entries[t] := Placeholder]);
        }
      case Store(t) =>
        var v := c.NextStep(t, s.tasks[t].got).v;
        SetResult(cells, c.entries, t, v, s, Final(v));
        shown := s.(slots := s.slots[c.entries[t] := Final(v)]);
      case _ =>
    }
    SameSlotsShow(cells, shown, s');
  }

  /** The threads run to the end. */
  method RunQueue(cells: Store, c: Config, schedule: seq<Action>)
    requires OneCellEach(cells) && AllFormulas(cells, c.entries)
    requires c.Valid() && Completes(c, Initial(c), schedule) && AllShow(cells, Initial(c))
    modifies EntryObjects(cells, c.entries)`result
    ensures forall a :: a in cells && cells[a].FormulaAt? && (a in c.preset || a in c.entries) ==>
      cells[a].cell.result == Some(SequentialResult(c, a))
  {
    var s := Initial(c);
    InitialInv(c);
    var i := 0;
    assert schedule[0..] == schedule;
    while i < |schedule|
      invariant i <= |schedule| && Completes(c, s, schedule[i..]) && Inv(c, s) && AllShow(cells, s)
    {
      StepOfMany(c, s, schedule, i);
      s := PerformStep(cells, c, s, schedule[i]);
      i := i + 1;
    }
    AllShowResults(cells, c, s);
  }

  lemma StepOfMany(c: Config, s: State, schedule: seq<Action>, i: nat)
    requires c.Valid() && Inv(c, s) && i < |schedule| && Completes(c, s, schedule[i..])
    ensures Enabled(c, s, schedule[i]) && Inv(c, Next(c, s, schedule[i])) &&
      Completes(c, Next(c, s, schedule[i]), schedule[i + 1..])
  {
    assert schedule[i..][0] == schedule[i] && schedule[i..][1..] == schedule[i + 1..];
    StepKeepsInv(c, s, schedule[i]);
  }

  lemma AllShowResults(cells: Store, c: Config, s: State)
    requires c.Valid() && Inv(c, s) && Terminal(s) && AllShow(cells, s)
    ensures forall a :: a in cells && cells[a].FormulaAt? && (a in c.preset || a in c.entries) ==>
      cells[a].cell.result == Some(SequentialResult(c, a))
  {
    forall a | a in cells && cells[a].FormulaAt? && (a in c.preset || a in c.entries)
      ensures cells[a].cell.result == Some(SequentialResult(c, a))
    {
      TerminalResults(c, s, a);
    }
  }

  /** The queue is set up from the results there are. */
  method QueueFromCells(cells: Store, entries: seq<AbsAddress>, readers: Readers, count: nat, ghost clock: Clock)
          returns (c: Config)
    requires OneCellEach(cells) && AllFormulas(cells, entries) && OthersCorrect(cells, clock, entries)
    requires forall k :: 0 <= k < |entries| ==> Checked(cells, entries[k])
    ensures c == QueueFor(View(cells), clock, entries, readers, count)
  {
    var preset := map a | a in cells && cells[a].FormulaAt? && cells[a].cell.result.Some? :: cells[a].cell.result.value;
    PresetAfterCircularPass(cells, clock, entries, preset);
    c := Config(entries, readers, preset, count);
  }

  /** The circular pass leaves exactly the results the queue starts with. */
  lemma QueueStartsFromCircularPass(cells: Store, clock: Clock, entries: seq<AbsAddress>, readers: Readers, count: nat)
    requires OneCellEach(cells) && AllFormulas(cells, entries) && OthersCorrect(cells, clock, entries)
    requires forall k :: 0 <= k < |entries| ==> Checked(cells, entries[k])
    ensures AllShow(cells, Initial(QueueFor(View(cells), clock, entries, readers, count)))
  {
    var s := Initial(QueueFor(View(cells), clock, entries, readers, count));
    forall a | a in cells && cells[a].FormulaAt?
      ensures Shows(cells[a].cell.result, SlotOf(s, a))
    {
      if a in entries {
        var k :| 0 <= k < |entries| && entries[k] == a;
        assert Checked(cells, entries[k]);
      } else {
        assert Correct(cells, clock, a);
      }
    }
  }

  /** The interpretation pass with threads. */
  method InterpretThreaded(cells: Store, entries: seq<AbsAddress>, clock: Clock, mode: Mode)
    requires OneCellEach(cells) && AllFormulas(cells, entries) && Distinct(entries)
    requires ReferencesFirst(View(cells), entries)
    requires mode.Threads? && Fits(View(cells), clock, mode)
    requires OthersCorrect(cells, clock, entries)
    requires forall k :: 0 <= k < |entries| ==> Checked(cells, entries[k])
    modifies EntryObjects(cells, entries)`result
    ensures forall a :: a in cells && cells[a].FormulaAt? ==> Correct(cells, clock, a)
  {
    ghost var s := View(cells);
    AllMarked(cells, clock, entries);
    QueueStartsFromCircularPass(cells, clock, entries, mode.readers, mode.count);
    QueueIsValid(s, clock, entries, mode.readers, mode.count);
    var c := QueueFromCells(cells, entries, mode.readers, mode.count, clock);
    RunQueue(cells, c, mode.scheduler(entries));
    CorrectAtTheEnd(cells, clock, entries, mode.readers, mode.count);
  }

  lemma CorrectAtTheEnd(cells: Store, clock: Clock, entries: seq<AbsAddress>, readers: Readers, count: nat)
    requires Ready(View(cells), clock, entries, readers, count)
    requires forall a :: a in cells && cells[a].FormulaAt? ==> Marked(cells, a)
    requires var c := QueueFor(View(cells), clock, entries, readers, count);
      forall a :: a in cells && cells[a].FormulaAt? && (a in c.preset || a in c.entries) ==>
        cells[a].cell.result == Some(SequentialResult(c, a))
    ensures forall a :: a in cells && cells[a].FormulaAt? ==> Correct(cells, clock, a)
  {
    forall a | a in cells && cells[a].FormulaAt?
      ensures Correct(cells, clock, a)
    {
      SequentialMeaning(View(cells), clock, entries, readers, count, a);
    }
  }

  lemma AllMarked(cells: Store, clock: Clock, entries: seq<AbsAddress>)
    requires AllFormulas(cells, entries) && OthersCorrect(cells, clock, entries)
    requires forall k :: 0 <= k < |entries| ==> Checked(cells, entries[k])
    ensures forall a :: a in cells && cells[a].FormulaAt? ==> Marked(cells, a)
  {
    forall a | a in cells && cells[a].FormulaAt?
      ensures Marked(cells, a)
    {
      if a in entries {
        var k :| 0 <= k < |entries| && entries[k] == a;
        assert Checked(cells, entries[k]);
      }
    }
  }

  lemma PresetAfterCircularPass(cells: Store, clock: Clock, entries: seq<AbsAddress>, preset: Results)
    requires OneCellEach(cells) && AllFormulas(cells, entries) && OthersCorrect(cells, clock, entries)
    requires forall k :: 0 <= k < |entries| ==> Checked(cells, entries[k])
    requires forall a :: a in preset <==> a in cells && cells[a].FormulaAt? && cells[a].cell.result.Some?
    requires forall a :: a in preset ==> preset[a] == cells[a].cell.result.value
    ensures preset == PresetResults(View(cells), clock, entries)
  {
    var s := View(cells);
    forall a | a in cells && cells[a].FormulaAt?
      ensures a in preset <==> a in PresetResults(s, clock, entries)
      ensures a in preset ==> preset[a] == Meaning(s, clock, a)
    {
      if a in entries {
        var k :| 0 <= k < |entries| && entries[k] == a;
        assert Checked(cells, entries[k]);
      } else {
        assert Correct(cells, clock, a);
      }
    }
  }

  /** The interpretation pass. */
  method InterpretEntries(cells: Store, entries: seq<AbsAddress>, clock: Clock, mode: Mode)
    requires OneCellEach(cells) && AllFormulas(cells, entries) && Distinct(entries)
    requires ReferencesFirst(View(cells), entries)
    requires Fits(View(cells), clock, mode)
    requires OthersCorrect(cells, clock, entries)
    requires forall k :: 0 <= k < |entries| ==> Checked(cells, entries[k])
    modifies EntryObjects(cells, entries)`result
    ensures forall a :: a in cells && cells[a].FormulaAt? ==> Correct(cells, clock, a)
  {
    if mode.OneThread? {
      InterpretAll(cells, entries, clock);
    } else {
      InterpretThreaded(cells, entries, clock, mode);
    }
  }

  /** Recalculates the entries in the given order.  An exception escapes when
      the circularity check of an entry steps outside of the workbook. */
  method CalculateSortedCells(cells: Store, entries: seq<AbsAddress>, bounds: Bounds, clock: Clock, mode: Mode)
    returns (thrown: bool)
    requires OneCellEach(cells) && AllFormulas(cells, entries) && Distinct(entries)
    requires ReferencesFirst(View(cells), entries)
    requires OthersCorrect(cells, clock, entries)
    requires Fits(View(cells), clock, mode)
    modifies EntryObjects(cells, entries)
    ensures thrown <==> exists k :: 0 <= k < |entries| && StepsOutside(View(cells), bounds, entries[k])
    ensures !thrown ==> forall a :: a in cells && cells[a].FormulaAt? ==> Correct(cells, clock, a)
  {
    ResetAll(cells, entries);
    thrown := MarkCircular(cells, entries, bounds);
    if !thrown {
      InterpretEntries(cells, entries, clock, mode);
    }
  }
}
