/** The bounded queue that interprets formula cells on several threads, as a
    state machine over the steps of the pushing thread, the joining thread and
    the interpretation tasks. */
module CellQueue {
  import opened Address
  import opened Recalculation
  import opened DepthFirstSearch
  import opened AdaptiveReading
  import opened SequentialInterpretation

  /** The pushing thread: about to lock the queue for entry i, asleep on the
      condition variable, about to notify after pushing entry i, or done. */
  datatype Producer = Pushing(i: nat) | AwaitingRoom(i: nat) | Pushed(i: nat) | AllPushed

  /** The joining thread: about to lock the queue for the j-th time, asleep,
      blocked on the future of task j, about to notify, or done. */
  datatype Consumer = Taking(j: nat) | AwaitingTask(j: nat) | Joining(j: nat) | Joined(j: nat) | AllJoined

  /** One interpretation: not begun; holding the mutex of its own cell, with
      what it has read, and about to lock the cell it reads next or to store its
      result; holding the mutex of the cell it reads, too; asleep on the
      condition variable of that cell; finished but for the notification;
      finished. */
  datatype Task =
    | Starting
    | Reading(got: seq<Value>)
    | Looking(got: seq<Value>)
    | Sleeping(got: seq<Value>)
    | Notifying
    | Finished

  /** The cached result of a cell. */
  datatype Slot = NoResult | Placeholder | Final(v: Value)

  datatype State = State(producer: Producer, consumer: Consumer, futures: seq<nat>, tasks: seq<Task>,
    slots: map<AbsAddress, Slot>)

  function Initial(c: Config): State {
    State(
      if |c.entries| == 0 then AllPushed else Pushing(0),
      if |c.entries| == 0 then AllJoined else Taking(0),
      [], [],
      map a | a in c.preset.Keys + (set e | e in c.entries) :: if a in c.preset then Final(c.preset[a]) else NoResult)
  }

  predicate HoldsOwn(task: Task) {
    task.Reading? || task.Looking? || task.Sleeping?
  }

  /** The cell a task reads next. */
  predicate ReadsNext(c: Config, t: nat, task: Task, a: AbsAddress) {
    HoldsOwn(task) && c.NextStep(t, task.got) == Ask(a)
  }

  /** Task t holds the mutex of cell a. */
  predicate Holds(c: Config, s: State, t: nat, a: AbsAddress) {
    t < |s.tasks| && t < |c.entries| &&
    ((HoldsOwn(s.tasks[t]) && c.entries[t] == a) || (s.tasks[t].Looking? && ReadsNext(c, t, s.tasks[t], a)))
  }

  predicate Locked(c: Config, s: State, a: AbsAddress) {
    exists t :: 0 <= t < |s.tasks| && Holds(c, s, t, a)
  }

  datatype Action =
    | Push | NotifyConsumer | Take | Join | NotifyProducer
    | Begin(t: nat) | Fetch(t: nat) | Look(t: nat) | Store(t: nat) | NotifyReaders(t: nat)
    | SpuriousProducer | SpuriousConsumer | SpuriousTask(t: nat)
  {
    predicate Spurious() {
      SpuriousProducer? || SpuriousConsumer? || SpuriousTask?
    }

    predicate OfTask() {
      Begin? || Fetch? || Look? || Store? || NotifyReaders? || SpuriousTask?
    }
  }

  predicate Enabled(c: Config, s: State, a: Action) {
    match a
    case Push => s.producer.Pushing?
    case NotifyConsumer => s.producer.Pushed?
    case Take => s.consumer.Taking?
    case Join => s.consumer.Joining? && s.consumer.j < |s.tasks| && s.tasks[s.consumer.j].Finished?
    case NotifyProducer => s.consumer.Joined?
    case Begin(t) => t < |s.tasks| && t < |c.entries| && s.tasks[t].Starting? && !Locked(c, s, c.entries[t])
    case Fetch(t) =>
      t < |s.tasks| && s.tasks[t].Reading? && c.NextStep(t, s.tasks[t].got).Ask? &&
        !Locked(c, s, c.NextStep(t, s.tasks[t].got).a)
    case Look(t) => t < |s.tasks| && s.tasks[t].Looking? && c.NextStep(t, s.tasks[t].got).Ask?
    case Store(t) => t < |s.tasks| && t < |c.entries| && s.tasks[t].Reading? && c.NextStep(t, s.tasks[t].got).Answer?
    case NotifyReaders(t) => t < |s.tasks| && t < |c.entries| && s.tasks[t].Notifying?
    case SpuriousProducer => s.producer.AwaitingRoom?
    case SpuriousConsumer => s.consumer.AwaitingTask?
    case SpuriousTask(t) => t < |s.tasks| && s.tasks[t].Sleeping?
  }

  function SlotOf(s: State, a: AbsAddress): Slot {
    if a in s.slots then s.slots[a] else NoResult
  }

  function Woken(c: Config, a: AbsAddress, t: nat, task: Task): Task {
    if task.Sleeping? && ReadsNext(c, t, task, a) then Reading(task.got) else task
  }

  function WakeReaders(c: Config, a: AbsAddress, tasks: seq<Task>): seq<Task> {
    seq(|tasks|, u requires 0 <= u < |tasks| => Woken(c, a, u, tasks[u]))
  }

  function Next(c: Config, s: State, a: Action): State
    requires Enabled(c, s, a)
  {
    match a
    case Push =>
      // the check, the wait or the push happen under the queue mutex
      if |s.futures| >= c.maxQueue then s.(producer := AwaitingRoom(s.producer.i))
      else s.(producer := Pushed(s.producer.i), futures := s.futures + [s.producer.i], tasks := s.tasks + [Starting])
    case NotifyConsumer =>
      s.(producer := if s.producer.i + 1 < |c.entries| then Pushing(s.producer.i + 1) else AllPushed,
         consumer := if s.consumer.AwaitingTask? then Taking(s.consumer.j) else s.consumer)
    case Take =>
      if s.futures == [] then s.(consumer := AwaitingTask(s.consumer.j))
      else s.(consumer := Joining(s.futures[0]), futures := s.futures[1..])
    case Join => s.(consumer := Joined(s.consumer.j))
    case NotifyProducer =>
      s.(consumer := if s.consumer.j + 1 < |c.entries| then Taking(s.consumer.j + 1) else AllJoined,
         producer := if s.producer.AwaitingRoom? then Pushing(s.producer.i) else s.producer)
    case Begin(t) =>
      var e := c.entries[t];
      if SlotOf(s, e).NoResult? then s.(tasks := s.tasks[t := Reading([])], slots := s.slots[e := Placeholder])
      else s.(tasks := s.tasks[t := Finished])
    case Fetch(t) => s.(tasks := s.tasks[t := Looking(s.tasks[t].got)])
    case Look(t) =>
      var got := s.tasks[t].got;
      (match SlotOf(s, c.NextStep(t, got).a)
       case NoResult => s.(tasks := s.tasks[t := Sleeping(got)])
       case Placeholder => s.(tasks := s.tasks[t := Reading(got + [PLACEHOLDER])])
       case Final(v) => s.(tasks := s.tasks[t := Reading(got + [v])]))
    case Store(t) =>
      s.(tasks := s.tasks[t := Notifying], slots := s.slots[c.entries[t] := Final(c.NextStep(t, s.tasks[t].got).v)])
    case NotifyReaders(t) =>
      s.(tasks := WakeReaders(c, c.entries[t], s.tasks[t := Finished]))
    case SpuriousProducer => s.(producer := Pushing(s.producer.i))
    case SpuriousConsumer => s.(consumer := Taking(s.consumer.j))
    case SpuriousTask(t) => s.(tasks := s.tasks[t := Reading(s.tasks[t].got)])
  }

  /** How many futures have been taken out of the queue. */
  function Taken(c: Config, s: State): nat {
    match s.consumer
    case Taking(j) => j
    case AwaitingTask(j) => j
    case Joining(j) => j + 1
    case Joined(j) => j + 1
    case AllJoined => |c.entries|
  }

  /** How many interpretations have been joined. */
  function JoinedCount(c: Config, s: State): nat {
    match s.consumer
    case Taking(j) => j
    case AwaitingTask(j) => j
    case Joining(j) => j
    case Joined(j) => j + 1
    case AllJoined => |c.entries|
  }

  /** The two threads and the queue between them. */
  ghost predicate QueueInv(c: Config, s: State) {
    && |s.tasks| <= |c.entries|
    && (match s.producer
        case Pushing(i) => i == |s.tasks| < |c.entries|
        case AwaitingRoom(i) => i == |s.tasks| < |c.entries|
        case Pushed(i) => i + 1 == |s.tasks|
        case AllPushed => |s.tasks| == |c.entries|)
    && Taken(c, s) + |s.futures| == |s.tasks|
    && (s.consumer.Taking? || s.consumer.AwaitingTask? ==> s.consumer.j < |c.entries|)
    && (forall i :: 0 <= i < |s.futures| ==> s.futures[i] == Taken(c, s) + i)
    && |s.futures| <= c.maxQueue
    && JoinedCount(c, s) <= |s.tasks|
    && (forall t :: 0 <= t < JoinedCount(c, s) ==> s.tasks[t].Finished?)
    // no wake-up is lost
    && (s.producer.AwaitingRoom? ==> |s.futures| == c.maxQueue || s.consumer.Joining? || s.consumer.Joined?)
    && (s.consumer.AwaitingTask? ==> s.futures == [] || s.producer.Pushed?)
  }

  /** Where a task stands against the sequential results. */
  ghost predicate TaskOk(c: Config, s: State, t: nat)
    requires t < |s.tasks| <= |c.entries|
  {
    var task := s.tasks[t];
    && (c.Preset(t) ==> task.Starting? || task.Finished?)
    && (HoldsOwn(task) ==> OnTrack(c, t, task.got) && (task.Reading? || c.NextStep(t, task.got).Ask?))
  }

  /** Results given before the threads start stay; an entry has none before its
      task begins, a placeholder while the task holds the cell's mutex, and the
      sequential result from then on. */
  ghost predicate PresetSlots(c: Config, s: State) {
    forall a :: a in c.preset ==> SlotOf(s, a) == Final(c.preset[a])
  }

  ghost predicate EntrySlot(c: Config, s: State, t: nat)
    requires t < |c.entries|
  {
    !c.Preset(t) ==>
      SlotOf(s, c.entries[t]) ==
      if t >= |s.tasks| || s.tasks[t].Starting? then NoResult
      else if HoldsOwn(s.tasks[t]) then Placeholder
      else Final(SequentialResult(c, c.entries[t]))
  }

  /** A sleeping task has its notification still ahead. */
  ghost predicate SleeperOk(c: Config, s: State, t: nat)
    requires t < |s.tasks|
  {
    s.tasks[t].Sleeping? && c.NextStep(t, s.tasks[t].got).Ask? ==>
      var x := c.NextStep(t, s.tasks[t].got).a;
      x !in c.preset && forall u :: 0 <= u < |s.tasks| && u < |c.entries| && c.entries[u] == x ==> !s.tasks[u].Finished?
  }

  ghost predicate Exclusive(c: Config, s: State) {
    forall t, u, a :: Holds(c, s, t, a) && Holds(c, s, u, a) ==> t == u
  }

  ghost predicate Inv(c: Config, s: State)
    requires c.Valid()
  {
    && QueueInv(c, s)
    && (forall t :: 0 <= t < |s.tasks| ==> TaskOk(c, s, t))
    && PresetSlots(c, s)
    && (forall t :: 0 <= t < |c.entries| ==> EntrySlot(c, s, t))
    && (forall t :: 0 <= t < |s.tasks| ==> SleeperOk(c, s, t))
    && Exclusive(c, s)
  }

  lemma InitialInv(c: Config)
    requires c.Valid()
    ensures Inv(c, Initial(c))
  {
  }

  lemma QueueKept(c: Config, s: State, a: Action)
    requires c.Valid() && QueueInv(c, s) && Enabled(c, s, a) && !a.OfTask()
    ensures QueueInv(c, Next(c, s, a))
  {
  }

  lemma SameQueueInv(c: Config, s: State, s': State)
    requires QueueInv(c, s) && s'.producer == s.producer && s'.consumer == s.consumer && s'.futures == s.futures
    requires |s'.tasks| == |s.tasks| && forall u :: 0 <= u < |s.tasks| && s.tasks[u].Finished? ==> s'.tasks[u].Finished?
    ensures QueueInv(c, s')
  {
  }

  lemma QueueKeptByTask(c: Config, s: State, a: Action)
    requires c.Valid() && QueueInv(c, s) && Enabled(c, s, a) && a.OfTask()
    ensures QueueInv(c, Next(c, s, a))
  {
    var s' := Next(c, s, a);
    TasksKeepCount(c, s, a);
    TasksLeaveThreads(c, s, a);
    forall u | 0 <= u < |s.tasks| && s.tasks[u].Finished?
      ensures s'.tasks[u].Finished?
    {
      if u != a.t {
        TasksLeaveOthers(c, s, a, u);
      }
    }
    SameQueueInv(c, s, s');
  }

  /** An action of another kind leaves every task alone, but may add one. */
  lemma ThreadsLeaveTasks(c: Config, s: State, a: Action)
    requires Enabled(c, s, a) && !a.OfTask()
    ensures Next(c, s, a).slots == s.slots
    ensures Next(c, s, a).tasks == s.tasks || Next(c, s, a).tasks == s.tasks + [Starting]
  {
  }

  /** A task's action changes that task, and may wake others. */
  lemma TasksLeaveOthers(c: Config, s: State, a: Action, u: nat)
    requires Enabled(c, s, a) && a.OfTask() && u < |s.tasks| && u != a.t
    ensures |Next(c, s, a).tasks| == |s.tasks|
    ensures var task' := Next(c, s, a).tasks[u];
      task' == s.tasks[u] || (s.tasks[u].Sleeping? && task' == Reading(s.tasks[u].got))
  {
  }

  lemma TasksLeaveSlots(c: Config, s: State, a: Action, x: AbsAddress)
    requires Enabled(c, s, a) && a.OfTask() && a.t < |s.tasks| <= |c.entries| && x != c.entries[a.t]
    ensures SlotOf(Next(c, s, a), x) == SlotOf(s, x)
  {
  }

  /** What a looking task finds is never a placeholder. */
  lemma LooksAtFinalResult(c: Config, s: State, t: nat)
    requires c.Valid() && Inv(c, s) && Enabled(c, s, Look(t))
    ensures var x := c.NextStep(t, s.tasks[t].got).a;
      && (x in c.preset || x in c.entries)
      && (SlotOf(s, x) == NoResult || SlotOf(s, x) == Final(SequentialResult(c, x)))
      && (SlotOf(s, x) == NoResult ==>
            && x !in c.preset
            && forall u :: 0 <= u < |s.tasks| && c.entries[u] == x ==> s.tasks[u].Starting?)
  {
    assert TaskOk(c, s, t);
    var x := c.NextStep(t, s.tasks[t].got).a;
    assert !c.Preset(t);
    AsksForEarlier(c, t, s.tasks[t].got);
    if x in c.preset {
      PresetResult(c, x);
    } else {
      var u :| 0 <= u < t && c.entries[u] == x;
      assert EntrySlot(c, s, u);
      assert Holds(c, s, t, x);
      EarlierSlot(c, s, t, x, u);
    }
  }

  /** The slot of another entry, seen while holding its mutex. */
  lemma EarlierSlot(c: Config, s: State, t: nat, x: AbsAddress, u: nat)
    requires c.Valid() && Exclusive(c, s) && Holds(c, s, t, x) && u < t && c.entries[u] == x && x !in c.preset
    requires EntrySlot(c, s, u)
    ensures SlotOf(s, x) == if s.tasks[u].Starting? then NoResult else Final(SequentialResult(c, x))
    ensures forall v :: 0 <= v < |c.entries| && c.entries[v] == x ==> v == u
  {
    assert !Holds(c, s, u, x);
  }

  /** A task that is as before, or has been woken, stands as before. */
  lemma SameTaskOk(c: Config, s: State, s': State, u: nat)
    requires u < |s.tasks| <= |s'.tasks| && |s'.tasks| <= |c.entries| && TaskOk(c, s, u)
    requires s'.tasks[u] == s.tasks[u] || (s.tasks[u].Sleeping? && s'.tasks[u] == Reading(s.tasks[u].got))
    ensures TaskOk(c, s', u)
  {
  }

  lemma TaskKept(c: Config, s: State, a: Action, u: nat)
    requires c.Valid() && Inv(c, s) && Enabled(c, s, a) && QueueInv(c, Next(c, s, a)) && u < |Next(c, s, a).tasks|
    ensures TaskOk(c, Next(c, s, a), u)
  {
    if !a.OfTask() {
      ThreadsLeaveTasks(c, s, a);
      if u < |s.tasks| {
        assert TaskOk(c, s, u);
        SameTaskOk(c, s, Next(c, s, a), u);
      }
    } else if u != a.t {
      TasksKeepCount(c, s, a);
      assert TaskOk(c, s, u);
      TasksLeaveOthers(c, s, a, u);
      SameTaskOk(c, s, Next(c, s, a), u);
    } else {
      TasksKeepCount(c, s, a);
      ActingTaskOk(c, s, a);
    }
  }

  lemma TasksKeepCount(c: Config, s: State, a: Action)
    requires Enabled(c, s, a) && a.OfTask()
    ensures a.t < |s.tasks| == |Next(c, s, a).tasks|
  {
  }

  lemma TasksKept(c: Config, s: State, a: Action)
    requires c.Valid() && Inv(c, s) && Enabled(c, s, a) && QueueInv(c, Next(c, s, a))
    ensures forall u :: 0 <= u < |Next(c, s, a).tasks| ==> TaskOk(c, Next(c, s, a), u)
  {
    forall u | 0 <= u < |Next(c, s, a).tasks|
      ensures TaskOk(c, Next(c, s, a), u)
    {
      TaskKept(c, s, a, u);
    }
  }

  lemma ActingTaskOk(c: Config, s: State, a: Action)
    requires c.Valid() && Inv(c, s) && Enabled(c, s, a) && a.OfTask() && a.t < |s.tasks|
    requires |Next(c, s, a).tasks| == |s.tasks|
    ensures TaskOk(c, Next(c, s, a), a.t)
  {
    var t := a.t;
    assert TaskOk(c, s, t);
    match a {
      case Begin(_) =>
        assert EntrySlot(c, s, t);
        assert c.Preset(t) ==> c.entries[t] in c.preset;
        NothingRead(c, t);
      case Look(_) =>
        LooksAtFinalResult(c, s, t);
        AsksForEarlier(c, t, s.tasks[t].got);
      case _ =>
    }
  }

  lemma PresetSlotsKept(c: Config, s: State, a: Action)
    requires c.Valid() && Inv(c, s) && Enabled(c, s, a)
    ensures PresetSlots(c, Next(c, s, a))
  {
    if a.OfTask() {
      assert TaskOk(c, s, a.t);
      forall x | x in c.preset
        ensures SlotOf(Next(c, s, a), x) == Final(c.preset[x])
      {
        assert SlotOf(s, x) == Final(c.preset[x]);
      }
    } else {
      ThreadsLeaveTasks(c, s, a);
    }
  }

  lemma SameEntrySlot(c: Config, s: State, s': State, u: nat)
    requires u < |c.entries| && EntrySlot(c, s, u)
    requires SlotOf(s', c.entries[u]) == SlotOf(s, c.entries[u])
    requires u < |s.tasks| ==>
      u < |s'.tasks| && (s'.tasks[u] == s.tasks[u] || (s.tasks[u].Sleeping? && s'.tasks[u] == Reading(s.tasks[u].got)))
    requires |s.tasks| <= u < |s'.tasks| ==> s'.tasks[u].Starting?
    ensures EntrySlot(c, s', u)
  {
  }

  lemma EntrySlotKept(c: Config, s: State, a: Action, u: nat)
    requires c.Valid() && Inv(c, s) && Enabled(c, s, a) && u < |c.entries|
    ensures EntrySlot(c, Next(c, s, a), u)
  {
    assert EntrySlot(c, s, u);
    if !a.OfTask() {
      ThreadsLeaveTasks(c, s, a);
      SameEntrySlot(c, s, Next(c, s, a), u);
    } else if u == a.t {
      TasksKeepCount(c, s, a);
      ActingSlot(c, s, a);
    } else {
      TasksKeepCount(c, s, a);
      TasksLeaveSlots(c, s, a, c.entries[u]);
      if u < |s.tasks| {
        TasksLeaveOthers(c, s, a, u);
      }
      SameEntrySlot(c, s, Next(c, s, a), u);
    }
  }

  lemma ActingSlot(c: Config, s: State, a: Action)
    requires c.Valid() && Inv(c, s) && Enabled(c, s, a) && a.OfTask()
    requires a.t < |s.tasks| <= |c.entries|
    ensures EntrySlot(c, Next(c, s, a), a.t)
  {
    assert TaskOk(c, s, a.t) && EntrySlot(c, s, a.t);
    if !a.Store? {
      OwnSlot(c, s, a);
    } else if !c.Preset(a.t) {
      AnswersSequentially(c, a.t, s.tasks[a.t].got);
      StoredSlot(c, s, a.t);
    }
  }

  lemma OwnSlot(c: Config, s: State, a: Action)
    requires Enabled(c, s, a) && a.OfTask() && !a.Store?
    requires a.t < |s.tasks| <= |c.entries| && EntrySlot(c, s, a.t)
    ensures EntrySlot(c, Next(c, s, a), a.t)
  {
    var task := s.tasks[a.t];
    if !a.Begin? {
      OwnSlotUntouched(c, s, a);
      var task' := Next(c, s, a).tasks[a.t];
      assert HoldsOwn(task) <==> HoldsOwn(task');
    }
  }

  lemma OwnSlotUntouched(c: Config, s: State, a: Action)
    requires Enabled(c, s, a) && a.OfTask() && !a.Store? && !a.Begin?
    ensures Next(c, s, a).slots == s.slots && a.t < |Next(c, s, a).tasks| == |s.tasks|
    ensures var task, task' := s.tasks[a.t], Next(c, s, a).tasks[a.t];
      if HoldsOwn(task) then HoldsOwn(task') else task.Notifying? && task'.Finished?
  {
  }

  lemma StoredSlot(c: Config, s: State, t: nat)
    requires Enabled(c, s, Store(t))
    requires c.NextStep(t, s.tasks[t].got).v == SequentialResult(c, c.entries[t])
    ensures EntrySlot(c, Next(c, s, Store(t)), t)
  {
  }

  /** A sleeper stays asleep with no more tasks finished that it waits for. */
  lemma SameSleeperOk(c: Config, s: State, s': State, u: nat)
    requires u < |s.tasks| == |s'.tasks| && s'.tasks[u] == s.tasks[u] && SleeperOk(c, s, u)
    requires forall v :: 0 <= v < |s.tasks| && v < |c.entries| && s'.tasks[v].Finished? && AwaitsEntry(c, s, u, v) ==>
      s.tasks[v].Finished?
    ensures SleeperOk(c, s', u)
  {
  }

  /** Task u sleeps until entry v has a result. */
  ghost predicate AwaitsEntry(c: Config, s: State, u: nat, v: nat)
    requires u < |s.tasks| && v < |c.entries|
  {
    s.tasks[u].Sleeping? && ReadsNext(c, u, s.tasks[u], c.entries[v]) && c.entries[v] !in c.preset
  }

  /** A task with no result beforehand finishes by waking its readers. */
  lemma FinishesByNotifying(c: Config, s: State, a: Action)
    requires Enabled(c, s, a) && a.OfTask() && a.t < |s.tasks| && a.t < |c.entries| && !s.tasks[a.t].Finished?
    ensures Next(c, s, a).tasks[a.t].Finished? ==>
      a.NotifyReaders? || (s.tasks[a.t].Starting? && SlotOf(s, c.entries[a.t]) != NoResult)
  {
  }

  lemma NotifyingWakes(c: Config, s: State, t: nat, u: nat)
    requires Enabled(c, s, NotifyReaders(t)) && u < |s.tasks| && u != t && ReadsNext(c, u, s.tasks[u], c.entries[t])
    ensures !Next(c, s, NotifyReaders(t)).tasks[u].Sleeping?
  {
  }

  lemma OtherSleeperKept(c: Config, s: State, a: Action, u: nat)
    requires c.Valid() && Inv(c, s) && Enabled(c, s, a) && a.OfTask() && u < |s.tasks| && u != a.t
    ensures u < |Next(c, s, a).tasks| && SleeperOk(c, Next(c, s, a), u)
  {
    var s' := Next(c, s, a);
    assert SleeperOk(c, s, u) && EntrySlot(c, s, a.t);
    TasksKeepCount(c, s, a);
    TasksLeaveOthers(c, s, a, u);
    if !s.tasks[a.t].Finished? {
      FinishesByNotifying(c, s, a);
    }
    if a.NotifyReaders? && ReadsNext(c, u, s.tasks[u], c.entries[a.t]) {
      NotifyingWakes(c, s, a.t, u);
    }
    if s'.tasks[u].Sleeping? {
      forall v | 0 <= v < |s.tasks| && v < |c.entries| && s'.tasks[v].Finished? && AwaitsEntry(c, s, u, v)
        ensures s.tasks[v].Finished?
      {
        if v != a.t {
          TasksLeaveOthers(c, s, a, v);
        }
      }
      SameSleeperOk(c, s, s', u);
    }
  }

  lemma ActingSleeper(c: Config, s: State, a: Action)
    requires c.Valid() && Inv(c, s) && Enabled(c, s, a) && a.OfTask() && a.t < |s.tasks|
    ensures a.t < |Next(c, s, a).tasks| && SleeperOk(c, Next(c, s, a), a.t)
  {
    TasksKeepCount(c, s, a);
    if a.Look? {
      LooksAtFinalResult(c, s, a.t);
      LookingSleeper(c, s, a.t);
    } else {
      assert SleeperOk(c, s, a.t);
      assert !Next(c, s, a).tasks[a.t].Sleeping?;
    }
  }

  lemma LookingSleeper(c: Config, s: State, t: nat)
    requires Enabled(c, s, Look(t))
    requires var x := c.NextStep(t, s.tasks[t].got).a;
      SlotOf(s, x) == NoResult ==>
        && x !in c.preset
        && forall u :: 0 <= u < |s.tasks| && u < |c.entries| && c.entries[u] == x ==> s.tasks[u].Starting?
    ensures t < |Next(c, s, Look(t)).tasks| && SleeperOk(c, Next(c, s, Look(t)), t)
  {
  }

  lemma SleeperKeptByTask(c: Config, s: State, a: Action, u: nat)
    requires c.Valid() && Inv(c, s) && Enabled(c, s, a) && a.OfTask() && u < |s.tasks|
    ensures u < |Next(c, s, a).tasks| && SleeperOk(c, Next(c, s, a), u)
  {
    if u == a.t {
      ActingSleeper(c, s, a);
    } else {
      OtherSleeperKept(c, s, a, u);
    }
  }

  lemma SleepersKept(c: Config, s: State, a: Action)
    requires c.Valid() && Inv(c, s) && Enabled(c, s, a) && QueueInv(c, Next(c, s, a))
    ensures forall u :: 0 <= u < |Next(c, s, a).tasks| ==> SleeperOk(c, Next(c, s, a), u)
  {
    forall u | 0 <= u < |Next(c, s, a).tasks|
      ensures SleeperOk(c, Next(c, s, a), u)
    {
      if a.OfTask() {
        TasksKeepCount(c, s, a);
        SleeperKeptByTask(c, s, a, u);
      } else {
        SleeperKeptByThreads(c, s, a, u);
      }
    }
  }

  lemma SleeperKeptByThreads(c: Config, s: State, a: Action, u: nat)
    requires c.Valid() && Inv(c, s) && Enabled(c, s, a) && !a.OfTask() && u < |Next(c, s, a).tasks|
    ensures SleeperOk(c, Next(c, s, a), u)
  {
    ThreadsLeaveTasks(c, s, a);
    assert u < |s.tasks| ==> SleeperOk(c, s, u);
  }

  /** The mutex an action acquires. */
  predicate Acquires(c: Config, s: State, a: Action, u: nat, x: AbsAddress) {
    (a == Begin(u) && u < |c.entries| && c.entries[u] == x) ||
      (a == Fetch(u) && u < |s.tasks| && ReadsNext(c, u, s.tasks[u], x))
  }

  lemma ExclusiveKept(c: Config, s: State, a: Action)
    requires c.Valid() && Inv(c, s) && Enabled(c, s, a)
    ensures Exclusive(c, Next(c, s, a))
  {
    var s' := Next(c, s, a);
    forall t, u, x | Holds(c, s', t, x) && Holds(c, s', u, x)
      ensures t == u
    {
      HeldOrAcquired(c, s, a, t, x);
      HeldOrAcquired(c, s, a, u, x);
    }
  }

  lemma HeldOrAcquired(c: Config, s: State, a: Action, u: nat, x: AbsAddress)
    requires Enabled(c, s, a) && Holds(c, Next(c, s, a), u, x)
    ensures Holds(c, s, u, x) || (Acquires(c, s, a, u, x) && !Locked(c, s, x))
  {
    if !a.OfTask() {
      ThreadsLeaveTasks(c, s, a);
    } else if u != a.t {
      if u < |s.tasks| {
        TasksLeaveOthers(c, s, a, u);
      }
    }
  }

  /** Every step keeps the invariant. */
  lemma StepKeepsInv(c: Config, s: State, a: Action)
    requires c.Valid() && Inv(c, s) && Enabled(c, s, a)
    ensures Inv(c, Next(c, s, a))
  {
    if a.OfTask() {
      QueueKeptByTask(c, s, a);
    } else {
      QueueKept(c, s, a);
    }
    TasksKept(c, s, a);
    PresetSlotsKept(c, s, a);
    forall u | 0 <= u < |c.entries|
      ensures EntrySlot(c, Next(c, s, a), u)
    {
      EntrySlotKept(c, s, a, u);
    }
    SleepersKept(c, s, a);
    ExclusiveKept(c, s, a);
  }

  predicate Terminal(s: State) {
    s.producer.AllPushed? && s.consumer.AllJoined?
  }

  lemma FirstUnfinished(s: State, t: nat) returns (m: nat)
    requires t < |s.tasks| && !s.tasks[t].Finished?
    ensures m <= t && !s.tasks[m].Finished? && forall u :: 0 <= u < m ==> s.tasks[u].Finished?
  {
    m := 0;
    while s.tasks[m].Finished?
      invariant m <= t && forall u :: 0 <= u < m ==> s.tasks[u].Finished?
      decreases t - m
    {
      m := m + 1;
    }
  }

  /** When a task holds a mutex that the first unfinished task wants, it is
      looking at a result, and can go on. */
  lemma HolderGoesOn(c: Config, s: State, m: nat, x: AbsAddress) returns (a: Action)
    requires c.Valid() && Inv(c, s) && m < |s.tasks|
    requires forall u :: 0 <= u < m ==> s.tasks[u].Finished?
    requires Locked(c, s, x)
    requires x in c.preset || x in c.entries[..m] || (s.tasks[m].Starting? && x == c.entries[m])
    ensures Enabled(c, s, a) && !a.Spurious()
  {
    var t :| 0 <= t < |s.tasks| && Holds(c, s, t, x);
    assert TaskOk(c, s, t);
    HolderLooks(c, s, m, x, t);
    a := Look(t);
  }

  lemma HolderLooks(c: Config, s: State, m: nat, x: AbsAddress, t: nat)
    requires Distinct(c.entries) && m < |s.tasks| <= |c.entries| && t < |s.tasks| && Holds(c, s, t, x)
    requires c.Preset(t) ==> !HoldsOwn(s.tasks[t])
    requires forall u :: 0 <= u < m ==> s.tasks[u].Finished?
    requires x in c.preset || x in c.entries[..m] || (s.tasks[m].Starting? && x == c.entries[m])
    ensures Enabled(c, s, Look(t))
  {
    if HoldsOwn(s.tasks[t]) && c.entries[t] == x {
      assert false;
    }
  }

  /** The first unfinished task, or the holder of the mutex it wants, can go on. */
  lemma FirstTaskGoesOn(c: Config, s: State, m: nat) returns (a: Action)
    requires c.Valid() && Inv(c, s) && m < |s.tasks| && !s.tasks[m].Finished?
    requires forall u :: 0 <= u < m ==> s.tasks[u].Finished?
    ensures Enabled(c, s, a) && !a.Spurious()
  {
    assert TaskOk(c, s, m) && SleeperOk(c, s, m);
    match s.tasks[m]
    case Starting =>
      a := Begin(m);
      if Locked(c, s, c.entries[m]) {
        a := HolderGoesOn(c, s, m, c.entries[m]);
      }
    case Reading(got) =>
      a := Store(m);
      if c.NextStep(m, got).Ask? {
        a := Fetch(m);
        AsksForEarlier(c, m, got);
        if Locked(c, s, c.NextStep(m, got).a) {
          a := HolderGoesOn(c, s, m, c.NextStep(m, got).a);
        }
      }
    case Looking(_) => a := Look(m);
    case Sleeping(got) =>
      AsksForEarlier(c, m, got);
      assert false;
    case Notifying => a := NotifyReaders(m);
  }

  /** No reachable unfinished state is stuck: there is always a step that does
      not rely on a spurious wake-up. */
  lemma Progress(c: Config, s: State) returns (a: Action)
    requires c.Valid() && Inv(c, s) && !Terminal(s)
    ensures Enabled(c, s, a) && !a.Spurious()
  {
    if s.producer.Pushing? {
      a := Push;
    } else if s.producer.Pushed? {
      a := NotifyConsumer;
    } else if s.consumer.Taking? {
      a := Take;
    } else if s.consumer.Joined? {
      a := NotifyProducer;
    } else if s.consumer.Joining? {
      if s.tasks[s.consumer.j].Finished? {
        a := Join;
      } else {
        var m := FirstUnfinished(s, s.consumer.j);
        a := FirstTaskGoesOn(c, s, m);
      }
    } else {
      assert false;
    }
  }

  /** At most thread count + 1 pushed interpretations are not yet joined. */
  lemma BoundedAhead(c: Config, s: State)
    requires c.Valid() && Inv(c, s)
    ensures |s.futures| <= c.maxQueue && |s.tasks| - JoinedCount(c, s) <= c.maxQueue + 1
  {
  }

  // ---- termination ----

  /** How often an entry that is on track has still to read. */
  ghost function Remaining(c: Config, t: nat, got: seq<Value>): nat {
    if |got| <= ReadCount(c, t) then ReadCount(c, t) - |got| else 0
  }

  ghost function TaskRank(c: Config, t: nat, task: Task): nat {
    var n := |c.entries|;
    match task
    case Starting => 2 * n + 6 + 3 * ReadCount(c, t)
    case Reading(got) => 2 * n + 5 + 3 * Remaining(c, t, got)
    case Looking(got) => 2 * n + 4 + 3 * Remaining(c, t, got)
    case Sleeping(got) => 2 * n + 3 + 3 * Remaining(c, t, got)
    case Notifying => 2 * n + 1
    case Finished => 0
  }

  /** A task that has not been pushed has everything ahead of it. */
  ghost function RankAt(c: Config, tasks: seq<Task>, t: nat): nat {
    TaskRank(c, t, if t < |tasks| then tasks[t] else Starting)
  }

  ghost function RankSum(c: Config, tasks: seq<Task>, k: nat): nat {
    if k == 0 then 0 else RankSum(c, tasks, k - 1) + RankAt(c, tasks, k - 1)
  }

  function ProducerRank(c: Config, p: Producer): int {
    var n := |c.entries|;
    match p
    case Pushing(i) => 4 * (n - i)
    case AwaitingRoom(i) => 4 * (n - i) - 1
    case Pushed(i) => 4 * (n - i) - 2
    case AllPushed => 0
  }

  function ConsumerRank(c: Config, q: Consumer): int {
    var n := |c.entries|;
    match q
    case Taking(j) => 4 * (n - j)
    case AwaitingTask(j) => 4 * (n - j) - 1
    case Joining(j) => 4 * (n - j) - 1
    case Joined(j) => 4 * (n - j) - 2
    case AllJoined => 0
  }

  ghost function Measure(c: Config, s: State): int {
    ProducerRank(c, s.producer) + ConsumerRank(c, s.consumer) + RankSum(c, s.tasks, |c.entries|)
  }

  lemma MeasureNatural(c: Config, s: State)
    requires c.Valid() && Inv(c, s)
    ensures Measure(c, s) >= 0
  {
  }

  /** Task t loses at least d, every other one gains at most slack. */
  lemma {:induction false} RankSumChange(c: Config, before: seq<Task>, after: seq<Task>, k: nat, t: nat, d: nat,
          wakes: bool)
    requires forall u :: 0 <= u < k && u != t ==> RankAt(c, after, u) <= RankAt(c, before, u) + if wakes then 2 else 0
    requires t < k ==> RankAt(c, after, t) + d <= RankAt(c, before, t)
    ensures RankSum(c, after, k) + (if t < k then d else 0) <= RankSum(c, before, k) + if wakes then 2 * k else 0
  {
    if k == 0 {
    } else {
      RankSumChange(c, before, after, k - 1, t, d, wakes);
    }
  }

  lemma ActingRank(c: Config, s: State, a: Action)
    requires c.Valid() && Inv(c, s) && Enabled(c, s, a) && a.OfTask()
    ensures a.t < |s.tasks| <= |c.entries|
    ensures var before, after := RankAt(c, s.tasks, a.t), RankAt(c, Next(c, s, a).tasks, a.t);
      match a
      case NotifyReaders(_) => after + 2 * |c.entries| + 1 <= before
      case SpuriousTask(_) => after <= before + 2
      case _ => after + 1 <= before
  {
    assert TaskOk(c, s, a.t);
    if a.Look? {
      AsksForEarlier(c, a.t, s.tasks[a.t].got);
      LookRank(c, s, a.t);
    } else {
      OwnRank(c, s, a);
    }
  }

  lemma LookRank(c: Config, s: State, t: nat)
    requires Enabled(c, s, Look(t)) && |s.tasks[t].got| < ReadCount(c, t)
    ensures RankAt(c, Next(c, s, Look(t)).tasks, t) + 1 <= RankAt(c, s.tasks, t)
  {
    var got, task' := s.tasks[t].got, Next(c, s, Look(t)).tasks[t];
    assert task' == Sleeping(got) || (task'.Reading? && |task'.got| == |got| + 1);
  }

  lemma OwnRank(c: Config, s: State, a: Action)
    requires Enabled(c, s, a) && a.OfTask() && !a.Look?
    ensures var before, after := RankAt(c, s.tasks, a.t), RankAt(c, Next(c, s, a).tasks, a.t);
      match a
      case NotifyReaders(_) => after + 2 * |c.entries| + 1 <= before
      case SpuriousTask(_) => after <= before + 2
      case _ => after + 1 <= before
  {
  }

  lemma OtherRank(c: Config, s: State, a: Action, u: nat)
    requires Enabled(c, s, a) && a.OfTask() && u != a.t
    ensures RankAt(c, Next(c, s, a).tasks, u) <= RankAt(c, s.tasks, u) + if a.NotifyReaders? then 2 else 0
  {
    if u < |s.tasks| {
      TasksLeaveOthers(c, s, a, u);
    }
  }

  lemma TaskStepLowers(c: Config, s: State, a: Action)
    requires c.Valid() && Inv(c, s) && Enabled(c, s, a) && a.OfTask()
    ensures RankSum(c, Next(c, s, a).tasks, |c.entries|) <=
            RankSum(c, s.tasks, |c.entries|) + if a.Spurious() then 2 else -1
  {
    var t, after, n := a.t, Next(c, s, a).tasks, |c.entries|;
    ActingRank(c, s, a);
    forall u | 0 <= u < n && u != t
      ensures RankAt(c, after, u) <= RankAt(c, s.tasks, u) + if a.NotifyReaders? then 2 else 0
    {
      OtherRank(c, s, a, u);
    }
    if a.SpuriousTask? {
      RankSumOneMore(c, s.tasks, after, n, t);
    } else {
      RankSumChange(c, s.tasks, after, n, t, if a.NotifyReaders? then 2 * n + 1 else 1, a.NotifyReaders?);
    }
  }

  lemma {:induction false} RankSumOneMore(c: Config, before: seq<Task>, after: seq<Task>, k: nat, t: nat)
    requires forall u :: 0 <= u < k && u != t ==> RankAt(c, after, u) <= RankAt(c, before, u)
    requires t < k ==> RankAt(c, after, t) <= RankAt(c, before, t) + 2
    ensures RankSum(c, after, k) <= RankSum(c, before, k) + if t < k then 2 else 0
  {
    if k == 0 {
    } else {
      RankSumOneMore(c, before, after, k - 1, t);
    }
  }

  lemma ThreadStepLowers(c: Config, s: State, a: Action)
    requires c.Valid() && QueueInv(c, s) && Enabled(c, s, a) && !a.OfTask()
    ensures var s' := Next(c, s, a);
      ProducerRank(c, s'.producer) + ConsumerRank(c, s'.consumer) <=
      ProducerRank(c, s.producer) + ConsumerRank(c, s.consumer) + if a.Spurious() then 2 else -1
  {
  }

  lemma TasksLeaveThreads(c: Config, s: State, a: Action)
    requires Enabled(c, s, a) && a.OfTask()
    ensures Next(c, s, a).producer == s.producer && Next(c, s, a).consumer == s.consumer
    ensures Next(c, s, a).futures == s.futures
  {
  }

  /** Every step but a spurious wake-up brings the run closer to its end. */
  lemma StepLowersMeasure(c: Config, s: State, a: Action)
    requires c.Valid() && Inv(c, s) && Enabled(c, s, a)
    ensures Measure(c, Next(c, s, a)) <= Measure(c, s) + if a.Spurious() then 2 else -1
  {
    if a.OfTask() {
      TasksLeaveThreads(c, s, a);
      TaskStepLowers(c, s, a);
    } else {
      ThreadStepLowers(c, s, a);
      ThreadsLeaveTasks(c, s, a);
      RankSumChange(c, s.tasks, Next(c, s, a).tasks, |c.entries|, |c.entries|, 0, false);
    }
  }

  // ---- whole runs ----

  ghost predicate IsRun(c: Config, states: seq<State>, actions: seq<Action>) {
    && |states| == |actions| + 1
    && states[0] == Initial(c)
    && forall i :: 0 <= i < |actions| ==>
         Enabled(c, states[i], actions[i]) && states[i + 1] == Next(c, states[i], actions[i])
  }

  function SpuriousSteps(actions: seq<Action>): nat {
    if actions == [] then 0 else
      SpuriousSteps(actions[..|actions| - 1]) + if actions[|actions| - 1].Spurious() then 1 else 0
  }

  lemma RunPrefix(c: Config, states: seq<State>, actions: seq<Action>)
    requires IsRun(c, states, actions) && actions != []
    ensures IsRun(c, states[..|actions|], actions[..|actions| - 1])
  {
  }

  /** Every schedule keeps the invariant, and its ordinary steps are bounded. */
  lemma {:induction false} RunInvariant(c: Config, states: seq<State>, actions: seq<Action>)
    requires c.Valid() && IsRun(c, states, actions)
    ensures Inv(c, states[|actions|])
    ensures 0 <= Measure(c, states[|actions|])
    ensures Measure(c, states[|actions|]) + |actions| <= Measure(c, Initial(c)) + 3 * SpuriousSteps(actions)
    decreases |actions|
  {
    if actions == [] {
      InitialInv(c);
    } else {
      var n := |actions| - 1;
      RunPrefix(c, states, actions);
      RunInvariant(c, states[..n + 1], actions[..n]);
      assert states[n + 1] == Next(c, states[n], actions[n]);
      StepKeepsInv(c, states[n], actions[n]);
      StepLowersMeasure(c, states[n], actions[n]);
    }
    MeasureNatural(c, states[|actions|]);
  }

  /** At the end every cell has its sequential result. */
  lemma TerminalResults(c: Config, s: State, x: AbsAddress)
    requires c.Valid() && Inv(c, s) && Terminal(s) && (x in c.preset || x in c.entries)
    ensures SlotOf(s, x) == Final(SequentialResult(c, x))
  {
    if x in c.preset {
      PresetResult(c, x);
    } else {
      var t :| 0 <= t < |c.entries| && c.entries[t] == x;
      assert EntrySlot(c, s, t);
      assert s.tasks[t].Finished?;
    }
  }

  /** Every schedule of the threads that cannot go on has ended, and every
      schedule that has ended leaves the results of the sequential run. */
  lemma ThreadsMatchSequentialRun(c: Config, states: seq<State>, actions: seq<Action>)
    requires c.Valid() && IsRun(c, states, actions)
    ensures var last := states[|actions|];
      && ((forall a :: Enabled(c, last, a) ==> a.Spurious()) ==> Terminal(last))
      && (Terminal(last) ==> forall x :: x in c.preset || x in c.entries ==>
        SlotOf(last, x) == Final(SequentialResult(c, x)))
  {
    RunInvariant(c, states, actions);
    var last := states[|actions|];
    if !Terminal(last) {
      var a := Progress(c, last);
    } else {
      forall x | x in c.preset || x in c.entries
        ensures SlotOf(last, x) == Final(SequentialResult(c, x))
      {
        TerminalResults(c, last, x);
      }
    }
  }

  /** The actions lead from s to the end. */
  ghost predicate Completes(c: Config, s: State, actions: seq<Action>)
    decreases |actions|
  {
    if actions == [] then Terminal(s)
    else Enabled(c, s, actions[0]) && Completes(c, Next(c, s, actions[0]), actions[1..])
  }

  /** However far the threads have come, they can be scheduled to the end. */
  lemma CanComplete(c: Config, s: State) returns (actions: seq<Action>)
    requires c.Valid() && Inv(c, s)
    ensures Completes(c, s, actions)
    decreases Measure(c, s)
  {
    MeasureNatural(c, s);
    if Terminal(s) {
      actions := [];
    } else {
      var a := Progress(c, s);
      StepKeepsInv(c, s, a);
      StepLowersMeasure(c, s, a);
      MeasureNatural(c, Next(c, s, a));
      var more := CanComplete(c, Next(c, s, a));
      actions := [a] + more;
      assert actions[1..] == more;
    }
  }

  lemma CanCompleteSomehow(c: Config, s: State)
    requires c.Valid() && Inv(c, s)
    ensures exists actions :: Completes(c, s, actions)
  {
    var actions := CanComplete(c, s);
  }

  /** No task ever takes a placeholder for a result. */
  lemma NoPlaceholderIsRead(c: Config, states: seq<State>, actions: seq<Action>, i: nat)
    requires c.Valid() && IsRun(c, states, actions) && i < |actions| && actions[i].Look?
    ensures var s, t := states[i], actions[i].t;
      && t < |s.tasks| && s.tasks[t].Looking? && c.NextStep(t, s.tasks[t].got).Ask?
      && !SlotOf(s, c.NextStep(t, s.tasks[t].got).a).Placeholder?
  {
    assert IsRun(c, states[..i + 1], actions[..i]);
    RunInvariant(c, states[..i + 1], actions[..i]);
    LooksAtFinalResult(c, states[i], actions[i].t);
  }
}
