/** The queue run on the entries of a recalculation: the threads give every
    formula cell the meaning that the sheet gives it. */
module ThreadedCalculation {
  import opened Address
  import opened DepthFirstSearch
  import opened Recalculation
  import opened SheetTracking
  import opened Calculation
  import opened AdaptiveReading
  import opened SequentialInterpretation
  import opened CellQueue

  type Readers = AbsAddress -> Reader

  /** Results for exactly the formula cells that e refers to. */
  ghost predicate OnReferences(s: Sheet, e: AbsAddress, results: Results) {
    forall b :: b in results <==> IsFormula(s, b) && DependsOn(s)(e, b)
  }

  /** The contents of the references of a formula, given those results. */
  ghost function EnvironmentOf(s: Sheet, f: Formula, results: Results): Environment {
    map b | b in s && f.Covers(b) ::
      if IsFormula(s, b) then Seen(if b in results then results[b] else PLACEHOLDER, true) else Seen(s[b].v, false)
  }

  /** Whatever results its references have, reading some of them, each choice
      depending on what was read before, ends with the value of the formula. */
  ghost predicate Interprets(s: Sheet, now: int, e: AbsAddress, r: Reader)
    requires IsFormula(s, e)
  {
    forall results: Results :: OnReferences(s, e, results) ==>
      CanFinish(r, results) && ResultFrom(r, results) == s[e].f.Evaluate(now, EnvironmentOf(s, s[e].f, results))
  }

  /** The results there are once the circular pass is over: those of circular
      entries, and those of the cells that are not recalculated. */
  ghost function PresetResults(s: Sheet, clock: Clock, entries: seq<AbsAddress>): Results {
    map a | a in s && IsFormula(s, a) && (a !in entries || Circular(s, a)) :: Meaning(s, clock, a)
  }

  ghost function QueueFor(s: Sheet, clock: Clock, entries: seq<AbsAddress>, readers: Readers, threads: nat): Config {
    Config(entries, readers, PresetResults(s, clock, entries), threads)
  }

  ghost predicate AllInterpret(s: Sheet, clock: Clock, readers: Readers) {
    forall e :: IsFormula(s, e) && !Circular(s, e) ==> Interprets(s, clock(e), e, readers(e))
  }

  ghost predicate Ready(s: Sheet, clock: Clock, entries: seq<AbsAddress>, readers: Readers, threads: nat) {
    && threads >= 1
    && Distinct(entries) && (forall e :: e in entries ==> IsFormula(s, e))
    && ReferencesFirst(s, entries) && AllInterpret(s, clock, readers)
  }

  /** The results of m are meanings of cells. */
  ghost predicate AreMeanings(s: Sheet, clock: Clock, m: Results) {
    forall a :: a in m ==> a in s && m[a] == Meaning(s, clock, a)
  }

  ghost function ReferenceMeanings(s: Sheet, clock: Clock, e: AbsAddress): (results: Results)
    requires IsFormula(s, e)
    ensures OnReferences(s, e, results) && AreMeanings(s, clock, results)
  {
    map b | b in s && IsFormula(s, b) && s[e].f.Covers(b) :: Meaning(s, clock, b)
  }

  /** An interpretation that finds the meanings of all its references, among
      other results, computes the meaning of its cell. */
  lemma ReadsItsMeaning(s: Sheet, clock: Clock, e: AbsAddress, r: Reader, m: Results)
    requires IsFormula(s, e) && !Circular(s, e) && Interprets(s, clock(e), e, r) && AreMeanings(s, clock, m)
    requires forall b :: IsFormula(s, b) && DependsOn(s)(e, b) ==> b in m
    ensures CanFinish(r, m) && ResultFrom(r, m) == Meaning(s, clock, e)
  {
    var results := ReferenceMeanings(s, clock, e);
    var full := AllRead(r, results);
    ReadFromMore(r, results, m, full);
    ResultIs(r, m, full);
    ResultIs(r, results, full);
    MeaningUnfolds(s, clock, e, EnvironmentOf(s, s[e].f, results));
  }

  /** What entry t may read is there by its turn. */
  lemma ReferencesAreThere(s: Sheet, clock: Clock, entries: seq<AbsAddress>, readers: Readers, threads: nat, t: nat)
    requires Ready(s, clock, entries, readers, threads) && t < |entries| && !Circular(s, entries[t])
    ensures forall b :: IsFormula(s, b) && DependsOn(s)(entries[t], b) ==>
      b in SequentialRun(QueueFor(s, clock, entries, readers, threads), t)
  {
    var c := QueueFor(s, clock, entries, readers, threads);
    forall b | IsFormula(s, b) && DependsOn(s)(entries[t], b)
      ensures b in SequentialRun(c, t)
    {
      ReferenceComesEarlier(s, entries, t, b);
      RunKeys(c, t, b);
    }
  }

  /** Interpreting entry t on the meanings known at its turn gives its meaning. */
  lemma EntryReads(s: Sheet, clock: Clock, entries: seq<AbsAddress>, readers: Readers, threads: nat, t: nat, m: Results)
    requires Ready(s, clock, entries, readers, threads) && t < |entries| &&
      entries[t] !in PresetResults(s, clock, entries)
    requires m == SequentialRun(QueueFor(s, clock, entries, readers, threads), t) && AreMeanings(s, clock, m)
    ensures CanFinish(readers(entries[t]), m) && ResultFrom(readers(entries[t]), m) == Meaning(s, clock, entries[t])
  {
    assert entries[t] in entries;
    ReferencesAreThere(s, clock, entries, readers, threads, t);
    ReadsItsMeaning(s, clock, entries[t], readers(entries[t]), m);
  }

  lemma OneMoreMeaning(s: Sheet, clock: Clock, c: Config, e: AbsAddress, m: Results)
    requires AreMeanings(s, clock, m) && e in s
    requires e !in m ==> ResultFrom(c.readers(e), m) == Meaning(s, clock, e)
    ensures AreMeanings(s, clock, InterpretNext(c, e, m))
  {
  }

  /** The sequential results of the queue are the meanings of the cells. */
  lemma {:induction false} QueueComputesMeaning(s: Sheet, clock: Clock, entries: seq<AbsAddress>, readers: Readers,
          threads: nat, k: nat)
    requires Ready(s, clock, entries, readers, threads) && k <= |entries|
    ensures AreMeanings(s, clock, SequentialRun(QueueFor(s, clock, entries, readers, threads), k))
    decreases k
  {
    if k == 0 {
      PresetAreMeanings(s, clock, entries);
    } else {
      QueueComputesMeaning(s, clock, entries, readers, threads, k - 1);
      NextComputesMeaning(s, clock, entries, readers, threads, k - 1);
    }
  }

  lemma PresetAreMeanings(s: Sheet, clock: Clock, entries: seq<AbsAddress>)
    ensures AreMeanings(s, clock, PresetResults(s, clock, entries))
  {
  }

  lemma NextComputesMeaning(s: Sheet, clock: Clock, entries: seq<AbsAddress>, readers: Readers, threads: nat, k: nat)
    requires Ready(s, clock, entries, readers, threads) && k < |entries|
    requires AreMeanings(s, clock, SequentialRun(QueueFor(s, clock, entries, readers, threads), k))
    ensures AreMeanings(s, clock, SequentialRun(QueueFor(s, clock, entries, readers, threads), k + 1))
  {
    var c, e := QueueFor(s, clock, entries, readers, threads), entries[k];
    var m := SequentialRun(c, k);
    RunKeys(c, k, e);
    if e !in m {
      EntryReads(s, clock, entries, readers, threads, k, m);
    }
    assert e in entries;
    OneMoreMeaning(s, clock, c, e, m);
  }

  lemma QueueIsValid(s: Sheet, clock: Clock, entries: seq<AbsAddress>, readers: Readers, threads: nat)
    requires Ready(s, clock, entries, readers, threads)
    ensures QueueFor(s, clock, entries, readers, threads).Valid()
  {
    var c := QueueFor(s, clock, entries, readers, threads);
    forall t | 0 <= t < |entries| && !c.Preset(t)
      ensures CanFinish(readers(entries[t]), SequentialRun(c, t))
    {
      QueueComputesMeaning(s, clock, entries, readers, threads, t);
      EntryReads(s, clock, entries, readers, threads, t, SequentialRun(c, t));
    }
  }

  lemma SequentialMeaning(s: Sheet, clock: Clock, entries: seq<AbsAddress>, readers: Readers, threads: nat,
          a: AbsAddress)
    requires Ready(s, clock, entries, readers, threads) && IsFormula(s, a)
    ensures SequentialResult(QueueFor(s, clock, entries, readers, threads), a) == Meaning(s, clock, a)
  {
    var c := QueueFor(s, clock, entries, readers, threads);
    QueueComputesMeaning(s, clock, entries, readers, threads, |entries|);
    RunKeys(c, |entries|, a);
    assert entries[..|entries|] == entries;
  }

  /** Under every schedule of the threads, a run that has ended has given every
      formula cell its meaning. */
  lemma ThreadedRecalculation(s: Sheet, clock: Clock, entries: seq<AbsAddress>, readers: Readers, threads: nat,
                              states: seq<State>, actions: seq<Action>, a: AbsAddress)
    requires Ready(s, clock, entries, readers, threads)
    requires IsRun(QueueFor(s, clock, entries, readers, threads), states, actions) && Terminal(states[|actions|])
    requires IsFormula(s, a)
    ensures SlotOf(states[|actions|], a) == Final(Meaning(s, clock, a))
  {
    QueueIsValid(s, clock, entries, readers, threads);
    ThreadsMatchSequentialRun(QueueFor(s, clock, entries, readers, threads), states, actions);
    SequentialMeaning(s, clock, entries, readers, threads, a);
  }

  // ---- readers ----

  /** Reads the listed cells one after another, then evaluates. */
  ghost function EagerReader(s: Sheet, now: int, e: AbsAddress, order: seq<AbsAddress>): Reader
    requires IsFormula(s, e)
  {
    (got: seq<Value>) =>
      if |got| < |order| then Ask(order[|got|])
      else Answer(s[e].f.Evaluate(now, EnvironmentOf(s, s[e].f, AsRead(order, got))))
  }

  ghost function AsRead(order: seq<AbsAddress>, got: seq<Value>): Results
    requires |order| <= |got|
  {
    map b | b in order :: got[IndexOf(order, b)]
  }

  function IndexOf(xs: seq<AbsAddress>, x: AbsAddress): (i: nat)
    requires x in xs
    ensures i < |xs| && xs[i] == x
  {
    if xs[0] == x then 0 else 1 + IndexOf(xs[1..], x)
  }

  lemma {:induction false} EagerReads(s: Sheet, now: int, e: AbsAddress, order: seq<AbsAddress>, results: Results,
                                      got: seq<Value>)
    requires IsFormula(s, e) && |got| <= |order|
    requires forall i :: 0 <= i < |got| ==> order[i] in results && got[i] == results[order[i]]
    ensures ReadFrom(EagerReader(s, now, e, order), results, got)
    decreases |got|
  {
    if got == [] {
    } else {
      EagerReads(s, now, e, order, results, got[..|got| - 1]);
    }
  }

  ghost function ResultsInOrder(order: seq<AbsAddress>, results: Results): (got: seq<Value>)
    requires forall b :: b in order ==> b in results
    ensures |got| == |order| && forall i :: 0 <= i < |got| ==> got[i] == results[order[i]]
  {
    if order == [] then [] else [results[order[0]]] + ResultsInOrder(order[1..], results)
  }

  lemma AllAsRead(order: seq<AbsAddress>, results: Results, got: seq<Value>)
    requires (forall b :: b in order <==> b in results) && |got| == |order|
    requires forall i :: 0 <= i < |got| ==> got[i] == results[order[i]]
    ensures AsRead(order, got) == results
  {
  }

  /** So every formula can be interpreted in this way, in any order of its
      references and with repetitions. */
  lemma EagerInterprets(s: Sheet, now: int, e: AbsAddress, order: seq<AbsAddress>)
    requires IsFormula(s, e) && forall b :: b in order <==> IsFormula(s, b) && DependsOn(s)(e, b)
    ensures Interprets(s, now, e, EagerReader(s, now, e, order))
  {
    var r := EagerReader(s, now, e, order);
    forall results: Results | OnReferences(s, e, results)
      ensures CanFinish(r, results) && ResultFrom(r, results) == s[e].f.Evaluate(now, EnvironmentOf(s, s[e].f, results))
    {
      var full := ResultsInOrder(order, results);
      EagerReads(s, now, e, order, results, full);
      AllAsRead(order, results, full);
      ResultIs(r, results, full);
    }
  }

  /** The members of a set, in some order. */
  ghost function Listed(addrs: set<AbsAddress>): (order: seq<AbsAddress>)
    ensures forall b :: b in order <==> b in addrs
  {
    if addrs == {} then []
    else
      var b :| b in addrs;
      [b] + Listed(addrs - {b})
  }

  ghost function EagerReaders(s: Sheet, clock: Clock): Readers {
    (e: AbsAddress) =>
      if IsFormula(s, e)
      then EagerReader(s, clock(e), e, Listed(set b | b in s && IsFormula(s, b) && DependsOn(s)(e, b)))
      else (got: seq<Value>) => Answer(PLACEHOLDER)
  }

  /** For every sheet there are readers that compute its formulas. */
  lemma ReadersExist(s: Sheet, clock: Clock)
    ensures exists readers :: AllInterpret(s, clock, readers)
  {
    var readers := EagerReaders(s, clock);
    forall e | IsFormula(s, e) && !Circular(s, e)
      ensures Interprets(s, clock(e), e, readers(e))
    {
      EagerInterprets(s, clock(e), e, Listed(set b | b in s && IsFormula(s, b) && DependsOn(s)(e, b)));
    }
    assert AllInterpret(s, clock, readers);
  }

  /** Reads x first, and stops at once when x has an error. */
  ghost function StopAtError(x: AbsAddress, r: Reader): Reader {
    (got: seq<Value>) => if got == [] then Ask(x) else if got[0].Error? then Answer(got[0]) else r(got)
  }

  /** Stopping early is as good for a formula that hands on an error of x. */
  lemma StoppingInterprets(s: Sheet, now: int, e: AbsAddress, x: AbsAddress, r: Reader)
    requires IsFormula(s, e) && Interprets(s, now, e, r) && r([]) == Ask(x) && IsFormula(s, x) && DependsOn(s)(e, x)
    requires forall env: Environment :: x in env && env[x].v.Error? ==> s[e].f.Evaluate(now, env) == env[x].v
    ensures Interprets(s, now, e, StopAtError(x, r))
  {
    var r' := StopAtError(x, r);
    forall results: Results | OnReferences(s, e, results)
      ensures CanFinish(r', results) && ResultFrom(r', results) ==
        s[e].f.Evaluate(now, EnvironmentOf(s, s[e].f, results))
    {
      var env := EnvironmentOf(s, s[e].f, results);
      assert x in env && env[x].v == results[x];
      if results[x].Error? {
        assert [results[x]][..0] == [];
        assert ReadFrom(r', results, [results[x]]);
        ResultIs(r', results, [results[x]]);
      } else {
        var full := AllRead(r, results);
        ReadPrefix(r, results, full, 0);
        StoppingReads(x, r, results, full);
        assert full != [] && full[0] == results[x];
        ResultIs(r', results, full);
      }
    }
  }

  lemma {:induction false} StoppingReads(x: AbsAddress, r: Reader, results: Results, got: seq<Value>)
    requires r([]) == Ask(x) && x in results && !results[x].Error? && ReadFrom(r, results, got)
    ensures ReadFrom(StopAtError(x, r), results, got)
    ensures got != [] ==> got[0] == results[x]
    decreases |got|
  {
    if got == [] {
    } else {
      var before := got[..|got| - 1];
      StoppingReads(x, r, results, before);
      assert before != [] ==> before[0] == got[0];
    }
  }

  /** Reads x first, then goes on as its value says. */
  ghost function ReadThen(x: AbsAddress, next: Value -> Reader): Reader {
    (got: seq<Value>) => if got == [] then Ask(x) else next(got[0])(got[1..])
  }

  ghost function Done(v: Value): Reader {
    (got: seq<Value>) => Answer(v)
  }

  lemma {:induction false} ReadsThen(x: AbsAddress, next: Value -> Reader, results: Results, got: seq<Value>)
    requires x in results && ReadFrom(next(results[x]), results, got)
    ensures ReadFrom(ReadThen(x, next), results, [results[x]] + got)
    decreases |got|
  {
    var v := results[x];
    if got == [] {
      assert ([v] + got)[..0] == [];
      assert ReadFrom(ReadThen(x, next), results, []);
    } else {
      var before := got[..|got| - 1];
      ReadsThen(x, next, results, before);
      assert ([v] + got)[..|got|] == [v] + before;
      assert ([v] + before)[1..] == before;
    }
  }

  lemma ReadThenFinishes(x: AbsAddress, next: Value -> Reader, results: Results)
    requires x in results && CanFinish(next(results[x]), results)
    ensures CanFinish(ReadThen(x, next), results)
    ensures ResultFrom(ReadThen(x, next), results) == ResultFrom(next(results[x]), results)
  {
    var v := results[x];
    var full := AllRead(next(v), results);
    ReadsThen(x, next, results, full);
    assert ([v] + full)[1..] == full;
    ResultIs(ReadThen(x, next), results, [v] + full);
    ResultIs(next(v), results, full);
  }

  lemma DoneFinishes(v: Value, results: Results)
    ensures CanFinish(Done(v), results) && ResultFrom(Done(v), results) == v
  {
    ResultIs(Done(v), results, []);
  }

  /** Reads a condition, then the branch that it selects and not the other. */
  ghost function Choose(x: AbsAddress, holds: Value -> bool, y: AbsAddress, z: AbsAddress): Reader {
    ReadThen(x, (v: Value) => if v.Error? then Done(v) else ReadThen(if holds(v) then y else z, Done))
  }

  /** Reading one branch is enough for a formula that selects among two. */
  lemma ChoosingInterprets(s: Sheet, now: int, e: AbsAddress, x: AbsAddress, holds: Value -> bool, y: AbsAddress,
          z: AbsAddress)
    requires IsFormula(s, e) && forall b :: b in {x, y, z} ==> IsFormula(s, b) && DependsOn(s)(e, b)
    requires forall env: Environment :: x in env && y in env && z in env ==>
      s[e].f.Evaluate(now, env) ==
        if env[x].v.Error? then env[x].v else if holds(env[x].v) then env[y].v else env[z].v
    ensures Interprets(s, now, e, Choose(x, holds, y, z))
  {
    forall results: Results | OnReferences(s, e, results)
      ensures CanFinish(Choose(x, holds, y, z), results)
      ensures ResultFrom(Choose(x, holds, y, z), results) == s[e].f.Evaluate(now, EnvironmentOf(s, s[e].f, results))
    {
      ChooseFinishes(x, holds, y, z, results);
      var env := EnvironmentOf(s, s[e].f, results);
      assert x in env && y in env && z in env;
    }
  }

  lemma ChooseFinishes(x: AbsAddress, holds: Value -> bool, y: AbsAddress, z: AbsAddress, results: Results)
    requires x in results && y in results && z in results
    ensures CanFinish(Choose(x, holds, y, z), results)
    ensures ResultFrom(Choose(x, holds, y, z), results) ==
            if results[x].Error? then results[x] else if holds(results[x]) then results[y] else results[z]
  {
    var v := results[x];
    if v.Error? {
      DoneFinishes(v, results);
    } else {
      var b := if holds(v) then y else z;
      DoneFinishes(results[b], results);
      ReadThenFinishes(b, Done, results);
    }
    ReadThenFinishes(x, (v: Value) => if v.Error? then Done(v) else ReadThen(if holds(v) then y else z, Done), results);
  }
}
