/** How the interpretation of a formula given by tokens reads the results of
    other formula cells: it asks for one where the descent takes, factors,
    negates or calls on a cell that has not been read, or ends with a reference
    to one. */
module FormulaReading {
  import opened Wrappers
  import opened Address
  import opened Recalculation
  import opened ExpressionGrammar
  import opened ExpressionTheorems
  import opened FormulaValues
  import opened FormulaLocality
  import opened AdaptiveReading
  import opened ThreadedCalculation
  import opened CellQueue
  import opened SortedCalculation
  import opened DepthFirstSearch
  import opened SheetTracking

  /** The operand tokens and the tokens of a formula. */
  datatype Source = Source(operands: seq<OperandToken>, toks: seq<Token>) {
    predicate WellFormed() {
      forall i :: 0 <= i < |operands| && operands[i].RangeRef? ==> operands[i].r.Valid()
    }
  }

  ghost predicate HasSource<M>(lib: Library<M>, s: Sheet, e: AbsAddress, src: Source) {
    IsFormula(s, e) && src.WellFormed() && s[e].f == FormulaOf(lib, e, src.operands, src.toks)
  }

  /** The formula cells referred to whose results are not among those known. */
  ghost function Unread(s: Sheet, e: AbsAddress, known: Results): set<AbsAddress> {
    set b | b in s && IsFormula(s, b) && DependsOn(s)(e, b) && b !in known
  }

  /** How the interpretation goes on, when these results have been read. */
  ghost function Outlook<M>(lib: Library<M>, s: Sheet, e: AbsAddress, src: Source, now: int, known: Results): Step
    requires IsFormula(s, e)
  {
    match PartialResult(lib, e, src.operands, src.toks, EnvironmentOf(s, s[e].f, known), now, Unread(s, e, known))
    case Ok(v) => Answer(v)
    case Fail(h) => if h.Needs? then Ask(h.a) else Answer(Error(GeneralError))
  }

  /** The results read so far, by their cells. */
  ghost function Known<M>(lib: Library<M>, s: Sheet, e: AbsAddress, src: Source, now: int, got: seq<Value>): Results
    requires IsFormula(s, e)
    decreases |got|
  {
    if got == [] then map[] else
      var known := Known(lib, s, e, src, now, got[..|got| - 1]);
      match Outlook(lib, s, e, src, now, known)
      case Ask(a) => known[a := got[|got| - 1]]
      case Answer(_) => known
  }

  /** The interpreter of the cell at e, as the queue sees it. */
  ghost function TokenReader<M>(lib: Library<M>, s: Sheet, e: AbsAddress, src: Source, now: int): Reader
    requires IsFormula(s, e)
  {
    (got: seq<Value>) => Outlook(lib, s, e, src, now, Known(lib, s, e, src, now, got))
  }

  ghost predicate Submap(m: Results, n: Results) {
    forall a :: a in m ==> a in n && m[a] == n[a]
  }

  lemma SameOnKnown(s: Sheet, e: AbsAddress, f: Formula, known: Results, results: Results)
    requires IsFormula(s, e) && s[e].f == f && OnReferences(s, e, results) && Submap(known, results)
    ensures SameOn(f.refs, EnvironmentOf(s, f, known), EnvironmentOf(s, f, results), Unread(s, e, known))
  {
    forall x, j | 0 <= j < |f.refs| && f.refs[j].Contains(x) && x !in Unread(s, e, known)
      ensures SameAt(EnvironmentOf(s, f, known), EnvironmentOf(s, f, results), x)
    {
      assert f.Covers(x);
      assert DependsOn(s)(e, x);
    }
  }

  /** With part of the results known, the interpretation asks for another of
      them, or answers as it does when all are known. */
  lemma OutlookIs<M(!new)>(lib: Library<M>, s: Sheet, e: AbsAddress, src: Source, now: int, known: Results,
          results: Results)
    requires KeepsToArguments(lib) && ReadsAsAsked(lib) && HasSource(lib, s, e, src)
    requires OnReferences(s, e, results) && Submap(known, results)
    ensures match Outlook(lib, s, e, src, now, known)
      case Ask(a) => a in results && a !in known
      case Answer(v) => v == InterpretedResult(lib, e, src.operands, src.toks, EnvironmentOf(s, s[e].f, results), now)
  {
    var f := s[e].f;
    SameOnKnown(s, e, f, known, results);
    PartialResultIs(lib, e, src.operands, src.toks, EnvironmentOf(s, f, known), EnvironmentOf(s, f, results),
                    Unread(s, e, known), now, now);
  }

  /** These results have been read, and are known by their cells. */
  ghost predicate ReadSoFar<M>(lib: Library<M>, s: Sheet, e: AbsAddress, src: Source, now: int, results: Results,
          got: seq<Value>, known: Results)
    requires IsFormula(s, e)
  {
    && ReadFrom(TokenReader(lib, s, e, src, now), results, got)
    && known == Known(lib, s, e, src, now, got) && Submap(known, results)
  }

  lemma {:induction false} ReadsOn<M(!new)>(lib: Library<M>, s: Sheet, e: AbsAddress, src: Source, now: int,
          results: Results, got: seq<Value>, known: Results) returns (full: seq<Value>)
    requires KeepsToArguments(lib) && ReadsAsAsked(lib) && HasSource(lib, s, e, src)
    requires OnReferences(s, e, results) && ReadSoFar(lib, s, e, src, now, results, got, known)
    ensures Finishes(TokenReader(lib, s, e, src, now), results, full)
    ensures Submap(Known(lib, s, e, src, now, full), results)
    decreases results.Keys - known.Keys
  {
    var next := ReadsNext(lib, s, e, src, now, results, got, known);
    if next.None? {
      full := got;
    } else {
      var a := next.value;
      FewerUnknown(results, known, a);
      full := ReadsOn(lib, s, e, src, now, results, got + [results[a]], known[a := results[a]]);
    }
  }

  lemma FewerUnknown(results: Results, known: Results, a: AbsAddress)
    requires a in results && a !in known
    ensures results.Keys - known[a := results[a]].Keys < results.Keys - known.Keys
  {
    assert a in results.Keys - known.Keys;
  }

  /** The reader has finished, or reads one more result that it did not know. */
  lemma ReadsNext<M(!new)>(lib: Library<M>, s: Sheet, e: AbsAddress, src: Source, now: int,
          results: Results, got: seq<Value>, known: Results) returns (next: Option<AbsAddress>)
    requires KeepsToArguments(lib) && ReadsAsAsked(lib) && HasSource(lib, s, e, src)
    requires OnReferences(s, e, results) && ReadSoFar(lib, s, e, src, now, results, got, known)
    ensures next.None? ==> Finishes(TokenReader(lib, s, e, src, now), results, got)
    ensures next.Some? ==> next.value in results && next.value !in known
    ensures next.Some? ==>
      ReadSoFar(lib, s, e, src, now, results, got + [results[next.value]], known[next.value := results[next.value]])
  {
    OutlookIs(lib, s, e, src, now, known, results);
    var r, step := TokenReader(lib, s, e, src, now), Outlook(lib, s, e, src, now, known);
    assert r(got) == step;
    if step.Answer? {
      next := None;
    } else {
      next := Some(step.a);
      ReadOneMore(r, results, got);
      KnownMore(lib, s, e, src, now, got, step.a, results[step.a]);
    }
  }

  lemma KnownMore<M>(lib: Library<M>, s: Sheet, e: AbsAddress, src: Source, now: int, got: seq<Value>, a: AbsAddress,
          v: Value)
    requires IsFormula(s, e) && Outlook(lib, s, e, src, now, Known(lib, s, e, src, now, got)) == Ask(a)
    ensures Known(lib, s, e, src, now, got + [v]) == Known(lib, s, e, src, now, got)[a := v]
  {
    assert (got + [v])[..|got|] == got;
  }

  /** The reader derived from the interpreter computes the formula. */
  lemma TokenReaderInterprets<M(!new)>(lib: Library<M>, s: Sheet, e: AbsAddress, src: Source, now: int)
    requires KeepsToArguments(lib) && ReadsAsAsked(lib) && HasSource(lib, s, e, src)
    ensures Interprets(s, now, e, TokenReader(lib, s, e, src, if s[e].f.isVolatile then now else 0))
  {
    var seen := if s[e].f.isVolatile then now else 0;
    var r := TokenReader(lib, s, e, src, seen);
    forall results: Results | OnReferences(s, e, results)
      ensures CanFinish(r, results) && ResultFrom(r, results) == s[e].f.Evaluate(now, EnvironmentOf(s, s[e].f, results))
    {
      var full := ReadsOn(lib, s, e, src, seen, results, [], map[]);
      OutlookIs(lib, s, e, src, seen, Known(lib, s, e, src, seen, full), results);
      ResultIs(r, results, full);
    }
  }

  /** All formulas of the sheet are given by tokens. */
  ghost predicate GivenByTokens<M>(lib: Library<M>, s: Sheet, sources: map<AbsAddress, Source>) {
    forall e :: IsFormula(s, e) ==> e in sources && HasSource(lib, s, e, sources[e])
  }

  ghost function TokenReaders<M>(lib: Library<M>, s: Sheet, clock: Clock, sources: map<AbsAddress, Source>): Readers {
    (e: AbsAddress) =>
      if IsFormula(s, e) && e in sources
      then TokenReader(lib, s, e, sources[e], if s[e].f.isVolatile then clock(e) else 0)
      else Done(Numeric(0.0))
  }

  /** So interpreting all formulas as the interpreter does is a way of reading
      that computes them. */
  lemma TokensInterpret<M(!new)>(lib: Library<M>, s: Sheet, clock: Clock, sources: map<AbsAddress, Source>)
    requires KeepsToArguments(lib) && ReadsAsAsked(lib) && GivenByTokens(lib, s, sources)
    ensures AllInterpret(s, clock, TokenReaders(lib, s, clock, sources))
  {
    forall e | IsFormula(s, e) && !Circular(s, e)
      ensures Interprets(s, clock(e), e, TokenReaders(lib, s, clock, sources)(e))
    {
      TokenReaderInterprets(lib, s, e, sources[e], clock(e));
    }
  }

  /** Recalculating a sheet of formulas given by tokens on threads: under every
      schedule, when each interpretation reads as the interpreter does, a run
      that has ended has given every formula cell its meaning. */
  lemma TokensRecalculated<M(!new)>(lib: Library<M>, s: Sheet, clock: Clock, sources: map<AbsAddress, Source>,
          entries: seq<AbsAddress>, threads: nat, states: seq<State>, actions: seq<Action>, a: AbsAddress)
    requires KeepsToArguments(lib) && ReadsAsAsked(lib) && GivenByTokens(lib, s, sources)
    requires threads >= 1 && Distinct(entries) && (forall e :: e in entries ==> IsFormula(s, e))
    requires ReferencesFirst(s, entries)
    requires IsRun(QueueFor(s, clock, entries, TokenReaders(lib, s, clock, sources), threads), states, actions)
    requires Terminal(states[|actions|]) && IsFormula(s, a)
    ensures SlotOf(states[|actions|], a) == Final(Meaning(s, clock, a))
  {
    TokensInterpret(lib, s, clock, sources);
    ThreadedRecalculation(s, clock, entries, TokenReaders(lib, s, clock, sources), threads, states, actions, a);
  }

  /** So histories may recalculate on threads that read as the interpreter does. */
  lemma TokensFit<M(!new)>(lib: Library<M>, s: Sheet, clock: Clock, sources: map<AbsAddress, Source>, count: nat)
    requires KeepsToArguments(lib) && ReadsAsAsked(lib) && GivenByTokens(lib, s, sources) && count >= 1
    ensures exists scheduler :: Fits(s, clock, Threads(count, TokenReaders(lib, s, clock, sources), scheduler))
  {
    TokensInterpret(lib, s, clock, sources);
    SchedulerExists(s, clock, count, TokenReaders(lib, s, clock, sources));
  }

  /** The tokens of x * y. */
  const PRODUCT: seq<Token> := [Operand(0), TermTok(Multiply), Operand(1)]

  lemma ProductInterpreted<V, E>(alg: Algebra<V, E>)
    ensures Interpretation(alg, PRODUCT) == Evaluate(alg, ProductTree())
  {
    assert ExprTokens(ProductTree()) == PRODUCT;
    TreesAreInterpreted(alg, ProductTree());
  }

  function ProductTree(): Expr {
    Expr(Term.Joined(Factor(NoSign, Leaf(0)), Multiply, Just(Factor(NoSign, Leaf(1)))), End)
  }

  lemma ProductEvaluated<V, E>(alg: Algebra<V, E>, a: V, b: V)
    requires alg.operand(0) == Ok(a) && alg.operand(1) == Ok(b)
    ensures Evaluate(alg, ProductTree()) ==
      var v := alg.takeFactor(Multiply, a);
      if v.Fail? then Fail(v.error) else CombineTwo(alg, Multiply, v.v, b)
  {
    assert EvaluateTerm(alg, Just(Factor(NoSign, Leaf(1)))) == Ok(b);
  }

  /** The references of x * y. */
  lemma ProductRefers(s: Sheet, e: AbsAddress, x: AbsAddress, y: AbsAddress, known: Results)
    requires IsFormula(s, e) && s[e].f.refs == References([CellRef(x), CellRef(y)])
    ensures x in known && IsFormula(s, x) ==> x !in Unread(s, e, known)
    ensures x in known && IsFormula(s, x) ==>
      x in EnvironmentOf(s, s[e].f, known) && EnvironmentOf(s, s[e].f, known)[x] == Seen(known[x], true)
    ensures forall b :: IsFormula(s, b) && (b == x || b == y) && b !in known ==> b in Unread(s, e, known)
  {
    var operands := [CellRef(x), CellRef(y)];
    assert operands[1..] == [CellRef(y)] && [CellRef(y)][1..] == [];
    assert References(operands) == [Cell(x)] + References([CellRef(y)]);
    assert s[e].f.refs[0] == Cell(x) && s[e].f.refs[1] == Cell(y);
    assert s[e].f.Covers(x) && s[e].f.Covers(y);
  }

  lemma NeededCell<M>(x: AbsAddress, unread: set<AbsAddress>, v: StackValue<M>)
    requires v == SCell(x)
    ensures AnyNeeded(v, unread) == if x in unread then Some(x) else None
  {
    assert v.Touches(x);
  }

  lemma ProductOutlook<M(!new)>(lib: Library<M>, s: Sheet, e: AbsAddress, x: AbsAddress, y: AbsAddress, now: int,
          known: Results)
    requires var src := Source([CellRef(x), CellRef(y)], PRODUCT); HasSource(lib, s, e, src)
    requires x != e && y != e && x != y && IsFormula(s, x) && IsFormula(s, y) && y !in known
    ensures Outlook(lib, s, e, Source([CellRef(x), CellRef(y)], PRODUCT), now, known) ==
      if x !in known then Ask(x)
      else if known[x].Error? then Answer(known[x]) else if known[x].Text? then Answer(Error(InvalidValueType))
        else Ask(y)
  {
    var operands := [CellRef(x), CellRef(y)];
    var env, unread := EnvironmentOf(s, s[e].f, known), Unread(s, e, known);
    ProductRefers(s, e, x, y, known);
    ProductStops(lib, e, x, y, env, now, unread);
    var h := if x !in known then Needs(x)
             else if known[x].Error? then Thrown(known[x].e)
             else if known[x].Text? then Thrown(InvalidValueType) else Needs(y);
    StoppedOutlook(lib, s, e, Source(operands, PRODUCT), now, known, h);
  }

  /** What an interpretation that stops does next. */
  lemma StoppedOutlook<M>(lib: Library<M>, s: Sheet, e: AbsAddress, src: Source, now: int, known: Results, h: Halt)
    requires IsFormula(s, e)
    requires var env, unread := EnvironmentOf(s, s[e].f, known), Unread(s, e, known);
      Interpretation(PartialAlgebra(lib, e, src.operands, env, now, unread), src.toks) == Fail(h)
    ensures Outlook(lib, s, e, src, now, known) == match h case Needs(a) => Ask(a) case Thrown(x) => Answer(Error(x))
  {
  }

  lemma ProductStops<M(!new)>(lib: Library<M>, e: AbsAddress, x: AbsAddress, y: AbsAddress, env: Environment, now: int,
          unread: set<AbsAddress>)
    requires x != e && y != e && y in unread && (x !in unread ==> x in env && env[x].computed)
    ensures Interpretation(PartialAlgebra(lib, e, [CellRef(x), CellRef(y)], env, now, unread), PRODUCT) ==
            if x in unread then Fail(Needs(x))
            else if env[x].v.Error? then Fail(Thrown(env[x].v.e))
            else if env[x].v.Text? then Fail(Thrown(InvalidValueType)) else Fail(Needs(y))
  {
    var alg := PartialAlgebra(lib, e, [CellRef(x), CellRef(y)], env, now, unread);
    var a, b: StackValue<M> := SCell(x), SCell(y);
    ProductInterpreted(alg);
    ProductEvaluated(alg, a, b);
    NeededCell(x, unread, a);
    NeededCell(y, unread, b);
    assert alg.takeFactor(Multiply, b) == Fail(Needs(y));
    assert alg.takeFactor(Multiply, a) == AfterReading(AnyNeeded(a, unread), TakeFactor(lib, env, Multiply, a));
  }

  /** The interpreter of x * y reads x first, and y only if x has no error. */
  lemma ProductReadsFirstOperand<M(!new)>(lib: Library<M>, s: Sheet, e: AbsAddress, x: AbsAddress, y: AbsAddress,
          now: int, v: Value)
    requires var src := Source([CellRef(x), CellRef(y)], PRODUCT); HasSource(lib, s, e, src)
    requires x != e && y != e && x != y && IsFormula(s, x) && IsFormula(s, y)
    ensures var r := TokenReader(lib, s, e, Source([CellRef(x), CellRef(y)], PRODUCT), now);
      && r([]) == Ask(x)
      && r([v]) == if v.Error? then Answer(v) else if v.Text? then Answer(Error(InvalidValueType)) else Ask(y)
  {
    var src := Source([CellRef(x), CellRef(y)], PRODUCT);
    ProductOutlook(lib, s, e, x, y, now, map[]);
    KnownMore(lib, s, e, src, now, [], x, v);
    assert [] + [v] == [v];
    ProductOutlook(lib, s, e, x, y, now, map[x := v]);
  }
}
