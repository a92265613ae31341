/** Interpreting a formula looks only at the cells it refers to, so that its
    result is a function of their contents, and stops where a cell it needs has
    not been read yet. */
module FormulaLocality {
  import opened Wrappers
  import opened Address
  import opened Recalculation
  import opened ExpressionGrammar
  import opened ExpressionTheorems
  import opened FormulaValues
  import opened DescentSimulation

  // ---- formulas given by tokens ----

  /** The references among the operand tokens. */
  function References(operands: seq<OperandToken>): seq<AbsRange> {
    if operands == [] then [] else
      (match operands[0]
       case CellRef(a) => [Cell(a)]
       case RangeRef(r) => [r]
       case _ => []) + References(operands[1..])
  }

  predicate RefersTo(t: OperandToken, b: AbsAddress) {
    (t.CellRef? && t.a == b) || (t.RangeRef? && t.r.Contains(b))
  }

  /** The references cover exactly the cells that some operand token names. */
  lemma {:induction false} ReferencesExactly(operands: seq<OperandToken>, b: AbsAddress)
    ensures (exists j :: 0 <= j < |References(operands)| && References(operands)[j].Contains(b)) <==>
      exists i :: 0 <= i < |operands| && RefersTo(operands[i], b)
    decreases |operands|
  {
    if operands != [] {
      var rest := operands[1..];
      ReferencesExactly(rest, b);
      var n := |References(operands)| - |References(rest)|;
      if i :| 0 <= i < |operands| && RefersTo(operands[i], b) {
        if i == 0 {
          assert References(operands)[0].Contains(b);
        } else {
          assert RefersTo(rest[i - 1], b);
          var j :| 0 <= j < |References(rest)| && References(rest)[j].Contains(b);
          assert References(operands)[n + j].Contains(b);
        }
      }
      if j :| 0 <= j < |References(operands)| && References(operands)[j].Contains(b) {
        if j < n {
          assert RefersTo(operands[0], b);
        } else {
          assert References(rest)[j - n].Contains(b);
          var i :| 0 <= i < |rest| && RefersTo(rest[i], b);
          assert RefersTo(operands[i + 1], b);
        }
      }
    }
  }

  lemma {:induction false} ReferenceListed(operands: seq<OperandToken>, i: nat) returns (j: nat)
    requires i < |operands| && (operands[i].CellRef? || operands[i].RangeRef?)
    ensures j < |References(operands)|
    ensures References(operands)[j] == if operands[i].CellRef? then Cell(operands[i].a) else operands[i].r
  {
    if i == 0 {
      j := 0;
    } else {
      j := ReferenceListed(operands[1..], i - 1);
      assert operands[1..][i - 1] == operands[i];
      j := j + |References(operands)| - |References(operands[1..])|;
    }
  }

  /** The result the interpreter stores for the formula at pos. */
  ghost function InterpretedResult<M>(lib: Library<M>, pos: AbsAddress, operands: seq<OperandToken>,
          toks: seq<Token>, env: Environment, now: int): Value {
    match Interpretation(CellAlgebra(lib, pos, operands, env, now), toks)
    case Ok(v) => PopResult(lib, env, v)
    case Fail(x) => Error(x)
  }

  /** One of the functions called is volatile. */
  predicate HasVolatile<M>(lib: Library<M>, toks: seq<Token>) {
    exists i :: 0 <= i < |toks| && toks[i].Func? && lib.isVolatile(toks[i].f)
  }

  /** The formula at pos with these tokens, for recalculation. */
  ghost function FormulaOf<M>(lib: Library<M>, pos: AbsAddress, operands: seq<OperandToken>,
          toks: seq<Token>): Formula {
    Formula(References(operands), HasVolatile(lib, toks),
      (now, env) => InterpretedResult(lib, pos, operands, toks, env, now))
  }

  /** The value stands only for referenced cells. */
  ghost predicate CoveredValue<M>(refs: seq<AbsRange>, v: StackValue<M>) {
    && (forall x :: v.Touches(x) ==> exists j :: 0 <= j < |refs| && refs[j].Contains(x))
    && (v.SRange? ==> v.r.Contains(v.r.first))
  }

  ghost predicate StandsForNothing<M>(o: Result<StackValue<M>>) {
    o.Ok? ==> !o.v.SCell? && !o.v.SRange?
  }

  /** A function may return one of its arguments, or a value that stands for
      cells that they stand for; only volatile ones depend on the clock; matrix
      operations return plain values. */
  ghost predicate KeepsToArguments<M(!new)>(lib: Library<M>) {
    && (forall refs, f, vs: seq<StackValue<M>>, env, now ::
      AllInside(vs, Covered(refs)) && lib.call(f, vs, env, now).Ok? ==>
          CoveredValue(refs, lib.call(f, vs, env, now).v))
    && (forall f, vs: seq<StackValue<M>>, env, now, now' :: !lib.isVolatile(f) ==>
          lib.call(f, vs, env, now) == lib.call(f, vs, env, now'))
    && (forall op, a, b :: StandsForNothing(lib.relateMatrix(op, a, b)))
    && (forall op, a, b :: StandsForNothing(lib.combineMatrix(op, a, b)))
  }

  /** The two agree on the referenced cells that have been read. */
  ghost predicate SameOn(refs: seq<AbsRange>, env: Environment, env': Environment, unread: set<AbsAddress>) {
    forall x, j :: 0 <= j < |refs| && refs[j].Contains(x) && x !in unread ==> SameAt(env, env', x)
  }

  predicate SameAt(env: Environment, env': Environment, x: AbsAddress) {
    (x in env <==> x in env') && (x in env ==> env[x] == env'[x])
  }

  ghost function Covered<M>(refs: seq<AbsRange>): StackValue<M> -> bool {
    v => CoveredValue(refs, v)
  }

  /** The functions for which it makes no difference which time it is. */
  ghost function SameTime<M>(lib: Library<M>, now: int, now': int): nat -> bool {
    (f: nat) => now == now' || !lib.isVolatile(f)
  }

  // ---- interpreting with some cells unread ----

  /** What stops an interpretation: an error, or a cell that has to be read. */
  datatype Halt = Thrown(e: FormulaError) | Needs(a: AbsAddress)

  function Raised<V>(o: Result<V>): Outcome<V, Halt> {
    match o
    case Ok(v) => Ok(v)
    case Fail(x) => Fail(Thrown(x))
  }

  /** What an operation yields that reads a cell first, if any. */
  function AfterReading<V>(needed: Option<AbsAddress>, o: Result<V>): Outcome<V, Halt> {
    match needed
    case Some(a) => Fail(Needs(a))
    case None => Raised(o)
  }

  function CellNeeded<M>(v: StackValue<M>, unread: set<AbsAddress>): Option<AbsAddress> {
    if v.SCell? && v.a in unread then Some(v.a) else None
  }

  /** An unread cell of a reference or range. */
  ghost function AnyNeeded<M>(v: StackValue<M>, unread: set<AbsAddress>): (needed: Option<AbsAddress>)
    ensures needed.Some? ==> needed.value in unread
    ensures needed.None? ==> forall a :: a in unread ==> !v.Touches(a)
  {
    if a :| a in unread && v.Touches(a) then Some(a) else None
  }

  ghost function CallNeeds<M>(lib: Library<M>, f: nat, vs: seq<StackValue<M>>, env: Environment,
          unread: set<AbsAddress>): (needed: Option<AbsAddress>)
    ensures needed.Some? ==> needed.value in unread
  {
    var asked := lib.asks(f, vs, SeenBy(env, vs), unread);
    if asked.Some? && asked.value in unread then asked else None
  }

  function ResultNeeds<M>(v: StackValue<M>, unread: set<AbsAddress>): Option<AbsAddress> {
    match v
    case SCell(a) => if a in unread then Some(a) else None
    case SRange(r) => if r.first in unread then Some(r.first) else None
    case _ => None
  }

  /** The interpreter at work while the contents of some cells are not known:
      it stops at the first operation that looks at one of them. */
  ghost function PartialAlgebra<M>(lib: Library<M>, pos: AbsAddress, operands: seq<OperandToken>,
          env: Environment, now: int, unread: set<AbsAddress>): Algebra<StackValue<M>, Halt> {
    Algebra(
      (id: nat) => Raised(if id < |operands| then PushOperand(pos, operands[id]) else Fail(GeneralError)),
      v => AfterReading(CellNeeded(v, unread), TakeValue(env, v)),
      (op, a, b) => Raised(RelateValues(lib, op, a, b)),
      (op, v) => AfterReading(AnyNeeded(v, unread), TakeFactor(lib, env, op, v)),
      (op, a, b) => Raised(CombineValues(lib, op, a, b)),
      v => AfterReading(CellNeeded(v, unread), NegateValue(lib, env, v)),
      (f, vs) => AfterReading(CallNeeds(lib, f, vs, env, unread), lib.call(f, vs, SeenBy(env, vs), now)),
      x => Thrown(x))
  }

  /** The result stored, or the cell that has to be read. */
  ghost function PartialResult<M>(lib: Library<M>, pos: AbsAddress, operands: seq<OperandToken>,
          toks: seq<Token>, env: Environment, now: int, unread: set<AbsAddress>): Outcome<Value, Halt> {
    match Interpretation(PartialAlgebra(lib, pos, operands, env, now, unread), toks)
    case Ok(v) => AfterReading(ResultNeeds(v, unread), Ok(PopResult(lib, env, v)))
    case Fail(h) => if h.Thrown? then Ok(Error(h.e)) else Fail(h)
  }

  /** A function that asks for no more cells does not depend on the others. */
  ghost predicate ReadsAsAsked<M(!new)>(lib: Library<M>) {
    forall f, vs: seq<StackValue<M>>, env, env', unread, now ::
      CallNeeds(lib, f, vs, env, unread).None? && SameBut(SeenBy(env, vs), SeenBy(env', vs), unread) ==>
        lib.call(f, vs, SeenBy(env, vs), now) == lib.call(f, vs, SeenBy(env', vs), now)
  }

  ghost predicate SameBut(env: Environment, env': Environment, unread: set<AbsAddress>) {
    forall x :: x !in unread ==> SameAt(env, env', x)
  }

  lemma SameMaps(env: Environment, env': Environment)
    requires forall x :: SameAt(env, env', x)
    ensures env == env'
  {
    assert forall x :: SameAt(env, env', x) ==> (x in env <==> x in env');
  }

  /** Functions that ask for every unread cell their arguments stand for keep to
      this whatever they compute. */
  lemma AskingForAllSuffices<M(!new)>(lib: Library<M>)
    requires forall f, vs: seq<StackValue<M>>, env, unread, a, i :: 0 <= i < |vs| && vs[i].Touches(a) && a in unread ==>
      CallNeeds(lib, f, vs, env, unread).Some?
    ensures ReadsAsAsked(lib)
  {
    forall f, vs: seq<StackValue<M>>, env, env', unread, now |
      CallNeeds(lib, f, vs, env, unread).None? && SameBut(SeenBy(env, vs), SeenBy(env', vs), unread)
      ensures lib.call(f, vs, SeenBy(env, vs), now) == lib.call(f, vs, SeenBy(env', vs), now)
    {
      forall x | x in unread
        ensures SameAt(SeenBy(env, vs), SeenBy(env', vs), x)
      {
      }
      SameMaps(SeenBy(env, vs), SeenBy(env', vs));
    }
  }

  /** How far the interpretation with unread cells goes along with another one. */
  ghost function GoesAlong<M>(lib: Library<M>, refs: seq<AbsRange>, unread: set<AbsAddress>, now: int, now': int):
    Relation<StackValue<M>, Halt, FormulaError> {
    Relation(Covered(refs), (h: Halt) => h.Needs? && h.a in unread, (h: Halt, x: FormulaError) => h == Thrown(x),
             SameTime(lib, now, now'))
  }

  lemma OperandsAgree<M(!new)>(pos: AbsAddress, operands: seq<OperandToken>, i: nat)
    requires i < |operands| && (operands[i].RangeRef? ==> operands[i].r.Valid())
    ensures PushOperand<M>(pos, operands[i]).Ok? ==>
      CoveredValue(References(operands), PushOperand<M>(pos, operands[i]).v)
  {
    if operands[i].CellRef? || operands[i].RangeRef? {
      var j := ReferenceListed(operands, i);
    }
  }

  ghost predicate SameTouched<M>(env: Environment, env': Environment, v: StackValue<M>) {
    forall x :: v.Touches(x) ==> SameAt(env, env', x)
  }

  lemma TouchedIsSame<M(!new)>(refs: seq<AbsRange>, env: Environment, env': Environment, unread: set<AbsAddress>,
          v: StackValue<M>)
    requires SameOn(refs, env, env', unread) && CoveredValue(refs, v)
    requires forall x :: x in unread ==> !v.Touches(x)
    ensures SameTouched(env, env', v)
  {
  }

  lemma SameReadings<M(!new)>(lib: Library<M>, op: TermOp, env: Environment, env': Environment, v: StackValue<M>)
    requires SameTouched(env, env', v)
    ensures TakeValue(env, v) == TakeValue(env', v) && NegateValue(lib, env, v) == NegateValue(lib, env', v)
    ensures TakeFactor(lib, env, op, v) == TakeFactor(lib, env', op, v)
    ensures PopResult(lib, env, v) == PopResult(lib, env', v) || (v.SRange? && !v.Touches(v.r.first))
  {
    if v.SCell? {
      assert v.Touches(v.a);
    }
    assert Seen1(env, v) == Seen1(env', v);
  }

  lemma TakeFollows<M(!new)>(lib: Library<M>, refs: seq<AbsRange>, env: Environment, env': Environment,
          unread: set<AbsAddress>, now: int, now': int, v: StackValue<M>)
    requires SameOn(refs, env, env', unread) && CoveredValue(refs, v)
    ensures Follows(AfterReading(CellNeeded(v, unread), TakeValue(env, v)), TakeValue(env', v),
      GoesAlong(lib, refs, unread, now, now'))
    ensures Follows(AfterReading(CellNeeded(v, unread), NegateValue(lib, env, v)), NegateValue(lib, env', v),
                    GoesAlong(lib, refs, unread, now, now'))
  {
    if CellNeeded(v, unread).None? && !v.SRange? {
      TouchedIsSame(refs, env, env', unread, v);
      SameReadings(lib, Multiply, env, env', v);
    }
  }

  lemma TakeFactorFollows<M(!new)>(lib: Library<M>, refs: seq<AbsRange>, env: Environment, env': Environment,
          unread: set<AbsAddress>, now: int, now': int, op: TermOp, v: StackValue<M>)
    requires SameOn(refs, env, env', unread) && CoveredValue(refs, v)
    ensures Follows(AfterReading(AnyNeeded(v, unread), TakeFactor(lib, env, op, v)), TakeFactor(lib, env', op, v),
                    GoesAlong(lib, refs, unread, now, now'))
  {
    if AnyNeeded(v, unread).None? {
      TouchedIsSame(refs, env, env', unread, v);
      SameReadings(lib, op, env, env', v);
    }
  }

  lemma JoinsAgree<M(!new)>(lib: Library<M>, refs: seq<AbsRange>, op: ExprOp, op': TermOp, a: StackValue<M>,
          b: StackValue<M>)
    requires KeepsToArguments(lib) && CoveredValue(refs, a) && CoveredValue(refs, b)
    ensures RelateValues(lib, op, a, b).Ok? ==> CoveredValue(refs, RelateValues(lib, op, a, b).v)
    ensures CombineValues(lib, op', a, b).Ok? ==> CoveredValue(refs, CombineValues(lib, op', a, b).v)
  {
    assert StandsForNothing(lib.relateMatrix(op, a, b)) && StandsForNothing(lib.combineMatrix(op', a, b));
  }

  lemma CallFollows<M(!new)>(lib: Library<M>, refs: seq<AbsRange>, env: Environment, env': Environment,
          unread: set<AbsAddress>, now: int, now': int, f: nat, vs: seq<StackValue<M>>)
    requires KeepsToArguments(lib) && (unread == {} || ReadsAsAsked(lib))
    requires SameOn(refs, env, env', unread) && AllInside(vs, Covered(refs)) && SameTime(lib, now, now')(f)
    ensures Follows(AfterReading(CallNeeds(lib, f, vs, env, unread), lib.call(f, vs, SeenBy(env, vs), now)),
                    lib.call(f, vs, SeenBy(env', vs), now'), GoesAlong(lib, refs, unread, now, now'))
  {
    SeenIsSame(refs, env, env', unread, vs);
    if CallNeeds(lib, f, vs, env, unread).None? {
      if unread == {} {
        SameMaps(SeenBy(env, vs), SeenBy(env', vs));
      }
      assert lib.call(f, vs, SeenBy(env, vs), now) == lib.call(f, vs, SeenBy(env', vs), now);
    }
  }

  lemma SeenIsSame<M(!new)>(refs: seq<AbsRange>, env: Environment, env': Environment, unread: set<AbsAddress>,
          vs: seq<StackValue<M>>)
    requires SameOn(refs, env, env', unread) && AllInside(vs, Covered(refs))
    ensures SameBut(SeenBy(env, vs), SeenBy(env', vs), unread)
  {
    forall x, i | x !in unread && 0 <= i < |vs| && vs[i].Touches(x)
      ensures SameAt(env, env', x)
    {
      assert Covered(refs)(vs[i]);
    }
  }

  lemma PartialSimulatesOne<M(!new)>(lib: Library<M>, pos: AbsAddress, operands: seq<OperandToken>,
          env: Environment, env': Environment, unread: set<AbsAddress>, now: int, now': int)
    requires SameOn(References(operands), env, env', unread)
    ensures SimulatesOne(PartialAlgebra(lib, pos, operands, env, now, unread),
      CellAlgebra(lib, pos, operands, env', now'),
                         GoesAlong(lib, References(operands), unread, now, now'))
  {
    var refs := References(operands);
    var alg, alg' := PartialAlgebra(lib, pos, operands, env, now, unread), CellAlgebra(lib, pos, operands, env', now');
    var rel := GoesAlong(lib, refs, unread, now, now');
    forall v | rel.inside(v)
      ensures Follows(alg.take(v), alg'.take(v), rel) && Follows(alg.negate(v), alg'.negate(v), rel)
    {
      TakeFollows(lib, refs, env, env', unread, now, now', v);
    }
    forall op, v | rel.inside(v)
      ensures Follows(alg.takeFactor(op, v), alg'.takeFactor(op, v), rel)
    {
      TakeFactorFollows(lib, refs, env, env', unread, now, now', op, v);
    }
  }

  lemma PartialSimulatesTwo<M(!new)>(lib: Library<M>, pos: AbsAddress, operands: seq<OperandToken>,
          env: Environment, env': Environment, unread: set<AbsAddress>, now: int, now': int)
    requires KeepsToArguments(lib)
    ensures SimulatesTwo(PartialAlgebra(lib, pos, operands, env, now, unread),
      CellAlgebra(lib, pos, operands, env', now'),
                         GoesAlong(lib, References(operands), unread, now, now'))
  {
    var refs := References(operands);
    var alg, alg' := PartialAlgebra(lib, pos, operands, env, now, unread), CellAlgebra(lib, pos, operands, env', now');
    var rel := GoesAlong(lib, refs, unread, now, now');
    forall op, a, b | rel.inside(a) && rel.inside(b)
      ensures Follows(alg.relate(op, a, b), alg'.relate(op, a, b), rel)
    {
      JoinsAgree(lib, refs, op, Multiply, a, b);
    }
    forall op, a, b | rel.inside(a) && rel.inside(b)
      ensures Follows(alg.combine(op, a, b), alg'.combine(op, a, b), rel)
    {
      JoinsAgree(lib, refs, Plus, op, a, b);
    }
  }

  lemma PartialSimulates<M(!new)>(lib: Library<M>, pos: AbsAddress, operands: seq<OperandToken>,
          env: Environment, env': Environment, unread: set<AbsAddress>, now: int, now': int)
    requires KeepsToArguments(lib) && (unread == {} || ReadsAsAsked(lib))
    requires SameOn(References(operands), env, env', unread)
    requires forall i :: 0 <= i < |operands| && operands[i].RangeRef? ==> operands[i].r.Valid()
    ensures Simulates(PartialAlgebra(lib, pos, operands, env, now, unread), CellAlgebra(lib, pos, operands, env', now'),
                      GoesAlong(lib, References(operands), unread, now, now'))
  {
    PartialSimulatesOperands(lib, pos, operands, env, env', unread, now, now');
    PartialSimulatesOne(lib, pos, operands, env, env', unread, now, now');
    PartialSimulatesTwo(lib, pos, operands, env, env', unread, now, now');
    PartialSimulatesCalls(lib, pos, operands, env, env', unread, now, now');
  }

  lemma PartialSimulatesOperands<M(!new)>(lib: Library<M>, pos: AbsAddress, operands: seq<OperandToken>,
          env: Environment, env': Environment, unread: set<AbsAddress>, now: int, now': int)
    requires forall i :: 0 <= i < |operands| && operands[i].RangeRef? ==> operands[i].r.Valid()
    ensures SimulatesOperands(PartialAlgebra(lib, pos, operands, env, now, unread),
                              CellAlgebra(lib, pos, operands, env', now'),
                              GoesAlong(lib, References(operands), unread, now, now'))
  {
    var alg, alg' := PartialAlgebra(lib, pos, operands, env, now, unread), CellAlgebra(lib, pos, operands, env', now');
    var rel := GoesAlong(lib, References(operands), unread, now, now');
    forall id: nat
      ensures Follows(alg.operand(id), alg'.operand(id), rel)
    {
      OperandFollows(lib, pos, operands, unread, now, now', id);
    }
  }

  lemma OperandFollows<M(!new)>(lib: Library<M>, pos: AbsAddress, operands: seq<OperandToken>,
          unread: set<AbsAddress>, now: int, now': int, id: nat)
    requires forall i :: 0 <= i < |operands| && operands[i].RangeRef? ==> operands[i].r.Valid()
    ensures var o: Result<StackValue<M>> := if id < |operands| then PushOperand(pos, operands[id])
      else Fail(GeneralError);
      Follows(Raised(o), o, GoesAlong(lib, References(operands), unread, now, now'))
  {
    if id < |operands| {
      OperandsAgree<M>(pos, operands, id);
    }
  }

  lemma PartialSimulatesCalls<M(!new)>(lib: Library<M>, pos: AbsAddress, operands: seq<OperandToken>,
          env: Environment, env': Environment, unread: set<AbsAddress>, now: int, now': int)
    requires KeepsToArguments(lib) && (unread == {} || ReadsAsAsked(lib))
    requires SameOn(References(operands), env, env', unread)
    ensures SimulatesCalls(PartialAlgebra(lib, pos, operands, env, now, unread),
                           CellAlgebra(lib, pos, operands, env', now'),
                           GoesAlong(lib, References(operands), unread, now, now'))
  {
    var refs := References(operands);
    var alg, alg' := PartialAlgebra(lib, pos, operands, env, now, unread), CellAlgebra(lib, pos, operands, env', now');
    var rel := GoesAlong(lib, refs, unread, now, now');
    forall f, vs: seq<StackValue<M>> | rel.calls(f) && AllInside(vs, rel.inside)
      ensures Follows(alg.call(f, vs), alg'.call(f, vs), rel)
    {
      CallFollows(lib, refs, env, env', unread, now, now', f, vs);
    }
  }

  /** Interpreting with some cells unread stops at one of them, or ends with the
      result there is when all of them are known. */
  lemma PartialResultIs<M(!new)>(lib: Library<M>, pos: AbsAddress, operands: seq<OperandToken>, toks: seq<Token>,
          env: Environment, env': Environment, unread: set<AbsAddress>, now: int, now': int)
    requires KeepsToArguments(lib) && (unread == {} || ReadsAsAsked(lib))
    requires SameOn(References(operands), env, env', unread)
    requires forall i :: 0 <= i < |operands| && operands[i].RangeRef? ==> operands[i].r.Valid()
    requires HasVolatile(lib, toks) ==> now == now'
    ensures match PartialResult(lib, pos, operands, toks, env, now, unread)
      case Ok(v) => v == InterpretedResult(lib, pos, operands, toks, env', now')
      case Fail(h) => h.Needs? && h.a in unread
  {
    var refs := References(operands);
    var alg, alg' := PartialAlgebra(lib, pos, operands, env, now, unread), CellAlgebra(lib, pos, operands, env', now');
    PartialSimulates(lib, pos, operands, env, env', unread, now, now');
    InterpretationFollows(alg, alg', GoesAlong(lib, refs, unread, now, now'), toks);
    if Interpretation(alg, toks).Ok? {
      ResultFollows(lib, refs, env, env', unread, Interpretation(alg, toks).v);
    }
  }

  lemma ResultFollows<M(!new)>(lib: Library<M>, refs: seq<AbsRange>, env: Environment, env': Environment,
          unread: set<AbsAddress>, v: StackValue<M>)
    requires SameOn(refs, env, env', unread) && CoveredValue(refs, v)
    ensures ResultNeeds(v, unread).None? ==> PopResult(lib, env, v) == PopResult(lib, env', v)
    ensures ResultNeeds(v, unread).Some? ==> ResultNeeds(v, unread).value in unread
  {
    match v
    case SCell(a) => assert v.Touches(a);
    case SRange(r) => assert v.Touches(r.first);
    case _ =>
  }

  /** The interpreter's result depends on the referenced cells alone, and on the
      clock only if a volatile function is called. */
  lemma ReadsOnlyReferences<M(!new)>(lib: Library<M>, pos: AbsAddress, operands: seq<OperandToken>, toks: seq<Token>,
                                     env: Environment, env': Environment, now: int, now': int)
    requires KeepsToArguments(lib) && SameOn(References(operands), env, env', {})
    requires forall i :: 0 <= i < |operands| && operands[i].RangeRef? ==> operands[i].r.Valid()
    requires HasVolatile(lib, toks) ==> now == now'
    ensures InterpretedResult(lib, pos, operands, toks, env, now) ==
      InterpretedResult(lib, pos, operands, toks, env', now')
  {
    PartialResultIs(lib, pos, operands, toks, env, env, {}, now, now);
    PartialResultIs(lib, pos, operands, toks, env, env', {}, now, now');
  }

  lemma SameOnCovered(refs: seq<AbsRange>, f: Formula, env: Environment, all: Environment)
    requires f.refs == refs && env == map b | b in all && f.Covers(b) :: all[b]
    ensures SameOn(refs, env, all, {})
  {
  }

  /** In a sheet, the meaning of a cell is what its interpreter computes with
      the whole sheet before it, at the time the clock shows it. */
  lemma MeaningIsInterpretation<M(!new)>(lib: Library<M>, s: Sheet, clock: Clock, a: AbsAddress,
                                         operands: seq<OperandToken>, toks: seq<Token>, all: Environment)
    requires KeepsToArguments(lib) && IsFormula(s, a) && s[a].f == FormulaOf(lib, a, operands, toks) && !Circular(s, a)
    requires forall i :: 0 <= i < |operands| && operands[i].RangeRef? ==> operands[i].r.Valid()
    requires all.Keys == s.Keys && forall b :: b in s ==> all[b] == Seen(Meaning(s, clock, b), IsFormula(s, b))
    ensures Meaning(s, clock, a) == InterpretedResult(lib, a, operands, toks, all, clock(a))
  {
    var env := map b | b in all && s[a].f.Covers(b) :: all[b];
    MeaningUnfolds(s, clock, a, env);
    SameOnCovered(References(operands), s[a].f, env, all);
    ReadsOnlyReferences(lib, a, operands, toks, env, all, if HasVolatile(lib, toks) then clock(a) else 0, clock(a));
  }

  lemma LeafIsNumber<M>(lib: Library<M>, pos: AbsAddress, env: Environment, now: int, operands: seq<OperandToken>,
          id: nat, n: real)
    requires id < |operands| && operands[id] == Constant(n)
    ensures EvaluateFactor(CellAlgebra(lib, pos, operands, env, now), Factor(NoSign, Leaf(id))) == Ok(SNumber(n))
  {
  }

  lemma QuotientNonZero(y: real, z: real)
    requires y != 0.0 && z != 0.0
    ensures y / z != 0.0
  {
    assert (y / z) * z == y;
  }

  lemma DividesNumbers<M>(lib: Library<M>, pos: AbsAddress, env: Environment, now: int, operands: seq<OperandToken>,
          id: nat, n: real, t: Term, m: real)
    requires id < |operands| && operands[id] == Constant(n) && m != 0.0
    requires EvaluateTerm(CellAlgebra(lib, pos, operands, env, now), t) == Ok(SNumber(m))
    ensures EvaluateTerm(CellAlgebra(lib, pos, operands, env, now), Joined(Factor(NoSign, Leaf(id)), Divide, t)) ==
      Ok(SNumber(n / m))
  {
    LeafIsNumber(lib, pos, env, now, operands, id, n);
    assert CombineTwo(CellAlgebra(lib, pos, operands, env, now), Divide, SNumber(n), SNumber(m)) == Ok(SNumber(n / m));
  }

  /** Term operators associate to the right: x / y / z is x / (y / z). */
  lemma TermsAssociateRight<M>(lib: Library<M>, pos: AbsAddress, env: Environment, now: int, x: real, y: real, z: real)
    requires z != 0.0 && y != 0.0
    ensures Interpretation(CellAlgebra(lib, pos, [Constant(x), Constant(y), Constant(z)], env, now),
                           [Operand(0), TermTok(Divide), Operand(1), TermTok(Divide), Operand(2)]) ==
                             Ok(SNumber(x / (y / z)))
  {
    var operands := [Constant(x), Constant(y), Constant(z)];
    var alg := CellAlgebra(lib, pos, operands, env, now);
    var last := Just(Factor(NoSign, Leaf(2)));
    var inner := Joined(Factor(NoSign, Leaf(1)), Divide, last);
    var quotient := Expr(Joined(Factor(NoSign, Leaf(0)), Divide, inner), End);
    TreesAreInterpreted(alg, quotient);
    assert ExprTokens(quotient) == [Operand(0), TermTok(Divide), Operand(1), TermTok(Divide), Operand(2)];
    LeafIsNumber(lib, pos, env, now, operands, 2, z);
    DividesNumbers(lib, pos, env, now, operands, 1, y, last, z);
    QuotientNonZero(y, z);
    DividesNumbers(lib, pos, env, now, operands, 0, x, inner, y / z);
  }

  /** The additive ones associate to the left: x - y - z is (x - y) - z. */
  lemma DifferencesAssociateLeft<M>(lib: Library<M>, pos: AbsAddress, env: Environment, now: int, x: real, y: real,
          z: real)
    ensures Interpretation(CellAlgebra(lib, pos, [Constant(x), Constant(y), Constant(z)], env, now),
                           [Operand(0), ExprTok(Minus), Operand(1), ExprTok(Minus), Operand(2)]) ==
                             Ok(SNumber((x - y) - z))
  {
    var operands := [Constant(x), Constant(y), Constant(z)];
    var alg := CellAlgebra(lib, pos, operands, env, now);
    var t := (i: nat) => Just(Factor(NoSign, Leaf(i)));
    var last := More(Minus, t(2), End);
    var difference := Expr(t(0), More(Minus, t(1), last));
    TreesAreInterpreted(alg, difference);
    assert ExprTokens(difference) == [Operand(0), ExprTok(Minus), Operand(1), ExprTok(Minus), Operand(2)];
    LeafIsNumber(lib, pos, env, now, operands, 0, x);
    LeafIsNumber(lib, pos, env, now, operands, 1, y);
    LeafIsNumber(lib, pos, env, now, operands, 2, z);
    assert RelateTwo(alg, Minus, SNumber(x - y), SNumber(z)) == Ok(SNumber((x - y) - z));
    assert EvaluateTail(alg, SNumber(x - y), last) == Ok(SNumber((x - y) - z));
  }
}
