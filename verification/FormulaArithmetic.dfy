/** What the operators of a formula compute: results in terms of the numbers,
    strings and errors that the operands stand for. */
module FormulaArithmetic {
  import opened Wrappers
  import opened Address
  import opened Recalculation
  import opened ExpressionGrammar
  import opened ExpressionTheorems
  import opened FormulaValues
  import opened FormulaLocality

  // ---- operands ----

  /** The operand stands for the number x: a constant, or a reference to a cell
      with a number or a boolean, or to an empty cell, which counts as 0. */
  predicate IsNumber(t: OperandToken, pos: AbsAddress, env: Environment, x: real) {
    match t
    case Constant(n) => n == x
    case CellRef(a) =>
      && a != pos
      && if a !in env then x == 0.0 else CountsFor(env[a].v, x)
    case _ => false
  }

  predicate CountsFor(v: Value, x: real) {
    v == Numeric(x) || (v == Boolean(true) && x == 1.0) || (v == Boolean(false) && x == 0.0)
  }

  /** The operand counts as x where a number is needed: text entered as such
      counts as 0. */
  predicate CountsAs(t: OperandToken, pos: AbsAddress, env: Environment, x: real) {
    || IsNumber(t, pos, env, x)
    || (t.Quoted? && x == 0.0)
    || (t.CellRef? && t.a != pos && t.a in env && env[t.a].v.Text? && !env[t.a].computed && x == 0.0)
  }

  predicate IsText(t: OperandToken, pos: AbsAddress, env: Environment, s: string) {
    || t == Quoted(s)
    || (t.CellRef? && t.a != pos && t.a in env && env[t.a].v == Text(s))
  }

  /** The operand is written as s where text is needed. */
  predicate WrittenAs<M>(lib: Library<M>, t: OperandToken, pos: AbsAddress, env: Environment, s: string) {
    || IsText(t, pos, env, s)
    || (t.Constant? && s == lib.show(t.n))
    || (t.CellRef? && t.a != pos && t.a !in env && s == "")
    || (t.CellRef? && t.a != pos && t.a in env && env[t.a].v.Numeric? && s == lib.show(env[t.a].v.n))
    || (t.CellRef? && t.a != pos && t.a in env && env[t.a] == Seen(Boolean(true), true) && s == "true")
    || (t.CellRef? && t.a != pos && t.a in env && env[t.a] == Seen(Boolean(false), true) && s == "false")
  }

  predicate RefersToError(t: OperandToken, pos: AbsAddress, env: Environment, e: FormulaError) {
    t.CellRef? && t.a != pos && t.a in env && env[t.a].v == Error(e)
  }

  predicate IsError(t: OperandToken, pos: AbsAddress, env: Environment, e: FormulaError) {
    t == ErrorValue(e) || RefersToError(t, pos, env, e)
  }

  lemma NumberTaken<M>(lib: Library<M>, t: OperandToken, pos: AbsAddress, env: Environment, x: real)
    requires IsNumber(t, pos, env, x)
    ensures PushOperand<M>(pos, t).Ok? && TakeValue(env, PushOperand<M>(pos, t).v) == Ok(SNumber(x))
  {
  }

  lemma FactorTaken<M>(lib: Library<M>, t: OperandToken, pos: AbsAddress, env: Environment, op: TermOp, x: real)
    requires CountsAs(t, pos, env, x) && !op.Concat?
    ensures PushOperand<M>(pos, t).Ok? && TakeFactor(lib, env, op, PushOperand<M>(pos, t).v) == Ok(SNumber(x))
    ensures NegateValue(lib, env, PushOperand<M>(pos, t).v) == Ok(SNumber(-x))
  {
  }

  lemma TextTaken<M>(lib: Library<M>, t: OperandToken, pos: AbsAddress, env: Environment, s: string)
    requires WrittenAs(lib, t, pos, env, s)
    ensures PushOperand<M>(pos, t).Ok? && TakeFactor(lib, env, Concat, PushOperand<M>(pos, t).v) == Ok(SString(s))
    ensures IsText(t, pos, env, s) ==> TakeValue(env, PushOperand<M>(pos, t).v) == Ok(SString(s))
  {
  }

  // ---- two operands ----

  lemma RelatedInterpreted<V, E>(alg: Algebra<V, E>, op: ExprOp, a: V, b: V)
    requires alg.operand(0) == Ok(a) && alg.operand(1) == Ok(b)
    ensures Interpretation(alg, [Operand(0), ExprTok(op), Operand(1)]) ==
      var x := alg.take(a);
      if x.Fail? then Fail(x.error) else RelateTwo(alg, op, x.v, b)
  {
    var second := Just(Factor(NoSign, Leaf(1)));
    var tree := Expr(Just(Factor(NoSign, Leaf(0))), More(op, second, End));
    assert ExprTokens(tree) == [Operand(0), ExprTok(op), Operand(1)];
    TreesAreInterpreted(alg, tree);
    assert EvaluateTerm(alg, second) == Ok(b);
  }

  lemma CombinedInterpreted<V, E>(alg: Algebra<V, E>, op: TermOp, a: V, b: V)
    requires alg.operand(0) == Ok(a) && alg.operand(1) == Ok(b)
    ensures Interpretation(alg, [Operand(0), TermTok(op), Operand(1)]) ==
      var x := alg.takeFactor(op, a);
      if x.Fail? then Fail(x.error) else CombineTwo(alg, op, x.v, b)
  {
    var second := Just(Factor(NoSign, Leaf(1)));
    var tree := Expr(Joined(Factor(NoSign, Leaf(0)), op, second), End);
    assert ExprTokens(tree) == [Operand(0), TermTok(op), Operand(1)];
    TreesAreInterpreted(alg, tree);
    assert EvaluateTerm(alg, second) == Ok(b);
  }

  lemma SignedInterpreted<V, E>(alg: Algebra<V, E>, a: V)
    requires alg.operand(0) == Ok(a)
    ensures Interpretation(alg, [Operand(0)]) == Ok(a)
    ensures Interpretation(alg, [ExprTok(Plus), Operand(0)]) == Ok(a)
    ensures Interpretation(alg, [ExprTok(Minus), Operand(0)]) == alg.negate(a)
  {
    var trees := (sign: Sign) => Expr(Just(Factor(sign, Leaf(0))), End);
    assert ExprTokens(trees(NoSign)) == [Operand(0)];
    assert ExprTokens(trees(PlusSign)) == [ExprTok(Plus), Operand(0)];
    assert ExprTokens(trees(MinusSign)) == [ExprTok(Minus), Operand(0)];
    TreesAreInterpreted(alg, trees(NoSign));
    TreesAreInterpreted(alg, trees(PlusSign));
    TreesAreInterpreted(alg, trees(MinusSign));
  }

  /** The result of x op y, for two operand tokens. */
  ghost function Related<M>(lib: Library<M>, pos: AbsAddress, p: OperandToken, q: OperandToken, env: Environment,
          now: int, op: ExprOp): Value {
    InterpretedResult(lib, pos, [p, q], [Operand(0), ExprTok(op), Operand(1)], env, now)
  }

  ghost function Combined<M>(lib: Library<M>, pos: AbsAddress, p: OperandToken, q: OperandToken, env: Environment,
          now: int, op: TermOp): Value {
    InterpretedResult(lib, pos, [p, q], [Operand(0), TermTok(op), Operand(1)], env, now)
  }

  /** What is stored for a value or a thrown error. */
  function StoredFor<M>(lib: Library<M>, env: Environment, r: Result<StackValue<M>>): Value {
    match r
    case Ok(v) => PopResult(lib, env, v)
    case Fail(e) => Error(e)
  }

  function OneIf(b: bool): Value {
    Numeric(if b then 1.0 else 0.0)
  }

  lemma RelatedBy<M>(lib: Library<M>, pos: AbsAddress, p: OperandToken, q: OperandToken, env: Environment, now: int,
          op: ExprOp, x: StackValue<M>, y: StackValue<M>)
    requires PushOperand<M>(pos, p).Ok? && TakeValue(env, PushOperand<M>(pos, p).v) == Ok(x)
    requires PushOperand<M>(pos, q).Ok? && TakeValue(env, PushOperand<M>(pos, q).v) == Ok(y)
    ensures Related(lib, pos, p, q, env, now, op) == StoredFor(lib, env, RelateValues(lib, op, x, y))
  {
    var alg := CellAlgebra(lib, pos, [p, q], env, now);
    RelatedInterpreted(alg, op, PushOperand(pos, p).v, PushOperand(pos, q).v);
  }

  lemma CombinedBy<M>(lib: Library<M>, pos: AbsAddress, p: OperandToken, q: OperandToken, env: Environment, now: int,
          op: TermOp, x: StackValue<M>, y: StackValue<M>)
    requires PushOperand<M>(pos, p).Ok? && TakeFactor(lib, env, op, PushOperand<M>(pos, p).v) == Ok(x)
    requires PushOperand<M>(pos, q).Ok? && TakeFactor(lib, env, op, PushOperand<M>(pos, q).v) == Ok(y)
    ensures Combined(lib, pos, p, q, env, now, op) == StoredFor(lib, env, CombineValues(lib, op, x, y))
  {
    var alg := CellAlgebra(lib, pos, [p, q], env, now);
    CombinedInterpreted(alg, op, PushOperand(pos, p).v, PushOperand(pos, q).v);
  }

  // ---- numbers ----

  lemma NumbersRelatedBy<M>(lib: Library<M>, pos: AbsAddress, p: OperandToken, q: OperandToken, env: Environment,
          now: int, x: real, y: real, op: ExprOp)
    requires IsNumber(p, pos, env, x) && IsNumber(q, pos, env, y)
    ensures Related(lib, pos, p, q, env, now, op) == PopResult<M>(lib, env, RelateNumbers(op, x, y))
  {
    NumberTaken(lib, p, pos, env, x);
    NumberTaken(lib, q, pos, env, y);
    RelatedBy(lib, pos, p, q, env, now, op, SNumber(x), SNumber(y));
  }

  /** Sums and differences of two numbers. */
  lemma NumbersAdded<M>(lib: Library<M>, pos: AbsAddress, p: OperandToken, q: OperandToken, env: Environment, now: int,
          x: real, y: real)
    requires IsNumber(p, pos, env, x) && IsNumber(q, pos, env, y)
    ensures Related(lib, pos, p, q, env, now, Plus) == Numeric(x + y)
    ensures Related(lib, pos, p, q, env, now, Minus) == Numeric(x - y)
  {
    NumbersRelatedBy(lib, pos, p, q, env, now, x, y, Plus);
    NumbersRelatedBy(lib, pos, p, q, env, now, x, y, Minus);
  }

  /** A comparison of two numbers stores 1 or 0. */
  lemma NumbersCompared<M>(lib: Library<M>, pos: AbsAddress, p: OperandToken, q: OperandToken, env: Environment,
          now: int, x: real, y: real)
    requires IsNumber(p, pos, env, x) && IsNumber(q, pos, env, y)
    ensures Related(lib, pos, p, q, env, now, Equal) == OneIf(x == y)
    ensures Related(lib, pos, p, q, env, now, NotEqual) == OneIf(x != y)
    ensures Related(lib, pos, p, q, env, now, Less) == OneIf(x < y)
    ensures Related(lib, pos, p, q, env, now, LessEqual) == OneIf(x <= y)
    ensures Related(lib, pos, p, q, env, now, Greater) == OneIf(x > y)
    ensures Related(lib, pos, p, q, env, now, GreaterEqual) == OneIf(x >= y)
  {
    NumbersRelatedBy(lib, pos, p, q, env, now, x, y, Equal);
    NumbersRelatedBy(lib, pos, p, q, env, now, x, y, NotEqual);
    NumbersRelatedBy(lib, pos, p, q, env, now, x, y, Less);
    NumbersRelatedBy(lib, pos, p, q, env, now, x, y, LessEqual);
    NumbersRelatedBy(lib, pos, p, q, env, now, x, y, Greater);
    NumbersRelatedBy(lib, pos, p, q, env, now, x, y, GreaterEqual);
  }

  /** Products, quotients and powers of whatever counts as a number. */
  lemma NumbersCombined<M>(lib: Library<M>, pos: AbsAddress, p: OperandToken, q: OperandToken, env: Environment,
          now: int,
          x: real, y: real)
    requires CountsAs(p, pos, env, x) && CountsAs(q, pos, env, y)
    ensures Combined(lib, pos, p, q, env, now, Multiply) == Numeric(x * y)
    ensures Combined(lib, pos, p, q, env, now, Divide) == if y == 0.0 then Error(DivisionByZero) else Numeric(x / y)
    ensures Combined(lib, pos, p, q, env, now, Exponent) == Numeric(lib.power(x, y))
  {
    forall op: TermOp | !op.Concat?
      ensures Combined(lib, pos, p, q, env, now, op) ==
        StoredFor(lib, env, CombineValues(lib, op, SNumber(x), SNumber(y)))
    {
      FactorTaken(lib, p, pos, env, op, x);
      FactorTaken(lib, q, pos, env, op, y);
      CombinedBy(lib, pos, p, q, env, now, op, SNumber(x), SNumber(y));
    }
  }

  /** One sign before an operand. */
  lemma NumbersSigned<M>(lib: Library<M>, pos: AbsAddress, p: OperandToken, env: Environment, now: int, x: real)
    requires CountsAs(p, pos, env, x)
    ensures InterpretedResult(lib, pos, [p], [ExprTok(Minus), Operand(0)], env, now) == Numeric(-x)
    ensures InterpretedResult(lib, pos, [p], [ExprTok(Plus), Operand(0)], env, now) ==
            InterpretedResult(lib, pos, [p], [Operand(0)], env, now)
  {
    FactorTaken(lib, p, pos, env, Multiply, x);
    SignedInterpreted(CellAlgebra(lib, pos, [p], env, now), PushOperand(pos, p).v);
  }

  // ---- strings ----

  /** s comes first where the two differ, or is the beginning of t. */
  ghost predicate ComesBefore(s: string, t: string) {
    exists k :: DiffersAt(s, t, k)
  }

  ghost predicate DiffersAt(s: string, t: string, k: int) {
    && 0 <= k <= |s| && k < |t| && s[..k] == t[..k]
    && (k == |s| || s[k] < t[k])
  }

  lemma {:induction false} StringLessMeans(s: string, t: string)
    ensures StringLess(s, t) <==> ComesBefore(s, t)
    decreases |s|
  {
    if s != [] && t != [] && s[0] == t[0] {
      StringLessMeans(s[1..], t[1..]);
      if k :| DiffersAt(s[1..], t[1..], k) {
        assert s[..k + 1] == [s[0]] + s[1..][..k] && t[..k + 1] == [t[0]] + t[1..][..k];
        assert DiffersAt(s, t, k + 1);
      }
      if k :| DiffersAt(s, t, k) {
        assert k > 0;
        assert s[1..][..k - 1] == s[..k][1..] && t[1..][..k - 1] == t[..k][1..];
        assert DiffersAt(s[1..], t[1..], k - 1);
      }
    } else {
      if StringLess(s, t) {
        assert DiffersAt(s, t, 0);
      }
      if k :| DiffersAt(s, t, k) {
        SameBeginning(s, t, k);
      }
    }
  }

  lemma SameBeginning(s: string, t: string, k: int)
    requires DiffersAt(s, t, k)
    ensures k > 0 ==> s[0] == t[0]
  {
    if k > 0 {
      assert s[0] == s[..k][0] && t[0] == t[..k][0];
    }
  }

  lemma TextsRelatedBy<M>(lib: Library<M>, pos: AbsAddress, p: OperandToken, q: OperandToken, env: Environment,
          now: int, s: string, t: string, op: ExprOp)
    requires IsText(p, pos, env, s) && IsText(q, pos, env, t)
    ensures Related(lib, pos, p, q, env, now, op) == StoredFor(lib, env, RelateStrings<M>(op, s, t))
  {
    TextTaken(lib, p, pos, env, s);
    TextTaken(lib, q, pos, env, t);
    RelatedBy(lib, pos, p, q, env, now, op, SString(s), SString(t));
  }

  /** Strings cannot be added. */
  lemma TextsEqual<M>(lib: Library<M>, pos: AbsAddress, p: OperandToken, q: OperandToken, env: Environment, now: int,
          s: string, t: string)
    requires IsText(p, pos, env, s) && IsText(q, pos, env, t)
    ensures Related(lib, pos, p, q, env, now, Plus) == Related(lib, pos, p, q, env, now, Minus) ==
      Error(InvalidExpression)
    ensures Related(lib, pos, p, q, env, now, Equal) == OneIf(s == t)
    ensures Related(lib, pos, p, q, env, now, NotEqual) == OneIf(s != t)
  {
    TextsRelatedBy(lib, pos, p, q, env, now, s, t, Plus);
    TextsRelatedBy(lib, pos, p, q, env, now, s, t, Minus);
    TextsRelatedBy(lib, pos, p, q, env, now, s, t, Equal);
    TextsRelatedBy(lib, pos, p, q, env, now, s, t, NotEqual);
  }

  /** Strings are compared character by character. */
  lemma TextsOrdered<M>(lib: Library<M>, pos: AbsAddress, p: OperandToken, q: OperandToken, env: Environment, now: int,
          s: string, t: string)
    requires IsText(p, pos, env, s) && IsText(q, pos, env, t)
    ensures Related(lib, pos, p, q, env, now, Less) == OneIf(ComesBefore(s, t))
    ensures Related(lib, pos, p, q, env, now, LessEqual) == OneIf(!ComesBefore(t, s))
    ensures Related(lib, pos, p, q, env, now, Greater) == OneIf(ComesBefore(t, s))
    ensures Related(lib, pos, p, q, env, now, GreaterEqual) == OneIf(!ComesBefore(s, t))
  {
    StringLessMeans(s, t);
    StringLessMeans(t, s);
    TextsRelatedBy(lib, pos, p, q, env, now, s, t, Less);
    TextsRelatedBy(lib, pos, p, q, env, now, s, t, LessEqual);
    TextsRelatedBy(lib, pos, p, q, env, now, s, t, Greater);
    TextsRelatedBy(lib, pos, p, q, env, now, s, t, GreaterEqual);
  }

  /** A number comes before every string. */
  lemma NumberBeforeText<M>(lib: Library<M>, pos: AbsAddress, p: OperandToken, q: OperandToken, env: Environment,
          now: int, x: real, t: string, op: ExprOp)
    requires IsNumber(p, pos, env, x) && IsText(q, pos, env, t)
    ensures Related(lib, pos, p, q, env, now, op) ==
      if op.Plus? || op.Minus? then Error(InvalidExpression) else OneIf(op in {Less, LessEqual, NotEqual})
    ensures Related(lib, pos, q, p, env, now, op) ==
      if op.Plus? || op.Minus? then Error(InvalidExpression) else OneIf(op in {Greater, GreaterEqual, NotEqual})
  {
    NumberTaken(lib, p, pos, env, x);
    TextTaken(lib, q, pos, env, t);
    RelatedBy(lib, pos, p, q, env, now, op, SNumber(x), SString(t));
    RelatedBy(lib, pos, q, p, env, now, op, SString(t), SNumber(x));
  }

  /** Concatenation. */
  lemma TextsConcatenated<M>(lib: Library<M>, pos: AbsAddress, p: OperandToken, q: OperandToken, env: Environment,
          now: int, s: string, t: string)
    requires WrittenAs(lib, p, pos, env, s) && WrittenAs(lib, q, pos, env, t)
    ensures Combined(lib, pos, p, q, env, now, Concat) == Text(s + t)
  {
    TextTaken(lib, p, pos, env, s);
    TextTaken(lib, q, pos, env, t);
    CombinedBy(lib, pos, p, q, env, now, Concat, SString(s), SString(t));
  }

  // ---- errors, references, calls ----

  /** An error among two operands is the result. */
  lemma ErrorsRelated<M>(lib: Library<M>, pos: AbsAddress, p: OperandToken, q: OperandToken, env: Environment, now: int,
          e: FormulaError, x: real, op: ExprOp)
    requires IsError(p, pos, env, e) && IsNumber(q, pos, env, x)
    ensures Related(lib, pos, p, q, env, now, op) == Related(lib, pos, q, p, env, now, op) == Error(e)
  {
    NumberTaken(lib, q, pos, env, x);
    RelatedBy(lib, pos, p, q, env, now, op, SError(e), SNumber(x));
    RelatedBy(lib, pos, q, p, env, now, op, SNumber(x), SError(e));
  }

  /** Of two errors it is the first, also before text; after text an error is
      not recognised. */
  lemma FirstErrorWins<M>(lib: Library<M>, pos: AbsAddress, p: OperandToken, q: OperandToken, t: OperandToken,
          env: Environment, now: int, e: FormulaError, e': FormulaError, s: string, op: ExprOp)
    requires IsError(p, pos, env, e) && IsError(q, pos, env, e') && IsText(t, pos, env, s)
    ensures Related(lib, pos, p, q, env, now, op) == Error(e)
    ensures Related(lib, pos, p, t, env, now, op) == Error(e)
    ensures Related(lib, pos, t, p, env, now, op) == Error(GeneralError)
  {
    TextTaken(lib, t, pos, env, s);
    RelatedBy(lib, pos, p, q, env, now, op, SError(e), SError(e'));
    RelatedBy(lib, pos, p, t, env, now, op, SError(e), SString(s));
    RelatedBy(lib, pos, t, p, env, now, op, SString(s), SError(e));
  }

  lemma FirstErrorCombined<M>(lib: Library<M>, pos: AbsAddress, p: OperandToken, q: OperandToken, env: Environment,
          now: int, e: FormulaError, e': FormulaError, op: TermOp)
    requires RefersToError(p, pos, env, e) && RefersToError(q, pos, env, e')
    ensures Combined(lib, pos, p, q, env, now, op) == Error(e)
  {
    CombinedInterpreted(CellAlgebra(lib, pos, [p, q], env, now), op, SCell(p.a), SCell(q.a));
  }

  lemma ErrorsCombined<M>(lib: Library<M>, pos: AbsAddress, p: OperandToken, q: OperandToken, env: Environment,
          now: int,
          e: FormulaError, x: real, op: TermOp)
    requires RefersToError(p, pos, env, e) && CountsAs(q, pos, env, x) && !op.Concat?
    ensures Combined(lib, pos, p, q, env, now, op) == Combined(lib, pos, q, p, env, now, op) == Error(e)
  {
    FactorTaken(lib, q, pos, env, op, x);
    CombinedInterpreted(CellAlgebra(lib, pos, [p, q], env, now), op, SCell(p.a), PushOperand(pos, q).v);
    CombinedInterpreted(CellAlgebra(lib, pos, [q, p], env, now), op, PushOperand(pos, q).v, SCell(p.a));
  }

  lemma ErrorConcatenated<M>(lib: Library<M>, pos: AbsAddress, p: OperandToken, q: OperandToken, env: Environment,
          now: int,
          e: FormulaError, s: string)
    requires RefersToError(p, pos, env, e) && WrittenAs(lib, q, pos, env, s)
    ensures Combined(lib, pos, p, q, env, now, Concat) == Combined(lib, pos, q, p, env, now, Concat) == Error(e)
  {
    TextTaken(lib, q, pos, env, s);
    CombinedInterpreted(CellAlgebra(lib, pos, [p, q], env, now), Concat, SCell(p.a), PushOperand(pos, q).v);
    CombinedInterpreted(CellAlgebra(lib, pos, [q, p], env, now), Concat, PushOperand(pos, q).v, SCell(p.a));
  }

  lemma ErrorNegated<M>(lib: Library<M>, pos: AbsAddress, p: OperandToken, env: Environment, now: int, e: FormulaError)
    requires RefersToError(p, pos, env, e)
    ensures InterpretedResult(lib, pos, [p], [ExprTok(Minus), Operand(0)], env, now) == Error(e)
  {
    SignedInterpreted(CellAlgebra(lib, pos, [p], env, now), SCell(p.a));
  }

  /** A single operand is its own result; a reference has the content of its
      cell, a range that of its first cell; a formula that refers to its own
      cell has an error. */
  lemma OperandResults<M>(lib: Library<M>, pos: AbsAddress, p: OperandToken, env: Environment, now: int)
    ensures InterpretedResult(lib, pos, [p], [Operand(0)], env, now) ==
      match p
      case Constant(n) => Numeric(n)
      case Quoted(s) => Text(s)
      case ErrorValue(e) => Error(e)
      case CellRef(a) =>
        if a == pos then Error(RefResultNotAvailable) else if a in env then env[a].v else Numeric(0.0)
      case RangeRef(r) =>
        if r.Contains(pos) then Error(RefResultNotAvailable) else if r.first in env then env[r.first].v
          else Numeric(0.0)
  {
    var alg := CellAlgebra(lib, pos, [p], env, now);
    if PushOperand<M>(pos, p).Ok? {
      SignedInterpreted(alg, PushOperand(pos, p).v);
    } else {
      OperandThrows(alg, PushOperand<M>(pos, p).error);
    }
  }

  lemma OperandThrows<V, E>(alg: Algebra<V, E>, x: E)
    requires alg.operand(0) == Fail(x)
    ensures Interpretation(alg, [Operand(0)]) == Fail(x)
  {
    var tree := Expr(Just(Factor(NoSign, Leaf(0))), End);
    assert ExprTokens(tree) == [Operand(0)];
    TreesAreInterpreted(alg, tree);
  }

  /** An operand that is no number where one is needed: an error token, a
      range, or text that a formula has computed. */
  lemma NotNumbers<M>(lib: Library<M>, pos: AbsAddress, p: OperandToken, q: OperandToken, env: Environment, now: int,
          x: real, op: ExprOp, op': TermOp)
    requires q.RangeRef? ==> !q.r.Contains(pos)
    ensures IsNumber(p, pos, env, x) && q.RangeRef? ==>
      Related(lib, pos, p, q, env, now, op) == Related(lib, pos, q, p, env, now, op) == Error(GeneralError)
    ensures IsNumber(p, pos, env, x) && NeverNumber(q, pos, env) && !op'.Concat? ==>
      Combined(lib, pos, p, q, env, now, op') == Combined(lib, pos, q, p, env, now, op') == Error(InvalidValueType)
  {
    if IsNumber(p, pos, env, x) && q.RangeRef? {
      NumberTaken(lib, p, pos, env, x);
      var a, b: StackValue<M> := PushOperand(pos, p).v, SRange(q.r);
      RelatedInterpreted(CellAlgebra(lib, pos, [p, q], env, now), op, a, b);
      RelatedInterpreted(CellAlgebra(lib, pos, [q, p], env, now), op, b, a);
    }
    if IsNumber(p, pos, env, x) && NeverNumber(q, pos, env) && !op'.Concat? {
      FactorTaken(lib, p, pos, env, op', x);
      var a, b: StackValue<M> := PushOperand(pos, p).v, PushOperand(pos, q).v;
      CombinedInterpreted(CellAlgebra(lib, pos, [p, q], env, now), op', a, b);
      CombinedInterpreted(CellAlgebra(lib, pos, [q, p], env, now), op', b, a);
    }
  }

  /** A range in a product is turned into a matrix of the contents of its cells. */
  lemma RangesBecomeMatrices<M>(lib: Library<M>, pos: AbsAddress, p: OperandToken, q: OperandToken, env: Environment,
          now: int, x: real, op: TermOp)
    requires p.RangeRef? && !p.r.Contains(pos) && CountsAs(q, pos, env, x) && !op.Concat?
    ensures var m := lib.rangeMatrix(p.r, map a | a in env && p.r.Contains(a) :: env[a]);
      var r := lib.combineMatrix(op, SMatrix(m), SNumber(x));
      && (r.Fail? ==> Combined(lib, pos, p, q, env, now, op) == Error(r.error))
      && (r.Ok? && r.v.SNumber? ==> Combined(lib, pos, p, q, env, now, op) == Numeric(r.v.n))
      && (r.Ok? && r.v.SMatrix? ==> Combined(lib, pos, p, q, env, now, op) == lib.matrixResult(r.v.m))
  {
    var v: StackValue<M> := SRange(p.r);
    var cells := map a | a in env && p.r.Contains(a) :: env[a];
    assert Seen1(env, v) == cells;
    FactorTaken(lib, q, pos, env, op, x);
    CombinedBy(lib, pos, p, q, env, now, op, SMatrix(lib.rangeMatrix(p.r, cells)), SNumber(x));
  }

  /** A matrix that a function returns is joined to a number by the operations
      on matrices. */
  lemma MatricesRelated<M>(lib: Library<M>, pos: AbsAddress, f: nat, m: M, x: real, op: ExprOp, env: Environment,
          now: int)
    requires lib.call(f, [], map[], now) == Ok(SMatrix(m))
    ensures var r := lib.relateMatrix(op, SNumber(x), SMatrix(m));
      var stored := InterpretedResult(lib, pos, [Constant(x)], [Operand(0), ExprTok(op), Func(f), Open, Close], env,
        now);
      && (r.Fail? ==> stored == Error(r.error))
      && (r.Ok? && r.v.SMatrix? ==> stored == lib.matrixResult(r.v.m))
  {
    var alg := CellAlgebra(lib, pos, [Constant(x)], env, now);
    var a, c: StackValue<M> := SNumber(x), SMatrix(m);
    assert SeenBy<M>(env, []) == map[];
    CallRelated(alg, f, a, c, op);
  }

  predicate NeverNumber(t: OperandToken, pos: AbsAddress, env: Environment) {
    || t.ErrorValue?
    || (t.CellRef? && t.a != pos && t.a in env && env[t.a].v.Text? && env[t.a].computed)
  }

  /** A function is called with its arguments in order. */
  lemma CallResult<M>(lib: Library<M>, pos: AbsAddress, f: nat, x: real, y: real, env: Environment, now: int)
    ensures var r := lib.call(f, [SNumber(x), SNumber(y)], map[], now);
      var stored := InterpretedResult(lib, pos, [Constant(x), Constant(y)],
                                      [Func(f), Open, Operand(0), Sep, Operand(1), Close], env, now);
      && (r.Fail? ==> stored == Error(r.error))
      && (r.Ok? && r.v.SBoolean? ==> stored == Boolean(r.v.b))
      && (r.Ok? && r.v.SNumber? ==> stored == Numeric(r.v.n))
      && (r.Ok? && r.v.SString? ==> stored == Text(r.v.s))
      && (r.Ok? && r.v.SError? ==> stored == Error(r.v.e))
      && (r.Ok? && r.v.SMatrix? ==> stored == lib.matrixResult(r.v.m))
  {
    var alg := CellAlgebra(lib, pos, [Constant(x), Constant(y)], env, now);
    var vs: seq<StackValue<M>> := [SNumber(x), SNumber(y)];
    TwoArguments(alg, f, vs[0], vs[1]);
    assert SeenBy(env, vs) == map[];
  }

  /** What a function of no arguments that answers with a boolean adds to a
      number and multiplies it by: 1 or 0. */
  lemma BooleansCount<M>(lib: Library<M>, pos: AbsAddress, f: nat, b: bool, x: real, env: Environment, now: int)
    requires lib.call(f, [], map[], now) == Ok(SBoolean(b))
    ensures InterpretedResult(lib, pos, [Constant(x)], [Operand(0), ExprTok(Plus), Func(f), Open, Close], env, now) ==
            Numeric(if b then x + 1.0 else x)
    ensures InterpretedResult(lib, pos, [Constant(x)], [Operand(0), TermTok(Multiply), Func(f), Open, Close], env,
      now) ==
            Numeric(if b then x else 0.0)
    ensures InterpretedResult(lib, pos, [Constant(x)], [Operand(0), TermTok(Concat), Func(f), Open, Close], env, now) ==
            Text(lib.show(x) + if b then "true" else "false")
  {
    var alg := CellAlgebra(lib, pos, [Constant(x)], env, now);
    var a, c: StackValue<M> := SNumber(x), SBoolean(b);
    assert SeenBy<M>(env, []) == map[];
    CallRelated(alg, f, a, c, Plus);
    CallCombined(alg, f, a, c, Multiply);
    CallCombined(alg, f, a, c, Concat);
  }

  lemma CallAlone<V, E>(alg: Algebra<V, E>, f: nat, c: V) returns (call: Term)
    requires alg.call(f, []) == Ok(c)
    ensures TermTokens(call) == [Func(f), Open, Close] && EvaluateTerm(alg, call) == Ok(c)
  {
    call := Just(Factor(NoSign, Call(f, NoArgs)));
    CallAsTerm(alg, f, c, call.f.p.args, call.f.p, call.f, call);
  }

  lemma CallAsTerm<V, E>(alg: Algebra<V, E>, f: nat, c: V, args: Args, p: Primary, g: Factor, t: Term)
    requires alg.call(f, []) == Ok(c)
    requires args == NoArgs && p == Call(f, args) && g == Factor(NoSign, p) && t == Just(g)
    ensures TermTokens(t) == [Func(f), Open, Close] && EvaluateTerm(alg, t) == Ok(c)
  {
    assert ArgsTokens(args) == [];
    assert PrimaryTokens(p) == [Func(f), Open, Close];
    assert EvaluatePrimary(alg, p) == Ok(c);
    assert FactorTokens(g) == PrimaryTokens(p);
    assert EvaluateFactor(alg, g) == Ok(c);
  }

  lemma CallRelated<V, E>(alg: Algebra<V, E>, f: nat, a: V, c: V, op: ExprOp)
    requires alg.operand(0) == Ok(a) && alg.call(f, []) == Ok(c)
    ensures Interpretation(alg, [Operand(0), ExprTok(op), Func(f), Open, Close]) ==
      var x := alg.take(a);
      if x.Fail? then Fail(x.error) else RelateTwo(alg, op, x.v, c)
  {
    var call := CallAlone(alg, f, c);
    var tree := Expr(Just(Factor(NoSign, Leaf(0))), More(op, call, End));
    assert TailTokens(tree.rest) == [ExprTok(op), Func(f), Open, Close];
    assert ExprTokens(tree) == [Operand(0), ExprTok(op), Func(f), Open, Close];
    assert EvaluateTerm(alg, tree.first) == Ok(a);
    assert Evaluate(alg, tree) == EvaluateTail(alg, a, tree.rest);
    var x := alg.take(a);
    if x.Ok? {
      var r := RelateTwo(alg, op, x.v, c);
      assert EvaluateTail(alg, a, tree.rest) == if r.Ok? then EvaluateTail(alg, r.v, End) else Fail(r.error);
    }
    TreesAreInterpreted(alg, tree);
  }

  lemma CallCombined<V, E>(alg: Algebra<V, E>, f: nat, a: V, c: V, op: TermOp)
    requires alg.operand(0) == Ok(a) && alg.call(f, []) == Ok(c)
    ensures Interpretation(alg, [Operand(0), TermTok(op), Func(f), Open, Close]) ==
      var x := alg.takeFactor(op, a);
      if x.Fail? then Fail(x.error) else CombineTwo(alg, op, x.v, c)
  {
    var call := CallAlone(alg, f, c);
    var tree := Expr(Joined(Factor(NoSign, Leaf(0)), op, call), End);
    assert FactorTokens(tree.first.f) == [Operand(0)] && TailTokens(tree.rest) == [];
    assert TermTokens(tree.first) == [Operand(0), TermTok(op), Func(f), Open, Close];
    assert ExprTokens(tree) == [Operand(0), TermTok(op), Func(f), Open, Close];
    assert EvaluateFactor(alg, tree.first.f) == Ok(a);
    var x := alg.takeFactor(op, a);
    assert EvaluateTerm(alg, tree.first) == if x.Fail? then Fail(x.error) else CombineTwo(alg, op, x.v, c);
    TreesAreInterpreted(alg, tree);
  }

  lemma TwoArguments<V, E>(alg: Algebra<V, E>, f: nat, a: V, b: V)
    requires alg.operand(0) == Ok(a) && alg.operand(1) == Ok(b)
    ensures Interpretation(alg, [Func(f), Open, Operand(0), Sep, Operand(1), Close]) == alg.call(f, [a, b])
  {
    var arg := (i: nat) => Expr(Just(Factor(NoSign, Leaf(i))), End);
    var last := LastArg(arg(1), false);
    var args := NextArg(arg(0), last);
    var tree := Expr(Just(Factor(NoSign, Call(f, SomeArgs(args)))), End);
    assert ExprTokens(arg(0)) == [Operand(0)] && ExprTokens(arg(1)) == [Operand(1)];
    assert ArgListTokens(last) == [Operand(1)];
    assert ArgListTokens(args) == [Operand(0), Sep, Operand(1)];
    assert PrimaryTokens(tree.first.f.p) == [Func(f), Open, Operand(0), Sep, Operand(1), Close];
    assert TermTokens(tree.first) == PrimaryTokens(tree.first.f.p);
    assert ExprTokens(tree) == [Func(f), Open, Operand(0), Sep, Operand(1), Close];
    assert Evaluate(alg, arg(0)) == Ok(a) && Evaluate(alg, arg(1)) == Ok(b);
    assert [] + [a] == [a] && [a] + [b] == [a, b];
    assert EvaluateArgs(alg, [a], last) == Ok([a, b]);
    assert EvaluateArgs(alg, [], args) == Ok([a, b]);
    assert EvaluateFactor(alg, tree.first.f) == alg.call(f, [a, b]);
    assert Evaluate(alg, tree) == alg.call(f, [a, b]);
    TreesAreInterpreted(alg, tree);
  }

  /** Nothing to evaluate, and tokens left over, are complained of alike. */
  lemma NoErrorComplaints<M>(lib: Library<M>, pos: AbsAddress, x: real, y: real, env: Environment, now: int)
    ensures InterpretedResult(lib, pos, [], [], env, now) == Error(NoError)
    ensures InterpretedResult(lib, pos, [Constant(x), Constant(y)], [Operand(0), Operand(1)], env, now) ==
      Error(NoError)
  {
  }

  lemma SumOfProduct<V, E>(alg: Algebra<V, E>, a: V, b: V, c: V, x: V, y: V, z: V, w: V, r: V)
    requires alg.operand(0) == Ok(a) && alg.operand(1) == Ok(b) && alg.operand(2) == Ok(c)
    requires alg.takeFactor(Multiply, b) == Ok(y) && alg.takeFactor(Multiply, c) == Ok(z)
    requires alg.combine(Multiply, y, z) == Ok(w)
    requires alg.take(a) == Ok(x) && alg.take(w) == Ok(w) && alg.relate(Plus, x, w) == Ok(r)
    ensures Interpretation(alg, [Operand(0), ExprTok(Plus), Operand(1), TermTok(Multiply), Operand(2)]) == Ok(r)
  {
    var third := Just(Factor(NoSign, Leaf(2)));
    var product := Joined(Factor(NoSign, Leaf(1)), Multiply, third);
    var tree := Expr(Just(Factor(NoSign, Leaf(0))), More(Plus, product, End));
    assert TermTokens(product) == [Operand(1), TermTok(Multiply), Operand(2)];
    assert ExprTokens(tree) == [Operand(0), ExprTok(Plus), Operand(1), TermTok(Multiply), Operand(2)];
    TreesAreInterpreted(alg, tree);
    assert EvaluateTerm(alg, third) == Ok(c);
    assert EvaluateTerm(alg, product) == Ok(w);
  }

  lemma ProductOfSum<V, E>(alg: Algebra<V, E>, a: V, b: V, c: V, x: V, y: V, z: V, w: V, r: V)
    requires alg.operand(0) == Ok(a) && alg.operand(1) == Ok(b) && alg.operand(2) == Ok(c)
    requires alg.take(a) == Ok(x) && alg.take(b) == Ok(y) && alg.relate(Plus, x, y) == Ok(w)
    requires alg.takeFactor(Multiply, w) == Ok(w) && alg.takeFactor(Multiply, c) == Ok(z)
    requires alg.combine(Multiply, w, z) == Ok(r)
    ensures Interpretation(alg,
              [Open, Operand(0), ExprTok(Plus), Operand(1), Close, TermTok(Multiply), Operand(2)]) == Ok(r)
  {
    var second, third := Just(Factor(NoSign, Leaf(1))), Just(Factor(NoSign, Leaf(2)));
    var sum := Expr(Just(Factor(NoSign, Leaf(0))), More(Plus, second, End));
    var tree := Expr(Joined(Factor(NoSign, Paren(sum)), Multiply, third), End);
    assert ExprTokens(sum) == [Operand(0), ExprTok(Plus), Operand(1)];
    assert PrimaryTokens(Paren(sum)) == [Open, Operand(0), ExprTok(Plus), Operand(1), Close];
    assert TermTokens(third) == [Operand(2)];
    assert ExprTokens(tree) == [Open, Operand(0), ExprTok(Plus), Operand(1), Close, TermTok(Multiply), Operand(2)];
    TreesAreInterpreted(alg, tree);
    assert EvaluateTerm(alg, second) == Ok(b) && EvaluateTerm(alg, third) == Ok(c);
    assert Evaluate(alg, sum) == Ok(w);
  }

  lemma NumbersMultiplied<M>(lib: Library<M>, x: real, y: real, w: real)
    requires w == x * y
    ensures CombineValues<M>(lib, Multiply, SNumber(x), SNumber(y)) == Ok(SNumber(w))
  {
    var r := CombineValues<M>(lib, Multiply, SNumber(x), SNumber(y));
    assert r.Ok?;
    assert r.v.SNumber?;
    assert r.v.n == w;
  }

  /** Term operators bind more tightly than the others. */
  lemma TermsBindTighter<M>(lib: Library<M>, pos: AbsAddress, x: real, y: real, z: real, env: Environment, now: int)
    ensures InterpretedResult(lib, pos, [Constant(x), Constant(y), Constant(z)],
              [Operand(0), ExprTok(Plus), Operand(1), TermTok(Multiply), Operand(2)], env, now) == Numeric(x + y * z)
  {
    var alg := CellAlgebra(lib, pos, [Constant(x), Constant(y), Constant(z)], env, now);
    var a, b, c: StackValue<M> := SNumber(x), SNumber(y), SNumber(z);
    NumbersMultiplied(lib, y, z, y * z);
    SumOfProduct(alg, a, b, c, a, b, c, SNumber(y * z), SNumber(x + y * z));
  }

  /** Parentheses group. */
  lemma ParenthesesGroup<M>(lib: Library<M>, pos: AbsAddress, x: real, y: real, z: real, sum: real, r: real,
          env: Environment, now: int)
    requires sum == x + y && r == sum * z
    ensures InterpretedResult(lib, pos, [Constant(x), Constant(y), Constant(z)],
              [Open, Operand(0), ExprTok(Plus), Operand(1), Close, TermTok(Multiply), Operand(2)], env, now) ==
                Numeric(r)
  {
    var alg := CellAlgebra(lib, pos, [Constant(x), Constant(y), Constant(z)], env, now);
    var a, b, c: StackValue<M> := SNumber(x), SNumber(y), SNumber(z);
    NumbersMultiplied(lib, sum, z, r);
    ProductOfSum(alg, a, b, c, a, b, c, SNumber(sum), SNumber(r));
  }
}
