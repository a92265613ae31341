/** The values on the interpreter's stacks and what its operators do with
    them.  Matrices, powers, number formatting and the built-in functions are
    parameters. */
module FormulaValues {
  import opened Wrappers
  import opened Address
  import opened Recalculation
  import opened ExpressionGrammar

  type Result<V> = Outcome<V, FormulaError>

  datatype StackValue<M> =
    | SBoolean(b: bool) | SNumber(n: real) | SString(s: string) | SError(e: FormulaError)
    | SCell(a: AbsAddress) | SRange(r: AbsRange) | SMatrix(m: M)
  {
    /** The cells whose contents the value stands for. */
    predicate Touches(x: AbsAddress) {
      match this
      case SCell(a) => x == a
      case SRange(r) => r.Contains(x)
      case _ => false
    }
  }

  /** What is outside this model.  A function, like a range turned into a
      matrix, sees the contents of the cells its arguments stand for; it also
      gets the reading of the clock, which only volatile functions look at.
      While some of these cells are unread it asks for the one it reads next. */
  datatype Library<!M> = Library(
    power: (real, real) -> real,
    show: real -> string,
    rangeMatrix: (AbsRange, Environment) -> M,
    matrixNumber: M -> Result<real>,
    matrixResult: M -> Value,
    relateMatrix: (ExprOp, StackValue<M>, StackValue<M>) -> Result<StackValue<M>>,
    combineMatrix: (TermOp, StackValue<M>, StackValue<M>) -> Result<StackValue<M>>,
    isVolatile: nat -> bool,
    call: (nat, seq<StackValue<M>>, Environment, int) -> Result<StackValue<M>>,
    asks: (nat, seq<StackValue<M>>, Environment, set<AbsAddress>) -> Option<AbsAddress>)

  /** The operand tokens of a formula, with absolute positions. */
  datatype OperandToken =
    | Constant(n: real) | Quoted(s: string) | ErrorValue(e: FormulaError)
    | CellRef(a: AbsAddress) | RangeRef(r: AbsRange)

  function Truth<M>(b: bool): StackValue<M> {
    SNumber(if b then 1.0 else 0.0)
  }

  function TextOf(b: bool): string {
    if b then "true" else "false"
  }

  /** Lexicographic order of strings. */
  predicate StringLess(s: string, t: string) {
    t != [] && (s == [] || s[0] < t[0] || (s[0] == t[0] && StringLess(s[1..], t[1..])))
  }

  /** References to the cell itself are refused. */
  function PushOperand<M>(pos: AbsAddress, t: OperandToken): Result<StackValue<M>> {
    match t
    case Constant(n) => Ok(SNumber(n))
    case Quoted(s) => Ok(SString(s))
    case ErrorValue(e) => Ok(SError(e))
    case CellRef(a) => if a == pos then Fail(RefResultNotAvailable) else Ok(SCell(a))
    case RangeRef(r) => if r.Contains(pos) then Fail(RefResultNotAvailable) else Ok(SRange(r))
  }

  /** pop_stack_value: the operand of an additive or relational operator. */
  function TakeValue<M>(env: Environment, v: StackValue<M>): Result<StackValue<M>> {
    match v
    case SBoolean(b) => Ok(Truth(b))
    case SCell(a) =>
      if a !in env then Ok(SNumber(0.0)) else
        (match env[a].v
         case Numeric(n) => Ok(SNumber(n))
         case Boolean(b) => Ok(Truth(b))
         case Text(s) => Ok(SString(s))
         case Error(e) => Ok(SError(e)))
    case SRange(_) => Fail(GeneralError)
    case _ => Ok(v)
  }

  function RelateNumbers<M>(op: ExprOp, a: real, b: real): StackValue<M> {
    match op
    case Plus => SNumber(a + b)
    case Minus => SNumber(a - b)
    case Equal => Truth(a == b)
    case NotEqual => Truth(a != b)
    case Less => Truth(a < b)
    case LessEqual => Truth(a <= b)
    case Greater => Truth(a > b)
    case GreaterEqual => Truth(a >= b)
  }

  function RelateStrings<M>(op: ExprOp, s: string, t: string): Result<StackValue<M>> {
    match op
    case Plus => Fail(InvalidExpression)
    case Minus => Fail(InvalidExpression)
    case Equal => Ok(Truth(s == t))
    case NotEqual => Ok(Truth(s != t))
    case Less => Ok(Truth(StringLess(s, t)))
    case LessEqual => Ok(Truth(!StringLess(t, s)))
    case Greater => Ok(Truth(StringLess(t, s)))
    case GreaterEqual => Ok(Truth(!StringLess(s, t)))
  }

  /** A string is greater than any number. */
  function RelateMixed<M>(op: ExprOp, stringFirst: bool): Result<StackValue<M>> {
    match op
    case Plus => Fail(InvalidExpression)
    case Minus => Fail(InvalidExpression)
    case Equal => Ok(Truth(false))
    case NotEqual => Ok(Truth(true))
    case Less => Ok(Truth(!stringFirst))
    case LessEqual => Ok(Truth(!stringFirst))
    case Greater => Ok(Truth(stringFirst))
    case GreaterEqual => Ok(Truth(stringFirst))
  }

  function RelateValues<M>(lib: Library<M>, op: ExprOp, a: StackValue<M>, b: StackValue<M>): Result<StackValue<M>> {
    match (a, b)
    case (SNumber(x), SNumber(y)) => Ok(RelateNumbers(op, x, y))
    case (SNumber(_), SString(_)) => RelateMixed(op, false)
    case (SNumber(_), SMatrix(_)) => lib.relateMatrix(op, a, b)
    case (SNumber(_), SError(_)) => Ok(b)
    case (SString(_), SNumber(_)) => RelateMixed(op, true)
    case (SString(s), SString(t)) => RelateStrings(op, s, t)
    case (SMatrix(_), SNumber(_)) => lib.relateMatrix(op, a, b)
    case (SError(_), _) => Ok(a)
    case _ => Fail(GeneralError)
  }

  /** get_numeric_value */
  function NumberOf<M>(lib: Library<M>, env: Environment, v: StackValue<M>): Result<real> {
    match v
    case SBoolean(b) => Ok(if b then 1.0 else 0.0)
    case SNumber(n) => Ok(n)
    case SString(_) => Ok(0.0)
    case SMatrix(m) => lib.matrixNumber(m)
    case SCell(a) =>
      if a !in env then Ok(0.0) else
        (match env[a].v
         case Numeric(n) => Ok(n)
         case Boolean(b) => Ok(if b then 1.0 else 0.0)
         case Text(_) => if env[a].computed then Fail(InvalidValueType) else Ok(0.0)
         case Error(e) => Fail(e))
    case _ => Fail(InvalidValueType)
  }

  /** pop_string */
  function StringOf<M>(lib: Library<M>, env: Environment, v: StackValue<M>): Result<string> {
    match v
    case SString(s) => Ok(s)
    case SBoolean(b) => Ok(TextOf(b))
    case SNumber(n) => Ok(lib.show(n))
    case SCell(a) =>
      if a !in env then Ok("") else
        (match env[a].v
         case Numeric(n) => Ok(lib.show(n))
         case Boolean(b) => if env[a].computed then Ok(TextOf(b)) else Fail(StackError)
         case Text(s) => Ok(s)
         case Error(e) => Fail(e))
    case _ => Fail(StackError)
  }

  ghost function Seen1<M>(env: Environment, v: StackValue<M>): Environment {
    map a | a in env && v.Touches(a) :: env[a]
  }

  ghost function SeenBy<M>(env: Environment, vs: seq<StackValue<M>>): Environment {
    map a | a in env && (exists i :: 0 <= i < |vs| && vs[i].Touches(a)) :: env[a]
  }

  /** The operand of a term operator: a matrix, else a number, or a string for
      concatenation. */
  ghost function TakeFactor<M>(lib: Library<M>, env: Environment, op: TermOp, v: StackValue<M>): Result<StackValue<M>> {
    match v
    case SMatrix(_) => Ok(v)
    case SRange(r) => Ok(SMatrix(lib.rangeMatrix(r, Seen1(env, v))))
    case _ =>
      if op.Concat? then
        (match StringOf(lib, env, v)
         case Ok(s) => Ok(SString(s))
         case Fail(x) => Fail(x))
      else
        (match NumberOf(lib, env, v)
         case Ok(n) => Ok(SNumber(n))
         case Fail(x) => Fail(x))
  }

  function CombineValues<M>(lib: Library<M>, op: TermOp, a: StackValue<M>, b: StackValue<M>): Result<StackValue<M>> {
    match (a, b)
    case (SString(s), SString(t)) => if op.Concat? then Ok(SString(s + t)) else Fail(InvalidExpression)
    case (SNumber(x), SNumber(y)) =>
      (match op
       case Multiply => Ok(SNumber(x * y))
       case Exponent => Ok(SNumber(lib.power(x, y)))
       case Divide => if y == 0.0 then Fail(DivisionByZero) else Ok(SNumber(x / y))
       case Concat => Fail(InvalidExpression))
    case _ => if a.SMatrix? || b.SMatrix? then lib.combineMatrix(op, a, b) else Fail(InvalidExpression)
  }

  function NegateValue<M>(lib: Library<M>, env: Environment, v: StackValue<M>): Result<StackValue<M>> {
    match NumberOf(lib, env, v)
    case Ok(n) => Ok(SNumber(n * -1.0))
    case Fail(x) => Fail(x)
  }

  /** How the interpreter of the cell at pos, with these operand tokens, works
      on these cell contents at this time. */
  ghost function CellAlgebra<M>(lib: Library<M>, pos: AbsAddress, operands: seq<OperandToken>,
          env: Environment, now: int): Algebra<StackValue<M>, FormulaError> {
    Algebra(
      (id: nat) => if id < |operands| then PushOperand(pos, operands[id]) else Fail(GeneralError),
      v => TakeValue(env, v),
      (op, a, b) => RelateValues(lib, op, a, b),
      (op, v) => TakeFactor(lib, env, op, v),
      (op, a, b) => CombineValues(lib, op, a, b),
      v => NegateValue(lib, env, v),
      (f, vs) => lib.call(f, vs, SeenBy(env, vs), now),
      x => x)
  }

  /** The result stored for the one value left on the stack. */
  function PopResult<M>(lib: Library<M>, env: Environment, v: StackValue<M>): Value {
    match v
    case SBoolean(b) => Boolean(b)
    case SNumber(n) => Numeric(n)
    case SString(s) => Text(s)
    case SError(e) => Error(e)
    case SMatrix(m) => lib.matrixResult(m)
    case SCell(a) => if a in env then env[a].v else Numeric(0.0)
    case SRange(r) => if r.first in env then env[r.first].v else Numeric(0.0)
  }
}
