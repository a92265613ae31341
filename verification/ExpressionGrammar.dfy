/** The expression grammar written in the comments of the interpreter, the
    value of an expression tree, and the descent over a token sequence. */
module ExpressionGrammar {
  import opened Recalculation

  datatype ExprOp = Plus | Minus | Equal | NotEqual | Less | LessEqual | Greater | GreaterEqual
  datatype TermOp = Multiply | Exponent | Concat | Divide

  /** A constant, literal, error or reference token is known by a number. */
  datatype Token =
    | ExprTok(e: ExprOp) | TermTok(t: TermOp) | Open | Close | Sep
    | Func(f: nat) | Operand(id: nat) | Unexpected(error: FormulaError)

  /** A value or what is thrown. */
  datatype Outcome<+V, +E> = Ok(v: V) | Fail(error: E)

  /** How values behave: what an operand token pushes, how the operand of a
      relational or additive operator is taken off the stack and two of them
      are joined, the same for the term operators, negation, and calls.  Each
      of them may throw.  The errors of the grammar itself are thrown as error
      says. */
  datatype Algebra<!V, !E> = Algebra(
    operand: nat -> Outcome<V, E>,
    take: V -> Outcome<V, E>,
    relate: (ExprOp, V, V) -> Outcome<V, E>,
    takeFactor: (TermOp, V) -> Outcome<V, E>,
    combine: (TermOp, V, V) -> Outcome<V, E>,
    negate: V -> Outcome<V, E>,
    call: (nat, seq<V>) -> Outcome<V, E>,
    error: FormulaError -> E)

  // ---- trees ----

  /** expression: terms joined from the left */
  datatype Expr = Expr(first: Term, rest: Tail)
  datatype Tail = End | More(op: ExprOp, t: Term, rest: Tail)

  /** term: factors joined from the right */
  datatype Term = Just(f: Factor) | Joined(f: Factor, op: TermOp, t: Term)

  /** factor: one optional sign before a primary */
  datatype Sign = NoSign | PlusSign | MinusSign
  datatype Factor = Factor(sign: Sign, p: Primary)
  datatype Primary = Leaf(id: nat) | Paren(e: Expr) | Call(f: nat, args: Args)

  /** The arguments of a call; the interpreter also takes one separator after
      the last of them. */
  datatype Args = NoArgs | SomeArgs(list: ArgList)
  datatype ArgList = LastArg(e: Expr, trailing: bool) | NextArg(e: Expr, rest: ArgList)

  function ExprTokens(e: Expr): seq<Token> {
    TermTokens(e.first) + TailTokens(e.rest)
  }

  function TailTokens(r: Tail): seq<Token> {
    match r
    case End => []
    case More(op, t, rest) => [ExprTok(op)] + (TermTokens(t) + TailTokens(rest))
  }

  function TermTokens(t: Term): seq<Token> {
    match t
    case Just(f) => FactorTokens(f)
    case Joined(f, op, t) => FactorTokens(f) + ([TermTok(op)] + TermTokens(t))
  }

  function FactorTokens(f: Factor): seq<Token> {
    match f.sign
    case NoSign => PrimaryTokens(f.p)
    case PlusSign => [ExprTok(Plus)] + PrimaryTokens(f.p)
    case MinusSign => [ExprTok(Minus)] + PrimaryTokens(f.p)
  }

  function PrimaryTokens(p: Primary): seq<Token> {
    match p
    case Leaf(id) => [Operand(id)]
    case Paren(e) => [Open] + (ExprTokens(e) + [Close])
    case Call(f, args) => [Func(f), Open] + (ArgsTokens(args) + [Close])
  }

  function ArgsTokens(a: Args): seq<Token> {
    match a
    case NoArgs => []
    case SomeArgs(list) => ArgListTokens(list)
  }

  function ArgListTokens(l: ArgList): seq<Token> {
    match l
    case LastArg(e, trailing) => ExprTokens(e) + if trailing then [Sep] else []
    case NextArg(e, rest) => ExprTokens(e) + ([Sep] + ArgListTokens(rest))
  }

  /** Takes the second operand off the stack and joins it to the first. */
  function RelateTwo<V, E>(alg: Algebra<V, E>, op: ExprOp, a: V, v: V): Outcome<V, E> {
    match alg.take(v)
    case Fail(x) => Fail(x)
    case Ok(b) => alg.relate(op, a, b)
  }

  function CombineTwo<V, E>(alg: Algebra<V, E>, op: TermOp, a: V, w: V): Outcome<V, E> {
    match alg.takeFactor(op, w)
    case Fail(x) => Fail(x)
    case Ok(b) => alg.combine(op, a, b)
  }

  function Evaluate<V, E>(alg: Algebra<V, E>, e: Expr): Outcome<V, E>
    decreases e
  {
    match EvaluateTerm(alg, e.first)
    case Fail(x) => Fail(x)
    case Ok(v) => EvaluateTail(alg, v, e.rest)
  }

  function EvaluateTail<V, E>(alg: Algebra<V, E>, acc: V, r: Tail): Outcome<V, E>
    decreases r
  {
    match r
    case End => Ok(acc)
    case More(op, t, rest) =>
      match alg.take(acc)
      case Fail(x) => Fail(x)
      case Ok(a) =>
        match EvaluateTerm(alg, t)
        case Fail(x) => Fail(x)
        case Ok(v) =>
          match RelateTwo(alg, op, a, v)
          case Fail(x) => Fail(x)
          case Ok(w) => EvaluateTail(alg, w, rest)
  }

  function EvaluateTerm<V, E>(alg: Algebra<V, E>, t: Term): Outcome<V, E>
    decreases t
  {
    match EvaluateFactor(alg, t.f)
    case Fail(x) => Fail(x)
    case Ok(v) =>
      if t.Just? then Ok(v) else
        match alg.takeFactor(t.op, v)
        case Fail(x) => Fail(x)
        case Ok(a) =>
          match EvaluateTerm(alg, t.t)
          case Fail(x) => Fail(x)
          case Ok(w) => CombineTwo(alg, t.op, a, w)
  }

  function EvaluateFactor<V, E>(alg: Algebra<V, E>, f: Factor): Outcome<V, E>
    decreases f
  {
    match EvaluatePrimary(alg, f.p)
    case Fail(x) => Fail(x)
    case Ok(v) => if f.sign.MinusSign? then alg.negate(v) else Ok(v)
  }

  function EvaluatePrimary<V, E>(alg: Algebra<V, E>, p: Primary): Outcome<V, E>
    decreases p
  {
    match p
    case Leaf(id) => alg.operand(id)
    case Paren(e) => Evaluate(alg, e)
    case Call(f, NoArgs) => alg.call(f, [])
    case Call(f, SomeArgs(list)) =>
      match EvaluateArgs(alg, [], list)
      case Fail(x) => Fail(x)
      case Ok(vs) => alg.call(f, vs)
  }

  function EvaluateArgs<V, E>(alg: Algebra<V, E>, acc: seq<V>, l: ArgList): Outcome<seq<V>, E>
    decreases l
  {
    match Evaluate(alg, l.e)
    case Fail(x) => Fail(x)
    case Ok(v) => if l.LastArg? then Ok(acc + [v]) else EvaluateArgs(alg, acc + [v], l.rest)
  }

  // ---- the descent ----

  /** A value and the position after it, or the error thrown. */
  datatype Parsed<+V, +E> = Got(v: V, next: nat) | Threw(error: E)

  function ExpressionAt<V, E>(alg: Algebra<V, E>, toks: seq<Token>, i: nat): (r: Parsed<V, E>)
    requires i <= |toks|
    ensures r.Got? ==> i < r.next <= |toks|
    decreases |toks| - i, 4
  {
    match TermAt(alg, toks, i)
    case Threw(x) => Threw(x)
    case Got(v, j) => ExpressionFrom(alg, toks, v, j)
  }

  /** The loop of an expression, with the value joined so far. */
  function ExpressionFrom<V, E>(alg: Algebra<V, E>, toks: seq<Token>, acc: V, i: nat): (r: Parsed<V, E>)
    requires i <= |toks|
    ensures r.Got? ==> i <= r.next <= |toks|
    decreases |toks| - i, 4
  {
    if i == |toks| || !toks[i].ExprTok? then Got(acc, i) else
      match RelateNext(alg, toks, acc, i)
      case Threw(x) => Threw(x)
      case Got(w, j) => ExpressionFrom(alg, toks, w, j)
  }

  /** One round of that loop. */
  function RelateNext<V, E>(alg: Algebra<V, E>, toks: seq<Token>, acc: V, i: nat): (r: Parsed<V, E>)
    requires i < |toks| && toks[i].ExprTok?
    ensures r.Got? ==> i < r.next <= |toks|
    decreases |toks| - i, 3
  {
    match alg.take(acc)
    case Fail(x) => Threw(x)
    case Ok(a) =>
      match TermAt(alg, toks, i + 1)
      case Threw(x) => Threw(x)
      case Got(v, j) =>
        match RelateTwo(alg, toks[i].e, a, v)
        case Fail(x) => Threw(x)
        case Ok(w) => Got(w, j)
  }

  function TermAt<V, E>(alg: Algebra<V, E>, toks: seq<Token>, i: nat): (r: Parsed<V, E>)
    requires i <= |toks|
    ensures r.Got? ==> i < r.next <= |toks|
    decreases |toks| - i, 3
  {
    match FactorAt(alg, toks, i)
    case Threw(x) => Threw(x)
    case Got(v, j) =>
      if j == |toks| || !toks[j].TermTok? then Got(v, j) else
        match alg.takeFactor(toks[j].t, v)
        case Fail(x) => Threw(x)
        case Ok(a) =>
          match TermAt(alg, toks, j + 1)
          case Threw(x) => Threw(x)
          case Got(w, k) =>
            match CombineTwo(alg, toks[j].t, a, w)
            case Fail(x) => Threw(x)
            case Ok(u) => Got(u, k)
  }

  predicate IsSign(t: Token) {
    t == ExprTok(Plus) || t == ExprTok(Minus)
  }

  function FactorAt<V, E>(alg: Algebra<V, E>, toks: seq<Token>, i: nat): (r: Parsed<V, E>)
    requires i <= |toks|
    ensures r.Got? ==> i < r.next <= |toks|
    decreases |toks| - i, 2
  {
    if i == |toks| then Threw(alg.error(InvalidExpression))
    else if !IsSign(toks[i]) then PrimaryAt(alg, toks, i)
    else if i + 1 == |toks| then Threw(alg.error(InvalidExpression))
    else
      match PrimaryAt(alg, toks, i + 1)
      case Threw(x) => Threw(x)
      case Got(v, j) =>
        if toks[i].e.Plus? then Got(v, j) else
          match alg.negate(v)
          case Fail(x) => Threw(x)
          case Ok(w) => Got(w, j)
  }

  function PrimaryAt<V, E>(alg: Algebra<V, E>, toks: seq<Token>, i: nat): (r: Parsed<V, E>)
    requires i < |toks|
    ensures r.Got? ==> i < r.next <= |toks|
    decreases |toks| - i, 1
  {
    match toks[i]
    case Operand(id) =>
      (match alg.operand(id)
       case Fail(x) => Threw(x)
       case Ok(v) => Got(v, i + 1))
    case Open =>
      (match ExpressionAt(alg, toks, i + 1)
       case Threw(x) => Threw(x)
       case Got(v, j) => if j == |toks| || toks[j] != Close then Threw(alg.error(InvalidExpression)) else Got(v, j + 1))
    case Func(f) =>
      if i + 1 == |toks| || toks[i + 1] != Open || i + 2 == |toks| then Threw(alg.error(InvalidExpression)) else
        (match ArgumentsAt(alg, toks, [], i + 2, false)
         case Threw(x) => Threw(x)
         case Got(vs, j) =>
           match alg.call(f, vs)
           case Fail(x) => Threw(x)
           case Ok(v) => Got(v, j))
    case Unexpected(x) => Threw(alg.error(x))
    case _ => Threw(alg.error(InvalidExpression))
  }

  /** The arguments up to and including the closing parenthesis. */
  function ArgumentsAt<V, E>(alg: Algebra<V, E>, toks: seq<Token>, acc: seq<V>, i: nat,
          expectSep: bool): (r: Parsed<seq<V>, E>)
    requires i < |toks|
    ensures r.Got? ==> i < r.next <= |toks|
    decreases |toks| - i, 5
  {
    if toks[i] == Close then Got(acc, i + 1)
    else if expectSep then
      if toks[i] != Sep || i + 1 == |toks| then Threw(alg.error(InvalidExpression))
      else ArgumentsAt(alg, toks, acc, i + 1, false)
    else
      match ExpressionAt(alg, toks, i)
      case Threw(x) => Threw(x)
      case Got(v, j) =>
        if j == |toks| then Threw(alg.error(InvalidExpression)) else ArgumentsAt(alg, toks, acc + [v], j, true)
  }
}
