/** The parser from lexer tokens to formula tokens. */
module FormulaParser {
  import opened Wrappers
  import Recalculation
  import G = ExpressionGrammar
  import Lex = FormulaLexer

  /** A reference, function or named expression is known by the name that
      stands for it in a formula, a number by its numeral. */
  datatype FormulaToken =
    | Relation(e: G.ExprOp) | Joining(t: G.TermOp) | Open | Close | Sep | ArrayOpen | ArrayClose | ArrayRowSep
    | Value(text: string) | Name(text: string) | Literal(text: string) | ErrorToken(error: Recalculation.FormulaError)

  /** The names that the resolver knows. */
  type Resolver = string -> bool

  function Primitive(op: Lex.Opcode): FormulaToken {
    match op
    case Plus => Relation(G.Plus)
    case Minus => Relation(G.Minus)
    case Equal => Relation(G.Equal)
    case Less => Relation(G.Less)
    case Greater => Relation(G.Greater)
    case Multiply => Joining(G.Multiply)
    case Exponent => Joining(G.Exponent)
    case Concat => Joining(G.Concat)
    case Divide => Joining(G.Divide)
    case Open => Open
    case Close => Close
    case ArrayOpen => ArrayOpen
    case ArrayClose => ArrayClose
    case Sep => Sep
    case ArrayRowSep => ArrayRowSep
  }

  /** The formula token for one lexer token; None for a name unknown to the
      resolver. */
  function Single(t: Lex.LexerToken, resolves: Resolver): Option<FormulaToken> {
    match t
    case Operator(op) => Some(Primitive(op))
    case Numeral(text) => Some(Value(text))
    case Identifier(text) => if resolves(text) then Some(Name(text)) else None
    case Quoted(text) => Some(Literal(text))
    case ErrorValue(e) => Some(ErrorToken(e))
  }

  /** Two lexer tokens that are read as one relational operator. */
  function Fused(t: Lex.LexerToken, u: Lex.LexerToken): Option<G.ExprOp> {
    if t == Lex.Operator(Lex.Less) && u == Lex.Operator(Lex.Equal) then Some(G.LessEqual)
    else if t == Lex.Operator(Lex.Less) && u == Lex.Operator(Lex.Greater) then Some(G.NotEqual)
    else if t == Lex.Operator(Lex.Greater) && u == Lex.Operator(Lex.Equal) then Some(G.GreaterEqual)
    else None
  }

  function After(t: Option<FormulaToken>, more: Option<seq<FormulaToken>>): Option<seq<FormulaToken>> {
    if t.Some? && more.Some? then Some([t.value] + more.value) else None
  }

  /** The operator made of the tokens at i and after it, if they are one. */
  function FusedAt(ts: seq<Lex.LexerToken>, i: nat): Option<G.ExprOp>
    requires i < |ts|
  {
    if i + 1 < |ts| then Fused(ts[i], ts[i + 1]) else None
  }

  function FirstToken(ts: seq<Lex.LexerToken>, i: nat, resolves: Resolver): Option<FormulaToken>
    requires i < |ts|
  {
    if FusedAt(ts, i).Some? then Some(Relation(FusedAt(ts, i).value)) else Single(ts[i], resolves)
  }

  function FirstEnd(ts: seq<Lex.LexerToken>, i: nat): (end: nat)
    requires i < |ts|
    ensures i < end <= |ts|
  {
    if FusedAt(ts, i).Some? then i + 2 else i + 1
  }

  /** The formula tokens from position i on; None when the parser throws. */
  function ParsedFrom(ts: seq<Lex.LexerToken>, i: nat, resolves: Resolver): Option<seq<FormulaToken>>
    requires i <= |ts|
    decreases |ts| - i
  {
    if i == |ts| then Some([]) else After(FirstToken(ts, i, resolves), ParsedFrom(ts, FirstEnd(ts, i), resolves))
  }

  /** The lexer tokens of which a formula token consists. */
  function Unlexed(t: FormulaToken): (ts: seq<Lex.LexerToken>)
    ensures 1 <= |ts| <= 2
  {
    match t
    case Relation(e) =>
      (match e
       case Plus => [Lex.Operator(Lex.Plus)]
       case Minus => [Lex.Operator(Lex.Minus)]
       case Equal => [Lex.Operator(Lex.Equal)]
       case Less => [Lex.Operator(Lex.Less)]
       case Greater => [Lex.Operator(Lex.Greater)]
       case NotEqual => [Lex.Operator(Lex.Less), Lex.Operator(Lex.Greater)]
       case LessEqual => [Lex.Operator(Lex.Less), Lex.Operator(Lex.Equal)]
       case GreaterEqual => [Lex.Operator(Lex.Greater), Lex.Operator(Lex.Equal)])
    case Joining(o) =>
      [Lex.Operator(match o case Multiply => Lex.Multiply case Exponent => Lex.Exponent
                            case Concat => Lex.Concat case Divide => Lex.Divide)]
    case Open => [Lex.Operator(Lex.Open)]
    case Close => [Lex.Operator(Lex.Close)]
    case Sep => [Lex.Operator(Lex.Sep)]
    case ArrayOpen => [Lex.Operator(Lex.ArrayOpen)]
    case ArrayClose => [Lex.Operator(Lex.ArrayClose)]
    case ArrayRowSep => [Lex.Operator(Lex.ArrayRowSep)]
    case Value(text) => [Lex.Numeral(text)]
    case Name(text) => [Lex.Identifier(text)]
    case Literal(text) => [Lex.Quoted(text)]
    case ErrorToken(e) => [Lex.ErrorValue(e)]
  }

  function AllUnlexed(ts: seq<FormulaToken>): (r: seq<Lex.LexerToken>)
    ensures ts != [] ==> |r| > 0 && r[0] == Unlexed(ts[0])[0]
  {
    if ts == [] then [] else Unlexed(ts[0]) + AllUnlexed(ts[1..])
  }

  /** Parsing loses nothing: the formula tokens consist of exactly the lexer
      tokens read. */
  lemma {:induction false} ParsingKeepsTokens(ts: seq<Lex.LexerToken>, i: nat, resolves: Resolver)
    requires i <= |ts| && ParsedFrom(ts, i, resolves).Some?
    ensures AllUnlexed(ParsedFrom(ts, i, resolves).value) == ts[i..]
    decreases |ts| - i
  {
    if i == |ts| {
    } else {
      var r, j := ParsedFrom(ts, i, resolves).value, FirstEnd(ts, i);
      ParsingKeepsTokens(ts, j, resolves);
      assert r[1..] == ParsedFrom(ts, j, resolves).value;
      FirstKeepsTokens(ts, i, resolves);
      assert ts[i..] == ts[i..j] + ts[j..];
    }
  }

  lemma FirstKeepsTokens(ts: seq<Lex.LexerToken>, i: nat, resolves: Resolver)
    requires i < |ts| && FirstToken(ts, i, resolves).Some?
    ensures Unlexed(FirstToken(ts, i, resolves).value) == ts[i..FirstEnd(ts, i)]
  {
    if FusedAt(ts, i).Some? {
      assert ts[i..i + 2] == [ts[i], ts[i + 1]];
    } else {
      assert Unlexed(FirstToken(ts, i, resolves).value) == [ts[i]];
    }
  }

  // ---- the parser ----

  /** What the whole comes to, once a first part has been parsed. */
  function Onward(done: seq<FormulaToken>, more: Option<seq<FormulaToken>>): Option<seq<FormulaToken>> {
    if more.Some? then Some(done + more.value) else None
  }

  lemma NothingOnward(more: Option<seq<FormulaToken>>)
    ensures Onward([], more) == more
  {
    assert more.Some? ==> [] + more.value == more.value;
  }

  lemma OneOnward(done: seq<FormulaToken>, t: FormulaToken, more: Option<seq<FormulaToken>>)
    ensures Onward(done, After(Some(t), more)) == Onward(done + [t], more)
  {
    assert more.Some? ==> done + ([t] + more.value) == done + [t] + more.value;
  }

  class Parser {
    const tokens: seq<Lex.LexerToken>
    const resolves: Resolver
    var cur: nat
    var formulaTokens: seq<FormulaToken>

    /** The cursor is on a token. */
    ghost predicate OnToken()
      reads this
    {
      cur < |tokens|
    }

    constructor (tokens: seq<Lex.LexerToken>, resolves: Resolver)
      ensures this.tokens == tokens && this.resolves == resolves && formulaTokens == []
    {
      this.tokens, this.resolves := tokens, resolves;
      cur, formulaTokens := |tokens|, [];
    }

    /** True unless it throws. */
    method Parse() returns (ok: bool)
      requires formulaTokens == []
      modifies this
      ensures ParsedFrom(tokens, 0, resolves) == if ok then Some(formulaTokens) else None
    {
      cur, ok := 0, true;
      NothingOnward(ParsedFrom(tokens, 0, resolves));
      while cur < |tokens|
        invariant cur <= |tokens|
        invariant ParsedFrom(tokens, 0, resolves) == Onward(formulaTokens, ParsedFrom(tokens, cur, resolves))
        decreases |tokens| - cur
      {
        ghost var start, before := cur, formulaTokens;
        ok := ParseOne();
        if !ok {
          return;
        }
        cur := cur + 1;
        OneOnward(before, FirstToken(tokens, start, resolves).value, ParsedFrom(tokens, cur, resolves));
      }
      assert formulaTokens + [] == formulaTokens;
    }

    /** Leaves the cursor on the last token used. */
    method ParseOne() returns (ok: bool)
      requires OnToken()
      modifies this
      ensures OnToken()
      ensures match FirstToken(tokens, old(cur), resolves)
        case None => !ok
        case Some(t) => ok && cur + 1 == FirstEnd(tokens, old(cur)) && formulaTokens == old(formulaTokens) + [t]
    {
      match tokens[cur] {
        case Operator(op) =>
          if op == Lex.Less {
            Less();
          } else if op == Lex.Greater {
            Greater();
          } else {
            Emplace(Primitive(op));
          }
        case Identifier(text) =>
          if !resolves(text) {
            return false;
          }
          Emplace(Name(text));
        case Numeral(text) => Emplace(Value(text));
        case Quoted(text) => Emplace(Literal(text));
        case ErrorValue(e) => Emplace(ErrorToken(e));
      }
      ok := true;
    }

    method Emplace(t: FormulaToken)
      modifies this`formulaTokens
      ensures formulaTokens == old(formulaTokens) + [t]
    {
      formulaTokens := formulaTokens + [t];
    }

    /** Looks one token ahead and steps back when it is not part of the operator. */
    method Less()
      requires OnToken() && tokens[cur] == Lex.Operator(Lex.Less)
      modifies this
      ensures OnToken()
      ensures var fused := FusedAt(tokens, old(cur));
        && cur + 1 == FirstEnd(tokens, old(cur))
        && formulaTokens == old(formulaTokens) + [Relation(if fused.Some? then fused.value else G.Less)]
    {
      if cur + 1 != |tokens| {
        cur := cur + 1;
        if tokens[cur] == Lex.Operator(Lex.Equal) {
          Emplace(Relation(G.LessEqual));
          return;
        }
        if tokens[cur] == Lex.Operator(Lex.Greater) {
          Emplace(Relation(G.NotEqual));
          return;
        }
        cur := cur - 1;
      }
      Emplace(Relation(G.Less));
    }

    method Greater()
      requires OnToken() && tokens[cur] == Lex.Operator(Lex.Greater)
      modifies this
      ensures OnToken()
      ensures var fused := FusedAt(tokens, old(cur));
        && cur + 1 == FirstEnd(tokens, old(cur))
        && formulaTokens == old(formulaTokens) + [Relation(if fused.Some? then fused.value else G.Greater)]
    {
      if cur + 1 != |tokens| {
        cur := cur + 1;
        if tokens[cur] == Lex.Operator(Lex.Equal) {
          Emplace(Relation(G.GreaterEqual));
          return;
        }
        cur := cur - 1;
      }
      Emplace(Relation(G.Greater));
    }
  }
}
