/** The recursive-descent interpreter: a cursor over the tokens and a stack of
    value stacks.  A thrown error is returned. */
module FormulaInterpreter {
  import opened Wrappers
  import opened Recalculation
  import opened ExpressionGrammar
  import opened ExpressionTheorems

  type Thrown<E> = Option<E>

  predicate HasValue<V>(stacks: seq<seq<V>>) {
    |stacks| > 0 && stacks[|stacks| - 1] != []
  }

  function TopValue<V>(stacks: seq<seq<V>>): V
    requires HasValue(stacks)
  {
    var top := stacks[|stacks| - 1];
    top[|top| - 1]
  }

  function WithoutTop<V>(stacks: seq<seq<V>>): seq<seq<V>>
    requires HasValue(stacks)
  {
    var top := stacks[|stacks| - 1];
    stacks[|stacks| - 1 := top[..|top| - 1]]
  }

  /** One more value on the topmost stack. */
  function WithPushed<V>(stacks: seq<seq<V>>, v: V): (s: seq<seq<V>>)
    requires |stacks| > 0
    ensures HasValue(s) && TopValue(s) == v && WithoutTop(s) == stacks
  {
    var top := stacks[|stacks| - 1];
    assert (top + [v])[..|top|] == top;
    stacks[|stacks| - 1 := top + [v]]
  }

  /** The outcome of a handler that started on some stacks: on success exactly
      one value has been pushed, all stacks below are as before, and the cursor
      stands after the tokens used. */
  ghost predicate Delivers<V, E>(p: Parsed<V, E>, r: Thrown<E>, cur: nat, before: seq<seq<V>>, after: seq<seq<V>>)
    requires |before| > 0
  {
    match p
    case Threw(x) => r == Some(x)
    case Got(v, j) => r == None && cur == j && after == WithPushed(before, v)
  }

  class Interpreter<V, E> {
    const tokens: seq<Token>
    const alg: Algebra<V, E>
    var cur: nat
    var stacks: seq<seq<V>>

    ghost predicate Valid()
      reads this
    {
      cur <= |tokens| && |stacks| > 0
    }

    constructor (tokens: seq<Token>, alg: Algebra<V, E>)
      ensures Valid() && this.tokens == tokens && this.alg == alg && cur == 0
    {
      this.tokens := tokens;
      this.alg := alg;
      cur := 0;
      stacks := [[]];
    }

    predicate HasMore()
      reads this
    {
      cur < |tokens|
    }

    method Push(v: V)
      requires |stacks| > 0
      modifies this`stacks
      ensures stacks == WithPushed(old(stacks), v)
    {
      stacks := stacks[|stacks| - 1 := stacks[|stacks| - 1] + [v]];
    }

    method Pop() returns (v: V)
      requires HasValue(stacks)
      modifies this`stacks
      ensures v == TopValue(old(stacks)) && stacks == WithoutTop(old(stacks))
    {
      var top := stacks[|stacks| - 1];
      v := top[|top| - 1];
      stacks := stacks[|stacks| - 1 := top[..|top| - 1]];
    }

    method Expression() returns (r: Thrown<E>)
      requires Valid()
      modifies this
      ensures Valid() && Delivers(ExpressionAt(alg, tokens, old(cur)), r, cur, old(stacks), stacks)
      decreases |tokens| - cur, 5
    {
      r := TermHandler();
      if r.Some? {
        return;
      }
      ghost var outcome := ExpressionAt(alg, tokens, old(cur));
      ghost var base := old(stacks);
      while HasMore() && tokens[cur].ExprTok?
        invariant Valid() && old(cur) < cur
        invariant HasValue(stacks) && WithoutTop(stacks) == base && stacks == WithPushed(base, TopValue(stacks))
        invariant outcome == ExpressionFrom(alg, tokens, TopValue(stacks), cur)
        decreases |tokens| - cur
      {
        r := RelateHandler();
        if r.Some? {
          return;
        }
      }
      r := None;
    }

    /** Joins the next term to the value on top. */
    method RelateHandler() returns (r: Thrown<E>)
      requires Valid() && HasMore() && tokens[cur].ExprTok? && HasValue(stacks)
      modifies this
      ensures Valid()
      ensures Delivers(RelateNext(alg, tokens, TopValue(old(stacks)), old(cur)), r, cur, WithoutTop(old(stacks)),
        stacks)
      decreases |tokens| - cur, 4
    {
      var op := tokens[cur].e;
      var v := Pop();
      var a := alg.take(v);
      if a.Fail? {
        return Some(a.error);
      }
      cur := cur + 1;
      r := TermHandler();
      if r.Some? {
        return;
      }
      r := RelateTop(op, a.v);
    }

    method RelateTop(op: ExprOp, a: V) returns (r: Thrown<E>)
      requires Valid() && HasValue(stacks)
      modifies this`stacks
      ensures Valid()
      ensures match RelateTwo(alg, op, a, TopValue(old(stacks)))
        case Fail(x) => r == Some(x)
        case Ok(u) => r == None && stacks == WithPushed(WithoutTop(old(stacks)), u)
    {
      var w := Pop();
      var b := alg.take(w);
      if b.Fail? {
        return Some(b.error);
      }
      var u := alg.relate(op, a, b.v);
      if u.Fail? {
        return Some(u.error);
      }
      Push(u.v);
      r := None;
    }

    method TermHandler() returns (r: Thrown<E>)
      requires Valid()
      modifies this
      ensures Valid() && Delivers(TermAt(alg, tokens, old(cur)), r, cur, old(stacks), stacks)
      decreases |tokens| - cur, 4
    {
      r := FactorHandler();
      if r.Some? || !HasMore() || !tokens[cur].TermTok? {
        return;
      }
      var op := tokens[cur].t;
      var v := Pop();
      var a := alg.takeFactor(op, v);
      if a.Fail? {
        return Some(a.error);
      }
      cur := cur + 1;
      r := TermHandler();
      if r.Some? {
        return;
      }
      r := CombineTop(op, a.v);
    }

    method CombineTop(op: TermOp, a: V) returns (r: Thrown<E>)
      requires Valid() && HasValue(stacks)
      modifies this`stacks
      ensures Valid()
      ensures match CombineTwo(alg, op, a, TopValue(old(stacks)))
        case Fail(x) => r == Some(x)
        case Ok(u) => r == None && stacks == WithPushed(WithoutTop(old(stacks)), u)
    {
      var w := Pop();
      var b := alg.takeFactor(op, w);
      if b.Fail? {
        return Some(b.error);
      }
      var u := alg.combine(op, a, b.v);
      if u.Fail? {
        return Some(u.error);
      }
      Push(u.v);
      r := None;
    }

    method FactorHandler() returns (r: Thrown<E>)
      requires Valid()
      modifies this
      ensures Valid() && Delivers(FactorAt(alg, tokens, old(cur)), r, cur, old(stacks), stacks)
      decreases |tokens| - cur, 3
    {
      var negative;
      r, negative := SignHandler();
      if r.Some? {
        return;
      }
      r := PrimaryHandler();
      if r.None? && negative {
        var v := Pop();
        var w := alg.negate(v);
        if w.Fail? {
          return Some(w.error);
        }
        Push(w.v);
      }
    }

    method PrimaryHandler() returns (r: Thrown<E>)
      requires Valid() && HasMore()
      modifies this
      ensures Valid() && Delivers(PrimaryAt(alg, tokens, old(cur)), r, cur, old(stacks), stacks)
      decreases |tokens| - cur, 2
    {
      match tokens[cur] {
        case Open => r := ParenHandler();
        case Func(_) => r := FunctionHandler();
        case Operand(id) =>
          var v := alg.operand(id);
          if v.Fail? {
            return Some(v.error);
          }
          Push(v.v);
          cur := cur + 1;
          r := None;
        case Unexpected(x) => r := Some(alg.error(x));
        case _ => r := Some(alg.error(InvalidExpression));
      }
    }

    /** Skips one sign; a token follows on success. */
    method SignHandler() returns (r: Thrown<E>, negative: bool)
      requires Valid()
      modifies this`cur
      ensures Valid()
      ensures r == if !old(HasMore()) then Some(alg.error(InvalidExpression))
                   else if IsSign(tokens[old(cur)]) && old(cur) + 1 == |tokens| then Some(alg.error(InvalidExpression))
                   else None
      ensures r.None? ==> HasMore() && cur == (if IsSign(tokens[old(cur)]) then old(cur) + 1 else old(cur))
      ensures r.None? ==> (negative <==> tokens[old(cur)] == ExprTok(Minus))
    {
      negative := false;
      if !HasMore() {
        return Some(alg.error(InvalidExpression)), negative;
      }
      r := None;
      if IsSign(tokens[cur]) {
        negative := tokens[cur].e.Minus?;
        cur := cur + 1;
        if !HasMore() {
          r := Some(alg.error(InvalidExpression));
        }
      }
    }

    method ParenHandler() returns (r: Thrown<E>)
      requires Valid() && HasMore() && tokens[cur] == Open
      modifies this
      ensures Valid() && Delivers(PrimaryAt(alg, tokens, old(cur)), r, cur, old(stacks), stacks)
      decreases |tokens| - cur, 1
    {
      cur := cur + 1;
      r := Expression();
      if r.Some? {
        return;
      }
      if !HasMore() || tokens[cur] != Close {
        return Some(alg.error(InvalidExpression));
      }
      cur := cur + 1;
    }

    /** Evaluates the arguments on a stack of their own. */
    method FunctionHandler() returns (r: Thrown<E>)
      requires Valid() && HasMore() && tokens[cur].Func?
      modifies this
      ensures Valid() && Delivers(PrimaryAt(alg, tokens, old(cur)), r, cur, old(stacks), stacks)
      decreases |tokens| - cur, 1
    {
      var f := tokens[cur].f;
      stacks := stacks + [[]];
      cur := cur + 1;
      if !HasMore() || tokens[cur] != Open {
        return Some(alg.error(InvalidExpression));
      }
      cur := cur + 1;
      if !HasMore() {
        return Some(alg.error(InvalidExpression));
      }
      r := ArgumentsHandler();
      if r.Some? {
        return;
      }
      var v := alg.call(f, stacks[|stacks| - 1]);
      if v.Fail? {
        return Some(v.error);
      }
      stacks := stacks[..|stacks| - 1];
      assert stacks == old(stacks);
      Push(v.v);
    }

    /** Collects the arguments on the topmost stack. */
    method ArgumentsHandler() returns (r: Thrown<E>)
      requires Valid() && HasMore()
      modifies this
      ensures Valid()
      ensures var top := |old(stacks)| - 1;
        match ArgumentsAt(alg, tokens, old(stacks)[top], old(cur), false)
        case Threw(x) => r == Some(x)
        case Got(vs, j) => r == None && cur == j && stacks == old(stacks)[top := vs]
      decreases |tokens| - cur, 6
    {
      ghost var top := |stacks| - 1;
      ghost var outcome := ArgumentsAt(alg, tokens, stacks[top], cur, false);
      var expectSep := false;
      while tokens[cur] != Close
        invariant Valid() && HasMore() && old(cur) <= cur
        invariant |stacks| == top + 1 && stacks[..top] == old(stacks)[..top]
        invariant outcome == ArgumentsAt(alg, tokens, stacks[top], cur, expectSep)
        decreases |tokens| - cur
      {
        if expectSep {
          if tokens[cur] != Sep {
            return Some(alg.error(InvalidExpression));
          }
          cur := cur + 1;
          expectSep := false;
        } else {
          r := Expression();
          if r.Some? {
            return;
          }
          expectSep := true;
        }
        if !HasMore() {
          return Some(alg.error(InvalidExpression));
        }
      }
      cur := cur + 1;
      r := None;
    }

    /** Evaluates the whole token sequence. */
    method Interpret() returns (r: Outcome<V, E>)
      requires Valid() && cur == 0 && stacks == [[]]
      modifies this
      ensures r == Interpretation(alg, tokens)
      ensures r.Ok? ==> stacks == [[r.v]] && cur == |tokens|
    {
      if tokens == [] {
        return Fail(alg.error(NoError));
      }
      var thrown := Expression();
      if thrown.Some? {
        return Fail(thrown.value);
      }
      if HasMore() {
        return Fail(alg.error(NoError));
      }
      r := Ok(stacks[0][0]);
    }
  }
}
