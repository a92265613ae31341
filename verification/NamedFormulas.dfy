/** What the expansion of named expressions means: every name stands for the
    parenthesised tree of its body. */
module NamedFormulas {
  import opened Wrappers
  import opened Address
  import opened Recalculation
  import opened ExpressionGrammar
  import opened ExpressionTheorems
  import opened FormulaValues
  import opened FormulaLocality
  import opened FormulaArithmetic
  import opened NamedExpressions

  /** The leaves that are names, and the expression each name stands for. */
  datatype Book = Book(leaves: map<nat, string>, bodies: map<string, Expr>)

  function Marked(book: Book, toks: seq<Token>): (r: seq<NameToken>)
    ensures |r| == |toks|
  {
    seq(|toks|, i requires 0 <= i < |toks| =>
      if toks[i].Operand? && toks[i].id in book.leaves then Name(book.leaves[toks[i].id]) else Plain(toks[i]))
  }

  function Plains(toks: seq<Token>): (r: seq<NameToken>)
    ensures |r| == |toks|
  {
    seq(|toks|, i requires 0 <= i < |toks| => Plain(toks[i]))
  }

  function Definitions(book: Book): Names {
    map n | n in book.bodies :: Marked(book, ExprTokens(book.bodies[n]))
  }

  // ---- substitution ----

  /** The tree with every name replaced by its parenthesised body, to a depth
      of k. */
  function Subst(book: Book, e: Expr, k: nat): Expr
    decreases k, e
  {
    Expr(SubstTerm(book, e.first, k), SubstTail(book, e.rest, k))
  }

  function SubstTail(book: Book, r: Tail, k: nat): Tail
    decreases k, r
  {
    match r
    case End => End
    case More(op, t, rest) => More(op, SubstTerm(book, t, k), SubstTail(book, rest, k))
  }

  function SubstTerm(book: Book, t: Term, k: nat): Term
    decreases k, t
  {
    match t
    case Just(f) => Just(SubstFactor(book, f, k))
    case Joined(f, op, t) => Joined(SubstFactor(book, f, k), op, SubstTerm(book, t, k))
  }

  function SubstFactor(book: Book, f: Factor, k: nat): Factor
    decreases k, f
  {
    Factor(f.sign, SubstPrimary(book, f.p, k))
  }

  function SubstPrimary(book: Book, p: Primary, k: nat): Primary
    decreases k, p
  {
    match p
    case Leaf(id) =>
      if k > 0 && id in book.leaves && book.leaves[id] in book.bodies
      then Paren(Subst(book, book.bodies[book.leaves[id]], k - 1)) else p
    case Paren(e) => Paren(Subst(book, e, k))
    case Call(f, NoArgs) => p
    case Call(f, SomeArgs(list)) => Call(f, SomeArgs(SubstArgs(book, list, k)))
  }

  function SubstArgs(book: Book, l: ArgList, k: nat): ArgList
    decreases k, l
  {
    match l
    case LastArg(e, trailing) => LastArg(Subst(book, e, k), trailing)
    case NextArg(e, rest) => NextArg(Subst(book, e, k), SubstArgs(book, rest, k))
  }

  // ---- expansion is substitution ----

  /** Full inlining turns the tokens x, if it goes through, into y. */
  ghost predicate Becomes(book: Book, x: seq<Token>, top: bool, k: nat, y: seq<Token>) {
    var r := Inline(Definitions(book), Marked(book, x), top, k);
    r.Some? ==> r.value.out == Plains(y)
  }

  /** What one token becomes. */
  ghost function Inlined(names: Names, t: NameToken, k: nat): Option<seq<NameToken>> {
    if !t.Name? then Some([t])
    else if k == 0 || t.name !in names || Inline(names, names[t.name], false, k - 1).None? then None
    else Some(Parenthesised(Inline(names, names[t.name], false, k - 1).value.out))
  }

  lemma InlineStep(names: Names, toks: seq<NameToken>, top: bool, k: nat)
    requires toks != []
    ensures Inline(names, toks, top, k).Some? <==>
      Inlined(names, toks[0], k).Some? && Inline(names, toks[1..], top, k).Some?
    ensures var r := Inline(names, toks, top, k);
      r.Some? ==> r.value.out == Inlined(names, toks[0], k).value + Inline(names, toks[1..], top, k).value.out
  {
  }

  lemma {:induction false} InlineParts(names: Names, x: seq<NameToken>, y: seq<NameToken>, top: bool, k: nat)
    requires Inline(names, x + y, top, k).Some?
    ensures Inline(names, x, top, k).Some? && Inline(names, y, top, k).Some?
    ensures Inline(names, x + y, top, k).value.out ==
      Inline(names, x, top, k).value.out + Inline(names, y, top, k).value.out
    decreases |x|
  {
    if x == [] {
      assert x + y == y;
    } else {
      assert (x + y)[1..] == x[1..] + y;
      InlineStep(names, x + y, top, k);
      InlineStep(names, x, top, k);
      InlineParts(names, x[1..], y, top, k);
      JoinsParts(Inlined(names, x[0], k).value, Inline(names, x[1..], top, k).value.out,
                 Inline(names, y, top, k).value.out);
    }
  }

  lemma JoinsParts(x: seq<NameToken>, y: seq<NameToken>, z: seq<NameToken>)
    ensures x + (y + z) == x + y + z
  {
  }

  lemma PartsBecome(book: Book, x: seq<Token>, y: seq<Token>, top: bool, k: nat, x': seq<Token>, y': seq<Token>)
    requires Becomes(book, x, top, k, x') && Becomes(book, y, top, k, y')
    ensures Becomes(book, x + y, top, k, x' + y')
  {
    assert Marked(book, x + y) == Marked(book, x) + Marked(book, y);
    assert Plains(x' + y') == Plains(x') + Plains(y');
    if Inline(Definitions(book), Marked(book, x + y), top, k).Some? {
      InlineParts(Definitions(book), Marked(book, x), Marked(book, y), top, k);
    }
  }

  /** Tokens that are no operands stay as they are. */
  lemma TokenStays(book: Book, t: Token, top: bool, k: nat)
    requires t.Operand? ==> t.id !in book.leaves
    ensures Becomes(book, [t], top, k, [t])
  {
    var toks := Marked(book, [t]);
    assert toks == [Plain(t)] && toks[1..] == [];
    assert Plains([t]) == [Plain(t)];
  }

  lemma NothingStays(book: Book, top: bool, k: nat)
    ensures Becomes(book, [], top, k, [])
  {
    assert Marked(book, []) == [] && Plains([]) == [];
  }

  lemma {:induction false} ExprBecomes(book: Book, e: Expr, top: bool, k: nat)
    ensures Becomes(book, ExprTokens(e), top, k, ExprTokens(Subst(book, e, k)))
    decreases k, e
  {
    TermBecomes(book, e.first, top, k);
    TailBecomes(book, e.rest, top, k);
    PartsBecome(book, TermTokens(e.first), TailTokens(e.rest), top, k, TermTokens(SubstTerm(book, e.first, k)),
                TailTokens(SubstTail(book, e.rest, k)));
  }

  lemma {:induction false} TailBecomes(book: Book, r: Tail, top: bool, k: nat)
    ensures Becomes(book, TailTokens(r), top, k, TailTokens(SubstTail(book, r, k)))
    decreases k, r
  {
    match r
    case End => NothingStays(book, top, k);
    case More(op, t, rest) =>
      var x, y := SubstTerm(book, t, k), SubstTail(book, rest, k);
      TermBecomes(book, t, top, k);
      TailBecomes(book, rest, top, k);
      PartsBecome(book, TermTokens(t), TailTokens(rest), top, k, TermTokens(x), TailTokens(y));
      TokenStays(book, ExprTok(op), top, k);
      PartsBecome(book, [ExprTok(op)], TermTokens(t) + TailTokens(rest), top, k, [ExprTok(op)],
                  TermTokens(x) + TailTokens(y));
  }

  lemma {:induction false} TermBecomes(book: Book, t: Term, top: bool, k: nat)
    ensures Becomes(book, TermTokens(t), top, k, TermTokens(SubstTerm(book, t, k)))
    decreases k, t
  {
    FactorBecomes(book, t.f, top, k);
    if t.Joined? {
      var x, y := SubstFactor(book, t.f, k), SubstTerm(book, t.t, k);
      TermBecomes(book, t.t, top, k);
      TokenStays(book, TermTok(t.op), top, k);
      PartsBecome(book, [TermTok(t.op)], TermTokens(t.t), top, k, [TermTok(t.op)], TermTokens(y));
      PartsBecome(book, FactorTokens(t.f), [TermTok(t.op)] + TermTokens(t.t), top, k, FactorTokens(x),
                  [TermTok(t.op)] + TermTokens(y));
    }
  }

  lemma {:induction false} FactorBecomes(book: Book, f: Factor, top: bool, k: nat)
    ensures Becomes(book, FactorTokens(f), top, k, FactorTokens(SubstFactor(book, f, k)))
    decreases k, f
  {
    PrimaryBecomes(book, f.p, top, k);
    if !f.sign.NoSign? {
      var sign := ExprTok(if f.sign.PlusSign? then Plus else Minus);
      TokenStays(book, sign, top, k);
      PartsBecome(book, [sign], PrimaryTokens(f.p), top, k, [sign], PrimaryTokens(SubstPrimary(book, f.p, k)));
    }
  }

  lemma {:induction false} PrimaryBecomes(book: Book, p: Primary, top: bool, k: nat)
    ensures Becomes(book, PrimaryTokens(p), top, k, PrimaryTokens(SubstPrimary(book, p, k)))
    decreases k, p
  {
    match p
    case Leaf(id) =>
      if id in book.leaves {
        NameBecomes(book, id, top, k);
      } else {
        TokenStays(book, Operand(id), top, k);
      }
    case Paren(e) =>
      ExprBecomes(book, e, top, k);
      EnclosedBecomes(book, [Open], ExprTokens(e), top, k, ExprTokens(Subst(book, e, k)));
    case Call(f, args) =>
      var args' := if args.NoArgs? then NoArgs else SomeArgs(SubstArgs(book, args.list, k));
      if args.NoArgs? {
        NothingStays(book, top, k);
      } else {
        ArgsBecome(book, args.list, top, k);
      }
      TokenStays(book, Func(f), top, k);
      TokenStays(book, Open, top, k);
      PartsBecome(book, [Func(f)], [Open], top, k, [Func(f)], [Open]);
      assert [Func(f)] + [Open] == [Func(f), Open];
      EnclosedBecomes(book, [Func(f), Open], ArgsTokens(args), top, k, ArgsTokens(args'));
  }

  lemma EnclosedBecomes(book: Book, before: seq<Token>, x: seq<Token>, top: bool, k: nat, y: seq<Token>)
    requires before == [Open] || Becomes(book, before, top, k, before)
    requires Becomes(book, x, top, k, y)
    ensures Becomes(book, before + (x + [Close]), top, k, before + (y + [Close]))
  {
    TokenStays(book, Open, top, k);
    TokenStays(book, Close, top, k);
    PartsBecome(book, x, [Close], top, k, y, [Close]);
    PartsBecome(book, before, x + [Close], top, k, before, y + [Close]);
  }

  lemma {:induction false} NameBecomes(book: Book, id: nat, top: bool, k: nat)
    requires id in book.leaves
    ensures Becomes(book, [Operand(id)], top, k, PrimaryTokens(SubstPrimary(book, Leaf(id), k)))
    decreases k, Leaf(id), 0
  {
    var n := book.leaves[id];
    var toks := Marked(book, [Operand(id)]);
    assert toks == [Name(n)] && toks[1..] == [];
    if k > 0 && n in book.bodies {
      var body := Subst(book, book.bodies[n], k - 1);
      ExprBecomes(book, book.bodies[n], false, k - 1);
      assert Plains([Open] + (ExprTokens(body) + [Close])) == [Plain(Open)] + Plains(ExprTokens(body)) + [Plain(Close)];
    }
  }

  lemma {:induction false} ArgsBecome(book: Book, l: ArgList, top: bool, k: nat)
    ensures Becomes(book, ArgListTokens(l), top, k, ArgListTokens(SubstArgs(book, l, k)))
    decreases k, l
  {
    var e := Subst(book, l.e, k);
    ExprBecomes(book, l.e, top, k);
    TokenStays(book, Sep, top, k);
    if l.NextArg? {
      var rest := SubstArgs(book, l.rest, k);
      ArgsBecome(book, l.rest, top, k);
      PartsBecome(book, [Sep], ArgListTokens(l.rest), top, k, [Sep], ArgListTokens(rest));
      PartsBecome(book, ExprTokens(l.e), [Sep] + ArgListTokens(l.rest), top, k, ExprTokens(e),
                  [Sep] + ArgListTokens(rest));
    } else {
      NothingStays(book, top, k);
      var last := if l.trailing then [Sep] else [];
      PartsBecome(book, ExprTokens(l.e), last, top, k, ExprTokens(e), last);
    }
  }

  // ---- names as values ----

  /** How values behave where a name counts for what its body evaluates to. */
  ghost function WithNames<V, E>(alg: Algebra<V, E>, book: Book, k: nat): Algebra<V, E>
    decreases k
  {
    if k == 0 then alg else
      var inner := WithNames(alg, book, k - 1);
      alg.(operand := (id: nat) =>
        if id in book.leaves && book.leaves[id] in book.bodies
        then Evaluate(inner, book.bodies[book.leaves[id]]) else alg.operand(id))
  }

  lemma {:induction false} ExprSubstituted<V, E>(alg: Algebra<V, E>, book: Book, e: Expr, k: nat)
    ensures Evaluate(alg, Subst(book, e, k)) == Evaluate(WithNames(alg, book, k), e)
    decreases k, e
  {
    TermSubstituted(alg, book, e.first, k);
    forall acc: V {
      TailSubstituted(alg, book, acc, e.rest, k);
    }
  }

  lemma {:induction false} TailSubstituted<V, E>(alg: Algebra<V, E>, book: Book, acc: V, r: Tail, k: nat)
    ensures EvaluateTail(alg, acc, SubstTail(book, r, k)) == EvaluateTail(WithNames(alg, book, k), acc, r)
    decreases k, r
  {
    if r.More? {
      TermSubstituted(alg, book, r.t, k);
      forall acc': V {
        TailSubstituted(alg, book, acc', r.rest, k);
      }
    }
  }

  lemma {:induction false} TermSubstituted<V, E>(alg: Algebra<V, E>, book: Book, t: Term, k: nat)
    ensures EvaluateTerm(alg, SubstTerm(book, t, k)) == EvaluateTerm(WithNames(alg, book, k), t)
    decreases k, t
  {
    FactorSubstituted(alg, book, t.f, k);
    if t.Joined? {
      TermSubstituted(alg, book, t.t, k);
    }
  }

  lemma {:induction false} FactorSubstituted<V, E>(alg: Algebra<V, E>, book: Book, f: Factor, k: nat)
    ensures EvaluateFactor(alg, SubstFactor(book, f, k)) == EvaluateFactor(WithNames(alg, book, k), f)
    decreases k, f
  {
    PrimarySubstituted(alg, book, f.p, k);
  }

  lemma {:induction false} PrimarySubstituted<V, E>(alg: Algebra<V, E>, book: Book, p: Primary, k: nat)
    ensures EvaluatePrimary(alg, SubstPrimary(book, p, k)) == EvaluatePrimary(WithNames(alg, book, k), p)
    decreases k, p
  {
    match p
    case Leaf(id) =>
      if k > 0 && id in book.leaves && book.leaves[id] in book.bodies {
        ExprSubstituted(alg, book, book.bodies[book.leaves[id]], k - 1);
      }
    case Paren(e) => ExprSubstituted(alg, book, e, k);
    case Call(f, NoArgs) =>
    case Call(f, SomeArgs(list)) => ArgsSubstituted(alg, book, [], list, k);
  }

  lemma {:induction false} ArgsSubstituted<V, E>(alg: Algebra<V, E>, book: Book, acc: seq<V>, l: ArgList, k: nat)
    ensures EvaluateArgs(alg, acc, SubstArgs(book, l, k)) == EvaluateArgs(WithNames(alg, book, k), acc, l)
    decreases k, l
  {
    ExprSubstituted(alg, book, l.e, k);
    if l.NextArg? {
      forall acc': seq<V> {
        ArgsSubstituted(alg, book, acc', l.rest, k);
      }
    }
  }

  // ---- the theorem ----

  /** Interpreting the expansion of a formula gives the value of its tree where
      every name counts as one value, that of its body. */
  lemma ExpansionIsInterpreted<V, E>(alg: Algebra<V, E>, book: Book, e: Expr) returns (toks: seq<Token>, k: nat)
    requires Expand(Definitions(book), Marked(book, ExprTokens(e)), {}, true).Expanded?
    ensures Expand(Definitions(book), Marked(book, ExprTokens(e)), {}, true).out == Plains(toks)
    ensures forall m :: m >= k ==> Interpretation(alg, toks) == Evaluate(alg, Subst(book, e, m))
    ensures forall m :: m >= k ==> Interpretation(alg, toks) == Evaluate(WithNames(alg, book, m), e)
  {
    var names, marked := Definitions(book), Marked(book, ExprTokens(e));
    k := ExpansionInlines(names, marked, {}, true);
    toks := ExprTokens(Subst(book, e, k));
    ExprBecomes(book, e, true, k);
    forall m | m >= k
      ensures Interpretation(alg, toks) == Evaluate(alg, Subst(book, e, m)) == Evaluate(WithNames(alg, book, m), e)
    {
      DeeperInlinesSame(names, marked, true, k, m);
      ExprBecomes(book, e, true, m);
      SamePlains(toks, ExprTokens(Subst(book, e, m)));
      TreesAreInterpreted(alg, Subst(book, e, m));
      ExprSubstituted(alg, book, e, m);
    }
  }

  lemma SamePlains(x: seq<Token>, y: seq<Token>)
    requires Plains(x) == Plains(y)
    ensures x == y
  {
    forall i | 0 <= i < |x|
      ensures x[i] == y[i]
    {
      assert Plains(x)[i] == Plains(y)[i];
    }
  }

  /** With x standing for 1 + 2, x * 3 is 9. */
  lemma NameGroups<M>(lib: Library<M>, pos: AbsAddress, env: Environment, now: int)
    ensures var names := map["x" := [Plain(Operand(0)), Plain(ExprTok(Plus)), Plain(Operand(1))]];
      var toks := [Open, Operand(0), ExprTok(Plus), Operand(1), Close, TermTok(Multiply), Operand(2)];
      && Expand(names, [Name("x"), Plain(TermTok(Multiply)), Plain(Operand(2))], {}, true) ==
         Expanded(Plains(toks), {"x"})
      && InterpretedResult(lib, pos, [Constant(1.0), Constant(2.0), Constant(3.0)], toks, env, now) == Numeric(9.0)
  {
    var body := [Plain(Operand(0)), Plain(ExprTok(Plus)), Plain(Operand(1))];
    var names := map["x" := body];
    var source := [Name("x"), Plain(TermTok(Multiply)), Plain(Operand(2))];
    var toks := [Open, Operand(0), ExprTok(Plus), Operand(1), Close, TermTok(Multiply), Operand(2)];
    PlainsExpand(names, body, {"x"}, false);
    PlainsExpand(names, source[1..], {"x"}, true);
    assert {} + {"x"} == {"x"};
    assert Plains(toks) == [Plain(Open)] + body + [Plain(Close)] + source[1..];
    ParenthesesGroup(lib, pos, 1.0, 2.0, 3.0, 3.0, 9.0, env, now);
  }

  lemma {:induction false} PlainsExpand(names: Names, toks: seq<NameToken>, used: set<string>, top: bool)
    requires forall t :: t in toks ==> t.Plain?
    ensures Expand(names, toks, used, top) == Expanded(toks, used)
    decreases |toks|
  {
    if toks != [] {
      assert toks[0] in toks && toks == [toks[0]] + toks[1..];
      PlainsExpand(names, toks[1..], used, top);
    }
  }
}
