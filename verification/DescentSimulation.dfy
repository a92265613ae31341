/** Two algebras that do the same, as far as the first one goes: it may stop
    where the second one goes on. */
module DescentSimulation {
  import opened Recalculation
  import opened ExpressionGrammar
  import opened ExpressionTheorems

  /** Values stay inside a set; the first algebra may stop by throwing; what it
      throws otherwise is what the second one throws; only some functions are
      called. */
  datatype Relation<!V, !E, !F> =
    Relation(inside: V -> bool, stops: E -> bool, same: (E, F) -> bool, calls: nat -> bool)

  ghost predicate Follows<V, E, F>(o: Outcome<V, E>, o': Outcome<V, F>, rel: Relation<V, E, F>) {
    match o
    case Ok(v) => o' == Ok(v) && rel.inside(v)
    case Fail(x) => rel.stops(x) || (o'.Fail? && rel.same(x, o'.error))
  }

  ghost predicate ParsedFollows<V, E, F>(r: Parsed<V, E>, r': Parsed<V, F>, rel: Relation<V, E, F>) {
    match r
    case Got(v, j) => r' == Got(v, j) && rel.inside(v)
    case Threw(x) => rel.stops(x) || (r'.Threw? && rel.same(x, r'.error))
  }

  ghost predicate ArgumentsFollow<V, E, F>(r: Parsed<seq<V>, E>, r': Parsed<seq<V>, F>, rel: Relation<V, E, F>) {
    match r
    case Got(vs, j) => r' == Got(vs, j) && AllInside(vs, rel.inside)
    case Threw(x) => rel.stops(x) || (r'.Threw? && rel.same(x, r'.error))
  }

  ghost predicate AllInside<V>(vs: seq<V>, p: V -> bool) {
    forall i :: 0 <= i < |vs| ==> p(vs[i])
  }

  ghost predicate Simulates<V(!new), E(!new), F(!new)>(alg: Algebra<V, E>, alg': Algebra<V, F>,
          rel: Relation<V, E, F>) {
    && SimulatesOperands(alg, alg', rel) && SimulatesOne(alg, alg', rel)
    && SimulatesTwo(alg, alg', rel) && SimulatesCalls(alg, alg', rel)
  }

  ghost predicate SimulatesOperands<V(!new), E(!new), F(!new)>(alg: Algebra<V, E>, alg': Algebra<V, F>,
          rel: Relation<V, E, F>) {
    && (forall x :: rel.same(alg.error(x), alg'.error(x)))
    && (forall id :: Follows(alg.operand(id), alg'.operand(id), rel))
  }

  ghost predicate SimulatesOne<V(!new), E(!new), F(!new)>(alg: Algebra<V, E>, alg': Algebra<V, F>,
          rel: Relation<V, E, F>) {
    && (forall v {:trigger alg.take(v)} :: rel.inside(v) ==> Follows(alg.take(v), alg'.take(v), rel))
    && (forall op, v :: rel.inside(v) ==> Follows(alg.takeFactor(op, v), alg'.takeFactor(op, v), rel))
    && (forall v {:trigger alg.negate(v)} :: rel.inside(v) ==> Follows(alg.negate(v), alg'.negate(v), rel))
  }

  ghost predicate SimulatesTwo<V(!new), E(!new), F(!new)>(alg: Algebra<V, E>, alg': Algebra<V, F>,
          rel: Relation<V, E, F>) {
    && (forall op, a, b :: rel.inside(a) && rel.inside(b) ==> Follows(alg.relate(op, a, b), alg'.relate(op, a, b), rel))
    && (forall op, a, b :: rel.inside(a) && rel.inside(b) ==>
      Follows(alg.combine(op, a, b), alg'.combine(op, a, b), rel))
  }

  ghost predicate SimulatesCalls<V(!new), E(!new), F(!new)>(alg: Algebra<V, E>, alg': Algebra<V, F>, rel: Relation<V,
          E, F>) {
    forall f, vs {:trigger alg.call(f, vs)} ::
      rel.calls(f) && AllInside(vs, rel.inside) ==> Follows(alg.call(f, vs), alg'.call(f, vs), rel)
  }

  predicate OnlyCalls(toks: seq<Token>, fs: nat -> bool) {
    forall i :: 0 <= i < |toks| && toks[i].Func? ==> fs(toks[i].f)
  }

  lemma {:induction false} ExpressionFollows<V(!new), E(!new), F(!new)>(alg: Algebra<V, E>, alg': Algebra<V, F>,
          rel: Relation<V, E, F>, toks: seq<Token>, i: nat)
    requires Simulates(alg, alg', rel) && OnlyCalls(toks, rel.calls) && i <= |toks|
    ensures ParsedFollows(ExpressionAt(alg, toks, i), ExpressionAt(alg', toks, i), rel)
    decreases |toks| - i, 4
  {
    TermFollows(alg, alg', rel, toks, i);
    var t := TermAt(alg, toks, i);
    if t.Got? {
      FromFollows(alg, alg', rel, toks, t.v, t.next);
    }
  }

  lemma {:induction false} FromFollows<V(!new), E(!new), F(!new)>(alg: Algebra<V, E>, alg': Algebra<V, F>,
          rel: Relation<V, E, F>, toks: seq<Token>, acc: V, i: nat)
    requires Simulates(alg, alg', rel) && OnlyCalls(toks, rel.calls) && rel.inside(acc) && i <= |toks|
    ensures ParsedFollows(ExpressionFrom(alg, toks, acc, i), ExpressionFrom(alg', toks, acc, i), rel)
    decreases |toks| - i, 4
  {
    if i < |toks| && toks[i].ExprTok? {
      RelateFollows(alg, alg', rel, toks, acc, i);
      var r := RelateNext(alg, toks, acc, i);
      if r.Got? {
        FromFollows(alg, alg', rel, toks, r.v, r.next);
      }
    }
  }

  lemma {:induction false} RelateFollows<V(!new), E(!new), F(!new)>(alg: Algebra<V, E>, alg': Algebra<V, F>,
          rel: Relation<V, E, F>, toks: seq<Token>, acc: V, i: nat)
    requires Simulates(alg, alg', rel) && OnlyCalls(toks, rel.calls)
    requires rel.inside(acc) && i < |toks| && toks[i].ExprTok?
    ensures ParsedFollows(RelateNext(alg, toks, acc, i), RelateNext(alg', toks, acc, i), rel)
    decreases |toks| - i, 3
  {
    TermFollows(alg, alg', rel, toks, i + 1);
    assert Follows(alg.take(acc), alg'.take(acc), rel);
    var t := TermAt(alg, toks, i + 1);
    if alg.take(acc).Ok? && t.Got? {
      assert Follows(alg.take(t.v), alg'.take(t.v), rel);
      if alg.take(t.v).Ok? {
        var a, b := alg.take(acc).v, alg.take(t.v).v;
        assert Follows(alg.relate(toks[i].e, a, b), alg'.relate(toks[i].e, a, b), rel);
      }
    }
  }

  lemma {:induction false} TermFollows<V(!new), E(!new), F(!new)>(alg: Algebra<V, E>, alg': Algebra<V, F>,
          rel: Relation<V, E, F>, toks: seq<Token>, i: nat)
    requires Simulates(alg, alg', rel) && OnlyCalls(toks, rel.calls) && i <= |toks|
    ensures ParsedFollows(TermAt(alg, toks, i), TermAt(alg', toks, i), rel)
    decreases |toks| - i, 3
  {
    FactorFollows(alg, alg', rel, toks, i);
    var f := FactorAt(alg, toks, i);
    if f.Got? && f.next < |toks| && toks[f.next].TermTok? {
      TermFollows(alg, alg', rel, toks, f.next + 1);
      OperandsFollow(alg, alg', rel, toks[f.next].t, f.v, TermAt(alg, toks, f.next + 1));
      JoinedFollows(alg, alg', rel, toks, i, f.v, f.next);
    } else {
      SingleFollows(alg, alg', rel, toks, i);
    }
  }

  lemma SingleFollows<V(!new), E(!new), F(!new)>(alg: Algebra<V, E>, alg': Algebra<V, F>, rel: Relation<V, E, F>,
          toks: seq<Token>, i: nat)
    requires i <= |toks| && ParsedFollows(FactorAt(alg, toks, i), FactorAt(alg', toks, i), rel)
    requires var f := FactorAt(alg, toks, i); f.Got? ==> f.next == |toks| || !toks[f.next].TermTok?
    ensures ParsedFollows(TermAt(alg, toks, i), TermAt(alg', toks, i), rel)
  {
  }

  lemma OperandsFollow<V(!new), E(!new), F(!new)>(alg: Algebra<V, E>, alg': Algebra<V, F>, rel: Relation<V, E, F>,
          op: TermOp, v: V, t: Parsed<V, E>)
    requires Simulates(alg, alg', rel) && rel.inside(v) && (t.Got? ==> rel.inside(t.v))
    ensures Follows(alg.takeFactor(op, v), alg'.takeFactor(op, v), rel)
    ensures var a := alg.takeFactor(op, v);
      a.Ok? && t.Got? ==> Follows(CombineTwo(alg, op, a.v, t.v), CombineTwo(alg', op, a.v, t.v), rel)
  {
    assert Follows(alg.takeFactor(op, v), alg'.takeFactor(op, v), rel);
    if alg.takeFactor(op, v).Ok? && t.Got? {
      CombineFollows(alg, alg', rel, op, alg.takeFactor(op, v).v, t.v);
    }
  }

  lemma JoinedFollows<V(!new), E(!new), F(!new)>(alg: Algebra<V, E>, alg': Algebra<V, F>,
          rel: Relation<V, E, F>, toks: seq<Token>, i: nat, v: V, j: nat)
    requires i <= |toks| && FactorAt(alg, toks, i) == Got(v, j) && FactorAt(alg', toks, i) == Got(v, j)
    requires j < |toks| && toks[j].TermTok? && ParsedFollows(TermAt(alg, toks, j + 1), TermAt(alg', toks, j + 1), rel)
    requires Follows(alg.takeFactor(toks[j].t, v), alg'.takeFactor(toks[j].t, v), rel)
    requires var a, t := alg.takeFactor(toks[j].t, v), TermAt(alg, toks, j + 1);
      a.Ok? && t.Got? ==> Follows(CombineTwo(alg, toks[j].t, a.v, t.v), CombineTwo(alg', toks[j].t, a.v, t.v), rel)
    ensures ParsedFollows(TermAt(alg, toks, i), TermAt(alg', toks, i), rel)
  {
  }

  lemma CombineFollows<V(!new), E(!new), F(!new)>(alg: Algebra<V, E>, alg': Algebra<V, F>, rel: Relation<V, E, F>,
          op: TermOp, a: V, w: V)
    requires Simulates(alg, alg', rel) && rel.inside(a) && rel.inside(w)
    ensures Follows(CombineTwo(alg, op, a, w), CombineTwo(alg', op, a, w), rel)
  {
    assert Follows(alg.takeFactor(op, w), alg'.takeFactor(op, w), rel);
    if alg.takeFactor(op, w).Ok? {
      var b := alg.takeFactor(op, w).v;
      assert Follows(alg.combine(op, a, b), alg'.combine(op, a, b), rel);
    }
  }

  lemma {:induction false} FactorFollows<V(!new), E(!new), F(!new)>(alg: Algebra<V, E>, alg': Algebra<V, F>,
          rel: Relation<V, E, F>, toks: seq<Token>, i: nat)
    requires Simulates(alg, alg', rel) && OnlyCalls(toks, rel.calls) && i <= |toks|
    ensures ParsedFollows(FactorAt(alg, toks, i), FactorAt(alg', toks, i), rel)
    decreases |toks| - i, 2
  {
    if i == |toks| {
      assert rel.same(alg.error(InvalidExpression), alg'.error(InvalidExpression));
    } else {
      var k := if IsSign(toks[i]) then i + 1 else i;
      if k < |toks| {
        PrimaryFollows(alg, alg', rel, toks, k);
        var r := PrimaryAt(alg, toks, k);
        if r.Got? {
          assert Follows(alg.negate(r.v), alg'.negate(r.v), rel);
        }
      } else {
        assert rel.same(alg.error(InvalidExpression), alg'.error(InvalidExpression));
      }
    }
  }

  lemma {:induction false} PrimaryFollows<V(!new), E(!new), F(!new)>(alg: Algebra<V, E>, alg': Algebra<V, F>,
          rel: Relation<V, E, F>, toks: seq<Token>, i: nat)
    requires Simulates(alg, alg', rel) && OnlyCalls(toks, rel.calls) && i < |toks|
    ensures ParsedFollows(PrimaryAt(alg, toks, i), PrimaryAt(alg', toks, i), rel)
    decreases |toks| - i, 1
  {
    assert rel.same(alg.error(InvalidExpression), alg'.error(InvalidExpression));
    match toks[i]
    case Operand(id) =>
      assert Follows(alg.operand(id), alg'.operand(id), rel);
    case Open => ExpressionFollows(alg, alg', rel, toks, i + 1);
    case Func(f) =>
      if i + 2 < |toks| {
        ArgumentsAtFollow(alg, alg', rel, toks, [], i + 2, false);
        var r := ArgumentsAt(alg, toks, [], i + 2, false);
        if r.Got? {
          assert Follows(alg.call(f, r.v), alg'.call(f, r.v), rel);
        }
      }
    case Unexpected(x) => assert rel.same(alg.error(x), alg'.error(x));
    case _ =>
  }

  lemma {:induction false} ArgumentsAtFollow<V(!new), E(!new), F(!new)>(alg: Algebra<V, E>, alg': Algebra<V, F>,
          rel: Relation<V, E, F>, toks: seq<Token>, acc: seq<V>, i: nat, expectSep: bool)
    requires Simulates(alg, alg', rel) && OnlyCalls(toks, rel.calls) && AllInside(acc, rel.inside) && i < |toks|
    ensures ArgumentsFollow(ArgumentsAt(alg, toks, acc, i, expectSep), ArgumentsAt(alg', toks, acc, i, expectSep), rel)
    decreases |toks| - i, 5
  {
    assert rel.same(alg.error(InvalidExpression), alg'.error(InvalidExpression));
    if toks[i] == Close {
    } else if expectSep {
      if i + 1 < |toks| {
        ArgumentsAtFollow(alg, alg', rel, toks, acc, i + 1, false);
      }
    } else {
      ExpressionFollows(alg, alg', rel, toks, i);
      var r := ExpressionAt(alg, toks, i);
      if r.Got? && r.next < |toks| {
        ArgumentsAtFollow(alg, alg', rel, toks, acc + [r.v], r.next, true);
      }
    }
  }

  /** The first interpretation stops, or ends as the second one does. */
  lemma InterpretationFollows<V(!new), E(!new), F(!new)>(alg: Algebra<V, E>, alg': Algebra<V, F>,
          rel: Relation<V, E, F>, toks: seq<Token>)
    requires Simulates(alg, alg', rel) && OnlyCalls(toks, rel.calls)
    ensures Follows(Interpretation(alg, toks), Interpretation(alg', toks), rel)
  {
    assert rel.same(alg.error(NoError), alg'.error(NoError));
    if toks != [] {
      ExpressionFollows(alg, alg', rel, toks, 0);
    }
  }
}
