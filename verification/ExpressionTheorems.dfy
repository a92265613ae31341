/** The descent agrees with the grammar: it gives every tree's tokens the
    tree's value or error, and whatever it accepts is a tree. */
module ExpressionTheorems {
  import opened Recalculation
  import opened ExpressionGrammar

  // ---- where the tokens of a tree stand ----

  function ExprLen(e: Expr): nat {
    TermLen(e.first) + TailLen(e.rest)
  }

  function TailLen(r: Tail): nat {
    match r
    case End => 0
    case More(_, t, rest) => 1 + TermLen(t) + TailLen(rest)
  }

  function TermLen(t: Term): nat {
    match t
    case Just(f) => FactorLen(f)
    case Joined(f, _, u) => FactorLen(f) + 1 + TermLen(u)
  }

  function FactorLen(f: Factor): nat {
    PrimaryLen(f.p) + if f.sign.NoSign? then 0 else 1
  }

  function PrimaryLen(p: Primary): (n: nat)
    ensures n > 0
  {
    match p
    case Leaf(_) => 1
    case Paren(e) => ExprLen(e) + 2
    case Call(_, NoArgs) => 3
    case Call(_, SomeArgs(list)) => ArgListLen(list) + 3
  }

  function ArgListLen(l: ArgList): nat {
    match l
    case LastArg(e, trailing) => ExprLen(e) + if trailing then 1 else 0
    case NextArg(e, rest) => ExprLen(e) + 1 + ArgListLen(rest)
  }

  predicate HasToken(toks: seq<Token>, i: nat, t: Token) {
    i < |toks| && toks[i] == t
  }

  predicate ExprMatches(toks: seq<Token>, e: Expr, i: nat) {
    TermMatches(toks, e.first, i) && TailMatches(toks, e.rest, i + TermLen(e.first))
  }

  predicate TailMatches(toks: seq<Token>, r: Tail, i: nat) {
    match r
    case End => i <= |toks|
    case More(op, t, rest) =>
      HasToken(toks, i, ExprTok(op)) && TermMatches(toks, t, i + 1) && TailMatches(toks, rest, i + 1 + TermLen(t))
  }

  predicate TermMatches(toks: seq<Token>, t: Term, i: nat) {
    match t
    case Just(f) => FactorMatches(toks, f, i)
    case Joined(f, op, u) =>
      FactorMatches(toks, f, i) && HasToken(toks, i + FactorLen(f), TermTok(op)) &&
        TermMatches(toks, u, i + FactorLen(f) + 1)
  }

  predicate FactorMatches(toks: seq<Token>, f: Factor, i: nat) {
    match f.sign
    case NoSign => PrimaryMatches(toks, f.p, i)
    case PlusSign => HasToken(toks, i, ExprTok(Plus)) && PrimaryMatches(toks, f.p, i + 1)
    case MinusSign => HasToken(toks, i, ExprTok(Minus)) && PrimaryMatches(toks, f.p, i + 1)
  }

  predicate PrimaryMatches(toks: seq<Token>, p: Primary, i: nat) {
    match p
    case Leaf(id) => HasToken(toks, i, Operand(id))
    case Paren(e) => HasToken(toks, i, Open) && ExprMatches(toks, e, i + 1) && HasToken(toks, i + 1 + ExprLen(e), Close)
    case Call(f, NoArgs) => HasToken(toks, i, Func(f)) && HasToken(toks, i + 1, Open) && HasToken(toks, i + 2, Close)
    case Call(f, SomeArgs(list)) =>
      && HasToken(toks, i, Func(f)) && HasToken(toks, i + 1, Open)
      && ArgListMatches(toks, list, i + 2) && HasToken(toks, i + 2 + ArgListLen(list), Close)
  }

  predicate ArgListMatches(toks: seq<Token>, l: ArgList, i: nat) {
    match l
    case LastArg(e, trailing) => ExprMatches(toks, e, i) && (trailing ==> HasToken(toks, i + ExprLen(e), Sep))
    case NextArg(e, rest) =>
      ExprMatches(toks, e, i) && HasToken(toks, i + ExprLen(e), Sep) && ArgListMatches(toks, rest, i + ExprLen(e) + 1)
  }

  // ---- completeness ----

  ghost predicate TermStops(toks: seq<Token>, j: nat) {
    j >= |toks| || !toks[j].TermTok?
  }

  /** Nothing at j could continue an expression. */
  ghost predicate ExprStops(toks: seq<Token>, j: nat) {
    j >= |toks| || !(toks[j].TermTok? || toks[j].ExprTok?)
  }

  function Lift<V, E>(o: Outcome<V, E>, j: nat): Parsed<V, E> {
    match o
    case Ok(v) => Got(v, j)
    case Fail(x) => Threw(x)
  }

  lemma PrimaryStarts(toks: seq<Token>, p: Primary, i: nat)
    requires PrimaryMatches(toks, p, i)
    ensures i < |toks| && !IsSign(toks[i]) && toks[i] != Close
  {
  }

  lemma ExprStarts(toks: seq<Token>, e: Expr, i: nat)
    requires ExprMatches(toks, e, i)
    ensures i < |toks| && toks[i] != Close
  {
    var f := e.first.f;
    assert FactorMatches(toks, f, i);
    if f.sign.NoSign? {
      PrimaryStarts(toks, f.p, i);
    }
  }

  lemma TailEndsTerm(toks: seq<Token>, r: Tail, i: nat)
    requires TailMatches(toks, r, i) && ExprStops(toks, i + TailLen(r))
    ensures i <= |toks| && TermStops(toks, i)
  {
  }

  lemma {:induction false} ExprParses<V, E>(alg: Algebra<V, E>, toks: seq<Token>, e: Expr, i: nat)
    requires ExprMatches(toks, e, i) && ExprStops(toks, i + ExprLen(e))
    ensures i <= |toks| && ExpressionAt(alg, toks, i) == Lift(Evaluate(alg, e), i + ExprLen(e))
    decreases e, 0
  {
    TailEndsTerm(toks, e.rest, i + TermLen(e.first));
    TermParses(alg, toks, e.first, i);
    if EvaluateTerm(alg, e.first).Ok? {
      TailParses(alg, toks, EvaluateTerm(alg, e.first).v, e.rest, i + TermLen(e.first));
    }
  }

  lemma {:induction false} TailParses<V, E>(alg: Algebra<V, E>, toks: seq<Token>, acc: V, r: Tail, i: nat)
    requires TailMatches(toks, r, i) && ExprStops(toks, i + TailLen(r))
    ensures i <= |toks| && ExpressionFrom(alg, toks, acc, i) == Lift(EvaluateTail(alg, acc, r), i + TailLen(r))
    decreases r
  {
    if r.More? {
      var j := i + 1 + TermLen(r.t);
      TailEndsTerm(toks, r.rest, j);
      TermParses(alg, toks, r.t, i + 1);
      var t := EvaluateTerm(alg, r.t);
      if alg.take(acc).Ok? && t.Ok? && alg.take(t.v).Ok? {
        var w := alg.relate(r.op, alg.take(acc).v, alg.take(t.v).v);
        if w.Ok? {
          TailParses(alg, toks, w.v, r.rest, j);
        }
      }
    }
  }

  lemma {:induction false} TermParses<V, E>(alg: Algebra<V, E>, toks: seq<Token>, t: Term, i: nat)
    requires TermMatches(toks, t, i) && TermStops(toks, i + TermLen(t))
    ensures i <= |toks| && TermAt(alg, toks, i) == Lift(EvaluateTerm(alg, t), i + TermLen(t))
    decreases t
  {
    FactorParses(alg, toks, t.f, i);
    if t.Joined? {
      var j := i + FactorLen(t.f);
      TermParses(alg, toks, t.t, j + 1);
      JoinedParses(alg, toks, t, i, j, i + TermLen(t));
    }
  }

  lemma JoinedParses<V, E>(alg: Algebra<V, E>, toks: seq<Token>, t: Term, i: nat, j: nat, k: nat)
    requires t.Joined? && i <= |toks| && j < |toks| && toks[j] == TermTok(t.op)
    requires FactorAt(alg, toks, i) == Lift(EvaluateFactor(alg, t.f), j)
    requires TermAt(alg, toks, j + 1) == Lift(EvaluateTerm(alg, t.t), k)
    ensures TermAt(alg, toks, i) == Lift(EvaluateTerm(alg, t), k)
  {
  }

  lemma {:induction false} FactorParses<V, E>(alg: Algebra<V, E>, toks: seq<Token>, f: Factor, i: nat)
    requires FactorMatches(toks, f, i)
    ensures i <= |toks| && FactorAt(alg, toks, i) == Lift(EvaluateFactor(alg, f), i + FactorLen(f))
    decreases f
  {
    var k := if f.sign.NoSign? then i else i + 1;
    PrimaryStarts(toks, f.p, k);
    PrimaryParses(alg, toks, f.p, k);
  }

  lemma {:induction false} PrimaryParses<V, E>(alg: Algebra<V, E>, toks: seq<Token>, p: Primary, i: nat)
    requires PrimaryMatches(toks, p, i)
    ensures i < |toks| && PrimaryAt(alg, toks, i) == Lift(EvaluatePrimary(alg, p), i + PrimaryLen(p))
    decreases p
  {
    match p
    case Leaf(_) =>
    case Paren(e) => ExprParses(alg, toks, e, i + 1);
    case Call(f, NoArgs) =>
      assert ArgumentsAt(alg, toks, [], i + 2, false) == Got([], i + 3);
    case Call(f, SomeArgs(list)) => ArgListParses(alg, toks, [], list, i + 2);
  }

  lemma {:induction false} ArgListParses<V, E>(alg: Algebra<V, E>, toks: seq<Token>, acc: seq<V>, l: ArgList, i: nat)
    requires ArgListMatches(toks, l, i) && HasToken(toks, i + ArgListLen(l), Close)
    ensures i < |toks| && ArgumentsAt(alg, toks, acc, i, false) ==
      Lift(EvaluateArgs(alg, acc, l), i + ArgListLen(l) + 1)
    decreases l
  {
    var j := i + ExprLen(l.e);
    ArgParses(alg, toks, acc, l.e, i, j);
    if Evaluate(alg, l.e).Ok? {
      var more := acc + [Evaluate(alg, l.e).v];
      if l.NextArg? {
        ArgListParses(alg, toks, more, l.rest, j + 1);
        SeparatorParses(alg, toks, more, j);
      } else {
        LastArgParses(alg, toks, more, l, j);
      }
    }
  }

  lemma {:induction false} ArgParses<V, E>(alg: Algebra<V, E>, toks: seq<Token>, acc: seq<V>, e: Expr, i: nat, j: nat)
    requires ExprMatches(toks, e, i) && j == i + ExprLen(e) < |toks| && ExprStops(toks, j)
    ensures i < |toks| && ArgumentsAt(alg, toks, acc, i, false) ==
            if Evaluate(alg, e).Fail? then Threw(Evaluate(alg, e).error)
            else ArgumentsAt(alg, toks, acc + [Evaluate(alg, e).v], j, true)
    decreases e, 1
  {
    ExprStarts(toks, e, i);
    ExprParses(alg, toks, e, i);
  }

  lemma SeparatorParses<V, E>(alg: Algebra<V, E>, toks: seq<Token>, vs: seq<V>, j: nat)
    requires j + 1 < |toks| && toks[j] == Sep
    ensures ArgumentsAt(alg, toks, vs, j, true) == ArgumentsAt(alg, toks, vs, j + 1, false)
  {
  }

  lemma LastArgParses<V, E>(alg: Algebra<V, E>, toks: seq<Token>, vs: seq<V>, l: ArgList, j: nat)
    requires l.LastArg? && j < |toks|
    requires if l.trailing then toks[j] == Sep && j + 1 < |toks| && toks[j + 1] == Close else toks[j] == Close
    ensures ArgumentsAt(alg, toks, vs, j, true) == Got(vs, if l.trailing then j + 2 else j + 1)
  {
  }

  // ---- soundness ----

  /** Whatever the descent accepts is the token sequence of a tree with the
      value it got. */
  lemma {:induction false} ExpressionIsTree<V, E>(alg: Algebra<V, E>, toks: seq<Token>, i: nat) returns (e: Expr)
    requires i <= |toks| && ExpressionAt(alg, toks, i).Got?
    ensures ExprMatches(toks, e, i) && i + ExprLen(e) == ExpressionAt(alg, toks, i).next
    ensures Evaluate(alg, e) == Ok(ExpressionAt(alg, toks, i).v)
    ensures ExprStops(toks, i + ExprLen(e))
    decreases |toks| - i, 4
  {
    var t := TermIsTree(alg, toks, i);
    var r := TailIsTree(alg, toks, TermAt(alg, toks, i).v, i + TermLen(t));
    e := Expr(t, r);
  }

  lemma {:induction false} TailIsTree<V, E>(alg: Algebra<V, E>, toks: seq<Token>, acc: V, i: nat) returns (r: Tail)
    requires i <= |toks| && TermStops(toks, i) && ExpressionFrom(alg, toks, acc, i).Got?
    ensures TailMatches(toks, r, i) && i + TailLen(r) == ExpressionFrom(alg, toks, acc, i).next
    ensures EvaluateTail(alg, acc, r) == Ok(ExpressionFrom(alg, toks, acc, i).v)
    ensures ExprStops(toks, i + TailLen(r))
    decreases |toks| - i, 4
  {
    if i == |toks| || !toks[i].ExprTok? {
      r := End;
    } else {
      var t := TermIsTree(alg, toks, i + 1);
      var b := alg.take(TermAt(alg, toks, i + 1).v).v;
      var w := alg.relate(toks[i].e, alg.take(acc).v, b).v;
      var rest := TailIsTree(alg, toks, w, i + 1 + TermLen(t));
      r := More(toks[i].e, t, rest);
    }
  }

  /** The term stands where the descent accepted one, with the value and the
      end it found. */
  ghost predicate IsTermAt<V, E>(alg: Algebra<V, E>, toks: seq<Token>, t: Term, i: nat) {
    && i <= |toks| && TermAt(alg, toks, i).Got?
    && TermMatches(toks, t, i) && i + TermLen(t) == TermAt(alg, toks, i).next
    && EvaluateTerm(alg, t) == Ok(TermAt(alg, toks, i).v)
    && TermStops(toks, i + TermLen(t))
  }

  lemma {:induction false} TermIsTree<V, E>(alg: Algebra<V, E>, toks: seq<Token>, i: nat) returns (t: Term)
    requires i <= |toks| && TermAt(alg, toks, i).Got?
    ensures IsTermAt(alg, toks, t, i)
    decreases |toks| - i, 3
  {
    var f := FactorIsTree(alg, toks, i);
    var j := FactorAt(alg, toks, i).next;
    if j == |toks| || !toks[j].TermTok? {
      JustIsTree(alg, toks, i, f, j);
      t := Just(f);
    } else {
      FactorThenTerm(alg, toks, i, j);
      var u := TermIsTree(alg, toks, j + 1);
      JoinedIsTree(alg, toks, i, f, j, u);
      t := Joined(f, toks[j].t, u);
    }
  }

  lemma JustIsTree<V, E>(alg: Algebra<V, E>, toks: seq<Token>, i: nat, f: Factor, j: nat)
    requires i <= |toks| && TermAt(alg, toks, i).Got? && FactorMatches(toks, f, i) && j == i + FactorLen(f) <= |toks|
    requires FactorAt(alg, toks, i).Got? && j == FactorAt(alg, toks, i).next &&
      EvaluateFactor(alg, f) == Ok(FactorAt(alg, toks, i).v)
    requires j == |toks| || !toks[j].TermTok?
    ensures IsTermAt(alg, toks, Just(f), i)
  {
  }

  lemma FactorThenTerm<V, E>(alg: Algebra<V, E>, toks: seq<Token>, i: nat, j: nat)
    requires i <= |toks| && TermAt(alg, toks, i).Got? && FactorAt(alg, toks, i).Got? && j == FactorAt(alg, toks, i).next
    requires j < |toks| && toks[j].TermTok?
    ensures i < j && TermAt(alg, toks, j + 1).Got?
  {
  }

  lemma JoinedMatches(toks: seq<Token>, i: nat, f: Factor, j: nat, u: Term)
    requires FactorMatches(toks, f, i) && j == i + FactorLen(f) < |toks|
    requires toks[j].TermTok? && TermMatches(toks, u, j + 1)
    ensures TermMatches(toks, Joined(f, toks[j].t, u), i) && i + TermLen(Joined(f, toks[j].t, u)) == j + 1 + TermLen(u)
  {
  }

  lemma JoinedEvaluates<V, E>(alg: Algebra<V, E>, toks: seq<Token>, i: nat, f: Factor, j: nat, u: Term)
    requires i <= |toks| && j < |toks| && toks[j].TermTok?
    requires FactorAt(alg, toks, i).Got? && FactorAt(alg, toks, i).next == j
    requires EvaluateFactor(alg, f) == Ok(FactorAt(alg, toks, i).v)
    requires TermAt(alg, toks, i).Got? && TermAt(alg, toks, j + 1).Got?
    requires EvaluateTerm(alg, u) == Ok(TermAt(alg, toks, j + 1).v)
    ensures TermAt(alg, toks, i).next == TermAt(alg, toks, j + 1).next
    ensures EvaluateTerm(alg, Joined(f, toks[j].t, u)) == Ok(TermAt(alg, toks, i).v)
  {
  }

  lemma JoinedIsTree<V, E>(alg: Algebra<V, E>, toks: seq<Token>, i: nat, f: Factor, j: nat, u: Term)
    requires i <= |toks| && TermAt(alg, toks, i).Got? && FactorMatches(toks, f, i) && j == i + FactorLen(f) < |toks|
    requires FactorAt(alg, toks, i).Got? && j == FactorAt(alg, toks, i).next &&
      EvaluateFactor(alg, f) == Ok(FactorAt(alg, toks, i).v)
    requires toks[j].TermTok? && IsTermAt(alg, toks, u, j + 1)
    ensures IsTermAt(alg, toks, Joined(f, toks[j].t, u), i)
  {
    JoinedEvaluates(alg, toks, i, f, j, u);
    JoinedMatches(toks, i, f, j, u);
  }

  lemma {:induction false} FactorIsTree<V, E>(alg: Algebra<V, E>, toks: seq<Token>, i: nat) returns (f: Factor)
    requires i <= |toks| && FactorAt(alg, toks, i).Got?
    ensures FactorMatches(toks, f, i) && i + FactorLen(f) == FactorAt(alg, toks, i).next
    ensures EvaluateFactor(alg, f) == Ok(FactorAt(alg, toks, i).v)
    decreases |toks| - i, 2
  {
    if IsSign(toks[i]) {
      var p := PrimaryIsTree(alg, toks, i + 1);
      f := Factor(if toks[i].e.Plus? then PlusSign else MinusSign, p);
    } else {
      var p := PrimaryIsTree(alg, toks, i);
      f := Factor(NoSign, p);
    }
  }

  lemma {:induction false} PrimaryIsTree<V, E>(alg: Algebra<V, E>, toks: seq<Token>, i: nat) returns (p: Primary)
    requires i < |toks| && PrimaryAt(alg, toks, i).Got?
    ensures PrimaryMatches(toks, p, i) && i + PrimaryLen(p) == PrimaryAt(alg, toks, i).next
    ensures EvaluatePrimary(alg, p) == Ok(PrimaryAt(alg, toks, i).v)
    decreases |toks| - i, 1
  {
    match toks[i]
    case Operand(id) => p := Leaf(id);
    case Open =>
      var e := ExpressionIsTree(alg, toks, i + 1);
      p := Paren(e);
    case Func(f) =>
      if toks[i + 2] == Close {
        p := Call(f, NoArgs);
        assert ArgumentsAt(alg, toks, [], i + 2, false) == Got([], i + 3);
      } else {
        var list := ArgListIsTree(alg, toks, [], i + 2);
        p := Call(f, SomeArgs(list));
      }
  }

  lemma {:induction false} ArgListIsTree<V, E>(alg: Algebra<V, E>, toks: seq<Token>, acc: seq<V>, i: nat)
          returns (l: ArgList)
    requires i < |toks| && toks[i] != Close && ArgumentsAt(alg, toks, acc, i, false).Got?
    ensures ArgListMatches(toks, l, i) && HasToken(toks, i + ArgListLen(l), Close)
    ensures i + ArgListLen(l) + 1 == ArgumentsAt(alg, toks, acc, i, false).next
    ensures EvaluateArgs(alg, acc, l) == Ok(ArgumentsAt(alg, toks, acc, i, false).v)
    decreases |toks| - i, 5
  {
    var e := ExpressionIsTree(alg, toks, i);
    var j := i + ExprLen(e);
    var more := acc + [ExpressionAt(alg, toks, i).v];
    assert ArgumentsAt(alg, toks, acc, i, false) == ArgumentsAt(alg, toks, more, j, true);
    if toks[j] == Close {
      l := LastArg(e, false);
    } else if toks[j + 1] == Close {
      assert ArgumentsAt(alg, toks, more, j + 1, false) == Got(more, j + 2);
      l := LastArg(e, true);
    } else {
      var rest := ArgListIsTree(alg, toks, more, j + 1);
      l := NextArg(e, rest);
    }
  }

  // ---- tokens of a tree ----

  lemma {:induction false} ExprTokensMatch(toks: seq<Token>, e: Expr, i: nat)
    ensures |ExprTokens(e)| == ExprLen(e)
    ensures ExprMatches(toks, e, i) <==> Stand(toks, i, ExprTokens(e))
    decreases e
  {
    TermTokensMatch(toks, e.first, i);
    TailTokensMatch(toks, e.rest, i + TermLen(e.first));
    StandParts(toks, i, TermTokens(e.first), TailTokens(e.rest));
  }

  /** The tokens x stand at position i. */
  ghost predicate Stand(toks: seq<Token>, i: nat, x: seq<Token>) {
    i + |x| <= |toks| && forall k :: 0 <= k < |x| ==> toks[i + k] == x[k]
  }

  lemma StandParts(toks: seq<Token>, i: nat, x: seq<Token>, y: seq<Token>)
    ensures Stand(toks, i, x + y) <==> Stand(toks, i, x) && Stand(toks, i + |x|, y)
  {
    if Stand(toks, i, x + y) {
      assert forall k :: 0 <= k < |x| ==> x[k] == (x + y)[k];
      forall k | 0 <= k < |y|
        ensures toks[i + |x| + k] == y[k]
      {
        assert y[k] == (x + y)[|x| + k];
      }
    }
    if Stand(toks, i, x) && Stand(toks, i + |x|, y) {
      forall k | 0 <= k < |x + y|
        ensures toks[i + k] == (x + y)[k]
      {
        if k >= |x| {
          assert toks[i + |x| + (k - |x|)] == y[k - |x|];
        }
      }
    }
  }

  lemma StandHead(toks: seq<Token>, i: nat, t: Token, y: seq<Token>)
    ensures Stand(toks, i, [t] + y) <==> HasToken(toks, i, t) && Stand(toks, i + 1, y)
  {
    StandParts(toks, i, [t], y);
    assert [t][0] == t;
    assert Stand(toks, i, [t]) <==> HasToken(toks, i, t) by {
      assert HasToken(toks, i, t) ==> toks[i + 0] == [t][0];
    }
  }

  lemma HeadAndParts(toks: seq<Token>, i: nat, t: Token, x: seq<Token>, y: seq<Token>)
    ensures |[t] + (x + y)| == 1 + |x| + |y|
    ensures Stand(toks, i, [t] + (x + y)) <==>
      HasToken(toks, i, t) && Stand(toks, i + 1, x) && Stand(toks, i + 1 + |x|, y)
  {
    StandParts(toks, i + 1, x, y);
    StandHead(toks, i, t, x + y);
  }

  lemma {:induction false} TailTokensMatch(toks: seq<Token>, r: Tail, i: nat)
    ensures |TailTokens(r)| == TailLen(r)
    ensures TailMatches(toks, r, i) <==> Stand(toks, i, TailTokens(r))
    decreases r
  {
    if r.More? {
      TermTokensMatch(toks, r.t, i + 1);
      TailTokensMatch(toks, r.rest, i + 1 + TermLen(r.t));
      HeadAndParts(toks, i, ExprTok(r.op), TermTokens(r.t), TailTokens(r.rest));
    }
  }

  lemma {:induction false} TermTokensMatch(toks: seq<Token>, t: Term, i: nat)
    ensures |TermTokens(t)| == TermLen(t)
    ensures TermMatches(toks, t, i) <==> Stand(toks, i, TermTokens(t))
    decreases t
  {
    FactorTokensMatch(toks, t.f, i);
    if t.Joined? {
      var j := i + FactorLen(t.f);
      TermTokensMatch(toks, t.t, j + 1);
      StandHead(toks, j, TermTok(t.op), TermTokens(t.t));
      StandParts(toks, i, FactorTokens(t.f), [TermTok(t.op)] + TermTokens(t.t));
    }
  }

  lemma {:induction false} FactorTokensMatch(toks: seq<Token>, f: Factor, i: nat)
    ensures |FactorTokens(f)| == FactorLen(f)
    ensures FactorMatches(toks, f, i) <==> Stand(toks, i, FactorTokens(f))
    decreases f
  {
    PrimaryTokensMatch(toks, f.p, if f.sign.NoSign? then i else i + 1);
    StandHead(toks, i, ExprTok(if f.sign.PlusSign? then Plus else Minus), PrimaryTokens(f.p));
  }

  lemma {:induction false} PrimaryTokensMatch(toks: seq<Token>, p: Primary, i: nat)
    ensures |PrimaryTokens(p)| == PrimaryLen(p)
    ensures PrimaryMatches(toks, p, i) <==> Stand(toks, i, PrimaryTokens(p))
    decreases p
  {
    match p
    case Leaf(id) =>
      assert [Operand(id)] + [] == [Operand(id)];
      StandHead(toks, i, Operand(id), []);
    case Paren(e) =>
      ExprTokensMatch(toks, e, i + 1);
      EnclosedStands(toks, i, ExprTokens(e));
    case Call(f, args) =>
      if args.SomeArgs? {
        ArgListTokensMatch(toks, args.list, i + 2);
      }
      CalledStands(toks, i, f, ArgsTokens(args));
  }

  lemma EnclosedStands(toks: seq<Token>, i: nat, x: seq<Token>)
    ensures Stand(toks, i, [Open] + (x + [Close])) <==>
      HasToken(toks, i, Open) && Stand(toks, i + 1, x) && HasToken(toks, i + 1 + |x|, Close)
  {
    CloseStands(toks, i + 1 + |x|);
    StandParts(toks, i + 1, x, [Close]);
    StandHead(toks, i, Open, x + [Close]);
  }

  lemma CalledStands(toks: seq<Token>, i: nat, f: nat, x: seq<Token>)
    ensures Stand(toks, i, [Func(f), Open] + (x + [Close])) <==>
      HasToken(toks, i, Func(f)) && HasToken(toks, i + 1, Open) && Stand(toks, i + 2, x) &&
        HasToken(toks, i + 2 + |x|, Close)
  {
    EnclosedStands(toks, i + 1, x);
    assert [Func(f), Open] + (x + [Close]) == [Func(f)] + ([Open] + (x + [Close]));
    StandHead(toks, i, Func(f), [Open] + (x + [Close]));
  }

  lemma CloseStands(toks: seq<Token>, i: nat)
    ensures Stand(toks, i, [Close]) <==> HasToken(toks, i, Close)
  {
    assert [Close] + [] == [Close];
    StandHead(toks, i, Close, []);
  }

  lemma {:induction false} ArgListTokensMatch(toks: seq<Token>, l: ArgList, i: nat)
    ensures |ArgListTokens(l)| == ArgListLen(l)
    ensures ArgListMatches(toks, l, i) ==> Stand(toks, i, ArgListTokens(l))
    ensures Stand(toks, i, ArgListTokens(l)) ==> ArgListMatches(toks, l, i)
    decreases l
  {
    var j := i + ExprLen(l.e);
    ExprTokensMatch(toks, l.e, i);
    if l.NextArg? {
      ArgListTokensMatch(toks, l.rest, j + 1);
      StandHead(toks, j, Sep, ArgListTokens(l.rest));
      StandParts(toks, i, ExprTokens(l.e), [Sep] + ArgListTokens(l.rest));
    } else {
      assert [Sep] + [] == [Sep];
      StandHead(toks, j, Sep, []);
      StandParts(toks, i, ExprTokens(l.e), if l.trailing then [Sep] else []);
    }
  }

  // ---- whole token sequences ----

  /** Evaluating a whole token sequence: the value, or the error thrown, or the
      complaint that tokens are left over. */
  function Interpretation<V, E>(alg: Algebra<V, E>, toks: seq<Token>): Outcome<V, E> {
    if toks == [] then Fail(alg.error(NoError)) else
      match ExpressionAt(alg, toks, 0)
      case Threw(x) => Fail(x)
      case Got(v, j) => if j == |toks| then Ok(v) else Fail(alg.error(NoError))
  }

  /** The tokens of every tree get the tree's value or its error. */
  lemma TreesAreInterpreted<V, E>(alg: Algebra<V, E>, e: Expr)
    ensures Interpretation(alg, ExprTokens(e)) == Evaluate(alg, e)
  {
    WholeTree(e);
    WholeParses(alg, ExprTokens(e), e);
  }

  lemma WholeTree(e: Expr)
    ensures ExprMatches(ExprTokens(e), e, 0) && ExprLen(e) == |ExprTokens(e)|
  {
    var toks := ExprTokens(e);
    ExprTokensMatch(toks, e, 0);
  }

  lemma WholeParses<V, E>(alg: Algebra<V, E>, toks: seq<Token>, e: Expr)
    requires ExprMatches(toks, e, 0) && ExprLen(e) == |toks|
    ensures Interpretation(alg, toks) == Evaluate(alg, e)
  {
    ExprStarts(toks, e, 0);
    ExprParses(alg, toks, e, 0);
  }

  /** A sequence is interpreted with success exactly when it is a tree of the
      grammar that evaluates with success. */
  lemma InterpretedExactlyTrees<V, E>(alg: Algebra<V, E>, toks: seq<Token>, v: V)
    ensures Interpretation(alg, toks) == Ok(v) <==> exists e :: ExprTokens(e) == toks && Evaluate(alg, e) == Ok(v)
  {
    if Interpretation(alg, toks) == Ok(v) {
      var e := ExpressionIsTree(alg, toks, 0);
      ExprTokensMatch(toks, e, 0);
      assert ExprTokens(e) == toks;
    }
    if e :| ExprTokens(e) == toks && Evaluate(alg, e) == Ok(v) {
      TreesAreInterpreted(alg, e);
    }
  }

  /** The grammar is unambiguous as far as any evaluation can tell. */
  lemma SameTokensSameValue<V, E>(alg: Algebra<V, E>, e: Expr, e': Expr)
    requires ExprTokens(e) == ExprTokens(e')
    ensures Evaluate(alg, e) == Evaluate(alg, e')
  {
    TreesAreInterpreted(alg, e);
    TreesAreInterpreted(alg, e');
  }
}
