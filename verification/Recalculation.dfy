/** What the cells of a sheet mean, independently of how they are computed:
    a formula cell from which a reference cycle can be reached has the
    reference error, any other formula cell has the value of its formula on
    the meanings of the cells it refers to. */
module Recalculation {
  import opened Address
  import opened Graph

  datatype FormulaError =
    | RefResultNotAvailable | DivisionByZero | InvalidExpression | NameNotFound
    | NoRangeIntersection | InvalidValueType | NoValueAvailable | StackError | GeneralError | NoError

  datatype Value = Numeric(n: real) | Text(s: string) | Boolean(b: bool) | Error(e: FormulaError)

  /** What a formula sees of a cell: its value, and whether a formula computed it. */
  datatype Seen = Seen(v: Value, computed: bool)

  type Environment = map<AbsAddress, Seen>

  /** The references of a formula, whether it calls a volatile function, and its
      value on a clock reading and the contents of the cells it refers to. */
  datatype Formula = Formula(refs: seq<AbsRange>, isVolatile: bool, eval: (int, Environment) -> Value) {
    predicate Covers(a: AbsAddress) {
      exists i :: 0 <= i < |refs| && refs[i].Contains(a)
    }

    /** Ordered references, none of them whole rows or columns. */
    predicate WellFormed() {
      forall i :: 0 <= i < |refs| ==> refs[i].Specified()
    }

    /** Only volatile formulas see the clock. */
    function Evaluate(now: int, env: Environment): Value {
      eval(if isVolatile then now else 0, env)
    }
  }

  datatype Content = Literal(v: Value) | Computed(f: Formula)

  /** The stored cells; a position that is absent is empty. */
  type Sheet = map<AbsAddress, Content>

  /** The reading each cell would get from the clock. */
  type Clock = AbsAddress -> int

  predicate IsFormula(s: Sheet, a: AbsAddress) {
    a in s && s[a].Computed?
  }

  ghost function DependsOn(s: Sheet): Edges<AbsAddress> {
    (a, b) => IsFormula(s, a) && s[a].f.Covers(b)
  }

  ghost predicate Circular(s: Sheet, a: AbsAddress) {
    ReachesCycle(DependsOn(s), a)
  }

  ghost function FormulasReached(s: Sheet, a: AbsAddress): set<AbsAddress> {
    set d | d in s && IsFormula(s, d) && Reach(DependsOn(s), a, d)
  }

  lemma ReachesFewer(s: Sheet, a: AbsAddress, b: AbsAddress)
    requires DependsOn(s)(a, b) && IsFormula(s, b) && !Circular(s, a)
    ensures |FormulasReached(s, b)| < |FormulasReached(s, a)|
  {
    var g := DependsOn(s);
    ReachEdge(g, a, b);
    assert Reach(g, b, b) ==> ReachesCycle(g, a);
    assert b in FormulasReached(s, a) && b !in FormulasReached(s, b);
    forall d | d in FormulasReached(s, b)
      ensures d in FormulasReached(s, a)
    {
      ReachTrans(g, a, b, d);
    }
    SmallerSet(FormulasReached(s, b), FormulasReached(s, a));
  }

  lemma SmallerSet<T>(x: set<T>, y: set<T>)
    requires x < y
    ensures |x| < |y|
  {
    assert y == x + (y - x);
    assert |y| == |x| + |y - x|;
  }

  ghost function Meaning(s: Sheet, clock: Clock, a: AbsAddress): Value
    requires a in s
    decreases if Circular(s, a) then 0 else |FormulasReached(s, a)|, if IsFormula(s, a) then 1 else 0
  {
    match s[a]
    case Literal(v) => v
    case Computed(f) =>
      if Circular(s, a) then Error(RefResultNotAvailable)
      else f.Evaluate(clock(a), map b | b in s && f.Covers(b) ::
                        if IsFormula(s, b) then (ReachesFewer(s, a, b); Seen(Meaning(s, clock, b), true))
                        else Seen(s[b].v, false))
  }

  /** The contents of the referenced cells, as the formula at a sees them. */
  ghost predicate IsEnvironment(s: Sheet, clock: Clock, a: AbsAddress, env: Environment)
    requires IsFormula(s, a)
  {
    && (forall b :: b in env <==> b in s && s[a].f.Covers(b))
    && forall b :: b in env ==> env[b] == Seen(Meaning(s, clock, b), IsFormula(s, b))
  }

  /** A cell from which no cycle is reached has its formula's value on the
      meanings of its references. */
  lemma MeaningUnfolds(s: Sheet, clock: Clock, a: AbsAddress, env: Environment)
    requires IsFormula(s, a) && !Circular(s, a) && IsEnvironment(s, clock, a, env)
    ensures Meaning(s, clock, a) == s[a].f.Evaluate(clock(a), env)
  {
    var f := s[a].f;
    var env' := map b | b in s && f.Covers(b) ::
                  if IsFormula(s, b) then (ReachesFewer(s, a, b); Seen(Meaning(s, clock, b), true))
                  else Seen(s[b].v, false);
    assert env == env';
  }

  /** Every other cell has the value stored in it, or the error of a circular
      reference. */
  lemma MeaningElsewhere(s: Sheet, clock: Clock, a: AbsAddress)
    requires a in s
    ensures s[a].Literal? ==> Meaning(s, clock, a) == s[a].v
    ensures s[a].Computed? && Circular(s, a) ==> Meaning(s, clock, a) == Error(RefResultNotAvailable)
  {
  }

  predicate IsVolatile(s: Sheet, a: AbsAddress) {
    IsFormula(s, a) && s[a].f.isVolatile
  }

  /** The cells in k refer only to cells in k, the two sheets hold the same
      there, and the clocks agree on the volatile ones. */
  ghost predicate SameRegion(s: Sheet, s': Sheet, clock: Clock, clock': Clock, k: AbsAddress -> bool) {
    forall a :: k(a) ==>
      && (a in s <==> a in s')
      && (a in s ==> s[a] == s'[a])
      && (IsVolatile(s, a) ==> clock(a) == clock'(a))
      && forall b :: DependsOn(s)(a, b) ==> k(b)
  }

  lemma CircularInRegion(s: Sheet, s': Sheet, clock: Clock, clock': Clock, k: AbsAddress -> bool, a: AbsAddress)
    requires SameRegion(s, s', clock, clock', k) && k(a) && Circular(s, a)
    ensures Circular(s', a)
  {
    var g, h := DependsOn(s), DependsOn(s');
    var d :| Reach(g, d, d) && (a == d || Reach(g, a, d));
    if a != d {
      var p :| Connects(g, p, a, d);
      ReachImage(g, h, k, x => x, p, a, d);
    }
    var p :| Connects(g, p, d, d);
    ReachImage(g, h, k, x => x, p, d, d);
  }

  lemma SameRegionSwapped(s: Sheet, s': Sheet, clock: Clock, clock': Clock, k: AbsAddress -> bool)
    requires SameRegion(s, s', clock, clock', k)
    ensures SameRegion(s', s, clock', clock, k)
  {
    forall y, z | k(y) && DependsOn(s')(y, z)
      ensures k(z)
    {
      assert k(y) && IsFormula(s', y) && s'[y].f.Covers(z);
      assert y in s && s[y] == s'[y];
      assert IsFormula(s, y) && s[y].f.Covers(z);
      assert DependsOn(s)(y, z);
    }
  }

  lemma {:induction false} MeaningInRegion(s: Sheet, s': Sheet, clock: Clock, clock': Clock, k: AbsAddress -> bool,
          a: AbsAddress)
    requires SameRegion(s, s', clock, clock', k) && k(a) && a in s
    ensures Circular(s, a) <==> Circular(s', a)
    ensures Meaning(s, clock, a) == Meaning(s', clock', a)
    decreases if Circular(s, a) then 0 else |FormulasReached(s, a)|, if IsFormula(s, a) then 1 else 0
  {
    if Circular(s, a) {
      CircularInRegion(s, s', clock, clock', k, a);
    } else if Circular(s', a) {
      SameRegionSwapped(s, s', clock, clock', k);
      CircularInRegion(s', s, clock', clock, k, a);
    }
    if IsFormula(s, a) && !Circular(s, a) {
      var f := s[a].f;
      var env := map b | b in s && f.Covers(b) :: Seen(Meaning(s, clock, b), IsFormula(s, b));
      forall b | b in env
        ensures b in s' && env[b] == Seen(Meaning(s', clock', b), IsFormula(s', b))
      {
        assert DependsOn(s)(a, b);
        if IsFormula(s, b) {
          ReachesFewer(s, a, b);
          MeaningInRegion(s, s', clock, clock', k, b);
        }
      }
      MeaningUnfolds(s, clock, a, env);
      MeaningUnfolds(s', clock', a, env);
    }
  }

  /** The formula cells whose results may be out of date once the cells of
      modified have changed and the cells of added have been given formulas. */
  ghost predicate Stale(s: Sheet, modified: set<AbsAddress>, added: set<AbsAddress>, c: AbsAddress) {
    || c in added
    || IsVolatile(s, c)
    || exists m :: (m in modified || m in added || IsVolatile(s, m)) && Reach(DependsOn(s), c, m)
  }

  /** The two sheets differ at most at x. */
  ghost predicate SameExcept(s: Sheet, s': Sheet, x: AbsAddress) {
    forall a :: a != x ==> (a in s <==> a in s') && (a in s ==> s[a] == s'[a])
  }

  /** An edit at x leaves the meaning of every cell that does not reach x. */
  lemma EditKeepsMeaning(s: Sheet, s': Sheet, clock: Clock, x: AbsAddress, c: AbsAddress)
    requires SameExcept(s, s', x) && c != x && c in s' && !Reach(DependsOn(s'), c, x)
    ensures c in s && Meaning(s, clock, c) == Meaning(s', clock, c)
    ensures Circular(s, c) <==> Circular(s', c)
  {
    var g := DependsOn(s');
    var k := (a: AbsAddress) => a != x && !Reach(g, a, x);
    forall a, b | k(a) && g(a, b)
      ensures k(b)
    {
      ReachEdge(g, a, b);
      if b != x && Reach(g, b, x) {
        ReachTrans(g, a, b, x);
      }
    }
    MeaningInRegion(s', s, clock, clock, k, c);
  }

  /** Whatever was stale stays so when an edit at x is recorded. */
  lemma EditKeepsStale(s: Sheet, s': Sheet, x: AbsAddress, modified: set<AbsAddress>, added: set<AbsAddress>,
                       modified': set<AbsAddress>, added': set<AbsAddress>, c: AbsAddress)
    requires SameExcept(s, s', x) && modified <= modified' && added <= added' && x in modified' + added'
    requires c != x && Stale(s, modified, added, c)
    ensures Stale(s', modified', added', c)
  {
    if c !in added && !IsVolatile(s, c) {
      var m :| (m in modified || m in added || IsVolatile(s, m)) && Reach(DependsOn(s), c, m);
      var p :| Connects(DependsOn(s), p, c, m);
      forall y, z | y != x && DependsOn(s)(y, z)
        ensures DependsOn(s')(y, z)
      {
        assert y in s;
        assert s[y] == s'[y];
        assert IsFormula(s', y);
      }
      ReachExcept(DependsOn(s), DependsOn(s'), x, p, c, m);
    }
  }

  /** The clock matters only to stale cells. */
  lemma ClockKeepsMeaning(s: Sheet, clock: Clock, clock': Clock, c: AbsAddress)
    requires c in s && !Stale(s, {}, {}, c)
    ensures Meaning(s, clock, c) == Meaning(s, clock', c)
  {
    var g := DependsOn(s);
    var k := (a: AbsAddress) => !Stale(s, {}, {}, a);
    forall a, b | k(a) && g(a, b)
      ensures k(b)
    {
      ReachEdge(g, a, b);
      if Stale(s, {}, {}, b) && !IsVolatile(s, b) {
        var m :| IsVolatile(s, m) && Reach(g, b, m);
        ReachTrans(g, a, b, m);
      }
    }
    MeaningInRegion(s, s, clock, clock', k, c);
  }
}
