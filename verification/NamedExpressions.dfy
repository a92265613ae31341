/** The expansion of named expressions ahead of interpretation. */
module NamedExpressions {
  import opened Wrappers
  import opened Graph
  import opened Recalculation
  import opened ExpressionGrammar

  /** A token of a formula or of the body of a name: a name or any other. */
  datatype NameToken = Name(name: string) | Plain(tok: Token)

  type Names = map<string, seq<NameToken>>

  datatype Expansion = Expanded(out: seq<NameToken>, used: set<string>) | Refused(error: FormulaError)

  // ---- what the expander does ----

  /** Expands a token sequence, the formula itself (top) or the body of a name;
      a name already used is refused inside a body only. */
  function Expand(names: Names, toks: seq<NameToken>, used: set<string>, top: bool): (r: Expansion)
    ensures r.Expanded? ==> used <= r.used
    decreases top, names.Keys - used, |toks|
  {
    if toks == [] then Expanded([], used)
    else if !toks[0].Name? then
      match Expand(names, toks[1..], used, top)
      case Refused(x) => Refused(x)
      case Expanded(out, u) => Expanded([toks[0]] + out, u)
    else
      var n := toks[0].name;
      if !top && n in used then Refused(InvalidExpression)
      else if n !in names then Refused(NameNotFound)
      else
        var inner := Expand(names, names[n], used + {n}, false);
        if inner.Refused? then inner else
          var rest := Expand(names, toks[1..], inner.used, top);
          if rest.Refused? then rest else Expanded(Parenthesised(inner.out) + rest.out, rest.used)
  }

  /** A name alone expands to an opening parenthesis, the expansion of its body
      and a closing parenthesis. */
  lemma NameInParentheses(names: Names, n: string, top: bool)
    requires n in names
    ensures var inner := Expand(names, names[n], {n}, false);
      Expand(names, [Name(n)], {}, top) ==
      if inner.Refused? then inner else Expanded([Plain(Open)] + inner.out + [Plain(Close)], inner.used)
  {
    assert {} + {n} == {n};
    var inner := Expand(names, names[n], {n}, false);
    if inner.Expanded? {
      assert [Name(n)][1..] == [];
    }
  }

  /** The first name that is refused, in the formula or in a body expanded on
      the way, makes the error: one used before, inside a body, or one that is
      not defined. */
  lemma {:induction false} FirstRefusalCounts(names: Names, x: seq<NameToken>, n: string, y: seq<NameToken>,
          used: set<string>, top: bool)
    requires Expand(names, x, used, top).Expanded?
    ensures var u, r := Expand(names, x, used, top).used, Expand(names, x + ([Name(n)] + y), used, top);
      && (!top && n in u ==> r == Refused(InvalidExpression))
      && ((top || n !in u) && n !in names ==> r == Refused(NameNotFound))
      && ((top || n !in u) && n in names && Expand(names, names[n], u + {n}, false).Refused? ==>
          r == Expand(names, names[n], u + {n}, false))
    decreases |x|
  {
    if x == [] {
      assert x + ([Name(n)] + y) == [Name(n)] + y;
    } else {
      assert (x + ([Name(n)] + y))[1..] == x[1..] + ([Name(n)] + y);
      var u := if x[0].Name? then Expand(names, names[x[0].name], used + {x[0].name}, false).used else used;
      FirstRefusalCounts(names, x[1..], n, y, u, top);
    }
  }

  /** The expansion of a whole, once a first part has been output. */
  function Continued(out: seq<NameToken>, rest: Expansion): Expansion {
    match rest
    case Refused(x) => Refused(x)
    case Expanded(more, u) => Expanded(out + more, u)
  }

  function Parenthesised(body: seq<NameToken>): seq<NameToken> {
    [Plain(Open)] + body + [Plain(Close)]
  }

  lemma PlainStep(names: Names, toks: seq<NameToken>, used: set<string>, top: bool, done: seq<NameToken>)
    requires toks != [] && !toks[0].Name?
    ensures Continued(done, Expand(names, toks, used, top)) ==
      Continued(done + [toks[0]], Expand(names, toks[1..], used, top))
  {
    var rest := Expand(names, toks[1..], used, top);
    if rest.Expanded? {
      assert done + ([toks[0]] + rest.out) == done + [toks[0]] + rest.out;
    }
  }

  lemma NameStep(names: Names, toks: seq<NameToken>, used: set<string>, top: bool, done: seq<NameToken>, n: string)
    requires toks != [] && toks[0] == Name(n) && n in names && (top || n !in used)
    ensures var inner := Expand(names, names[n], used + {n}, false);
      Continued(done, Expand(names, toks, used, top)) ==
      if inner.Refused? then inner
      else Continued(done + Parenthesised(inner.out), Expand(names, toks[1..], inner.used, top))
  {
    var inner := Expand(names, names[n], used + {n}, false);
    if inner.Expanded? {
      var rest := Expand(names, toks[1..], inner.used, top);
      if rest.Expanded? {
        assert done + (Parenthesised(inner.out) + rest.out) == done + Parenthesised(inner.out) + rest.out;
      }
    }
  }

  /** The expander: tokens and the used names grow as it goes. */
  class Expander {
    const names: Names
    var tokens: seq<NameToken>
    var used: set<string>

    constructor (names: Names)
      ensures this.names == names && tokens == [] && used == {}
    {
      this.names := names;
      tokens, used := [], {};
    }

    method InitTokens(source: seq<NameToken>) returns (thrown: Option<FormulaError>)
      modifies this
      ensures match Expand(names, source, {}, true)
              case Refused(x) => thrown == Some(x)
              case Expanded(out, u) => thrown == None && tokens == out && used == u
    {
      tokens, used := [], {};
      ghost var outcome := Expand(names, source, {}, true);
      assert source[0..] == source;
      for i := 0 to |source|
        invariant outcome == Continued(tokens, Expand(names, source[i..], used, true))
      {
        assert source[i..][1..] == source[i + 1..];
        if source[i].Name? {
          var n := source[i].name;
          if n !in names {
            return Some(NameNotFound);
          }
          NameStep(names, source[i..], used, true, tokens, n);
          used := used + {n};
          thrown := ExpandName(names[n]);
          if thrown.Some? {
            return;
          }
        } else {
          PlainStep(names, source[i..], used, true, tokens);
          tokens := tokens + [source[i]];
        }
      }
      thrown := None;
    }

    method ExpandName(body: seq<NameToken>) returns (thrown: Option<FormulaError>)
      modifies this
      ensures match Expand(names, body, old(used), false)
              case Refused(x) => thrown == Some(x)
              case Expanded(out, u) => thrown == None && tokens == old(tokens) + Parenthesised(out) && used == u
      decreases names.Keys - used
    {
      tokens := tokens + [Plain(Open)];
      ghost var base := tokens;
      ghost var outcome := Expand(names, body, used, false);
      assert body[0..] == body;
      for i := 0 to |body|
        invariant old(used) <= used
        invariant Continued(base, outcome) == Continued(tokens, Expand(names, body[i..], used, false))
      {
        assert body[i..][1..] == body[i + 1..];
        if body[i].Name? {
          var n := body[i].name;
          if n in used {
            return Some(InvalidExpression);
          }
          if n !in names {
            return Some(NameNotFound);
          }
          NameStep(names, body[i..], used, false, tokens, n);
          used := used + {n};
          thrown := ExpandName(names[n]);
          if thrown.Some? {
            return;
          }
        } else {
          PlainStep(names, body[i..], used, false, tokens);
          tokens := tokens + [body[i]];
        }
      }
      assert outcome.Expanded? && tokens == base + outcome.out;
      tokens := tokens + [Plain(Close)];
      thrown := None;
    }
  }

  // ---- full inlining ----

  /** A name met on the way, in the formula itself or inside a body. */
  datatype Occurrence = Occurrence(name: string, top: bool)

  /** The tokens with every name replaced by its parenthesised body, and the
      names met from left to right. */
  datatype Inlining = Inlining(out: seq<NameToken>, met: seq<Occurrence>)

  /** Full inlining to a nesting depth of at most k. */
  function Inline(names: Names, toks: seq<NameToken>, top: bool, k: nat): Option<Inlining>
    decreases k, |toks|
  {
    if toks == [] then Some(Inlining([], []))
    else
      var rest := Inline(names, toks[1..], top, k);
      if rest.None? then None
      else if !toks[0].Name? then Some(Inlining([toks[0]] + rest.value.out, rest.value.met))
      else if k == 0 || toks[0].name !in names then None
      else
        var inner := Inline(names, names[toks[0].name], false, k - 1);
        if inner.None? then None
        else Some(Inlining(Parenthesised(inner.value.out) + rest.value.out,
                           [Occurrence(toks[0].name, top)] + inner.value.met + rest.value.met))
  }

  function MetNames(met: seq<Occurrence>): set<string> {
    set i | 0 <= i < |met| :: met[i].name
  }

  /** No body mentions a name that was met before. */
  ghost predicate NeverMetTwice(used: set<string>, met: seq<Occurrence>) {
    forall j :: 0 <= j < |met| && !met[j].top ==> met[j].name !in used && met[j].name !in MetNames(met[..j])
  }

  lemma MetParts(x: seq<Occurrence>, y: seq<Occurrence>, used: set<string>)
    ensures MetNames(x + y) == MetNames(x) + MetNames(y)
    ensures NeverMetTwice(used, x + y) <==> NeverMetTwice(used, x) && NeverMetTwice(used + MetNames(x), y)
  {
    forall n
      ensures n in MetNames(x + y) <==> n in MetNames(x) + MetNames(y)
    {
      if n in MetNames(x) {
        var i :| 0 <= i < |x| && x[i].name == n;
        assert (x + y)[i].name == n;
      }
      if n in MetNames(y) {
        var i :| 0 <= i < |y| && y[i].name == n;
        assert (x + y)[|x| + i].name == n;
      }
    }
    MetTwiceParts(x, y, used);
  }

  lemma PrefixNames(x: seq<Occurrence>, y: seq<Occurrence>, j: nat)
    requires j <= |y|
    ensures MetNames((x + y)[..|x| + j]) == MetNames(x) + MetNames(y[..j])
  {
    var z := (x + y)[..|x| + j];
    assert z == x + y[..j];
    forall n
      ensures n in MetNames(z) <==> n in MetNames(x) + MetNames(y[..j])
    {
      if n in MetNames(x) {
        var i :| 0 <= i < |x| && x[i].name == n;
        assert z[i].name == n;
      }
      if n in MetNames(y[..j]) {
        var i :| 0 <= i < j && y[i].name == n;
        assert z[|x| + i].name == n;
      }
    }
  }

  lemma MetTwiceParts(x: seq<Occurrence>, y: seq<Occurrence>, used: set<string>)
    ensures NeverMetTwice(used, x + y) <==> NeverMetTwice(used, x) && NeverMetTwice(used + MetNames(x), y)
  {
    forall j | 0 <= j < |x|
      ensures (x + y)[j] == x[j] && (x + y)[..j] == x[..j]
    {
    }
    forall j | 0 <= j < |y|
      ensures (x + y)[|x| + j] == y[j] && MetNames((x + y)[..|x| + j]) == MetNames(x) + MetNames(y[..j])
    {
      PrefixNames(x, y, j);
    }
    if NeverMetTwice(used, x + y) {
      forall j | 0 <= j < |y| && !y[j].top
        ensures y[j].name !in used + MetNames(x) && y[j].name !in MetNames(y[..j])
      {
        assert (x + y)[|x| + j] == y[j];
      }
    }
    if NeverMetTwice(used, x) && NeverMetTwice(used + MetNames(x), y) {
      forall j | 0 <= j < |x + y| && !(x + y)[j].top
        ensures (x + y)[j].name !in used && (x + y)[j].name !in MetNames((x + y)[..j])
      {
        if j >= |x| {
          assert (x + y)[|x| + (j - |x|)] == y[j - |x|];
        }
      }
    }
  }

  lemma {:induction false} DeeperInlinesSame(names: Names, toks: seq<NameToken>, top: bool, k: nat, m: nat)
    requires k <= m && Inline(names, toks, top, k).Some?
    ensures Inline(names, toks, top, m) == Inline(names, toks, top, k)
    decreases k, |toks|
  {
    if toks == [] {
    } else {
      DeeperInlinesSame(names, toks[1..], top, k, m);
      if toks[0].Name? {
        DeeperInlinesSame(names, names[toks[0].name], false, k - 1, m - 1);
      }
    }
  }

  /** The expansion e is the full inlining to depth k, and used is extended by
      the names met, none of which a body mentions twice. */
  ghost predicate Inlines(names: Names, toks: seq<NameToken>, top: bool, k: nat, used: set<string>, e: Expansion) {
    var r := Inline(names, toks, top, k);
    && e.Expanded? && r.Some? && r.value.out == e.out
    && e.used == used + MetNames(r.value.met)
    && NeverMetTwice(used, r.value.met)
  }

  lemma ComposeName(names: Names, toks: seq<NameToken>, top: bool, k: nat, used: set<string>, inner: Expansion,
          rest: Expansion)
    requires toks != [] && toks[0].Name? && toks[0].name in names && (top || toks[0].name !in used) && k > 0
    requires Inlines(names, names[toks[0].name], false, k - 1, used + {toks[0].name}, inner)
    requires Inlines(names, toks[1..], top, k, inner.used, rest)
    ensures Inlines(names, toks, top, k, used, Expanded(Parenthesised(inner.out) + rest.out, rest.used))
  {
    var n := toks[0].name;
    var x, y := Inline(names, names[n], false, k - 1).value.met, Inline(names, toks[1..], top, k).value.met;
    NameThenBody(n, top, x, y, used);
    assert rest.used == used + ({n} + MetNames(x) + MetNames(y));
  }

  /** What the expansion puts out is the full inlining. */
  lemma {:induction false} ExpansionInlines(names: Names, toks: seq<NameToken>, used: set<string>,
          top: bool) returns (k: nat)
    requires Expand(names, toks, used, top).Expanded?
    ensures Inlines(names, toks, top, k, used, Expand(names, toks, used, top))
    decreases top, names.Keys - used, |toks|
  {
    if toks == [] {
      k := 0;
    } else if !toks[0].Name? {
      k := ExpansionInlines(names, toks[1..], used, top);
    } else {
      var n := toks[0].name;
      var inner := Expand(names, names[n], used + {n}, false);
      var a := ExpansionInlines(names, names[n], used + {n}, false);
      var b := ExpansionInlines(names, toks[1..], inner.used, top);
      k := 1 + if a <= b then b else a;
      DeeperInlinesSame(names, names[n], false, a, k - 1);
      DeeperInlinesSame(names, toks[1..], top, b, k);
      ComposeName(names, toks, top, k, used, inner, Expand(names, toks[1..], inner.used, top));
    }
  }

  lemma NameThenBody(n: string, top: bool, x: seq<Occurrence>, y: seq<Occurrence>, used: set<string>)
    ensures MetNames([Occurrence(n, top)] + x + y) == {n} + MetNames(x) + MetNames(y)
    ensures NeverMetTwice(used, [Occurrence(n, top)] + x + y) <==>
      (top || n !in used) && NeverMetTwice(used + {n}, x) && NeverMetTwice(used + {n} + MetNames(x), y)
  {
    var h := [Occurrence(n, top)];
    assert h[0].name == n;
    assert MetNames(h[..0]) == {};
    assert MetNames(h) == {n};
    MetParts(h, x, used);
    MetParts(h + x, y, used);
    assert used + MetNames(h + x) == used + {n} + MetNames(x);
  }

  /** Where full inlining exists and no body mentions a name met before, the
      expansion succeeds. */
  lemma {:induction false} InliningExpands(names: Names, toks: seq<NameToken>, used: set<string>, top: bool, k: nat)
    requires Inline(names, toks, top, k).Some? && NeverMetTwice(used, Inline(names, toks, top, k).value.met)
    ensures Expand(names, toks, used, top) ==
      Expanded(Inline(names, toks, top, k).value.out, used + MetNames(Inline(names, toks, top, k).value.met))
    decreases k, |toks|
  {
    if toks == [] {
    } else if !toks[0].Name? {
      InliningExpands(names, toks[1..], used, top, k);
    } else {
      var n := toks[0].name;
      var x, y := Inline(names, names[n], false, k - 1).value.met, Inline(names, toks[1..], top, k).value.met;
      NameThenBody(n, top, x, y, used);
      InliningExpands(names, names[n], used + {n}, false, k - 1);
      InliningExpands(names, toks[1..], used + {n} + MetNames(x), top, k);
      assert used + ({n} + MetNames(x) + MetNames(y)) == used + {n} + MetNames(x) + MetNames(y);
    }
  }

  /** The expansion of a formula succeeds exactly when full inlining exists and
      no body mentions a name that was met before it. */
  lemma ExpandsExactly(names: Names, toks: seq<NameToken>)
    ensures Expand(names, toks, {}, true).Expanded? <==>
      exists k :: Inline(names, toks, true, k).Some? && NeverMetTwice({}, Inline(names, toks, true, k).value.met)
  {
    if Expand(names, toks, {}, true).Expanded? {
      var k := ExpansionInlines(names, toks, {}, true);
    }
    if k: nat :| Inline(names, toks, true, k).Some? && NeverMetTwice({}, Inline(names, toks, true, k).value.met) {
      InliningExpands(names, toks, {}, true, k);
    }
  }

  // ---- cycles ----

  ghost function Mentions(names: Names): Edges<string> {
    (a, b) => a in names && Name(b) in names[a]
  }

  lemma {:induction false} InliningReachesBodies(names: Names, toks: seq<NameToken>, top: bool, k: nat, n: string)
    requires Inline(names, toks, top, k).Some? && Name(n) in toks
    ensures k > 0 && n in names && Inline(names, names[n], false, k - 1).Some?
    decreases |toks|
  {
    if toks[0] != Name(n) {
      InliningReachesBodies(names, toks[1..], top, k, n);
    }
  }

  lemma {:induction false} NoInliningOfCycles(names: Names, n: string, k: nat)
    requires n in names && ReachesCycle(Mentions(names), n)
    ensures Inline(names, names[n], false, k).None?
    decreases k
  {
    if Inline(names, names[n], false, k).Some? {
      CycleThroughSuccessor(Mentions(names), n);
      var b :| Mentions(names)(n, b) && ReachesCycle(Mentions(names), b);
      InliningReachesBodies(names, names[n], false, k, b);
      NoInliningOfCycles(names, b, k - 1);
    }
  }

  /** Whenever a cycle of names can be reached, the expansion fails. */
  lemma CyclesAreRefused(names: Names, toks: seq<NameToken>, n: string)
    requires Name(n) in toks && ReachesCycle(Mentions(names), n)
    ensures Expand(names, toks, {}, true).Refused?
  {
    if Expand(names, toks, {}, true).Expanded? {
      var k := ExpansionInlines(names, toks, {}, true);
      InliningReachesBodies(names, toks, true, k, n);
      NoInliningOfCycles(names, n, k - 1);
    }
  }

  ghost function NamesReached(names: Names, n: string): set<string> {
    set d | d in names && Reach(Mentions(names), n, d)
  }

  /** Every name reachable from n is defined, and none of them is on a cycle. */
  ghost predicate WellFounded(names: Names, n: string) {
    && n in names && !ReachesCycle(Mentions(names), n)
    && forall d :: Reach(Mentions(names), n, d) ==> d in names
  }

  lemma {:induction false} BodiesInline(names: Names, toks: seq<NameToken>, top: bool, k: nat)
    requires forall n :: Name(n) in toks ==> n in names && k > 0 && Inline(names, names[n], false, k - 1).Some?
    ensures Inline(names, toks, top, k).Some?
    decreases |toks|
  {
    if toks == [] {
    } else {
      BodiesInline(names, toks[1..], top, k);
      if toks[0].Name? {
        assert Name(toks[0].name) in toks;
      }
    }
  }

  lemma {:induction false} WellFoundedInlines(names: Names, n: string)
    requires WellFounded(names, n)
    ensures Inline(names, names[n], false, |NamesReached(names, n)|).Some?
    decreases |NamesReached(names, n)|
  {
    var g, k := Mentions(names), |NamesReached(names, n)|;
    forall b | Name(b) in names[n]
      ensures b in names && k > 0 && Inline(names, names[b], false, k - 1).Some?
    {
      assert g(n, b);
      WellFoundedStep(names, n, b);
      WellFoundedInlines(names, b);
      DeeperInlinesSame(names, names[b], false, |NamesReached(names, b)|, k - 1);
    }
    BodiesInline(names, names[n], false, k);
  }

  lemma WellFoundedStep(names: Names, n: string, b: string)
    requires WellFounded(names, n) && Mentions(names)(n, b)
    ensures WellFounded(names, b) && |NamesReached(names, b)| < |NamesReached(names, n)|
  {
    var g := Mentions(names);
    ReachEdge(g, n, b);
    if ReachesCycle(g, b) {
      CycleFromSuccessor(g, n, b);
    }
    assert Reach(g, b, b) ==> ReachesCycle(g, b);
    forall d | Reach(g, b, d)
      ensures Reach(g, n, d)
    {
      ReachTrans(g, n, b, d);
    }
    assert b in NamesReached(names, n) && b !in NamesReached(names, b);
    SmallerSet(NamesReached(names, b), NamesReached(names, n));
  }

  /** Full inlining exists exactly when every name that can be reached is
      defined and no cycle can be reached. */
  lemma InlinesExactly(names: Names, toks: seq<NameToken>)
    ensures (exists k :: Inline(names, toks, true, k).Some?) <==> forall n :: Name(n) in toks ==> WellFounded(names, n)
  {
    if k: nat :| Inline(names, toks, true, k).Some? {
      forall n | Name(n) in toks
        ensures WellFounded(names, n)
      {
        InliningReachesBodies(names, toks, true, k, n);
        InliningIsWellFounded(names, n, k - 1);
      }
    }
    if forall n :: Name(n) in toks ==> WellFounded(names, n) {
      var k := 1 + |names.Keys|;
      forall n | Name(n) in toks
        ensures n in names && Inline(names, names[n], false, k - 1).Some?
      {
        WellFoundedInlines(names, n);
        assert NamesReached(names, n) <= names.Keys;
        if NamesReached(names, n) != names.Keys {
          SmallerSet(NamesReached(names, n), names.Keys);
        }
        DeeperInlinesSame(names, names[n], false, |NamesReached(names, n)|, k - 1);
      }
      BodiesInline(names, toks, true, k);
    }
  }

  lemma InliningIsWellFounded(names: Names, n: string, k: nat)
    requires n in names && Inline(names, names[n], false, k).Some?
    ensures WellFounded(names, n)
  {
    if ReachesCycle(Mentions(names), n) {
      NoInliningOfCycles(names, n, k);
    }
    forall d | Reach(Mentions(names), n, d)
      ensures d in names
    {
      var p :| Connects(Mentions(names), p, n, d);
      InliningFollowsPath(names, p, n, d, k);
    }
  }

  lemma {:induction false} InliningFollowsPath(names: Names, p: seq<string>, n: string, d: string, k: nat)
    requires Connects(Mentions(names), p, n, d) && n in names && Inline(names, names[n], false, k).Some?
    ensures d in names
    decreases |p|
  {
    assert Mentions(names)(p[0], p[1]);
    InliningReachesBodies(names, names[n], false, k, p[1]);
    if |p| > 2 {
      assert Connects(Mentions(names), p[1..], p[1], d);
      InliningFollowsPath(names, p[1..], p[1], d, k - 1);
    }
  }

  /** A formula that adds a name to itself is refused when the body of that
      name mentions another: a + a with a standing for b. */
  lemma RepeatedNameIsRefused(one: Token)
    ensures var names := map["a" := [Name("b")], "b" := [Plain(one)]];
      && Expand(names, [Name("a"), Plain(ExprTok(Plus)), Name("a")], {}, true) == Refused(InvalidExpression)
      && (forall n :: n in names ==> WellFounded(names, n))
  {
    var names := map["a" := [Name("b")], "b" := [Plain(one)]];
    var toks := [Name("a"), Plain(ExprTok(Plus)), Name("a")];
    var g := Mentions(names);
    assert Inline(names, names["b"], false, 0).Some?;
    assert Inline(names, names["a"], false, 1).Some? by {
      assert names["a"][1..] == [];
    }
    InliningIsWellFounded(names, "a", 1);
    InliningIsWellFounded(names, "b", 0);
    assert names["b"][1..] == [] && names["a"][1..] == [];
    assert {"a"} + {"b"} == {"a", "b"} && {"a", "b"} + {"a"} == {"a", "b"} && {} + {"a"} == {"a"};
    assert Expand(names, names["b"], {"a", "b"}, false) == Expanded([Plain(one)], {"a", "b"});
    assert Expand(names, names["a"], {"a"}, false).used == {"a", "b"};
    assert Expand(names, names["a"], {"a", "b"}, false) == Refused(InvalidExpression);
    assert toks[1..] == [Plain(ExprTok(Plus)), Name("a")] && toks[1..][1..] == [Name("a")];
    assert Expand(names, [Name("a")], {"a", "b"}, true) == Refused(InvalidExpression);
    assert Expand(names, toks[1..], {"a", "b"}, true) == Refused(InvalidExpression);
  }
}
