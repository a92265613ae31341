/** The relational operators put all numbers and strings in one total order. */
module FormulaComparisons {
  import opened ExpressionGrammar
  import opened FormulaValues

  predicate Comparable<M>(v: StackValue<M>) {
    v.SNumber? || v.SString?
  }

  ghost predicate Holds<M>(lib: Library<M>, op: ExprOp, a: StackValue<M>, b: StackValue<M>) {
    RelateValues(lib, op, a, b) == Ok(Truth(true))
  }

  lemma {:induction false} StringsTrichotomous(s: string, t: string)
    ensures s == t ==> !StringLess(s, t)
    ensures s != t ==> (StringLess(s, t) <==> !StringLess(t, s))
    decreases |s|
  {
    if s != [] && t != [] && s[0] == t[0] {
      StringsTrichotomous(s[1..], t[1..]);
      assert s == [s[0]] + s[1..] && t == [t[0]] + t[1..];
    }
  }

  lemma {:induction false} StringsTransitive(s: string, t: string, u: string)
    requires StringLess(s, t) && StringLess(t, u)
    ensures StringLess(s, u)
    decreases |s|
  {
    if s != [] && s[0] == t[0] == u[0] {
      StringsTransitive(s[1..], t[1..], u[1..]);
    }
  }

  /** Exactly one of <, = and > holds, the other operators follow from them,
      and < and > mirror each other. */
  lemma ComparisonsConsistent<M>(lib: Library<M>, a: StackValue<M>, b: StackValue<M>)
    requires Comparable(a) && Comparable(b)
    ensures Holds(lib, Equal, a, b) <==> a == b
    ensures a != b ==> (Holds(lib, Less, a, b) <==> !Holds(lib, Greater, a, b))
    ensures a == b ==> !Holds(lib, Less, a, b) && !Holds(lib, Greater, a, b)
    ensures Holds(lib, Less, a, b) <==> Holds(lib, Greater, b, a)
    ensures Holds(lib, NotEqual, a, b) <==> !Holds(lib, Equal, a, b)
    ensures Holds(lib, LessEqual, a, b) <==> !Holds(lib, Greater, a, b)
    ensures Holds(lib, GreaterEqual, a, b) <==> !Holds(lib, Less, a, b)
  {
    assert Truth<M>(true) != Truth<M>(false);
    if a.SString? && b.SString? {
      StringsTrichotomous(a.s, b.s);
    }
  }

  lemma LessIsTransitive<M>(lib: Library<M>, a: StackValue<M>, b: StackValue<M>, c: StackValue<M>)
    requires Comparable(a) && Comparable(b) && Comparable(c)
    requires Holds(lib, Less, a, b) && Holds(lib, Less, b, c)
    ensures Holds(lib, Less, a, c)
  {
    assert Truth<M>(true) != Truth<M>(false);
    if a.SString? && b.SString? && c.SString? {
      StringsTransitive(a.s, b.s, c.s);
    }
  }
}
