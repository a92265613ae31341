/** Directed graphs given by an edge relation, and reachability by finite
    paths.  The same notion serves the listener relation of the tracker, the
    precedent relation handed to the depth-first search, and the references
    between the cells of a sheet. */
module Graph {
  type Edges<!T> = (T, T) -> bool

  ghost predicate IsPath<T>(g: Edges<T>, p: seq<T>) {
    forall i :: 0 < i < |p| ==> g(p[i - 1], p[i])
  }

  ghost predicate Connects<T>(g: Edges<T>, p: seq<T>, a: T, b: T) {
    |p| >= 2 && p[0] == a && p[|p| - 1] == b && IsPath(g, p)
  }

  /** b can be reached from a in one or more steps. */
  ghost predicate Reach<T(!new)>(g: Edges<T>, a: T, b: T) {
    exists p :: Connects(g, p, a, b)
  }

  /** a cycle can be reached from a in zero or more steps. */
  ghost predicate ReachesCycle<T(!new)>(g: Edges<T>, a: T) {
    exists d :: Reach(g, d, d) && (a == d || Reach(g, a, d))
  }

  lemma ReachEdge<T(!new)>(g: Edges<T>, a: T, b: T)
    requires g(a, b)
    ensures Reach(g, a, b)
  {
    assert Connects(g, [a, b], a, b);
  }

  lemma ReachTrans<T(!new)>(g: Edges<T>, a: T, b: T, c: T)
    requires Reach(g, a, b) && Reach(g, b, c)
    ensures Reach(g, a, c)
  {
    var p :| Connects(g, p, a, b);
    var q :| Connects(g, q, b, c);
    var r := p + q[1..];
    assert forall i :: 0 < i < |r| ==> r[i] == if i < |p| then p[i] else q[i - |p| + 1];
    forall i | 0 < i < |r|
      ensures g(r[i - 1], r[i])
    {
      if i >= |p| {
        assert r[i - 1] == q[i - |p|];
      }
    }
    assert Connects(g, r, a, c);
  }

  /** An edge followed by zero or more steps. */
  lemma ReachCons<T(!new)>(g: Edges<T>, a: T, b: T, c: T)
    requires g(a, b) && (b == c || Reach(g, b, c))
    ensures Reach(g, a, c)
  {
    ReachEdge(g, a, b);
    if b != c {
      ReachTrans(g, a, b, c);
    }
  }

  /** Zero or more steps followed by an edge. */
  lemma ReachSnoc<T(!new)>(g: Edges<T>, a: T, b: T, c: T)
    requires g(b, c) && (a == b || Reach(g, a, b))
    ensures Reach(g, a, c)
  {
    ReachEdge(g, b, c);
    if a != b {
      ReachTrans(g, a, b, c);
    }
  }

  lemma FirstStep<T(!new)>(g: Edges<T>, a: T, c: T) returns (b: T)
    requires Reach(g, a, c)
    ensures g(a, b) && (b == c || Reach(g, b, c))
  {
    var p :| Connects(g, p, a, c);
    b := p[1];
    assert g(p[0], p[1]);
    if |p| > 2 {
      assert Connects(g, p[1..], b, c);
    }
  }

  /** A node reaches a cycle exactly when one of its successors does, or it is
      itself on a cycle. */
  lemma CycleThroughSuccessor<T(!new)>(g: Edges<T>, a: T)
    requires ReachesCycle(g, a)
    ensures exists b :: g(a, b) && ReachesCycle(g, b)
  {
    var d :| Reach(g, d, d) && (a == d || Reach(g, a, d));
    var b := FirstStep(g, a, d);
    assert ReachesCycle(g, b);
  }

  lemma CycleFromSuccessor<T(!new)>(g: Edges<T>, a: T, b: T)
    requires (g(a, b) || Reach(g, a, b)) && ReachesCycle(g, b)
    ensures ReachesCycle(g, a)
  {
    var d :| Reach(g, d, d) && (b == d || Reach(g, b, d));
    if g(a, b) {
      ReachCons(g, a, b, d);
    } else if b != d {
      ReachTrans(g, a, b, d);
    }
  }

  /** Paths are carried along by a map that keeps the edges between the nodes
      they can visit. */
  lemma {:induction false} ReachImage<T(!new), U(!new)>(g: Edges<T>, h: Edges<U>, inv: T -> bool, f: T -> U,
          p: seq<T>, a: T, b: T)
    requires Connects(g, p, a, b) && inv(a)
    requires forall x, y :: inv(x) && g(x, y) ==> inv(y) && h(f(x), f(y))
    ensures Reach(h, f(a), f(b)) && inv(b)
    decreases |p|
  {
    assert g(p[0], p[1]);
    ReachEdge(h, f(a), f(p[1]));
    if |p| > 2 {
      assert Connects(g, p[1..], p[1], b);
      ReachImage(g, h, inv, f, p[1..], p[1], b);
      ReachTrans(h, f(a), f(p[1]), f(b));
    }
  }

  lemma ReachReversed<T(!new)>(g: Edges<T>, h: Edges<T>, a: T, b: T)
    requires Reach(g, a, b)
    requires forall x, y :: g(x, y) ==> h(y, x)
    ensures Reach(h, b, a)
  {
    var p :| Connects(g, p, a, b);
    var n := |p|;
    var q := seq(n, i requires 0 <= i < n => p[n - 1 - i]);
    forall i | 0 < i < n
      ensures h(q[i - 1], q[i])
    {
      assert g(p[n - i - 1], p[n - i]);
    }
    assert Connects(h, q, b, a);
  }

  /** When g and h have the same edges except out of x, a path of g either is
      one of h or meets x, and then h reaches x as well. */
  lemma {:induction false} ReachExcept<T(!new)>(g: Edges<T>, h: Edges<T>, x: T, p: seq<T>, a: T, b: T)
    requires Connects(g, p, a, b) && a != x
    requires forall y, z :: y != x && g(y, z) ==> h(y, z)
    ensures Reach(h, a, b) || Reach(h, a, x)
    decreases |p|
  {
    assert g(p[0], p[1]);
    ReachEdge(h, a, p[1]);
    if p[1] != x && |p| > 2 {
      assert Connects(g, p[1..], p[1], b);
      ReachExcept(g, h, x, p[1..], p[1], b);
      if Reach(h, p[1], b) {
        ReachTrans(h, a, p[1], b);
      } else {
        ReachTrans(h, a, p[1], x);
      }
    }
  }

  /** A set closed under the edges holds everything reachable from it. */
  lemma {:induction false} ReachStaysInside<T(!new)>(g: Edges<T>, s: set<T>, p: seq<T>, a: T, b: T)
    requires Connects(g, p, a, b)
    requires forall x, y :: x in s && g(x, y) ==> y in s
    requires a in s || p[1] in s
    ensures b in s
    decreases |p|
  {
    assert g(p[0], p[1]);
    if |p| > 2 {
      assert Connects(g, p[1..], p[1], b);
      ReachStaysInside(g, s, p[1..], p[1], b);
    }
  }
}
