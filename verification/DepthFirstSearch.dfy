/** The depth-first search that puts dirty cells in calculation order. */
module DepthFirstSearch {
  import opened Graph

  type PrecedentMap<T> = map<T, set<T>>

  ghost function PrecedentEdges<T>(m: PrecedentMap<T>): Edges<T> {
    (a, b) => a in m && b in m[a]
  }

  ghost predicate Distinct<T>(s: seq<T>) {
    forall i, j :: 0 <= i < j < |s| ==> s[i] != s[j]
  }

  /** Every edge among the nodes leads to one of the nodes. */
  ghost predicate Closed<T(!new)>(m: PrecedentMap<T>, nodes: seq<T>) {
    forall n, p :: n in nodes && PrecedentEdges(m)(n, p) ==> p in nodes
  }

  /** A precedent that does not come strictly before its dependent is on a
      cycle with it. */
  ghost predicate PrecedentsFirst<T(!new)>(m: PrecedentMap<T>, s: seq<T>) {
    forall k, p :: 0 <= k < |s| && PrecedentEdges(m)(s[k], p) ==> p in s[..k] || Reach(PrecedentEdges(m), p, s[k])
  }

  /** What a completed search delivers. */
  ghost predicate IsSorted<T(!new)>(m: PrecedentMap<T>, nodes: seq<T>, s: seq<T>) {
    Distinct(s) && (forall n :: n in s <==> n in nodes) && PrecedentsFirst(m, s)
  }

  /** The output is a permutation of the nodes. */
  lemma SortedIsPermutation<T(!new)>(m: PrecedentMap<T>, nodes: seq<T>, s: seq<T>)
    requires Distinct(nodes) && IsSorted(m, nodes, s)
    ensures multiset(s) == multiset(nodes) && |s| == |nodes|
  {
    DistinctCounts(s);
    DistinctCounts(nodes);
    assert forall n :: multiset(s)[n] == multiset(nodes)[n];
    assert |multiset(s)| == |s| && |multiset(nodes)| == |nodes|;
  }

  lemma {:induction false} DistinctCounts<T>(s: seq<T>)
    requires Distinct(s)
    ensures forall n :: multiset(s)[n] == if n in s then 1 else 0
  {
    if s == [] {
    } else {
      DistinctCounts(s[1..]);
      assert s == [s[0]] + s[1..];
    }
  }

  /** On an acyclic relation every precedent comes strictly first. */
  lemma AcyclicPrecedentsFirst<T(!new)>(m: PrecedentMap<T>, nodes: seq<T>, s: seq<T>, k: nat, p: T)
    requires IsSorted(m, nodes, s)
    requires forall n :: n in nodes ==> !Reach(PrecedentEdges(m), n, n)
    requires k < |s| && PrecedentEdges(m)(s[k], p)
    ensures p in s[..k]
  {
    if p !in s[..k] {
      assert s[k] in nodes;
      ReachCons(PrecedentEdges(m), s[k], p, s[k]);
    }
  }

  /** Precedent-dependent relations: each node with the nodes it depends on. */
  class Relations<T(==)> {
    var edges: PrecedentMap<T>

    constructor ()
      ensures edges == map[]
    {
      edges := map[];
    }

    method Insert(pre: T, dep: T)
      modifies this
      ensures edges.Keys == old(edges).Keys + {pre}
      ensures forall a, b :: PrecedentEdges(edges)(a, b) <==> PrecedentEdges(old(edges))(a, b) || (a == pre && b == dep)
    {
      if pre !in edges {
        edges := edges[pre := {}];
      }
      edges := edges[pre := edges[pre] + {dep}];
    }
  }

  datatype Color = White | Gray | Black

  datatype NodeData<T> = NodeData(color: Color, node: T)

  ghost function Whites<T>(values: seq<NodeData<T>>): set<int> {
    set i | 0 <= i < |values| && values[i].color.White?
  }

  /** Some white nodes have turned black, nothing else has changed. */
  ghost predicate Advanced<T>(before: seq<NodeData<T>>, after: seq<NodeData<T>>) {
    |before| == |after| &&
    forall i :: 0 <= i < |before| ==> after[i] == before[i] || (before[i].color.White? && after[i].color.Black?)
  }

  class Search<T(==, !new)> {
    const precedentMap: PrecedentMap<T>
    const nodes: seq<T>
    var valueIndices: map<T, nat>
    var values: seq<NodeData<T>>
    var sorted: seq<T>

    ghost predicate Indexed()
      reads this
    {
      && Distinct(nodes)
      && (forall x :: x in valueIndices <==> x in nodes)
      && forall x :: x in valueIndices ==> valueIndices[x] < |nodes| && nodes[valueIndices[x]] == x
    }

    ghost predicate Valid()
      reads this
    {
      && Indexed()
      && |values| == |nodes|
      && (forall i :: 0 <= i < |nodes| ==> values[i].node == nodes[i])
      && Distinct(sorted)
      && (forall x :: x in sorted ==> x in nodes)
      && (forall i :: 0 <= i < |nodes| ==> (nodes[i] in sorted <==> values[i].color.Black?))
      && (forall x, p :: x in sorted && PrecedentEdges(precedentMap)(x, p) ==> p in nodes)
      && PrecedentsFirst(precedentMap, sorted)
    }

    /** All nodes whose visit is under way reach the given one. */
    ghost predicate GrayReach(cell: nat)
      requires Valid() && cell < |nodes|
      reads this
    {
      forall g :: 0 <= g < |nodes| && values[g].color.Gray? && g != cell ==>
        Reach(PrecedentEdges(precedentMap), nodes[g], nodes[cell])
    }

    constructor (begin: seq<T>, rels: PrecedentMap<T>)
      requires Distinct(begin)
      ensures Indexed() && nodes == begin && precedentMap == rels && sorted == []
    {
      nodes := begin;
      precedentMap := rels;
      valueIndices := map[];
      values := [];
      sorted := [];
      new;
      for i := 0 to |begin|
        invariant nodes == begin && precedentMap == rels && sorted == []
        invariant forall x :: x in valueIndices <==> x in begin[..i]
        invariant forall x :: x in valueIndices ==> valueIndices[x] < i && nodes[valueIndices[x]] == x
      {
        valueIndices := valueIndices[begin[i] := i];
      }
    }

    method Init()
      requires Indexed() && sorted == []
      modifies this`values
      ensures Valid() && forall i :: 0 <= i < |nodes| ==> values[i].color.White?
    {
      values := seq(|nodes|, i requires 0 <= i < |nodes| => NodeData(White, nodes[i]));
    }

    /** Reports false when a relation leads outside the given nodes; nothing
        is output for the unfinished nodes then. */
    method Run() returns (ok: bool)
      requires Indexed() && sorted == []
      modifies this`values, this`sorted
      ensures Indexed() && Distinct(sorted) && (forall x :: x in sorted ==> x in nodes)
      ensures PrecedentsFirst(precedentMap, sorted)
      ensures ok <==> Closed(precedentMap, nodes)
      ensures ok ==> IsSorted(precedentMap, nodes, sorted)
    {
      Init();
      for i := 0 to |nodes|
        invariant Valid()
        invariant forall j :: 0 <= j < |nodes| ==> !values[j].color.Gray?
        invariant forall j :: 0 <= j < i ==> values[j].color.Black?
      {
        if values[i].color == White {
          ok := Visit(i);
          if !ok {
            return;
          }
        }
      }
      ok := true;
    }

    /** Visits one white node; the nodes being visited are the gray ones and
        all of them reach it. */
    method Visit(cell: nat) returns (ok: bool)
      requires Valid() && cell < |nodes| && values[cell].color.White?
      requires GrayReach(cell)
      modifies this`values, this`sorted
      ensures Valid()
      ensures !ok ==> !Closed(precedentMap, nodes)
      ensures ok ==> values[cell].color.Black? && Advanced(old(values), values) && old(sorted) <= sorted
      decreases Whites(values), 0
    {
      Enter(cell);
      ok := VisitPrecedents(cell);
      if ok {
        Finish(cell);
      }
    }

    /** Goes on to the precedents of a node under visit, in any order. */
    method VisitPrecedents(cell: nat) returns (ok: bool)
      requires Valid() && cell < |nodes| && values[cell].color.Gray?
      requires GrayReach(cell)
      modifies this`values, this`sorted
      ensures Valid()
      ensures !ok ==> !Closed(precedentMap, nodes)
      ensures ok ==> Advanced(old(values), values) && old(sorted) <= sorted
      ensures ok ==> forall d :: PrecedentEdges(precedentMap)(nodes[cell], d) ==> Placed(nodes[cell], d)
      decreases Whites(values), 2
    {
      var p := values[cell].node;
      ok := true;
      if p in precedentMap {
        var todo := precedentMap[p];
        while todo != {}
          invariant Valid()
          invariant todo <= precedentMap[p]
          invariant Advanced(old(values), values) && old(sorted) <= sorted
          invariant forall d :: d in precedentMap[p] && d !in todo ==> Placed(p, d)
          decreases todo
        {
          var d :| d in todo;
          todo := todo - {d};
          assert Whites(values) <= Whites(old(values));
          ok := VisitPrecedent(cell, d);
          if !ok {
            return;
          }
        }
      }
    }

    method Enter(cell: nat)
      requires Valid() && cell < |nodes| && values[cell].color.White?
      modifies this`values
      ensures Valid() && Whites(values) < old(Whites(values))
      ensures values == old(values)[cell := NodeData(Gray, nodes[cell])]
    {
      values := values[cell := values[cell].(color := Gray)];
      assert cell in Whites(old(values)) && cell !in Whites(values);
    }

    /** d is output already, or on a cycle with p. */
    ghost predicate Placed(p: T, d: T)
      reads this
    {
      d in nodes && (d in sorted || Reach(PrecedentEdges(precedentMap), d, p))
    }

    method VisitPrecedent(cell: nat, d: T) returns (ok: bool)
      requires Valid() && cell < |nodes| && values[cell].color.Gray?
      requires GrayReach(cell) && PrecedentEdges(precedentMap)(nodes[cell], d)
      modifies this`values, this`sorted
      ensures Valid()
      ensures !ok ==> !Closed(precedentMap, nodes)
      ensures ok ==> Placed(nodes[cell], d) && Advanced(old(values), values) && old(sorted) <= sorted
      decreases Whites(values), 1
    {
      ghost var edge, p := PrecedentEdges(precedentMap), nodes[cell];
      if d !in valueIndices {
        assert p in nodes;
        return false;
      }
      var id := valueIndices[d];
      ok := true;
      if values[id].color == White {
        forall g | 0 <= g < |nodes| && values[g].color.Gray?
          ensures Reach(edge, nodes[g], d)
        {
          ReachSnoc(edge, nodes[g], p, d);
        }
        ok := Visit(id);
      } else if values[id].color == Gray && id == cell {
        ReachEdge(edge, p, p);
      }
    }

    method Finish(cell: nat)
      requires Valid() && cell < |nodes| && values[cell].color.Gray?
      requires forall d :: PrecedentEdges(precedentMap)(nodes[cell], d) ==> Placed(nodes[cell], d)
      modifies this`values, this`sorted
      ensures Valid()
      ensures values == old(values)[cell := NodeData(Black, nodes[cell])]
      ensures sorted == old(sorted) + [nodes[cell]]
    {
      values := values[cell := values[cell].(color := Black)];
      assert nodes[cell] !in sorted;
      sorted := sorted + [values[cell].node];
      assert forall k :: 0 <= k < |old(sorted)| ==> sorted[..k] == old(sorted)[..k];
      assert sorted[..|sorted| - 1] == old(sorted);
    }
  }
}
