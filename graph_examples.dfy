/**
 * Call sequences of the graph test suite, each made on one fresh object of
 * each graph class, as a client makes them. Each method states the graph its
 * calls end with and what they returned, and both are proved. The
 * labels are any two distinct ones (the test's "V1" and "V2"). The lemmas
 * compute what the test asserts about those graphs.
 */
module GraphExamples {
  import opened Graphs
  import VerticesGraph
  import EdgesGraph

  /** `set(a, b, 1)` then `set(a, b, 2)` on the abstract graph: the second
      `set` returns 1, and afterwards a's targets are {b := 2} in a graph of
      the two vertices. */
  lemma SetEdgeModifier<L(!new)>(a: L, b: L)
    requires a != b
    ensures var g := SetEdge(Empty(), a, b, 1);
            && Previous(g, a, b, 2) == 1
            && Targets(SetEdge(g, a, b, 2), a) == map[b := 2]
            && SetEdge(g, a, b, 2).vertices == {a, b}
  {
    var g := SetEdge(Empty(), a, b, 1);
    assert g == Graph({a, b}, map[(a, b) := 1]);
    assert SetEdge(g, a, b, 2) == Graph({a, b}, map[(a, b) := 2]);
  }

  /** `set(b, a, 1)`, `remove(a)`, `set(b, a, 2)` on the abstract graph:
      a's sources before the removal are {b := 1}; `remove` finds a;
      afterwards a is no vertex and no target of b, and the last `set`
      returns 0. */
  lemma RemoveThenSet<L(!new)>(a: L, b: L)
    requires a != b
    ensures var g := SetEdge(Empty(), b, a, 1);
            && Sources(g, a) == map[b := 1]
            && a in g.vertices
            && a !in Remove(g, a).vertices
            && a !in Targets(Remove(g, a), b)
            && Previous(Remove(g, a), b, a, 2) == 0
  {
    var g := SetEdge(Empty(), b, a, 1);
    assert g == Graph({a, b}, map[(b, a) := 1]);
    assert Remove(g, a) == Graph({b}, map[]);
  }

  /** The modifier sequence on the record-list representation. */
  method VerticesSetEdgeModifier<L(==, !new)>(a: L, b: L) returns (g: VerticesGraph.ConcreteVerticesGraph<L>, previous: int)
    requires a != b
    ensures g.Valid() && g.Model() == SetEdge(SetEdge(Empty(), a, b, 1), a, b, 2)
    ensures previous == 1
  {
    g := new VerticesGraph.ConcreteVerticesGraph<L>();
    var _ := g.Set(a, b, 1);
    previous := g.Set(a, b, 2);
    SetEdgeModifier(a, b);
  }

  /** The modifier sequence on the edge-list representation. */
  method EdgesSetEdgeModifier<L(==, !new)>(a: L, b: L) returns (g: EdgesGraph.ConcreteEdgesGraph<L>, previous: int)
    requires a != b
    ensures g.Valid() && g.Model() == SetEdge(SetEdge(Empty(), a, b, 1), a, b, 2)
    ensures previous == 1
  {
    g := new EdgesGraph.ConcreteEdgesGraph<L>();
    var _ := g.Set(a, b, 1);
    previous := g.Set(a, b, 2);
    SetEdgeModifier(a, b);
  }

  /** The removal sequence on the record-list representation. */
  method VerticesRemoveThenSet<L(==, !new)>(a: L, b: L) returns (g: VerticesGraph.ConcreteVerticesGraph<L>, removed: bool, previous: int)
    requires a != b
    ensures g.Valid() && g.Model() == SetEdge(Remove(SetEdge(Empty(), b, a, 1), a), b, a, 2)
    ensures removed && previous == 0
  {
    g := new VerticesGraph.ConcreteVerticesGraph<L>();
    var _ := g.Set(b, a, 1);
    removed := g.Remove(a);
    previous := g.Set(b, a, 2);
    RemoveThenSet(a, b);
  }

  /** The removal sequence on the edge-list representation. */
  method EdgesRemoveThenSet<L(==, !new)>(a: L, b: L) returns (g: EdgesGraph.ConcreteEdgesGraph<L>, removed: bool, previous: int)
    requires a != b
    ensures g.Valid() && g.Model() == SetEdge(Remove(SetEdge(Empty(), b, a, 1), a), b, a, 2)
    ensures removed && previous == 0
  {
    g := new EdgesGraph.ConcreteEdgesGraph<L>();
    var _ := g.Set(b, a, 1);
    removed := g.Remove(a);
    previous := g.Set(b, a, 2);
    RemoveThenSet(a, b);
  }
}
