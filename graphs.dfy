/**
 * The abstract value of a mutable weighted directed graph with labelled
 * vertices: a set of labels and a map from ordered (source, target) pairs to
 * edge weights. Both concrete representations (ConcreteVerticesGraph and
 * ConcreteEdgesGraph) are proved to implement the operations defined here.
 */
module Graphs {

  datatype Graph<L> = Graph(vertices: set<L>, edges: map<(L, L), int>)

  /** The shared representation-independent invariant: every stored weight is
      positive and both endpoints of every edge are vertices. (At most one edge
      per ordered pair is built into the map.) */
  ghost predicate Valid<L(!new)>(g: Graph<L>)
  {
    forall p :: p in g.edges ==> g.edges[p] > 0 && p.0 in g.vertices && p.1 in g.vertices
  }

  /** The graph every representation starts from. */
  function Empty<L>(): Graph<L>
  {
    Graph({}, map[])
  }

  /** Weight of source -> target, 0 when there is no such edge. */
  function Weight<L(!new)>(g: Graph<L>, source: L, target: L): (w: int)
    ensures (source, target) in g.edges ==> w == g.edges[(source, target)]
    ensures (source, target) !in g.edges ==> w == 0
    ensures Valid(g) ==> (w > 0 <==> (source, target) in g.edges)
  {
    if (source, target) in g.edges then g.edges[(source, target)] else 0
  }

  /** `targets(source)`: every t with an edge source -> t, mapped to its weight. */
  function Targets<L(!new)>(g: Graph<L>, source: L): (m: map<L, int>)
    ensures forall t :: t in m <==> (source, t) in g.edges
    ensures forall t :: t in m ==> m[t] == g.edges[(source, t)]
  {
    var m := map p | p in g.edges && p.0 == source :: p.1 := g.edges[p];
    assert forall t :: (source, t) in g.edges ==> t in m by {
      forall t | (source, t) in g.edges ensures t in m {
        var p := (source, t);
        assert p in g.edges && p.0 == source;
      }
    }
    m
  }

  /** `sources(target)`: every s with an edge s -> target, mapped to its weight. */
  function Sources<L(!new)>(g: Graph<L>, target: L): (m: map<L, int>)
    ensures forall s :: s in m <==> (s, target) in g.edges
    ensures forall s :: s in m ==> m[s] == g.edges[(s, target)]
  {
    var m := map p | p in g.edges && p.1 == target :: p.0 := g.edges[p];
    assert forall s :: (s, target) in g.edges ==> s in m by {
      forall s | (s, target) in g.edges ensures s in m {
        var p := (s, target);
        assert p in g.edges && p.1 == target;
      }
    }
    m
  }

  /** `add(v)`: the vertex set gains v and no edge changes. */
  function Add<L(!new)>(g: Graph<L>, v: L): (r: Graph<L>)
    ensures Valid(g) ==> Valid(r)
    ensures r.vertices == g.vertices + {v} && r.edges == g.edges
  {
    Graph(g.vertices + {v}, g.edges)
  }

  /** The graph after `set(source, target, weight)`. A positive weight writes the
      edge and makes both endpoints vertices; weight 0 deletes the edge and leaves
      the vertices alone; a negative weight changes nothing. */
  function SetEdge<L(!new)>(g: Graph<L>, source: L, target: L, weight: int): (r: Graph<L>)
    ensures Valid(g) ==> Valid(r)
    ensures weight > 0 ==> r.vertices == g.vertices + {source, target}
    ensures weight <= 0 ==> r.vertices == g.vertices
    ensures weight >= 0 ==> Weight(r, source, target) == weight
    ensures weight < 0 ==> r == g
    ensures forall p :: p != (source, target) ==> (p in r.edges <==> p in g.edges)
    ensures forall p :: p != (source, target) && p in r.edges ==> r.edges[p] == g.edges[p]
  {
    if weight > 0 then Graph(g.vertices + {source, target}, g.edges[(source, target) := weight])
    else if weight == 0 then Graph(g.vertices, g.edges - {(source, target)})
    else g
  }

  /** What `set(source, target, weight)` returns: the previous weight of the
      edge, 0 when it was absent; a negative weight is refused with 0. */
  function Previous<L(!new)>(g: Graph<L>, source: L, target: L, weight: int): (w: int)
    ensures weight < 0 ==> w == 0
    ensures weight >= 0 ==> w == Weight(g, source, target)
  {
    if weight < 0 then 0 else Weight(g, source, target)
  }

  /** `remove(v)`: v stops being a vertex and every edge touching it goes. */
  function Remove<L(!new)>(g: Graph<L>, v: L): (r: Graph<L>)
    ensures Valid(g) ==> Valid(r)
    ensures r.vertices == g.vertices - {v}
    ensures forall p :: p in r.edges ==> p.0 != v && p.1 != v
    ensures forall p :: p in g.edges && p.0 != v && p.1 != v ==> p in r.edges && r.edges[p] == g.edges[p]
    ensures forall p :: p in r.edges ==> p in g.edges
  {
    Graph(g.vertices - {v}, map p | p in g.edges && p.0 != v && p.1 != v :: g.edges[p])
  }

  /** Writing one pair's weight changes the targets of its source only, at
      that one key. */
  lemma TargetsAfterWrite<L(!new)>(g: Graph<L>, p: (L, L), w: int, s: L)
    ensures Targets(Graph(g.vertices, g.edges[p := w]), s)
         == if p.0 == s then Targets(g, s)[p.1 := w] else Targets(g, s)
  {
  }

  /** Writing one pair's weight changes the sources of its target only, at
      that one key. */
  lemma SourcesAfterWrite<L(!new)>(g: Graph<L>, p: (L, L), w: int, t: L)
    ensures Sources(Graph(g.vertices, g.edges[p := w]), t)
         == if p.1 == t then Sources(g, t)[p.0 := w] else Sources(g, t)
  {
  }

  /** Writing one pair's weight before removing v is the same as writing it
      after, unless the pair touches v. */
  lemma RemoveAfterWrite<L(!new)>(g: Graph<L>, p: (L, L), w: int, v: L)
    ensures Remove(Graph(g.vertices, g.edges[p := w]), v).edges
         == if p.0 != v && p.1 != v then Remove(g, v).edges[p := w] else Remove(g, v).edges
  {
  }

  /** Two graphs with the same vertices and the same targets of every label
      are the same graph. */
  lemma EqualByTargets<L(!new)>(g: Graph<L>, h: Graph<L>)
    requires g.vertices == h.vertices
    requires forall n :: Targets(g, n) == Targets(h, n)
    ensures g == h
  {
    forall p | p in g.edges ensures p in h.edges && h.edges[p] == g.edges[p] {
      assert p.1 in Targets(g, p.0);
    }
    forall p | p in h.edges ensures p in g.edges {
      assert p.1 in Targets(h, p.0);
    }
  }

  /** Targets after `set`: only the source's outgoing map changes, at the
      target's key. */
  lemma TargetsAfterSet<L(!new)>(g: Graph<L>, s: L, t: L, w: int, n: L)
    ensures Targets(SetEdge(g, s, t, w), n)
         == if n != s || w < 0 then Targets(g, n)
            else if w == 0 then Targets(g, s) - {t}
            else Targets(g, s)[t := w]
  {
  }

  /** Targets after `remove(v)`: v has none, and v is no one's target. */
  lemma TargetsAfterRemove<L(!new)>(g: Graph<L>, v: L, n: L)
    ensures Targets(Remove(g, v), n) == if n == v then map[] else Targets(g, n) - {v}
  {
  }

  /** Adding both endpoints before writing a positive weight changes nothing:
      SetEdge adds them itself. */
  lemma AddThenSet<L(!new)>(g: Graph<L>, s: L, t: L, w: int)
    requires w > 0
    ensures SetEdge(Add(Add(g, s), t), s, t, w) == SetEdge(g, s, t, w)
    ensures Weight(Add(Add(g, s), t), s, t) == Weight(g, s, t)
  {
  }

  /** Removing a label that is not a vertex of a valid graph changes nothing. */
  lemma RemoveAbsent<L(!new)>(g: Graph<L>, v: L)
    requires Valid(g) && v !in g.vertices
    ensures Remove(g, v) == g
  {
  }

  /** Deleting an edge that is not there changes nothing and reports 0. */
  lemma ClearAbsent<L(!new)>(g: Graph<L>, s: L, t: L)
    requires (s, t) !in g.edges
    ensures SetEdge(g, s, t, 0) == g && Weight(g, s, t) == 0
  {
  }

  /** Setting a weight and setting it again: the second call returns the weight
      just written and leaves the graph as the first call left it. */
  lemma SetTwice<L(!new)>(g: Graph<L>, s: L, t: L, w: int)
    requires w >= 0
    ensures Previous(SetEdge(g, s, t, w), s, t, w) == w
    ensures SetEdge(SetEdge(g, s, t, w), s, t, w) == SetEdge(g, s, t, w)
  {
  }

  /** Writing an edge and then writing weight 0 removes it again and returns the
      weight written; the targets of s no longer mention t. */
  lemma SetThenClear<L(!new)>(g: Graph<L>, s: L, t: L, w: int)
    requires w > 0
    ensures Previous(SetEdge(g, s, t, w), s, t, 0) == w
    ensures t !in Targets(SetEdge(SetEdge(g, s, t, w), s, t, 0), s)
    ensures SetEdge(SetEdge(g, s, t, w), s, t, 0).edges == g.edges - {(s, t)}
  {
  }

  /** `set(1,2,3)`, `set(1,2,4)`, `set(1,2,0)`, `set(1,2,0)` on an empty graph
      return 0, 3, 4 and 0. */
  lemma SetSequence()
    ensures var g0 := Empty<int>();
            var g1 := SetEdge(g0, 1, 2, 3);
            var g2 := SetEdge(g1, 1, 2, 4);
            var g3 := SetEdge(g2, 1, 2, 0);
            Previous(g0, 1, 2, 3) == 0 && Previous(g1, 1, 2, 4) == 3 &&
            Previous(g2, 1, 2, 0) == 4 && Previous(g3, 1, 2, 0) == 0
  {
  }

  /** A self-loop is both a target and a source of its vertex. */
  lemma SelfLoop<L(!new)>(a: L)
    ensures Targets(SetEdge(Empty(), a, a, 3), a) == map[a := 3]
    ensures Sources(SetEdge(Empty(), a, a, 3), a) == map[a := 3]
    ensures SetEdge(Empty(), a, a, 3).vertices == {a}
  {
    var g := SetEdge(Empty(), a, a, 3);
    assert g.edges == map[(a, a) := 3];
  }

  /** The empty graph has no vertices, sources or targets. */
  lemma EmptyQueries<L(!new)>(x: L)
    ensures Valid(Empty<L>())
    ensures Sources(Empty<L>(), x) == map[] && Targets(Empty<L>(), x) == map[]
  {
  }

  /** Removing the middle vertex of v1 -> v2 -> v3 leaves v1 without targets
      and v3 without sources. */
  lemma RemoveMiddle<L(!new)>(v1: L, v2: L, v3: L)
    requires v1 != v2 && v2 != v3
    ensures var g := Remove(SetEdge(SetEdge(Empty(), v1, v2, 1), v2, v3, 1), v2);
            Targets(g, v1) == map[] && Sources(g, v3) == map[]
  {
  }
}
