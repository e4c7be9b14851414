/**
 * ConcreteEdgesGraph: a graph stored as a set of vertex labels plus a list of
 * immutable Edge(source, target, weight) records. Its abstraction function maps
 * the list to the pair -> weight map of module Graphs.
 */
module EdgesGraph {
  import opened Graphs

  /** The representation invariant of an Edge: its weight is positive. */
  type Positive = w: int | w > 0 witness 1

  /** An immutable directed edge source -> target. The endpoints need not be
      vertices of any graph; the graph's own invariant sees to that. */
  datatype Edge<L> = Edge(source: L, target: L, weight: Positive)
  {
    /** The ordered pair of vertices the edge joins (what `isSame` compares). */
    function Key(): (L, L)
    {
      (source, target)
    }
  }

  /** At most one edge per ordered (source, target) pair. */
  ghost predicate NoDuplicates<L>(es: seq<Edge<L>>)
  {
    forall i, j :: 0 <= i < j < |es| ==> es[i].Key() != es[j].Key()
  }

  /** The weight map an edge list denotes; a later edge with the same pair
      overrides an earlier one, as repeated `HashMap.put` calls do. */
  ghost function EdgeMap<L>(es: seq<Edge<L>>): map<(L, L), int>
  {
    if es == [] then map[]
    else
      var e := es[|es| - 1];
      EdgeMap(es[..|es| - 1])[e.Key() := e.weight]
  }

  /** Every edge's pair is a key of the map. */
  lemma {:induction false} EdgeMapHas<L>(es: seq<Edge<L>>, j: int)
    requires 0 <= j < |es|
    ensures es[j].Key() in EdgeMap(es)
  {
    if j < |es| - 1 {
      EdgeMapHas(es[..|es| - 1], j);
    }
  }

  /** Every key of the map comes from an edge of the list, whose weight it
      carries. */
  lemma {:induction false} EdgeMapWitness<L>(es: seq<Edge<L>>, k: (L, L)) returns (i: int)
    requires k in EdgeMap(es)
    ensures 0 <= i < |es| && es[i].Key() == k && EdgeMap(es)[k] == es[i].weight
  {
    var e := es[|es| - 1];
    if k == e.Key() {
      i := |es| - 1;
    } else {
      i := EdgeMapWitness(es[..|es| - 1], k);
    }
  }

  /** Without duplicates, every edge's own weight is the one the map keeps. */
  lemma EdgeMapAt<L>(es: seq<Edge<L>>, j: int)
    requires NoDuplicates(es) && 0 <= j < |es|
    ensures es[j].Key() in EdgeMap(es) && EdgeMap(es)[es[j].Key()] == es[j].weight
  {
    EdgeMapHas(es, j);
    var i := EdgeMapWitness(es, es[j].Key());
    assert i == j;
  }

  /** The map of a concatenation is the right-biased union of the maps. */
  lemma {:induction false} EdgeMapAppend<L>(a: seq<Edge<L>>, b: seq<Edge<L>>)
    ensures EdgeMap(a + b) == EdgeMap(a) + EdgeMap(b)
  {
    if b == [] {
      assert a + b == a;
    } else {
      var b' := b[..|b| - 1];
      var e := b[|b| - 1];
      assert (a + b)[..|a + b| - 1] == a + b';
      assert (a + b)[|a + b| - 1] == e;
      EdgeMapAppend(a, b');
    }
  }

  /** Appending an edge whose pair is not yet a key keeps the list
      duplicate-free and writes exactly that key. */
  lemma AppendFresh<L>(es: seq<Edge<L>>, e: Edge<L>)
    requires NoDuplicates(es) && e.Key() !in EdgeMap(es)
    ensures NoDuplicates(es + [e])
    ensures EdgeMap(es + [e]) == EdgeMap(es)[e.Key() := e.weight]
  {
    assert (es + [e])[..|es|] == es;
    forall i | 0 <= i < |es| ensures es[i].Key() != e.Key() {
      EdgeMapHas(es, i);
    }
  }

  /** Deleting position j from a duplicate-free list keeps it duplicate-free. */
  lemma NoDuplicatesRemoveAt<L>(es: seq<Edge<L>>, j: int)
    requires NoDuplicates(es) && 0 <= j < |es|
    ensures NoDuplicates(es[..j] + es[j + 1..])
  {
    var r := es[..j] + es[j + 1..];
    forall x, y | 0 <= x < y < |r| ensures r[x].Key() != r[y].Key() {
      var x' := if x < j then x else x + 1;
      var y' := if y < j then y else y + 1;
      assert r[x] == es[x'] && r[y] == es[y'];
    }
  }

  /** In a duplicate-free list, the pair of position j is not a key of the
      part before it nor of the part after it. */
  lemma KeyNotElsewhere<L>(es: seq<Edge<L>>, j: int)
    requires NoDuplicates(es) && 0 <= j < |es|
    ensures es[j].Key() !in EdgeMap(es[..j]) && es[j].Key() !in EdgeMap(es[j + 1..])
  {
    var k := es[j].Key();
    if k in EdgeMap(es[..j]) {
      var i := EdgeMapWitness(es[..j], k);
    }
    if k in EdgeMap(es[j + 1..]) {
      var i := EdgeMapWitness(es[j + 1..], k);
    }
  }

  /** Deleting the edge at position j from a duplicate-free list deletes its
      pair from the map. */
  lemma EdgeMapRemoveAt<L>(es: seq<Edge<L>>, j: int)
    requires NoDuplicates(es) && 0 <= j < |es|
    ensures EdgeMap(es[..j] + es[j + 1..]) == EdgeMap(es) - {es[j].Key()}
  {
    var a, x, b := es[..j], es[j], es[j + 1..];
    var k := x.Key();
    assert es == (a + [x]) + b;
    EdgeMapAppend(a + [x], b);
    assert (a + [x])[..|a|] == a;
    assert EdgeMap(a + [x]) == EdgeMap(a)[k := x.weight];
    assert EdgeMap(es) == EdgeMap(a)[k := x.weight] + EdgeMap(b);
    EdgeMapAppend(a, b);
    KeyNotElsewhere(es, j);
    MapWriteThenDelete(EdgeMap(a), EdgeMap(b), k, x.weight);
  }

  /** Map fact behind EdgeMapRemoveAt. */
  lemma MapWriteThenDelete<K, V>(a: map<K, V>, b: map<K, V>, k: K, w: V)
    requires k !in a && k !in b
    ensures (a[k := w] + b) - {k} == a + b
  {
  }

  /** `findEdgesBySource`: the edges leaving v, in list order. */
  function BySource<L(==,!new)>(es: seq<Edge<L>>, v: L): (r: seq<Edge<L>>)
    ensures forall e :: e in r <==> e in es && e.source == v
  {
    if es == [] then []
    else
      var e := es[|es| - 1];
      assert es == es[..|es| - 1] + [e];
      BySource(es[..|es| - 1], v) + (if e.source == v then [e] else [])
  }

  /** `findEdgesByTarget`: the edges entering v, in list order. */
  function ByTarget<L(==,!new)>(es: seq<Edge<L>>, v: L): (r: seq<Edge<L>>)
    ensures forall e :: e in r <==> e in es && e.target == v
  {
    if es == [] then []
    else
      var e := es[|es| - 1];
      assert es == es[..|es| - 1] + [e];
      ByTarget(es[..|es| - 1], v) + (if e.target == v then [e] else [])
  }

  /** `List.removeAll(rm)`: the elements of es not in rm, in list order. */
  function RemoveAll<T(==,!new)>(es: seq<T>, rm: seq<T>): (r: seq<T>)
    ensures forall e :: e in r <==> e in es && e !in rm
  {
    if es == [] then []
    else
      var e := es[|es| - 1];
      assert es == es[..|es| - 1] + [e];
      RemoveAll(es[..|es| - 1], rm) + (if e in rm then [] else [e])
  }

  /** `List.remove(x)`: es without its first element equal to x. */
  function RemoveFirst<T(==)>(es: seq<T>, x: T): (r: seq<T>)
    ensures x !in es ==> r == es
  {
    if es == [] then []
    else if es[0] == x then es[1..]
    else [es[0]] + RemoveFirst(es[1..], x)
  }

  /** When position j holds the first occurrence of x, removing x removes
      exactly that position. */
  lemma {:induction false} RemoveFirstAt<T>(es: seq<T>, x: T, j: int)
    requires 0 <= j < |es| && es[j] == x
    requires forall i :: 0 <= i < j ==> es[i] != x
    ensures RemoveFirst(es, x) == es[..j] + es[j + 1..]
  {
    if j > 0 {
      RemoveFirstAt(es[1..], x, j - 1);
      assert es[1..][..j - 1] == es[1..j];
      assert es[1..][j..] == es[j + 1..];
      assert [es[0]] + es[1..j] == es[..j];
    }
  }

  /** Filtering a duplicate-free list keeps it duplicate-free. */
  lemma {:induction false} NoDuplicatesRemoveAll<L(!new)>(es: seq<Edge<L>>, rm: seq<Edge<L>>)
    requires NoDuplicates(es)
    ensures NoDuplicates(RemoveAll(es, rm))
  {
    if es != [] {
      var init, e := es[..|es| - 1], es[|es| - 1];
      assert es == init + [e];
      NoDuplicatesRemoveAll(init, rm);
      var kept := RemoveAll(init, rm);
      if e !in rm {
        assert RemoveAll(es, rm) == kept + [e];
        forall x | 0 <= x < |kept| ensures kept[x].Key() != e.Key() {
          assert kept[x] in init;
        }
      }
    }
  }

  /** Removing every edge incident to v, when rm holds exactly those edges,
      produces the map of Graphs.Remove. */
  lemma {:induction false} RemoveIncident<L(!new)>(vs: set<L>, es: seq<Edge<L>>, rm: seq<Edge<L>>, v: L)
    requires forall e :: e in es ==> (e in rm <==> e.source == v || e.target == v)
    ensures EdgeMap(RemoveAll(es, rm)) == Graphs.Remove(Graph(vs, EdgeMap(es)), v).edges
  {
    if es != [] {
      var init, e := es[..|es| - 1], es[|es| - 1];
      assert es == init + [e];
      forall f | f in init ensures f in rm <==> f.source == v || f.target == v {
        assert f in es;
      }
      RemoveIncident(vs, init, rm, v);
      var kept := RemoveAll(init, rm);
      RemoveAfterWrite(Graph(vs, EdgeMap(init)), e.Key(), e.weight, v);
      if e !in rm {
        assert RemoveAll(es, rm) == kept + [e];
        assert (kept + [e])[..|kept|] == kept;
      } else {
        assert RemoveAll(es, rm) == kept;
      }
    }
  }

  /** Every endpoint of every edge is one of the vertices. */
  ghost predicate EndpointsIn<L>(vs: set<L>, es: seq<Edge<L>>)
  {
    forall i :: 0 <= i < |es| ==> es[i].source in vs && es[i].target in vs
  }

  /** What `remove` does to a valid edge list when v is a vertex: dropping
      the edges found by source and by target leaves a duplicate-free list
      whose endpoints are the other vertices, which holds exactly the edges
      not touching v and denotes the edges of Graphs.Remove. */
  lemma RemoveIncidentEdges<L(!new)>(vs: set<L>, es: seq<Edge<L>>, v: L)
    requires NoDuplicates(es) && EndpointsIn(vs, es)
    ensures var rest := RemoveAll(es, BySource(es, v) + ByTarget(es, v));
            && NoDuplicates(rest)
            && EndpointsIn(vs - {v}, rest)
            && EdgeMap(rest) == Graphs.Remove(Graph(vs, EdgeMap(es)), v).edges
            && forall e :: e in rest <==> e in es && e.source != v && e.target != v
  {
    var rm := BySource(es, v) + ByTarget(es, v);
    var rest := RemoveAll(es, rm);
    assert forall e :: e in rm <==> e in es && (e.source == v || e.target == v);
    RemoveIncident(vs, es, rm, v);
    NoDuplicatesRemoveAll(es, rm);
    forall i | 0 <= i < |rest| ensures rest[i].source in vs - {v} && rest[i].target in vs - {v} {
      assert rest[i] in es;
    }
  }

  /** `remove` of a label that is not a vertex: no edge touches it, so the
      graph is its own Graphs.Remove. */
  lemma RemoveNonVertex<L(!new)>(vs: set<L>, es: seq<Edge<L>>, v: L)
    requires EndpointsIn(vs, es) && v !in vs
    ensures Graphs.Remove(Graph(vs, EdgeMap(es)), v) == Graph(vs, EdgeMap(es))
    ensures forall e :: e in es ==> e.source != v && e.target != v
  {
    forall k | k in EdgeMap(es) ensures k.0 != v && k.1 != v {
      var i := EdgeMapWitness(es, k);
    }
  }

  class ConcreteEdgesGraph<L(==,!new)> {
    var vertices: set<L>
    var edges: seq<Edge<L>>

    /** No two edges share an ordered pair and every endpoint is a vertex
        (positive weights are built into Edge). */
    ghost predicate Valid()
      reads this
    {
      && NoDuplicates(edges)
      && EndpointsIn(vertices, edges)
    }

    /** Abstraction function. */
    ghost function Model(): (g: Graph<L>)
      reads this
      ensures Valid() ==> Graphs.Valid(g)
    {
      var g := Graph(vertices, EdgeMap(edges));
      assert Valid() ==> Graphs.Valid(g) by {
        if Valid() {
          forall k | k in g.edges ensures g.edges[k] > 0 && k.0 in vertices && k.1 in vertices {
            var i := EdgeMapWitness(edges, k);
          }
        }
      }
      g
    }

    constructor ()
      ensures Valid() && Model() == Empty() && edges == []
    {
      vertices := {};
      edges := [];
    }

    /** `add`: true iff the vertex was new; edges are untouched. */
    method Add(vertex: L) returns (result: bool)
      requires Valid()
      modifies this
      ensures Valid()
      ensures result == (vertex !in old(vertices))
      ensures Model() == Graphs.Add(old(Model()), vertex)
      ensures edges == old(edges)
    {
      result := false;
      if vertex !in vertices {
        vertices := vertices + {vertex};
        result := true;
      }
    }

    /** `set`: returns the previous weight; 0 deletes, a positive weight writes
        (a new edge goes at the end of the list, a rewritten one moves there). */
    method Set(source: L, target: L, weight: int) returns (previous: int)
      requires Valid() && weight >= 0
      modifies this
      ensures Valid()
      ensures previous == Previous(old(Model()), source, target, weight)
      ensures Model() == SetEdge(old(Model()), source, target, weight)
      ensures weight > 0 ==> edges[|edges| - 1] == Edge(source, target, weight)
      ensures weight == 0 && (source, target) !in old(Model()).edges ==> edges == old(edges)
    {
      ghost var g := Model();
      var inGraph := IsEdgeInGraph(source, target);
      if weight == 0 {
        if inGraph {
          var edgeToSet := FindEdge(source, target);
          previous := edgeToSet.weight;
          DropEdge(edgeToSet);
        } else {
          previous := 0;
        }
      } else {
        if inGraph {
          var edgeToSet := FindEdge(source, target);
          previous := edgeToSet.weight;
          DropEdge(edgeToSet);
          assert source in vertices && target in vertices;
          AppendEdge(Edge(source, target, weight));
          assert vertices == g.vertices + {source, target};
          assert EdgeMap(edges) == (g.edges - {(source, target)})[(source, target) := weight];
        } else {
          var _ := Add(source);
          var _ := Add(target);
          AppendEdge(Edge(source, target, weight));
          previous := 0;
        }
      }
    }

    /** `edges.add(edge)` for an edge whose pair is new and whose endpoints
        are vertices: the edge ends the list and its pair gets its weight. */
    method AppendEdge(edge: Edge<L>)
      requires Valid() && edge.source in vertices && edge.target in vertices
      requires edge.Key() !in EdgeMap(edges)
      modifies this
      ensures Valid() && vertices == old(vertices)
      ensures edges == old(edges) + [edge]
      ensures EdgeMap(edges) == old(EdgeMap(edges))[edge.Key() := edge.weight]
    {
      AppendFresh(edges, edge);
      edges := edges + [edge];
    }

    /** `edges.remove(edge)` on an edge of the list: it goes and nothing else
        changes. */
    method DropEdge(edge: Edge<L>)
      requires Valid() && edge in edges
      modifies this
      ensures Valid() && vertices == old(vertices)
      ensures edge.Key() !in EdgeMap(edges)
      ensures EdgeMap(edges) == old(EdgeMap(edges)) - {edge.Key()}
    {
      ghost var j :| 0 <= j < |edges| && edges[j] == edge;
      RemoveFirstAt(edges, edge, j);
      NoDuplicatesRemoveAt(edges, j);
      EdgeMapRemoveAt(edges, j);
      edges := RemoveFirst(edges, edge);
    }

    /** `isEdgeInGraph`: whether some edge joins source to target. */
    method IsEdgeInGraph(source: L, target: L) returns (found: bool)
      ensures found <==> (source, target) in Model().edges
    {
      var i := 0;
      while i < |edges|
        invariant 0 <= i <= |edges|
        invariant forall j :: 0 <= j < i ==> edges[j].Key() != (source, target)
      {
        if edges[i].source == source && edges[i].target == target {
          EdgeMapHas(edges, i);
          return true;
        }
        i := i + 1;
      }
      if (source, target) in EdgeMap(edges) {
        var j := EdgeMapWitness(edges, (source, target));
      }
      return false;
    }

    /** `findEdge`, on an edge that is present: the list's edge for that pair. */
    method FindEdge(source: L, target: L) returns (edge: Edge<L>)
      requires Valid() && (source, target) in Model().edges
      ensures edge in edges && edge.Key() == (source, target)
      ensures edge.weight == Model().edges[(source, target)]
    {
      var i := 0;
      while i < |edges|
        invariant 0 <= i <= |edges|
        invariant forall j :: 0 <= j < i ==> edges[j].Key() != (source, target)
      {
        if edges[i].source == source && edges[i].target == target {
          EdgeMapAt(edges, i);
          return edges[i];
        }
        i := i + 1;
      }
      var j := EdgeMapWitness(edges, (source, target));
      assert false;
    }

    /** `remove`: true iff the vertex was present; it and every incident edge
        go, the other edges stay in their order. */
    method Remove(vertex: L) returns (result: bool)
      requires Valid()
      modifies this
      ensures Valid()
      ensures result == (vertex in old(vertices))
      ensures Model() == Graphs.Remove(old(Model()), vertex)
      ensures forall e :: e in edges <==> e in old(edges) && e.source != vertex && e.target != vertex
    {
      result := false;
      if vertex in vertices {
        ghost var vs := vertices;
        vertices := vertices - {vertex};
        var edgesForRemove := FindEdgesBySource(vertex);
        var byTarget := FindEdgesByTarget(vertex);
        edgesForRemove := edgesForRemove + byTarget;
        RemoveIncidentEdges(vs, edges, vertex);
        edges := RemoveAll(edges, edgesForRemove);
        result := true;
      } else {
        RemoveNonVertex(vertices, edges, vertex);
      }
    }

    /** `findEdgesBySource`. */
    method FindEdgesBySource(source: L) returns (result: seq<Edge<L>>)
      ensures result == BySource(edges, source)
    {
      result := [];
      var i := 0;
      while i < |edges|
        invariant 0 <= i <= |edges|
        invariant result == BySource(edges[..i], source)
      {
        assert edges[..i + 1][..i] == edges[..i];
        if edges[i].source == source {
          result := result + [edges[i]];
        }
        i := i + 1;
      }
      assert edges[..i] == edges;
    }

    /** `findEdgesByTarget`. */
    method FindEdgesByTarget(target: L) returns (result: seq<Edge<L>>)
      ensures result == ByTarget(edges, target)
    {
      result := [];
      var i := 0;
      while i < |edges|
        invariant 0 <= i <= |edges|
        invariant result == ByTarget(edges[..i], target)
      {
        assert edges[..i + 1][..i] == edges[..i];
        if edges[i].target == target {
          result := result + [edges[i]];
        }
        i := i + 1;
      }
      assert edges[..i] == edges;
    }

    /** `vertices`: a snapshot of the vertex set. */
    method Vertices() returns (result: set<L>)
      ensures result == Model().vertices
    {
      result := vertices;
    }

    /** `sources`: the edge list filtered on target, keyed by source. */
    method Sources(target: L) returns (result: map<L, int>)
      ensures result == Graphs.Sources(Model(), target)
    {
      result := map[];
      var i := 0;
      while i < |edges|
        invariant 0 <= i <= |edges|
        invariant result == Graphs.Sources(Graph(vertices, EdgeMap(edges[..i])), target)
      {
        assert edges[..i + 1][..i] == edges[..i];
        SourcesAfterWrite(Graph(vertices, EdgeMap(edges[..i])), edges[i].Key(), edges[i].weight, target);
        if edges[i].target == target {
          result := result[edges[i].source := edges[i].weight];
        }
        i := i + 1;
      }
      assert edges[..i] == edges;
    }

    /** `targets`: the edge list filtered on source, keyed by target. */
    method Targets(source: L) returns (result: map<L, int>)
      ensures result == Graphs.Targets(Model(), source)
    {
      result := map[];
      var i := 0;
      while i < |edges|
        invariant 0 <= i <= |edges|
        invariant result == Graphs.Targets(Graph(vertices, EdgeMap(edges[..i])), source)
      {
        assert edges[..i + 1][..i] == edges[..i];
        TargetsAfterWrite(Graph(vertices, EdgeMap(edges[..i])), edges[i].Key(), edges[i].weight, source);
        if edges[i].source == source {
          result := result[edges[i].target := edges[i].weight];
        }
        i := i + 1;
      }
      assert edges[..i] == edges;
    }

    /** `isEdgeNotDuplicate`: no two positions of the list hold the same pair
        (compared by value). */
    method IsEdgeNotDuplicate() returns (result: bool)
      ensures result <==> NoDuplicates(edges)
    {
      if |edges| > 1 {
        var i := 0;
        while i < |edges|
          invariant 0 <= i <= |edges|
          invariant forall x, y :: 0 <= x < |edges| && 0 <= y < |edges| && x != y && (x < i || y < i) ==> edges[x].Key() != edges[y].Key()
        {
          var j := 0;
          while j < |edges|
            invariant 0 <= j <= |edges|
            invariant forall x, y :: 0 <= x < |edges| && 0 <= y < |edges| && x != y && (x < i || y < i) ==> edges[x].Key() != edges[y].Key()
            invariant forall y :: 0 <= y < j && y != i ==> edges[i].Key() != edges[y].Key()
          {
            if i != j && edges[i].source == edges[j].source && edges[i].target == edges[j].target {
              return false;
            }
            j := j + 1;
          }
          i := i + 1;
        }
      }
      return true;
    }
  }
}
