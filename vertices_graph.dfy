/**
 * ConcreteVerticesGraph: a graph stored as a list of mutable Vertex records,
 * each holding its name and its outgoing target -> weight map. The value view
 * of the list is a sequence of Rows; its abstraction is a Graphs.Graph.
 */
module VerticesGraph {
  import opened Graphs

  /** The value held by one Vertex record at a given moment. */
  datatype Row<L> = Row(name: L, targets: map<L, int>)

  /** The labels of the records. */
  ghost function Names<L>(rows: seq<Row<L>>): set<L>
  {
    if rows == [] then {} else Names(rows[..|rows| - 1]) + {rows[|rows| - 1].name}
  }

  /** Every record's name is one of the names. */
  lemma {:induction false} NameAt<L>(rows: seq<Row<L>>, i: int)
    requires 0 <= i < |rows|
    ensures rows[i].name in Names(rows)
  {
    if i < |rows| - 1 {
      var init := rows[..|rows| - 1];
      assert init[i] == rows[i];
      NameAt(init, i);
    }
  }

  /** Every name is the name of some record. */
  lemma {:induction false} NameWitness<L>(rows: seq<Row<L>>, x: L) returns (i: int)
    requires x in Names(rows)
    ensures 0 <= i < |rows| && rows[i].name == x
  {
    var init := rows[..|rows| - 1];
    if rows[|rows| - 1].name == x {
      i := |rows| - 1;
    } else {
      i := NameWitness(init, x);
      assert init[i] == rows[i];
    }
  }

  /** Records with the same names position by position have the same names. */
  lemma {:induction false} SameNames<L>(a: seq<Row<L>>, b: seq<Row<L>>)
    requires |a| == |b| && forall i :: 0 <= i < |a| ==> a[i].name == b[i].name
    ensures Names(a) == Names(b)
  {
    if a != [] {
      var a', b' := a[..|a| - 1], b[..|b| - 1];
      assert forall i :: 0 <= i < |a'| ==> a'[i] == a[i] && b'[i] == b[i];
      SameNames(a', b');
    }
  }

  /** A label no record carries is not a name. */
  lemma {:induction false} NotNamed<L>(rows: seq<Row<L>>, x: L)
    requires forall i :: 0 <= i < |rows| ==> rows[i].name != x
    ensures x !in Names(rows)
  {
    if rows != [] {
      var init := rows[..|rows| - 1];
      assert forall i :: 0 <= i < |init| ==> init[i] == rows[i];
      NotNamed(init, x);
    }
  }

  /** No two records carry the same name (what `isVerticesNotDuplicate` checks). */
  ghost predicate DistinctNames<L>(rows: seq<Row<L>>)
  {
    forall i, j :: 0 <= i < j < |rows| ==> rows[i].name != rows[j].name
  }

  /** Every weight in an outgoing map is positive. */
  ghost predicate PositiveWeights<L>(m: map<L, int>)
  {
    forall t :: t in m ==> m[t] > 0
  }

  /** The representation invariant: distinct names, positive weights, and
      every target is itself the name of a record. */
  ghost predicate RowsValid<L>(rows: seq<Row<L>>)
  {
    && DistinctNames(rows)
    && forall i :: 0 <= i < |rows| ==> PositiveWeights(rows[i].targets) && rows[i].targets.Keys <= Names(rows)
  }

  /** The outgoing map of the record named n: the last such record, as the
      scan in `targets` keeps overwriting its result; empty when none. */
  ghost function OutOf<L>(rows: seq<Row<L>>, n: L): map<L, int>
  {
    if rows == [] then map[]
    else if rows[|rows| - 1].name == n then rows[|rows| - 1].targets
    else OutOf(rows[..|rows| - 1], n)
  }

  /** The ordered pairs the records denote. */
  ghost function Pairs<L(!new)>(rows: seq<Row<L>>): (r: set<(L, L)>)
    ensures forall p :: p in r <==> p.0 in Names(rows) && p.1 in OutOf(rows, p.0)
  {
    var r := set n, t | n in Names(rows) && t in OutOf(rows, n) :: (n, t);
    assert forall p: (L, L) :: p.0 in Names(rows) && p.1 in OutOf(rows, p.0) ==> p in r by {
      forall p: (L, L) | p.0 in Names(rows) && p.1 in OutOf(rows, p.0) ensures p in r {
        assert p == (p.0, p.1);
      }
    }
    r
  }

  /** Abstraction function of the value view. */
  ghost function RowsModel<L(!new)>(rows: seq<Row<L>>): Graph<L>
  {
    Graph(Names(rows), map p | p in Pairs(rows) :: OutOf(rows, p.0)[p.1])
  }

  /** Valid records denote a valid graph. */
  lemma RowsModelValid<L(!new)>(rows: seq<Row<L>>)
    requires RowsValid(rows)
    ensures Graphs.Valid(RowsModel(rows))
  {
    forall p | p in RowsModel(rows).edges
      ensures RowsModel(rows).edges[p] > 0 && p.0 in Names(rows) && p.1 in Names(rows)
    {
      assert p in Pairs(rows);
      var i := NameWitness(rows, p.0);
      OutOfAt(rows, i);
      assert p.1 in rows[i].targets;
      assert rows[i].targets[p.1] > 0;
      assert RowsModel(rows).edges[p] == rows[i].targets[p.1];
    }
  }

  /** A label that names no record has no outgoing map. */
  lemma {:induction false} OutOfAbsent<L>(rows: seq<Row<L>>, n: L)
    requires n !in Names(rows)
    ensures OutOf(rows, n) == map[]
  {
    if rows != [] {
      OutOfAbsent(rows[..|rows| - 1], n);
    }
  }

  /** With distinct names, the outgoing map of record k's name is record k's. */
  lemma {:induction false} OutOfAt<L>(rows: seq<Row<L>>, k: int)
    requires DistinctNames(rows) && 0 <= k < |rows|
    ensures OutOf(rows, rows[k].name) == rows[k].targets
  {
    if k < |rows| - 1 {
      var init := rows[..|rows| - 1];
      assert init[k] == rows[k];
      OutOfAt(init, k);
    }
  }

  /** Targets in the abstraction are exactly the outgoing maps. */
  lemma RowsTargets<L(!new)>(rows: seq<Row<L>>, n: L)
    ensures Targets(RowsModel(rows), n) == OutOf(rows, n)
  {
    if n !in Names(rows) {
      OutOfAbsent(rows, n);
    }
  }

  /** A graph with the records' names as vertices and their outgoing maps as
      targets is the abstraction of the records. */
  lemma ModelFromTargets<L(!new)>(rows: seq<Row<L>>, g: Graph<L>)
    requires Names(rows) == g.vertices
    requires forall n :: OutOf(rows, n) == Targets(g, n)
    ensures RowsModel(rows) == g
  {
    forall n ensures Targets(RowsModel(rows), n) == Targets(g, n) {
      RowsTargets(rows, n);
    }
    EqualByTargets(RowsModel(rows), g);
  }

  /** Appending a record: its name joins the names, its map is that name's. */
  lemma AppendRow<L>(rows: seq<Row<L>>, r: Row<L>, n: L)
    ensures Names(rows + [r]) == Names(rows) + {r.name}
    ensures OutOf(rows + [r], n) == if n == r.name then r.targets else OutOf(rows, n)
  {
    var rs := rows + [r];
    assert rs[..|rows|] == rows;
  }

  /** Replacing record k's map: only that name's outgoing map changes. */
  lemma ReplaceRow<L>(rows: seq<Row<L>>, k: int, m: map<L, int>, n: L)
    requires DistinctNames(rows) && 0 <= k < |rows|
    ensures Names(rows[k := Row(rows[k].name, m)]) == Names(rows)
    ensures DistinctNames(rows[k := Row(rows[k].name, m)])
    ensures OutOf(rows[k := Row(rows[k].name, m)], n) == if n == rows[k].name then m else OutOf(rows, n)
  {
    var rs := rows[k := Row(rows[k].name, m)];
    SameNames(rs, rows);
    if n == rows[k].name {
      OutOfAt(rs, k);
    } else if n in Names(rows) {
      var i := NameWitness(rows, n);
      OutOfAt(rs, i);
      OutOfAt(rows, i);
    } else {
      OutOfAbsent(rs, n);
      OutOfAbsent(rows, n);
    }
  }

  /** The names of a concatenation. */
  lemma {:induction false} NamesAppend<L>(a: seq<Row<L>>, b: seq<Row<L>>)
    ensures Names(a + b) == Names(a) + Names(b)
  {
    if b == [] {
      assert a + b == a;
    } else {
      assert (a + b)[..|a + b| - 1] == a + b[..|b| - 1];
      NamesAppend(a, b[..|b| - 1]);
    }
  }

  /** The names around position k. */
  lemma NamesSplit<L>(rows: seq<Row<L>>, k: int)
    requires 0 <= k < |rows|
    ensures Names(rows) == Names(rows[..k]) + {rows[k].name} + Names(rows[k + 1..])
  {
    assert rows[..k + 1] + rows[k + 1..] == rows;
    NamesAppend(rows[..k + 1], rows[k + 1..]);
    assert rows[..k + 1][..k] == rows[..k];
  }

  /** With distinct names, record k's name occurs nowhere else. */
  lemma NameOnlyAt<L>(rows: seq<Row<L>>, k: int)
    requires DistinctNames(rows) && 0 <= k < |rows|
    ensures rows[k].name !in Names(rows[..k]) && rows[k].name !in Names(rows[k + 1..])
  {
    var pre, post := rows[..k], rows[k + 1..];
    assert forall i :: 0 <= i < |pre| ==> pre[i] == rows[i];
    assert forall i :: 0 <= i < |post| ==> post[i] == rows[k + 1 + i];
    NotNamed(pre, rows[k].name);
    NotNamed(post, rows[k].name);
  }

  /** Deleting record k: its name goes, the others stay distinct. */
  lemma DeleteNames<L>(rows: seq<Row<L>>, k: int)
    requires DistinctNames(rows) && 0 <= k < |rows|
    ensures Names(rows[..k] + rows[k + 1..]) == Names(rows) - {rows[k].name}
    ensures DistinctNames(rows[..k] + rows[k + 1..])
  {
    NamesSplit(rows, k);
    NamesAppend(rows[..k], rows[k + 1..]);
    NameOnlyAt(rows, k);
    DeleteDistinct(rows, k);
  }

  /** Deleting a record keeps the names distinct. */
  lemma DeleteDistinct<L>(rows: seq<Row<L>>, k: int)
    requires DistinctNames(rows) && 0 <= k < |rows|
    ensures DistinctNames(rows[..k] + rows[k + 1..])
  {
    var rs := rows[..k] + rows[k + 1..];
    forall i, j | 0 <= i < j < |rs| ensures rs[i].name != rs[j].name {
      var i', j' := if i < k then i else i + 1, if j < k then j else j + 1;
      assert rs[i] == rows[i'] && rs[j] == rows[j'];
    }
  }

  /** Deleting record k: its name has no outgoing map any more and every
      other name keeps its map. */
  lemma DeleteRow<L>(rows: seq<Row<L>>, k: int, n: L)
    requires DistinctNames(rows) && 0 <= k < |rows|
    ensures OutOf(rows[..k] + rows[k + 1..], n) == if n == rows[k].name then map[] else OutOf(rows, n)
  {
    var rs := rows[..k] + rows[k + 1..];
    DeleteNames(rows, k);
    if n in Names(rs) {
      var i := NameWitness(rs, n);
      var i' := if i < k then i else i + 1;
      assert rs[i] == rows[i'];
      OutOfAt(rs, i);
      OutOfAt(rows, i');
    } else {
      OutOfAbsent(rs, n);
      if n != rows[k].name {
        OutOfAbsent(rows, n);
      }
    }
  }

  /** What the scan in `sources` builds: each record listing t contributes
      its name and the weight of its edge to t. */
  ghost function SourcesOf<L>(rows: seq<Row<L>>, t: L): map<L, int>
  {
    if rows == [] then map[]
    else
      var r := rows[|rows| - 1];
      var m := SourcesOf(rows[..|rows| - 1], t);
      if t in r.targets then m[r.name := r.targets[t]] else m
  }

  /** With distinct names, the scan finds s exactly when s's outgoing map
      holds t, with that weight. */
  lemma {:induction false} SourcesOfAt<L>(rows: seq<Row<L>>, t: L, s: L)
    requires DistinctNames(rows)
    ensures s in SourcesOf(rows, t) <==> s in Names(rows) && t in OutOf(rows, s)
    ensures s in SourcesOf(rows, t) ==> SourcesOf(rows, t)[s] == OutOf(rows, s)[t]
  {
    if rows != [] {
      var init, r := rows[..|rows| - 1], rows[|rows| - 1];
      assert rows == init + [r];
      AppendRow(init, r, s);
      SourcesOfAt(init, t, s);
      assert forall i :: 0 <= i < |init| ==> init[i] == rows[i];
      NotNamed(init, r.name);
    }
  }

  /** The scan of `sources` computes the abstract sources. */
  lemma SourcesOfModel<L(!new)>(rows: seq<Row<L>>, t: L)
    requires DistinctNames(rows)
    ensures SourcesOf(rows, t) == Sources(RowsModel(rows), t)
  {
    forall s ensures (s in SourcesOf(rows, t) <==> s in Sources(RowsModel(rows), t))
      && (s in SourcesOf(rows, t) ==> SourcesOf(rows, t)[s] == Sources(RowsModel(rows), t)[s])
    {
      SourcesOfAt(rows, t, s);
    }
  }

  /** Dropping one label from every outgoing map leaves the names alone and
      drops it from each name's outgoing map. */
  lemma StripRows<L>(rows: seq<Row<L>>, v: L, mid: seq<Row<L>>, n: L)
    requires DistinctNames(rows) && |mid| == |rows|
    requires forall j :: 0 <= j < |rows| ==> mid[j] == Row(rows[j].name, rows[j].targets - {v})
    ensures Names(mid) == Names(rows) && DistinctNames(mid)
    ensures OutOf(mid, n) == OutOf(rows, n) - {v}
  {
    SameNames(mid, rows);
    if n in Names(rows) {
      var i := NameWitness(rows, n);
      OutOfAt(mid, i);
      OutOfAt(rows, i);
    } else {
      OutOfAbsent(mid, n);
      OutOfAbsent(rows, n);
    }
  }

  /** The outgoing map record i holds after `setTarget(target, weight)`. */
  function Written<L>(m: map<L, int>, target: L, weight: int): map<L, int>
  {
    if weight == 0 then m - {target} else m[target := weight]
  }

  /** Writing into record i changes the outgoing map of its name only, as
      SetEdge changes the targets of the source only. */
  lemma WriteRowTargets<L(!new)>(rows: seq<Row<L>>, i: int, target: L, weight: int, n: L)
    requires DistinctNames(rows) && 0 <= i < |rows| && weight >= 0
    ensures OutOf(rows[i := Row(rows[i].name, Written(rows[i].targets, target, weight))], n)
         == Targets(SetEdge(RowsModel(rows), rows[i].name, target, weight), n)
  {
    ReplaceRow(rows, i, Written(rows[i].targets, target, weight), n);
    TargetsAfterSet(RowsModel(rows), rows[i].name, target, weight, n);
    RowsTargets(rows, n);
    OutOfAt(rows, i);
  }

  /** Writing a positive weight to a target that is a name keeps the records
      valid, and so does deleting a target. */
  lemma WriteRowValid<L>(rows: seq<Row<L>>, i: int, target: L, weight: int)
    requires RowsValid(rows) && 0 <= i < |rows| && weight >= 0
    requires weight > 0 ==> target in Names(rows)
    ensures RowsValid(rows[i := Row(rows[i].name, Written(rows[i].targets, target, weight))])
  {
    var rs := rows[i := Row(rows[i].name, Written(rows[i].targets, target, weight))];
    ReplaceRow(rows, i, Written(rows[i].targets, target, weight), target);
    forall j, t | 0 <= j < |rs| && t in rs[j].targets ensures rs[j].targets[t] > 0 && t in Names(rs) {
      if j != i {
        assert rs[j] == rows[j];
      } else if t != target {
        assert rs[j].targets[t] == rows[i].targets[t];
      }
    }
  }

  /** Writing target -> weight into record i: the records stay valid and
      denote SetEdge of the old graph. */
  lemma WriteRow<L(!new)>(rows: seq<Row<L>>, i: int, target: L, weight: int)
    requires RowsValid(rows) && 0 <= i < |rows| && weight >= 0
    requires weight > 0 ==> target in Names(rows)
    ensures var rs := rows[i := Row(rows[i].name, Written(rows[i].targets, target, weight))];
            RowsValid(rs) && RowsModel(rs) == SetEdge(RowsModel(rows), rows[i].name, target, weight)
  {
    var rs := rows[i := Row(rows[i].name, Written(rows[i].targets, target, weight))];
    var g := SetEdge(RowsModel(rows), rows[i].name, target, weight);
    WriteRowValid(rows, i, target, weight);
    ReplaceRow(rows, i, Written(rows[i].targets, target, weight), target);
    NameAt(rows, i);
    forall n ensures OutOf(rs, n) == Targets(g, n) {
      WriteRowTargets(rows, i, target, weight, n);
    }
    ModelFromTargets(rs, g);
  }

  /** The records after the scan of `remove` has visited the first i of them:
      those have lost v as a target, the rest are as they were. */
  ghost function Stripped<L>(rows: seq<Row<L>>, v: L, i: int): (r: seq<Row<L>>)
    ensures |r| == |rows|
    ensures forall j :: 0 <= j < |rows| ==> r[j].name == rows[j].name
    ensures forall j :: 0 <= j < |rows| ==> r[j].targets == if j < i then rows[j].targets - {v} else rows[j].targets
  {
    seq(|rows|, j requires 0 <= j < |rows| => if j < i then Row(rows[j].name, rows[j].targets - {v}) else rows[j])
  }

  /** The scan of `remove` keeps the names and so their distinctness. */
  lemma StrippedDistinct<L>(rows: seq<Row<L>>, v: L, i: int)
    requires DistinctNames(rows)
    ensures DistinctNames(Stripped(rows, v, i))
  {
  }

  /** Removing v from every map and deleting record k, named v: each name's
      outgoing map is the one Remove leaves. */
  lemma RemoveRowTargets<L(!new)>(rows: seq<Row<L>>, k: int, v: L, n: L)
    requires DistinctNames(rows) && 0 <= k < |rows| && rows[k].name == v
    ensures var mid := Stripped(rows, v, |rows|);
            OutOf(mid[..k] + mid[k + 1..], n) == Targets(Remove(RowsModel(rows), v), n)
  {
    var mid := Stripped(rows, v, |rows|);
    StripRows(rows, v, mid, n);
    DeleteRow(mid, k, n);
    RowsTargets(rows, n);
    TargetsAfterRemove(RowsModel(rows), v, n);
  }

  /** `remove`'s effect on the records: every map loses v and record k, named
      v, is deleted. They denote Remove of the old graph. */
  lemma RemoveRowModel<L(!new)>(rows: seq<Row<L>>, k: int, v: L)
    requires DistinctNames(rows) && 0 <= k < |rows| && rows[k].name == v
    ensures var mid := Stripped(rows, v, |rows|);
            RowsModel(mid[..k] + mid[k + 1..]) == Remove(RowsModel(rows), v)
  {
    var mid := Stripped(rows, v, |rows|);
    var rs := mid[..k] + mid[k + 1..];
    StripRows(rows, v, mid, v);
    DeleteNames(mid, k);
    forall n ensures OutOf(rs, n) == Targets(Remove(RowsModel(rows), v), n) {
      RemoveRowTargets(rows, k, v, n);
    }
    ModelFromTargets(rs, Remove(RowsModel(rows), v));
  }

  /** `remove`'s effect on the records keeps them valid. */
  lemma RemoveRowValid<L>(rows: seq<Row<L>>, k: int, v: L)
    requires RowsValid(rows) && 0 <= k < |rows| && rows[k].name == v
    ensures var mid := Stripped(rows, v, |rows|);
            RowsValid(mid[..k] + mid[k + 1..])
  {
    var mid := Stripped(rows, v, |rows|);
    var rs := mid[..k] + mid[k + 1..];
    StripRows(rows, v, mid, v);
    DeleteNames(mid, k);
    forall j | 0 <= j < |rs| ensures PositiveWeights(rs[j].targets) && rs[j].targets.Keys <= Names(rs) {
      var j' := if j < k then j else j + 1;
      assert rs[j] == mid[j'];
      assert rows[j'].targets.Keys <= Names(rows);
    }
  }

  /** Appending a fresh record with no targets: the records stay valid and
      denote Add of the old graph. */
  lemma AddRow<L(!new)>(rows: seq<Row<L>>, v: L)
    requires RowsValid(rows) && v !in Names(rows)
    ensures RowsValid(rows + [Row(v, map[])])
    ensures RowsModel(rows + [Row(v, map[])]) == Graphs.Add(RowsModel(rows), v)
  {
    var r := Row(v, map[]);
    var rs := rows + [r];
    AppendRow(rows, r, v);
    forall n ensures OutOf(rs, n) == Targets(Graphs.Add(RowsModel(rows), v), n) {
      AppendRow(rows, r, n);
      RowsTargets(rows, n);
      OutOfAbsent(rows, v);
    }
    ModelFromTargets(rs, Graphs.Add(RowsModel(rows), v));
    forall i, j | 0 <= i < j < |rs| ensures rs[i].name != rs[j].name {
      assert rs[i] == rows[i];
      NameAt(rows, i);
      if j < |rows| {
        assert rs[j] == rows[j];
      }
    }
    forall i | 0 <= i < |rs| ensures PositiveWeights(rs[i].targets) && rs[i].targets.Keys <= Names(rs) {
      if i < |rows| {
        assert rs[i] == rows[i];
      }
    }
  }

  /** The value view of a list of Vertex objects. */
  ghost function RowsOf<L(!new)>(vs: seq<Vertex<L>>): (r: seq<Row<L>>)
    reads vs
    ensures |r| == |vs|
    ensures forall i :: 0 <= i < |vs| ==> r[i] == Row(vs[i].name, vs[i].targets)
  {
    seq(|vs|, i reads vs requires 0 <= i < |vs| => Row(vs[i].name, vs[i].targets))
  }

  /** What is left after deleting position k holds only elements of s. */
  lemma DeleteKeeps<T>(s: seq<T>, k: int, rest: seq<T>)
    requires 0 <= k < |s| && rest == s[..k] + s[k + 1..]
    ensures forall j :: 0 <= j < |rest| ==> rest[j] in s
  {
    forall j | 0 <= j < |rest| ensures rest[j] in s {
      assert rest[j] == s[if j < k then j else j + 1];
    }
  }

  /** Deleting position k of the object list deletes position k of its view. */
  lemma RowsOfDelete<L(!new)>(vs: seq<Vertex<L>>, k: int)
    requires 0 <= k < |vs|
    ensures RowsOf(vs[..k] + vs[k + 1..]) == RowsOf(vs)[..k] + RowsOf(vs)[k + 1..]
  {
    var a, b := RowsOf(vs[..k] + vs[k + 1..]), RowsOf(vs)[..k] + RowsOf(vs)[k + 1..];
    forall j | 0 <= j < |a| ensures a[j] == b[j] {
      var j' := if j < k then j else j + 1;
      assert (vs[..k] + vs[k + 1..])[j] == vs[j'];
    }
  }

  /**
   * Mutable record of the adjacency-list representation: a vertex name and a
   * map from targeted vertices to the (positive) weight of each outgoing edge.
   */
  class Vertex<L(==, !new)> {
    const name: L
    var targets: map<L, int>

    /** Weights are positive. */
    ghost predicate Valid()
      reads this
    {
      PositiveWeights(targets)
    }

    constructor (name: L)
      ensures this.name == name && targets == map[] && Valid()
    {
      this.name := name;
      targets := map[];
    }

    /** `areWeightsPositive`: no stored weight is negative. */
    method AreWeightsPositive() returns (result: bool)
      ensures result <==> forall t :: t in targets ==> targets[t] >= 0
    {
      var unseen := targets.Keys;
      while unseen != {}
        invariant unseen <= targets.Keys
        invariant forall t :: t in targets && t !in unseen ==> targets[t] >= 0
        decreases unseen
      {
        var t :| t in unseen;
        if targets[t] < 0 {
          return false;
        }
        unseen := unseen - {t};
      }
      return true;
    }

    /** `setTarget`: weight 0 deletes the target, a positive weight inserts or
        replaces it. (A negative weight would fail the weight check.) */
    method SetTarget(target: L, weight: int)
      requires Valid() && weight >= 0
      modifies this
      ensures Valid()
      ensures targets == Written(old(targets), target, weight)
    {
      if IsVertexInTargets(target) {
        if weight == 0 {
          targets := targets - {target};
        } else {
          targets := targets[target := weight];
        }
      } else {
        if weight == 0 {
          return;
        } else {
          targets := targets[target := weight];
        }
      }
    }

    /** `getTargetsMap`: a copy of the outgoing map; every weight in it is
        positive. */
    function GetTargetsMap(): (m: map<L, int>)
      reads this
      ensures m == targets
      ensures Valid() ==> forall t :: t in m ==> m[t] > 0
    {
      targets
    }

    /** `getWeight`: the weight of the edge to a target it has. */
    function GetWeight(target: L): (w: int)
      reads this
      requires target in targets
      ensures w == targets[target]
      ensures Valid() ==> w > 0
    {
      targets[target]
    }

    /** `getTargets`: the set of targeted labels. */
    function GetTargets(): (ts: set<L>)
      reads this
      ensures forall t :: t in ts <==> t in targets
    {
      targets.Keys
    }

    /** `isVertexInTargets`. */
    function IsVertexInTargets(target: L): (b: bool)
      reads this
      ensures b <==> target in targets
    {
      target in targets.Keys
    }
  }

  class ConcreteVerticesGraph<L(==, !new)> {
    var vertices: seq<Vertex<L>>

    /** The records' current values. */
    ghost function Rows(): seq<Row<L>>
      reads this, vertices
    {
      RowsOf(vertices)
    }

    /** Distinct names (hence distinct records), positive weights, targets
        that are vertices. */
    ghost predicate Valid()
      reads this, vertices
    {
      RowsValid(Rows())
    }

    /** Abstraction function. */
    ghost function Model(): (g: Graph<L>)
      reads this, vertices
      ensures Valid() ==> Graphs.Valid(g)
    {
      if Valid() then RowsModelValid(Rows()); RowsModel(Rows()) else RowsModel(Rows())
    }

    constructor ()
      ensures Valid() && Model() == Empty() && vertices == []
    {
      vertices := [];
      new;
      ModelFromTargets(Rows(), Empty());
    }

    /** `hasVertex`: some record carries the name. */
    method HasVertex(vertex: L) returns (found: bool)
      ensures found <==> vertex in Model().vertices
    {
      var i := 0;
      while i < |vertices|
        invariant 0 <= i <= |vertices|
        invariant forall j :: 0 <= j < i ==> vertices[j].name != vertex
      {
        if vertices[i].name == vertex {
          NameAt(Rows(), i);
          return true;
        }
        i := i + 1;
      }
      NotNamed(Rows(), vertex);
      return false;
    }

    /** `isVerticesNotDuplicate`: no two positions carry the same name. */
    method IsVerticesNotDuplicate() returns (result: bool)
      ensures result <==> DistinctNames(Rows())
    {
      if |vertices| > 1 {
        var i := 0;
        while i < |vertices|
          invariant 0 <= i <= |vertices|
          invariant forall x, y :: 0 <= x < |vertices| && 0 <= y < |vertices| && x != y && (x < i || y < i) ==> vertices[x].name != vertices[y].name
        {
          var j := 0;
          while j < |vertices|
            invariant 0 <= j <= |vertices|
            invariant forall x, y :: 0 <= x < |vertices| && 0 <= y < |vertices| && x != y && (x < i || y < i) ==> vertices[x].name != vertices[y].name
            invariant forall y :: 0 <= y < j && y != i ==> vertices[i].name != vertices[y].name
          {
            if i != j && vertices[i].name == vertices[j].name {
              assert Rows()[i].name == Rows()[j].name;
              return false;
            }
            j := j + 1;
          }
          i := i + 1;
        }
      }
      return true;
    }

    /** `add`: true iff no record had the name; a new record with no targets
        goes at the end of the list. */
    method Add(vertex: L) returns (result: bool)
      requires Valid()
      modifies this
      ensures Valid()
      ensures result == (vertex !in old(Model()).vertices)
      ensures Model() == Graphs.Add(old(Model()), vertex)
      ensures Rows() == if result then old(Rows()) + [Row(vertex, map[])] else old(Rows())
      ensures forall i :: 0 <= i < |vertices| ==> vertices[i] in old(vertices) || fresh(vertices[i])
    {
      result := false;
      var present := HasVertex(vertex);
      if !present {
        ghost var rows := Rows();
        var record := new Vertex(vertex);
        vertices := vertices + [record];
        assert Rows() == rows + [Row(vertex, map[])];
        AddRow(rows, vertex);
        result := true;
      }
    }

    /** `set`: returns the previous weight. A positive weight adds missing
        endpoints and writes the edge, 0 deletes it, a negative weight leaves
        the graph alone and returns 0. */
    method Set(source: L, target: L, weight: int) returns (previous: int)
      requires Valid()
      modifies this, vertices
      ensures Valid()
      ensures previous == Previous(old(Model()), source, target, weight)
      ensures Model() == SetEdge(old(Model()), source, target, weight)
      ensures forall i :: 0 <= i < |vertices| ==> vertices[i] in old(vertices) || fresh(vertices[i])
    {
      if weight > 0 {
        previous := WriteEdge(source, target, weight);
      } else if weight == 0 {
        previous := ClearEdge(source, target);
      } else {
        previous := 0;
      }
    }

    /** The `weight > 0` branch of `set`: add the missing endpoints, then
        write the weight into the source's record. */
    method WriteEdge(source: L, target: L, weight: int) returns (previous: int)
      requires Valid() && weight > 0
      modifies this, vertices
      ensures Valid()
      ensures previous == Weight(old(Model()), source, target)
      ensures Model() == SetEdge(old(Model()), source, target, weight)
      ensures forall i :: 0 <= i < |vertices| ==> vertices[i] in old(vertices) || fresh(vertices[i])
    {
      ghost var g := Model();
      // `if (!hasVertex(v)) vertices.add(new Vertex(v))` is `add(v)`
      var sourceAdded := Add(source);
      ghost var middle := vertices;
      var targetAdded := Add(target);
      forall j | 0 <= j < |vertices| ensures vertices[j] in old(vertices) || fresh(vertices[j]) {
        if vertices[j] in middle {
          var k :| 0 <= k < |middle| && middle[k] == vertices[j];
        }
      }
      AddThenSet(g, source, target, weight);
      previous := WriteExisting(source, target, weight);
    }

    /** The search loop of `set`'s `weight > 0` branch, once both endpoints
        are vertices: the source's record gets the weight, and its old
        weight for the target (0 when absent) is returned. */
    method WriteExisting(source: L, target: L, weight: int) returns (previous: int)
      requires Valid() && weight > 0
      requires source in Model().vertices && target in Model().vertices
      modifies vertices
      ensures Valid() && vertices == old(vertices)
      ensures previous == Weight(old(Model()), source, target)
      ensures Model() == SetEdge(old(Model()), source, target, weight)
    {
      previous := 0;
      var i := FindRecord(source);
      WeightAt(i, target);
      if vertices[i].IsVertexInTargets(target) {
        previous := vertices[i].GetWeight(target);
      }
      WriteRecord(i, target, weight);
    }

    /** The `weight == 0` branch of `set`: find the source's record holding
        the target and delete the target from it; otherwise return 0. */
    method ClearEdge(source: L, target: L) returns (previous: int)
      requires Valid()
      modifies vertices
      ensures Valid()
      ensures previous == Weight(old(Model()), source, target)
      ensures Model() == SetEdge(old(Model()), source, target, 0)
    {
      var present := HasVertex(source);
      if present {
        var i := 0;
        while i < |vertices| && !(vertices[i].name == source && target in vertices[i].targets)
          invariant 0 <= i <= |vertices|
          invariant forall j :: 0 <= j < i ==> !(vertices[j].name == source && target in vertices[j].targets)
        {
          i := i + 1;
        }
        if i < |vertices| {
          WeightAt(i, target);
          previous := vertices[i].GetWeight(target);
          WriteRecord(i, target, 0);
          return;
        }
        NoRecordHolds(source, target);
      } else {
        RowsTargets(Rows(), source);
        OutOfAbsent(Rows(), source);
      }
      previous := 0;
      ClearAbsent(Model(), source, target);
    }

    /** `testVertex.setTarget(target, weight)` on record i, as `set` does it. */
    method WriteRecord(i: int, target: L, weight: int)
      requires Valid() && 0 <= i < |vertices| && weight >= 0
      requires weight > 0 ==> target in Model().vertices
      modifies vertices[i]
      ensures Valid()
      ensures Model() == SetEdge(old(Model()), vertices[i].name, target, weight)
    {
      ghost var rows := Rows();
      vertices[i].SetTarget(target, weight);
      // distinct names make distinct records, so no other record changed
      forall j | 0 <= j < |rows| && j != i ensures Rows()[j] == rows[j] {
        assert rows[j].name != rows[i].name;
      }
      assert Rows() == rows[i := Row(rows[i].name, vertices[i].targets)];
      WriteRow(rows, i, target, weight);
    }

    /** The position of the record named `source`, which is present. */
    method FindRecord(source: L) returns (i: int)
      requires Valid() && source in Model().vertices
      ensures 0 <= i < |vertices| && vertices[i].name == source
    {
      ghost var k := NameWitness(Rows(), source);
      i := 0;
      while vertices[i].name != source
        invariant 0 <= i <= k
        decreases k - i
        invariant forall j :: 0 <= j < i ==> vertices[j].name != source
      {
        i := i + 1;
      }
    }

    /** The weight of an edge out of record i is what its map holds. */
    lemma WeightAt(i: int, target: L)
      requires Valid() && 0 <= i < |vertices|
      ensures Weight(Model(), vertices[i].name, target)
           == if target in vertices[i].targets then vertices[i].targets[target] else 0
    {
      RowsTargets(Rows(), vertices[i].name);
      OutOfAt(Rows(), i);
    }

    /** When no record named `source` lists `target`, there is no such edge. */
    lemma NoRecordHolds(source: L, target: L)
      requires Valid()
      requires forall j :: 0 <= j < |vertices| ==> !(vertices[j].name == source && target in vertices[j].targets)
      ensures (source, target) !in Model().edges
    {
      var rows := Rows();
      RowsTargets(rows, source);
      if source in Names(rows) {
        var j := NameWitness(rows, source);
        OutOfAt(rows, j);
      } else {
        OutOfAbsent(rows, source);
      }
    }

    /** `remove`: true iff the vertex was present; its record goes and no other
        record keeps it as a target. */
    method Remove(vertex: L) returns (result: bool)
      requires Valid()
      modifies this, vertices
      ensures Valid()
      ensures result == (vertex in old(Model()).vertices)
      ensures Model() == Graphs.Remove(old(Model()), vertex)
      ensures forall j :: 0 <= j < |Rows()| ==> vertex !in Rows()[j].targets
      ensures forall i :: 0 <= i < |vertices| ==> vertices[i] in old(vertices)
    {
      result := false;
      var remIndex := 0;
      var present := HasVertex(vertex);
      ghost var rows := Rows();
      if present {
        ghost var k := NameWitness(rows, vertex);
        remIndex := Scan(vertex, k);
        ghost var mid := Stripped(rows, vertex, |rows|);
        RowsOfDelete(vertices, remIndex);
        vertices := vertices[..remIndex] + vertices[remIndex + 1..];
        DeleteKeeps(old(vertices), remIndex, vertices);
        assert Rows() == mid[..k] + mid[k + 1..];
        RemoveRowModel(rows, k, vertex);
        RemoveRowValid(rows, k, vertex);
        result := true;
      } else {
        RowsModelValid(rows);
        RemoveAbsent(Model(), vertex);
        forall j | 0 <= j < |rows| ensures vertex !in rows[j].targets {
          assert rows[j].targets.Keys <= Names(rows);
        }
      }
    }

    /** The loop of `remove`: every record loses `vertex` as a target, and
        the position of the record named `vertex` is found. */
    method Scan(vertex: L, ghost k: int) returns (remIndex: int)
      requires Valid() && 0 <= k < |vertices| && vertices[k].name == vertex
      modifies vertices
      ensures vertices == old(vertices) && remIndex == k
      ensures Rows() == Stripped(old(Rows()), vertex, |vertices|)
    {
      ghost var rows := Rows();
      remIndex := 0;
      var i := 0;
      while i < |vertices|
        invariant vertices == old(vertices) && |rows| == |vertices|
        invariant 0 <= i <= |vertices|
        invariant Rows() == Stripped(rows, vertex, i)
        invariant i > k ==> remIndex == k
        invariant 0 <= remIndex < |vertices|
      {
        if vertices[i].name == vertex {
          assert Rows()[i].name == rows[i].name;
          remIndex := i;
        }
        StrippedDistinct(rows, vertex, i);
        DropTarget(i, vertex);
        assert Rows() == Stripped(rows, vertex, i + 1);
        i := i + 1;
      }
    }

    /** One step of the scan of `remove`: if record i targets `vertex`,
        `setTarget(vertex, 0)` deletes it. No other record changes. */
    method DropTarget(i: int, vertex: L)
      requires 0 <= i < |vertices| && DistinctNames(Rows()) && vertices[i].Valid()
      modifies vertices[i]
      ensures Rows() == old(Rows())[i := Row(vertices[i].name, old(vertices[i].targets) - {vertex})]
    {
      ghost var rows := Rows();
      if vertex in vertices[i].GetTargets() {
        vertices[i].SetTarget(vertex, 0);
      } else {
        assert vertices[i].targets == vertices[i].targets - {vertex};
      }
      forall j | 0 <= j < |rows| && j != i ensures Rows()[j] == rows[j] {
        assert rows[j].name != rows[i].name;
      }
    }

    /** `vertices`: the set of record names. */
    method Vertices() returns (result: set<L>)
      ensures result == Model().vertices
    {
      result := {};
      var i := 0;
      while i < |vertices|
        invariant 0 <= i <= |vertices|
        invariant result == Names(Rows()[..i])
      {
        assert Rows()[..i + 1][..i] == Rows()[..i];
        result := result + {vertices[i].name};
        i := i + 1;
      }
      assert Rows()[..i] == Rows();
    }

    /** `sources`: every record that lists the target, keyed by its name. */
    method Sources(target: L) returns (result: map<L, int>)
      requires Valid()
      ensures result == Graphs.Sources(Model(), target)
    {
      result := map[];
      var i := 0;
      while i < |vertices|
        invariant 0 <= i <= |vertices|
        invariant result == SourcesOf(Rows()[..i], target)
      {
        assert Rows()[..i + 1][..i] == Rows()[..i];
        if vertices[i].IsVertexInTargets(target) {
          result := result[vertices[i].name := vertices[i].GetWeight(target)];
        }
        i := i + 1;
      }
      assert Rows()[..i] == Rows();
      SourcesOfModel(Rows(), target);
    }

    /** `targets`: a copy of the outgoing map of the record with that name,
        empty when there is none. */
    method Targets(source: L) returns (result: map<L, int>)
      ensures result == Graphs.Targets(Model(), source)
    {
      result := map[];
      var i := 0;
      while i < |vertices|
        invariant 0 <= i <= |vertices|
        invariant result == OutOf(Rows()[..i], source)
      {
        assert Rows()[..i + 1][..i] == Rows()[..i];
        if vertices[i].name == source {
          result := vertices[i].GetTargetsMap();
        }
        i := i + 1;
      }
      assert Rows()[..i] == Rows();
      RowsTargets(Rows(), source);
    }
  }
}
