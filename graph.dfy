/**
 * The two graph views `DataMerger` builds over its relationship list: the
 * undirected adjacency lists `merge_data` walks (each relationship is an edge
 * in both directions) and the forward-only view `get_relationship_graph`
 * returns. Reachability over the adjacency lists is what decides which tables
 * a merge can reach from its root.
 */
module Graph {
  import opened Tables
  import opened RelationshipDetection

  /** `(target_table, from_col, to_col)`: join on `from_col` of this table and `to_col` of the target. */
  datatype Edge = Edge(target: string, fromColumn: string, toColumn: string)

  /** `{"table": ..., "from": ..., "to": ...}`: one forward relationship of a table. */
  datatype Link = Link(table: string, from: string, to: string)

  /** Relationship `r` contributes edge `e` to the adjacency list of `t`. */
  predicate Contributes(r: Relationship, t: string, e: Edge)
  {
    || (r.source == t && e == Edge(r.target, r.sourceColumn, r.targetColumn))
    || (r.target == t && e == Edge(r.source, r.targetColumn, r.sourceColumn))
  }

  /**
   * The adjacency list of `t` after the relationships `rels`, in order: the
   * forward edge when `t` is a relationship's first table, then the reverse
   * edge when it is its second.
   */
  function Adjacency(rels: seq<Relationship>, t: string): seq<Edge>
  {
    if rels == [] then []
    else
      var r := rels[|rels| - 1];
      Adjacency(rels[..|rels| - 1], t)
      + (if r.source == t then [Edge(r.target, r.sourceColumn, r.targetColumn)] else [])
      + (if r.target == t then [Edge(r.source, r.targetColumn, r.sourceColumn)] else [])
  }

  /** One more relationship appends its forward edge, then its reverse edge, to the lists of its tables. */
  lemma AdjacencySnoc(rels: seq<Relationship>, k: nat, t: string)
    requires k < |rels|
    ensures Adjacency(rels[..k + 1], t) ==
      Adjacency(rels[..k], t)
      + (if rels[k].source == t then [Edge(rels[k].target, rels[k].sourceColumn, rels[k].targetColumn)] else [])
      + (if rels[k].target == t then [Edge(rels[k].source, rels[k].targetColumn, rels[k].sourceColumn)] else [])
  {
    assert rels[..k + 1][..k] == rels[..k];
  }

  /** The merge graph: one adjacency list per loaded table. */
  function GraphOf(names: seq<string>, rels: seq<Relationship>): (g: map<string, seq<Edge>>)
    ensures forall t :: t in g <==> t in names
  {
    map t | t in names :: Adjacency(rels, t)
  }

  /** A map with a list for exactly the loaded tables, each that table's adjacency list, is the merge graph. */
  lemma GraphOfExactly(names: seq<string>, rels: seq<Relationship>, g: map<string, seq<Edge>>)
    requires forall t :: t in g <==> t in names
    requires forall t :: t in g ==> g[t] == Adjacency(rels, t)
    ensures g == GraphOf(names, rels)
  {
  }

  /** An edge is in a table's adjacency list exactly when some relationship contributes it. */
  lemma {:induction false} AdjacencyExactly(rels: seq<Relationship>, t: string)
    ensures forall e :: e in Adjacency(rels, t) <==> exists r :: r in rels && Contributes(r, t, e)
  {
    if rels != [] {
      var front := rels[..|rels| - 1];
      var r := rels[|rels| - 1];
      AdjacencyExactly(front, t);
      assert rels == front + [r];
      forall e | e in Adjacency(rels, t) ensures exists q :: q in rels && Contributes(q, t, e) {
        if e in Adjacency(front, t) {
          var q :| q in front && Contributes(q, t, e);
          assert q in rels;
        } else {
          assert Contributes(r, t, e);
        }
      }
      forall e | exists q :: q in rels && Contributes(q, t, e) ensures e in Adjacency(rels, t) {
        var q :| q in rels && Contributes(q, t, e);
        if q in front {
          assert e in Adjacency(front, t);
        } else {
          assert q == r;
        }
      }
    }
  }

  /** The merge graph is undirected: every edge has its reverse, with the join columns swapped. */
  lemma AdjacencySymmetric(rels: seq<Relationship>, a: string, b: string, c1: string, c2: string)
    ensures Edge(b, c1, c2) in Adjacency(rels, a) <==> Edge(a, c2, c1) in Adjacency(rels, b)
  {
    AdjacencyExactly(rels, a);
    AdjacencyExactly(rels, b);
    if Edge(b, c1, c2) in Adjacency(rels, a) {
      var r :| r in rels && Contributes(r, a, Edge(b, c1, c2));
      assert Contributes(r, b, Edge(a, c2, c1));
    }
    if Edge(a, c2, c1) in Adjacency(rels, b) {
      var r :| r in rels && Contributes(r, b, Edge(a, c2, c1));
      assert Contributes(r, a, Edge(b, c1, c2));
    }
  }

  /** Every relationship that names `t` at least once shows up in `t`'s adjacency list. */
  lemma AdjacencyHasRelationship(rels: seq<Relationship>, r: Relationship)
    requires r in rels
    ensures Edge(r.target, r.sourceColumn, r.targetColumn) in Adjacency(rels, r.source)
    ensures Edge(r.source, r.targetColumn, r.sourceColumn) in Adjacency(rels, r.target)
  {
    AdjacencyExactly(rels, r.source);
    AdjacencyExactly(rels, r.target);
    assert Contributes(r, r.source, Edge(r.target, r.sourceColumn, r.targetColumn));
    assert Contributes(r, r.target, Edge(r.source, r.targetColumn, r.sourceColumn));
  }

  /** Every relationship endpoint lies in `s`. */
  ghost predicate EndpointsIn(rels: seq<Relationship>, s: set<string>)
  {
    forall r :: r in rels ==> r.source in s && r.target in s
  }

  /** When every relationship joins tables of `s`, so does every edge. */
  lemma AdjacencyTargetsIn(rels: seq<Relationship>, t: string, s: set<string>)
    requires EndpointsIn(rels, s)
    ensures forall e :: e in Adjacency(rels, t) ==> e.target in s
  {
    AdjacencyExactly(rels, t);
  }

  /** Every relationship joins loaded tables through columns they have. */
  ghost predicate ColumnsExist(rels: seq<Relationship>, tables: map<string, Table>)
  {
    forall r :: r in rels ==>
      && r.source in tables && r.target in tables
      && r.sourceColumn in tables[r.source].columns && r.targetColumn in tables[r.target].columns
  }

  /**
   * When every relationship's columns are columns of its tables, each edge joins
   * a column of `t` with a column of the edge's target.
   */
  lemma AdjacencyColumns(rels: seq<Relationship>, t: string, tables: map<string, Table>)
    ensures ColumnsExist(rels, tables) ==>
      forall e :: e in Adjacency(rels, t) ==>
        && t in tables && e.target in tables
        && e.fromColumn in tables[t].columns && e.toColumn in tables[e.target].columns
  {
    AdjacencyExactly(rels, t);
  }

  /** When every relationship joins tables of `s`, every edge of the merge graph ends in `s`. */
  lemma GraphTargetsIn(names: seq<string>, rels: seq<Relationship>, s: set<string>)
    requires EndpointsIn(rels, s)
    ensures forall a, e :: a in GraphOf(names, rels) && e in GraphOf(names, rels)[a] ==> e.target in s
  {
    forall a, e | a in GraphOf(names, rels) && e in GraphOf(names, rels)[a] ensures e.target in s {
      AdjacencyTargetsIn(rels, a, s);
    }
  }

  // ---------------------------------------------------------------------------
  // Reachability in the merge graph.

  /** Some edge of `a` leads to `b`. */
  ghost predicate Linked(g: map<string, seq<Edge>>, a: string, b: string)
  {
    a in g && exists e :: e in g[a] && e.target == b
  }

  /** A non-empty walk along edges. */
  ghost predicate IsPath(g: map<string, seq<Edge>>, p: seq<string>)
  {
    |p| > 0 && forall k :: 0 <= k < |p| - 1 ==> Linked(g, p[k], p[k + 1])
  }

  ghost predicate Reachable(g: map<string, seq<Edge>>, from: string, to: string)
  {
    exists p :: IsPath(g, p) && p[0] == from && p[|p| - 1] == to
  }

  /** No edge leaves `s`. */
  ghost predicate Closed(g: map<string, seq<Edge>>, s: set<string>)
  {
    forall a, e :: a in s && a in g && e in g[a] ==> e.target in s
  }

  lemma ReachableSelf(g: map<string, seq<Edge>>, t: string)
    ensures Reachable(g, t, t)
  {
    assert IsPath(g, [t]);
  }

  /** Reachability extends along one more edge. */
  lemma ReachableStep(g: map<string, seq<Edge>>, from: string, a: string, e: Edge)
    requires Reachable(g, from, a)
    requires a in g && e in g[a]
    ensures Reachable(g, from, e.target)
  {
    var p :| IsPath(g, p) && p[0] == from && p[|p| - 1] == a;
    var q := p + [e.target];
    forall k | 0 <= k < |q| - 1 ensures Linked(g, q[k], q[k + 1]) {
      if k < |p| - 1 {
        assert q[k] == p[k] && q[k + 1] == p[k + 1];
      } else {
        assert q[k] == a && q[k + 1] == e.target;
      }
    }
    assert IsPath(g, q);
  }

  /** A walk that starts in a closed set never leaves it. */
  lemma {:induction false} PathStaysInside(g: map<string, seq<Edge>>, s: set<string>, p: seq<string>)
    requires IsPath(g, p) && p[0] in s && Closed(g, s)
    ensures p[|p| - 1] in s
  {
    if |p| > 1 {
      var front := p[..|p| - 1];
      assert IsPath(g, front) by {
        forall k | 0 <= k < |front| - 1 ensures Linked(g, front[k], front[k + 1]) {
          assert front[k] == p[k] && front[k + 1] == p[k + 1];
        }
      }
      PathStaysInside(g, s, front);
      assert Linked(g, p[|p| - 2], p[|p| - 1]);
      var e :| e in g[p[|p| - 2]] && e.target == p[|p| - 1];
    }
  }

  /** Nothing outside a closed set is reachable from inside it. */
  lemma ClosedUnreachable(g: map<string, seq<Edge>>, s: set<string>, from: string, to: string)
    requires from in s && Closed(g, s) && to !in s
    ensures !Reachable(g, from, to)
  {
    if Reachable(g, from, to) {
      var p :| IsPath(g, p) && p[0] == from && p[|p| - 1] == to;
      PathStaysInside(g, s, p);
    }
  }

  // ---------------------------------------------------------------------------
  // The forward view returned by `get_relationship_graph`.

  /** The forward links of `t`, one per relationship whose first table is `t`, in order. */
  function Outgoing(rels: seq<Relationship>, t: string): seq<Link>
  {
    if rels == [] then []
    else
      var r := rels[|rels| - 1];
      Outgoing(rels[..|rels| - 1], t)
      + (if r.source == t then [Link(r.target, r.sourceColumn, r.targetColumn)] else [])
  }

  /** The first tables of the relationships. */
  function Sources(rels: seq<Relationship>): set<string>
  {
    set r | r in rels :: r.source
  }

  /** One more relationship adds its first table to the sources and its forward link to that table's links. */
  lemma OutgoingStep(rels: seq<Relationship>, k: nat)
    requires k < |rels|
    ensures Sources(rels[..k + 1]) == Sources(rels[..k]) + {rels[k].source}
    ensures forall t :: (Outgoing(rels[..k + 1], t) ==
                          Outgoing(rels[..k], t) + (if rels[k].source == t then [Link(rels[k].target, rels[k].sourceColumn, rels[k].targetColumn)] else []))
  {
    assert rels[..k + 1] == rels[..k] + [rels[k]];
    assert rels[..k + 1][..k] == rels[..k];
  }

  /** A table that is no relationship's first table has no forward links. */
  lemma {:induction false} OutgoingNone(rels: seq<Relationship>, t: string)
    requires t !in Sources(rels)
    ensures Outgoing(rels, t) == []
  {
    if rels != [] {
      var front := rels[..|rels| - 1];
      assert rels[|rels| - 1] in rels;
      forall r | r in front ensures r in rels { }
      OutgoingNone(front, t);
    }
  }

  /** A link is listed for `t` exactly when a relationship from `t` carries it. */
  lemma {:induction false} OutgoingExactly(rels: seq<Relationship>, t: string)
    ensures forall l :: l in Outgoing(rels, t) <==>
      exists r :: r in rels && r.source == t && l == Link(r.target, r.sourceColumn, r.targetColumn)
    ensures |Outgoing(rels, t)| <= |rels|
  {
    if rels != [] {
      var front := rels[..|rels| - 1];
      var r := rels[|rels| - 1];
      OutgoingExactly(front, t);
      assert rels == front + [r];
      forall l | l in Outgoing(rels, t)
        ensures exists q :: q in rels && q.source == t && l == Link(q.target, q.sourceColumn, q.targetColumn)
      {
        if l in Outgoing(front, t) {
          var q :| q in front && q.source == t && l == Link(q.target, q.sourceColumn, q.targetColumn);
          assert q in rels;
        } else {
          assert r.source == t && l == Link(r.target, r.sourceColumn, r.targetColumn);
        }
      }
      forall l | exists q :: q in rels && q.source == t && l == Link(q.target, q.sourceColumn, q.targetColumn)
        ensures l in Outgoing(rels, t)
      {
        var q :| q in rels && q.source == t && l == Link(q.target, q.sourceColumn, q.targetColumn);
        if q in front {
          assert l in Outgoing(front, t);
        } else {
          assert q == r;
        }
      }
    }
  }

  /** Each forward link is also an edge of the merge graph, with the same join columns. */
  lemma OutgoingInAdjacency(rels: seq<Relationship>, t: string, l: Link)
    requires l in Outgoing(rels, t)
    ensures Edge(l.table, l.from, l.to) in Adjacency(rels, t)
  {
    OutgoingExactly(rels, t);
    AdjacencyExactly(rels, t);
    var r :| r in rels && r.source == t && l == Link(r.target, r.sourceColumn, r.targetColumn);
    assert Contributes(r, t, Edge(l.table, l.from, l.to));
  }
}
