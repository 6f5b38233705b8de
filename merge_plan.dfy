/**
 * The pieces of `merge_data` that are plain values: where the merge starts
 * (the loaded table with the most relationship edges, the first one on a
 * tie), the log of joins it performs, and the table that log produces.
 */
module MergePlan {
  import opened Tables
  import opened Joins
  import opened Graph

  /** One left join: `target` joined onto the result on `leftOn = rightOn`, through an edge of `from`. */
  datatype JoinStep = JoinStep(from: string, target: string, leftOn: string, rightOn: string)

  function Targets(steps: seq<JoinStep>): (ts: seq<string>)
    ensures |ts| == |steps|
    ensures forall k :: 0 <= k < |steps| ==> ts[k] == steps[k].target
  {
    seq(|steps|, k requires 0 <= k < |steps| => steps[k].target)
  }

  lemma TargetsSnoc(steps: seq<JoinStep>, s: JoinStep)
    ensures Targets(steps + [s]) == Targets(steps) + [s.target]
  {
  }

  /**
   * The start table of `merge_data`: the position of a table with the most edges,
   * where no earlier table has as many (Python's `max` keeps the first maximal
   * element).
   */
  function MostConnected(names: seq<string>, g: map<string, seq<Edge>>): (i: nat)
    requires |names| > 0
    requires forall t :: t in names ==> t in g
    ensures i < |names|
    ensures forall j :: 0 <= j < |names| ==> |g[names[j]]| <= |g[names[i]]|
    ensures forall j :: 0 <= j < i ==> |g[names[j]]| < |g[names[i]]|
  {
    if |names| == 1 then 0
    else
      var front := names[..|names| - 1];
      assert forall t :: t in front ==> t in names;
      var i := MostConnected(front, g);
      assert names[i] == front[i];
      assert forall j :: 0 <= j < |front| ==> names[j] == front[j];
      if |g[names[|names| - 1]]| > |g[names[i]]| then |names| - 1 else i
  }

  /** The successive left joins of the merge, applied to the root table. */
  function Replay(base: Table, steps: seq<JoinStep>, tables: map<string, Table>): Table
    requires forall k :: 0 <= k < |steps| ==> steps[k].target in tables
  {
    if steps == [] then base
    else
      var s := steps[|steps| - 1];
      LeftJoin(Replay(base, steps[..|steps| - 1], tables), tables[s.target], s.leftOn, s.rightOn)
  }

  /** One more join is one more left join of the result so far. */
  lemma ReplaySnoc(base: Table, steps: seq<JoinStep>, s: JoinStep, tables: map<string, Table>)
    requires forall k :: 0 <= k < |steps| ==> steps[k].target in tables
    requires s.target in tables
    ensures forall k :: 0 <= k < |steps + [s]| ==> (steps + [s])[k].target in tables
    ensures Replay(base, steps + [s], tables) == LeftJoin(Replay(base, steps, tables), tables[s.target], s.leftOn, s.rightOn)
  {
    assert (steps + [s])[..|steps|] == steps;
  }

  lemma CoversSelf(rows: seq<Row>)
    ensures Covers(rows, rows)
  {
    forall i | 0 <= i < |rows| ensures Survives(rows, rows[i]) {
      assert Extends(rows[i], rows[i]);
    }
  }

  /** However many joins follow, every row of the root table survives, widened, in the result. */
  lemma {:induction false} ReplayCovers(base: Table, steps: seq<JoinStep>, tables: map<string, Table>)
    requires forall k :: 0 <= k < |steps| ==> steps[k].target in tables
    ensures |Replay(base, steps, tables).rows| >= |base.rows|
    ensures Covers(Replay(base, steps, tables).rows, base.rows)
  {
    if steps == [] {
      CoversSelf(base.rows);
    } else {
      var front := steps[..|steps| - 1];
      var s := steps[|steps| - 1];
      ReplayCovers(base, front, tables);
      var mid := Replay(base, front, tables);
      LeftJoinCovers(mid, tables[s.target], s.leftOn, s.rightOn);
      CoversTransitive(Replay(base, steps, tables).rows, mid.rows, base.rows);
    }
  }

  /** Column `c` belongs to one of the joined tables. */
  ghost predicate JoinedColumn(c: string, steps: seq<JoinStep>, tables: map<string, Table>)
    requires forall k :: 0 <= k < |steps| ==> steps[k].target in tables
  {
    exists k :: 0 <= k < |steps| && c in tables[steps[k].target].columns
  }

  /** A column of a joined table belongs to one of the earlier ones or to the last. */
  lemma JoinedColumnSnoc(c: string, steps: seq<JoinStep>, tables: map<string, Table>)
    requires |steps| > 0
    requires forall k :: 0 <= k < |steps| ==> steps[k].target in tables
    ensures JoinedColumn(c, steps, tables) <==>
      JoinedColumn(c, steps[..|steps| - 1], tables) || c in tables[steps[|steps| - 1].target].columns
  {
    var front := steps[..|steps| - 1];
    if JoinedColumn(c, front, tables) {
      var k :| 0 <= k < |front| && c in tables[front[k].target].columns;
      assert steps[k] == front[k];
    }
    if JoinedColumn(c, steps, tables) {
      var k :| 0 <= k < |steps| && c in tables[steps[k].target].columns;
      if k < |front| {
        assert front[k] == steps[k];
      }
    }
  }

  /** The result has the root's columns and those of every joined table, and no others. */
  lemma {:induction false} ReplayColumns(base: Table, steps: seq<JoinStep>, tables: map<string, Table>)
    requires forall k :: 0 <= k < |steps| ==> steps[k].target in tables
    ensures base.columns <= Replay(base, steps, tables).columns
    ensures forall c :: c in Replay(base, steps, tables).columns <==> c in base.columns || JoinedColumn(c, steps, tables)
  {
    if steps != [] {
      var front := steps[..|steps| - 1];
      var s := steps[|steps| - 1];
      ReplayColumns(base, front, tables);
      forall c ensures JoinedColumn(c, steps, tables) <==> JoinedColumn(c, front, tables) || c in tables[s.target].columns {
        JoinedColumnSnoc(c, steps, tables);
      }
    }
  }

  /**
   * When every joined table is keyed uniquely on its join column, the result has
   * exactly one row per root row, each widening that root row.
   */
  lemma {:induction false} ReplayAligned(base: Table, steps: seq<JoinStep>, tables: map<string, Table>)
    requires forall k :: 0 <= k < |steps| ==> steps[k].target in tables && IsUnique(tables[steps[k].target], steps[k].rightOn)
    ensures |Replay(base, steps, tables).rows| == |base.rows|
    ensures forall i :: 0 <= i < |base.rows| ==> Extends(Replay(base, steps, tables).rows[i], base.rows[i])
  {
    if steps != [] {
      var front := steps[..|steps| - 1];
      var s := steps[|steps| - 1];
      ReplayAligned(base, front, tables);
      var mid := Replay(base, front, tables);
      JoinUniqueKeyAligned(mid.rows, tables[s.target], s.leftOn, s.rightOn);
      var out := Replay(base, steps, tables);
      forall i | 0 <= i < |base.rows| ensures Extends(out.rows[i], base.rows[i]) {
        assert Extends(out.rows[i], mid.rows[i]);
      }
    }
  }

  /**
   * Every logged join found its columns: the left one in the frame built by the
   * joins before it, the right one in the joined table.
   */
  ghost predicate JoinsHadColumns(base: Table, steps: seq<JoinStep>, tables: map<string, Table>)
    requires forall k :: 0 <= k < |steps| ==> steps[k].target in tables
  {
    steps == [] ||
      var front, s := steps[..|steps| - 1], steps[|steps| - 1];
      && JoinsHadColumns(base, front, tables)
      && s.leftOn in Replay(base, front, tables).columns
      && s.rightOn in tables[s.target].columns
  }

  lemma JoinsHadColumnsSnoc(base: Table, steps: seq<JoinStep>, s: JoinStep, tables: map<string, Table>)
    requires forall k :: 0 <= k < |steps| ==> steps[k].target in tables
    requires s.target in tables
    requires JoinsHadColumns(base, steps, tables)
    requires s.leftOn in Replay(base, steps, tables).columns && s.rightOn in tables[s.target].columns
    ensures forall k :: 0 <= k < |steps + [s]| ==> (steps + [s])[k].target in tables
    ensures JoinsHadColumns(base, steps + [s], tables)
  {
    assert (steps + [s])[..|steps|] == steps;
  }

  /** Step `k` of a log whose joins had their columns found its left column in the frame of the steps before it. */
  lemma {:induction false} JoinsHadColumnsAt(base: Table, steps: seq<JoinStep>, tables: map<string, Table>, k: nat)
    requires forall j :: 0 <= j < |steps| ==> steps[j].target in tables
    requires JoinsHadColumns(base, steps, tables) && k < |steps|
    ensures steps[k].leftOn in Replay(base, steps[..k], tables).columns
    ensures steps[k].rightOn in tables[steps[k].target].columns
  {
    var front := steps[..|steps| - 1];
    assert JoinsHadColumns(base, front, tables);
    if k < |steps| - 1 {
      JoinsHadColumnsAt(base, front, tables, k);
      assert front[..k] == steps[..k] && front[k] == steps[k];
    } else {
      assert steps[..k] == front;
    }
  }

  /** Each join starts from the root or an earlier target and follows an edge of the merge graph. */
  ghost predicate Chained(g: map<string, seq<Edge>>, root: string, steps: seq<JoinStep>)
  {
    forall k :: 0 <= k < |steps| ==>
      && steps[k].from in [root] + Targets(steps[..k])
      && steps[k].from in g
      && Edge(steps[k].target, steps[k].leftOn, steps[k].rightOn) in g[steps[k].from]
  }

  lemma ChainedSnoc(g: map<string, seq<Edge>>, root: string, steps: seq<JoinStep>, s: JoinStep)
    requires Chained(g, root, steps)
    requires s.from in [root] + Targets(steps) && s.from in g
    requires Edge(s.target, s.leftOn, s.rightOn) in g[s.from]
    ensures Chained(g, root, steps + [s])
  {
    var all := steps + [s];
    assert all[..|steps|] == steps;
    forall k | 0 <= k < |steps| ensures all[..k] == steps[..k] && all[k] == steps[k] { }
  }

  lemma ChainedPrefix(g: map<string, seq<Edge>>, root: string, steps: seq<JoinStep>, n: nat)
    requires Chained(g, root, steps) && n <= |steps|
    ensures Chained(g, root, steps[..n])
  {
    var front := steps[..n];
    forall k | 0 <= k < |front| ensures front[..k] == steps[..k] && front[k] == steps[k] { }
  }

  /** Every table a chained join log reaches is reachable from the root. */
  lemma {:induction false} ChainedReachable(g: map<string, seq<Edge>>, root: string, steps: seq<JoinStep>)
    requires Chained(g, root, steps)
    ensures forall t :: t in [root] + Targets(steps) ==> Reachable(g, root, t)
  {
    if steps == [] {
      ReachableSelf(g, root);
    } else {
      var n := |steps| - 1;
      var front := steps[..n];
      var s := steps[n];
      ChainedPrefix(g, root, steps, n);
      ChainedReachable(g, root, front);
      assert s.from in [root] + Targets(front) && s.from in g;
      assert Edge(s.target, s.leftOn, s.rightOn) in g[s.from];
      ReachableStep(g, root, s.from, Edge(s.target, s.leftOn, s.rightOn));
      SplitLast(steps);
      TargetsSnoc(front, s);
      forall t | t in [root] + Targets(steps) ensures Reachable(g, root, t) {
        if t != s.target {
          assert t in [root] + Targets(front);
        }
      }
    }
  }

  /**
   * When the tables a chained log has merged have no edge into the remaining
   * ones, the remaining tables are exactly those not reachable from the root.
   */
  lemma ReachPartition(g: map<string, seq<Edge>>, loaded: set<string>, root: string,
                       steps: seq<JoinStep>, remaining: set<string>)
    requires Chained(g, root, steps)
    requires forall t :: t in [root] + Targets(steps) ==> t in loaded
    requires forall t :: t in remaining <==> t in loaded && t !in [root] + Targets(steps)
    requires forall a, e :: a in [root] + Targets(steps) && a in g && e in g[a] ==> e.target in loaded && e.target !in remaining
    ensures forall t :: t in remaining <==> t in loaded && !Reachable(g, root, t)
  {
    var merged := [root] + Targets(steps);
    var inside := set t | t in merged;
    ChainedReachable(g, root, steps);
    assert Closed(g, inside) by {
      forall a, e | a in inside && a in g && e in g[a] ensures e.target in inside {
        assert a in merged;
      }
    }
    forall t | t in remaining ensures !Reachable(g, root, t) {
      assert root in inside;
      ClosedUnreachable(g, inside, root, t);
    }
  }
}
