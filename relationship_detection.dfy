/**
 * Relationship inference (`DataMerger.detect_relationships`).
 *
 * The nested loops visit, in order, every ordered pair of distinct tables, every
 * foreign-key template for the second table and every column of the first; each
 * column whose name matches the template is a "match". Which matches there are
 * does not depend on the key map, so the specification first lists the matches
 * (MatchesOf) and then folds the key-resolving step over them (Resolve), which
 * is where an unkeyed target table gets its key promoted.
 */
module RelationshipDetection {
  import opened Wrappers
  import opened Text
  import opened Tables

  /** `(table1, table2, key1, key2)`: column `sourceColumn` of `source` refers to `targetColumn` of `target`. */
  datatype Relationship = Relationship(source: string, target: string, sourceColumn: string, targetColumn: string)

  /** The fixed literal template for the six well-known table names, or nothing. */
  function LiteralCandidate(t2: string): (ps: seq<string>)
    ensures |ps| <= 1
    ensures ps == [] <==> t2 !in {"customers", "products", "orders", "employees", "categories", "suppliers"}
  {
    if t2 == "customers" then ["customer_id"]
    else if t2 == "products" then ["product_id"]
    else if t2 == "orders" then ["order_id"]
    else if t2 == "employees" then ["employee_id"]
    else if t2 == "categories" then ["category_id"]
    else if t2 == "suppliers" then ["supplier_id"]
    else []
  }

  /**
   * The foreign-key name candidates for a target table, in template order, with
   * the `None` results dropped. The singular templates drop the name's last
   * character whether or not it ends in "s".
   */
  function FkCandidates(t2: string): (ps: seq<string>)
    ensures |ps| == 8 + |LiteralCandidate(t2)|
    ensures ps[2] == DropLast(t2) + "_id" && ps[6] == DropLast(t2) + "id" && ps[7] == DropLast(t2) + "_code"
    ensures ps[8..] == LiteralCandidate(t2)
  {
    [t2 + "_id", t2 + "id", DropLast(t2) + "_id",
     t2 + "_key", t2 + "_code", t2 + "_number",
     DropLast(t2) + "id", DropLast(t2) + "_code"]
    + LiteralCandidate(t2)
  }

  /** No candidate is empty, so the emptiness test on a template's result only skips `None`. */
  lemma FkCandidatesNonEmpty(t2: string)
    ensures forall i :: 0 <= i < |FkCandidates(t2)| ==> |FkCandidates(t2)[i]| >= 2
  {
    var d := DropLast(t2);
    var generic := [t2 + "_id", t2 + "id", d + "_id", t2 + "_key", t2 + "_code", t2 + "_number", d + "id", d + "_code"];
    assert forall i :: 0 <= i < |generic| ==> |generic[i]| >= 2;
    var lit := LiteralCandidate(t2);
    assert forall i :: 0 <= i < |lit| ==> |lit[i]| >= 2;
    assert FkCandidates(t2) == generic + lit;
  }

  /** The names a target column may have when the target table has no key yet. */
  function IdNames(t2: string): seq<string>
  {
    ["id", t2 + "_id", t2 + "id"]
  }

  function IdLike(t2: string, table: Table): string -> bool
  {
    c => Lower(c) in IdNames(t2) && IsUnique(table, c)
  }

  /** The first unique column of `t2` whose lower-cased name is `id`, `{t2}_id` or `{t2}id`. */
  function IdColumn(t2: string, table: Table): (r: Option<string>)
    ensures r.Some? ==> r.value in table.columns && Lower(r.value) in IdNames(t2) && IsUnique(table, r.value)
    ensures r.None? <==> forall c :: c in table.columns ==> !(Lower(c) in IdNames(t2) && IsUnique(table, c))
  {
    FirstWhere(table.columns, IdLike(t2, table))
  }

  /** Column `column` of `source` matched a candidate name for `target` (whose table is `targetTable`). */
  datatype Match = Match(source: string, column: string, target: string, targetTable: Table)

  /** Detection state: the relationships found so far and the key map. */
  datatype Detection = Detection(found: seq<Relationship>, keys: map<string, string>)

  /** What one match does to the detection state. */
  function Resolve(d: Detection, m: Match): Detection
  {
    if m.target in d.keys then
      Detection(d.found + [Relationship(m.source, m.target, m.column, d.keys[m.target])], d.keys)
    else match IdColumn(m.target, m.targetTable)
      case Some(c2) => Detection(d.found + [Relationship(m.source, m.target, m.column, c2)], d.keys[m.target := c2])
      case None => d
  }

  /** The state after resolving `ms` in order, starting from `d`. */
  function ResolveAll(d: Detection, ms: seq<Match>): Detection
  {
    if ms == [] then d else Resolve(ResolveAll(d, ms[..|ms| - 1]), ms[|ms| - 1])
  }

  lemma {:induction false} ResolveAllAppend(d: Detection, a: seq<Match>, b: seq<Match>)
    ensures ResolveAll(d, a + b) == ResolveAll(ResolveAll(d, a), b)
  {
    if b == [] {
      assert a + b == a;
    } else {
      var front, m := b[..|b| - 1], b[|b| - 1];
      ResolveAllAppend(d, a, front);
      AppendSnoc(a, b);
      SplitLast(b);
      ResolveAllSnoc(d, a + front, m);
      ResolveAllSnoc(ResolveAll(d, a), front, m);
    }
  }

  // The matches, level by level, in loop order. Each level is defined on a
  // prefix so that a loop that has handled `s[..i]` adds one element at a time.

  /** Matches of pattern `p` among the columns `cols` of `source`. */
  function ColumnMatches(source: string, cols: seq<string>, p: string, target: string, targetTable: Table): seq<Match>
  {
    if cols == [] then []
    else
      var c := cols[|cols| - 1];
      ColumnMatches(source, cols[..|cols| - 1], p, target, targetTable)
      + (if Lower(c) == Lower(p) then [Match(source, c, target, targetTable)] else [])
  }

  /** Matches of every pattern in `pats`, pattern by pattern. */
  function PatternMatches(source: string, cols: seq<string>, pats: seq<string>, target: string, targetTable: Table): seq<Match>
  {
    if pats == [] then []
    else
      PatternMatches(source, cols, pats[..|pats| - 1], target, targetTable)
      + ColumnMatches(source, cols, pats[|pats| - 1], target, targetTable)
  }

  /** Matches from `source` to one target; none when the two are the same table. */
  function PairMatches(source: string, sourceTable: Table, target: string, targetTable: Table): seq<Match>
  {
    if source == target then []
    else PatternMatches(source, sourceTable.columns, FkCandidates(target), target, targetTable)
  }

  /** Matches from `source` to every table in `targets`. */
  function TargetMatches(source: string, sourceTable: Table, targets: seq<string>, tables: map<string, Table>): seq<Match>
    requires forall t :: t in targets ==> t in tables
  {
    if targets == [] then []
    else
      var t := targets[|targets| - 1];
      TargetMatches(source, sourceTable, targets[..|targets| - 1], tables)
      + PairMatches(source, sourceTable, t, tables[t])
  }

  /** Matches from every table in `sources` to every table in `names`. */
  function MatchesOf(sources: seq<string>, names: seq<string>, tables: map<string, Table>): seq<Match>
    requires forall t :: t in sources ==> t in tables
    requires forall t :: t in names ==> t in tables
  {
    if sources == [] then []
    else
      var s := sources[|sources| - 1];
      MatchesOf(sources[..|sources| - 1], names, tables)
      + TargetMatches(s, tables[s], names, tables)
  }

  /** The outcome of `detect_relationships`: the list starts empty and the key map is threaded through. */
  function Detect(names: seq<string>, tables: map<string, Table>, keys: map<string, string>): Detection
    requires forall t :: t in names ==> t in tables
  {
    ResolveAll(Detection([], keys), MatchesOf(names, names, tables))
  }

  // ---------------------------------------------------------------------------
  // Which matches there are.

  /** A match really is one: the column's name equals one of the target's candidates, up to case. */
  ghost predicate GenuineMatch(m: Match, sourceTable: Table)
  {
    m.source != m.target && m.column in sourceTable.columns &&
    exists p :: p in FkCandidates(m.target) && Lower(m.column) == Lower(p)
  }

  lemma {:induction false} ColumnMatchesExactly(source: string, cols: seq<string>, p: string, target: string, targetTable: Table)
    ensures forall m :: m in ColumnMatches(source, cols, p, target, targetTable) <==>
      m.source == source && m.target == target && m.targetTable == targetTable && m.column in cols && Lower(m.column) == Lower(p)
  {
    if cols != [] {
      ColumnMatchesExactly(source, cols[..|cols| - 1], p, target, targetTable);
      assert cols == cols[..|cols| - 1] + [cols[|cols| - 1]];
    }
  }

  lemma {:induction false} PatternMatchesExactly(source: string, cols: seq<string>, pats: seq<string>, target: string, targetTable: Table)
    ensures forall m :: m in PatternMatches(source, cols, pats, target, targetTable) <==>
      m.source == source && m.target == target && m.targetTable == targetTable && m.column in cols &&
      exists p :: p in pats && Lower(m.column) == Lower(p)
  {
    if pats != [] {
      var front, last := pats[..|pats| - 1], pats[|pats| - 1];
      PatternMatchesExactly(source, cols, front, target, targetTable);
      ColumnMatchesExactly(source, cols, last, target, targetTable);
      assert pats == front + [last];
      forall m: Match | m.source == source && m.target == target && m.targetTable == targetTable && m.column in cols &&
                 (exists p :: p in pats && Lower(m.column) == Lower(p))
        ensures m in PatternMatches(source, cols, pats, target, targetTable)
      {
        var p :| p in pats && Lower(m.column) == Lower(p);
        if p != last { assert p in front; }
      }
      forall m | m in PatternMatches(source, cols, pats, target, targetTable)
        ensures exists p :: p in pats && Lower(m.column) == Lower(p)
      {
        if m in PatternMatches(source, cols, front, target, targetTable) {
          var p :| p in front && Lower(m.column) == Lower(p);
          assert p in pats;
        } else {
          assert last in pats;
        }
      }
    }
  }

  lemma {:induction false} TargetMatchesExactly(source: string, sourceTable: Table, targets: seq<string>, tables: map<string, Table>)
    requires forall t :: t in targets ==> t in tables
    ensures forall m :: m in TargetMatches(source, sourceTable, targets, tables) <==>
      m.source == source && m.target in targets && m.targetTable == tables[m.target] && GenuineMatch(m, sourceTable)
  {
    if targets != [] {
      var last := targets[|targets| - 1];
      TargetMatchesExactly(source, sourceTable, targets[..|targets| - 1], tables);
      if source != last {
        PatternMatchesExactly(source, sourceTable.columns, FkCandidates(last), last, tables[last]);
      }
      assert targets == targets[..|targets| - 1] + [last];
    }
  }

  /**
   * The matches are exactly the (table1, column, table2) triples with distinct
   * loaded tables and a column of table1 equal, up to case, to a candidate of table2.
   */
  lemma {:induction false} MatchesOfExactly(sources: seq<string>, names: seq<string>, tables: map<string, Table>)
    requires forall t :: t in sources ==> t in tables
    requires forall t :: t in names ==> t in tables
    ensures forall m :: m in MatchesOf(sources, names, tables) <==>
      m.source in sources && m.target in names && m.targetTable == tables[m.target] && GenuineMatch(m, tables[m.source])
  {
    if sources != [] {
      var last := sources[|sources| - 1];
      MatchesOfExactly(sources[..|sources| - 1], names, tables);
      TargetMatchesExactly(last, tables[last], names, tables);
      assert sources == sources[..|sources| - 1] + [last];
    }
  }

  // ---------------------------------------------------------------------------
  // What resolving the matches does.

  /** Every recorded key is a column of its (loaded) table. */
  ghost predicate KeysAreColumns(keys: map<string, string>, tables: map<string, Table>)
  {
    forall t :: t in keys ==> t in tables && keys[t] in tables[t].columns
  }

  /** Every match's table is the loaded table of that name. */
  ghost predicate TablesAgree(ms: seq<Match>, tables: map<string, Table>)
  {
    forall m :: m in ms ==> m.target in tables && m.targetTable == tables[m.target]
  }

  /**
   * Resolving keeps what was there: earlier relationships stay as they are, keys
   * already recorded are never overwritten, every new key is a unique column named
   * like `id` of a target, and keys that were columns of their tables stay so.
   */
  lemma {:induction false} ResolveAllKeepsKeys(d: Detection, ms: seq<Match>, tables: map<string, Table>)
    requires TablesAgree(ms, tables)
    ensures var r := ResolveAll(d, ms);
      && d.found <= r.found
      && (forall t :: t in d.keys ==> t in r.keys && r.keys[t] == d.keys[t])
      && (forall t :: t in r.keys && t !in d.keys ==> t in tables && IdColumn(t, tables[t]) == Some(r.keys[t]))
      && (KeysAreColumns(d.keys, tables) ==> KeysAreColumns(r.keys, tables))
  {
    if ms != [] {
      var front := ms[..|ms| - 1];
      assert TablesAgree(front, tables) by {
        forall m | m in front ensures m in ms { }
      }
      ResolveAllKeepsKeys(d, front, tables);
      assert ms[|ms| - 1] in ms;
    }
  }

  /** Every relationship's target column is the target's key in the resulting key map. */
  ghost predicate TargetsAreKeys(d: Detection)
  {
    forall r :: r in d.found ==> r.target in d.keys && d.keys[r.target] == r.targetColumn
  }

  lemma {:induction false} ResolveAllTargetsKeys(d: Detection, ms: seq<Match>)
    requires TargetsAreKeys(d)
    ensures TargetsAreKeys(ResolveAll(d, ms))
  {
    if ms != [] {
      ResolveAllTargetsKeys(d, ms[..|ms| - 1]);
    }
  }

  /** Every relationship found comes from a match, with the match's tables and column. */
  lemma {:induction false} ResolveAllFromMatches(d: Detection, ms: seq<Match>)
    ensures var r := ResolveAll(d, ms);
      forall k :: |d.found| <= k < |r.found| ==>
        exists m :: m in ms && r.found[k].source == m.source && r.found[k].target == m.target &&
          r.found[k].sourceColumn == m.column
  {
    if ms != [] {
      var front := ms[..|ms| - 1];
      ResolveAllFromMatches(d, front);
      ResolveAllKeepsLength(d, front);
      var mid := ResolveAll(d, front);
      var r := ResolveAll(d, ms);
      forall k | |d.found| <= k < |r.found|
        ensures exists m :: m in ms && r.found[k].source == m.source && r.found[k].target == m.target && r.found[k].sourceColumn == m.column
      {
        if k < |mid.found| {
          assert r.found[k] == mid.found[k];
          var m :| m in front && mid.found[k].source == m.source && mid.found[k].target == m.target &&
            mid.found[k].sourceColumn == m.column;
          assert m in ms;
        } else {
          assert ms[|ms| - 1] in ms;
        }
      }
    }
  }

  lemma {:induction false} ResolveAllKeepsLength(d: Detection, ms: seq<Match>)
    ensures d.found <= ResolveAll(d, ms).found
    ensures |ResolveAll(d, ms).found| <= |d.found| + |ms|
  {
    if ms != [] {
      ResolveAllKeepsLength(d, ms[..|ms| - 1]);
    }
  }

  /**
   * When every match's target already has a key, each match yields exactly one
   * relationship, in order, to that key: nothing is deduplicated and no key changes.
   */
  lemma {:induction false} ResolveAllKeyed(d: Detection, ms: seq<Match>)
    requires forall m :: m in ms ==> m.target in d.keys
    ensures ResolveAll(d, ms).keys == d.keys
    ensures |ResolveAll(d, ms).found| == |d.found| + |ms|
    ensures forall k :: 0 <= k < |ms| ==>
      ResolveAll(d, ms).found[|d.found| + k] == Relationship(ms[k].source, ms[k].target, ms[k].column, d.keys[ms[k].target])
  {
    if ms != [] {
      var front := ms[..|ms| - 1];
      assert forall m :: m in front ==> m in ms;
      ResolveAllKeyed(d, front);
      assert ms[|ms| - 1] in ms;
      forall k | 0 <= k < |ms| - 1
        ensures ResolveAll(d, ms).found[|d.found| + k] == Relationship(ms[k].source, ms[k].target, ms[k].column, d.keys[ms[k].target])
      {
        assert front[k] == ms[k];
      }
    }
  }

  /** The column a match resolves to in state `d`: the target's key, else its promotable id column. */
  function TargetColumn(d: Detection, m: Match): Option<string>
  {
    if m.target in d.keys then Some(d.keys[m.target]) else IdColumn(m.target, m.targetTable)
  }

  /**
   * A match that resolves emits its relationship, and its target ends up keyed
   * by that column; what a match resolves to does not depend on the matches
   * before it.
   */
  lemma ResolveAllEmits(d: Detection, front: seq<Match>, m: Match, rest: seq<Match>, tables: map<string, Table>)
    requires TablesAgree(front + [m], tables) && TablesAgree(rest, tables)
    requires TargetColumn(d, m).Some?
    ensures var c2 := TargetColumn(d, m).value;
      var r := ResolveAll(d, front + [m] + rest);
      && Relationship(m.source, m.target, m.column, c2) in r.found
      && m.target in r.keys && r.keys[m.target] == c2
  {
    EmitsOnArrival(d, front, m, tables);
    ResolveAllKeepsKeys(ResolveAll(d, front + [m]), rest, tables);
    ResolveAllAppend(d, front + [m], rest);
  }

  lemma EmitsOnArrival(d: Detection, front: seq<Match>, m: Match, tables: map<string, Table>)
    requires TablesAgree(front + [m], tables)
    requires TargetColumn(d, m).Some?
    ensures var after := ResolveAll(d, front + [m]);
      && Relationship(m.source, m.target, m.column, TargetColumn(d, m).value) in after.found
      && m.target in after.keys && after.keys[m.target] == TargetColumn(d, m).value
  {
    assert TablesAgree(front, tables) by {
      forall x | x in front ensures x in front + [m] { }
    }
    assert m in front + [m];
    ResolveAllKeepsKeys(d, front, tables);
    ResolveAllKeepsKeys(d, front + [m], tables);
    var mid := ResolveAll(d, front);
    assert TargetColumn(mid, m) == TargetColumn(d, m);
    assert (front + [m])[..|front + [m]| - 1] == front;
  }

  /** A target with no key and no promotable id column receives no relationship and no key. */
  lemma {:induction false} ResolveAllSkipsUnresolvable(d: Detection, ms: seq<Match>, t: string)
    requires t !in d.keys
    requires forall m :: m in ms && m.target == t ==> IdColumn(t, m.targetTable).None?
    ensures t !in ResolveAll(d, ms).keys
    ensures forall k :: |d.found| <= k < |ResolveAll(d, ms).found| ==> ResolveAll(d, ms).found[k].target != t
  {
    if ms != [] {
      var front := ms[..|ms| - 1];
      assert forall m :: m in front ==> m in ms;
      ResolveAllSkipsUnresolvable(d, front, t);
      assert ms[|ms| - 1] in ms;
    }
  }

  // ---------------------------------------------------------------------------
  // The whole detection.

  /** The name list and the table map hold the same tables. */
  ghost predicate Registry(names: seq<string>, tables: map<string, Table>)
  {
    forall t :: t in names <==> t in tables
  }

  /** `rel` joins two distinct loaded tables through a column of the first that matches a candidate of the second. */
  ghost predicate JoinsLoaded(rel: Relationship, tables: map<string, Table>)
  {
    && rel.source in tables && rel.target in tables && rel.source != rel.target
    && rel.sourceColumn in tables[rel.source].columns
    && exists p :: p in FkCandidates(rel.target) && Lower(rel.sourceColumn) == Lower(p)
  }

  /** A relationship found from an empty start comes from one of the matches. */
  lemma FoundFromMatch(keys: map<string, string>, ms: seq<Match>, rel: Relationship)
    requires rel in ResolveAll(Detection([], keys), ms).found
    ensures exists m :: m in ms && rel.source == m.source && rel.target == m.target && rel.sourceColumn == m.column
  {
    var d0 := Detection([], keys);
    var r := ResolveAll(d0, ms);
    ResolveAllFromMatches(d0, ms);
    var k :| 0 <= k < |r.found| && r.found[k] == rel;
    assert |d0.found| <= k < |r.found|;
  }

  /**
   * Every relationship detection emits joins two distinct loaded tables through
   * a column of the first that matches a candidate of the second, and points at
   * the second table's key in the resulting key map. That key is one of its
   * columns, unless it is a key recorded before detection (a table reloaded
   * without a key candidate keeps its old key, which may name no column).
   */
  lemma DetectSound(names: seq<string>, tables: map<string, Table>, keys: map<string, string>)
    requires Registry(names, tables)
    ensures var r := Detect(names, tables, keys);
      forall rel :: rel in r.found ==>
        && JoinsLoaded(rel, tables)
        && rel.target in r.keys && r.keys[rel.target] == rel.targetColumn
        && (rel.targetColumn in tables[rel.target].columns || (rel.target in keys && keys[rel.target] == rel.targetColumn))
  {
    var ms := MatchesOf(names, names, tables);
    var d0 := Detection([], keys);
    var r := ResolveAll(d0, ms);
    assert forall rel :: rel in r.found ==> JoinsLoaded(rel, tables) by {
      MatchesOfExactly(names, names, tables);
      ResolveAllFromMatches(d0, ms);
      forall rel | rel in r.found ensures JoinsLoaded(rel, tables) {
        FoundFromMatch(keys, ms, rel);
        var m :| m in ms && rel.source == m.source && rel.target == m.target && rel.sourceColumn == m.column;
      }
    }
    assert TablesAgree(ms, tables) by {
      MatchesOfExactly(names, names, tables);
    }
    ResolveAllKeepsKeys(d0, ms, tables);
    ResolveAllTargetsKeys(d0, ms);
    forall rel | rel in r.found
      ensures rel.targetColumn in tables[rel.target].columns || (rel.target in keys && keys[rel.target] == rel.targetColumn)
    {
      if rel.target !in keys {
        assert IdColumn(rel.target, tables[rel.target]) == Some(rel.targetColumn);
      }
    }
  }

  /**
   * Detection never overwrites a key: recorded keys survive, and a table gains
   * a key only by promotion of its first unique column named `id`, `{t}_id` or `{t}id`.
   */
  lemma DetectPromotesOnly(names: seq<string>, tables: map<string, Table>, keys: map<string, string>)
    requires Registry(names, tables)
    ensures var r := Detect(names, tables, keys);
      && (forall t :: t in keys ==> t in r.keys && r.keys[t] == keys[t])
      && (forall t :: t in r.keys && t !in keys ==> t in tables && IdColumn(t, tables[t]) == Some(r.keys[t]))
      && (KeysAreColumns(keys, tables) ==> KeysAreColumns(r.keys, tables))
  {
    MatchesOfExactly(names, names, tables);
    ResolveAllKeepsKeys(Detection([], keys), MatchesOf(names, names, tables), tables);
  }

  /**
   * A column of one loaded table that matches a candidate of another is
   * reported: as a reference to the target's key when it has one, even a key a
   * reload left naming no column (for instance `orders.customer_id` to
   * `customers.id`), otherwise to the target's first
   * unique id column, which then becomes the target's key.
   */
  lemma DetectFindsReference(names: seq<string>, tables: map<string, Table>, keys: map<string, string>,
                             source: string, column: string, target: string, p: string)
    requires Registry(names, tables)
    requires source in names && target in names && source != target
    requires column in tables[source].columns && p in FkCandidates(target) && Lower(column) == Lower(p)
    ensures var r := Detect(names, tables, keys);
      && (target in keys ==> Relationship(source, target, column, keys[target]) in r.found)
      && (target !in keys && IdColumn(target, tables[target]).Some? ==>
            var c2 := IdColumn(target, tables[target]).value;
            Relationship(source, target, column, c2) in r.found && target in r.keys && r.keys[target] == c2)
  {
    var ms := MatchesOf(names, names, tables);
    var m := Match(source, column, target, tables[target]);
    var i := MatchListed(names, tables, source, column, target, p);
    if TargetColumn(Detection([], keys), m).Some? {
      ResolveAllEmitsAt(Detection([], keys), ms, i, tables);
    }
  }

  /** Every genuine column-to-candidate match occurs in the scanned match list. */
  lemma MatchListed(names: seq<string>, tables: map<string, Table>,
                    source: string, column: string, target: string, p: string) returns (i: nat)
    requires Registry(names, tables)
    requires source in names && target in names && source != target
    requires column in tables[source].columns && p in FkCandidates(target) && Lower(column) == Lower(p)
    ensures var ms := MatchesOf(names, names, tables);
      i < |ms| && ms[i] == Match(source, column, target, tables[target]) && TablesAgree(ms, tables)
  {
    var ms := MatchesOf(names, names, tables);
    MatchesOfExactly(names, names, tables);
    var m := Match(source, column, target, tables[target]);
    assert GenuineMatch(m, tables[source]);
    assert m in ms;
    i :| 0 <= i < |ms| && ms[i] == m;
  }

  /** A resolvable match at position `i` of the list emits its relationship. */
  lemma ResolveAllEmitsAt(d: Detection, ms: seq<Match>, i: nat, tables: map<string, Table>)
    requires i < |ms| && TablesAgree(ms, tables)
    requires TargetColumn(d, ms[i]).Some?
    ensures var m := ms[i]; var c2 := TargetColumn(d, m).value; var r := ResolveAll(d, ms);
      && Relationship(m.source, m.target, m.column, c2) in r.found && m.target in r.keys && r.keys[m.target] == c2
  {
    var front, m, rest := ms[..i], ms[i], ms[i + 1..];
    SplitAt(ms, i);
    TablesAgreeSplit(front, m, rest, tables);
    ResolveAllEmits(d, front, m, rest, tables);
  }

  lemma SplitAt<T>(s: seq<T>, i: nat)
    requires i < |s|
    ensures s == s[..i] + [s[i]] + s[i + 1..]
  {
  }

  lemma TablesAgreeSplit(front: seq<Match>, m: Match, rest: seq<Match>, tables: map<string, Table>)
    requires TablesAgree(front + [m] + rest, tables)
    ensures TablesAgree(front + [m], tables) && TablesAgree(rest, tables)
  {
    assert forall x :: x in front + [m] ==> x in front + [m] + rest;
    assert forall x :: x in rest ==> x in front + [m] + rest;
  }

  /**
   * A table with no key and no unique column named `id`, `{t}_id` or `{t}id`
   * is never the target of a detected relationship and stays unkeyed.
   */
  lemma DetectSkipsUnkeyable(names: seq<string>, tables: map<string, Table>, keys: map<string, string>, target: string)
    requires Registry(names, tables)
    requires target in tables && target !in keys && IdColumn(target, tables[target]).None?
    ensures var r := Detect(names, tables, keys);
      target !in r.keys && forall rel :: rel in r.found ==> rel.target != target
  {
    var ms := MatchesOf(names, names, tables);
    MatchesOfExactly(names, names, tables);
    ResolveAllSkipsUnresolvable(Detection([], keys), ms, target);
  }

  /** Resolving one more match is one more Resolve step. */
  lemma ResolveAllSnoc(d: Detection, ms: seq<Match>, m: Match)
    ensures ResolveAll(d, ms + [m]) == Resolve(ResolveAll(d, ms), m)
  {
    assert (ms + [m])[..|ms|] == ms;
  }

  /** One more column scanned: a match when its name fits the candidate, nothing otherwise. */
  lemma ColumnMatchesSnoc(source: string, cols: seq<string>, p: string, target: string, targetTable: Table, l: nat)
    requires l < |cols|
    ensures Lower(cols[l]) == Lower(p) ==>
      ColumnMatches(source, cols[..l + 1], p, target, targetTable)
      == ColumnMatches(source, cols[..l], p, target, targetTable) + [Match(source, cols[l], target, targetTable)]
    ensures Lower(cols[l]) != Lower(p) ==>
      ColumnMatches(source, cols[..l + 1], p, target, targetTable) == ColumnMatches(source, cols[..l], p, target, targetTable)
  {
    assert cols[..l + 1][..l] == cols[..l];
    var front := ColumnMatches(source, cols[..l], p, target, targetTable);
    assert front + [] == front;
  }

  /** One more template scanned adds that template's column matches. */
  lemma PatternMatchesSnoc(source: string, cols: seq<string>, pats: seq<string>, target: string, targetTable: Table, k: nat)
    requires k < |pats|
    ensures PatternMatches(source, cols, pats[..k + 1], target, targetTable)
      == PatternMatches(source, cols, pats[..k], target, targetTable) + ColumnMatches(source, cols, pats[k], target, targetTable)
  {
    assert pats[..k + 1][..k] == pats[..k];
  }

  /** One more target scanned adds the matches towards it. */
  lemma TargetMatchesSnoc(source: string, sourceTable: Table, targets: seq<string>, tables: map<string, Table>, j: nat)
    requires forall t :: t in targets ==> t in tables
    requires j < |targets|
    ensures forall t :: t in targets[..j] ==> t in tables
    ensures TargetMatches(source, sourceTable, targets[..j + 1], tables)
      == TargetMatches(source, sourceTable, targets[..j], tables) + PairMatches(source, sourceTable, targets[j], tables[targets[j]])
  {
    assert targets[..j + 1][..j] == targets[..j];
  }

  /** One more source table scanned adds its matches towards every table. */
  lemma MatchesOfSnoc(sources: seq<string>, names: seq<string>, tables: map<string, Table>, i: nat)
    requires forall t :: t in sources ==> t in tables
    requires forall t :: t in names ==> t in tables
    requires i < |sources|
    ensures forall t :: t in sources[..i] ==> t in tables
    ensures MatchesOf(sources[..i + 1], names, tables)
      == MatchesOf(sources[..i], names, tables) + TargetMatches(sources[i], tables[sources[i]], names, tables)
  {
    assert sources[..i + 1][..i] == sources[..i];
  }

  /** When every match joins tables of `s`, so does everything the fold adds. */
  lemma {:induction false} ResolveAllStaysIn(d: Detection, ms: seq<Match>, s: set<string>)
    requires forall m :: m in ms ==> m.source in s && m.target in s
    ensures var r := ResolveAll(d, ms);
      && (forall rel :: rel in r.found ==> rel in d.found || (rel.source in s && rel.target in s))
      && (forall t :: t in r.keys ==> t in d.keys || t in s)
  {
    if ms != [] {
      var front := ms[..|ms| - 1];
      assert forall m :: m in front ==> m in ms;
      ResolveAllStaysIn(d, front, s);
      assert ms[|ms| - 1] in ms;
    }
  }

  lemma MatchesOfEndpoints(names: seq<string>, tables: map<string, Table>)
    requires Registry(names, tables)
    ensures forall m :: m in MatchesOf(names, names, tables) ==> m.source in tables && m.target in tables
  {
    MatchesOfExactly(names, names, tables);
  }

  /**
   * Detection stays among the loaded tables: every relationship joins two of
   * them, and every key it adds belongs to one of them.
   */
  lemma DetectStaysLoaded(names: seq<string>, tables: map<string, Table>, keys: map<string, string>)
    requires Registry(names, tables)
    ensures var r := Detect(names, tables, keys);
      && (forall rel :: rel in r.found ==> rel.source in tables && rel.target in tables)
      && (forall t :: t in r.keys ==> t in keys || t in tables)
  {
    var ms := MatchesOf(names, names, tables);
    MatchesOfEndpoints(names, tables);
    ResolveAllStaysIn(Detection([], keys), ms, tables.Keys);
  }

  // ---------------------------------------------------------------------------
  // Matches are not deduplicated.

  /** The relationship a match yields when resolved in state `d`, if any. */
  function Yield(d: Detection, m: Match): seq<Relationship>
  {
    match TargetColumn(d, m)
    case Some(c2) => [Relationship(m.source, m.target, m.column, c2)]
    case None => []
  }

  /** Each match's relationship, in match order, resolved against the start state `d`. */
  function Emitted(d: Detection, ms: seq<Match>): (rs: seq<Relationship>)
    ensures |rs| <= |ms|
  {
    if ms == [] then [] else Emitted(d, ms[..|ms| - 1]) + Yield(d, ms[|ms| - 1])
  }

  /**
   * Resolving appends exactly one relationship per resolvable match, in match
   * order: a match resolves the same way whatever the matches before it promoted.
   */
  lemma {:induction false} ResolveAllFound(d: Detection, ms: seq<Match>, tables: map<string, Table>)
    requires TablesAgree(ms, tables)
    ensures ResolveAll(d, ms).found == d.found + Emitted(d, ms)
  {
    if ms != [] {
      var front, m := ms[..|ms| - 1], ms[|ms| - 1];
      assert TablesAgree(front, tables) by {
        forall x | x in front ensures x in ms { }
      }
      assert m in ms;
      ResolveAllFound(d, front, tables);
      ResolveAllKeepsKeys(d, front, tables);
      var mid := ResolveAll(d, front);
      assert TargetColumn(mid, m) == TargetColumn(d, m);
      AppendAssoc(d.found, Emitted(d, front), Yield(d, m));
    }
  }

  /** The relationships detection returns are the emitted ones of the scanned matches, in scan order. */
  lemma DetectFound(names: seq<string>, tables: map<string, Table>, keys: map<string, string>)
    requires Registry(names, tables)
    ensures Detect(names, tables, keys).found == Emitted(Detection([], keys), MatchesOf(names, names, tables))
  {
    var ms := MatchesOf(names, names, tables);
    MatchesOfExactly(names, names, tables);
    ResolveAllFound(Detection([], keys), ms, tables);
    assert [] + Emitted(Detection([], keys), ms) == Emitted(Detection([], keys), ms);
  }

  /** A resolvable match listed `n` times yields its relationship at least `n` times. */
  lemma {:induction false} EmittedCount(d: Detection, ms: seq<Match>, m: Match)
    requires TargetColumn(d, m).Some?
    ensures multiset(Emitted(d, ms))[Relationship(m.source, m.target, m.column, TargetColumn(d, m).value)] >= multiset(ms)[m]
  {
    if ms != [] {
      var front := ms[..|ms| - 1];
      EmittedCount(d, front, m);
      SplitLast(ms);
      assert multiset(ms) == multiset(front) + multiset{ms[|ms| - 1]};
    }
  }

  /** A column whose name fits two templates `j1 < j2` is listed at least twice. */
  lemma {:induction false} PatternMatchesTwice(source: string, cols: seq<string>, pats: seq<string>, target: string,
                                               targetTable: Table, column: string, j1: nat, j2: nat)
    requires column in cols && j1 < j2 < |pats|
    requires Lower(column) == Lower(pats[j1]) && Lower(column) == Lower(pats[j2])
    ensures multiset(PatternMatches(source, cols, pats, target, targetTable))[Match(source, column, target, targetTable)] >= 2
  {
    var m := Match(source, column, target, targetTable);
    var front, last := pats[..|pats| - 1], pats[|pats| - 1];
    var earlier := PatternMatches(source, cols, front, target, targetTable);
    var at := ColumnMatches(source, cols, last, target, targetTable);
    assert multiset(PatternMatches(source, cols, pats, target, targetTable)) == multiset(earlier) + multiset(at);
    if j2 == |pats| - 1 {
      PatternMatchesExactly(source, cols, front, target, targetTable);
      assert pats[j1] in front;
      assert m in earlier;
      ColumnMatchesExactly(source, cols, last, target, targetTable);
      assert m in at;
    } else {
      assert front[j1] == pats[j1] && front[j2] == pats[j2];
      PatternMatchesTwice(source, cols, front, target, targetTable, column, j1, j2);
    }
  }

  /** The matches towards `target` are among the matches towards all of `targets`. */
  lemma {:induction false} TargetMatchesHolds(source: string, sourceTable: Table, targets: seq<string>, tables: map<string, Table>, target: string)
    requires forall t :: t in targets ==> t in tables
    requires target in targets
    ensures multiset(PairMatches(source, sourceTable, target, tables[target]))
      <= multiset(TargetMatches(source, sourceTable, targets, tables))
  {
    var front, last := targets[..|targets| - 1], targets[|targets| - 1];
    SplitLast(targets);
    if target != last {
      assert target in front;
      TargetMatchesHolds(source, sourceTable, front, tables, target);
    }
  }

  /** The matches from `source` are among the matches from all of `sources`. */
  lemma {:induction false} MatchesOfHolds(sources: seq<string>, names: seq<string>, tables: map<string, Table>, source: string)
    requires forall t :: t in sources ==> t in tables
    requires forall t :: t in names ==> t in tables
    requires source in sources
    ensures multiset(TargetMatches(source, tables[source], names, tables)) <= multiset(MatchesOf(sources, names, tables))
  {
    var front, last := sources[..|sources| - 1], sources[|sources| - 1];
    SplitLast(sources);
    if source != last {
      assert source in front;
      MatchesOfHolds(front, names, tables, source);
    }
  }

  /**
   * Nothing is deduplicated: a column of one loaded table whose name fits two
   * candidates of another table (such as `customer_id`, which is both the
   * singular template and the literal one for `customers`) is reported at
   * least twice when that table has a key or a promotable id column.
   */
  lemma DetectRepeats(names: seq<string>, tables: map<string, Table>, keys: map<string, string>,
                      source: string, column: string, target: string, j1: nat, j2: nat)
    requires Registry(names, tables)
    requires source in names && target in names && source != target && column in tables[source].columns
    requires j1 < j2 < |FkCandidates(target)|
    requires Lower(column) == Lower(FkCandidates(target)[j1]) && Lower(column) == Lower(FkCandidates(target)[j2])
    requires target in keys || IdColumn(target, tables[target]).Some?
    ensures var c2 := if target in keys then keys[target] else IdColumn(target, tables[target]).value;
      multiset(Detect(names, tables, keys).found)[Relationship(source, target, column, c2)] >= 2
  {
    var m := Match(source, column, target, tables[target]);
    var ms := MatchesOf(names, names, tables);
    PatternMatchesTwice(source, tables[source].columns, FkCandidates(target), target, tables[target], column, j1, j2);
    TargetMatchesHolds(source, tables[source], names, tables, target);
    MatchesOfHolds(names, names, tables, source);
    assert multiset(ms)[m] >= 2;
    EmittedCount(Detection([], keys), ms, m);
    DetectFound(names, tables, keys);
  }

  /** `orders.customer_id` refers to a keyed `customers` table twice. */
  lemma CustomerIdTwice(names: seq<string>, tables: map<string, Table>, keys: map<string, string>)
    requires Registry(names, tables)
    requires "orders" in names && "customers" in names && "customer_id" in tables["orders"].columns
    requires "customers" in keys
    ensures multiset(Detect(names, tables, keys).found)[Relationship("orders", "customers", "customer_id", keys["customers"])] >= 2
  {
    var cands := FkCandidates("customers");
    assert DropLast("customers") == "customer";
    assert cands[2] == "customer_id" && cands[8] == "customer_id";
    DetectRepeats(names, tables, keys, "orders", "customer_id", "customers", 2, 8);
  }
}
