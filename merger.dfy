/**
 * The `DataMerger` object: the loaded tables (in load order), the relationship
 * list and the key map, and the operations that update them in place or read
 * them: loading, key detection, relationship detection, the manual edits, the
 * two graph views, the summary, and the merge.
 */
module Merger {
  import opened Wrappers
  import opened Text
  import opened Tables
  import opened Joins
  import opened KeyDetection
  import opened RelationshipDetection
  import opened Graph
  import opened FileNames
  import opened MergePlan

  /** The `ValueError`s the merger raises, and the `KeyError` a join on a missing column raises. */
  datatype DataError =
    | UnknownTable(table: string)
    | UnknownColumn(table: string, column: string)
    | NoDataLoaded
    | NoRelationships
    | NoTablesToMerge
    | MissingJoinColumn

  /**
   * What `merge_data` produces: the merged frame, together with where it started,
   * the joins it performed in order and the tables it could not reach (the ones
   * it warns about).
   */
  datatype MergeResult = MergeResult(frame: Table, root: string, steps: seq<JoinStep>, unmerged: set<string>)

  /** The dictionary `get_table_info` returns. */
  datatype TableSummary = TableSummary(tables: seq<string>, primaryKeys: map<string, string>, relationships: seq<Relationship>)

  /** The key map after `_detect_primary_key` has run on table `t` under `name`: a detected key replaces the entry, otherwise nothing changes. */
  function KeyAfterDetection(keys: map<string, string>, name: string, t: Table): map<string, string>
  {
    match DetectKey(name, t)
    case Some(c) => keys[name := c]
    case None => keys
  }

  /**
   * Key detection touches only the entry of the detected table, and what it
   * records there is a unique column of that table; when it detects nothing, an
   * earlier key of the table stays.
   */
  lemma KeyAfterDetectionChangesOne(keys: map<string, string>, name: string, t: Table)
    ensures var after := KeyAfterDetection(keys, name, t);
      && (forall u :: u != name ==> (u in after <==> u in keys) && (u in keys ==> after[u] == keys[u]))
      && (DetectKey(name, t).Some? ==> name in after && after[name] in t.columns && IsUnique(t, after[name]))
      && (DetectKey(name, t).None? ==> after == keys)
  {
    if DetectKey(name, t).Some? {
      DetectKeyIsUniqueColumn(name, t);
    }
  }

  // ---------------------------------------------------------------------------
  // The three searches of `_detect_primary_key`, each returning its first hit.

  /** The first unique column named `p` up to case. */
  method FindNamedLike(t: Table, p: string) returns (r: Option<string>)
    ensures r == FirstWhere(t.columns, NamedLike(t, p))
  {
    WholePrefix(t.columns);
    var j := 0;
    while j < |t.columns|
      invariant j <= |t.columns|
      invariant FirstWhere(t.columns, NamedLike(t, p)) == FirstWhere(t.columns[j..], NamedLike(t, p))
    {
      var col := t.columns[j];
      FirstWhereStep(t.columns, j, NamedLike(t, p));
      if Lower(col) == Lower(p) && IsUnique(t, col) {
        return Some(col);
      }
      j := j + 1;
    }
    FirstWhereEnd(t.columns, NamedLike(t, p));
    return None;
  }

  /** The patterns in order, each searched for a unique column of that name. */
  method FindTemplated(t: Table, patterns: seq<string>) returns (r: Option<string>)
    ensures r == Templated(t, patterns)
  {
    WholePrefix(patterns);
    var i := 0;
    while i < |patterns|
      invariant i <= |patterns|
      invariant Templated(t, patterns) == Templated(t, patterns[i..])
    {
      TemplatedStep(t, patterns, i);
      r := FindNamedLike(t, patterns[i]);
      if r.Some? {
        return;
      }
      i := i + 1;
    }
    assert Templated(t, patterns[|patterns|..]) == None;
    return None;
  }

  /** The first unique column whose name mentions a key term. */
  method FindKeyLike(t: Table) returns (r: Option<string>)
    ensures r == FirstWhere(t.columns, KeyLike(t))
  {
    WholePrefix(t.columns);
    var k := 0;
    while k < |t.columns|
      invariant k <= |t.columns|
      invariant FirstWhere(t.columns, KeyLike(t)) == FirstWhere(t.columns[k..], KeyLike(t))
    {
      var col := t.columns[k];
      FirstWhereStep(t.columns, k, KeyLike(t));
      if HasKeyTerm(col) && IsUnique(t, col) {
        return Some(col);
      }
      k := k + 1;
    }
    FirstWhereEnd(t.columns, KeyLike(t));
    return None;
  }

  /** The first unique numeric column. */
  method FindUniqueNumeric(t: Table) returns (r: Option<string>)
    ensures r == FirstWhere(NumericColumns(t), UniqueIn(t))
  {
    var numeric := NumericColumns(t);
    WholePrefix(numeric);
    var n := 0;
    while n < |numeric|
      invariant n <= |numeric|
      invariant FirstWhere(numeric, UniqueIn(t)) == FirstWhere(numeric[n..], UniqueIn(t))
    {
      var col := numeric[n];
      FirstWhereStep(numeric, n, UniqueIn(t));
      if IsUnique(t, col) {
        return Some(col);
      }
      n := n + 1;
    }
    FirstWhereEnd(numeric, UniqueIn(t));
    return None;
  }

  // ---------------------------------------------------------------------------
  // Relationship detection, one loop level per method. The relationship list
  // and the key map are threaded through as a `Detection` value and written
  // back to the object once the scan ends; nothing else reads them meanwhile.

  /** One matching column: reuse the target's key, or promote its first unique `id`-like column. */
  method ResolveMatch(d: Detection, source: string, column: string, target: string, targetTable: Table)
    returns (r: Detection)
    ensures r == Resolve(d, Match(source, column, target, targetTable))
  {
    if target in d.keys {
      return Detection(d.found + [Relationship(source, target, column, d.keys[target])], d.keys);
    }
    var cols := targetTable.columns;
    WholePrefix(cols);
    var k := 0;
    while k < |cols|
      invariant k <= |cols|
      invariant IdColumn(target, targetTable) == FirstWhere(cols[k..], IdLike(target, targetTable))
    {
      var col2 := cols[k];
      FirstWhereStep(cols, k, IdLike(target, targetTable));
      if Lower(col2) in IdNames(target) && IsUnique(targetTable, col2) {
        return Detection(d.found + [Relationship(source, target, column, col2)], d.keys[target := col2]);
      }
      k := k + 1;
    }
    FirstWhereEnd(cols, IdLike(target, targetTable));
    return d;
  }

  /** The columns of `source` tried against one candidate name `p` for `target`. */
  method ScanColumns(d: Detection, source: string, cols: seq<string>, p: string, target: string, targetTable: Table)
    returns (r: Detection)
    ensures r == ResolveAll(d, ColumnMatches(source, cols, p, target, targetTable))
  {
    r := d;
    var l := 0;
    while l < |cols|
      invariant l <= |cols|
      invariant r == ResolveAll(d, ColumnMatches(source, cols[..l], p, target, targetTable))
    {
      var col1 := cols[l];
      ColumnMatchesSnoc(source, cols, p, target, targetTable, l);
      if Lower(col1) == Lower(p) {
        ResolveAllSnoc(d, ColumnMatches(source, cols[..l], p, target, targetTable), Match(source, col1, target, targetTable));
        r := ResolveMatch(r, source, col1, target, targetTable);
      }
      l := l + 1;
    }
    WholePrefix(cols);
  }

  /** Every candidate name for `target`, in template order. */
  method ScanPatterns(d: Detection, source: string, cols: seq<string>, pats: seq<string>, target: string, targetTable: Table)
    returns (r: Detection)
    ensures r == ResolveAll(d, PatternMatches(source, cols, pats, target, targetTable))
  {
    r := d;
    var k := 0;
    while k < |pats|
      invariant k <= |pats|
      invariant r == ResolveAll(d, PatternMatches(source, cols, pats[..k], target, targetTable))
    {
      PatternMatchesSnoc(source, cols, pats, target, targetTable, k);
      ResolveAllAppend(d, PatternMatches(source, cols, pats[..k], target, targetTable),
                       ColumnMatches(source, cols, pats[k], target, targetTable));
      r := ScanColumns(r, source, cols, pats[k], target, targetTable);
      k := k + 1;
    }
    WholePrefix(pats);
  }

  /** Every loaded table other than `source` as a possible target of `source`. */
  method ScanTargets(d: Detection, source: string, sourceTable: Table, names: seq<string>, tables: map<string, Table>)
    returns (r: Detection)
    requires forall t :: t in names ==> t in tables
    ensures r == ResolveAll(d, TargetMatches(source, sourceTable, names, tables))
  {
    r := d;
    var j := 0;
    while j < |names|
      invariant j <= |names|
      invariant r == ResolveAll(d, TargetMatches(source, sourceTable, names[..j], tables))
    {
      var table2 := names[j];
      TargetMatchesSnoc(source, sourceTable, names, tables, j);
      ResolveAllAppend(d, TargetMatches(source, sourceTable, names[..j], tables),
                       PairMatches(source, sourceTable, table2, tables[table2]));
      if source != table2 {
        r := ScanPatterns(r, source, sourceTable.columns, FkCandidates(table2), table2, tables[table2]);
      }
      j := j + 1;
    }
    WholePrefix(names);
  }

  /** The outer loop of `detect_relationships`: every loaded table as a source, in load order. */
  method DetectAll(names: seq<string>, tables: map<string, Table>, keys: map<string, string>) returns (d: Detection)
    requires forall t :: t in names ==> t in tables
    ensures d == Detect(names, tables, keys)
  {
    d := Detection([], keys);
    var i := 0;
    while i < |names|
      invariant i <= |names|
      invariant d == ResolveAll(Detection([], keys), MatchesOf(names[..i], names, tables))
    {
      var table1 := names[i];
      MatchesOfSnoc(names, names, tables, i);
      ResolveAllAppend(Detection([], keys), MatchesOf(names[..i], names, tables),
                       TargetMatches(table1, tables[table1], names, tables));
      d := ScanTargets(d, table1, tables[table1], names, tables);
      i := i + 1;
    }
    WholePrefix(names);
  }

  // ---------------------------------------------------------------------------
  // The merge loop's invariant, stated over values.

  /**
   * The merge state between joins: the result is the root table with the
   * logged joins applied; the merged tables are the root and the join targets,
   * each once, each after finding its join columns; the remaining ones are the
   * other loaded tables; and the result has every column of every merged table.
   */
  ghost predicate MergeInvariant(names: seq<string>, tables: map<string, Table>, rels: seq<Relationship>,
                                 g: map<string, seq<Edge>>, root: string, result: Table,
                                 merged: seq<string>, remaining: set<string>, steps: seq<JoinStep>)
  {
    && (forall t :: t in tables <==> t in names)
    && EndpointsIn(rels, tables.Keys)
    && g == GraphOf(names, rels)
    && root in tables
    && merged == [root] + Targets(steps)
    && Distinct(merged)
    && (forall t :: t in merged ==> t in tables)
    && (forall t :: t in remaining <==> t in tables && t !in merged)
    && Chained(g, root, steps)
    && (forall k :: 0 <= k < |steps| ==> steps[k].target in tables)
    && result == Replay(tables[root], steps, tables)
    && JoinsHadColumns(tables[root], steps, tables)
    && (forall t, c :: t in merged && c in tables[t].columns ==> c in result.columns)
  }

  /** The merge starts from the root table alone, with nothing joined. */
  lemma StartKeepsInvariant(names: seq<string>, tables: map<string, Table>, rels: seq<Relationship>, root: string)
    requires (forall t :: t in tables <==> t in names) && EndpointsIn(rels, tables.Keys)
    requires root in tables
    ensures MergeInvariant(names, tables, rels, GraphOf(names, rels), root, tables[root], [root], tables.Keys - {root}, [])
  {
    assert [root] + Targets([]) == [root];
  }

  /** At most every loaded table is merged. */
  lemma MergedWithin(names: seq<string>, tables: map<string, Table>, rels: seq<Relationship>,
                     g: map<string, seq<Edge>>, root: string, result: Table,
                     merged: seq<string>, remaining: set<string>, steps: seq<JoinStep>)
    requires Distinct(names)
    requires MergeInvariant(names, tables, rels, g, root, result, merged, remaining, steps)
    ensures 1 <= |merged| <= |names|
  {
    DistinctWithin(merged, names);
  }

  /** Joining a remaining table through an edge of a merged one keeps the invariant. */
  lemma JoinKeepsInvariant(names: seq<string>, tables: map<string, Table>, rels: seq<Relationship>,
                           g: map<string, seq<Edge>>, root: string, result: Table,
                           merged: seq<string>, remaining: set<string>, steps: seq<JoinStep>,
                           table: string, e: Edge)
    requires MergeInvariant(names, tables, rels, g, root, result, merged, remaining, steps)
    requires table in merged && table in g && e in g[table] && e.target in remaining
    requires e.fromColumn in result.columns && e.toColumn in tables[e.target].columns
    ensures MergeInvariant(names, tables, rels, g, root,
                           LeftJoin(result, tables[e.target], e.fromColumn, e.toColumn),
                           merged + [e.target], remaining - {e.target},
                           steps + [JoinStep(table, e.target, e.fromColumn, e.toColumn)])
  {
    var step := JoinStep(table, e.target, e.fromColumn, e.toColumn);
    ChainedSnoc(g, root, steps, step);
    TargetsSnoc(steps, step);
    AppendAssoc([root], Targets(steps), [e.target]);
    DistinctSnoc(merged, e.target);
    ReplaySnoc(tables[root], steps, step, tables);
    JoinsHadColumnsSnoc(tables[root], steps, step, tables);
    var out := LeftJoin(result, tables[e.target], e.fromColumn, e.toColumn);
    forall t, c | t in merged + [e.target] && c in tables[t].columns ensures c in out.columns {
      if t != e.target {
        assert t in merged;
      }
    }
  }

  /** A join column missing from the result or from the joined table means some relationship names a missing column. */
  lemma MissingColumnBreaksRelationship(names: seq<string>, tables: map<string, Table>, rels: seq<Relationship>,
                                        g: map<string, seq<Edge>>, root: string, result: Table,
                                        merged: seq<string>, remaining: set<string>, steps: seq<JoinStep>,
                                        table: string, e: Edge)
    requires MergeInvariant(names, tables, rels, g, root, result, merged, remaining, steps)
    requires table in merged && table in g && e in g[table] && e.target in tables
    requires e.fromColumn !in result.columns || e.toColumn !in tables[e.target].columns
    ensures !ColumnsExist(rels, tables)
  {
    AdjacencyColumns(rels, table, tables);
    assert g[table] == Adjacency(rels, table);
  }

  /** An empty list for every loaded table, the first loop of both graph builders. */
  method EmptyLists<V>(names: seq<string>) returns (g: map<string, seq<V>>)
    ensures forall t :: t in g <==> t in names
    ensures forall t :: t in g ==> g[t] == []
  {
    g := map[];
    var i := 0;
    while i < |names|
      invariant i <= |names|
      invariant forall t :: t in g <==> t in names[..i]
      invariant forall t :: t in g ==> g[t] == []
    {
      SplitLast(names[..i + 1]);
      assert names[..i + 1][..i] == names[..i];
      g := g[names[i] := []];
      i := i + 1;
    }
    WholePrefix(names);
  }

  /** The two list appends one relationship causes: its forward edge, then its reverse edge. */
  method AddEdges(g0: map<string, seq<Edge>>, r: Relationship) returns (g: map<string, seq<Edge>>)
    ensures forall t :: t in g <==> t in g0
    ensures forall t :: t in g ==>
      g[t] == g0[t]
              + (if r.source == t then [Edge(r.target, r.sourceColumn, r.targetColumn)] else [])
              + (if r.target == t then [Edge(r.source, r.targetColumn, r.sourceColumn)] else [])
  {
    g := g0;
    if r.source in g {
      g := g[r.source := g[r.source] + [Edge(r.target, r.sourceColumn, r.targetColumn)]];
    }
    if r.target in g {
      g := g[r.target := g[r.target] + [Edge(r.source, r.targetColumn, r.sourceColumn)]];
    }
  }

  /** The adjacency lists `merge_data` builds, one per loaded table. */
  method AdjacencyLists(names: seq<string>, rels: seq<Relationship>) returns (g: map<string, seq<Edge>>)
    ensures g == GraphOf(names, rels)
  {
    g := EmptyLists(names);
    var k := 0;
    while k < |rels|
      invariant k <= |rels|
      invariant forall t :: t in g <==> t in names
      invariant forall t :: t in g ==> g[t] == Adjacency(rels[..k], t)
    {
      g := AddEdges(g, rels[k]);
      forall t | t in g ensures g[t] == Adjacency(rels[..k + 1], t) {
        AdjacencySnoc(rels, k, t);
      }
      k := k + 1;
    }
    WholePrefix(rels);
    GraphOfExactly(names, rels, g);
  }

  /**
   * The object's consistency: names are listed once each and are exactly the
   * loaded tables; keys and relationships mention loaded tables only.
   */
  ghost predicate Consistent(names: seq<string>, tables: map<string, Table>, keys: map<string, string>,
                             rels: seq<Relationship>)
  {
    && Distinct(names)
    && (forall t :: t in tables <==> t in names)
    && (forall t :: t in keys ==> t in tables)
    && EndpointsIn(rels, tables.Keys)
  }

  /** Loading table `t` under `name`, new or not, then detecting its key, keeps the object consistent. */
  lemma LoadKeepsConsistent(names: seq<string>, tables: map<string, Table>, keys: map<string, string>,
                            rels: seq<Relationship>, name: string, t: Table)
    requires Consistent(names, tables, keys, rels)
    ensures Consistent(if name in names then names else names + [name], tables[name := t],
                       KeyAfterDetection(keys, name, t), rels)
  {
    if name !in names {
      DistinctSnoc(names, name);
    }
    KeyAfterDetectionChangesOne(keys, name, t);
    var after := KeyAfterDetection(keys, name, t);
    assert forall u :: u in after ==> u in keys || u == name;
  }

  /** The part of the object that loading changes: the names in load order, the tables and the key map. */
  datatype Loaded = Loaded(names: seq<string>, tables: map<string, Table>, keys: map<string, string>)

  /** Entry `file` of the listing loads as table `TableName(file)` when it is accepted and reading it gave a frame. */
  predicate Loads(file: string, parsed: Option<Table>)
  {
    Accepted(file) && parsed.Some?
  }

  /** One directory entry of `load_files`: store the frame under its table name, then detect its key. */
  function LoadEntry(s: Loaded, file: string, parsed: Option<Table>): Loaded
  {
    if Loads(file, parsed) then
      var name := TableName(file);
      Loaded(if name in s.names then s.names else s.names + [name],
             s.tables[name := parsed.value],
             KeyAfterDetection(s.keys, name, parsed.value))
    else s
  }

  /** `load_files` over a listing, entry by entry in listing order. */
  function LoadAll(s: Loaded, files: seq<string>, parsed: seq<Option<Table>>): Loaded
    requires |files| == |parsed|
  {
    if files == [] then s
    else LoadEntry(LoadAll(s, files[..|files| - 1], parsed[..|parsed| - 1]), files[|files| - 1], parsed[|parsed| - 1])
  }

  lemma LoadAllSnoc(s: Loaded, files: seq<string>, parsed: seq<Option<Table>>, i: nat)
    requires |files| == |parsed| && i < |files|
    ensures LoadAll(s, files[..i + 1], parsed[..i + 1]) == LoadEntry(LoadAll(s, files[..i], parsed[..i]), files[i], parsed[i])
  {
    assert files[..i + 1][..i] == files[..i];
    assert parsed[..i + 1][..i] == parsed[..i];
  }

  /** Table `name` of `l` is the frame `t`, and a key detected on `t` is the name's key. */
  predicate HoldsFrame(l: Loaded, name: string, t: Table)
  {
    && name in l.names && name in l.tables && l.tables[name] == t
    && (DetectKey(name, t).Some? ==> name in l.keys && l.keys[name] == DetectKey(name, t).value)
  }

  /**
   * The last entry of the listing that loads a name decides that table: its
   * frame is stored under the name, and a key detected on it is the name's key.
   */
  lemma {:induction false} LoadAllLastWins(s: Loaded, files: seq<string>, parsed: seq<Option<Table>>, i: nat)
    requires |files| == |parsed| && i < |files| && Loads(files[i], parsed[i])
    requires forall j :: i < j < |files| && Loads(files[j], parsed[j]) ==> TableName(files[j]) != TableName(files[i])
    ensures HoldsFrame(LoadAll(s, files, parsed), TableName(files[i]), parsed[i].value)
  {
    var n := |files| - 1;
    var front, pfront := files[..n], parsed[..n];
    var mid := LoadAll(s, front, pfront);
    if i < n {
      forall j | i < j < |front| && Loads(front[j], pfront[j]) ensures TableName(front[j]) != TableName(files[i]) {
        assert front[j] == files[j] && pfront[j] == parsed[j];
      }
      assert front[i] == files[i] && pfront[i] == parsed[i];
      LoadAllLastWins(s, front, pfront, i);
      LoadEntryKeepsFrame(mid, files[n], parsed[n], TableName(files[i]), parsed[i].value);
    } else {
      LoadEntryStoresFrame(mid, files[n], parsed[n]);
    }
  }

  lemma LoadEntryStoresFrame(s: Loaded, file: string, parsed: Option<Table>)
    requires Loads(file, parsed)
    ensures HoldsFrame(LoadEntry(s, file, parsed), TableName(file), parsed.value)
  {
  }

  lemma LoadEntryKeepsFrame(s: Loaded, file: string, parsed: Option<Table>, name: string, t: Table)
    requires HoldsFrame(s, name, t)
    requires Loads(file, parsed) ==> TableName(file) != name
    ensures HoldsFrame(LoadEntry(s, file, parsed), name, t)
  {
    if Loads(file, parsed) {
      KeyAfterDetectionChangesOne(s.keys, TableName(file), parsed.value);
    }
  }

  lemma LoadEntryNames(s: Loaded, file: string, parsed: Option<Table>)
    ensures var r := LoadEntry(s, file, parsed);
      && s.names <= r.names
      && (Loads(file, parsed) ==> TableName(file) in r.names)
      && (forall t :: t in r.names ==> t in s.names || (Loads(file, parsed) && TableName(file) == t))
  {
  }

  /** A name no entry of the listing loads keeps its table and its key. */
  lemma {:induction false} LoadAllUntouched(s: Loaded, files: seq<string>, parsed: seq<Option<Table>>, t: string)
    requires |files| == |parsed|
    requires forall j :: 0 <= j < |files| && Loads(files[j], parsed[j]) ==> TableName(files[j]) != t
    ensures var r := LoadAll(s, files, parsed);
      && (t in r.names <==> t in s.names)
      && (t in r.tables <==> t in s.tables) && (t in s.tables ==> r.tables[t] == s.tables[t])
      && (t in r.keys <==> t in s.keys) && (t in s.keys ==> r.keys[t] == s.keys[t])
  {
    if files != [] {
      var n := |files| - 1;
      var front, pfront := files[..n], parsed[..n];
      forall j | 0 <= j < |front| && Loads(front[j], pfront[j]) ensures TableName(front[j]) != t {
        assert front[j] == files[j] && pfront[j] == parsed[j];
      }
      LoadAllUntouched(s, front, pfront, t);
      LoadEntryUntouched(LoadAll(s, front, pfront), files[n], parsed[n], t);
    }
  }

  /** Loading a listing keeps the old names as a prefix and loads the table name of every accepted, readable entry. */
  lemma {:induction false} LoadAllKeepsNames(s: Loaded, files: seq<string>, parsed: seq<Option<Table>>)
    requires |files| == |parsed|
    ensures var r := LoadAll(s, files, parsed);
      && s.names <= r.names
      && forall i :: 0 <= i < |files| && Loads(files[i], parsed[i]) ==> TableName(files[i]) in r.names
  {
    if files != [] {
      var n := |files| - 1;
      var front, pfront := files[..n], parsed[..n];
      LoadAllKeepsNames(s, front, pfront);
      var mid := LoadAll(s, front, pfront);
      var r := LoadAll(s, files, parsed);
      LoadEntryNames(mid, files[n], parsed[n]);
      forall i | 0 <= i < n && Loads(files[i], parsed[i]) ensures TableName(files[i]) in r.names {
        assert front[i] == files[i] && pfront[i] == parsed[i];
      }
    }
  }

  /** Every name a listing adds is the table name of one of its accepted, readable entries. */
  lemma {:induction false} LoadAllNamesFrom(s: Loaded, files: seq<string>, parsed: seq<Option<Table>>, t: string)
    requires |files| == |parsed|
    requires t in LoadAll(s, files, parsed).names && t !in s.names
    ensures exists i :: 0 <= i < |files| && Loads(files[i], parsed[i]) && TableName(files[i]) == t
  {
    var n := |files| - 1;
    var front, pfront := files[..n], parsed[..n];
    var mid := LoadAll(s, front, pfront);
    LoadEntryNames(mid, files[n], parsed[n]);
    if t in mid.names {
      LoadAllNamesFrom(s, front, pfront, t);
      var i :| 0 <= i < |front| && Loads(front[i], pfront[i]) && TableName(front[i]) == t;
      assert front[i] == files[i] && pfront[i] == parsed[i];
    }
  }

  lemma LoadEntryUntouched(s: Loaded, file: string, parsed: Option<Table>, t: string)
    requires Loads(file, parsed) ==> TableName(file) != t
    ensures var r := LoadEntry(s, file, parsed);
      && (t in r.names <==> t in s.names)
      && (t in r.tables <==> t in s.tables) && (t in s.tables ==> r.tables[t] == s.tables[t])
      && (t in r.keys <==> t in s.keys) && (t in s.keys ==> r.keys[t] == s.keys[t])
  {
    if Loads(file, parsed) {
      KeyAfterDetectionChangesOne(s.keys, TableName(file), parsed.value);
    }
  }

  /**
   * What a successful merge guarantees: it started at the first most connected
   * table and followed edges of the merge graph, joining each reached table once
   * and only after finding both join columns; the frame is the root with those
   * joins applied; and the tables left out are
   * exactly the ones not reachable from the root.
   */
  ghost predicate MergeOutcome(names: seq<string>, tables: map<string, Table>, rels: seq<Relationship>, m: MergeResult)
  {
    var g := GraphOf(names, rels);
    && |names| > 0
    && m.root == names[MostConnected(names, g)]
    && m.root in tables
    && Chained(g, m.root, m.steps)
    && Distinct([m.root] + Targets(m.steps))
    && (forall k :: 0 <= k < |m.steps| ==> m.steps[k].target in tables)
    && m.frame == Replay(tables[m.root], m.steps, tables)
    && JoinsHadColumns(tables[m.root], m.steps, tables)
    && (forall t :: t in tables && t !in m.unmerged <==> t in [m.root] + Targets(m.steps))
    && (forall t :: t in m.unmerged <==> t in tables && !Reachable(g, m.root, t))
  }

  /** Once nothing remains, or no merged table has an edge into what remains, the loop's state is the outcome. */
  lemma FinishMerge(names: seq<string>, tables: map<string, Table>, rels: seq<Relationship>,
                    g: map<string, seq<Edge>>, root: string, result: Table,
                    merged: seq<string>, remaining: set<string>, steps: seq<JoinStep>)
    requires MergeInvariant(names, tables, rels, g, root, result, merged, remaining, steps)
    requires |names| > 0 && root == names[MostConnected(names, g)]
    requires remaining == {} || forall t :: t in merged ==> t in g && Blocked(g[t], remaining)
    ensures MergeOutcome(names, tables, rels, MergeResult(result, root, steps, remaining))
  {
    GraphTargetsIn(names, rels, tables.Keys);
    forall a: string, e: Edge | a in merged && a in g && e in g[a] ensures e.target in tables.Keys && e.target !in remaining {
      if remaining != {} {
        assert Blocked(g[a], remaining);
      }
    }
    ReachPartition(g, tables.Keys, root, steps, remaining);
  }

  /**
   * The merge cannot go on: an edge of a merged table leads to a table still
   * remaining, and the frame lacks the edge's left column or that table lacks
   * its right column (the `KeyError` of `pd.merge`).
   */
  ghost predicate StuckAt(g: map<string, seq<Edge>>, tables: map<string, Table>, result: Table,
                          merged: seq<string>, remaining: set<string>)
  {
    exists t, e :: t in merged && t in g && e in g[t] && e.target in remaining && e.target in tables &&
      (e.fromColumn !in result.columns || e.toColumn !in tables[e.target].columns)
  }

  /** No edge of `edges` leads to a table of `remaining`. */
  ghost predicate Blocked(edges: seq<Edge>, remaining: set<string>)
  {
    forall e :: e in edges ==> e.target !in remaining
  }

  /** An edge list blocked by a set of remaining tables stays blocked as the set shrinks. */
  lemma BlockedShrinks(edges: seq<Edge>, remaining0: set<string>, remaining: set<string>)
    requires Blocked(edges, remaining0) && remaining <= remaining0
    ensures Blocked(edges, remaining)
  {
  }

  /** Every table of `ts` has a list in `g`, and none of its edges leads to `remaining`. */
  ghost predicate AllBlocked(g: map<string, seq<Edge>>, ts: seq<string>, remaining: set<string>)
  {
    forall t :: t in ts ==> t in g && Blocked(g[t], remaining)
  }

  /** One more blocked table, after `remaining` shrank, keeps the earlier ones blocked. */
  lemma AllBlockedStep(g: map<string, seq<Edge>>, ts: seq<string>, i: nat, remaining0: set<string>, remaining: set<string>)
    requires i < |ts| && AllBlocked(g, ts[..i], remaining0) && remaining <= remaining0
    requires ts[i] in g && Blocked(g[ts[i]], remaining)
    ensures AllBlocked(g, ts[..i + 1], remaining)
  {
    assert ts[..i + 1] == ts[..i] + [ts[i]];
    forall t | t in ts[..i] ensures Blocked(g[t], remaining) {
      BlockedShrinks(g[t], remaining0, remaining);
    }
  }

  lemma BlockedSnoc(edges: seq<Edge>, k: nat, remaining: set<string>)
    requires k < |edges|
    ensures Blocked(edges[..k + 1], remaining) <==> Blocked(edges[..k], remaining) && edges[k].target !in remaining
  {
    assert edges[..k + 1] == edges[..k] + [edges[k]];
  }

  /** The merge loop's variables: the frame so far, the merged tables in order, the tables still to merge, the join log. */
  datatype MergeState = MergeState(result: Table, merged: seq<string>, remaining: set<string>, steps: seq<JoinStep>)

  /** A merge state reached by some part of the loop, and whether a join raised on a missing column there. */
  datatype Advance = Advance(state: MergeState, failed: bool)

  /**
   * The loop body for one edge `e` of the merged table `table`: a target already
   * merged is skipped; otherwise the join raises when a join column (or the
   * target table itself) is missing, and else the target is left-joined on.
   */
  function EdgeStep(tables: map<string, Table>, table: string, e: Edge, s: MergeState): Advance
  {
    if e.target !in s.remaining then Advance(s, false)
    else if e.target !in tables || e.fromColumn !in s.result.columns || e.toColumn !in tables[e.target].columns then
      Advance(s, true)
    else
      Advance(MergeState(LeftJoin(s.result, tables[e.target], e.fromColumn, e.toColumn),
                         s.merged + [e.target], s.remaining - {e.target},
                         s.steps + [JoinStep(table, e.target, e.fromColumn, e.toColumn)]), false)
  }

  /** The edges of `table` tried in adjacency order; the first one that raises ends the scan. */
  function Edges(tables: map<string, Table>, table: string, edges: seq<Edge>, s: MergeState): Advance
  {
    if edges == [] then Advance(s, false)
    else
      var a := EdgeStep(tables, table, edges[0], s);
      if a.failed then a else Edges(tables, table, edges[1..], a.state)
  }

  /** The adjacency list of `t`, empty when `t` has none. */
  function EdgesOf(g: map<string, seq<Edge>>, t: string): seq<Edge>
  {
    if t in g then g[t] else []
  }

  /** One round: the tables `ts` (a copy of the merged list) offer their edges in order; a raise ends the round. */
  function Round(tables: map<string, Table>, g: map<string, seq<Edge>>, ts: seq<string>, s: MergeState): Advance
  {
    if ts == [] then Advance(s, false)
    else
      var a := Edges(tables, ts[0], EdgesOf(g, ts[0]), s);
      if a.failed then a else Round(tables, g, ts[1..], a.state)
  }

  /**
   * The merge loop: rounds over the merged list run while something remains and
   * attempts are left, until one raises or joins nothing.
   */
  function Run(tables: map<string, Table>, g: map<string, seq<Edge>>, s: MergeState, attempts: nat): Advance
    decreases attempts
  {
    if s.remaining == {} || attempts == 0 then Advance(s, false)
    else
      var a := Round(tables, g, s.merged, s);
      if a.failed || a.state == s then a else Run(tables, g, a.state, attempts - 1)
  }

  /** Scanning edges only removes tables from `remaining` and only appends to the log. */
  lemma {:induction false} EdgesShrink(tables: map<string, Table>, table: string, edges: seq<Edge>, s: MergeState)
    ensures Edges(tables, table, edges, s).state.remaining <= s.remaining
    ensures s.steps <= Edges(tables, table, edges, s).state.steps
    decreases |edges|
  {
    if edges != [] {
      var a := EdgeStep(tables, table, edges[0], s);
      if !a.failed {
        EdgesShrink(tables, table, edges[1..], a.state);
      }
    }
  }

  /**
   * A scan that raises stops at an edge it actually reached: every earlier edge
   * leads to a merged table, the failing edge leads to a remaining one, and a
   * join column (or the target table) is missing there.
   */
  lemma {:induction false} EdgesRaise(tables: map<string, Table>, table: string, edges: seq<Edge>, s: MergeState)
    requires Edges(tables, table, edges, s).failed
    ensures var f := Edges(tables, table, edges, s).state;
      exists k :: 0 <= k < |edges| && Blocked(edges[..k], f.remaining) && edges[k].target in f.remaining &&
        (edges[k].target !in tables || edges[k].fromColumn !in f.result.columns ||
         edges[k].toColumn !in tables[edges[k].target].columns)
    decreases |edges|
  {
    var f := Edges(tables, table, edges, s).state;
    var a := EdgeStep(tables, table, edges[0], s);
    if a.failed {
      assert edges[..0] == [];
      assert Blocked(edges[..0], f.remaining);
    } else {
      var rest := edges[1..];
      EdgesRaise(tables, table, rest, a.state);
      EdgesShrink(tables, table, rest, a.state);
      var k :| 0 <= k < |rest| && Blocked(rest[..k], f.remaining) && rest[k].target in f.remaining &&
        (rest[k].target !in tables || rest[k].fromColumn !in f.result.columns ||
         rest[k].toColumn !in tables[rest[k].target].columns);
      assert edges[..k + 1] == [edges[0]] + rest[..k];
      assert edges[0].target !in a.state.remaining;
      assert Blocked(edges[..k + 1], f.remaining);
    }
  }

  /**
   * Every join a scan logs comes from `table` along one of its edges, the first
   * edge to that target, and joins a table that was remaining.
   */
  lemma {:induction false} EdgesLog(tables: map<string, Table>, table: string, edges: seq<Edge>, s: MergeState)
    ensures var f := Edges(tables, table, edges, s).state;
      && s.steps <= f.steps
      && forall i :: |s.steps| <= i < |f.steps| ==>
           && f.steps[i].target in s.remaining
           && exists k :: (&& 0 <= k < |edges|
                           && f.steps[i] == JoinStep(table, edges[k].target, edges[k].fromColumn, edges[k].toColumn)
                           && forall j :: 0 <= j < k ==> edges[j].target != edges[k].target)
    decreases |edges|
  {
    var f := Edges(tables, table, edges, s).state;
    EdgesShrink(tables, table, edges, s);
    if edges != [] {
      var a := EdgeStep(tables, table, edges[0], s);
      if !a.failed {
        var rest := edges[1..];
        EdgesLog(tables, table, rest, a.state);
        EdgesShrink(tables, table, rest, a.state);
        forall i | |s.steps| <= i < |f.steps|
          ensures f.steps[i].target in s.remaining
          ensures exists k :: (&& 0 <= k < |edges|
                               && f.steps[i] == JoinStep(table, edges[k].target, edges[k].fromColumn, edges[k].toColumn)
                               && forall j :: 0 <= j < k ==> edges[j].target != edges[k].target)
        {
          if i < |a.state.steps| {
            assert i == |s.steps|;
            assert f.steps[i] == a.state.steps[i];
            assert edges[..0] == [];
          } else {
            var k :| (&& 0 <= k < |rest|
                      && f.steps[i] == JoinStep(table, rest[k].target, rest[k].fromColumn, rest[k].toColumn)
                      && forall j :: 0 <= j < k ==> rest[j].target != rest[k].target);
            assert edges[0].target !in a.state.remaining;
            assert rest[k] == edges[k + 1];
            forall j | 0 <= j < k + 1 ensures edges[j].target != edges[k + 1].target {
              if j > 0 {
                assert edges[j] == rest[j - 1];
              }
            }
          }
        }
      }
    }
  }

  /** A scan that does not raise leaves every edge's target merged. */
  lemma {:induction false} EdgesBlock(tables: map<string, Table>, table: string, edges: seq<Edge>, s: MergeState)
    requires !Edges(tables, table, edges, s).failed
    ensures Blocked(edges, Edges(tables, table, edges, s).state.remaining)
    decreases |edges|
  {
    if edges != [] {
      var a := EdgeStep(tables, table, edges[0], s);
      var rest := edges[1..];
      EdgesBlock(tables, table, rest, a.state);
      EdgesShrink(tables, table, rest, a.state);
      assert edges == [edges[0]] + rest;
    }
  }

  /** A round only removes tables from `remaining`. */
  lemma {:induction false} RoundShrink(tables: map<string, Table>, g: map<string, seq<Edge>>, ts: seq<string>, s: MergeState)
    ensures Round(tables, g, ts, s).state.remaining <= s.remaining
    decreases |ts|
  {
    if ts != [] {
      var a := Edges(tables, ts[0], EdgesOf(g, ts[0]), s);
      EdgesShrink(tables, ts[0], EdgesOf(g, ts[0]), s);
      if !a.failed {
        RoundShrink(tables, g, ts[1..], a.state);
      }
    }
  }

  /**
   * A round that raises does so at the first failing edge its scan reaches:
   * every table before it in the round's copy had all its edges lead to merged
   * tables, and so did the earlier edges of the failing table.
   */
  lemma {:induction false} RoundRaise(tables: map<string, Table>, g: map<string, seq<Edge>>, ts: seq<string>, s: MergeState)
    requires Round(tables, g, ts, s).failed
    ensures var f := Round(tables, g, ts, s).state;
      exists i, k :: (&& 0 <= i < |ts| && 0 <= k < |EdgesOf(g, ts[i])|
                      && (forall j :: 0 <= j < i ==> Blocked(EdgesOf(g, ts[j]), f.remaining))
                      && Blocked(EdgesOf(g, ts[i])[..k], f.remaining)
                      && EdgesOf(g, ts[i])[k].target in f.remaining
                      && (|| EdgesOf(g, ts[i])[k].target !in tables
                          || EdgesOf(g, ts[i])[k].fromColumn !in f.result.columns
                          || EdgesOf(g, ts[i])[k].toColumn !in tables[EdgesOf(g, ts[i])[k].target].columns))
    decreases |ts|
  {
    var f := Round(tables, g, ts, s).state;
    var es := EdgesOf(g, ts[0]);
    var a := Edges(tables, ts[0], es, s);
    if a.failed {
      EdgesRaise(tables, ts[0], es, s);
      var k :| (&& 0 <= k < |es| && Blocked(es[..k], f.remaining) && es[k].target in f.remaining
                && (es[k].target !in tables || es[k].fromColumn !in f.result.columns ||
                    es[k].toColumn !in tables[es[k].target].columns));
    } else {
      var rest := ts[1..];
      RoundRaise(tables, g, rest, a.state);
      RoundShrink(tables, g, rest, a.state);
      EdgesBlock(tables, ts[0], es, s);
      BlockedShrinks(es, a.state.remaining, f.remaining);
      var i, k :| (&& 0 <= i < |rest| && 0 <= k < |EdgesOf(g, rest[i])|
                   && (forall j :: 0 <= j < i ==> Blocked(EdgesOf(g, rest[j]), f.remaining))
                   && Blocked(EdgesOf(g, rest[i])[..k], f.remaining)
                   && EdgesOf(g, rest[i])[k].target in f.remaining
                   && (|| EdgesOf(g, rest[i])[k].target !in tables
                       || EdgesOf(g, rest[i])[k].fromColumn !in f.result.columns
                       || EdgesOf(g, rest[i])[k].toColumn !in tables[EdgesOf(g, rest[i])[k].target].columns));
      assert rest[i] == ts[i + 1];
      forall j | 0 <= j < i + 1 ensures Blocked(EdgesOf(g, ts[j]), f.remaining) {
        if j > 0 {
          assert ts[j] == rest[j - 1];
        }
      }
    }
  }

  /** Every join a round logs comes from a table of the round's copy of the merged list. */
  lemma {:induction false} RoundLog(tables: map<string, Table>, g: map<string, seq<Edge>>, ts: seq<string>, s: MergeState)
    ensures var f := Round(tables, g, ts, s).state;
      s.steps <= f.steps && forall i :: |s.steps| <= i < |f.steps| ==> f.steps[i].from in ts
    decreases |ts|
  {
    if ts != [] {
      var a := Edges(tables, ts[0], EdgesOf(g, ts[0]), s);
      EdgesLog(tables, ts[0], EdgesOf(g, ts[0]), s);
      if !a.failed {
        RoundLog(tables, g, ts[1..], a.state);
      }
    }
  }

  /** One round of the loop, when something remains and attempts are left. */
  lemma RunRound(tables: map<string, Table>, g: map<string, seq<Edge>>, s: MergeState, attempts: nat)
    requires s.remaining != {} && attempts > 0
    ensures var a := Round(tables, g, s.merged, s);
      Run(tables, g, s, attempts) == if a.failed || a.state == s then a else Run(tables, g, a.state, attempts - 1)
  {
  }

  /** `merge_data` as a function of the loaded tables and the relationships. */
  function MergeSpec(names: seq<string>, tables: map<string, Table>, rels: seq<Relationship>): Result<MergeResult, DataError>
    requires forall t :: t in names ==> t in tables
  {
    if |names| == 0 then Err(NoDataLoaded)
    else if |rels| == 0 then Err(NoRelationships)
    else
      var g := GraphOf(names, rels);
      var start := names[MostConnected(names, g)];
      if start == "" then Err(NoTablesToMerge)
      else
        var a := Run(tables, g, MergeState(tables[start], [start], tables.Keys - {start}, []), |names| * 2);
        if a.failed then Err(MissingJoinColumn)
        else Ok(MergeResult(a.state.result, start, a.state.steps, a.state.remaining))
  }

  /** The merge graph of the two relationships `a.bid = b.id` and `a.old = b.id`. */
  lemma StaleGraph()
    ensures GraphOf(["a", "b"], [Relationship("a", "b", "bid", "id"), Relationship("a", "b", "old", "id")])
         == map["a" := [Edge("b", "bid", "id"), Edge("b", "old", "id")],
                "b" := [Edge("a", "id", "bid"), Edge("a", "id", "old")]]
  {
    var rels := [Relationship("a", "b", "bid", "id"), Relationship("a", "b", "old", "id")];
    assert rels[..1] == [rels[0]];
    assert rels[..1][..0] == [];
    assert Adjacency(rels[..1], "a") == [Edge("b", "bid", "id")];
    assert Adjacency(rels[..1], "b") == [Edge("a", "id", "bid")];
    assert Adjacency(rels, "a") == [Edge("b", "bid", "id"), Edge("b", "old", "id")];
    assert Adjacency(rels, "b") == [Edge("a", "id", "bid"), Edge("a", "id", "old")];
    var g := GraphOf(["a", "b"], rels);
    assert g.Keys == {"a", "b"};
  }

  /** The loop on that graph from `a`: the first edge joins `b`, and the stale one then finds `b` merged. */
  lemma StaleRun(a: Table, b: Table)
    requires a.columns == ["bid"] && b.columns == ["id"]
    ensures var g := map["a" := [Edge("b", "bid", "id"), Edge("b", "old", "id")],
                         "b" := [Edge("a", "id", "bid"), Edge("a", "id", "old")]];
      Run(map["a" := a, "b" := b], g, MergeState(a, ["a"], {"b"}, []), 4)
      == Advance(MergeState(LeftJoin(a, b, "bid", "id"), ["a", "b"], {}, [JoinStep("a", "b", "bid", "id")]), false)
  {
    var tables := map["a" := a, "b" := b];
    var ea := [Edge("b", "bid", "id"), Edge("b", "old", "id")];
    var g := map["a" := ea, "b" := [Edge("a", "id", "bid"), Edge("a", "id", "old")]];
    var s0 := MergeState(a, ["a"], {"b"}, []);
    var s1 := MergeState(LeftJoin(a, b, "bid", "id"), ["a", "b"], {}, [JoinStep("a", "b", "bid", "id")]);
    assert EdgeStep(tables, "a", ea[0], s0) == Advance(s1, false);
    assert ea[1..] == [ea[1]] && ea[1..][1..] == [];
    assert Edges(tables, "a", ea[1..], s1) == Advance(s1, false);
    assert Edges(tables, "a", ea, s0) == Advance(s1, false);
    assert ["a"][1..] == [];
    assert Round(tables, g, ["a"], s0) == Advance(s1, false);
  }

  /**
   * A relationship whose column has gone stale does not stop the merge when an
   * earlier edge reaches the same table: `a(bid)` and `b(id)` with relationships
   * `a.bid = b.id` and `a.old = b.id` join `b` through `bid`, and the stale edge
   * is skipped because `b` is merged by then.
   */
  lemma FirstEdgeWins()
    ensures var a, b := Table(["bid"], [], {}), Table(["id"], [], {});
      MergeSpec(["a", "b"], map["a" := a, "b" := b],
                [Relationship("a", "b", "bid", "id"), Relationship("a", "b", "old", "id")])
      == Ok(MergeResult(LeftJoin(a, b, "bid", "id"), "a", [JoinStep("a", "b", "bid", "id")], {}))
  {
    var a, b := Table(["bid"], [], {}), Table(["id"], [], {});
    var tables := map["a" := a, "b" := b];
    StaleGraph();
    var g := map["a" := [Edge("b", "bid", "id"), Edge("b", "old", "id")],
                 "b" := [Edge("a", "id", "bid"), Edge("a", "id", "old")]];
    assert MostConnected(["a", "b"], g) == 0;
    assert tables.Keys - {"a"} == {"b"};
    StaleRun(a, b);
  }

  class DataMerger {
    /** The names of the loaded tables, in the order they were first loaded. */
    var names: seq<string>
    /** The loaded tables, by name. */
    var tables: map<string, Table>
    var relationships: seq<Relationship>
    var primaryKeys: map<string, string>

    /**
     * Names are listed once each and are exactly the loaded tables; keys and
     * relationships mention loaded tables only (nothing is ever unloaded).
     */
    ghost predicate Valid()
      reads this
    {
      Consistent(names, tables, primaryKeys, relationships)
    }

    /** Every relationship's columns exist in the current tables (reloading a table can break this). */
    ghost predicate JoinColumnsExist()
      reads this
    {
      ColumnsExist(relationships, tables)
    }

    function DetectionState(): Detection
      reads this
    {
      Detection(relationships, primaryKeys)
    }

    constructor()
      ensures Valid()
      ensures names == [] && tables == map[] && relationships == [] && primaryKeys == map[]
    {
      names := [];
      tables := map[];
      relationships := [];
      primaryKeys := map[];
    }

    // -------------------------------------------------------------------------
    // Loading.

    /**
     * One directory entry of `load_files`: `parsed` is what reading the file
     * gave, `None` when reading raised (the error is printed and skipped).
     * Re-loading a name replaces its table and keeps its place.
     */
    method LoadFile(file: string, parsed: Option<Table>)
      requires Valid()
      modifies this`names, this`tables, this`primaryKeys
      ensures Valid()
      ensures relationships == old(relationships)
      ensures Loaded(names, tables, primaryKeys) == LoadEntry(Loaded(old(names), old(tables), old(primaryKeys)), file, parsed)
      ensures !Accepted(file) || parsed.None? ==>
        names == old(names) && tables == old(tables) && primaryKeys == old(primaryKeys)
      ensures Accepted(file) && parsed.Some? ==>
        var name := TableName(file);
        && names == (if name in old(names) then old(names) else old(names) + [name])
        && tables == old(tables)[name := parsed.value]
        && primaryKeys == KeyAfterDetection(old(primaryKeys), name, parsed.value)
    {
      if Accepted(file) && parsed.Some? {
        LoadTable(TableName(file), parsed.value);
      }
    }

    /** Stores a frame under its table name, replacing any earlier one, then detects its key. */
    method LoadTable(name: string, t: Table)
      requires Valid()
      modifies this`names, this`tables, this`primaryKeys
      ensures Valid()
      ensures names == (if name in old(names) then old(names) else old(names) + [name])
      ensures tables == old(tables)[name := t]
      ensures primaryKeys == KeyAfterDetection(old(primaryKeys), name, t)
    {
      LoadKeepsConsistent(names, tables, primaryKeys, relationships, name, t);
      if name !in tables {
        names := names + [name];
      }
      tables := tables[name := t];
      DetectPrimaryKey(name, t);
    }

    /** `load_files` over a directory listing, given in listing order with what reading each entry gave. */
    method LoadFiles(files: seq<string>, parsed: seq<Option<Table>>)
      requires Valid() && |files| == |parsed|
      modifies this`names, this`tables, this`primaryKeys
      ensures Valid()
      ensures relationships == old(relationships)
      ensures Loaded(names, tables, primaryKeys) == LoadAll(Loaded(old(names), old(tables), old(primaryKeys)), files, parsed)
      ensures old(names) <= names
      ensures forall i :: 0 <= i < |files| && Accepted(files[i]) && parsed[i].Some? ==> TableName(files[i]) in names
      ensures forall t :: t in names ==>
        (t in old(names) || exists i :: 0 <= i < |files| && Accepted(files[i]) && parsed[i].Some? && TableName(files[i]) == t)
    {
      var i := 0;
      while i < |files|
        invariant i <= |files|
        invariant Valid()
        invariant relationships == old(relationships)
        invariant Loaded(names, tables, primaryKeys) == LoadAll(Loaded(old(names), old(tables), old(primaryKeys)), files[..i], parsed[..i])
      {
        LoadAllSnoc(Loaded(old(names), old(tables), old(primaryKeys)), files, parsed, i);
        LoadFile(files[i], parsed[i]);
        i := i + 1;
      }
      assert files[..|files|] == files && parsed[..|parsed|] == parsed;
      var s0 := Loaded(old(names), old(tables), old(primaryKeys));
      LoadAllKeepsNames(s0, files, parsed);
      forall t | t in names && t !in old(names)
        ensures exists i :: 0 <= i < |files| && Accepted(files[i]) && parsed[i].Some? && TableName(files[i]) == t
      {
        LoadAllNamesFrom(s0, files, parsed, t);
      }
    }

    /** `_detect_primary_key`: the three passes in order; the first one that finds a column records it. */
    method DetectPrimaryKey(name: string, t: Table)
      modifies this`primaryKeys
      ensures primaryKeys == KeyAfterDetection(old(primaryKeys), name, t)
    {
      var found := FindTemplated(t, KeyPatterns(name));
      if found.None? {
        found := FindKeyLike(t);
      }
      if found.None? {
        found := FindUniqueNumeric(t);
      }
      if found.Some? {
        primaryKeys := primaryKeys[name := found.value];
      }
    }

    /**
     * `detect_relationships`: the list is rebuilt from scratch, and the key map
     * keeps its entries and gains the keys promoted on the way.
     */
    method DetectRelationships()
      requires Valid()
      modifies this`relationships, this`primaryKeys
      ensures Valid()
      ensures DetectionState() == Detect(names, tables, old(primaryKeys))
    {
      var keys0 := primaryKeys;
      var d := DetectAll(names, tables, keys0);
      DetectStaysLoaded(names, tables, keys0);
      relationships, primaryKeys := d.found, d.keys;
    }

    // -------------------------------------------------------------------------
    // Manual edits.

    /** `set_primary_key`: checks the table, then the column, then records the key. */
    method SetPrimaryKey(table: string, column: string) returns (o: Outcome<DataError>)
      requires Valid()
      modifies this`primaryKeys
      ensures Valid()
      ensures table !in tables ==> o == Fail(UnknownTable(table)) && primaryKeys == old(primaryKeys)
      ensures table in tables && column !in tables[table].columns ==>
        o == Fail(UnknownColumn(table, column)) && primaryKeys == old(primaryKeys)
      ensures table in tables && column in tables[table].columns ==>
        o == Pass && primaryKeys == old(primaryKeys)[table := column]
    {
      if table !in tables {
        return Fail(UnknownTable(table));
      }
      if column !in tables[table].columns {
        return Fail(UnknownColumn(table, column));
      }
      primaryKeys := primaryKeys[table := column];
      return Pass;
    }

    /** `add_relationship`: checks both tables, then both columns, then appends. */
    method AddRelationship(table1: string, table2: string, column1: string, column2: string) returns (o: Outcome<DataError>)
      requires Valid()
      modifies this`relationships
      ensures Valid()
      ensures table1 !in tables ==> o == Fail(UnknownTable(table1))
      ensures table1 in tables && table2 !in tables ==> o == Fail(UnknownTable(table2))
      ensures table1 in tables && table2 in tables && column1 !in tables[table1].columns ==>
        o == Fail(UnknownColumn(table1, column1))
      ensures table1 in tables && table2 in tables && column1 in tables[table1].columns && column2 !in tables[table2].columns ==>
        o == Fail(UnknownColumn(table2, column2))
      ensures o.Fail? ==> relationships == old(relationships)
      ensures o.Pass? <==>
        table1 in tables && table2 in tables && column1 in tables[table1].columns && column2 in tables[table2].columns
      ensures o.Pass? ==> relationships == old(relationships) + [Relationship(table1, table2, column1, column2)]
    {
      if table1 !in tables {
        return Fail(UnknownTable(table1));
      }
      if table2 !in tables {
        return Fail(UnknownTable(table2));
      }
      if column1 !in tables[table1].columns {
        return Fail(UnknownColumn(table1, column1));
      }
      if column2 !in tables[table2].columns {
        return Fail(UnknownColumn(table2, column2));
      }
      relationships := relationships + [Relationship(table1, table2, column1, column2)];
      return Pass;
    }

    // -------------------------------------------------------------------------
    // Read-only views.

    /** `get_table_info`: the table names in load order, the key map and the relationships. */
    function TableInfo(): (info: TableSummary)
      reads this
      requires Valid()
      ensures Distinct(info.tables)
      ensures forall t :: t in info.primaryKeys ==> t in info.tables
      ensures forall r :: r in info.relationships ==> r.source in info.tables && r.target in info.tables
    {
      TableSummary(names, primaryKeys, relationships)
    }

    /** `get_relationship_graph`: forward links only, with a list for every loaded table and every first table. */
    method RelationshipGraph() returns (g: map<string, seq<Link>>)
      ensures forall t :: t in g <==> t in names || t in Sources(relationships)
      ensures forall t :: t in g ==> g[t] == Outgoing(relationships, t)
    {
      g := EmptyLists(names);
      var k := 0;
      while k < |relationships|
        invariant k <= |relationships|
        invariant forall t :: t in g <==> t in names || t in Sources(relationships[..k])
        invariant forall t :: t in g ==> g[t] == Outgoing(relationships[..k], t)
      {
        var r := relationships[k];
        OutgoingStep(relationships, k);
        if r.source !in g {
          OutgoingNone(relationships[..k], r.source);
          g := g[r.source := []];
        }
        g := g[r.source := g[r.source] + [Link(r.target, r.sourceColumn, r.targetColumn)]];
        k := k + 1;
      }
      WholePrefix(relationships);
    }

    // -------------------------------------------------------------------------
    // Merging.

    /** The table `merge_data` starts from: the first loaded table with the most edges. */
    function StartTable(): string
      reads this
      requires |names| > 0
    {
      names[MostConnected(names, GraphOf(names, relationships))]
    }

    /** The merge invariant over the object's tables and relationships. */
    ghost predicate Progress(g: map<string, seq<Edge>>, root: string, result: Table,
                             merged: seq<string>, remaining: set<string>, steps: seq<JoinStep>)
      reads this
    {
      Valid() && MergeInvariant(names, tables, relationships, g, root, result, merged, remaining, steps)
    }

    /**
     * One edge `(target, from, to)` of the merged table `table`: when the target
     * is still remaining, it is left-joined onto the result on `from = to`.
     */
    method TryEdge(g: map<string, seq<Edge>>, root: string, table: string, e: Edge, result0: Table,
                   merged0: seq<string>, remaining0: set<string>, steps0: seq<JoinStep>)
      returns (result: Table, merged: seq<string>, remaining: set<string>, steps: seq<JoinStep>, failed: bool)
      requires Progress(g, root, result0, merged0, remaining0, steps0)
      requires table in merged0 && table in g && e in g[table]
      ensures failed ==> !JoinColumnsExist()
      ensures e.target in remaining0 ==>
        (failed <==> e.fromColumn !in result0.columns || e.toColumn !in tables[e.target].columns)
      ensures failed ==> merged == merged0 && remaining == remaining0 && steps == steps0 && result == result0
      ensures !failed ==> Progress(g, root, result, merged, remaining, steps)
      ensures !failed && e.target in remaining0 ==>
        && merged == merged0 + [e.target] && remaining == remaining0 - {e.target}
        && steps == steps0 + [JoinStep(table, e.target, e.fromColumn, e.toColumn)]
        && result == LeftJoin(result0, tables[e.target], e.fromColumn, e.toColumn)
      ensures e.target !in remaining0 ==>
        !failed && merged == merged0 && remaining == remaining0 && steps == steps0 && result == result0
      ensures Advance(MergeState(result, merged, remaining, steps), failed) ==
              EdgeStep(tables, table, e, MergeState(result0, merged0, remaining0, steps0))
    {
      result, merged, remaining, steps, failed := result0, merged0, remaining0, steps0, false;
      if e.target in remaining {
        // `table` comes from a copy of the merged set, so the `else` branch
        // that would swap the join columns never runs.
        assert table in merged;
        var leftOn, rightOn := e.fromColumn, e.toColumn;
        var right := tables[e.target];
        if leftOn !in result.columns || rightOn !in right.columns {
          MissingColumnBreaksRelationship(names, tables, relationships, g, root, result, merged, remaining, steps, table, e);
          failed := true;
          return;
        }
        JoinKeepsInvariant(names, tables, relationships, g, root, result, merged, remaining, steps, table, e);
        result := LeftJoin(result, right, leftOn, rightOn);
        merged := merged + [e.target];
        remaining := remaining - {e.target};
        steps := steps + [JoinStep(table, e.target, leftOn, rightOn)];
      }
    }

    /** The edges of one merged table, in adjacency order. */
    method MergeFrom(g: map<string, seq<Edge>>, root: string, table: string, result0: Table,
                     merged0: seq<string>, remaining0: set<string>, steps0: seq<JoinStep>)
      returns (result: Table, merged: seq<string>, remaining: set<string>, steps: seq<JoinStep>,
               found: bool, failed: bool)
      requires Progress(g, root, result0, merged0, remaining0, steps0)
      requires table in merged0 && table in g
      ensures failed ==> !JoinColumnsExist()
      ensures failed ==> Progress(g, root, result, merged, remaining, steps) && StuckAt(g, tables, result, merged, remaining)
      ensures !failed ==> Progress(g, root, result, merged, remaining, steps) && merged0 <= merged
      ensures !failed ==> remaining <= remaining0 && Blocked(g[table], remaining)
      ensures !failed && found ==> |merged| > |merged0|
      ensures !failed && !found ==>
        && merged == merged0 && remaining == remaining0 && steps == steps0 && result == result0
        && Blocked(g[table], remaining0)
      ensures Advance(MergeState(result, merged, remaining, steps), failed) ==
              Edges(tables, table, g[table], MergeState(result0, merged0, remaining0, steps0))
    {
      result, merged, remaining, steps := result0, merged0, remaining0, steps0;
      found, failed := false, false;
      var edges := g[table];
      var k := 0;
      while k < |edges|
        invariant k <= |edges|
        invariant Progress(g, root, result, merged, remaining, steps)
        invariant merged0 <= merged && remaining <= remaining0
        invariant found ==> |merged| > |merged0|
        invariant !found ==> merged == merged0 && remaining == remaining0 && steps == steps0 && result == result0
        invariant !found ==> Blocked(edges[..k], remaining0)
        invariant Blocked(edges[..k], remaining)
        invariant Edges(tables, table, edges, MergeState(result0, merged0, remaining0, steps0)) ==
                  Edges(tables, table, edges[k..], MergeState(result, merged, remaining, steps))
      {
        var e := edges[k];
        assert edges[k..][0] == e && edges[k..][1..] == edges[k + 1..];
        var before := merged;
        BlockedSnoc(edges, k, remaining0);
        var remainingBefore := remaining;
        var result1, merged1, remaining1, steps1 := result, merged, remaining, steps;
        result, merged, remaining, steps, failed := TryEdge(g, root, table, e, result, merged, remaining, steps);
        if failed {
          assert result == result1 && merged == merged1 && remaining == remaining1 && steps == steps1;
          assert table in merged && e in g[table] && e.target in remaining;
          return;
        }
        found := found || e.target in remaining0 || merged != before;
        BlockedSnoc(edges, k, remaining);
        BlockedShrinks(edges[..k], remainingBefore, remaining);
        k := k + 1;
      }
      WholePrefix(edges);
    }

    /** One round of the merge loop: every table merged so far, in order, offers its edges. */
    method MergeRound(g: map<string, seq<Edge>>, root: string, result0: Table,
                      merged0: seq<string>, remaining0: set<string>, steps0: seq<JoinStep>)
      returns (result: Table, merged: seq<string>, remaining: set<string>, steps: seq<JoinStep>,
               found: bool, failed: bool)
      requires Progress(g, root, result0, merged0, remaining0, steps0)
      ensures failed ==> !JoinColumnsExist()
      ensures failed ==> Progress(g, root, result, merged, remaining, steps) && StuckAt(g, tables, result, merged, remaining)
      ensures !failed ==> Progress(g, root, result, merged, remaining, steps) && merged0 <= merged
      ensures !failed ==> forall t :: t in merged0 ==> t in g && Blocked(g[t], remaining)
      ensures !failed && found ==> |merged| > |merged0|
      ensures !failed && !found ==>
        && merged == merged0 && remaining == remaining0 && steps == steps0 && result == result0
        && forall t :: t in merged0 ==> t in g && Blocked(g[t], remaining0)
      ensures Advance(MergeState(result, merged, remaining, steps), failed) ==
              Round(tables, g, merged0, MergeState(result0, merged0, remaining0, steps0))
    {
      result, merged, remaining, steps := result0, merged0, remaining0, steps0;
      found, failed := false, false;
      var snapshot := merged0;
      var i := 0;
      while i < |snapshot|
        invariant i <= |snapshot|
        invariant Progress(g, root, result, merged, remaining, steps)
        invariant merged0 <= merged
        invariant found ==> |merged| > |merged0|
        invariant !found ==> merged == merged0 && remaining == remaining0 && steps == steps0 && result == result0
        invariant AllBlocked(g, snapshot[..i], remaining)
        invariant Round(tables, g, snapshot, MergeState(result0, merged0, remaining0, steps0)) ==
                  Round(tables, g, snapshot[i..], MergeState(result, merged, remaining, steps))
      {
        var table := snapshot[i];
        assert snapshot[i..][0] == table && snapshot[i..][1..] == snapshot[i + 1..];
        var remainingBefore := remaining;
        assert table == merged[i];
        assert table in tables;
        var more;
        result, merged, remaining, steps, more, failed := MergeFrom(g, root, table, result, merged, remaining, steps);
        if failed {
          return;
        }
        found := found || more;
        AllBlockedStep(g, snapshot, i, remainingBefore, remaining);
        i := i + 1;
      }
      WholePrefix(snapshot);
    }

    /**
     * The `while remaining and attempts < max_attempts` loop of `merge_data`,
     * from the start table alone: rounds run until one raises, one joins
     * nothing, or nothing remains.
     */
    method MergeLoop(g: map<string, seq<Edge>>, start: string)
      returns (result: Table, merged: seq<string>, remaining: set<string>, steps: seq<JoinStep>, failed: bool)
      requires Valid() && |names| > 0 && g == GraphOf(names, relationships) && start == StartTable()
      ensures Advance(MergeState(result, merged, remaining, steps), failed) ==
              Run(tables, g, MergeState(tables[start], [start], tables.Keys - {start}, []), |names| * 2)
      ensures Progress(g, start, result, merged, remaining, steps)
      ensures failed ==> !JoinColumnsExist() && StuckAt(g, tables, result, merged, remaining)
      ensures !failed ==> remaining == {} || forall t :: t in merged ==> t in g && Blocked(g[t], remaining)
    {
      result := tables[start];
      merged := [start];
      remaining := tables.Keys - {start};
      steps := [];
      failed := false;
      var attempts := 0;
      var maxAttempts := |names| * 2;
      StartKeepsInvariant(names, tables, relationships, start);
      ghost var run := Run(tables, g, MergeState(result, merged, remaining, steps), maxAttempts);
      while remaining != {} && attempts < maxAttempts
        invariant Progress(g, start, result, merged, remaining, steps)
        invariant 0 <= attempts <= |merged| - 1 && |merged| <= |names|
        invariant run == Run(tables, g, MergeState(result, merged, remaining, steps), maxAttempts - attempts)
        invariant !failed
        decreases maxAttempts - attempts
      {
        ghost var cur := MergeState(result, merged, remaining, steps);
        ghost var n := maxAttempts - attempts;
        RunRound(tables, g, cur, n);
        attempts := attempts + 1;
        var found;
        result, merged, remaining, steps, found, failed := MergeRound(g, start, result, merged, remaining, steps);
        ghost var next := MergeState(result, merged, remaining, steps);
        assert Advance(next, failed) == Round(tables, g, cur.merged, cur);
        if failed {
          return;
        }
        MergedWithin(names, tables, relationships, g, start, result, merged, remaining, steps);
        if !found {
          assert next == cur;
          return;
        }
        assert |next.merged| > |cur.merged|;
        assert run == Run(tables, g, next, n - 1);
      }
    }

    /**
     * `merge_data`: start from the most connected table and left-join every table
     * reachable from it, one round of the merged tables' edges at a time, until
     * nothing remains or a round joins nothing. Clashing column names follow the
     * rule of `Joins.LeftJoin`, and the success clause below is about that rule.
     */
    method MergeData() returns (r: Result<MergeResult, DataError>)
      requires Valid()
      ensures r.Err? ==> r.error in {NoDataLoaded, NoRelationships, NoTablesToMerge, MissingJoinColumn}
      ensures r == Err(NoDataLoaded) <==> |names| == 0
      ensures r == Err(NoRelationships) <==> |names| > 0 && |relationships| == 0
      ensures r == Err(NoTablesToMerge) <==> |names| > 0 && |relationships| > 0 && StartTable() == ""
      ensures r == Err(MissingJoinColumn) ==> !JoinColumnsExist()
      ensures r == Err(MissingJoinColumn) ==>
        && |names| > 0 && |relationships| > 0 && StartTable() != ""
        && exists result, merged, remaining, steps ::
             && MergeInvariant(names, tables, relationships, GraphOf(names, relationships), StartTable(),
                               result, merged, remaining, steps)
             && StuckAt(GraphOf(names, relationships), tables, result, merged, remaining)
      ensures |names| > 0 && |relationships| > 0 && StartTable() != "" && JoinColumnsExist() ==> r.Ok?
      ensures r.Ok? ==> |relationships| > 0 && MergeOutcome(names, tables, relationships, r.value)
      ensures r == MergeSpec(names, tables, relationships)
    {
      if |names| == 0 {
        return Err(NoDataLoaded);
      }
      if |relationships| == 0 {
        return Err(NoRelationships);
      }
      var g := AdjacencyLists(names, relationships);
      var start := names[MostConnected(names, g)];
      if start == "" {
        return Err(NoTablesToMerge);
      }
      var result, merged, remaining, steps, failed := MergeLoop(g, start);
      if failed {
        assert MergeInvariant(names, tables, relationships, GraphOf(names, relationships), StartTable(),
                              result, merged, remaining, steps);
        return Err(MissingJoinColumn);
      }
      FinishMerge(names, tables, relationships, g, start, result, merged, remaining, steps);
      r := Ok(MergeResult(result, start, steps, remaining));
    }
  }
}
