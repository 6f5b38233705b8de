# DataMerger, modelled in Dafny

This project models the `DataMerger` class of `data_merger.py`. The class
loads a folder of CSV and Excel files as tables and guesses each table's
primary key from column names and uniqueness. It then guesses foreign-key
relationships between tables from naming conventions, and left-joins
everything it can reach from the most connected table into one frame.

The model is a Dafny class, `Merger.DataMerger`, with the object's four pieces
of state:

- `names`: the keys of `self.dataframes`, in insertion order;
- `tables`: `self.dataframes` itself;
- `primaryKeys`;
- `relationships`.

Each public operation is a method that updates these fields in place or reads
them. The loops of the source are `while` loops with invariants. Every method
is proved against a value-level specification:

- key detection against `KeyDetection.DetectKey`;
- relationship detection against `RelationshipDetection.Detect`, a fold over
  the list of candidate matches in scan order;
- the merge graph against `Graph.GraphOf`;
- the merged frame against `MergePlan.Replay`, the log of left joins applied
  to the start table;
- the merge loop itself against `Merger.MergeSpec`, built from one function per
  level of the loop (`EdgeStep` for one edge, `Edges` for one table's edges in
  order, `Round` for one pass over the copy of the merged list, `Run` for the
  rounds), so the order of the scan, the edge that produces each join and the
  edge at which a failure happens are those of the source.

The lemmas beside those functions state what the heuristics guarantee:

- a detected key is an existing unique column. When some name template
  matches a unique column, it is the first column, in column order, matching
  the first such template. Otherwise it is the first unique column with a key
  term, and failing that the first unique numeric column;
- detection finds nothing exactly when no pass has a candidate;
- every detected relationship joins two loaded tables through a column that
  matches a candidate name, and points at the target's recorded key;
- a column matching a candidate name of another table yields a relationship
  whenever that table already has a key (even one left over from an earlier
  load) or has a unique id-like column; a table with neither is never a target;
- nothing is deduplicated: detection returns one relationship per resolvable
  match, in scan order, so a column whose name fits two candidates of a table
  (`orders.customer_id` for `customers`) is reported at least twice;
- the merge graph holds both directions of each relationship;
- left joins keep every left row and widen it;
- each table joins at most once.

The main result is about `merge_data`. When it succeeds, it started at the
first table with the most edges and followed graph edges only. The frame it
returns is the start table with those joins applied. The tables it warns about
are exactly the ones not reachable from the start table. The attempt cap of
twice the table count therefore never ends a merge early. The three
`ValueError`s are raised under the source's conditions and in its order. A
join attempt fails (the source's `KeyError`) exactly when its left column is
missing from the frame built so far or its right column from the joined
table, and every join of a successful merge found both columns. Such a
failure happens only when some relationship names a column its table lacks,
and when every relationship's columns exist the merge succeeds. That success
claim rests on the model's joins, which keep one column on a name clash where
`pd.merge` renames both sides with `_x`/`_y`, and which do not compare
dtypes. The source can therefore still raise `KeyError` after such a rename,
or pandas' `ValueError` for join columns of incompatible dtypes, where the
model succeeds; "## Left out" says when.

A table is modelled as:

- ordered column names;
- rows, each a map from column to cell;
- the set of columns with a numeric dtype.

A cell is `Null` or a text value. Column uniqueness (`Series.is_unique`) is
computed from the rows. Two missing cells count as equal, both for uniqueness
and for join matching.

Three points about what the code does, which the model follows:

- A table is joined into the result at most once. `remaining_tables.remove`
  takes it out as soon as it is merged, so a second qualifying edge is never
  followed.
- The class has no operation that removes a relationship, so the model has
  none either.
- In the inner merge loop, `table` always comes from the merged set, so the
  branch at `data_merger.py:206-208` that swaps the join columns never runs.
  The model asserts this and has no swap.

## Model

| member | source | states |
|---|---|---|
| Merger.DataMerger.constructor | data_merger.py:7-10 | the object starts with no tables, no key map entries and no relationships, and is consistent |
| Merger.DataMerger.LoadFiles | data_merger.py:12-28 | the names, tables and key map after loading a listing are the entry-by-entry fold `LoadAll` of the listing over the old ones. The old names are a prefix of the new, every accepted, readable file's table name is loaded, and every new name comes from such a file. Relationships are untouched and the object stays consistent |
| Merger.LoadAllLastWins | data_merger.py:14-26 | the last accepted, readable entry of a name decides its table: that frame is stored under the name, and a key detected on it is the name's key |
| Merger.LoadAllUntouched | data_merger.py:14-26 | a name that no entry of the listing loads keeps its presence, its table and its key |
| Merger.LoadAllKeepsNames | data_merger.py:14-26 | loading a listing keeps the old names as a prefix and loads the table name of every accepted, readable entry |
| Merger.LoadAllNamesFrom | data_merger.py:14-26 | every name a listing adds is the table name of one of its accepted, readable entries |
| Merger.DataMerger.LoadFile | data_merger.py:14-28 | a skipped or unreadable entry changes nothing. Otherwise the table is stored under its stem lower-cased (ASCII letters only), a new name goes last and an old one keeps its place, and the key map becomes the one key detection gives |
| Merger.DataMerger.LoadTable | data_merger.py:25-26 | storing a data frame replaces the table under its name, appends the name only when it is new, then runs key detection |
| Merger.LoadKeepsConsistent | data_merger.py:25-26 | loading a table, new or replaced, and detecting its key keeps names distinct and equal to the table map, with keys and relationships on loaded tables |
| FileNames.LastDot | data_merger.py:17 | the position found is a dot with no dot after it, and no position means the name has no dot |
| FileNames.TableNameOfDataFile | data_merger.py:15-17 | `base.csv` and `base.xlsx` are accepted and become table `base`, with its ASCII letters lower-cased |
| FileNames.TableNameOfHiddenFile | data_merger.py:15-17 | a file whose stem is only dots (`.csv`) keeps its whole name, extension included, as `splitext` does |
| FileNames.TableNameNonEmpty | data_merger.py:15-17 | every accepted file gets a non-empty table name |
| Text.Lower | data_merger.py:59 | lower-casing keeps the length (it lower-cases ASCII letters only) |
| Text.DropLast | data_merger.py:35 | `t[:-1]` is the name without its last character, and empty for an empty name |
| KeyDetection.KeyPatterns | data_merger.py:33-56 | the template list after removing `None`: 14 entries when the name ends in `s` and 12 otherwise. It starts `{t}_id`, then the singular forms only for plural names, and no entry is empty |
| Merger.DataMerger.DetectPrimaryKey | data_merger.py:30-85 | the key map after the three passes is the old one with the detected key recorded, or unchanged when no pass finds a column |
| Merger.FindTemplated | data_merger.py:58-66 | the nested pattern/column loop returns the templated pass's result |
| Merger.FindNamedLike | data_merger.py:59-66 | the column loop returns the first unique column equal to the pattern up to case |
| Merger.FindKeyLike | data_merger.py:68-74 | the second pass returns the first unique column whose lower-cased name contains `id`, `key`, `code` or `num` |
| Merger.FindUniqueNumeric | data_merger.py:76-82 | the third pass returns the first unique numeric column, in column order |
| Tables.NumericColumns | data_merger.py:77 | the numeric columns are exactly the columns with a numeric dtype |
| Tables.FirstWhere | data_merger.py:68-74 | a hit is an element satisfying the test, and there is no hit exactly when no element satisfies it |
| Tables.FirstWhereIsFirst | data_merger.py:68-74 | a hit is the earliest element that satisfies the test |
| KeyDetection.TemplatedIsFirstMatch | data_merger.py:58-66 | the templated pass picks a unique column matching some pattern with no earlier pattern matching any unique column, and it is the first column, in column order, matching that pattern |
| KeyDetection.TemplatedNoneExactly | data_merger.py:58-66 | the templated pass finds nothing exactly when no pattern matches a unique column |
| KeyDetection.KeyLikeNoneExactly | data_merger.py:68-74 | the key-term pass finds nothing exactly when no unique column has a key term |
| KeyDetection.NumericNoneExactly | data_merger.py:76-82 | the numeric pass finds nothing exactly when no numeric column is unique |
| KeyDetection.DetectKeyIsUniqueColumn | data_merger.py:58-82 | a detected key is an existing column whose values are unique |
| KeyDetection.DetectKeyNoneExactly | data_merger.py:58-85 | nothing is detected if and only if no pattern matches a unique column, no unique column has a key term, and no numeric column is unique |
| KeyDetection.KeyTermFallback | data_merger.py:68-74 | when no pattern matches, the first unique column with a key term is the key |
| KeyDetection.KeyTermSearch | data_merger.py:68-74 | the key-term search returns the first unique column with a key term |
| KeyDetection.NumericFallback | data_merger.py:76-82 | when the first two passes find nothing, the key is the first unique numeric column, and it is numeric, unique and a column |
| KeyDetection.TableIdColumnWins | data_merger.py:34-66 | a unique `{table}_id` column always yields a key: the first unique column spelled `{table}_id` up to case |
| Merger.KeyAfterDetectionChangesOne | data_merger.py:30-85 | key detection touches only its own table's entry, records a unique column there, and leaves an earlier key in place when it finds nothing |
| RelationshipDetection.LiteralCandidate | data_merger.py:109-115 | the fixed literal exists for exactly the six known table names |
| RelationshipDetection.FkCandidates | data_merger.py:93-115 | there are eight templated candidates plus the literal, with the singular ones built from `t2[:-1]` |
| RelationshipDetection.FkCandidatesNonEmpty | data_merger.py:124-126 | no emitted candidate is empty, so only a missing literal is skipped |
| RelationshipDetection.IdColumn | data_merger.py:136-142 | the fallback search returns a unique column named `id`, `{t2}_id` or `{t2}id` up to case, and none exactly when no such column exists |
| Merger.ResolveMatch | data_merger.py:131-142 | one matching column either reuses the target's key or promotes the first unique id-like column, as the fold step says |
| Merger.ScanColumns | data_merger.py:129-142 | the column loop folds the matches of one candidate name |
| Merger.ScanPatterns | data_merger.py:123-142 | the pattern loop folds the matches of every candidate in order |
| Merger.ScanTargets | data_merger.py:119-142 | the inner table loop skips the source itself and folds the matches of every other target |
| Merger.DetectAll | data_merger.py:118-142 | the outer table loop computes the detection of all ordered pairs |
| Merger.DataMerger.DetectRelationships | data_merger.py:87-143 | the relationship list restarts empty; the new list and key map are what detection gives from the old key map; the object stays consistent |
| RelationshipDetection.ColumnMatchesExactly | data_merger.py:129-130 | the matches for one candidate are exactly the source columns equal to it up to case |
| RelationshipDetection.PatternMatchesExactly | data_merger.py:123-130 | the matches for a target are exactly the source columns equal to some candidate up to case |
| RelationshipDetection.TargetMatchesExactly | data_merger.py:119-130 | the matches of a source are exactly the genuine matches onto other listed tables |
| RelationshipDetection.MatchesOfExactly | data_merger.py:118-130 | the matches of all pairs are exactly the genuine matches between distinct loaded tables |
| RelationshipDetection.ResolveAllKeepsKeys | data_merger.py:131-142 | resolving matches only appends relationships, never changes an existing key, and every promoted key is the target's id-like column; keys that were columns stay columns |
| RelationshipDetection.ResolveAllTargetsKeys | data_merger.py:131-142 | every emitted relationship points at its target's recorded key |
| RelationshipDetection.ResolveAllFromMatches | data_merger.py:131-142 | every new relationship comes from a match with the same tables and source column |
| RelationshipDetection.ResolveAllKeepsLength | data_merger.py:131-142 | each match emits at most one relationship |
| RelationshipDetection.ResolveAllKeyed | data_merger.py:131-134 | when every target already has a key, each match emits exactly one relationship to that key, in order, and the key map is unchanged |
| RelationshipDetection.ResolveAllEmits | data_merger.py:131-142 | a resolvable match emits its relationship, and the target's key stays what was used |
| RelationshipDetection.EmitsOnArrival | data_merger.py:131-142 | a resolvable match emits its relationship when it is processed |
| RelationshipDetection.ResolveAllSkipsUnresolvable | data_merger.py:135-142 | a target without a key or an id-like unique column gains no key and receives no relationship |
| RelationshipDetection.DetectSound | data_merger.py:118-142 | every detected relationship joins two distinct loaded tables through a source column matching a candidate of the target, and points at the target's key. That column is one of the target's columns unless it is a key recorded before detection, which a reload can leave stale |
| RelationshipDetection.DetectPromotesOnly | data_merger.py:131-142 | detection keeps every existing key, stale or not, and adds only id-like unique columns as keys |
| RelationshipDetection.DetectFindsReference | data_merger.py:118-142 | every column naming a candidate of another loaded table yields a relationship: to its key if it has one, stale or not, else to its id-like column, which becomes its key |
| RelationshipDetection.Emitted | data_merger.py:131-142 | the relationships a match list yields, resolved against one state, are at most one per match |
| RelationshipDetection.ResolveAllFound | data_merger.py:131-142 | resolving a match list appends exactly the relationship of each resolvable match, in match order, whatever keys earlier matches promoted |
| RelationshipDetection.DetectFound | data_merger.py:90-142 | the detected list, started empty, is exactly one relationship per resolvable match, in scan order, with no deduplication |
| RelationshipDetection.EmittedCount | data_merger.py:131-142 | a resolvable match listed n times yields its relationship at least n times |
| RelationshipDetection.PatternMatchesTwice | data_merger.py:123-130 | a column whose name fits two candidates is listed as a match at least twice |
| RelationshipDetection.TargetMatchesHolds | data_merger.py:119-130 | the matches towards one target are all among the matches towards every target, with their multiplicity |
| RelationshipDetection.MatchesOfHolds | data_merger.py:118-130 | the matches from one source are all among the matches of every pair, with their multiplicity |
| RelationshipDetection.DetectRepeats | data_merger.py:118-142 | a column fitting two candidates of a keyed or promotable table yields that relationship at least twice |
| RelationshipDetection.CustomerIdTwice | data_merger.py:97-140 | `orders.customer_id` is reported twice to a keyed `customers`, from the singular template and from the literal one |
| RelationshipDetection.DetectSkipsUnkeyable | data_merger.py:135-142 | a table with no key and no id-like unique column is never a relationship target |
| RelationshipDetection.ResolveAllStaysIn | data_merger.py:118-142 | resolving matches among a set of tables emits relationships and keys only among them |
| RelationshipDetection.MatchesOfEndpoints | data_merger.py:118-121 | every match pairs two loaded tables |
| RelationshipDetection.DetectStaysLoaded | data_merger.py:118-142 | detected relationships and promoted keys mention loaded tables only |
| Merger.DataMerger.SetPrimaryKey | data_merger.py:243-252 | an unknown table fails first, then an unknown column, each leaving the key map alone; otherwise the key is recorded |
| Merger.DataMerger.AddRelationship | data_merger.py:254-270 | table 1, table 2, column 1 and column 2 are checked in that order with their own errors. It succeeds exactly when all four exist, then appends the tuple; a failure changes nothing |
| Merger.DataMerger.TableInfo | data_merger.py:235-241 | the summary lists each table once, and its keys and relationships name listed tables only |
| Merger.DataMerger.RelationshipGraph | data_merger.py:288-301 | the graph has a list for every loaded table and every first table of a relationship, holding that table's forward links in relationship order |
| Graph.OutgoingExactly | data_merger.py:294-299 | a table's links are exactly its relationships read forward, at most one per relationship |
| Graph.OutgoingNone | data_merger.py:294-299 | a table that no relationship starts from has no links |
| Graph.OutgoingInAdjacency | data_merger.py:164-169 | every forward link is also an edge of the merge graph |
| Merger.AdjacencyLists | data_merger.py:158-169 | the merge graph built by the two loops is `GraphOf` of the loaded names and the relationship list |
| Merger.EmptyLists | data_merger.py:159-161 | the first loop gives every loaded table an empty list and nothing else a list |
| Merger.AddEdges | data_merger.py:164-169 | one relationship appends its forward edge to its first table and its reverse edge to its second |
| Graph.GraphOf | data_merger.py:158-161 | the merge graph has a list for exactly the loaded tables |
| Graph.AdjacencySnoc | data_merger.py:164-169 | one more relationship appends the forward edge, then the reverse edge |
| Graph.AdjacencyExactly | data_merger.py:164-169 | a table's edges are exactly those its relationships contribute, in either direction |
| Graph.AdjacencySymmetric | data_merger.py:164-169 | an edge from `a` to `b` on `c1 = c2` exists exactly when the edge from `b` to `a` on `c2 = c1` does |
| Graph.AdjacencyHasRelationship | data_merger.py:164-169 | every relationship gives both of its edges |
| Graph.AdjacencyTargetsIn | data_merger.py:164-169 | when relationships mention loaded tables only, every edge leads to a loaded table |
| Graph.AdjacencyColumns | data_merger.py:164-169 | when every relationship's columns exist, every edge's columns exist in its two tables |
| Graph.GraphTargetsIn | data_merger.py:158-169 | every edge of the merge graph leads to a loaded table |
| MergePlan.MostConnected | data_merger.py:172-174 | the start is a table with the most edges, and no earlier table has as many |
| Joins.MatchingRows | data_merger.py:211-217 | the right rows matching a key are exactly the right rows with that cell |
| Joins.NullRow | data_merger.py:211-217 | an unmatched left row gets a missing cell for every column |
| Joins.Widen | data_merger.py:211-217 | each matching right row is extended by the left row |
| Joins.JoinRow | data_merger.py:211-217 | a left row yields at least one output row, and each extends it |
| Joins.NewColumns | data_merger.py:211-217 | the right columns appended are exactly those the left lacks |
| Joins.LeftJoin | data_merger.py:211-217 | the joined frame keeps the left columns first and has exactly the columns of the two sides |
| Joins.JoinRowShape | data_merger.py:211-217 | an unmatched left row gives one row with missing right cells; a matched one gives one row per matching right row, carrying its cells |
| Joins.JoinRowsCover | data_merger.py:211-217 | a left join's rows are at least as many as the left rows, and every left row survives, widened |
| Joins.JoinRowsOnlyWiden | data_merger.py:211-217 | every output row widens some left row |
| Joins.UniqueKeyMatchesOnce | data_merger.py:211-217 | a key column with unique values matches at most one row |
| Joins.UniqueJoinRowSingle | data_merger.py:211-217 | joining on a unique right column gives one row per left row |
| Joins.JoinUniqueKeyAligned | data_merger.py:211-217 | joining on a unique right column keeps the row count and extends each left row in place |
| Joins.LeftJoinCovers | data_merger.py:211-217 | a left join never loses a left row |
| MergePlan.ReplayCovers | data_merger.py:189-222 | every row of the start table survives, widened, in the merged frame |
| MergePlan.ReplayColumns | data_merger.py:189-222 | the merged frame has exactly the columns of the start table and of the joined tables |
| MergePlan.ReplayAligned | data_merger.py:189-222 | when each joined table is unique on its join column, the merged frame has one row per start row, extending it |
| MergePlan.JoinsHadColumnsAt | data_merger.py:211-217 | in a join log whose joins found their columns, as every successful merge's log does, each join's left column was a column of the frame built by the joins before it, and its right column a column of the joined table |
| MergePlan.ChainedReachable | data_merger.py:196-222 | every table a chained join log reaches is reachable from the start table |
| MergePlan.ReachPartition | data_merger.py:189-230 | once no merged table has an edge into the remaining ones, the remaining tables are exactly the unreachable ones |
| Graph.ReachableStep | data_merger.py:196-222 | following an edge from a reachable table reaches its target |
| Graph.ClosedUnreachable | data_merger.py:196-230 | no table outside an edge-closed set that contains the start is reachable from the start |
| Merger.StartKeepsInvariant | data_merger.py:179-182 | the merge starts with the start table alone, nothing joined and every other loaded table remaining |
| Merger.MergedWithin | data_merger.py:187-189 | the merged list holds between one table and every loaded table |
| Merger.JoinKeepsInvariant | data_merger.py:198-222 | joining a remaining table through an edge of a merged one, on columns that exist, keeps the merge invariant |
| Merger.MissingColumnBreaksRelationship | data_merger.py:211-217 | a join column missing from the frame or from the joined table means some relationship names a missing column |
| Merger.FinishMerge | data_merger.py:224-230 | when nothing remains or no merged table has an edge into what remains, the loop's state is the merge outcome |
| Merger.EdgesShrink | data_merger.py:197-222 | scanning a table's edges only removes tables from remaining and only appends to the join log |
| Merger.EdgesRaise | data_merger.py:197-222 | a scan that raises stops at an edge it actually reached: every earlier edge leads to a merged table, the failing edge leads to a table still remaining, and a join column (or the table itself) is missing there |
| Merger.EdgesBlock | data_merger.py:197-222 | a scan that does not raise leaves the target of every edge merged |
| Merger.EdgesLog | data_merger.py:197-222 | every join a scan logs starts from the scanned table, follows the first of its edges to that target, and joins a table that was remaining |
| Merger.RoundShrink | data_merger.py:195-222 | a round only removes tables from remaining |
| Merger.RoundRaise | data_merger.py:195-222 | a round that raises does so at the first failing edge its scan reaches: every earlier table of the round's copy had all its edges lead to merged tables, so did the earlier edges of the failing table, and the failing edge leads to a remaining table with a join column missing |
| Merger.RoundLog | data_merger.py:195-222 | every join a round logs starts from a table of the round's copy of the merged list |
| Merger.FirstEdgeWins | data_merger.py:197-222 | for `a(bid)`, `b(id)` and relationships `a.bid = b.id`, `a.old = b.id`, the merge succeeds: it joins `b` through `bid` and skips the stale `old` edge because `b` is merged by then |
| Merger.DataMerger.TryEdge | data_merger.py:198-222 | its new state and failure flag are exactly `EdgeStep` of the old state: an edge to a remaining table fails exactly when its left column is missing from the result or its right column from the joined table; otherwise it left-joins the table on `from = to`, moves it from remaining to merged and logs the join from this table. Any other edge changes nothing, and a failure changes nothing either |
| Merger.DataMerger.MergeFrom | data_merger.py:197-222 | its new state and failure flag are exactly `Edges` over the table's adjacency list, first edge to last, stopping at the first edge that raises (what that edge is: `Merger.EdgesRaise`; which edges produce the logged joins: `Merger.EdgesLog`). Without a failure none of the edges leads to a table still remaining, and remaining only shrank; when none led to a remaining table at the start, nothing changes. A failure leaves a merge state that is stuck. A stale edge into an already merged table never fails |
| Merger.DataMerger.MergeRound | data_merger.py:195-222 | its new state and failure flag are exactly `Round` over the copy of the merged list taken when the round starts, table by table in that order, stopping at the first raise. A table merged during the round is expanded only in a later round (`Merger.RoundLog`). Without a failure no table of the copy has an edge to a table still remaining; a round that joins nothing changes nothing. A failed round stops in a stuck merge state at the first failing edge (`Merger.RoundRaise`) |
| Merger.DataMerger.MergeLoop | data_merger.py:186-222 | the loop's final state and failure flag are exactly `Run` from the start table with `2 * len` attempts; the state stays a merge state; a failure leaves it stuck; otherwise nothing remains or every merged table's edges lead to merged tables |
| Merger.DataMerger.MergeData | data_merger.py:150-233 | the result is exactly `MergeSpec`: the checks, the start table and the loop `Run` from it with `2 * len` attempts. No tables, then no relationships, then an empty start name fail in that order, each error exactly under its condition, and no other error than these and the missing join column is returned. The missing-column failure happens exactly when the loop, scanning in its own order, reaches an edge into a still remaining table that lacks a join column (`Merger.RoundRaise`); a relationship naming a column that a reload removed is harmless once an earlier edge merged its table (`Merger.FirstEdgeWins`). Under the model's collision rule (see the Merger.DataMerger.MergeData lines under "## Left out"), it succeeds when every relationship's columns exist. Success means the start is the first most connected table, the frame is the start with the logged joins applied, each join found its left column in the frame before it and its right column in its table, each table joins once, and the unmerged tables are exactly the unreachable ones |

## Left out

- Printing, which is every `print` call and the two display methods `print_tables` and `print_table_preview`. They only write to the console.
- Reading the folder is not modelled. `os.listdir` and `os.path.join` are replaced by `LoadFiles` parameters: the listing in listing order, and what `pd.read_csv` or `pd.read_excel` gave for each entry (`None` when reading raised).
- Text.Lower: lower-cases the ASCII letters `A`-`Z` only and keeps the length. Python's `str.lower` folds every Unicode cased letter and can change a string's length (`'İ'.lower()` has two characters). So table names (`Été.csv` gives `Été`, not `été`) and every case-insensitive comparison of column names with key templates, key terms, foreign-key candidates and id names differ from the source on non-ASCII letters.
- An exception from a non-string column name, such as a numeric header from `read_excel`. Key detection would raise after the frame is stored, and relationship detection would raise after the relationship list was cleared, since both lower-case column names. Column names are strings here, so neither can raise.
- Merger.DataMerger.MergeRound: iterates over a copy of the merged set in insertion order. Python iterates over its hash order, so with several possible joins in one round the join order, start table aside, can differ.
- Merger.DataMerger.MergeData: warns about the unmerged tables by returning them in `MergeResult.unmerged`. It does not print them.
- Merger.DataMerger.MergeData: its success conjunct is weaker than a claim about the source, because it holds only under the model's collision rule. In the source, a join whose two frames share a column name other than a common join key renames that column to `c_x` and `c_y`. A later join whose left column is `c` then raises `KeyError`. The rename happens whenever two joined tables share a column such as `id`; the failure needs a later join on that column. Example: loading `customers(id, name)`, `orders(id, customer_id)` and `items(item_id, order_id)` makes `orders` the start table. The first join renames `id`, and the join on `id` into `items` fails in the source but succeeds in the model.
- Joins.LeftJoin: on a clash of column names it keeps the left cell and one column. `pd.merge` would add `_x`/`_y` suffixes. Dtype coercion and the error for joining columns of different dtypes are not modelled either.
- pandas' kinds of missing value: the model has one `Null` cell. It does reproduce that a missing join key matches another missing key (`Joins.MatchingRows`) and that two missing cells make a column non-unique (`Tables.IsUnique`). What is left out is the difference between `NaN` and `None`, and cells that become missing through dtype inference when a file is read. Cell values are text, and dtypes are reduced to the set of numeric columns.
- Merger.DataMerger.TableInfo: returns a value. The source returns the live key dictionary and relationship list, so a caller that changes them changes the object. That aliasing is not modelled.
- Merger.DataMerger.RelationshipGraph: the result is a map, so the insertion order of the returned dictionary's keys is not modelled.
- The `default=` argument of `max` in `merge_data` is not modelled. It is never used, because the graph has a list for every loaded table and there is at least one.
- Merger.DataMerger.DetectRelationships: builds the new relationship list and key map as a value and stores them at the end, instead of appending to the fields as it goes. Nothing reads the fields in between.
