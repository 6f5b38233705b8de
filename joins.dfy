/**
 * The left outer join that `merge_data` asks pandas for, joining the result
 * so far with one more table on a left and a right column, over rows as
 * column-to-cell maps.
 *
 * Column collisions: a right-hand column whose name the left side already has is
 * dropped and the left cell is kept (pandas would keep both, suffixed `_x`/`_y`).
 */
module Joins {
  import opened Tables

  /** Row `big` holds every cell of row `small` unchanged. */
  predicate Extends(big: Row, small: Row)
  {
    forall c :: c in small ==> c in big && big[c] == small[c]
  }

  /** Row `r` survives, possibly widened, somewhere in `big`. */
  ghost predicate Survives(big: seq<Row>, r: Row)
  {
    exists j :: 0 <= j < |big| && Extends(big[j], r)
  }

  /** Every row of `small` survives in `big`. */
  ghost predicate Covers(big: seq<Row>, small: seq<Row>)
  {
    forall i :: 0 <= i < |small| ==> Survives(big, small[i])
  }

  /** Row `r` widens one of the rows of `small`. */
  ghost predicate Widens(r: Row, small: seq<Row>)
  {
    exists i :: 0 <= i < |small| && Extends(r, small[i])
  }

  /** The rows whose cell in `col` equals `v`, in their original order. */
  function MatchingRows(rows: seq<Row>, col: string, v: Value): (ms: seq<Row>)
    ensures |ms| <= |rows|
    ensures forall k :: 0 <= k < |ms| ==> ms[k] in rows && Cell(ms[k], col) == v
    ensures forall r :: r in rows && Cell(r, col) == v ==> r in ms
  {
    if rows == [] then []
    else (if Cell(rows[0], col) == v then [rows[0]] else []) + MatchingRows(rows[1..], col, v)
  }

  /** A row holding a missing cell in each of `cols`. */
  function NullRow(cols: seq<string>): (r: Row)
    ensures forall c :: c in r <==> c in cols
    ensures forall c :: c in r ==> r[c] == Null
  {
    map c | c in cols :: Null
  }

  /** Each right-hand match widened by the left row's cells (the left cell wins a collision). */
  function Widen(ms: seq<Row>, l: Row): (out: seq<Row>)
    ensures |out| == |ms|
    ensures forall k :: 0 <= k < |ms| ==> out[k] == ms[k] + l
  {
    if ms == [] then [] else [ms[0] + l] + Widen(ms[1..], l)
  }

  /** The rows one left row contributes to the join. */
  function JoinRow(l: Row, right: Table, leftOn: string, rightOn: string): (out: seq<Row>)
    ensures |out| >= 1
    ensures forall k :: 0 <= k < |out| ==> Extends(out[k], l)
  {
    var ms := MatchingRows(right.rows, rightOn, Cell(l, leftOn));
    if ms == [] then [NullRow(right.columns) + l] else Widen(ms, l)
  }

  function JoinRows(ls: seq<Row>, right: Table, leftOn: string, rightOn: string): seq<Row>
  {
    if ls == [] then [] else JoinRow(ls[0], right, leftOn, rightOn) + JoinRows(ls[1..], right, leftOn, rightOn)
  }

  /** The right-hand columns the left side does not have yet, in right-hand order. */
  function NewColumns(leftCols: seq<string>, rightCols: seq<string>): (cs: seq<string>)
    ensures forall c :: c in cs <==> c in rightCols && c !in leftCols
  {
    if rightCols == [] then []
    else (if rightCols[0] in leftCols then [] else [rightCols[0]]) + NewColumns(leftCols, rightCols[1..])
  }

  /** The left join of `left` with `right` on `leftOn = rightOn`: every left row is kept. */
  function LeftJoin(left: Table, right: Table, leftOn: string, rightOn: string): (out: Table)
    ensures left.columns <= out.columns
    ensures forall c :: c in out.columns <==> c in left.columns || c in right.columns
  {
    Table(left.columns + NewColumns(left.columns, right.columns),
          JoinRows(left.rows, right, leftOn, rightOn),
          left.numeric + (right.numeric - Elements(left.columns)))
  }

  /**
   * One left row yields one widened row per matching right row, each carrying
   * that right row's cells in the columns the left row lacks; with no match it
   * yields a single row whose new columns are missing.
   */
  lemma JoinRowShape(l: Row, right: Table, leftOn: string, rightOn: string)
    ensures var ms := MatchingRows(right.rows, rightOn, Cell(l, leftOn));
      var out := JoinRow(l, right, leftOn, rightOn);
      && (ms == [] ==> |out| == 1 && forall c :: c in right.columns && c !in l ==> c in out[0] && out[0][c] == Null)
      && (ms != [] ==> |out| == |ms| && forall k, c :: 0 <= k < |ms| && c in ms[k] && c !in l ==> out[k][c] == ms[k][c])
  {
  }

  lemma SurvivesFront(head: seq<Row>, tail: seq<Row>, r: Row)
    requires |head| > 0 && Extends(head[0], r)
    ensures Survives(head + tail, r)
  {
    assert (head + tail)[0] == head[0];
  }

  lemma SurvivesBehind(head: seq<Row>, tail: seq<Row>, r: Row)
    requires Survives(tail, r)
    ensures Survives(head + tail, r)
  {
    var j :| 0 <= j < |tail| && Extends(tail[j], r);
    assert (head + tail)[|head| + j] == tail[j];
  }

  /** A left join drops no left row: each one survives, widened, in the result. */
  lemma {:induction false} JoinRowsCover(ls: seq<Row>, right: Table, leftOn: string, rightOn: string)
    ensures |JoinRows(ls, right, leftOn, rightOn)| >= |ls|
    ensures Covers(JoinRows(ls, right, leftOn, rightOn), ls)
  {
    if ls != [] {
      JoinRowsCover(ls[1..], right, leftOn, rightOn);
      var head := JoinRow(ls[0], right, leftOn, rightOn);
      var tail := JoinRows(ls[1..], right, leftOn, rightOn);
      var out := JoinRows(ls, right, leftOn, rightOn);
      assert out == head + tail;
      forall i | 0 <= i < |ls| ensures Survives(out, ls[i]) {
        if i == 0 {
          assert Extends(head[0], ls[0]);
          SurvivesFront(head, tail, ls[0]);
        } else {
          assert ls[i] == ls[1..][i - 1];
          SurvivesBehind(head, tail, ls[i]);
        }
      }
    }
  }

  /** A left join invents no row: every result row widens some left row. */
  lemma {:induction false} JoinRowsOnlyWiden(ls: seq<Row>, right: Table, leftOn: string, rightOn: string)
    ensures forall j :: 0 <= j < |JoinRows(ls, right, leftOn, rightOn)| ==> Widens(JoinRows(ls, right, leftOn, rightOn)[j], ls)
  {
    if ls != [] {
      JoinRowsOnlyWiden(ls[1..], right, leftOn, rightOn);
      var head := JoinRow(ls[0], right, leftOn, rightOn);
      var tail := JoinRows(ls[1..], right, leftOn, rightOn);
      var out := JoinRows(ls, right, leftOn, rightOn);
      assert out == head + tail;
      forall j | 0 <= j < |out| ensures Widens(out[j], ls) {
        if j < |head| {
          assert out[j] == head[j];
          assert Extends(out[j], ls[0]);
        } else {
          assert out[j] == tail[j - |head|];
          var i :| 0 <= i < |ls[1..]| && Extends(tail[j - |head|], ls[1..][i]);
          assert ls[1..][i] == ls[i + 1];
          assert Extends(out[j], ls[i + 1]);
        }
      }
    }
  }

  lemma {:induction false} NothingMatches(rows: seq<Row>, col: string, v: Value)
    requires forall r :: r in rows ==> Cell(r, col) != v
    ensures MatchingRows(rows, col, v) == []
  {
    if rows != [] {
      assert rows[0] in rows;
      NothingMatches(rows[1..], col, v);
    }
  }

  /** When the right key column is unique, a value matches at most one right row. */
  lemma {:induction false} UniqueKeyMatchesOnce(rows: seq<Row>, col: string, v: Value)
    requires forall i, j :: 0 <= i < j < |rows| ==> Cell(rows[i], col) != Cell(rows[j], col)
    ensures |MatchingRows(rows, col, v)| <= 1
  {
    if rows != [] {
      UniqueKeyMatchesOnce(rows[1..], col, v);
      if Cell(rows[0], col) == v {
        forall r | r in rows[1..] ensures Cell(r, col) != v {
          var k :| 0 <= k < |rows[1..]| && rows[1..][k] == r;
          assert rows[1..][k] == rows[k + 1];
        }
        NothingMatches(rows[1..], col, v);
      }
    }
  }

  /** Against a unique right key, one left row yields exactly one row. */
  lemma UniqueJoinRowSingle(l: Row, right: Table, leftOn: string, rightOn: string)
    requires IsUnique(right, rightOn)
    ensures |JoinRow(l, right, leftOn, rightOn)| == 1
  {
    UniqueKeyMatchesOnce(right.rows, rightOn, Cell(l, leftOn));
    JoinRowShape(l, right, leftOn, rightOn);
  }

  /** With a unique right key there is no fan-out: row i of the result widens left row i. */
  lemma {:induction false} JoinUniqueKeyAligned(ls: seq<Row>, right: Table, leftOn: string, rightOn: string)
    requires IsUnique(right, rightOn)
    ensures |JoinRows(ls, right, leftOn, rightOn)| == |ls|
    ensures forall i :: 0 <= i < |ls| ==> Extends(JoinRows(ls, right, leftOn, rightOn)[i], ls[i])
  {
    if ls != [] {
      JoinUniqueKeyAligned(ls[1..], right, leftOn, rightOn);
      UniqueJoinRowSingle(ls[0], right, leftOn, rightOn);
      var out := JoinRows(ls, right, leftOn, rightOn);
      assert out == JoinRow(ls[0], right, leftOn, rightOn) + JoinRows(ls[1..], right, leftOn, rightOn);
      forall i | 0 <= i < |ls| ensures Extends(out[i], ls[i]) {
        if i > 0 { assert ls[i] == ls[1..][i - 1]; }
      }
    }
  }

  lemma LeftJoinCovers(left: Table, right: Table, leftOn: string, rightOn: string)
    ensures |LeftJoin(left, right, leftOn, rightOn).rows| >= |left.rows|
    ensures Covers(LeftJoin(left, right, leftOn, rightOn).rows, left.rows)
  {
    JoinRowsCover(left.rows, right, leftOn, rightOn);
  }

  lemma {:induction false} CoversTransitive(a: seq<Row>, b: seq<Row>, c: seq<Row>)
    requires Covers(a, b) && Covers(b, c)
    ensures Covers(a, c)
  {
    forall i | 0 <= i < |c| ensures Survives(a, c[i]) {
      var mid :| 0 <= mid < |b| && Extends(b[mid], c[i]);
      var top :| 0 <= top < |a| && Extends(a[top], b[mid]);
      assert Extends(a[top], c[i]);
    }
  }
}
