/** Tables as the merger sees them, and the two column tests it asks of a table. */
module Tables {
  import opened Wrappers

  /** A cell: a parsed value or a missing one (pandas' NaN). */
  datatype Value = Null | Val(text: string)

  /** A row maps column names to cells. */
  type Row = map<string, Value>

  /**
   * A loaded table: its columns in order, its rows, and the columns whose
   * dtype is numeric.
   */
  datatype Table = Table(columns: seq<string>, rows: seq<Row>, numeric: set<string>)

  /** The cell of a row in a column; a row without the column reads as missing. */
  function Cell(r: Row, c: string): Value
  {
    if c in r then r[c] else Null
  }

  /** Column `c` is unique: no two rows hold the same cell (two missing cells count as equal). */
  predicate IsUnique(t: Table, c: string)
  {
    forall i, j :: 0 <= i < j < |t.rows| ==> Cell(t.rows[i], c) != Cell(t.rows[j], c)
  }

  /** The numeric columns of a table, in column order. */
  function NumericColumns(t: Table): (cs: seq<string>)
    ensures forall c :: c in cs <==> c in t.columns && c in t.numeric
  {
    Keep(t.columns, t.numeric)
  }

  function Keep(cols: seq<string>, allowed: set<string>): (cs: seq<string>)
    ensures forall c :: c in cs <==> c in cols && c in allowed
  {
    if cols == [] then []
    else (if cols[0] in allowed then [cols[0]] else []) + Keep(cols[1..], allowed)
  }

  /** No element occurs twice. */
  predicate Distinct<T(==)>(s: seq<T>)
  {
    forall i, j :: 0 <= i < j < |s| ==> s[i] != s[j]
  }

  /** The elements of a sequence as a set. */
  function Elements<T>(s: seq<T>): set<T>
  {
    set x | x in s
  }

  lemma {:induction false} DistinctElements<T>(s: seq<T>)
    requires Distinct(s)
    ensures |Elements(s)| == |s|
  {
    if s != [] {
      DistinctElements(s[1..]);
      assert Elements(s) == Elements(s[1..]) + {s[0]};
      assert s[0] !in Elements(s[1..]);
    }
  }

  /**
   * The first element of `s` that satisfies `p`: the shape of every
   * "for col in ...: if ...: return col" search in the merger.
   */
  function FirstWhere(s: seq<string>, p: string -> bool): (r: Option<string>)
    ensures r.Some? ==> r.value in s && p(r.value)
    ensures r.None? <==> forall i :: 0 <= i < |s| ==> !p(s[i])
  {
    if s == [] then None
    else if p(s[0]) then Some(s[0])
    else FirstWhere(s[1..], p)
  }

  /** What FirstWhere finds is the earliest element satisfying the test. */
  lemma {:induction false} FirstWhereIsFirst(s: seq<string>, p: string -> bool)
    requires FirstWhere(s, p).Some?
    ensures exists i :: 0 <= i < |s| && s[i] == FirstWhere(s, p).value && forall j :: 0 <= j < i ==> !p(s[j])
  {
    if !p(s[0]) {
      FirstWhereIsFirst(s[1..], p);
      var i :| 0 <= i < |s[1..]| && s[1..][i] == FirstWhere(s[1..], p).value && forall j :: 0 <= j < i ==> !p(s[1..][j]);
      assert s[i + 1] == FirstWhere(s, p).value;
      assert forall j :: 0 <= j < i + 1 ==> !p(s[j]) by {
        forall j | 0 <= j < i + 1 ensures !p(s[j]) {
          if j > 0 { assert s[j] == s[1..][j - 1]; }
        }
      }
    }
  }

  /** One step of a left-to-right search: test the element at `i`, or go on after it. */
  lemma FirstWhereStep(s: seq<string>, i: nat, p: string -> bool)
    requires i < |s|
    ensures FirstWhere(s[i..], p) == if p(s[i]) then Some(s[i]) else FirstWhere(s[i + 1..], p)
  {
    assert s[i..][1..] == s[i + 1..];
  }

  lemma FirstWhereEnd(s: seq<string>, p: string -> bool)
    ensures FirstWhere(s[|s|..], p) == None
  {
  }

  lemma DistinctSnoc<T>(s: seq<T>, x: T)
    requires Distinct(s) && x !in s
    ensures Distinct(s + [x])
  {
    var t := s + [x];
    forall i, j | 0 <= i < j < |t| ensures t[i] != t[j] {
      if j == |s| {
        assert t[i] == s[i];
      }
    }
  }

  lemma SubsetCardinality<T>(a: set<T>, b: set<T>)
    requires a <= b
    ensures |a| <= |b|
  {
    assert b == a + (b - a);
    assert a * (b - a) == {};
  }

  /** A repetition-free sequence drawn from another one is no longer than it. */
  lemma DistinctWithin<T>(a: seq<T>, b: seq<T>)
    requires Distinct(a) && Distinct(b)
    requires forall x :: x in a ==> x in b
    ensures |a| <= |b|
  {
    DistinctElements(a);
    DistinctElements(b);
    SubsetCardinality(Elements(a), Elements(b));
  }

  lemma SplitLast<T>(s: seq<T>)
    requires |s| > 0
    ensures s == s[..|s| - 1] + [s[|s| - 1]]
  {
  }

  /** `a + b` is `a` followed by all but the last element of `b`, then that last element. */
  lemma AppendSnoc<T>(a: seq<T>, b: seq<T>)
    requires |b| > 0
    ensures a + b == (a + b[..|b| - 1]) + [b[|b| - 1]]
  {
  }

  lemma AppendAssoc<T>(a: seq<T>, b: seq<T>, c: seq<T>)
    ensures (a + b) + c == a + (b + c)
  {
  }

  lemma WholePrefix<T>(s: seq<T>)
    ensures s[..|s|] == s && s[0..] == s
  {
  }
}
