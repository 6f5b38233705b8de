/**
 * Primary-key inference (`DataMerger._detect_primary_key`): name templates in a
 * fixed order, then a key-like-name heuristic, then the first unique numeric column.
 */
module KeyDetection {
  import opened Wrappers
  import opened Text
  import opened Tables

  /**
   * The templates tried first, in order, with the `None` entries already
   * filtered out: the singular forms (the name without its last letter, then
   * `_id` or `id`) are there only when the table name ends in "s".
   */
  function KeyPatterns(t: string): (ps: seq<string>)
    ensures |ps| == if EndsWith(t, "s") then 14 else 12
    ensures ps[0] == t + "_id"
    ensures EndsWith(t, "s") ==> ps[1] == DropLast(t) + "_id" && ps[2] == t + "id" && ps[3] == DropLast(t) + "id"
    ensures !EndsWith(t, "s") ==> ps[1] == t + "id" && ps[2] == "id"
    ensures forall p :: p in ps ==> p != []
  {
    [t + "_id"]
    + (if EndsWith(t, "s") then [DropLast(t) + "_id"] else [])
    + [t + "id"]
    + (if EndsWith(t, "s") then [DropLast(t) + "id"] else [])
    + ["id", "key", t + "_key", "pk", t + "_pk", "object_id", "record_id", "sequence", "seq", "code"]
  }

  /** Column `c` equals template `p` case-insensitively and holds unique values. */
  predicate NameMatch(t: Table, p: string, c: string)
  {
    Lower(c) == Lower(p) && IsUnique(t, c)
  }

  /** The lower-cased name contains one of the key terms "id", "key", "code", "num". */
  predicate HasKeyTerm(c: string)
  {
    var l := Lower(c);
    Contains(l, "id") || Contains(l, "key") || Contains(l, "code") || Contains(l, "num")
  }

  function NamedLike(t: Table, p: string): string -> bool
  {
    c => NameMatch(t, p, c)
  }

  function KeyLike(t: Table): string -> bool
  {
    c => HasKeyTerm(c) && IsUnique(t, c)
  }

  function UniqueIn(t: Table): string -> bool
  {
    c => IsUnique(t, c)
  }

  /** The templated pass: the first pattern with a matching unique column, and its first such column. */
  function Templated(t: Table, pats: seq<string>): Option<string>
  {
    if pats == [] then None
    else match FirstWhere(t.columns, NamedLike(t, pats[0]))
      case Some(c) => Some(c)
      case None => Templated(t, pats[1..])
  }

  /** The key `_detect_primary_key` records for a table, or `None` when it records nothing. */
  function DetectKey(name: string, t: Table): Option<string>
  {
    match Templated(t, KeyPatterns(name))
    case Some(c) => Some(c)
    case None =>
      match FirstWhere(t.columns, KeyLike(t))
      case Some(c) => Some(c)
      case None => FirstWhere(NumericColumns(t), UniqueIn(t))
  }

  /**
   * The templated pass takes the first pattern that some unique column matches,
   * and picks the first such column in column order (`FirstWhere`).
   */
  lemma {:induction false} TemplatedIsFirstMatch(t: Table, pats: seq<string>)
    ensures Templated(t, pats).Some? ==>
      var k := Templated(t, pats).value;
      k in t.columns && IsUnique(t, k) &&
      exists i :: 0 <= i < |pats| && Lower(k) == Lower(pats[i]) &&
        FirstWhere(t.columns, NamedLike(t, pats[i])) == Some(k) &&
        forall j, c :: 0 <= j < i && c in t.columns ==> !NameMatch(t, pats[j], c)
  {
    if pats != [] {
      TemplatedIsFirstMatch(t, pats[1..]);
      var first := FirstWhere(t.columns, NamedLike(t, pats[0]));
      if first.None? {
        assert forall c :: c in t.columns ==> !NameMatch(t, pats[0], c);
        if Templated(t, pats).Some? {
          var k := Templated(t, pats).value;
          var i :| 0 <= i < |pats[1..]| && Lower(k) == Lower(pats[1..][i]) &&
            FirstWhere(t.columns, NamedLike(t, pats[1..][i])) == Some(k) &&
            forall j, c :: 0 <= j < i && c in t.columns ==> !NameMatch(t, pats[1..][j], c);
          assert pats[1..][i] == pats[i + 1];
          forall j, c | 0 <= j < i + 1 && c in t.columns ensures !NameMatch(t, pats[j], c) {
            if j > 0 { assert pats[j] == pats[1..][j - 1]; }
          }
        }
      } else {
        assert NameMatch(t, pats[0], first.value);
      }
    }
  }

  /** The templated pass finds nothing exactly when no pattern matches a unique column. */
  lemma {:induction false} TemplatedNoneExactly(t: Table, pats: seq<string>)
    ensures Templated(t, pats).None? <==>
      forall j, c :: 0 <= j < |pats| && c in t.columns ==> !NameMatch(t, pats[j], c)
  {
    if pats != [] {
      TemplatedNoneExactly(t, pats[1..]);
      if FirstWhere(t.columns, NamedLike(t, pats[0])).None? {
        forall j, c | 0 <= j < |pats| && c in t.columns && NameMatch(t, pats[j], c)
          ensures j > 0 && NameMatch(t, pats[1..][j - 1], c)
        {
        }
      } else {
        assert NameMatch(t, pats[0], FirstWhere(t.columns, NamedLike(t, pats[0])).value);
      }
    }
  }

  /** Whatever detection records is an existing column of the table whose values are unique. */
  lemma DetectKeyIsUniqueColumn(name: string, t: Table)
    requires DetectKey(name, t).Some?
    ensures DetectKey(name, t).value in t.columns
    ensures IsUnique(t, DetectKey(name, t).value)
  {
    TemplatedIsFirstMatch(t, KeyPatterns(name));
  }

  /**
   * Detection records nothing exactly when no template matches a unique
   * column, no unique column carries a key term, and no numeric column is unique.
   */
  lemma DetectKeyNoneExactly(name: string, t: Table)
    ensures DetectKey(name, t).None? <==>
      (forall j, c :: 0 <= j < |KeyPatterns(name)| && c in t.columns ==> !NameMatch(t, KeyPatterns(name)[j], c)) &&
      (forall c :: c in t.columns && HasKeyTerm(c) ==> !IsUnique(t, c)) &&
      (forall c :: c in t.columns && c in t.numeric ==> !IsUnique(t, c))
  {
    TemplatedNoneExactly(t, KeyPatterns(name));
    KeyLikeNoneExactly(t);
    NumericNoneExactly(t);
  }

  /** The key-term pass finds nothing exactly when no unique column has a key term. */
  lemma KeyLikeNoneExactly(t: Table)
    ensures FirstWhere(t.columns, KeyLike(t)).None? <==> forall c :: c in t.columns && HasKeyTerm(c) ==> !IsUnique(t, c)
  {
    if FirstWhere(t.columns, KeyLike(t)).None? {
      forall c | c in t.columns && HasKeyTerm(c) ensures !IsUnique(t, c) {
        var i :| 0 <= i < |t.columns| && t.columns[i] == c;
        assert !KeyLike(t)(t.columns[i]);
      }
    }
  }

  /** The numeric pass finds nothing exactly when no numeric column is unique. */
  lemma NumericNoneExactly(t: Table)
    ensures FirstWhere(NumericColumns(t), UniqueIn(t)).None? <==> forall c :: c in t.columns && c in t.numeric ==> !IsUnique(t, c)
  {
    var numeric := NumericColumns(t);
    if FirstWhere(numeric, UniqueIn(t)).None? {
      forall c | c in t.columns && c in t.numeric ensures !IsUnique(t, c) {
        var i :| 0 <= i < |numeric| && numeric[i] == c;
        assert !UniqueIn(t)(numeric[i]);
      }
    }
  }

  /**
   * The key-term fallback decides only when no template matched: it then
   * records the first unique column whose lower-cased name has a key term.
   */
  lemma KeyTermFallback(name: string, t: Table, i: nat)
    requires forall j, c :: 0 <= j < |KeyPatterns(name)| && c in t.columns ==> !NameMatch(t, KeyPatterns(name)[j], c)
    requires i < |t.columns| && HasKeyTerm(t.columns[i]) && IsUnique(t, t.columns[i])
    requires forall j :: 0 <= j < i ==> !(HasKeyTerm(t.columns[j]) && IsUnique(t, t.columns[j]))
    ensures DetectKey(name, t) == Some(t.columns[i])
  {
    TemplatedNoneExactly(t, KeyPatterns(name));
    KeyTermSearch(t, t.columns, i);
  }

  lemma {:induction false} KeyTermSearch(t: Table, cols: seq<string>, i: nat)
    requires i < |cols| && HasKeyTerm(cols[i]) && IsUnique(t, cols[i])
    requires forall j :: 0 <= j < i ==> !(HasKeyTerm(cols[j]) && IsUnique(t, cols[j]))
    ensures FirstWhere(cols, KeyLike(t)) == Some(cols[i])
  {
    if i > 0 {
      assert !(HasKeyTerm(cols[0]) && IsUnique(t, cols[0]));
      KeyTermSearch(t, cols[1..], i - 1);
    }
  }

  /**
   * The last resort decides only when both name passes found nothing: it then
   * records the first numeric column (in column order) whose values are unique.
   */
  lemma NumericFallback(name: string, t: Table)
    requires forall j, c :: 0 <= j < |KeyPatterns(name)| && c in t.columns ==> !NameMatch(t, KeyPatterns(name)[j], c)
    requires forall c :: c in t.columns && HasKeyTerm(c) ==> !IsUnique(t, c)
    ensures DetectKey(name, t) == FirstWhere(NumericColumns(t), UniqueIn(t))
    ensures DetectKey(name, t).Some? ==> var k := DetectKey(name, t).value;
      k in t.columns && k in t.numeric && IsUnique(t, k)
  {
    TemplatedNoneExactly(t, KeyPatterns(name));
  }

  /**
   * A unique column named `{table}_id` always wins: the key recorded is the
   * first unique column spelled like `{table}_id` up to case (the column itself
   * when no earlier column has that spelling).
   */
  lemma TableIdColumnWins(name: string, t: Table)
    requires name + "_id" in t.columns && IsUnique(t, name + "_id")
    ensures DetectKey(name, t).Some?
    ensures Lower(DetectKey(name, t).value) == Lower(name + "_id")
    ensures IsUnique(t, DetectKey(name, t).value)
    ensures DetectKey(name, t) == FirstWhere(t.columns, NamedLike(t, name + "_id"))
  {
    var pats := KeyPatterns(name);
    assert NameMatch(t, pats[0], name + "_id");
    assert FirstWhere(t.columns, NamedLike(t, pats[0])).Some?;
  }

  /** One step of the templated pass: try pattern `i`, or go on with the later ones. */
  lemma TemplatedStep(t: Table, pats: seq<string>, i: nat)
    requires i < |pats|
    ensures Templated(t, pats[i..]) ==
      match FirstWhere(t.columns, NamedLike(t, pats[i]))
      case Some(c) => Some(c)
      case None => Templated(t, pats[i + 1..])
  {
    assert pats[i..][1..] == pats[i + 1..];
  }
}
