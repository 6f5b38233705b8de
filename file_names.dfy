/**
 * How `load_files` turns a directory entry into a table name: only entries
 * ending in `.csv` or `.xlsx` are read, and the table is named after the part
 * before the extension, with its ASCII letters lower-cased.
 */
module FileNames {
  import opened Wrappers
  import opened Text

  /** Whether the entry is read: its name ends in `.csv` or `.xlsx`, case-sensitively. */
  predicate Accepted(file: string)
  {
    EndsWith(file, ".csv") || EndsWith(file, ".xlsx")
  }

  /** The position of the last `.` in `s`, if there is one. */
  function LastDot(s: string): (r: Option<nat>)
    ensures r.Some? ==> r.value < |s| && s[r.value] == '.' && forall j :: r.value < j < |s| ==> s[j] != '.'
    ensures r.None? ==> forall j :: 0 <= j < |s| ==> s[j] != '.'
  {
    if s == [] then None
    else if s[|s| - 1] == '.' then Some(|s| - 1)
    else LastDot(s[..|s| - 1])
  }

  predicate AllDots(s: string)
  {
    forall j :: 0 <= j < |s| ==> s[j] == '.'
  }

  /**
   * The stem of a bare file name, as Python's `splitext` finds it: everything
   * before the last dot, unless only dots come before it, in which case the name
   * has no extension and is kept whole.
   */
  function Stem(file: string): string
  {
    match LastDot(file)
    case None => file
    case Some(k) => if AllDots(file[..k]) then file else file[..k]
  }

  /** The table name of a file: its stem, with its ASCII letters lower-cased. */
  function TableName(file: string): string
  {
    Lower(Stem(file))
  }

  /** The last dot of `base + ext` is the one that starts `ext` when `ext` has no other dot. */
  lemma LastDotOfExtension(base: string, ext: string)
    requires |ext| > 0 && ext[0] == '.' && forall j :: 0 < j < |ext| ==> ext[j] != '.'
    ensures LastDot(base + ext) == Some(|base|)
  {
    var s := base + ext;
    assert s[|base|] == '.';
    forall j | |base| < j < |s| ensures s[j] != '.' {
      assert s[j] == ext[j - |base|];
    }
  }

  /** A data file named `base.csv` or `base.xlsx` becomes table `base`, lower-cased. */
  lemma TableNameOfDataFile(base: string, ext: string)
    requires ext == ".csv" || ext == ".xlsx"
    requires !AllDots(base)
    ensures Accepted(base + ext)
    ensures TableName(base + ext) == Lower(base)
  {
    LastDotOfExtension(base, ext);
    assert (base + ext)[..|base|] == base;
    assert (base + ext)[|base + ext| - |ext|..] == ext;
  }

  /** A name made of dots before the extension (`.csv`, `..xlsx`) is kept whole, extension included. */
  lemma TableNameOfHiddenFile(base: string, ext: string)
    requires ext == ".csv" || ext == ".xlsx"
    requires AllDots(base)
    ensures Accepted(base + ext)
    ensures TableName(base + ext) == Lower(base + ext)
  {
    LastDotOfExtension(base, ext);
    assert (base + ext)[..|base|] == base;
    assert (base + ext)[|base + ext| - |ext|..] == ext;
  }

  /** Every file `load_files` accepts gets a non-empty table name. */
  lemma TableNameNonEmpty(file: string)
    requires Accepted(file)
    ensures |TableName(file)| > 0
  {
    match LastDot(file)
    case None =>
    case Some(k) =>
      if !AllDots(file[..k]) {
        assert |file[..k]| > 0;
      }
  }
}
