/** `clean_column_names` and `remove_duplicate_columns` (datto/CleanText.py). A table is seen
    here as its sequence of columns, each a name with the column's data. */
module Columns {
  import opened Seqs
  import opened Python
  import opened Frames

  datatype Column<D> = Column(name: string, values: D)

  /** `df.columns`. */
  function Names<D>(cols: seq<Column<D>>): (names: seq<string>)
    ensures |names| == |cols|
    ensures forall i :: 0 <= i < |cols| ==> names[i] == cols[i].name
  {
    seq(|cols|, i requires 0 <= i < |cols| => cols[i].name)
  }

  // ---------------------------------------------------------------------------
  // clean_column_names

  /** The renaming `str(x).strip().replace(" ", "_").lower()`, for a name that is already a string. */
  function CleanName(x: string): (r: string)
    ensures |r| <= |x|
  {
    assert [' '] == " " && ['_'] == "_";
    ReplaceChar(Strip(x), ' ', '_');
    Lower(Replace(Strip(x), " ", "_"))
  }

  /** A cleaned name contains no space, and neither starts nor ends with whitespace. */
  lemma {:induction false} CleanNameShape(x: string)
    ensures ' ' !in CleanName(x)
    ensures CleanName(x) != [] ==> !IsSpace(CleanName(x)[0]) && !IsSpace(CleanName(x)[|CleanName(x)| - 1])
  {
    var t := Strip(x);
    assert [' '] == " " && ['_'] == "_";
    UnderscoreLowerShape(t);
  }

  /** Replacing spaces by underscores and lower-casing keeps non-space ends and leaves no space. */
  lemma {:induction false} UnderscoreLowerShape(t: string)
    requires t != [] ==> !IsSpace(t[0]) && !IsSpace(t[|t| - 1])
    ensures |Lower(Replace(t, [' '], ['_']))| == |t|
    ensures ' ' !in Lower(Replace(t, [' '], ['_']))
    ensures t != [] ==> !IsSpace(Lower(Replace(t, [' '], ['_']))[0])
    ensures t != [] ==> !IsSpace(Lower(Replace(t, [' '], ['_']))[|t| - 1])
  {
    ReplaceChar(t, ' ', '_');
    var u := Replace(t, [' '], ['_']);
    LowerIdempotent(u);
    var v := Lower(u);
    forall i | 0 <= i < |v|
      ensures v[i] != ' '
    {
      assert u[i] != ' ';
    }
  }

  /** Cleaning a cleaned name changes nothing. */
  lemma {:induction false} CleanNameIdempotent(x: string)
    ensures CleanName(CleanName(x)) == CleanName(x)
  {
    var y := CleanName(x);
    CleanNameShape(x);
    StripTrimmed(y);
    ReplaceChar(y, ' ', '_');
    assert [' '] == " " && ['_'] == "_";
    assert Replace(y, " ", "_") == y;
    LowerIdempotent(Replace(Strip(x), " ", "_"));
  }

  /** A dataframe whose columns are renamed in place. */
  class Frame<D> {
    var columns: seq<Column<D>>
  }

  /** `df.rename(columns=f)`: every column keeps its data and place and gets the name `f(name)`. */
  function RenameColumns<D>(cols: seq<Column<D>>, f: string -> string): (r: seq<Column<D>>)
    ensures |r| == |cols|
    ensures forall i :: 0 <= i < |cols| ==> r[i] == Column(f(cols[i].name), cols[i].values)
  {
    seq(|cols|, i requires 0 <= i < |cols| => Column(f(cols[i].name), cols[i].values))
  }

  /** `clean_column_names(df)`: renames the columns of `df` in place and returns `df` itself. */
  method CleanColumnNames<D>(df: Frame<D>) returns (r: Frame<D>)
    modifies df
    ensures r == df
    ensures |df.columns| == |old(df.columns)|
    ensures forall i :: 0 <= i < |df.columns| ==>
      df.columns[i] == Column(CleanName(old(df.columns[i].name)), old(df.columns[i].values))
    ensures forall i :: 0 <= i < |df.columns| ==> ' ' !in df.columns[i].name
  {
    df.columns := RenameColumns(df.columns, CleanName);
    forall i | 0 <= i < |df.columns|
      ensures ' ' !in df.columns[i].name
    {
      CleanNameShape(old(df.columns[i].name));
    }
    return df;
  }

  // ---------------------------------------------------------------------------
  // remove_duplicate_columns

  /** `df.loc[:, ~df.columns.duplicated()]`: the columns whose name did not occur before. */
  function RemoveDuplicateColumns<D>(cols: seq<Column<D>>): (r: seq<Column<D>>)
    ensures Names(r) == Unique(Names(cols))
    ensures |r| <= |cols|
  {
    if cols == [] then []
    else
      var init, last := cols[..|cols| - 1], cols[|cols| - 1];
      var r := RemoveDuplicateColumns(init);
      assert Names(cols)[..|cols| - 1] == Names(init);
      if Duplicated(Names(cols), |cols| - 1) then r
      else
        assert Names(r + [last]) == Names(r) + [last.name];
        r + [last]
  }

  /** Appending a column keeps it exactly when its name is new. */
  lemma {:induction false} RemoveDuplicateColumnsSnoc<D>(cols: seq<Column<D>>, c: Column<D>)
    ensures RemoveDuplicateColumns(cols + [c]) ==
      if c.name in Names(cols) then RemoveDuplicateColumns(cols) else RemoveDuplicateColumns(cols) + [c]
  {
    var s := cols + [c];
    assert s[..|s| - 1] == cols;
    assert Names(s)[..|s| - 1] == Names(cols);
  }

  /** Each kept column is the first column of the input that carries its name (its data come
      from that first occurrence). */
  lemma {:induction false} RemoveDuplicateColumnsKeepsFirst<D>(cols: seq<Column<D>>, i: nat)
    requires i < |RemoveDuplicateColumns(cols)|
    ensures RemoveDuplicateColumns(cols)[i].name in Names(cols)
    ensures RemoveDuplicateColumns(cols)[i] == cols[FirstIndex(Names(cols), RemoveDuplicateColumns(cols)[i].name)]
  {
    var init, last := cols[..|cols| - 1], cols[|cols| - 1];
    RemoveDuplicateColumnsLast(cols);
    var ri := RemoveDuplicateColumns(init);
    var r := RemoveDuplicateColumns(cols);
    if i < |ri| {
      assert r[i] == ri[i];
      RemoveDuplicateColumnsKeepsFirst(init, i);
      FirstOfPrefix(cols, ri[i].name);
    } else {
      assert last.name !in Names(init) && r[i] == last;
      LastIsFirst(cols);
    }
  }

  /** `RemoveDuplicateColumnsSnoc`, for the last column of a non-empty table. */
  lemma {:induction false} RemoveDuplicateColumnsLast<D>(cols: seq<Column<D>>)
    requires cols != []
    ensures RemoveDuplicateColumns(cols) ==
      if cols[|cols| - 1].name in Names(cols[..|cols| - 1]) then RemoveDuplicateColumns(cols[..|cols| - 1])
      else RemoveDuplicateColumns(cols[..|cols| - 1]) + [cols[|cols| - 1]]
  {
    assert Names(cols)[..|cols| - 1] == Names(cols[..|cols| - 1]);
  }

  /** A name of the columns before the last has its first occurrence there. */
  lemma {:induction false} FirstOfPrefix<D>(cols: seq<Column<D>>, x: string)
    requires cols != [] && x in Names(cols[..|cols| - 1])
    ensures x in Names(cols)
    ensures cols[FirstIndex(Names(cols), x)] == cols[..|cols| - 1][FirstIndex(Names(cols[..|cols| - 1]), x)]
  {
    var names := Names(cols);
    assert names[..|cols| - 1] == Names(cols[..|cols| - 1]);
    FirstIndexPrefix(names, |cols| - 1, x);
  }

  /** A last column whose name is new is the first occurrence of that name. */
  lemma {:induction false} LastIsFirst<D>(cols: seq<Column<D>>)
    requires cols != [] && cols[|cols| - 1].name !in Names(cols[..|cols| - 1])
    ensures cols[|cols| - 1].name in Names(cols)
    ensures cols[FirstIndex(Names(cols), cols[|cols| - 1].name)] == cols[|cols| - 1]
  {
    var names := Names(cols);
    assert names[..|cols| - 1] == Names(cols[..|cols| - 1]);
    assert names[|cols| - 1] == cols[|cols| - 1].name;
    FirstIndexLast(names, cols[|cols| - 1].name);
  }

  lemma {:induction false} FirstIndexPrefix<T>(s: seq<T>, n: nat, x: T)
    requires n <= |s| && x in s[..n]
    ensures FirstIndex(s, x) == FirstIndex(s[..n], x)
  {
    var i, j := FirstIndex(s, x), FirstIndex(s[..n], x);
    assert s[j] == x;
    assert i <= j by {
      assert x !in s[..i];
    }
    assert s[..n][..j] == s[..j];
  }

  lemma {:induction false} FirstIndexLast<T>(s: seq<T>, x: T)
    requires s != [] && s[|s| - 1] == x && x !in s[..|s| - 1]
    ensures FirstIndex(s, x) == |s| - 1
  {
    var i := FirstIndex(s, x);
    assert forall q :: 0 <= q < |s| - 1 ==> s[q] == s[..|s| - 1][q];
  }

  /** The kept columns have distinct names, keep the order of first occurrences, and every
      name of the input is still there. */
  lemma {:induction false} RemoveDuplicateColumnsSpec<D>(cols: seq<Column<D>>)
    ensures NoDup(Names(RemoveDuplicateColumns(cols)))
    ensures IsSubsequence(Names(RemoveDuplicateColumns(cols)), Names(cols))
    ensures forall i :: 0 <= i < |cols| ==> cols[i].name in Names(RemoveDuplicateColumns(cols))
  {
    UniqueIsSubsequence(Names(cols));
    assert forall i :: 0 <= i < |cols| ==> Names(cols)[i] == cols[i].name;
  }
}
