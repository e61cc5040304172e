/** `batch_pandas_operation` and `batch_merge_operation` (datto/CleanText.py): cut the distinct
    identifiers into `num_splits` slices, run a callback (or a left join) on the rows of each
    slice, and concatenate the partial results in slice order. */
module Batch {
  import opened Seqs
  import opened Python
  import opened Frames
  import opened Partition

  /** `df[identifier_col].unique()`. */
  function Ids<R, K(==)>(df: seq<R>, key: R -> K): (ids: seq<K>)
    ensures NoDup(ids)
    ensures forall r :: r in df ==> key(r) in ids
    ensures forall x :: x in ids ==> exists r :: r in df && key(r) == x
  {
    var ks := Keys(df, key);
    var ids := Unique(ks);
    assert forall x :: x in ids ==> x in ks by {
      forall x | x in ids
        ensures x in ks
      {
        var i :| 0 <= i < |ids| && ids[i] == x;
      }
    }
    assert forall x :: x in ks ==> x in ids by {
      forall x | x in ks
        ensures x in ids
      {
        var i :| 0 <= i < |ks| && ks[i] == x;
      }
    }
    ids
  }

  /** `func(df[df[identifier_col].isin(lst)])` for each slice `lst`, in slice order. */
  function Outputs<R(==), K(==), S>(df: seq<R>, key: R -> K, func: seq<R> -> seq<S>, parts: seq<seq<K>>): (outs: seq<seq<S>>)
    ensures |outs| == |parts|
    ensures forall i :: 0 <= i < |parts| ==> outs[i] == func(Select(df, key, parts[i]))
  {
    seq(|parts|, i requires 0 <= i < |parts| => func(Select(df, key, parts[i])))
  }

  /** The table `batch_pandas_operation` returns for a positive `num_splits`. */
  function BatchApply<R(==), K(==), S>(df: seq<R>, numSplits: int, key: R -> K, func: seq<R> -> seq<S>): (r: seq<S>)
    requires numSplits >= 1
    ensures forall o :: o in r ==>
      exists i :: 0 <= i < numSplits && o in func(Select(df, key, PartIds(Ids(df, key), numSplits)[i]))
    ensures forall i, o :: 0 <= i < numSplits && o in func(Select(df, key, PartIds(Ids(df, key), numSplits)[i])) ==>
      o in r
  {
    var outs := Outputs(df, key, func, PartIds(Ids(df, key), numSplits));
    ConcatMembers(outs);
    Concat(outs)
  }

  /** `batch_pandas_operation(df, num_splits, identifier_col, func)`. A zero split count raises
      ZeroDivisionError when `division` is computed; a negative one gives an empty range of
      slices and so an empty table. */
  method BatchPandasOperation<R(==), K(==), S>(df: seq<R>, numSplits: int, key: R -> K, func: seq<R> -> seq<S>)
    returns (res: Result<seq<S>>)
    ensures numSplits == 0 ==> res == Err(ZeroDivisionError)
    ensures numSplits < 0 ==> res == Ok([])
    ensures numSplits > 0 ==> res == Ok(BatchApply(df, numSplits, key, func))
  {
    var newDf: seq<S> := [];
    var ids := Unique(Keys(df, key));
    if numSplits == 0 {
      return Err(ZeroDivisionError);
    }
    var partIds := PartIds(ids, numSplits);
    ghost var outs := Outputs(df, key, func, partIds);
    var i := 0;
    while i < |partIds|
      invariant 0 <= i <= |partIds|
      invariant newDf == Concat(outs[..i])
    {
      var tempDf := Select(df, key, partIds[i]);
      assert outs[..i + 1][..i] == outs[..i];
      newDf := newDf + func(tempDf);
      i := i + 1;
    }
    assert outs[..i] == outs;
    return Ok(newDf);
  }

  /** The chunk row `j` of `df` belongs to. */
  function ChunkOf<R(==), K(==)>(df: seq<R>, numSplits: int, key: R -> K, j: nat): (c: nat)
    requires numSplits >= 1 && j < |df|
    ensures c < numSplits
    ensures forall i :: 0 <= i < numSplits ==>
      (df[j] in Select(df, key, PartIds(Ids(df, key), numSplits)[i]) <==> i == c)
  {
    var ids, parts := Ids(df, key), PartIds(Ids(df, key), numSplits);
    assert Keys(df, key)[j] == key(df[j]);
    var p := FirstIndex(ids, key(df[j]));
    var c := PartIndex(|ids|, numSplits, p);
    PartIdsSlice(ids, numSplits, c);
    assert ids[p] == parts[c][p - Boundary(|ids|, numSplits, c)];
    forall i | 0 <= i < numSplits && i != c
      ensures key(df[j]) !in parts[i]
    {
      PartIdsDisjoint(ids, numSplits, c, i, key(df[j]));
    }
    c
  }

  /** With the identity as callback, the first `m` chunks of a list `ids` of distinct
      identifiers hold, as a multiset, exactly the rows of the identifiers before the `m`-th
      cut point. */
  lemma {:induction false} ChunksPrefix<R, K>(df: seq<R>, key: R -> K, ids: seq<K>, k: int, m: int)
    requires NoDup(ids) && k >= 1 && 0 <= m <= k
    ensures 0 <= Boundary(|ids|, k, m) <= |ids|
    ensures multiset(Concat(Outputs(df, key, c => c, PartIds(ids, k))[..m]))
         == multiset(Select(df, key, ids[..Boundary(|ids|, k, m)]))
  {
    var outs := Outputs(df, key, c => c, PartIds(ids, k));
    if m == 0 {
      BoundaryEnds(|ids|, k);
    } else {
      ChunksPrefix(df, key, ids, k, m - 1);
      ConcatSnoc(outs, m);
      PartIdsSlice(ids, k, m - 1);
      var lo, hi := Boundary(|ids|, k, m - 1), Boundary(|ids|, k, m);
      var prev, chunk := Concat(outs[..m - 1]), outs[m - 1];
      assert chunk == Select(df, key, ids[lo..hi]);
      assert multiset(prev + chunk) == multiset(prev) + multiset(chunk);
      SelectPrefixStep(df, key, ids, lo, hi);
    }
  }

  /** Adding the rows of `ids[lo..hi]` to those of `ids[..lo]` gives the rows of `ids[..hi]`. */
  lemma {:induction false} SelectPrefixStep<R, K>(df: seq<R>, key: R -> K, ids: seq<K>, lo: int, hi: int)
    requires NoDup(ids) && 0 <= lo <= hi <= |ids|
    ensures multiset(Select(df, key, ids[..lo])) + multiset(Select(df, key, ids[lo..hi]))
         == multiset(Select(df, key, ids[..hi]))
  {
    NoDupSlicesDisjoint(ids, 0, lo, lo, hi);
    assert ids[..lo] == ids[0..lo];
    SelectSplit(df, key, ids[..lo], ids[lo..hi]);
    assert ids[..lo] + ids[lo..hi] == ids[..hi];
  }

  /** With the identity as `func`, the result is a permutation of the input rows: no row is
      lost or duplicated, only regrouped by slice. */
  lemma {:induction false} BatchIdentityIsPermutation<R, K>(df: seq<R>, numSplits: int, key: R -> K)
    requires numSplits >= 1
    ensures multiset(BatchApply(df, numSplits, key, c => c)) == multiset(df)
    ensures |BatchApply(df, numSplits, key, c => c)| == |df|
  {
    var ids := Ids(df, key);
    var outs := Outputs(df, key, c => c, PartIds(ids, numSplits));
    ChunksPrefix(df, key, ids, numSplits, numSplits);
    BoundaryEnds(|ids|, numSplits);
    assert outs[..numSplits] == outs;
    assert ids[..|ids|] == ids;
    forall i | 0 <= i < |df|
      ensures key(df[i]) in ids
    {
      assert Keys(df, key)[i] == key(df[i]);
    }
    SelectAll(df, key, ids);
    assert |BatchApply(df, numSplits, key, c => c)| == |multiset(df)|;
  }

  /** Every output row was produced by `func` from one of the chunks, so a property that
      `func` guarantees of all its rows holds of the whole result. */
  lemma {:induction false} BatchKeepsRowProperty<R, K, S>(df: seq<R>, numSplits: int, key: R -> K, func: seq<R> -> seq<S>, P: S -> bool)
    requires numSplits >= 1
    requires forall chunk: seq<R>, o :: o in func(chunk) ==> P(o)
    ensures forall o :: o in BatchApply(df, numSplits, key, func) ==> P(o)
  {
    var outs := Outputs(df, key, func, PartIds(Ids(df, key), numSplits));
    forall o | o in BatchApply(df, numSplits, key, func)
      ensures P(o)
    {
      ConcatMember(outs, o);
      var i :| 0 <= i < |outs| && o in outs[i];
    }
  }

  /** `pd.merge(chunk, df_2, how="left", on=merge_col)` for each chunk of `df_1`, in slice
      order; `df_2` goes to every join whole. */
  function MergeOutputs<R(==), K(==), T, S>(df1: seq<R>, df2: seq<T>, key: R -> K, merge: (seq<R>, seq<T>) -> seq<S>, parts: seq<seq<K>>): (outs: seq<seq<S>>)
    ensures |outs| == |parts|
    ensures forall i :: 0 <= i < |parts| ==> outs[i] == merge(Select(df1, key, parts[i]), df2)
    ensures outs == Outputs(df1, key, chunk => merge(chunk, df2), parts)
  {
    seq(|parts|, i requires 0 <= i < |parts| => merge(Select(df1, key, parts[i]), df2))
  }

  /** The table `batch_merge_operation` returns for a positive `num_splits`. */
  function BatchMerge<R(==), K(==), T, S>(df1: seq<R>, df2: seq<T>, numSplits: int, key: R -> K, merge: (seq<R>, seq<T>) -> seq<S>): (r: seq<S>)
    requires numSplits >= 1
    ensures forall o :: o in r ==>
      exists i :: 0 <= i < numSplits && o in merge(Select(df1, key, PartIds(Ids(df1, key), numSplits)[i]), df2)
    ensures forall i, o :: 0 <= i < numSplits && o in merge(Select(df1, key, PartIds(Ids(df1, key), numSplits)[i]), df2) ==>
      o in r
  {
    var outs := MergeOutputs(df1, df2, key, merge, PartIds(Ids(df1, key), numSplits));
    ConcatMembers(outs);
    Concat(outs)
  }

  /** `batch_merge_operation(df_1, df_2, num_splits, identifier_col, merge_col)`, with the join on
      `merge_col` as the function `merge`. */
  method BatchMergeOperation<R(==), K(==), T, S>(df1: seq<R>, df2: seq<T>, numSplits: int, key: R -> K, merge: (seq<R>, seq<T>) -> seq<S>)
    returns (res: Result<seq<S>>)
    ensures numSplits == 0 ==> res == Err(ZeroDivisionError)
    ensures numSplits < 0 ==> res == Ok([])
    ensures numSplits > 0 ==> res == Ok(BatchMerge(df1, df2, numSplits, key, merge))
  {
    var newDf: seq<S> := [];
    var ids := Unique(Keys(df1, key));
    if numSplits == 0 {
      return Err(ZeroDivisionError);
    }
    var partIds := PartIds(ids, numSplits);
    ghost var outs := MergeOutputs(df1, df2, key, merge, partIds);
    var i := 0;
    while i < |partIds|
      invariant 0 <= i <= |partIds|
      invariant newDf == Concat(outs[..i])
    {
      var tempDf := Select(df1, key, partIds[i]);
      var joined := merge(tempDf, df2);
      assert outs[..i + 1][..i] == outs[..i];
      newDf := newDf + joined;
      i := i + 1;
    }
    assert outs[..i] == outs;
    return Ok(newDf);
  }

  /** The merge cuts `df_1` exactly as `batch_pandas_operation` would, with the join against the
      whole of `df_2` as the callback. */
  lemma {:induction false} BatchMergeIsBatchApply<R, K, T, S>(df1: seq<R>, df2: seq<T>, numSplits: int, key: R -> K, merge: (seq<R>, seq<T>) -> seq<S>)
    requires numSplits >= 1
    ensures BatchMerge(df1, df2, numSplits, key, merge) == BatchApply(df1, numSplits, key, chunk => merge(chunk, df2))
  {
    var parts := PartIds(Ids(df1, key), numSplits);
    assert MergeOutputs(df1, df2, key, merge, parts) == Outputs(df1, key, chunk => merge(chunk, df2), parts);
  }

  /** If the join keeps each row of the left table it is given (a left outer join does), every
      row of `df_1` shows up in the merged result: it is in exactly one chunk, and that chunk is
      joined. `left` reads the left-hand part of a joined row, so `Keys(rows, left)` is the
      left-hand part of each joined row. */
  lemma {:induction false} BatchMergeKeepsLeftRows<R, K, T, S>(df1: seq<R>, df2: seq<T>, numSplits: int, key: R -> K,
                                           merge: (seq<R>, seq<T>) -> seq<S>, left: S -> R, j: nat)
    requires numSplits >= 1 && j < |df1|
    requires forall chunk: seq<R>, r :: r in chunk ==> r in Keys(merge(chunk, df2), left)
    ensures df1[j] in Keys(BatchMerge(df1, df2, numSplits, key, merge), left)
  {
    var parts := PartIds(Ids(df1, key), numSplits);
    var outs := MergeOutputs(df1, df2, key, merge, parts);
    var c := ChunkOf(df1, numSplits, key, j);
    var joined := merge(Select(df1, key, parts[c]), df2);
    assert df1[j] in Keys(joined, left);
    var t :| 0 <= t < |joined| && Keys(joined, left)[t] == df1[j];
    assert joined[t] in outs[c];
    ConcatMember(outs, joined[t]);
    var all := BatchMerge(df1, df2, numSplits, key, merge);
    var u :| 0 <= u < |all| && all[u] == joined[t];
    assert Keys(all, left)[u] == df1[j];
  }
}
