/** `df_most_common_only` (datto/CleanText.py): `Counter(df[col]).most_common(num)` picks the
    `num` most frequent values, and the table is then filtered down to the rows carrying one of
    them. A `Counter` lists its keys in the order they are first met, and `most_common(n)` is
    `sorted(items, key=count, reverse=True)[:n]` (empty for `n <= 0`); the sort is stable, so
    values of equal count stay in the order of their first appearance. */
module MostCommon {
  import opened Seqs
  import opened Frames

  /** `Counter(vals)[x]`. */
  function Count<K(==)>(vals: seq<K>, x: K): (c: nat)
    ensures c <= |vals|
    ensures c > 0 <==> x in vals
  {
    multiset(vals)[x]
  }

  /** `x` comes before `y` in `Counter(vals).most_common()`: it is more frequent, or as frequent
      and met first. */
  predicate Beats<K(==)>(vals: seq<K>, x: K, y: K)
    requires x in vals && y in vals
  {
    Count(vals, x) > Count(vals, y)
    || (Count(vals, x) == Count(vals, y) && FirstIndex(vals, x) < FirstIndex(vals, y))
  }

  /** Every value of `s` occurs in `vals`, and each one beats every later one. */
  predicate Ordered<K(==)>(vals: seq<K>, s: seq<K>) {
    && (forall i :: 0 <= i < |s| ==> s[i] in vals)
    && (forall i, j :: 0 <= i < j < |s| ==> s[i] in vals && s[j] in vals && Beats(vals, s[i], s[j]))
  }

  /** One step of the stable sort by decreasing count: `x` goes after every value whose count is
      at least its own. */
  function Insert<K(==)>(vals: seq<K>, s: seq<K>, x: K): (r: seq<K>)
    ensures multiset(r) == multiset(s) + multiset{x}
  {
    if s == [] then [x]
    else if Count(vals, s[0]) >= Count(vals, x) then
      assert s == [s[0]] + s[1..];
      [s[0]] + Insert(vals, s[1..], x)
    else [x] + s
  }

  /** `sorted(items, key=count, reverse=True)`: Python's sort is stable, so this is the
      insertion sort that places each item after every earlier one of equal count. */
  function SortByCount<K(==)>(vals: seq<K>, items: seq<K>): (r: seq<K>)
    ensures multiset(r) == multiset(items)
  {
    if items == [] then []
    else
      assert items == items[..|items| - 1] + [items[|items| - 1]];
      Insert(vals, SortByCount(vals, items[..|items| - 1]), items[|items| - 1])
  }

  /** `[x[0] for x in Counter(vals).most_common(num)]`. */
  function MostCommon<K(==)>(vals: seq<K>, num: int): (r: seq<K>)
    ensures |r| <= |Unique(vals)|
  {
    var sorted := SortByCount(vals, Unique(vals));
    assert |sorted| == |Unique(vals)| by {
      assert |multiset(sorted)| == |multiset(Unique(vals))|;
    }
    if num <= 0 then [] else sorted[..if num < |sorted| then num else |sorted|]
  }

  lemma {:induction false} FirstIndexBefore<K>(s: seq<K>, x: K, q: nat)
    requires q <= |s| && x in s[..q]
    ensures FirstIndex(s, x) < q
  {
    var k :| 0 <= k < q && s[..q][k] == x;
    assert s[k] == x;
  }

  /** The keys of a `Counter` are met in this order: `unique()` lists values by first appearance. */
  lemma {:induction false} UniqueInFirstIndexOrder<K>(vals: seq<K>, i: nat, j: nat)
    requires i < j < |Unique(vals)|
    ensures FirstIndex(vals, Unique(vals)[i]) < FirstIndex(vals, Unique(vals)[j])
  {
    var u := Unique(vals);
    var q := FirstIndex(vals, u[j]);
    UniqueFirstAppearance(vals, i, j, q);
    FirstIndexBefore(vals, u[i], q);
  }

  /** A value of larger first index than all of `s` is inserted without breaking the order. */
  lemma {:induction false} InsertOrdered<K>(vals: seq<K>, s: seq<K>, x: K)
    requires Ordered(vals, s) && x in vals
    requires forall i :: 0 <= i < |s| ==> FirstIndex(vals, s[i]) < FirstIndex(vals, x)
    ensures Ordered(vals, Insert(vals, s, x))
  {
    if s != [] {
      if Count(vals, s[0]) >= Count(vals, x) {
        var t := s[1..];
        assert forall i :: 0 <= i < |t| ==> t[i] == s[i + 1];
        InsertOrdered(vals, t, x);
        InsertAfterHead(vals, s, x);
      } else {
        InsertFront(vals, s, x);
      }
    }
  }

  /** A value that beats every value of an ordered sequence can be put in front of it. */
  lemma {:induction false} OrderedCons<K>(vals: seq<K>, h: K, rest: seq<K>)
    requires Ordered(vals, rest) && h in vals
    requires forall k :: 0 <= k < |rest| ==> rest[k] in vals && Beats(vals, h, rest[k])
    ensures Ordered(vals, [h] + rest)
  {
    var r := [h] + rest;
    assert forall i :: 0 < i < |r| ==> r[i] == rest[i - 1];
  }

  /** When the head of `s` is at least as frequent as `x`, it stays first and beats the rest. */
  lemma {:induction false} InsertAfterHead<K>(vals: seq<K>, s: seq<K>, x: K)
    requires Ordered(vals, s) && x in vals && s != []
    requires FirstIndex(vals, s[0]) < FirstIndex(vals, x)
    requires Count(vals, s[0]) >= Count(vals, x)
    requires Ordered(vals, Insert(vals, s[1..], x))
    ensures Ordered(vals, Insert(vals, s, x))
  {
    var rest := Insert(vals, s[1..], x);
    assert Insert(vals, s, x) == [s[0]] + rest;
    forall k | 0 <= k < |rest|
      ensures rest[k] in vals && Beats(vals, s[0], rest[k])
    {
      assert rest[k] in multiset(rest);
      HeadBeatsInserted(vals, s, x, rest[k]);
    }
    OrderedCons(vals, s[0], rest);
  }

  lemma {:induction false} HeadBeatsInserted<K>(vals: seq<K>, s: seq<K>, x: K, y: K)
    requires Ordered(vals, s) && x in vals && s != []
    requires FirstIndex(vals, s[0]) < FirstIndex(vals, x)
    requires Count(vals, s[0]) >= Count(vals, x)
    requires y in multiset(Insert(vals, s[1..], x))
    ensures y in vals && Beats(vals, s[0], y)
  {
    if y != x {
      assert y in multiset(s[1..]);
      var k :| 0 <= k < |s| - 1 && s[1..][k] == y;
      assert s[k + 1] == y;
    }
  }

  /** When `x` is more frequent than the head of `s`, it goes first and beats all of `s`. */
  lemma {:induction false} InsertFront<K>(vals: seq<K>, s: seq<K>, x: K)
    requires Ordered(vals, s) && x in vals && s != []
    requires Count(vals, s[0]) < Count(vals, x)
    ensures Ordered(vals, Insert(vals, s, x))
  {
    assert Insert(vals, s, x) == [x] + s;
    forall j | 0 <= j < |s|
      ensures s[j] in vals && Beats(vals, x, s[j])
    {
      if j > 0 {
        assert Beats(vals, s[0], s[j]);
      }
    }
    OrderedCons(vals, x, s);
  }

  /** Sorting values listed by first appearance orders them strictly by `Beats`. */
  lemma {:induction false} SortByCountOrdered<K>(vals: seq<K>, items: seq<K>)
    requires forall i :: 0 <= i < |items| ==> items[i] in vals
    requires forall i, j :: 0 <= i < j < |items| ==> FirstIndex(vals, items[i]) < FirstIndex(vals, items[j])
    ensures Ordered(vals, SortByCount(vals, items))
  {
    if items != [] {
      var init, last := items[..|items| - 1], items[|items| - 1];
      assert forall i :: 0 <= i < |init| ==> init[i] == items[i];
      SortByCountOrdered(vals, init);
      var s := SortByCount(vals, init);
      forall i | 0 <= i < |s|
        ensures FirstIndex(vals, s[i]) < FirstIndex(vals, last)
      {
        assert s[i] in multiset(init);
        var k :| 0 <= k < |init| && init[k] == s[i];
      }
      InsertOrdered(vals, s, last);
    }
  }

  /** The ranking of all distinct values that `most_common` takes its prefix from. */
  lemma {:induction false} RankingOrdered<K>(vals: seq<K>)
    ensures Ordered(vals, SortByCount(vals, Unique(vals)))
  {
    forall i, j | 0 <= i < j < |Unique(vals)|
      ensures FirstIndex(vals, Unique(vals)[i]) < FirstIndex(vals, Unique(vals)[j])
    {
      UniqueInFirstIndexOrder(vals, i, j);
    }
    SortByCountOrdered(vals, Unique(vals));
  }

  /** An ordered sequence has no repeated value, since no value beats itself. */
  lemma {:induction false} OrderedNoDup<K>(vals: seq<K>, s: seq<K>)
    requires Ordered(vals, s)
    ensures NoDup(s)
  {
    forall i, j | 0 <= i < j < |s|
      ensures s[i] != s[j]
    {
      assert Beats(vals, s[i], s[j]);
    }
  }

  /** A prefix of an ordered sequence is ordered. */
  lemma {:induction false} OrderedPrefix<K>(vals: seq<K>, s: seq<K>, m: nat)
    requires Ordered(vals, s) && m <= |s|
    ensures Ordered(vals, s[..m])
  {
    assert forall i :: 0 <= i < m ==> s[..m][i] == s[i];
  }

  /** What `most_common(num)` returns: `max(num, 0)` values, or all distinct values when there
      are fewer; no value twice; listed from most to least common; and each of them beats every
      value of `vals` that is left out. */
  lemma {:induction false} MostCommonSpec<K>(vals: seq<K>, num: int)
    ensures |MostCommon(vals, num)| == if num <= 0 then 0 else if num < |Unique(vals)| then num else |Unique(vals)|
    ensures NoDup(MostCommon(vals, num))
    ensures Ordered(vals, MostCommon(vals, num))
    ensures forall i, x :: 0 <= i < |MostCommon(vals, num)| && x in vals && x !in MostCommon(vals, num) ==>
      MostCommon(vals, num)[i] in vals && Beats(vals, MostCommon(vals, num)[i], x)
  {
    var u := Unique(vals);
    var sorted := SortByCount(vals, u);
    var r := MostCommon(vals, num);
    RankingLength(vals);
    RankingOrdered(vals);
    var m := if num <= 0 then 0 else if num < |sorted| then num else |sorted|;
    assert r == sorted[..m];
    OrderedPrefix(vals, sorted, m);
    OrderedNoDup(vals, r);
    forall i, x | 0 <= i < |r| && x in vals && x !in r
      ensures r[i] in vals && Beats(vals, r[i], x)
    {
      RankingBeatsRest(vals, m, i, x);
    }
  }

  lemma {:induction false} RankingLength<K>(vals: seq<K>)
    ensures |SortByCount(vals, Unique(vals))| == |Unique(vals)|
  {
    assert |multiset(SortByCount(vals, Unique(vals)))| == |multiset(Unique(vals))|;
  }

  /** A value of `vals` outside the first `m` of the ranking is beaten by each of them. */
  lemma {:induction false} RankingBeatsRest<K>(vals: seq<K>, m: nat, i: nat, x: K)
    requires i < m <= |SortByCount(vals, Unique(vals))|
    requires x in vals && x !in SortByCount(vals, Unique(vals))[..m]
    ensures SortByCount(vals, Unique(vals))[i] in vals
    ensures Beats(vals, SortByCount(vals, Unique(vals))[i], x)
  {
    var u := Unique(vals);
    var sorted := SortByCount(vals, u);
    RankingOrdered(vals);
    var p :| 0 <= p < |vals| && vals[p] == x;
    assert x in u;
    assert x in multiset(sorted);
    var j :| 0 <= j < |sorted| && sorted[j] == x;
  }

  /** `df_most_common_only(df, col, num)`: the rows whose value in the column is one of the `num`
      most common values, in table order. */
  function DfMostCommonOnly<R(==), K(==)>(df: seq<R>, key: R -> K, num: int): (rows: seq<R>)
    ensures |rows| <= |df|
    ensures forall r :: r in rows ==> r in df
    ensures num <= 0 ==> rows == []
  {
    var lst := MostCommon(Keys(df, key), num);
    var rows := Select(df, key, lst);
    assert num <= 0 ==> lst == [];
    SelectNothing(df, key);
    rows
  }

  /** The result is a filter of the table: rows keep their order, and a row is kept, with all its
      copies, exactly when its value is among the most common ones. */
  lemma {:induction false} DfMostCommonOnlyIsFilter<R, K>(df: seq<R>, key: R -> K, num: int)
    ensures IsSubsequence(DfMostCommonOnly(df, key, num), df)
    ensures forall r ::
              multiset(DfMostCommonOnly(df, key, num))[r] == (if key(r) in MostCommon(Keys(df, key), num) then multiset(df)[r] else 0)
  {
    SelectIsFilter(df, key, MostCommon(Keys(df, key), num));
  }

  /** A row is kept exactly when its value is one of the most common values. */
  lemma {:induction false} DfMostCommonOnlyRows<R, K>(df: seq<R>, key: R -> K, num: int, j: nat)
    requires j < |df|
    ensures df[j] in DfMostCommonOnly(df, key, num) <==> key(df[j]) in MostCommon(Keys(df, key), num)
  {
    var lst := MostCommon(Keys(df, key), num);
    var rows := DfMostCommonOnly(df, key, num);
    SelectIsFilter(df, key, lst);
    assert df[j] in multiset(df);
    assert df[j] in rows <==> df[j] in multiset(rows);
  }

  /** Every kept row's value is at least as frequent in the column as the value of any dropped
      row, and strictly more frequent or met earlier on a tie. */
  lemma {:induction false} DfMostCommonOnlyKeepsFrequent<R, K>(df: seq<R>, key: R -> K, num: int, j: nat, k: nat)
    requires j < |df| && k < |df|
    requires df[j] in DfMostCommonOnly(df, key, num) && df[k] !in DfMostCommonOnly(df, key, num)
    ensures key(df[j]) in Keys(df, key) && key(df[k]) in Keys(df, key)
    ensures Beats(Keys(df, key), key(df[j]), key(df[k]))
    ensures Count(Keys(df, key), key(df[j])) >= Count(Keys(df, key), key(df[k]))
  {
    var keys, lst := Keys(df, key), MostCommon(Keys(df, key), num);
    assert keys[j] == key(df[j]) && keys[k] == key(df[k]);
    DfMostCommonOnlyRows(df, key, num, j);
    DfMostCommonOnlyRows(df, key, num, k);
    MostCommonSpec(keys, num);
    var i :| 0 <= i < |lst| && lst[i] == key(df[j]);
  }

  /** With fewer values asked for (counting a negative `num` as none) than there are distinct
      ones, some rows are dropped. */
  lemma {:induction false} DfMostCommonOnlyDrops<R, K>(df: seq<R>, key: R -> K, num: int)
    requires (if num < 0 then 0 else num) < |Unique(Keys(df, key))|
    ensures |DfMostCommonOnly(df, key, num)| < |df|
  {
    var keys := Keys(df, key);
    var u, lst := Unique(keys), MostCommon(keys, num);
    MostCommonSpec(keys, num);
    if forall x :: x in u ==> x in lst {
      NoDupIncluded(u, lst);
    }
    assert exists x :: x in u && x !in lst;
    var x :| x in u && x !in lst;
    var j :| 0 <= j < |keys| && keys[j] == x;
    SelectDrops(df, key, lst, j);
  }

  /** In particular, keeping only the single most common value of a column that holds two
      different values drops rows. */
  lemma {:induction false} DfMostCommonOnlySingle<R, K>(df: seq<R>, key: R -> K, a: nat, b: nat)
    requires a < |df| && b < |df| && key(df[a]) != key(df[b])
    ensures |DfMostCommonOnly(df, key, 1)| < |df|
  {
    var keys := Keys(df, key);
    assert keys[a] == key(df[a]) && keys[b] == key(df[b]);
    NoDupIncluded([key(df[a]), key(df[b])], Unique(keys));
    DfMostCommonOnlyDrops(df, key, 1);
  }
}
