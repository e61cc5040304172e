/** The dataframe primitives the helpers use. A table is a sequence of rows of some type `R`;
    reading the designated column of a row is a function `key: R -> K`. */
module Frames {
  import opened Seqs

  /** `df[col]`: the column's values, row by row. */
  function Keys<R, K>(df: seq<R>, key: R -> K): (ks: seq<K>)
    ensures |ks| == |df|
    ensures forall i :: 0 <= i < |df| ==> ks[i] == key(df[i])
    ensures forall r :: r in df ==> key(r) in ks
    ensures forall x :: x in ks ==> exists r :: r in df && key(r) == x
  {
    var ks := seq(|df|, i requires 0 <= i < |df| => key(df[i]));
    assert forall r :: r in df ==> key(r) in ks by {
      forall r | r in df
        ensures key(r) in ks
      {
        var i :| 0 <= i < |df| && df[i] == r;
        assert ks[i] == key(r);
      }
    }
    ks
  }

  /** The `duplicated()` mask (keep the first): `s[p]` already occurred before position `p`. */
  predicate Duplicated<K(==)>(s: seq<K>, p: nat)
    requires p < |s|
  {
    s[p] in s[..p]
  }

  /** The mask marks a position exactly when the first occurrence of its value is earlier. */
  lemma {:induction false} DuplicatedFirst<K>(s: seq<K>, p: nat)
    requires p < |s|
    ensures Duplicated(s, p) <==> FirstIndex(s, s[p]) < p
  {
    var f := FirstIndex(s, s[p]);
    if s[p] in s[..p] {
      var q :| 0 <= q < p && s[..p][q] == s[p];
      assert forall j :: 0 <= j < f ==> s[..f][j] == s[j];
    }
    if f < p {
      assert s[..p][f] == s[p];
    }
  }

  /** `Series.unique()`, which is also `s[~s.duplicated()]`: the distinct values of `s`
      in the order of their first appearance. */
  function Unique<K(==)>(s: seq<K>): (u: seq<K>)
    ensures NoDup(u)
    ensures forall i :: 0 <= i < |u| ==> u[i] in s
    ensures forall i :: 0 <= i < |s| ==> s[i] in u
    ensures |u| <= |s|
  {
    if s == [] then []
    else
      var init, last := s[..|s| - 1], s[|s| - 1];
      var u := Unique(init);
      assert forall i :: 0 <= i < |init| ==> s[i] == init[i];
      if Duplicated(s, |s| - 1) then u else u + [last]
  }

  /** The distinct values appear in the order of their first appearance: every occurrence of a
      later distinct value is preceded by an occurrence of each earlier one. */
  lemma {:induction false} UniqueFirstAppearance<K>(s: seq<K>, i: nat, j: nat, q: nat)
    requires i < j < |Unique(s)| && q < |s| && s[q] == Unique(s)[j]
    ensures Unique(s)[i] in s[..q]
  {
    var init, last := s[..|s| - 1], s[|s| - 1];
    var u := Unique(init);
    assert forall k :: 0 <= k < |init| ==> s[k] == init[k];
    if Duplicated(s, |s| - 1) {
      if q == |s| - 1 {
        assert Unique(s)[i] in init;
      } else {
        assert s[q] == init[q];
        UniqueFirstAppearance(init, i, j, q);
        assert s[..q] == init[..q];
      }
    } else if j == |u| {
      assert Unique(s)[i] == u[i];
      assert u[i] in init;
    } else {
      assert Unique(s)[i] == u[i] && Unique(s)[j] == u[j];
      if q < |s| - 1 {
        assert s[q] == init[q];
        UniqueFirstAppearance(init, i, j, q);
        assert s[..q] == init[..q];
      }
    }
  }

  /** The distinct values are a subsequence of the column. */
  lemma {:induction false} UniqueIsSubsequence<K>(s: seq<K>)
    ensures IsSubsequence(Unique(s), s)
  {
    if s == [] {
      SubsequenceEmpty(s);
    } else {
      var init, last := s[..|s| - 1], s[|s| - 1];
      UniqueIsSubsequence(init);
      SubsequenceSnoc(Unique(init), init, last, !Duplicated(s, |s| - 1));
      assert init + [last] == s;
    }
  }

  /** A column without repeated values is its own `unique()`. */
  lemma {:induction false} UniqueOfNoDup<K>(s: seq<K>)
    requires NoDup(s)
    ensures Unique(s) == s
  {
    if s != [] {
      var init := s[..|s| - 1];
      assert NoDup(init);
      UniqueOfNoDup(init);
      assert !Duplicated(s, |s| - 1);
      assert init + [s[|s| - 1]] == s;
    }
  }

  /** `df[df[col].isin(lst)]`: the rows whose column value is one of `lst`, in table order. */
  function Select<R(==), K(==)>(df: seq<R>, key: R -> K, lst: seq<K>): (rows: seq<R>)
    ensures |rows| <= |df|
    ensures forall i :: 0 <= i < |rows| ==> rows[i] in df && key(rows[i]) in lst
    ensures forall i :: 0 <= i < |df| && key(df[i]) in lst ==> df[i] in rows
  {
    if df == [] then []
    else
      var rest := Select(df[1..], key, lst);
      assert forall i :: 1 <= i < |df| ==> df[i] == df[1..][i - 1];
      if key(df[0]) in lst then [df[0]] + rest else rest
  }
  /** Selecting with an empty list keeps no row. */
  lemma {:induction false} SelectNothing<R, K>(df: seq<R>, key: R -> K)
    ensures Select(df, key, []) == []
  {
    if df != [] {
      SelectNothing(df[1..], key);
    }
  }


  /** The selected rows keep their order, and every copy of a selected row is kept:
      together this says that `Select` is exactly the filter by the mask. */
  lemma {:induction false} SelectIsFilter<R, K>(df: seq<R>, key: R -> K, lst: seq<K>)
    ensures IsSubsequence(Select(df, key, lst), df)
    ensures forall r :: multiset(Select(df, key, lst))[r] == if key(r) in lst then multiset(df)[r] else 0
  {
    if df == [] {
      SubsequenceEmpty(df);
    } else {
      SelectIsFilter(df[1..], key, lst);
      assert df == [df[0]] + df[1..];
      assert multiset(df) == multiset{df[0]} + multiset(df[1..]);
      var rest := Select(df[1..], key, lst);
      if key(df[0]) in lst {
        assert ([df[0]] + rest)[1..] == rest;
      } else {
        SubsequenceDropHead(rest, df);
      }
    }
  }

  lemma {:induction false} SubsequenceDropHead<T>(a: seq<T>, b: seq<T>)
    requires b != [] && IsSubsequence(a, b[1..])
    ensures IsSubsequence(a, b)
    decreases |b|, 0
  {
    if a != [] && a[0] == b[0] {
      SubsequenceTail(a, b[1..]);
    }
  }

  lemma {:induction false} SubsequenceTail<T>(a: seq<T>, b: seq<T>)
    requires a != [] && IsSubsequence(a, b)
    ensures IsSubsequence(a[1..], b)
    decreases |b|, 1
  {
    if a[0] == b[0] {
      if a[1..] != [] {
        SubsequenceDropHead(a[1..], b);
      } else {
        SubsequenceEmpty(b);
      }
    } else {
      SubsequenceTail(a, b[1..]);
      if a[1..] != [] {
        SubsequenceDropHead(a[1..], b);
      } else {
        SubsequenceEmpty(b);
      }
    }
  }

  /** Selecting with two lists that share no value, one after the other, yields the same rows
      (as a multiset) as selecting with both lists at once. */
  lemma {:induction false} SelectSplit<R, K>(df: seq<R>, key: R -> K, a: seq<K>, b: seq<K>)
    requires forall x :: x in a ==> x !in b
    ensures multiset(Select(df, key, a)) + multiset(Select(df, key, b)) == multiset(Select(df, key, a + b))
  {
    if df != [] {
      SelectSplit(df[1..], key, a, b);
      assert key(df[0]) in a + b <==> key(df[0]) in a || key(df[0]) in b;
    }
  }

  /** Selecting with a list that holds every value of the column keeps the whole table. */
  lemma {:induction false} SelectAll<R, K>(df: seq<R>, key: R -> K, lst: seq<K>)
    requires forall i :: 0 <= i < |df| ==> key(df[i]) in lst
    ensures Select(df, key, lst) == df
  {
    if df != [] {
      SelectAll(df[1..], key, lst);
      assert key(df[0]) in lst;
    }
  }

  /** A row whose value is not selected is dropped, so the selection is strictly shorter. */
  lemma {:induction false} SelectDrops<R, K>(df: seq<R>, key: R -> K, lst: seq<K>, j: nat)
    requires j < |df| && key(df[j]) !in lst
    ensures |Select(df, key, lst)| < |df|
  {
    if j > 0 {
      SelectDrops(df[1..], key, lst, j - 1);
    }
  }
}
