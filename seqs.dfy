/** Sequence notions shared by the rest of the model. */
module Seqs {

  /** No element occurs twice. */
  predicate NoDup<T(==)>(s: seq<T>) {
    forall i, j :: 0 <= i < j < |s| ==> s[i] != s[j]
  }

  /** The sequences of `ss`, one after another. */
  function Concat<T>(ss: seq<seq<T>>): seq<T> {
    if ss == [] then [] else Concat(ss[..|ss| - 1]) + ss[|ss| - 1]
  }

  /** `a` is obtained from `b` by deleting elements, keeping the order of the rest. */
  predicate IsSubsequence<T(==)>(a: seq<T>, b: seq<T>)
    decreases |b|
  {
    if a == [] then true
    else if b == [] then false
    else if a[0] == b[0] then IsSubsequence(a[1..], b[1..])
    else IsSubsequence(a, b[1..])
  }

  /** The position of the first occurrence of `x` in `s`. */
  function FirstIndex<T(==)>(s: seq<T>, x: T): (i: nat)
    requires x in s
    ensures i < |s| && s[i] == x && x !in s[..i]
  {
    if s[0] == x then 0 else
      var j := FirstIndex(s[1..], x);
      assert s[1..][..j] == s[1..j + 1];
      1 + j
  }

  /** The first `m` parts are the first `m - 1` parts followed by part `m - 1`. */
  lemma {:induction false} ConcatSnoc<T>(ss: seq<seq<T>>, m: nat)
    requires 1 <= m <= |ss|
    ensures Concat(ss[..m]) == Concat(ss[..m - 1]) + ss[m - 1]
  {
    assert ss[..m][..m - 1] == ss[..m - 1];
  }

  /** Every element of every part is an element of the concatenation, and nothing else is. */
  lemma {:induction false} ConcatMember<T>(ss: seq<seq<T>>, x: T)
    ensures x in Concat(ss) <==> exists i :: 0 <= i < |ss| && x in ss[i]
  {
    if ss != [] {
      var init, last := ss[..|ss| - 1], ss[|ss| - 1];
      ConcatMember(init, x);
      assert Concat(ss) == Concat(init) + last;
      if exists i :: 0 <= i < |ss| && x in ss[i] {
        var i :| 0 <= i < |ss| && x in ss[i];
        if i < |init| {
          assert init[i] == ss[i];
        }
      }
      if exists i :: 0 <= i < |init| && x in init[i] {
        var i :| 0 <= i < |init| && x in init[i];
        assert ss[i] == init[i];
      }
    }
  }

  /** `ConcatMember` for every element at once. */
  lemma {:induction false} ConcatMembers<T>(ss: seq<seq<T>>)
    ensures forall x :: x in Concat(ss) ==> exists i :: 0 <= i < |ss| && x in ss[i]
    ensures forall i, x :: 0 <= i < |ss| && x in ss[i] ==> x in Concat(ss)
  {
    forall x | x in Concat(ss)
      ensures exists i :: 0 <= i < |ss| && x in ss[i]
    {
      ConcatMember(ss, x);
    }
    forall i, x | 0 <= i < |ss| && x in ss[i]
      ensures x in Concat(ss)
    {
      ConcatMember(ss, x);
    }
  }

  lemma {:induction false} SubsequenceEmpty<T>(b: seq<T>)
    ensures IsSubsequence([], b)
  {
  }

  /** Extending both sides with the same element keeps a subsequence a subsequence. */
  lemma {:induction false} SubsequenceSnoc<T>(a: seq<T>, b: seq<T>, x: T, keep: bool)
    requires IsSubsequence(a, b)
    ensures IsSubsequence(if keep then a + [x] else a, b + [x])
    decreases |b|
  {
    if a == [] {
      if keep {
        assert a + [x] == [x];
        SubsequenceSingle(b, x);
      }
    } else {
      assert b != [];
      assert (b + [x])[0] == b[0] && (b + [x])[1..] == b[1..] + [x];
      if a[0] == b[0] {
        SubsequenceSnoc(a[1..], b[1..], x, keep);
        if keep {
          assert (a + [x])[0] == a[0] && (a + [x])[1..] == a[1..] + [x];
        }
      } else {
        SubsequenceSnoc(a, b[1..], x, keep);
        if keep {
          assert (a + [x])[0] == a[0];
        }
      }
    }
  }

  lemma {:induction false} SubsequenceSingle<T>(b: seq<T>, x: T)
    ensures IsSubsequence([x], b + [x])
    decreases |b|
  {
    if b != [] {
      assert (b + [x])[1..] == b[1..] + [x];
      if b[0] != x {
        SubsequenceSingle(b[1..], x);
      } else {
        assert [x][1..] == [];
      }
    }
  }

  /** The elements of a duplicate-free sequence are as many as its length. */
  lemma {:induction false} NoDupCardinality<T>(s: seq<T>)
    requires NoDup(s)
    ensures |set x | x in s| == |s|
  {
    if s != [] {
      var init := s[..|s| - 1];
      assert NoDup(init);
      NoDupCardinality(init);
      var last := s[|s| - 1];
      assert last !in init;
      assert (set x | x in s) == (set x | x in init) + {last};
    }
  }

  /** A duplicate-free sequence whose elements all occur in `t` is no longer than `t`. */
  lemma {:induction false} NoDupIncluded<T>(s: seq<T>, t: seq<T>)
    requires NoDup(s)
    requires forall x :: x in s ==> x in t
    ensures |s| <= |t|
  {
    NoDupCardinality(s);
    var ss, st := set x | x in s, set x | x in t;
    assert ss <= st;
    SubsetCardinality(ss, st);
    SetOfSeqSize(t);
  }

  lemma {:induction false} SubsetCardinality<T>(a: set<T>, b: set<T>)
    requires a <= b
    ensures |a| <= |b|
  {
    if a != {} {
      var x :| x in a;
      SubsetCardinality(a - {x}, b - {x});
    }
  }

  lemma {:induction false} SetOfSeqSize<T>(t: seq<T>)
    ensures |set x | x in t| <= |t|
  {
    if t != [] {
      var init := t[..|t| - 1];
      SetOfSeqSize(init);
      assert (set x | x in t) == (set x | x in init) + {t[|t| - 1]};
    }
  }
}
