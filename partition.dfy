/** How the batch helpers cut the distinct identifiers into `num_splits` contiguous slices
    (datto/CleanText.py, the `part_ids` comprehension of both batch helpers). */
module Partition {
  import opened Seqs
  import opened Python

  /** The cut point `int(round(division * i))`, with `division = n / num_splits`, for `n`
      identifiers and `k` slices; the quotient is taken exactly. */
  function Boundary(n: nat, k: int, i: int): (b: int)
    requires k >= 1
    ensures k * (2 * b - 1) <= 2 * (i * n) <= k * (2 * b + 1)
    ensures 2 * (i * n) == k * (2 * b - 1) || 2 * (i * n) == k * (2 * b + 1) ==> b % 2 == 0
  {
    RoundHalfEven(i * n, k)
  }

  /** The first cut point is 0 and the last is `n`. */
  lemma {:induction false} BoundaryEnds(n: nat, k: int)
    requires k >= 1
    ensures Boundary(n, k, 0) == 0
    ensures Boundary(n, k, k) == n
  {
    RoundHalfEvenExact(0, k);
    assert k * n == n * k;
    RoundHalfEvenExact(n, k);
  }

  /** The cut points never decrease. */
  lemma {:induction false} BoundaryMonotone(n: nat, k: int, i: int, j: int)
    requires k >= 1 && i <= j
    ensures Boundary(n, k, i) <= Boundary(n, k, j)
  {
    assert j * n - i * n == (j - i) * n;
    RoundHalfEvenMonotone(i * n, j * n, k);
  }

  /** Consecutive cut points lie between 0 and `n`, in order. */
  lemma {:induction false} BoundariesOrdered(n: nat, k: int, i: int)
    requires k >= 1 && 0 <= i < k
    ensures 0 <= Boundary(n, k, i) <= Boundary(n, k, i + 1) <= n
  {
    BoundaryEnds(n, k);
    BoundaryMonotone(n, k, 0, i);
    BoundaryMonotone(n, k, i, i + 1);
    BoundaryMonotone(n, k, i + 1, k);
  }

  /** The slices are near-equal: each holds `n / k` identifiers, give or take one. */
  lemma {:induction false} BoundaryGap(n: nat, k: int, i: int)
    requires k >= 1
    ensures n - k <= k * (Boundary(n, k, i + 1) - Boundary(n, k, i)) <= n + k
  {
    var b1, b2 := Boundary(n, k, i), Boundary(n, k, i + 1);
    HalfProducts(k, b1);
    HalfProducts(k, b2);
    GapProducts(n, k, i, b1, b2);
  }

  /** The products `RoundHalfEven`'s bounds are stated with, spelt out linearly. */
  lemma {:induction false} HalfProducts(k: int, b: int)
    ensures k * (2 * b - 1) == 2 * (k * b) - k && k * (2 * b + 1) == 2 * (k * b) + k
  {
  }

  lemma {:induction false} GapProducts(n: int, k: int, i: int, b1: int, b2: int)
    ensures (i + 1) * n == i * n + n
    ensures k * (b2 - b1) == k * b2 - k * b1
  {
  }

  /** `part_ids`: for `i in range(num_splits)`, the slice `ids[b(i):b(i + 1)]`. A negative
      `num_splits` makes the range empty; zero is excluded because computing `division`
      divides by it. */
  function PartIds<V>(ids: seq<V>, k: int): (parts: seq<seq<V>>)
    requires k != 0
    ensures |parts| == if k < 0 then 0 else k
  {
    if k < 0 then []
    else seq(k, i requires 0 <= i < k => Slice(ids, Boundary(|ids|, k, i), Boundary(|ids|, k, i + 1)))
  }

  /** Each slice is taken inside `ids`, so Python's clamping of slice bounds never applies. */
  lemma {:induction false} PartIdsSlice<V>(ids: seq<V>, k: int, i: int)
    requires k >= 1 && 0 <= i < k
    ensures 0 <= Boundary(|ids|, k, i) <= Boundary(|ids|, k, i + 1) <= |ids|
    ensures PartIds(ids, k)[i] == ids[Boundary(|ids|, k, i)..Boundary(|ids|, k, i + 1)]
  {
    BoundariesOrdered(|ids|, k, i);
  }

  /** The first `m` slices, concatenated, are the first `b(m)` identifiers. */
  lemma {:induction false} PartIdsPrefix<V>(ids: seq<V>, k: int, m: int)
    requires k >= 1 && 0 <= m <= k
    ensures 0 <= Boundary(|ids|, k, m) <= |ids|
    ensures Concat(PartIds(ids, k)[..m]) == ids[..Boundary(|ids|, k, m)]
  {
    var parts := PartIds(ids, k);
    if m == 0 {
      BoundaryEnds(|ids|, k);
    } else {
      PartIdsPrefix(ids, k, m - 1);
      PartIdsSlice(ids, k, m - 1);
      ConcatSnoc(parts, m);
      var lo, hi := Boundary(|ids|, k, m - 1), Boundary(|ids|, k, m);
      PrefixStep(ids, Concat(parts[..m - 1]), parts[m - 1], lo, hi);
    }
  }

  lemma {:induction false} PrefixStep<V>(ids: seq<V>, prev: seq<V>, part: seq<V>, lo: int, hi: int)
    requires 0 <= lo <= hi <= |ids|
    requires prev == ids[..lo] && part == ids[lo..hi]
    ensures prev + part == ids[..hi]
  {
    assert ids[..lo] + ids[lo..hi] == ids[..hi];
  }

  /** Concatenated in order, the slices give back exactly the identifier list, whatever `k`. */
  lemma {:induction false} PartIdsConcat<V>(ids: seq<V>, k: int)
    requires k >= 1
    ensures Concat(PartIds(ids, k)) == ids
  {
    PartIdsPrefix(ids, k, k);
    BoundaryEnds(|ids|, k);
    assert PartIds(ids, k)[..k] == PartIds(ids, k);
  }

  /** Slices of a duplicate-free list are pairwise disjoint. */
  lemma {:induction false} PartIdsDisjoint<V>(ids: seq<V>, k: int, i: int, j: int, x: V)
    requires k >= 1 && 0 <= i < k && 0 <= j < k && i != j
    requires NoDup(ids)
    requires x in PartIds(ids, k)[i]
    ensures x !in PartIds(ids, k)[j]
  {
    if i < j {
      OrderedPartsDisjoint(ids, k, i, j);
    } else {
      OrderedPartsDisjoint(ids, k, j, i);
    }
  }

  lemma {:induction false} OrderedPartsDisjoint<V>(ids: seq<V>, k: int, a: int, b: int)
    requires k >= 1 && 0 <= a < b < k
    requires NoDup(ids)
    ensures forall x :: x in PartIds(ids, k)[a] ==> x !in PartIds(ids, k)[b]
  {
    var parts := PartIds(ids, k);
    PartIdsSlice(ids, k, a);
    PartIdsSlice(ids, k, b);
    BoundaryMonotone(|ids|, k, a + 1, b);
    var a1, a2 := Boundary(|ids|, k, a), Boundary(|ids|, k, a + 1);
    var b1, b2 := Boundary(|ids|, k, b), Boundary(|ids|, k, b + 1);
    SlicesDisjoint(ids, parts[a], parts[b], a1, a2, b1, b2);
  }

  lemma {:induction false} SlicesDisjoint<V>(ids: seq<V>, p: seq<V>, q: seq<V>, a1: int, a2: int, b1: int, b2: int)
    requires NoDup(ids) && 0 <= a1 <= a2 <= b1 <= b2 <= |ids|
    requires p == ids[a1..a2] && q == ids[b1..b2]
    ensures forall x :: x in p ==> x !in q
  {
    NoDupSlicesDisjoint(ids, a1, a2, b1, b2);
  }

  /** Two non-overlapping slices of a duplicate-free list share no element. */
  lemma {:induction false} NoDupSlicesDisjoint<V>(s: seq<V>, a1: int, a2: int, b1: int, b2: int)
    requires NoDup(s) && 0 <= a1 <= a2 <= b1 <= b2 <= |s|
    ensures forall x :: x in s[a1..a2] ==> x !in s[b1..b2]
  {
    forall x | x in s[a1..a2]
      ensures x !in s[b1..b2]
    {
      var i :| 0 <= i < a2 - a1 && s[a1..a2][i] == x;
      assert s[a1 + i] == x;
      assert forall q :: b1 <= q < b2 ==> s[q] != x;
    }
  }

  /** Each slice holds `n / k` identifiers, give or take one. */
  lemma {:induction false} PartIdsNearEqual<V>(ids: seq<V>, k: int, i: int)
    requires k >= 1 && 0 <= i < k
    ensures |ids| - k <= k * |PartIds(ids, k)[i]| <= |ids| + k
  {
    PartIdsSlice(ids, k, i);
    BoundaryGap(|ids|, k, i);
  }

  /** With as many slices as identifiers, slice `i` is exactly the `i`-th identifier. */
  lemma {:induction false} BoundaryIdentity(n: nat, i: int)
    requires n >= 1
    ensures Boundary(n, n, i) == i
  {
    RoundHalfEvenExact(i, n);
  }

  lemma {:induction false} SmallSlice(n: nat, k: int, s: nat)
    requires n < k && k * s <= n + k
    ensures s <= 1
  {
    if s >= 2 {
      assert k * s - k * 2 == k * (s - 2);
      MulPositive(k, s - 1);
    }
  }

  /** With at least as many slices as identifiers, no slice holds more than one identifier;
      the other slices are empty, and none of this fails. */
  lemma {:induction false} PartIdsManySplits<V>(ids: seq<V>, k: int, i: int)
    requires k >= 1 && k >= |ids| && 0 <= i < k
    ensures |PartIds(ids, k)[i]| <= 1
  {
    PartIdsSlice(ids, k, i);
    if k == |ids| {
      BoundaryIdentity(k, i);
      BoundaryIdentity(k, i + 1);
    } else {
      PartIdsNearEqual(ids, k, i);
      SmallSlice(|ids|, k, |PartIds(ids, k)[i]|);
    }
  }

  /** The slice that position `p` of the identifier list falls in, searched from slice `i` on. */
  function PartIndexFrom(n: nat, k: int, p: nat, i: nat): (j: nat)
    requires k >= 1 && i < k && p < n
    requires Boundary(n, k, i) <= p
    ensures i <= j < k
    ensures Boundary(n, k, j) <= p < Boundary(n, k, j + 1)
    decreases k - i
  {
    BoundaryEnds(n, k);
    if p < Boundary(n, k, i + 1) then i else PartIndexFrom(n, k, p, i + 1)
  }

  /** The slice that position `p` of the identifier list falls in. */
  function PartIndex(n: nat, k: int, p: nat): (j: nat)
    requires k >= 1 && p < n
    ensures j < k
    ensures Boundary(n, k, j) <= p < Boundary(n, k, j + 1)
  {
    BoundaryEnds(n, k);
    PartIndexFrom(n, k, p, 0)
  }

  /** No position falls in two slices. */
  lemma {:induction false} PartIndexUnique(n: nat, k: int, p: nat, i: int, j: int)
    requires k >= 1
    requires Boundary(n, k, i) <= p < Boundary(n, k, i + 1)
    requires Boundary(n, k, j) <= p < Boundary(n, k, j + 1)
    ensures i == j
  {
    if i < j {
      BoundaryMonotone(n, k, i + 1, j);
    } else if j < i {
      BoundaryMonotone(n, k, j + 1, i);
    }
  }
}
