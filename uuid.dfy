/** `make_uuid` (datto/CleanText.py): hyphens are inserted into a hex digest after characters
    8, 12, 16 and 20, giving the 8-4-4-4-12 layout of a UUID. */
module Uuid {
  import opened Python

  /** The four offsets of `id` at which a hyphen is inserted. */
  const Cuts: seq<nat> := [8, 12, 16, 20]

  /** `id[:8] + "-" + id[8:12] + "-" + id[12:16] + "-" + id[16:20] + "-" + id[20:]`. Python
      slicing never fails, so a short `id` still gets all four hyphens. */
  function MakeUuid(id: string): (u: string)
    ensures |u| == |id| + 4
  {
    Slice(id, 0, 8) + "-" + Slice(id, 8, 12) + "-" + Slice(id, 12, 16) + "-" + Slice(id, 16, 20)
      + "-" + Slice(id, 20, |id|)
  }

  /** How many hyphens come before character `i` of `id` in the result. */
  function Shift(i: nat): (h: nat)
    ensures h <= 4
    ensures h == |set k | 0 <= k < 4 && Cuts[k] <= i|
  {
    assert (set k | 0 <= k < 4 && Cuts[k] <= i) ==
      if i < 8 then {} else if i < 12 then {0} else if i < 16 then {0, 1} else if i < 20 then {0, 1, 2} else {0, 1, 2, 3};
    if i < 8 then 0 else if i < 12 then 1 else if i < 16 then 2 else if i < 20 then 3 else 4
  }

  /** Where the `k`-th hyphen lands for an `id` of length `n`: after the `k` earlier hyphens and
      the characters before `Cuts[k]` (all of them, when `id` is shorter). */
  function HyphenAt(n: nat, k: nat): nat
    requires k < 4
  {
    (if Cuts[k] <= n then Cuts[k] else n) + k
  }

  /** The four pieces of the result before the last one have these lengths. */
  lemma {:induction false} PieceLengths(id: string)
    ensures |Slice(id, 0, 8)| == HyphenAt(|id|, 0)
    ensures |Slice(id, 8, 12)| == HyphenAt(|id|, 1) - HyphenAt(|id|, 0) - 1
    ensures |Slice(id, 12, 16)| == HyphenAt(|id|, 2) - HyphenAt(|id|, 1) - 1
    ensures |Slice(id, 16, 20)| == HyphenAt(|id|, 3) - HyphenAt(|id|, 2) - 1
  {
  }

  /** The result is fully described position by position: character `i` of `id` moves right by
      the number of hyphens before it, and every other position holds a hyphen. */
  lemma {:induction false} MakeUuidCharacters(id: string)
    ensures forall i :: 0 <= i < |id| ==> MakeUuid(id)[i + Shift(i)] == id[i]
    ensures forall k :: 0 <= k < 4 ==> MakeUuid(id)[HyphenAt(|id|, k)] == '-'
  {
    forall i | 0 <= i < |id|
      ensures MakeUuid(id)[i + Shift(i)] == id[i]
    {
      MakeUuidChar(id, i);
    }
    forall k | 0 <= k < 4
      ensures MakeUuid(id)[HyphenAt(|id|, k)] == '-'
    {
      MakeUuidHyphen(id, k);
    }
  }

  lemma {:induction false} MakeUuidChar(id: string, i: nat)
    requires i < |id|
    ensures MakeUuid(id)[i + Shift(i)] == id[i]
  {
    var n := |id|;
    var p0, p1, p2, p3 := Slice(id, 0, 8), Slice(id, 8, 12), Slice(id, 12, 16), Slice(id, 16, 20);
    var p4 := Slice(id, 20, n);
    PieceLengths(id);
    assert Cuts[0] == 8 && Cuts[1] == 12 && Cuts[2] == 16 && Cuts[3] == 20;
    var q3 := p0 + "-" + p1 + "-" + p2 + "-" + p3 + "-";
    assert MakeUuid(id) == q3 + p4;
    if i >= 20 {
      assert |q3| == 24;
      assert p4[i - 20] == id[i];
    } else {
      var q2 := p0 + "-" + p1 + "-" + p2 + "-";
      assert q3 == q2 + p3 + "-";
      if i >= 16 {
        assert |q2| == 19;
        assert p3[i - 16] == id[i];
      } else {
        var q1 := p0 + "-" + p1 + "-";
        assert q2 == q1 + p2 + "-";
        if i >= 12 {
          assert |q1| == 14;
          assert p2[i - 12] == id[i];
        } else if i >= 8 {
          assert q1 == p0 + "-" + p1 + "-";
          assert |p0| == 8;
          assert p1[i - 8] == id[i];
        } else {
          assert p0[i] == id[i];
        }
      }
    }
  }

  lemma {:induction false} MakeUuidHyphen(id: string, k: nat)
    requires k < 4
    ensures MakeUuid(id)[HyphenAt(|id|, k)] == '-'
  {
    var n := |id|;
    var p0, p1, p2, p3 := Slice(id, 0, 8), Slice(id, 8, 12), Slice(id, 12, 16), Slice(id, 16, 20);
    var p4 := Slice(id, 20, n);
    PieceLengths(id);
    var q0 := p0 + "-";
    var q1 := q0 + p1 + "-";
    var q2 := q1 + p2 + "-";
    var q3 := q2 + p3 + "-";
    assert MakeUuid(id) == q3 + p4;
    assert |q0| == HyphenAt(n, 0) + 1 && q0[HyphenAt(n, 0)] == '-';
    assert |q1| == HyphenAt(n, 1) + 1 && q1[HyphenAt(n, 1)] == '-';
    assert |q2| == HyphenAt(n, 2) + 1 && q2[HyphenAt(n, 2)] == '-';
    assert |q3| == HyphenAt(n, 3) + 1 && q3[HyphenAt(n, 3)] == '-';
    assert q3[HyphenAt(n, k)] == '-';
  }

  /** An `id` of at least 20 characters gets its hyphens at 8, 13, 18 and 23. */
  lemma {:induction false} MakeUuidHyphens(id: string)
    requires |id| >= 20
    ensures MakeUuid(id)[8] == '-' && MakeUuid(id)[13] == '-'
    ensures MakeUuid(id)[18] == '-' && MakeUuid(id)[23] == '-'
  {
    MakeUuidCharacters(id);
    assert HyphenAt(|id|, 0) == 8 && HyphenAt(|id|, 1) == 13;
    assert HyphenAt(|id|, 2) == 18 && HyphenAt(|id|, 3) == 23;
  }

  /** The canonical layout: a 32-character digest gives a 36-character UUID. */
  lemma {:induction false} MakeUuidCanonical(id: string)
    requires |id| == 32
    ensures |MakeUuid(id)| == 36
    ensures MakeUuid(id)[8] == '-' && MakeUuid(id)[13] == '-'
    ensures MakeUuid(id)[18] == '-' && MakeUuid(id)[23] == '-'
  {
    MakeUuidHyphens(id);
  }

  /** Deleting the characters at 8, 13, 18 and 23 of a string of at least 24 characters. */
  function StripHyphens(u: string): (id: string)
    requires |u| >= 24
    ensures |id| == |u| - 4
  {
    u[..8] + u[9..13] + u[14..18] + u[19..23] + u[24..]
  }

  /** Deleting the four hyphens gives back the digest. */
  lemma {:induction false} StripHyphensOfMakeUuid(id: string)
    requires |id| >= 20
    ensures StripHyphens(MakeUuid(id)) == id
  {
    var u := MakeUuid(id);
    MakeUuidCharacters(id);
    var s := StripHyphens(u);
    forall i | 0 <= i < |id|
      ensures s[i] == id[i]
    {
      assert u[i + Shift(i)] == id[i];
    }
  }

  /** Conversely, a string with hyphens at 8, 13, 18 and 23 is what `make_uuid` makes from it
      with the hyphens deleted. */
  lemma {:induction false} MakeUuidOfStripHyphens(u: string)
    requires |u| >= 24
    requires u[8] == '-' && u[13] == '-' && u[18] == '-' && u[23] == '-'
    ensures MakeUuid(StripHyphens(u)) == u
  {
    var id := StripHyphens(u);
    var v := MakeUuid(id);
    MakeUuidCharacters(id);
    assert HyphenAt(|id|, 0) == 8 && HyphenAt(|id|, 1) == 13;
    assert HyphenAt(|id|, 2) == 18 && HyphenAt(|id|, 3) == 23;
    forall j | 0 <= j < |u|
      ensures v[j] == u[j]
    {
      if j != 8 && j != 13 && j != 18 && j != 23 {
        var i := if j < 8 then j else if j < 13 then j - 1 else if j < 18 then j - 2 else if j < 23 then j - 3 else j - 4;
        assert i + Shift(i) == j;
        assert v[j] == id[i];
      }
    }
  }

  /** A digest made of pieces of 8, 4, 4 and 4 characters and a rest gets a hyphen between
      consecutive pieces. */
  lemma {:induction false} MakeUuidPieces(a: string, b: string, c: string, d: string, e: string)
    requires |a| == 8 && |b| == 4 && |c| == 4 && |d| == 4
    ensures MakeUuid(a + b + c + d + e) == a + "-" + b + "-" + c + "-" + d + "-" + e
  {
    var id := a + b + c + d + e;
    assert id[..8] == a && id[8..12] == b && id[12..16] == c && id[16..20] == d && id[20..] == e;
  }

  /** A digest of at most 8 characters is kept whole and followed by the four hyphens. */
  lemma {:induction false} MakeUuidShort(id: string)
    requires |id| <= 8
    ensures MakeUuid(id) == id + "----"
  {
    assert Slice(id, 0, 8) == id;
  }
}
