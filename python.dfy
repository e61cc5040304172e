/** The Python built-ins the cleaning helpers rely on, with Python's own semantics. */
module Python {

  /** The exceptions a helper can raise. */
  datatype PyError = ZeroDivisionError

  datatype Result<+T> = Ok(value: T) | Err(error: PyError)

  /** Normalises one bound of a slice `s[a:b]` (step 1) for a sequence of length `n`:
      a negative bound counts from the end, and a bound outside the sequence is clamped. */
  function SliceBound(a: int, n: nat): (j: nat)
    ensures j <= n
    ensures 0 <= a <= n ==> j == a
  {
    if a < 0 then (if a + n < 0 then 0 else a + n)
    else if a > n then n
    else a
  }

  /** Python's `s[a:b]`: it never fails, and an empty or reversed range gives the empty sequence. */
  function Slice<T>(s: seq<T>, a: int, b: int): (r: seq<T>)
    ensures |r| <= |s|
    ensures 0 <= a <= b <= |s| ==> r == s[a..b]
    ensures 0 <= b <= a ==> r == []
  {
    var lo, hi := SliceBound(a, |s|), SliceBound(b, |s|);
    if lo < hi then s[lo..hi] else []
  }

  /** Python 3's `round` applied to the exact quotient `p / q`: the nearest integer,
      and on a tie the even one ("banker's rounding"). */
  function RoundHalfEven(p: int, q: int): (m: int)
    requires q > 0
    ensures q * (2 * m - 1) <= 2 * p <= q * (2 * m + 1)
    ensures 2 * p == q * (2 * m - 1) || 2 * p == q * (2 * m + 1) ==> m % 2 == 0
  {
    var f, r := p / q, p % q;
    FloorFacts(p, q);
    if 2 * r < q then f
    else if 2 * r > q then f + 1
    else if f % 2 == 0 then f
    else f + 1
  }

  /** The quotient and remainder of `p / q`, and the products `RoundHalfEven` compares with. */
  lemma {:induction false} FloorFacts(p: int, q: int)
    requires q > 0
    ensures p == q * (p / q) + p % q && 0 <= p % q < q
    ensures q * (2 * (p / q) - 1) == 2 * (q * (p / q)) - q
    ensures q * (2 * (p / q) + 1) == 2 * (q * (p / q)) + q
    ensures q * (2 * (p / q + 1) - 1) == 2 * (q * (p / q)) + q
    ensures q * (2 * (p / q + 1) + 1) == 2 * (q * (p / q)) + 3 * q
  {
  }

  lemma {:induction false} MulPositive(q: int, d: int)
    requires q > 0 && d > 0
    ensures q * d > 0
  {
  }

  /** A positive factor can be cancelled from both sides of `<=`. */
  lemma {:induction false} MulCancel(q: int, a: int, b: int)
    requires q > 0 && q * a <= q * b
    ensures a <= b
  {
    assert q * a - q * b == q * (a - b);
    if a > b {
      MulPositive(q, a - b);
    }
  }

  /** The two postconditions of RoundHalfEven single out one integer. */
  lemma {:induction false} RoundHalfEvenUnique(p: int, q: int, m: int)
    requires q > 0
    requires q * (2 * m - 1) <= 2 * p <= q * (2 * m + 1)
    requires 2 * p == q * (2 * m - 1) || 2 * p == q * (2 * m + 1) ==> m % 2 == 0
    ensures m == RoundHalfEven(p, q)
  {
    var n := RoundHalfEven(p, q);
    MulCancel(q, 2 * m - 1, 2 * n + 1);
    MulCancel(q, 2 * n - 1, 2 * m + 1);
    assert m == n + 1 ==> q * (2 * m - 1) == q * (2 * n + 1);
    assert n == m + 1 ==> q * (2 * n - 1) == q * (2 * m + 1);
  }

  /** Rounding is monotone in the numerator. */
  lemma {:induction false} RoundHalfEvenMonotone(p1: int, p2: int, q: int)
    requires q > 0 && p1 <= p2
    ensures RoundHalfEven(p1, q) <= RoundHalfEven(p2, q)
  {
    var m1, m2 := RoundHalfEven(p1, q), RoundHalfEven(p2, q);
    MulCancel(q, 2 * m1 - 1, 2 * m2 + 1);
    assert m1 == m2 + 1 ==> q * (2 * m1 - 1) == q * (2 * m2 + 1);
  }

  /** `round(x * q / q) == x`. */
  lemma {:induction false} RoundHalfEvenExact(x: int, q: int)
    requires q > 0
    ensures RoundHalfEven(x * q, q) == x
  {
    assert q * (2 * x - 1) <= 2 * (x * q) <= q * (2 * x + 1);
    assert 2 * (x * q) != q * (2 * x - 1) && 2 * (x * q) != q * (2 * x + 1);
    RoundHalfEvenUnique(x * q, q, x);
  }

  // ---------------------------------------------------------------------------
  // Strings

  /** Python's `str.isspace` for one character (the whitespace `str.strip()` removes). */
  predicate IsSpace(c: char)
    ensures c == ' ' || c == '\t' || c == '\n' || c == '\r' ==> IsSpace(c)
    ensures 'a' <= c <= 'z' || 'A' <= c <= 'Z' || '0' <= c <= '9' || c == '_' ==> !IsSpace(c)
  {
    var n := c as int;
    || n == 0x20 || 0x09 <= n <= 0x0D || 0x1C <= n <= 0x1F || n == 0x85 || n == 0xA0
    || n == 0x1680 || 0x2000 <= n <= 0x200A || n == 0x2028 || n == 0x2029 || n == 0x202F
    || n == 0x205F || n == 0x3000
  }

  /** How many whitespace characters `s` starts with. */
  function LeadingSpaces(s: string): (a: nat)
    ensures a <= |s|
    ensures forall i :: 0 <= i < a ==> IsSpace(s[i])
    ensures a < |s| ==> !IsSpace(s[a])
  {
    if s == [] || !IsSpace(s[0]) then 0 else 1 + LeadingSpaces(s[1..])
  }

  /** How many whitespace characters `s` ends with. */
  function TrailingSpaces(s: string): (b: nat)
    ensures b <= |s|
    ensures forall i :: |s| - b <= i < |s| ==> IsSpace(s[i])
    ensures b < |s| ==> !IsSpace(s[|s| - 1 - b])
  {
    if s == [] || !IsSpace(s[|s| - 1]) then 0 else 1 + TrailingSpaces(s[..|s| - 1])
  }

  /** Python's `str.strip()`: `s` without its leading and trailing whitespace. */
  function Strip(s: string): (r: string)
    ensures exists a, b :: (0 <= a <= b <= |s| && r == s[a..b] &&
      (forall i :: 0 <= i < a ==> IsSpace(s[i])) && (forall i :: b <= i < |s| ==> IsSpace(s[i])))
    ensures r != [] ==> !IsSpace(r[0]) && !IsSpace(r[|r| - 1])
  {
    var a := LeadingSpaces(s);
    var b := |s| - TrailingSpaces(s[a..]);
    StripBounds(s);
    s[a..b]
  }

  /** The part `strip()` keeps lies between the leading and the trailing whitespace. */
  lemma {:induction false} StripBounds(s: string)
    ensures 0 <= LeadingSpaces(s) <= |s| - TrailingSpaces(s[LeadingSpaces(s)..]) <= |s|
    ensures forall i :: |s| - TrailingSpaces(s[LeadingSpaces(s)..]) <= i < |s| ==> IsSpace(s[i])
    ensures LeadingSpaces(s) < |s| - TrailingSpaces(s[LeadingSpaces(s)..]) ==>
      !IsSpace(s[LeadingSpaces(s)]) && !IsSpace(s[|s| - TrailingSpaces(s[LeadingSpaces(s)..]) - 1])
  {
    var a := LeadingSpaces(s);
    var t := s[a..];
    var n := TrailingSpaces(t);
    assert |t| == |s| - a && n <= |t|;
    forall i | |s| - n <= i < |s|
      ensures IsSpace(s[i])
    {
      assert s[i] == t[i - a];
    }
    if n < |t| {
      assert s[|s| - n - 1] == t[|t| - 1 - n];
    }
  }

  /** Stripping a string that neither starts nor ends with whitespace changes nothing. */
  lemma {:induction false} StripTrimmed(s: string)
    requires s != [] ==> !IsSpace(s[0]) && !IsSpace(s[|s| - 1])
    ensures Strip(s) == s
  {
    var a := LeadingSpaces(s);
    assert a == 0;
    assert TrailingSpaces(s[a..]) == 0 by { assert s[a..] == s; }
  }

  /** Python's `str.lower()` on one character, for the ASCII letters. */
  function LowerChar(c: char): (d: char)
    ensures 'A' <= c <= 'Z' ==> d as int == c as int + 32
    ensures !('A' <= c <= 'Z') ==> d == c
  {
    if 'A' <= c <= 'Z' then (c as int + 32) as char else c
  }

  /** Python's `str.lower()`, character by character. */
  function Lower(s: string): (r: string)
    ensures |r| == |s|
    ensures forall i :: 0 <= i < |s| ==> r[i] == LowerChar(s[i])
    ensures forall i :: 0 <= i < |r| ==> !('A' <= r[i] <= 'Z')
  {
    seq(|s|, i requires 0 <= i < |s| => LowerChar(s[i]))
  }

  /** Lower-casing twice is lower-casing once, and creates no whitespace and removes none. */
  lemma {:induction false} LowerIdempotent(s: string)
    ensures Lower(Lower(s)) == Lower(s)
    ensures forall i :: 0 <= i < |s| ==> (IsSpace(Lower(s)[i]) <==> IsSpace(s[i]))
  {
  }

  /** Python's `s.replace(pat, rep)`: every non-overlapping occurrence of `pat`, scanning
      from the left, is replaced by `rep`; an empty `pat` inserts `rep` around every character. */
  function Replace(s: string, pat: string, rep: string): (r: string)
    ensures |pat| == |rep| ==> |r| == |s|
    decreases |s|
  {
    if |pat| == 0 then rep + (if s == [] then [] else [s[0]] + Replace(s[1..], pat, rep))
    else if |s| < |pat| then s
    else if s[..|pat|] == pat then rep + Replace(s[|pat|..], pat, rep)
    else [s[0]] + Replace(s[1..], pat, rep)
  }

  /** Replacing one character by another works position by position. */
  lemma {:induction false} ReplaceChar(s: string, c: char, d: char)
    ensures |Replace(s, [c], [d])| == |s|
    ensures forall i :: 0 <= i < |s| ==> Replace(s, [c], [d])[i] == if s[i] == c then d else s[i]
  {
    if s != [] {
      ReplaceChar(s[1..], c, d);
      assert s[..1] == [s[0]];
    }
  }

  /** `t` occurs in `s` as a contiguous piece. */
  predicate Contains(s: string, t: string) {
    exists i | 0 <= i <= |s| :: OccursAt(s, t, i)
  }

  /** `t` occurs in `s` starting at position `i`. */
  predicate OccursAt(s: string, t: string, i: int) {
    0 <= i && i + |t| <= |s| && s[i..i + |t|] == t
  }
}
