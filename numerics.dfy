/** Arithmetic helpers the animation code relies on: JavaScript's Math.round,
    the floored modulo of the utility library, and prefix sums of cell extents. */
module Numerics {

  /** Math.round: the nearest integer, halves rounded up (towards +infinity). */
  function Round(v: real): (r: int)
    ensures v - 0.5 < r as real <= v + 0.5
  {
    (v + 0.5).Floor
  }

  /** The nearest-integer property above determines Math.round uniquely. */
  lemma RoundUnique(v: real, n: int)
    requires v - 0.5 < n as real <= v + 0.5
    ensures Round(v) == n
  {
    var r := Round(v);
    assert (r - n) as real < 1.0 && (n - r) as real < 1.0;
  }

  /** The k-th multiple of a wrap length. */
  function Multiple(k: int, w: real): real
  {
    k as real * w
  }

  /** a and b differ by a whole number of wrap lengths w. */
  ghost predicate Congruent(a: real, b: real, w: real)
  {
    exists k: int :: a - b == Multiple(k, w)
  }

  lemma CongruentBy(a: real, b: real, w: real, k: int)
    requires a - b == Multiple(k, w)
    ensures Congruent(a, b, w)
  {
  }

  /** The floored modulo of the utility library: the representative of x in [0, w). */
  function Modulo(x: real, w: real): (r: real)
    requires 0.0 < w
    ensures 0.0 <= r < w
    ensures Congruent(x, r, w)
  {
    var k := (x / w).Floor;
    FloorScaled(x, w);
    CongruentBy(x, x - Multiple(k, w), w, k);
    x - Multiple(k, w)
  }

  /** The multiple of w selected by flooring x / w lies within one w below x. */
  lemma FloorScaled(x: real, w: real)
    requires 0.0 < w
    ensures Multiple((x / w).Floor, w) <= x < Multiple((x / w).Floor, w) + w
  {
    var q := x / w;
    var k := q.Floor;
    assert q * w == x;
    assert k as real <= q < k as real + 1.0;
    ScaleMonotone(k as real, q, w);
    ScaleMonotone(q, k as real + 1.0, w);
    assert q * w < (k as real + 1.0) * w;
    assert (k as real + 1.0) * w == k as real * w + w;
    assert x < Multiple(k, w) + w;
  }

  /** Two multiples of w that lie less than w apart are the same multiple. */
  lemma MultiplesApart(i: int, j: int, w: real)
    requires 0.0 < w
    requires -w < Multiple(i, w) - Multiple(j, w) < w
    ensures i == j
  {
    var d := (i - j) as real;
    assert Multiple(i, w) - Multiple(j, w) == d * w;
    ScaleMonotone(d, 1.0, w);
    ScaleMonotone(-1.0, d, w);
  }

  /** Scaling by a positive factor preserves order, strict and non-strict. */
  lemma ScaleMonotone(a: real, b: real, w: real)
    requires 0.0 < w
    ensures a <= b <==> a * w <= b * w
    ensures a < b <==> a * w < b * w
  {
    assert b * w - a * w == (b - a) * w;
  }

  /** Modulo is the only value in [0, w) congruent to x. */
  lemma {:induction false} ModuloUnique(x: real, w: real, r: real)
    requires 0.0 < w
    requires 0.0 <= r < w
    requires Congruent(x, r, w)
    ensures r == Modulo(x, w)
  {
    var m := Modulo(x, w);
    var i :| x - r == Multiple(i, w);
    var j :| x - m == Multiple(j, w);
    MultiplesApart(i, j, w);
  }

  /** The sum of a sequence of extents, peeled from the end so that a loop
      walking left to right extends it one element at a time. */
  function Sum(s: seq<real>): real
  {
    if s == [] then 0.0 else Sum(s[..|s| - 1]) + s[|s| - 1]
  }

  ghost predicate AllNonNegative(s: seq<real>)
  {
    forall k :: 0 <= k < |s| ==> 0.0 <= s[k]
  }

  /** With non-negative extents, a longer prefix has a sum at least as large. */
  lemma {:induction false} SumPrefixMonotone(s: seq<real>, i: nat, j: nat)
    requires AllNonNegative(s)
    requires i <= j <= |s|
    ensures Sum(s[..i]) <= Sum(s[..j])
    decreases j
  {
    if i < j {
      assert s[..j][..j - 1] == s[..j - 1];
      SumPrefixMonotone(s, i, j - 1);
    }
  }

  /** With non-negative extents, every prefix has a non-negative sum. */
  lemma SumPrefixNonNegative(s: seq<real>, i: nat)
    requires AllNonNegative(s)
    requires i <= |s|
    ensures 0.0 <= Sum(s[..i])
  {
    assert s[..0] == [];
    SumPrefixMonotone(s, 0, i);
  }
}
