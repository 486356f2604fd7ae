/** The arithmetic of the positioner: wrap-around normalisation, the wrap
    shift each boundary cell receives, the render offset and the rendered
    number (before its unit is appended). */
module Wrap {
  import opened Numerics

  /** The shift `_shiftCells` gives each cell: cell i receives `shift` exactly
      when the gap, reduced by the extents of the cells before it, is still
      positive, and 0 otherwise. */
  function Shifts(extents: seq<real>, gap: real, shift: int): (r: seq<int>)
    ensures |r| == |extents|
  {
    seq(|extents|, i requires 0 <= i < |extents| => if gap - Sum(extents[..i]) > 0.0 then shift else 0)
  }

  /** With non-negative extents the shifted cells form a prefix: once one cell is
      left unshifted, so is every cell after it. */
  lemma ShiftedCellsFormPrefix(extents: seq<real>, gap: real, shift: int, i: nat, j: nat)
    requires AllNonNegative(extents)
    requires i < j < |extents|
    requires Shifts(extents, gap, shift)[j] == shift != 0
    ensures Shifts(extents, gap, shift)[i] == shift
  {
    SumPrefixMonotone(extents, i, j);
  }

  /** The shifted prefix has an exact length: the number of cells whose start
      still lies inside the gap. */
  lemma ShiftsSplit(extents: seq<real>, gap: real, shift: int, n: nat)
    requires AllNonNegative(extents)
    requires n <= |extents|
    requires n == 0 || gap - Sum(extents[..n - 1]) > 0.0
    requires n == |extents| || gap - Sum(extents[..n]) <= 0.0
    ensures forall i :: 0 <= i < n ==> Shifts(extents, gap, shift)[i] == shift
    ensures forall i :: n <= i < |extents| ==> Shifts(extents, gap, shift)[i] == 0
  {
    forall i | 0 <= i < n
      ensures Shifts(extents, gap, shift)[i] == shift
    {
      if i < n - 1 {
        SumPrefixMonotone(extents, i, n - 1);
      }
    }
    forall i | n <= i < |extents|
      ensures Shifts(extents, gap, shift)[i] == 0
    {
      if n < i {
        SumPrefixMonotone(extents, n, i);
      }
    }
  }

  /** When there is no gap to fill, shifting clears every cell, exactly as
      `_unshiftCells` does. */
  lemma ShiftsWithoutGapClear(extents: seq<real>, gap: real, shift: int)
    requires AllNonNegative(extents)
    requires gap <= 0.0
    ensures forall i :: 0 <= i < |extents| ==> Shifts(extents, gap, shift)[i] == 0
  {
    forall i | 0 <= i < |extents|
      ensures Shifts(extents, gap, shift)[i] == 0
    {
      SumPrefixNonNegative(extents, i);
    }
  }

  /** A gap wider than all the cells together shifts every cell. */
  lemma ShiftsWithWideGapShiftAll(extents: seq<real>, gap: real, shift: int)
    requires AllNonNegative(extents)
    requires Sum(extents) < gap
    ensures forall i :: 0 <= i < |extents| ==> Shifts(extents, gap, shift)[i] == shift
  {
    forall i | 0 <= i < |extents|
      ensures Shifts(extents, gap, shift)[i] == shift
    {
      assert extents[..|extents|] == extents;
      SumPrefixMonotone(extents, i, |extents|);
    }
  }

  /** The wrap-around normalisation of positionSlider: modulo(x, w) - w. */
  function WrapPosition(x: real, w: real): (r: real)
    requires 0.0 < w
    ensures -w <= r < 0.0
    ensures Congruent(x, r, w)
  {
    var m := Modulo(x, w);
    var k :| x - m == Multiple(k, w);
    CongruentBy(x, m - w, w, k + 1);
    m - w
  }

  /** WrapPosition is the only value in [-w, 0) congruent to x. */
  lemma {:induction false} WrapPositionUnique(x: real, w: real, r: real)
    requires 0.0 < w
    requires -w <= r < 0.0
    requires Congruent(x, r, w)
    ensures r == WrapPosition(x, w)
  {
    var k :| x - r == Multiple(k, w);
    CongruentBy(x, r + w, w, k - 1);
    ModuloUnique(x, w, r + w);
  }

  /** A position already inside [-w, 0) is left where it is. */
  lemma {:induction false} WrapPositionIdempotent(x: real, w: real)
    requires 0.0 < w
    ensures WrapPosition(WrapPosition(x, w), w) == WrapPosition(x, w)
  {
    var r := WrapPosition(x, w);
    CongruentBy(r, r, w, 0);
    WrapPositionUnique(r, w, r);
  }

  /** Moving by a whole track length does not change the normalised position. */
  lemma {:induction false} WrapPositionPeriodic(x: real, w: real)
    requires 0.0 < w
    ensures WrapPosition(x + w, w) == WrapPosition(x, w)
  {
    var r := WrapPosition(x, w);
    var k :| x - r == Multiple(k, w);
    CongruentBy(x + w, r, w, k + 1);
    WrapPositionUnique(x + w, w, r);
  }

  /** A track of three 300-wide cells (w = 900): position 950 normalises to -850. */
  lemma {:induction false} WrapPositionExample()
    ensures WrapPosition(950.0, 900.0) == -850.0
  {
    CongruentBy(950.0, -850.0, 900.0, 2);
    WrapPositionUnique(950.0, 900.0, -850.0);
  }

  /** The offset positionSlider renders: the (wrapped when wrap-around is on)
      position, plus the cursor offset, negated for right-to-left layouts. */
  function RenderOffset(x: real, wrap: bool, w: real, cursor: real, rightToLeft: bool): (r: real)
    requires wrap ==> 0.0 < w
    ensures wrap ==> (if rightToLeft then -r else r) - cursor == WrapPosition(x, w)
    ensures !wrap ==> (if rightToLeft then -r else r) == x + cursor
  {
    var p := (if wrap then WrapPosition(x, w) else x) + cursor;
    if rightToLeft then -p else p
  }

  /** With wrap-around on, the rendered offset lies within one track length
      below the cursor (above it, negated, for right-to-left). */
  lemma {:induction false} RenderOffsetBounds(x: real, w: real, cursor: real)
    requires 0.0 < w
    ensures cursor - w <= RenderOffset(x, true, w, cursor, false) < cursor
    ensures -cursor < RenderOffset(x, true, w, cursor, true) <= w - cursor
  {
    var r := WrapPosition(x, w);
    assert RenderOffset(x, true, w, cursor, false) == r + cursor;
    assert RenderOffset(x, true, w, cursor, true) == -(r + cursor);
  }

  /** The number getPositionValue renders: in percent mode the position as a
      percentage of the viewport width with two decimals, otherwise the
      position rounded to whole pixels. */
  function PositionValue(p: real, percent: bool, innerWidth: real): (r: real)
    requires percent ==> innerWidth != 0.0
    ensures percent ==> -0.005 < r - p / innerWidth * 100.0 <= 0.005
    ensures percent ==> (r * 100.0).Floor as real == r * 100.0
    ensures !percent ==> -0.5 < r - p <= 0.5 && r.Floor as real == r
  {
    if percent then Round(p / innerWidth * 10000.0) as real * 0.01 else Round(p) as real
  }

  /** A viewport of 500 renders position 125 as 25 percent; position 123.6
      renders as 124 pixels. */
  lemma PositionValueExamples(innerWidth: real)
    ensures PositionValue(125.0, true, 500.0) == 25.0
    ensures PositionValue(123.6, false, innerWidth) == 124.0
  {
    RoundUnique(125.0 / 500.0 * 10000.0, 2500);
    RoundUnique(123.6, 124);
  }
}
