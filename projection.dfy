/** Projection profiles of a binary mask (foreground = 1, background = 0).
    The horizontal profile has one entry per row, the vertical profile one
    per column; an entry at or below the noise threshold is collapsed to 0. */
module Projection {

  /** A row-major pixel grid; for a mask every value is 0 or 1. */
  type Matrix = seq<seq<int>>

  /** Number of columns: the length of the first row (0 for a matrix without rows). */
  function Width(m: Matrix): nat {
    if |m| == 0 then 0 else |m[0]|
  }

  predicate IsRectangular(m: Matrix) {
    forall i :: 0 <= i < |m| ==> |m[i]| == Width(m)
  }

  predicate IsBinaryRow(r: seq<int>) {
    forall j :: 0 <= j < |r| ==> r[j] == 0 || r[j] == 1
  }

  /** The output contract of the binarization step: rectangular, values in {0, 1}. */
  predicate IsBinaryMask(m: Matrix) {
    IsRectangular(m) && forall i :: 0 <= i < |m| ==> IsBinaryRow(m[i])
  }

  function Sum(xs: seq<int>): int {
    if |xs| == 0 then 0 else Sum(xs[..|xs| - 1]) + xs[|xs| - 1]
  }

  /** Column j of m, top to bottom. */
  function Column(m: Matrix, j: nat): (c: seq<int>)
    requires forall i :: 0 <= i < |m| ==> j < |m[i]|
    ensures |c| == |m|
    ensures forall i :: 0 <= i < |m| ==> c[i] == m[i][j]
  {
    seq(|m|, i requires 0 <= i < |m| => m[i][j])
  }

  /** The default threshold of horizontal_projection and vertical_projection. */
  const DefaultThreshold := 5

  /** The noise floor: a sum survives only when it is strictly above the threshold. */
  function NoiseFloor(sum: int, threshold: int): int {
    if sum > threshold then sum else 0
  }

  /** Sum along axis 1 (one entry per row), then the noise floor. */
  function HorizontalProjection(mask: Matrix, threshold: int): (r: seq<int>)
    ensures |r| == |mask|
    ensures forall i :: 0 <= i < |r| ==> r[i] == 0 || (r[i] == Sum(mask[i]) && Sum(mask[i]) > threshold)
    ensures forall i :: 0 <= i < |r| && Sum(mask[i]) > threshold ==> r[i] == Sum(mask[i])
  {
    seq(|mask|, i requires 0 <= i < |mask| => NoiseFloor(Sum(mask[i]), threshold))
  }

  /** Sum along axis 0 (one entry per column), then the noise floor. */
  function VerticalProjection(mask: Matrix, threshold: int): (r: seq<int>)
    requires IsRectangular(mask)
    ensures |r| == Width(mask)
    ensures forall j :: 0 <= j < |r| ==>
              r[j] == 0 || (r[j] == Sum(Column(mask, j)) && Sum(Column(mask, j)) > threshold)
    ensures forall j :: 0 <= j < |r| && Sum(Column(mask, j)) > threshold ==> r[j] == Sum(Column(mask, j))
  {
    seq(Width(mask), j requires 0 <= j < Width(mask) => NoiseFloor(Sum(Column(mask, j)), threshold))
  }

  /** The sum of a 0/1 row is its number of foreground pixels, at most its length. */
  lemma {:induction false} SumCountsForeground(r: seq<int>)
    requires IsBinaryRow(r)
    ensures Sum(r) == multiset(r)[1]
    ensures 0 <= Sum(r) <= |r|
  {
    if |r| > 0 {
      var init := r[..|r| - 1];
      assert r == init + [r[|r| - 1]];
      SumCountsForeground(init);
    }
  }

  /** Every horizontal entry is the row's foreground count when that count is
      above the threshold and 0 otherwise, so it never exceeds the width. */
  lemma HorizontalCountsForeground(mask: Matrix, threshold: int)
    requires IsBinaryMask(mask)
    ensures forall i :: 0 <= i < |mask| ==>
              HorizontalProjection(mask, threshold)[i] ==
                (if multiset(mask[i])[1] > threshold then multiset(mask[i])[1] else 0)
    ensures forall i :: 0 <= i < |mask| ==> 0 <= HorizontalProjection(mask, threshold)[i] <= Width(mask)
  {
    forall i | 0 <= i < |mask|
      ensures HorizontalProjection(mask, threshold)[i] ==
                (if multiset(mask[i])[1] > threshold then multiset(mask[i])[1] else 0)
      ensures 0 <= HorizontalProjection(mask, threshold)[i] <= Width(mask)
    {
      SumCountsForeground(mask[i]);
    }
  }

  /** Every vertical entry is the column's foreground count when above the
      threshold and 0 otherwise, so it never exceeds the number of rows. */
  lemma VerticalCountsForeground(mask: Matrix, threshold: int)
    requires IsBinaryMask(mask)
    ensures forall j :: 0 <= j < Width(mask) ==>
              VerticalProjection(mask, threshold)[j] ==
                (if multiset(Column(mask, j))[1] > threshold then multiset(Column(mask, j))[1] else 0)
    ensures forall j :: 0 <= j < Width(mask) ==> 0 <= VerticalProjection(mask, threshold)[j] <= |mask|
  {
    forall j | 0 <= j < Width(mask)
      ensures VerticalProjection(mask, threshold)[j] ==
                (if multiset(Column(mask, j))[1] > threshold then multiset(Column(mask, j))[1] else 0)
      ensures 0 <= VerticalProjection(mask, threshold)[j] <= |mask|
    {
      SumCountsForeground(Column(mask, j));
    }
  }

  /** Row totals and column totals of a rectangular grid of width w. */
  function RowTotals(m: Matrix): (r: seq<int>)
    ensures |r| == |m|
  {
    seq(|m|, i requires 0 <= i < |m| => Sum(m[i]))
  }

  function ColumnTotals(m: Matrix, w: nat): (c: seq<int>)
    requires forall i :: 0 <= i < |m| ==> |m[i]| == w
    ensures |c| == w
  {
    seq(w, j requires 0 <= j < w => Sum(Column(m, j)))
  }

  lemma {:induction false} SumPointwise(a: seq<int>, b: seq<int>, c: seq<int>)
    requires |a| == |b| == |c|
    requires forall k :: 0 <= k < |c| ==> c[k] == a[k] + b[k]
    ensures Sum(c) == Sum(a) + Sum(b)
  {
    if |c| > 0 {
      var n := |c| - 1;
      SumPointwise(a[..n], b[..n], c[..n]);
    }
  }

  /** Both unthresholded profiles count the same ink: the sum of the row sums
      equals the sum of the column sums. */
  lemma {:induction false} RowAndColumnTotalsAgree(m: Matrix, w: nat)
    requires forall i :: 0 <= i < |m| ==> |m[i]| == w
    ensures Sum(RowTotals(m)) == Sum(ColumnTotals(m, w))
  {
    if |m| == 0 {
      var zeros := ColumnTotals(m, w);
      var k := 0;
      while k < w
        invariant 0 <= k <= w
        invariant Sum(zeros[..k]) == 0
      {
        assert zeros[..k + 1][..k] == zeros[..k];
        k := k + 1;
      }
      assert zeros[..w] == zeros;
    } else {
      var n := |m| - 1;
      var init, row := m[..n], m[n];
      RowAndColumnTotalsAgree(init, w);
      assert RowTotals(m)[..n] == RowTotals(init);
      var before, after := ColumnTotals(init, w), ColumnTotals(m, w);
      forall j | 0 <= j < w
        ensures after[j] == before[j] + row[j]
      {
        assert Column(m, j)[..n] == Column(init, j);
      }
      SumPointwise(before, row, after);
    }
  }

  /** The totals are the profiles without their noise floor: for a 0/1 mask
      every sum is at least 0, so a threshold of -1 keeps each one. */
  lemma TotalsAreUnthresholdedProfiles(mask: Matrix)
    requires IsBinaryMask(mask)
    ensures RowTotals(mask) == HorizontalProjection(mask, -1)
    ensures ColumnTotals(mask, Width(mask)) == VerticalProjection(mask, -1)
  {
    forall i | 0 <= i < |mask| ensures Sum(mask[i]) >= 0 {
      SumCountsForeground(mask[i]);
    }
    forall j | 0 <= j < Width(mask) ensures Sum(Column(mask, j)) >= 0 {
      SumCountsForeground(Column(mask, j));
    }
  }
}
