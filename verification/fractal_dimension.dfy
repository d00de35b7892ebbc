/** Post-processing of `fractal_dimension`: box counts at the fixed sizes 2, 4,
    ..., 64 over an edge map, the filter that keeps only sizes with a positive
    count, the degenerate result 1.0 when fewer than two sizes remain, and the
    clamp of the negated log-log slope into [1.0, 2.0]. The least-squares fit
    itself is a parameter `fit` that maps the kept points to a slope. */
module FractalDimension {
  import opened Grids
  import opened BoxCounting

  /** `box_sizes = [2, 4, 8, 16, 32, 64]`. */
  const BoxSizes: seq<nat> := [2, 4, 8, 16, 32, 64]

  /** A scale point kept for the regression: a box size and its (positive) count. */
  datatype Point = Point(size: nat, count: nat)

  /** Strictly increasing sequence of sizes. */
  predicate Increasing(s: seq<nat>) {
    forall a, b :: 0 <= a < b < |s| ==> s[a] < s[b]
  }

  /** The sizes of a sequence of points, in order. */
  function Sizes(pts: seq<Point>): (r: seq<nat>)
    ensures |r| == |pts| && forall t :: 0 <= t < |pts| ==> r[t] == pts[t].size
  {
    if pts == [] then [] else [pts[0].size] + Sizes(pts[1..])
  }

  /** How many counts are positive. */
  function NumPositive(counts: seq<nat>): nat {
    if counts == [] then 0
    else (if counts[0] > 0 then 1 else 0) + NumPositive(counts[1..])
  }

  /** `valid = counts > 0; box_sizes[valid], counts[valid]`, paired up. */
  function ValidPoints(sizes: seq<nat>, counts: seq<nat>): (pts: seq<Point>)
    requires |sizes| == |counts|
    decreases |counts|
    ensures |pts| == NumPositive(counts)
    ensures forall t :: 0 <= t < |pts| ==> pts[t].count > 0
    ensures forall i :: 0 <= i < |sizes| && counts[i] > 0 ==> Point(sizes[i], counts[i]) in pts
    ensures forall p :: p in pts ==> exists i :: 0 <= i < |sizes| && p == Point(sizes[i], counts[i])
  {
    if sizes == [] then []
    else
      var rest := ValidPoints(sizes[1..], counts[1..]);
      assert forall i :: 1 <= i < |sizes| ==> sizes[i] == sizes[1..][i - 1] && counts[i] == counts[1..][i - 1];
      if counts[0] > 0 then [Point(sizes[0], counts[0])] + rest else rest
  }

  /** The filter keeps the original increasing order of the box sizes. */
  lemma {:induction false} ValidPointsKeepOrder(sizes: seq<nat>, counts: seq<nat>)
    requires |sizes| == |counts| && Increasing(sizes)
    ensures Increasing(Sizes(ValidPoints(sizes, counts)))
    decreases |sizes|
  {
    if sizes != [] && counts[0] > 0 {
      var rest := ValidPoints(sizes[1..], counts[1..]);
      ValidPointsKeepOrder(sizes[1..], counts[1..]);
      LaterSizesAbove(sizes, counts);
      var pts := ValidPoints(sizes, counts);
      assert pts == [Point(sizes[0], counts[0])] + rest;
      assert Sizes(pts) == [sizes[0]] + Sizes(rest);
    } else if sizes != [] {
      ValidPointsKeepOrder(sizes[1..], counts[1..]);
    }
  }

  /** Every point kept from the tail has a size above the first size. */
  lemma LaterSizesAbove(sizes: seq<nat>, counts: seq<nat>)
    requires |sizes| == |counts| > 0 && Increasing(sizes)
    ensures forall p :: p in ValidPoints(sizes[1..], counts[1..]) ==> sizes[0] < p.size
  {
    var rest := ValidPoints(sizes[1..], counts[1..]);
    forall p | p in rest ensures sizes[0] < p.size {
      var i :| 0 <= i < |sizes[1..]| && p == Point(sizes[1..][i], counts[1..][i]);
      assert sizes[1..][i] == sizes[i + 1];
    }
  }

  /** `np.clip(x, lo, hi)`. */
  function Clip(x: real, lo: real, hi: real): (r: real)
    requires lo <= hi
    ensures lo <= r <= hi
    ensures lo <= x <= hi ==> r == x
    ensures x < lo ==> r == lo
    ensures hi < x ==> r == hi
  {
    if x < lo then lo else if x > hi then hi else x
  }

  /** The tail of `fractal_dimension` once the valid points are known: the
      degenerate value 1.0 for fewer than two points, otherwise the negated
      slope clamped into [1.0, 2.0]. */
  function DimensionOfPoints(pts: seq<Point>, fit: seq<Point> -> real): (fd: real)
    ensures 1.0 <= fd <= 2.0
    ensures |pts| < 2 ==> fd == 1.0
    ensures |pts| >= 2 && 1.0 <= -fit(pts) <= 2.0 ==> fd == -fit(pts)
  {
    if |pts| < 2 then 1.0 else Clip(-fit(pts), 1.0, 2.0)
  }

  /** The value `fractal_dimension` returns for the counts at `BoxSizes`, with
      `fit` standing for the slope of the log-log least-squares line: always in
      [1.0, 2.0], and exactly 1.0 when fewer than two sizes have a positive
      count, whatever the fitted slope. */
  function DimensionFromCounts(counts: seq<nat>, fit: seq<Point> -> real): (fd: real)
    requires |counts| == |BoxSizes|
    ensures 1.0 <= fd <= 2.0
    ensures NumPositive(counts) < 2 ==> fd == 1.0
  {
    DimensionOfPoints(ValidPoints(BoxSizes, counts), fit)
  }

  /** The points handed to the fit are the positive counts, in increasing box size. */
  lemma FitInputOrdered(counts: seq<nat>)
    requires |counts| == |BoxSizes|
    ensures Increasing(Sizes(ValidPoints(BoxSizes, counts)))
  {
    BoxSizesIncreasing();
    ValidPointsKeepOrder(BoxSizes, counts);
  }

  lemma BoxSizesIncreasing()
    ensures Increasing(BoxSizes)
  {
  }

  /** The counts `fractal_dimension` collects: one `box_count` per size. */
  function ScaleCountsOf(edges: Grid): (counts: seq<nat>)
    requires Rectangular(edges)
    ensures |counts| == |BoxSizes|
  {
    seq(|BoxSizes|, t requires 0 <= t < |BoxSizes| => BoxCountOf(edges, BoxSizes[t]))
  }

  /** The loop of `fractal_dimension` that appends `box_count(edges, size)` for each size. */
  method ScaleCounts(edges: Grid) returns (counts: seq<nat>)
    requires Rectangular(edges)
    ensures |counts| == |BoxSizes|
    ensures forall t :: 0 <= t < |BoxSizes| ==> counts[t] == BoxCountOf(edges, BoxSizes[t])
  {
    counts := [];
    for t := 0 to |BoxSizes|
      invariant |counts| == t
      invariant forall u :: 0 <= u < t ==> counts[u] == BoxCountOf(edges, BoxSizes[u])
    {
      var count := BoxCount(edges, BoxSizes[t]);
      counts := counts + [count];
    }
  }

  /** `fractal_dimension` on an edge map (the Canny step is the caller's). */
  method Dimension(edges: Grid, fit: seq<Point> -> real) returns (fd: real)
    requires Rectangular(edges)
    ensures fd == DimensionFromCounts(ScaleCountsOf(edges), fit)
    ensures 1.0 <= fd <= 2.0
  {
    var counts := ScaleCounts(edges);
    assert counts == ScaleCountsOf(edges);
    var pts := ValidPoints(BoxSizes, counts);
    if |pts| < 2 {
      fd := 1.0;
    } else {
      var slope := fit(pts);
      fd := Clip(-slope, 1.0, 2.0);
    }
  }

  lemma {:induction false} AllZeroNumPositive(counts: seq<nat>)
    requires forall t :: 0 <= t < |counts| ==> counts[t] == 0
    ensures NumPositive(counts) == 0
  {
    if counts != [] {
      AllZeroNumPositive(counts[1..]);
    }
  }

  /** A constant edge map (all 0, all 255 or any single value) has every cell
      uniform at every size, so all counts 0 and dimension 1.0. */
  lemma ConstantEdgesDimensionOne(edges: Grid, v: int, fit: seq<Point> -> real)
    requires Rectangular(edges) && Constant(edges, v)
    ensures DimensionFromCounts(ScaleCountsOf(edges), fit) == 1.0
  {
    var counts := ScaleCountsOf(edges);
    forall t | 0 <= t < |counts| ensures counts[t] == 0 {
      ConstantImageCountsZero(edges, v, BoxSizes[t]);
    }
    AllZeroNumPositive(counts);
  }
}
