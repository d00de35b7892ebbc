/** Box counting over an edge map (`box_count`): the image is tiled with
    non-overlapping `k`-by-`k` cells over its largest area divisible by `k`, and
    a cell is counted when its pixels are not all equal (its maximum minus its
    minimum is positive). */
module BoxCounting {
  import opened Grids

  /** Cell `(i, j)` of side `k` lies wholly inside the trimmed area. */
  predicate IsCell(g: Grid, k: nat, i: nat, j: nat) {
    k >= 1 && i < Height(g) / k && j < Width(g) / k
  }

  /** The pixels of cell `(i, j)`: `image[i*k:(i+1)*k, j*k:(j+1)*k]`. */
  function Cell(g: Grid, k: nat, i: nat, j: nat): (s: seq<int>)
    requires Rectangular(g) && IsCell(g, k, i, j)
    ensures |s| > 0
  {
    CellFits(i, k, Height(g));
    CellFits(j, k, Width(g));
    var top, left := i * k, j * k;
    Region(g, top, top + k, left, left + k)
  }

  /** The counting test of `box_count`, `box.max() - box.min() > 0`: a cell is
      counted exactly when its pixels are not all equal to its top-left pixel. */
  predicate Occupied(g: Grid, k: nat, i: nat, j: nat)
    requires Rectangular(g) && IsCell(g, k, i, j)
    ensures Occupied(g, k, i, j) <==> !Uniform(g, k, i, j)
  {
    CellFits(i, k, Height(g));
    CellFits(j, k, Width(g));
    var top, left := i * k, j * k;
    SpreadIffMixed(g, top, top + k, left, left + k);
    var box := Cell(g, k, i, j);
    Max(box) - Min(box) > 0
  }

  /** Every pixel of cell `(i, j)` equals the cell's top-left pixel. */
  predicate Uniform(g: Grid, k: nat, i: nat, j: nat)
    requires Rectangular(g) && IsCell(g, k, i, j)
  {
    CellFits(i, k, Height(g));
    CellFits(j, k, Width(g));
    var top, left := i * k, j * k;
    UniformRegion(g, top, top + k, left, left + k)
  }

  /** The number of counted cells among `(i, 0)`, ..., `(i, n - 1)`. */
  function RowCount(g: Grid, k: nat, i: nat, n: nat): (r: nat)
    requires Rectangular(g) && k >= 1 && i < Height(g) / k && n <= Width(g) / k
    ensures r <= n
  {
    if n == 0 then 0
    else RowCount(g, k, i, n - 1) + (if Occupied(g, k, i, n - 1) then 1 else 0)
  }

  /** The number of counted cells in the first `m` cell rows, `n` cells each. */
  function GridCount(g: Grid, k: nat, m: nat, n: nat): nat
    requires Rectangular(g) && k >= 1 && m <= Height(g) / k && n <= Width(g) / k
  {
    if m == 0 then 0
    else GridCount(g, k, m - 1, n) + RowCount(g, k, m - 1, n)
  }

  /** What `box_count(image, k)` returns: the counted cells of the whole trimmed grid. */
  function BoxCountOf(g: Grid, k: nat): nat
    requires Rectangular(g) && k >= 1
  {
    GridCount(g, k, Height(g) / k, Width(g) / k)
  }

  /** `box_count`: the nested loop over cell rows and cell columns with its counter. */
  method BoxCount(g: Grid, k: nat) returns (count: nat)
    requires Rectangular(g) && k >= 1
    ensures count == BoxCountOf(g, k)
  {
    var nh := Height(g) / k;
    var nw := Width(g) / k;
    count := 0;
    for i := 0 to nh
      invariant count == GridCount(g, k, i, nw)
    {
      for j := 0 to nw
        invariant count == GridCount(g, k, i, nw) + RowCount(g, k, i, j)
      {
        var box := Cell(g, k, i, j);
        RowCountStep(g, k, i, j);
        if Max(box) - Min(box) > 0 {
          count := count + 1;
        }
      }
      assert GridCount(g, k, i + 1, nw) == GridCount(g, k, i, nw) + RowCount(g, k, i, nw);
    }
  }

  /** Adding cell `(i, j)` to a row adds one exactly when the cell is counted. */
  lemma RowCountStep(g: Grid, k: nat, i: nat, j: nat)
    requires Rectangular(g) && IsCell(g, k, i, j)
    ensures RowCount(g, k, i, j + 1)
            == RowCount(g, k, i, j) + if Max(Cell(g, k, i, j)) - Min(Cell(g, k, i, j)) > 0 then 1 else 0
  {
  }

  lemma {:induction false} GridCountBound(g: Grid, k: nat, m: nat, n: nat)
    requires Rectangular(g) && k >= 1 && m <= Height(g) / k && n <= Width(g) / k
    ensures GridCount(g, k, m, n) <= m * n
  {
    if m > 0 {
      GridCountBound(g, k, m - 1, n);
      assert (m - 1) * n + n == m * n;
    }
  }

  /** At most every whole cell is counted, and none when the box is larger than
      the image in either direction. */
  lemma BoxCountBound(g: Grid, k: nat)
    requires Rectangular(g) && k >= 1
    ensures BoxCountOf(g, k) <= (Height(g) / k) * (Width(g) / k)
    ensures k > Height(g) || k > Width(g) ==> BoxCountOf(g, k) == 0
  {
    var nh, nw := Height(g) / k, Width(g) / k;
    GridCountBound(g, k, nh, nw);
    if k > Height(g) {
      NoWholeCell(Height(g), k);
    } else if k > Width(g) {
      NoWholeCell(Width(g), k);
      assert GridCount(g, k, nh, nw) <= nh * 0;
    }
  }

  lemma {:induction false} UniformRowsCountZero(g: Grid, k: nat, m: nat, n: nat)
    requires Rectangular(g) && k >= 1 && m <= Height(g) / k && n <= Width(g) / k
    requires forall i, j :: 0 <= i < m && 0 <= j < n ==> Uniform(g, k, i, j)
    ensures GridCount(g, k, m, n) == 0
  {
    if m > 0 {
      UniformRowsCountZero(g, k, m - 1, n);
      UniformRowCountZero(g, k, m - 1, n);
    }
  }

  lemma {:induction false} UniformRowCountZero(g: Grid, k: nat, i: nat, n: nat)
    requires Rectangular(g) && k >= 1 && i < Height(g) / k && n <= Width(g) / k
    requires forall j :: 0 <= j < n ==> Uniform(g, k, i, j)
    ensures RowCount(g, k, i, n) == 0
  {
    if n > 0 {
      UniformRowCountZero(g, k, i, n - 1);
    }
  }

  /** A constant image (all 0, all 255, any single intensity) counts no cell, at
      every box size. */
  lemma ConstantImageCountsZero(g: Grid, v: int, k: nat)
    requires Rectangular(g) && Constant(g, v) && k >= 1
    ensures BoxCountOf(g, k) == 0
  {
    var nh, nw := Height(g) / k, Width(g) / k;
    forall i, j | 0 <= i < nh && 0 <= j < nw ensures Uniform(g, k, i, j) {
      ConstantCellUniform(g, v, k, i, j);
    }
    UniformRowsCountZero(g, k, nh, nw);
  }

  lemma ConstantCellUniform(g: Grid, v: int, k: nat, i: nat, j: nat)
    requires Rectangular(g) && Constant(g, v) && IsCell(g, k, i, j)
    ensures Uniform(g, k, i, j)
  {
    CellFits(i, k, Height(g));
    CellFits(j, k, Width(g));
    var top, left := i * k, j * k;
    ConstantRegionUniform(g, v, top, top + k, left, left + k);
  }

  /** The pixels `box_count` can look at: rows below `(h // k) * k` and
      columns below `(w // k) * k`. */
  predicate SameTrimmedArea(g1: Grid, g2: Grid, k: nat)
    requires Rectangular(g1) && Rectangular(g2) && k >= 1
  {
    TrimmedFits(Height(g1), k);
    TrimmedFits(Width(g1), k);
    Height(g1) == Height(g2) && Width(g1) == Width(g2) &&
    AgreeBelow(g1, g2, (Height(g1) / k) * k, (Width(g1) / k) * k)
  }

  lemma {:induction false} TrimmedRowCountAgree(g1: Grid, g2: Grid, k: nat, i: nat, n: nat)
    requires Rectangular(g1) && Rectangular(g2) && k >= 1 && SameTrimmedArea(g1, g2, k)
    requires i < Height(g1) / k && n <= Width(g1) / k
    ensures RowCount(g1, k, i, n) == RowCount(g2, k, i, n)
  {
    if n > 0 {
      TrimmedRowCountAgree(g1, g2, k, i, n - 1);
      TrimmedCellAgree(g1, g2, k, i, n - 1);
    }
  }

  lemma TrimmedCellAgree(g1: Grid, g2: Grid, k: nat, i: nat, j: nat)
    requires Rectangular(g1) && Rectangular(g2) && k >= 1 && SameTrimmedArea(g1, g2, k)
    requires IsCell(g1, k, i, j)
    ensures IsCell(g2, k, i, j) && Cell(g1, k, i, j) == Cell(g2, k, i, j)
  {
    var h, w := Height(g1), Width(g1);
    TrimmedCellFits(i, k, h);
    TrimmedCellFits(j, k, w);
    var top, left := i * k, j * k;
    RegionAgreeBelow(g1, g2, (h / k) * k, (w / k) * k, top, top + k, left, left + k);
  }

  lemma {:induction false} TrimmedGridCountAgree(g1: Grid, g2: Grid, k: nat, m: nat, n: nat)
    requires Rectangular(g1) && Rectangular(g2) && k >= 1 && SameTrimmedArea(g1, g2, k)
    requires m <= Height(g1) / k && n <= Width(g1) / k
    ensures GridCount(g1, k, m, n) == GridCount(g2, k, m, n)
  {
    if m > 0 {
      TrimmedGridCountAgree(g1, g2, k, m - 1, n);
      TrimmedRowCountAgree(g1, g2, k, m - 1, n);
    }
  }

  /** Changing pixels in the discarded trailing rows or columns leaves the count unchanged. */
  lemma TrailingPixelsIgnored(g1: Grid, g2: Grid, k: nat)
    requires Rectangular(g1) && Rectangular(g2) && k >= 1 && SameTrimmedArea(g1, g2, k)
    ensures BoxCountOf(g1, k) == BoxCountOf(g2, k)
  {
    TrimmedGridCountAgree(g1, g2, k, Height(g1) / k, Width(g1) / k);
  }

  /** A 4-by-4 image made of four uniform 2-by-2 quadrants, dark and bright
      alternating. */
  const Quadrants: Grid := [[0, 0, 255, 255], [0, 0, 255, 255], [255, 255, 0, 0], [255, 255, 0, 0]]

  /** Under the max-minus-min test a coarser grid can count more cells than a
      finer one: the quadrant image counts no cell of side 2 and one of side 4. */
  lemma CoarserGridCanCountMore()
    ensures Rectangular(Quadrants)
    ensures BoxCountOf(Quadrants, 2) == 0 && BoxCountOf(Quadrants, 4) == 1
  {
    QuadrantsFine(Quadrants);
    QuadrantsCoarse(Quadrants);
  }

  lemma QuadrantsFine(g: Grid)
    requires g == Quadrants
    ensures Rectangular(g) && BoxCountOf(g, 2) == 0
  {
    QuadrantsAllUniform(g);
    UniformRowsCountZero(g, 2, 2, 2);
  }

  lemma QuadrantsAllUniform(g: Grid)
    requires g == Quadrants
    ensures Rectangular(g) && Height(g) / 2 == 2 && Width(g) / 2 == 2
    ensures forall i, j :: 0 <= i < 2 && 0 <= j < 2 ==> Uniform(g, 2, i, j)
  {
    assert Height(g) == 4 && Width(g) == 4;
    forall i, j | 0 <= i < 2 && 0 <= j < 2 ensures Uniform(g, 2, i, j) {
      QuadrantUniform(i, j);
    }
  }

  lemma QuadrantsCoarse(g: Grid)
    requires g == Quadrants
    ensures Rectangular(g) && BoxCountOf(g, 4) == 1
  {
    QuadrantsMixed(g);
    SingleCellCount(g, 4);
  }

  lemma QuadrantsMixed(g: Grid)
    requires g == Quadrants
    ensures Rectangular(g) && Height(g) / 4 == 1 && Width(g) / 4 == 1
    ensures IsCell(g, 4, 0, 0) && !Uniform(g, 4, 0, 0)
  {
    assert Height(g) == 4 && Width(g) == 4;
    assert g[0][2] != g[0][0];
  }

  /** An image holding exactly one whole cell counts 1 when that cell is counted. */
  lemma SingleCellCount(g: Grid, k: nat)
    requires Rectangular(g) && k >= 1 && Height(g) / k == 1 && Width(g) / k == 1
    requires Occupied(g, k, 0, 0)
    ensures BoxCountOf(g, k) == 1
  {
    assert RowCount(g, k, 0, 1) == 1;
    assert GridCount(g, k, 1, 1) == 1;
  }

  lemma QuadrantUniform(i: nat, j: nat)
    requires i < 2 && j < 2
    ensures Rectangular(Quadrants) && IsCell(Quadrants, 2, i, j) && Uniform(Quadrants, 2, i, j)
  {
    var g := Quadrants;
    assert Height(g) == 4 && Width(g) == 4;
    var top, left := i * 2, j * 2;
    forall r, c | top <= r < top + 2 && left <= c < left + 2 ensures g[r][c] == g[top][left] {
      assert r / 2 == i && c / 2 == j;
    }
  }
}
