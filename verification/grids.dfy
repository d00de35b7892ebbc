/** Two-dimensional intensity images (a grayscale image or an edge map), as the
    `(h, w)`-shaped arrays the measurement functions receive. Images are values:
    nothing in the measurement engine writes to one. */
module Grids {

  /** Rows of pixel intensities; `g[r][c]` is the pixel in row `r`, column `c`. */
  type Grid = seq<seq<int>>

  /** The number of rows, `image.shape[0]`. */
  function Height(g: Grid): nat { |g| }

  /** The number of columns, `image.shape[1]` (an image without rows has none). */
  function Width(g: Grid): nat { if |g| == 0 then 0 else |g[0]| }

  /** Every row has the same length: the grid is a proper 2-D array. */
  predicate Rectangular(g: Grid) {
    forall r :: 0 <= r < |g| ==> |g[r]| == Width(g)
  }

  /** Every pixel of the image has intensity `v`. */
  predicate Constant(g: Grid, v: int)
    requires Rectangular(g)
  {
    forall r, c :: 0 <= r < Height(g) && 0 <= c < Width(g) ==> g[r][c] == v
  }

  /** The pixels of the slice `g[top:bottom, left:right]`, row after row. */
  function Region(g: Grid, top: nat, bottom: nat, left: nat, right: nat): (s: seq<int>)
    requires Rectangular(g)
    requires top <= bottom <= Height(g) && left <= right <= Width(g)
    ensures top < bottom && left < right ==> |s| > 0
    decreases bottom - top
  {
    if top == bottom then []
    else Region(g, top, bottom - 1, left, right) + g[bottom - 1][left..right]
  }

  /** A value occurs in a slice exactly when some pixel of the slice has it. */
  lemma RegionMembers(g: Grid, top: nat, bottom: nat, left: nat, right: nat, x: int)
    requires Rectangular(g)
    requires top <= bottom <= Height(g) && left <= right <= Width(g)
    ensures x in Region(g, top, bottom, left, right) <==>
            exists r, c :: top <= r < bottom && left <= c < right && g[r][c] == x
  {
    if x in Region(g, top, bottom, left, right) {
      RegionFrom(g, top, bottom, left, right, x);
    } else {
      forall r, c | top <= r < bottom && left <= c < right
        ensures g[r][c] != x
      {
        RegionHas(g, top, bottom, left, right, r, c);
      }
    }
  }

  /** Every pixel of a slice occurs in it. */
  lemma {:induction false} RegionHas(g: Grid, top: nat, bottom: nat, left: nat, right: nat, r: nat, c: nat)
    requires Rectangular(g)
    requires top <= bottom <= Height(g) && left <= right <= Width(g)
    requires top <= r < bottom && left <= c < right
    ensures g[r][c] in Region(g, top, bottom, left, right)
    decreases bottom - top
  {
    var prefix := Region(g, top, bottom - 1, left, right);
    var row := g[bottom - 1][left..right];
    assert Region(g, top, bottom, left, right) == prefix + row;
    if r < bottom - 1 {
      RegionHas(g, top, bottom - 1, left, right, r, c);
    } else {
      assert row[c - left] == g[r][c];
    }
  }

  /** Every value of a slice is some pixel of it. */
  lemma {:induction false} RegionFrom(g: Grid, top: nat, bottom: nat, left: nat, right: nat, x: int)
    requires Rectangular(g)
    requires top <= bottom <= Height(g) && left <= right <= Width(g)
    requires x in Region(g, top, bottom, left, right)
    ensures exists r, c :: top <= r < bottom && left <= c < right && g[r][c] == x
    decreases bottom - top
  {
    var prefix := Region(g, top, bottom - 1, left, right);
    var line := g[bottom - 1];
    var row := line[left..right];
    assert Region(g, top, bottom, left, right) == prefix + row;
    if x in prefix {
      RegionFrom(g, top, bottom - 1, left, right, x);
    } else {
      var t :| 0 <= t < |row| && row[t] == x;
      assert line[left + t] == x;
    }
  }

  /** A slice of `bottom - top` rows and `right - left` columns has that many pixels. */
  lemma {:induction false} RegionLength(g: Grid, top: nat, bottom: nat, left: nat, right: nat)
    requires Rectangular(g)
    requires top <= bottom <= Height(g) && left <= right <= Width(g)
    ensures |Region(g, top, bottom, left, right)| == (bottom - top) * (right - left)
    decreases bottom - top
  {
    if top < bottom {
      RegionLength(g, top, bottom - 1, left, right);
      assert (bottom - 1 - top) * (right - left) + (right - left) == (bottom - top) * (right - left);
    }
  }

  /** Two images that agree on every pixel of a slice have the same slice. */
  lemma {:induction false} RegionAgree(g1: Grid, g2: Grid, top: nat, bottom: nat, left: nat, right: nat)
    requires Rectangular(g1) && Rectangular(g2)
    requires top <= bottom <= Height(g1) && bottom <= Height(g2)
    requires left <= right <= Width(g1) && right <= Width(g2)
    requires forall r, c :: top <= r < bottom && left <= c < right ==> g1[r][c] == g2[r][c]
    ensures Region(g1, top, bottom, left, right) == Region(g2, top, bottom, left, right)
    decreases bottom - top
  {
    if top < bottom {
      RegionAgree(g1, g2, top, bottom - 1, left, right);
      assert g1[bottom - 1][left..right] == g2[bottom - 1][left..right];
    }
  }

  /** The trimmed length `(n / k) * k` does not exceed `n`. */
  lemma TrimmedFits(n: nat, k: nat)
    requires k >= 1
    ensures (n / k) * k <= n
  {
  }

  /** Two images agree on every pixel above row `rows` and left of column `cols`. */
  predicate AgreeBelow(g1: Grid, g2: Grid, rows: nat, cols: nat)
    requires Rectangular(g1) && Rectangular(g2)
    requires rows <= Height(g1) && rows <= Height(g2) && cols <= Width(g1) && cols <= Width(g2)
  {
    forall r, c :: 0 <= r < rows && 0 <= c < cols ==> g1[r][c] == g2[r][c]
  }

  /** Two images that agree on a top-left area have the same slices inside it. */
  lemma RegionAgreeBelow(g1: Grid, g2: Grid, rows: nat, cols: nat, top: nat, bottom: nat, left: nat, right: nat)
    requires Rectangular(g1) && Rectangular(g2)
    requires rows <= Height(g1) && rows <= Height(g2) && cols <= Width(g1) && cols <= Width(g2)
    requires AgreeBelow(g1, g2, rows, cols)
    requires top <= bottom <= rows && left <= right <= cols
    ensures Region(g1, top, bottom, left, right) == Region(g2, top, bottom, left, right)
  {
    RegionAgree(g1, g2, top, bottom, left, right);
  }

  /** `s.max()`: the largest element of a non-empty sequence. */
  function Max(s: seq<int>): (m: int)
    requires |s| > 0
    ensures m in s && forall x :: x in s ==> x <= m
  {
    if |s| == 1 then s[0]
    else
      var rest := Max(s[1..]);
      assert forall x :: x in s ==> x == s[0] || x in s[1..];
      if s[0] >= rest then s[0] else rest
  }

  /** `s.min()`: the smallest element of a non-empty sequence. */
  function Min(s: seq<int>): (m: int)
    requires |s| > 0
    ensures m in s && forall x :: x in s ==> m <= x
  {
    if |s| == 1 then s[0]
    else
      var rest := Min(s[1..]);
      assert forall x :: x in s ==> x == s[0] || x in s[1..];
      if s[0] <= rest then s[0] else rest
  }

  /** Multiplication by a positive factor is monotone (used for cell corners). */
  lemma MulMono(a: nat, b: nat, k: nat)
    requires a <= b
    ensures a * k <= b * k
  {
    assert b * k == a * k + (b - a) * k;
  }

  /** A side shorter than the cell holds no whole cell. */
  lemma NoWholeCell(n: nat, k: nat)
    requires n < k
    ensures n / k == 0
  {
  }

  /** The `i`-th of the `n / k` whole cells of side `k` along a side of length `n` ends inside it. */
  lemma CellFits(i: nat, k: nat, n: nat)
    requires k >= 1 && i < n / k
    ensures i * k + k <= n
  {
    TrimmedCellFits(i, k, n);
  }

  /** ... and inside the trimmed length `(n / k) * k`, which is at most `n`. */
  lemma TrimmedCellFits(i: nat, k: nat, n: nat)
    requires k >= 1 && i < n / k
    ensures i * k + k <= (n / k) * k <= n
  {
    MulMono(i + 1, n / k, k);
    assert (i + 1) * k == i * k + k;
  }

  /** Every pixel of the slice `g[top:bottom, left:right]` equals its first pixel. */
  predicate UniformRegion(g: Grid, top: nat, bottom: nat, left: nat, right: nat)
    requires Rectangular(g)
    requires top < bottom <= Height(g) && left < right <= Width(g)
  {
    forall r, c :: top <= r < bottom && left <= c < right ==> g[r][c] == g[top][left]
  }

  /** Every non-empty slice of a constant image is uniform. */
  lemma ConstantRegionUniform(g: Grid, v: int, top: nat, bottom: nat, left: nat, right: nat)
    requires Rectangular(g) && Constant(g, v)
    requires top < bottom <= Height(g) && left < right <= Width(g)
    ensures UniformRegion(g, top, bottom, left, right)
  {
    assert g[top][left] == v;
  }

  /** A non-empty slice has its maximum above its minimum exactly when its
      pixels are not all equal. */
  lemma SpreadIffMixed(g: Grid, top: nat, bottom: nat, left: nat, right: nat)
    requires Rectangular(g)
    requires top < bottom <= Height(g) && left < right <= Width(g)
    ensures Max(Region(g, top, bottom, left, right)) - Min(Region(g, top, bottom, left, right)) > 0
            <==> !UniformRegion(g, top, bottom, left, right)
  {
    var box := Region(g, top, bottom, left, right);
    RegionHas(g, top, bottom, left, right, top, left);
    if UniformRegion(g, top, bottom, left, right) {
      forall x | x in box ensures x == g[top][left] {
        RegionFrom(g, top, bottom, left, right, x);
      }
    } else {
      var r, c :| top <= r < bottom && left <= c < right && g[r][c] != g[top][left];
      RegionHas(g, top, bottom, left, right, r, c);
    }
  }
}
