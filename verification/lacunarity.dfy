/** Gliding-box lacunarity (`lacunarity`): a 32-by-32 box moves over the
    grayscale image with stride 8; each placement records its mass, the number
    of pixels brighter than 128; the statistic is the squared coefficient of
    variation of the masses, halved and capped at 1.0, with 0.0 when there is
    no placement or the mean mass is zero. */
module LacunarityEstimator {
  import opened Grids

  /** `box_size = 32`. */
  const BoxSide: nat := 32
  /** The step of both `range(0, h - box_size, 8)` loops. */
  const Stride: nat := 8
  /** A pixel adds to the mass when its intensity is strictly above this. */
  const Threshold: int := 128

  /** `np.sum(box > 128)` for a flattened box. */
  function CountAbove(s: seq<int>): (m: nat)
    ensures m <= |s|
    ensures m == 0 <==> forall t :: 0 <= t < |s| ==> s[t] <= Threshold
    ensures m == |s| <==> forall t :: 0 <= t < |s| ==> s[t] > Threshold
  {
    if s == [] then 0
    else
      var rest := CountAbove(s[1..]);
      assert forall t :: 1 <= t < |s| ==> s[t] == s[1..][t - 1];
      (if s[0] > Threshold then 1 else 0) + rest
  }

  /** The mass of the placement whose top-left pixel is `(top, left)`. */
  function Mass(g: Grid, top: nat, left: nat): (m: nat)
    requires Rectangular(g) && top + BoxSide <= Height(g) && left + BoxSide <= Width(g)
    ensures m <= BoxSide * BoxSide
  {
    RegionLength(g, top, top + BoxSide, left, left + BoxSide);
    CountAbove(Region(g, top, top + BoxSide, left, left + BoxSide))
  }

  /** How many starts `range(0, n - 32, 8)` yields: the last start lies strictly
      below `n - 32` and the next one would not. */
  function NumStarts(n: nat): (c: nat)
    ensures c > 0 ==> Stride * (c - 1) + BoxSide < n
    ensures Stride * c + BoxSide >= n
    ensures n <= BoxSide ==> c == 0
  {
    if n <= BoxSide then 0 else (n - BoxSide + Stride - 1) / Stride
  }

  /** A start that `range(0, n - 32, 8)` yields is one of the `NumStarts(n)`. */
  lemma StartBelow(n: nat, t: nat)
    requires Stride * t + BoxSide < n
    ensures t < NumStarts(n)
  {
  }

  /** The masses of the first `m` placements of the row of placements at `top`. */
  function RowMasses(g: Grid, top: nat, m: nat): (r: seq<nat>)
    requires Rectangular(g) && top + BoxSide <= Height(g) && m <= NumStarts(Width(g))
    ensures |r| == m
    ensures forall u :: 0 <= u < m ==> r[u] <= BoxSide * BoxSide
    ensures forall u :: 0 <= u < m ==> r[u] == Mass(g, top, Stride * u)
  {
    seq(m, u requires 0 <= u < m => Mass(g, top, Stride * u))
  }

  /** The next placement of a row appends its mass. */
  lemma RowMassesStep(g: Grid, top: nat, m: nat)
    requires Rectangular(g) && top + BoxSide <= Height(g)
    requires m < NumStarts(Width(g)) && Stride * m + BoxSide < Width(g)
    ensures RowMasses(g, top, m + 1) == RowMasses(g, top, m) + [Mass(g, top, Stride * m)]
  {
    AppendOne(RowMasses(g, top, m + 1), RowMasses(g, top, m), Mass(g, top, Stride * m));
  }

  /** A sequence that extends `shorter` by one element `x` is `shorter + [x]`. */
  lemma AppendOne(longer: seq<nat>, shorter: seq<nat>, x: nat)
    requires |longer| == |shorter| + 1 && longer[|shorter|] == x
    requires forall u :: 0 <= u < |shorter| ==> longer[u] == shorter[u]
    ensures longer == shorter + [x]
  {
    assert longer == longer[..|shorter|] + [x];
  }

  /** The masses of the first `m` rows of placements, row after row. */
  function AllMasses(g: Grid, m: nat): (r: seq<nat>)
    requires Rectangular(g) && m <= NumStarts(Height(g))
    ensures forall t :: 0 <= t < |r| ==> r[t] <= BoxSide * BoxSide
    ensures r == [] <==> m == 0 || NumStarts(Width(g)) == 0
  {
    if m == 0 then []
    else AllMasses(g, m - 1) + RowMasses(g, Stride * (m - 1), NumStarts(Width(g)))
  }

  /** `masses` as `lacunarity` collects them. */
  function MassesOf(g: Grid): (r: seq<nat>)
    requires Rectangular(g)
  {
    AllMasses(g, NumStarts(Height(g)))
  }

  /** The nested stride-8 loops of `lacunarity` that append each mass. */
  method Masses(g: Grid) returns (masses: seq<nat>)
    requires Rectangular(g)
    ensures masses == MassesOf(g)
  {
    var h, w := Height(g), Width(g);
    masses := [];
    var i := 0;
    ghost var ti := 0;
    while i < h - BoxSide
      invariant i == Stride * ti && ti <= NumStarts(h)
      invariant masses == AllMasses(g, ti)
    {
      StartBelow(h, ti);
      var j := 0;
      ghost var tj := 0;
      while j < w - BoxSide
        invariant j == Stride * tj && tj <= NumStarts(w)
        invariant masses == AllMasses(g, ti) + RowMasses(g, i, tj)
      {
        StartBelow(w, tj);
        RowMassesStep(g, i, tj);
        masses := masses + [Mass(g, i, j)];
        j, tj := j + Stride, tj + 1;
      }
      assert tj == NumStarts(w);
      i, ti := i + Stride, ti + 1;
    }
  }

  /** `np.sum(masses)`. */
  function Sum(ms: seq<nat>): nat {
    if ms == [] then 0 else ms[0] + Sum(ms[1..])
  }

  /** `np.mean(masses)`: zero exactly when the sum is. */
  function Mean(ms: seq<nat>): (mu: real)
    requires |ms| > 0
    ensures mu * |ms| as real == Sum(ms) as real
    ensures mu >= 0.0 && (mu == 0.0 <==> Sum(ms) == 0)
  {
    Sum(ms) as real / |ms| as real
  }

  /** `a * b`, with the sign rule of a product. */
  function Product(a: real, b: real): (p: real)
    ensures (a > 0.0 && b > 0.0) || (a < 0.0 && b < 0.0) ==> p > 0.0
    ensures a == 0.0 || b == 0.0 ==> p == 0.0
  {
    // Both branches compute `a * b`; the first only holds the proof hint for
    // two negative factors.
    if a < 0.0 && b < 0.0 then
      assert (-a) * (-b) > 0.0;
      a * b
    else a * b
  }

  /** `x ** 2`: positive unless `x` is zero. */
  function Sq(x: real): (y: real)
    ensures y >= 0.0 && (y == 0.0 <==> x == 0.0)
  {
    Product(x, x)
  }

  /** The sum of the squared deviations of the masses from `mu`. */
  function Deviation(ms: seq<nat>, mu: real): (d: real)
    ensures d >= 0.0
  {
    if ms == [] then 0.0 else Sq(ms[0] as real - mu) + Deviation(ms[1..], mu)
  }

  /** `np.std(masses) ** 2`: the population variance (divisor `n`). */
  function PopVariance(ms: seq<nat>): (v: real)
    requires |ms| > 0
    ensures v >= 0.0 && (v == 0.0 <==> Deviation(ms, Mean(ms)) == 0.0)
  {
    Deviation(ms, Mean(ms)) / |ms| as real
  }

  /** `(std / mean) ** 2` for a positive mean: the squared coefficient of
      variation, zero exactly when the variance is. */
  function CoefficientSquared(v: real, mu: real): (c: real)
    requires v >= 0.0 && mu > 0.0
    ensures c >= 0.0 && (c == 0.0 <==> v == 0.0)
  {
    QuotientSign(v, Sq(mu));
    v / Sq(mu)
  }

  /** A non-negative quotient by a positive divisor, zero exactly when the dividend is. */
  lemma QuotientSign(v: real, d: real)
    requires v >= 0.0 && d > 0.0
    ensures v / d >= 0.0 && (v / d == 0.0 <==> v == 0.0)
  {
    var q := v / d;
    assert Product(q, d) == v;
  }

  /** The statistic `lacunarity` returns for a list of masses: 0.0 when there are
      none or their mean is zero, otherwise `(std / mean) ** 2` halved and capped
      at 1.0. */
  function LacunarityOf(ms: seq<nat>): (l: real)
    ensures 0.0 <= l <= 1.0
    ensures ms == [] || Sum(ms) == 0 ==> l == 0.0
  {
    if |ms| == 0 || Mean(ms) == 0.0 then 0.0
    else
      var cv2 := CoefficientSquared(PopVariance(ms), Mean(ms));
      if cv2 / 2.0 <= 1.0 then cv2 / 2.0 else 1.0
  }

  /** `lacunarity` on a grayscale image (the color conversion is the caller's). */
  method Lacunarity(g: Grid) returns (l: real)
    requires Rectangular(g)
    ensures l == LacunarityOf(MassesOf(g))
    ensures 0.0 <= l <= 1.0
    ensures Height(g) <= BoxSide || Width(g) <= BoxSide ==> l == 0.0
  {
    var masses := Masses(g);
    l := LacunarityOf(masses);
  }

  /** The deviations from `mu` vanish exactly when every mass equals `mu`. */
  lemma {:induction false} DeviationZeroIff(ms: seq<nat>, mu: real)
    ensures Deviation(ms, mu) == 0.0 <==> forall t :: 0 <= t < |ms| ==> ms[t] as real == mu
  {
    if ms != [] {
      DeviationZeroIff(ms[1..], mu);
      assert forall t :: 1 <= t < |ms| ==> ms[t] == ms[1..][t - 1];
    }
  }

  /** When all masses equal `c`, so does their mean. */
  lemma MeanOfEqual(ms: seq<nat>, c: nat)
    requires |ms| > 0 && forall t :: 0 <= t < |ms| ==> ms[t] == c
    ensures Mean(ms) == c as real
  {
    SumOfEqual(ms, c);
    var n := |ms| as real;
    assert Mean(ms) * n == c as real * n;
  }

  lemma {:induction false} SumOfEqual(ms: seq<nat>, c: nat)
    requires forall t :: 0 <= t < |ms| ==> ms[t] == c
    ensures Sum(ms) as real == |ms| as real * c as real
  {
    if ms != [] {
      SumOfEqual(ms[1..], c);
      assert (|ms| - 1) as real * c as real + c as real == |ms| as real * c as real;
    }
  }

  /** For a non-empty list with a positive sum, the statistic is 0.0 exactly
      when the population variance is. */
  lemma LacunarityZeroIffNoVariance(ms: seq<nat>)
    requires |ms| > 0 && Sum(ms) > 0
    ensures LacunarityOf(ms) == 0.0 <==> PopVariance(ms) == 0.0
  {
  }

  /** The statistic is 0.0 exactly when all masses are equal (in particular all
      zero, or all equal and positive). */
  lemma LacunarityZeroIffEqual(ms: seq<nat>)
    requires |ms| > 0
    ensures LacunarityOf(ms) == 0.0 <==> forall t :: 0 <= t < |ms| ==> ms[t] == ms[0]
  {
    if Sum(ms) == 0 {
      SumZeroAllZero(ms);
    } else {
      LacunarityZeroIffNoVariance(ms);
      DeviationZeroIff(ms, Mean(ms));
      if forall t :: 0 <= t < |ms| ==> ms[t] == ms[0] {
        MeanOfEqual(ms, ms[0]);
      }
    }
  }

  lemma {:induction false} SumZeroAllZero(ms: seq<nat>)
    requires Sum(ms) == 0
    ensures forall t :: 0 <= t < |ms| ==> ms[t] == 0
  {
    if ms != [] {
      SumZeroAllZero(ms[1..]);
      assert forall t :: 1 <= t < |ms| ==> ms[t] == ms[1..][t - 1];
    }
  }

  /** The first `m` rows of placements record one mass per placement. */
  lemma {:induction false} AllMassesLength(g: Grid, m: nat)
    requires Rectangular(g) && m <= NumStarts(Height(g))
    ensures |AllMasses(g, m)| == m * NumStarts(Width(g))
  {
    if m > 0 {
      AllMassesLength(g, m - 1);
      assert (m - 1) * NumStarts(Width(g)) + NumStarts(Width(g)) == m * NumStarts(Width(g));
    }
  }

  /** `lacunarity` records exactly one mass per placement: as many as there are
      row starts times column starts. */
  lemma MassesCount(g: Grid)
    requires Rectangular(g)
    ensures |MassesOf(g)| == NumStarts(Height(g)) * NumStarts(Width(g))
  {
    AllMassesLength(g, NumStarts(Height(g)));
  }

  /** Every mass lies in [0, 1024], and there are no masses (so the statistic is
      0.0) when the image is at most 32 pixels high or wide. */
  lemma MassesShape(g: Grid)
    requires Rectangular(g)
    ensures forall t :: 0 <= t < |MassesOf(g)| ==> MassesOf(g)[t] <= 1024
    ensures Height(g) <= BoxSide || Width(g) <= BoxSide ==> MassesOf(g) == [] && LacunarityOf(MassesOf(g)) == 0.0
  {
  }

  /** No pixel of the image is brighter than 128. */
  predicate Dark(g: Grid)
    requires Rectangular(g)
  {
    forall r, c :: 0 <= r < Height(g) && 0 <= c < Width(g) ==> g[r][c] <= Threshold
  }

  /** The mass of every placement when all pixels have intensity `v`. */
  lemma ConstantMass(g: Grid, v: int, top: nat, left: nat)
    requires Rectangular(g) && Constant(g, v)
    requires top + BoxSide <= Height(g) && left + BoxSide <= Width(g)
    ensures Mass(g, top, left) == if v > Threshold then BoxSide * BoxSide else 0
  {
    var box := Region(g, top, top + BoxSide, left, left + BoxSide);
    RegionLength(g, top, top + BoxSide, left, left + BoxSide);
    forall t | 0 <= t < |box| ensures box[t] == v {
      RegionFrom(g, top, top + BoxSide, left, left + BoxSide, box[t]);
    }
  }

  /** A placement over a dark image has mass 0. */
  lemma DarkMass(g: Grid, top: nat, left: nat)
    requires Rectangular(g) && Dark(g)
    requires top + BoxSide <= Height(g) && left + BoxSide <= Width(g)
    ensures Mass(g, top, left) == 0
  {
    var box := Region(g, top, top + BoxSide, left, left + BoxSide);
    forall t | 0 <= t < |box| ensures box[t] <= Threshold {
      RegionFrom(g, top, top + BoxSide, left, left + BoxSide, box[t]);
    }
  }

  /** When every placement has the same mass `c`, so does every recorded mass. */
  lemma {:induction false} AllMassesEqual(g: Grid, m: nat, c: nat)
    requires Rectangular(g) && m <= NumStarts(Height(g))
    requires forall top: nat, left: nat :: top + BoxSide <= Height(g) && left + BoxSide <= Width(g) ==> Mass(g, top, left) == c
    ensures forall t :: 0 <= t < |AllMasses(g, m)| ==> AllMasses(g, m)[t] == c
  {
    if m > 0 {
      AllMassesEqual(g, m - 1, c);
    }
  }

  lemma {:induction false} SumOfZeros(ms: seq<nat>)
    requires forall t :: 0 <= t < |ms| ==> ms[t] == 0
    ensures Sum(ms) == 0
  {
    if ms != [] {
      SumOfZeros(ms[1..]);
    }
  }

  /** A dark image (no pixel above 128) has lacunarity 0.0: every mass is zero. */
  lemma DarkImageLacunarityZero(g: Grid)
    requires Rectangular(g) && Dark(g)
    ensures forall t :: 0 <= t < |MassesOf(g)| ==> MassesOf(g)[t] == 0
    ensures LacunarityOf(MassesOf(g)) == 0.0
  {
    forall top: nat, left: nat | top + BoxSide <= Height(g) && left + BoxSide <= Width(g)
      ensures Mass(g, top, left) == 0
    {
      DarkMass(g, top, left);
    }
    AllMassesEqual(g, NumStarts(Height(g)), 0);
    SumOfZeros(MassesOf(g));
  }

  /** A constant image (all black, all white, any single intensity) has
      lacunarity 0.0: its masses are all 0 or all 1024. */
  lemma ConstantImageLacunarityZero(g: Grid, v: int)
    requires Rectangular(g) && Constant(g, v)
    ensures LacunarityOf(MassesOf(g)) == 0.0
  {
    var c: nat := if v > Threshold then BoxSide * BoxSide else 0;
    forall top: nat, left: nat | top + BoxSide <= Height(g) && left + BoxSide <= Width(g)
      ensures Mass(g, top, left) == c
    {
      ConstantMass(g, v, top, left);
    }
    var ms := MassesOf(g);
    AllMassesEqual(g, NumStarts(Height(g)), c);
    if ms != [] {
      LacunarityZeroIffEqual(ms);
    }
  }
}
