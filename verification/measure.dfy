/** `measure_complexity`: the fractal dimension of the image's edge map and the
    lacunarity of its grayscale version, measured independently. The grayscale
    conversion and the Canny edge detector are outside this model: both images
    are inputs, the edge map having the grayscale image's shape. */
module Measure {
  import opened Grids
  import opened FractalDimension
  import opened LacunarityEstimator
  import opened Interpretation

  /** The pair `(FD, L)` that `measure_complexity` returns. */
  method MeasureComplexity(gray: Grid, edges: Grid, fit: seq<Point> -> real) returns (fd: real, l: real)
    requires Rectangular(gray) && Rectangular(edges)
    requires Height(edges) == Height(gray) && Width(edges) == Width(gray)
    ensures fd == DimensionFromCounts(ScaleCountsOf(edges), fit)
    ensures l == LacunarityOf(MassesOf(gray))
    ensures 1.0 <= fd <= 2.0 && 0.0 <= l <= 1.0
  {
    fd := Dimension(edges, fit);
    l := Lacunarity(gray);
  }

  /** A uniform picture (all black, all white, any single intensity) whose edge
      map is uniform as well measures FD = 1.0 and L = 0.0, read as the lowest
      tier of both scales. */
  lemma UniformPictureMeasures(gray: Grid, v: int, edges: Grid, e: int, fit: seq<Point> -> real)
    requires Rectangular(gray) && Constant(gray, v)
    requires Rectangular(edges) && Constant(edges, e)
    ensures DimensionFromCounts(ScaleCountsOf(edges), fit) == 1.0
    ensures LacunarityOf(MassesOf(gray)) == 0.0
    ensures InterpretFd(DimensionFromCounts(ScaleCountsOf(edges), fit)).level == Low
    ensures InterpretL(LacunarityOf(MassesOf(gray))).level == Low
  {
    ConstantEdgesDimensionOne(edges, e, fit);
    ConstantImageLacunarityZero(gray, v);
  }
}
