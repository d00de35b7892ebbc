# Material complexity: verified measurement engine

This project is a Dafny model of the measurement engine inside the material
complexity Streamlit app (`material_complexity_app.py`). The engine turns a
texture image into two numbers and reads each one as a tier:

- **Box counting** (`box_count`). An edge map is tiled with non-overlapping
  `k`-by-`k` cells. Only the largest area divisible by `k` is covered. A cell is
  counted when its maximum minus its minimum is positive, that is, when its
  pixels are not all equal.
- **Fractal dimension** (`fractal_dimension`). Box counts are taken at sizes 2,
  4, 8, 16, 32 and 64. Only sizes with a positive count are kept. Fewer than
  two kept sizes give exactly 1.0. Otherwise the negated log-log slope is
  clamped into [1.0, 2.0].
- **Lacunarity** (`lacunarity`). A 32-by-32 box glides with stride 8. Row and
  column starts stay strictly below `h - 32` and `w - 32`. Each placement
  records its mass, the number of pixels brighter than 128. The result is
  `min((std / mean)^2 / 2, 1)`. It is 0.0 when there is no placement or the
  mean mass is zero.
- **Readings** (`interpret_fd`, `interpret_l`). Fixed, ordered thresholds pick
  a tier name, a description and a level.

Images are `seq<seq<int>>` values with a `Rectangular` shape predicate
(`grids.dfy`). The engine never writes to an image, so value semantics lose
nothing. The loops of the source are methods: `BoxCount`, `ScaleCounts`,
`Masses`. Each is proved equal to a specification function (`BoxCountOf`,
`ScaleCountsOf`, `MassesOf`). The filter, the sentinel, the clamp, the
lacunarity formula and the readings are functions. Lemmas state the
properties of these functions.

Three external steps are parameters rather than code:

- The grayscale image is an input.
- The Canny edge map is an input of the same shape.
- The least-squares slope of `np.polyfit` is a function `fit` from the kept
  `(size, count)` points to a real. Every result is proved for every such
  function.

The lacunarity statistic is computed in exact reals from its definition. `Mean`
is the sum of the masses over their number. `PopVariance` is the sum of the
squared deviations from the mean over their number, the divisor `np.std` uses.
The statistic squares neither a square root nor a quotient: `(std / mean)^2` is
taken as the variance over the squared mean, its value in exact arithmetic.

Facts about the code that a reader might not expect:

- A cell is occupied when `box.max() - box.min() > 0`, not when its maximum is
  positive. A cell made entirely of edge pixels (all 255) is therefore not
  counted.
- A coarser grid can count more cells than a finer one under this test.
  `CoarserGridCanCountMore` exhibits a 4-by-4 image that counts 0 cells of
  side 2 and 1 cell of side 4.
- `fractal_dimension` returns only the dimension, with no goodness-of-fit
  value.
- Counting runs a loop per cell over slices of the image.
- An image exactly 32 pixels high or wide has no lacunarity placement, so its
  lacunarity is 0.0, because the ranges stop strictly before `h - 32`.

## Model

| member | source | states |
|---|---|---|
| `Grids.Max` | material_complexity_app.py:127 | `box.max()`: the result is an element of the cell and no element exceeds it |
| `Grids.Min` | material_complexity_app.py:127 | `box.min()`: the result is an element of the cell and no element is below it |
| `Grids.Region` | material_complexity_app.py:125-126 | a 2-D slice `image[top:bottom, left:right]`, flattened row after row, is non-empty when both of its ranges are |
| `Grids.RegionMembers` | material_complexity_app.py:125-126 | a value occurs in the slice exactly when some pixel with row in `[top, bottom)` and column in `[left, right)` has it |
| `Grids.RegionLength` | material_complexity_app.py:125-126 | the slice holds `(bottom - top) * (right - left)` pixels |
| `BoxCounting.Cell` | material_complexity_app.py:125-126 | the slice `image[i*k:(i+1)*k, j*k:(j+1)*k]` of a whole cell lies inside the image and is non-empty, so `box.max()` and `box.min()` are defined |
| `BoxCounting.Occupied` | material_complexity_app.py:127 | the test `box.max() - box.min() > 0` holds exactly when the cell's pixels are not all equal to its top-left pixel |
| `BoxCounting.BoxCount` | material_complexity_app.py:116-130 | the nested loop over `h // k` cell rows and `w // k` cell columns returns the number of counted cells of the trimmed grid |
| `BoxCounting.BoxCountBound` | material_complexity_app.py:118-124 | the count is at most `(h div k) * (w div k)`, and is 0 when `k > h` or `k > w` |
| `BoxCounting.ConstantImageCountsZero` | material_complexity_app.py:125-128 | a constant image (all 0, all 255, any single value) counts no cell at any box size |
| `BoxCounting.TrailingPixelsIgnored` | material_complexity_app.py:119-126 | two images of the same shape that agree below row `(h div k) * k` and column `(w div k) * k` have the same count: the trailing partial rows and columns are never read |
| `BoxCounting.CoarserGridCanCountMore` | material_complexity_app.py:125-128 | the count is not monotone in the box size: a four-quadrant image counts 0 cells of side 2 but 1 cell of side 4 |
| `FractalDimension.ValidPoints` | material_complexity_app.py:152-154 | the kept points are exactly the `(size, count)` pairs with a positive count, one per positive count, each paired with its own size |
| `FractalDimension.ValidPointsKeepOrder` | material_complexity_app.py:152-154 | filtering an increasing size series keeps the sizes in increasing order |
| `FractalDimension.FitInputOrdered` | material_complexity_app.py:142-159 | the points handed to the fit have strictly increasing box sizes taken from 2, 4, ..., 64 |
| `FractalDimension.Clip` | material_complexity_app.py:162 | `np.clip`: the result lies in `[lo, hi]`, equals `x` inside the range, and equals the nearer bound outside it |
| `FractalDimension.DimensionOfPoints` | material_complexity_app.py:156-162 | fewer than two points give exactly 1.0; the result always lies in [1.0, 2.0]; a negated slope already in range is returned unchanged |
| `FractalDimension.DimensionFromCounts` | material_complexity_app.py:149-164 | for every fitted slope the dimension lies in [1.0, 2.0], and it is exactly 1.0 when fewer than two box sizes have a positive count |
| `FractalDimension.ScaleCounts` | material_complexity_app.py:142-147 | the append loop yields six counts, the t-th being the box count at the t-th size of 2, 4, ..., 64 |
| `FractalDimension.Dimension` | material_complexity_app.py:133-164 | `fractal_dimension` on an edge map equals `DimensionFromCounts(ScaleCountsOf(edges), fit)` and lies in [1.0, 2.0] |
| `FractalDimension.ConstantEdgesDimensionOne` | material_complexity_app.py:145-157 | a constant edge map (for example all 0 or all 255) has every count 0, so its dimension is 1.0 whatever the slope |
| `LacunarityEstimator.CountAbove` | material_complexity_app.py:181 | `np.sum(box > 128)`: at most the box size, 0 exactly when no pixel exceeds 128, full exactly when every pixel does |
| `LacunarityEstimator.Mass` | material_complexity_app.py:180-181 | the mass of a full 32-by-32 placement lies in [0, 1024] |
| `LacunarityEstimator.NumStarts` | material_complexity_app.py:178-179 | `range(0, n - 32, 8)` has `c` starts: the last one `8 * (c - 1)` is below `n - 32`, the next one is not, and there are none when `n <= 32` |
| `LacunarityEstimator.Masses` | material_complexity_app.py:177-182 | the nested stride-8 loops append the masses of all placements, row after row, and return `MassesOf(g)` |
| `LacunarityEstimator.MassesCount` | material_complexity_app.py:177-182 | the loops record exactly one mass per placement: `len(range(0, h - 32, 8)) * len(range(0, w - 32, 8))` masses in all |
| `LacunarityEstimator.Mean` | material_complexity_app.py:186 | `np.mean(masses)` times the number of masses is their sum; it is never negative and is zero exactly when the sum is |
| `LacunarityEstimator.PopVariance` | material_complexity_app.py:189 | `np.std(masses) ** 2` is never negative and is zero exactly when the squared deviations from the mean sum to zero |
| `LacunarityEstimator.CoefficientSquared` | material_complexity_app.py:189 | `(std / mean) ** 2` with a positive mean is never negative and is zero exactly when the variance is |
| `LacunarityEstimator.LacunarityOf` | material_complexity_app.py:184-190 | the statistic lies in [0.0, 1.0] and is 0.0 when there are no masses or their sum (so their mean) is zero |
| `LacunarityEstimator.DeviationZeroIff` | material_complexity_app.py:189 | the squared deviations from a value sum to zero exactly when every mass equals that value |
| `LacunarityEstimator.LacunarityZeroIffNoVariance` | material_complexity_app.py:186-190 | with a positive mean, the statistic is 0.0 exactly when the population variance is |
| `LacunarityEstimator.LacunarityZeroIffEqual` | material_complexity_app.py:186-190 | for a non-empty list the statistic is 0.0 exactly when all masses are equal, in particular when all are equal and positive |
| `LacunarityEstimator.Lacunarity` | material_complexity_app.py:167-192 | `lacunarity` equals the statistic of the collected masses, lies in [0.0, 1.0], and is 0.0 when the image is at most 32 pixels high or wide |
| `LacunarityEstimator.MassesShape` | material_complexity_app.py:174-187 | every mass lies in [0, 1024]; an image at most 32 pixels high or wide has no placement and lacunarity 0.0 |
| `LacunarityEstimator.DarkImageLacunarityZero` | material_complexity_app.py:180-187 | an image with no pixel above 128 has all masses 0 and lacunarity 0.0 |
| `LacunarityEstimator.ConstantImageLacunarityZero` | material_complexity_app.py:180-190 | a constant image, all black or all white, has lacunarity 0.0 |
| `Interpretation.InterpretFd` | material_complexity_app.py:203-214 | the level is low exactly below 1.2, preferred exactly on [1.2, 1.7) and high exactly from 1.7; the reading is one of the five listed |
| `Interpretation.InterpretL` | material_complexity_app.py:217-224 | the level is low exactly below 0.3, medium exactly on [0.3, 0.6) and high exactly from 0.6; the reading is one of the three listed |
| `Interpretation.InterpretFdByThresholds` | material_complexity_app.py:203-214 | the if-chain picks the reading whose index is the number of thresholds 1.2, 1.4, 1.7, 1.8 the value has reached, which places the splits at 1.4 and 1.8 |
| `Interpretation.InterpretLByThresholds` | material_complexity_app.py:217-224 | the if-chain picks the reading whose index is the number of thresholds 0.3, 0.6 the value has reached |
| `Interpretation.TierIndexMonotone` | material_complexity_app.py:203-224 | a larger value has reached at least as many thresholds |
| `Interpretation.InterpretFdMonotone` | material_complexity_app.py:203-214 | a larger dimension never gets an earlier reading or a lower level |
| `Interpretation.InterpretLMonotone` | material_complexity_app.py:217-224 | a larger lacunarity never gets an earlier reading or a lower level |
| `Measure.MeasureComplexity` | material_complexity_app.py:195-200 | `(FD, L)` are `DimensionFromCounts(ScaleCountsOf(edges), fit)` and `LacunarityOf(MassesOf(gray))`, with FD in [1.0, 2.0] and L in [0.0, 1.0] |
| `Measure.UniformPictureMeasures` | material_complexity_app.py:195-224 | a uniform picture with a uniform edge map measures FD = 1.0 and L = 0.0, both read at the low level |

## Left out

- The Streamlit interface (`material_complexity_app.py:11-113`, `227-489`): page setup, styling, upload, result cards and footer. It displays results and computes nothing.
- The run history in the session state: the append, the clear and the table. It is interface state, not measurement.
- `cv2.cvtColor` and `cv2.Canny`. These are library calls. The grayscale image and the edge map are inputs. The model does not check that the edge map is the Canny output of the grayscale image.
- `np.log` and `np.polyfit`. These are a floating-point regression. The slope is the parameter `fit`, and only the filter, the sentinel and the clamp are modelled.
- The square root inside `np.std`. The model keeps the variance and divides it by the squared mean, which is `(std / mean) ** 2` in exact arithmetic.
- Floating point. Values are exact reals. The model does not capture rounding in the mean, the standard deviation and its square, the thresholds (1.2 and the like are not exact binary fractions), or NaN results of the fit.
- PIL decoding, the formatted strings and the CSV export. These are I/O and display formatting.
- Color input. `fractal_dimension` and `lacunarity` accept a 3-channel image and convert it. The model starts from the 2-D grayscale image.
- A box size of 0. `box_count(image, 0)` divides by zero; the model requires `k >= 1`. `fractal_dimension` only passes sizes 2 to 64, so no reachable call is excluded.
- Pixel type. Pixels are unbounded integers. For the source's unsigned 8-bit pixels, `box.max() - box.min()` cannot wrap, because the maximum is never below the minimum. So the subtraction is modelled as plain integer subtraction.
