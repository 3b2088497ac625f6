# Affine transforms of bitmaps, modelled in Dafny

Affine-transforms is a command-line tool that warps a bitmap by a 2-D linear map.
The map is given by four coefficients `a, b, c, d`. It is written as the
homogeneous 3x3 matrix `[[a, b, 0], [c, d, 0], [0, 0, 1]]`, which acts on row
vectors `[x, y, 1]`. The tool does four things:

- It inverts the matrix by Gauss–Jordan elimination without pivoting.
- It maps the four corners of the input forward. The ceilings of the images give
  the size of the output canvas and its offset.
- It inverse-maps every output pixel back into the input. It then takes either
  the nearest pixel (the loop in `main.cpp`) or a bilinear blend of the four
  neighbours (`CPURender`, whose columns are split into chunks, one per thread).
- It pads the GPU read-back buffer to a multiple of 4.

The project has five modules:

- `CMath` (`cmath.dfy`): `floor`, `ceil`, `round` and truncation, over exact reals.
- `Bitmaps` (`bitmaps.dfy`): the bitmap as a class over an `array2` of 8-bit RGB pixels.
- `Matrix` (`matrix.dfy`): `multiplyMatrices` and `inverseMatrix`. Each is an
  imperative method, proved equal to a functional specification of the same
  row operations. The lemmas then prove that the result is a left inverse.
- `Affine` (`affine.dfy`): these model `main.cpp`:
  - the forward matrix and its closed-form inverse;
  - the corner extent;
  - the nearest-neighbour resampling loop.
- `Converters` (`converters.dfy`): these model `Converters.hpp`:
  - bilinear interpolation and its weights;
  - the per-pixel sampling step;
  - the chunked column partition;
  - the chunked render;
  - the GPU padding.

Every `double` is read as a Dafny `real`, so the model describes the arithmetic
as its authors intended it, without rounding error. A zero pivot makes the C++
code divide by zero without a check. The model turns this into the error result
`Failure(SingularMatrix)`.

Because there is no pivoting, the model's inversion of the forward matrix
succeeds exactly when `a != 0` and `a*d - b*c != 0` (`Affine.InverseOfForward`).
An exact quarter turn `(0, -1, 1, 0)` is therefore rejected, although it is
invertible, and `Affine.QuarterTurnExtent` uses these exact coefficients. Both
come from the real-number idealisation. The program computes `a` as
`horizontal_scale * cos(angle)` (src/main.cpp:31), and the double `cos` of a
right angle is a tiny nonzero number. So on a 90-degree rotation the program
divides by a tiny pivot rather than by zero.

The bilinear sampler and the render take a `Weighting` rule:

- `AsWritten` uses the weights `Converters.hpp` computes. With this rule,
  `Converters.CPURender` is the program as written.
- `Corrected` uses the bilinear weights of the GPU shader (see "## Findings").

## Model

| member | source | states |
|---|---|---|
| Matrix.Identity | src/matrix.hpp:21-24 | the n x n matrix with ones on the diagonal and zeros elsewhere, the value `identityMatrix` starts from |
| Matrix.RowCol | src/matrix.hpp:69-70 | the running sum over q < k of `row[q] * second[q][j]`, the value of `result[i][j]` after k steps of the innermost loop |
| Matrix.Product | src/matrix.hpp:63-72 | the product as the specification of the multiplication: `|first|` rows of `|second[0]|` columns, entry (i, j) the full `RowCol` sum |
| Matrix.MultiplyMatrices | src/matrix.hpp:55-75 | the result has `rowFirst` rows and `columnSecond` columns; entry (i, j) is the sum over k of `first[i][k] * second[k][j]`; it equals the specification `Product` |
| Matrix.PointTimes | src/matrix.hpp:65-72 | a row vector `[x, y, 1]` times a 3x3 matrix has entry j equal to `x*m[0][j] + y*m[1][j] + m[2][j]` |
| Matrix.IdentityMatrix | src/matrix.hpp:21-24 | the working matrix built before elimination is the n x n identity |
| Matrix.SubtractPivotRow | src/matrix.hpp:33-37 | the k-loop replaces both working rows by `row - ratio * pivotRow` |
| Matrix.EliminateColumn | src/matrix.hpp:28-39 | one pass of the j-loop applies the row subtraction to every row except the pivot row, in both working matrices |
| Matrix.DividePivotRow | src/matrix.hpp:44-49 | the normalisation divides both working rows by the pivot |
| Matrix.InverseMatrix | src/matrix.hpp:16-52 | the result follows the Gauss–Jordan specification; on success it is an n x n matrix and result x input is the identity; a zero pivot gives `Failure(SingularMatrix)` |
| Matrix.EliminateRow | src/matrix.hpp:30-37 | step j of the elimination of column i: unless j == i, row j of both working matrices loses `ratio = temp[j][i] / temp[i][i]` times row i; the result is still n x n |
| Matrix.EliminateRows | src/matrix.hpp:28-39 | the steps for rows 0 .. j-1 against pivot i, in order; the pivot row of both matrices is unchanged |
| Matrix.Eliminate | src/matrix.hpp:19-40 | columns 0 .. i-1 eliminated from the copy of the input and from the identity, in order; a zero pivot gives `Failure(SingularMatrix)` |
| Matrix.NormalizeRows | src/matrix.hpp:42-50 | rows 0 .. i-1 of both matrices divided by their diagonal entry of `temp`; the later rows are unchanged |
| Matrix.Inverse | src/matrix.hpp:16-52 | what `inverseMatrix` returns: every column eliminated, then every row normalised, and the final `identityMatrix` returned |
| Matrix.EliminateFailureStays | src/matrix.hpp:32 | once a zero pivot is met, elimination fails however many more columns are processed |
| Matrix.EliminateRowsClears | src/matrix.hpp:28-39 | after the row operations for pivot i, column i is zero off the diagonal; earlier cleared columns stay cleared and the pivots stay nonzero |
| Matrix.EliminateClears | src/matrix.hpp:26-40 | after columns 0..i-1 are processed, those columns of `tempMatrix` are zero off the diagonal, with nonzero diagonal entries |
| Matrix.RowColIdentity | src/matrix.hpp:21-24 | a row of the identity times a matrix picks out that row |
| Matrix.ProductIdentity | src/matrix.hpp:21-24 | identity x m == m, so the invariant `identityMatrix * matrix == tempMatrix` holds before elimination starts |
| Matrix.RowColSubtract | src/matrix.hpp:35-36 | a row subtraction commutes with multiplication by the original matrix |
| Matrix.RowColDivide | src/matrix.hpp:47-48 | a row division commutes with multiplication by the original matrix |
| Matrix.SubtractRowKeepsProduct | src/matrix.hpp:35-36 | one subtraction applied to both working matrices keeps `identityMatrix * matrix == tempMatrix` |
| Matrix.DivideRowKeepsProduct | src/matrix.hpp:47-48 | one division applied to both working matrices keeps `identityMatrix * matrix == tempMatrix` |
| Matrix.EliminateRowsKeepsProduct | src/matrix.hpp:28-39 | the whole pass for one pivot keeps `identityMatrix * matrix == tempMatrix` |
| Matrix.EliminateKeepsProduct | src/matrix.hpp:26-40 | elimination keeps `identityMatrix * matrix == tempMatrix` |
| Matrix.NormalizeRowsKeepsProduct | src/matrix.hpp:42-50 | normalisation keeps `identityMatrix * matrix == tempMatrix` |
| Matrix.NormalizeRowsToIdentity | src/matrix.hpp:42-50 | normalising a diagonal matrix with nonzero pivots turns its rows into rows of the identity |
| Matrix.InverseIsLeftInverse | src/matrix.hpp:16-52 | whenever the inversion succeeds, it returns an n x n matrix E with E x input == identity |
| Affine.Forward | src/main.cpp:36-39 | the 3x3 matrix `[[a, b, 0], [c, d, 0], [0, 0, 1]]` |
| Affine.ForwardInverse | src/main.cpp:41 | the closed-form inverse `(1/det) * [[d, -b], [-c, a]]`, as a 3x3 homogeneous matrix, the reference `Affine.InverseOfForward` compares against |
| Affine.CornerImage | src/main.cpp:50-57 | the image of `[X, Y, 1]` under the forward matrix is `[aX + cY, bX + dY, 1]` |
| Affine.InverseOfForward | src/main.cpp:41 | inverting the forward matrix succeeds if and only if `a != 0` and `det != 0`, and on success gives the closed-form inverse |
| Affine.ForwardRoundTrip | src/main.cpp:41 | mapping a point forward and then back with the computed inverse returns the point |
| Affine.Corners | src/main.cpp:50-54 | the corners (0, 0), (width, 0), (0, height) and (width, height) as row vectors `[x, y, 1]`, in that order |
| Affine.MappedCeiling | src/main.cpp:56-62 | the ceiling of one coordinate of a corner times the matrix, converted to int |
| Affine.CornerCeilings | src/main.cpp:56-62 | the four ceilings of one coordinate in corner order: the vector `x` for axis 0, `y` for axis 1 |
| Affine.ComputeExtent | src/main.cpp:50-70 | `new_width`, `new_height`, `x_offset` and `y_offset`, as `ExtentOf` the two ceiling vectors |
| Affine.MinOf | src/main.cpp:64 | the minimum is one of the values and no value is below it |
| Affine.MaxOf | src/main.cpp:64 | the maximum is one of the values and no value is above it |
| Affine.Extremes | src/main.cpp:64-65 | a value of the list that bounds every value from below is the minimum (likewise for the maximum) |
| Affine.ExtentOf | src/main.cpp:64-70 | the offset is the least corner ceiling; offset + size is the greatest; the sizes are therefore non-negative |
| Affine.ExtentUnique | src/main.cpp:67-70 | the extent is exactly (max - min, max - min, min, min) of the corner ceilings |
| Affine.CornerCeilingEntry | src/main.cpp:56-62 | the k-th corner ceiling on an axis is `ceil(X*m[0][axis] + Y*m[1][axis])` for corner k = (X, Y) |
| Affine.IdentityExtent | src/main.cpp:50-70 | with the identity matrix the canvas is width x height with offsets 0 |
| Affine.QuarterTurnExtent | src/main.cpp:50-70 | with the quarter turn `(0, -1, 1, 0)` the canvas is height x width with offsets (0, -width) |
| Affine.SourcePoint | src/main.cpp:78-80 | the source point of output pixel (newX, newY): `[newX + xOffset, newY + yOffset, 1] * invMatrix` |
| Affine.NearestPixel | src/main.cpp:78-88 | what the loop leaves in an output pixel: the input pixel at the rounded source point when it lies in [0, width) x [0, height), and the default pixel otherwise |
| Affine.NearestSample | src/main.cpp:78-86 | the per-pixel step copies `NearestPixel` when the rounded point is inside the input; otherwise that pixel stays default |
| Affine.ResampleColumn | src/main.cpp:76-89 | one column of output pixels becomes the nearest source pixels; all other pixels are unchanged |
| Affine.ResampleNearest | src/main.cpp:72-90 | a fresh newWidth x newHeight bitmap whose every pixel is the nearest-rounded source pixel, or the default pixel where that point falls outside |
| Affine.Warp | src/main.cpp:36-90 | the whole pipeline succeeds iff the inversion does; the output has the computed extent and each pixel is the nearest preimage |
| Affine.NearestIdentity | src/main.cpp:78-88 | with the identity inverse and zero offsets, output pixel (x, y) is input pixel (x, y) |
| Affine.IdentityWarpCopies | src/main.cpp:36-90 | warping by the identity reproduces the input exactly |
| Affine.SourceOfImage | src/main.cpp:78-80 | the inverse maps the image of an input point back to that point |
| Affine.NearestFindsPreimage | src/main.cpp:78-88 | an output pixel whose preimage is an integer input pixel receives exactly that pixel |
| CMath.Floor | src/Converters.hpp:89-90 | the floor is the largest integer not above x |
| CMath.Ceil | src/main.cpp:59-62 | the ceiling is the least integer not below x |
| CMath.Round | src/main.cpp:82-83 | `round` picks a nearest integer, and breaks halfway cases away from zero |
| CMath.Truncate | src/Converters.hpp:44-46 | converting a double to an integer truncates toward zero |
| CMath.CeilOfQuotient | src/Converters.hpp:60 | `ceil(n / (double)d)` equals the integer `(n + d - 1) / d` |
| Converters.Blend | src/Converters.hpp:44-46 | one channel of the weighted sum `c1*d1 + c2*d2 + c3*d3 + c4*d4`, over reals |
| Converters.BlendChannel | src/Converters.hpp:44-46 | that sum stored in an 8-bit channel |
| Converters.Narrow | src/Converters.hpp:44-46 | storing a non-negative sum in a channel keeps its integer part |
| Converters.BilinearInterpolation | src/Converters.hpp:32-49 | each channel is the truncated `p1*d1 + p2*d2 + p3*d3 + p4*d4`; the weights (1, 0, 0, 0) give exactly p1 |
| Converters.BlendBetween | src/Converters.hpp:44-46 | a convex combination lies between the least and greatest of its four values |
| Converters.ChannelBetween | src/Converters.hpp:44-46 | under convex weights the blended channel fits in 8 bits and lies between the neighbours' least and greatest channel |
| Converters.InterpolationBetween | src/Converters.hpp:32-49 | under convex weights every channel of the result lies between the four neighbours' channels |
| Converters.ConvexFits | src/Converters.hpp:104-105 | convex weights never overflow a channel |
| Converters.WeightsAsWritten | src/Converters.hpp:97-102 | the weights as the code computes them are convex for t, u in [0, 1] |
| Converters.BilinearWeights | src/Converters.hpp:97-102 | the corrected weights are convex for t, u in [0, 1] |
| Converters.WeightsFor | src/Converters.hpp:97-102 | the weights of a rule: those written at lines 99-102, or the corrected ones; both are convex for t, u in [0, 1], and both are (1, 0, 0, 0) at t = u = 0 |
| Converters.ConvexProducts | src/Converters.hpp:99-102 | the four products are in [0, 1] and sum to 1 |
| Converters.Mix | src/OpenGL.hpp:107-109 | GLSL `mix(x, y, a) = x * (1 - a) + y * a` |
| Converters.CorrectedMatchesShader | src/OpenGL.hpp:106-110 | the corrected weights give the shader's `mix(mix(p1, p2, t), mix(p3, p4, t), u)` |
| Converters.AsWrittenAgreesIff | src/Converters.hpp:101-102 | the weights as written equal the intended ones if and only if `u == 0` or `t == 0.5` |
| Converters.SwappedWeightsCounterexample | src/Converters.hpp:101-102 | at t = 0, u = 0.5, with only p4 lit, the code gives 100 where the intended value (and the shader) give 0 |
| Converters.Advance | src/Converters.hpp:93-95 | the clamped neighbour `i + (i < size - 1)` stays in [0, size) and moves by one unless i is the last index |
| Converters.BilinearSample | src/Converters.hpp:86-105 | the sample at source point (x, y): none outside [0, width) x [0, height); otherwise the blend, under the rule's weights of `t = x - floor(x)` and `u = y - floor(y)`, of the four clamped neighbours of `(floor(x), floor(y))` |
| Converters.SampleInsideOnly | src/Converters.hpp:86-95 | under either rule, a sample exists iff the point is in [0, width) x [0, height); each channel then lies between the four clamped neighbours' channels |
| Converters.SampleAtPixel | src/Converters.hpp:92-105 | under either rule, at an integer source point the sample is exactly `input.get(ix, iy)` |
| Converters.SampleAt | src/Converters.hpp:79-105 | the sample at the source point of output pixel (newX, newY) |
| Converters.RenderedPixel | src/Converters.hpp:79-107 | what the render leaves in a pixel of the fresh output: the sample, or the default pixel where there is none |
| Converters.RulesAgreeOnEdges | src/Converters.hpp:97-102 | the two rules take the same sample wherever u == 0 or t == 0.5 |
| Converters.RenderedSwapCounterexample | src/Converters.hpp:101-102 | for a 2 x 2 input, black but for pixel (1, 1) = (200, 200, 200), and the inverse of a vertical stretch by 2: output pixel (0, 1) is (100, 100, 100) as written and black under the corrected weights |
| Converters.SamplePixel | src/Converters.hpp:79-105 | the per-pixel step, bounds-checked against the `width` and `height` parameters, computes `SampleAt` under the rule's weights (for `AsWritten`, the weights d1 .. d4 of lines 99-102) |
| Converters.RenderColumn | src/Converters.hpp:77-108 | one column gets its samples under the rule where a sample exists, and keeps its old pixels elsewhere; other columns are unchanged |
| Converters.RenderChunk | src/Converters.hpp:75-117 | the columns `[start, end)` get their samples under the rule; other columns are unchanged |
| Converters.ChunkSize | src/Converters.hpp:60 | `ceil(new_width / T)` is the least chunk size whose T chunks reach `new_width` |
| Converters.InChunk | src/Converters.hpp:75 | column x is in chunk i: `i * chunk_size <= x < min((i + 1) * chunk_size, new_width)` |
| Converters.ChunkOwner | src/Converters.hpp:75 | the chunk that holds column x is `x / chunk_size` |
| Converters.ChunksDisjoint | src/Converters.hpp:67-75 | no column lies in two chunks |
| Converters.ChunksPrefix | src/Converters.hpp:67-75 | the first i chunks together cover exactly `[0, min(i * chunk_size, new_width))` |
| Converters.ChunksCover | src/Converters.hpp:60-75 | a column lies in some chunk `i < T` iff it lies in `[0, new_width)` |
| Converters.CPURender | src/Converters.hpp:51-134 | the output is a fresh `new_width x new_height` bitmap; each pixel is `RenderedPixel` under the rule (for `AsWritten`, the source's blend), or the default pixel where the sample falls outside; this does not depend on the thread count |
| Converters.PaddedSize | src/Converters.hpp:163-164 | `ceil(n / 4.0) * 4` is a multiple of 4, at least n and below n + 4; it is also the least such multiple |
| Bitmaps.Bitmap.constructor | src/Converters.hpp:58 | a new bitmap has the given dimensions and every pixel is the default (black) pixel |
| Bitmaps.Bitmap.Get | src/main.cpp:88 | `get(x, y)`, the pixel in column x of row y, defined only inside the bitmap |
| Bitmaps.Bitmap.Set | src/main.cpp:88 | `set(x, y, p)` changes pixel (x, y) to p and no other pixel |

## Left out

- `printMatrix`, `printProgress` and every other console output are left out: they only print.
- Threads, `join`, the `mutex`, the `try/catch` and the `progress` and
  `checkpoint` counters are left out: they are about concurrency, and the
  columns of different chunks do not overlap. The chunks are rendered one after
  another, which gives the same output because no column is in two chunks
  (`Converters.ChunksDisjoint`). The unlocked `progress` update is a data race, and it only affects output on the console.
- All of `OpenGL.hpp`, and the GL calls in `GPURender`, are left out as foreign
  graphics calls. The GLSL shader's `bilinearInterpolation` appears only as the reference
  `Converters.Mix` for the corrected weights. Of `GPURender` only the padding arithmetic is modelled (`Converters.PaddedSize`).
- The conversion from degrees to radians and the `cos`/`sin`/`tan` formulas for
  `a, b, c, d` are left out because they are transcendental. The coefficients are inputs.
  The uninitialised locals that `main` reads are not modelled.
- Bitmap `load`/`save` and the internals of the bitmap library are left out because
  they are file I/O in code that is not part of this model. A bitmap is modelled as a grid with `get` and `set`. Three things about
  `bmp::Pixel` are assumed, because the library is not shown:
  - channels have 8 bits;
  - a new bitmap is black;
  - assigning a double to a channel truncates toward zero.
- IEEE double rounding is idealised as exact real arithmetic. So are NaN and
  infinities: a zero pivot becomes `Failure(SingularMatrix)` instead of a division by zero.
- Matrix.MultiplyMatrices: requires both inputs to be non-empty and rectangular, with as many columns in `first` as rows in `second`. The source checks none of this. Some other inputs make it read out of bounds. Others are silently truncated, for example a `first` with fewer columns than `second` has rows, or rows longer than row 0. Every call site passes a 1x3 row and a 3x3 matrix (src/main.cpp:56-57,80, src/Converters.hpp:81).
- Converters.CPURender: requires `width` and `height` to be the input's own
  dimensions. The bounds check at src/Converters.hpp:86-95 compares against
  these parameters, so other values would let `get` read outside the input. No
  caller of `CPURender` is part of this model.
- Converters.CPURender: requires `threads_number >= 1`, and so does
  `Converters.ChunkSize`. With zero threads, src/Converters.hpp:60 converts
  `ceil(new_width / 0.0)`, an infinity or NaN, to `int`. That conversion is
  undefined in C++, and then no thread runs.
- Converters.BilinearInterpolation: the sums are proved to fit a channel only
  under convex weights. For other weights, what the C++ narrowing does is not
  modelled, and the function requires that the sums fit (`PixelsFit`).

## Findings

| source | as written | input that shows it | evidently intended | confidence | as-written member | corrected member |
|---|---|---|---|---|---|---|
| src/Converters.hpp:101-102 | `d3 = t * u` weights `p3 = get(ix, iy+1)` and `d4 = (1 - t) * u` weights `p4 = get(ix+1, iy+1)`, so the bottom row's weights are swapped | t = 0, u = 0.5 with only p4's channel at 200: the code gives 100, but the source point lies halfway between p1 and p3, where both are 0 | `d3 = (1 - t) * u` and `d4 = t * u`, as the GPU shader's `mix(mix(p1, p2, t), mix(p3, p4, t), u)` computes (src/OpenGL.hpp:106-110) | not executed | Converters.RenderedSwapCounterexample | Converters.CorrectedMatchesShader |

The weights as written and the corrected weights are modelled as follows:

- `Converters.WeightsAsWritten` models the weights as written.
- `Converters.SwappedWeightsCounterexample` shows the discrepancy on the weights.
- `Converters.RenderedSwapCounterexample` shows it on a whole render.
- `Converters.AsWrittenAgreesIff` proves that the weights as written differ from
  the intended ones unless `u == 0` or `t == 0.5`.
- `Converters.BilinearWeights` gives the corrected weights.
  `Converters.CorrectedMatchesShader` proves that they are the shader's blend.
- The sampler and `Converters.CPURender` take the rule as a parameter. `AsWritten`
  is the program as it stands. `Corrected` is the render the program evidently
  intends.
