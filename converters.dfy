/** The bilinear CPU renderer of Converters.hpp: the four-neighbour blend, the
    per-pixel sampling step, the static column partition among the threads,
    and the padding of the GPU read-back size. */
module Converters {
  import opened CMath
  import opened Matrix
  import opened Bitmaps
  import opened Affine

  datatype Option<T> = None | Some(value: T)

  // ---------------------------------------------------------------------
  // bilinearInterpolation

  /** The four blending weights d1..d4, applied in that order to the neighbours
      p1 = (ix, iy), p2 = (ix + 1, iy), p3 = (ix, iy + 1) and p4 = (ix + 1, iy + 1). */
  datatype Weights = Weights(d1: real, d2: real, d3: real, d4: real)

  /** Weights that form a convex combination. */
  predicate Convex(w: Weights)
  {
    0.0 <= w.d1 <= 1.0 && 0.0 <= w.d2 <= 1.0 && 0.0 <= w.d3 <= 1.0 && 0.0 <= w.d4 <= 1.0 &&
    w.d1 + w.d2 + w.d3 + w.d4 == 1.0
  }

  /** One channel of the weighted sum p1 * d1 + p2 * d2 + p3 * d3 + p4 * d4. */
  function Blend(c1: real, c2: real, c3: real, c4: real, w: Weights): (r: real)
    ensures w == Weights(1.0, 0.0, 0.0, 0.0) ==> r == c1
  {
    c1 * w.d1 + c2 * w.d2 + c3 * w.d3 + c4 * w.d4
  }

  /** A double the conversion to an 8-bit channel is defined for. */
  predicate ChannelFits(v: real)
  {
    -1.0 < v < 256.0
  }

  /** Assigning a double to an 8-bit channel: truncation toward zero. */
  function Narrow(v: real): (c: Channel)
    requires ChannelFits(v)
    ensures v >= 0.0 ==> c as real <= v < c as real + 1.0
    ensures v < 0.0 ==> c == 0
  {
    Truncate(v) as Channel
  }

  lemma NonnegativeProduct(x: real, y: real)
    requires x >= 0.0 && y >= 0.0
    ensures x * y >= 0.0
  {
  }

  /** Weights summing to one distribute over a constant. */
  lemma ConstantBlend(v: real, d1: real, d2: real, d3: real, d4: real)
    requires d1 + d2 + d3 + d4 == 1.0
    ensures v * d1 + v * d2 + v * d3 + v * d4 == v
  {
    assert v * d1 + v * d2 + v * d3 + v * d4 == v * (d1 + d2 + d3 + d4);
  }

  /** Raising every value raises their weighted sum under non-negative weights. */
  lemma ScaledSumAbove(c1: real, c2: real, c3: real, c4: real,
                       d1: real, d2: real, d3: real, d4: real, lo: real)
    requires d1 >= 0.0 && d2 >= 0.0 && d3 >= 0.0 && d4 >= 0.0
    requires lo <= c1 && lo <= c2 && lo <= c3 && lo <= c4
    ensures lo * d1 + lo * d2 + lo * d3 + lo * d4 <= c1 * d1 + c2 * d2 + c3 * d3 + c4 * d4
  {
    ScaleOrdered(lo, c1, d1);
    ScaleOrdered(lo, c2, d2);
    ScaleOrdered(lo, c3, d3);
    ScaleOrdered(lo, c4, d4);
  }

  /** Lowering every value lowers their weighted sum under non-negative weights. */
  lemma ScaledSumBelow(c1: real, c2: real, c3: real, c4: real,
                       d1: real, d2: real, d3: real, d4: real, hi: real)
    requires d1 >= 0.0 && d2 >= 0.0 && d3 >= 0.0 && d4 >= 0.0
    requires c1 <= hi && c2 <= hi && c3 <= hi && c4 <= hi
    ensures c1 * d1 + c2 * d2 + c3 * d3 + c4 * d4 <= hi * d1 + hi * d2 + hi * d3 + hi * d4
  {
    ScaleOrdered(c1, hi, d1);
    ScaleOrdered(c2, hi, d2);
    ScaleOrdered(c3, hi, d3);
    ScaleOrdered(c4, hi, d4);
  }

  /** A convex blend stays between the smallest and the largest value it mixes. */
  lemma BlendBetween(c1: real, c2: real, c3: real, c4: real, w: Weights, lo: real, hi: real)
    requires Convex(w)
    requires lo <= c1 <= hi && lo <= c2 <= hi && lo <= c3 <= hi && lo <= c4 <= hi
    ensures lo <= Blend(c1, c2, c3, c4, w) <= hi
  {
    ScaledSumAbove(c1, c2, c3, c4, w.d1, w.d2, w.d3, w.d4, lo);
    ConstantBlend(lo, w.d1, w.d2, w.d3, w.d4);
    ScaledSumBelow(c1, c2, c3, c4, w.d1, w.d2, w.d3, w.d4, hi);
    ConstantBlend(hi, w.d1, w.d2, w.d3, w.d4);
  }

  /** The channel of a blend of four pixels' channels, with the narrowing the
      assignment to result.r, result.g or result.b performs. */
  function BlendChannel(c1: Channel, c2: Channel, c3: Channel, c4: Channel, w: Weights): (r: Channel)
    requires ChannelFits(Blend(c1 as real, c2 as real, c3 as real, c4 as real, w))
    ensures w == Weights(1.0, 0.0, 0.0, 0.0) ==> r == c1
  {
    Narrow(Blend(c1 as real, c2 as real, c3 as real, c4 as real, w))
  }

  /** Whether all three channel blends of the four pixels can be stored. */
  predicate PixelsFit(p1: Pixel, p2: Pixel, p3: Pixel, p4: Pixel, w: Weights)
  {
    ChannelFits(Blend(p1.r as real, p2.r as real, p3.r as real, p4.r as real, w)) &&
    ChannelFits(Blend(p1.g as real, p2.g as real, p3.g as real, p4.g as real, w)) &&
    ChannelFits(Blend(p1.b as real, p2.b as real, p3.b as real, p4.b as real, w))
  }

  /** bilinearInterpolation: each channel is the weighted sum of the four neighbours'
      channels, narrowed to 8 bits; the weights (1, 0, 0, 0) reproduce p1. */
  function BilinearInterpolation(p1: Pixel, p2: Pixel, p3: Pixel, p4: Pixel, w: Weights): (p: Pixel)
    requires PixelsFit(p1, p2, p3, p4, w)
    ensures w == Weights(1.0, 0.0, 0.0, 0.0) ==> p == p1
  {
    Pixel(BlendChannel(p1.r, p2.r, p3.r, p4.r, w),
          BlendChannel(p1.g, p2.g, p3.g, p4.g, w),
          BlendChannel(p1.b, p2.b, p3.b, p4.b, w))
  }

  /** The smallest and largest of four channels. */
  function Lowest(c1: Channel, c2: Channel, c3: Channel, c4: Channel): int
  {
    Min(Min(c1 as int, c2 as int), Min(c3 as int, c4 as int))
  }

  function Highest(c1: Channel, c2: Channel, c3: Channel, c4: Channel): int
  {
    Max(Max(c1 as int, c2 as int), Max(c3 as int, c4 as int))
  }

  /** A narrowed convex blend of four channels lies between their minimum and maximum. */
  lemma ChannelBetween(c1: Channel, c2: Channel, c3: Channel, c4: Channel, w: Weights)
    requires Convex(w)
    ensures ChannelFits(Blend(c1 as real, c2 as real, c3 as real, c4 as real, w))
    ensures Lowest(c1, c2, c3, c4) <= BlendChannel(c1, c2, c3, c4, w) as int <= Highest(c1, c2, c3, c4)
  {
    var lo, hi := Lowest(c1, c2, c3, c4), Highest(c1, c2, c3, c4);
    BlendBetween(c1 as real, c2 as real, c3 as real, c4 as real, w, lo as real, hi as real);
    BlendBetween(c1 as real, c2 as real, c3 as real, c4 as real, w, 0.0, 255.0);
  }

  /** Under convex weights every channel of the interpolated pixel stays within the
      range of that channel over the four neighbours. */
  lemma InterpolationBetween(p1: Pixel, p2: Pixel, p3: Pixel, p4: Pixel, w: Weights)
    requires Convex(w)
    ensures PixelsFit(p1, p2, p3, p4, w)
    ensures var p := BilinearInterpolation(p1, p2, p3, p4, w);
            Lowest(p1.r, p2.r, p3.r, p4.r) <= p.r as int <= Highest(p1.r, p2.r, p3.r, p4.r) &&
            Lowest(p1.g, p2.g, p3.g, p4.g) <= p.g as int <= Highest(p1.g, p2.g, p3.g, p4.g) &&
            Lowest(p1.b, p2.b, p3.b, p4.b) <= p.b as int <= Highest(p1.b, p2.b, p3.b, p4.b)
  {
    ChannelBetween(p1.r, p2.r, p3.r, p4.r, w);
    ChannelBetween(p1.g, p2.g, p3.g, p4.g, w);
    ChannelBetween(p1.b, p2.b, p3.b, p4.b, w);
  }

  /** Convex weights always give storable channels. */
  lemma ConvexFits(p1: Pixel, p2: Pixel, p3: Pixel, p4: Pixel, w: Weights)
    requires Convex(w)
    ensures PixelsFit(p1, p2, p3, p4, w)
  {
    BlendBetween(p1.r as real, p2.r as real, p3.r as real, p4.r as real, w, 0.0, 255.0);
    BlendBetween(p1.g as real, p2.g as real, p3.g as real, p4.g as real, w, 0.0, 255.0);
    BlendBetween(p1.b as real, p2.b as real, p3.b as real, p4.b as real, w, 0.0, 255.0);
  }

  // ---------------------------------------------------------------------
  // The weights

  /** The weights as Converters.hpp computes them from the fractional parts t and u:
      d3 = t u goes to p3 = (ix, iy + 1) and d4 = (1 - t) u to p4 = (ix + 1, iy + 1). */
  function WeightsAsWritten(t: real, u: real): (w: Weights)
    ensures 0.0 <= t <= 1.0 && 0.0 <= u <= 1.0 ==> Convex(w)
  {
    ConvexProducts(t, u);
    Weights((1.0 - t) * (1.0 - u), t * (1.0 - u), t * u, (1.0 - t) * u)
  }

  /** The bilinear weights: each neighbour is weighted by the area of the opposite
      sub-rectangle, so p3 = (ix, iy + 1) gets (1 - t) u and p4 = (ix + 1, iy + 1) gets t u. */
  function BilinearWeights(t: real, u: real): (w: Weights)
    ensures 0.0 <= t <= 1.0 && 0.0 <= u <= 1.0 ==> Convex(w)
  {
    ConvexProducts(t, u);
    Weights((1.0 - t) * (1.0 - u), t * (1.0 - u), (1.0 - t) * u, t * u)
  }

  /** A fraction of a number in [0, 1] stays in [0, 1]. */
  lemma Fraction(x: real, y: real)
    requires 0.0 <= x <= 1.0 && 0.0 <= y <= 1.0
    ensures 0.0 <= x * y <= y
  {
    NonnegativeProduct(x, y);
    NonnegativeProduct(1.0 - x, y);
    assert y - x * y == (1.0 - x) * y;
  }

  /** The four products of t, 1 - t, u and 1 - u lie in [0, 1] and sum to 1. */
  lemma ConvexProducts(t: real, u: real)
    ensures 0.0 <= t <= 1.0 && 0.0 <= u <= 1.0 ==>
              0.0 <= (1.0 - t) * (1.0 - u) <= 1.0 && 0.0 <= t * (1.0 - u) <= 1.0 &&
              0.0 <= (1.0 - t) * u <= 1.0 && 0.0 <= t * u <= 1.0
    ensures (1.0 - t) * (1.0 - u) + t * (1.0 - u) + (1.0 - t) * u + t * u == 1.0
  {
    if 0.0 <= t <= 1.0 && 0.0 <= u <= 1.0 {
      Fraction(1.0 - t, 1.0 - u);
      Fraction(t, 1.0 - u);
      Fraction(1.0 - t, u);
      Fraction(t, u);
    }
  }

  /** GLSL mix(x, y, a) = x (1 - a) + y a. */
  function Mix(x: real, y: real, a: real): (r: real)
    ensures a == 0.0 ==> r == x
    ensures a == 1.0 ==> r == y
  {
    x * (1.0 - a) + y * a
  }

  /** The corrected weights blend exactly as the GPU shader does: mix the two upper
      neighbours and the two lower neighbours by t, then the two results by u. */
  lemma CorrectedMatchesShader(c1: real, c2: real, c3: real, c4: real, t: real, u: real)
    ensures Blend(c1, c2, c3, c4, BilinearWeights(t, u)) == Mix(Mix(c1, c2, t), Mix(c3, c4, t), u)
  {
    var top, bottom := Mix(c1, c2, t), Mix(c3, c4, t);
    assert Mix(top, bottom, u) == c1 * (1.0 - t) * (1.0 - u) + c2 * t * (1.0 - u) + c3 * (1.0 - t) * u + c4 * t * u;
  }

  /** The weights as written coincide with the bilinear ones exactly when the source
      point sits on the upper edge of its cell (u = 0) or halfway across it (t = 1/2). */
  lemma AsWrittenAgreesIff(t: real, u: real)
    ensures WeightsAsWritten(t, u) == BilinearWeights(t, u) <==> u == 0.0 || t == 0.5
  {
    var asWritten, bilinear := WeightsAsWritten(t, u), BilinearWeights(t, u);
    var k := 2.0 * t - 1.0;
    assert asWritten.d3 - bilinear.d3 == k * u by {
      assert asWritten.d3 == t * u && bilinear.d3 == (1.0 - t) * u;
      assert t * u - (1.0 - t) * u == k * u;
    }
    if u != 0.0 && t != 0.5 {
      NonzeroProduct(k, u);
    }
  }

  lemma NonzeroProduct(x: real, y: real)
    requires x != 0.0 && y != 0.0
    ensures x * y != 0.0
  {
  }

  /** A source point halfway down the left edge of a cell, between a black pixel
      above and a bright one below to the right: the code as written mixes in the
      lower-right neighbour (100), where bilinear interpolation and the shader give 0. */
  lemma SwappedWeightsCounterexample()
    ensures WeightsAsWritten(0.0, 0.5) == Weights(0.5, 0.0, 0.0, 0.5)
    ensures BilinearWeights(0.0, 0.5) == Weights(0.5, 0.0, 0.5, 0.0)
    ensures Blend(0.0, 0.0, 0.0, 200.0, WeightsAsWritten(0.0, 0.5)) == 100.0
    ensures Blend(0.0, 0.0, 0.0, 200.0, BilinearWeights(0.0, 0.5)) == 0.0
    ensures Mix(Mix(0.0, 0.0, 0.0), Mix(0.0, 200.0, 0.0), 0.5) == 0.0
  {
  }

  /** Which weights the sampler blends with: the ones Converters.hpp computes, or
      the bilinear ones of the GPU shader. */
  datatype Weighting = AsWritten | Corrected

  /** The weights of a rule for the fractional parts t and u. Both rules are convex
      inside the cell and both pick p1 alone at its corner. */
  function WeightsFor(rule: Weighting, t: real, u: real): (w: Weights)
    ensures 0.0 <= t <= 1.0 && 0.0 <= u <= 1.0 ==> Convex(w)
    ensures t == 0.0 && u == 0.0 ==> w == Weights(1.0, 0.0, 0.0, 0.0)
  {
    match rule
    case AsWritten => WeightsAsWritten(t, u)
    case Corrected => BilinearWeights(t, u)
  }

  // ---------------------------------------------------------------------
  // The per-pixel step of CPURender

  /** ix + (ix < width - 1): the next column, or the last column itself at the edge. */
  function Advance(i: int, size: int): (r: int)
    requires 0 <= i < size
    ensures 0 <= r < size && i <= r <= i + 1
    ensures r == i <==> i == size - 1
  {
    i + (if i < size - 1 then 1 else 0)
  }

  /** The sampling step for the source point (x, y): None when the point lies
      outside [0, width) x [0, height) and the output pixel is left untouched;
      otherwise the blend, under the weights of rule, of the four neighbours of the
      cell the point lies in. */
  function BilinearSample(input: Bitmap, rule: Weighting, x: real, y: real): (r: Option<Pixel>)
    requires input.Valid()
    reads input, input.pixels
    ensures r.Some? <==> 0.0 <= x < input.width as real && 0.0 <= y < input.height as real
  {
    if x < 0.0 || x >= input.width as real || y < 0.0 || y >= input.height as real then None
    else
      var ix, iy := Floor(x), Floor(y);
      var ix', iy' := Advance(ix, input.width), Advance(iy, input.height);
      var p1, p2 := input.Get(ix, iy), input.Get(ix', iy);
      var p3, p4 := input.Get(ix, iy'), input.Get(ix', iy');
      var w := WeightsFor(rule, x - ix as real, y - iy as real);
      ConvexFits(p1, p2, p3, p4, w);
      Some(BilinearInterpolation(p1, p2, p3, p4, w))
  }

  /** A sample is taken exactly when the source point lies inside the input, and then
      each channel lies within the range of that channel over the four neighbours. */
  lemma SampleInsideOnly(input: Bitmap, rule: Weighting, x: real, y: real)
    requires input.Valid()
    ensures BilinearSample(input, rule, x, y).Some? <==>
              0.0 <= x < input.width as real && 0.0 <= y < input.height as real
    ensures BilinearSample(input, rule, x, y).Some? ==>
              var ix, iy := Floor(x), Floor(y);
              0 <= ix < input.width && 0 <= iy < input.height &&
              var ix', iy' := Advance(ix, input.width), Advance(iy, input.height);
              var p1, p2, p3, p4 := input.Get(ix, iy), input.Get(ix', iy), input.Get(ix, iy'), input.Get(ix', iy');
              var p := BilinearSample(input, rule, x, y).value;
              Lowest(p1.r, p2.r, p3.r, p4.r) <= p.r as int <= Highest(p1.r, p2.r, p3.r, p4.r) &&
              Lowest(p1.g, p2.g, p3.g, p4.g) <= p.g as int <= Highest(p1.g, p2.g, p3.g, p4.g) &&
              Lowest(p1.b, p2.b, p3.b, p4.b) <= p.b as int <= Highest(p1.b, p2.b, p3.b, p4.b)
  {
    if 0.0 <= x < input.width as real && 0.0 <= y < input.height as real {
      var ix, iy := Floor(x), Floor(y);
      assert (ix as real) < input.width as real && (iy as real) < input.height as real;
      var ix', iy' := Advance(ix, input.width), Advance(iy, input.height);
      var p1, p2, p3, p4 := input.Get(ix, iy), input.Get(ix', iy), input.Get(ix, iy'), input.Get(ix', iy');
      var w := WeightsFor(rule, x - ix as real, y - iy as real);
      InterpolationBetween(p1, p2, p3, p4, w);
      assert BilinearSample(input, rule, x, y) == Some(BilinearInterpolation(p1, p2, p3, p4, w));
    }
  }

  /** At an integer source point the sample is the input pixel itself. */
  lemma SampleAtPixel(input: Bitmap, rule: Weighting, ix: int, iy: int)
    requires input.Valid() && 0 <= ix < input.width && 0 <= iy < input.height
    ensures BilinearSample(input, rule, ix as real, iy as real) == Some(input.Get(ix, iy))
  {
    assert Floor(ix as real) == ix && Floor(iy as real) == iy;
  }

  /** The sample for output pixel (newX, newY), whose source point is its canvas
      position times the inverse matrix. */
  function SampleAt(input: Bitmap, rule: Weighting, inv: Mat, xOffset: int, yOffset: int, newX: int, newY: int): (r: Option<Pixel>)
    requires input.Valid() && IsMatrix(inv, 3, 3)
    reads input, input.pixels
    ensures r.Some? <==>
              var c := SourcePoint(inv, xOffset, yOffset, newX, newY);
              0.0 <= c[0][0] < input.width as real && 0.0 <= c[0][1] < input.height as real
  {
    var coord := SourcePoint(inv, xOffset, yOffset, newX, newY);
    BilinearSample(input, rule, coord[0][0], coord[0][1])
  }

  /** What the render leaves in output pixel (newX, newY) of a fresh bitmap. */
  function RenderedPixel(input: Bitmap, rule: Weighting, inv: Mat, xOffset: int, yOffset: int, newX: int, newY: int): Pixel
    requires input.Valid() && IsMatrix(inv, 3, 3)
    reads input, input.pixels
  {
    match SampleAt(input, rule, inv, xOffset, yOffset, newX, newY)
    case None => Black
    case Some(p) => p
  }

  /** Both rules take the same sample wherever their weights agree: on the upper
      edge of a cell or halfway across it. */
  lemma RulesAgreeOnEdges(input: Bitmap, x: real, y: real)
    requires input.Valid()
    requires y - Floor(y) as real == 0.0 || x - Floor(x) as real == 0.5
    ensures BilinearSample(input, AsWritten, x, y) == BilinearSample(input, Corrected, x, y)
  {
    AsWrittenAgreesIff(x - Floor(x) as real, y - Floor(y) as real);
  }

  /** The inverse of a vertical stretch by 2. */
  const HalveRows: Mat := [[1.0, 0.0, 0.0], [0.0, 0.5, 0.0], [0.0, 0.0, 1.0]]

  /** A 2 x 2 input, black but for a bright lower-right pixel, stretched vertically
      by 2: output pixel (0, 1) maps back to (0, 0.5), halfway down the left edge
      between two black pixels. The weights as written mix in half of the bright
      pixel; the corrected weights, like the shader, leave the pixel black. */
  lemma RenderedSwapCounterexample(input: Bitmap)
    requires input.Valid() && input.width == 2 && input.height == 2
    requires input.Get(0, 0) == Black && input.Get(1, 0) == Black && input.Get(0, 1) == Black
    requires input.Get(1, 1) == Pixel(200, 200, 200)
    ensures RenderedPixel(input, AsWritten, HalveRows, 0, 0, 0, 1) == Pixel(100, 100, 100)
    ensures RenderedPixel(input, Corrected, HalveRows, 0, 0, 0, 1) == Black
  {
    HalveRowsSource();
    AsWrittenBlendAtHalf();
    CorrectedBlendAtHalf();
    SampleHalfway(input, AsWritten);
    SampleHalfway(input, Corrected);
  }

  /** Output pixel (0, 1) of the stretch maps back to (0, 0.5). */
  lemma HalveRowsSource()
    ensures IsMatrix(HalveRows, 3, 3)
    ensures SourcePoint(HalveRows, 0, 0, 0, 1)[0][0] == 0.0 && SourcePoint(HalveRows, 0, 0, 0, 1)[0][1] == 0.5
  {
    PointTimes(0.0, 1.0, HalveRows);
  }

  /** At t = 0, u = 0.5 the weights as written give half of a bright p4. */
  lemma AsWrittenBlendAtHalf()
    ensures BilinearInterpolation(Black, Black, Black, Pixel(200, 200, 200), WeightsFor(AsWritten, 0.0, 0.5))
            == Pixel(100, 100, 100)
  {
    var w := Weights(0.5, 0.0, 0.0, 0.5);
    assert BlendChannel(0, 0, 0, 200, w) == 100 by {
      assert Blend(0.0, 0.0, 0.0, 200.0, w) == 100.0;
    }
    assert WeightsFor(AsWritten, 0.0, 0.5) == w by {
      assert WeightsAsWritten(0.0, 0.5) == w;
    }
  }

  /** At t = 0, u = 0.5 the corrected weights give nothing of p4. */
  lemma CorrectedBlendAtHalf()
    ensures BilinearInterpolation(Black, Black, Black, Pixel(200, 200, 200), WeightsFor(Corrected, 0.0, 0.5))
            == Black
  {
    var w := Weights(0.5, 0.0, 0.5, 0.0);
    assert BlendChannel(0, 0, 0, 200, w) == 0 by {
      assert Blend(0.0, 0.0, 0.0, 200.0, w) == 0.0;
    }
    assert WeightsFor(Corrected, 0.0, 0.5) == w by {
      assert BilinearWeights(0.0, 0.5) == w;
    }
  }

  /** On a 2 x 2 input the source point (0, 0.5) blends all four pixels with the
      weights of t = 0 and u = 0.5. */
  lemma SampleHalfway(input: Bitmap, rule: Weighting)
    requires input.Valid() && input.width == 2 && input.height == 2
    ensures PixelsFit(input.Get(0, 0), input.Get(1, 0), input.Get(0, 1), input.Get(1, 1), WeightsFor(rule, 0.0, 0.5))
    ensures BilinearSample(input, rule, 0.0, 0.5) ==
              Some(BilinearInterpolation(input.Get(0, 0), input.Get(1, 0), input.Get(0, 1), input.Get(1, 1),
                                         WeightsFor(rule, 0.0, 0.5)))
  {
    assert Floor(0.0) == 0 && Floor(0.5) == 0;
    assert Advance(0, 2) == 1;
    ConvexFits(input.Get(0, 0), input.Get(1, 0), input.Get(0, 1), input.Get(1, 1), WeightsFor(rule, 0.0, 0.5));
  }

  // ---------------------------------------------------------------------
  // The column partition

  /** chunk_size = ceil(new_width / threads_number), which is the least chunk size
      for which threads_number chunks reach new_width. */
  function ChunkSize(newWidth: nat, threads: nat): (size: nat)
    requires threads >= 1
    ensures size * threads >= newWidth
    ensures (size - 1) * threads < newWidth || size == 0
  {
    CeilOfQuotient(newWidth, threads);
    Ceil(newWidth as real / threads as real)
  }

  /** Column x belongs to chunk i: i * size <= x < min((i + 1) * size, new_width). */
  predicate InChunk(x: int, i: int, size: nat, newWidth: nat)
    ensures InChunk(x, i, size, newWidth) ==> x < newWidth
  {
    i * size <= x < Min((i + 1) * size, newWidth)
  }

  lemma MultiplyMonotone(a: int, b: int, k: nat)
    requires a <= b
    ensures a * k <= b * k
  {
  }

  /** The chunk that owns a column is the column divided by the chunk size. */
  lemma ChunkOwner(x: int, i: int, size: nat, newWidth: nat)
    requires 0 <= i && InChunk(x, i, size, newWidth)
    ensures size > 0 && i == x / size
  {
    assert i * size <= x < (i + 1) * size;
    assert (i + 1) * size == i * size + size;
    var q, s := x / size, x % size;
    assert x == q * size + s && 0 <= s < size;
    if q < i {
      MultiplyMonotone(q + 1, i, size);
    } else if q > i {
      MultiplyMonotone(i + 1, q, size);
    }
  }

  /** No column lies in two chunks. */
  lemma ChunksDisjoint(x: int, i: int, j: int, size: nat, newWidth: nat)
    requires 0 <= i && 0 <= j && InChunk(x, i, size, newWidth) && InChunk(x, j, size, newWidth)
    ensures i == j
  {
    ChunkOwner(x, i, size, newWidth);
    ChunkOwner(x, j, size, newWidth);
  }

  /** The chunks 0 .. i - 1 together hold exactly the columns 0 .. min(i * size, new_width) - 1. */
  lemma ChunksPrefix(x: int, i: nat, size: nat, newWidth: nat)
    ensures (exists k :: 0 <= k < i && InChunk(x, k, size, newWidth)) <==> 0 <= x < Min(i * size, newWidth)
  {
    if 0 <= x < Min(i * size, newWidth) {
      PositiveFactor(i, size);
      ColumnInOwnChunk(x, i, size, newWidth);
      var k := x / size;
      assert 0 <= k < i && InChunk(x, k, size, newWidth);
    }
    if exists k :: 0 <= k < i && InChunk(x, k, size, newWidth) {
      var k :| 0 <= k < i && InChunk(x, k, size, newWidth);
      ChunkInPrefix(x, k, i, size, newWidth);
    }
  }

  /** A column among the first i chunks' columns lies in one of them, chunk x / size. */
  lemma ColumnInOwnChunk(x: int, i: nat, size: nat, newWidth: nat)
    requires size > 0 && 0 <= x < Min(i * size, newWidth)
    ensures 0 <= x / size < i && InChunk(x, x / size, size, newWidth)
  {
    var k := x / size;
    QuotientBracket(x, size);
    assert k < i by {
      if k >= i {
        MultiplyMonotone(i, k, size);
      }
    }
    MultiplyMonotone(k + 1, i, size);
  }

  /** A product of naturals is positive only when both factors are. */
  lemma PositiveFactor(i: nat, size: nat)
    requires i * size > 0
    ensures size > 0
  {
  }

  /** x lies between the multiples of size just below and just above it. */
  lemma QuotientBracket(x: int, size: nat)
    requires 0 <= x && size > 0
    ensures (x / size) * size <= x < (x / size + 1) * size
  {
    assert (x / size + 1) * size == (x / size) * size + size;
  }

  /** A column of chunk k < i is among the first i chunks' columns. */
  lemma ChunkInPrefix(x: int, k: int, i: nat, size: nat, newWidth: nat)
    requires 0 <= k < i && InChunk(x, k, size, newWidth)
    ensures 0 <= x < Min(i * size, newWidth)
  {
    MultiplyMonotone(0, k, size);
    MultiplyMonotone(k + 1, i, size);
  }

  /** The chunks of the threads cover exactly the columns 0 .. new_width - 1. */
  lemma ChunksCover(x: int, newWidth: nat, threads: nat)
    requires threads >= 1
    ensures (exists i :: 0 <= i < threads && InChunk(x, i, ChunkSize(newWidth, threads), newWidth))
            <==> 0 <= x < newWidth
  {
    var size := ChunkSize(newWidth, threads);
    assert Min(threads * size, newWidth) == newWidth;
    ChunksPrefix(x, threads, size, newWidth);
  }

  // ---------------------------------------------------------------------
  // CPURender

  /** One thread's work: columns start .. end - 1, every row, each pixel whose source
      point falls inside the input set to its sample and every other pixel left alone. */
  method RenderChunk(output: Bitmap, width: int, height: int, input: Bitmap, rule: Weighting,
                     invMatrix: Mat, xOffset: int, yOffset: int, start: int, end: int)
    requires output.Valid() && input.Valid() && width == input.width && height == input.height && IsMatrix(invMatrix, 3, 3)
    requires output.pixels != input.pixels
    requires 0 <= start && end <= output.width
    modifies output.pixels
    ensures forall x, y :: 0 <= x < output.width && 0 <= y < output.height ==>
              output.pixels[x, y] ==
                if start <= x < end && SampleAt(input, rule, invMatrix, xOffset, yOffset, x, y).Some?
                then SampleAt(input, rule, invMatrix, xOffset, yOffset, x, y).value
                else old(output.pixels[x, y])
  {
    var newX := start;
    while newX < end
      invariant start <= newX <= Max(start, end)
      invariant forall x, y :: 0 <= x < output.width && 0 <= y < output.height ==>
                  output.pixels[x, y] ==
                    if start <= x < newX && SampleAt(input, rule, invMatrix, xOffset, yOffset, x, y).Some?
                    then SampleAt(input, rule, invMatrix, xOffset, yOffset, x, y).value
                    else old(output.pixels[x, y])
    {
      RenderColumn(output, width, height, input, rule, invMatrix, xOffset, yOffset, newX);
      newX := newX + 1;
    }
  }

  /** The body of the per-pixel loop: map the output pixel back into the input and
      sample it there, or report that the source point lies outside the input. */
  method SamplePixel(width: int, height: int, input: Bitmap, rule: Weighting,
                     invMatrix: Mat, xOffset: int, yOffset: int, newX: int, newY: int)
    returns (r: Option<Pixel>)
    requires input.Valid() && width == input.width && height == input.height
    requires IsMatrix(invMatrix, 3, 3)
    ensures r == SampleAt(input, rule, invMatrix, xOffset, yOffset, newX, newY)
  {
    var coord := MultiplyMatrices([[(newX + xOffset) as real, (newY + yOffset) as real, 1.0]], invMatrix);
    assert coord == SourcePoint(invMatrix, xOffset, yOffset, newX, newY);
    var x, y := coord[0][0], coord[0][1];
    if x < 0.0 || x >= width as real || y < 0.0 || y >= height as real {
      return None;
    }
    var ix, iy := Floor(x), Floor(y);
    var nextX, nextY := ix + (if ix < width - 1 then 1 else 0), iy + (if iy < height - 1 then 1 else 0);
    var p1, p2 := input.Get(ix, iy), input.Get(nextX, iy);
    var p3, p4 := input.Get(ix, nextY), input.Get(nextX, nextY);
    var t, u := x - ix as real, y - iy as real;
    var w := WeightsFor(rule, t, u);
    ConvexFits(p1, p2, p3, p4, w);
    r := Some(BilinearInterpolation(p1, p2, p3, p4, w));
  }

  /** The inner loop of a thread: every row of column newX. */
  method RenderColumn(output: Bitmap, width: int, height: int, input: Bitmap, rule: Weighting,
                      invMatrix: Mat, xOffset: int, yOffset: int, newX: int)
    requires output.Valid() && input.Valid() && width == input.width && height == input.height && IsMatrix(invMatrix, 3, 3)
    requires output.pixels != input.pixels
    requires 0 <= newX < output.width
    modifies output.pixels
    ensures forall x, y :: 0 <= x < output.width && 0 <= y < output.height ==>
              output.pixels[x, y] ==
                if x == newX && SampleAt(input, rule, invMatrix, xOffset, yOffset, x, y).Some?
                then SampleAt(input, rule, invMatrix, xOffset, yOffset, x, y).value
                else old(output.pixels[x, y])
  {
    var newY := 0;
    while newY < output.height
      invariant 0 <= newY <= output.height
      invariant forall x, y :: 0 <= x < output.width && 0 <= y < output.height && (x != newX || newY <= y) ==>
                  output.pixels[x, y] == old(output.pixels[x, y])
      invariant forall y :: 0 <= y < newY ==>
                  output.pixels[newX, y] ==
                    if SampleAt(input, rule, invMatrix, xOffset, yOffset, newX, y).Some?
                    then SampleAt(input, rule, invMatrix, xOffset, yOffset, newX, y).value
                    else old(output.pixels[newX, y])
    {
      var sample := SamplePixel(width, height, input, rule, invMatrix, xOffset, yOffset, newX, newY);
      if sample.Some? {
        output.Set(newX, newY, sample.value);
      }
      newY := newY + 1;
    }
  }

  /** CPURender: a fresh new_width x new_height bitmap, its columns split among
      threads_number chunks that each render their own columns. The chunks write
      disjoint columns (ChunksDisjoint), so running them one after the other gives
      what the threads give, and the result does not depend on the thread count.
      With rule == AsWritten this is the render as Converters.hpp writes it; with
      rule == Corrected it is the render with the shader's bilinear weights. */
  method CPURender(width: int, height: int, newWidth: nat, newHeight: nat, xOffset: int, yOffset: int,
                   invMatrix: Mat, input: Bitmap, threadsNumber: nat, rule: Weighting)
    returns (output: Bitmap)
    requires input.Valid() && width == input.width && height == input.height
    requires IsMatrix(invMatrix, 3, 3) && threadsNumber >= 1
    ensures fresh(output) && fresh(output.pixels) && output.Valid()
    ensures output.width == newWidth && output.height == newHeight
    ensures forall x, y :: 0 <= x < newWidth && 0 <= y < newHeight ==>
              output.pixels[x, y] == RenderedPixel(input, rule, invMatrix, xOffset, yOffset, x, y)
  {
    output := new Bitmap(newWidth, newHeight);
    var chunkSize := ChunkSize(newWidth, threadsNumber);
    var i := 0;
    ghost var covered := 0;
    while i < threadsNumber
      invariant 0 <= i <= threadsNumber
      invariant covered == Min(i * chunkSize, newWidth)
      invariant forall x, y :: 0 <= x < newWidth && 0 <= y < newHeight ==>
                  output.pixels[x, y] ==
                    if x < covered then RenderedPixel(input, rule, invMatrix, xOffset, yOffset, x, y) else Black
    {
      var start, end := i * chunkSize, Min((i + 1) * chunkSize, newWidth);
      ChunkStep(i, chunkSize, newWidth);
      RenderChunk(output, width, height, input, rule, invMatrix, xOffset, yOffset, start, end);
      i, covered := i + 1, end;
    }
    assert Min(threadsNumber * chunkSize, newWidth) == newWidth;
  }

  /** The columns done after chunk i are those done before it and those of chunk i. */
  lemma ChunkStep(i: nat, size: nat, newWidth: nat)
    ensures Min(i * size, newWidth) <= i * size
    ensures Min(i * size, newWidth) <= Min((i + 1) * size, newWidth)
    ensures Min(i * size, newWidth) == i * size || Min(i * size, newWidth) == Min((i + 1) * size, newWidth)
  {
    assert (i + 1) * size == i * size + size;
  }

  // ---------------------------------------------------------------------
  // GPURender's read-back size

  /** buffer_width = ceil(new_width / 4.0) * 4: the least multiple of 4 not below new_width. */
  function PaddedSize(n: nat): (r: nat)
    ensures r % 4 == 0 && n <= r < n + 4
    ensures forall m: nat :: m % 4 == 0 && n <= m ==> r <= m
  {
    CeilOfQuotient(n, 4);
    Ceil(n as real / 4.0) * 4
  }
}
