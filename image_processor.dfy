/** Display windowing of a slice and the physical spacing of the series.
    Pixel values, the window center and the window width are integers, so the
    float arithmetic of the source is computed exactly over the reals. */
module ImageProcessor {
  import opened Wrappers
  import opened Numbers
  import opened Grids
  import opened Dataset

  /** The lower edge of the window: half a width below the center. */
  function WindowLower(center: int, width: int): real
  {
    center as real - width as real / 2.0
  }

  /** The upper edge of the window: half a width above the center. */
  function WindowUpper(center: int, width: int): real
  {
    center as real + width as real / 2.0
  }

  /** Clipping as numpy does it: first raise v to at least lo, then lower it
      to at most hi, so when lo > hi every value becomes hi. */
  function Clip(v: real, lo: real, hi: real): (x: real)
    ensures lo <= hi ==> lo <= x <= hi
    ensures hi < lo ==> x == hi
    ensures lo <= v <= hi ==> x == v
  {
    var m := if v < lo then lo else v;
    if m > hi then hi else m
  }

  /** The float ((clip(v) - lower) / width) * 255.0 before the cast. */
  function Scaled(v: int, center: int, width: int): (y: real)
    requires width != 0
    ensures 0.0 <= y <= 255.0
  {
    var lower, upper := WindowLower(center, width), WindowUpper(center, width);
    var x := Clip(v as real, lower, upper);
    var w := width as real;
    if 0 < width then
      assert 0.0 <= x - lower <= w;
      assert 0.0 <= (x - lower) / w <= 1.0;
      (x - lower) / w * 255.0
    else
      assert x == upper && x - lower == w;
      assert (x - lower) / w == 1.0;
      (x - lower) / w * 255.0
  }

  /** The windowed value of one pixel: the scaled value cast to an 8-bit
      unsigned integer, which truncates toward zero. */
  function WindowPixel(v: int, center: int, width: int): (out: int)
    requires width != 0
    ensures 0 <= out <= 255
  {
    Trunc(Scaled(v, center, width))
  }

  /** apply_windowing: the pixel transform applied to every entry. */
  function ApplyWindowing(image: Grid, center: int, width: int): (out: Grid)
    requires width != 0
    ensures SameShape(out, image)
    ensures forall r, c :: 0 <= r < |image| && 0 <= c < |image[r]| ==>
              out[r][c] == WindowPixel(image[r][c], center, width) && 0 <= out[r][c] <= 255
  {
    seq(|image|, r requires 0 <= r < |image| =>
      seq(|image[r]|, c requires 0 <= c < |image[r]| => WindowPixel(image[r][c], center, width)))
  }

  /** Values at or below the lower edge of the window map to 0, values at or
      above the upper edge map to 255. */
  lemma WindowSaturates(v: int, center: int, width: int)
    requires 0 < width
    ensures v as real <= WindowLower(center, width) ==> WindowPixel(v, center, width) == 0
    ensures v as real >= WindowUpper(center, width) ==> WindowPixel(v, center, width) == 255
  {
    if v as real <= WindowLower(center, width) {
      ScaledAtEdge(v, center, width, WindowLower(center, width));
      assert Scaled(v, center, width) == 0.0;
    }
    if v as real >= WindowUpper(center, width) {
      ScaledAtEdge(v, center, width, WindowUpper(center, width));
      assert Scaled(v, center, width) == 255.0;
    }
  }

  /** When the pixel is clipped to the edge x, the scaled value is the
      edge's offset from the lower edge, over the width, times 255. */
  lemma ScaledAtEdge(v: int, center: int, width: int, x: real)
    requires 0 < width
    requires Clip(v as real, WindowLower(center, width), WindowUpper(center, width)) == x
    ensures x == WindowLower(center, width) ==> Scaled(v, center, width) == 0.0
    ensures x == WindowUpper(center, width) ==> Scaled(v, center, width) == 255.0
  {
    var w, lower := width as real, WindowLower(center, width);
    assert Scaled(v, center, width) == (x - lower) / w * 255.0;
    if x == WindowUpper(center, width) {
      assert x - lower == w;
      QuotientUnique(1.0, w, w);
    } else if x == lower {
      QuotientUnique(0.0, 0.0, w);
    }
  }

  /** A negative width makes the window empty: np.clip returns the upper edge
      everywhere and every pixel maps to 255. */
  lemma NegativeWidthSaturates(v: int, center: int, width: int)
    requires width < 0
    ensures WindowPixel(v, center, width) == 255
  {
    var lower, upper := WindowLower(center, width), WindowUpper(center, width);
    assert Clip(v as real, lower, upper) == upper;
    assert (upper - lower) / width as real == 1.0;
    assert Scaled(v, center, width) == 255.0;
  }

  /** Windowing is monotone in the pixel value. */
  lemma WindowMonotone(v1: int, v2: int, center: int, width: int)
    requires width != 0 && v1 <= v2
    ensures WindowPixel(v1, center, width) <= WindowPixel(v2, center, width)
  {
    if 0 < width {
      var lower, upper := WindowLower(center, width), WindowUpper(center, width);
      var w := width as real;
      var x1, x2 := Clip(v1 as real, lower, upper), Clip(v2 as real, lower, upper);
      assert x1 <= x2;
      DivMonotone(x1 - lower, x2 - lower, w);
      var y1, y2 := Scaled(v1, center, width), Scaled(v2, center, width);
      assert y1 <= y2;
      TruncIsFloorOnNonNegative(y1);
      TruncIsFloorOnNonNegative(y2);
    }
  }

  lemma DivMonotone(a: real, b: real, w: real)
    requires a <= b && 0.0 < w
    ensures a / w * 255.0 <= b / w * 255.0
  {
    assert a / w <= b / w;
  }

  /** Inside the window the output is an exact integer quotient:
      floor(255 * (2(v - center) + width) / (2 width)). */
  lemma WindowIntegerFormula(v: int, center: int, width: int)
    requires 0 < width
    requires WindowLower(center, width) <= v as real <= WindowUpper(center, width)
    ensures 0 <= 255 * (2 * (v - center) + width)
    ensures WindowPixel(v, center, width) == (255 * (2 * (v - center) + width)) / (2 * width)
  {
    var lower, upper := WindowLower(center, width), WindowUpper(center, width);
    var n, d := 255 * (2 * (v - center) + width), 2 * width;
    assert Clip(v as real, lower, upper) == v as real;
    assert v as real - lower == (2 * (v - center) + width) as real / 2.0;
    var y := Scaled(v, center, width);
    var a, w := (2 * (v - center) + width) as real, width as real;
    assert y == (a / 2.0) / w * 255.0;
    assert y * (2.0 * w) == 255.0 * a by {
      var p := (a / 2.0) / w;
      assert p * w == a / 2.0;
      assert y * (2.0 * w) == 255.0 * (2.0 * (p * w));
    }
    assert n as real == 255.0 * a && d as real == 2.0 * w;
    QuotientUnique(y, n as real, d as real);
    assert 0 <= n by {
      assert 0.0 <= n as real / d as real;
    }
    FloorOfQuotient(n, d);
    TruncIsFloorOnNonNegative(y);
  }

  lemma FloorOfQuotient(n: int, d: int)
    requires 0 <= n && 0 < d
    ensures (n as real / d as real).Floor == n / d
  {
    var q, m := n / d, n % d;
    assert n == q * d + m && 0 <= m < d;
    var x := n as real / d as real;
    assert x * d as real == n as real;
    assert (q * d) as real == q as real * d as real;
    assert q as real * d as real <= n as real < (q + 1) as real * d as real;
    var gap := ((q + 1) * d - n) as real;
    assert 0.0 < gap;
    assert (q as real + 1.0 - x) * d as real == gap;
    QuotientUnique(q as real + 1.0 - x, gap, d as real);
    assert q as real <= x < q as real + 1.0;
  }

  lemma QuotientUnique(y: real, n: real, d: real)
    requires d != 0.0 && y * d == n
    ensures y == n / d
  {
    assert (n / d) * d == n;
    assert (y - n / d) * d == 0.0;
  }

  /** The spacing used when an attribute is missing. */
  const DefaultSpacing := Spacing(1.0, 1.0, 1.0)

  /** get_spacing: PixelSpacing and SliceThickness of the first record, or the
      default for all three values as soon as either attribute is missing. */
  function GetSpacing(series: seq<Record>): (sp: Spacing)
    requires |series| > 0
    ensures series[0].pixelSpacing.Some? && series[0].sliceThickness.Some? ==>
              sp == Spacing(series[0].pixelSpacing.value.0, series[0].pixelSpacing.value.1,
                            series[0].sliceThickness.value)
    ensures series[0].pixelSpacing.None? || series[0].sliceThickness.None? ==> sp == DefaultSpacing
  {
    var ds := series[0];
    match (ds.pixelSpacing, ds.sliceThickness)
    case (Some(ps), Some(t)) => Spacing(ps.0, ps.1, t)
    case _ => DefaultSpacing
  }
}
