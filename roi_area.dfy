/** The statistics of a mask captured by the ROI dialog: the selection and the
    area of a rectangle follow from its corners. */
module RoiArea {
  import opened Numbers
  import opened Grids
  import opened Dataset
  import opened Roi
  import opened StatsCalculator

  /** For corners inside a rows-by-cols slice, the rectangle's mask has the
      image's shape and selects (x_max - x_min) * (y_max - y_min) pixels. */
  lemma RectangleSelection(image: Grid, rows: nat, cols: nat, s: Point, e: Point)
    requires HasShape(image, rows, cols)
    requires 0 <= s.x <= cols && 0 <= e.x <= cols
    requires 0 <= s.y <= rows && 0 <= e.y <= rows
    ensures SameShape(MaskGrid(rows, cols, s, e), image)
    ensures |SelectPixels(MaskGrid(rows, cols, s, e), image)| ==
              (Max(s.x, e.x) - Min(s.x, e.x)) * (Max(s.y, e.y) - Min(s.y, e.y))
  {
    var w: nat, h: nat := Max(s.x, e.x) - Min(s.x, e.x), Max(s.y, e.y) - Min(s.y, e.y);
    InBoundsMaskOnesCount(rows, cols, s, e);
    BinaryMaskStats(MaskGrid(rows, cols, s, e), image, rows, cols, Spacing(1.0, 1.0, 1.0), w * h);
  }

  /** For corners inside the slice, the area of the rectangle's mask is its
      pixel count (x_max - x_min) * (y_max - y_min) times the row and column
      spacings. */
  lemma RectangleArea(image: Grid, rows: nat, cols: nat, s: Point, e: Point, spacing: Spacing)
    requires HasShape(image, rows, cols)
    requires 0 <= s.x <= cols && 0 <= e.x <= cols
    requires 0 <= s.y <= rows && 0 <= e.y <= rows
    ensures SameShape(MaskGrid(rows, cols, s, e), image)
    ensures CalculateRoiStats(MaskGrid(rows, cols, s, e), image, spacing).sizeMm2 ==
              AreaMm2((Max(s.x, e.x) - Min(s.x, e.x)) * (Max(s.y, e.y) - Min(s.y, e.y)), spacing)
  {
    var w: nat, h: nat := Max(s.x, e.x) - Min(s.x, e.x), Max(s.y, e.y) - Min(s.y, e.y);
    InBoundsMaskOnesCount(rows, cols, s, e);
    BinaryMaskStats(MaskGrid(rows, cols, s, e), image, rows, cols, spacing, w * h);
  }

  /** For corners inside the slice, the rectangle's statistics have no mean
      exactly when the rectangle has zero width or zero height. */
  lemma RectangleMean(image: Grid, rows: nat, cols: nat, s: Point, e: Point, spacing: Spacing)
    requires HasShape(image, rows, cols)
    requires 0 <= s.x <= cols && 0 <= e.x <= cols
    requires 0 <= s.y <= rows && 0 <= e.y <= rows
    ensures SameShape(MaskGrid(rows, cols, s, e), image)
    ensures CalculateRoiStats(MaskGrid(rows, cols, s, e), image, spacing).mean.None? <==>
              s.x == e.x || s.y == e.y
  {
    var w: nat, h: nat := Max(s.x, e.x) - Min(s.x, e.x), Max(s.y, e.y) - Min(s.y, e.y);
    InBoundsMaskOnesCount(rows, cols, s, e);
    BinaryMaskStats(MaskGrid(rows, cols, s, e), image, rows, cols, spacing, w * h);
    ZeroProduct(w, h);
  }

  /** The statistics of any 0/1 mask of the image's shape with n ones. */
  lemma BinaryMaskStats(mask: Grid, image: Grid, rows: nat, cols: nat, spacing: Spacing, n: nat)
    requires HasShape(image, rows, cols) && HasShape(mask, rows, cols)
    requires IsBinary(mask) && GridOnes(mask) == n
    ensures SameShape(mask, image)
    ensures |SelectPixels(mask, image)| == n
    ensures CalculateRoiStats(mask, image, spacing).sizeMm2 == AreaMm2(n, spacing)
    ensures CalculateRoiStats(mask, image, spacing).mean.None? <==> n == 0
  {
    NumPixelsIsSelectedCount(mask, image);
  }

  lemma ZeroProduct(w: nat, h: nat)
    ensures w * h == 0 <==> w == 0 || h == 0
  {
    if w > 0 && h > 0 {
      assert w * h >= h;
    }
  }
}
