/** The ROI selection dialog: mouse press, move and release capture a
    rectangle over the displayed slice, and the rectangle's two corners become
    a 0/1 mask of the slice's shape. Only the state the handlers update is
    modelled; drawing the patch on the canvas is not. */
module Roi {
  import opened Wrappers
  import opened Numbers
  import opened Grids

  /** Integer pixel coordinates: x is the column, y the row. */
  datatype Point = Point(x: int, y: int)

  /** A mouse event: whether it fell inside the image axes, and its data
      coordinates (only meaningful inside the axes). */
  datatype MouseEvent = MouseEvent(inAxes: bool, xdata: real, ydata: real)

  /** The rectangle patch: its anchor corner and its signed width and height. */
  datatype Rect = Rect(corner: Point, width: int, height: int)

  /** The point a handler records for an event: both coordinates truncated
      toward zero, as int() does. */
  function EventPoint(e: MouseEvent): Point
  {
    Point(Trunc(e.xdata), Trunc(e.ydata))
  }

  /** A bound of a slice a[i:j] over an axis of length n, normalised as
      Python and numpy do: a negative bound counts from the end, and the
      result is clamped to [0, n]. */
  function SliceBound(i: int, n: nat): (b: nat)
    ensures b <= n
  {
    if i < 0 then (if i + n < 0 then 0 else i + n)
    else if i > n then n
    else i
  }

  /** The number of indices in [lo, hi). */
  function Span(lo: int, hi: int): nat
  {
    if lo < hi then hi - lo else 0
  }

  /** Cell (r, c) of a rows-by-cols image lies in mask[y_min:y_max, x_min:x_max],
      where the corners s and e are ordered coordinate by coordinate. */
  predicate InRoi(rows: nat, cols: nat, s: Point, e: Point, r: int, c: int)
  {
    SliceBound(Min(s.y, e.y), rows) <= r < SliceBound(Max(s.y, e.y), rows) &&
    SliceBound(Min(s.x, e.x), cols) <= c < SliceBound(Max(s.x, e.x), cols)
  }

  /** The mask get_roi_mask builds for corners s and e over a rows-by-cols image. */
  function MaskGrid(rows: nat, cols: nat, s: Point, e: Point): (m: Grid)
    ensures HasShape(m, rows, cols) && IsBinary(m)
    ensures forall r, c :: 0 <= r < rows && 0 <= c < cols ==>
              (m[r][c] == 1 <==> InRoi(rows, cols, s, e, r, c))
  {
    seq(rows, r => seq(cols, c => if InRoi(rows, cols, s, e, r, c) then 1 else 0))
  }

  /** With non-negative corners a cell is set exactly when its row lies in
      [y_min, y_max) and its column in [x_min, x_max): the end row and the
      end column are excluded. */
  lemma MaskCellExact(rows: nat, cols: nat, s: Point, e: Point, r: int, c: int)
    requires 0 <= s.x && 0 <= s.y && 0 <= e.x && 0 <= e.y
    requires 0 <= r < rows && 0 <= c < cols
    ensures MaskGrid(rows, cols, s, e)[r][c] == 1 <==>
              Min(s.y, e.y) <= r < Max(s.y, e.y) && Min(s.x, e.x) <= c < Max(s.x, e.x)
  {
  }

  /** Swapping the start and end corners gives the same mask. */
  lemma MaskSymmetric(rows: nat, cols: nat, s: Point, e: Point)
    ensures MaskGrid(rows, cols, s, e) == MaskGrid(rows, cols, e, s)
  {
    var m, m' := MaskGrid(rows, cols, s, e), MaskGrid(rows, cols, e, s);
    forall r | 0 <= r < rows
      ensures m[r] == m'[r]
    {
      assert forall c :: 0 <= c < cols ==> m[r][c] == m'[r][c];
    }
  }

  /** A rectangle of zero width or zero height selects nothing. */
  lemma DegenerateMaskIsEmpty(rows: nat, cols: nat, s: Point, e: Point)
    requires s.x == e.x || s.y == e.y
    ensures GridOnes(MaskGrid(rows, cols, s, e)) == 0
  {
    NoOnesIff(MaskGrid(rows, cols, s, e));
  }

  /** A row of n cells whose ones are the cells in [lo, hi). */
  function Indicator(n: nat, lo: int, hi: int): (row: seq<int>)
    ensures |row| == n
  {
    seq(n, c => if lo <= c < hi then 1 else 0)
  }

  lemma IndicatorSnoc(n: nat, lo: int, hi: int)
    requires n > 0
    ensures Indicator(n, lo, hi) == Indicator(n - 1, lo, hi) + [if lo <= n - 1 < hi then 1 else 0]
  {
  }

  lemma {:induction false} IndicatorOnes(n: nat, lo: nat, hi: int)
    ensures Ones(Indicator(n, lo, hi)) == Span(lo, Min(hi, n))
  {
    if n > 0 {
      var last := if lo <= n - 1 < hi then 1 else 0;
      IndicatorSnoc(n, lo, hi);
      OnesConcat(Indicator(n - 1, lo, hi), [last]);
      assert Ones([last]) == last;
      IndicatorOnes(n - 1, lo, hi);
    } else {
      assert Indicator(n, lo, hi) == [];
    }
  }

  /** n rows, each equal to row when its index lies in [lo, hi) and to a
      row of zeros otherwise. */
  function Stripe(n: nat, lo: int, hi: int, row: seq<int>): (g: Grid)
    ensures |g| == n
    ensures forall r :: 0 <= r < n ==> g[r] == if lo <= r < hi then row else Indicator(|row|, 0, 0)
  {
    seq(n, r => if lo <= r < hi then row else Indicator(|row|, 0, 0))
  }

  lemma StripeSnoc(n: nat, lo: int, hi: int, row: seq<int>)
    requires n > 0
    ensures Stripe(n, lo, hi, row) ==
              Stripe(n - 1, lo, hi, row) + [if lo <= n - 1 < hi then row else Indicator(|row|, 0, 0)]
  {
  }

  lemma SpanStep(lo: nat, hi: int, n: nat)
    requires n > 0
    ensures Span(lo, Min(hi, n)) == Span(lo, Min(hi, n - 1)) + if lo <= n - 1 < hi then 1 else 0
  {
  }

  lemma {:induction false} StripeOnes(n: nat, lo: nat, hi: int, row: seq<int>)
    ensures GridOnes(Stripe(n, lo, hi, row)) == Span(lo, Min(hi, n)) * Ones(row)
  {
    if n > 0 {
      var inside := lo <= n - 1 < hi;
      var last := if inside then row else Indicator(|row|, 0, 0);
      StripeSnoc(n, lo, hi, row);
      GridOnesConcat(Stripe(n - 1, lo, hi, row), [last]);
      assert GridOnes([last]) == Ones(last);
      StripeOnes(n - 1, lo, hi, row);
      IndicatorOnes(|row|, 0, 0);
      SpanStep(lo, hi, n);
      MulStep(Span(lo, Min(hi, n - 1)), Ones(row), inside);
    } else {
      assert Stripe(n, lo, hi, row) == [];
    }
  }

  lemma MulStep(k: nat, o: nat, inside: bool)
    ensures (k + if inside then 1 else 0) * o == k * o + if inside then o else 0
  {
  }

  /** The mask has as many ones as the normalised row range times the
      normalised column range. */
  lemma MaskOnesCount(rows: nat, cols: nat, s: Point, e: Point)
    ensures GridOnes(MaskGrid(rows, cols, s, e)) ==
              Span(SliceBound(Min(s.y, e.y), rows), SliceBound(Max(s.y, e.y), rows)) *
              Span(SliceBound(Min(s.x, e.x), cols), SliceBound(Max(s.x, e.x), cols))
  {
    var yLo, yHi := SliceBound(Min(s.y, e.y), rows), SliceBound(Max(s.y, e.y), rows);
    var xLo, xHi := SliceBound(Min(s.x, e.x), cols), SliceBound(Max(s.x, e.x), cols);
    var row := Indicator(cols, xLo, xHi);
    var m := MaskGrid(rows, cols, s, e);
    var st := Stripe(rows, yLo, yHi, row);
    forall r | 0 <= r < rows
      ensures m[r] == st[r]
    {
      assert |st[r]| == cols;
      assert forall c :: 0 <= c < cols ==> m[r][c] == st[r][c];
    }
    assert m == st;
    StripeOnes(rows, yLo, yHi, row);
    IndicatorOnes(cols, xLo, xHi);
    assert Min(yHi, rows) == yHi && Min(xHi, cols) == xHi;
  }

  /** With corners inside the image (a corner may sit on the far edge), the
      mask has (x_max - x_min) * (y_max - y_min) ones. */
  lemma InBoundsMaskOnesCount(rows: nat, cols: nat, s: Point, e: Point)
    requires 0 <= s.x <= cols && 0 <= e.x <= cols
    requires 0 <= s.y <= rows && 0 <= e.y <= rows
    ensures GridOnes(MaskGrid(rows, cols, s, e)) ==
              (Max(s.x, e.x) - Min(s.x, e.x)) * (Max(s.y, e.y) - Min(s.y, e.y))
  {
    MaskOnesCount(rows, cols, s, e);
    InBoundsSpan(s.x, e.x, cols);
    InBoundsSpan(s.y, e.y, rows);
  }

  /** Bounds inside [0, n] are left alone by the normalisation. */
  lemma InBoundsSpan(a: int, b: int, n: nat)
    requires 0 <= a <= n && 0 <= b <= n
    ensures Span(SliceBound(Min(a, b), n), SliceBound(Max(a, b), n)) == Max(a, b) - Min(a, b)
  {
  }

  /** An event whose data coordinates lie over the image (imshow draws
      pixel k over [k - 0.5, k + 0.5]) is recorded as an in-bounds point. */
  lemma EventPointInImage(e: MouseEvent, rows: nat, cols: nat)
    requires 0 < rows && 0 < cols
    requires -1.0 < e.xdata < cols as real && -1.0 < e.ydata < rows as real
    ensures 0 <= EventPoint(e).x < cols && 0 <= EventPoint(e).y < rows
  {
    TruncInRange(e.xdata, cols);
    TruncInRange(e.ydata, rows);
  }

  lemma TruncInRange(x: real, n: nat)
    requires 0 < n && -1.0 < x < n as real
    ensures 0 <= Trunc(x) < n
  {
    var t := Trunc(x);
    if 0.0 <= x {
      assert t as real <= x;
    } else {
      assert t as real - 1.0 < x <= t as real;
      assert -1.0 < t as real;
    }
  }

  /** The dialog's state. The handlers keep Valid(): a rectangle exists only
      after a press, and it is anchored at the recorded start position. */
  class RoiSelector {
    const image: array2<int>
    var startPos: Option<Point>
    var endPos: Option<Point>
    var rect: Option<Rect>
    var accepted: bool

    ghost predicate Valid()
      reads this
    {
      rect.Some? ==> startPos == Some(rect.value.corner)
    }

    constructor (image: array2<int>)
      ensures this.image == image && Valid()
      ensures startPos == None && endPos == None && rect == None && !accepted
    {
      this.image := image;
      startPos := None;
      endPos := None;
      rect := None;
      accepted := false;
    }

    /** A press inside the axes records the start position and replaces any
        rectangle with a fresh one of zero size; a press outside does nothing. */
    method OnPress(e: MouseEvent)
      modifies this`startPos, this`rect
      ensures e.inAxes ==> startPos == Some(EventPoint(e)) && rect == Some(Rect(EventPoint(e), 0, 0))
      ensures !e.inAxes ==> startPos == old(startPos) && rect == old(rect)
      ensures old(Valid()) ==> Valid()
    {
      if !e.inAxes {
        return;
      }
      startPos := Some(EventPoint(e));
      rect := Some(Rect(startPos.value, 0, 0));
    }

    /** A move inside the axes, once a rectangle and a start exist, sets the
        rectangle's width and height to the offset from the start; the anchor
        and everything else stay. */
    method OnMove(e: MouseEvent)
      modifies this`rect
      ensures if old(rect).Some? && startPos.Some? && e.inAxes
              then rect == Some(old(rect).value.(width := EventPoint(e).x - startPos.value.x,
                                                height := EventPoint(e).y - startPos.value.y))
              else rect == old(rect)
      ensures old(Valid()) ==> Valid()
    {
      if rect.None? || startPos.None? {
        return;
      }
      if !e.inAxes {
        return;
      }
      var current := EventPoint(e);
      var width := current.x - startPos.value.x;
      var height := current.y - startPos.value.y;
      rect := Some(rect.value.(width := width, height := height));
    }

    /** A release inside the axes, once a rectangle exists, records the end
        position and accepts the dialog; otherwise it does nothing. */
    method OnRelease(e: MouseEvent)
      modifies this`endPos, this`accepted
      ensures if rect.Some? && e.inAxes
              then endPos == Some(EventPoint(e)) && accepted
              else endPos == old(endPos) && accepted == old(accepted)
      ensures old(Valid()) ==> Valid()
      ensures old(Valid()) && old(rect).Some? && e.inAxes ==> startPos.Some? && endPos.Some?
    {
      if rect.None? {
        return;
      }
      if !e.inAxes {
        return;
      }
      endPos := Some(EventPoint(e));
      accepted := true;
    }

    /** The mask for the recorded corners: None unless both a start and an end
        were recorded, otherwise a fresh array of the image's shape holding
        MaskGrid's entries. */
    method GetRoiMask() returns (mask: Option<array2<int>>)
      ensures mask.None? <==> startPos.None? || endPos.None?
      ensures mask.Some? ==>
                fresh(mask.value) &&
                mask.value.Length0 == image.Length0 && mask.value.Length1 == image.Length1 &&
                forall r, c :: 0 <= r < image.Length0 && 0 <= c < image.Length1 ==>
                  mask.value[r, c] == MaskGrid(image.Length0, image.Length1, startPos.value, endPos.value)[r][c]
    {
      if startPos.None? || endPos.None? {
        return None;
      }
      var s, e := startPos.value, endPos.value;
      var rows, cols := image.Length0, image.Length1;
      var yLo, yHi := SliceBound(Min(s.y, e.y), rows), SliceBound(Max(s.y, e.y), rows);
      var xLo, xHi := SliceBound(Min(s.x, e.x), cols), SliceBound(Max(s.x, e.x), cols);
      var m := new int[rows, cols]((r, c) => 0);
      var r := yLo;
      while r < yHi
        invariant yLo <= r && (r <= yHi || r == yLo)
        invariant forall i, j :: 0 <= i < rows && 0 <= j < cols ==>
                    m[i, j] == if yLo <= i < r && xLo <= j < xHi then 1 else 0
      {
        var c := xLo;
        while c < xHi
          invariant xLo <= c && (c <= xHi || c == xLo)
          invariant forall i, j :: 0 <= i < rows && 0 <= j < cols ==>
                      m[i, j] == if (yLo <= i < r && xLo <= j < xHi) || (i == r && xLo <= j < c) then 1 else 0
        {
          m[r, c] := 1;
          c := c + 1;
        }
        r := r + 1;
      }
      mask := Some(m);
    }
  }
}
