/** ROI statistics of one slice: the pixels under the mask, their mean, and
    the ROI's area in square millimetres. */
module StatsCalculator {
  import opened Wrappers
  import opened Grids
  import opened Dataset

  /** The 'mean' and 'size_mm2' entries of the returned dictionary. The mean
      of no pixels is NaN in numpy; here it is None. */
  datatype RoiStats = RoiStats(mean: Option<real>, sizeMm2: real)

  /** The entries of values whose mask entry is 1, in order. */
  function Masked(mask: seq<int>, values: seq<int>): (px: seq<int>)
    requires |mask| == |values|
    ensures |px| == Ones(mask)
  {
    if mask == [] then []
    else (if mask[0] == 1 then [values[0]] else []) + Masked(mask[1..], values[1..])
  }

  lemma {:induction false} RowMajorSameLength(a: Grid, b: Grid)
    requires SameShape(a, b)
    ensures |RowMajor(a)| == |RowMajor(b)|
  {
    if a != [] {
      assert SameShape(a[1..], b[1..]) by {
        assert forall r :: 0 <= r < |a| - 1 ==> a[1..][r] == a[r + 1] && b[1..][r] == b[r + 1];
      }
      RowMajorSameLength(a[1..], b[1..]);
    }
  }

  /** The image entries under a 1 of the mask; boolean indexing visits the grid in
      row-major order. */
  function SelectPixels(mask: Grid, image: Grid): seq<int>
    requires SameShape(mask, image)
  {
    RowMajorSameLength(mask, image);
    Masked(RowMajor(mask), RowMajor(image))
  }

  /** np.mean: the sum over the count, or None for no pixels. */
  function Mean(px: seq<int>): (m: Option<real>)
    ensures m.None? <==> px == []
    ensures m.Some? ==> m.value * |px| as real == Sum(px) as real
  {
    if px == [] then None else Some(Sum(px) as real / |px| as real)
  }

  /** size_mm2: a pixel count times the row spacing times the column spacing. */
  function AreaMm2(numPixels: int, spacing: Spacing): real
  {
    numPixels as real * spacing.row * spacing.col
  }

  /** calculate_roi_stats: the mean of the selected pixels, and the area of
      as many pixels as the sum of the mask. */
  function CalculateRoiStats(mask: Grid, image: Grid, spacing: Spacing): (st: RoiStats)
    requires SameShape(mask, image)
    ensures st.mean.None? <==> GridOnes(mask) == 0
    ensures st.mean.Some? ==>
              st.mean.value * GridOnes(mask) as real == Sum(SelectPixels(mask, image)) as real
  {
    SelectedCount(mask, image);
    var numPixels := GridSum(mask);
    RoiStats(Mean(SelectPixels(mask, image)), AreaMm2(numPixels, spacing))
  }

  lemma {:induction false} MaskedConcat(m1: seq<int>, v1: seq<int>, m2: seq<int>, v2: seq<int>)
    requires |m1| == |v1| && |m2| == |v2|
    ensures Masked(m1 + m2, v1 + v2) == Masked(m1, v1) + Masked(m2, v2)
  {
    if m1 == [] {
      assert m1 + m2 == m2 && v1 + v2 == v2;
    } else {
      assert (m1 + m2)[1..] == m1[1..] + m2 && (v1 + v2)[1..] == v1[1..] + v2;
      MaskedConcat(m1[1..], v1[1..], m2, v2);
    }
  }

  lemma {:induction false} MaskedMembership(m: seq<int>, v: seq<int>, x: int)
    requires |m| == |v|
    ensures x in Masked(m, v) <==> exists i :: 0 <= i < |m| && m[i] == 1 && v[i] == x
  {
    if m != [] {
      MaskedMembership(m[1..], v[1..], x);
      if exists i :: 0 <= i < |m| && m[i] == 1 && v[i] == x {
        var i :| 0 <= i < |m| && m[i] == 1 && v[i] == x;
        if i > 0 {
          assert m[1..][i - 1] == 1 && v[1..][i - 1] == x;
        }
      }
    }
  }

  lemma {:induction false} RowMajorOnes(g: Grid)
    ensures Ones(RowMajor(g)) == GridOnes(g)
  {
    if g != [] {
      OnesConcat(g[0], RowMajor(g[1..]));
      RowMajorOnes(g[1..]);
    }
  }

  /** The selection takes the rows in order, each row in column order. */
  lemma SelectPixelsByRows(mask: Grid, image: Grid)
    requires SameShape(mask, image) && mask != []
    ensures SameShape(mask[1..], image[1..])
    ensures SelectPixels(mask, image) == Masked(mask[0], image[0]) + SelectPixels(mask[1..], image[1..])
  {
    assert forall r :: 0 <= r < |mask| - 1 ==> mask[1..][r] == mask[r + 1] && image[1..][r] == image[r + 1];
    RowMajorSameLength(mask[1..], image[1..]);
    MaskedConcat(mask[0], image[0], RowMajor(mask[1..]), RowMajor(image[1..]));
  }

  /** As many pixels are selected as the mask has ones. */
  lemma SelectedCount(mask: Grid, image: Grid)
    requires SameShape(mask, image)
    ensures |SelectPixels(mask, image)| == GridOnes(mask)
  {
    RowMajorOnes(mask);
  }

  /** The selected values are exactly the image entries under a 1 of the mask. */
  lemma {:induction false} SelectedMembership(mask: Grid, image: Grid, x: int)
    requires SameShape(mask, image)
    ensures x in SelectPixels(mask, image) <==>
              exists r, c :: 0 <= r < |mask| && 0 <= c < |mask[r]| && mask[r][c] == 1 && image[r][c] == x
  {
    if mask != [] {
      SelectPixelsByRows(mask, image);
      SelectedMembership(mask[1..], image[1..], x);
      MaskedMembership(mask[0], image[0], x);
      if exists r, c :: 0 <= r < |mask| && 0 <= c < |mask[r]| && mask[r][c] == 1 && image[r][c] == x {
        var r, c :| 0 <= r < |mask| && 0 <= c < |mask[r]| && mask[r][c] == 1 && image[r][c] == x;
        if r > 0 {
          assert mask[1..][r - 1][c] == 1 && image[1..][r - 1][c] == x;
        }
      }
      if exists r, c :: 0 <= r < |mask| - 1 && 0 <= c < |mask[1..][r]| && mask[1..][r][c] == 1 && image[1..][r][c] == x {
        var r, c :| 0 <= r < |mask| - 1 && 0 <= c < |mask[1..][r]| && mask[1..][r][c] == 1 && image[1..][r][c] == x;
        assert mask[r + 1][c] == 1 && image[r + 1][c] == x;
      }
    }
  }

  /** For a 0/1 mask, num_pixels (the sum of the mask) is the number of
      selected pixels. */
  lemma NumPixelsIsSelectedCount(mask: Grid, image: Grid)
    requires SameShape(mask, image) && IsBinary(mask)
    ensures GridSum(mask) == |SelectPixels(mask, image)| == GridOnes(mask)
  {
    BinaryGridSumIsOnes(mask);
    SelectedCount(mask, image);
  }

  /** The least element of s. */
  function SeqMin(s: seq<int>): (m: int)
    requires s != []
    ensures m in s && forall i :: 0 <= i < |s| ==> m <= s[i]
  {
    if |s| == 1 then s[0] else var m := SeqMin(s[1..]); if s[0] <= m then s[0] else m
  }

  /** The greatest element of s. */
  function SeqMax(s: seq<int>): (m: int)
    requires s != []
    ensures m in s && forall i :: 0 <= i < |s| ==> s[i] <= m
  {
    if |s| == 1 then s[0] else var m := SeqMax(s[1..]); if s[0] >= m then s[0] else m
  }

  lemma {:induction false} SumAtLeast(s: seq<int>, lo: int)
    requires forall i :: 0 <= i < |s| ==> lo <= s[i]
    ensures |s| * lo <= Sum(s)
  {
    if s != [] {
      SumAtLeast(s[1..], lo);
      assert |s| * lo == (|s| - 1) * lo + lo;
    }
  }

  lemma {:induction false} SumAtMost(s: seq<int>, hi: int)
    requires forall i :: 0 <= i < |s| ==> s[i] <= hi
    ensures Sum(s) <= |s| * hi
  {
    if s != [] {
      SumAtMost(s[1..], hi);
      assert |s| * hi == (|s| - 1) * hi + hi;
    }
  }

  lemma QuotientBounds(total: int, n: nat, lo: int, hi: int)
    requires 0 < n && n * lo <= total <= n * hi
    ensures lo as real <= total as real / n as real <= hi as real
  {
    var q := total as real / n as real;
    assert q * n as real == total as real;
    assert (q - lo as real) * n as real == (total - n * lo) as real;
    assert (hi as real - q) * n as real == (n * hi - total) as real;
  }

  /** The mean of a non-empty selection lies between its least and its
      greatest pixel. */
  lemma MeanBetweenMinAndMax(px: seq<int>)
    requires px != []
    ensures SeqMin(px) as real <= Mean(px).value <= SeqMax(px) as real
  {
    SumAtLeast(px, SeqMin(px));
    SumAtMost(px, SeqMax(px));
    QuotientBounds(Sum(px), |px|, SeqMin(px), SeqMax(px));
  }

  /** For a 0/1 mask the area is the number of selected pixels times the row
      spacing times the column spacing; the slice thickness plays no part. */
  lemma AreaOfBinaryMask(mask: Grid, image: Grid, spacing: Spacing, thickness: real)
    requires SameShape(mask, image) && IsBinary(mask)
    ensures CalculateRoiStats(mask, image, spacing).sizeMm2 == AreaMm2(|SelectPixels(mask, image)|, spacing)
    ensures CalculateRoiStats(mask, image, spacing.(thickness := thickness)) ==
              CalculateRoiStats(mask, image, spacing)
  {
    NumPixelsIsSelectedCount(mask, image);
    var sp := spacing.(thickness := thickness);
    assert sp.row == spacing.row && sp.col == spacing.col;
    assert AreaMm2(GridSum(mask), sp) == AreaMm2(GridSum(mask), spacing);
  }

  /** With non-negative spacings the area of a 0/1 mask is non-negative; with
      positive spacings it is zero exactly when the mask has no ones, which is
      also exactly when there is no mean. */
  lemma AreaSign(mask: Grid, image: Grid, spacing: Spacing)
    requires SameShape(mask, image) && IsBinary(mask)
    requires 0.0 <= spacing.row && 0.0 <= spacing.col
    ensures 0.0 <= CalculateRoiStats(mask, image, spacing).sizeMm2
    ensures CalculateRoiStats(mask, image, spacing).mean.None? <==>
              forall r, c :: 0 <= r < |mask| && 0 <= c < |mask[r]| ==> mask[r][c] != 1
    ensures 0.0 < spacing.row && 0.0 < spacing.col ==>
              (CalculateRoiStats(mask, image, spacing).sizeMm2 == 0.0 <==>
                 forall r, c :: 0 <= r < |mask| && 0 <= c < |mask[r]| ==> mask[r][c] != 1)
  {
    NumPixelsIsSelectedCount(mask, image);
    NoOnesIff(mask);
    var n := GridOnes(mask) as real;
    assert 0.0 <= n * spacing.row;
    assert 0.0 <= n * spacing.row * spacing.col;
    if 0.0 < spacing.row && 0.0 < spacing.col && 0.0 < n {
      assert 0.0 < n * spacing.row;
      assert 0.0 < n * spacing.row * spacing.col;
    }
  }
}
