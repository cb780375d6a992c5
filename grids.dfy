/** Two-dimensional integer grids (an image slice or a mask), indexed
    [row][column], and the sums and counts taken over them. */
module Grids {

  type Grid = seq<seq<int>>

  /** g has rows rows of cols entries each. */
  predicate HasShape(g: Grid, rows: nat, cols: nat)
  {
    |g| == rows && forall r :: 0 <= r < |g| ==> |g[r]| == cols
  }

  /** a and b have the same number of rows and matching row lengths. */
  predicate SameShape(a: Grid, b: Grid)
  {
    |a| == |b| && forall r :: 0 <= r < |a| ==> |a[r]| == |b[r]|
  }

  /** Every entry of g is 0 or 1. */
  predicate IsBinary(g: Grid)
  {
    forall r, c :: 0 <= r < |g| && 0 <= c < |g[r]| ==> g[r][c] == 0 || g[r][c] == 1
  }

  function Sum(s: seq<int>): int
  {
    if s == [] then 0 else s[0] + Sum(s[1..])
  }

  /** The number of entries of s equal to 1. */
  function Ones(s: seq<int>): nat
  {
    if s == [] then 0 else (if s[0] == 1 then 1 else 0) + Ones(s[1..])
  }

  /** The sum of all entries of g (np.sum). */
  function GridSum(g: Grid): int
  {
    if g == [] then 0 else Sum(g[0]) + GridSum(g[1..])
  }

  /** The number of entries of g equal to 1. */
  function GridOnes(g: Grid): nat
  {
    if g == [] then 0 else Ones(g[0]) + GridOnes(g[1..])
  }

  /** The entries of g in row-major (C) order. */
  function RowMajor(g: Grid): seq<int>
  {
    if g == [] then [] else g[0] + RowMajor(g[1..])
  }

  lemma {:induction false} SumConcat(a: seq<int>, b: seq<int>)
    ensures Sum(a + b) == Sum(a) + Sum(b)
  {
    if a != [] {
      assert (a + b)[1..] == a[1..] + b;
      SumConcat(a[1..], b);
    } else {
      assert a + b == b;
    }
  }

  lemma {:induction false} OnesConcat(a: seq<int>, b: seq<int>)
    ensures Ones(a + b) == Ones(a) + Ones(b)
  {
    if a != [] {
      assert (a + b)[1..] == a[1..] + b;
      OnesConcat(a[1..], b);
    } else {
      assert a + b == b;
    }
  }

  lemma {:induction false} GridOnesConcat(a: Grid, b: Grid)
    ensures GridOnes(a + b) == GridOnes(a) + GridOnes(b)
  {
    if a != [] {
      assert (a + b)[1..] == a[1..] + b;
      GridOnesConcat(a[1..], b);
    } else {
      assert a + b == b;
    }
  }

  /** For a row of zeros and ones, the sum is the number of ones. */
  lemma {:induction false} BinaryRowSumIsOnes(s: seq<int>)
    requires forall i :: 0 <= i < |s| ==> s[i] == 0 || s[i] == 1
    ensures Sum(s) == Ones(s)
  {
    if s != [] {
      BinaryRowSumIsOnes(s[1..]);
    }
  }

  /** For a 0/1 grid, np.sum is the number of ones. */
  lemma {:induction false} BinaryGridSumIsOnes(g: Grid)
    requires IsBinary(g)
    ensures GridSum(g) == GridOnes(g)
  {
    if g != [] {
      assert forall i :: 0 <= i < |g[0]| ==> g[0][i] == 0 || g[0][i] == 1;
      BinaryRowSumIsOnes(g[0]);
      assert IsBinary(g[1..]) by {
        forall r, c | 0 <= r < |g[1..]| && 0 <= c < |g[1..][r]|
          ensures g[1..][r][c] == 0 || g[1..][r][c] == 1
        {
          assert g[1..][r] == g[r + 1];
        }
      }
      BinaryGridSumIsOnes(g[1..]);
    }
  }

  /** A row has no ones exactly when none of its entries is 1. */
  lemma {:induction false} NoOnesInRowIff(s: seq<int>)
    ensures Ones(s) == 0 <==> forall i :: 0 <= i < |s| ==> s[i] != 1
  {
    if s != [] {
      NoOnesInRowIff(s[1..]);
      assert forall i :: 1 <= i < |s| ==> s[i] == s[1..][i - 1];
    }
  }

  /** A grid has no ones exactly when none of its entries is 1. */
  lemma {:induction false} NoOnesIff(g: Grid)
    ensures GridOnes(g) == 0 <==> forall r, c :: 0 <= r < |g| && 0 <= c < |g[r]| ==> g[r][c] != 1
  {
    if g != [] {
      NoOnesInRowIff(g[0]);
      NoOnesIff(g[1..]);
      assert forall r :: 1 <= r < |g| ==> g[r] == g[1..][r - 1];
    }
  }
}
