/**
 Grey-level dilation as `cv.dilate(nir, np.ones((5, 5)), iterations = 1)`
 computes it: every output sample is the largest input sample in the 5 x 5
 window centred on it. Window positions outside the grid are skipped
 (OpenCV's default dilation border never wins the maximum).
 */
module Dilation {
  import opened Raster
  import opened Threshold

  /** Half the side of the all-ones 5 x 5 structuring element. */
  const Radius: nat := 2

  function Max(a: byte, b: byte): byte {
    if a < b then b else a
  }

  /** Cell (i, j) lies in the structuring element centred on (r, c). */
  predicate InWindow(r: int, c: int, i: int, j: int) {
    r - Radius <= i <= r + Radius && c - Radius <= j <= c + Radius
  }

  /** `v` is the maximum of the in-grid window around (r, c): an upper bound that is attained. */
  ghost predicate IsWindowMax(g: Grid, r: int, c: int, v: byte) {
    && (forall i, j :: 0 <= i < |g| && 0 <= j < |g[i]| && InWindow(r, c, i, j) ==> g[i][j] <= v)
    && (exists i, j :: 0 <= i < |g| && 0 <= j < |g[i]| && InWindow(r, c, i, j) && g[i][j] == v)
  }

  /** Largest of `row[lo..hi]`. */
  function SpanMax(row: seq<byte>, lo: nat, hi: nat): (m: byte)
    requires lo < hi <= |row|
    ensures forall j :: lo <= j < hi ==> row[j] <= m
    ensures exists j :: lo <= j < hi && row[j] == m
    decreases hi - lo
  {
    if lo + 1 == hi then row[lo]
    else Max(row[lo], SpanMax(row, lo + 1, hi))
  }

  /** Largest sample of the block of rows `r0..r1` and columns `c0..c1`. */
  function BlockMax(g: Grid, r0: nat, r1: nat, c0: nat, c1: nat): (m: byte)
    requires Rectangular(g)
    requires r0 < r1 <= |g| && c0 < c1 <= Cols(g)
    ensures forall i, j :: r0 <= i < r1 && c0 <= j < c1 ==> g[i][j] <= m
    ensures exists i, j :: r0 <= i < r1 && c0 <= j < c1 && g[i][j] == m
    decreases r1 - r0
  {
    if r0 + 1 == r1 then SpanMax(g[r0], c0, c1)
    else Max(SpanMax(g[r0], c0, c1), BlockMax(g, r0 + 1, r1, c0, c1))
  }

  /** First in-grid index of the window around `x`. */
  function WindowLo(x: nat): nat {
    if x < Radius then 0 else x - Radius
  }

  /** One past the last in-grid index of the window around `x`, for an axis of length `n`. */
  function WindowHi(x: nat, n: nat): nat {
    if x + Radius + 1 > n then n else x + Radius + 1
  }

  /** Output sample (r, c) of the dilation: the maximum of its in-grid window. */
  function DilateCell(g: Grid, r: nat, c: nat): (v: byte)
    requires Rectangular(g) && r < |g| && c < Cols(g)
    ensures IsWindowMax(g, r, c, v)
  {
    var m := BlockMax(g, WindowLo(r), WindowHi(r, |g|), WindowLo(c), WindowHi(c, Cols(g)));
    assert forall i, j :: 0 <= i < |g| && 0 <= j < |g[i]| && InWindow(r, c, i, j) ==>
      WindowLo(r) <= i < WindowHi(r, |g|) && WindowLo(c) <= j < WindowHi(c, Cols(g));
    m
  }

  /**
   One iteration of the 5 x 5 dilation. The shape is kept and every sample
   is the maximum of its in-grid window.
   */
  function Dilate(g: Grid): (d: Grid)
    requires Rectangular(g)
    ensures IsGrid(d, |g|, Cols(g))
    ensures forall r, c :: 0 <= r < |g| && 0 <= c < Cols(g) ==> IsWindowMax(g, r, c, d[r][c])
  {
    seq(|g|, r requires 0 <= r < |g| =>
      seq(Cols(g), c requires 0 <= c < Cols(g) => DilateCell(g, r, c)))
  }

  /** The window maximum is unique, so the two properties of `Dilate` fix its output exactly. */
  lemma WindowMaxUnique(g: Grid, r: int, c: int, v: byte, w: byte)
    requires IsWindowMax(g, r, c, v) && IsWindowMax(g, r, c, w)
    ensures v == w
  {
    var i, j :| 0 <= i < |g| && 0 <= j < |g[i]| && InWindow(r, c, i, j) && g[i][j] == v;
    var k, l :| 0 <= k < |g| && 0 <= l < |g[k]| && InWindow(r, c, k, l) && g[k][l] == w;
    assert v <= w && w <= v;
  }

  /** Dilation only grows samples: the centre is part of its own window. */
  lemma DilateExtensive(g: Grid)
    requires Rectangular(g)
    ensures forall r, c :: 0 <= r < |g| && 0 <= c < Cols(g) ==> g[r][c] <= Dilate(g)[r][c]
  {
    var d := Dilate(g);
    forall r, c | 0 <= r < |g| && 0 <= c < Cols(g)
      ensures g[r][c] <= d[r][c]
    {
      assert InWindow(r, c, r, c);
    }
  }

  /** Dilation is monotone: a pointwise larger input gives a pointwise larger output. */
  lemma DilateMonotone(g: Grid, h: Grid)
    requires Rectangular(g) && Rectangular(h) && SameShape(g, h)
    requires forall r, c :: 0 <= r < |g| && 0 <= c < |g[r]| ==> g[r][c] <= h[r][c]
    ensures forall r, c :: 0 <= r < |g| && 0 <= c < Cols(g) ==> Dilate(g)[r][c] <= Dilate(h)[r][c]
  {
    var d, e := Dilate(g), Dilate(h);
    forall r, c | 0 <= r < |g| && 0 <= c < Cols(g)
      ensures d[r][c] <= e[r][c]
    {
      assert IsWindowMax(g, r, c, d[r][c]);
      var i, j :| 0 <= i < |g| && 0 <= j < |g[i]| && InWindow(r, c, i, j) && g[i][j] == d[r][c];
      assert h[i][j] <= e[r][c];
    }
  }

  /**
   Every dilated sample occurs in the input, so any property of the input's
   values carries over; in particular free, occupied and 50..70 are all that
   a dilated threshold output can hold.
   */
  lemma DilatePreservesOccupancyValues(g: Grid)
    requires Rectangular(g) && OccupancyValues(g)
    ensures OccupancyValues(Dilate(g))
  {
    var d := Dilate(g);
    forall r, c | 0 <= r < |d| && 0 <= c < |d[r]|
      ensures OccupancyValue(d[r][c])
    {
      assert IsWindowMax(g, r, c, d[r][c]);
      var i, j :| 0 <= i < |g| && 0 <= j < |g[i]| && InWindow(r, c, i, j) && g[i][j] == d[r][c];
    }
  }
}
