/**
 The fixed-bound threshold of `nir2occ.py`: the near-infrared band is
 rewritten in place by two masked assignments, first `nir[nir > 70] = 255`,
 then `nir[nir < 50] = 0`. Samples from 50 to 70 are left as they are.
 */
module Threshold {
  import opened Raster

  /** Samples strictly above this become occupied. */
  const HighBound: byte := 70
  /** Samples strictly below this become free. */
  const LowBound: byte := 50

  /** The first masked assignment, on one sample. */
  function MarkHigh(v: byte): byte {
    if v > HighBound then Occupied else v
  }

  /** The second masked assignment, on one sample. */
  function ClearLow(v: byte): byte {
    if v < LowBound then Free else v
  }

  /** Reference classification: occupied above the band, free below it, unchanged inside it. */
  function Classify(v: byte): byte {
    if v > HighBound then Occupied
    else if v < LowBound then Free
    else v
  }

  /** The values an occupancy grid can hold: free, occupied, or the unresolved 50..70 zone. */
  predicate OccupancyValue(v: byte) {
    v == Free || v == Occupied || LowBound <= v <= HighBound
  }

  predicate OccupancyValues(g: Grid) {
    forall r, c :: 0 <= r < |g| && 0 <= c < |g[r]| ==> OccupancyValue(g[r][c])
  }

  /**
   The two assignments applied in the script's order. The result classifies
   every sample, holds only occupancy values, and is the same whichever of the
   two assignments runs first (255 is never below 50, 0 is never above 70).
   */
  function ThresholdGrid(g: Grid): (t: Grid)
    ensures SameShape(t, g)
    ensures forall r, c :: 0 <= r < |g| && 0 <= c < |g[r]| ==> t[r][c] == Classify(g[r][c])
    ensures forall r, c :: 0 <= r < |g| && 0 <= c < |g[r]| ==>
              (t[r][c] == g[r][c] || t[r][c] == Free || t[r][c] == Occupied)
    ensures OccupancyValues(t)
    ensures t == MapCells(MapCells(g, ClearLow), MarkHigh)
  {
    var t := MapCells(MapCells(g, MarkHigh), ClearLow);
    var u := MapCells(MapCells(g, ClearLow), MarkHigh);
    assert forall r :: 0 <= r < |g| ==> t[r] == u[r] by {
      forall r | 0 <= r < |g|
        ensures t[r] == u[r]
      {
        assert |t[r]| == |u[r]|;
        forall c | 0 <= c < |g[r]|
          ensures t[r][c] == u[r][c]
        {
          SampleWritesCommute(g[r][c]);
        }
      }
    }
    t
  }

  /** On one sample the two assignments commute and together classify it. */
  lemma SampleWritesCommute(v: byte)
    ensures ClearLow(MarkHigh(v)) == MarkHigh(ClearLow(v)) == Classify(v)
  {
  }

  /** Thresholding is monotone: it never reverses the order of two samples. */
  lemma ThresholdMonotone(g: Grid, h: Grid)
    requires SameShape(g, h)
    requires forall r, c :: 0 <= r < |g| && 0 <= c < |g[r]| ==> g[r][c] <= h[r][c]
    ensures forall r, c :: 0 <= r < |g| && 0 <= c < |g[r]| ==>
              ThresholdGrid(g)[r][c] <= ThresholdGrid(h)[r][c]
  {
  }

  /** Thresholding an already thresholded grid changes nothing. */
  lemma {:induction false} ThresholdIdempotent(g: Grid)
    ensures ThresholdGrid(ThresholdGrid(g)) == ThresholdGrid(g)
  {
    var t := ThresholdGrid(g);
    var tt := ThresholdGrid(t);
    assert |tt| == |t|;
    forall r | 0 <= r < |t|
      ensures tt[r] == t[r]
    {
      assert |tt[r]| == |t[r]|;
    }
  }
}
