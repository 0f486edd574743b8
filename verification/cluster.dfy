/**
 The input preparation of `cluster.py`. In masked mode every band is set to
 255 wherever band 4 (the occupancy band written by `nir2occ.py`) is 255;
 then only bands 0..3 are kept for clustering.
 */
module Cluster {
  import opened Raster

  /** Band index of the occupancy grid (`img[4]`). */
  const MaskBand: nat := 4
  /** Value that marks an obstacle in the occupancy band, and the value written over it. */
  const MaskValue: byte := 255
  /** `img[:4]` keeps this many bands. */
  const KeptBands: nat := 4

  /** `band[mask == 255] = 255`. */
  function MaskWith(band: Grid, mask: Grid): (out: Grid)
    requires SameShape(band, mask)
    ensures SameShape(out, band)
    ensures forall r, c :: 0 <= r < |band| && 0 <= c < |band[r]| ==>
              (mask[r][c] == MaskValue ==> out[r][c] == MaskValue) &&
              (mask[r][c] != MaskValue ==> out[r][c] == band[r][c])
  {
    seq(|band|, r requires 0 <= r < |band| =>
      seq(|band[r]|, c requires 0 <= c < |band[r]| =>
        if mask[r][c] == MaskValue then MaskValue else band[r][c]))
  }

  /** Masking the occupancy band with itself leaves it as it is. */
  lemma MaskSelf(g: Grid)
    ensures MaskWith(g, g) == g
  {
    var m := MaskWith(g, g);
    forall r | 0 <= r < |g|
      ensures m[r] == g[r]
    {
    }
  }

  /**
   The masked-mode loop `for b in range(bands): img[b][img[4] == 255] = 255`.
   The mask is re-read from the current `img[4]` in every pass, as in the
   script; since band 4 is unchanged by its own pass the mask never moves.
   With one to four bands `img[4]` does not exist (IndexError); with no
   band the loop does not run.
   */
  method ApplyMask(img: Image, rows: nat, cols: nat) returns (res: Result<Image>)
    requires IsImage(img, rows, cols)
    ensures 0 < |img| <= MaskBand <==> res.Err?
    ensures res.Err? ==> res.error == MaskBandMissing
    ensures res.Ok? ==> |res.value| == |img| && IsImage(res.value, rows, cols)
    ensures res.Ok? && |img| > MaskBand ==> res.value[MaskBand] == img[MaskBand]
    ensures res.Ok? && |img| > MaskBand ==>
              forall b, r, c :: 0 <= b < |img| && 0 <= r < rows && 0 <= c < cols ==>
                (img[MaskBand][r][c] == MaskValue ==> res.value[b][r][c] == MaskValue) &&
                (img[MaskBand][r][c] != MaskValue ==> res.value[b][r][c] == img[b][r][c])
  {
    if 0 < |img| <= MaskBand {
      return Err(MaskBandMissing);
    }
    var cur := img;
    var b := 0;
    while b < |img|
      invariant 0 <= b <= |img| && |cur| == |img|
      invariant IsImage(cur, rows, cols)
      invariant |img| > MaskBand ==> cur[MaskBand] == img[MaskBand]
      invariant forall k :: 0 <= k < b ==> cur[k] == MaskWith(img[k], img[MaskBand])
      invariant forall k :: b <= k < |img| ==> cur[k] == img[k]
    {
      if b == MaskBand {
        MaskSelf(cur[MaskBand]);
      }
      cur := cur[b := MaskWith(cur[b], cur[MaskBand])];
      b := b + 1;
    }
    res := Ok(cur);
  }

  /** `img[:4]`: Python's slice keeps at most four bands and never fails. */
  function KeepBands(img: Image): (out: Image)
    ensures |out| == (if |img| < KeptBands then |img| else KeptBands)
    ensures forall b :: 0 <= b < |out| ==> out[b] == img[b]
  {
    if |img| < KeptBands then img else img[..KeptBands]
  }

  /**
   The image handed to clustering. Unmasked, it is the first four bands as
   read. Masked, obstacle cells are 255 in every kept band and every other
   cell is as read.
   */
  method PrepareForClustering(img: Image, rows: nat, cols: nat, masked: bool) returns (res: Result<Image>)
    requires IsImage(img, rows, cols)
    ensures !masked ==> res == Ok(KeepBands(img))
    ensures masked ==> (res.Err? <==> 0 < |img| <= MaskBand)
    ensures res.Err? ==> res.error == MaskBandMissing
    ensures res.Ok? ==> |res.value| == (if |img| < KeptBands then |img| else KeptBands)
    ensures res.Ok? ==> IsImage(res.value, rows, cols)
    ensures res.Ok? && masked && |img| > MaskBand ==>
              forall b, r, c :: 0 <= b < KeptBands && 0 <= r < rows && 0 <= c < cols ==>
                res.value[b][r][c] == (if img[MaskBand][r][c] == MaskValue then MaskValue else img[b][r][c])
  {
    if !masked {
      return Ok(KeepBands(img));
    }
    var applied := ApplyMask(img, rows, cols);
    if applied.Err? {
      return applied;
    }
    res := Ok(KeepBands(applied.value));
  }
}
