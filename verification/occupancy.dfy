/**
 The `nir2occ.py` pipeline: select the near-infrared band, threshold it,
 dilate it into the occupancy grid `aMap`, optionally restrict it to the
 region reachable from a start pixel (everything unreachable becomes
 occupied), and write it as the last band of the output raster.
 */
module Occupancy {
  import opened Raster
  import opened Threshold
  import opened Dilation
  import opened FloodFill

  /** Value the rewrite first gives to reachable cells; anything but 255 works. */
  const ReachableTag: byte := 100

  /** The band whose description both output branches set to 'Occupancy'. */
  const OccupancyBandNumber: nat := 5

  /** `aMap`: the dilated threshold of the selected band. */
  function OccupancyGrid(nir: Grid): (aMap: Grid)
    requires Rectangular(nir)
    ensures IsGrid(aMap, |nir|, Cols(nir))
    ensures forall r, c :: 0 <= r < |nir| && 0 <= c < Cols(nir) ==>
              IsWindowMax(ThresholdGrid(nir), r, c, aMap[r][c])
    ensures OccupancyValues(aMap)
  {
    var t := ThresholdGrid(nir);
    assert Cols(t) == Cols(nir);
    DilatePreservesOccupancyValues(t);
    Dilate(t)
  }

  /**
   Reference meaning of the reachability filter: reachable cells keep their
   occupancy value, every other cell becomes occupied.
   */
  function Restrict(aMap: Grid, R: set<Cell>): Grid {
    seq(|aMap|, r requires 0 <= r < |aMap| =>
      seq(|aMap[r]|, c requires 0 <= c < |aMap[r]| =>
        if Cell(r, c) in R then aMap[r][c] else Occupied))
  }

  /**
   The script's three masked assignments on the cropped mask:
   `> 0` becomes 100, `== 0` becomes 255, `!= 255` takes `aMap`'s value.
   Net effect: a marked cell gets `aMap`'s value, an unmarked one 255.
   */
  function RewriteUnreachable(mask: Grid, aMap: Grid): (out: Grid)
    requires SameShape(mask, aMap)
    ensures SameShape(out, aMap)
    ensures forall r, c :: 0 <= r < |aMap| && 0 <= c < |aMap[r]| ==>
              out[r][c] == (if mask[r][c] > 0 then aMap[r][c] else Occupied)
  {
    var tagged := MapCells(mask, v => if v > 0 then ReachableTag else v);
    var blocked := MapCells(tagged, v => if v == 0 then Occupied else v);
    seq(|blocked|, r requires 0 <= r < |blocked| =>
      seq(|blocked[r]|, c requires 0 <= c < |blocked[r]| =>
        if blocked[r][c] != Occupied then aMap[r][c] else blocked[r][c]))
  }

  /**
   Flood fill from `pt`, crop the mask, rewrite unreachable cells. A seed
   outside the grid is an error; otherwise the output is `Restrict` of the
   least closed region holding the seed.
   */
  method FilterReachable(aMap: Grid, pt: Point) returns (res: Result<Grid>, R: set<Cell>)
    requires Rectangular(aMap)
    ensures res.Err? <==> !InGrid(aMap, SeedCell(pt))
    ensures res.Err? ==> res.error == SeedOutOfBounds
    ensures res.Ok? ==> IsRegion(aMap, SeedCell(pt), R)
    ensures res.Ok? ==> IsGrid(res.value, |aMap|, Cols(aMap))
    ensures res.Ok? ==> res.value == Restrict(aMap, R)
  {
    var filled;
    filled, R := Fill(aMap, pt);
    if filled.Err? {
      return Err(filled.error), R;
    }
    var mask := Crop(filled.value, |aMap|, Cols(aMap));
    var out := RewriteUnreachable(mask, aMap);
    RestrictByCells(out, aMap, R);
    res := Ok(out);
  }

  /** A grid of `aMap`'s shape that agrees with `Restrict` cell by cell is `Restrict`. */
  lemma RestrictByCells(out: Grid, aMap: Grid, R: set<Cell>)
    requires SameShape(out, aMap)
    requires forall r, c :: 0 <= r < |aMap| && 0 <= c < |aMap[r]| ==>
               out[r][c] == (if Cell(r, c) in R then aMap[r][c] else Occupied)
    ensures out == Restrict(aMap, R)
  {
    var expected := Restrict(aMap, R);
    forall r | 0 <= r < |aMap|
      ensures out[r] == expected[r]
    {
    }
  }

  /** The band `img[nirBand - 1]` that the script thresholds (Python indexing). */
  function SelectBand(img: Image, nirBand: int): (b: Result<Grid>)
    ensures b.Err? <==> !(-(|img| as int) < nirBand <= |img|)
    ensures b.Err? ==> b.error == BandIndexOutOfRange
    ensures b.Ok? && nirBand >= 1 ==> b.value == img[nirBand - 1]
    ensures b.Ok? && nirBand < 1 ==> b.value == img[nirBand - 1 + |img|]
  {
    match PyIndex(nirBand - 1, |img|)
    case None => Err(BandIndexOutOfRange)
    case Some(k) => Ok(img[k])
  }

  /** `dst.write(occ, aRaster.count)`: the other bands are copied, the last one is replaced. */
  function WriteLastBand(img: Image, occ: Grid): (out: Image)
    requires |img| > 0
    ensures |out| == |img|
    ensures forall b :: 0 <= b < |img| - 1 ==> out[b] == img[b]
    ensures out[|img| - 1] == occ
  {
    img[..|img| - 1] + [occ]
  }

  /**
   The whole script on an in-memory raster. With no start point the last
   band becomes `aMap`; with one it becomes `aMap` restricted to the region
   reachable from the start. All other bands are copied unchanged. Each
   failure names its stage: the band index, then the start point, then the
   description of band 5, which a raster with fewer than five bands lacks.
   */
  method Nir2Occ(img: Image, rows: nat, cols: nat, nirBand: int, start: Option<Point>)
    returns (res: Result<Image>)
    requires IsImage(img, rows, cols)
    ensures SelectBand(img, nirBand).Err? ==> res == Err(BandIndexOutOfRange)
    ensures SelectBand(img, nirBand).Ok? && start.Some? &&
            !InGrid(OccupancyGrid(SelectBand(img, nirBand).value), SeedCell(start.value)) ==>
              res == Err(SeedOutOfBounds)
    ensures SelectBand(img, nirBand).Ok? && start.Some? &&
            InGrid(OccupancyGrid(SelectBand(img, nirBand).value), SeedCell(start.value)) ==>
              (if |img| < OccupancyBandNumber then res == Err(OccupancyBandMissing) else res.Ok?)
    ensures SelectBand(img, nirBand).Ok? && start.None? ==>
              (if |img| < OccupancyBandNumber then res == Err(OccupancyBandMissing) else res.Ok?)
    ensures res.Ok? ==> |res.value| == |img| && IsImage(res.value, rows, cols)
    ensures res.Ok? ==> forall b :: 0 <= b < |img| - 1 ==> res.value[b] == img[b]
    ensures res.Ok? && start.None? ==>
              res.value[|img| - 1] == OccupancyGrid(SelectBand(img, nirBand).value)
    ensures res.Ok? && start.Some? ==>
              exists R :: IsRegion(OccupancyGrid(SelectBand(img, nirBand).value), SeedCell(start.value), R) &&
                          res.value[|img| - 1] == Restrict(OccupancyGrid(SelectBand(img, nirBand).value), R)
  {
    var band := SelectBand(img, nirBand);
    if band.Err? {
      return Err(band.error);
    }
    assert IsGrid(band.value, rows, cols);
    var aMap := OccupancyGrid(band.value);
    assert IsGrid(aMap, rows, cols);
    match start {
      case None =>
        if |img| < OccupancyBandNumber {
          return Err(OccupancyBandMissing);
        }
        res := Ok(WriteLastBand(img, aMap));
      case Some(pt) =>
        var filtered, R := FilterReachable(aMap, pt);
        if filtered.Err? {
          return Err(filtered.error);
        }
        if |img| < OccupancyBandNumber {
          return Err(OccupancyBandMissing);
        }
        res := Ok(WriteLastBand(img, filtered.value));
    }
  }

  /**
   From a seed that is not occupied, the ±50 chain never enters an occupied
   cell: every value reachable from {0} ∪ [50, 70] stays at most 120.
   */
  lemma RegionAvoidsOccupied(g: Grid, seed: Cell, R: set<Cell>)
    requires OccupancyValues(g) && IsRegion(g, seed, R)
    requires At(g, seed) != Occupied
    ensures forall p :: p in R ==> At(g, p) != Occupied
  {
    var S := set p | p in AllCells(g) && At(g, p) != Occupied;
    forall p, q | p in S && Step(g, p, q)
      ensures q in S
    {
      assert OccupancyValue(g[p.row][p.col]);
    }
    assert seed in S;
  }

  /** From an occupied seed, the fill stays among occupied cells (205 and up means 255). */
  lemma RegionOfOccupiedSeed(g: Grid, seed: Cell, R: set<Cell>)
    requires OccupancyValues(g) && IsRegion(g, seed, R)
    requires At(g, seed) == Occupied
    ensures forall p :: p in R ==> At(g, p) == Occupied
  {
    var S := set p | p in AllCells(g) && At(g, p) == Occupied;
    forall p, q | p in S && Step(g, p, q)
      ensures q in S
    {
      assert OccupancyValue(g[q.row][q.col]);
    }
    assert seed in S;
  }

  /**
   A free start: the output is below 255 exactly at the reachable cells,
   and reachable cells keep their `aMap` value.
   */
  lemma FreeStartMarksRegion(aMap: Grid, seed: Cell, R: set<Cell>)
    requires OccupancyValues(aMap) && IsRegion(aMap, seed, R)
    requires At(aMap, seed) != Occupied
    ensures forall r, c :: 0 <= r < |aMap| && 0 <= c < |aMap[r]| ==>
              (Restrict(aMap, R)[r][c] != Occupied <==> Cell(r, c) in R)
    ensures forall p :: p in R ==> At(Restrict(aMap, R), p) == At(aMap, p)
  {
    RegionAvoidsOccupied(aMap, seed, R);
  }

  /** An occupied start: the whole output is occupied. */
  lemma OccupiedStartBlocksAll(aMap: Grid, seed: Cell, R: set<Cell>)
    requires OccupancyValues(aMap) && IsRegion(aMap, seed, R)
    requires At(aMap, seed) == Occupied
    ensures forall r, c :: 0 <= r < |aMap| && 0 <= c < |aMap[r]| ==> Restrict(aMap, R)[r][c] == Occupied
  {
    RegionOfOccupiedSeed(aMap, seed, R);
  }

  /** The filter never frees a cell: the output is pointwise at least `aMap`. */
  lemma RestrictNeverFrees(aMap: Grid, R: set<Cell>)
    ensures SameShape(Restrict(aMap, R), aMap)
    ensures forall r, c :: 0 <= r < |aMap| && 0 <= c < |aMap[r]| ==> aMap[r][c] <= Restrict(aMap, R)[r][c]
  {
  }

  /** The filter only writes 255, so its output is still an occupancy grid. */
  lemma RestrictKeepsOccupancyValues(aMap: Grid, R: set<Cell>)
    requires OccupancyValues(aMap)
    ensures OccupancyValues(Restrict(aMap, R))
  {
  }

  /** Walking along a row of equal values stays inside the region. */
  lemma {:induction false} UniformRowReachable(g: Grid, R: set<Cell>, r: int, c0: int, c: int)
    requires Closed(g, R) && 0 <= r < |g| && 0 <= c0 < |g[r]| && 0 <= c < |g[r]|
    requires Cell(r, c0) in R
    requires forall j :: 0 <= j < |g[r]| ==> g[r][j] == g[r][c0]
    ensures Cell(r, c) in R
    decreases if c < c0 then c0 - c else c - c0
  {
    if c < c0 {
      UniformRowReachable(g, R, r, c0, c + 1);
      assert Step(g, Cell(r, c + 1), Cell(r, c));
    } else if c > c0 {
      UniformRowReachable(g, R, r, c0, c - 1);
      assert Step(g, Cell(r, c - 1), Cell(r, c));
    }
  }

  /** Walking down or up a column of equal values stays inside the region. */
  lemma {:induction false} UniformColumnReachable(g: Grid, R: set<Cell>, r0: int, r: int, c: int)
    requires Closed(g, R) && Rectangular(g) && 0 <= r0 < |g| && 0 <= r < |g| && 0 <= c < Cols(g)
    requires Cell(r0, c) in R
    requires forall i :: 0 <= i < |g| ==> g[i][c] == g[r0][c]
    ensures Cell(r, c) in R
    decreases if r < r0 then r0 - r else r - r0
  {
    if r < r0 {
      UniformColumnReachable(g, R, r0, r + 1, c);
      assert Step(g, Cell(r + 1, c), Cell(r, c));
    } else if r > r0 {
      UniformColumnReachable(g, R, r0, r - 1, c);
      assert Step(g, Cell(r - 1, c), Cell(r, c));
    }
  }

  /**
   On a uniform grid (for example an all-free one) every cell is reachable
   from any seed, so the filter returns the grid unchanged.
   */
  lemma UniformGridUnchanged(g: Grid, seed: Cell, R: set<Cell>)
    requires Rectangular(g) && IsRegion(g, seed, R)
    requires forall r, c :: 0 <= r < |g| && 0 <= c < |g[r]| ==> g[r][c] == At(g, seed)
    ensures R == AllCells(g)
    ensures Restrict(g, R) == g
  {
    forall p | p in AllCells(g)
      ensures p in R
    {
      UniformColumnReachable(g, R, seed.row, p.row, seed.col);
      UniformRowReachable(g, R, p.row, seed.col, p.col);
    }
    var out := Restrict(g, R);
    forall r | 0 <= r < |g|
      ensures out[r] == g[r]
    {
      forall c | 0 <= c < |g[r]|
        ensures out[r][c] == g[r][c]
      {
        assert Cell(r, c) in AllCells(g);
      }
    }
  }
}
