/**
 Shared vocabulary of the occupancy-grid scripts: 8-bit samples, 2-D grids
 (one raster band), multi-band images indexed (band, row, column), grid
 cells, and the error outcomes the scripts can run into.
 */
module Raster {

  /** One unsigned 8-bit sample (numpy `uint8`). */
  type byte = x: int | 0 <= x < 256

  /** One raster band: rows of samples. */
  type Grid = seq<seq<byte>>

  /** A multi-band raster, indexed (band, row, column) like `aRaster.read()`. */
  type Image = seq<Grid>

  /** Free (traversable) and occupied (obstacle) occupancy values. */
  const Free: byte := 0
  const Occupied: byte := 255

  /** `g` has exactly `rows` rows of `cols` samples each. */
  predicate IsGrid(g: Grid, rows: nat, cols: nat) {
    |g| == rows && forall r :: 0 <= r < rows ==> |g[r]| == cols
  }

  /** Number of columns of a grid (0 for a grid without rows). */
  function Cols(g: Grid): nat {
    if |g| == 0 then 0 else |g[0]|
  }

  /** Every row has the same length, as every numpy 2-D array does. */
  predicate Rectangular(g: Grid) {
    IsGrid(g, |g|, Cols(g))
  }

  /** Two grids have the same shape. */
  predicate SameShape(g: Grid, h: Grid) {
    |g| == |h| && forall r :: 0 <= r < |g| ==> |g[r]| == |h[r]|
  }

  /** Every band of `img` is a `rows` x `cols` grid. */
  predicate IsImage(img: Image, rows: nat, cols: nat) {
    forall b :: 0 <= b < |img| ==> IsGrid(img[b], rows, cols)
  }

  /** A pixel position: row (numpy's first index) and column. */
  datatype Cell = Cell(row: int, col: int)

  predicate InGrid(g: Grid, p: Cell) {
    0 <= p.row < |g| && 0 <= p.col < |g[p.row]|
  }

  function At(g: Grid, p: Cell): byte
    requires InGrid(g, p)
  {
    g[p.row][p.col]
  }

  /** The failures the scripts raise instead of producing output. */
  datatype Error =
    | BandIndexOutOfRange   // numpy IndexError on `img[nirBand - 1]`
    | SeedOutOfBounds       // OpenCV refuses a flood-fill seed outside the image
    | MaskBandMissing       // numpy IndexError on `img[4]` with fewer than 5 bands
    | OccupancyBandMissing  // rasterio refuses `set_band_description(5, ...)` with fewer than 5 bands

  datatype Result<T> = Ok(value: T) | Err(error: Error)

  datatype Option<T> = None | Some(value: T)

  /** Applies `f` to every sample, keeping the shape (numpy element-wise assignment). */
  function MapCells(g: Grid, f: byte -> byte): (h: Grid)
    ensures SameShape(h, g)
    ensures forall r, c :: 0 <= r < |g| && 0 <= c < |g[r]| ==> h[r][c] == f(g[r][c])
  {
    seq(|g|, r requires 0 <= r < |g| => seq(|g[r]|, c requires 0 <= c < |g[r]| => f(g[r][c])))
  }

  /**
   Python's reading of index `i` into a sequence of length `n`: negative
   indices count from the end, anything outside `-n .. n-1` is an IndexError.
   */
  function PyIndex(i: int, n: nat): (k: Option<nat>)
    ensures k.Some? <==> -(n as int) <= i < n
    ensures k.Some? ==> k.value < n && k.value % n == i % n
    ensures k.Some? && i >= 0 ==> k.value == i
  {
    if 0 <= i < n then Some(i)
    else if -(n as int) <= i < 0 then Some(i + n)
    else None
  }
}
