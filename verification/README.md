# nir2watermap occupancy core, in Dafny

This project models the grid logic of the nir2watermap scripts. Those scripts
turn a multi-band aerial raster (red, green, blue, near-infrared, plus one
extra band) into an occupancy grid: 0 is free water, 255 is an obstacle. The
grid can be restricted to the area reachable from a start pixel. Its
obstacles are then vectorised into polygons. The model has three parts.

- `nir2occ.py`: the `Occupancy` module and the modules it imports.
  - `Threshold`: band selection and the `> 70` / `< 50` threshold.
  - `Dilation`: one 5 x 5 all-ones dilation.
  - `FloodFill`: OpenCV's `floodFill` with its default flags. This means
    4-connectivity, a floating ±50 range and mask value 1 on a padded mask,
    followed by the crop.
  - `Occupancy`: the rewrite that turns unreachable cells into 255, and the
    whole script as one method, `Nir2Occ`.
- `occ2poly.py`: the `Polygons` module. It covers the `uint16` widening, the
  `> 225` obstacle mask, and the loop that keeps non-empty shapes under the
  frame keys 0, 2, 4, … and warns about empty ones.
- `cluster.py`: the `Cluster` module. It covers the masked-mode overwrite of
  every band where band 4 is 255, and the `img[:4]` slice.

Grids are `seq<seq<byte>>`, where `byte` is the subset type 0..255. Rasters
are sequences of bands. The flood fill is a worklist method over
`set<Cell>`. Its result is specified as the least set that holds the seed and
is closed under 4-neighbour steps between values at most 50 apart.

The main derived facts are these:

- After thresholding and dilation, every value is 0, 255 or between 50 and 70.
- A fill seeded on a non-occupied cell therefore never enters an occupied
  cell. The filtered grid is below 255 exactly on the reachable cells.
- A fill seeded on an occupied cell makes the whole grid occupied.
- On such grids the `> 225` obstacle mask is exactly the set of cells equal
  to 255.

Behaviours of the code worth noting:

- Reachability uses 4-connectivity. The script passes no flags to
  `cv.floodFill`, and OpenCV's default connectivity is 4.
- The `nirBand` argument is used as a Python index. So `nirBand - 1` may be
  negative and then counts from the last band. Only indices outside
  `-count .. count-1` are errors.
- In `cluster.py`, masked mode with one to four bands fails on `img[4]`.
  With no band at all the loop does not run. `img[:4]` keeps fewer bands
  when fewer exist.
- Dilation ignores window positions outside the grid. This is OpenCV's
  default dilation border, and it gives the same maximum as zero padding.
- The flood fill compares pixels against the original values of `aMap`.
  OpenCV paints the 200 into its own copy, `filled`, segment by segment as
  it goes. Each comparison reads a cell that is either not yet marked or
  only just marked, and neither kind has been painted yet. So the values
  compared are those of `aMap`, and the script never uses `filled`.
- Both output branches end with `set_band_description(5, 'Occupancy')`.
  A raster with fewer than five bands therefore fails there, after the
  start point has been checked. The model reports this as
  `OccupancyBandMissing`.

## Model

| member | source | states |
|---|---|---|
| Raster.PyIndex | nir2occ.py:104 | The band index `nirBand - 1` is valid exactly in `-n .. n-1`. A negative index counts from the end. |
| Threshold.ThresholdGrid | nir2occ.py:107-109 | The two masked assignments keep the shape. Each sample becomes 255 above 70 and 0 below 50, and is unchanged from 50 to 70. Every output is the input, 0 or 255, and lies in {0, 255} ∪ [50, 70]. The two assignments commute. |
| Threshold.SampleWritesCommute | nir2occ.py:108-109 | On a single sample, the two assignments commute and together equal the three-way classification. |
| Threshold.ThresholdMonotone | nir2occ.py:108-109 | Thresholding preserves the pointwise order of two grids. |
| Threshold.ThresholdIdempotent | nir2occ.py:108-109 | Thresholding a thresholded grid changes nothing. |
| Dilation.SpanMax | nir2occ.py:113 | The maximum of a row span is at least every element of the span and equal to one of them. |
| Dilation.BlockMax | nir2occ.py:113 | The maximum of a block of rows and columns bounds every cell of the block and is attained in it. |
| Dilation.DilateCell | nir2occ.py:112-113 | One output sample is the maximum of its in-grid 5 x 5 window. |
| Dilation.Dilate | nir2occ.py:112-113 | The dilation keeps `rows x cols`. Every sample bounds its in-grid 5 x 5 input window and occurs in that window. |
| Dilation.WindowMaxUnique | nir2occ.py:112-113 | The window maximum is unique, so the contract of `Dilate` fixes its output exactly. |
| Dilation.DilateExtensive | nir2occ.py:112-113 | The output is at least the input at every cell. |
| Dilation.DilateMonotone | nir2occ.py:112-113 | A pointwise larger input gives a pointwise larger output. |
| Dilation.DilatePreservesOccupancyValues | nir2occ.py:113 | If the input holds only values in {0, 255} ∪ [50, 70], so does the dilation. |
| FloodFill.NeighboursAreAdjacent | nir2occ.py:153 | The four examined cells are exactly the cells 4-adjacent to a pixel. |
| FloodFill.StepSymmetric | nir2occ.py:153 | With `loDiff == upDiff == 50`, a step from p to q implies a step from q to p. |
| FloodFill.RegionUnique | nir2occ.py:153 | Two least closed sets that hold the same seed are equal. |
| FloodFill.Region | nir2occ.py:153 | The fill holds the seed and only in-grid cells. It is closed under 4-neighbour steps where `v(p)-50 <= v(q) <= v(p)+50`. It lies inside every closed set that holds the seed. |
| FloodFill.PaddedMask | nir2occ.py:152-153 | The mask is `(rows+2) x (cols+2)`. Its border rows and columns are 1, as OpenCV sets them. Interior cell (r+1, c+1) is 1 exactly when (r, c) is reachable, and 0 otherwise. |
| FloodFill.Crop | nir2occ.py:154 | `regionMask[1:1+rows, 1:1+cols]` has shape `rows x cols`, and its cell (r, c) is padded cell (r+1, c+1). |
| FloodFill.Fill | nir2occ.py:148-154 | A seed (x = column, y = row) outside the grid is an error. Otherwise the returned mask is padded, and its crop is 1 exactly on the least reachable region and 0 elsewhere. |
| Occupancy.OccupancyGrid | nir2occ.py:107-116 | `aMap` has the band's shape. Each cell is the window maximum of the thresholded band. All values lie in {0, 255} ∪ [50, 70]. |
| Occupancy.RewriteUnreachable | nir2occ.py:157-160 | After the three masked assignments, a marked cell takes `aMap`'s value and an unmarked cell takes 255. |
| Occupancy.FilterReachable | nir2occ.py:150-160 | A seed out of bounds is an error. Otherwise the output is `aMap` where the least closed region holds the cell and 255 elsewhere. |
| Occupancy.RestrictByCells | nir2occ.py:157-160 | Helper step for `FilterReachable`: a grid that agrees cell by cell with the reachable/255 rule is that rule's grid. |
| Occupancy.SelectBand | nir2occ.py:103-104 | The selected band is `img[nirBand-1]` under Python indexing. Out-of-range values are a `BandIndexOutOfRange` error. |
| Occupancy.WriteLastBand | nir2occ.py:120-127 | All bands are copied unchanged except the last one, which becomes the occupancy grid. |
| Occupancy.Nir2Occ | nir2occ.py:101-171 | A bad band index is `BandIndexOutOfRange`. A start outside the grid is `SeedOutOfBounds`. Otherwise, fewer than five bands is `OccupancyBandMissing`, and any other raster succeeds. Without a start point, the last band becomes exactly `aMap`. With one, it becomes `aMap` restricted to the least reachable region. Every other band is copied unchanged and the shape is kept. |
| Occupancy.RegionAvoidsOccupied | nir2occ.py:108-153 | On an occupancy grid, a fill seeded on a non-255 cell contains no 255 cell. |
| Occupancy.RegionOfOccupiedSeed | nir2occ.py:108-153 | On an occupancy grid, a fill seeded on a 255 cell contains only 255 cells. |
| Occupancy.FreeStartMarksRegion | nir2occ.py:150-160 | With a non-occupied start, an output cell is below 255 exactly when it is reachable, and reachable cells keep their `aMap` value. |
| Occupancy.OccupiedStartBlocksAll | nir2occ.py:150-160 | With an occupied start, every output cell is 255. |
| Occupancy.RestrictNeverFrees | nir2occ.py:157-160 | The filter keeps the shape and never lowers a cell. |
| Occupancy.RestrictKeepsOccupancyValues | nir2occ.py:157-160 | The filtered grid still holds only values in {0, 255} ∪ [50, 70]. |
| Occupancy.UniformRowReachable | nir2occ.py:153 | Helper step for `UniformGridUnchanged`: in a closed set, a row of equal values is entirely reached from any of its cells. |
| Occupancy.UniformColumnReachable | nir2occ.py:153 | Helper step for `UniformGridUnchanged`: in a closed set, a column of equal values is entirely reached from any of its cells. |
| Occupancy.UniformGridUnchanged | nir2occ.py:150-160 | On a uniform grid, such as an all-free one, every cell is reachable and the filter returns the grid unchanged. |
| Polygons.Widen | occ2poly.py:32 | `astype('uint16')` keeps the shape and every value of an 8-bit band. |
| Polygons.ObstacleMask | occ2poly.py:35 | The mask has the grid's shape and is true exactly where the value exceeds 225. |
| Polygons.ObstaclesAreOccupied | occ2poly.py:32-35 | On an occupancy grid, the obstacle mask is true exactly at the 255 cells. |
| Polygons.Kept | occ2poly.py:51-62 | No kept shape is empty, and the number kept plus the number of warnings equals the number of geometries. |
| Polygons.KeptIndices | occ2poly.py:51-62 | The kept positions are strictly increasing and non-empty, and every non-empty position is among them. |
| Polygons.KeptIsOrderedFilter | occ2poly.py:51-62 | The kept shapes are the prepared geometries at the kept positions, in input order. |
| Polygons.KeptAppend | occ2poly.py:51-62 | Processing `a + b` keeps `a`'s shapes followed by `b`'s, and adds up the warnings. |
| Polygons.NothingLost | occ2poly.py:55-62 | If no prepared shape is empty, every geometry is kept in order with no warning. |
| Polygons.CollectShapes | occ2poly.py:49-65 | The loop returns the kept shapes in order, with warnings equal to the drops and `count == 2 * len(shapes)`. The frame keys are exactly 0, 2, …, and key 2k holds shape k. |
| Cluster.MaskWith | cluster.py:49 | Cells where the mask band is 255 become 255. Every other cell is unchanged. |
| Cluster.MaskSelf | cluster.py:47-49 | Masking band 4 with itself leaves it unchanged. |
| Cluster.ApplyMask | cluster.py:47-49 | With 1 to 4 bands the loop fails. Otherwise band 4 is unchanged, every band is 255 where band 4 is 255, and every other cell is unchanged. |
| Cluster.KeepBands | cluster.py:52 | `img[:4]` keeps the first `min(4, bands)` bands unchanged. |
| Cluster.PrepareForClustering | cluster.py:46-52 | Unmasked, the result is the first four bands as read. Masked, it fails with 1 to 4 bands, and the error is `MaskBandMissing`. Otherwise it has at most four bands with the same shape, 255 at obstacles and unchanged elsewhere. |

## Left out

- Raster I/O, temporary files, band descriptions and metadata are left out because they are I/O plumbing. The one exception is the failure of `set_band_description(5, …)` on a raster with fewer than five bands, which is modelled. Rasters are given and returned as in-memory values.
- The `astype(np.uint8)` cast of the read raster is left out. Bands are taken to be 8-bit already, as the JP2 inputs are.
- Geographic cropping (`mask` with a geopandas box) and the CRS conversion of the start coordinate (`warp.transform`, `aRaster.index`) are floating-point library calls. The start pixel is an input `Point(x = column, y = row)`.
- `window_from_extent` is never called.
- `reprojection.py` is made entirely of `warp` calls.
- The image that receives the fill value 200 (`filled`) is never read, so it is not modelled.
- Contour tracing (`rasterio.features.shapes`), shapely's `shape`/`simplify`/`buffer`/`is_empty`, and the GeoDataFrame internals are floating-point geometry libraries. Shapes are a type parameter, and these calls are function parameters.
- KMeans clustering, colour stretching and `reshape_as_image` are float numerics and library calls.
- Plotting, printing and command-line parsing are left out.
- Dilation.Dilate: models one iteration of the 5 x 5 kernel only. The script never uses another kernel size or iteration count.
- FloodFill.Region: states the set OpenCV's scanline fill marks, not the scanline order in which it marks them.
