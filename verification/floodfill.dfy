/**
 The reachability step of `nir2occ.py`: `cv.floodFill` on a copy of the
 occupancy grid, with the padded mask `regionMask`, the seed point
 (column `px[0]`, row `py[0]`), new value 200, and the 4-tuples
 `(50, 50, 50, 50)` as both `loDiff` and `upDiff`. No flags are passed,
 so OpenCV's defaults hold: 4-connectivity, a floating range
 (a neighbour joins when its value is within 50 of the ADJACENT pixel that is
 already in the region, not of the seed), and mask value 1. The mask has one
 extra row and column on every side and is then cropped back to the grid.
 */
module FloodFill {
  import opened Raster

  /** `loDiff` and `upDiff` of the call. */
  const FillDiff: nat := 50
  /** OpenCV's default mask fill value (flags bits 8..15 are 0). */
  const MaskMark: byte := 1

  /** OpenCV's seed argument: `x` is the column, `y` the row. */
  datatype Point = Point(x: int, y: int)

  function SeedCell(pt: Point): Cell {
    Cell(pt.y, pt.x)
  }

  /** The four cells sharing an edge with `p`. */
  function Neighbours(p: Cell): set<Cell> {
    {Cell(p.row - 1, p.col), Cell(p.row + 1, p.col), Cell(p.row, p.col - 1), Cell(p.row, p.col + 1)}
  }

  /** 4-connectivity: the cells differ by one in exactly one coordinate. */
  predicate Adjacent(p: Cell, q: Cell) {
    (p.row == q.row && (p.col - q.col == 1 || q.col - p.col == 1)) ||
    (p.col == q.col && (p.row - q.row == 1 || q.row - p.row == 1))
  }

  lemma NeighboursAreAdjacent(p: Cell, q: Cell)
    ensures q in Neighbours(p) <==> Adjacent(p, q)
  {
  }

  /** The fill may grow from the included cell `p` to `q`: `v(p) - 50 <= v(q) <= v(p) + 50`. */
  predicate Step(g: Grid, p: Cell, q: Cell) {
    InGrid(g, p) && InGrid(g, q) && Adjacent(p, q) &&
    At(g, p) - FillDiff <= At(g, q) <= At(g, p) + FillDiff
  }

  /** No step leaves `S`. */
  ghost predicate Closed(g: Grid, S: set<Cell>) {
    forall p, q :: p in S && Step(g, p, q) ==> q in S
  }

  /**
   `R` is the region the fill reaches from `seed`: it holds the seed, only
   in-grid cells, is closed under steps, and lies inside every other closed
   set that holds the seed (so it is the least one).
   */
  ghost predicate IsRegion(g: Grid, seed: Cell, R: set<Cell>) {
    && seed in R
    && (forall p :: p in R ==> InGrid(g, p))
    && Closed(g, R)
    && (forall S :: seed in S && Closed(g, S) ==> R <= S)
  }

  function AllCells(g: Grid): set<Cell> {
    set r, c | 0 <= r < |g| && 0 <= c < |g[r]| :: Cell(r, c)
  }

  /** Steps are symmetric, since `loDiff == upDiff`. */
  lemma StepSymmetric(g: Grid, p: Cell, q: Cell)
    requires Step(g, p, q)
    ensures Step(g, q, p)
  {
  }

  /** The least closed set holding the seed is unique, so `IsRegion` fixes the region. */
  lemma RegionUnique(g: Grid, seed: Cell, R1: set<Cell>, R2: set<Cell>)
    requires IsRegion(g, seed, R1) && IsRegion(g, seed, R2)
    ensures R1 == R2
  {
    assert R1 <= R2;
    assert R2 <= R1;
  }

  /**
   Worklist region growing. `work` holds included cells whose neighbours are
   not yet examined; every other included cell already has all its
   step-successors included.
   */
  method Region(g: Grid, seed: Cell) returns (R: set<Cell>)
    requires InGrid(g, seed)
    ensures seed in R
    ensures forall p :: p in R ==> InGrid(g, p)
    ensures Closed(g, R)
    ensures forall S :: seed in S && Closed(g, S) ==> R <= S
  {
    R := {seed};
    var work := {seed};
    while work != {}
      invariant seed in R && work <= R
      invariant forall p :: p in R ==> InGrid(g, p)
      invariant forall p, q :: p in R && p !in work && Step(g, p, q) ==> q in R
      invariant forall S :: seed in S && Closed(g, S) ==> R <= S
      decreases AllCells(g) - R, work
    {
      var p :| p in work;
      var next := set q | q in Neighbours(p) && Step(g, p, q) && q !in R;
      forall q | Step(g, p, q)
        ensures q in R + next
      {
        NeighboursAreAdjacent(p, q);
      }
      assert next <= AllCells(g);
      R := R + next;
      work := (work - {p}) + next;
    }
  }

  /**
   The `(rows + 2) x (cols + 2)` mask after the fill: OpenCV sets its border
   to 1, and an interior cell holds 1 exactly when the grid cell it frames is
   in the region.
   */
  function PaddedMask(rows: nat, cols: nat, R: set<Cell>): (m: Grid)
    ensures IsGrid(m, rows + 2, cols + 2)
    ensures forall j :: 0 <= j < cols + 2 ==> m[0][j] == MaskMark && m[rows + 1][j] == MaskMark
    ensures forall i :: 0 <= i < rows + 2 ==> m[i][0] == MaskMark && m[i][cols + 1] == MaskMark
    ensures forall r, c :: 0 <= r < rows && 0 <= c < cols ==>
              (m[r + 1][c + 1] == MaskMark <==> Cell(r, c) in R) &&
              (m[r + 1][c + 1] == 0 <==> Cell(r, c) !in R)
  {
    seq(rows + 2, i requires 0 <= i < rows + 2 =>
      seq(cols + 2, j requires 0 <= j < cols + 2 =>
        if i == 0 || i == rows + 1 || j == 0 || j == cols + 1 then MaskMark
        else if Cell(i - 1, j - 1) in R then MaskMark
        else 0))
  }

  /** `regionMask[1:1+rows, 1:1+cols]`: drop the one-cell border. */
  function Crop(m: Grid, rows: nat, cols: nat): (k: Grid)
    requires IsGrid(m, rows + 2, cols + 2)
    ensures IsGrid(k, rows, cols)
    ensures forall r, c :: 0 <= r < rows && 0 <= c < cols ==> k[r][c] == m[r + 1][c + 1]
  {
    seq(rows, r requires 0 <= r < rows => m[r + 1][1..1 + cols])
  }

  /**
   The flood fill as the script calls it. A seed outside the image is an
   error; otherwise the result is the padded mask of the reachable region,
   whose crop marks exactly the region's cells.
   */
  method Fill(g: Grid, pt: Point) returns (res: Result<Grid>, R: set<Cell>)
    requires Rectangular(g)
    ensures res.Err? <==> !InGrid(g, SeedCell(pt))
    ensures res.Err? ==> res.error == SeedOutOfBounds
    ensures res.Ok? ==> IsRegion(g, SeedCell(pt), R)
    ensures res.Ok? ==> IsGrid(res.value, |g| + 2, Cols(g) + 2)
    ensures res.Ok? ==> forall r, c :: 0 <= r < |g| && 0 <= c < Cols(g) ==>
              (Crop(res.value, |g|, Cols(g))[r][c] == MaskMark <==> Cell(r, c) in R) &&
              (Crop(res.value, |g|, Cols(g))[r][c] == 0 <==> Cell(r, c) !in R)
  {
    var seed := SeedCell(pt);
    if !InGrid(g, seed) {
      return Err(SeedOutOfBounds), {};
    }
    R := Region(g, seed);
    res := Ok(PaddedMask(|g|, Cols(g), R));
  }
}
