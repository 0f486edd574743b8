/**
 The obstacle vectorisation of `occ2poly.py`. The occupancy band is widened
 to `uint16`, cells above 225 form the obstacle mask, the traced shapes are
 simplified and buffered, and the shapes that come out empty are dropped
 with a warning. The kept shapes are stored in order under the frame keys
 0, 2, 4, ...

 Contour tracing, `simplify` and `buffer` are floating-point geometry in
 libraries outside this model. They are function parameters: `prepare`
 stands for building the shapely shape, simplifying it with tolerance 0.005
 without preserving topology, and buffering it by 1.0; and
 `isEmpty` for shapely's `is_empty`. The list logic is generic in the
 feature type `F` and the shape type `G`.
 */
module Polygons {
  import opened Raster
  import opened Threshold

  /** Cells strictly above this value are obstacles. */
  const ObstacleThreshold: int := 225

  /** A vertex in the raster's world coordinates. */
  datatype Vertex = Vertex(x: real, y: real)

  /** A polygon: its outer ring and its holes, each ring implicitly closed. */
  datatype Geometry = Geometry(rings: seq<seq<Vertex>>)

  /** One traced region, `{'properties': {'raster_val': v}, 'geometry': s}`. */
  datatype Feature = Feature(geometry: Geometry, rasterVal: int)

  /** `astype('uint16')` of an 8-bit band: every value fits, so each one is kept. */
  function Widen(g: Grid): (w: seq<seq<int>>)
    ensures |w| == |g| && forall r :: 0 <= r < |g| ==> |w[r]| == |g[r]|
    ensures forall r, c :: 0 <= r < |g| && 0 <= c < |g[r]| ==> w[r][c] == g[r][c]
  {
    seq(|g|, r requires 0 <= r < |g| =>
      seq(|g[r]|, c requires 0 <= c < |g[r]| => g[r][c] as int))
  }

  /** `mask = occgrid > 225`. */
  function ObstacleMask(occ: seq<seq<int>>): (mask: seq<seq<bool>>)
    ensures |mask| == |occ| && forall r :: 0 <= r < |occ| ==> |mask[r]| == |occ[r]|
    ensures forall r, c :: 0 <= r < |occ| && 0 <= c < |occ[r]| ==> (mask[r][c] <==> occ[r][c] > ObstacleThreshold)
  {
    seq(|occ|, r requires 0 <= r < |occ| =>
      seq(|occ[r]|, c requires 0 <= c < |occ[r]| => occ[r][c] > ObstacleThreshold))
  }

  /**
   On a grid produced by the occupancy pipeline (free, occupied or 50..70)
   the obstacle mask marks exactly the occupied cells.
   */
  lemma ObstaclesAreOccupied(g: Grid)
    requires OccupancyValues(g)
    ensures forall r, c :: 0 <= r < |g| && 0 <= c < |g[r]| ==>
              (ObstacleMask(Widen(g))[r][c] <==> g[r][c] == Occupied)
  {
    var w := Widen(g);
    forall r, c | 0 <= r < |g| && 0 <= c < |g[r]|
      ensures ObstacleMask(w)[r][c] <==> g[r][c] == Occupied
    {
      assert OccupancyValue(g[r][c]);
    }
  }

  /** The shapes the loop keeps from `geoms`, in order: the prepared shapes that are not empty. */
  function Kept<F, G>(geoms: seq<F>, prepare: F -> G, isEmpty: G -> bool): (shapes: seq<G>)
    ensures |shapes| + Dropped(geoms, prepare, isEmpty) == |geoms|
    ensures forall k :: 0 <= k < |shapes| ==> !isEmpty(shapes[k])
    decreases |geoms|
  {
    if |geoms| == 0 then []
    else
      var shape := prepare(geoms[|geoms| - 1]);
      Kept(geoms[..|geoms| - 1], prepare, isEmpty) + (if isEmpty(shape) then [] else [shape])
  }

  /** The number of warnings the loop prints: the prepared shapes that are empty. */
  function Dropped<F, G>(geoms: seq<F>, prepare: F -> G, isEmpty: G -> bool): nat
    decreases |geoms|
  {
    if |geoms| == 0 then 0
    else Dropped(geoms[..|geoms| - 1], prepare, isEmpty) + (if isEmpty(prepare(geoms[|geoms| - 1])) then 1 else 0)
  }

  /**
   Positions in `geoms` of the kept shapes: strictly increasing, each one
   non-empty once prepared, and every non-empty position present.
   */
  function KeptIndices<F, G>(geoms: seq<F>, prepare: F -> G, isEmpty: G -> bool): (idx: seq<nat>)
    ensures forall k :: 0 <= k < |idx| ==> idx[k] < |geoms| && !isEmpty(prepare(geoms[idx[k]]))
    ensures forall k, l :: 0 <= k < l < |idx| ==> idx[k] < idx[l]
    ensures forall j :: 0 <= j < |geoms| && !isEmpty(prepare(geoms[j])) ==> j in idx
    decreases |geoms|
  {
    if |geoms| == 0 then []
    else
      var n := |geoms| - 1;
      var front := KeptIndices(geoms[..n], prepare, isEmpty);
      assert forall k :: 0 <= k < |front| ==> geoms[..n][front[k]] == geoms[front[k]];
      front + (if isEmpty(prepare(geoms[n])) then [] else [n])
  }

  /** One step of `Kept` and `KeptIndices`: the last geometry adds at most one entry to each. */
  lemma KeptSnoc<F, G>(geoms: seq<F>, prepare: F -> G, isEmpty: G -> bool)
    requires |geoms| > 0
    ensures var n := |geoms| - 1;
            var shape := prepare(geoms[n]);
            Kept(geoms, prepare, isEmpty) ==
              Kept(geoms[..n], prepare, isEmpty) + (if isEmpty(shape) then [] else [shape]) &&
            KeptIndices(geoms, prepare, isEmpty) ==
              KeptIndices(geoms[..n], prepare, isEmpty) + (if isEmpty(shape) then [] else [n])
  {
  }

  /**
   The kept shapes are the prepared geometries at the kept positions, in the
   order of `geoms`: an order-preserving filter.
   */
  lemma {:induction false} KeptIsOrderedFilter<F, G>(geoms: seq<F>, prepare: F -> G, isEmpty: G -> bool)
    ensures |Kept(geoms, prepare, isEmpty)| == |KeptIndices(geoms, prepare, isEmpty)|
    ensures forall k :: 0 <= k < |Kept(geoms, prepare, isEmpty)| ==>
              Kept(geoms, prepare, isEmpty)[k] == prepare(geoms[KeptIndices(geoms, prepare, isEmpty)[k]])
    decreases |geoms|
  {
    if |geoms| > 0 {
      var n := |geoms| - 1;
      KeptIsOrderedFilter(geoms[..n], prepare, isEmpty);
      KeptSnoc(geoms, prepare, isEmpty);
      MatchedSnoc(geoms, Kept(geoms[..n], prepare, isEmpty), KeptIndices(geoms[..n], prepare, isEmpty),
                  Kept(geoms, prepare, isEmpty), KeptIndices(geoms, prepare, isEmpty),
                  isEmpty(prepare(geoms[n])), prepare);
    }
  }

  /**
   If `front` lists the prepared geometries of `geoms` without its last
   element at positions `pos`, then appending the last one to both (or to
   neither) keeps the two lists matched over all of `geoms`.
   */
  lemma MatchedSnoc<F, G>(geoms: seq<F>, front: seq<G>, pos: seq<nat>, shapes: seq<G>, idx: seq<nat>,
                          skip: bool, prepare: F -> G)
    requires |geoms| > 0 && |front| == |pos|
    requires forall k :: 0 <= k < |pos| ==> pos[k] < |geoms| - 1
    requires forall k :: 0 <= k < |front| ==> front[k] == prepare(geoms[..|geoms| - 1][pos[k]])
    requires shapes == front + (if skip then [] else [prepare(geoms[|geoms| - 1])])
    requires idx == pos + (if skip then [] else [|geoms| - 1])
    ensures |shapes| == |idx|
    ensures forall k :: 0 <= k < |shapes| ==> shapes[k] == prepare(geoms[idx[k]])
  {
    forall k | 0 <= k < |shapes|
      ensures shapes[k] == prepare(geoms[idx[k]])
    {
      if k < |front| {
        assert shapes[k] == front[k] && idx[k] == pos[k];
      }
    }
  }

  /** Processing two lists one after the other keeps the shapes of each, in order. */
  lemma {:induction false} KeptAppend<F, G>(a: seq<F>, b: seq<F>, prepare: F -> G, isEmpty: G -> bool)
    ensures Kept(a + b, prepare, isEmpty) == Kept(a, prepare, isEmpty) + Kept(b, prepare, isEmpty)
    ensures Dropped(a + b, prepare, isEmpty) == Dropped(a, prepare, isEmpty) + Dropped(b, prepare, isEmpty)
    decreases |b|
  {
    if |b| == 0 {
      assert a + b == a;
    } else {
      var n := |b| - 1;
      assert (a + b)[..|a + b| - 1] == a + b[..n];
      KeptAppend(a, b[..n], prepare, isEmpty);
    }
  }

  /** When nothing collapses, every geometry is kept and nothing is reported. */
  lemma {:induction false} NothingLost<F, G>(geoms: seq<F>, prepare: F -> G, isEmpty: G -> bool)
    requires forall j :: 0 <= j < |geoms| ==> !isEmpty(prepare(geoms[j]))
    ensures Dropped(geoms, prepare, isEmpty) == 0
    ensures Kept(geoms, prepare, isEmpty) == seq(|geoms|, j requires 0 <= j < |geoms| => prepare(geoms[j]))
    decreases |geoms|
  {
    if |geoms| > 0 {
      var n := |geoms| - 1;
      NothingLost(geoms[..n], prepare, isEmpty);
    }
  }

  /**
   The conversion loop. `count` starts at 0 and grows by 2 per kept shape;
   each kept shape is appended to `shapes` and stored in the frame under the
   current `count`; an empty shape only adds a warning.
   */
  method CollectShapes(geoms: seq<Feature>, prepare: Feature -> Geometry, isEmpty: Geometry -> bool)
    returns (shapes: seq<Geometry>, frame: map<int, Geometry>, count: int, warnings: nat)
    ensures |shapes| == |Kept(geoms, prepare, isEmpty)|
    ensures forall k :: 0 <= k < |shapes| ==> shapes[k] == Kept(geoms, prepare, isEmpty)[k]
    ensures warnings == Dropped(geoms, prepare, isEmpty)
    ensures |shapes| + warnings == |geoms|
    ensures forall k :: 0 <= k < |shapes| ==> !isEmpty(shapes[k])
    ensures count == 2 * |shapes|
    ensures frame.Keys == set k | 0 <= k < |shapes| :: 2 * k
    ensures forall k :: 0 <= k < |shapes| ==> 2 * k in frame && frame[2 * k] == shapes[k]
  {
    shapes, frame, count, warnings := [], map[], 0, 0;
    var i := 0;
    while i < |geoms|
      invariant 0 <= i <= |geoms|
      invariant shapes == Kept(geoms[..i], prepare, isEmpty)
      invariant warnings == Dropped(geoms[..i], prepare, isEmpty)
      invariant count == 2 * |shapes|
      invariant frame.Keys == set k | 0 <= k < |shapes| :: 2 * k
      invariant forall k :: 0 <= k < |shapes| ==> frame[2 * k] == shapes[k]
    {
      assert geoms[..i + 1][..i] == geoms[..i];
      var shape := prepare(geoms[i]);
      if isEmpty(shape) {
        warnings := warnings + 1;
      } else {
        shapes := shapes + [shape];
        frame := frame[count := shape];
        count := count + 2;
      }
      i := i + 1;
    }
    assert geoms[..i] == geoms;
  }
}
