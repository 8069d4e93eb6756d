# Bounded Voronoi cells: a verified model of the index bookkeeping

`src/voronoiareas.py` turns the unbounded Voronoi diagram of a set of seeds
into bounded convex cells inside a rectangle `[xmin, ymin, xmax, ymax]`. It
then indexes the cell boundaries as a graph. This project models that
pipeline in Dafny and proves what each stage does to the vertex, ridge and
region tables.

- `geometry.dfy` (`Geometry`): points, the box, its four corners, and the
  `Result` type whose error is `IllFormedRegion`.
- `tessellation.dfy` (`Tessellation`): the fields of the diagram that the
  pipeline reads, with `-1` standing for the vertex at infinity. `WellFormed`
  collects what the tessellation library guarantees.
- `crossing.dfy` (`Crossing`): `get_crossing_point_rectangle`, the loop
  keeping the least non-negative travel distance to the four bounds.
- `ridge_clipper.dfy` (`RidgeClipper`): `create_bounded_ridges`. Every
  ridge with an end at infinity appends one clipped vertex to the vertex
  list, and its infinite slot is patched with that vertex's index.
- `region_closer.dfy` (`RegionCloser`): `get_boxed_polygons`, in three
  passes:
  - regions reaching infinity take the ids of their clipped ridges and lose
    their `-1`;
  - the four corners are appended and given to the regions of their nearest
    seeds;
  - every non-empty region becomes the convex hull of its points.
- `graph_index.dfy` (`GraphIndex`): `create_graph_from_polys` up to the
  graph library. It builds the distinct coordinates, the coordinate index,
  and one edge per consecutive pair of each ring.

The source works on local copies and returns values. Each loop is therefore
a Dafny `method` over sequences. Each method is proved against a
specification function (`MinTravel`, `FarPoints`/`PatchedRidge`,
`ClosedRegion`, `CornerRegions`, `Polygons`, `Edges`), and lemmas state
what those functions mean.

Three library steps enter as inputs:

- The convex hull is a parameter `hull: seq<Point> -> Option<seq<nat>>`.
  `None` stands for the library's failure and becomes
  `Err(IllFormedRegion(g))`.
- The nearest-seed query is a parameter `nearest` holding the four seeds.
  Each is required to be at minimal squared distance from its corner.
  `NearestSeed` shows that such seeds always exist.
- The tangent's Euclidean length is the parameter `lengths`.

The crossing is modelled both as written and corrected (see Findings): the
flag `skipParallel` selects. The ridge clipper takes the same flag, so
`BoundedRidges(..., false)` is the source as written and
`BoundedRidges(..., true)` the clipper with the corrected crossing. The
correction lands every clipped vertex on the box boundary only for finite
ends inside the box. From a finite end outside the box, both versions can
return a vertex outside it (see Left out).

## Model

| member | source | states |
|---|---|---|
| Geometry.Corners | src/voronoiareas.py:100 | the four corners in `itertools.product((xmin, xmax), (ymin, ymax))` order: corner `k` has x bound `2*(k/2)` and y bound `1+2*(k%2)` |
| Crossing.CrossingPoint | src/voronoiareas.py:62-74 | the loop returns `v0 + orient*alpha*mindist`, where `mindist` is the running minimum over the four bounds starting from 999999999 |
| Crossing.MinTravelIsLeast | src/voronoiareas.py:63-71 | `mindist` is never negative and never above the sentinel; it is no larger than any eligible bound's travel; it is either the sentinel or the travel of one eligible bound |
| Crossing.MinTravelBelow | src/voronoiareas.py:65-71 | after the loop has seen bound `j`, `mindist` is at most that bound's travel whenever the bound qualified |
| Crossing.MinTravelRange | src/voronoiareas.py:63-71 | `mindist` stays within `[0, 999999999]` at every step |
| Crossing.MinTravelWitness | src/voronoiareas.py:63-71 | `mindist` is the sentinel, or it equals the travel of a qualifying bound already seen |
| Crossing.NoEligibleKeepsSentinel | src/voronoiareas.py:63-71 | when no bound has a non-negative travel, `mindist` stays 999999999 |
| Crossing.CrossingOnSideLine | src/voronoiareas.py:65-73 | with `orient` = ±1, if the minimising bound lies on an axis where `alpha` is non-zero, the returned point's coordinate on that axis is exactly that bound |
| Crossing.AxisInside | src/voronoiareas.py:65-73 | as written and corrected alike, with `orient` = ±1 and `v0` in the box, each coordinate of the returned point stays between that axis's two bounds |
| Crossing.CrossingInside | src/voronoiareas.py:62-74 | as written and corrected alike, with `orient` = ±1 and `v0` in the box, the returned point is inside the box |
| Crossing.TravelBelowSentinel | src/voronoiareas.py:63-69 | for a unit direction inside a box narrower than half the sentinel, the bound ahead on the dominant axis is reached before 999999999 |
| Crossing.CrossingOnBoundary | src/voronoiareas.py:62-74 | with parallel sides skipped, a unit direction, `orient` = ±1 and `v0` in the box, the returned point is inside the box and on one of its four sides |
| Crossing.OutsideStartLeavesBox | src/voronoiareas.py:62-74 | from (0.5, -0.5) below the unit box heading down, the loop as written returns (0.5, -1) and the corrected loop returns (0.5, -0.5 - 999999999), both outside the box |
| Crossing.ParallelSideStopsShort | src/voronoiareas.py:65-73 | as written, from (0.9, 0.1) heading up in the unit box, the loop returns (0.9, 0.2), on no side; with parallel sides skipped it returns (0.9, 1) |
| Tessellation.InfiniteEnd | src/voronoiareas.py:164 | `np.where(simplex < 0)[0][0]`: the first slot holding a negative id |
| Tessellation.FiniteEnd | src/voronoiareas.py:153 | `simplex[simplex >= 0][0]`: a vertex of the ridge that indexes the vertex list |
| Tessellation.SeedOf | src/voronoiareas.py:85-86 | the first seed whose `point_region` is the region |
| RidgeClipper.FarPoints | src/voronoiareas.py:148-167 | the clipper appends exactly one vertex per unbounded ridge seen so far |
| RidgeClipper.FarPointAt | src/voronoiareas.py:164-167 | the clipped vertex of unbounded ridge `j` sits at its new index, which is the count of unbounded ridges before `j` past the original vertices |
| RidgeClipper.OrientPointsAway | src/voronoiareas.py:158-159 | `orient` is -1, 0 or 1; `orient * n` makes a non-negative dot product with `midpoint - center`, positive exactly when `orient` is not 0, and `orient` is 0 exactly when the normal is orthogonal to `midpoint - center` |
| RidgeClipper.BoundedRidges | src/voronoiareas.py:144-173 | for either crossing (`skipParallel` false is the source as written): the original vertices stay an unchanged prefix; one clipped vertex is appended per unbounded ridge, in ridge order; each unbounded ridge's first negative slot becomes the vertex count before its append, and every other ridge and slot is unchanged |
| RidgeClipper.NewIndicesDistinct | src/voronoiareas.py:164-167 | distinct unbounded ridges get distinct new indices, all past the original vertices and inside the final list |
| RidgeClipper.PatchedRidgesFinite | src/voronoiareas.py:146-166 | after clipping, every id of every ridge indexes the grown vertex list |
| RidgeClipper.UnitNormal | src/voronoiareas.py:154-156 | dividing the tangent by its true length makes the normal a unit vector |
| RidgeClipper.ClippedVertexInside | src/voronoiareas.py:153-163 | as written and corrected alike, if the finite end lies in the box, the clipped vertex lies inside the box; with `orient` 0 it is the finite end itself |
| RidgeClipper.ClippedVertexOnBoundary | src/voronoiareas.py:153-163 | with the corrected crossing, if the finite end lies in the box and `orient` is not 0, the clipped vertex lies inside the box and on one of its sides |
| RegionCloser.OpenEnd | src/voronoiareas.py:94 | `myidx` is a slot of the ridge, and it holds `-1` whenever the ridge holds one |
| RegionCloser.RemoveFirstSplice | src/voronoiareas.py:97 | `list.remove(-1)` cuts out exactly the first `-1`: the ids before it and after it stay, in order |
| RegionCloser.RemoveFirstDropsOne | src/voronoiareas.py:97 | `list.remove(-1)` shortens the list by one and removes exactly one `-1`, keeping every other id |
| RegionCloser.RemoveFirstAppend | src/voronoiareas.py:96-97 | removing a `-1` that was already in the region leaves the appended ids in place at the end |
| RegionCloser.CloseRegions | src/voronoiareas.py:78-97 | the first pass yields, region by region, the closed region: untouched without `-1`, otherwise the seed's additions appended and the first `-1` removed |
| RegionCloser.ClosedRegionParts | src/voronoiareas.py:82-97 | a region with `-1` keeps its other ids in order, loses exactly one `-1`, and gains in ridge order the patched ids of the seed's ridges that reached infinity |
| RegionCloser.AdditionsAreClippedVertices | src/voronoiareas.py:90-96 | with the clipper's table, every id a region gains is a clipped vertex: past the original vertices and inside the grown list |
| RegionCloser.RemoveOnlyInfinity | src/voronoiareas.py:97 | removing the only `-1` of a region leaves ids that all index the vertex list |
| RegionCloser.ClosedRegionFinite | src/voronoiareas.py:82-97 | a region with at most one `-1` has no `-1` after the first pass, and every id in it indexes the grown vertex list |
| RegionCloser.NearestSeed | src/voronoiareas.py:99-104 | a seed at minimal squared distance from a corner exists for any non-empty seed set |
| RegionCloser.Owners | src/voronoiareas.py:104-107 | corner `k` goes to `point_region[idx]` of its nearest seed, a valid region |
| RegionCloser.CornerRegionsGrow | src/voronoiareas.py:103-107 | the corner pass keeps every region as a prefix and adds only ids of corners that region owns |
| RegionCloser.CornerIdsBelow | src/voronoiareas.py:103-107 | after `k` corners every id is below `base + k` |
| RegionCloser.CornerOwnedOnce | src/voronoiareas.py:99-107 | corner `m`'s fresh index `len(newvorvertices)` is in region `g` exactly when `g` is the region of that corner's nearest seed |
| RegionCloser.AssignCorners | src/voronoiareas.py:99-107 | the four corners are appended in order as fresh vertices, and each fresh index joins its nearest seed's region |
| RegionCloser.NonEmpty | src/voronoiareas.py:110-111 | the non-empty region ids are region ids |
| RegionCloser.NonEmptyListsNonEmpty | src/voronoiareas.py:110-111 | the list holds exactly the non-empty regions, in ascending order |
| RegionCloser.PolygonsOkIff | src/voronoiareas.py:109-116 | the polygons are produced exactly when every non-empty region has a hull |
| RegionCloser.PolygonsOnePerRegion | src/voronoiareas.py:109-116 | on success, there is one polygon per non-empty region, in region order, and each is `points[hull.vertices]` of its region |
| RegionCloser.PolygonsFirstFailure | src/voronoiareas.py:110-113 | on failure, the error names the first non-empty region whose hull fails |
| RegionCloser.PolygonsStayFailed | src/voronoiareas.py:113 | once a hull fails, later regions do not change the outcome |
| RegionCloser.HullPolygons | src/voronoiareas.py:109-116 | the hull loop skips empty regions and stops at the first failure |
| RegionCloser.FinalRegionsFinite | src/voronoiareas.py:82-112 | when every region has at most one `-1`, all ids after both passes index the final vertex list without numpy's negative-index wrap-around |
| RegionCloser.BoxedPolygons | src/voronoiareas.py:77-116 | the three passes composed; every region is indexable into the final vertices, and the result is the polygons of the closed, cornered regions |
| GraphIndex.RingPointsMembers | src/voronoiareas.py:225-230 | the coordinate set holds exactly the points that occur in some ring |
| GraphIndex.CollectPoints | src/voronoiareas.py:225-230 | the first loop gathers the set of all ring coordinates |
| GraphIndex.DistinctCard | src/voronoiareas.py:232-235 | a list without duplicates is as long as its set, so `nvertices` is the number of distinct coordinates |
| GraphIndex.Enumerate | src/voronoiareas.py:232 | `list(set)` lists every coordinate of the set exactly once |
| GraphIndex.IndexCoords | src/voronoiareas.py:236-240 | the coordinate index maps every coordinate to its position, and every key to a position holding that key |
| GraphIndex.EmitEdges | src/voronoiareas.py:241-251 | the edge loop emits, ring after ring, `(idx(pt[i]), idx(pt[(i+1)%m]))` for each point |
| GraphIndex.EdgesCount | src/voronoiareas.py:244-251 | each ring of `m` points contributes exactly `m` edges |
| GraphIndex.EdgeAt | src/voronoiareas.py:246-251 | the edge at offset `i` of ring `r` joins point `i` to point `(i+1)%m` |
| GraphIndex.EdgesInRange | src/voronoiareas.py:244-251 | every edge endpoint is below the vertex count |
| GraphIndex.GraphFromPolys | src/voronoiareas.py:224-251 | distinct coordinates, one per distinct ring point; an index mapping each to its position; one in-range edge per ring point |

## Left out

- The Voronoi tessellation (`scipy.spatial.Voronoi`) is an input. Its
  guarantees are stated as `WellFormed`. `SingleInfinity` (at most one `-1`
  per region) is a separate hypothesis. `FinalRegionsFinite` and the
  composed method `BoxedPolygons` both require it.
- The convex hull is an input function. `HullIndices` states its promise
  that reported indices select among the given points. Its geometric
  output, and the exception text of its failure, are not modelled.
- The nearest-neighbour query is an input. KDTree's tie-breaking between
  equally near seeds is left open: any minimiser is accepted.
- Square roots are not modelled. The tangent's norm (line 155) comes in as
  `lengths`, and the Euclidean edge weights (lines 252-254) are left out.
- Floating-point rounding is not modelled: coordinates are exact reals.
- Plotting is not modelled:
  - the `ax` branch of `create_bounded_ridges` (lines 168-172);
  - the `plot_*` functions;
  - `load_map`;
  - `get_encbox_from_borders` (a library `bounds` call).
- The following are library calls or I/O: `compute_cells_bounded_by_polygon`
  (shapely intersection), `random_sign` and `main`.
- The graph library part of `create_graph_from_polys` (lines 256-269) is not
  modelled. This covers `igraph.Graph`, `simplify`, the attributes
  (including `y` set from the x column) and the plot to a file.
- Rings are taken as the point sequences that `p.exterior.coords` yields.
  The MultiPolygon case of shapely results is not modelled.
- GraphIndex.Enumerate: the order of `list(set)` is Python's set iteration
  order. The model leaves it open and proves only that each coordinate
  appears exactly once.
- GraphIndex.IndexCoords: the nested dictionary `coordsidx[x][y]` is one
  map keyed by points. Lookups agree, but the two-level structure is not
  modelled.
- RidgeClipper.ClippedVertexOnBoundary holds for the corrected crossing
  only. As written, a clipped vertex can stop inside the box off every side
  (see Findings); `ClippedVertexInside` is what holds for both.
- RidgeClipper.ClippedVertexInside requires the ridge's finite end inside
  the box. From a finite end outside the box, both crossings can return a
  vertex outside the box. The corrected one can land as far away as the
  sentinel: `Crossing.OutsideStartLeavesBox` starts at (0.5, -0.5) below the
  unit box heading down. As written, the loop returns (0.5, -1). Corrected,
  no bound qualifies and the point is (0.5, -0.5 - 999999999). The model
  therefore does not promise that every clipped vertex lies in the box.
- RidgeClipper.ClippedVertexOnBoundary assumes the ridge's finite end lies
  inside the box and `orient` is non-zero. A finite Voronoi vertex outside
  the box can give a vertex outside the box (see the line above). If
  `np.sign` returns 0, the clipped vertex is the finite end itself, which
  lies on a side only when the finite end does.
- Crossing.CrossingOnBoundary assumes the box is at most half the sentinel
  wide. A wider box can keep `mindist` at 999999999.
- RegionCloser.CloseRegions compares both seeds of a ridge with the
  region's single seed. numpy's broadcasting of `ridgepts == seedidx` for
  a region owned by several seeds cannot occur, because `WellFormed` makes
  `point_region` injective.

## Findings

| source | as written | input that shows it | evidently intended | confidence | as-written member | corrected member |
|---|---|---|---|---|---|---|
| src/voronoiareas.py:68 | when the direction has no component on a bound's axis, the offset to that bound is scaled by `orient` and competes as a travel distance | `v0 = (0.9, 0.1)`, `alpha = (0, 1)`, `orient = 1`, box `[0, 0, 1, 1]`: the x-bound 1 gives travel 0.1, so the result is (0.9, 0.2), inside the box and on no side | for finite ends inside the box: a bound parallel to the direction is never reached and is skipped, so the crossing lands on the box boundary at (0.9, 1) | not executed | Crossing.ParallelSideStopsShort | Crossing.CrossingOnBoundary |
