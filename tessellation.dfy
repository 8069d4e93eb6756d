/** The unbounded Voronoi diagram as the tessellation library hands it over:
    seeds, vertices, ridges and regions, all addressed by integer index, with
    `-1` standing for the vertex at infinity. */
module Tessellation {
  import opened Geometry

  /** The vertex id that marks a ridge or region end at infinity. */
  const Infinity: int := -1

  /** The fields of `scipy.spatial.Voronoi` the construction reads.
      `ridgeVertices[r]` is the vertex pair of ridge `r` (a list of two ids);
      `ridgePoints[r]` the two seeds it separates; `pointRegion[i]` the region
      of seed `i`. */
  datatype Voronoi = Voronoi(
    points: seq<Point>,
    vertices: seq<Point>,
    ridgePoints: seq<(nat, nat)>,
    ridgeVertices: seq<seq<int>>,
    regions: seq<seq<int>>,
    pointRegion: seq<nat>)

  /** A vertex id: a vertex of `vertices` or the infinity marker. */
  predicate VertexId(v: int, vertexCount: nat)
  {
    Infinity <= v < vertexCount
  }

  /** What the tessellation library guarantees for a planar diagram: indices
      in range, two ids per ridge and never two infinite ends, one region per
      seed, and every region that reaches infinity owned by a seed. */
  ghost predicate WellFormed(vor: Voronoi)
  {
    && |vor.points| > 0
    && |vor.ridgePoints| == |vor.ridgeVertices|
    && (forall r :: 0 <= r < |vor.ridgePoints| ==>
          vor.ridgePoints[r].0 < |vor.points| && vor.ridgePoints[r].1 < |vor.points|)
    && (forall r :: 0 <= r < |vor.ridgeVertices| ==> RidgeShape(vor.ridgeVertices[r], |vor.vertices|))
    && |vor.pointRegion| == |vor.points|
    && (forall i :: 0 <= i < |vor.pointRegion| ==> vor.pointRegion[i] < |vor.regions|)
    && (forall i, i' :: 0 <= i < i' < |vor.pointRegion| ==> vor.pointRegion[i] != vor.pointRegion[i'])
    && (forall g :: 0 <= g < |vor.regions| ==> RegionShape(vor.regions[g], |vor.vertices|))
    && (forall g :: 0 <= g < |vor.regions| && Infinity in vor.regions[g] ==> g in vor.pointRegion)
  }

  /** Two vertex ids, at most one of them infinite. */
  predicate RidgeShape(rv: seq<int>, vertexCount: nat)
  {
    |rv| == 2 && VertexId(rv[0], vertexCount) && VertexId(rv[1], vertexCount) &&
    !(rv[0] == Infinity && rv[1] == Infinity)
  }

  predicate RegionShape(reg: seq<int>, vertexCount: nat)
  {
    forall k :: 0 <= k < |reg| ==> VertexId(reg[k], vertexCount)
  }

  /** A ridge with an end at infinity (`np.any(simplex < 0)`). */
  predicate Unbounded(rv: seq<int>)
    requires |rv| == 2
  {
    rv[0] < 0 || rv[1] < 0
  }

  /** Position of the infinite end (`np.where(simplex < 0)[0][0]`). */
  function InfiniteEnd(rv: seq<int>): (ii: nat)
    requires |rv| == 2 && Unbounded(rv)
    ensures ii < 2 && rv[ii] < 0 && (ii == 1 ==> rv[0] >= 0)
  {
    if rv[0] < 0 then 0 else 1
  }

  /** The finite end vertex (`simplex[simplex >= 0][0]`). */
  function FiniteEnd(rv: seq<int>, vertexCount: nat): (v: nat)
    requires RidgeShape(rv, vertexCount)
    ensures v < vertexCount && v in rv
  {
    if rv[0] >= 0 then rv[0] else rv[1]
  }

  /** The seed owning region `g` (`np.where(vor.point_region == g)`), the
      first one should there be several. */
  function SeedOf(pointRegion: seq<nat>, g: nat): (i: nat)
    requires g in pointRegion
    ensures i < |pointRegion| && pointRegion[i] == g
    ensures forall i' :: 0 <= i' < i ==> pointRegion[i'] != g
  {
    if pointRegion[0] == g then 0 else 1 + SeedOf(pointRegion[1..], g)
  }
}
