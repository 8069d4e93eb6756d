/** `create_bounded_ridges`: every ridge with an end at infinity gets a new
    vertex where its outward ray meets the clipping box. The vertex list only
    grows (an append-only arena addressed by index) and the ridge's infinite
    end is patched to the new vertex's index. */
module RidgeClipper {
  import opened Geometry
  import opened Tessellation
  import Crossing

  /** Number of unbounded ridges among the first `n`. */
  function UnboundedBefore(rvs: seq<seq<int>>, n: nat): nat
    requires n <= |rvs|
    requires forall r :: 0 <= r < |rvs| ==> |rvs[r]| == 2
  {
    if n == 0 then 0
    else UnboundedBefore(rvs, n - 1) + (if Unbounded(rvs[n - 1]) then 1 else 0)
  }

  /** The index the clipper gives to the vertex of unbounded ridge `j`: the
      vertex count just before that ridge's append. */
  function NewIndex(vor: Voronoi, j: nat): nat
    requires WellFormed(vor) && j <= |vor.ridgeVertices|
  {
    |vor.vertices| + UnboundedBefore(vor.ridgeVertices, j)
  }

  /** Ridge `j` after clipping: its infinite end replaced by its new vertex. */
  function PatchedRidge(vor: Voronoi, j: nat): seq<int>
    requires WellFormed(vor) && j < |vor.ridgeVertices|
  {
    var rv := vor.ridgeVertices[j];
    if Unbounded(rv) then rv[InfiniteEnd(rv) := NewIndex(vor, j)] else rv
  }

  /** The index bookkeeping of the clipper: the vertices grow by one per
      unbounded ridge behind an unchanged prefix, and every ridge is patched. */
  ghost predicate Patched(vor: Voronoi, newVertices: seq<Point>, newRidges: seq<seq<int>>)
    requires WellFormed(vor)
  {
    && |newVertices| == |vor.vertices| + UnboundedBefore(vor.ridgeVertices, |vor.ridgeVertices|)
    && newVertices[..|vor.vertices|] == vor.vertices
    && |newRidges| == |vor.ridgeVertices|
    && forall j :: 0 <= j < |newRidges| ==> newRidges[j] == PatchedRidge(vor, j)
  }

  function SumX(ps: seq<Point>): real
  {
    if ps == [] then 0.0 else SumX(ps[..|ps| - 1]) + ps[|ps| - 1].x
  }

  function SumY(ps: seq<Point>): real
  {
    if ps == [] then 0.0 else SumY(ps[..|ps| - 1]) + ps[|ps| - 1].y
  }

  /** `vor.points.mean(axis=0)`. */
  function Mean(ps: seq<Point>): Point
    requires |ps| > 0
  {
    Point(SumX(ps) / (|ps| as real), SumY(ps) / (|ps| as real))
  }

  /** `np.sign`. */
  function Sign(x: real): real
  {
    if x > 0.0 then 1.0 else if x < 0.0 then -1.0 else 0.0
  }

  /** One positive tangent length per ridge, so the normalisation divides
      by a non-zero number. */
  predicate PositiveLengths(vor: Voronoi, lengths: seq<real>)
  {
    |lengths| == |vor.ridgePoints| && forall j :: 0 <= j < |lengths| ==> lengths[j] > 0.0
  }

  /** `lengths[j]` is the Euclidean length of ridge `j`'s tangent
      `points[b] - points[a]`; the square root itself is computed outside. */
  ghost predicate NormsOf(vor: Voronoi, lengths: seq<real>)
    requires WellFormed(vor)
  {
    && PositiveLengths(vor, lengths)
    && forall j :: 0 <= j < |lengths| ==>
         lengths[j] * lengths[j] == SqDist(vor.points[vor.ridgePoints[j].1], vor.points[vor.ridgePoints[j].0])
  }

  /** The unit normal of the tangent `p1 - p0` of length `len`: the
      normalised tangent turned a quarter. */
  function NormalOf(p0: Point, p1: Point, len: real): Point
    requires len > 0.0
  {
    var t := Point((p1.x - p0.x) / len, (p1.y - p0.y) / len);
    Point(-t.y, t.x)
  }

  /** Which of the two normals of the ridge between `p0` and `p1` points away
      from `center`, as the sign of `dot(midpoint - center, n)`. */
  function OrientOf(p0: Point, p1: Point, len: real, center: Point): real
    requires len > 0.0
  {
    var mid := Point((p0.x + p1.x) / 2.0, (p0.y + p1.y) / 2.0);
    var n := NormalOf(p0, p1, len);
    Sign((mid.x - center.x) * n.x + (mid.y - center.y) * n.y)
  }

  /** `orient` picks the normal pointing away from `center`: `orient * n`
      makes a non-negative dot product with `midpoint - center`, a positive
      one unless the two are orthogonal, in which case `orient` is 0. */
  lemma OrientPointsAway(p0: Point, p1: Point, len: real, center: Point)
    requires len > 0.0
    ensures var mid := Point((p0.x + p1.x) / 2.0, (p0.y + p1.y) / 2.0);
      var n := NormalOf(p0, p1, len);
      var o := OrientOf(p0, p1, len, center);
      var dot := (mid.x - center.x) * n.x + (mid.y - center.y) * n.y;
      && (o == 1.0 || o == -1.0 || o == 0.0)
      && o * dot >= 0.0
      && (o != 0.0 <==> o * dot > 0.0)
      && (o == 0.0 <==> dot == 0.0)
  {
  }

  /** The far point of unbounded ridge `j`: its ray from the finite end,
      turned away from the seeds' mean and clipped to the box; with
      `skipParallel` false the crossing is the one the source computes, with
      it true the corrected one. */
  function ClippedVertex(vor: Voronoi, box: Box, lengths: seq<real>, j: nat, skipParallel: bool): Point
    requires WellFormed(vor) && PositiveLengths(vor, lengths) && j < |vor.ridgePoints|
  {
    var rv := vor.ridgeVertices[j];
    var p0 := vor.points[vor.ridgePoints[j].0];
    var p1 := vor.points[vor.ridgePoints[j].1];
    Crossing.CrossingOf(vor.vertices[FiniteEnd(rv, |vor.vertices|)], NormalOf(p0, p1, lengths[j]),
                        OrientOf(p0, p1, lengths[j], Mean(vor.points)), box, skipParallel)
  }

  /** The vertices the clipper appends for the first `n` ridges, in ridge
      order: one clipped vertex per unbounded ridge. */
  function FarPoints(vor: Voronoi, box: Box, lengths: seq<real>, n: nat, skipParallel: bool): (fs: seq<Point>)
    requires WellFormed(vor) && PositiveLengths(vor, lengths) && n <= |vor.ridgePoints|
    ensures |fs| == UnboundedBefore(vor.ridgeVertices, n)
  {
    if n == 0 then []
    else
      FarPoints(vor, box, lengths, n - 1, skipParallel) +
      (if Unbounded(vor.ridgeVertices[n - 1]) then [ClippedVertex(vor, box, lengths, n - 1, skipParallel)] else [])
  }

  /** The clipped vertex of unbounded ridge `j` sits where its new index
      points. */
  lemma {:induction false} FarPointAt(vor: Voronoi, box: Box, lengths: seq<real>, j: nat, n: nat, skipParallel: bool)
    requires WellFormed(vor) && PositiveLengths(vor, lengths)
    requires j < n <= |vor.ridgePoints| && Unbounded(vor.ridgeVertices[j])
    ensures UnboundedBefore(vor.ridgeVertices, j) < |FarPoints(vor, box, lengths, n, skipParallel)|
    ensures FarPoints(vor, box, lengths, n, skipParallel)[UnboundedBefore(vor.ridgeVertices, j)] ==
      ClippedVertex(vor, box, lengths, j, skipParallel)
  {
    if j < n - 1 {
      FarPointAt(vor, box, lengths, j, n - 1, skipParallel);
    }
  }

  /** Normalising by the tangent's true length gives a unit normal. */
  lemma UnitNormal(p0: Point, p1: Point, len: real)
    requires len > 0.0 && len * len == SqDist(p1, p0)
    ensures NormalOf(p0, p1, len).x * NormalOf(p0, p1, len).x + NormalOf(p0, p1, len).y * NormalOf(p0, p1, len).y == 1.0
  {
    var dx, dy := p1.x - p0.x, p1.y - p0.y;
    var a, b := dy / len, dx / len;
    assert a * len == dy && b * len == dx;
    ScaledSquares(a, b, len, dx, dy);
  }

  lemma SquareScale(a: real, len: real, d: real)
    requires a * len == d
    ensures (a * a) * (len * len) == d * d
  {
    assert (a * a) * (len * len) == (a * len) * (a * len);
  }

  lemma ZeroFactor(x: real, s: real)
    requires s > 0.0 && x * s == 0.0
    ensures x == 0.0
  {
  }

  /** If `a` and `b` scale to the sides of a right triangle whose hypotenuse
      is `len`, they are the sides of a unit one. */
  lemma ScaledSquares(a: real, b: real, len: real, dx: real, dy: real)
    requires len > 0.0 && a * len == dy && b * len == dx
    requires len * len == dx * dx + dy * dy
    ensures a * a + b * b == 1.0
  {
    SquareScale(a, len, dy);
    SquareScale(b, len, dx);
    var x := a * a + b * b - 1.0;
    assert x * (len * len) == 0.0;
    assert (x * len) * len == 0.0;
    ZeroFactor(x * len, len);
    ZeroFactor(x, len);
  }

  /** When the finite end lies in the box and the ridge has a definite
      outward side, its clipped vertex lies on the box's boundary. */
  lemma ClippedVertexOnBoundary(vor: Voronoi, box: Box, lengths: seq<real>, j: nat)
    requires WellFormed(vor) && NormsOf(vor, lengths) && j < |vor.ridgePoints|
    requires Unbounded(vor.ridgeVertices[j])
    requires InBox(vor.vertices[FiniteEnd(vor.ridgeVertices[j], |vor.vertices|)], box)
    requires box[2] - box[0] <= Crossing.Sentinel / 2.0 && box[3] - box[1] <= Crossing.Sentinel / 2.0
    requires var p0, p1 := vor.points[vor.ridgePoints[j].0], vor.points[vor.ridgePoints[j].1];
      OrientOf(p0, p1, lengths[j], Mean(vor.points)) != 0.0
    ensures InBox(ClippedVertex(vor, box, lengths, j, true), box)
    ensures OnBoxLine(ClippedVertex(vor, box, lengths, j, true), box)
  {
    var p0, p1 := vor.points[vor.ridgePoints[j].0], vor.points[vor.ridgePoints[j].1];
    UnitNormal(p0, p1, lengths[j]);
    Crossing.CrossingOnBoundary(vor.vertices[FiniteEnd(vor.ridgeVertices[j], |vor.vertices|)],
      NormalOf(p0, p1, lengths[j]), OrientOf(p0, p1, lengths[j], Mean(vor.points)), box);
  }

  /** Whichever crossing is used, a finite end inside the box gives a
      clipped vertex inside the box. With `orient` 0 the vertex is the
      finite end itself. */
  lemma ClippedVertexInside(vor: Voronoi, box: Box, lengths: seq<real>, j: nat, skipParallel: bool)
    requires WellFormed(vor) && PositiveLengths(vor, lengths) && j < |vor.ridgePoints|
    requires Unbounded(vor.ridgeVertices[j])
    requires InBox(vor.vertices[FiniteEnd(vor.ridgeVertices[j], |vor.vertices|)], box)
    ensures InBox(ClippedVertex(vor, box, lengths, j, skipParallel), box)
  {
    var p0, p1 := vor.points[vor.ridgePoints[j].0], vor.points[vor.ridgePoints[j].1];
    var v := vor.vertices[FiniteEnd(vor.ridgeVertices[j], |vor.vertices|)];
    var n, o := NormalOf(p0, p1, lengths[j]), OrientOf(p0, p1, lengths[j], Mean(vor.points));
    OrientPointsAway(p0, p1, lengths[j], Mean(vor.points));
    if o == 0.0 {
      assert Crossing.Along(v, n, o, Crossing.MinTravel(v, n, o, box, 4, skipParallel)) == v;
    } else {
      Crossing.CrossingInside(v, n, o, box, skipParallel);
    }
  }

  /** An unbounded ridge before `j` counts towards the indices after it. */
  lemma {:induction false} UnboundedBeforeGrows(rvs: seq<seq<int>>, k: nat, j: nat)
    requires k < j <= |rvs|
    requires forall r :: 0 <= r < |rvs| ==> |rvs[r]| == 2
    requires Unbounded(rvs[k])
    ensures UnboundedBefore(rvs, k) < UnboundedBefore(rvs, j)
  {
    if k < j - 1 {
      UnboundedBeforeGrows(rvs, k, j - 1);
    }
  }

  /** Distinct unbounded ridges get distinct new vertices, all of them past
      the original vertices and inside the grown list. */
  lemma NewIndicesDistinct(vor: Voronoi, j: nat, j': nat)
    requires WellFormed(vor) && j < j' < |vor.ridgeVertices|
    requires Unbounded(vor.ridgeVertices[j]) && Unbounded(vor.ridgeVertices[j'])
    ensures |vor.vertices| <= NewIndex(vor, j) < NewIndex(vor, j') < NewIndex(vor, |vor.ridgeVertices|)
  {
    UnboundedBeforeGrows(vor.ridgeVertices, j, j');
    UnboundedBeforeGrows(vor.ridgeVertices, j', |vor.ridgeVertices|);
  }

  /** After clipping no ridge refers to infinity: every vertex id of every
      ridge indexes the grown vertex list. */
  lemma PatchedRidgesFinite(vor: Voronoi, newVertices: seq<Point>, newRidges: seq<seq<int>>)
    requires WellFormed(vor) && Patched(vor, newVertices, newRidges)
    ensures forall j, e :: 0 <= j < |newRidges| && 0 <= e < |newRidges[j]| ==>
      0 <= newRidges[j][e] < |newVertices|
  {
    forall j, e | 0 <= j < |newRidges| && 0 <= e < |newRidges[j]|
      ensures 0 <= newRidges[j][e] < |newVertices|
    {
      if Unbounded(vor.ridgeVertices[j]) {
        UnboundedBeforeGrows(vor.ridgeVertices, j, |vor.ridgeVertices|);
      }
    }
  }

  /** The far point of one unbounded ridge, computed as the loop body does
      from its finite end `v`, its seeds `p0`, `p1` and the tangent length. */
  method FarPoint(v: Point, p0: Point, p1: Point, len: real, center: Point, box: Box, skipParallel: bool)
    returns (farPoint: Point)
    requires len > 0.0
    ensures farPoint == Crossing.CrossingOf(v, NormalOf(p0, p1, len), OrientOf(p0, p1, len, center), box, skipParallel)
  {
    var t := Point((p1.x - p0.x) / len, (p1.y - p0.y) / len);
    var n := Point(-t.y, t.x);
    var midpoint := Point((p0.x + p1.x) / 2.0, (p0.y + p1.y) / 2.0);
    var orient := Sign((midpoint.x - center.x) * n.x + (midpoint.y - center.y) * n.y);
    farPoint := Crossing.CrossingPoint(v, n, orient, box, skipParallel);
  }

  /** The source loop over the ridges; `skipParallel` false is the source
      as written. */
  method BoundedRidges(vor: Voronoi, box: Box, lengths: seq<real>, skipParallel: bool)
    returns (newVertices: seq<Point>, newRidges: seq<seq<int>>)
    requires WellFormed(vor) && PositiveLengths(vor, lengths)
    ensures Patched(vor, newVertices, newRidges)
    ensures newVertices == vor.vertices + FarPoints(vor, box, lengths, |vor.ridgePoints|, skipParallel)
  {
    var center := Mean(vor.points);
    newVertices := vor.vertices;
    newRidges := vor.ridgeVertices;
    var j := 0;
    while j < |vor.ridgeVertices|
      invariant j <= |vor.ridgeVertices|
      invariant newVertices == vor.vertices + FarPoints(vor, box, lengths, j, skipParallel)
      invariant |newRidges| == |vor.ridgeVertices|
      invariant forall k :: 0 <= k < j ==> newRidges[k] == PatchedRidge(vor, k)
      invariant forall k :: j <= k < |newRidges| ==> newRidges[k] == vor.ridgeVertices[k]
    {
      var pointidx := vor.ridgePoints[j];
      var simplex := vor.ridgeVertices[j];
      if simplex[0] < 0 || simplex[1] < 0 {
        var i := if simplex[0] >= 0 then simplex[0] else simplex[1];
        var farPoint := FarPoint(vor.vertices[i], vor.points[pointidx.0], vor.points[pointidx.1],
                                 lengths[j], center, box, skipParallel);
        var ii := if simplex[0] < 0 then 0 else 1;
        var kk := |newVertices|;
        assert kk == NewIndex(vor, j) && ii == InfiniteEnd(simplex);
        newRidges := newRidges[j := newRidges[j][ii := kk]];
        newVertices := newVertices + [farPoint];
      }
      j := j + 1;
    }
  }
}
