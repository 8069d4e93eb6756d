/** `get_boxed_polygons`, index part: every region reaching infinity is closed
    with the clipped vertices of its unbounded ridges, the four box corners are
    appended and handed to the regions of their nearest seeds, and every
    non-empty region becomes the convex hull of its vertices. The nearest-seed
    query and the convex hull are library calls and enter as inputs. */
module RegionCloser {
  import opened Geometry
  import opened Tessellation
  import RidgeClipper

  // ---------------------------------------------------------------------
  // Pass 1: closing the regions that reach infinity
  // ---------------------------------------------------------------------

  /** `list.remove(x)`: drops the first occurrence of `x`. */
  function RemoveFirst(s: seq<int>, x: int): seq<int>
    requires x in s
  {
    if s[0] == x then s[1..] else [s[0]] + RemoveFirst(s[1..], x)
  }

  /** Removal drops exactly one `x` and keeps everything else. */
  lemma {:induction false} RemoveFirstDropsOne(s: seq<int>, x: int)
    requires x in s
    ensures |RemoveFirst(s, x)| == |s| - 1
    ensures multiset(RemoveFirst(s, x)) == multiset(s) - multiset{x}
  {
    assert s == [s[0]] + s[1..];
    if s[0] != x {
      RemoveFirstDropsOne(s[1..], x);
    }
  }

  /** Removal cuts out the first occurrence `i` of `x`: the elements before
      and after it keep their order. */
  lemma {:induction false} RemoveFirstSplice(s: seq<int>, x: int, i: nat)
    requires i < |s| && s[i] == x
    requires forall k :: 0 <= k < i ==> s[k] != x
    ensures RemoveFirst(s, x) == s[..i] + s[i + 1..]
  {
    if i > 0 {
      RemoveFirstSplice(s[1..], x, i - 1);
      assert s[1..][..i - 1] == s[1..i];
      assert s[1..][i..] == s[i + 1..];
      assert s[..i] == [s[0]] + s[1..i];
    }
  }

  /** Removing an `x` that occurs in `a` leaves what follows `a` alone. */
  lemma {:induction false} RemoveFirstAppend(a: seq<int>, b: seq<int>, x: int)
    requires x in a
    ensures RemoveFirst(a + b, x) == RemoveFirst(a, x) + b
  {
    assert (a + b)[0] == a[0];
    assert (a + b)[1..] == a[1..] + b;
    if a[0] != x {
      RemoveFirstAppend(a[1..], b, x);
    }
  }

  /** `np.any(ridgepts == seedidx)`: the ridge separates `seed` from a
      neighbour. */
  predicate Touches(rp: (nat, nat), seed: nat)
  {
    rp.0 == seed || rp.1 == seed
  }

  /** `myidx`: the slot of the ridge's infinite end. */
  function OpenEnd(rv: seq<int>): (e: nat)
    requires |rv| == 2
    ensures e < 2 && (Infinity in rv ==> rv[e] == Infinity)
  {
    if rv[0] == Infinity then 0 else 1
  }

  /** The patched ridge table the clipper hands over: one vertex pair per
      ridge. */
  predicate RidgeTable(vor: Voronoi, newRidges: seq<seq<int>>)
  {
    |newRidges| == |vor.ridgeVertices| && forall r :: 0 <= r < |newRidges| ==> |newRidges[r]| == 2
  }

  /** What a region of `seed` gains from the first `n` ridges: for each ridge
      of the seed that reaches infinity in the original diagram, in ridge
      order, the id the patched table holds in the infinite slot. */
  function Additions(vor: Voronoi, newRidges: seq<seq<int>>, seed: nat, n: nat): seq<int>
    requires WellFormed(vor) && RidgeTable(vor, newRidges) && n <= |vor.ridgePoints|
  {
    if n == 0 then []
    else
      var rv := vor.ridgeVertices[n - 1];
      Additions(vor, newRidges, seed, n - 1) +
      (if Touches(vor.ridgePoints[n - 1], seed) && Infinity in rv then [newRidges[n - 1][OpenEnd(rv)]] else [])
  }

  /** Region `g` after the first pass: untouched unless it reaches infinity,
      in which case its seed's additions are appended and the first `-1` is
      removed. */
  function ClosedRegion(vor: Voronoi, newRidges: seq<seq<int>>, g: nat): seq<int>
    requires WellFormed(vor) && RidgeTable(vor, newRidges) && g < |vor.regions|
  {
    var rr := vor.regions[g];
    if Infinity !in rr then rr
    else RemoveFirst(rr + Additions(vor, newRidges, SeedOf(vor.pointRegion, g), |vor.ridgePoints|), Infinity)
  }

  /** All regions after the first pass. */
  function ClosedRegions(vor: Voronoi, newRidges: seq<seq<int>>): (regions: seq<seq<int>>)
    requires WellFormed(vor) && RidgeTable(vor, newRidges)
  {
    seq(|vor.regions|, g requires 0 <= g < |vor.regions| => ClosedRegion(vor, newRidges, g))
  }

  /** The first pass, two nested loops over regions and ridges. */
  method CloseRegions(vor: Voronoi, newRidges: seq<seq<int>>) returns (regions: seq<seq<int>>)
    requires WellFormed(vor) && RidgeTable(vor, newRidges)
    ensures regions == ClosedRegions(vor, newRidges)
  {
    regions := vor.regions;
    var regidx := 0;
    while regidx < |vor.regions|
      invariant regidx <= |vor.regions| && |regions| == |vor.regions|
      invariant forall g :: 0 <= g < regidx ==> regions[g] == ClosedRegion(vor, newRidges, g)
      invariant forall g :: regidx <= g < |regions| ==> regions[g] == vor.regions[g]
    {
      var rr := vor.regions[regidx];
      if Infinity in rr {
        var seedidx := SeedOf(vor.pointRegion, regidx);
        var region := rr;
        var ridgeid := 0;
        while ridgeid < |vor.ridgePoints|
          invariant ridgeid <= |vor.ridgePoints|
          invariant region == rr + Additions(vor, newRidges, seedidx, ridgeid)
        {
          var ridgepts := vor.ridgePoints[ridgeid];
          var ridgevs := vor.ridgeVertices[ridgeid];
          if (ridgepts.0 == seedidx || ridgepts.1 == seedidx) && Infinity in ridgevs {
            var myidx := if ridgevs[0] == Infinity then 0 else 1;
            region := region + [newRidges[ridgeid][myidx]];
          }
          ridgeid := ridgeid + 1;
        }
        if Infinity in region {
          region := RemoveFirst(region, Infinity);
        }
        regions := regions[regidx := region];
      }
      regidx := regidx + 1;
    }
  }

  /** A region reaching infinity keeps its other ids in order, loses exactly
      one `-1`, and gains its seed's additions at the end. */
  lemma ClosedRegionParts(vor: Voronoi, newRidges: seq<seq<int>>, g: nat)
    requires WellFormed(vor) && RidgeTable(vor, newRidges) && g < |vor.regions|
    requires Infinity in vor.regions[g]
    ensures var adds := Additions(vor, newRidges, SeedOf(vor.pointRegion, g), |vor.ridgePoints|);
      && ClosedRegion(vor, newRidges, g) == RemoveFirst(vor.regions[g], Infinity) + adds
      && multiset(ClosedRegion(vor, newRidges, g)) == multiset(vor.regions[g]) - multiset{Infinity} + multiset(adds)
  {
    var adds := Additions(vor, newRidges, SeedOf(vor.pointRegion, g), |vor.ridgePoints|);
    RemoveFirstAppend(vor.regions[g], adds, Infinity);
    RemoveFirstDropsOne(vor.regions[g], Infinity);
  }

  /** With the clipper's table every addition is the id of a clipped vertex:
      past the original vertices and inside the grown list. */
  lemma {:induction false} AdditionsAreClippedVertices(vor: Voronoi, newVertices: seq<Point>, newRidges: seq<seq<int>>, seed: nat, n: nat)
    requires WellFormed(vor) && RidgeClipper.Patched(vor, newVertices, newRidges)
    requires n <= |vor.ridgePoints|
    ensures RidgeTable(vor, newRidges)
    ensures forall e :: e in Additions(vor, newRidges, seed, n) ==> |vor.vertices| <= e < |newVertices|
  {
    assert RidgeTable(vor, newRidges);
    if n > 0 {
      AdditionsAreClippedVertices(vor, newVertices, newRidges, seed, n - 1);
      var rv := vor.ridgeVertices[n - 1];
      if Infinity in rv {
        assert OpenEnd(rv) == InfiniteEnd(rv);
        RidgeClipper.UnboundedBeforeGrows(vor.ridgeVertices, n - 1, |vor.ridgeVertices|);
      }
    }
  }

  /** Removing the only `-1` of a region leaves real vertex ids. */
  lemma {:induction false} RemoveOnlyInfinity(rr: seq<int>, vertexCount: nat)
    requires RegionShape(rr, vertexCount) && Infinity in rr && multiset(rr)[Infinity] <= 1
    ensures forall e :: e in RemoveFirst(rr, Infinity) ==> 0 <= e < vertexCount
  {
    assert rr == [rr[0]] + rr[1..];
    if rr[0] == Infinity {
      assert multiset(rr) == multiset{rr[0]} + multiset(rr[1..]);
      assert Infinity !in rr[1..];
    } else {
      RemoveOnlyInfinity(rr[1..], vertexCount);
    }
  }

  /** A region with at most one `-1` is fully finite after the first pass:
      every id indexes the grown vertex list. */
  lemma ClosedRegionFinite(vor: Voronoi, newVertices: seq<Point>, newRidges: seq<seq<int>>, g: nat)
    requires WellFormed(vor) && RidgeClipper.Patched(vor, newVertices, newRidges)
    requires g < |vor.regions| && multiset(vor.regions[g])[Infinity] <= 1
    ensures RidgeTable(vor, newRidges)
    ensures forall e :: e in ClosedRegion(vor, newRidges, g) ==> 0 <= e < |newVertices|
  {
    var rr := vor.regions[g];
    AdditionsAreClippedVertices(vor, newVertices, newRidges, 0, 0);
    assert RegionShape(rr, |vor.vertices|);
    if Infinity in rr {
      var adds := Additions(vor, newRidges, SeedOf(vor.pointRegion, g), |vor.ridgePoints|);
      AdditionsAreClippedVertices(vor, newVertices, newRidges, SeedOf(vor.pointRegion, g), |vor.ridgePoints|);
      RemoveFirstAppend(rr, adds, Infinity);
      RemoveOnlyInfinity(rr, |vor.vertices|);
    } else {
      assert forall e :: e in rr ==> VertexId(e, |vor.vertices|) && e != Infinity;
    }
  }

  // ---------------------------------------------------------------------
  // Pass 2: the box corners
  // ---------------------------------------------------------------------

  /** What the nearest-neighbour query returns: a seed at least as close to
      `c` as every other seed. */
  predicate IsNearest(points: seq<Point>, c: Point, i: nat)
  {
    i < |points| && forall j :: 0 <= j < |points| ==> SqDist(points[i], c) <= SqDist(points[j], c)
  }

  /** A nearest seed always exists; this one is the first among equals. */
  function NearestSeed(points: seq<Point>, c: Point): (i: nat)
    requires |points| > 0
    ensures IsNearest(points, c, i)
  {
    if |points| == 1 then 0
    else
      var i := NearestSeed(points[..|points| - 1], c);
      if SqDist(points[|points| - 1], c) < SqDist(points[i], c) then |points| - 1 else i
  }

  /** The four query results for the corners of `box`. */
  predicate NearestSeeds(points: seq<Point>, box: Box, nearest: seq<nat>)
  {
    |nearest| == 4 && forall k :: 0 <= k < 4 ==> nearest[k] < |points| && IsNearest(points, Corners(box)[k], nearest[k])
  }

  /** The region receiving corner `k`: that of its nearest seed. */
  function Owners(vor: Voronoi, nearest: seq<nat>): (owners: seq<nat>)
    requires WellFormed(vor) && |nearest| == 4 && forall k :: 0 <= k < 4 ==> nearest[k] < |vor.points|
    ensures |owners| == 4 && forall k :: 0 <= k < 4 ==> owners[k] == vor.pointRegion[nearest[k]] < |vor.regions|
  {
    [vor.pointRegion[nearest[0]], vor.pointRegion[nearest[1]],
     vor.pointRegion[nearest[2]], vor.pointRegion[nearest[3]]]
  }

  /** The regions after the first `k` corners: corner `m` takes the fresh id
      `base + m` into region `owners[m]`. */
  function CornerRegions(regions: seq<seq<int>>, owners: seq<nat>, base: nat, k: nat): (r: seq<seq<int>>)
    requires k <= |owners| && forall m :: 0 <= m < |owners| ==> owners[m] < |regions|
    ensures |r| == |regions|
  {
    if k == 0 then regions
    else
      var r := CornerRegions(regions, owners, base, k - 1);
      r[owners[k - 1] := r[owners[k - 1]] + [base + k - 1]]
  }

  /** The corner pass keeps every region as a prefix and adds only ids of
      corners it owns. */
  lemma {:induction false} CornerRegionsGrow(regions: seq<seq<int>>, owners: seq<nat>, base: nat, k: nat, g: nat)
    requires k <= |owners| && forall m :: 0 <= m < |owners| ==> owners[m] < |regions|
    requires g < |regions|
    ensures var r := CornerRegions(regions, owners, base, k)[g];
      && |regions[g]| <= |r| && r[..|regions[g]|] == regions[g]
      && forall e :: e in r[|regions[g]|..] ==> exists m :: 0 <= m < k && owners[m] == g && e == base + m
  {
    if k > 0 {
      CornerRegionsGrow(regions, owners, base, k - 1, g);
      var prev := CornerRegions(regions, owners, base, k - 1)[g];
      var r := CornerRegions(regions, owners, base, k)[g];
      if owners[k - 1] == g {
        assert r == prev + [base + k - 1];
        assert r[..|regions[g]|] == prev[..|regions[g]|];
        forall e | e in r[|regions[g]|..]
          ensures exists m :: 0 <= m < k && owners[m] == g && e == base + m
        {
          if e !in prev[|regions[g]|..] {
            assert r[|regions[g]|..] == prev[|regions[g]|..] + [base + k - 1];
            assert e == base + (k - 1);
          }
        }
      }
    }
  }

  /** After `k` corners every id is below `base + k` when all ids were below
      `base` before. */
  lemma {:induction false} CornerIdsBelow(regions: seq<seq<int>>, owners: seq<nat>, base: nat, k: nat, g: nat)
    requires k <= |owners| && forall m :: 0 <= m < |owners| ==> owners[m] < |regions|
    requires forall g', e :: 0 <= g' < |regions| && e in regions[g'] ==> e < base
    requires g < |regions|
    ensures forall e :: e in CornerRegions(regions, owners, base, k)[g] ==> e < base + k
  {
    if k > 0 {
      CornerIdsBelow(regions, owners, base, k - 1, g);
    }
  }

  /** Corner `m`'s fresh id lands in region `owners[m]` and in no other
      region, when no region held an id from `base` on before. */
  lemma {:induction false} CornerOwnedOnce(regions: seq<seq<int>>, owners: seq<nat>, base: nat, k: nat, m: nat, g: nat)
    requires k <= |owners| && forall m' :: 0 <= m' < |owners| ==> owners[m'] < |regions|
    requires forall g', e :: 0 <= g' < |regions| && e in regions[g'] ==> e < base
    requires m < k && g < |regions|
    ensures base + m in CornerRegions(regions, owners, base, k)[g] <==> g == owners[m]
  {
    var prev := CornerRegions(regions, owners, base, k - 1);
    var r := CornerRegions(regions, owners, base, k);
    if m == k - 1 {
      CornerIdsBelow(regions, owners, base, k - 1, g);
      assert base + m !in prev[g];
      if g == owners[m] {
        assert r[g] == prev[g] + [base + m];
      } else {
        assert r[g] == prev[g];
      }
    } else {
      CornerOwnedOnce(regions, owners, base, k - 1, m, g);
      if g == owners[k - 1] {
        assert r[g] == prev[g] + [base + k - 1];
      } else {
        assert r[g] == prev[g];
      }
    }
  }

  /** The corner pass: each corner of the box, in `itertools.product` order,
      becomes a fresh vertex and joins the region of its nearest seed. */
  method AssignCorners(vor: Voronoi, vertices: seq<Point>, regions: seq<seq<int>>, box: Box, nearest: seq<nat>)
    returns (newVertices: seq<Point>, newRegions: seq<seq<int>>)
    requires WellFormed(vor) && |regions| == |vor.regions|
    requires NearestSeeds(vor.points, box, nearest)
    ensures newVertices == vertices + Corners(box)
    ensures newRegions == CornerRegions(regions, Owners(vor, nearest), |vertices|, 4)
  {
    var corners := Corners(box);
    var owners := Owners(vor, nearest);
    newVertices := vertices;
    newRegions := regions;
    var c := 0;
    while c < 4
      invariant c <= 4
      invariant newVertices == vertices + corners[..c]
      invariant newRegions == CornerRegions(regions, owners, |vertices|, c)
    {
      var idx := nearest[c];
      var k := |newVertices|;
      assert k == |vertices| + c && vor.pointRegion[idx] == owners[c];
      newVertices := newVertices + [corners[c]];
      newRegions := newRegions[vor.pointRegion[idx] := newRegions[vor.pointRegion[idx]] + [k]];
      assert corners[..c + 1] == corners[..c] + [corners[c]];
      c := c + 1;
    }
    assert corners[..4] == corners;
  }

  // ---------------------------------------------------------------------
  // Pass 3: one convex polygon per non-empty region
  // ---------------------------------------------------------------------

  /** numpy row selection `vertices[e]`: a negative id counts from the end. */
  function PyIndex(vs: seq<Point>, e: int): Point
    requires -|vs| <= e < |vs|
  {
    if e < 0 then vs[|vs| + e] else vs[e]
  }

  /** Every id of `reg` is a valid numpy row index of `vs`. */
  predicate Indexable(vs: seq<Point>, reg: seq<int>)
  {
    forall m :: 0 <= m < |reg| ==> -|vs| <= reg[m] < |vs|
  }

  /** `vertices[reg]`: the region's points in region order. */
  function Gather(vs: seq<Point>, reg: seq<int>): seq<Point>
    requires Indexable(vs, reg)
  {
    seq(|reg|, m requires 0 <= m < |reg| => PyIndex(vs, reg[m]))
  }

  /** The convex hull library's promise: the indices it reports select
      among the points it was given. */
  ghost predicate HullIndices(hull: seq<Point> -> Option<seq<nat>>)
  {
    forall ps: seq<Point>, m :: hull(ps).Some? && 0 <= m < |hull(ps).value| ==> hull(ps).value[m] < |ps|
  }

  /** `points[hull.vertices]`. */
  function Select(points: seq<Point>, h: seq<nat>): seq<Point>
    requires forall m :: 0 <= m < |h| ==> h[m] < |points|
  {
    seq(|h|, m requires 0 <= m < |h| => points[h[m]])
  }

  /** The hull polygon of one region, `None` where the hull fails. */
  function HullOf(vs: seq<Point>, reg: seq<int>, hull: seq<Point> -> Option<seq<nat>>): Option<seq<Point>>
    requires Indexable(vs, reg) && HullIndices(hull)
  {
    var points := Gather(vs, reg);
    match hull(points)
    case None => None
    case Some(h) => Some(Select(points, h))
  }

  predicate AllIndexable(vs: seq<Point>, regions: seq<seq<int>>)
  {
    forall g :: 0 <= g < |regions| ==> Indexable(vs, regions[g])
  }

  /** The polygons of the first `n` regions, or the first failing region. */
  function Polygons(vs: seq<Point>, regions: seq<seq<int>>, hull: seq<Point> -> Option<seq<nat>>, n: nat): Result<seq<seq<Point>>>
    requires n <= |regions| && AllIndexable(vs, regions) && HullIndices(hull)
  {
    if n == 0 then Ok([])
    else
      match Polygons(vs, regions, hull, n - 1)
      case Err(e) => Err(e)
      case Ok(ps) =>
        if |regions[n - 1]| == 0 then Ok(ps)
        else
          match HullOf(vs, regions[n - 1], hull)
          case None => Err(IllFormedRegion(n - 1))
          case Some(pp) => Ok(ps + [pp])
  }

  /** The indices of the non-empty regions among the first `n`. */
  function NonEmpty(regions: seq<seq<int>>, n: nat): (ids: seq<nat>)
    requires n <= |regions|
    ensures forall k :: 0 <= k < |ids| ==> ids[k] < n
  {
    if n == 0 then []
    else NonEmpty(regions, n - 1) + (if |regions[n - 1]| == 0 then [] else [n - 1])
  }

  /** Every listed region is non-empty. */
  lemma {:induction false} NonEmptyListed(regions: seq<seq<int>>, n: nat)
    requires n <= |regions|
    ensures forall k :: 0 <= k < |NonEmpty(regions, n)| ==> |regions[NonEmpty(regions, n)[k]]| > 0
  {
    if n > 0 {
      NonEmptyListed(regions, n - 1);
    }
  }

  /** Every non-empty region is listed. */
  lemma {:induction false} NonEmptyComplete(regions: seq<seq<int>>, n: nat)
    requires n <= |regions|
    ensures forall g :: 0 <= g < n && |regions[g]| > 0 ==> g in NonEmpty(regions, n)
  {
    if n > 0 {
      NonEmptyComplete(regions, n - 1);
    }
  }

  /** The list is strictly ascending. */
  lemma {:induction false} NonEmptyAscending(regions: seq<seq<int>>, n: nat)
    requires n <= |regions|
    ensures forall k, k' :: 0 <= k < k' < |NonEmpty(regions, n)| ==> NonEmpty(regions, n)[k] < NonEmpty(regions, n)[k']
  {
    if n > 0 {
      NonEmptyAscending(regions, n - 1);
    }
  }

  /** `NonEmpty` lists exactly the non-empty regions, ascending. */
  lemma {:induction false} NonEmptyListsNonEmpty(regions: seq<seq<int>>, n: nat)
    requires n <= |regions|
    ensures forall k :: 0 <= k < |NonEmpty(regions, n)| ==> |regions[NonEmpty(regions, n)[k]]| > 0
    ensures forall g :: 0 <= g < n && |regions[g]| > 0 ==> g in NonEmpty(regions, n)
    ensures forall k, k' :: 0 <= k < k' < |NonEmpty(regions, n)| ==> NonEmpty(regions, n)[k] < NonEmpty(regions, n)[k']
  {
    NonEmptyListed(regions, n);
    NonEmptyComplete(regions, n);
    NonEmptyAscending(regions, n);
  }

  /** The polygons succeed exactly when every non-empty region has a hull. */
  lemma {:induction false} PolygonsOkIff(vs: seq<Point>, regions: seq<seq<int>>, hull: seq<Point> -> Option<seq<nat>>, n: nat)
    requires n <= |regions| && AllIndexable(vs, regions) && HullIndices(hull)
    ensures Polygons(vs, regions, hull, n).Ok? <==>
      forall g :: 0 <= g < n && |regions[g]| > 0 ==> HullOf(vs, regions[g], hull).Some?
  {
    if n > 0 {
      PolygonsOkIff(vs, regions, hull, n - 1);
    }
  }

  /** On success there is one polygon per non-empty region, in region order,
      each the hull of its region. */
  lemma {:induction false} PolygonsOnePerRegion(vs: seq<Point>, regions: seq<seq<int>>, hull: seq<Point> -> Option<seq<nat>>, n: nat)
    requires n <= |regions| && AllIndexable(vs, regions) && HullIndices(hull)
    requires Polygons(vs, regions, hull, n).Ok?
    ensures var ps := Polygons(vs, regions, hull, n).value;
      && |ps| == |NonEmpty(regions, n)|
      && forall k :: 0 <= k < |ps| ==> HullOf(vs, regions[NonEmpty(regions, n)[k]], hull) == Some(ps[k])
  {
    if n > 0 {
      PolygonsOnePerRegion(vs, regions, hull, n - 1);
    }
  }

  /** On failure the error names the first non-empty region whose hull
      fails. */
  lemma {:induction false} PolygonsFirstFailure(vs: seq<Point>, regions: seq<seq<int>>, hull: seq<Point> -> Option<seq<nat>>, n: nat)
    requires n <= |regions| && AllIndexable(vs, regions) && HullIndices(hull)
    requires Polygons(vs, regions, hull, n).Err?
    ensures var g := Polygons(vs, regions, hull, n).error.region;
      && g < n && |regions[g]| > 0 && HullOf(vs, regions[g], hull).None?
      && forall g' :: 0 <= g' < g && |regions[g']| > 0 ==> HullOf(vs, regions[g'], hull).Some?
  {
    if Polygons(vs, regions, hull, n - 1).Err? {
      PolygonsFirstFailure(vs, regions, hull, n - 1);
    } else {
      PolygonsOkIff(vs, regions, hull, n - 1);
    }
  }

  /** The hull pass: skips empty regions, stops at the first hull failure. */
  method HullPolygons(vs: seq<Point>, regions: seq<seq<int>>, hull: seq<Point> -> Option<seq<nat>>)
    returns (res: Result<seq<seq<Point>>>)
    requires AllIndexable(vs, regions) && HullIndices(hull)
    ensures res == Polygons(vs, regions, hull, |regions|)
  {
    var convexpolys := [];
    var g := 0;
    while g < |regions|
      invariant g <= |regions|
      invariant Polygons(vs, regions, hull, g) == Ok(convexpolys)
    {
      var reg := regions[g];
      if |reg| > 0 {
        var points := Gather(vs, reg);
        var h := hull(points);
        if h.None? {
          PolygonsStayFailed(vs, regions, hull, g + 1, |regions|);
          return Err(IllFormedRegion(g));
        }
        var pp := Select(points, h.value);
        convexpolys := convexpolys + [pp];
      }
      g := g + 1;
    }
    return Ok(convexpolys);
  }

  /** A failure is final: later regions do not change the outcome. */
  lemma {:induction false} PolygonsStayFailed(vs: seq<Point>, regions: seq<seq<int>>, hull: seq<Point> -> Option<seq<nat>>, n: nat, n': nat)
    requires n <= n' <= |regions| && AllIndexable(vs, regions) && HullIndices(hull)
    requires Polygons(vs, regions, hull, n).Err?
    ensures Polygons(vs, regions, hull, n') == Polygons(vs, regions, hull, n)
  {
    if n < n' {
      PolygonsStayFailed(vs, regions, hull, n, n' - 1);
    }
  }

  // ---------------------------------------------------------------------
  // The three passes together
  // ---------------------------------------------------------------------

  /** Every region of the diagram reaches infinity at most once, as for any
      planar diagram. */
  predicate SingleInfinity(vor: Voronoi)
  {
    forall g :: 0 <= g < |vor.regions| ==> multiset(vor.regions[g])[Infinity] <= 1
  }

  /** The ids of the regions after both passes index the final vertex list
      without numpy's wrap-around. */
  lemma FinalRegionsFinite(vor: Voronoi, newVertices: seq<Point>, newRidges: seq<seq<int>>, box: Box, nearest: seq<nat>, g: nat)
    requires WellFormed(vor) && RidgeClipper.Patched(vor, newVertices, newRidges) && SingleInfinity(vor)
    requires NearestSeeds(vor.points, box, nearest)
    requires g < |vor.regions|
    ensures RidgeTable(vor, newRidges)
    ensures var r := CornerRegions(ClosedRegions(vor, newRidges), Owners(vor, nearest), |newVertices|, 4)[g];
      forall e :: e in r ==> 0 <= e < |newVertices| + 4
  {
    ClosedRegionFinite(vor, newVertices, newRidges, g);
    var closed := ClosedRegions(vor, newRidges);
    var owners := Owners(vor, nearest);
    CornerRegionsGrow(closed, owners, |newVertices|, 4, g);
    var r := CornerRegions(closed, owners, |newVertices|, 4)[g];
    assert closed[g] == ClosedRegion(vor, newRidges, g);
    forall e | e in r
      ensures 0 <= e < |newVertices| + 4
    {
      var i :| 0 <= i < |r| && r[i] == e;
      if i < |closed[g]| {
        assert e in closed[g];
      } else {
        assert e in r[|closed[g]|..];
      }
    }
  }

  /** `get_boxed_polygons`: the three passes in sequence. */
  method BoxedPolygons(vor: Voronoi, newVertices: seq<Point>, newRidges: seq<seq<int>>, box: Box,
                       nearest: seq<nat>, hull: seq<Point> -> Option<seq<nat>>)
    returns (res: Result<seq<seq<Point>>>)
    requires WellFormed(vor) && RidgeClipper.Patched(vor, newVertices, newRidges) && SingleInfinity(vor)
    requires NearestSeeds(vor.points, box, nearest)
    requires HullIndices(hull)
    ensures RidgeTable(vor, newRidges)
    ensures var regions := CornerRegions(ClosedRegions(vor, newRidges), Owners(vor, nearest), |newVertices|, 4);
      AllIndexable(newVertices + Corners(box), regions) &&
      res == Polygons(newVertices + Corners(box), regions, hull, |regions|)
  {
    AdditionsAreClippedVertices(vor, newVertices, newRidges, 0, 0);
    var closed := CloseRegions(vor, newRidges);
    var vs, regions := AssignCorners(vor, newVertices, closed, box, nearest);
    forall g | 0 <= g < |regions|
      ensures Indexable(vs, regions[g])
    {
      FinalRegionsFinite(vor, newVertices, newRidges, box, nearest, g);
      assert forall m :: 0 <= m < |regions[g]| ==> regions[g][m] in regions[g];
    }
    res := HullPolygons(vs, regions, hull);
  }
}
