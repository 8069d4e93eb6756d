/** The ray-to-box crossing of `get_crossing_point_rectangle`: from a finite
    Voronoi vertex `v0`, travel along `orient * alpha` and stop at the least
    non-negative travel distance to one of the four bounds. */
module Crossing {
  import opened Geometry

  /** Starting value of `mindist`; it survives when no bound qualifies. */
  const Sentinel: real := 999999999.0

  /** The signed travel distance to bound `j` (axis `j % 2`). When the
      direction has no component on that axis the source still scales the
      offset by `orient` and treats it as a distance. */
  function Travel(v0: Point, alpha: Point, orient: real, box: Box, j: nat): real
    requires j < 4
  {
    var i := j % 2;
    var d := box[j] - Coord(v0, i);
    if Coord(alpha, i) == 0.0 then d * orient else d / Coord(alpha, i) * orient
  }

  /** Bound `j` takes part in the minimum: its travel is non-negative and,
      when `skipParallel` holds, the direction is not parallel to that side.
      `skipParallel == false` is the source as written. */
  predicate Eligible(v0: Point, alpha: Point, orient: real, box: Box, j: nat, skipParallel: bool)
    requires j < 4
  {
    Travel(v0, alpha, orient, box, j) >= 0.0 && !(skipParallel && Coord(alpha, j % 2) == 0.0)
  }

  /** `mindist` after the loop has looked at bounds `0 .. k-1`. */
  function MinTravel(v0: Point, alpha: Point, orient: real, box: Box, k: nat, skipParallel: bool): real
    requires k <= 4
  {
    if k == 0 then Sentinel
    else
      var m := MinTravel(v0, alpha, orient, box, k - 1, skipParallel);
      var d := Travel(v0, alpha, orient, box, k - 1);
      if Eligible(v0, alpha, orient, box, k - 1, skipParallel) && d < m then d else m
  }

  function Along(v0: Point, alpha: Point, orient: real, t: real): Point
  {
    Point(v0.x + orient * alpha.x * t, v0.y + orient * alpha.y * t)
  }

  /** The point `v0 + orient * alpha * mindist` the source returns. */
  function CrossingOf(v0: Point, alpha: Point, orient: real, box: Box, skipParallel: bool): Point
  {
    Along(v0, alpha, orient, MinTravel(v0, alpha, orient, box, 4, skipParallel))
  }

  /** The loop of the source. */
  method CrossingPoint(v0: Point, alpha: Point, orient: real, box: Box, skipParallel: bool) returns (p: Point)
    ensures p == CrossingOf(v0, alpha, orient, box, skipParallel)
  {
    var mindist := Sentinel;
    var j := 0;
    while j < 4
      invariant j <= 4
      invariant mindist == MinTravel(v0, alpha, orient, box, j, skipParallel)
    {
      var i := j % 2;
      var d := box[j] - Coord(v0, i);
      if Coord(alpha, i) == 0.0 {
        d := d * orient;
      } else {
        d := d / Coord(alpha, i) * orient;
      }
      assert d == Travel(v0, alpha, orient, box, j);
      if d >= 0.0 && !(skipParallel && Coord(alpha, i) == 0.0) && d < mindist {
        mindist := d;
      }
      j := j + 1;
    }
    p := Along(v0, alpha, orient, mindist);
  }

  /** `mindist` is no larger than any eligible bound already looked at. */
  lemma {:induction false} MinTravelBelow(v0: Point, alpha: Point, orient: real, box: Box, k: nat, j: nat, skipParallel: bool)
    requires j < k <= 4
    requires Eligible(v0, alpha, orient, box, j, skipParallel)
    ensures MinTravel(v0, alpha, orient, box, k, skipParallel) <= Travel(v0, alpha, orient, box, j)
  {
    if j < k - 1 {
      MinTravelBelow(v0, alpha, orient, box, k - 1, j, skipParallel);
    }
  }

  /** `mindist` is never negative and never above the sentinel. */
  lemma {:induction false} MinTravelRange(v0: Point, alpha: Point, orient: real, box: Box, k: nat, skipParallel: bool)
    requires k <= 4
    ensures 0.0 <= MinTravel(v0, alpha, orient, box, k, skipParallel) <= Sentinel
  {
    if k > 0 {
      MinTravelRange(v0, alpha, orient, box, k - 1, skipParallel);
    }
  }

  /** `mindist` is the sentinel or the travel of an eligible bound `j`. */
  lemma {:induction false} MinTravelWitness(v0: Point, alpha: Point, orient: real, box: Box, k: nat, skipParallel: bool)
    returns (j: int)
    requires k <= 4
    ensures j == -1 ==> MinTravel(v0, alpha, orient, box, k, skipParallel) == Sentinel
    ensures j != -1 ==>
      && 0 <= j < k
      && Eligible(v0, alpha, orient, box, j, skipParallel)
      && MinTravel(v0, alpha, orient, box, k, skipParallel) == Travel(v0, alpha, orient, box, j)
  {
    if k == 0 {
      j := -1;
    } else {
      j := MinTravelWitness(v0, alpha, orient, box, k - 1, skipParallel);
      var d := Travel(v0, alpha, orient, box, k - 1);
      if Eligible(v0, alpha, orient, box, k - 1, skipParallel) && d < MinTravel(v0, alpha, orient, box, k - 1, skipParallel) {
        j := k - 1;
      }
    }
  }

  /** The choice of `mindist`: never negative, no larger than any eligible
      travel, and either the sentinel or one of those travels. */
  lemma MinTravelIsLeast(v0: Point, alpha: Point, orient: real, box: Box, skipParallel: bool)
    ensures var m := MinTravel(v0, alpha, orient, box, 4, skipParallel);
      && 0.0 <= m <= Sentinel
      && (forall j :: 0 <= j < 4 && Eligible(v0, alpha, orient, box, j, skipParallel) ==>
            m <= Travel(v0, alpha, orient, box, j))
      && (m == Sentinel ||
          exists j :: 0 <= j < 4 && Eligible(v0, alpha, orient, box, j, skipParallel) &&
            m == Travel(v0, alpha, orient, box, j))
  {
    MinTravelRange(v0, alpha, orient, box, 4, skipParallel);
    forall j | 0 <= j < 4 && Eligible(v0, alpha, orient, box, j, skipParallel)
      ensures MinTravel(v0, alpha, orient, box, 4, skipParallel) <= Travel(v0, alpha, orient, box, j)
    {
      MinTravelBelow(v0, alpha, orient, box, 4, j, skipParallel);
    }
    var w := MinTravelWitness(v0, alpha, orient, box, 4, skipParallel);
  }

  /** When no bound is eligible the sentinel is kept. */
  lemma NoEligibleKeepsSentinel(v0: Point, alpha: Point, orient: real, box: Box, skipParallel: bool)
    requires forall j :: 0 <= j < 4 ==> !Eligible(v0, alpha, orient, box, j, skipParallel)
    ensures MinTravel(v0, alpha, orient, box, 4, skipParallel) == Sentinel
  {
    var w := MinTravelWitness(v0, alpha, orient, box, 4, skipParallel);
  }

  /** Travelling exactly the distance to bound `c` along a non-parallel axis
      lands on `c`. */
  lemma AlongReachesBound(v0: Point, alpha: Point, orient: real, i: nat, c: real)
    requires i < 2 && Coord(alpha, i) != 0.0
    requires orient == 1.0 || orient == -1.0
    ensures Coord(Along(v0, alpha, orient, (c - Coord(v0, i)) / Coord(alpha, i) * orient), i) == c
  {
    var a := Coord(alpha, i);
    var q := (c - Coord(v0, i)) / a;
    assert a * q == c - Coord(v0, i);
    assert orient * a * (q * orient) == (orient * orient) * (a * q);
  }

  /** If the minimising bound `j` is on an axis the direction is not parallel
      to and `orient` is a sign, the returned point lies on the line of that
      side: its coordinate on axis `j % 2` is `box[j]`. */
  lemma CrossingOnSideLine(v0: Point, alpha: Point, orient: real, box: Box, j: nat, skipParallel: bool)
    requires j < 4
    requires orient == 1.0 || orient == -1.0
    requires Coord(alpha, j % 2) != 0.0
    requires MinTravel(v0, alpha, orient, box, 4, skipParallel) == Travel(v0, alpha, orient, box, j)
    ensures Coord(CrossingOf(v0, alpha, orient, box, skipParallel), j % 2) == box[j]
  {
    AlongReachesBound(v0, alpha, orient, j % 2, box[j]);
  }

  /** Along a non-parallel axis `i`, travel times speed gives the offset to
      the bound: `Travel(j) * (orient * alpha[i]) == box[j] - v0[i]`. */
  lemma TravelTimesSpeed(v0: Point, alpha: Point, orient: real, box: Box, j: nat, i: nat)
    requires j < 4 && i == j % 2 && Coord(alpha, i) != 0.0
    requires orient == 1.0 || orient == -1.0
    ensures Travel(v0, alpha, orient, box, j) * (orient * Coord(alpha, i)) == box[j] - Coord(v0, i)
  {
    var a := Coord(alpha, i);
    var q := (box[j] - Coord(v0, i)) / a;
    assert q * a == box[j] - Coord(v0, i);
    assert (q * orient) * (orient * a) == (orient * orient) * (q * a);
  }

  /** Sign of a quotient: `t * s == d` with `d` on the side of `s` makes `t`
      non-negative. */
  lemma QuotientNonNegative(t: real, s: real, d: real)
    requires t * s == d
    requires (s > 0.0 && d >= 0.0) || (s < 0.0 && d <= 0.0)
    ensures t >= 0.0
  {
  }

  /** Moving `s * m` from `v`, with `m` at most the travel `t` to the bound
      ahead, stays between the bounds. */
  lemma StepStaysInside(v: real, s: real, m: real, t: real, lo: real, hi: real)
    requires lo <= v <= hi && 0.0 <= m <= t
    requires s > 0.0 ==> t * s == hi - v
    requires s < 0.0 ==> t * s == lo - v
    ensures lo <= v + s * m <= hi
  {
    if s > 0.0 {
      assert s * m <= s * t;
    } else if s < 0.0 {
      assert s * m >= s * t;
    }
  }

  /** A square of at least one half puts the number more than one half away
      from zero. */
  lemma AwayFromZero(s: real)
    requires s * s >= 0.5
    ensures s > 0.5 || s < -0.5
  {
  }

  /** With speed `s` beyond one half and an offset `d` of at most half the
      sentinel, the travel `t` is at most the sentinel. */
  lemma SlowTravelBound(t: real, s: real, d: real)
    requires t >= 0.0 && t * s == d
    requires (s > 0.5 && d <= Sentinel / 2.0) || (s < -0.5 && -d <= Sentinel / 2.0)
    ensures t <= Sentinel
  {
    if s > 0.5 {
      assert t * 0.5 <= t * s;
    } else {
      assert t * 0.5 <= t * -s;
    }
  }

  /** The bound ahead of the direction on axis `i`. */
  function AheadBound(alpha: Point, orient: real, i: nat): (j: nat)
    requires i < 2
    ensures j < 4 && j % 2 == i
  {
    if orient * Coord(alpha, i) > 0.0 then i + 2 else i
  }

  /** Starting inside the box, the bound ahead on a non-parallel axis is an
      eligible bound of either loop. */
  lemma BoundAheadEligible(v0: Point, alpha: Point, orient: real, box: Box, i: nat, skipParallel: bool)
    requires i < 2 && Coord(alpha, i) != 0.0
    requires orient == 1.0 || orient == -1.0
    requires InBox(v0, box)
    ensures Eligible(v0, alpha, orient, box, AheadBound(alpha, orient, i), skipParallel)
  {
    var j := AheadBound(alpha, orient, i);
    TravelTimesSpeed(v0, alpha, orient, box, j, i);
    QuotientNonNegative(Travel(v0, alpha, orient, box, j), orient * Coord(alpha, i), box[j] - Coord(v0, i));
  }

  lemma AlongCoord(v0: Point, alpha: Point, orient: real, m: real, k: nat)
    requires k < 2
    ensures Coord(Along(v0, alpha, orient, m), k) == Coord(v0, k) + (orient * Coord(alpha, k)) * m
  {
  }

  /** Travelling `m`, no further than the travel `t` to the bound ahead,
      keeps axis `k` of the point inside the box. */
  lemma AlongInside(v0: Point, alpha: Point, orient: real, box: Box, k: nat, m: real, t: real)
    requires k < 2
    requires InBox(v0, box) && 0.0 <= m
    requires Coord(alpha, k) != 0.0 ==>
      && m <= t
      && t * (orient * Coord(alpha, k)) == box[AheadBound(alpha, orient, k)] - Coord(v0, k)
    ensures box[k] <= Coord(Along(v0, alpha, orient, m), k) <= box[k + 2]
  {
    AlongCoord(v0, alpha, orient, m, k);
    var v, s := Coord(v0, k), orient * Coord(alpha, k);
    assert box[k] <= v <= box[k + 2];
    if s == 0.0 {
      assert v + s * m == v;
    } else {
      assert Coord(alpha, k) != 0.0;
      if s > 0.0 {
        assert AheadBound(alpha, orient, k) == k + 2;
      } else {
        assert AheadBound(alpha, orient, k) == k;
      }
      StepStaysInside(v, s, m, t, box[k], box[k + 2]);
    }
  }

  /** On a non-parallel axis `k`, the bound ahead is eligible and its travel
      `t` covers the offset to it. */
  lemma TravelAhead(v0: Point, alpha: Point, orient: real, box: Box, k: nat, skipParallel: bool) returns (t: real)
    requires k < 2
    requires orient == 1.0 || orient == -1.0
    requires InBox(v0, box)
    ensures t == Travel(v0, alpha, orient, box, AheadBound(alpha, orient, k))
    ensures Coord(alpha, k) != 0.0 ==>
      && Eligible(v0, alpha, orient, box, AheadBound(alpha, orient, k), skipParallel)
      && t * (orient * Coord(alpha, k)) == box[AheadBound(alpha, orient, k)] - Coord(v0, k)
  {
    var j := AheadBound(alpha, orient, k);
    t := Travel(v0, alpha, orient, box, j);
    if Coord(alpha, k) != 0.0 {
      BoundAheadEligible(v0, alpha, orient, box, k, skipParallel);
      TravelTimesSpeed(v0, alpha, orient, box, j, k);
    }
  }

  /** From a point of the box, the crossing never leaves the box on axis
      `k`, whether parallel sides are skipped or not. */
  lemma AxisInside(v0: Point, alpha: Point, orient: real, box: Box, k: nat, skipParallel: bool)
    requires k < 2
    requires orient == 1.0 || orient == -1.0
    requires InBox(v0, box)
    ensures box[k] <= Coord(CrossingOf(v0, alpha, orient, box, skipParallel), k) <= box[k + 2]
  {
    MinTravelRange(v0, alpha, orient, box, 4, skipParallel);
    var t := TravelAhead(v0, alpha, orient, box, k, skipParallel);
    if Coord(alpha, k) != 0.0 {
      MinTravelBelow(v0, alpha, orient, box, 4, AheadBound(alpha, orient, k), skipParallel);
    }
    AlongInside(v0, alpha, orient, box, k, MinTravel(v0, alpha, orient, box, 4, skipParallel), t);
  }

  /** From a point of the box, the crossing stays in the box, whether
      parallel sides are skipped or not. */
  lemma CrossingInside(v0: Point, alpha: Point, orient: real, box: Box, skipParallel: bool)
    requires orient == 1.0 || orient == -1.0
    requires InBox(v0, box)
    ensures InBox(CrossingOf(v0, alpha, orient, box, skipParallel), box)
  {
    AxisInside(v0, alpha, orient, box, 0, skipParallel);
    AxisInside(v0, alpha, orient, box, 1, skipParallel);
  }

  /** The travel to the bound ahead on an axis whose squared direction
      component is at least one half is at most the sentinel, when the box
      is no wider than half the sentinel. */
  lemma TravelBelowSentinel(v0: Point, alpha: Point, orient: real, box: Box, i: nat)
    requires i < 2 && Coord(alpha, i) * Coord(alpha, i) >= 0.5
    requires orient == 1.0 || orient == -1.0
    requires InBox(v0, box)
    requires box[2] - box[0] <= Sentinel / 2.0 && box[3] - box[1] <= Sentinel / 2.0
    ensures Travel(v0, alpha, orient, box, AheadBound(alpha, orient, i)) <= Sentinel
  {
    var a := Coord(alpha, i);
    var s := orient * a;
    var j := AheadBound(alpha, orient, i);
    BoundAheadEligible(v0, alpha, orient, box, i, true);
    TravelTimesSpeed(v0, alpha, orient, box, j, i);
    assert s * s == (orient * orient) * (a * a);
    AwayFromZero(s);
    SlowTravelBound(Travel(v0, alpha, orient, box, j), s, box[j] - Coord(v0, i));
  }

  /** A point whose coordinate on axis `j % 2` is bound `j` lies on a side
      line of the box. */
  lemma SideLineOnBox(p: Point, box: Box, j: nat)
    requires j < 4 && Coord(p, j % 2) == box[j]
    ensures OnBoxLine(p, box)
  {
  }

  /** The intended property of the corrected crossing: starting from a point
      of the box with a unit direction and a sign for `orient`, the returned
      point is inside the box and on one of its sides. */
  lemma CrossingOnBoundary(v0: Point, alpha: Point, orient: real, box: Box)
    requires orient == 1.0 || orient == -1.0
    requires alpha.x * alpha.x + alpha.y * alpha.y == 1.0
    requires InBox(v0, box)
    requires box[2] - box[0] <= Sentinel / 2.0 && box[3] - box[1] <= Sentinel / 2.0
    ensures InBox(CrossingOf(v0, alpha, orient, box, true), box)
    ensures OnBoxLine(CrossingOf(v0, alpha, orient, box, true), box)
  {
    AxisInside(v0, alpha, orient, box, 0, true);
    AxisInside(v0, alpha, orient, box, 1, true);
    var i := if alpha.x * alpha.x >= 0.5 then 0 else 1;
    var j0 := AheadBound(alpha, orient, i);
    TravelBelowSentinel(v0, alpha, orient, box, i);
    BoundAheadEligible(v0, alpha, orient, box, i, true);
    MinTravelBelow(v0, alpha, orient, box, 4, j0, true);
    MinTravelRange(v0, alpha, orient, box, 4, true);
    var w := MinTravelWitness(v0, alpha, orient, box, 4, true);
    var j: nat;
    if w == -1 {
      j := j0;
      assert MinTravel(v0, alpha, orient, box, 4, true) == Travel(v0, alpha, orient, box, j0);
    } else {
      j := w;
      assert Coord(alpha, j % 2) != 0.0;
    }
    CrossingOnSideLine(v0, alpha, orient, box, j, true);
    SideLineOnBox(CrossingOf(v0, alpha, orient, box, true), box, j);
  }

  /** From a start below the box heading further down, neither loop lands in
      the box: as written the parallel x-bound 0 gives travel 0.5 and the
      point (0.5, -1); corrected, no bound qualifies and the sentinel carries
      the point 999999999 further down. */
  lemma OutsideStartLeavesBox()
    ensures CrossingOf(Point(0.5, -0.5), Point(0.0, 1.0), -1.0, [0.0, 0.0, 1.0, 1.0], false) == Point(0.5, -1.0)
    ensures CrossingOf(Point(0.5, -0.5), Point(0.0, 1.0), -1.0, [0.0, 0.0, 1.0, 1.0], true) == Point(0.5, -0.5 - Sentinel)
    ensures !InBox(CrossingOf(Point(0.5, -0.5), Point(0.0, 1.0), -1.0, [0.0, 0.0, 1.0, 1.0], false), [0.0, 0.0, 1.0, 1.0])
    ensures !InBox(CrossingOf(Point(0.5, -0.5), Point(0.0, 1.0), -1.0, [0.0, 0.0, 1.0, 1.0], true), [0.0, 0.0, 1.0, 1.0])
  {
    var v0, alpha, box := Point(0.5, -0.5), Point(0.0, 1.0), [0.0, 0.0, 1.0, 1.0];
    assert MinTravel(v0, alpha, -1.0, box, 1, false) == 0.5;
    assert MinTravel(v0, alpha, -1.0, box, 4, false) == 0.5;
    assert MinTravel(v0, alpha, -1.0, box, 4, true) == Sentinel;
  }

  /** The source as written treats a side parallel to the direction as
      reachable: from (0.9, 0.1) heading up, the x-bound 1 is 0.1 away "by
      travel", so the returned point stops at (0.9, 0.2), inside the box and
      on none of its sides; the corrected loop reaches (0.9, 1). */
  lemma ParallelSideStopsShort()
    ensures CrossingOf(Point(0.9, 0.1), Point(0.0, 1.0), 1.0, [0.0, 0.0, 1.0, 1.0], false) == Point(0.9, 0.2)
    ensures !OnBoxLine(CrossingOf(Point(0.9, 0.1), Point(0.0, 1.0), 1.0, [0.0, 0.0, 1.0, 1.0], false), [0.0, 0.0, 1.0, 1.0])
    ensures CrossingOf(Point(0.9, 0.1), Point(0.0, 1.0), 1.0, [0.0, 0.0, 1.0, 1.0], true) == Point(0.9, 1.0)
  {
    var v0, alpha, box := Point(0.9, 0.1), Point(0.0, 1.0), [0.0, 0.0, 1.0, 1.0];
    assert MinTravel(v0, alpha, 1.0, box, 2, false) == Sentinel;
    assert MinTravel(v0, alpha, 1.0, box, 4, false) == 0.1;
    assert MinTravel(v0, alpha, 1.0, box, 2, true) == Sentinel;
    assert MinTravel(v0, alpha, 1.0, box, 4, true) == 0.9;
  }
}
