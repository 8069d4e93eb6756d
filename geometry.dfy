/** Plane points, the clipping box and the error outcome shared by the
    bounded Voronoi construction. Coordinates are exact reals: floating-point
    rounding is not modelled. */
module Geometry {

  /** A point of the plane; seeds, Voronoi vertices and normals alike. */
  datatype Point = Point(x: real, y: real)

  /** The clipping rectangle as the source passes it around:
      `[xmin, ymin, xmax, ymax]`, so bound `j` lies on axis `j % 2`. */
  type Box = b: seq<real> | |b| == 4 witness [0.0, 0.0, 0.0, 0.0]

  datatype Option<T> = None | Some(value: T)

  /** The one failure the index bookkeeping can meet: the convex hull of a
      closed region could not be formed (fewer than three points, or all on
      one line). */
  datatype Error = IllFormedRegion(region: nat)

  datatype Result<T> = Ok(value: T) | Err(error: Error)

  /** Coordinate `i` of `p` (0 is x, 1 is y), as `p[i]` on a numpy row. */
  function Coord(p: Point, i: nat): real
    requires i < 2
  {
    if i == 0 then p.x else p.y
  }

  function SqDist(p: Point, q: Point): real
  {
    (p.x - q.x) * (p.x - q.x) + (p.y - q.y) * (p.y - q.y)
  }

  /** Boundary-inclusive membership of the box. */
  predicate InBox(p: Point, box: Box)
  {
    box[0] <= p.x <= box[2] && box[1] <= p.y <= box[3]
  }

  /** `p` lies on one of the four lines that carry the box's sides. */
  predicate OnBoxLine(p: Point, box: Box)
  {
    p.x == box[0] || p.y == box[1] || p.x == box[2] || p.y == box[3]
  }

  /** The four corners in the order `itertools.product((xmin, xmax), (ymin, ymax))`
      yields them. */
  function Corners(box: Box): (cs: seq<Point>)
    ensures |cs| == 4
    ensures forall k :: 0 <= k < 4 ==> cs[k].x == box[2 * (k / 2)] && cs[k].y == box[1 + 2 * (k % 2)]
  {
    [Point(box[0], box[1]), Point(box[0], box[3]), Point(box[2], box[1]), Point(box[2], box[3])]
  }
}
