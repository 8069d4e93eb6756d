/** `create_graph_from_polys` up to the graph library: the distinct ring
    coordinates become the graph's vertices, a coordinate-to-index map
    addresses them, and every ring contributes one edge per consecutive pair
    of its points, the last point joined back to the first. */
module GraphIndex {
  import opened Geometry

  /** The coordinates of one ring. */
  function RingSet(ring: seq<Point>): set<Point>
  {
    set p | p in ring
  }

  /** The distinct coordinates of all rings. */
  function RingPoints(rings: seq<seq<Point>>): set<Point>
  {
    if rings == [] then {} else RingPoints(rings[..|rings| - 1]) + RingSet(rings[|rings| - 1])
  }

  /** `RingPoints` holds exactly the points that occur in some ring. */
  lemma {:induction false} RingPointsMembers(rings: seq<seq<Point>>, p: Point)
    ensures p in RingPoints(rings) <==> exists r :: 0 <= r < |rings| && p in rings[r]
  {
    if rings != [] {
      var init := rings[..|rings| - 1];
      RingPointsMembers(init, p);
      if p in RingPoints(rings) && p !in RingSet(rings[|rings| - 1]) {
        var r :| 0 <= r < |init| && p in init[r];
        assert rings[r] == init[r];
      }
      if exists r :: 0 <= r < |rings| && p in rings[r] {
        var r :| 0 <= r < |rings| && p in rings[r];
        if r < |rings| - 1 {
          assert init[r] == rings[r];
        }
      }
    }
  }

  /** No coordinate occurs twice. */
  predicate Distinct(coords: seq<Point>)
  {
    forall k, k' :: 0 <= k < k' < |coords| ==> coords[k] != coords[k']
  }

  /** The first loop: every ring point goes into a set. */
  method CollectPoints(rings: seq<seq<Point>>) returns (coords: set<Point>)
    ensures coords == RingPoints(rings)
  {
    coords := {};
    var r := 0;
    while r < |rings|
      invariant r <= |rings|
      invariant coords == RingPoints(rings[..r])
    {
      var ring := rings[r];
      var i := 0;
      while i < |ring|
        invariant i <= |ring|
        invariant coords == RingPoints(rings[..r]) + RingSet(ring[..i])
      {
        coords := coords + {ring[i]};
        assert ring[..i + 1] == ring[..i] + [ring[i]];
        i := i + 1;
      }
      assert ring[..i] == ring;
      assert rings[..r + 1][..r] == rings[..r];
      r := r + 1;
    }
    assert rings[..r] == rings;
  }

  /** A duplicate-free sequence has as many elements as its set. */
  lemma {:induction false} DistinctCard(coords: seq<Point>)
    requires Distinct(coords)
    ensures |set p | p in coords| == |coords|
  {
    if coords != [] {
      var init := coords[..|coords| - 1];
      DistinctCard(init);
      var last := coords[|coords| - 1];
      assert (set p | p in coords) == (set p | p in init) + {last};
      assert last !in (set p | p in init);
    }
  }

  /** `list(set)`: the set's elements in some order, each once. The order is
      the set's iteration order, which the model leaves open. */
  method Enumerate(pts: set<Point>) returns (coords: seq<Point>)
    ensures Distinct(coords)
    ensures (set p | p in coords) == pts
    ensures |coords| == |pts|
  {
    coords := [];
    var remaining := pts;
    while remaining != {}
      invariant Distinct(coords)
      invariant (set p | p in coords) + remaining == pts
      invariant forall p :: p in coords ==> p !in remaining
      decreases |remaining|
    {
      var c :| c in remaining;
      coords := coords + [c];
      remaining := remaining - {c};
    }
    DistinctCard(coords);
  }

  /** `coordsidx`: each coordinate is keyed by its position, the nested
      dictionary `coordsidx[x][y]` flattened to one map on points. */
  method IndexCoords(coords: seq<Point>) returns (index: map<Point, nat>)
    requires Distinct(coords)
    ensures index.Keys == set p | p in coords
    ensures forall k :: 0 <= k < |coords| ==> coords[k] in index && index[coords[k]] == k
    ensures forall p :: p in index ==> index[p] < |coords| && coords[index[p]] == p
  {
    index := map[];
    var i := 0;
    while i < |coords|
      invariant i <= |coords|
      invariant index.Keys == set p | p in coords[..i]
      invariant forall k :: 0 <= k < i ==> coords[k] in index && index[coords[k]] == k
      invariant forall p :: p in index ==> index[p] < i && coords[index[p]] == p
    {
      index := index[coords[i] := i];
      assert coords[..i + 1] == coords[..i] + [coords[i]];
      i := i + 1;
    }
    assert coords[..i] == coords;
  }

  /** The edges of one ring: point `i` to point `(i + 1) % m`. */
  function RingEdges(ring: seq<Point>, index: map<Point, nat>): (es: seq<(nat, nat)>)
    requires forall p :: p in ring ==> p in index
  {
    seq(|ring|, i requires 0 <= i < |ring| => (index[ring[i]], index[ring[(i + 1) % |ring|]]))
  }

  /** The edges of all rings, ring after ring. */
  function Edges(rings: seq<seq<Point>>, index: map<Point, nat>): seq<(nat, nat)>
    requires forall r, p :: 0 <= r < |rings| && p in rings[r] ==> p in index
  {
    if rings == [] then []
    else Edges(rings[..|rings| - 1], index) + RingEdges(rings[|rings| - 1], index)
  }

  /** The number of ring points, ring after ring. */
  function TotalLength(rings: seq<seq<Point>>): nat
  {
    if rings == [] then 0 else TotalLength(rings[..|rings| - 1]) + |rings[|rings| - 1]|
  }

  /** The second loop: one edge per ring point. */
  method EmitEdges(rings: seq<seq<Point>>, index: map<Point, nat>) returns (edges: seq<(nat, nat)>)
    requires forall r, p :: 0 <= r < |rings| && p in rings[r] ==> p in index
    ensures edges == Edges(rings, index)
  {
    edges := [];
    var r := 0;
    while r < |rings|
      invariant r <= |rings|
      invariant edges == Edges(rings[..r], index)
    {
      var ring := rings[r];
      var m := |ring|;
      var base := edges;
      var i := 0;
      while i < m
        invariant i <= m
        invariant edges == base + RingEdges(ring, index)[..i]
      {
        var s := index[ring[i]];
        var j := (i + 1) % m;
        var t := index[ring[j]];
        edges := edges + [(s, t)];
        assert RingEdges(ring, index)[..i + 1] == RingEdges(ring, index)[..i] + [(s, t)];
        i := i + 1;
      }
      assert RingEdges(ring, index)[..m] == RingEdges(ring, index);
      assert rings[..r + 1][..r] == rings[..r];
      r := r + 1;
    }
    assert rings[..r] == rings;
  }

  /** Each ring of `m` points contributes exactly `m` edges. */
  lemma {:induction false} EdgesCount(rings: seq<seq<Point>>, index: map<Point, nat>)
    requires forall r, p :: 0 <= r < |rings| && p in rings[r] ==> p in index
    ensures |Edges(rings, index)| == TotalLength(rings)
  {
    if rings != [] {
      EdgesCount(rings[..|rings| - 1], index);
    }
  }

  /** Edge `TotalLength(rings[..r]) + i` joins point `i` of ring `r` to its
      successor, wrapping to the first point. */
  lemma {:induction false} EdgeAt(rings: seq<seq<Point>>, index: map<Point, nat>, r: nat, i: nat)
    requires forall r', p :: 0 <= r' < |rings| && p in rings[r'] ==> p in index
    requires r < |rings| && i < |rings[r]|
    ensures TotalLength(rings[..r]) + i < |Edges(rings, index)|
    ensures Edges(rings, index)[TotalLength(rings[..r]) + i] ==
      (index[rings[r][i]], index[rings[r][(i + 1) % |rings[r]|]])
  {
    var init := rings[..|rings| - 1];
    EdgesCount(init, index);
    if r < |rings| - 1 {
      assert init[..r] == rings[..r];
      EdgeAt(init, index, r, i);
    } else {
      assert init == rings[..r];
    }
  }

  /** Every edge endpoint is a vertex of the graph. */
  lemma {:induction false} EdgesInRange(rings: seq<seq<Point>>, index: map<Point, nat>, n: nat)
    requires forall r, p :: 0 <= r < |rings| && p in rings[r] ==> p in index
    requires forall p :: p in index ==> index[p] < n
    ensures forall e :: 0 <= e < |Edges(rings, index)| ==> Edges(rings, index)[e].0 < n && Edges(rings, index)[e].1 < n
  {
    if rings != [] {
      EdgesInRange(rings[..|rings| - 1], index, n);
      var last := rings[|rings| - 1];
      assert forall i :: 0 <= i < |last| ==> last[i] in last;
    }
  }

  /** `create_graph_from_polys` without the graph library: vertex
      coordinates, the coordinate index and the edge list. */
  method GraphFromPolys(rings: seq<seq<Point>>)
    returns (coords: seq<Point>, index: map<Point, nat>, edges: seq<(nat, nat)>)
    ensures Distinct(coords) && (set p | p in coords) == RingPoints(rings)
    ensures |coords| == |RingPoints(rings)|
    ensures index.Keys == RingPoints(rings)
    ensures forall p :: p in index ==> index[p] < |coords| && coords[index[p]] == p
    ensures forall r, p :: 0 <= r < |rings| && p in rings[r] ==> p in index
    ensures edges == Edges(rings, index)
    ensures |edges| == TotalLength(rings)
    ensures forall e :: 0 <= e < |edges| ==> edges[e].0 < |coords| && edges[e].1 < |coords|
  {
    var pts := CollectPoints(rings);
    coords := Enumerate(pts);
    index := IndexCoords(coords);
    forall r, p | 0 <= r < |rings| && p in rings[r]
      ensures p in index
    {
      RingPointsMembers(rings, p);
    }
    edges := EmitEdges(rings, index);
    EdgesCount(rings, index);
    EdgesInRange(rings, index, |coords|);
  }
}
