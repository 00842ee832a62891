/** The GeoFence class of geofence.h (lines 58-250): a boundary that only
    grows, the even-odd containment test and the two distance scans. */
module Fence {
  import opened Geometry
  import opened Containment
  import opened Distances

  /** The value each edge contributes to distance_to_boundary: edge i joins
      vertex i to vertex (i + 1) mod n. */
  function EdgeDistances(m: MathLib, poly: seq<Coordinate>, p: Coordinate): (ds: seq<Option<real>>)
    ensures |ds| == |poly|
  {
    seq(|poly|, i requires 0 <= i < |poly| => SegmentDistance(m, poly[i], poly[Next(|poly|, i)], p))
  }

  /** Haversine distance in kilometres from p to each vertex, in boundary order. */
  function VertexDistances(m: MathLib, poly: seq<Coordinate>, p: Coordinate): (ds: seq<Option<real>>)
    ensures |ds| == |poly|
  {
    seq(|poly|, i requires 0 <= i < |poly| => Some(HaversineDistance(m, p, poly[i])))
  }

  class GeoFence {
    /** boundary_coordinates, the vertices in the order they were added. */
    var boundary: seq<Coordinate>

    constructor ()
      ensures boundary == []
    {
      boundary := [];
    }

    /** add_point: append one vertex at the end. */
    method AddPoint(lat: real, lon: real)
      modifies this
      ensures boundary == old(boundary) + [Coordinate(lat, lon)]
    {
      boundary := boundary + [Coordinate(lat, lon)];
    }

    /** is_inside: walk the edges (i, j) with j trailing i, starting from the
        closing edge, and toggle on every crossing.  The result is the
        even-odd rule over the boundary.  The method changes nothing, and the
        debug flag, which only selects a message, does not enter it. */
    method IsInside(p: Coordinate, debug: bool) returns (inside: bool)
      ensures inside == Inside(boundary, p)
      ensures |boundary| == 0 ==> !inside
    {
      var numVertices := |boundary|;
      var j: int := numVertices - 1;
      inside := false;
      var i := 0;
      while i < numVertices
        invariant 0 <= i <= numVertices
        invariant j == if i == 0 then numVertices - 1 else i - 1
        invariant inside == (CrossingCount(Edges(boundary)[..i], p) % 2 == 1)
      {
        var vi, vj := boundary[i], boundary[j];
        CrossingCountStep(Edges(boundary), i, p);
        assert Edges(boundary)[i] == Edge(vi, vj);
        ghost var crosses := Crosses(Edge(vi, vj), p);
        if (vi.latitude < p.latitude && vj.latitude >= p.latitude) ||
           (vj.latitude < p.latitude && vi.latitude >= p.latitude)
        {
          var crossing := vi.longitude + (p.latitude - vi.latitude) / (vj.latitude - vi.latitude)
                                         * (vj.longitude - vi.longitude);
          CrossingLongitudeFormula(vi, vj, p);
          if crossing < p.longitude {
            assert crosses;
            inside := !inside;
          } else {
            assert !crosses;
          }
        } else {
          assert !crosses;
        }
        j := i;
        i := i + 1;
      }
      assert Edges(boundary)[..numVertices] == Edges(boundary);
      if numVertices == 0 {
        EmptyBoundaryOutside(p);
      }
    }

    /** calculate_distance_to_segment, step by step: project P onto the
        chord AB, clamp the parameter into [0, 1] in place, and measure to
        the clamped point.  A zero-length chord makes the parameter 0/0; the
        result is then None. */
    static method CalculateDistanceToSegment(m: MathLib, a: Coordinate, b: Coordinate, p: Coordinate)
      returns (distance: Option<real>)
      ensures distance == SegmentDistance(m, a, b, p)
    {
      var va, vb, vp := UnitVector(m, a), UnitVector(m, b), UnitVector(m, p);
      var ab := Sub(vb, va);
      var denom := NormSq(ab);
      ChordLengthPositive(va, vb);
      if denom == 0.0 {
        return None;
      }
      var t := Dot(Sub(vp, va), ab) / denom;
      if t < 0.0 {
        t := 0.0;
      }
      if t > 1.0 {
        t := 1.0;
      }
      var q := Add(va, Scale(t, ab));
      var d := m.sqrt(NormSq(Sub(vp, q)));
      distance := Some(d * EarthRadiusKm * 1000.0);
    }

    /** distance_to_boundary: the running minimum, from the largest double,
        of the segment distances of the edges (i, (i + 1) mod n).  An edge
        whose distance is None (NaN in the source) never replaces the
        minimum. */
    method DistanceToBoundary(m: MathLib, p: Coordinate, debug: bool) returns (minDistance: real)
      ensures minDistance == RunningMin(DoubleMax, EdgeDistances(m, boundary, p))
      ensures minDistance <= DoubleMax
      ensures forall k :: 0 <= k < |boundary| && EdgeDistances(m, boundary, p)[k].Some? ==>
                minDistance <= EdgeDistances(m, boundary, p)[k].value
      ensures minDistance == DoubleMax ||
              exists k :: 0 <= k < |boundary| && EdgeDistances(m, boundary, p)[k] == Some(minDistance)
      ensures |boundary| == 0 ==> minDistance == DoubleMax
    {
      minDistance := DoubleMax;
      var numVertices := |boundary|;
      ghost var ds := EdgeDistances(m, boundary, p);
      var i := 0;
      while i < numVertices
        invariant 0 <= i <= numVertices
        invariant minDistance == RunningMin(DoubleMax, ds[..i])
      {
        var a := boundary[i];
        var b := boundary[(i + 1) % numVertices];
        NextIsModulo(numVertices, i);
        var distance := CalculateDistanceToSegment(m, a, b, p);
        RunningMinStep(DoubleMax, ds, i);
        if distance.Some? && distance.value < minDistance {
          minDistance := distance.value;
        }
        i := i + 1;
      }
      assert ds[..numVertices] == ds;
      forall k | 0 <= k < |boundary| && ds[k].Some?
        ensures minDistance <= ds[k].value
      {
        RunningMinAtMost(DoubleMax, ds, k);
      }
      RunningMinAttained(DoubleMax, ds);
    }

    /** boundary_vertice_to_coordinate_distance: the smallest Haversine
        distance from the coordinate to a vertex, converted to metres; with
        no vertex it is 1000 times the largest double. */
    static method BoundaryVertexToCoordinateDistance(m: MathLib, boundary: seq<Coordinate>, coordinates: Coordinate)
      returns (r: real)
      ensures r == 1000.0 * RunningMin(DoubleMax, VertexDistances(m, boundary, coordinates))
      ensures forall k :: 0 <= k < |boundary| ==> r <= 1000.0 * HaversineDistance(m, coordinates, boundary[k])
      ensures r <= 1000.0 * DoubleMax
      ensures r == 1000.0 * DoubleMax ||
              exists k :: 0 <= k < |boundary| && r == 1000.0 * HaversineDistance(m, coordinates, boundary[k])
    {
      var minDistance := DoubleMax;
      ghost var ds := VertexDistances(m, boundary, coordinates);
      var i := 0;
      while i < |boundary|
        invariant 0 <= i <= |boundary|
        invariant minDistance == RunningMin(DoubleMax, ds[..i])
      {
        var distance := HaversineDistance(m, coordinates, boundary[i]);
        RunningMinStep(DoubleMax, ds, i);
        if distance < minDistance {
          minDistance := distance;
        }
        i := i + 1;
      }
      assert ds[..|boundary|] == ds;
      r := minDistance * 1000.0;
      VertexScanBounds(m, boundary, coordinates);
    }
  }

  /** The vertex scan in metres is at most 1000 times the distance to each
      vertex, and is either 1000 times the largest double or one of those. */
  lemma VertexScanBounds(m: MathLib, boundary: seq<Coordinate>, coordinates: Coordinate)
    ensures var r := 1000.0 * RunningMin(DoubleMax, VertexDistances(m, boundary, coordinates));
      (forall k :: 0 <= k < |boundary| ==> r <= 1000.0 * HaversineDistance(m, coordinates, boundary[k])) &&
      r <= 1000.0 * DoubleMax &&
      (r == 1000.0 * DoubleMax ||
       exists k :: 0 <= k < |boundary| && r == 1000.0 * HaversineDistance(m, coordinates, boundary[k]))
  {
    var ds := VertexDistances(m, boundary, coordinates);
    var min := RunningMin(DoubleMax, ds);
    forall k | 0 <= k < |boundary|
      ensures min <= HaversineDistance(m, coordinates, boundary[k])
    {
      RunningMinAtMost(DoubleMax, ds, k);
    }
    RunningMinAttained(DoubleMax, ds);
    if min != DoubleMax {
      var k :| 0 <= k < |ds| && ds[k] == Some(min);
      assert min == HaversineDistance(m, coordinates, boundary[k]);
    }
  }

  /** With sqrt non-negative, no edge distance is negative, and neither is
      the distance to the boundary. */
  lemma DistanceToBoundaryNonNegative(m: MathLib, poly: seq<Coordinate>, p: Coordinate)
    requires SqrtLaws(m)
    ensures 0.0 <= RunningMin(DoubleMax, EdgeDistances(m, poly, p))
  {
    var ds := EdgeDistances(m, poly, p);
    forall k | 0 <= k < |ds| && ds[k].Some?
      ensures 0.0 <= ds[k].value
    {
      SegmentDistanceWithinChords(m, poly[k], poly[Next(|poly|, k)], p);
    }
    RunningMinAtLeast(DoubleMax, ds, 0.0);
  }

  /** The distance to the boundary is at most the chord distance to any
      vertex whose outgoing edge has length. */
  lemma BoundaryWithinChordOfVertex(m: MathLib, poly: seq<Coordinate>, p: Coordinate, k: nat)
    requires SqrtLaws(m)
    requires k < |poly| && UnitVector(m, poly[k]) != UnitVector(m, poly[Next(|poly|, k)])
    ensures RunningMin(DoubleMax, EdgeDistances(m, poly, p)) <= ChordDistance(m, p, poly[k])
  {
    var ds := EdgeDistances(m, poly, p);
    var d := SegmentDistance(m, poly[k], poly[Next(|poly|, k)], p);
    SegmentDistanceDefined(m, poly[k], poly[Next(|poly|, k)], p);
    SegmentDistanceWithinChords(m, poly[k], poly[Next(|poly|, k)], p);
    assert ds[k] == d && d.Some? && d.value <= ChordDistance(m, p, poly[k]);
    RunningMinAtMost(DoubleMax, ds, k);
  }

  /** A vertex of the fence whose outgoing edge has length is at distance
      zero from the boundary. */
  lemma DistanceZeroOnVertex(m: MathLib, poly: seq<Coordinate>, k: nat)
    requires SqrtLaws(m)
    requires k < |poly| && UnitVector(m, poly[k]) != UnitVector(m, poly[Next(|poly|, k)])
    ensures RunningMin(DoubleMax, EdgeDistances(m, poly, poly[k])) == 0.0
  {
    var p := poly[k];
    var ds := EdgeDistances(m, poly, p);
    var r := RunningMin(DoubleMax, ds);
    assert r <= 0.0 by {
      SegmentDistanceZeroAtEndpoints(m, poly[k], poly[Next(|poly|, k)], poly[k]);
      assert ds[k] == Some(0.0);
      RunningMinAtMost(DoubleMax, ds, k);
    }
    assert 0.0 <= r by {
      DistanceToBoundaryNonNegative(m, poly, p);
    }
  }
}
