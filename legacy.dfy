/** The older, self-contained GeoFence of main.cpp (lines 7-136) and its
    four-point fixture (lines 143-179). */
module Legacy {
  import opened Geometry
  import opened Containment
  import opened Distances
  import opened Simova
  import Fence

  /** main.cpp's Point carries the same two fields as GPS_Coordinate. */
  type Point = Coordinate

  class GeoFence {
    /** points, the vertices in the order they were added. */
    var points: seq<Point>

    constructor ()
      ensures points == []
    {
      points := [];
    }

    /** add_point: append one point at the end. */
    method AddPoint(lat: real, lon: real)
      modifies this
      ensures points == old(points) + [Coordinate(lat, lon)]
    {
      points := points + [Coordinate(lat, lon)];
    }

    /** is_inside: the same walk over the edges (i, j) as the current
        GeoFence, over points.  The result is the even-odd rule over the
        same vertex list, so both versions agree; the debug flag does not
        enter it. */
    method IsInside(p: Point, debug: bool) returns (inside: bool)
      ensures inside == Inside(points, p)
      ensures |points| == 0 ==> !inside
    {
      var numVertices := |points|;
      var j: int := numVertices - 1;
      inside := false;
      var i := 0;
      while i < numVertices
        invariant 0 <= i <= numVertices
        invariant j == if i == 0 then numVertices - 1 else i - 1
        invariant inside == (CrossingCount(Edges(points)[..i], p) % 2 == 1)
      {
        var pi, pj := points[i], points[j];
        CrossingCountStep(Edges(points), i, p);
        assert Edges(points)[i] == Edge(pi, pj);
        ghost var crosses := Crosses(Edge(pi, pj), p);
        if (pi.latitude < p.latitude && pj.latitude >= p.latitude) ||
           (pj.latitude < p.latitude && pi.latitude >= p.latitude)
        {
          var crossing := pi.longitude + (p.latitude - pi.latitude) / (pj.latitude - pi.latitude)
                                         * (pj.longitude - pi.longitude);
          CrossingLongitudeFormula(pi, pj, p);
          if crossing < p.longitude {
            assert crosses;
            inside := !inside;
          } else {
            assert !crosses;
          }
        } else {
          assert !crosses;
        }
        j := i;
        i := i + 1;
      }
      assert Edges(points)[..numVertices] == Edges(points);
      if numVertices == 0 {
        EmptyBoundaryOutside(p);
      }
    }

    /** calculate_distance: the Haversine distance in metres. */
    static function CalculateDistance(m: MathLib, coordinate1: Point, coordinate2: Point, debug: bool): real
    {
      var lat1 := DegreesToRadians(coordinate1.latitude);
      var lon1 := DegreesToRadians(coordinate1.longitude);
      var lat2 := DegreesToRadians(coordinate2.latitude);
      var lon2 := DegreesToRadians(coordinate2.longitude);
      var dlat := lat2 - lat1;
      var dlon := lon2 - lon1;
      var a := HalfChordSquared(m, lat1, lat2, dlat, dlon);
      var c := 2.0 * m.atan2(m.sqrt(a), m.sqrt(1.0 - a));
      EarthRadiusKm * c * 1000.0
    }
  }

  /** calculate_distance is the current distance_between_coordinates, and so
      1000 times the Haversine distance in kilometres. */
  lemma CalculateDistanceIsCurrent(m: MathLib, a: Point, b: Point, debug: bool)
    ensures GeoFence.CalculateDistance(m, a, b, debug)
            == DistanceBetweenCoordinates(m, a, b, debug)
    ensures GeoFence.CalculateDistance(m, a, b, debug)
            == 1000.0 * HaversineDistance(m, a, b)
  {
    DistanceBetweenIsHaversineInMeters(m, a, b, debug);
  }

  /** Both versions of is_inside give the same answer on the same vertex
      list, whatever the debug flags: build an older and a current fence
      from the same vertices and ask both. */
  method IsInsideAgrees(vertices: seq<Coordinate>, p: Coordinate, olderDebug: bool, currentDebug: bool)
    returns (older: bool, current: bool)
    ensures older == current
    ensures older == Inside(vertices, p)
  {
    var legacy := new GeoFence();
    var fence := new Fence.GeoFence();
    var i := 0;
    while i < |vertices|
      invariant 0 <= i <= |vertices|
      invariant legacy.points == vertices[..i]
      invariant fence.boundary == vertices[..i]
    {
      legacy.AddPoint(vertices[i].latitude, vertices[i].longitude);
      fence.AddPoint(vertices[i].latitude, vertices[i].longitude);
      assert vertices[..i + 1] == vertices[..i] + [Coordinate(vertices[i].latitude, vertices[i].longitude)];
      i := i + 1;
    }
    assert vertices[..|vertices|] == vertices;
    older := legacy.IsInside(p, olderDebug);
    current := fence.IsInside(p, currentDebug);
  }

  /** test_geofence_4points: build the fixture fence and check the four test
      points; it passes. */
  method TestGeofence4Points() returns (passed: bool)
    ensures passed
  {
    var geoFence := new GeoFence();
    geoFence.AddPoint(-23.207486, -45.907859);
    geoFence.AddPoint(-23.209189, -45.909029);
    geoFence.AddPoint(-23.211687, -45.909443);
    geoFence.AddPoint(-23.212556, -45.902455);
    assert geoFence.points == SimovaPolygon();
    var inside1 := geoFence.IsInside(Coordinate(-23.209565, -45.907350), false);
    var inside2 := geoFence.IsInside(Coordinate(-23.211250, -45.906183), false);
    var inside3 := geoFence.IsInside(Coordinate(-23.210104, -45.904434), false);
    var inside4 := geoFence.IsInside(Coordinate(-23.214471, -45.906442), false);
    FourPointFixture();
    passed := inside1 && inside2 && !inside3 && !inside4;
  }
}
