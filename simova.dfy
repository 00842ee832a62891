/** The four-point fixture near Simova that both test_geofence_4points
    drivers use (main.cpp:143-179 for the older GeoFence,
    class_testing.h:23-59 for the current one), and its expected outcomes
    under the even-odd rule. */
module Simova {
  import opened Geometry
  import opened Containment
  import Fence

  /** The fixture polygon, in the order its vertices are added. */
  function SimovaPolygon(): seq<Coordinate>
  {
    [Coordinate(-23.207486, -45.907859), Coordinate(-23.209189, -45.909029),
     Coordinate(-23.211687, -45.909443), Coordinate(-23.212556, -45.902455)]
  }

  /** The count of four edges is the number of them that cross. */
  lemma CrossingCountOfFour(e0: Edge, e1: Edge, e2: Edge, e3: Edge, p: Coordinate)
    ensures CrossingCount([e0, e1, e2, e3], p)
            == (if Crosses(e0, p) then 1 else 0) + (if Crosses(e1, p) then 1 else 0)
             + (if Crosses(e2, p) then 1 else 0) + (if Crosses(e3, p) then 1 else 0)
  {
    var es := [e0, e1, e2, e3];
    assert es[..0] == [];
    CrossingCountStep(es, 0, p);
    CrossingCountStep(es, 1, p);
    CrossingCountStep(es, 2, p);
    CrossingCountStep(es, 3, p);
    assert es[..4] == es;
  }

  /** The expected outcomes of the fixture: the first two test points are
      inside, the last two outside. */
  lemma FourPointFixture()
    ensures Inside(SimovaPolygon(), Coordinate(-23.209565, -45.907350))
    ensures Inside(SimovaPolygon(), Coordinate(-23.211250, -45.906183))
    ensures !Inside(SimovaPolygon(), Coordinate(-23.210104, -45.904434))
    ensures !Inside(SimovaPolygon(), Coordinate(-23.214471, -45.906442))
  {
    var poly := SimovaPolygon();
    var v0, v1, v2, v3 := poly[0], poly[1], poly[2], poly[3];
    var e0, e1, e2, e3 := Edge(v0, v3), Edge(v1, v0), Edge(v2, v1), Edge(v3, v2);
    assert Edges(poly) == [e0, e1, e2, e3];
    var t1 := Coordinate(-23.209565, -45.907350);
    var t2 := Coordinate(-23.211250, -45.906183);
    var t3 := Coordinate(-23.210104, -45.904434);
    var t4 := Coordinate(-23.214471, -45.906442);
    CrossingCountOfFour(e0, e1, e2, e3, t1);
    assert !Crosses(e0, t1) && !Crosses(e1, t1) && Crosses(e2, t1) && !Crosses(e3, t1);
    CrossingCountOfFour(e0, e1, e2, e3, t2);
    assert !Crosses(e0, t2) && !Crosses(e1, t2) && Crosses(e2, t2) && !Crosses(e3, t2);
    CrossingCountOfFour(e0, e1, e2, e3, t3);
    assert Crosses(e0, t3) && !Crosses(e1, t3) && Crosses(e2, t3) && !Crosses(e3, t3);
    CrossingCountOfFour(e0, e1, e2, e3, t4);
    assert !Crosses(e0, t4) && !Crosses(e1, t4) && !Crosses(e2, t4) && !Crosses(e3, t4);
  }

  /** test_geofence_4points against the current GeoFence: build the fence
      and check the four test points; it passes. */
  method TestCurrentGeofence4Points() returns (passed: bool)
    ensures passed
  {
    var geoFence := new Fence.GeoFence();
    geoFence.AddPoint(-23.207486, -45.907859);
    geoFence.AddPoint(-23.209189, -45.909029);
    geoFence.AddPoint(-23.211687, -45.909443);
    geoFence.AddPoint(-23.212556, -45.902455);
    assert geoFence.boundary == SimovaPolygon();
    var inside1 := geoFence.IsInside(Coordinate(-23.209565, -45.907350), false);
    var inside2 := geoFence.IsInside(Coordinate(-23.211250, -45.906183), false);
    var inside3 := geoFence.IsInside(Coordinate(-23.210104, -45.904434), false);
    var inside4 := geoFence.IsInside(Coordinate(-23.214471, -45.906442), false);
    FourPointFixture();
    passed := inside1 && inside2 && !inside3 && !inside4;
  }
}
