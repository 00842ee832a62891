/** The distance computations of GeoFence (geofence.h:72-167, 226-249):
    the Haversine great-circle distance, the point-to-segment distance
    through the 3D chord, and the running minimum both boundary scans use. */
module Distances {
  import opened Geometry

  /** sin(x / 2) * sin(x / 2), the haversine of x, as both formulas compute it. */
  function SinHalfSquared(m: MathLib, x: real): real
  {
    m.sin(x / 2.0) * m.sin(x / 2.0)
  }

  /** The square of half the chord between two points of the unit sphere,
      from their latitudes and the latitude and longitude differences, all in
      radians.  Both Haversine implementations compute this term; they
      multiply its factors in different orders, which is the same real. */
  function HalfChordSquared(m: MathLib, lat1: real, lat2: real, dlat: real, dlon: real): real
  {
    SinHalfSquared(m, dlat) + SinHalfSquared(m, dlon) * m.cos(lat1) * m.cos(lat2)
  }

  /** Great-circle distance in kilometres (haversineDistance). */
  function HaversineDistance(m: MathLib, a: Coordinate, b: Coordinate): real
  {
    var dlat := (b.latitude - a.latitude) * Pi / 180.0;
    var dlon := (b.longitude - a.longitude) * Pi / 180.0;
    var lat1 := a.latitude * Pi / 180.0;
    var lat2 := b.latitude * Pi / 180.0;
    var d := HalfChordSquared(m, lat1, lat2, dlat, dlon);
    var c := 2.0 * m.atan2(m.sqrt(d), m.sqrt(1.0 - d));
    EarthRadiusKm * c
  }

  /** Great-circle distance in metres (distance_between_coordinates). */
  function DistanceBetweenCoordinates(m: MathLib, c1: Coordinate, c2: Coordinate, debug: bool): real
  {
    var lat1 := DegreesToRadians(c1.latitude);
    var lon1 := DegreesToRadians(c1.longitude);
    var lat2 := DegreesToRadians(c2.latitude);
    var lon2 := DegreesToRadians(c2.longitude);
    var dlat := lat2 - lat1;
    var dlon := lon2 - lon1;
    var a := HalfChordSquared(m, lat1, lat2, dlat, dlon);
    var c := 2.0 * m.atan2(m.sqrt(a), m.sqrt(1.0 - a));
    EarthRadiusKm * c * 1000.0
  }

  /** The two Haversine implementations are one formula: the metre version is
      exactly 1000 times the kilometre version, whatever the trigonometric
      functions are, and the debug flag does not change it. */
  lemma DistanceBetweenIsHaversineInMeters(m: MathLib, a: Coordinate, b: Coordinate, debug: bool)
    ensures DistanceBetweenCoordinates(m, a, b, debug) == 1000.0 * HaversineDistance(m, a, b)
  {
    var dlat := (b.latitude - a.latitude) * Pi / 180.0;
    var dlon := (b.longitude - a.longitude) * Pi / 180.0;
    assert DegreesToRadians(b.latitude) - DegreesToRadians(a.latitude) == dlat;
    assert DegreesToRadians(b.longitude) - DegreesToRadians(a.longitude) == dlon;
    var lat1, lat2 := a.latitude * Pi / 180.0, b.latitude * Pi / 180.0;
    assert DegreesToRadians(a.latitude) == lat1 && DegreesToRadians(b.latitude) == lat2;
    var d := HalfChordSquared(m, lat1, lat2, dlat, dlon);
    var c := 2.0 * m.atan2(m.sqrt(d), m.sqrt(1.0 - d));
    assert HaversineDistance(m, a, b) == EarthRadiusKm * c;
    assert DistanceBetweenCoordinates(m, a, b, debug) == EarthRadiusKm * c * 1000.0;
  }

  // ---------------------------------------------------------------------
  // Vectors of the 3D chord model

  datatype Vec3 = Vec3(x: real, y: real, z: real)

  function Add(u: Vec3, v: Vec3): Vec3 { Vec3(u.x + v.x, u.y + v.y, u.z + v.z) }
  function Sub(u: Vec3, v: Vec3): Vec3 { Vec3(u.x - v.x, u.y - v.y, u.z - v.z) }
  function Scale(t: real, v: Vec3): Vec3 { Vec3(t * v.x, t * v.y, t * v.z) }
  function Dot(u: Vec3, v: Vec3): real { u.x * v.x + u.y * v.y + u.z * v.z }

  /** Squared Euclidean length. */
  function NormSq(v: Vec3): real
  {
    v.x * v.x + v.y * v.y + v.z * v.z
  }

  lemma NormSqNonNegative(v: Vec3)
    ensures 0.0 <= NormSq(v)
  {
    SquareNonNegative(v.x);
    SquareNonNegative(v.y);
    SquareNonNegative(v.z);
  }

  lemma NormSqPositive(v: Vec3)
    requires v != Vec3(0.0, 0.0, 0.0)
    ensures 0.0 < NormSq(v)
  {
    assert v == Vec3(v.x, v.y, v.z);
    var x, y, z := v.x, v.y, v.z;
    var xx, yy, zz := x * x, y * y, z * z;
    SquareNonNegative(x);
    SquareNonNegative(y);
    SquareNonNegative(z);
    if x != 0.0 {
      SquarePositive(x, xx);
    } else if y != 0.0 {
      SquarePositive(y, yy);
    } else {
      SquarePositive(z, zz);
    }
    assert NormSq(v) == xx + yy + zz;
  }

  lemma SquareNonNegative(a: real)
    ensures 0.0 <= a * a
  {
    if a < 0.0 {
      assert a * a == (-a) * (-a);
    }
  }

  lemma SquarePositive(a: real, sq: real)
    requires a != 0.0 && sq == a * a
    ensures 0.0 < sq
  {
    assert sq / a == a;
    if a > 0.0 {
      assert sq == a * (sq / a);
    }
  }

  /** The point of the line through a and b at parameter s. */
  function PointAt(a: Vec3, b: Vec3, s: real): Vec3
  {
    Add(a, Scale(s, Sub(b, a)))
  }

  /** Clamping of the projection parameter to [0, 1] (geofence.h:151-152). */
  function Clamp(t: real): (r: real)
    ensures 0.0 <= r <= 1.0
    ensures 0.0 <= t <= 1.0 ==> r == t
  {
    var t1 := if t < 0.0 then 0.0 else t;
    if t1 > 1.0 then 1.0 else t1
  }

  /** The chord from a to b has positive squared length exactly when a and b
      differ; for a = b the projection divides 0 by 0. */
  lemma ChordLengthPositive(a: Vec3, b: Vec3)
    ensures a == b ==> NormSq(Sub(b, a)) == 0.0
    ensures a != b ==> 0.0 < NormSq(Sub(b, a))
  {
    if a == b {
      assert Sub(b, a) == Vec3(0.0, 0.0, 0.0);
    } else {
      assert a == Vec3(a.x, a.y, a.z) && b == Vec3(b.x, b.y, b.z);
      assert Sub(b, a) != Vec3(0.0, 0.0, 0.0);
      NormSqPositive(Sub(b, a));
    }
  }

  /** Point of the chord from a to b nearest to p (geofence.h:146-157).  For
      a = b the projection parameter is 0/0, which is NaN in the source; the
      model returns None there. */
  function NearestOnChord(a: Vec3, b: Vec3, p: Vec3): (q: Option<Vec3>)
    ensures q.Some? <==> a != b
  {
    var d := Sub(b, a);
    var denom := NormSq(d);
    ChordLengthPositive(a, b);
    if denom == 0.0 then None
    else Some(PointAt(a, b, Clamp(Dot(Sub(p, a), d) / denom)))
  }

  /** The point NearestOnChord returns lies on the chord, and no point of the
      chord is closer to p. */
  lemma NearestOnChordIsNearest(a: Vec3, b: Vec3, p: Vec3)
    ensures NearestOnChord(a, b, p).Some? ==>
              exists s :: 0.0 <= s <= 1.0 && NearestOnChord(a, b, p).value == PointAt(a, b, s)
    ensures NearestOnChord(a, b, p).Some? ==> forall s :: 0.0 <= s <= 1.0 ==>
              NormSq(Sub(p, NearestOnChord(a, b, p).value)) <= NormSq(Sub(p, PointAt(a, b, s)))
  {
    if a != b {
      ChordLengthPositive(a, b);
      ClampedProjectionIsNearest(a, b, p);
    }
  }

  /** Moving along the line from a by s (b - a) is subtracting s d from p - a. */
  lemma OffsetAlongLine(a: Vec3, b: Vec3, p: Vec3, s: real)
    ensures Sub(p, PointAt(a, b, s)) == Sub(Sub(p, a), Scale(s, Sub(b, a)))
  {
  }

  /** |w - s d|^2 expanded as a quadratic in s. */
  lemma NormSqExpand(w: Vec3, d: Vec3, s: real)
    ensures NormSq(Sub(w, Scale(s, d))) == NormSq(w) - 2.0 * s * Dot(w, d) + s * s * NormSq(d)
  {
    ExpandSquares(w.x, w.y, w.z, d.x, d.y, d.z, s);
  }

  lemma ExpandSquares(wx: real, wy: real, wz: real, dx: real, dy: real, dz: real, s: real)
    ensures (wx - s * dx) * (wx - s * dx) + (wy - s * dy) * (wy - s * dy) + (wz - s * dz) * (wz - s * dz)
            == (wx * wx + wy * wy + wz * wz) - 2.0 * s * (wx * dx + wy * dy + wz * dz)
               + s * s * (dx * dx + dy * dy + dz * dz)
  {
  }

  /** The clamped projection minimises the distance over the whole chord. */
  lemma ClampedProjectionIsNearest(a: Vec3, b: Vec3, p: Vec3)
    requires NormSq(Sub(b, a)) != 0.0
    ensures forall s :: 0.0 <= s <= 1.0 ==>
              NormSq(Sub(p, PointAt(a, b, Clamp(Dot(Sub(p, a), Sub(b, a)) / NormSq(Sub(b, a))))))
              <= NormSq(Sub(p, PointAt(a, b, s)))
  {
    forall s | 0.0 <= s <= 1.0
      ensures NormSq(Sub(p, PointAt(a, b, Clamp(Dot(Sub(p, a), Sub(b, a)) / NormSq(Sub(b, a))))))
              <= NormSq(Sub(p, PointAt(a, b, s)))
    {
      ClampedProjectionBeats(a, b, p, s);
    }
  }

  /** The clamped projection is at least as close to p as the point of the
      chord at parameter s. */
  lemma ClampedProjectionBeats(a: Vec3, b: Vec3, p: Vec3, s: real)
    requires NormSq(Sub(b, a)) != 0.0 && 0.0 <= s <= 1.0
    ensures NormSq(Sub(p, PointAt(a, b, Clamp(Dot(Sub(p, a), Sub(b, a)) / NormSq(Sub(b, a))))))
            <= NormSq(Sub(p, PointAt(a, b, s)))
  {
    var w, d := Sub(p, a), Sub(b, a);
    NormSqNonNegative(d);
    var tStar := Dot(w, d) / NormSq(d);
    var t := Clamp(tStar);
    DistanceAlongChord(a, b, p, t);
    DistanceAlongChord(a, b, p, s);
    QuadraticMinimumOnUnit(NormSq(w), Dot(w, d), NormSq(d), tStar, t, s);
  }

  /** The squared distance from p to the point of the line AB at parameter u
      is a quadratic in u. */
  lemma DistanceAlongChord(a: Vec3, b: Vec3, p: Vec3, u: real)
    ensures NormSq(Sub(p, PointAt(a, b, u))) == Quadratic(NormSq(Sub(p, a)), Dot(Sub(p, a), Sub(b, a)), NormSq(Sub(b, a)), u)
  {
    OffsetAlongLine(a, b, p, u);
    NormSqExpand(Sub(p, a), Sub(b, a), u);
  }

  /** c - 2 u dot + u^2 den. */
  function Quadratic(c: real, dot: real, den: real, u: real): real
  {
    c - 2.0 * u * dot + u * u * den
  }

  /** The quadratic with den > 0 is minimised over [0, 1] at the clamped
      vertex of the parabola. */
  lemma QuadraticMinimumOnUnit(c: real, dot: real, den: real, tStar: real, t: real, s: real)
    requires 0.0 < den && tStar == dot / den && t == Clamp(tStar) && 0.0 <= s <= 1.0
    ensures Quadratic(c, dot, den, t) <= Quadratic(c, dot, den, s)
  {
    assert dot == tStar * den;
    // f(s) - f(t) = (s - t) * (s + t - 2 tStar) * den
    var g := (s - t) * (s + t - 2.0 * tStar);
    assert Quadratic(c, dot, den, s) - Quadratic(c, dot, den, t) == g * den;
    if tStar < 0.0 {
      assert t == 0.0;
      ProductOfNonNegatives(s, s - 2.0 * tStar);
    } else if tStar > 1.0 {
      assert t == 1.0;
      ProductOfNonNegatives(1.0 - s, 2.0 * tStar - 1.0 - s);
      assert g == (1.0 - s) * (2.0 * tStar - 1.0 - s);
    } else {
      assert t == tStar;
      SquareNonNegative(s - t);
    }
    ProductOfNonNegatives(g, den);
  }

  /** Spherical-to-Cartesian conversion of a coordinate onto the unit sphere
      (geofence.h:126-144). */
  function UnitVector(m: MathLib, c: Coordinate): Vec3
  {
    var lat := DegreesToRadians(c.latitude);
    var lon := DegreesToRadians(c.longitude);
    Vec3(m.cos(lat) * m.cos(lon), m.cos(lat) * m.sin(lon), m.sin(lat))
  }

  /** A chord of the unit sphere, given by its squared length, in metres on
      the earth (geofence.h:160-164). */
  function Metres(m: MathLib, sq: real): real
  {
    m.sqrt(sq) * EarthRadiusKm * 1000.0
  }

  /** Chord length in metres between two coordinates, in the same units as
      the segment distance. */
  function ChordDistance(m: MathLib, p: Coordinate, v: Coordinate): real
  {
    Metres(m, NormSq(Sub(UnitVector(m, p), UnitVector(m, v))))
  }

  /** calculate_distance_to_segment: distance in metres from p to the chord
      from a to b; None for a zero-length chord, where the source computes
      NaN. */
  function SegmentDistance(m: MathLib, a: Coordinate, b: Coordinate, p: Coordinate): Option<real>
  {
    var va, vb, vp := UnitVector(m, a), UnitVector(m, b), UnitVector(m, p);
    match NearestOnChord(va, vb, vp)
    case None => None
    case Some(q) => Some(Metres(m, NormSq(Sub(vp, q))))
  }

  /** The segment distance is defined exactly when the chord has length. */
  lemma SegmentDistanceDefined(m: MathLib, a: Coordinate, b: Coordinate, p: Coordinate)
    ensures SegmentDistance(m, a, b, p).Some? <==> UnitVector(m, a) != UnitVector(m, b)
  {
  }

  /** Where defined, the segment distance is never negative and is at most
      the chord distance to either endpoint. */
  lemma SegmentDistanceWithinChords(m: MathLib, a: Coordinate, b: Coordinate, p: Coordinate)
    requires SqrtLaws(m)
    ensures SegmentDistance(m, a, b, p).Some? ==>
              0.0 <= SegmentDistance(m, a, b, p).value &&
              SegmentDistance(m, a, b, p).value <= ChordDistance(m, p, a) &&
              SegmentDistance(m, a, b, p).value <= ChordDistance(m, p, b)
  {
    var va, vb, vp := UnitVector(m, a), UnitVector(m, b), UnitVector(m, p);
    var q := NearestOnChord(va, vb, vp);
    if q.Some? {
      NearestOnChordIsNearest(va, vb, vp);
      var nq := NormSq(Sub(vp, q.value));
      NormSqNonNegative(Sub(vp, q.value));
      assert PointAt(va, vb, 0.0) == va;
      assert PointAt(va, vb, 1.0) == vb;
      MetresMonotone(m, nq, NormSq(Sub(vp, va)));
      MetresMonotone(m, nq, NormSq(Sub(vp, vb)));
    }
  }

  /** The chord distance from a coordinate to itself is zero. */
  lemma ChordDistanceToSelf(m: MathLib, a: Coordinate)
    requires SqrtLaws(m)
    ensures ChordDistance(m, a, a) == 0.0
  {
    var v := UnitVector(m, a);
    NormSqSubSelf(v);
    MetresMonotone(m, 0.0, 0.0);
    assert NormSq(Sub(v, v)) == 0.0;
  }

  lemma NormSqSubSelf(v: Vec3)
    ensures NormSq(Sub(v, v)) == 0.0
  {
    assert Sub(v, v) == Vec3(0.0, 0.0, 0.0);
  }

  /** The point of a chord nearest to one of its endpoints is at squared
      distance zero from that endpoint. */
  lemma NearestOnChordAtEndpoint(a: Vec3, b: Vec3, e: Vec3)
    requires a != b && (e == a || e == b)
    ensures NormSq(Sub(e, NearestOnChord(a, b, e).value)) == 0.0
  {
    var q := NearestOnChord(a, b, e).value;
    assert NormSq(Sub(e, q)) <= 0.0 by {
      NearestOnChordIsNearest(a, b, e);
      var s := if e == a then 0.0 else 1.0;
      assert PointAt(a, b, s) == e;
      assert NormSq(Sub(e, q)) <= NormSq(Sub(e, PointAt(a, b, s)));
      NormSqSubSelf(e);
      assert NormSq(Sub(e, PointAt(a, b, s))) == 0.0;
    }
    NormSqNonNegative(Sub(e, q));
  }

  /** Either endpoint of a chord with length is at distance zero from it. */
  lemma SegmentDistanceZeroAtEndpoints(m: MathLib, a: Coordinate, b: Coordinate, e: Coordinate)
    requires SqrtLaws(m) && UnitVector(m, a) != UnitVector(m, b)
    requires e == a || e == b
    ensures SegmentDistance(m, a, b, e) == Some(0.0)
  {
    var va, vb, ve := UnitVector(m, a), UnitVector(m, b), UnitVector(m, e);
    var q := NearestOnChord(va, vb, ve);
    NearestOnChordAtEndpoint(va, vb, ve);
    var sq := NormSq(Sub(ve, q.value));
    NormSqNonNegative(Sub(ve, q.value));
    MetresMonotone(m, sq, 0.0);
  }

  /** Metres grows with the squared chord and is zero for a zero chord. */
  lemma MetresMonotone(m: MathLib, x: real, y: real)
    requires SqrtLaws(m) && 0.0 <= x <= y
    ensures 0.0 <= Metres(m, x) <= Metres(m, y)
    ensures y == 0.0 ==> Metres(m, x) == 0.0
  {
  }

  // ---------------------------------------------------------------------
  // Running minimum of a scan

  /** The minimum the scans at geofence.h:87-95 and 101-116 keep: start at
      init and replace it by each value strictly below it.  None stands for a
      NaN, which compares false with everything and is passed over. */
  function RunningMin(init: real, ds: seq<Option<real>>): (r: real)
    ensures r <= init
  {
    if ds == [] then init
    else
      var m := RunningMin(init, ds[..|ds| - 1]);
      match ds[|ds| - 1]
      case Some(d) => if d < m then d else m
      case None => m
  }

  /** One more step of the scan: the new value replaces the minimum exactly
      when it is defined and strictly below it. */
  lemma RunningMinStep(init: real, ds: seq<Option<real>>, i: nat)
    requires i < |ds|
    ensures RunningMin(init, ds[..i + 1])
            == if ds[i].Some? && ds[i].value < RunningMin(init, ds[..i]) then ds[i].value
               else RunningMin(init, ds[..i])
  {
    assert ds[..i + 1][..i] == ds[..i];
  }

  /** The running minimum is at most any defined value of the scan. */
  lemma {:induction false} RunningMinAtMost(init: real, ds: seq<Option<real>>, k: nat)
    requires k < |ds| && ds[k].Some?
    ensures RunningMin(init, ds) <= ds[k].value
  {
    var prefix := ds[..|ds| - 1];
    if k < |ds| - 1 {
      assert prefix[k] == ds[k];
      RunningMinAtMost(init, prefix, k);
    }
  }

  /** The running minimum is the start value or one of the defined values. */
  lemma {:induction false} RunningMinAttained(init: real, ds: seq<Option<real>>)
    ensures RunningMin(init, ds) == init ||
            exists k :: 0 <= k < |ds| && ds[k] == Some(RunningMin(init, ds))
  {
    if ds != [] {
      var prefix := ds[..|ds| - 1];
      RunningMinAttained(init, prefix);
      var m := RunningMin(init, prefix);
      if RunningMin(init, ds) != init && RunningMin(init, ds) == m {
        var k :| 0 <= k < |prefix| && prefix[k] == Some(m);
        assert ds[k] == Some(m);
      }
    }
  }

  /** A lower bound of the start value and of every defined value bounds the
      running minimum. */
  lemma RunningMinAtLeast(init: real, ds: seq<Option<real>>, lo: real)
    requires lo <= init
    requires forall k :: 0 <= k < |ds| && ds[k].Some? ==> lo <= ds[k].value
    ensures lo <= RunningMin(init, ds)
  {
    RunningMinAttained(init, ds);
  }
}
