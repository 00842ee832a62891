/** Coordinates, the angle conversions and the math library the geofence
    computations call into (geofence.h:20-27, 67, 169). */
module Geometry {

  datatype Option<+T> = None | Some(value: T)

  /** A GPS coordinate in decimal degrees.  No range is enforced: the caller
      supplies the values and nothing normalises them. */
  datatype Coordinate = Coordinate(latitude: real, longitude: real)

  /** The value of IMPL_M_PI.  geofence.h writes it with 20 decimals and
      main.cpp with 35; both literals round to this same double. */
  const Pi: real := 3.141592653589793115997963468544185161590576171875

  /** std::numeric_limits<double>::max(), the start value of both running minima. */
  const DoubleMax: real := 179769313486231570814527423731704356798070567525844996598917476803157260780028538760589558632766878171540458953514382464234321326889464182768467546703537516986049910576551282076245490090389328944075868508455133942304583236903222948165808559332123348274797826204144723168738177180919299881250404026184124858368.0

  /** Radius of the spherical earth used by every distance, in kilometres. */
  const EarthRadiusKm: real := 6371.0

  /** The C math library calls the distances make.  Their values are
      floating-point numerics outside this model, so they are parameters. */
  datatype MathLib = MathLib(
    sin: real -> real,
    cos: real -> real,
    sqrt: real -> real,
    atan2: (real, real) -> real)

  /** What the segment distance needs to know about sqrt: it is non-negative
      and monotone on non-negative arguments, and sqrt(0) = 0. */
  ghost predicate SqrtLaws(m: MathLib)
  {
    m.sqrt(0.0) == 0.0 &&
    (forall x: real :: 0.0 <= x ==> 0.0 <= m.sqrt(x)) &&
    (forall x: real, y: real :: 0.0 <= x <= y ==> m.sqrt(x) <= m.sqrt(y))
  }

  function DegreesToRadians(degrees: real): real
  {
    degrees * Pi / 180.0
  }

  function RadiansToDegrees(radians: real): real
  {
    radians * 180.0 / Pi
  }

  /** The two conversions are inverse to each other, both ways round. */
  lemma RadiansDegreesRoundTrip(x: real)
    ensures RadiansToDegrees(DegreesToRadians(x)) == x
    ensures DegreesToRadians(RadiansToDegrees(x)) == x
  {
    assert Pi != 0.0;
    calc {
      RadiansToDegrees(DegreesToRadians(x));
      x * Pi / 180.0 * 180.0 / Pi;
      x * Pi / Pi;
      x;
    }
    calc {
      DegreesToRadians(RadiansToDegrees(x));
      x * 180.0 / Pi * Pi / 180.0;
      x * 180.0 / 180.0;
      x;
    }
  }

  lemma ProductOfNonNegatives(x: real, y: real)
    requires 0.0 <= x && 0.0 <= y
    ensures 0.0 <= x * y
  {
  }
}
