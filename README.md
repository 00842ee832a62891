# Geofence model

A Dafny model of the polygon geofence of the geofencing_esp32 library. It
covers two classes:

- the `GeoFence` class of `geofence.h`;
- the older, self-contained `GeoFence` of `main.cpp`, with its four-point
  test fixture.

A geofence is a list of GPS coordinates. Vertices are added one at a time
and are never removed. The fence answers three questions:

- **is the point inside?** `is_inside` casts a ray along a parallel of
  latitude. It counts the edges that cross the ray west of the point. The
  point is inside when that count is odd (the even-odd rule).
- **how far is the point from the boundary?** `distance_to_boundary`
  takes the minimum, over the edges, of the distance from the point to the
  edge. That distance is measured along a 3D chord: both endpoints are
  placed on the unit sphere, the point is projected onto the chord, and the
  projection parameter is clamped to [0, 1].
- **how far is the point from the nearest vertex?**
  `boundary_vertice_to_coordinate_distance` takes the minimum of the
  Haversine distances to the vertices.

Modules:

- `Geometry` (geometry.dfy): coordinates, the constants, the math library
  as a parameter, and the degree/radian conversions.
- `Containment` (containment.dfy): the even-odd rule as a specification
  over the vertex list. This is the edge walk, the straddle test, the
  crossing longitude and the crossing count, with its properties.
- `Distances` (distances.dfy): the two Haversine formulas, the vector
  algebra of the chord projection, the point-to-segment distance, and the
  running minimum that both scans keep.
- `Fence` (fence.dfy): the current `GeoFence` as a class. Its `boundary`
  field is updated by `AddPoint`. Its loops are proved against the
  specification functions of `Containment` and `Distances`.
- `Legacy` (legacy.dfy): the `GeoFence` of `main.cpp` as a class over
  `points`, its own test driver, and a method showing that both versions
  of `is_inside` agree.
- `Simova` (simova.dfy): the four-point fixture that both
  `test_geofence_4points` drivers use, and the current version's driver.

### How the source is represented

- **Reals.** Coordinates are reals.
- **Constants.** `Pi` is the exact value of the double that both
  `IMPL_M_PI` literals round to. `DoubleMax` is the exact value of
  `std::numeric_limits<double>::max()`. The earth radius is 6371 km.
- **Math library.** `sin`, `cos`, `sqrt` and `atan2` are fields of a
  `MathLib` value passed in by the caller. Where a property needs facts
  about `sqrt`, the lemma assumes `SqrtLaws`: sqrt(0) = 0, sqrt is
  non-negative, and sqrt is monotone on non-negative arguments.
- **NaN.** A zero-length chord makes the source's projection parameter
  0/0, which is NaN. The model gives `None` for it. The running minimum
  passes a `None` over, just as the source's `distance < min_distance`
  passes a NaN over.

### Degenerate inputs

- **One vertex.** The only edge joins the vertex to itself. Its segment
  distance is 0/0, NaN in the source and `None` here, and it never
  replaces the start value. So `distance_to_boundary` returns
  `numeric_limits<double>::max()`. `Fence.GeoFence.DistanceToBoundary`
  states this: the result is the largest double, or one of the defined
  edge distances.
- **Consecutive vertices of equal latitude.** The interpolation in
  `is_inside` divides by the latitude difference of the edge's endpoints.
  Such an edge never reaches the division: the straddle guard needs one
  endpoint strictly below the query latitude and the other at or above
  it. `Containment.Straddles` proves the divisor is non-zero whenever the
  guard holds.

## Model

| member | source | states |
|---|---|---|
| Geometry.DegreesToRadians | geofence.h:67 | no ensures: the body is the source expression degrees * IMPL_M_PI / 180 (also main.cpp:55); its partner is RadiansDegreesRoundTrip |
| Geometry.RadiansToDegrees | geofence.h:169 | no ensures: the body is the source expression radians * 180 / IMPL_M_PI; its partner is RadiansDegreesRoundTrip |
| Geometry.RadiansDegreesRoundTrip | geofence.h:169 | radians_to_degrees inverts degrees_to_radians (line 67), and the other way round |
| Containment.Prev | geofence.h:190-208 | the trailing index j, which starts at n - 1 and then trails i, stays below n |
| Containment.Next | geofence.h:107 | the next vertex index, with wrap-around, stays below n |
| Containment.NextIsModulo | geofence.h:107 | the next index is (i + 1) mod n, as distance_to_boundary computes it |
| Containment.PrevNextInverse | geofence.h:107 | the previous and next index undo each other |
| Containment.EdgeWalksAgree | geofence.h:107 | the edge distance_to_boundary visits at i, from vertex i to vertex (i + 1) mod n, is the edge is_inside visits at (i + 1) mod n, reversed (lines 195-208), so both walks visit the same edges |
| Containment.Edges | geofence.h:195-209 | the loop visits exactly n edges, edge i joining vertex i to the vertex before it, starting with the closing edge |
| Containment.Straddles | geofence.h:197-198 | the guard holds iff exactly one endpoint is strictly below the query latitude, and then the interpolation divisor is non-zero |
| Containment.CrossingLongitude | geofence.h:200-202 | no ensures: the body is the source's interpolation of the longitude at the query latitude; CrossingLongitudeBetween bounds it |
| Containment.Crosses | geofence.h:197-206 | no ensures: an edge counts when it straddles the query latitude and its crossing longitude is strictly less than the point's, the two tests that toggle inside |
| Containment.Inside | geofence.h:195-214 | no ensures: the even-odd rule, an odd crossing count; both IsInside methods are proved equal to it |
| Containment.CrossingLongitudeFormula | geofence.h:200-202 | the model's crossing longitude is the interpolation expression of the source |
| Containment.CrossingLongitudeBetween | geofence.h:200-203 | the interpolated crossing longitude lies between the two endpoint longitudes |
| Containment.CrossingCount | geofence.h:195-209 | at most one crossing per edge |
| Containment.CrossingCountStep | geofence.h:200-206 | one more loop step adds one to the count exactly when that edge crosses, which is when inside toggles |
| Containment.CrossingCountAppend | geofence.h:195-209 | the crossing count of two edge lists together is the sum of their counts |
| Containment.NoCrossingNoCount | geofence.h:195-209 | with no crossing edge the count is zero |
| Containment.EmptyBoundaryOutside | geofence.h:189-214 | an empty boundary contains no point |
| Containment.SouthOfAllVerticesOutside | geofence.h:197-198 | a point at or below every vertex latitude is outside |
| Containment.NorthOfAllVerticesOutside | geofence.h:197-198 | a point strictly above every vertex latitude is outside |
| Containment.WestOfAllVerticesOutside | geofence.h:200-205 | a point at or west of every vertex longitude is outside |
| Containment.EdgesOfRotation | geofence.h:189-209 | starting the vertex list at vertex k rotates the edge list by k |
| Containment.RotationInvariant | geofence.h:48-49 | rotating the vertex list cyclically does not change whether a point is inside |
| Distances.HaversineDistance | geofence.h:72-83 | no ensures: the body is the source's Haversine formula in kilometres |
| Distances.DistanceBetweenCoordinates | geofence.h:226-249 | no ensures: the body is the source's Haversine formula in metres; DistanceBetweenIsHaversineInMeters relates it to HaversineDistance |
| Distances.DistanceBetweenIsHaversineInMeters | geofence.h:226-249 | distance_between_coordinates is exactly 1000 times haversineDistance (lines 72-83) for any trigonometric functions, whatever the debug flag |
| Distances.Clamp | geofence.h:151-152 | the clamped parameter lies in [0, 1] and is unchanged when already there |
| Distances.ChordLengthPositive | geofence.h:147-148 | the projection divisor is zero exactly when the two endpoints coincide |
| Distances.NearestOnChord | geofence.h:146-157 | the nearest point is defined exactly when the chord has length |
| Distances.NearestOnChordIsNearest | geofence.h:146-157 | the point found lies on the chord AB, and no point of the chord is closer to P |
| Distances.ClampedProjectionIsNearest | geofence.h:147-157 | clamping the projection parameter gives the point of the chord nearest to P |
| Distances.ClampedProjectionBeats | geofence.h:147-157 | the clamped projection is at least as close to P as the chord point at any parameter s in [0, 1] |
| Distances.DistanceAlongChord | geofence.h:155-160 | the squared distance from P to the line point at parameter u is a quadratic in u |
| Distances.QuadraticMinimumOnUnit | geofence.h:147-152 | that quadratic is minimised over [0, 1] at the clamped vertex of the parabola |
| Distances.UnitVector | geofence.h:126-144 | no ensures: the body is the source's spherical-to-Cartesian conversion of a coordinate |
| Distances.SegmentDistance | geofence.h:123-167 | no ensures: the body measures from P to NearestOnChord in metres; SegmentDistanceDefined, SegmentDistanceWithinChords and SegmentDistanceZeroAtEndpoints state its properties |
| Distances.SegmentDistanceDefined | geofence.h:123-167 | the segment distance is defined (not NaN) exactly when A and B map to different points of the sphere |
| Distances.SegmentDistanceWithinChords | geofence.h:146-164 | the segment distance is non-negative and at most the chord distance from P to A and from P to B |
| Distances.NearestOnChordAtEndpoint | geofence.h:146-157 | the chord point nearest to an endpoint is at squared distance zero from it |
| Distances.SegmentDistanceZeroAtEndpoints | geofence.h:123-167 | the segment distance from A or from B to the segment AB is zero |
| Distances.ChordDistanceToSelf | geofence.h:160-164 | the chord distance from a coordinate to itself is zero |
| Distances.MetresMonotone | geofence.h:160-164 | the conversion of a squared chord to metres is non-negative, monotone, and zero for a zero chord |
| Distances.RunningMin | geofence.h:87-95 | the running minimum never exceeds its start value |
| Distances.RunningMinStep | geofence.h:112-115 | one scan step replaces the minimum exactly when the new value is defined and strictly smaller |
| Distances.RunningMinAtMost | geofence.h:101-116 | the running minimum is at most every defined value of the scan |
| Distances.RunningMinAttained | geofence.h:101-116 | the running minimum is the start value or one of the defined values |
| Distances.RunningMinAtLeast | geofence.h:101-116 | a common lower bound of the start value and of every defined value bounds the minimum |
| Fence.EdgeDistances | geofence.h:104-110 | one segment distance per vertex, for the edge from vertex i to vertex (i + 1) mod n |
| Fence.VertexDistances | geofence.h:88-90 | one Haversine distance per vertex |
| Fence.GeoFence.constructor | geofence.h:70 | a new fence has no vertices |
| Fence.GeoFence.AddPoint | geofence.h:177 | appends exactly the coordinate (lat, lon) at the end and leaves the earlier vertices unchanged |
| Fence.GeoFence.IsInside | geofence.h:187-215 | the result is the even-odd rule over the boundary, and false for an empty boundary; the boundary is not modified and the debug flag does not enter the result |
| Fence.GeoFence.CalculateDistanceToSegment | geofence.h:123-167 | the step-by-step computation with the in-place clamp gives the segment distance, and None exactly where the source computes 0/0 |
| Fence.GeoFence.DistanceToBoundary | geofence.h:99-121 | the result is at most every defined edge distance and at most the largest double; it is the largest double or one of the edge distances; an empty boundary gives the largest double |
| Fence.GeoFence.BoundaryVertexToCoordinateDistance | geofence.h:85-97 | the result is at most 1000 times the Haversine distance to every vertex, and is 1000 times the largest double or 1000 times one of those distances |
| Fence.VertexScanBounds | geofence.h:85-97 | the bounds of the vertex scan, stated on the specification function |
| Fence.DistanceToBoundaryNonNegative | geofence.h:99-121 | the distance to the boundary is never negative |
| Fence.BoundaryWithinChordOfVertex | geofence.h:99-121 | the distance to the boundary is at most the chord distance to any vertex whose outgoing edge has length |
| Fence.DistanceZeroOnVertex | geofence.h:99-121 | a vertex whose outgoing edge has length is at distance zero from the boundary |
| Legacy.GeoFence.constructor | main.cpp:48 | a new fence has no points |
| Legacy.GeoFence.AddPoint | main.cpp:64 | appends exactly Point(lat, lon) at the end and leaves the earlier points unchanged |
| Legacy.GeoFence.IsInside | main.cpp:74-101 | the result is the even-odd rule over the points, and false for no points |
| Legacy.IsInsideAgrees | main.cpp:74-101 | the older and the current is_inside give the same result on the same vertex list, whatever their debug flags |
| Legacy.GeoFence.CalculateDistance | main.cpp:111-135 | no ensures: the body is the source's Haversine formula in metres; CalculateDistanceIsCurrent relates it to the current version |
| Legacy.CalculateDistanceIsCurrent | main.cpp:111-135 | calculate_distance equals distance_between_coordinates of geofence.h, and so 1000 times the Haversine distance |
| Legacy.TestGeofence4Points | main.cpp:143-179 | the four-point test of the older fence passes |
| Simova.CrossingCountOfFour | main.cpp:82-95 | the crossing count over four edges is the number of those edges that cross |
| Simova.FourPointFixture | main.cpp:150-172 | of the four test points, the first two are inside the Simova polygon and the last two outside |
| Simova.TestCurrentGeofence4Points | class_testing.h:23-59 | the same four-point test passes against the current fence |

## Left out

- Trigonometric values: `sin`, `cos`, `sqrt` and `atan2` are parameters. Their numerical values are floating-point library code.
- Platform choice of `IMPL_M_PI`: geofence.h:8-18 picks it per platform. Both literals round to the same double, and the model uses that value.
- Rounding: float storage of coordinates (geofence.h:23-24, main.cpp:10-11) and double rounding in every formula are not modelled; arithmetic is exact. So the fixture lemmas use the decimal literals, not their float roundings.
- Haversine symmetry, a zero distance from a point to itself, and "chord at most arc" are not stated. They need facts about the trigonometric functions that the model does not assume.
- Fence.GeoFence.BoundaryVertexToCoordinateDistance: for an empty boundary the source multiplies the largest double by 1000, which overflows to infinity. The model gives 1000 times the largest double.
- Fence.GeoFence.DistanceToBoundary: a NaN edge distance is modelled as None. The model does not capture NaN propagating through arithmetic beyond the comparison that skips it.
- Fence.GeoFence.DistanceToBoundary: with at least one edge of positive length, the result is never proved to differ from the largest double. That would need an upper bound on `sqrt`.
- Fence.GeoFence.IsInside: the static `counter_of_calls` (geofence.h:192-193) is instrumentation and is left out.
- Legacy.GeoFence.IsInside: the static `counter_of_calls` (main.cpp:79-80) is left out for the same reason.
- Debug output: every `printf` guarded by `debug` is left out. This covers geofence.h:118, 211-212 and 247, and main.cpp:97-98 and 132-133. The debug flag is kept as a parameter that the results provably ignore.
- Containment is proved to be the even-odd rule over the given vertex list. It is not proved to match geometric insideness of a simple polygon on the sphere: the source itself treats latitude and longitude as a plane.
- The 99-point and 452-point fixtures and their drivers are not modelled: they are too large to unfold in a proof. They are `test_geofence_99points` in main.cpp and the larger tests of class_testing.h.
- The distance tests are not modelled: `test_calculate_distance` (main.cpp:312-335) and `test_fence_distance` (class_testing.h:61-98). They compare computed distances with reference values in metres, which needs the trigonometric values.
- `main` of main.cpp only runs the tests and prints. It is not modelled.
- The Python tools parse KML files and print C++ text. They are not part of this model.
- The Haversine term is written once, shared by both formulas. The source multiplies its factors in different orders (geofence.h:80 and 237), which gives the same real.
