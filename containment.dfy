/** The even-odd ray-casting rule behind GeoFence::is_inside
    (geofence.h:187-215, main.cpp:74-101), stated over the vertex list.
    Latitude plays y and longitude plays x; the ray runs from the query
    point towards decreasing longitude. */
module Containment {
  import opened Geometry

  /** The edge the loop visits at index i: vertex i and the vertex j before
      it, where j starts at the last vertex (the closing edge). */
  datatype Edge = Edge(vi: Coordinate, vj: Coordinate)

  /** Index of the vertex before i, wrapping from 0 to n - 1. */
  function Prev(n: nat, i: nat): (j: nat)
    requires i < n
    ensures j < n
  {
    if i == 0 then n - 1 else i - 1
  }

  /** Index of the vertex after i, wrapping from n - 1 to 0. */
  function Next(n: nat, i: nat): (j: nat)
    requires i < n
    ensures j < n
  {
    if i + 1 == n then 0 else i + 1
  }

  /** Next is the successor modulo n, as distance_to_boundary computes it. */
  lemma NextIsModulo(n: nat, i: nat)
    requires i < n
    ensures Next(n, i) == (i + 1) % n
  {
    if i + 1 == n {
      assert (i + 1) % n == 0;
    } else {
      assert (i + 1) % n == i + 1;
    }
  }

  /** Prev and Next undo each other. */
  lemma PrevNextInverse(n: nat, i: nat)
    requires i < n
    ensures Prev(n, Next(n, i)) == i
    ensures Next(n, Prev(n, i)) == i
  {
  }

  /** The edge distance_to_boundary visits at i, from vertex i to vertex
      (i + 1) mod n, is the edge is_inside visits at Next(n, i), reversed:
      both walks visit the same edges. */
  lemma EdgeWalksAgree(poly: seq<Coordinate>, i: nat)
    requires i < |poly|
    ensures Edges(poly)[Next(|poly|, i)] == Edge(poly[Next(|poly|, i)], poly[i])
  {
    PrevNextInverse(|poly|, i);
  }

  /** The edges in the order the loop visits them. */
  function Edges(poly: seq<Coordinate>): (es: seq<Edge>)
    ensures |es| == |poly|
  {
    seq(|poly|, i requires 0 <= i < |poly| => Edge(poly[i], poly[Prev(|poly|, i)]))
  }

  /** The straddle guard: one endpoint strictly below the query latitude and
      the other at or above it.  It is the half-open test "exactly one
      endpoint is below", and it makes the interpolation divisor non-zero. */
  predicate Straddles(vi: Coordinate, vj: Coordinate, p: Coordinate): (r: bool)
    ensures r <==> ((vi.latitude < p.latitude) != (vj.latitude < p.latitude))
    ensures r ==> vj.latitude - vi.latitude != 0.0
  {
    (vi.latitude < p.latitude && vj.latitude >= p.latitude) ||
    (vj.latitude < p.latitude && vi.latitude >= p.latitude)
  }

  function Min(a: real, b: real): real { if a <= b then a else b }
  function Max(a: real, b: real): real { if a <= b then b else a }

  /** The point a fraction r of the way from a to b. */
  function Interpolate(a: real, b: real, r: real): real
  {
    a + r * (b - a)
  }

  /** Longitude of the edge at the query latitude, by linear interpolation. */
  function CrossingLongitude(vi: Coordinate, vj: Coordinate, p: Coordinate): real
    requires Straddles(vi, vj, p)
  {
    Interpolate(vi.longitude, vj.longitude, (p.latitude - vi.latitude) / (vj.latitude - vi.latitude))
  }

  /** The crossing longitude lies between the longitudes of the two
      endpoints. */
  lemma CrossingLongitudeBetween(vi: Coordinate, vj: Coordinate, p: Coordinate)
    requires Straddles(vi, vj, p)
    ensures Min(vi.longitude, vj.longitude) <= CrossingLongitude(vi, vj, p) <= Max(vi.longitude, vj.longitude)
  {
    var num, den := p.latitude - vi.latitude, vj.latitude - vi.latitude;
    assert (0.0 < num <= den) || (den < num <= 0.0);
    RatioInUnit(num, den);
    InterpolationBetween(vi.longitude, vj.longitude, num / den);
  }

  /** CrossingLongitude written as the loop computes it. */
  lemma CrossingLongitudeFormula(vi: Coordinate, vj: Coordinate, p: Coordinate)
    requires Straddles(vi, vj, p)
    ensures CrossingLongitude(vi, vj, p)
            == vi.longitude + (p.latitude - vi.latitude) / (vj.latitude - vi.latitude) * (vj.longitude - vi.longitude)
  {
  }

  lemma RatioInUnit(num: real, den: real)
    requires (0.0 < num <= den) || (den < num <= 0.0)
    ensures 0.0 <= num / den <= 1.0
  {
    if den > 0.0 {
      assert num / den * den == num;
    } else {
      assert (-num) / (-den) == num / den;
      assert (-num) / (-den) * (-den) == -num;
    }
  }

  lemma InterpolationBetween(a: real, b: real, r: real)
    requires 0.0 <= r <= 1.0
    ensures Min(a, b) <= Interpolate(a, b, r) <= Max(a, b)
  {
    var d := if a <= b then b - a else a - b;
    ProductOfNonNegatives(r, d);
    ProductOfNonNegatives(1.0 - r, d);
    assert r * d + (1.0 - r) * d == d;
    if a <= b {
      assert r * (b - a) == r * d;
    } else {
      assert r * (b - a) == -(r * d);
    }
  }

  /** An edge counts when it straddles the query latitude and crosses it
      strictly west of the query point. */
  predicate Crosses(e: Edge, p: Coordinate)
  {
    Straddles(e.vi, e.vj, p) && CrossingLongitude(e.vi, e.vj, p) < p.longitude
  }

  /** Number of crossing edges among es. */
  function CrossingCount(es: seq<Edge>, p: Coordinate): (c: nat)
    ensures c <= |es|
  {
    if es == [] then 0
    else CrossingCount(es[..|es| - 1], p) + (if Crosses(es[|es| - 1], p) then 1 else 0)
  }

  /** The even-odd rule: inside exactly when an odd number of edges cross. */
  predicate Inside(poly: seq<Coordinate>, p: Coordinate)
  {
    CrossingCount(Edges(poly), p) % 2 == 1
  }

  lemma {:induction false} CrossingCountAppend(a: seq<Edge>, b: seq<Edge>, p: Coordinate)
    ensures CrossingCount(a + b, p) == CrossingCount(a, p) + CrossingCount(b, p)
  {
    if b == [] {
      assert a + b == a;
    } else {
      var b' := b[..|b| - 1];
      assert (a + b)[..|a + b| - 1] == a + b';
      CrossingCountAppend(a, b', p);
    }
  }

  /** Extending a prefix of the edges by one edge adds one to the count
      exactly when that edge crosses. */
  lemma CrossingCountStep(es: seq<Edge>, i: nat, p: Coordinate)
    requires i < |es|
    ensures CrossingCount(es[..i + 1], p) == CrossingCount(es[..i], p) + (if Crosses(es[i], p) then 1 else 0)
  {
    assert es[..i + 1][..i] == es[..i];
  }

  /** With no crossing edge, the count is zero. */
  lemma {:induction false} NoCrossingNoCount(es: seq<Edge>, p: Coordinate)
    requires forall k :: 0 <= k < |es| ==> !Crosses(es[k], p)
    ensures CrossingCount(es, p) == 0
  {
    if es != [] {
      NoCrossingNoCount(es[..|es| - 1], p);
    }
  }

  /** An empty boundary contains nothing. */
  lemma EmptyBoundaryOutside(p: Coordinate)
    ensures !Inside([], p)
  {
    NoCrossingNoCount(Edges([]), p);
  }

  /** A point at or below the latitude of every vertex is outside: no edge
      straddles it. */
  lemma SouthOfAllVerticesOutside(poly: seq<Coordinate>, p: Coordinate)
    requires forall k :: 0 <= k < |poly| ==> p.latitude <= poly[k].latitude
    ensures !Inside(poly, p)
  {
    var es := Edges(poly);
    forall k | 0 <= k < |es| ensures !Crosses(es[k], p) {
      assert es[k].vi == poly[k] && es[k].vj == poly[Prev(|poly|, k)];
    }
    NoCrossingNoCount(es, p);
  }

  /** A point strictly above the latitude of every vertex is outside. */
  lemma NorthOfAllVerticesOutside(poly: seq<Coordinate>, p: Coordinate)
    requires forall k :: 0 <= k < |poly| ==> poly[k].latitude < p.latitude
    ensures !Inside(poly, p)
  {
    var es := Edges(poly);
    forall k | 0 <= k < |es| ensures !Crosses(es[k], p) {
      assert es[k].vi == poly[k] && es[k].vj == poly[Prev(|poly|, k)];
    }
    NoCrossingNoCount(es, p);
  }

  /** A point at or west of the longitude of every vertex is outside: every
      crossing longitude lies between two vertex longitudes, so none is
      strictly west of the point. */
  lemma WestOfAllVerticesOutside(poly: seq<Coordinate>, p: Coordinate)
    requires forall k :: 0 <= k < |poly| ==> p.longitude <= poly[k].longitude
    ensures !Inside(poly, p)
  {
    var es := Edges(poly);
    forall k | 0 <= k < |es| ensures !Crosses(es[k], p) {
      assert es[k].vi == poly[k] && es[k].vj == poly[Prev(|poly|, k)];
      if Straddles(es[k].vi, es[k].vj, p) {
        CrossingLongitudeBetween(es[k].vi, es[k].vj, p);
      }
    }
    NoCrossingNoCount(es, p);
  }

  /** Starting the vertex list at another index gives the same edges in
      rotated order. */
  lemma EdgesOfRotation(poly: seq<Coordinate>, k: nat)
    requires k <= |poly|
    ensures Edges(poly[k..] + poly[..k]) == Edges(poly)[k..] + Edges(poly)[..k]
  {
    var n := |poly|;
    var rot := poly[k..] + poly[..k];
    var lhs := Edges(rot);
    var rhs := Edges(poly)[k..] + Edges(poly)[..k];
    assert |lhs| == |rhs| == n;
    forall i | 0 <= i < n ensures lhs[i] == rhs[i] {
      var src := if i + k < n then i + k else i + k - n;
      assert rot[i] == poly[src];
      assert rhs[i] == Edges(poly)[src];
      var pi := Prev(n, i);
      var psrc := Prev(n, src);
      assert rot[pi] == poly[psrc];
    }
  }

  /** Rotating the vertex list cyclically leaves the result unchanged: only
      the set of edges matters. */
  lemma RotationInvariant(poly: seq<Coordinate>, k: nat, p: Coordinate)
    requires k <= |poly|
    ensures Inside(poly[k..] + poly[..k], p) == Inside(poly, p)
  {
    var es := Edges(poly);
    EdgesOfRotation(poly, k);
    CrossingCountAppend(es[k..], es[..k], p);
    CrossingCountAppend(es[..k], es[k..], p);
    assert es[..k] + es[k..] == es;
  }
}
