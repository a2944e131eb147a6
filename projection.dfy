/** The equirectangular projection of the trail renderer: a linear map from
    (latitude, longitude) in degrees to screen coordinates, with the latitude
    range clamped to the Mercator bounds.  The viewport size, read from the
    browser window in the running program, is a parameter here. */
module Projection {

  /** Mercator projection bounds. */
  const MinLat: real := -85.05112878
  const MaxLat: real := 85.05112878
  const MinLon: real := -180.0
  const MaxLon: real := 180.0

  /** A screen point, in pixels; y grows downwards. */
  datatype Point = Point(x: real, y: real)

  predicate ValidLatLon(lat: real, lon: real) {
    MinLat <= lat <= MaxLat && MinLon <= lon <= MaxLon
  }

  /** Fraction of the way from lo to hi; 0 at lo and 1 at hi. */
  function Fraction(v: real, lo: real, hi: real): real
    requires lo < hi
  {
    (v - lo) / (hi - lo)
  }

  lemma FractionInUnit(v: real, lo: real, hi: real)
    requires lo < hi && lo <= v <= hi
    ensures 0.0 <= Fraction(v, lo, hi) <= 1.0
  {
    FractionMonotone(lo, v, lo, hi);
    FractionMonotone(v, hi, lo, hi);
    assert Fraction(lo, lo, hi) == 0.0;
    DivSelf(hi - lo);
  }

  lemma DivSelf(d: real)
    requires d > 0.0
    ensures d / d == 1.0
  {
  }

  lemma ScaleInRange(f: real, w: real)
    requires 0.0 <= f <= 1.0 && w > 0.0
    ensures 0.0 <= f * w <= w
  {
    assert f * w <= 1.0 * w;
  }

  /** Projects (lat, lon) into a viewport of the given size.  Inputs outside
      the bounds land outside the viewport; they are not an error. */
  function LatLonToXY(lat: real, lon: real, width: real, height: real): Point {
    Point(Fraction(lon, MinLon, MaxLon) * width, (1.0 - Fraction(lat, MinLat, MaxLat)) * height)
  }

  /** Every point inside the bounds lands inside the viewport. */
  lemma ProjectionInViewport(lat: real, lon: real, width: real, height: real)
    requires width > 0.0 && height > 0.0 && ValidLatLon(lat, lon)
    ensures 0.0 <= LatLonToXY(lat, lon, width, height).x <= width
    ensures 0.0 <= LatLonToXY(lat, lon, width, height).y <= height
  {
    FractionInUnit(lon, MinLon, MaxLon);
    FractionInUnit(lat, MinLat, MaxLat);
    ScaleInRange(Fraction(lon, MinLon, MaxLon), width);
    ScaleInRange(1.0 - Fraction(lat, MinLat, MaxLat), height);
  }

  /** The four edges of the bounds land on the four edges of the viewport. */
  lemma ProjectionEdges(lat: real, lon: real, width: real, height: real)
    ensures LatLonToXY(lat, MinLon, width, height).x == 0.0
    ensures LatLonToXY(lat, MaxLon, width, height).x == width
    ensures LatLonToXY(MaxLat, lon, width, height).y == 0.0
    ensures LatLonToXY(MinLat, lon, width, height).y == height
  {
  }

  /** The bounds are symmetric, so the origin maps to the viewport centre. */
  lemma ProjectionCentre(width: real, height: real)
    ensures LatLonToXY(0.0, 0.0, width, height) == Point(width / 2.0, height / 2.0)
  {
  }

  /** Fraction grows with v, strictly when v grows strictly. */
  lemma FractionMonotone(v1: real, v2: real, lo: real, hi: real)
    requires lo < hi && v1 <= v2
    ensures Fraction(v1, lo, hi) <= Fraction(v2, lo, hi)
    ensures v1 < v2 ==> Fraction(v1, lo, hi) < Fraction(v2, lo, hi)
  {
    var d := hi - lo;
    assert Fraction(v2, lo, hi) - Fraction(v1, lo, hi) == (v2 - v1) / d;
    DivSign(v2 - v1, d);
  }

  lemma DivSign(n: real, d: real)
    requires n >= 0.0 && d > 0.0
    ensures n / d >= 0.0
    ensures n > 0.0 ==> n / d > 0.0
  {
    assert n / d * d == n;
  }

  /** Scaling by a positive factor keeps the order of a and b. */
  lemma ScaleMonotone(a: real, b: real, w: real)
    requires a <= b && w > 0.0
    ensures a * w <= b * w
    ensures a < b ==> a * w < b * w
  {
    assert b * w - a * w == (b - a) * w;
  }

  /** x grows with longitude and y shrinks as latitude grows (north is up). */
  lemma ProjectionMonotone(lat1: real, lon1: real, lat2: real, lon2: real, width: real, height: real)
    requires width > 0.0 && height > 0.0
    requires lat1 <= lat2 && lon1 <= lon2
    ensures LatLonToXY(lat1, lon1, width, height).x <= LatLonToXY(lat2, lon2, width, height).x
    ensures LatLonToXY(lat1, lon1, width, height).y >= LatLonToXY(lat2, lon2, width, height).y
    ensures lon1 < lon2 ==> LatLonToXY(lat1, lon1, width, height).x < LatLonToXY(lat2, lon2, width, height).x
    ensures lat1 < lat2 ==> LatLonToXY(lat1, lon1, width, height).y > LatLonToXY(lat2, lon2, width, height).y
  {
    var f1, f2 := Fraction(lon1, MinLon, MaxLon), Fraction(lon2, MinLon, MaxLon);
    var g1, g2 := Fraction(lat1, MinLat, MaxLat), Fraction(lat2, MinLat, MaxLat);
    FractionMonotone(lon1, lon2, MinLon, MaxLon);
    FractionMonotone(lat1, lat2, MinLat, MaxLat);
    ScaleMonotone(f1, f2, width);
    ScaleMonotone(1.0 - g2, 1.0 - g1, height);
  }
}
