/** Pixel-to-geographic conversion of one tile: a flat-earth approximation
    around the tile centre.  A pixel offset from the centre is scaled by the
    ground sampling distance (metres per pixel) and by the degrees-per-metre
    factor at the equator; the longitude offset is further divided by the
    cosine of the centre latitude.  Image rows grow southward, so the
    latitude offset is negated.

    Arithmetic is over mathematical reals.  The cosine of the centre latitude
    is a parameter, `cosLat`; the map needs it non-zero (it divides by it). */
module CoordinateMapper {

  /** A pixel position, in pixel units (column x, row y). */
  datatype Point = Point(x: real, y: real)

  /** A geographic position in degrees, in the order the mapper returns it. */
  datatype LatLon = LatLon(lat: real, lon: real)

  /** Ground sampling distance: approximate metres per pixel at zoom level 20. */
  const MetersPerPixel: real := 0.145

  /** Degrees of arc per metre at the equator. */
  const DegPerMeter: real := 1.0 / 111320.0

  /** Degrees per pixel along a meridian; the one scale factor of the map. */
  const DegPerPixel: real := MetersPerPixel * DegPerMeter

  /** The tile centre in pixels: half the width and half the height, with
      true (not integer) division. */
  function Centre(w: nat, h: nat): (c: Point)
    ensures 2.0 * c.x == w as real && 2.0 * c.y == h as real
  {
    Point(w as real / 2.0, h as real / 2.0)
  }

  /** `pixel_to_latlon`: the geographic position of pixel (x, y) on a tile of
      w x h pixels whose centre lies at (latC, lonC).  A pixel below the
      centre row lies south of the centre and, when the cosine is positive,
      a pixel right of the centre column lies east of it. */
  function PixelToLatLon(x: real, y: real, latC: real, lonC: real, w: nat, h: nat, cosLat: real): (g: LatLon)
    requires cosLat != 0.0
    ensures g.lat < latC <==> y > Centre(w, h).y
    ensures cosLat > 0.0 ==> (g.lon > lonC <==> x > Centre(w, h).x)
  {
    var c := Centre(w, h);
    var dx := x - c.x;
    var dy := y - c.y;
    var deltaLat := -dy * MetersPerPixel * DegPerMeter;
    var deltaLon := dx * MetersPerPixel * DegPerMeter / cosLat;
    OffsetSigns(dx, dy, cosLat);
    LatLon(latC + deltaLat, lonC + deltaLon)
  }

  /** The exact inverse of the map: the pixel that lands on (lat, lon).  A
      position north of the centre lies above the centre row and, when the
      cosine is positive, a position east of it lies right of the centre
      column. */
  function LatLonToPixel(lat: real, lon: real, latC: real, lonC: real, w: nat, h: nat, cosLat: real): (p: Point)
    requires cosLat != 0.0
    ensures p.y < Centre(w, h).y <==> lat > latC
    ensures cosLat > 0.0 ==> (p.x > Centre(w, h).x <==> lon > lonC)
  {
    var c := Centre(w, h);
    InverseOffsetSigns(lat - latC, lon - lonC, cosLat);
    Point(c.x + (lon - lonC) * cosLat / DegPerPixel, c.y - (lat - latC) / DegPerPixel)
  }

  /** The signs of the latitude and longitude offsets of the forward map. */
  lemma {:induction false} OffsetSigns(dx: real, dy: real, cosLat: real)
    requires cosLat != 0.0
    ensures -dy * MetersPerPixel * DegPerMeter < 0.0 <==> dy > 0.0
    ensures cosLat > 0.0 ==> (dx * MetersPerPixel * DegPerMeter / cosLat > 0.0 <==> dx > 0.0)
  {
    DegPerPixelPositive();
    assert -dy * MetersPerPixel * DegPerMeter == -(dy * DegPerPixel);
    PositiveScalePreservesSign(dy, DegPerPixel);
    if cosLat > 0.0 {
      var s := DegPerPixel / cosLat;
      assert dx * MetersPerPixel * DegPerMeter / cosLat == dx * s;
      PositiveScalePreservesSign(dx, s);
    }
  }

  /** The signs of the pixel offsets of the inverse map. */
  lemma {:induction false} InverseOffsetSigns(dLat: real, dLon: real, cosLat: real)
    requires cosLat != 0.0
    ensures dLat / DegPerPixel > 0.0 <==> dLat > 0.0
    ensures cosLat > 0.0 ==> (dLon * cosLat / DegPerPixel > 0.0 <==> dLon > 0.0)
  {
    DegPerPixelPositive();
    var r := 1.0 / DegPerPixel;
    assert dLat / DegPerPixel == dLat * r;
    PositiveScalePreservesSign(dLat, r);
    if cosLat > 0.0 {
      var s := cosLat / DegPerPixel;
      assert dLon * cosLat / DegPerPixel == dLon * s;
      PositiveScalePreservesSign(dLon, s);
    }
  }

  /** Dividing by a non-zero factor and multiplying back is the identity,
      and the other way round. */
  lemma {:induction false} ScaleCancels(a: real, k: real)
    requires k != 0.0
    ensures a * k / k == a && a / k * k == a
  {
  }

  /** Scaling by a positive factor keeps the sign. */
  lemma {:induction false} PositiveScalePreservesSign(a: real, s: real)
    requires s > 0.0
    ensures a > 0.0 <==> a * s > 0.0
  {
    if a > 0.0 {
      assert a * s > 0.0 * s;
    } else {
      assert a * s <= 0.0 * s;
    }
  }

  lemma {:induction false} DegPerPixelPositive()
    ensures DegPerPixel > 0.0
  {
  }

  /** The tile centre pixel maps exactly onto the tile's geographic centre. */
  lemma {:induction false} CentreIsFixedPoint(latC: real, lonC: real, w: nat, h: nat, cosLat: real)
    requires cosLat != 0.0
    ensures PixelToLatLon(Centre(w, h).x, Centre(w, h).y, latC, lonC, w, h, cosLat) == LatLon(latC, lonC)
  {
  }

  /** Latitude depends on the row only, longitude on the column only. */
  lemma {:induction false} AxesAreSeparable(x1: real, y1: real, x2: real, y2: real,
                                            latC: real, lonC: real, w: nat, h: nat, cosLat: real)
    requires cosLat != 0.0
    ensures y1 == y2 ==> PixelToLatLon(x1, y1, latC, lonC, w, h, cosLat).lat == PixelToLatLon(x2, y2, latC, lonC, w, h, cosLat).lat
    ensures x1 == x2 ==> PixelToLatLon(x1, y1, latC, lonC, w, h, cosLat).lon == PixelToLatLon(x2, y2, latC, lonC, w, h, cosLat).lon
  {
  }

  /** Moving down the image (larger row) moves strictly south, and only then. */
  lemma {:induction false} LatitudeDecreasesWithRow(x1: real, y1: real, x2: real, y2: real,
                                                    latC: real, lonC: real, w: nat, h: nat, cosLat: real)
    requires cosLat != 0.0
    ensures y1 < y2 <==> PixelToLatLon(x1, y1, latC, lonC, w, h, cosLat).lat > PixelToLatLon(x2, y2, latC, lonC, w, h, cosLat).lat
  {
    DegPerPixelPositive();
    var l1 := PixelToLatLon(x1, y1, latC, lonC, w, h, cosLat).lat;
    var l2 := PixelToLatLon(x2, y2, latC, lonC, w, h, cosLat).lat;
    assert l1 - l2 == (y2 - y1) * DegPerPixel;
  }

  /** With a positive cosine (centre latitude strictly between the poles),
      moving right in the image moves strictly east, and only then. */
  lemma {:induction false} LongitudeIncreasesWithColumn(x1: real, y1: real, x2: real, y2: real,
                                                        latC: real, lonC: real, w: nat, h: nat, cosLat: real)
    requires cosLat > 0.0
    ensures x1 < x2 <==> PixelToLatLon(x1, y1, latC, lonC, w, h, cosLat).lon < PixelToLatLon(x2, y2, latC, lonC, w, h, cosLat).lon
  {
    DegPerPixelPositive();
    var s := DegPerPixel / cosLat;
    assert s > 0.0;
    var l1 := PixelToLatLon(x1, y1, latC, lonC, w, h, cosLat).lon;
    var l2 := PixelToLatLon(x2, y2, latC, lonC, w, h, cosLat).lon;
    assert l1 == lonC + (x1 - w as real / 2.0) * s;
    assert l2 == lonC + (x2 - w as real / 2.0) * s;
    assert l2 - l1 == (x2 - x1) * s;
    PositiveScalePreservesSign(x2 - x1, s);
  }

  /** Pixel -> geographic -> pixel is the identity. */
  lemma {:induction false} PixelRoundTrip(x: real, y: real, latC: real, lonC: real, w: nat, h: nat, cosLat: real)
    requires cosLat != 0.0
    ensures var g := PixelToLatLon(x, y, latC, lonC, w, h, cosLat);
            LatLonToPixel(g.lat, g.lon, latC, lonC, w, h, cosLat) == Point(x, y)
  {
    DegPerPixelPositive();
    var g := PixelToLatLon(x, y, latC, lonC, w, h, cosLat);
    var dx := x - w as real / 2.0;
    var dy := y - h as real / 2.0;
    assert g.lat - latC == -dy * DegPerPixel;
    assert g.lon - lonC == dx * DegPerPixel / cosLat;
    ScaleCancels(dx * DegPerPixel, cosLat);
    ScaleCancels(dx, DegPerPixel);
    ScaleCancels(-dy, DegPerPixel);
  }

  /** Geographic -> pixel -> geographic is the identity. */
  lemma {:induction false} LatLonRoundTrip(lat: real, lon: real, latC: real, lonC: real, w: nat, h: nat, cosLat: real)
    requires cosLat != 0.0
    ensures var p := LatLonToPixel(lat, lon, latC, lonC, w, h, cosLat);
            PixelToLatLon(p.x, p.y, latC, lonC, w, h, cosLat) == LatLon(lat, lon)
  {
    DegPerPixelPositive();
    var p := LatLonToPixel(lat, lon, latC, lonC, w, h, cosLat);
    var e := (lon - lonC) * cosLat;
    assert p.x - w as real / 2.0 == e / DegPerPixel;
    assert p.y - h as real / 2.0 == -((lat - latC) / DegPerPixel);
    ScaleCancels(e, DegPerPixel);
    ScaleCancels(lon - lonC, cosLat);
    ScaleCancels(lat - latC, DegPerPixel);
  }

  /** The map is affine: the midpoint of two pixels lands on the midpoint of
      their images, so a shape centred on the tile centre stays centred on the
      tile's geographic centre. */
  lemma {:induction false} MidpointPreserved(x1: real, y1: real, x2: real, y2: real,
                                             latC: real, lonC: real, w: nat, h: nat, cosLat: real)
    requires cosLat != 0.0
    ensures var g1 := PixelToLatLon(x1, y1, latC, lonC, w, h, cosLat);
            var g2 := PixelToLatLon(x2, y2, latC, lonC, w, h, cosLat);
            PixelToLatLon((x1 + x2) / 2.0, (y1 + y2) / 2.0, latC, lonC, w, h, cosLat)
              == LatLon((g1.lat + g2.lat) / 2.0, (g1.lon + g2.lon) / 2.0)
  {
    var s := DegPerPixel / cosLat;
    var cx := w as real / 2.0;
    assert PixelToLatLon(x1, y1, latC, lonC, w, h, cosLat).lon == lonC + (x1 - cx) * s;
    assert PixelToLatLon(x2, y2, latC, lonC, w, h, cosLat).lon == lonC + (x2 - cx) * s;
    assert PixelToLatLon((x1 + x2) / 2.0, (y1 + y2) / 2.0, latC, lonC, w, h, cosLat).lon
      == lonC + ((x1 + x2) / 2.0 - cx) * s;
  }

  /** The map is injective: distinct pixels land on distinct positions. */
  lemma {:induction false} PixelToLatLonInjective(x1: real, y1: real, x2: real, y2: real,
                                                  latC: real, lonC: real, w: nat, h: nat, cosLat: real)
    requires cosLat != 0.0
    ensures PixelToLatLon(x1, y1, latC, lonC, w, h, cosLat) == PixelToLatLon(x2, y2, latC, lonC, w, h, cosLat)
            <==> x1 == x2 && y1 == y2
  {
    var g1 := PixelToLatLon(x1, y1, latC, lonC, w, h, cosLat);
    var g2 := PixelToLatLon(x2, y2, latC, lonC, w, h, cosLat);
    if g1 == g2 {
      PixelRoundTrip(x1, y1, latC, lonC, w, h, cosLat);
      PixelRoundTrip(x2, y2, latC, lonC, w, h, cosLat);
    }
  }
}
