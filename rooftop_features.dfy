/** Rooftop features of a run.  Every `.png` tile in the image directory
    is named after its centre; its rooftop masks are turned into polygons,
    each polygon's exterior ring is mapped from pixels to longitude/latitude,
    and one rooftop feature per polygon is appended to a feature collection,
    which is written once at the end.

    The collaborators that cannot be seen from here are parameters (`Env`):
    the number parser applied to the centre tokens, the cosine of a latitude
    given in degrees, the geometry library's validity test and polygon area.
    Reading an image and running the segmentation model are replaced by the
    data they produce (`TileFile`). */
module RooftopFeatures {
  import opened Wrappers
  import opened CoordinateMapper
  import opened Contours
  import opened TileNames

  /** A vertex as the output writes it: longitude first. */
  datatype LonLat = LonLat(lon: real, lat: real)

  /** Where a tile lies: its geographic centre, its size in pixels and the
      cosine of its centre latitude. */
  datatype TileFrame = TileFrame(latC: real, lonC: real, w: nat, h: nat, cosLat: real)

  /** The `class` property of every feature this program writes. */
  const RooftopClass: string := "rooftop"

  /** One output feature: a polygon and the properties `image`, `class` and
      `area_px`. */
  datatype Feature = Feature(geometry: seq<LonLat>, image: string, className: string, areaPx: real)

  /** One pixel vertex, mapped and written as (lon, lat); the inverse map
      recovers the pixel. */
  function ToGeo(p: Point, f: TileFrame): (v: LonLat)
    requires f.cosLat != 0.0
    ensures ToPixel(v, f) == p
  {
    PixelRoundTrip(p.x, p.y, f.latC, f.lonC, f.w, f.h, f.cosLat);
    var g := PixelToLatLon(p.x, p.y, f.latC, f.lonC, f.w, f.h, f.cosLat);
    LonLat(g.lon, g.lat)
  }

  /** The pixel a written vertex came from (the inverse map). */
  function ToPixel(v: LonLat, f: TileFrame): Point
    requires f.cosLat != 0.0
  {
    LatLonToPixel(v.lat, v.lon, f.latC, f.lonC, f.w, f.h, f.cosLat)
  }

  /** The geographic ring of a pixel ring, vertex by vertex in the same
      order: vertex i maps back to pixel i. */
  function GeoRing(ring: seq<Point>, f: TileFrame): (geo: seq<LonLat>)
    requires f.cosLat != 0.0
    ensures |geo| == |ring|
    ensures forall i :: 0 <= i < |ring| ==> ToPixel(geo[i], f) == ring[i]
  {
    seq(|ring|, i requires 0 <= i < |ring| => ToGeo(ring[i], f))
  }

  /** The pixel ring of a geographic ring. */
  function PixelRing(geo: seq<LonLat>, f: TileFrame): seq<Point>
    requires f.cosLat != 0.0
  {
    seq(|geo|, i requires 0 <= i < |geo| => ToPixel(geo[i], f))
  }

  /** Mapping a ring to geographic coordinates loses nothing: mapping back
      gives the pixel ring, so vertex count and order are preserved. */
  lemma {:induction false} GeoRingRoundTrip(ring: seq<Point>, f: TileFrame)
    requires f.cosLat != 0.0
    ensures |GeoRing(ring, f)| == |ring|
    ensures PixelRing(GeoRing(ring, f), f) == ring
  {
    var back := PixelRing(GeoRing(ring, f), f);
    forall i | 0 <= i < |ring| ensures back[i] == ring[i] {
      PixelRoundTrip(ring[i].x, ring[i].y, f.latC, f.lonC, f.w, f.h, f.cosLat);
    }
  }

  /** The geographic ring is closed exactly when the pixel ring is. */
  lemma {:induction false} GeoRingClosedIffPixelRingClosed(ring: seq<Point>, f: TileFrame)
    requires f.cosLat != 0.0 && |ring| > 0
    ensures GeoRing(ring, f)[0] == GeoRing(ring, f)[|ring| - 1] <==> ring[0] == ring[|ring| - 1]
  {
    var a, b := ring[0], ring[|ring| - 1];
    PixelToLatLonInjective(a.x, a.y, b.x, b.y, f.latC, f.lonC, f.w, f.h, f.cosLat);
  }

  /** The feature appended for one accepted polygon: a closed ring of
      |poly| or |poly| + 1 vertices that maps back to the polygon's exterior
      ring, tagged with the image name, the class and the polygon's area. */
  function RooftopFeature(poly: Contour, fname: string, f: TileFrame, area: Contour -> real): (feat: Feature)
    requires |poly| > 0 && f.cosLat != 0.0
    ensures feat.image == fname && feat.className == RooftopClass && feat.areaPx == area(poly)
    ensures |poly| <= |feat.geometry| <= |poly| + 1
    ensures feat.geometry[0] == feat.geometry[|feat.geometry| - 1]
    ensures PixelRing(feat.geometry, f) == ExteriorRing(poly)
  {
    var ring := ExteriorRing(poly);
    GeoRingRoundTrip(ring, f);
    GeoRingClosedIffPixelRingClosed(ring, f);
    Feature(GeoRing(ring, f), fname, RooftopClass, area(poly))
  }

  /** A rooftop feature is a closed ring of the polygon's vertices in their
      order, each written (lon, lat), tagged with the image and the class
      "rooftop"; its vertices map back to the polygon's exterior ring. */
  lemma {:induction false} RooftopFeatureShape(poly: Contour, fname: string, f: TileFrame, area: Contour -> real)
    requires |poly| > 0 && f.cosLat != 0.0
    ensures var feat := RooftopFeature(poly, fname, f, area);
            && feat.image == fname && feat.className == "rooftop"
            && |feat.geometry| == |ExteriorRing(poly)|
            && |poly| <= |feat.geometry| <= |poly| + 1
            && feat.geometry[0] == feat.geometry[|feat.geometry| - 1]
            && PixelRing(feat.geometry, f) == ExteriorRing(poly)
            && PixelRing(feat.geometry, f)[..|poly|] == poly
  {
    var ring := ExteriorRing(poly);
    GeoRingRoundTrip(ring, f);
    GeoRingClosedIffPixelRingClosed(ring, f);
  }

  /** One feature per polygon, in order: feature i is a rooftop of the
      image whose ring maps back to the exterior ring of polygon i. */
  function PolygonFeatures(polys: seq<Contour>, fname: string, f: TileFrame, area: Contour -> real): (feats: seq<Feature>)
    requires f.cosLat != 0.0
    requires forall p :: p in polys ==> |p| > 0
    ensures |feats| == |polys|
    ensures forall i :: 0 <= i < |polys| ==>
              && feats[i].image == fname && feats[i].className == RooftopClass
              && PixelRing(feats[i].geometry, f) == ExteriorRing(polys[i])
  {
    seq(|polys|, i requires 0 <= i < |polys| => RooftopFeature(polys[i], fname, f, area))
  }

  lemma {:induction false} PolygonFeaturesAppend(a: seq<Contour>, b: seq<Contour>, fname: string, f: TileFrame, area: Contour -> real)
    requires f.cosLat != 0.0
    requires forall p :: p in a + b ==> |p| > 0
    ensures PolygonFeatures(a + b, fname, f, area)
            == PolygonFeatures(a, fname, f, area) + PolygonFeatures(b, fname, f, area)
  {
    var lhs := PolygonFeatures(a + b, fname, f, area);
    var rhs := PolygonFeatures(a, fname, f, area) + PolygonFeatures(b, fname, f, area);
    forall i | 0 <= i < |lhs| ensures lhs[i] == rhs[i] {
      if i < |a| {
        assert (a + b)[i] == a[i];
      } else {
        assert (a + b)[i] == b[i - |a|];
      }
    }
  }

  /** The accepted polygons of all masks of a tile, mask by mask. */
  function AcceptedPolygons(masks: seq<seq<Contour>>, isValid: Contour -> bool): (polys: seq<Contour>)
    ensures forall p :: p in polys ==> Accepted(p, isValid)
  {
    if masks == [] then []
    else
      var n := |masks|;
      AcceptedPolygons(masks[..n - 1], isValid) + KeptContours(masks[n - 1], isValid)
  }

  /** The features one tile contributes: one per accepted polygon, each a
      rooftop carrying the tile's image name. */
  function TileFeatures(fname: string, f: TileFrame, masks: seq<seq<Contour>>,
                        isValid: Contour -> bool, area: Contour -> real): (feats: seq<Feature>)
    requires f.cosLat != 0.0
    ensures |feats| == |AcceptedPolygons(masks, isValid)|
    ensures forall feat :: feat in feats ==> feat.image == fname && feat.className == RooftopClass
  {
    PolygonFeatures(AcceptedPolygons(masks, isValid), fname, f, area)
  }

  /** A tile contributes exactly one feature per accepted polygon, in order,
      each a rooftop tagged with the tile's image name, and every one of
      them passed the contour tests. */
  lemma {:induction false} TileFeaturesOnePerPolygon(fname: string, f: TileFrame, masks: seq<seq<Contour>>,
                                                     isValid: Contour -> bool, area: Contour -> real)
    requires f.cosLat != 0.0
    ensures var polys := AcceptedPolygons(masks, isValid);
            var feats := TileFeatures(fname, f, masks, isValid, area);
            && |feats| == |polys|
            && forall k :: 0 <= k < |polys| ==>
                 && Accepted(polys[k], isValid)
                 && feats[k].image == fname && feats[k].className == RooftopClass
                 && feats[k].areaPx == area(polys[k])
                 && PixelRing(feats[k].geometry, f) == ExteriorRing(polys[k])
  {
    var polys := AcceptedPolygons(masks, isValid);
    forall k | 0 <= k < |polys|
      ensures polys[k] in polys && Accepted(polys[k], isValid)
              && PixelRing(TileFeatures(fname, f, masks, isValid, area)[k].geometry, f) == ExteriorRing(polys[k])
    {
      assert polys[k] in polys;
      RooftopFeatureShape(polys[k], fname, f, area);
    }
  }

  /** The features of the first i + 1 masks are those of the first i
      followed by those of mask i. */
  lemma {:induction false} TileFeaturesStep(fname: string, f: TileFrame, masks: seq<seq<Contour>>, i: nat,
                                            isValid: Contour -> bool, area: Contour -> real)
    requires f.cosLat != 0.0 && i < |masks|
    ensures TileFeatures(fname, f, masks[..i + 1], isValid, area)
            == TileFeatures(fname, f, masks[..i], isValid, area)
               + PolygonFeatures(KeptContours(masks[i], isValid), fname, f, area)
  {
    var done := AcceptedPolygons(masks[..i], isValid);
    var polys := KeptContours(masks[i], isValid);
    assert masks[..i + 1][..i] == masks[..i];
    assert AcceptedPolygons(masks[..i + 1], isValid) == done + polys;
    PolygonFeaturesAppend(done, polys, fname, f, area);
  }

  /** One more mask's features appended after those of the masks before it
      give the features of one more mask. */
  lemma {:induction false} EmitTileStep(base: seq<Feature>, before: seq<Feature>, after: seq<Feature>,
                                        fname: string, f: TileFrame, masks: seq<seq<Contour>>, i: nat,
                                        isValid: Contour -> bool, area: Contour -> real)
    requires f.cosLat != 0.0 && i < |masks|
    requires before == base + TileFeatures(fname, f, masks[..i], isValid, area)
    requires after == before + PolygonFeatures(KeptContours(masks[i], isValid), fname, f, area)
    ensures after == base + TileFeatures(fname, f, masks[..i + 1], isValid, area)
  {
    TileFeaturesStep(fname, f, masks, i, isValid, area);
  }

  /** The feature collection being built: a list that only grows. */
  class FeatureCollection {
    var features: seq<Feature>

    /** `{"type": "FeatureCollection", "features": []}` */
    constructor ()
      ensures features == []
    {
      features := [];
    }

    /** `features.append(feature)` */
    method Append(feature: Feature)
      modifies this
      ensures features == old(features) + [feature]
    {
      features := features + [feature];
    }
  }

  /** The per-polygon loop: each polygon's exterior ring is mapped to
      geographic coordinates and appended as one rooftop feature. */
  method EmitPolygonFeatures(collection: FeatureCollection, polys: seq<Contour>, fname: string, f: TileFrame,
                             area: Contour -> real)
    requires f.cosLat != 0.0
    requires forall p :: p in polys ==> |p| > 0
    modifies collection
    ensures collection.features == old(collection.features) + PolygonFeatures(polys, fname, f, area)
  {
    for j := 0 to |polys|
      invariant collection.features == old(collection.features) + PolygonFeatures(polys[..j], fname, f, area)
    {
      ghost var before := collection.features;
      var poly := polys[j];
      assert poly in polys;
      collection.Append(RooftopFeature(poly, fname, f, area));
      EmitPolygonStep(old(collection.features), before, collection.features, polys, j, fname, f, area);
    }
    assert polys[..|polys|] == polys;
  }

  /** One more polygon's feature appended after those of the polygons
      before it gives the features of one more polygon. */
  lemma {:induction false} EmitPolygonStep(base: seq<Feature>, before: seq<Feature>, after: seq<Feature>,
                                           polys: seq<Contour>, j: nat, fname: string, f: TileFrame,
                                           area: Contour -> real)
    requires f.cosLat != 0.0 && j < |polys|
    requires forall p :: p in polys ==> |p| > 0
    requires before == base + PolygonFeatures(polys[..j], fname, f, area)
    requires after == before + [RooftopFeature(polys[j], fname, f, area)]
    ensures after == base + PolygonFeatures(polys[..j + 1], fname, f, area)
  {
    assert polys[..j + 1] == polys[..j] + [polys[j]];
    PolygonFeaturesAppend(polys[..j], [polys[j]], fname, f, area);
  }

  /** The mask loop of one tile: the polygons of every mask, in order, are
      appended as rooftop features after what is already there. */
  method EmitTileFeatures(collection: FeatureCollection, fname: string, f: TileFrame, masks: seq<seq<Contour>>,
                          isValid: Contour -> bool, area: Contour -> real)
    requires f.cosLat != 0.0
    modifies collection
    ensures collection.features == old(collection.features) + TileFeatures(fname, f, masks, isValid, area)
  {
    for i := 0 to |masks|
      invariant collection.features == old(collection.features) + TileFeatures(fname, f, masks[..i], isValid, area)
    {
      ghost var before := collection.features;
      var polys := MaskToPolygons(masks[i], isValid);
      EmitPolygonFeatures(collection, polys, fname, f, area);
      EmitTileStep(old(collection.features), before, collection.features, fname, f, masks, i, isValid, area);
    }
    assert masks[..|masks|] == masks;
  }

  // ---------------------------------------------------------------------
  // The whole run

  /** What reading a tile image and running the model on it produced: the
      image size and, unless the model found no masks, the contours traced
      on each mask. */
  datatype Detection = Detection(w: nat, h: nat, masks: Option<seq<seq<Contour>>>)

  /** A directory entry: its name and, when it could be read as an image,
      the detection on it. */
  datatype TileFile = TileFile(name: string, image: Option<Detection>)

  /** The collaborators of the run. */
  datatype Env = Env(
    toFloat: string -> Option<real>,   // `float(token)`; None is a ValueError
    cosDeg: real -> real,              // `np.cos(np.radians(lat))`
    isValid: Contour -> bool,          // `Polygon(pts).is_valid`
    area: Contour -> real)             // `Polygon(pts).area`

  /** The cosine is never exactly zero at a representable latitude. */
  ghost predicate EnvOk(env: Env)
  {
    forall v :: env.cosDeg(v) != 0.0
  }

  /** Why a run stops before writing anything: a tile name with fewer than
      two tokens, or a centre token that is not a number. */
  datatype RunError = NoCentre(name: string) | BadNumber(name: string)

  /** The result of a run: the features written, or the error that ended it. */
  datatype RunOutcome = Written(features: seq<Feature>) | Aborted(error: RunError)

  /** What one directory entry contributes, or the error it raises.  Only a
      `.png` entry can raise or contribute, and what it contributes are
      rooftops carrying its name. */
  function TileOutcome(t: TileFile, env: Env): (r: Result<seq<Feature>, RunError>)
    requires EnvOk(env)
    ensures r.Err? ==> IsTileImage(t.name)
    ensures r.Ok? ==> forall feat :: feat in r.value ==>
              IsTileImage(t.name) && feat.image == t.name && feat.className == RooftopClass
  {
    if !IsTileImage(t.name) then Ok([])
    else match ParseCoordsFromName(t.name)
      case Err(_) => Err(NoCentre(t.name))
      case Ok(tokens) =>
        var lat := env.toFloat(tokens.lat);
        var lon := env.toFloat(tokens.lon);
        if lat.None? || lon.None? then Err(BadNumber(t.name))
        else if t.image.None? || t.image.value.masks.None? then Ok([])
        else
          var d := t.image.value;
          var frame := TileFrame(lat.value, lon.value, d.w, d.h, env.cosDeg(lat.value));
          Ok(TileFeatures(t.name, frame, d.masks.value, env.isValid, env.area))
  }

  /** The run so far, extended by one more entry.  An aborted run stays as
      it is; a written run only grows. */
  function Step(sofar: RunOutcome, t: TileFile, env: Env): (r: RunOutcome)
    requires EnvOk(env)
    ensures sofar.Aborted? ==> r == sofar
    ensures r.Written? ==> sofar.Written? && sofar.features <= r.features
  {
    match sofar
    case Aborted(e) => Aborted(e)
    case Written(fs) =>
      match TileOutcome(t, env)
      case Err(e) => Aborted(e)
      case Ok(more) => Written(fs + more)
  }

  /** The run over the directory entries in order; the first error ends it.
      Every feature it writes is a rooftop of a `.png` tile. */
  function RunSpec(files: seq<TileFile>, env: Env): (r: RunOutcome)
    requires EnvOk(env)
    ensures r.Written? ==> forall feat :: feat in r.features ==>
              IsTileImage(feat.image) && feat.className == RooftopClass
  {
    if files == [] then Written([])
    else Step(RunSpec(files[..|files| - 1], env), files[|files| - 1], env)
  }

  lemma {:induction false} RunSpecSnoc(init: seq<TileFile>, t: TileFile, env: Env)
    requires EnvOk(env)
    ensures RunSpec(init + [t], env) == Step(RunSpec(init, env), t, env)
  {
    assert (init + [t])[..|init|] == init;
  }

  /** The main loop: process every entry, appending each tile's features to
      one collection; a bad tile name ends the run with nothing written. */
  method Run(files: seq<TileFile>, env: Env) returns (outcome: RunOutcome)
    requires EnvOk(env)
    ensures outcome == RunSpec(files, env)
    ensures outcome.Written? ==> forall feat :: feat in outcome.features ==>
              IsTileImage(feat.image) && feat.className == RooftopClass
  {
    var geojson := new FeatureCollection();
    for i := 0 to |files|
      invariant RunSpec(files[..i], env) == Written(geojson.features)
    {
      var t := files[i];
      ghost var before := geojson.features;
      if IsTileImage(t.name) {
        var parsed := ParseCoordsFromName(t.name);
        if parsed.Err? {
          outcome := Aborted(NoCentre(t.name));
          RunStepFails(files, i, env, before, NoCentre(t.name));
          return;
        }
        var lat := env.toFloat(parsed.value.lat);
        var lon := env.toFloat(parsed.value.lon);
        if lat.None? || lon.None? {
          outcome := Aborted(BadNumber(t.name));
          RunStepFails(files, i, env, before, BadNumber(t.name));
          return;
        }
        if t.image.Some? && t.image.value.masks.Some? {
          var d := t.image.value;
          var frame := TileFrame(lat.value, lon.value, d.w, d.h, env.cosDeg(lat.value));
          EmitTileFeatures(geojson, t.name, frame, d.masks.value, env.isValid, env.area);
        }
      }
      RunStepWrites(files, i, env, before, geojson.features);
    }
    assert files[..|files|] == files;
    outcome := Written(geojson.features);
    RunFeaturesAreRooftopTiles(files, env);
  }

  /** An entry that contributes its features extends the run by them. */
  lemma {:induction false} RunStepWrites(files: seq<TileFile>, i: nat, env: Env, before: seq<Feature>, after: seq<Feature>)
    requires EnvOk(env) && i < |files|
    requires RunSpec(files[..i], env) == Written(before)
    requires TileOutcome(files[i], env).Ok? && after == before + TileOutcome(files[i], env).value
    ensures RunSpec(files[..i + 1], env) == Written(after)
  {
    assert files[..i + 1][..i] == files[..i];
  }

  /** An entry that raises an error ends the whole run with that error. */
  lemma {:induction false} RunStepFails(files: seq<TileFile>, i: nat, env: Env, before: seq<Feature>, e: RunError)
    requires EnvOk(env) && i < |files|
    requires RunSpec(files[..i], env) == Written(before)
    requires TileOutcome(files[i], env) == Err(e)
    ensures RunSpec(files, env) == Aborted(e)
  {
    assert files[..i + 1][..i] == files[..i];
    AbortIsFinal(files, i + 1, env);
  }

  /** Once a prefix of the entries aborts, the whole run aborts the same way. */
  lemma {:induction false} AbortIsFinal(files: seq<TileFile>, k: nat, env: Env)
    requires EnvOk(env) && k <= |files|
    requires RunSpec(files[..k], env).Aborted?
    ensures RunSpec(files, env) == RunSpec(files[..k], env)
    decreases |files| - k
  {
    if k < |files| {
      assert files[..k + 1][..k] == files[..k];
      AbortIsFinal(files, k + 1, env);
    } else {
      assert files[..k] == files;
    }
  }

  /** Features written by a run all come from `.png` tiles among the entries
      and are rooftops. */
  lemma {:induction false} RunFeaturesAreRooftopTiles(files: seq<TileFile>, env: Env)
    requires EnvOk(env)
    ensures RunSpec(files, env).Written? ==> forall feat :: feat in RunSpec(files, env).features ==>
              && IsTileImage(feat.image) && feat.className == RooftopClass
              && exists t :: t in files && t.name == feat.image
  {
    if files != [] && RunSpec(files, env).Written? {
      var n := |files|;
      var init := files[..n - 1];
      var last := files[n - 1];
      assert files == init + [last];
      RunFeaturesAreRooftopTiles(init, env);
      var before := RunSpec(init, env).features;
      var more := TileOutcome(last, env).value;
      assert RunSpec(files, env).features == before + more;
      forall feat: Feature | feat in before + more
        ensures exists t :: t in files && t.name == feat.image
      {
        if feat in before {
          var t :| t in init && t.name == feat.image;
          assert t in files;
        } else {
          assert last in files && last.name == feat.image;
        }
      }
    }
  }

  /** The features of one entry are rooftops carrying the entry's name, and
      only a `.png` entry has any. */
  lemma {:induction false} TileOutcomeFeatures(t: TileFile, env: Env)
    requires EnvOk(env)
    ensures TileOutcome(t, env).Ok? ==> forall feat :: feat in TileOutcome(t, env).value ==>
              IsTileImage(t.name) && feat.image == t.name && feat.className == RooftopClass
  {
  }

  /** An entry that is not a `.png` file never contributes and never fails;
      a `.png` entry whose name has no underscore always fails. */
  lemma {:induction false} TileOutcomeByName(t: TileFile, env: Env)
    requires EnvOk(env)
    ensures !IsTileImage(t.name) ==> TileOutcome(t, env) == Ok([])
    ensures IsTileImage(t.name) && Sep !in t.name ==> TileOutcome(t, env) == Err(NoCentre(t.name))
  {
    ParseFailsIffNoSeparator(t.name);
  }

  /** The `.png` entries of a directory listing, in order. */
  function TileImagesOnly(files: seq<TileFile>): (r: seq<TileFile>)
    ensures forall t :: t in r ==> IsTileImage(t.name)
  {
    if files == [] then []
    else
      var n := |files|;
      TileImagesOnly(files[..n - 1]) + (if IsTileImage(files[n - 1].name) then [files[n - 1]] else [])
  }

  /** Only `.png` entries matter: dropping every other entry changes nothing. */
  lemma {:induction false} RunIgnoresNonTiles(files: seq<TileFile>, env: Env)
    requires EnvOk(env)
    ensures RunSpec(TileImagesOnly(files), env) == RunSpec(files, env)
  {
    if files != [] {
      var n := |files|;
      var init := files[..n - 1];
      var last := files[n - 1];
      assert files == init + [last];
      RunIgnoresNonTiles(init, env);
      var kept := TileImagesOnly(init);
      RunSpecSnoc(init, last, env);
      if IsTileImage(last.name) {
        assert TileImagesOnly(files) == kept + [last];
        RunSpecSnoc(kept, last, env);
      } else {
        TileOutcomeByName(last, env);
        assert TileImagesOnly(files) == kept;
        var sofar := RunSpec(init, env);
        assert sofar.Written? ==> sofar.features + [] == sofar.features;
      }
    }
  }

  /** The collection only grows: whatever a prefix of the entries produced
      is a prefix of what the whole run writes. */
  lemma {:induction false} RunAppendOnly(files: seq<TileFile>, k: nat, env: Env)
    requires EnvOk(env) && k <= |files|
    requires RunSpec(files, env).Written?
    ensures RunSpec(files[..k], env).Written?
    ensures RunSpec(files[..k], env).features <= RunSpec(files, env).features
  {
    if k < |files| {
      var n := |files|;
      var init := files[..n - 1];
      assert init[..k] == files[..k];
      RunAppendOnly(init, k, env);
    } else {
      assert files[..k] == files;
    }
  }

  /** Entry k raises an error and every entry before it does not. */
  ghost predicate FirstFailure(files: seq<TileFile>, k: int, env: Env)
    requires EnvOk(env)
  {
    && 0 <= k < |files| && TileOutcome(files[k], env).Err?
    && forall j :: 0 <= j < k ==> TileOutcome(files[j], env).Ok?
  }

  /** A run aborts exactly when some entry raises an error, and then with the
      error of the first such entry. */
  lemma {:induction false} RunAbortsIffSomeTileFails(files: seq<TileFile>, env: Env)
    requires EnvOk(env)
    ensures RunSpec(files, env).Aborted? <==> exists i :: 0 <= i < |files| && TileOutcome(files[i], env).Err?
    ensures RunSpec(files, env).Aborted? ==>
              exists k :: FirstFailure(files, k, env) && RunSpec(files, env).error == TileOutcome(files[k], env).error
  {
    if files != [] {
      var n := |files|;
      var init := files[..n - 1];
      var last := files[n - 1];
      assert files == init + [last];
      RunAbortsIffSomeTileFails(init, env);
      RunSpecSnoc(init, last, env);
      if RunSpec(init, env).Aborted? {
        var k :| FirstFailure(init, k, env) && RunSpec(init, env).error == TileOutcome(init[k], env).error;
        FirstFailureExtend(init, last, k, env);
      } else if TileOutcome(last, env).Err? {
        FirstFailureLast(init, last, env);
      } else {
        NoFailureExtend(init, last, env);
      }
    }
  }

  /** A first failure stays the first failure when an entry is added. */
  lemma {:induction false} FirstFailureExtend(init: seq<TileFile>, last: TileFile, k: int, env: Env)
    requires EnvOk(env) && FirstFailure(init, k, env)
    ensures FirstFailure(init + [last], k, env) && (init + [last])[k] == init[k]
  {
    assert forall j :: 0 <= j < |init| ==> (init + [last])[j] == init[j];
  }

  /** An added entry that fails after entries that all succeed is the first
      failure. */
  lemma {:induction false} FirstFailureLast(init: seq<TileFile>, last: TileFile, env: Env)
    requires EnvOk(env) && TileOutcome(last, env).Err?
    requires forall i :: 0 <= i < |init| ==> TileOutcome(init[i], env).Ok?
    ensures FirstFailure(init + [last], |init|, env) && (init + [last])[|init|] == last
  {
    assert forall j :: 0 <= j < |init| ==> (init + [last])[j] == init[j];
  }

  /** An added entry that succeeds after entries that all succeed leaves no
      entry failing. */
  lemma {:induction false} NoFailureExtend(init: seq<TileFile>, last: TileFile, env: Env)
    requires EnvOk(env) && TileOutcome(last, env).Ok?
    requires forall i :: 0 <= i < |init| ==> TileOutcome(init[i], env).Ok?
    ensures forall i :: 0 <= i < |init| + 1 ==> TileOutcome((init + [last])[i], env).Ok?
  {
    assert forall j :: 0 <= j < |init| ==> (init + [last])[j] == init[j];
  }
}
