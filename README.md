# Rooftop GeoJSON generation, modelled in Dafny

This project models the rooftop-to-GeoJSON script of the Bangalore rooftop solar
suitability mapper (`test_rooftop_geojson_generation.py`). The script reads
every `.png` tile of an image directory. Each tile is named
`<prefix>_<lat>_<lon>.png` after its geographic centre. The script segments the
tile's rooftops and turns each rooftop mask into polygons. It maps each
polygon's pixel ring to longitude/latitude using a flat-earth approximation
around the tile centre. It appends one `rooftop` feature per polygon to a
feature collection, which is written once at the end.

Modules (one Dafny file each):

- `CoordinateMapper` (`coordinate_mapper.dfy`): `pixel_to_latlon` over real
  numbers, its exact inverse, and its properties. These are: the centre is a
  fixed point, each axis is separable and monotone, both round trips hold,
  midpoints are preserved, and the map is injective.
- `TileNames` (`tile_names.dfy`): the `.png` filter and `parse_coords_from_name`.
  `str.replace(".png", "")` is modelled as `RemoveAll`, a left-to-right scan
  that deletes non-overlapping occurrences. `str.split("_")` is modelled as
  `Split`, which keeps empty tokens. The centre tokens stay strings.
- `Contours` (`contours.dfy`): the filter loop of `mask_to_polygons`. It
  includes numpy's `squeeze` on a contour's `(n, 1, 2)` array and shapely's
  closing of the exterior ring.
- `RooftopFeatures` (`rooftop_features.dfy`): the feature collection, held as a
  class whose list only grows. This module holds the per-polygon and per-mask
  emission loops and the main loop over directory entries, each with a
  specification function (`TileFeatures`, `RunSpec`).
- `Wrappers` (`wrappers.dfy`): `Option` and `Result`.

A name with fewer than two `_`-separated tokens makes `parts[-2]` raise, and a
token that is not a number makes `float` raise. Either error ends the script
before `json.dump`, so the model's run returns `Aborted` and nothing is
written.

This script applies no minimum-area threshold. It keeps every contour with at
least three points, a two-dimensional squeezed array and a valid polygon.

## Model

| member | source | states |
|---|---|---|
| `CoordinateMapper.PixelToLatLon` | test_rooftop_geojson_generation.py:28-38 | a pixel below the centre row maps south of the centre latitude, and only then; with a positive cosine, a pixel right of the centre column maps east of the centre longitude, and only then |
| `CoordinateMapper.LatLonToPixel` | test_rooftop_geojson_generation.py:28-38 | the inverse map: a position north of the centre lies above the centre row, and only then; with a positive cosine, a position east of it lies right of the centre column, and only then |
| `CoordinateMapper.CentreIsFixedPoint` | test_rooftop_geojson_generation.py:28-38 | the centre pixel (w/2, h/2) maps exactly to (lat_center, lon_center) |
| `CoordinateMapper.AxesAreSeparable` | test_rooftop_geojson_generation.py:30-37 | latitude depends only on y; longitude depends only on x |
| `CoordinateMapper.LatitudeDecreasesWithRow` | test_rooftop_geojson_generation.py:31-36 | y1 < y2 if and only if lat(y1) > lat(y2): rows grow southward |
| `CoordinateMapper.LongitudeIncreasesWithColumn` | test_rooftop_geojson_generation.py:30-37 | with cos(lat_center) > 0, x1 < x2 if and only if lon(x1) < lon(x2) |
| `CoordinateMapper.PixelRoundTrip` | test_rooftop_geojson_generation.py:28-38 | applying the inverse affine map to pixel_to_latlon's result gives back exactly (x, y) |
| `CoordinateMapper.LatLonRoundTrip` | test_rooftop_geojson_generation.py:28-38 | pixel_to_latlon applied to the inverse of (lat, lon) gives back exactly (lat, lon) |
| `CoordinateMapper.MidpointPreserved` | test_rooftop_geojson_generation.py:28-38 | the map is affine: the midpoint of two pixels maps to the midpoint of their images |
| `CoordinateMapper.PixelToLatLonInjective` | test_rooftop_geojson_generation.py:28-38 | two pixels map to the same position if and only if they are the same pixel |
| `TileNames.IsTileImage` | test_rooftop_geojson_generation.py:49 | a name passes the filter exactly when it is some string followed by `.png` |
| `TileNames.RemoveAll` | test_rooftop_geojson_generation.py:41 | `replace(".png", "")` never lengthens the name |
| `TileNames.Split` | test_rooftop_geojson_generation.py:41 | `split("_")` always yields at least one token, even for the empty string |
| `TileNames.ParseCoordsFromName` | test_rooftop_geojson_generation.py:40-42 | parsing fails (index -2 out of range) exactly when the name has no underscore; on success both tokens are free of underscores |
| `TileNames.SplitLength` | test_rooftop_geojson_generation.py:41 | `split("_")` yields one more token than there are underscores |
| `TileNames.SplitTokensHaveNoSep` | test_rooftop_geojson_generation.py:41 | no token of a split contains the separator |
| `TileNames.JoinSplit` | test_rooftop_geojson_generation.py:41 | joining the tokens with the separator gives back the string |
| `TileNames.SplitAtSep` | test_rooftop_geojson_generation.py:41 | splitting p + "_" + q is splitting p followed by splitting q |
| `TileNames.SplitJoin` | test_rooftop_geojson_generation.py:41 | splitting the join of separator-free tokens gives back those tokens |
| `TileNames.RemoveAllWithoutMatch` | test_rooftop_geojson_generation.py:41 | `replace(".png", "")` leaves a string without an occurrence unchanged |
| `TileNames.RemoveAllKeepsCount` | test_rooftop_geojson_generation.py:41 | deleting `.png` keeps every underscore |
| `TileNames.RemoveAllAtSep` | test_rooftop_geojson_generation.py:41 | no deleted `.png` straddles an underscore; each side is cleaned on its own |
| `TileNames.SplitRemoveAll` | test_rooftop_geojson_generation.py:41 | deleting `.png` and then splitting gives the tokens of the raw name, each with `.png` deleted |
| `TileNames.ParseFailsIffNoSeparator` | test_rooftop_geojson_generation.py:40-42 | parsing raises (index -2 out of range) if and only if the name has no underscore |
| `TileNames.ParseCoordsSound` | test_rooftop_geojson_generation.py:40-42 | a parse returns two underscore-free tokens; the cleaned name ends in `<lat>_<lon>`, preceded by an underscore or by nothing |
| `TileNames.ParseCoordsComplete` | test_rooftop_geojson_generation.py:40-42 | a cleaned name of the form `[prefix_]<lat>_<lon>` parses to exactly (lat, lon), in that order |
| `TileNames.ParseCoordsTokens` | test_rooftop_geojson_generation.py:40-42 | the parsed tokens are the last two underscore tokens of the raw name, each with `.png` deleted |
| `TileNames.TileFileNameRoundTrip` | test_rooftop_geojson_generation.py:40-49 | a name `<prefix>_<lat>_<lon>.png` passes the `.png` filter and parses back to (lat, lon) for any prefix, when the tokens hold neither `_` nor `p` |
| `TileNames.ParseExampleName` | test_rooftop_geojson_generation.py:40-42 | `rooftop_example_12.9716_77.5946.png` parses to ("12.9716", "77.5946") |
| `Contours.Squeeze` | test_rooftop_geojson_generation.py:21 | after squeezing no axis has length one, and the number of axes never grows |
| `Contours.SqueezedRankValue` | test_rooftop_geojson_generation.py:21-22 | a squeezed (n, 1, 2) contour array has 2 axes unless n = 1, so every contour of at least 3 points passes the `ndim == 2` test |
| `Contours.MaskToPolygons` | test_rooftop_geojson_generation.py:15-26 | the loop returns the accepted contours: each has at least 3 points, is 2-D after squeeze and is valid; they form an order-preserving subsequence of the input |
| `Contours.KeptContours` | test_rooftop_geojson_generation.py:19-25 | every kept contour passes the three tests: at least 3 points, 2-D after squeeze, valid |
| `Contours.KeptContoursComplete` | test_rooftop_geojson_generation.py:19-25 | every input contour that passes the three tests is kept |
| `Contours.KeptContoursSubsequence` | test_rooftop_geojson_generation.py:18-26 | the kept contours are the input with some deleted and the order unchanged |
| `Contours.ShortContourRejected` | test_rooftop_geojson_generation.py:20 | a contour of fewer than 3 points contributes no polygon |
| `Contours.ExteriorRing` | test_rooftop_geojson_generation.py:76 | the exterior ring is closed, starts with the polygon's points in order, and has one extra point exactly when the points were open |
| `RooftopFeatures.ToGeo` | test_rooftop_geojson_generation.py:77-78 | a vertex is written (lon, lat), and the inverse map recovers the pixel it came from |
| `RooftopFeatures.GeoRing` | test_rooftop_geojson_generation.py:77-78 | the geographic ring has as many vertices as the pixel ring, and vertex i maps back to pixel i |
| `RooftopFeatures.GeoRingRoundTrip` | test_rooftop_geojson_generation.py:77-78 | the geo ring has the pixel ring's vertex count, and mapping it back gives the pixel ring vertex by vertex, in order |
| `RooftopFeatures.GeoRingClosedIffPixelRingClosed` | test_rooftop_geojson_generation.py:77-78 | the geo ring is closed if and only if the pixel ring is |
| `RooftopFeatures.RooftopFeatureShape` | test_rooftop_geojson_generation.py:76-88 | a feature has image = file name, class "rooftop", a closed ring of \|poly\| or \|poly\|+1 (lon, lat) vertices, and maps back to the polygon's exterior ring |
| `RooftopFeatures.RooftopFeature` | test_rooftop_geojson_generation.py:76-88 | the feature of one polygon has the file name as image, class "rooftop" and the polygon's area; its ring is closed, has \|poly\| or \|poly\|+1 vertices and maps back to the polygon's exterior ring |
| `RooftopFeatures.PolygonFeatures` | test_rooftop_geojson_generation.py:75-88 | one feature per polygon, in order; feature i is a rooftop of the image whose ring maps back to polygon i's exterior ring |
| `RooftopFeatures.AcceptedPolygons` | test_rooftop_geojson_generation.py:73-75 | every polygon gathered over a tile's masks passes the contour tests |
| `RooftopFeatures.TileFeatures` | test_rooftop_geojson_generation.py:73-88 | a tile contributes one feature per accepted polygon of its masks, each a rooftop carrying the tile's image name |
| `RooftopFeatures.TileFeaturesOnePerPolygon` | test_rooftop_geojson_generation.py:73-88 | a tile contributes exactly one feature per accepted polygon, in order, with that polygon's image, class, area and ring |
| `RooftopFeatures.TileOutcome` | test_rooftop_geojson_generation.py:48-88 | only a `.png` entry can raise or contribute; what it contributes are rooftops carrying its name |
| `RooftopFeatures.Step` | test_rooftop_geojson_generation.py:48-88 | once the run has aborted it stays aborted with the same error; a written run only grows |
| `RooftopFeatures.RunSpec` | test_rooftop_geojson_generation.py:46-88 | every feature the run writes is a rooftop whose image is a `.png` name |
| `RooftopFeatures.FeatureCollection.constructor` | test_rooftop_geojson_generation.py:46 | the collection starts with no features |
| `RooftopFeatures.FeatureCollection.Append` | test_rooftop_geojson_generation.py:80-88 | appending adds the feature at the end and leaves earlier features untouched |
| `RooftopFeatures.EmitPolygonFeatures` | test_rooftop_geojson_generation.py:75-88 | the polygon loop appends exactly the features of its polygons, in order, after the existing ones |
| `RooftopFeatures.EmitTileFeatures` | test_rooftop_geojson_generation.py:73-88 | the mask loop appends exactly the tile's features after the existing ones |
| `RooftopFeatures.Run` | test_rooftop_geojson_generation.py:46-88 | the main loop's outcome is the run specification; every written feature comes from a `.png` tile and is a rooftop |
| `RooftopFeatures.AbortIsFinal` | test_rooftop_geojson_generation.py:54 | once an entry raises, the run ends with that error |
| `RooftopFeatures.TileOutcomeFeatures` | test_rooftop_geojson_generation.py:48-88 | an entry's features all carry its name and class "rooftop", and only a `.png` entry has any |
| `RooftopFeatures.TileOutcomeByName` | test_rooftop_geojson_generation.py:48-54 | a non-`.png` entry contributes nothing and never fails; a `.png` entry without an underscore always fails |
| `RooftopFeatures.TileImagesOnly` | test_rooftop_geojson_generation.py:48-50 | the filtered listing holds only `.png` entries |
| `RooftopFeatures.RunIgnoresNonTiles` | test_rooftop_geojson_generation.py:48-50 | dropping every non-`.png` entry leaves the run's outcome unchanged |
| `RooftopFeatures.RunFeaturesAreRooftopTiles` | test_rooftop_geojson_generation.py:48-88 | every written feature is a rooftop whose image is the name of a `.png` entry of the listing |
| `RooftopFeatures.RunAppendOnly` | test_rooftop_geojson_generation.py:73-88 | what a prefix of the listing produced is a prefix of what the whole run writes |
| `RooftopFeatures.RunAbortsIffSomeTileFails` | test_rooftop_geojson_generation.py:40-54 | the run aborts if and only if some entry raises, and then with the error of the first such entry |

## Left out

- Contour tracing: `cv2.findContours` and the scaling of the mask to bytes (test_rooftop_geojson_generation.py:16-17) belong to an image library. Each mask is given as the contours it yields, in order.
- Model loading and inference (:45, :64-71): a foreign call. Each directory entry carries its detection (`Detection`). Masks that are absent (`results.masks is None`) are `None`. The unused class ids are not modelled.
- Image reading (`cv2.imread`, :57-61): an unreadable image is an entry whose `image` is `None`. The model keeps only the image's height and width.
- `Polygon.is_valid` and `Polygon.area` are geometry-library calls. They are the parameters `isValid` and `area`.
- `float()` on the centre tokens is the parameter `toFloat`. A `None` result stands for a `ValueError`.
- `np.cos(np.radians(lat))` is the parameter `cosDeg`, which must be non-zero everywhere (`EnvOk`). In double precision the cosine of a representable angle in degrees is never exactly zero.
- `PixelToLatLon`: does not model the infinite longitudes numpy would give for a cosine of exactly zero. It requires a non-zero cosine.
- IEEE rounding: all arithmetic is over exact reals. The round trips are therefore exact, where the program's are exact only up to rounding.
- `os.listdir` order: the listing is an input sequence in whatever order the file system returns it.
- `json.dump` and the console messages (:53, :59, :67, :90-94) are I/O. A `Written` outcome holds the features that would be dumped.
- Shapely's re-closing of the geographic polygon (:78): the geometry is the mapped ring itself. `GeoRingClosedIffPixelRingClosed` shows that this ring is already closed, so shapely adds no point.
- The constant members `"type": "Feature"` and the geometry type `"Polygon"` of each written feature are not modelled.
- `yolo_test.py` only runs the model and draws contours into an image. It has no logic of its own.
- Solar-panel boxes, ward grouping and coverage counts are done by other scripts of the repository. They are not part of this model.
