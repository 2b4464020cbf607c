# GLOSSIS mesh-to-raster conversion, modelled in Dafny

This project models the core of the DGDS backend's GLOSSIS processing. It covers three parts.

- `convert_glossis_netcdf_to_geotiff` turns one domain file of the GLOSSIS ocean model into a three-band GeoTIFF. The file holds an unstructured mesh with a padded face-node table and per-face water level and surge. The output covers the globe on a 1000 x 1000 grid.
- `create_water_level_astronomical_band` rewrites band 3 of such a raster in place.
- `get_service_url` looks up a dataset's data URL and protocol in the backend's access configuration.

Files and modules:

- `ugrid.dfy` (`UGrid`): the `ugrid` helper. It gives node coordinates, masked face coordinates and face centroids. A centroid is the masked mean of the face's real vertices; the circumcenters stored in the file are passed through and never used. It also gives the face ring `face[:count]`.
- `antimeridian.dfy` (`Antimeridian`): the test for the antimeridian segment x = -180, y in [-90, 90], and the +360 shift of a touching ring.
- `rasters.dfy` (`Rasters`): rasterize as an ordered fold of `(geometry, value)` pairs onto the fill value -9999. It also has control points (pixels not equal to NODATA, in row-major order), the interpolated value bands and the in-place loop that builds the 0/1 boundary-mask band.
- `time_format.dfy` (`TimeFormat`): the two `strftime` layouts and a parser that reads a stamp back.
- `convert.dfy` (`GlossisConvert`): the converter itself. It has the feature loop, the polygon loop, the band-writing loop, the output name and the tags, with the exceptions in source order.
- `waterlevel.dfy` (`WaterLevel`): the raster file as a class over a band x row x column array, and the band-3 update.
- `service_url.dfy` (`ServiceUrl`): the dataset lookup and its exception handling.
- `wrappers.dfy` (`Wrappers`): `Option` and `Result`.

Coordinates and values are `real`, with exact arithmetic. Library behaviour that is not visible in the code is passed in as a parameter:

- Rasterio's pixel coverage is a `Coverage` function.
- Rasterio's merge rule is a `MergeAlg`; its default, `Replace`, means the last shape wins.
- SciPy's `griddata` is an `Interpolator`.

The model follows the code on these points:

- Errors are the Python exceptions the code raises (IndexError, KeyError, Shapely's ValueError, rasterio's "no valid geometry"). They are not separate mesh, geometry or variable error kinds.
- A ring is rejected only when it has one or two coordinates, which is what Shapely refuses. Three coordinates with repeated points are accepted.
- A face whose cells are all masked has a masked centroid. The feature loop hands it to `geojson.Point`, whose coordinate check in geojson 2.x accepts only int, float and Decimal values. So the conversion stops there with `MaskedCentroid`, before the polygon loop. Older geojson releases that do not check coordinates would go on; that path is not modelled.
- `nodes[faces]` indexes with the raw stored indices, masked cells included. So an out-of-range index under a masked cell also aborts the conversion, and negative indices count from the end.

## Model

| member | source | states |
|---|---|---|
| UGrid.Ugrid | ansible/roles/google_cloud/files/function/convert_glossis_netcdf_to_geotiff.py:34-61 | Succeeds exactly when every stored face index, masked or not, is a valid Python index into the nodes. Per face, its coordinates are the looked-up vertices with masked cells masked, and its centroid is the masked mean of those coordinates. The file's face centers are returned untouched. The points are (x, y, 0) per node. |
| UGrid.FaceCoordinates | ansible/roles/google_cloud/files/function/convert_glossis_netcdf_to_geotiff.py:45-46 | A cell's coordinate is masked exactly when the face table masks it. Otherwise it is the node at the stored index. |
| UGrid.MaskedMean | ansible/roles/google_cloud/files/function/convert_glossis_netcdf_to_geotiff.py:49 | The masked mean is defined exactly when the row has at least one unmasked coordinate. |
| UGrid.ValidVertices | ansible/roles/google_cloud/files/function/convert_glossis_netcdf_to_geotiff.py:165 | The real vertices of a face number exactly its count of unmasked cells, `(~faces.mask).sum(axis=1)`. |
| UGrid.CentroidIsMeanOfValidVertices | ansible/roles/google_cloud/files/function/convert_glossis_netcdf_to_geotiff.py:40-49 | A face centroid is the arithmetic mean of the face's real vertices. Padding adds nothing to the sums or the divisor. The centroid is masked when the face has no real vertex. |
| UGrid.MaskedCellsIgnored | ansible/roles/google_cloud/files/function/convert_glossis_netcdf_to_geotiff.py:45-49 | The index stored under a masked cell never affects the real vertices or the centroid. |
| UGrid.Ring | ansible/roles/google_cloud/files/function/convert_glossis_netcdf_to_geotiff.py:168 | `face[:count].tolist()` yields a ring exactly when none of the first `count` coordinates is masked. The ring is those coordinates, in order. |
| UGrid.RingDefinedIffPadded | ansible/roles/google_cloud/files/function/convert_glossis_netcdf_to_geotiff.py:164-168 | The ring of the first `count` coordinates is defined exactly when the face's padding is all at the end of its row. |
| UGrid.RingIsValidVertices | ansible/roles/google_cloud/files/function/convert_glossis_netcdf_to_geotiff.py:164-168 | For a row padded at the end, the ring is exactly the face's real vertices, in row order. Its length is the valid count. |
| Antimeridian.MeridianTest | ansible/roles/google_cloud/files/function/convert_glossis_netcdf_to_geotiff.py:170 | When the longitudes reach -180 from both sides, a vertex lies on x = -180 or an edge of the ring crosses it. Otherwise every vertex is strictly on one side. This is why the interval test decides intersection with the segment for latitudes in [-90, 90]. |
| Antimeridian.MeridianTestExact | ansible/roles/google_cloud/files/function/convert_glossis_netcdf_to_geotiff.py:170 | For rings whose latitudes lie within [-90, 90], the interval test holds exactly when the ring's boundary meets the antimeridian segment. Either a vertex lies on it, or an edge crosses x = -180 at a latitude within [-90, 90]. |
| Antimeridian.CrossingInSpan | ansible/roles/google_cloud/files/function/convert_glossis_netcdf_to_geotiff.py:79 | An edge whose ends have latitudes within [-90, 90] crosses x = -180 at a latitude within [-90, 90], so inside the segment from (-180, 90) to (-180, -90). |
| Antimeridian.ShiftCoords | ansible/roles/google_cloud/files/function/convert_glossis_netcdf_to_geotiff.py:175-179 | The accumulating loop returns the shifted ring. |
| Antimeridian.ShiftedAt | ansible/roles/google_cloud/files/function/convert_glossis_netcdf_to_geotiff.py:175-179 | Shifting keeps the vertex count, the order and every latitude, and adds 360 to every longitude. |
| Antimeridian.UnshiftShifted | ansible/roles/google_cloud/files/function/convert_glossis_netcdf_to_geotiff.py:175-179 | Subtracting 360 again gives back the original ring. |
| Antimeridian.UntouchedRingKept | ansible/roles/google_cloud/files/function/convert_glossis_netcdf_to_geotiff.py:168-180 | A ring that does not touch the antimeridian is kept unchanged. |
| Antimeridian.TouchingRingMoved | ansible/roles/google_cloud/files/function/convert_glossis_netcdf_to_geotiff.py:170-180 | A touching ring becomes its shift: same count and latitudes, every longitude plus 360. |
| Antimeridian.MovedRingClearsMeridian | ansible/roles/google_cloud/files/function/convert_glossis_netcdf_to_geotiff.py:170-179 | For longitudes at or east of -180, a moved ring lies at or east of 180 and no longer touches the antimeridian. |
| Antimeridian.MaskPolygonAvoidsMeridian | ansible/roles/google_cloud/files/function/convert_glossis_netcdf_to_geotiff.py:167-180 | With every longitude above -540, no kept polygon touches the antimeridian. |
| Rasters.RasterizeShapes | ansible/roles/google_cloud/files/function/convert_glossis_netcdf_to_geotiff.py:202-207 | Rasterize succeeds exactly when some shape has a geometry it accepts. The result then has shape (nx, ny). |
| Rasters.UncoveredKeepsFill | ansible/roles/google_cloud/files/function/convert_glossis_netcdf_to_geotiff.py:202-216 | A pixel that no shape burns keeps the fill value (NODATA), under any merge rule. |
| Rasters.LastCoverWins | ansible/roles/google_cloud/files/function/convert_glossis_netcdf_to_geotiff.py:202-207 | Under overwriting, a pixel holds the value of the last shape that burns it. |
| Rasters.ReplaceMarksCoverage | ansible/roles/google_cloud/files/function/convert_glossis_netcdf_to_geotiff.py:211-216 | Under overwriting, and when no value equals the fill, a pixel differs from the fill exactly when some shape burns it. |
| Rasters.ControlPointsExact | ansible/roles/google_cloud/files/function/convert_glossis_netcdf_to_geotiff.py:232-235 | A pixel is a control point exactly when it lies in the raster and is not NODATA. The control values are the raster's values at those points, in the same order. |
| Rasters.BoundaryMaskBand | ansible/roles/google_cloud/files/function/convert_glossis_netcdf_to_geotiff.py:241-243 | The in-place loop over the control points leaves 1.0 exactly where the mask raster is not NODATA and 0.0 elsewhere. |
| TimeFormat.ZeroPaddedRoundTrip | ansible/roles/google_cloud/files/function/convert_glossis_netcdf_to_geotiff.py:188 | A field below 10^width is printed as exactly `width` digits, which read back as the field. |
| TimeFormat.StampRoundTrip | ansible/roles/google_cloud/files/function/convert_glossis_netcdf_to_geotiff.py:246-249 | Both layouts are 15 characters long with the separator at position 8. Each reads back as its timestamp. |
| TimeFormat.FileStampInjective | ansible/roles/google_cloud/files/function/convert_glossis_netcdf_to_geotiff.py:188 | Distinct timestamps give distinct file stamps. |
| GlossisConvert.Layers | ansible/roles/google_cloud/files/function/convert_glossis_netcdf_to_geotiff.py:80-83 | The value string "waterlevel" selects water_level and water_level_surge, in that order. |
| GlossisConvert.BuildFeatures | ansible/roles/google_cloud/files/function/convert_glossis_netcdf_to_geotiff.py:147-161 | The feature loop returns the feature list, or the error of the first face that fails. |
| GlossisConvert.FeaturesPerFace | ansible/roles/google_cloud/files/function/convert_glossis_netcdf_to_geotiff.py:147-161 | The feature list exists exactly when every face has a feature. It then holds one feature per face, in face order. Otherwise the error is that of the first failing face, and it is a missing face value or a masked centroid. |
| GlossisConvert.FaceFeatureIff | ansible/roles/google_cloud/files/function/convert_glossis_netcdf_to_geotiff.py:148-160 | A face's feature exists exactly when both variables reach the face and its centroid is not masked. The loop stops with `MaskedCentroid` exactly when both values exist and the centroid is masked. The feature has the face id, the centroid and exactly the two values. |
| GlossisConvert.LoopFeatures | ansible/roles/google_cloud/files/function/convert_glossis_netcdf_to_geotiff.py:147-161 | After a loop that got through every face, feature k is face k's id, centroid and two values. Every face had both values and an unmasked centroid. |
| GlossisConvert.PolygonsPerFace | ansible/roles/google_cloud/files/function/convert_glossis_netcdf_to_geotiff.py:167-180 | The polygon list exists exactly when every face has a polygon. It then holds one polygon per face, in face order. Otherwise the error is that of the first failing face. |
| GlossisConvert.BuildPolygons | ansible/roles/google_cloud/files/function/convert_glossis_netcdf_to_geotiff.py:164-180 | The face loop returns the polygon list, or the first face's error. |
| GlossisConvert.LoadDomain | ansible/roles/google_cloud/files/function/convert_glossis_netcdf_to_geotiff.py:130-180 | The loop body returns what the domain yields, raising the same exceptions in the same order: mesh index, analysis_time, time, the variables at timestep 0, then per face a missing value or a masked centroid, then the rings. |
| GlossisConvert.WriteBands | ansible/roles/google_cloud/files/function/convert_glossis_netcdf_to_geotiff.py:231-245 | Bands 1 and 2 are the interpolated rasters. Every later band is the 0/1 indicator of its raster. |
| GlossisConvert.WriteRaster | ansible/roles/google_cloud/files/function/convert_glossis_netcdf_to_geotiff.py:185-251 | Rasterizing, opening and writing produce the specified output. |
| GlossisConvert.Convert | ansible/roles/google_cloud/files/function/convert_glossis_netcdf_to_geotiff.py:64-183 | An empty file list returns nothing. Otherwise the result is the conversion of the first domain file alone. |
| GlossisConvert.PreparedFeatures | ansible/roles/google_cloud/files/function/convert_glossis_netcdf_to_geotiff.py:140-161 | There is one feature per face, and every face has a real vertex. Both variables exist, have timestep 0 and reach every face. Feature k has id k, the mean of face k's real vertices as its point, and exactly the two variables of face k at timestep 0. |
| GlossisConvert.MaskedCentroidMeansEmptyFace | ansible/roles/google_cloud/files/function/convert_glossis_netcdf_to_geotiff.py:150-153 | The conversion stops at a masked centroid only for a face whose cells are all masked. |
| GlossisConvert.PreparedPolygons | ansible/roles/google_cloud/files/function/convert_glossis_netcdf_to_geotiff.py:164-180 | There is one polygon per face. Every face is padded at the end. Polygon k is face k's real vertices (at least three, since the feature loop already refused empty faces), moved east when they touch the antimeridian. |
| GlossisConvert.MeshIndexErrorIff | ansible/roles/google_cloud/files/function/convert_glossis_netcdf_to_geotiff.py:45 | The conversion aborts on `nodes[faces]` exactly when some stored index is out of range. |
| GlossisConvert.MaskedRingVertexMeansUnpadded | ansible/roles/google_cloud/files/function/convert_glossis_netcdf_to_geotiff.py:165-168 | A masked coordinate inside `face[:count]` occurs only on a face whose padding is not at the end. |
| GlossisConvert.OutputLayout | ansible/roles/google_cloud/files/function/convert_glossis_netcdf_to_geotiff.py:194-230 | The output has `len(layer_types[value_string]) + 1` = 3 bands. Every band is nx x ny, all share the global transform, and the file is float64 in EPSG:4326. |
| GlossisConvert.MaskBandMarksPolygons | ansible/roles/google_cloud/files/function/convert_glossis_netcdf_to_geotiff.py:210-245 | Under overwriting, mask-band pixel (i, j) is 1.0 exactly when some face polygon burns it, and 0.0 otherwise. |
| GlossisConvert.ValueRasterFromLastFeature | ansible/roles/google_cloud/files/function/convert_glossis_netcdf_to_geotiff.py:194-208 | Under overwriting, a value-raster pixel holds the variable value of the last feature that burns it. |
| GlossisConvert.UnburnedValuePixelIsNoData | ansible/roles/google_cloud/files/function/convert_glossis_netcdf_to_geotiff.py:202-235 | A pixel that no feature burns stays NODATA and is not a control point. |
| GlossisConvert.TagsOverride | ansible/roles/google_cloud/files/function/convert_glossis_netcdf_to_geotiff.py:246-251 | The tag keys are the source attributes plus the two time tags. The time tags override same-named attributes, every other attribute is kept, and each stamp reads back as its time. |
| GlossisConvert.OutputTags | ansible/roles/google_cloud/files/function/convert_glossis_netcdf_to_geotiff.py:246-251 | The tags come from the source attributes, the first timestep and the first analysis time. |
| GlossisConvert.OutputFileNameStamp | ansible/roles/google_cloud/files/function/convert_glossis_netcdf_to_geotiff.py:188 | The file name is the path, then "waterlevel_", then the 15-character stamp of the timestep, then "_interpolated.tif". The stamp reads back as the timestep. |
| WaterLevel.GeoTiff.Open | datasets/glossis/waterlevel.py:9 | An opened raster has the given band count and shape, and the given band tags. |
| WaterLevel.CreateWaterLevelAstronomicalBand | datasets/glossis/waterlevel.py:9-16 | With three or more bands, band 3 becomes band 2 minus band 1 and gets the tag `name = water_level_astronomical`. Nothing else changes. With fewer bands, the call fails and nothing changes. |
| WaterLevel.AstronomicalAt | datasets/glossis/waterlevel.py:12-15 | Every pixel of band 3 is band 2 minus band 1. Bands 1, 2 and any later bands, and the shape, are unchanged. |
| WaterLevel.AstronomicalIgnoresBand3 | datasets/glossis/waterlevel.py:15 | The result does not depend on the old band 3 (the converter's boundary mask), which is discarded. |
| WaterLevel.AstronomicalIdempotent | datasets/glossis/waterlevel.py:12-15 | Applying the update twice gives the same raster as applying it once. |
| WaterLevel.AsWrittenOnConverterLayout | datasets/glossis/waterlevel.py:11-14 | On the converter's band order (water level, surge, mask), band 3 becomes surge minus water level. |
| WaterLevel.AsWrittenCounterexample | datasets/glossis/waterlevel.py:12-14 | Take a one-pixel file with water level 1.5 and surge 0.5. Band 3 becomes -1.0. |
| WaterLevel.IntendedAstronomical | datasets/glossis/waterlevel.py:6-11 | The commented intent is water level minus surge. Band 3 becomes band 1 minus band 2, and the other bands are unchanged. |
| WaterLevel.IntendedOnConverterLayout | datasets/glossis/waterlevel.py:6-14 | On the converter's band order, the intended band 3 is water level minus surge. It is the negation of what the code writes. |
| ServiceUrl.GetServiceUrl | dgds_backend/app.py:56-77 | Returns `({}, 200, urlData, protocolData)` of the dataset's access entry exactly when datasetId is present and the entry exists with both keys. Otherwise it raises InvalidUsage("The provided datasetId does not exist"). |
| ServiceUrl.StatusIsAlways200 | dgds_backend/app.py:64-77 | The returned status is always 200, so a caller's `status > 200` branch is never taken. |
| ServiceUrl.MissingDatasetIdMessageLost | dgds_backend/app.py:70-75 | Without a datasetId, the try block raises "No datasetId specified in the request". The caller sees "The provided datasetId does not exist" instead. |
| ServiceUrl.GetServiceUrlIntended | dgds_backend/app.py:70-75 | With only the lookups' KeyError caught, a missing datasetId is reported as such. An unknown or incomplete entry is reported as not existing. |
| ServiceUrl.IntendedDiffersOnlyOnMissingId | dgds_backend/app.py:66-75 | The intended lookup agrees with the code whenever datasetId is present, and differs from it when datasetId is missing. |

## Findings

| source | as written | input that shows it | evidently intended | confidence | as-written member | corrected member |
|---|---|---|---|---|---|---|
| dgds_backend/app.py:70-75 | `except Exception` also catches the InvalidUsage raised for a missing datasetId, and replaces its message | parameters without `datasetId` | report "No datasetId specified in the request" | high; not executed | ServiceUrl.MissingDatasetIdMessageLost | ServiceUrl.GetServiceUrlIntended |
| datasets/glossis/waterlevel.py:12-14 | band 2 is read as water level and band 1 as surge, but the converter writes water level to band 1 and surge to band 2 | a converter-output pixel with water level 1.5 and surge 0.5 gets -1.0 | water level minus surge, 1.0 | medium (assumes the raster comes from the converter); not executed | WaterLevel.AsWrittenCounterexample | WaterLevel.IntendedAstronomical |

## Left out

- Cloud storage: the download of each blob, the storage client and the removal of the local file are I/O. The domain files are given to `Convert` already read.
- netCDF and UGRID reading (`pyugrid`, `netCDF4.Dataset`) and `num2date` decoding are foreign libraries. A `Domain` carries the mesh, the variables, the decoded timestamps and the global attributes. A missing `time` or `analysis_time` variable is not modelled; only an empty one is.
- Antimeridian.IntersectsMeridian: Shapely's exact segment-polygon intersection is replaced by the interval test. This is exact only when every latitude lies in [-90, 90].
- Rasters.RasterizeShapes: rasterio's pixel-coverage rules for points and polygons are the `Coverage` parameter. The merge rule is the `MergeAlg` parameter; the converter relies on rasterio's default, overwrite (`Replace`). Rasterio accepts a polygon when its ring has at least three coordinates; that is the only validity check modelled.
- Rasters.Interpolated: `scipy.interpolate.griddata` (linear, NaN outside the hull) is the opaque `Interpolator` parameter. The model states only which control points and values it receives and that every pixel is queried. Because the parameter is total, the model does not capture the Qhull error `griddata` raises at line 238 when a value raster has fewer than three non-collinear control points.
- Floating point: values are exact reals. NaN from masked variable values is not modelled. Neither is the dtype rasterize infers for the value rasters: float32, the smallest type that holds the values and -9999, with its rounding. The integer dtype of the mask raster and the float64 rounding of interpolation are not modelled either.
- GeoTIFF creation and writing, `tqdm` and `print` are I/O. The output is the in-memory `Output` value (name, open parameters, bands, tags). The geojson CRS object and the FeatureCollection are not modelled beyond its features, and neither is the unused file pattern `f`.
- TimeFormat.Strftime: `%Y` is printed as four zero-padded digits. For years below 1000 the platform's `strftime` may print fewer digits.
- The `__main__` calls in both scripts are left out. The converter's call passes the wrong number of arguments.
- All Flask, Swagger, CORS, logging and configuration loading, and the route handlers in dgds_backend/app.py, are web plumbing. The access map is a parameter of `GetServiceUrl`. Its JSON values are strings, so a TypeError from a non-dictionary entry is not modelled. `GetServiceUrl` is a function, so it modifies neither its parameters nor the access map.
- WaterLevel: opening and closing the file are I/O. Only the open raster (`GeoTiff`) is modelled.
