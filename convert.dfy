/**
 * `convert_glossis_netcdf_to_geotiff`: one GLOSSIS water-level domain file becomes a
 * three-band 1000 x 1000 raster (water level, surge, model-boundary mask) over the globe,
 * tagged with the source attributes and the two time stamps.
 */
module GlossisConvert {
  import opened Wrappers
  import opened UGrid
  import opened Antimeridian
  import opened Rasters
  import opened TimeFormat

  const Nx: nat := 1000
  const Ny: nat := 1000
  const DstEpsg: string := "4326"

  /** The timestep whose values are rasterized ("latest timestep" in the source). */
  const Timestep: nat := 0

  const ValueString: string := "waterlevel"

  const LayerTypes: map<string, seq<string>> :=
    map["currents" := ["currents_u", "currents_v"], "waterlevel" := ["water_level", "water_level_surge"]]

  /** The variables of the value string, in band order. */
  function Layers(): (ls: seq<string>)
    ensures ls == ["water_level", "water_level_surge"]
  {
    LayerTypes[ValueString]
  }

  /** A raster's affine georeferencing: x = a * col + b * row + c, y = d * col + e * row + f. */
  datatype Affine = Affine(a: real, b: real, c: real, d: real, e: real, f: real)

  /** `rasterio.transform.from_bounds(west, south, east, north, width, height)`. */
  function FromBounds(west: real, south: real, east: real, north: real, width: nat, height: nat): Affine
    requires width > 0 && height > 0
  {
    Affine((east - west) / width as real, 0.0, west, 0.0, (south - north) / height as real, north)
  }

  /** The transform of every band: the globe from -180 to 180 and from -85 to 85. */
  function GlobalTransform(): Affine {
    FromBounds(-180.0, -85.0, 180.0, 85.0, Nx, Ny)
  }

  /**
   * One domain file as read: its mesh, its variables (each indexed by time, then face), its
   * decoded `time` and `analysis_time` values, and its global attributes.
   */
  datatype Domain = Domain(
    mesh: Mesh,
    variables: map<string, seq<seq<real>>>,
    times: seq<DateTime>,
    analysisTimes: seq<DateTime>,
    metadata: map<string, string>)

  /** A point feature: the face id, its centroid and its values. */
  datatype Feature = Feature(id: nat, coordinates: Point, properties: map<string, real>)

  /** What the converter takes from the domain file before rasterizing. */
  datatype Prepared = Prepared(
    features: seq<Feature>,
    polys: seq<seq<Point>>,
    time: DateTime,
    analysisTime: DateTime,
    metadata: map<string, string>)

  /** The GeoTIFF written: file name, open() parameters, bands in order, and file tags. */
  datatype Output = Output(
    fileName: string,
    height: nat,
    width: nat,
    count: nat,
    dtype: string,
    crs: string,
    transform: Affine,
    bands: seq<Raster>,
    tags: map<string, string>)

  /** The exceptions that abort a conversion. */
  datatype ConvertError =
    | MeshIndexError              // IndexError in `nodes[faces]`
    | MissingVariable(name: string)   // KeyError in `data.variables[name]`
    | MissingTimestep(name: string)   // IndexError taking timestep 0 of `name`
    | MissingFaceValue(name: string)  // IndexError in `variable[face_id]`
    | MaskedCentroid(face: nat)       // geojson refuses the masked centroid of a face without real vertex
    | MaskedRingVertex(face: nat)     // a masked coordinate inside `face[:count]`
    | DegenerateRing(face: nat)       // a ring of one or two vertices
    | NoValidShapes                   // rasterize found no geometry to burn

  // ---------------------------------------------------------------------------
  // Features (one point per face)

  /** The items `ps` in front of a list that may have failed. */
  function Prepend<T>(ps: seq<T>, r: Result<seq<T>, ConvertError>): Result<seq<T>, ConvertError> {
    match r
    case Success(qs) => Success(ps + qs)
    case Failure(e) => Failure(e)
  }

  lemma PrependAppend<T>(ps: seq<T>, p: T, r: Result<seq<T>, ConvertError>)
    ensures Prepend(ps, Prepend([p], r)) == Prepend(ps + [p], r)
  {
    if r.Success? {
      assert ps + ([p] + r.value) == (ps + [p]) + r.value;
    }
  }

  function FeatureOf(k: nat, centroid: Point, v0: real, v1: real): Feature {
    Feature(k, centroid, map[Layers()[0] := v0, Layers()[1] := v1])
  }

  /**
   * The feature of face `k`, or the exception its loop iteration raises: `variable_0[face_id]`,
   * then `variable_1[face_id]`, then the point geometry, which geojson refuses when the
   * centroid is masked.
   */
  function FaceFeature(centroids: seq<Option<Point>>, v0: seq<real>, v1: seq<real>, k: nat): Result<Feature, ConvertError>
    requires k < |centroids|
  {
    if k >= |v0| then Failure(MissingFaceValue(Layers()[0]))
    else if k >= |v1| then Failure(MissingFaceValue(Layers()[1]))
    else match centroids[k]
      case None => Failure(MaskedCentroid(k))
      case Some(c) => Success(FeatureOf(k, c, v0[k], v1[k]))
  }

  /** The features of faces `k` onwards, or the error of the first face that has none. */
  function FeaturesFrom(centroids: seq<Option<Point>>, v0: seq<real>, v1: seq<real>, k: nat): Result<seq<Feature>, ConvertError>
    requires k <= |centroids|
    decreases |centroids| - k
  {
    if k == |centroids| then Success([])
    else
      match FaceFeature(centroids, v0, v1, k)
      case Failure(e) => Failure(e)
      case Success(feature) => Prepend([feature], FeaturesFrom(centroids, v0, v1, k + 1))
  }

  /**
   * The feature list is defined exactly when every face has a feature; it then holds one
   * feature per face in face order, and otherwise the error is that of the first failing face.
   */
  lemma {:induction false} FeaturesPerFace(centroids: seq<Option<Point>>, v0: seq<real>, v1: seq<real>, k: nat)
    requires k <= |centroids|
    ensures FeaturesFrom(centroids, v0, v1, k).Success?
        <==> forall g :: k <= g < |centroids| ==> FaceFeature(centroids, v0, v1, g).Success?
    ensures FeaturesFrom(centroids, v0, v1, k).Success? ==>
      && |FeaturesFrom(centroids, v0, v1, k).value| == |centroids| - k
      && forall g :: k <= g < |centroids| ==>
           FeaturesFrom(centroids, v0, v1, k).value[g - k] == FaceFeature(centroids, v0, v1, g).value
    ensures FeaturesFrom(centroids, v0, v1, k).Failure? ==>
      exists g :: k <= g < |centroids|
        && FaceFeature(centroids, v0, v1, g) == Failure(FeaturesFrom(centroids, v0, v1, k).error)
        && forall h :: k <= h < g ==> FaceFeature(centroids, v0, v1, h).Success?
    ensures FeaturesFrom(centroids, v0, v1, k).Failure? ==>
      FeaturesFrom(centroids, v0, v1, k).error.MissingFaceValue? || FeaturesFrom(centroids, v0, v1, k).error.MaskedCentroid?
    decreases |centroids| - k
  {
    if k < |centroids| {
      FeaturesPerFace(centroids, v0, v1, k + 1);
      var rest := FeaturesFrom(centroids, v0, v1, k + 1);
      if FaceFeature(centroids, v0, v1, k).Success? && rest.Failure? {
        var g :| k + 1 <= g < |centroids|
          && FaceFeature(centroids, v0, v1, g) == Failure(rest.error)
          && forall h :: k + 1 <= h < g ==> FaceFeature(centroids, v0, v1, h).Success?;
        assert forall h :: k <= h < g ==> FaceFeature(centroids, v0, v1, h).Success?;
      }
    }
  }

  /**
   * A face's feature exists exactly when both variables reach the face and its centroid is
   * not masked; it then has the face id, the centroid and exactly the two values.
   */
  lemma FaceFeatureIff(centroids: seq<Option<Point>>, v0: seq<real>, v1: seq<real>, k: nat)
    requires k < |centroids|
    ensures FaceFeature(centroids, v0, v1, k).Success? <==> k < |v0| && k < |v1| && centroids[k].Some?
    ensures FaceFeature(centroids, v0, v1, k) == Failure(MaskedCentroid(k)) <==> k < |v0| && k < |v1| && centroids[k].None?
    ensures FaceFeature(centroids, v0, v1, k).Success? ==>
      var feature := FaceFeature(centroids, v0, v1, k).value;
      && feature.id == k
      && Some(feature.coordinates) == centroids[k]
      && feature.properties.Keys == {"water_level", "water_level_surge"}
      && feature.properties["water_level"] == v0[k]
      && feature.properties["water_level_surge"] == v1[k]
  {
  }

  /** A feature loop that got through every face holds, for each face, its centroid and both values. */
  lemma {:induction false} LoopFeatures(centroids: seq<Option<Point>>, v0: seq<real>, v1: seq<real>)
    requires FeaturesFrom(centroids, v0, v1, 0).Success?
    ensures |FeaturesFrom(centroids, v0, v1, 0).value| == |centroids|
    ensures forall k :: 0 <= k < |centroids| ==> k < |v0| && k < |v1| && centroids[k].Some?
    ensures forall k :: 0 <= k < |centroids| && k < |v0| && k < |v1| && centroids[k].Some? ==>
      FeaturesFrom(centroids, v0, v1, 0).value[k] == FeatureOf(k, centroids[k].value, v0[k], v1[k])
  {
    FeaturesPerFace(centroids, v0, v1, 0);
    var features := FeaturesFrom(centroids, v0, v1, 0).value;
    forall k | 0 <= k < |centroids|
      ensures k < |v0| && k < |v1| && centroids[k].Some?
      ensures features[k] == FeatureOf(k, centroids[k].value, v0[k], v1[k])
    {
      FaceFeatureIff(centroids, v0, v1, k);
      assert features[k - 0] == FaceFeature(centroids, v0, v1, k).value;
    }
  }

  /** The loop that appends one feature per face centroid, in face order, until a face fails. */
  method BuildFeatures(centroids: seq<Option<Point>>, v0: seq<real>, v1: seq<real>) returns (r: Result<seq<Feature>, ConvertError>)
    ensures r == FeaturesFrom(centroids, v0, v1, 0)
  {
    var features: seq<Feature> := [];
    var faceId := 0;
    var all := FeaturesFrom(centroids, v0, v1, 0);
    assert all.Success? ==> [] + all.value == all.value;
    while faceId < |centroids|
      invariant 0 <= faceId <= |centroids|
      invariant FeaturesFrom(centroids, v0, v1, 0) == Prepend(features, FeaturesFrom(centroids, v0, v1, faceId))
    {
      if faceId >= |v0| {
        return Failure(MissingFaceValue(Layers()[0]));
      }
      if faceId >= |v1| {
        return Failure(MissingFaceValue(Layers()[1]));
      }
      var centroid := centroids[faceId];
      if centroid.None? {
        return Failure(MaskedCentroid(faceId));
      }
      var feature := Feature(faceId, centroid.value, map[Layers()[0] := v0[faceId], Layers()[1] := v1[faceId]]);
      PrependAppend(features, feature, FeaturesFrom(centroids, v0, v1, faceId + 1));
      features := features + [feature];
      faceId := faceId + 1;
    }
    assert features + [] == features;
    return Success(features);
  }

  // ---------------------------------------------------------------------------
  // Boundary polygons (one per face)

  predicate Aligned(coords: seq<seq<Option<Point>>>, faces: seq<seq<Entry>>) {
    |coords| == |faces| && forall f :: 0 <= f < |faces| ==> |coords[f]| == |faces[f]|
  }

  /** The polygon of face `f`: its ring, moved east when it touches the antimeridian. */
  function FacePolygon(coords: seq<Option<Point>>, row: seq<Entry>, f: nat): Result<seq<Point>, ConvertError>
    requires |coords| == |row|
  {
    match Ring(coords, ValidCount(row))
    case None => Failure(MaskedRingVertex(f))
    case Some(ring) => if 0 < |ring| < 3 then Failure(DegenerateRing(f)) else Success(MaskPolygon(ring))
  }

  /** The polygons of faces `f` onwards, or the error of the first face that has none. */
  function PolygonsFrom(coords: seq<seq<Option<Point>>>, faces: seq<seq<Entry>>, f: nat): Result<seq<seq<Point>>, ConvertError>
    requires Aligned(coords, faces) && f <= |faces|
    decreases |faces| - f
  {
    if f == |faces| then Success([])
    else
      match FacePolygon(coords[f], faces[f], f)
      case Failure(e) => Failure(e)
      case Success(p) => Prepend([p], PolygonsFrom(coords, faces, f + 1))
  }

  /**
   * The polygon list is defined exactly when every face has a polygon; it then holds one
   * polygon per face in face order, and otherwise the error is that of the first failing face.
   */
  lemma {:induction false} PolygonsPerFace(coords: seq<seq<Option<Point>>>, faces: seq<seq<Entry>>, f: nat)
    requires Aligned(coords, faces) && f <= |faces|
    ensures PolygonsFrom(coords, faces, f).Success?
        <==> forall g :: f <= g < |faces| ==> FacePolygon(coords[g], faces[g], g).Success?
    ensures PolygonsFrom(coords, faces, f).Success? ==>
      && |PolygonsFrom(coords, faces, f).value| == |faces| - f
      && forall g :: f <= g < |faces| ==>
           PolygonsFrom(coords, faces, f).value[g - f] == FacePolygon(coords[g], faces[g], g).value
    ensures PolygonsFrom(coords, faces, f).Failure? ==>
      exists g :: f <= g < |faces|
        && FacePolygon(coords[g], faces[g], g) == Failure(PolygonsFrom(coords, faces, f).error)
        && forall h :: f <= h < g ==> FacePolygon(coords[h], faces[h], h).Success?
    ensures PolygonsFrom(coords, faces, f).Failure? ==>
      PolygonsFrom(coords, faces, f).error.MaskedRingVertex? || PolygonsFrom(coords, faces, f).error.DegenerateRing?
    decreases |faces| - f
  {
    if f < |faces| {
      PolygonsPerFace(coords, faces, f + 1);
      var r := PolygonsFrom(coords, faces, f);
      var rest := PolygonsFrom(coords, faces, f + 1);
      if FacePolygon(coords[f], faces[f], f).Success? && rest.Failure? {
        var g :| f + 1 <= g < |faces|
          && FacePolygon(coords[g], faces[g], g) == Failure(rest.error)
          && forall h :: f + 1 <= h < g ==> FacePolygon(coords[h], faces[h], h).Success?;
        assert forall h :: f <= h < g ==> FacePolygon(coords[h], faces[h], h).Success?;
      }
    }
  }

  /**
   * The loop over faces that builds each polygon from `face[:count]`, moves it when it
   * touches the antimeridian and appends it; a face without a valid ring aborts it.
   */
  method BuildPolygons(coords: seq<seq<Option<Point>>>, faces: seq<seq<Entry>>) returns (r: Result<seq<seq<Point>>, ConvertError>)
    requires Aligned(coords, faces)
    ensures r == PolygonsFrom(coords, faces, 0)
  {
    var polys: seq<seq<Point>> := [];
    var i := 0;
    var all := PolygonsFrom(coords, faces, 0);
    assert all.Success? ==> [] + all.value == all.value;
    while i < |faces|
      invariant 0 <= i <= |faces|
      invariant PolygonsFrom(coords, faces, 0) == Prepend(polys, PolygonsFrom(coords, faces, i))
    {
      var count := ValidCount(faces[i]);
      var face := Ring(coords[i], count);
      if face.None? {
        return Failure(MaskedRingVertex(i));
      }
      if 0 < |face.value| < 3 {
        return Failure(DegenerateRing(i));
      }
      var poly := face.value;
      if IntersectsMeridian(poly) {
        poly := ShiftCoords(face.value);
      }
      PrependAppend(polys, poly, PolygonsFrom(coords, faces, i + 1));
      polys := polys + [poly];
      i := i + 1;
    }
    assert polys + [] == polys;
    return Success(polys);
  }

  // ---------------------------------------------------------------------------
  // Reading one domain

  /** `data.variables[name][t]`. */
  function VariableSlice(variables: map<string, seq<seq<real>>>, name: string): Result<seq<real>, ConvertError> {
    if name !in variables then Failure(MissingVariable(name))
    else if |variables[name]| <= Timestep then Failure(MissingTimestep(name))
    else Success(variables[name][Timestep])
  }

  /** Everything the loop body takes from one domain file, with its exceptions in source order. */
  function Prepare(d: Domain): Result<Prepared, ConvertError> {
    match Ugrid(d.mesh)
    case Failure(_) => Failure(MeshIndexError)
    case Success(grid) =>
      if |d.analysisTimes| == 0 then Failure(MissingTimestep("analysis_time"))
      else if |d.times| <= Timestep then Failure(MissingTimestep("time"))
      else
        match (VariableSlice(d.variables, Layers()[0]), VariableSlice(d.variables, Layers()[1]))
        case (Failure(e), _) => Failure(e)
        case (_, Failure(e)) => Failure(e)
        case (Success(v0), Success(v1)) => FaceLoops(d, grid, v0, v1)
  }

  /** The two loops over the faces: the features first, then the boundary polygons. */
  function FaceLoops(d: Domain, grid: Grid, v0: seq<real>, v1: seq<real>): Result<Prepared, ConvertError>
    requires |d.times| > Timestep && |d.analysisTimes| > 0
    requires Aligned(grid.faceCoordinates, grid.faces)
  {
    match FeaturesFrom(grid.faceCentroids, v0, v1, 0)
    case Failure(e) => Failure(e)
    case Success(features) =>
      match PolygonsFrom(grid.faceCoordinates, grid.faces, 0)
      case Failure(e) => Failure(e)
      case Success(polys) =>
        Success(Prepared(features, polys, d.times[Timestep], d.analysisTimes[0], d.metadata))
  }

  /** The loop body over the domain files, run on the first one only. */
  method LoadDomain(d: Domain) returns (r: Result<Prepared, ConvertError>)
    ensures r == Prepare(d)
  {
    var g := Ugrid(d.mesh);
    if g.Failure? {
      return Failure(MeshIndexError);
    }
    var grid := g.value;
    if |d.analysisTimes| == 0 {
      return Failure(MissingTimestep("analysis_time"));
    }
    if |d.times| <= Timestep {
      return Failure(MissingTimestep("time"));
    }
    var analysisTime := d.analysisTimes[0];
    var time := d.times[Timestep];
    var centroids := grid.faceCentroids;
    var variable0 := VariableSlice(d.variables, Layers()[0]);
    if variable0.Failure? {
      return Failure(variable0.error);
    }
    var variable1 := VariableSlice(d.variables, Layers()[1]);
    if variable1.Failure? {
      return Failure(variable1.error);
    }
    var features := BuildFeatures(centroids, variable0.value, variable1.value);
    if features.Failure? {
      return Failure(features.error);
    }
    var polys := BuildPolygons(grid.faceCoordinates, grid.faces);
    if polys.Failure? {
      return Failure(polys.error);
    }
    return Success(Prepared(features.value, polys.value, time, analysisTime, d.metadata));
  }

  // ---------------------------------------------------------------------------
  // Rasterizing and writing

  /** The `(geometry, value)` pairs of one variable: each feature's point with its value. */
  function ValueShapes(features: seq<Feature>, layer: string): seq<Shape>
    requires forall k :: 0 <= k < |features| ==> layer in features[k].properties
  {
    seq(|features|, k requires 0 <= k < |features| =>
      Shape(PointGeom(features[k].coordinates), features[k].properties[layer]))
  }

  /** The mask pairs: polygon k burns the value k. */
  function MaskShapes(polys: seq<seq<Point>>): seq<Shape> {
    seq(|polys|, k requires 0 <= k < |polys| => Shape(PolygonGeom(polys[k]), k as real))
  }

  predicate HasLayers(features: seq<Feature>) {
    forall k :: 0 <= k < |features| ==> Layers()[0] in features[k].properties && Layers()[1] in features[k].properties
  }

  /** The burned rasters in `layer_types` order, the mask raster last. */
  function Rasterized(p: Prepared, covers: Coverage, alg: MergeAlg): Result<seq<Raster>, ConvertError>
    requires HasLayers(p.features)
  {
    var r0 := RasterizeShapes(ValueShapes(p.features, Layers()[0]), Nx, Ny, NoData, covers, alg);
    var r1 := RasterizeShapes(ValueShapes(p.features, Layers()[1]), Nx, Ny, NoData, covers, alg);
    var mask := RasterizeShapes(MaskShapes(p.polys), Nx, Ny, NoData, covers, alg);
    if r0.Failure? || r1.Failure? || mask.Failure? then Failure(NoValidShapes)
    else Success([r0.value, r1.value, mask.value])
  }

  predicate AllShaped(rasters: seq<Raster>) {
    forall b :: 0 <= b < |rasters| ==> HasShape(rasters[b], Nx, Ny)
  }

  /** Band b + 1 of the file: interpolated for the first two rasters, the 0/1 mask after that. */
  function BandsOf(rasters: seq<Raster>, interp: Interpolator): (bands: seq<Raster>)
    requires AllShaped(rasters)
  {
    seq(|rasters|, b requires 0 <= b < |rasters| =>
      if b <= 1 then Interpolated(rasters[b], Nx, Ny, interp) else MaskIndicator(rasters[b], Nx, Ny))
  }

  /** `path + value_string + '_' + time.strftime("%Y%m%d_%H%M%S") + '_interpolated.tif'`. */
  function OutputFileName(path: string, time: DateTime): string {
    path + ValueString + "_" + FileStamp(time) + "_interpolated.tif"
  }

  function TimeMeta(time: DateTime, analysisTime: DateTime): map<string, string> {
    map["system:time_start" := TagStamp(time), "analysis_time" := TagStamp(analysisTime)]
  }

  /** `update_tags(**metadata)` followed by `update_tags(**time_meta)`. */
  function Tags(metadata: map<string, string>, time: DateTime, analysisTime: DateTime): map<string, string> {
    metadata + TimeMeta(time, analysisTime)
  }

  function Assemble(path: string, p: Prepared, covers: Coverage, alg: MergeAlg, interp: Interpolator): Result<Output, ConvertError>
    requires HasLayers(p.features)
  {
    match Rasterized(p, covers, alg)
    case Failure(e) => Failure(e)
    case Success(rasters) =>
      Success(Output(OutputFileName(path, p.time), Nx, Ny, |rasters|, "float64", "epsg:" + DstEpsg,
                     GlobalTransform(), BandsOf(rasters, interp), Tags(p.metadata, p.time, p.analysisTime)))
  }

  /** The conversion of one domain file. */
  function ConvertDomain(path: string, d: Domain, covers: Coverage, alg: MergeAlg, interp: Interpolator): Result<Output, ConvertError> {
    match Prepare(d)
    case Failure(e) => Failure(e)
    case Success(p) =>
      PrepareHasLayers(d);
      Assemble(path, p, covers, alg, interp)
  }

  lemma PrepareHasLayers(d: Domain)
    requires Prepare(d).Success?
    ensures HasLayers(Prepare(d).value.features)
  {
    PrepareSucceeds(d);
    var grid := Ugrid(d.mesh).value;
    var v0 := VariableSlice(d.variables, Layers()[0]).value;
    var v1 := VariableSlice(d.variables, Layers()[1]).value;
    LoopFeatures(grid.faceCentroids, v0, v1);
  }

  /** What a successful `Prepare` went through: every stage succeeded, and both face loops. */
  lemma PrepareSucceeds(d: Domain)
    requires Prepare(d).Success?
    ensures Ugrid(d.mesh).Success? && |d.times| > Timestep && |d.analysisTimes| > 0
    ensures VariableSlice(d.variables, Layers()[0]).Success? && VariableSlice(d.variables, Layers()[1]).Success?
    ensures var grid := Ugrid(d.mesh).value;
      var v0 := VariableSlice(d.variables, Layers()[0]).value;
      var v1 := VariableSlice(d.variables, Layers()[1]).value;
      && FeaturesFrom(grid.faceCentroids, v0, v1, 0).Success?
      && PolygonsFrom(grid.faceCoordinates, grid.faces, 0).Success?
      && Prepare(d).value.features == FeaturesFrom(grid.faceCentroids, v0, v1, 0).value
      && Prepare(d).value.polys == PolygonsFrom(grid.faceCoordinates, grid.faces, 0).value
  {
  }

  /** A `Prepare` that failed in a face loop got through every stage before the loops. */
  lemma PrepareFailsInLoops(d: Domain, e: ConvertError)
    requires Prepare(d) == Failure(e)
    requires e.MissingFaceValue? || e.MaskedCentroid? || e.MaskedRingVertex? || e.DegenerateRing?
    ensures Ugrid(d.mesh).Success? && |d.times| > Timestep && |d.analysisTimes| > 0
    ensures VariableSlice(d.variables, Layers()[0]).Success? && VariableSlice(d.variables, Layers()[1]).Success?
    ensures FaceLoops(d, Ugrid(d.mesh).value, VariableSlice(d.variables, Layers()[0]).value,
                      VariableSlice(d.variables, Layers()[1]).value) == Failure(e)
  {
  }

  /** The band-writing loop: `griddata` for bands 1 and 2, the `is_grid` indicator for the rest. */
  method WriteBands(rasters: seq<Raster>, interp: Interpolator) returns (bands: seq<Raster>)
    requires AllShaped(rasters)
    ensures bands == BandsOf(rasters, interp)
  {
    bands := [];
    var i := 0;
    while i < |rasters|
      invariant 0 <= i <= |rasters|
      invariant bands == BandsOf(rasters, interp)[..i]
    {
      var layer := rasters[i];
      var band;
      if i <= 1 {
        band := Interpolated(layer, Nx, Ny, interp);
      } else {
        var isGrid := BoundaryMaskBand(layer, Nx, Ny);
        band := GridOf(isGrid);
        assert band == MaskIndicator(layer, Nx, Ny) by {
          assert forall x :: 0 <= x < Nx ==> band[x] == MaskIndicator(layer, Nx, Ny)[x];
        }
      }
      bands := bands + [band];
      i := i + 1;
    }
  }

  /** Rasterizing the features and polygons, then writing the bands and tags. */
  method WriteRaster(path: string, p: Prepared, covers: Coverage, alg: MergeAlg, interp: Interpolator)
    returns (r: Result<Output, ConvertError>)
    requires HasLayers(p.features)
    ensures r == Assemble(path, p, covers, alg, interp)
  {
    var savePath := path + ValueString + "_" + FileStamp(p.time);
    var rs := Rasterized(p, covers, alg);
    if rs.Failure? {
      return Failure(rs.error);
    }
    var rasters := rs.value;
    var bands := WriteBands(rasters, interp);
    var timeMeta := TimeMeta(p.time, p.analysisTime);
    var tags := p.metadata + timeMeta;
    return Success(Output(savePath + "_interpolated.tif", Nx, Ny, |rasters|, "float64", "epsg:" + DstEpsg,
                          GlobalTransform(), bands, tags));
  }

  /**
   * `convert_glossis_netcdf_to_geotiff(path, netcdfs, bucket_name)`: nothing for an empty list,
   * otherwise the conversion of the first domain file alone (the loop breaks after it).
   */
  method Convert(path: string, netcdfs: seq<Domain>, covers: Coverage, alg: MergeAlg, interp: Interpolator)
    returns (r: Option<Result<Output, ConvertError>>)
    ensures |netcdfs| == 0 <==> r == None
    ensures |netcdfs| > 0 ==> r == Some(ConvertDomain(path, netcdfs[0], covers, alg, interp))
  {
    if |netcdfs| == 0 {
      return None;
    }
    var loaded := LoadDomain(netcdfs[0]);
    if loaded.Failure? {
      return Some(Failure(loaded.error));
    }
    PrepareHasLayers(netcdfs[0]);
    var written := WriteRaster(path, loaded.value, covers, alg, interp);
    return Some(written);
  }

  // ---------------------------------------------------------------------------
  // Properties of the conversion

  /**
   * One feature per face, in face order: every face has a real vertex, and feature k has id k,
   * the mean of face k's real vertices as its point, and the two variables of face k at
   * timestep 0 as its properties.
   */
  lemma {:induction false} PreparedFeatures(d: Domain)
    requires Prepare(d).Success?
    ensures "water_level" in d.variables && |d.variables["water_level"]| > Timestep
    ensures "water_level_surge" in d.variables && |d.variables["water_level_surge"]| > Timestep
    ensures |Prepare(d).value.features| == |d.mesh.faces|
    ensures forall k :: 0 <= k < |d.mesh.faces| ==>
      && RowIndexable(d.mesh.nodes, d.mesh.faces[k])
      && ValidCount(d.mesh.faces[k]) > 0
      && k < |d.variables["water_level"][Timestep]| && k < |d.variables["water_level_surge"][Timestep]|
      && Prepare(d).value.features[k].id == k
      && Prepare(d).value.features[k].coordinates == Mean(ValidVertices(d.mesh.nodes, d.mesh.faces[k]))
      && Prepare(d).value.features[k].properties.Keys == {"water_level", "water_level_surge"}
      && Prepare(d).value.features[k].properties["water_level"] == d.variables["water_level"][Timestep][k]
      && Prepare(d).value.features[k].properties["water_level_surge"] == d.variables["water_level_surge"][Timestep][k]
  {
    PrepareSucceeds(d);
    var grid := Ugrid(d.mesh).value;
    var v0 := VariableSlice(d.variables, Layers()[0]).value;
    var v1 := VariableSlice(d.variables, Layers()[1]).value;
    LoopFeatures(grid.faceCentroids, v0, v1);
    forall k | 0 <= k < |d.mesh.faces|
      ensures ValidCount(d.mesh.faces[k]) > 0
      ensures Mean(ValidVertices(d.mesh.nodes, d.mesh.faces[k])) == grid.faceCentroids[k].value
    {
      CentroidIsMeanOfValidVertices(d.mesh.nodes, d.mesh.faces[k]);
    }
  }

  /** The conversion stops at a masked centroid only for a face whose cells are all masked. */
  lemma MaskedCentroidMeansEmptyFace(d: Domain, f: nat)
    requires Prepare(d) == Failure(MaskedCentroid(f))
    ensures f < |d.mesh.faces| && RowIndexable(d.mesh.nodes, d.mesh.faces[f])
    ensures ValidCount(d.mesh.faces[f]) == 0
  {
    PrepareFailsInLoops(d, MaskedCentroid(f));
    var grid := Ugrid(d.mesh).value;
    var v0 := VariableSlice(d.variables, Layers()[0]).value;
    var v1 := VariableSlice(d.variables, Layers()[1]).value;
    FeaturesPerFace(grid.faceCentroids, v0, v1, 0);
    PolygonsPerFace(grid.faceCoordinates, grid.faces, 0);
    var g :| 0 <= g < |grid.faceCentroids|
      && FaceFeature(grid.faceCentroids, v0, v1, g) == Failure(MaskedCentroid(f));
    FaceFeatureIff(grid.faceCentroids, v0, v1, g);
    CentroidIsMeanOfValidVertices(d.mesh.nodes, d.mesh.faces[g]);
  }

  /**
   * One polygon per face, in face order: every face row is padded at the end, and polygon k
   * is face k's real vertices (at least three), moved east when they touch the antimeridian.
   */
  lemma {:induction false} PreparedPolygons(d: Domain)
    requires Prepare(d).Success?
    ensures |Prepare(d).value.polys| == |d.mesh.faces|
    ensures forall k :: 0 <= k < |d.mesh.faces| ==>
      && RowIndexable(d.mesh.nodes, d.mesh.faces[k])
      && Padded(d.mesh.faces[k])
      && |ValidVertices(d.mesh.nodes, d.mesh.faces[k])| >= 3
      && Prepare(d).value.polys[k] == MaskPolygon(ValidVertices(d.mesh.nodes, d.mesh.faces[k]))
  {
    var grid := Ugrid(d.mesh).value;
    PreparedFeatures(d);
    PolygonsPerFace(grid.faceCoordinates, grid.faces, 0);
    forall k | 0 <= k < |d.mesh.faces|
      ensures Padded(d.mesh.faces[k])
      ensures Prepare(d).value.polys[k] == MaskPolygon(ValidVertices(d.mesh.nodes, d.mesh.faces[k]))
      ensures |ValidVertices(d.mesh.nodes, d.mesh.faces[k])| >= 3
    {
      RingDefinedIffPadded(d.mesh.nodes, d.mesh.faces[k]);
      RingIsValidVertices(d.mesh.nodes, d.mesh.faces[k]);
    }
  }

  /** `nodes[faces]` aborts the conversion exactly when some stored index, masked or not, is out of range. */
  lemma MeshIndexErrorIff(d: Domain)
    ensures Prepare(d) == Failure(MeshIndexError)
        <==> exists f :: 0 <= f < |d.mesh.faces| && !RowIndexable(d.mesh.nodes, d.mesh.faces[f])
  {
    if Ugrid(d.mesh).Success? {
      var grid := Ugrid(d.mesh).value;
      var v0 := VariableSlice(d.variables, Layers()[0]);
      var v1 := VariableSlice(d.variables, Layers()[1]);
      if v0.Success? && v1.Success? {
        FeaturesPerFace(grid.faceCentroids, v0.value, v1.value, 0);
      }
      PolygonsPerFace(grid.faceCoordinates, grid.faces, 0);
    }
  }

  /** A masked coordinate inside `face[:count]` happens only on a face whose padding is not all at the end. */
  lemma MaskedRingVertexMeansUnpadded(d: Domain, f: nat)
    requires Prepare(d) == Failure(MaskedRingVertex(f))
    ensures f < |d.mesh.faces| && !Padded(d.mesh.faces[f])
  {
    PrepareFailsInLoops(d, MaskedRingVertex(f));
    var grid := Ugrid(d.mesh).value;
    var v0 := VariableSlice(d.variables, Layers()[0]).value;
    var v1 := VariableSlice(d.variables, Layers()[1]).value;
    FeaturesPerFace(grid.faceCentroids, v0, v1, 0);
    PolygonsPerFace(grid.faceCoordinates, grid.faces, 0);
    var g :| 0 <= g < |grid.faces|
      && FacePolygon(grid.faceCoordinates[g], grid.faces[g], g) == Failure(MaskedRingVertex(f));
    RingDefinedIffPadded(d.mesh.nodes, d.mesh.faces[g]);
  }

  /**
   * The file has `len(layer_types[value_string]) + 1` = 3 bands, each of shape (nx, ny), all
   * sharing the global transform, in float64 and EPSG:4326.
   */
  lemma OutputLayout(path: string, d: Domain, covers: Coverage, alg: MergeAlg, interp: Interpolator)
    requires ConvertDomain(path, d, covers, alg, interp).Success?
    ensures var o := ConvertDomain(path, d, covers, alg, interp).value;
      && o.count == |o.bands| == |Layers()| + 1 == 3
      && (forall b :: 0 <= b < |o.bands| ==> HasShape(o.bands[b], Nx, Ny))
      && o.height == Nx && o.width == Ny
      && o.transform == GlobalTransform()
      && o.crs == "epsg:4326" && o.dtype == "float64"
  {
  }

  /**
   * Under overwriting, pixel (i, j) of the boundary-mask band is 1.0 exactly when some face
   * polygon burns it and 0.0 otherwise: polygon k burns k, which is never NODATA.
   */
  lemma MaskBandMarksPolygons(path: string, d: Domain, covers: Coverage, interp: Interpolator, i: nat, j: nat)
    requires ConvertDomain(path, d, covers, Replace, interp).Success?
    requires i < Nx && j < Ny
    ensures var polys := Prepare(d).value.polys;
      ConvertDomain(path, d, covers, Replace, interp).value.bands[2][i][j]
        == if exists k :: 0 <= k < |polys| && Burns(covers, PolygonGeom(polys[k]), i, j) then 1.0 else 0.0
  {
    var p := Prepare(d).value;
    var shapes := MaskShapes(p.polys);
    PrepareHasLayers(d);
    var rasters := Rasterized(p, covers, Replace).value;
    assert rasters[2][i][j] == Burn(shapes, covers, Replace, NoData, i, j);
    ReplaceMarksCoverage(shapes, covers, NoData, i, j);
    if exists m :: 0 <= m < |shapes| && Burns(covers, shapes[m].geometry, i, j) {
      var m :| 0 <= m < |shapes| && Burns(covers, shapes[m].geometry, i, j);
      assert Burns(covers, PolygonGeom(p.polys[m]), i, j);
    }
    if exists k :: 0 <= k < |p.polys| && Burns(covers, PolygonGeom(p.polys[k]), i, j) {
      var k :| 0 <= k < |p.polys| && Burns(covers, PolygonGeom(p.polys[k]), i, j);
      assert Burns(covers, shapes[k].geometry, i, j);
    }
  }

  /**
   * Under overwriting, pixel (i, j) of the raster burned for variable b holds the value of the
   * last feature whose point burns it.
   */
  lemma ValueRasterFromLastFeature(p: Prepared, covers: Coverage, b: nat, i: nat, j: nat, k: nat)
    requires HasLayers(p.features) && Rasterized(p, covers, Replace).Success?
    requires b < 2 && i < Nx && j < Ny
    requires k < |p.features| && Burns(covers, PointGeom(p.features[k].coordinates), i, j)
    requires forall m :: k < m < |p.features| ==> !Burns(covers, PointGeom(p.features[m].coordinates), i, j)
    ensures Rasterized(p, covers, Replace).value[b][i][j] == p.features[k].properties[Layers()[b]]
  {
    var shapes := ValueShapes(p.features, Layers()[b]);
    assert Rasterized(p, covers, Replace).value[b][i][j] == Burn(shapes, covers, Replace, NoData, i, j);
    LastCoverWins(shapes, covers, NoData, i, j, k);
  }

  /** A pixel that no feature point burns stays NODATA in both value rasters, so it is no control point. */
  lemma UnburnedValuePixelIsNoData(p: Prepared, covers: Coverage, alg: MergeAlg, b: nat, i: nat, j: nat)
    requires HasLayers(p.features) && Rasterized(p, covers, alg).Success?
    requires b < 2 && i < Nx && j < Ny
    requires forall m :: 0 <= m < |p.features| ==> !Burns(covers, PointGeom(p.features[m].coordinates), i, j)
    ensures Rasterized(p, covers, alg).value[b][i][j] == NoData
    ensures Pixel(i, j) !in ControlPoints(Rasterized(p, covers, alg).value[b])
  {
    var rasters := Rasterized(p, covers, alg).value;
    var shapes := ValueShapes(p.features, Layers()[b]);
    assert rasters[b][i][j] == Burn(shapes, covers, alg, NoData, i, j);
    UncoveredKeepsFill(shapes, covers, alg, NoData, i, j);
    ControlPointsExact(rasters[b]);
  }

  /**
   * The tags are the source attributes overridden by the two time tags: every attribute key
   * survives, the time tags replace same-named attributes, and each stamp reads back as its time.
   */
  lemma TagsOverride(metadata: map<string, string>, time: DateTime, analysisTime: DateTime)
    requires Valid(time) && Valid(analysisTime)
    ensures var tags := Tags(metadata, time, analysisTime);
      && tags.Keys == metadata.Keys + {"system:time_start", "analysis_time"}
      && ParseStamp(tags["system:time_start"]) == Some(time)
      && ParseStamp(tags["analysis_time"]) == Some(analysisTime)
      && forall key :: key in metadata && key != "system:time_start" && key != "analysis_time" ==>
           tags[key] == metadata[key]
  {
    StampRoundTrip(time, ' ');
    StampRoundTrip(analysisTime, ' ');
  }

  /** The file's tags come from the first timestep, the analysis time and the source attributes. */
  lemma OutputTags(path: string, d: Domain, covers: Coverage, alg: MergeAlg, interp: Interpolator)
    requires ConvertDomain(path, d, covers, alg, interp).Success?
    ensures |d.times| > Timestep && |d.analysisTimes| > 0
    ensures ConvertDomain(path, d, covers, alg, interp).value.tags
      == Tags(d.metadata, d.times[Timestep], d.analysisTimes[0])
  {
  }

  /**
   * The output file name is the path, "waterlevel_", the stamp of the first timestep and
   * "_interpolated.tif"; the stamp in it reads back as that timestep.
   */
  lemma OutputFileNameStamp(path: string, time: DateTime)
    requires Valid(time)
    ensures var name := OutputFileName(path, time);
      && |name| == |path| + 43
      && name[..|path|] == path
      && name[|path|..|path| + 11] == "waterlevel_"
      && ParseStamp(name[|path| + 11..|path| + 26]) == Some(time)
      && name[|path| + 26..] == "_interpolated.tif"
  {
    StampRoundTrip(time, '_');
    var name := OutputFileName(path, time);
    assert name == path + "waterlevel_" + FileStamp(time) + "_interpolated.tif";
    assert name[|path| + 11..|path| + 26] == FileStamp(time);
  }
}
