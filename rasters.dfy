/**
 * Burning shapes into a regular grid (`rasterio.features.rasterize`), the control points of a
 * burned layer, the interpolated value bands and the boundary-mask band of the GLOSSIS
 * converter.
 */
module Rasters {
  import opened Wrappers
  import opened UGrid

  /** The fill value of every burned raster and the marker of "no control point". */
  const NoData: real := -9999.0

  /** A band of `nx` rows of `ny` pixels each; `raster[i][j]` is pixel (i, j). */
  type Raster = seq<seq<real>>

  datatype Pixel = Pixel(row: nat, col: nat)

  /** A feature's point or a boundary polygon. */
  datatype Geometry = PointGeom(at: Point) | PolygonGeom(ring: seq<Point>)

  /** One `(geometry, value)` pair handed to rasterize. */
  datatype Shape = Shape(geometry: Geometry, value: real)

  /** How a burned value combines with what the pixel holds: overwrite (rasterio's default) or add. */
  datatype MergeAlg = Replace | Add

  /**
   * Whether a geometry burns pixel (i, j) under the converter's transform: rasterio's
   * pixel-coverage rule for points and polygons, taken as given.
   */
  type Coverage = (Geometry, nat, nat) -> bool

  /**
   * `scipy.interpolate.griddata(points, values, query, method='linear')` at one query pixel,
   * taken as given.
   */
  type Interpolator = (seq<Pixel>, seq<real>, Pixel) -> real

  predicate HasShape(r: Raster, nx: nat, ny: nat) {
    |r| == nx && forall i :: 0 <= i < |r| ==> |r[i]| == ny
  }

  function Merge(alg: MergeAlg, current: real, value: real): real {
    match alg
    case Replace => value
    case Add => current + value
  }

  /**
   * Geometries rasterize accepts: every point, and a polygon whose ring has at least three
   * vertices. Others (the empty polygon) are skipped with a warning.
   */
  predicate Burnable(g: Geometry) {
    g.PolygonGeom? ==> |g.ring| >= 3
  }

  /** Whether a shape's geometry is burned into pixel (i, j). */
  predicate Burns(covers: Coverage, g: Geometry, i: nat, j: nat) {
    Burnable(g) && covers(g, i, j)
  }

  /** The value of pixel (i, j) after burning the shapes in order onto the fill value. */
  function Burn(shapes: seq<Shape>, covers: Coverage, alg: MergeAlg, fill: real, i: nat, j: nat): real {
    if |shapes| == 0 then fill
    else
      var before := Burn(shapes[..|shapes| - 1], covers, alg, fill, i, j);
      var last := shapes[|shapes| - 1];
      if Burns(covers, last.geometry, i, j) then Merge(alg, before, last.value) else before
  }

  /** The ValueError rasterize raises when no shape has a geometry it accepts. */
  datatype RasterizeError = NoValidGeometry

  /** `rasterize(shapes, out_shape=(nx, ny), transform=transform, fill=fill)`. */
  function RasterizeShapes(shapes: seq<Shape>, nx: nat, ny: nat, fill: real, covers: Coverage, alg: MergeAlg)
    : (r: Result<Raster, RasterizeError>)
    ensures r.Success? <==> exists m :: 0 <= m < |shapes| && Burnable(shapes[m].geometry)
    ensures r.Success? ==> HasShape(r.value, nx, ny)
  {
    if exists m :: 0 <= m < |shapes| && Burnable(shapes[m].geometry) then
      Success(seq(nx, (i: nat) => seq(ny, (j: nat) => Burn(shapes, covers, alg, fill, i, j))))
    else
      Failure(NoValidGeometry)
  }

  /** Pixels no shape burns keep the fill value, whatever the merge rule. */
  lemma {:induction false} UncoveredKeepsFill(shapes: seq<Shape>, covers: Coverage, alg: MergeAlg, fill: real, i: nat, j: nat)
    requires forall m :: 0 <= m < |shapes| ==> !Burns(covers, shapes[m].geometry, i, j)
    ensures Burn(shapes, covers, alg, fill, i, j) == fill
  {
    if |shapes| > 0 {
      UncoveredKeepsFill(shapes[..|shapes| - 1], covers, alg, fill, i, j);
    }
  }

  /** Under overwriting, a pixel holds the value of the last shape that burns it. */
  lemma {:induction false} LastCoverWins(shapes: seq<Shape>, covers: Coverage, fill: real, i: nat, j: nat, k: nat)
    requires k < |shapes| && Burns(covers, shapes[k].geometry, i, j)
    requires forall m :: k < m < |shapes| ==> !Burns(covers, shapes[m].geometry, i, j)
    ensures Burn(shapes, covers, Replace, fill, i, j) == shapes[k].value
  {
    if k < |shapes| - 1 {
      LastCoverWins(shapes[..|shapes| - 1], covers, fill, i, j, k);
    }
  }

  /**
   * Under overwriting, when no shape burns the fill value itself, a pixel differs from the
   * fill value exactly when some shape burns it.
   */
  lemma {:induction false} ReplaceMarksCoverage(shapes: seq<Shape>, covers: Coverage, fill: real, i: nat, j: nat)
    requires forall m :: 0 <= m < |shapes| ==> shapes[m].value != fill
    ensures Burn(shapes, covers, Replace, fill, i, j) != fill
        <==> exists m :: 0 <= m < |shapes| && Burns(covers, shapes[m].geometry, i, j)
  {
    if |shapes| > 0 {
      var front := shapes[..|shapes| - 1];
      ReplaceMarksCoverage(front, covers, fill, i, j);
      if exists m :: 0 <= m < |front| && Burns(covers, front[m].geometry, i, j) {
        var m :| 0 <= m < |front| && Burns(covers, front[m].geometry, i, j);
        assert shapes[m] == front[m];
      }
      if exists m :: 0 <= m < |shapes| && Burns(covers, shapes[m].geometry, i, j) {
        var m :| 0 <= m < |shapes| && Burns(covers, shapes[m].geometry, i, j);
        if m < |front| {
          assert front[m] == shapes[m];
        }
      }
    }
  }

  // ---------------------------------------------------------------------------
  // Control points: `grid_x[layer != NODATA]`, `grid_y[layer != NODATA]`, `layer[layer != NODATA]`

  /** The control points of row `i`, in column order. */
  function RowControlPoints(row: seq<real>, i: nat): seq<Pixel> {
    if |row| == 0 then []
    else RowControlPoints(row[..|row| - 1], i) + (if row[|row| - 1] != NoData then [Pixel(i, |row| - 1)] else [])
  }

  function RowControlValues(row: seq<real>): seq<real> {
    if |row| == 0 then []
    else RowControlValues(row[..|row| - 1]) + (if row[|row| - 1] != NoData then [row[|row| - 1]] else [])
  }

  /** The pixels whose value is not NODATA, in row-major order (NumPy's boolean-mask order). */
  function ControlPoints(r: Raster): seq<Pixel> {
    if |r| == 0 then []
    else ControlPoints(r[..|r| - 1]) + RowControlPoints(r[|r| - 1], |r| - 1)
  }

  /** The values at the control points, in the same order. */
  function ControlValues(r: Raster): seq<real> {
    if |r| == 0 then []
    else ControlValues(r[..|r| - 1]) + RowControlValues(r[|r| - 1])
  }

  lemma {:induction false} RowControlPointsExact(row: seq<real>, i: nat)
    ensures |RowControlValues(row)| == |RowControlPoints(row, i)|
    ensures forall k :: 0 <= k < |RowControlPoints(row, i)| ==>
      && RowControlPoints(row, i)[k].row == i
      && RowControlPoints(row, i)[k].col < |row|
      && RowControlValues(row)[k] == row[RowControlPoints(row, i)[k].col]
    ensures forall j: nat :: Pixel(i, j) in RowControlPoints(row, i) <==> j < |row| && row[j] != NoData
    ensures forall p :: p in RowControlPoints(row, i) ==> p.row == i
  {
    if |row| > 0 {
      var front := row[..|row| - 1];
      RowControlPointsExact(front, i);
      assert forall j :: 0 <= j < |front| ==> front[j] == row[j];
    }
  }

  /**
   * A pixel is a control point exactly when it lies in the raster and its value is not
   * NODATA, and the control values are the raster's values at the control points.
   */
  lemma {:induction false} ControlPointsExact(r: Raster)
    ensures |ControlValues(r)| == |ControlPoints(r)|
    ensures forall k :: 0 <= k < |ControlPoints(r)| ==>
      && ControlPoints(r)[k].row < |r|
      && ControlPoints(r)[k].col < |r[ControlPoints(r)[k].row]|
      && ControlValues(r)[k] == r[ControlPoints(r)[k].row][ControlPoints(r)[k].col]
    ensures forall p: Pixel :: p in ControlPoints(r) <==>
      p.row < |r| && p.col < |r[p.row]| && r[p.row][p.col] != NoData
  {
    if |r| > 0 {
      var n := |r|;
      var front := r[..n - 1];
      ControlPointsExact(front);
      RowControlPointsExact(r[n - 1], n - 1);
      var cp := ControlPoints(r);
      var cpFront := ControlPoints(front);
      var rowCp := RowControlPoints(r[n - 1], n - 1);
      assert cp == cpFront + rowCp;
      forall k | 0 <= k < |cp|
        ensures cp[k].row < |r| && cp[k].col < |r[cp[k].row]|
        ensures ControlValues(r)[k] == r[cp[k].row][cp[k].col]
      {
        if k < |cpFront| {
          assert cp[k] == cpFront[k];
          assert r[cp[k].row] == front[cp[k].row];
        } else {
          assert cp[k] == rowCp[k - |cpFront|];
        }
      }
      forall p: Pixel
        ensures p in cp <==> p.row < |r| && p.col < |r[p.row]| && r[p.row][p.col] != NoData
      {
        if p.row < n - 1 {
          assert r[p.row] == front[p.row];
          assert p !in rowCp;
        } else if p.row == n - 1 {
          assert p !in cpFront;
        } else {
          assert p !in cpFront && p !in rowCp;
        }
      }
    }
  }

  // ---------------------------------------------------------------------------
  // The output bands

  /** A value band: `griddata` over the control points, queried at every pixel of the grid. */
  function Interpolated(layer: Raster, nx: nat, ny: nat, interp: Interpolator): (band: Raster)
    ensures HasShape(band, nx, ny)
  {
    var points := ControlPoints(layer);
    var values := ControlValues(layer);
    seq(nx, (i: nat) => seq(ny, (j: nat) => interp(points, values, Pixel(i, j))))
  }

  /** The boundary-mask band: 1.0 on the control points of the mask raster, 0.0 elsewhere. */
  function MaskIndicator(layer: Raster, nx: nat, ny: nat): (band: Raster)
    requires HasShape(layer, nx, ny)
    ensures HasShape(band, nx, ny)
  {
    seq(nx, i requires 0 <= i < nx => seq(ny, j requires 0 <= j < ny =>
      if layer[i][j] != NoData then 1.0 else 0.0))
  }

  function GridOf(a: array2<real>): (r: Raster)
    reads a
    ensures HasShape(r, a.Length0, a.Length1)
  {
    seq(a.Length0, i requires 0 <= i < a.Length0 reads a => seq(a.Length1, j requires 0 <= j < a.Length1 reads a => a[i, j]))
  }

  /**
   * The loop that builds `is_grid`: a zero grid with 1.0 written at every control point of
   * the mask raster, one point at a time.
   */
  method BoundaryMaskBand(layer: Raster, nx: nat, ny: nat) returns (isGrid: array2<real>)
    requires HasShape(layer, nx, ny)
    ensures fresh(isGrid) && isGrid.Length0 == nx && isGrid.Length1 == ny
    ensures forall i, j :: 0 <= i < nx && 0 <= j < ny ==>
      isGrid[i, j] == if layer[i][j] != NoData then 1.0 else 0.0
  {
    isGrid := new real[nx, ny]((i, j) => 0.0);
    var points := ControlPoints(layer);
    ControlPointsExact(layer);
    var k := 0;
    while k < |points|
      invariant 0 <= k <= |points|
      invariant forall i, j :: 0 <= i < nx && 0 <= j < ny ==>
        isGrid[i, j] == if Pixel(i, j) in points[..k] then 1.0 else 0.0
    {
      var p := points[k];
      assert points[..k + 1] == points[..k] + [p];
      isGrid[p.row, p.col] := 1.0;
      k := k + 1;
    }
    assert points[..k] == points;
  }
}
