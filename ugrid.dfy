/**
 * The `ugrid` helper of the GLOSSIS converter: node coordinates, masked face
 * connectivity, the per-face vertex coordinates with padding masked out, and
 * the face centroids recomputed as the masked mean of the real vertices.
 */
module UGrid {
  import opened Wrappers

  datatype Point = Point(x: real, y: real)

  datatype Point3 = Point3(x: real, y: real, z: real)

  /** One cell of the padded face-node table: the raw stored index and its mask bit. */
  datatype Entry = Entry(index: int, masked: bool)

  /**
   * What the mesh file provides: the nodes, the padded face-node table (one row per face)
   * and the face centers stored in the file (circumcenters).
   */
  datatype Mesh = Mesh(nodes: seq<Point>, faces: seq<seq<Entry>>, faceCenters: seq<Point>)

  /** The dictionary `ugrid` returns. */
  datatype Grid = Grid(
    faceCoordinates: seq<seq<Option<Point>>>,
    faceCenters: seq<Point>,
    faceCentroids: seq<Option<Point>>,
    faces: seq<seq<Entry>>,
    points: seq<Point3>)

  /** The IndexError that `nodes[faces]` raises. */
  datatype MeshError = NodeIndexOutOfRange

  /** Python indexing of `nodes`: negative indices count from the end. */
  predicate InRange(nodes: seq<Point>, i: int) {
    -|nodes| <= i < |nodes|
  }

  function NodeAt(nodes: seq<Point>, i: int): Point
    requires InRange(nodes, i)
  {
    if i >= 0 then nodes[i] else nodes[|nodes| + i]
  }

  /** `nodes[faces]` indexes with the raw table, masked cells included. */
  predicate RowIndexable(nodes: seq<Point>, row: seq<Entry>) {
    forall j :: 0 <= j < |row| ==> InRange(nodes, row[j].index)
  }

  /** Row of `face_coordinates`: the looked-up vertex, or masked where the face table is masked. */
  function FaceCoordinates(nodes: seq<Point>, row: seq<Entry>): (r: seq<Option<Point>>)
    requires RowIndexable(nodes, row)
    ensures |r| == |row|
    ensures forall j :: 0 <= j < |row| ==> (r[j].None? <==> row[j].masked)
    ensures forall j :: 0 <= j < |row| && !row[j].masked ==> r[j] == Some(NodeAt(nodes, row[j].index))
  {
    seq(|row|, j requires 0 <= j < |row| =>
      if row[j].masked then None else Some(NodeAt(nodes, row[j].index)))
  }

  /** Number of unmasked cells of a face row: `(~faces.mask).sum(axis=1)`. */
  function ValidCount(row: seq<Entry>): (n: nat)
    ensures n <= |row|
  {
    if |row| == 0 then 0
    else ValidCount(row[..|row| - 1]) + (if row[|row| - 1].masked then 0 else 1)
  }

  /** Number of unmasked coordinates of a row of `face_coordinates`. */
  function PresentCount(coords: seq<Option<Point>>): (n: nat)
    ensures n <= |coords|
  {
    if |coords| == 0 then 0
    else PresentCount(coords[..|coords| - 1]) + (if coords[|coords| - 1].Some? then 1 else 0)
  }

  function SumX(coords: seq<Option<Point>>): real {
    if |coords| == 0 then 0.0
    else SumX(coords[..|coords| - 1]) + (if coords[|coords| - 1].Some? then coords[|coords| - 1].value.x else 0.0)
  }

  function SumY(coords: seq<Option<Point>>): real {
    if |coords| == 0 then 0.0
    else SumY(coords[..|coords| - 1]) + (if coords[|coords| - 1].Some? then coords[|coords| - 1].value.y else 0.0)
  }

  /** `face_coordinates.mean(axis=1)` for one row: the masked mean, masked when no cell is valid. */
  function MaskedMean(coords: seq<Option<Point>>): (c: Option<Point>)
    ensures c.Some? <==> PresentCount(coords) > 0
  {
    var n := PresentCount(coords);
    if n == 0 then None else Some(Point(SumX(coords) / n as real, SumY(coords) / n as real))
  }

  /** The `ugrid` function: fails like `nodes[faces]` when a stored index is out of range. */
  function Ugrid(mesh: Mesh): (r: Result<Grid, MeshError>)
    ensures r.Success? <==> forall f :: 0 <= f < |mesh.faces| ==> RowIndexable(mesh.nodes, mesh.faces[f])
    ensures r.Success? ==>
      && |r.value.faceCoordinates| == |r.value.faceCentroids| == |mesh.faces|
      && r.value.faces == mesh.faces
      && r.value.faceCenters == mesh.faceCenters
      && |r.value.points| == |mesh.nodes|
      && (forall f :: 0 <= f < |mesh.faces| ==>
            && RowIndexable(mesh.nodes, mesh.faces[f])
            && r.value.faceCoordinates[f] == FaceCoordinates(mesh.nodes, mesh.faces[f])
            && r.value.faceCentroids[f] == MaskedMean(r.value.faceCoordinates[f]))
      && (forall k :: 0 <= k < |mesh.nodes| ==>
            r.value.points[k] == Point3(mesh.nodes[k].x, mesh.nodes[k].y, 0.0))
  {
    if forall f :: 0 <= f < |mesh.faces| ==> RowIndexable(mesh.nodes, mesh.faces[f]) then
      var coords := seq(|mesh.faces|, f requires 0 <= f < |mesh.faces| => FaceCoordinates(mesh.nodes, mesh.faces[f]));
      Success(Grid(
        coords,
        mesh.faceCenters,
        seq(|coords|, f requires 0 <= f < |coords| => MaskedMean(coords[f])),
        mesh.faces,
        seq(|mesh.nodes|, k requires 0 <= k < |mesh.nodes| => Point3(mesh.nodes[k].x, mesh.nodes[k].y, 0.0))))
    else
      Failure(NodeIndexOutOfRange)
  }

  // ---------------------------------------------------------------------------
  // Face rings and the centroid as the mean of the real vertices

  /** Unmasked cells form a prefix of the row: the padding is all at the end. */
  predicate Padded(row: seq<Entry>) {
    forall i, j :: 0 <= i < j < |row| && row[i].masked ==> row[j].masked
  }

  /** The real vertices of a face, in row order, padding left out. */
  function ValidVertices(nodes: seq<Point>, row: seq<Entry>): (vs: seq<Point>)
    requires RowIndexable(nodes, row)
    ensures |vs| == ValidCount(row)
  {
    if |row| == 0 then []
    else
      ValidVertices(nodes, row[..|row| - 1])
      + (if row[|row| - 1].masked then [] else [NodeAt(nodes, row[|row| - 1].index)])
  }

  /**
   * `face[:count].tolist()`: the first `count` coordinates of a row, or None when one of
   * them is masked (a masked cell lists as None, which no polygon accepts).
   */
  function Ring(coords: seq<Option<Point>>, count: nat): (r: Option<seq<Point>>)
    requires count <= |coords|
    ensures r.Some? <==> forall j :: 0 <= j < count ==> coords[j].Some?
    ensures r.Some? ==> |r.value| == count && forall j :: 0 <= j < count ==> r.value[j] == coords[j].value
  {
    if forall j :: 0 <= j < count ==> coords[j].Some? then
      Some(seq(count, j requires 0 <= j < count => coords[j].value))
    else
      None
  }

  function SumXs(ps: seq<Point>): real {
    if |ps| == 0 then 0.0 else SumXs(ps[..|ps| - 1]) + ps[|ps| - 1].x
  }

  function SumYs(ps: seq<Point>): real {
    if |ps| == 0 then 0.0 else SumYs(ps[..|ps| - 1]) + ps[|ps| - 1].y
  }

  /** The arithmetic mean of a non-empty list of vertices. */
  function Mean(ps: seq<Point>): Point
    requires |ps| > 0
  {
    Point(SumXs(ps) / |ps| as real, SumYs(ps) / |ps| as real)
  }

  lemma {:induction false} FaceCoordinatesPrefix(nodes: seq<Point>, row: seq<Entry>, k: nat)
    requires RowIndexable(nodes, row) && k <= |row|
    ensures RowIndexable(nodes, row[..k])
    ensures FaceCoordinates(nodes, row)[..k] == FaceCoordinates(nodes, row[..k])
  {
  }

  lemma {:induction false} SumsAgree(nodes: seq<Point>, row: seq<Entry>)
    requires RowIndexable(nodes, row)
    ensures PresentCount(FaceCoordinates(nodes, row)) == ValidCount(row)
    ensures SumX(FaceCoordinates(nodes, row)) == SumXs(ValidVertices(nodes, row))
    ensures SumY(FaceCoordinates(nodes, row)) == SumYs(ValidVertices(nodes, row))
  {
    if |row| > 0 {
      var n := |row|;
      var front := row[..n - 1];
      FaceCoordinatesPrefix(nodes, row, n - 1);
      SumsAgree(nodes, front);
      var coords := FaceCoordinates(nodes, row);
      assert coords[..n - 1] == FaceCoordinates(nodes, front);
      var vs := ValidVertices(nodes, row);
      if !row[n - 1].masked {
        assert vs[..|vs| - 1] == ValidVertices(nodes, front);
      } else {
        assert vs == ValidVertices(nodes, front);
      }
    }
  }

  /**
   * The centroid `ugrid` computes is the arithmetic mean of the face's real vertices:
   * masked padding contributes neither to the sums nor to the divisor.
   */
  lemma CentroidIsMeanOfValidVertices(nodes: seq<Point>, row: seq<Entry>)
    requires RowIndexable(nodes, row)
    ensures ValidCount(row) == 0 ==> MaskedMean(FaceCoordinates(nodes, row)) == None
    ensures ValidCount(row) > 0 ==>
      MaskedMean(FaceCoordinates(nodes, row)) == Some(Mean(ValidVertices(nodes, row)))
  {
    SumsAgree(nodes, row);
  }

  /**
   * The raw index stored under a masked cell never reaches the geometry: two rows with the
   * same mask and the same unmasked indices have the same real vertices, hence the same
   * centroid.
   */
  lemma {:induction false} MaskedCellsIgnored(nodes: seq<Point>, row1: seq<Entry>, row2: seq<Entry>)
    requires RowIndexable(nodes, row1) && RowIndexable(nodes, row2)
    requires |row1| == |row2|
    requires forall j :: 0 <= j < |row1| ==> row1[j].masked == row2[j].masked
    requires forall j :: 0 <= j < |row1| && !row1[j].masked ==> row1[j].index == row2[j].index
    ensures ValidVertices(nodes, row1) == ValidVertices(nodes, row2)
    ensures MaskedMean(FaceCoordinates(nodes, row1)) == MaskedMean(FaceCoordinates(nodes, row2))
  {
    if |row1| > 0 {
      var n := |row1|;
      MaskedCellsIgnored(nodes, row1[..n - 1], row2[..n - 1]);
    }
    CentroidIsMeanOfValidVertices(nodes, row1);
    CentroidIsMeanOfValidVertices(nodes, row2);
  }

  lemma {:induction false} AllValidCount(row: seq<Entry>)
    requires forall j :: 0 <= j < |row| ==> !row[j].masked
    ensures ValidCount(row) == |row|
  {
    if |row| > 0 {
      AllValidCount(row[..|row| - 1]);
    }
  }

  lemma {:induction false} MaskedWhenShort(row: seq<Entry>)
    requires ValidCount(row) < |row|
    ensures exists k :: 0 <= k < |row| && row[k].masked
  {
    var n := |row|;
    if !row[n - 1].masked {
      MaskedWhenShort(row[..n - 1]);
      var k :| 0 <= k < n - 1 && row[..n - 1][k].masked;
      assert row[k].masked;
    }
  }

  lemma {:induction false} ValidCountSplit(row: seq<Entry>, k: nat)
    requires k <= |row|
    ensures ValidCount(row) == ValidCount(row[..k]) + ValidCount(row[k..])
  {
    if k < |row| {
      var n := |row|;
      ValidCountSplit(row[..n - 1], k);
      assert row[..n - 1][..k] == row[..k];
      assert row[k..][..|row[k..]| - 1] == row[..n - 1][k..];
    } else {
      assert row[..k] == row;
    }
  }

  lemma {:induction false} SomeValidCounts(row: seq<Entry>, j: nat)
    requires j < |row| && !row[j].masked
    ensures ValidCount(row) >= 1
  {
    if j < |row| - 1 {
      SomeValidCounts(row[..|row| - 1], j);
    }
  }

  lemma {:induction false} PaddedPrefixValid(row: seq<Entry>)
    requires Padded(row)
    ensures forall j :: 0 <= j < ValidCount(row) ==> !row[j].masked
  {
    var n := |row|;
    if n > 0 {
      if row[n - 1].masked {
        PaddedPrefixValid(row[..n - 1]);
      } else {
        AllValidCount(row);
      }
    }
  }

  /**
   * The ring of a face (its first `count` coordinates, `count` being the number of unmasked
   * cells) is defined exactly when the padding sits at the end of the row.
   */
  lemma RingDefinedIffPadded(nodes: seq<Point>, row: seq<Entry>)
    requires RowIndexable(nodes, row)
    ensures Ring(FaceCoordinates(nodes, row), ValidCount(row)).Some? <==> Padded(row)
  {
    if Padded(row) {
      PaddedPrefixValid(row);
    } else {
      UnpaddedMaskedBeforeCount(row);
      var k :| 0 <= k < ValidCount(row) && row[k].masked;
      assert FaceCoordinates(nodes, row)[k].None?;
    }
  }

  /** When padding is not all at the end, one of the first `count` cells is masked. */
  lemma UnpaddedMaskedBeforeCount(row: seq<Entry>)
    requires !Padded(row)
    ensures exists k :: 0 <= k < ValidCount(row) && row[k].masked
  {
    var c := ValidCount(row);
    var i, j :| 0 <= i < j < |row| && row[i].masked && !row[j].masked;
    if c <= i {
      // The unmasked cell j lies past the first c cells, so fewer than c of those are unmasked.
      ValidCountSplit(row, c);
      assert row[c..][j - c] == row[j];
      SomeValidCounts(row[c..], j - c);
      MaskedWhenShort(row[..c]);
      var k :| 0 <= k < c && row[..c][k].masked;
      assert row[k].masked;
    }
  }

  /**
   * For a row padded at the end, the ring is exactly the list of real vertices, in order,
   * and its length is the valid count.
   */
  lemma {:induction false} RingIsValidVertices(nodes: seq<Point>, row: seq<Entry>)
    requires RowIndexable(nodes, row) && Padded(row)
    ensures Ring(FaceCoordinates(nodes, row), ValidCount(row)) == Some(ValidVertices(nodes, row))
  {
    var n := |row|;
    if n > 0 {
      var front := row[..n - 1];
      FaceCoordinatesPrefix(nodes, row, n - 1);
      RingIsValidVertices(nodes, front);
      PaddedPrefixValid(row);
      var coords := FaceCoordinates(nodes, row);
      var ring := Ring(coords, ValidCount(row));
      var frontRing := Ring(FaceCoordinates(nodes, front), ValidCount(front));
      if !row[n - 1].masked {
        AllValidCount(row);
        AllValidCount(front);
        assert ring.value == frontRing.value + [coords[n - 1].value];
      } else {
        assert ValidVertices(nodes, row) == ValidVertices(nodes, front);
        assert ring.value == frontRing.value;
      }
    }
  }
}
