/**
 * The model-boundary polygons of the GLOSSIS converter: one polygon per face, built from
 * the face's ring and moved 360 degrees east when it touches the antimeridian segment
 * from (-180, 90) to (-180, -90).
 */
module Antimeridian {
  import opened UGrid

  const MeridianX: real := -180.0
  const MeridianSouth: real := -90.0
  const MeridianNorth: real := 90.0

  /** Every latitude of the ring lies within the span of the antimeridian segment. */
  predicate LatitudesInRange(ring: seq<Point>) {
    forall i :: 0 <= i < |ring| ==> MeridianSouth <= ring[i].y <= MeridianNorth
  }

  /**
   * `meridian.intersects(poly)`. With every latitude inside [-90, 90] the polygon lies within
   * the latitude span of the segment, so it meets the segment exactly when its longitudes
   * reach -180 from both sides: some vertex at or west of -180 and some at or east of it.
   * An empty ring is the empty polygon, which meets nothing.
   */
  predicate IntersectsMeridian(ring: seq<Point>) {
    && (exists i :: 0 <= i < |ring| && ring[i].x <= MeridianX)
    && (exists j :: 0 <= j < |ring| && ring[j].x >= MeridianX)
  }

  /** The ring with 360 added to every longitude, built by appending one vertex at a time. */
  function Shifted(ring: seq<Point>): seq<Point> {
    if |ring| == 0 then []
    else Shifted(ring[..|ring| - 1]) + [Point(ring[|ring| - 1].x + 360.0, ring[|ring| - 1].y)]
  }

  /** The inverse move: 360 subtracted from every longitude. */
  function Unshifted(ring: seq<Point>): seq<Point> {
    if |ring| == 0 then []
    else Unshifted(ring[..|ring| - 1]) + [Point(ring[|ring| - 1].x - 360.0, ring[|ring| - 1].y)]
  }

  /** The polygon kept for a face ring: moved east when it touches the antimeridian. */
  function MaskPolygon(ring: seq<Point>): seq<Point> {
    if IntersectsMeridian(ring) then Shifted(ring) else ring
  }

  /** Shifting keeps the vertex count, the order and every latitude, and adds 360 to every longitude. */
  lemma {:induction false} ShiftedAt(ring: seq<Point>)
    ensures |Shifted(ring)| == |ring|
    ensures forall i :: 0 <= i < |ring| ==> Shifted(ring)[i] == Point(ring[i].x + 360.0, ring[i].y)
  {
    if |ring| > 0 {
      ShiftedAt(ring[..|ring| - 1]);
    }
  }

  /** Unshifting undoes shifting: the shift loses no information about the ring. */
  lemma {:induction false} UnshiftShifted(ring: seq<Point>)
    ensures Unshifted(Shifted(ring)) == ring
  {
    if |ring| > 0 {
      var n := |ring|;
      UnshiftShifted(ring[..n - 1]);
      var s := Shifted(ring);
      assert s[..|s| - 1] == Shifted(ring[..n - 1]);
      assert ring == ring[..n - 1] + [ring[n - 1]];
    }
  }

  /** A ring that does not touch the antimeridian is kept vertex for vertex. */
  lemma UntouchedRingKept(ring: seq<Point>)
    requires !IntersectsMeridian(ring)
    ensures MaskPolygon(ring) == ring
  {
  }

  /** A ring that touches it is moved: same count, order and latitudes, longitudes plus 360. */
  lemma TouchingRingMoved(ring: seq<Point>)
    requires IntersectsMeridian(ring)
    ensures |MaskPolygon(ring)| == |ring|
    ensures forall i :: 0 <= i < |ring| ==>
      MaskPolygon(ring)[i].x == ring[i].x + 360.0 && MaskPolygon(ring)[i].y == ring[i].y
  {
    ShiftedAt(ring);
  }

  /**
   * For a ring whose longitudes start at -180 (the usual [-180, 180] range), the moved
   * polygon lies wholly at or east of 180 and no longer touches the antimeridian.
   */
  lemma MovedRingClearsMeridian(ring: seq<Point>)
    requires IntersectsMeridian(ring)
    requires forall i :: 0 <= i < |ring| ==> ring[i].x >= MeridianX
    ensures forall i :: 0 <= i < |MaskPolygon(ring)| ==> MaskPolygon(ring)[i].x >= 180.0
    ensures !IntersectsMeridian(MaskPolygon(ring))
  {
    ShiftedAt(ring);
  }

  /** No polygon the builder keeps touches the antimeridian when every longitude exceeds -540. */
  lemma MaskPolygonAvoidsMeridian(ring: seq<Point>)
    requires forall i :: 0 <= i < |ring| ==> ring[i].x > MeridianX - 360.0
    ensures !IntersectsMeridian(MaskPolygon(ring))
  {
    ShiftedAt(ring);
  }

  predicate Straddles(p: Point, q: Point) {
    (p.x <= MeridianX <= q.x) || (q.x <= MeridianX <= p.x)
  }

  lemma {:induction false} StraddlingEdgeBetween(ring: seq<Point>, i: nat, j: nat)
    requires i < j < |ring|
    requires (ring[i].x <= MeridianX <= ring[j].x) || (ring[j].x <= MeridianX <= ring[i].x)
    ensures exists k :: i <= k < j && Straddles(ring[k], ring[k + 1])
    decreases j - i
  {
    if !Straddles(ring[i], ring[i + 1]) {
      StraddlingEdgeBetween(ring, i + 1, j);
    }
  }

  /**
   * Why the interval test is an intersection test: when the longitudes reach -180 from both
   * sides, a vertex lies on the line x = -180 or some edge of the ring crosses it, at a
   * latitude between those of its two ends (so inside [-90, 90] for rings whose latitudes
   * are); otherwise every vertex, and with them the whole polygon, lies strictly on one side.
   */
  lemma MeridianTest(ring: seq<Point>)
    ensures IntersectsMeridian(ring) ==>
      (exists k :: 0 <= k < |ring| && ring[k].x == MeridianX)
      || (exists k :: 0 <= k < |ring| - 1 && Straddles(ring[k], ring[k + 1]))
    ensures !IntersectsMeridian(ring) ==>
      (forall i :: 0 <= i < |ring| ==> ring[i].x > MeridianX)
      || (forall i :: 0 <= i < |ring| ==> ring[i].x < MeridianX)
  {
    if IntersectsMeridian(ring) {
      var i :| 0 <= i < |ring| && ring[i].x <= MeridianX;
      var j :| 0 <= j < |ring| && ring[j].x >= MeridianX;
      if i < j {
        StraddlingEdgeBetween(ring, i, j);
      } else if j < i {
        StraddlingEdgeBetween(ring, j, i);
      }
    }
  }

  /** How far along edge (p, q) the line x = -180 is met, as a fraction of the edge. */
  function CrossingFraction(p: Point, q: Point): (t: real)
    requires Straddles(p, q) && p.x != q.x
    ensures 0.0 <= t <= 1.0
    ensures p.x + t * (q.x - p.x) == MeridianX
  {
    (MeridianX - p.x) / (q.x - p.x)
  }

  /** The latitude at which edge (p, q) meets the line x = -180. */
  function CrossingLatitude(p: Point, q: Point): real
    requires Straddles(p, q) && p.x != q.x
  {
    p.y + CrossingFraction(p, q) * (q.y - p.y)
  }

  /** An edge whose ends lie within [-90, 90] meets x = -180 within [-90, 90] too. */
  lemma {:induction false} CrossingInSpan(p: Point, q: Point)
    requires Straddles(p, q) && p.x != q.x
    requires MeridianSouth <= p.y <= MeridianNorth && MeridianSouth <= q.y <= MeridianNorth
    ensures MeridianSouth <= CrossingLatitude(p, q) <= MeridianNorth
  {
    var t := CrossingFraction(p, q);
    assert CrossingLatitude(p, q) == (1.0 - t) * p.y + t * q.y;
    WeightedMeanInSpan(1.0 - t, t, p.y, q.y);
  }

  /** The product of two non-negative reals is non-negative. */
  lemma MulNonnegative(x: real, y: real)
    requires 0.0 <= x && 0.0 <= y
    ensures 0.0 <= x * y
  {
  }

  /** A weighted mean of two latitudes within [-90, 90] lies within [-90, 90]. */
  lemma WeightedMeanInSpan(u: real, t: real, a: real, b: real)
    requires 0.0 <= u && 0.0 <= t && u + t == 1.0
    requires MeridianSouth <= a <= MeridianNorth && MeridianSouth <= b <= MeridianNorth
    ensures MeridianSouth <= u * a + t * b <= MeridianNorth
  {
    MulNonnegative(u, a - MeridianSouth);
    MulNonnegative(t, b - MeridianSouth);
    MulNonnegative(u, MeridianNorth - a);
    MulNonnegative(t, MeridianNorth - b);
    assert u * MeridianSouth + t * MeridianSouth == MeridianSouth;
    assert u * MeridianNorth + t * MeridianNorth == MeridianNorth;
  }

  /**
   * The boundary of the ring meets the antimeridian segment: a vertex lies on it, or an edge
   * crosses x = -180 at a latitude within [-90, 90].
   */
  predicate BoundaryMeetsSegment(ring: seq<Point>) {
    || (exists k :: 0 <= k < |ring| && ring[k].x == MeridianX && MeridianSouth <= ring[k].y <= MeridianNorth)
    || (exists k :: 0 <= k < |ring| - 1 && Straddles(ring[k], ring[k + 1]) && ring[k].x != ring[k + 1].x
          && MeridianSouth <= CrossingLatitude(ring[k], ring[k + 1]) <= MeridianNorth)
  }

  /**
   * For rings whose latitudes lie within [-90, 90], the interval test holds exactly when the
   * ring's boundary meets the antimeridian segment.
   */
  lemma MeridianTestExact(ring: seq<Point>)
    requires LatitudesInRange(ring)
    ensures IntersectsMeridian(ring) <==> BoundaryMeetsSegment(ring)
  {
    MeridianTest(ring);
    if IntersectsMeridian(ring) {
      if !(exists k :: 0 <= k < |ring| && ring[k].x == MeridianX) {
        var k :| 0 <= k < |ring| - 1 && Straddles(ring[k], ring[k + 1]);
        CrossingInSpan(ring[k], ring[k + 1]);
      }
    }
    if BoundaryMeetsSegment(ring) {
      if exists k :: 0 <= k < |ring| && ring[k].x == MeridianX && MeridianSouth <= ring[k].y <= MeridianNorth {
        var k :| 0 <= k < |ring| && ring[k].x == MeridianX && MeridianSouth <= ring[k].y <= MeridianNorth;
        assert ring[k].x <= MeridianX && ring[k].x >= MeridianX;
      } else {
        var k :| 0 <= k < |ring| - 1 && Straddles(ring[k], ring[k + 1]) && ring[k].x != ring[k + 1].x
          && MeridianSouth <= CrossingLatitude(ring[k], ring[k + 1]) <= MeridianNorth;
        if ring[k].x <= MeridianX {
          assert ring[k + 1].x >= MeridianX;
        } else {
          assert ring[k + 1].x <= MeridianX;
        }
      }
    }
  }

  /** The loop that builds `shift_coords` vertex by vertex. */
  method ShiftCoords(oldCoords: seq<Point>) returns (shiftCoords: seq<Point>)
    ensures shiftCoords == Shifted(oldCoords)
  {
    shiftCoords := [];
    var i := 0;
    while i < |oldCoords|
      invariant 0 <= i <= |oldCoords|
      invariant shiftCoords == Shifted(oldCoords[..i])
    {
      var x := oldCoords[i];
      assert oldCoords[..i + 1][..i] == oldCoords[..i];
      shiftCoords := shiftCoords + [Point(x.x + 360.0, x.y)];
      i := i + 1;
    }
    assert oldCoords[..i] == oldCoords;
  }
}
