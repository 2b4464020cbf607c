/**
 * `create_water_level_astronomical_band`: a GeoTIFF opened for update has its third band
 * overwritten, in place, with band 2 minus band 1, and that band tagged with its name.
 */
module WaterLevel {

  /** Band-major pixel values: `bands[b][i][j]` is pixel (i, j) of band b + 1. */
  type Bands = seq<seq<seq<real>>>

  predicate Uniform(bands: Bands, height: nat, width: nat) {
    forall b :: 0 <= b < |bands| ==>
      |bands[b]| == height && forall i :: 0 <= i < height ==> |bands[b][i]| == width
  }

  /** A raster file opened in "r+" mode: its pixels and the tags of each band. */
  class GeoTiff {
    var data: array3<real>
    var bandTags: seq<map<string, string>>

    ghost predicate Valid()
      reads this
    {
      |bandTags| == data.Length0
    }

    /** The pixel values as bands of rows. */
    function Contents(): (bands: Bands)
      reads this, data
      ensures |bands| == data.Length0 && Uniform(bands, data.Length1, data.Length2)
    {
      var a := data;
      seq(a.Length0, b requires 0 <= b < a.Length0 reads a =>
        seq(a.Length1, i requires 0 <= i < a.Length1 reads a =>
          seq(a.Length2, j requires 0 <= j < a.Length2 reads a => a[b, i, j])))
    }

    constructor Open(count: nat, height: nat, width: nat, tags: seq<map<string, string>>)
      requires |tags| == count
      ensures Valid() && fresh(data)
      ensures data.Length0 == count && data.Length1 == height && data.Length2 == width
      ensures bandTags == tags
    {
      data := new real[count, height, width];
      bandTags := tags;
    }
  }

  /** The band written as band 3: band 2 minus band 1, pixel by pixel. */
  function Difference(minuend: seq<seq<real>>, subtrahend: seq<seq<real>>): (d: seq<seq<real>>)
    requires |minuend| == |subtrahend| && forall i :: 0 <= i < |minuend| ==> |minuend[i]| == |subtrahend[i]|
  {
    seq(|minuend|, i requires 0 <= i < |minuend| =>
      seq(|minuend[i]|, j requires 0 <= j < |minuend[i]| => minuend[i][j] - subtrahend[i][j]))
  }

  /** The raster after the update: band 3 replaced by band 2 minus band 1, the rest as it was. */
  function Astronomical(bands: Bands, height: nat, width: nat): Bands
    requires |bands| >= 3 && Uniform(bands, height, width)
  {
    bands[2 := Difference(bands[1], bands[0])]
  }

  /** The update: every pixel of band 3 becomes band 2 minus band 1; bands 1 and 2 and the shape stay. */
  lemma AstronomicalAt(bands: Bands, height: nat, width: nat)
    requires |bands| >= 3 && Uniform(bands, height, width)
    ensures var r := Astronomical(bands, height, width);
      && |r| == |bands| && Uniform(r, height, width)
      && (forall b :: 0 <= b < |bands| && b != 2 ==> r[b] == bands[b])
      && forall i, j :: 0 <= i < height && 0 <= j < width ==> r[2][i][j] == bands[1][i][j] - bands[0][i][j]
  {
  }

  /** The old band 3 (the converter's boundary mask) is discarded entirely. */
  lemma AstronomicalIgnoresBand3(bands: Bands, band3: seq<seq<real>>, height: nat, width: nat)
    requires |bands| >= 3 && Uniform(bands, height, width)
    requires |band3| == height && forall i :: 0 <= i < height ==> |band3[i]| == width
    ensures Uniform(bands[2 := band3], height, width)
    ensures Astronomical(bands[2 := band3], height, width) == Astronomical(bands, height, width)
  {
    assert bands[2 := band3][0] == bands[0] && bands[2 := band3][1] == bands[1];
  }

  /** Applying the update twice gives the raster that applying it once gives. */
  lemma AstronomicalIdempotent(bands: Bands, height: nat, width: nat)
    requires |bands| >= 3 && Uniform(bands, height, width)
    ensures Uniform(Astronomical(bands, height, width), height, width)
    ensures Astronomical(Astronomical(bands, height, width), height, width) == Astronomical(bands, height, width)
  {
    AstronomicalAt(bands, height, width);
    var once := Astronomical(bands, height, width);
    AstronomicalIgnoresBand3(once, bands[2], height, width);
    assert once[2 := bands[2]] == bands;
  }

  /**
   * Reads band 2 and band 1, writes their difference to band 3 and tags band 3 with its name.
   * A file with fewer than three bands makes a read or the write fail, and nothing changes.
   */
  method CreateWaterLevelAstronomicalBand(io: GeoTiff) returns (ok: bool)
    requires io.Valid()
    modifies io, io.data
    ensures io.Valid() && io.data == old(io.data)
    ensures ok <==> io.data.Length0 >= 3
    ensures ok ==> io.Contents() == Astronomical(old(io.Contents()), io.data.Length1, io.data.Length2)
    ensures ok ==> io.bandTags == old(io.bandTags)[2 := old(io.bandTags)[2]["name" := "water_level_astronomical"]]
    ensures !ok ==> io.Contents() == old(io.Contents()) && io.bandTags == old(io.bandTags)
  {
    if io.data.Length0 < 3 {
      return false;
    }
    var height, width := io.data.Length1, io.data.Length2;
    // The subtraction reads both bands in full before band 3 is written.
    forall i, j | 0 <= i < height && 0 <= j < width {
      io.data[2, i, j] := io.data[1, i, j] - io.data[0, i, j];
    }
    io.bandTags := io.bandTags[2 := io.bandTags[2]["name" := "water_level_astronomical"]];
    ok := true;
    ghost var before := old(io.Contents());
    ghost var after := io.Contents();
    forall b | 0 <= b < io.data.Length0
      ensures after[b] == if b == 2 then Difference(before[1], before[0]) else before[b]
    {
      forall i | 0 <= i < height
        ensures after[b][i] == if b == 2 then Difference(before[1], before[0])[i] else before[b][i]
      {
      }
    }
  }

  // ---------------------------------------------------------------------------
  // Band order relative to the converter's output

  /** The layout the GLOSSIS converter writes: water level, surge, boundary mask. */
  function ConverterLayout(level: seq<seq<real>>, surge: seq<seq<real>>, mask: seq<seq<real>>): Bands {
    [level, surge, mask]
  }

  /**
   * On a file laid out by the converter, the update as written stores surge minus water level
   * in band 3: the astronomical tide with its sign flipped.
   */
  lemma AsWrittenOnConverterLayout(level: seq<seq<real>>, surge: seq<seq<real>>, mask: seq<seq<real>>, height: nat, width: nat)
    requires Uniform(ConverterLayout(level, surge, mask), height, width)
    ensures forall i, j :: 0 <= i < height && 0 <= j < width ==>
      Astronomical(ConverterLayout(level, surge, mask), height, width)[2][i][j] == -(level[i][j] - surge[i][j])
  {
  }

  /** A one-pixel file: level 1.5, surge 0.5. The tide is 1.0, the update writes -1.0. */
  lemma AsWrittenCounterexample()
    ensures Uniform(ConverterLayout([[1.5]], [[0.5]], [[1.0]]), 1, 1)
    ensures Astronomical(ConverterLayout([[1.5]], [[0.5]], [[1.0]]), 1, 1)[2][0][0] == -1.0
  {
    assert Uniform(ConverterLayout([[1.5]], [[0.5]], [[1.0]]), 1, 1);
  }

  /** The update as its comments describe it: water level (band 1) minus surge (band 2). */
  function IntendedAstronomical(bands: Bands, height: nat, width: nat): (r: Bands)
    requires |bands| >= 3 && Uniform(bands, height, width)
    ensures |r| == |bands| && Uniform(r, height, width)
    ensures forall b :: 0 <= b < |bands| && b != 2 ==> r[b] == bands[b]
    ensures forall i, j :: 0 <= i < height && 0 <= j < width ==> r[2][i][j] == bands[0][i][j] - bands[1][i][j]
  {
    bands[2 := Difference(bands[0], bands[1])]
  }

  /**
   * On the converter's layout the intended update stores water level minus surge in band 3,
   * keeps bands 1 and 2, and is the as-written result with band 3 negated.
   */
  lemma IntendedOnConverterLayout(level: seq<seq<real>>, surge: seq<seq<real>>, mask: seq<seq<real>>, height: nat, width: nat)
    requires Uniform(ConverterLayout(level, surge, mask), height, width)
    ensures var r := IntendedAstronomical(ConverterLayout(level, surge, mask), height, width);
      && r[0] == level && r[1] == surge && |r| == 3
      && forall i, j :: 0 <= i < height && 0 <= j < width ==>
           && r[2][i][j] == level[i][j] - surge[i][j]
           && r[2][i][j] == -Astronomical(ConverterLayout(level, surge, mask), height, width)[2][i][j]
  {
  }
}
