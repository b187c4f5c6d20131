/** The byte layout in which the photon-mapping renderer ships its photon
    maps between processes (renderers/PhotonMappingRenderer.cpp,
    ExportData and InitWithData), and the photon powers fixed by Init.
    A photon is an opaque block of sizeof(MultispectralPhoton) bytes,
    copied as is; the two powers are 32-bit floats, kept as their bit
    patterns. Unsigned ints are 4 bytes, least significant first (the
    byte order of the machines the renderer runs on). */
module PhotonExport {

  import opened Wrappers

  const TwoTo32: nat := 0x1_0000_0000

  type Byte = x: int | 0 <= x < 256

  /** A 32-bit unsigned int, or the bit pattern of a 32-bit float. */
  type Word = x: int | 0 <= x < TwoTo32

  /** The three maps of one scene object: global inner, global outer and
      caustic. */
  datatype ObjectMaps = ObjectMaps(globalIn: seq<seq<Byte>>, globalOut: seq<seq<Byte>>,
                                   caustic: seq<seq<Byte>>)

  /** What ExportData writes and InitWithData restores. */
  datatype PhotonData = PhotonData(globalPower: Word, causticPower: Word, maps: seq<ObjectMaps>)

  /** Every photon has the given size and every count fits in 32 bits. */
  predicate WellSized(d: PhotonData, photonSize: nat) {
    && |d.maps| < TwoTo32
    && forall k | 0 <= k < |d.maps| :: MapsWellSized(d.maps[k], photonSize)
  }

  predicate MapsWellSized(m: ObjectMaps, photonSize: nat) {
    PhotonsWellSized(m.globalIn, photonSize) && PhotonsWellSized(m.globalOut, photonSize)
    && PhotonsWellSized(m.caustic, photonSize)
  }

  predicate PhotonsWellSized(ps: seq<seq<Byte>>, photonSize: nat) {
    |ps| < TwoTo32 && forall k | 0 <= k < |ps| :: |ps[k]| == photonSize
  }

  // ---------------------------------------------------------------------
  // Unsigned ints

  function EncodeU32(x: nat): (b: seq<Byte>)
    requires x < TwoTo32
    ensures |b| == 4
  {
    var d1 := x / 256;
    var d2 := d1 / 256;
    var d3 := d2 / 256;
    ByteDigit(x);
    ByteDigit(d1);
    ByteDigit(d2);
    [x % 256, d1 % 256, d2 % 256, d3]
  }

  /** One base-256 digit off a natural number. */
  lemma ByteDigit(x: nat)
    ensures x == 256 * (x / 256) + x % 256
    ensures 0 <= x % 256 < 256 && 0 <= x / 256
  {
  }

  function DecodeU32(b: seq<Byte>): (x: nat)
    requires |b| >= 4
    ensures x < TwoTo32
  {
    (b[0] as int) + 256 * (b[1] as int) + 65536 * (b[2] as int) + 16777216 * (b[3] as int)
  }

  lemma U32RoundTrip(x: nat, rest: seq<Byte>)
    requires x < TwoTo32
    ensures DecodeU32(EncodeU32(x) + rest) == x
  {
    var d1 := x / 256;
    var d2 := d1 / 256;
    var d3 := d2 / 256;
    ByteDigit(x);
    ByteDigit(d1);
    ByteDigit(d2);
    var b := EncodeU32(x) + rest;
    assert b[0] == x % 256 && b[1] == d1 % 256 && b[2] == d2 % 256 && b[3] == d3;
    assert DecodeU32(b) == x % 256 + 256 * (d1 % 256 + 256 * (d2 % 256 + 256 * d3));
  }

  // ---------------------------------------------------------------------
  // Writing

  function Flatten(ps: seq<seq<Byte>>): (b: seq<Byte>) {
    if ps == [] then [] else ps[0] + Flatten(ps[1..])
  }

  lemma {:induction false} FlattenLength(ps: seq<seq<Byte>>, photonSize: nat)
    requires forall k | 0 <= k < |ps| :: |ps[k]| == photonSize
    ensures |Flatten(ps)| == |ps| * photonSize
  {
    if ps != [] {
      FlattenLength(ps[1..], photonSize);
    }
  }

  /** One map: its photon count, then its photons. */
  function MapBlock(ps: seq<seq<Byte>>, photonSize: nat): (b: seq<Byte>)
    requires PhotonsWellSized(ps, photonSize)
    ensures |b| == 4 + |ps| * photonSize
  {
    FlattenLength(ps, photonSize);
    EncodeU32(|ps|) + Flatten(ps)
  }

  function ObjectBlock(m: ObjectMaps, photonSize: nat): (b: seq<Byte>)
    requires MapsWellSized(m, photonSize)
    ensures |b| == 12 + (|m.globalIn| + |m.globalOut| + |m.caustic|) * photonSize
  {
    MapBlock(m.globalIn, photonSize) + MapBlock(m.globalOut, photonSize)
    + MapBlock(m.caustic, photonSize)
  }

  function ObjectBlocks(ms: seq<ObjectMaps>, photonSize: nat): (b: seq<Byte>)
    requires forall k | 0 <= k < |ms| :: MapsWellSized(ms[k], photonSize)
    ensures |b| == 12 * |ms| + PhotonCount(ms) * photonSize
  {
    if ms == [] then []
    else
      var m := ms[0];
      var own := |m.globalIn| + |m.globalOut| + |m.caustic|;
      assert (own + PhotonCount(ms[1..])) * photonSize
             == own * photonSize + PhotonCount(ms[1..]) * photonSize;
      ObjectBlock(m, photonSize) + ObjectBlocks(ms[1..], photonSize)
  }

  /** The number of photons in all maps. */
  function PhotonCount(ms: seq<ObjectMaps>): nat {
    if ms == [] then 0
    else |ms[0].globalIn| + |ms[0].globalOut| + |ms[0].caustic| + PhotonCount(ms[1..])
  }

  /** ExportData: the header (global power, caustic power, number of
      objects) followed by the three maps of every object in the order
      inner, outer, caustic. Its size is the one ExportData allocates. */
  function ExportData(d: PhotonData, photonSize: nat): (b: seq<Byte>)
    requires WellSized(d, photonSize)
    ensures |b| == 12 + 3 * 4 * |d.maps| + PhotonCount(d.maps) * photonSize
  {
    EncodeU32(d.globalPower) + EncodeU32(d.causticPower) + EncodeU32(|d.maps|)
    + ObjectBlocks(d.maps, photonSize)
  }

  // ---------------------------------------------------------------------
  // Reading

  /** `n` photons of `photonSize` bytes each from the front of `b`. */
  function ReadPhotons(b: seq<Byte>, n: nat, photonSize: nat): (r: Result<(seq<seq<Byte>>, seq<Byte>)>)
    ensures r.Success? ==> |r.value.0| == n
    decreases n
  {
    if n == 0 then Success(([], b))
    else if |b| < photonSize then Failure("photon data truncated")
    else
      var (rest, tail) :- ReadPhotons(b[photonSize..], n - 1, photonSize);
      Success(([b[..photonSize]] + rest, tail))
  }

  function ReadMap(b: seq<Byte>, photonSize: nat): Result<(seq<seq<Byte>>, seq<Byte>)> {
    if |b| < 4 then Failure("photon count truncated")
    else ReadPhotons(b[4..], DecodeU32(b), photonSize)
  }

  function ReadObject(b: seq<Byte>, photonSize: nat): Result<(ObjectMaps, seq<Byte>)> {
    var (gin, b1) :- ReadMap(b, photonSize);
    var (gout, b2) :- ReadMap(b1, photonSize);
    var (caustic, b3) :- ReadMap(b2, photonSize);
    Success((ObjectMaps(gin, gout, caustic), b3))
  }

  function ReadObjects(b: seq<Byte>, n: nat, photonSize: nat): (r: Result<(seq<ObjectMaps>, seq<Byte>)>)
    ensures r.Success? ==> |r.value.0| == n
    decreases n
  {
    if n == 0 then Success(([], b))
    else
      var (m, b1) :- ReadObject(b, photonSize);
      var (ms, b2) :- ReadObjects(b1, n - 1, photonSize);
      Success(([m] + ms, b2))
  }

  /** InitWithData: reads the header and then as many object blocks as it
      announces, refusing data whose object count differs from the
      scene's. The source reads past a short buffer; the model reports
      it instead. */
  function InitWithData(b: seq<Byte>, nbObjects: nat, photonSize: nat): (r: Result<PhotonData>)
    ensures r.Success? ==> |r.value.maps| == nbObjects
    ensures |b| >= 12 && DecodeU32(b[8..]) != nbObjects ==> r.Failure?
  {
    if |b| < 12 then Failure("header truncated")
    else
      var count := DecodeU32(b[8..]);
      if count != nbObjects then Failure("wrong number of objects")
      else
        var (maps, _) :- ReadObjects(b[12..], count, photonSize);
        Success(PhotonData(DecodeU32(b) as Word, DecodeU32(b[4..]) as Word, maps))
  }

  // ---------------------------------------------------------------------
  // The reader undoes the writer

  lemma {:induction false} ReadPhotonsRoundTrip(ps: seq<seq<Byte>>, photonSize: nat, tail: seq<Byte>)
    requires forall k | 0 <= k < |ps| :: |ps[k]| == photonSize
    ensures ReadPhotons(Flatten(ps) + tail, |ps|, photonSize) == Success((ps, tail))
  {
    if ps != [] {
      var b := Flatten(ps) + tail;
      assert b == ps[0] + (Flatten(ps[1..]) + tail);
      assert b[photonSize..] == Flatten(ps[1..]) + tail;
      assert b[..photonSize] == ps[0];
      FlattenLength(ps, photonSize);
      assert |b| >= photonSize;
      ReadPhotonsRoundTrip(ps[1..], photonSize, tail);
      assert ReadPhotons(b[photonSize..], |ps| - 1, photonSize) == Success((ps[1..], tail));
      assert [ps[0]] + ps[1..] == ps;
    } else {
      assert Flatten(ps) + tail == tail;
    }
  }

  lemma ReadMapRoundTrip(ps: seq<seq<Byte>>, photonSize: nat, tail: seq<Byte>)
    requires PhotonsWellSized(ps, photonSize)
    ensures ReadMap(MapBlock(ps, photonSize) + tail, photonSize) == Success((ps, tail))
  {
    var b := MapBlock(ps, photonSize) + tail;
    assert b == EncodeU32(|ps|) + (Flatten(ps) + tail);
    U32RoundTrip(|ps|, Flatten(ps) + tail);
    assert b[4..] == Flatten(ps) + tail;
    ReadPhotonsRoundTrip(ps, photonSize, tail);
  }

  lemma ReadObjectRoundTrip(m: ObjectMaps, photonSize: nat, tail: seq<Byte>)
    requires MapsWellSized(m, photonSize)
    ensures ReadObject(ObjectBlock(m, photonSize) + tail, photonSize) == Success((m, tail))
  {
    var c := MapBlock(m.caustic, photonSize) + tail;
    var o := MapBlock(m.globalOut, photonSize) + c;
    var b := MapBlock(m.globalIn, photonSize) + o;
    assert ObjectBlock(m, photonSize) + tail == b;
    ReadMapRoundTrip(m.globalIn, photonSize, o);
    ReadMapRoundTrip(m.globalOut, photonSize, c);
    ReadMapRoundTrip(m.caustic, photonSize, tail);
  }

  lemma {:induction false} ReadObjectsRoundTrip(ms: seq<ObjectMaps>, photonSize: nat, tail: seq<Byte>)
    requires forall k | 0 <= k < |ms| :: MapsWellSized(ms[k], photonSize)
    ensures ReadObjects(ObjectBlocks(ms, photonSize) + tail, |ms|, photonSize) == Success((ms, tail))
  {
    if ms != [] {
      var rest := ObjectBlocks(ms[1..], photonSize) + tail;
      var b := ObjectBlock(ms[0], photonSize) + rest;
      ObjectBlocksCons(ms, photonSize, tail);
      ReadObjectRoundTrip(ms[0], photonSize, rest);
      ReadObjectsRoundTrip(ms[1..], photonSize, tail);
      ReadObjectsStep(b, |ms|, photonSize, ms, rest, tail);
    } else {
      assert ObjectBlocks(ms, photonSize) + tail == tail;
    }
  }

  lemma ObjectBlocksCons(ms: seq<ObjectMaps>, photonSize: nat, tail: seq<Byte>)
    requires ms != [] && forall k | 0 <= k < |ms| :: MapsWellSized(ms[k], photonSize)
    ensures ObjectBlocks(ms, photonSize) + tail
            == ObjectBlock(ms[0], photonSize) + (ObjectBlocks(ms[1..], photonSize) + tail)
  {
  }

  /** One object read off the front, then the others. */
  lemma ReadObjectsStep(b: seq<Byte>, n: nat, photonSize: nat, ms: seq<ObjectMaps>, b1: seq<Byte>, b2: seq<Byte>)
    requires n > 0 && |ms| == n
    requires ReadObject(b, photonSize) == Success((ms[0], b1))
    requires ReadObjects(b1, n - 1, photonSize) == Success((ms[1..], b2))
    ensures ReadObjects(b, n, photonSize) == Success((ms, b2))
  {
    assert [ms[0]] + ms[1..] == ms;
  }

  /** InitWithData restores what ExportData wrote, for a scene with the
      same number of objects, and refuses it for any other scene. */
  lemma ExportRoundTrip(d: PhotonData, photonSize: nat, nbObjects: nat)
    requires WellSized(d, photonSize)
    ensures nbObjects == |d.maps| ==> InitWithData(ExportData(d, photonSize), nbObjects, photonSize) == Success(d)
    ensures nbObjects != |d.maps| ==> InitWithData(ExportData(d, photonSize), nbObjects, photonSize).Failure?
  {
    var blocks := ObjectBlocks(d.maps, photonSize);
    var b := ExportData(d, photonSize);
    HeaderRead(b, d.globalPower, d.causticPower, |d.maps|, blocks);
    ReadObjectsRoundTrip(d.maps, photonSize, []);
    assert blocks + [] == blocks;
    if nbObjects == |d.maps| {
      InitAccepts(b, photonSize, d);
    }
  }

  /** The three header words of the export read back. */
  lemma HeaderRead(b: seq<Byte>, globalPower: Word, causticPower: Word, count: nat, blocks: seq<Byte>)
    requires count < TwoTo32
    requires b == EncodeU32(globalPower) + EncodeU32(causticPower) + EncodeU32(count) + blocks
    ensures |b| >= 12 && b[12..] == blocks
    ensures DecodeU32(b) == globalPower && DecodeU32(b[4..]) == causticPower
    ensures DecodeU32(b[8..]) == count
  {
    var tail := EncodeU32(count) + blocks;
    assert b == EncodeU32(globalPower) + (EncodeU32(causticPower) + tail);
    U32RoundTrip(globalPower, EncodeU32(causticPower) + tail);
    assert b[4..] == EncodeU32(causticPower) + tail;
    U32RoundTrip(causticPower, tail);
    assert b[8..] == tail;
    U32RoundTrip(count, blocks);
  }

  /** InitWithData on a well-formed header whose object blocks read back. */
  lemma InitAccepts(b: seq<Byte>, photonSize: nat, d: PhotonData)
    requires |b| >= 12 && DecodeU32(b[8..]) == |d.maps|
    requires DecodeU32(b) == d.globalPower && DecodeU32(b[4..]) == d.causticPower
    requires ReadObjects(b[12..], |d.maps|, photonSize) == Success((d.maps, []))
    ensures InitWithData(b, |d.maps|, photonSize) == Success(d)
  {
  }

  // ---------------------------------------------------------------------
  // Photon power

  function Sum(s: seq<real>): real {
    if s == [] then 0.0 else s[0] + Sum(s[1..])
  }

  /** Init: each photon carries the total power of the light sources
      divided by the number of photons shot, so the photons together
      carry exactly the sources' power. A zero photon count is a division
      by zero in the source. */
  function PhotonPower(sourcePowers: seq<real>, nbPhotons: nat): (p: real)
    requires nbPhotons > 0
    ensures p * nbPhotons as real == Sum(sourcePowers)
  {
    Sum(sourcePowers) / nbPhotons as real
  }
}
