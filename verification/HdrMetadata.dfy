/** HDR metadata as the kernel lays it out, and the hash that tells one block from another. */
module HdrMetadata {
  import opened Fnv
  import opened Pixels

  type Word16 = w: nat | w < 0x1_0000

  datatype Transfer = SdrGamma | HdrGamma | Pq | Hlg {
    function AsByte(): Byte {
      match this
      case SdrGamma => 0
      case HdrGamma => 1
      case Pq => 2
      case Hlg => 3
    }
  }

  /** A chromaticity in the wire's 0.00002 steps. */
  datatype Point = Point(x: Word16, y: Word16)

  datatype Colorimetry = Colorimetry(red: Point, green: Point, blue: Point, white: Point, hasPrimaries: bool, hasWhite: bool)

  datatype Source = Source(eotf: Transfer, primaries: Colorimetry, maxLuminance: Word16, minLuminance: Word16,
                           maxContentLight: Word16, maxFrameAverage: Word16)

  const SIZE: nat := 32
  const INFOFRAME: nat := 4
  const STATIC_TYPE: Byte := 0

  /** The 16-bit fields in wire order: green, blue, red and white, then the luminances. */
  function Words(src: Source): (words: seq<Word16>)
    ensures |words| == 12
  {
    var p := src.primaries;
    [p.green.x, p.green.y, p.blue.x, p.blue.y, p.red.x, p.red.y, p.white.x, p.white.y,
     src.maxLuminance, src.minLuminance, src.maxContentLight, src.maxFrameAverage]
  }

  /** Byte `k` of a word in memory, on a little or big endian host. */
  function Half(w: Word16, k: nat, little: bool): Byte
    requires k < 2
  {
    if little == (k == 0) then w % 256 else w / 256
  }

  lemma HalvesAreWord(v: Word16, w: Word16, little: bool)
    ensures Half(v, 0, little) == Half(w, 0, little) && Half(v, 1, little) == Half(w, 1, little) ==> v == w
  {}

  /** Byte `i` of the block: the eotf, and every word at its own two bytes; all else is zero. */
  function ByteAt(src: Source, i: nat, little: bool): Byte {
    if i == INFOFRAME then src.eotf.AsByte()
    else if INFOFRAME + 2 <= i < INFOFRAME + 26 then Half(Words(src)[(i - INFOFRAME - 2) / 2], i % 2, little)
    else 0
  }

  function Serialized(src: Source, little: bool): (bytes: seq<Byte>)
    ensures |bytes| == SIZE
  {
    seq(SIZE, i requires 0 <= i < SIZE => ByteAt(src, i, little))
  }

  /** The block is right up to byte `to`, and zero from there on. */
  ghost predicate Written(bytes: seq<Byte>, src: Source, little: bool, to: nat) {
    && |bytes| == SIZE
    && (forall i: nat :: i < to && i < SIZE ==> bytes[i] == ByteAt(src, i, little))
    && forall i: nat :: to <= i < SIZE ==> bytes[i] == 0
  }

  method Put(block: array<Byte>, offset: nat, value: Word16, ghost src: Source, little: bool)
    requires INFOFRAME + 2 <= offset <= INFOFRAME + 24 && offset % 2 == 0 && Written(block[..], src, little, offset)
    requires value == Words(src)[(offset - INFOFRAME - 2) / 2]
    modifies block
    ensures Written(block[..], src, little, offset + 2)
  {
    hide Words, Half, ByteAt;
    ghost var before := block[..];
    block[offset] := Half(value, 0, little);
    block[offset + 1] := Half(value, 1, little);
    PutWrites(before, block[..], offset, value, src, little);
  }

  lemma PutWrites(before: seq<Byte>, after: seq<Byte>, offset: nat, value: Word16, src: Source, little: bool)
    requires INFOFRAME + 2 <= offset <= INFOFRAME + 24 && offset % 2 == 0 && Written(before, src, little, offset)
    requires value == Words(src)[(offset - INFOFRAME - 2) / 2]
    requires |after| == |before| && after == before[offset := Half(value, 0, little)][offset + 1 := Half(value, 1, little)]
    ensures Written(after, src, little, offset + 2)
  {
    hide Words, Half;
    assert (offset + 1 - INFOFRAME - 2) / 2 == (offset - INFOFRAME - 2) / 2;
  }

  /** Serialize field by field at fixed offsets; the padding stays zero. */
  method Serialize(src: Source, little: bool) returns (block: array<Byte>)
    ensures fresh(block) && block[..] == Serialized(src, little)
  {
    hide ByteAt, Written, Half;
    block := new Byte[SIZE](_ => 0);
    // The metadata type, in either byte order.
    block[0], block[1], block[2], block[3] := STATIC_TYPE, 0, 0, 0;
    block[INFOFRAME] := src.eotf.AsByte();
    block[INFOFRAME + 1] := STATIC_TYPE;
    HeadWritten(block[..], src, little);
    var p := src.primaries;
    Put(block, INFOFRAME + 2, p.green.x, src, little);
    Put(block, INFOFRAME + 4, p.green.y, src, little);
    Put(block, INFOFRAME + 6, p.blue.x, src, little);
    Put(block, INFOFRAME + 8, p.blue.y, src, little);
    Put(block, INFOFRAME + 10, p.red.x, src, little);
    Put(block, INFOFRAME + 12, p.red.y, src, little);
    Put(block, INFOFRAME + 14, p.white.x, src, little);
    Put(block, INFOFRAME + 16, p.white.y, src, little);
    Put(block, INFOFRAME + 18, src.maxLuminance, src, little);
    Put(block, INFOFRAME + 20, src.minLuminance, src, little);
    Put(block, INFOFRAME + 22, src.maxContentLight, src, little);
    Put(block, INFOFRAME + 24, src.maxFrameAverage, src, little);
    AllWritten(block[..], src, little);
  }

  lemma HeadWritten(bytes: seq<Byte>, src: Source, little: bool)
    requires |bytes| == SIZE && bytes[INFOFRAME] == src.eotf.AsByte()
    requires forall i :: 0 <= i < SIZE && i != INFOFRAME ==> bytes[i] == 0
    ensures Written(bytes, src, little, INFOFRAME + 2)
  {}

  lemma AllWritten(bytes: seq<Byte>, src: Source, little: bool)
    requires Written(bytes, src, little, INFOFRAME + 26)
    ensures bytes == Serialized(src, little)
  {}

  /** A block holds exactly the transfer function and the words: two are equal when those are. */
  lemma SerializedIff(a: Source, b: Source, little: bool)
    ensures Serialized(a, little) == Serialized(b, little) <==> a.eotf == b.eotf && Words(a) == Words(b)
  {
    hide Words, Half;
    var s, t := Serialized(a, little), Serialized(b, little);
    if s == t {
      assert s[INFOFRAME] == t[INFOFRAME];
      forall k: nat | k < 12
        ensures Words(a)[k] == Words(b)[k]
      {
        var i := INFOFRAME + 2 + 2 * k;
        assert s[i] == t[i] && s[i + 1] == t[i + 1];
        assert (i - INFOFRAME - 2) / 2 == k && (i + 1 - INFOFRAME - 2) / 2 == k;
        assert i % 2 == 0 && (i + 1) % 2 == 1;
        HalvesAreWord(Words(a)[k], Words(b)[k], little);
      }
    }
  }

  /** An HDR10 block, BT.2020 primaries and a D65 white, byte by byte on a little-endian host. */
  lemma BlockExample()
    ensures
      var colors := Colorimetry(Point(35400, 14600), Point(8500, 39850), Point(6550, 2300), Point(15635, 16450), true, true);
      Serialized(Source(Pq, colors, 1000, 50, 1000, 400), true) ==
        [0, 0, 0, 0, 2, 0,
         0x34, 0x21, 0xaa, 0x9b, 0x96, 0x19, 0xfc, 0x08, 0x48, 0x8a, 0x08, 0x39, 0x13, 0x3d, 0x42, 0x40,
         0xe8, 0x03, 0x32, 0x00, 0xe8, 0x03, 0x90, 0x01, 0, 0]
  {}

  /** The transfer functions by their number in the infoframe. */
  lemma TransferNumbers(src: Source, little: bool)
    ensures
      var byte := Serialized(src, little)[INFOFRAME];
      byte < 4 && src.eotf == [SdrGamma, HdrGamma, Pq, Hlg][byte]
  {}

  function MetadataHash(src: Source, little: bool): Hash {
    From(OFFSET, Serialized(src, little))
  }

  method HashOf(src: Source, little: bool) returns (hash: Hash)
    ensures hash == MetadataHash(src, little)
  {
    var block := Serialize(src, little);
    hash := Fnv1a(block[..]);
  }

  /** The fields of the metadata, flags included. */
  datatype Field = Eotf | Word(k: nat) | HasPrimaries | HasWhite

  /** Two sources agree on everything but one field. */
  ghost predicate SameBut(a: Source, b: Source, f: Field) {
    && (f != Eotf ==> a.eotf == b.eotf)
    && (forall k: nat :: k < 12 && f != Word(k) ==> Words(a)[k] == Words(b)[k])
    && (f != HasPrimaries ==> a.primaries.hasPrimaries == b.primaries.hasPrimaries)
    && (f != HasWhite ==> a.primaries.hasWhite == b.primaries.hasWhite)
  }

  /** Changing any one field changes the hash, unless it is one of the two flags, which the block
      does not carry. */
  lemma OneFieldIff(a: Source, b: Source, f: Field, little: bool)
    requires SameBut(a, b, f) && a != b
    ensures MetadataHash(a, little) != MetadataHash(b, little) <==> f.Eotf? || f.Word?
  {
    hide Words, From;
    SerializedIff(a, b, little);
    FieldsDecide(a, b);
    var s, t := Serialized(a, little), Serialized(b, little);
    match f
    case Eotf =>
      ByteSeparates(s, t, INFOFRAME);
    case Word(k) =>
      if k < 12 {
        OnlyItsBytes(a, b, k, little);
        PairSeparates(s, t, INFOFRAME + 2 + 2 * k);
      }
    case HasPrimaries =>
      assert forall k: nat :: k < 12 ==> Words(a)[k] == Words(b)[k];
    case HasWhite =>
      assert forall k: nat :: k < 12 ==> Words(a)[k] == Words(b)[k];
  }

  /** Two sources of which one has primaries and one does not, with one hash. */
  lemma FlagExample(little: bool)
    ensures
      var colors := Colorimetry(Point(34000, 16000), Point(13250, 34500), Point(7500, 3000), Point(15635, 16450), true, true);
      var a := Source(Pq, colors, 1000, 1, 1000, 400);
      var b := a.(primaries := colors.(hasPrimaries := false));
      a != b && MetadataHash(a, little) == MetadataHash(b, little)
  {
    var colors := Colorimetry(Point(34000, 16000), Point(13250, 34500), Point(7500, 3000), Point(15635, 16450), true, true);
    var a := Source(Pq, colors, 1000, 1, 1000, 400);
    OneFieldIff(a, a.(primaries := colors.(hasPrimaries := false)), HasPrimaries, little);
  }

  lemma FieldsDecide(a: Source, b: Source)
    ensures SameBut(a, b, Word(12)) ==> a == b
  {
    if forall k: nat :: k < 12 ==> Words(a)[k] == Words(b)[k] {
      assert Words(a) == Words(b);
      SameWords(a, b);
    }
  }

  lemma SameWords(a: Source, b: Source)
    requires Words(a) == Words(b)
    ensures a == b.(eotf := a.eotf, primaries := b.primaries.(hasPrimaries := a.primaries.hasPrimaries, hasWhite := a.primaries.hasWhite))
  {
    var v, w := Words(a), Words(b);
    assert v[0] == w[0] && v[1] == w[1] && v[2] == w[2] && v[3] == w[3] && v[4] == w[4] && v[5] == w[5];
    assert v[6] == w[6] && v[7] == w[7] && v[8] == w[8] && v[9] == w[9] && v[10] == w[10] && v[11] == w[11];
  }

  lemma OnlyItsBytes(a: Source, b: Source, k: nat, little: bool)
    requires k < 12 && SameBut(a, b, Word(k))
    ensures forall i :: 0 <= i < SIZE && i != INFOFRAME + 2 + 2 * k && i != INFOFRAME + 3 + 2 * k ==>
      Serialized(a, little)[i] == Serialized(b, little)[i]
  {
    hide Words, Half;
  }
}
