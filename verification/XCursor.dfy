/** Reading cursor files: a header, a table of contents, and a chunk for every image. */
module XCursor {
  import opened NearestSize
  import opened Options
  import opened Pixels

  datatype Error = Malformed | TooLarge | NoImages
  datatype Result<T> = Ok(value: T) | Err(error: Error)

  /** What the loader accepts. */
  datatype Limits = Limits(maxFrames: nat, maxDim: nat)

  datatype RawImage = RawImage(nominalSize: nat, width: nat, height: nat, xhot: nat, yhot: nat, delayMs: nat, pixels: seq<Pixel>)

  /** `Xcur`, read as a word. */
  const MAGIC: Pixel := 0x7275_6358
  const CHUNK_IMAGE: Pixel := 0xfffd_0002
  const MAX_ENTRIES: nat := 0x1_0000
  const MAX_REQUEST: nat := 0x7fff_ffff

  // ----- Words

  /** The little-endian word at a place in a file. */
  function WordAt(bytes: seq<Byte>, at: nat): Pixel
    requires at + 4 <= |bytes|
  {
    Pack(bytes[at + 3], bytes[at + 2], bytes[at + 1], bytes[at])
  }

  function WordsAt(bytes: seq<Byte>, at: nat, n: nat): (words: seq<Pixel>)
    requires at + 4 * n <= |bytes|
    ensures |words| == n
  {
    seq(n, i requires 0 <= i < n => WordAt(bytes, at + 4 * i))
  }

  /** Words written out, least significant byte first. */
  function Bytes(words: seq<Pixel>): (bytes: seq<Byte>)
    ensures |bytes| == 4 * |words|
  {
    seq(4 * |words|, i requires 0 <= i < 4 * |words| => Channel(words[i / 4], i % 4))
  }

  lemma WordOfBytes(words: seq<Pixel>, k: nat)
    requires k < |words|
    ensures 4 * k + 4 <= |Bytes(words)| && WordAt(Bytes(words), 4 * k) == words[k]
  {
    var b := Bytes(words);
    assert b[4 * k] == Channel(words[k], 0) && b[4 * k + 1] == Channel(words[k], 1);
    assert b[4 * k + 2] == Channel(words[k], 2) && b[4 * k + 3] == Channel(words[k], 3);
    PixelIsChannels(words[k]);
  }

  // ----- What a file says

  /** Whether a file has the header and room for the table of contents it declares. */
  predicate HasTable(bytes: seq<Byte>) {
    && |bytes| >= 16 && WordAt(bytes, 0) == MAGIC
    && WordAt(bytes, 4) >= 16 && WordAt(bytes, 12) <= MAX_ENTRIES
    && WordAt(bytes, 4) + 12 * WordAt(bytes, 12) <= |bytes|
  }

  datatype Entry = Entry(size: nat, position: nat)

  /** The first `n` entries of a table of contents that are of images. */
  function Entries(bytes: seq<Byte>, at: nat, n: nat): seq<Entry>
    requires at + 12 * n <= |bytes|
  {
    if n == 0 then [] else
      var last := at + 12 * (n - 1);
      Entries(bytes, at, n - 1) +
      if WordAt(bytes, last) == CHUNK_IMAGE then [Entry(WordAt(bytes, last + 4), WordAt(bytes, last + 8))] else []
  }

  function Sizes(entries: seq<Entry>): seq<nat> {
    seq(|entries|, i requires 0 <= i < |entries| => entries[i].size)
  }

  /** The positions filed under a size, in order. */
  function Filed(entries: seq<Entry>, size: nat): seq<nat> {
    if entries == [] then [] else
      Filed(entries[..|entries| - 1], size) +
      if entries[|entries| - 1].size == size then [entries[|entries| - 1].position] else []
  }

  /** The image whose chunk starts at a position, if there is one filed under `listed`. */
  function ImageAt(bytes: seq<Byte>, at: nat, listed: nat, limits: Limits): Result<RawImage> {
    if at + 36 > |bytes| || WordAt(bytes, at + 4) != CHUNK_IMAGE || WordAt(bytes, at + 8) != listed then Err(Malformed)
    else
      var head := Head(WordsAt(bytes, at, 9));
      if head.width == 0 || head.height == 0 then Err(Malformed)
      else if head.width > limits.maxDim || head.height > limits.maxDim then Err(TooLarge)
      else if head.xhot > head.width || head.yhot > head.height then Err(Malformed)
      else WithPixels(bytes, at + 36, head)
  }

  /** What the first nine words of a chunk say of its image. */
  function Head(w: seq<Pixel>): RawImage
    requires |w| == 9
  {
    RawImage(w[2], w[4], w[5], w[6], w[7], w[8], [])
  }

  function WithPixels(bytes: seq<Byte>, at: nat, head: RawImage): Result<RawImage> {
    var count: nat := head.width * head.height;
    if at + 4 * count > |bytes| then Err(Malformed) else Ok(head.(pixels := WordsAt(bytes, at, count)))
  }

  /** The images at some positions, or the first error among them. */
  function ImagesAt(bytes: seq<Byte>, positions: seq<nat>, listed: nat, limits: Limits): Result<seq<RawImage>> {
    if positions == [] then Ok([]) else
      match ImagesAt(bytes, positions[..|positions| - 1], listed, limits)
      case Err(e) => Err(e)
      case Ok(images) =>
        match ImageAt(bytes, positions[|positions| - 1], listed, limits)
        case Err(e) => Err(e)
        case Ok(image) => Ok(images + [image])
  }

  /** The images of the size nearest the one requested. */
  function Parsed(bytes: seq<Byte>, limits: Limits, requested: nat): Result<seq<RawImage>> {
    if requested > MAX_REQUEST then Err(NoImages)
    else if !HasTable(bytes) then Err(Malformed)
    else
      var entries := Entries(bytes, WordAt(bytes, 4), WordAt(bytes, 12));
      var size := Best(Sizes(entries), requested);
      if size == 0 then Err(NoImages)
      else if |Filed(entries, size)| > limits.maxFrames then Err(TooLarge)
      else ImagesAt(bytes, Filed(entries, size), size, limits)
  }

  // ----- Reading

  /** A bounds-checked reader. A read past the end fails and moves nothing. */
  class Reader {
    const bytes: seq<Byte>
    var at: nat

    constructor (bytes: seq<Byte>)
      ensures this.bytes == bytes && at == 0
    {
      this.bytes := bytes;
      at := 0;
    }

    method Seek(to: nat) returns (ok: bool)
      modifies this
      ensures ok <==> to <= |bytes|
      ensures at == if ok then to else old(at)
    {
      if to > |bytes| {
        return false;
      }
      at := to;
      ok := true;
    }

    method Word() returns (word: Option<Pixel>)
      modifies this
      ensures if old(at) + 4 <= |bytes| then word == Some(WordAt(bytes, old(at))) && at == old(at) + 4
        else word.None? && at == old(at)
    {
      if at + 4 > |bytes| {
        return None;
      }
      word := Some(WordAt(bytes, at));
      at := at + 4;
    }

    /** `n` words, or none of them. */
    method Words(n: nat) returns (words: Option<seq<Pixel>>)
      modifies this
      ensures if old(at) + 4 * n <= |bytes| then words == Some(WordsAt(bytes, old(at), n)) && at == old(at) + 4 * n
        else words.None? && at == old(at)
    {
      if at + 4 * n > |bytes| {
        return None;
      }
      words := Some(WordsAt(bytes, at, n));
      at := at + 4 * n;
    }
  }

  /** Read `n` words one by one. */
  method ReadFields(reader: Reader, n: nat) returns (fields: Option<seq<Pixel>>)
    requires reader.at <= |reader.bytes|
    modifies reader
    ensures reader.at <= |reader.bytes|
    ensures if old(reader.at) + 4 * n <= |reader.bytes| then
        fields == Some(WordsAt(reader.bytes, old(reader.at), n)) && reader.at == old(reader.at) + 4 * n
      else fields.None?
  {
    hide WordAt;
    ghost var start := reader.at;
    var words: seq<Pixel> := [];
    while |words| < n
      invariant |words| <= n && reader.at == start + 4 * |words| <= |reader.bytes|
      invariant forall i :: 0 <= i < |words| ==> words[i] == WordAt(reader.bytes, start + 4 * i)
    {
      var word := reader.Word();
      if word.None? {
        return None;
      }
      words := words + [word.value];
    }
    assert words == WordsAt(reader.bytes, start, n);
    fields := Some(words);
  }

  /** Parse one chunk. */
  method ParseImage(reader: Reader, listed: nat, limits: Limits) returns (r: Result<RawImage>)
    requires reader.at <= |reader.bytes|
    modifies reader
    ensures r == ImageAt(reader.bytes, old(reader.at), listed, limits)
  {
    hide WordAt;
    var head := ReadFields(reader, 4);
    if head.None? || head.value[1] != CHUNK_IMAGE || head.value[2] != listed {
      return Err(Malformed);
    }
    var fields := ReadFields(reader, 5);
    if fields.None? {
      return Err(Malformed);
    }
    var w := fields.value;
    var width, height, xhot, yhot := w[0], w[1], w[2], w[3];
    if width == 0 || height == 0 {
      return Err(Malformed);
    }
    if width > limits.maxDim || height > limits.maxDim {
      return Err(TooLarge);
    }
    if xhot > width || yhot > height {
      return Err(Malformed);
    }
    var pixels := reader.Words(width * height);
    if pixels.None? {
      return Err(Malformed);
    }
    r := Ok(RawImage(head.value[2], width, height, xhot, yhot, w[4], pixels.value));
  }

  /** Read a table of contents, keeping what lists an image. */
  method ReadEntries(reader: Reader, n: nat) returns (entries: seq<Entry>)
    requires reader.at + 12 * n <= |reader.bytes|
    modifies reader
    ensures entries == Entries(reader.bytes, old(reader.at), n)
  {
    hide WordAt;
    ghost var start := reader.at;
    entries := [];
    for i := 0 to n
      invariant reader.at == start + 12 * i
      invariant entries == Entries(reader.bytes, start, i)
    {
      var chunkType := reader.Word();
      var subtype := reader.Word();
      var position := reader.Word();
      if chunkType.value == CHUNK_IMAGE {
        entries := entries + [Entry(subtype.value, position.value)];
      }
    }
  }

  method Positions(entries: seq<Entry>, size: nat) returns (positions: seq<nat>)
    ensures positions == Filed(entries, size)
  {
    positions := [];
    for i := 0 to |entries|
      invariant positions == Filed(entries[..i], size)
    {
      assert entries[..i + 1][..i] == entries[..i];
      if entries[i].size == size {
        positions := positions + [entries[i].position];
      }
    }
    assert entries[..|entries|] == entries;
  }

  /** Read and check the header: where the table of contents starts, and how many entries it has. */
  method ReadHeader(reader: Reader) returns (table: Option<(nat, nat)>)
    requires reader.at == 0
    modifies reader
    ensures table.Some? <==> HasTable(reader.bytes)
    ensures table.Some? ==> table.value == (WordAt(reader.bytes, 4), WordAt(reader.bytes, 12)) && reader.at == table.value.0
  {
    hide WordAt;
    var magic := reader.Word();
    if magic != Some(MAGIC) {
      return None;
    }
    var length := reader.Word();
    if length.None? || length.value < 16 {
      return None;
    }
    var version := reader.Word();
    if version.None? {
      return None;
    }
    var count := reader.Word();
    if count.None? || count.value > MAX_ENTRIES {
      return None;
    }
    var room := if |reader.bytes| < length.value then 0 else (|reader.bytes| - length.value) / 12;
    if count.value > room {
      return None;
    }
    var ok := reader.Seek(length.value);
    if !ok {
      return None;
    }
    table := Some((length.value, count.value));
  }

  /** Parse the images of one size out of a cursor file, the size nearest the one requested. */
  method Parse(bytes: seq<Byte>, limits: Limits, requested: nat) returns (r: Result<seq<RawImage>>)
    ensures r == Parsed(bytes, limits, requested)
  {
    hide WordAt, Entries, Filed, ImageAt, HasTable;
    if requested > MAX_REQUEST {
      return Err(NoImages);
    }
    var reader := new Reader(bytes);
    var table := ReadHeader(reader);
    if table.None? {
      return Err(Malformed);
    }
    TableFits(bytes);
    var entries := ReadEntries(reader, table.value.1);
    var chosen := FindNearest(Sizes(entries), requested);
    if chosen == 0 {
      return Err(NoImages);
    }
    var positions := Positions(entries, chosen);
    if |positions| > limits.maxFrames {
      return Err(TooLarge);
    }
    r := ReadImages(reader, positions, chosen, limits);
  }

  lemma TableFits(bytes: seq<Byte>)
    requires HasTable(bytes)
    ensures |bytes| >= 16 && WordAt(bytes, 4) + 12 * WordAt(bytes, 12) <= |bytes|
  {}

  method ReadImages(reader: Reader, positions: seq<nat>, listed: nat, limits: Limits) returns (r: Result<seq<RawImage>>)
    modifies reader
    ensures r == ImagesAt(reader.bytes, positions, listed, limits)
  {
    hide ImageAt;
    var images := [];
    for i := 0 to |positions|
      invariant ImagesAt(reader.bytes, positions[..i], listed, limits) == Ok(images)
    {
      assert positions[..i + 1][..i] == positions[..i];
      SeekFails(reader.bytes, positions[i], listed, limits);
      var ok := reader.Seek(positions[i]);
      if !ok {
        FirstError(reader.bytes, positions, listed, limits, i + 1);
        return Err(Malformed);
      }
      var image := ParseImage(reader, listed, limits);
      if image.Err? {
        FirstError(reader.bytes, positions, listed, limits, i + 1);
        return Err(image.error);
      }
      images := images + [image.value];
    }
    assert positions[..|positions|] == positions;
    r := Ok(images);
  }

  lemma SeekFails(bytes: seq<Byte>, at: nat, listed: nat, limits: Limits)
    ensures at > |bytes| ==> ImageAt(bytes, at, listed, limits) == Err(Malformed)
  {}

  lemma {:induction false} FirstError(bytes: seq<Byte>, positions: seq<nat>, listed: nat, limits: Limits, n: nat)
    requires n <= |positions| && ImagesAt(bytes, positions[..n], listed, limits).Err?
    ensures ImagesAt(bytes, positions, listed, limits) == ImagesAt(bytes, positions[..n], listed, limits)
  {
    hide ImageAt;
    if n == |positions| {
      assert positions[..n] == positions;
    } else {
      assert positions[..|positions| - 1][..n] == positions[..n];
      FirstError(bytes, positions[..|positions| - 1], listed, limits, n);
    }
  }
}
