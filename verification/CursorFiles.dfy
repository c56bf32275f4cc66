/** What parsing cursor files promises: files written out come back, whatever follows them, and
    nothing comes back that a file could not hold. */
module CursorFiles {
  import opened NearestSize
  import opened Pixels
  import opened XCursor

  /** The images of one size among the first `n`, in file order. */
  function OfSize(images: seq<RawImage>, n: nat, size: nat): seq<RawImage>
    requires n <= |images|
  {
    if n == 0 then []
    else if images[n - 1].nominalSize == size then OfSize(images, n - 1, size) + [images[n - 1]]
    else OfSize(images, n - 1, size)
  }

  function Nominals(images: seq<RawImage>): seq<nat> {
    seq(|images|, i requires 0 <= i < |images| => images[i].nominalSize)
  }

  // ----- Writing a file

  predicate IsWord(x: nat) {
    x <= 0xffff_ffff
  }

  /** An image that can be written. */
  predicate Writable(i: RawImage) {
    && IsWord(i.nominalSize) && IsWord(i.width) && IsWord(i.height) && IsWord(i.xhot) && IsWord(i.yhot) && IsWord(i.delayMs)
    && i.width > 0 && i.height > 0 && i.xhot <= i.width && i.yhot <= i.height
    && |i.pixels| == i.width * i.height
  }

  /** Where the chunk of image `i` starts among the chunks, in words. */
  function Start(images: seq<RawImage>, i: nat): nat
    requires i <= |images|
  {
    if i == 0 then 0 else Start(images, i - 1) + 9 + |images[i - 1].pixels|
  }

  /** Where it starts in the file. */
  function Place(images: seq<RawImage>, i: nat): nat
    requires i <= |images|
  {
    4 + 3 * |images| + Start(images, i)
  }

  /** Images that fit one file. */
  ghost predicate Fits(images: seq<RawImage>) {
    && |images| <= MAX_ENTRIES && IsWord(4 * Place(images, |images|))
    && forall i :: 0 <= i < |images| ==> Writable(images[i])
  }

  lemma {:induction false} StartGrows(images: seq<RawImage>, i: nat, j: nat)
    requires i <= j <= |images|
    ensures Start(images, i) <= Start(images, j)
    ensures i < j ==> Start(images, i) + 9 + |images[i].pixels| <= Start(images, j)
  {
    if i < j {
      StartGrows(images, i, j - 1);
    }
  }

  function ChunkWords(i: RawImage): (words: seq<Pixel>)
    requires Writable(i)
    ensures |words| == 9 + |i.pixels|
  {
    [0x24, CHUNK_IMAGE, i.nominalSize, 1, i.width, i.height, i.xhot, i.yhot, i.delayMs] + i.pixels
  }

  ghost function TableWord(images: seq<RawImage>, i: nat, field: nat): Pixel
    requires Fits(images) && i < |images|
  {
    StartGrows(images, i, |images|);
    if field == 0 then CHUNK_IMAGE else if field == 1 then images[i].nominalSize else 4 * Place(images, i)
  }

  /** The table of contents: for every image its type, size and place. */
  ghost function Table(images: seq<RawImage>): (words: seq<Pixel>)
    requires Fits(images)
    ensures |words| == 3 * |images|
  {
    seq(3 * |images|, k requires 0 <= k < 3 * |images| => TableWord(images, k / 3, k % 3))
  }

  ghost function Chunks(images: seq<RawImage>, n: nat): (words: seq<Pixel>)
    requires Fits(images) && n <= |images|
    ensures |words| == Start(images, n)
  {
    if n == 0 then [] else Chunks(images, n - 1) + ChunkWords(images[n - 1])
  }

  ghost function FileWords(images: seq<RawImage>): (words: seq<Pixel>)
    requires Fits(images)
    ensures |words| == Place(images, |images|)
  {
    [MAGIC, 16, 1, |images|] + Table(images) + Chunks(images, |images|)
  }

  /** A cursor file of some images: a header, the table, and the chunks in the same order. */
  ghost function Build(images: seq<RawImage>): seq<Byte>
    requires Fits(images)
  {
    Bytes(FileWords(images))
  }

  // ----- Reading it back

  lemma {:induction false} ChunkIn(images: seq<RawImage>, n: nat, i: nat)
    requires Fits(images) && i < n <= |images|
    ensures Start(images, i) + 9 + |images[i].pixels| <= Start(images, n)
    ensures Chunks(images, n)[Start(images, i)..Start(images, i) + 9 + |images[i].pixels|] == ChunkWords(images[i])
  {
    hide ChunkWords, Fits;
    StartGrows(images, i, n);
    FitsWritable(images, i);
    FitsWritable(images, n - 1);
    if i < n - 1 {
      ChunkIn(images, n - 1, i);
      StartGrows(images, i, n - 1);
      InFront(Chunks(images, n - 1), ChunkWords(images[n - 1]), Start(images, i), Start(images, i) + 9 + |images[i].pixels|);
    }
  }

  lemma FitsWritable(images: seq<RawImage>, i: nat)
    requires Fits(images) && i < |images|
    ensures Writable(images[i])
  {}

  lemma InFront<T>(a: seq<T>, b: seq<T>, i: nat, j: nat)
    requires i <= j <= |a|
    ensures (a + b)[i..j] == a[i..j]
  {}

  /** The words of a built file: its table and its chunks. */
  lemma BuiltTable(images: seq<RawImage>, i: nat, field: nat)
    requires Fits(images) && i < |images| && field < 3
    ensures 16 + 12 * i + 4 * field + 4 <= |Build(images)|
    ensures WordAt(Build(images), 16 + 12 * i + 4 * field) == TableWord(images, i, field)
  {
    hide WordAt, Bytes, TableWord, Fits, Chunks;
    var k := 4 + 3 * i + field;
    WordOfBytes(FileWords(images), k);
    assert FileWords(images)[k] == Table(images)[3 * i + field];
    assert (3 * i + field) / 3 == i && (3 * i + field) % 3 == field;
  }

  lemma BuiltHead(images: seq<RawImage>)
    requires Fits(images)
    ensures HasTable(Build(images)) && WordAt(Build(images), 4) == 16 && WordAt(Build(images), 12) == |images|
  {
    hide WordAt, Bytes, Table, Chunks;
    var words := FileWords(images);
    WordOfBytes(words, 0);
    WordOfBytes(words, 1);
    WordOfBytes(words, 3);
    assert words[0] == MAGIC && words[1] == 16 && words[3] == |images|;
  }

  lemma BuiltChunk(images: seq<RawImage>, i: nat, k: nat)
    requires Fits(images) && i < |images| && k < 9 + |images[i].pixels|
    ensures 4 * Place(images, i) + 4 * (9 + |images[i].pixels|) <= |Build(images)|
    ensures WordAt(Build(images), 4 * Place(images, i) + 4 * k) == ChunkWords(images[i])[k]
  {
    hide WordAt, Bytes, Table, Chunks, ChunkWords, Fits;
    FitsWritable(images, i);
    StartGrows(images, i, |images|);
    ChunkIn(images, |images|, i);
    var words, chunks := FileWords(images), Chunks(images, |images|);
    WordOfBytes(words, Place(images, i) + k);
    assert words[Place(images, i) + k] == chunks[Start(images, i) + k];
    assert chunks[Start(images, i) + k] == chunks[Start(images, i)..Start(images, i) + 9 + |images[i].pixels|][k];
  }

  /** The entry written for an image. */
  ghost function Listed(images: seq<RawImage>, n: nat): (entries: seq<Entry>)
    requires n <= |images|
    ensures |entries| == n
  {
    if n == 0 then [] else Listed(images, n - 1) + [Entry(images[n - 1].nominalSize, 4 * Place(images, n - 1))]
  }

  lemma {:induction false} EntriesRead(images: seq<RawImage>, n: nat)
    requires Fits(images) && n <= |images|
    ensures 16 + 12 * n <= |Build(images)| && Entries(Build(images), 16, n) == Listed(images, n)
  {
    hide WordAt, Build, Fits, Start;
    if n == 0 {
      BuiltHead(images);
    } else {
      EntriesRead(images, n - 1);
      BuiltTable(images, n - 1, 0);
      BuiltTable(images, n - 1, 1);
      BuiltTable(images, n - 1, 2);
    }
  }

  lemma {:induction false} ListedSizes(images: seq<RawImage>, n: nat)
    requires n <= |images|
    ensures Sizes(Listed(images, n)) == Nominals(images)[..n]
  {
    if n > 0 {
      ListedSizes(images, n - 1);
      assert Nominals(images)[..n] == Nominals(images)[..n - 1] + [images[n - 1].nominalSize];
    }
  }

  /** An image written is read back exactly, wherever it lies in the file. */
  lemma ImageRead(images: seq<RawImage>, i: nat, limits: Limits)
    requires Fits(images) && i < |images| && images[i].width <= limits.maxDim && images[i].height <= limits.maxDim
    ensures ImageAt(Build(images), 4 * Place(images, i), images[i].nominalSize, limits) == Ok(images[i])
  {
    hide WordAt, Build, Fits, Start, Place;
    FitsWritable(images, i);
    BuiltChunk(images, i, 0);
    var b, at, chunk := Build(images), 4 * Place(images, i), ChunkWords(images[i]);
    forall k: nat | k < 9 + |images[i].pixels|
      ensures WordAt(b, at + 4 * k) == chunk[k]
    {
      BuiltChunk(images, i, k);
    }
    assert chunk[..9] == WordsAt(b, at, 9);
    PixelsRead(b, at, images[i]);
    assert chunk[1] == CHUNK_IMAGE && chunk[2] == images[i].nominalSize;
    assert WordAt(b, at + 4 * 1) == chunk[1] && WordAt(b, at + 4 * 2) == chunk[2];
    var w := WordsAt(b, at, 9);
    assert w[2] == chunk[2] && w[4] == chunk[4] && w[5] == chunk[5] && w[6] == chunk[6] && w[7] == chunk[7] && w[8] == chunk[8];
  }

  lemma PixelsRead(b: seq<Byte>, at: nat, image: RawImage)
    requires Writable(image) && at + 4 * (9 + |image.pixels|) <= |b|
    requires forall k: nat :: k < 9 + |image.pixels| ==> WordAt(b, at + 4 * k) == ChunkWords(image)[k]
    ensures at + 36 + 4 * (image.width * image.height) <= |b|
    ensures WordsAt(b, at + 36, image.width * image.height) == image.pixels
  {
    hide WordAt;
    forall k: nat | k < |image.pixels|
      ensures WordAt(b, at + 36 + 4 * k) == image.pixels[k]
    {
      assert at + 36 + 4 * k == at + 4 * (9 + k);
      assert ChunkWords(image)[9 + k] == image.pixels[k];
    }
  }

  /** Every image of a size, up to the `n`th, comes back in order. */
  lemma {:induction false} SizeRead(images: seq<RawImage>, n: nat, size: nat, limits: Limits)
    requires Fits(images) && n <= |images|
    requires forall i :: 0 <= i < n && images[i].nominalSize == size ==> images[i].width <= limits.maxDim && images[i].height <= limits.maxDim
    ensures ImagesAt(Build(images), Filed(Listed(images, n), size), size, limits) == Ok(OfSize(images, n, size))
    ensures |Filed(Listed(images, n), size)| == |OfSize(images, n, size)|
  {
    hide Build, ImageAt, Start, Place, ImagesAt, Filed, Fits;
    if n == 0 {
      NoneFiled(images, size, limits);
    } else {
      SizeRead(images, n - 1, size, limits);
      FiledNext(Listed(images, n - 1), Entry(images[n - 1].nominalSize, 4 * Place(images, n - 1)), size);
      if images[n - 1].nominalSize == size {
        ImageRead(images, n - 1, limits);
        ImagesNext(Build(images), Filed(Listed(images, n - 1), size), 4 * Place(images, n - 1), size, limits);
      }
    }
  }

  lemma NoneFiled(images: seq<RawImage>, size: nat, limits: Limits)
    requires Fits(images)
    ensures Filed([], size) == [] && ImagesAt(Build(images), [], size, limits) == Ok([])
  {}

  lemma FiledNext(entries: seq<Entry>, entry: Entry, size: nat)
    ensures Filed(entries + [entry], size) == if entry.size == size then Filed(entries, size) + [entry.position] else Filed(entries, size)
  {
    assert (entries + [entry])[..|entries|] == entries;
  }

  lemma ImagesNext(bytes: seq<Byte>, positions: seq<nat>, position: nat, listed: nat, limits: Limits)
    requires ImagesAt(bytes, positions, listed, limits).Ok? && ImageAt(bytes, position, listed, limits).Ok?
    ensures ImagesAt(bytes, positions + [position], listed, limits)
      == Ok(ImagesAt(bytes, positions, listed, limits).value + [ImageAt(bytes, position, listed, limits).value])
  {
    hide ImageAt;
    assert (positions + [position])[..|positions|] == positions;
  }

  /** A file of some images parses to exactly those of the size chosen, in file order, when there
      are not too many, and to none when no size is; without zeros the size is the earliest listed
      of those nearest the one requested. */
  lemma RoundTrip(images: seq<RawImage>, limits: Limits, requested: nat)
    requires Fits(images) && requested <= MAX_REQUEST
    requires forall i :: 0 <= i < |images| && images[i].nominalSize == Best(Nominals(images), requested) ==>
      images[i].width <= limits.maxDim && images[i].height <= limits.maxDim
    ensures
      var size := Best(Nominals(images), requested);
      && ((forall image :: image in images ==> image.nominalSize > 0) ==> IsNearest(Nominals(images), requested, size))
      && Parsed(Build(images), limits, requested) ==
         if size == 0 then Err(NoImages)
         else if |OfSize(images, |images|, size)| <= limits.maxFrames then Ok(OfSize(images, |images|, size)) else Err(TooLarge)
  {
    hide Build, HasTable, Best, ImagesAt, WordAt, Writable, Start, Entries, IsNearest;
    BuiltHead(images);
    EntriesRead(images, |images|);
    ListedSizes(images, |images|);
    assert Nominals(images)[..|images|] == Nominals(images);
    var size := Best(Nominals(images), requested);
    SizeRead(images, |images|, size, limits);
    if forall image :: image in images ==> image.nominalSize > 0 {
      NominalsPositive(images);
      NonzeroIsNearest(Nominals(images), requested);
    }
  }

  lemma NominalsPositive(images: seq<RawImage>)
    requires forall image :: image in images ==> image.nominalSize > 0
    ensures forall i :: 0 <= i < |images| ==> Nominals(images)[i] > 0
  {}

  // ----- More bytes

  lemma WordAppended(bytes: seq<Byte>, more: seq<Byte>, at: nat)
    requires at + 4 <= |bytes|
    ensures WordAt(bytes + more, at) == WordAt(bytes, at)
  {}

  lemma WordsAppended(bytes: seq<Byte>, more: seq<Byte>, at: nat, n: nat)
    requires at + 4 * n <= |bytes|
    ensures WordsAt(bytes + more, at, n) == WordsAt(bytes, at, n)
  {
    hide WordAt;
    forall i: nat | i < n
      ensures WordAt(bytes + more, at + 4 * i) == WordAt(bytes, at + 4 * i)
    {
      WordAppended(bytes, more, at + 4 * i);
    }
  }

  lemma {:induction false} EntriesAppended(bytes: seq<Byte>, more: seq<Byte>, at: nat, n: nat)
    requires at + 12 * n <= |bytes|
    ensures Entries(bytes + more, at, n) == Entries(bytes, at, n)
  {
    hide WordAt;
    if n > 0 {
      EntriesAppended(bytes, more, at, n - 1);
      WordAppended(bytes, more, at + 12 * (n - 1));
      WordAppended(bytes, more, at + 12 * (n - 1) + 4);
      WordAppended(bytes, more, at + 12 * (n - 1) + 8);
    }
  }

  lemma ImageAppended(bytes: seq<Byte>, more: seq<Byte>, at: nat, listed: nat, limits: Limits)
    requires ImageAt(bytes, at, listed, limits).Ok?
    ensures ImageAt(bytes + more, at, listed, limits) == ImageAt(bytes, at, listed, limits)
  {
    hide WordAt;
    WordAppended(bytes, more, at + 4);
    WordAppended(bytes, more, at + 8);
    WordsAppended(bytes, more, at, 9);
    var image := ImageAt(bytes, at, listed, limits).value;
    WordsAppended(bytes, more, at + 36, image.width * image.height);
  }

  lemma {:induction false} ImagesAppended(bytes: seq<Byte>, more: seq<Byte>, positions: seq<nat>, listed: nat, limits: Limits)
    requires ImagesAt(bytes, positions, listed, limits).Ok?
    ensures ImagesAt(bytes + more, positions, listed, limits) == ImagesAt(bytes, positions, listed, limits)
  {
    hide ImageAt;
    if positions != [] {
      ImagesAppended(bytes, more, positions[..|positions| - 1], listed, limits);
      ImageAppended(bytes, more, positions[|positions| - 1], listed, limits);
    }
  }

  /** A file that parses parses the same whatever follows it. */
  lemma AppendStable(bytes: seq<Byte>, more: seq<Byte>, limits: Limits, requested: nat)
    requires Parsed(bytes, limits, requested).Ok?
    ensures Parsed(bytes + more, limits, requested) == Parsed(bytes, limits, requested)
  {
    hide WordAt, Entries, Filed, ImagesAt, Best, Sizes;
    WordAppended(bytes, more, 0);
    WordAppended(bytes, more, 4);
    WordAppended(bytes, more, 12);
    var entries := Entries(bytes, WordAt(bytes, 4), WordAt(bytes, 12));
    EntriesAppended(bytes, more, WordAt(bytes, 4), WordAt(bytes, 12));
    var size := Best(Sizes(entries), requested);
    ImagesAppended(bytes, more, Filed(entries, size), size, limits);
  }

  // ----- Bounds

  /** An image the file could hold, of the size it was filed under. */
  predicate Sound(image: RawImage, bytes: seq<Byte>, limits: Limits, size: nat) {
    && image.nominalSize == size && 1 <= image.width <= limits.maxDim && 1 <= image.height <= limits.maxDim
    && image.xhot <= image.width && image.yhot <= image.height
    && |image.pixels| == image.width * image.height && 4 * |image.pixels| + 36 <= |bytes|
  }

  lemma ImageSound(bytes: seq<Byte>, at: nat, listed: nat, limits: Limits)
    ensures ImageAt(bytes, at, listed, limits).Ok? ==> Sound(ImageAt(bytes, at, listed, limits).value, bytes, limits, listed)
  {
    hide WordAt;
  }

  ghost predicate AllSound(images: seq<RawImage>, bytes: seq<Byte>, limits: Limits, size: nat) {
    forall image :: image in images ==> Sound(image, bytes, limits, size)
  }

  lemma {:induction false} ImagesSound(bytes: seq<Byte>, positions: seq<nat>, listed: nat, limits: Limits)
    requires ImagesAt(bytes, positions, listed, limits).Ok?
    ensures |ImagesAt(bytes, positions, listed, limits).value| == |positions|
    ensures AllSound(ImagesAt(bytes, positions, listed, limits).value, bytes, limits, listed)
  {
    hide ImageAt, Sound;
    if positions != [] {
      ImagesSound(bytes, positions[..|positions| - 1], listed, limits);
      ImageSound(bytes, positions[|positions| - 1], listed, limits);
    }
  }

  lemma {:induction false} FiledSome(entries: seq<Entry>, size: nat, i: nat)
    requires i < |entries| && entries[i].size == size
    ensures Filed(entries, size) != []
  {
    if i < |entries| - 1 {
      FiledSome(entries[..|entries| - 1], size, i);
    }
  }

  /** Whatever a file holds, what parsing it returns is at least one image and at most the limit,
      all of the one listed size chosen, within bounds, and no bigger than the file. */
  lemma ParsedSound(bytes: seq<Byte>, limits: Limits, requested: nat)
    requires Parsed(bytes, limits, requested).Ok?
    ensures
      var images := Parsed(bytes, limits, requested).value;
      var sizes := Sizes(Entries(bytes, WordAt(bytes, 4), WordAt(bytes, 12)));
      && 1 <= |images| <= limits.maxFrames
      && Best(sizes, requested) > 0 && Best(sizes, requested) in sizes
      && AllSound(images, bytes, limits, Best(sizes, requested))
  {
    hide Entries, Filed, ImagesAt, Best, Sound, WordAt, AllSound;
    var entries := Entries(bytes, WordAt(bytes, 4), WordAt(bytes, 12));
    var size := Best(Sizes(entries), requested);
    ImagesSound(bytes, Filed(entries, size), size, limits);
    BestIsListed(Sizes(entries), requested);
    var i :| 0 <= i < |Sizes(entries)| && Sizes(entries)[i] == size;
    FiledSome(entries, size, i);
  }
}
