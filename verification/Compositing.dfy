/** One blending step of the canvas, and the formats a blended row is converted to. */
module Compositing {
  import opened Fourcc
  import opened Pixels

  // ----- Blending

  /** One premultiplied source-over step, rounded to nearest and saturating. */
  function BlendPixelOver(src: Pixel, dst: Pixel): Pixel {
    var sa := Alpha(src);
    if sa == 0 then dst
    else if sa == 0xff then src
    else
      Pack(BlendChannel(sa, Channel(dst, 3), 255 - sa), BlendChannel(Channel(src, 2), Channel(dst, 2), 255 - sa),
           BlendChannel(Channel(src, 1), Channel(dst, 1), 255 - sa), BlendChannel(Channel(src, 0), Channel(dst, 0), 255 - sa))
  }

  function BlendChannel(s: Byte, d: Byte, inv: Byte): Byte {
    var out := s + (d * inv + 127) / 255;
    if out > 0xff then 0xff else out
  }

  /** 255 times the exact channel `k` of a source over a destination. */
  function Exact255(src: Pixel, dst: Pixel, k: nat): nat
    requires k < 4
  {
    Weighted(Channel(src, k), Channel(dst, k), 255 - Alpha(src))
  }

  function Weighted(s: Byte, d: Byte, inv: Byte): nat {
    255 * s + d * inv
  }

  /** `c` is the nearest byte to a 255th of `exact255`: a full one, when the nearest number is more. */
  predicate NearestByte(exact255: nat, c: Byte) {
    || 2 * exact255 - 255 < 2 * 255 * c < 2 * exact255 + 255
    || (c == 255 && 2 * exact255 > 2 * 255 * 255 + 255)
  }

  /** Every channel of a blend is the nearest byte to the exact one, premultiplied or not, unless the
      source is clear: a clear pixel leaves what is below it, whatever color it has. */
  lemma BlendNearest(src: Pixel, dst: Pixel, k: nat)
    requires k < 4
    ensures Alpha(src) > 0 ==> NearestByte(Exact255(src, dst, k), Channel(BlendPixelOver(src, dst), k))
    ensures Alpha(src) == 0 ==> BlendPixelOver(src, dst) == dst
  {
    hide Pack, Channel, Weighted, NearestByte, BlendChannel;
    assert k == 0 || k == 1 || k == 2 || k == 3;
    ChannelNearest(Channel(src, k), Channel(dst, k), 255 - Alpha(src));
    OpaqueNearest(Channel(src, k), Channel(dst, k));
  }

  lemma OpaqueNearest(s: Byte, d: Byte)
    ensures NearestByte(Weighted(s, d, 0), s)
  {}

  lemma ChannelNearest(s: Byte, d: Byte, inv: Byte)
    ensures NearestByte(Weighted(s, d, inv), BlendChannel(s, d, inv))
  {
    Quotient(d * inv);
  }

  lemma Quotient(x: nat)
    ensures 2 * x - 255 < 2 * 255 * ((x + 127) / 255) < 2 * x + 255
  {}

  /** A premultiplied source never saturates: every channel is the nearest to the exact one. */
  lemma PremultipliedNearest(src: Pixel, dst: Pixel, k: nat)
    requires k < 4 && Premultiplied(src)
    ensures
      var exact255 := Exact255(src, dst, k);
      2 * exact255 - 255 < 2 * 255 * Channel(BlendPixelOver(src, dst), k) < 2 * exact255 + 255
  {
    hide Pack, Channel;
    BlendNearest(src, dst, k);
    assert k == 0 || k == 1 || k == 2 || k == 3;
    Product(Channel(dst, k), 255 - Alpha(src));
  }

  lemma Product(d: Byte, inv: Byte)
    ensures d * inv <= 255 * inv
  {}

  predicate Saturates(s: Byte, d: Byte, sa: Byte) {
    2 * Weighted(s, d, 255 - sa) > 2 * 255 * 255 + 255
  }

  /** A channel saturates over some destination exactly when it exceeds its alpha. */
  lemma SaturatesIff(s: Byte, sa: Byte)
    requires 0 < sa
    ensures (exists d: Byte :: Saturates(s, d, sa)) <==> s > sa
  {
    forall d: Byte | Saturates(s, d, sa)
      ensures s > sa
    {
      Product(d, 255 - sa);
    }
    if s > sa {
      assert Saturates(s, 255, sa);
    }
  }

  /** Blending keeps every color within its alpha. */
  lemma BlendPremultiplied(src: Pixel, dst: Pixel)
    requires Premultiplied(src) && Premultiplied(dst)
    ensures Premultiplied(BlendPixelOver(src, dst))
  {
    hide Pack, Channel;
    var inv := 255 - Alpha(src);
    ChannelInOrder(Channel(src, 0), Alpha(src), Channel(dst, 0), Alpha(dst), inv);
    ChannelInOrder(Channel(src, 1), Alpha(src), Channel(dst, 1), Alpha(dst), inv);
    ChannelInOrder(Channel(src, 2), Alpha(src), Channel(dst, 2), Alpha(dst), inv);
  }

  lemma ChannelInOrder(s: Byte, sa: Byte, d: Byte, da: Byte, inv: Byte)
    requires s <= sa && d <= da
    ensures BlendChannel(s, d, inv) <= BlendChannel(sa, da, inv)
  {
    ProductInOrder(d, da, inv);
  }

  lemma ProductInOrder(a: nat, b: nat, k: nat)
    requires a <= b
    ensures a * k <= b * k
  {}

  /** What is opaque stays opaque. */
  lemma BlendOpaque(src: Pixel, dst: Pixel)
    requires Alpha(dst) == 255
    ensures Alpha(BlendPixelOver(src, dst)) == 255
  {
    hide Pack, Channel;
    var inv := 255 - Alpha(src);
    assert 255 * inv / 255 == inv;
  }

  /** Half-transparent red over opaque blue. */
  lemma BlendExample()
    ensures BlendPixelOver(0x8080_0000, 0xff00_00ff) == 0xff80_007f
  {
    var src, dst := 0x8080_0000, 0xff00_00ff;
    assert Channel(src, 3) == 0x80 && Channel(src, 2) == 0x80 && Channel(src, 1) == 0 && Channel(src, 0) == 0;
    assert Channel(dst, 3) == 0xff && Channel(dst, 2) == 0 && Channel(dst, 1) == 0 && Channel(dst, 0) == 0xff;
    hide Channel;
  }

  // ----- Converting

  /** What a framebuffer row can be converted to. */
  datatype OutputFormat = Argb8888 | Xrgb8888 | Abgr8888 | Xbgr8888 | Rgb565 | Bgr565 {
    predicate Short() {
      Rgb565? || Bgr565?
    }
  }

  /** One converted pixel, as a word of the format's size. */
  function Converted(p: Pixel, format: OutputFormat): Pixel {
    var a, r, g, b := Channel(p, 3), Channel(p, 2), Channel(p, 1), Channel(p, 0);
    match format
    case Argb8888 => p
    case Xrgb8888 => p
    case Abgr8888 => Pack(a, b, g, r)
    case Xbgr8888 => Pack(a, b, g, r)
    case Rgb565 => Packed565(r, g, b)
    case Bgr565 => Packed565(b, g, r)
  }

  /** Truncated to five, six and five bits. */
  function Packed565(high: Byte, middle: Byte, low: Byte): (p: Pixel)
    ensures p < 0x1_0000
  {
    high / 8 * 2048 + middle / 4 * 32 + low / 8
  }

  function NameOf(format: OutputFormat): Name
    requires !format.Short()
  {
    match format
    case Argb8888 => "ARGB"
    case Xrgb8888 => "XRGB"
    case Abgr8888 => "ABGR"
    case Xbgr8888 => "XBGR"
  }

  /** What is read back from a converted word, by the format's name, is the color converted, opaque
      where the format has no alpha. */
  lemma ConvertedIsSeen(p: Pixel, format: OutputFormat)
    requires !format.Short()
    ensures Seen(Converted(p, format), NameOf(format)) ==
      if format.Argb8888? || format.Abgr8888? then p else Pack(255, Channel(p, 2), Channel(p, 1), Channel(p, 0))
  {
    hide Pack, Channel;
    PixelIsChannels(p);
  }

  /** A short word keeps the high bits of each color. */
  lemma ConvertedShort(p: Pixel, format: OutputFormat)
    requires format.Short()
    ensures
      var name := if format.Rgb565? then "RGB" else "BGR";
      var word := Converted(p, format);
      && ReadsShort(word, name, 'R') == Channel(p, 2) / 8
      && ReadsShort(word, name, 'G') == Channel(p, 1) / 4
      && ReadsShort(word, name, 'B') == Channel(p, 0) / 8
  {
    hide Channel, Packed565, ReadsShort;
    if format.Rgb565? {
      ShortFields(Channel(p, 2), Channel(p, 1), Channel(p, 0), "RGB");
    } else {
      ShortFields(Channel(p, 0), Channel(p, 1), Channel(p, 2), "BGR");
    }
  }

  lemma ShortFields(high: Byte, middle: Byte, low: Byte, name: ShortName)
    requires name[0] != name[1] && name[1] != name[2] && name[0] != name[2]
    ensures
      var word := Packed565(high, middle, low);
      && ReadsShort(word, name, name[0]) == high / 8
      && ReadsShort(word, name, name[1]) == middle / 4
      && ReadsShort(word, name, name[2]) == low / 8
  {
    Fields(high / 8, middle / 4, low / 8);
  }

  lemma Fields(h: nat, m: nat, l: nat)
    requires h < 32 && m < 64 && l < 32
    ensures
      var word := h * 2048 + m * 32 + l;
      word / 2048 == h && word / 32 % 64 == m && word % 32 == l
  {
    assert (h * 2048 + m * 32 + l) / 32 == h * 64 + m;
  }
}
