/** Reading scanout pixels, mixing them, and blending them in bytes: rounded exactly, never carrying
    from one channel into the next. */
module Blending {
  import opened Fourcc
  import opened Pixels

  // ----- Dividing by 255

  /** `x / 255` by shifts. */
  function Div255(x: nat): nat {
    var t := x + 128;
    (t + t / 256) / 256
  }

  /** It is the nearest, for every product of two bytes. */
  lemma Div255Nearest(x: nat)
    requires x <= 255 * 255
    ensures 2 * x - 255 < 2 * 255 * Div255(x) <= 2 * x + 255
  {}

  lemma Div255Monotone(x: nat, y: nat)
    requires x <= y
    ensures Div255(x) <= Div255(y)
  {}

  lemma Div255Unique(x: nat, q: nat)
    requires x <= 255 * 255 && 2 * x - 255 < 2 * 255 * q < 2 * x + 255
    ensures Div255(x) == q
  {
    Div255Nearest(x);
  }

  lemma ProductMonotone(a: nat, b: nat, k: nat)
    requires a <= b
    ensures a * k <= b * k
  {}

  // ----- Blending

  /** One channel of a source over a destination. */
  function OverChannel(s: nat, d: nat, inv: nat): nat {
    s + Div255(d * inv)
  }

  predicate FitsOver(s: Byte, sa: Byte, d: Byte) {
    OverChannel(s, d, 255 - sa) <= 255
  }

  /** A channel never carries, over any destination, exactly when it is no more than its alpha. */
  lemma NoCarryIff(s: Byte, sa: Byte)
    ensures (forall d: Byte :: FitsOver(s, sa, d)) <==> s <= sa
  {
    if s <= sa {
      forall d: Byte
        ensures FitsOver(s, sa, d)
      {
        ChannelBounded(s, sa, d);
      }
    } else {
      var d: Byte := 255;
      Div255Unique(d * (255 - sa), 255 - sa);
      assert !FitsOver(s, sa, d);
    }
  }

  lemma ChannelBounded(s: nat, sa: Byte, d: Byte)
    requires s <= sa
    ensures OverChannel(s, d, 255 - sa) <= 255
  {
    var inv: nat := 255 - sa;
    ProductMonotone(d, 255, inv);
    Div255Monotone(d * inv, 255 * inv);
    Div255Unique(255 * inv, inv);
  }

  /** A premultiplied source over a destination. */
  function SrcOver(dst: Pixel, src: Pixel): Pixel
    requires Premultiplied(src)
  {
    var sa := Alpha(src);
    if sa == 255 then src
    else if sa == 0 then dst
    else
      var inv := 255 - sa;
      ChannelBounded(sa, sa, Alpha(dst));
      ChannelBounded(Channel(src, 2), sa, Channel(dst, 2));
      ChannelBounded(Channel(src, 1), sa, Channel(dst, 1));
      ChannelBounded(Channel(src, 0), sa, Channel(dst, 0));
      Pack(OverChannel(sa, Alpha(dst), inv), OverChannel(Channel(src, 2), Channel(dst, 2), inv),
           OverChannel(Channel(src, 1), Channel(dst, 1), inv), OverChannel(Channel(src, 0), Channel(dst, 0), inv))
  }

  /** Blending keeps every color within its alpha. */
  lemma SrcOverPremultiplied(dst: Pixel, src: Pixel)
    requires Premultiplied(src) && Premultiplied(dst)
    ensures Premultiplied(SrcOver(dst, src))
  {
    hide Pack, Channel, Div255;
    var inv: nat := 255 - Alpha(src);
    ChannelKeepsOrder(Channel(src, 0), Alpha(src), Channel(dst, 0), Alpha(dst), inv);
    ChannelKeepsOrder(Channel(src, 1), Alpha(src), Channel(dst, 1), Alpha(dst), inv);
    ChannelKeepsOrder(Channel(src, 2), Alpha(src), Channel(dst, 2), Alpha(dst), inv);
  }

  lemma ChannelKeepsOrder(s: nat, sa: nat, d: nat, da: nat, inv: nat)
    requires s <= sa && d <= da
    ensures OverChannel(s, d, inv) <= OverChannel(sa, da, inv)
  {
    hide Div255;
    ProductMonotone(d, da, inv);
    Div255Monotone(d * inv, da * inv);
  }

  /** What is opaque stays opaque. */
  lemma SrcOverOpaque(dst: Pixel, src: Pixel)
    requires Premultiplied(src) && Alpha(dst) == 255
    ensures Alpha(SrcOver(dst, src)) == 255
  {
    hide Pack, Channel;
    Div255Unique(255 * (255 - Alpha(src)), 255 - Alpha(src));
  }

  /** Every channel is the nearest byte to the exact blend. */
  lemma SrcOverNearest(dst: Pixel, src: Pixel, k: nat)
    requires Premultiplied(src) && k < 4
    ensures
      var exact255 := 255 * Channel(src, k) + Channel(dst, k) * (255 - Alpha(src));
      2 * exact255 - 255 <= 2 * 255 * Channel(SrcOver(dst, src), k) <= 2 * exact255 + 255
  {
    hide Pack, Channel, Div255;
    var inv: nat := 255 - Alpha(src);
    ProductMonotone(Channel(dst, k), 255, inv);
    Div255Nearest(Channel(dst, k) * inv);
    ZeroAlphaIsBlank(src, k);
    assert k == 0 || k == 1 || k == 2 || k == 3;
  }

  lemma ZeroAlphaIsBlank(src: Pixel, k: nat)
    requires Premultiplied(src) && k < 4
    ensures Alpha(src) == 0 ==> Channel(src, k) == 0
  {}

  // ----- Reading

  function Least(a: nat, b: nat): nat {
    if a < b then a else b
  }

  function ClampToAlpha(p: Pixel): Pixel {
    var a := Alpha(p);
    Pack(a, Least(Channel(p, 2), a), Least(Channel(p, 1), a), Least(Channel(p, 0), a))
  }

  /** Clamping makes any pixel premultiplied, and leaves one alone exactly when it already is. */
  lemma ClampPremultiplies(p: Pixel)
    ensures Premultiplied(ClampToAlpha(p))
    ensures ClampToAlpha(p) == p <==> Premultiplied(p)
  {
    hide Pack, Channel;
    PixelIsChannels(p);
  }

  datatype Format = Argb8888 | Xrgb8888 | Rgb565 {
    function Bytes(): nat {
      if Rgb565? then 2 else 4
    }
  }

  /** High bits repeated in the low ones, so full scale stays full scale. */
  function Widen5(v: nat): Byte
    requires v < 32
  {
    v * 8 + v / 4
  }

  function Widen6(v: nat): Byte
    requires v < 64
  {
    v * 4 + v / 16
  }

  /** Widening is off by less than one step of a byte, exact at both ends, and keeps order: a byte
      starts with the bits widened and repeats its own first ones below. */
  lemma Widen5KeepsScale(v: nat, w: nat)
    requires v < w < 32
    ensures Widen5(v) < Widen5(w) && -31 < 31 * Widen5(v) - 255 * v < 31
    ensures Widen5(0) == 0 && Widen5(31) == 255
    ensures Widen5(v) / 8 == v && Widen5(v) % 8 == Widen5(v) / 32
  {}

  lemma Widen6KeepsScale(v: nat, w: nat)
    requires v < w < 64
    ensures Widen6(v) < Widen6(w) && -63 < 63 * Widen6(v) - 255 * v < 63
    ensures Widen6(0) == 0 && Widen6(63) == 255
    ensures Widen6(v) / 4 == v && Widen6(v) % 4 == Widen6(v) / 64
  {}

  /** One pixel's bytes, as premultiplied color, on a little-endian host. */
  function Read(format: Format, chunk: seq<Byte>): Pixel
    requires |chunk| == format.Bytes()
  {
    match format
    case Argb8888 => ClampToAlpha(Pack(chunk[3], chunk[2], chunk[1], chunk[0]))
    case Xrgb8888 => Pack(255, chunk[2], chunk[1], chunk[0])
    case Rgb565 =>
      var low: nat, high: nat := chunk[0], chunk[1];
      var v := low + 256 * high;
      Pack(255, Widen5(v / 2048), Widen6(v / 32 % 64), Widen5(v % 32))
  }

  /** Whatever a buffer holds, what is read from it is premultiplied, and opaque where the format
      has no alpha. */
  lemma ReadPremultiplied(format: Format, chunk: seq<Byte>)
    requires |chunk| == format.Bytes()
    ensures Premultiplied(Read(format, chunk))
    ensures format != Argb8888 ==> Alpha(Read(format, chunk)) == 255
  {
    hide Pack, Channel;
    if format == Argb8888 {
      ClampPremultiplies(Pack(chunk[3], chunk[2], chunk[1], chunk[0]));
    }
  }

  /** What is read is what the format's name says of the word in memory: clamped to its alpha, full
      where it has none, and widened where its channels are narrower. */
  lemma ReadIsSeen(format: Format, chunk: seq<Byte>)
    requires |chunk| == format.Bytes()
    ensures
      var word, p := LittleEndian(chunk), Read(format, chunk);
      match format
      case Argb8888 => word < 0x1_0000_0000 && p == ClampToAlpha(Seen(word, "ARGB"))
      case Xrgb8888 => word < 0x1_0000_0000 && p == Seen(word, "XRGB")
      case Rgb565 =>
        && word < 0x1_0000
        && p == Pack(255, Widen5(ReadsShort(word, "RGB", 'R')), Widen6(ReadsShort(word, "RGB", 'G')), Widen5(ReadsShort(word, "RGB", 'B')))
  {
    hide Channel, Pack, ClampToAlpha;
    if format.Rgb565? {
      TwoBytes(chunk);
    } else {
      FourBytes(chunk);
      PixelIsChannels(LittleEndian(chunk));
    }
  }

  // ----- Mixing

  type Weight = w: nat | w < 256

  function LerpChannel(a: Byte, b: Byte, w: Weight): (c: Byte)
    ensures (if a < b then a else b) <= c <= (if a < b then b else a)
  {
    LerpBounds(a, b, w);
    (a * (256 - w) + b * w) / 256
  }

  lemma LerpBounds(a: nat, b: nat, w: Weight)
    ensures (if a < b then a else b) * 256 <= a * (256 - w) + b * w <= (if a < b then b else a) * 256
  {
    var lo, hi := if a < b then a else b, if a < b then b else a;
    ProductMonotone(lo, a, 256 - w);
    ProductMonotone(lo, b, w);
    ProductMonotone(a, hi, 256 - w);
    ProductMonotone(b, hi, w);
    assert lo * (256 - w) + lo * w == lo * 256;
    assert hi * (256 - w) + hi * w == hi * 256;
  }

  function Lerp(near: Pixel, far: Pixel, w: Weight): Pixel {
    Pack(LerpChannel(Channel(near, 3), Channel(far, 3), w), LerpChannel(Channel(near, 2), Channel(far, 2), w),
         LerpChannel(Channel(near, 1), Channel(far, 1), w), LerpChannel(Channel(near, 0), Channel(far, 0), w))
  }

  /** The channels of a word one by one, each mixed and put back in its place. */
  method LerpWord(near: Pixel, far: Pixel, w: Weight) returns (out: Pixel)
    ensures out == Lerp(near, far, w)
  {
    hide LerpChannel, Channel;
    var sum := 0;
    var unit := 1;
    var shift := 0;
    while shift < 4
      invariant shift <= 4 && unit == Unit(shift) && sum == LerpLow(near, far, w, shift)
      decreases 4 - shift
    {
      sum := sum + LerpChannel(Channel(near, shift), Channel(far, shift), w) * unit;
      unit := unit * 256;
      shift := shift + 1;
    }
    FourChannels(near, far, w);
    out := sum;
  }

  function Unit(k: nat): nat {
    if k == 0 then 1 else 256 * Unit(k - 1)
  }

  /** The lowest `n` channels of a mix. */
  function LerpLow(near: Pixel, far: Pixel, w: Weight, n: nat): nat
    requires n <= 4
  {
    if n == 0 then 0 else LerpLow(near, far, w, n - 1) + LerpChannel(Channel(near, n - 1), Channel(far, n - 1), w) * Unit(n - 1)
  }

  lemma FourChannels(near: Pixel, far: Pixel, w: Weight)
    ensures LerpLow(near, far, w, 4) == Lerp(near, far, w)
  {
    hide LerpChannel, Channel;
    assert Unit(0) == 1 && Unit(1) == 256 && Unit(2) == 0x1_0000 && Unit(3) == 0x100_0000;
    var c0: nat, c1: nat := LerpChannel(Channel(near, 0), Channel(far, 0), w), LerpChannel(Channel(near, 1), Channel(far, 1), w);
    var c2: nat, c3: nat := LerpChannel(Channel(near, 2), Channel(far, 2), w), LerpChannel(Channel(near, 3), Channel(far, 3), w);
    assert LerpLow(near, far, w, 1) == c0;
    assert LerpLow(near, far, w, 2) == c0 + c1 * 256;
    assert LerpLow(near, far, w, 3) == c0 + c1 * 256 + c2 * 0x1_0000;
  }

  /** Mixing premultiplied pixels gives one; opaque ones, an opaque one. */
  lemma LerpPremultiplied(near: Pixel, far: Pixel, w: Weight)
    requires Premultiplied(near) && Premultiplied(far)
    ensures Premultiplied(Lerp(near, far, w))
    ensures Alpha(near) == 255 && Alpha(far) == 255 ==> Alpha(Lerp(near, far, w)) == 255
  {
    hide Pack, Channel, LerpChannel;
    LerpMonotone(Channel(near, 0), Alpha(near), Channel(far, 0), Alpha(far), w);
    LerpMonotone(Channel(near, 1), Alpha(near), Channel(far, 1), Alpha(far), w);
    LerpMonotone(Channel(near, 2), Alpha(near), Channel(far, 2), Alpha(far), w);
  }

  lemma LerpMonotone(a: Byte, b: Byte, c: Byte, d: Byte, w: Weight)
    requires a <= b && c <= d
    ensures LerpChannel(a, c, w) <= LerpChannel(b, d, w)
  {
    ProductMonotone(a, b, 256 - w);
    ProductMonotone(c, d, w);
  }

  // ----- Straight alpha

  function Straight(c: Byte, a: Byte): Byte
    requires a > 0
  {
    Least((c * 255 + a / 2) / a, 255)
  }

  /** The color and alpha of a pixel whose color was not multiplied: red, green, blue, alpha. */
  function Unpremultiply(p: Pixel): (straight: seq<Byte>)
    ensures |straight| == 4
  {
    var a := Alpha(p);
    if a == 0 then [0, 0, 0, 0]
    else [Straight(Channel(p, 2), a), Straight(Channel(p, 1), a), Straight(Channel(p, 0), a), a]
  }

  /** Multiplying the alpha back in, rounded as blending rounds, restores the pixel exactly. */
  lemma UnpremultiplyLosesNothing(p: Pixel)
    requires Premultiplied(p)
    ensures
      var s := Unpremultiply(p);
      p == Pack(s[3], Premultiply(s[0], s[3]), Premultiply(s[1], s[3]), Premultiply(s[2], s[3]))
    ensures Alpha(p) == 0 ==> Unpremultiply(p) == [0, 0, 0, 0]
  {
    hide Pack, Channel;
    PixelIsChannels(p);
    var a := Alpha(p);
    if a > 0 {
      StraightRoundTrip(Channel(p, 2), a);
      StraightRoundTrip(Channel(p, 1), a);
      StraightRoundTrip(Channel(p, 0), a);
    } else {
      assert Premultiply(0, 0) == 0;
    }
  }

  function Premultiply(s: Byte, a: Byte): Byte {
    ProductMonotone(s, 255, a);
    Div255Monotone(s * a, 255 * a);
    Div255Unique(255 * a, a);
    Div255(s * a)
  }

  lemma StraightRoundTrip(c: Byte, a: Byte)
    requires 0 < a && c <= a
    ensures Premultiply(Straight(c, a), a) == c
  {
    var n := c * 255 + a / 2;
    DividesTo(n, a, n / a);
    RoundsBack(c, a, n / a, n / a * a);
    ProductMonotone(Straight(c, a), 255, a);
  }

  lemma RoundsBack(c: Byte, a: Byte, s: nat, product: nat)
    requires 0 < a && c <= a && product == s * a && product <= c * 255 + a / 2 < product + a
    ensures s <= 255 && Div255(product) == c
  {
    if s > 255 {
      ProductMonotone(256, s, a);
    } else if a < 255 {
      ProductMonotone(s, 255, a);
      Div255Unique(product, c);
    } else {
      Div255Unique(255 * c, c);
    }
  }

  lemma DividesTo(n: nat, a: nat, q: nat)
    requires a > 0 && q == n / a
    ensures q * a <= n < q * a + a
  {}
}
