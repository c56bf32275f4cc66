/** 32-bit pixels of four 8-bit channels, and source-over blending of premultiplied ones. */
module Pixels {

  type Byte = x: nat | x < 256

  /** `0xAARRGGBB` in a machine word. */
  type Pixel = x: nat | x < 0x1_0000_0000

  /** The byte `k` up from the bottom: 0 is blue, 3 is alpha. */
  function Channel(p: Pixel, k: nat): (c: Byte)
    requires k < 4
  {
    if k == 0 then p % 256
    else if k == 1 then p / 256 % 256
    else if k == 2 then p / 256 / 256 % 256
    else p / 256 / 256 / 256
  }

  function Alpha(p: Pixel): Byte {
    Channel(p, 3)
  }

  function Pack(a: Byte, r: Byte, g: Byte, b: Byte): (p: Pixel)
    ensures Channel(p, 3) == a && Channel(p, 2) == r && Channel(p, 1) == g && Channel(p, 0) == b
  {
    ((a * 256 + r) * 256 + g) * 256 + b
  }

  /** A pixel is its four channels. */
  lemma PixelIsChannels(p: Pixel)
    ensures p == Pack(Channel(p, 3), Channel(p, 2), Channel(p, 1), Channel(p, 0))
  {}

  lemma SameChannels(p: Pixel, q: Pixel)
    requires forall k: nat :: k < 4 ==> Channel(p, k) == Channel(q, k)
    ensures p == q
  {
    PixelIsChannels(p);
    PixelIsChannels(q);
    assert Channel(p, 0) == Channel(q, 0) && Channel(p, 1) == Channel(q, 1);
    assert Channel(p, 2) == Channel(q, 2) && Channel(p, 3) == Channel(q, 3);
  }

  /** No color is brighter than the pixel is opaque. */
  ghost predicate Premultiplied(p: Pixel) {
    Channel(p, 0) <= Alpha(p) && Channel(p, 1) <= Alpha(p) && Channel(p, 2) <= Alpha(p)
  }
}
