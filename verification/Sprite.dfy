/** Composing a cursor frame into a plane buffer: turned, shrunk if it is too big, centered, and
    with the hotspot moved along. */
module Sprite {
  import opened BoxFilter
  import opened Grid
  import opened Pixels

  datatype RawFrame = RawFrame(pixels: seq<Pixel>, width: nat, height: nat, xhot: nat, yhot: nat, delay: nat)

  /** A frame with both dimensions and all its pixels. */
  type Frame = f: RawFrame | f.width > 0 && f.height > 0 && |f.pixels| >= f.width * f.height
    witness RawFrame([0], 1, 1, 0, 0, 0)

  datatype Rotation = Upright | Quarter | Half | ThreeQuarter {
    predicate SwapsAxes() {
      Quarter? || ThreeQuarter?
    }
  }

  function TurnedWidth(f: Frame, r: Rotation): (w: nat)
    ensures w > 0
  {
    if r.SwapsAxes() then f.height else f.width
  }

  function TurnedHeight(f: Frame, r: Rotation): (h: nat)
    ensures h > 0
  {
    if r.SwapsAxes() then f.width else f.height
  }

  function PixelAt(f: Frame, x: nat, y: nat): Pixel
    requires x < f.width && y < f.height
  {
    AtFits(f.width, f.height, x, y);
    f.pixels[At(f.width, x, y)]
  }

  /** One pixel of the turned view: where it is going, mapped back to where it came from. */
  function SampleRotated(f: Frame, r: Rotation, rx: nat, ry: nat): Pixel
    requires rx < TurnedWidth(f, r) && ry < TurnedHeight(f, r)
  {
    match r
    case Upright => PixelAt(f, rx, ry)
    case Quarter => PixelAt(f, ry, f.height - 1 - rx)
    case Half => PixelAt(f, f.width - 1 - rx, f.height - 1 - ry)
    case ThreeQuarter => PixelAt(f, f.width - 1 - ry, rx)
  }

  // ----- Turning

  /** The frame as it looks after a quarter turn. */
  function Turned(f: Frame): (t: Frame)
    ensures t.width == f.height && t.height == f.width && |t.pixels| == f.width * f.height
    ensures forall x: nat, y: nat :: x < t.width && y < t.height ==> PixelAt(t, x, y) == SampleRotated(f, Quarter, x, y)
  {
    var pixels := seq(f.height * f.width, i requires 0 <= i < f.height * f.width => CellOf(f, i));
    var t := RawFrame(pixels, f.height, f.width, f.xhot, f.yhot, f.delay);
    TurnedPixels(f, pixels);
    t
  }

  function CellOf(f: Frame, i: nat): Pixel
    requires i < f.height * f.width
  {
    CellBounds(f.height, f.width, i);
    SampleRotated(f, Quarter, i % f.height, i / f.height)
  }

  lemma CellBounds(w: nat, h: nat, i: nat)
    requires i < w * h && w > 0
    ensures i % w < w && i / w < h && i == At(w, i % w, i / w)
  {
    if i / w >= h {
      MulMono(i / w, h, w);
    }
  }

  lemma CellUnique(w: nat, x: nat, y: nat)
    requires x < w
    ensures At(w, x, y) % w == x && At(w, x, y) / w == y
  {
    var i := At(w, x, y);
    assert i == i / w * w + i % w;
    if i / w < y {
      MulMono(y, i / w + 1, w);
    } else if i / w > y {
      MulMono(i / w, y + 1, w);
    }
  }

  lemma TurnedPixels(f: Frame, pixels: seq<Pixel>)
    requires |pixels| == f.height * f.width
    requires forall i: nat :: i < |pixels| ==> pixels[i] == CellOf(f, i)
    ensures forall x: nat, y: nat :: x < f.height && y < f.width ==>
      At(f.height, x, y) < |pixels| && pixels[At(f.height, x, y)] == SampleRotated(f, Quarter, x, y)
  {
    hide SampleRotated, At;
    forall x: nat, y: nat | x < f.height && y < f.width
      ensures At(f.height, x, y) < |pixels| && pixels[At(f.height, x, y)] == SampleRotated(f, Quarter, x, y)
    {
      AtFits(f.height, f.width, x, y);
      CellUnique(f.height, x, y);
    }
  }

  /** Turning a frame a quarter and then drawing it turned is drawing it turned a quarter more;
      a fourth quarter turn brings it back upright. */
  lemma QuarterMore(f: Frame, x: nat, y: nat)
    ensures x < f.height && y < f.width ==>
      SampleRotated(Turned(f), Upright, x, y) == SampleRotated(f, Quarter, x, y)
    ensures x < f.width && y < f.height ==>
      SampleRotated(Turned(f), Quarter, x, y) == SampleRotated(f, Half, x, y)
    ensures x < f.height && y < f.width ==>
      SampleRotated(Turned(f), Half, x, y) == SampleRotated(f, ThreeQuarter, x, y)
    ensures x < f.width && y < f.height ==>
      SampleRotated(Turned(f), ThreeQuarter, x, y) == SampleRotated(f, Upright, x, y)
  {
    hide At;
  }

  /** A quarter turn is clockwise: a frame's top row becomes its right column, top to bottom. */
  lemma QuarterIsClockwise(f: Frame, x: nat)
    requires x < f.width
    ensures SampleRotated(f, Quarter, TurnedWidth(f, Quarter) - 1, x) == PixelAt(f, x, 0)
    ensures SampleRotated(f, ThreeQuarter, 0, TurnedHeight(f, ThreeQuarter) - 1 - x) == PixelAt(f, x, 0)
  {
    hide At;
  }

  /** Four quarter turns are the identity. */
  lemma FourTurns(f: Frame, x: nat, y: nat)
    requires x < f.width && y < f.height
    ensures PixelAt(Turned(Turned(Turned(Turned(f)))), x, y) == PixelAt(f, x, y)
  {
    hide At;
    QuarterMore(Turned(Turned(Turned(f))), x, y);
    QuarterMore(Turned(Turned(f)), x, y);
    QuarterMore(Turned(f), x, y);
    QuarterMore(f, x, y);
  }

  // ----- Size and place

  /** Both axes are shrunk by one 16.16 ratio, rounded, and never to nothing. */
  function Scaled(extent: nat, ratio: nat): (s: nat)
    ensures s >= 1
  {
    var value := (extent * ratio + 0x8000) / 0x1_0000;
    var fits := if value > 0xffff_ffff then 1 else value;
    if fits < 1 then 1 else fits
  }

  function Ratio(rw: nat, rh: nat, dw: nat, dh: nat): nat
    requires rw > 0 && rh > 0
  {
    Min(dw * 0x1_0000 / rw, dh * 0x1_0000 / rh)
  }

  function Min(x: nat, y: nat): nat {
    if x < y then x else y
  }

  predicate Shrinks(f: Frame, r: Rotation, dw: nat, dh: nat) {
    TurnedWidth(f, r) > dw || TurnedHeight(f, r) > dh
  }

  function BlitExtent(f: Frame, r: Rotation, dw: nat, dh: nat, extent: nat, limit: nat): nat {
    if Shrinks(f, r, dw, dh) then Min(Scaled(extent, Ratio(TurnedWidth(f, r), TurnedHeight(f, r), dw, dh)), limit)
    else Min(extent, limit)
  }

  function BlitWidth(f: Frame, r: Rotation, dw: nat, dh: nat): nat {
    BlitExtent(f, r, dw, dh, TurnedWidth(f, r), dw)
  }

  function BlitHeight(f: Frame, r: Rotation, dw: nat, dh: nat): nat {
    BlitExtent(f, r, dw, dh, TurnedHeight(f, r), dh)
  }

  lemma RatioBelowOne(rw: nat, rh: nat, dw: nat, dh: nat)
    requires rw > 0 && rh > 0 && (rw > dw || rh > dh)
    ensures Ratio(rw, rh, dw, dh) <= 0xffff
  {
    RatioOf(dw, rw);
    RatioOf(dh, rh);
  }

  lemma RatioOf(d: nat, r: nat)
    requires r > 0
    ensures d < r ==> d * 0x1_0000 / r <= 0xffff
  {
    var q := d * 0x1_0000 / r;
    DivIs(d * 0x1_0000, r, q);
    if d < r && q >= 0x1_0000 {
      MulLe(r, 0x1_0000, q);
    }
  }

  lemma ScaledShrinks(extent: nat, ratio: nat)
    requires extent > 0 && ratio <= 0xffff
    ensures Scaled(extent, ratio) <= extent
  {
    MulLe(extent, ratio, 0xffff);
  }

  /** What is written fits the buffer and is no larger than the turned frame, on both axes; the
      box filter rests on it. */
  lemma BlitFits(f: Frame, r: Rotation, dw: nat, dh: nat)
    requires dw > 0 && dh > 0
    ensures 1 <= BlitWidth(f, r, dw, dh) <= dw && BlitWidth(f, r, dw, dh) <= TurnedWidth(f, r)
    ensures 1 <= BlitHeight(f, r, dw, dh) <= dh && BlitHeight(f, r, dw, dh) <= TurnedHeight(f, r)
  {
    if Shrinks(f, r, dw, dh) {
      var rw, rh := TurnedWidth(f, r), TurnedHeight(f, r);
      RatioBelowOne(rw, rh, dw, dh);
      ScaledShrinks(rw, Ratio(rw, rh, dw, dh));
      ScaledShrinks(rh, Ratio(rw, rh, dw, dh));
    }
  }

  /** The axis that overflows most lands exactly on the buffer's edge: rounding, not truncating,
      keeps the last row and column, exactly when truncating the ratio lost at most half a pixel
      over the axis, or one pixel is all there is; always, for a sprite up to 32768 pixels across. */
  lemma TightAxisFillsIff(f: Frame, r: Rotation, dw: nat, dh: nat)
    requires 0 < dw <= 0xffff_ffff && 0 < dh <= 0xffff_ffff && Shrinks(f, r, dw, dh)
    ensures
      var p := PlacementOf(f, r, dw, dh);
      var rw, rh := TurnedWidth(f, r), TurnedHeight(f, r);
      && (dw * 0x1_0000 / rw <= dh * 0x1_0000 / rh ==>
            && (p.width == dw <==> dw == 1 || dw * 0x1_0000 % rw <= 0x8000)
            && (rw <= 0x8000 ==> p.width == dw))
      && (dh * 0x1_0000 / rh <= dw * 0x1_0000 / rw ==>
            && (p.height == dh <==> dh == 1 || dh * 0x1_0000 % rh <= 0x8000)
            && (rh <= 0x8000 ==> p.height == dh))
  {
    hide Scaled;
    var rw, rh := TurnedWidth(f, r), TurnedHeight(f, r);
    if dw * 0x1_0000 / rw <= dh * 0x1_0000 / rh {
      TightAxis(rw, dw, dh, rh);
    }
    if dh * 0x1_0000 / rh <= dw * 0x1_0000 / rw {
      TightAxis(rh, dh, dw, rw);
    }
  }

  /** One axis, tighter than the other: the buffer is smaller than the sprite along it. */
  lemma TightAxis(rw: nat, dw: nat, dh: nat, rh: nat)
    requires 0 < dw <= 0xffff_ffff && rw > 0 && rh > 0 && dw * 0x1_0000 / rw <= dh * 0x1_0000 / rh
    requires rw > dw || rh > dh
    ensures
      var s := Scaled(rw, dw * 0x1_0000 / rw);
      && s <= dw
      && (s == dw <==> dw == 1 || dw * 0x1_0000 % rw <= 0x8000)
      && (rw <= 0x8000 ==> s == dw)
  {
    var q := dw * 0x1_0000 / rw;
    var lost := dw * 0x1_0000 % rw;
    DivIs(dw * 0x1_0000, rw, q);
    assert rw * q == dw * 0x1_0000 - lost;
    RoundsTo(dw, rw * q, lost);
  }

  /** Both axes are scaled by the largest 16.16 ratio that fits the buffer, each to the nearest pixel or
      to one. */
  lemma ScalesNearest(f: Frame, r: Rotation, dw: nat, dh: nat)
    requires 0 < dw <= 0xffff_ffff && 0 < dh <= 0xffff_ffff && Shrinks(f, r, dw, dh)
    ensures
      var p := PlacementOf(f, r, dw, dh);
      var rw, rh := TurnedWidth(f, r), TurnedHeight(f, r);
      var q := Ratio(rw, rh, dw, dh);
      && rw * q <= dw * 0x1_0000 && rh * q <= dh * 0x1_0000
      && (rw * (q + 1) > dw * 0x1_0000 || rh * (q + 1) > dh * 0x1_0000)
      && Nearest(p.width, rw * q) && Nearest(p.height, rh * q)
  {
    hide Scaled;
    var rw, rh := TurnedWidth(f, r), TurnedHeight(f, r);
    RatioFits(rw, rh, dw, dh);
    DivIs(dw * 0x1_0000, rw, dw * 0x1_0000 / rw);
    DivIs(dh * 0x1_0000, rh, dh * 0x1_0000 / rh);
    ScaledNearest(rw, Ratio(rw, rh, dw, dh), dw);
    ScaledNearest(rh, Ratio(rw, rh, dw, dh), dh);
  }

  /** `n` is the nearest to `scaled` 65536ths, the higher of two, or one if that is zero. */
  predicate Nearest(n: nat, scaled: int) {
    if scaled < 0x8000 then n == 1 else 2 * n * 0x1_0000 - 0x1_0000 <= 2 * scaled < 2 * n * 0x1_0000 + 0x1_0000
  }

  lemma ScaledNearest(extent: nat, ratio: nat, limit: nat)
    requires 0 < limit <= 0xffff_ffff && extent * ratio <= limit * 0x1_0000
    ensures Nearest(Min(Scaled(extent, ratio), limit), extent * ratio)
  {}

  function Distance(x: int, y: int): nat {
    if x < y then y - x else x - y
  }

  /** A shrunk sprite keeps its proportions: each axis is within a pixel of the common ratio. */
  lemma KeepsProportions(f: Frame, r: Rotation, dw: nat, dh: nat)
    requires 0 < dw <= 0xffff_ffff && 0 < dh <= 0xffff_ffff && Shrinks(f, r, dw, dh)
    ensures
      var p := PlacementOf(f, r, dw, dh);
      var rw, rh := TurnedWidth(f, r), TurnedHeight(f, r);
      Distance(p.width * rh, p.height * rw) <= rw + rh
  {
    hide Scaled, Ratio;
    var rw, rh := TurnedWidth(f, r), TurnedHeight(f, r);
    var q, bw, bh := Ratio(rw, rh, dw, dh), BlitWidth(f, r, dw, dh), BlitHeight(f, r, dw, dh);
    RatioFits(rw, rh, dw, dh);
    ScaledNear(rw, q, dw);
    ScaledNear(rh, q, dh);
    Cross(rw, rh, q, bw, bh);
  }

  lemma RatioFits(rw: nat, rh: nat, dw: nat, dh: nat)
    requires rw > 0 && rh > 0
    ensures rw * Ratio(rw, rh, dw, dh) <= dw * 0x1_0000 && rh * Ratio(rw, rh, dw, dh) <= dh * 0x1_0000
  {
    DivIs(dw * 0x1_0000, rw, dw * 0x1_0000 / rw);
    DivIs(dh * 0x1_0000, rh, dh * 0x1_0000 / rh);
    MulLe(rw, Ratio(rw, rh, dw, dh), dw * 0x1_0000 / rw);
    MulLe(rh, Ratio(rw, rh, dw, dh), dh * 0x1_0000 / rh);
  }

  /** The buffer's limit does not cut a scaled axis, which is within a pixel of the exact one. */
  lemma ScaledNear(extent: nat, ratio: nat, limit: nat)
    requires 0 < limit <= 0xffff_ffff && extent * ratio <= limit * 0x1_0000
    ensures Min(Scaled(extent, ratio), limit) == Scaled(extent, ratio)
    ensures Distance(Scaled(extent, ratio) * 0x1_0000, extent * ratio) <= 0x1_0000
  {}

  lemma Cross(rw: nat, rh: nat, q: nat, bw: nat, bh: nat)
    requires Distance(bw * 0x1_0000, rw * q) <= 0x1_0000 && Distance(bh * 0x1_0000, rh * q) <= 0x1_0000
    ensures Distance(bw * rh, bh * rw) <= rw + rh
  {
    var ew, eh := bw * 0x1_0000 - rw * q, bh * 0x1_0000 - rh * q;
    assert (bw * rh - bh * rw) * 0x1_0000 == ew * rh - eh * rw by {
      assert bw * 0x1_0000 == rw * q + ew && bh * 0x1_0000 == rh * q + eh;
      CrossOut(rw, rh, q, bw, bh);
    }
    Within(ew, rh);
    Within(eh, rw);
  }

  lemma CrossOut(rw: nat, rh: nat, q: nat, bw: nat, bh: nat)
    ensures (bw * 0x1_0000 - rw * q) * rh - (bh * 0x1_0000 - rh * q) * rw == (bw * rh - bh * rw) * 0x1_0000
  {
    assert (bw * 0x1_0000 - rw * q) * rh == bw * rh * 0x1_0000 - rw * q * rh;
    assert (bh * 0x1_0000 - rh * q) * rw == bh * rw * 0x1_0000 - rh * q * rw;
    assert rw * q * rh == rh * q * rw;
  }

  lemma Within(e: int, k: nat)
    requires -0x1_0000 <= e <= 0x1_0000
    ensures -0x1_0000 * k <= e * k <= 0x1_0000 * k
  {}

  lemma RoundsTo(dw: nat, product: nat, lost: nat)
    requires 0 < dw <= 0xffff_ffff && product == dw * 0x1_0000 - lost
    ensures (product + 0x8000) / 0x1_0000 <= dw
    ensures (product + 0x8000) / 0x1_0000 == dw <==> lost <= 0x8000
  {}

  function Centered(limit: nat, blit: nat): nat {
    if limit > blit then (limit - blit) / 2 else 0
  }

  datatype Placement = Placement(width: nat, height: nat, x: nat, y: nat, hotspotX: nat, hotspotY: nat)

  /** Truncating toward zero. */
  function Truncated(n: int, d: nat): int
    requires d > 0
  {
    if n >= 0 then n / d else -(-n / d)
  }

  /** The hotspot in the turned frame; one pixel before it for a hotspot on the far edge. */
  function TurnedHotspot(f: Frame, r: Rotation): (int, int) {
    match r
    case Upright => (f.xhot, f.yhot)
    case Quarter => (f.height - 1 - f.yhot, f.xhot)
    case Half => (f.width - 1 - f.xhot, f.height - 1 - f.yhot)
    case ThreeQuarter => (f.yhot, f.width - 1 - f.xhot)
  }

  function PlaceHotspot(hotspot: int, offset: nat): (at: nat)
    ensures at <= 0xffff_ffff
  {
    var at := if hotspot + offset < 0 then 0 else hotspot + offset;
    if at > 0xffff_ffff then 0xffff_ffff else at
  }

  function ScaleHotspot(hotspot: int, blit: nat, turned: nat): int {
    if blit != 0 && blit != turned && turned != 0 then Truncated(hotspot * blit, turned) else hotspot
  }

  function PlacementOf(f: Frame, r: Rotation, dw: nat, dh: nat): Placement {
    var bw, bh := BlitWidth(f, r, dw, dh), BlitHeight(f, r, dw, dh);
    var x, y := Centered(dw, bw), Centered(dh, bh);
    var hot := TurnedHotspot(f, r);
    Placement(bw, bh, x, y,
              PlaceHotspot(ScaleHotspot(hot.0, bw, TurnedWidth(f, r)), x),
              PlaceHotspot(ScaleHotspot(hot.1, bh, TurnedHeight(f, r)), y))
  }

  // ----- What ends up in the buffer

  /** A channel of the turned view, its edges repeated. */
  function TurnedChannel(f: Frame, r: Rotation, k: nat): Source
    requires k < 4
  {
    (x: nat, y: nat) => Channel(SampleRotated(f, r, Min(x, TurnedWidth(f, r) - 1), Min(y, TurnedHeight(f, r) - 1)), k)
  }

  /** The mean pixel of a box of the turned view. */
  function BoxPixel(f: Frame, r: Rotation, s: Span): Pixel
    requires s.left < s.right && s.top < s.bottom
  {
    Pack(Mean(TurnedChannel(f, r, 3), s), Mean(TurnedChannel(f, r, 2), s),
         Mean(TurnedChannel(f, r, 1), s), Mean(TurnedChannel(f, r, 0), s))
  }

  function Step(turned: nat, blit: nat): nat
    requires blit > 0
  {
    turned * 256 / blit
  }

  lemma StepPositive(turned: nat, blit: nat)
    requires 0 < blit <= turned
    ensures Step(turned, blit) >= 256 && blit * Step(turned, blit) <= turned * 256 < blit * Step(turned, blit) + blit
  {
    DivIs(turned * 256, blit, Step(turned, blit));
    if Step(turned, blit) < 256 {
      MulLe(blit, Step(turned, blit) + 1, 256);
    }
  }

  /** The box a pixel of a shrunk sprite averages. */
  function BoxOf(f: Frame, r: Rotation, bw: nat, bh: nat, dx: nat, dy: nat): (s: Span)
    requires 0 < bw <= TurnedWidth(f, r) && 0 < bh <= TurnedHeight(f, r)
    ensures s.left < s.right && s.top < s.bottom
  {
    StepPositive(TurnedWidth(f, r), bw);
    StepPositive(TurnedHeight(f, r), bh);
    Preimage(Step(TurnedWidth(f, r), bw), Step(TurnedHeight(f, r), bh), dx, dy)
  }

  /** The box touches no cell outside the turned frame, so the edge clamp never acts. */
  lemma BoxInside(f: Frame, r: Rotation, bw: nat, bh: nat, dx: nat, dy: nat)
    requires 0 < bw <= TurnedWidth(f, r) && 0 < bh <= TurnedHeight(f, r) && dx < bw && dy < bh
    ensures
      var s := BoxOf(f, r, bw, bh, dx, dy);
      End(s.right) <= TurnedWidth(f, r) && End(s.bottom) <= TurnedHeight(f, r)
  {
    StepPositive(TurnedWidth(f, r), bw);
    StepPositive(TurnedHeight(f, r), bh);
    LastCell(Step(TurnedWidth(f, r), bw), bw, dx);
    LastCell(Step(TurnedHeight(f, r), bh), bh, dy);
  }

  lemma LastCell(step: nat, n: nat, d: nat)
    requires d < n
    ensures d * step + step <= n * step
  {
    MulMono(n, d + 1, step);
    Distribute(d, 1, step);
  }

  predicate InPlace(f: Frame, r: Rotation, dw: nat, dh: nat, x: nat, y: nat) {
    var p := PlacementOf(f, r, dw, dh);
    p.x <= x < p.x + p.width && p.y <= y < p.y + p.height
  }

  /** The box pixel (x, y) of a buffer averages. */
  function BoxBehind(f: Frame, r: Rotation, dw: nat, dh: nat, x: nat, y: nat): (s: Span)
    requires dw > 0 && dh > 0 && InPlace(f, r, dw, dh, x, y)
    ensures s.left < s.right && s.top < s.bottom
  {
    BlitFits(f, r, dw, dh);
    var p := PlacementOf(f, r, dw, dh);
    BoxOf(f, r, p.width, p.height, x - p.x, y - p.y)
  }

  /** Pixel (x, y) of a `dw` by `dh` buffer holding the sprite. */
  function ComposedPixel(f: Frame, r: Rotation, dw: nat, dh: nat, x: nat, y: nat): Pixel
    requires dw > 0 && dh > 0
  {
    BlitFits(f, r, dw, dh);
    var p := PlacementOf(f, r, dw, dh);
    if !InPlace(f, r, dw, dh, x, y) then 0
    else if Shrinks(f, r, dw, dh) then BoxPixel(f, r, BoxBehind(f, r, dw, dh, x, y))
    else SampleRotated(f, r, x - p.x, y - p.y)
  }

  /** Pixels from the left and from the top of the placed sprite average boxes as far along the turned
      frame: within a 256th of a pixel for each pixel before. */
  lemma BoxLies(f: Frame, r: Rotation, dw: nat, dh: nat, x: nat, y: nat)
    requires dw > 0 && dh > 0 && InPlace(f, r, dw, dh, x, y)
    ensures
      var p, s := PlacementOf(f, r, dw, dh), BoxBehind(f, r, dw, dh, x, y);
      && s.left * p.width <= (x - p.x) * (TurnedWidth(f, r) * 256) <= s.left * p.width + (x - p.x) * p.width
      && s.top * p.height <= (y - p.y) * (TurnedHeight(f, r) * 256) <= s.top * p.height + (y - p.y) * p.height
  {
    BlitFits(f, r, dw, dh);
    var p := PlacementOf(f, r, dw, dh);
    StepPositive(TurnedWidth(f, r), p.width);
    StepPositive(TurnedHeight(f, r), p.height);
    Along(x - p.x, TurnedWidth(f, r), p.width);
    Along(y - p.y, TurnedHeight(f, r), p.height);
  }

  lemma Along(d: nat, turned: nat, blit: nat)
    requires 0 < blit <= turned
    ensures
      var start := d * Step(turned, blit);
      start * blit <= d * (turned * 256) <= start * blit + d * blit
  {
    var step := Step(turned, blit);
    StepPositive(turned, blit);
    MulLe(d, blit * step, turned * 256);
    MulLe(d, turned * 256, blit * step + blit);
    assert d * (blit * step) == d * step * blit;
    assert d * (blit * step + blit) == d * step * blit + d * blit;
  }

  /** A sprite that fits is not resampled. */
  lemma UnshrunkIsWhole(f: Frame, r: Rotation, dw: nat, dh: nat)
    requires !Shrinks(f, r, dw, dh)
    ensures BlitWidth(f, r, dw, dh) == TurnedWidth(f, r) && BlitHeight(f, r, dw, dh) == TurnedHeight(f, r)
  {}

  /** The pixel under the hotspot is the frame's own hotspot pixel, when nothing was resampled and
      the hotspot lies in the frame. */
  lemma HotspotPixel(f: Frame, r: Rotation, dw: nat, dh: nat)
    requires 0 < dw <= 0xffff_ffff && 0 < dh <= 0xffff_ffff && !Shrinks(f, r, dw, dh) && f.xhot < f.width && f.yhot < f.height
    ensures
      var p := PlacementOf(f, r, dw, dh);
      && p.hotspotX < dw && p.hotspotY < dh
      && ComposedPixel(f, r, dw, dh, p.hotspotX, p.hotspotY) == PixelAt(f, f.xhot, f.yhot)
  {
    hide At;
    UnshrunkIsWhole(f, r, dw, dh);
  }

  /** A shrunk hotspot stays inside the sprite: truncating cannot step past its edge. */
  lemma HotspotInsideShrunk(f: Frame, r: Rotation, dw: nat, dh: nat)
    requires 0 < dw <= 0xffff_ffff && 0 < dh <= 0xffff_ffff && f.xhot < f.width && f.yhot < f.height
    ensures
      var p := PlacementOf(f, r, dw, dh);
      InPlace(f, r, dw, dh, p.hotspotX, p.hotspotY)
  {
    BlitFits(f, r, dw, dh);
    var p := PlacementOf(f, r, dw, dh);
    var hot := TurnedHotspot(f, r);
    ScaledInside(hot.0, p.width, TurnedWidth(f, r));
    ScaledInside(hot.1, p.height, TurnedHeight(f, r));
  }

  /** A sprite has equal margins on both sides, or one pixel less before it. */
  lemma CenteredMargins(f: Frame, r: Rotation, dw: nat, dh: nat)
    requires dw > 0 && dh > 0
    ensures
      var p := PlacementOf(f, r, dw, dh);
      && 0 <= (dw - p.x - p.width) - p.x <= 1
      && 0 <= (dh - p.y - p.height) - p.y <= 1
  {
    BlitFits(f, r, dw, dh);
  }

  /** Scaled, a hotspot moves toward zero by less than a pixel of the sprite. */
  lemma HotspotTruncates(hotspot: int, blit: nat, turned: nat)
    requires 0 < blit && 0 < turned
    ensures
      var s := ScaleHotspot(hotspot, blit, turned);
      if hotspot >= 0 then s * turned <= hotspot * blit < s * turned + turned
      else s * turned - turned < hotspot * blit <= s * turned
  {
    hide Truncated;
    Signed(hotspot, blit);
    TruncatedIs(hotspot * blit, turned);
    if blit == turned {
      assert ScaleHotspot(hotspot, blit, turned) * turned == hotspot * blit;
    }
  }

  /** A hotspot is placed where the sprite has it, or as near as a 32-bit position comes. */
  lemma HotspotIsNearest(f: Frame, r: Rotation, dw: nat, dh: nat, at: nat)
    requires at <= 0xffff_ffff
    ensures
      var p, hot := PlacementOf(f, r, dw, dh), TurnedHotspot(f, r);
      var x, y := ScaleHotspot(hot.0, p.width, TurnedWidth(f, r)) + p.x, ScaleHotspot(hot.1, p.height, TurnedHeight(f, r)) + p.y;
      Distance(p.hotspotX, x) <= Distance(at, x) && Distance(p.hotspotY, y) <= Distance(at, y)
  {
    hide ScaleHotspot, BlitExtent;
  }

  lemma TruncatedIs(n: int, d: nat)
    requires d > 0
    ensures
      var t := Truncated(n, d);
      if n >= 0 then t * d <= n < t * d + d else t * d - d < n <= t * d
  {
    if n >= 0 {
      DivIs(n, d, n / d);
    } else {
      DivIs(-n, d, -n / d);
      assert Truncated(n, d) * d == -(-n / d * d);
    }
  }

  lemma Signed(x: int, k: nat)
    ensures if x >= 0 then x * k >= 0 else x * k <= 0
    ensures x < 0 && k > 0 ==> x * k < 0
  {}

  /** The hotspot of a shrunk sprite is the pixel that its own pixel's corner falls in. */
  lemma HotspotScales(f: Frame, r: Rotation, dw: nat, dh: nat)
    requires 0 < dw <= 0xffff_ffff && 0 < dh <= 0xffff_ffff && f.xhot < f.width && f.yhot < f.height
    ensures
      var p := PlacementOf(f, r, dw, dh);
      var rw, rh := TurnedWidth(f, r), TurnedHeight(f, r);
      var hot := TurnedHotspot(f, r);
      && 0 <= hot.0 < rw && 0 <= hot.1 < rh && SampleRotated(f, r, hot.0, hot.1) == PixelAt(f, f.xhot, f.yhot)
      && p.hotspotX >= p.x && (p.hotspotX - p.x) * rw <= hot.0 * p.width < (p.hotspotX - p.x) * rw + rw
      && p.hotspotY >= p.y && (p.hotspotY - p.y) * rh <= hot.1 * p.height < (p.hotspotY - p.y) * rh + rh
  {
    hide ScaleHotspot, At;
    BlitFits(f, r, dw, dh);
    HotspotInsideShrunk(f, r, dw, dh);
    var p := PlacementOf(f, r, dw, dh);
    var hot := TurnedHotspot(f, r);
    ScaledInside(hot.0, p.width, TurnedWidth(f, r));
    ScaledInside(hot.1, p.height, TurnedHeight(f, r));
    HotspotTruncates(hot.0, p.width, TurnedWidth(f, r));
    HotspotTruncates(hot.1, p.height, TurnedHeight(f, r));
  }

  lemma ScaledInside(hotspot: nat, blit: nat, turned: nat)
    requires 0 < blit <= turned && hotspot < turned
    ensures 0 <= ScaleHotspot(hotspot, blit, turned) < blit
  {
    DivIs(hotspot * blit, turned, hotspot * blit / turned);
    if blit != turned && hotspot * blit / turned >= blit {
      MulLe(turned, blit, hotspot * blit / turned);
      MulMono(turned, hotspot + 1, blit);
      Distribute(hotspot, 1, blit);
    }
  }

  /** Every color a composed pixel could come from is no brighter than it is opaque. */
  ghost predicate PremultipliedFrame(f: Frame) {
    forall x: nat, y: nat :: x < f.width && y < f.height ==> Premultiplied(PixelAt(f, x, y))
  }

  /** Turning, shrinking and centering keep a sprite premultiplied. */
  lemma ComposedPremultiplied(f: Frame, r: Rotation, dw: nat, dh: nat, x: nat, y: nat)
    requires dw > 0 && dh > 0 && PremultipliedFrame(f)
    ensures Premultiplied(ComposedPixel(f, r, dw, dh, x, y))
  {
    hide Channel, At, Mean, Pack;
    BlitFits(f, r, dw, dh);
    if !InPlace(f, r, dw, dh, x, y) {
      ZeroPremultiplied();
    } else {
      var p := PlacementOf(f, r, dw, dh);
      if Shrinks(f, r, dw, dh) {
        var s := BoxBehind(f, r, dw, dh, x, y);
        forall k: nat | k < 3
          ensures Mean(TurnedChannel(f, r, k), s) <= Mean(TurnedChannel(f, r, 3), s)
        {
          ChannelBelowAlpha(f, r, k);
          MeanMonotone(TurnedChannel(f, r, k), TurnedChannel(f, r, 3), s);
        }
        PackChannels(Mean(TurnedChannel(f, r, 3), s), Mean(TurnedChannel(f, r, 2), s),
                     Mean(TurnedChannel(f, r, 1), s), Mean(TurnedChannel(f, r, 0), s));
      }
    }
  }

  lemma ZeroPremultiplied()
    ensures Premultiplied(0)
  {}

  lemma PackChannels(a: Byte, r: Byte, g: Byte, b: Byte)
    ensures Channel(Pack(a, r, g, b), 3) == a && Channel(Pack(a, r, g, b), 2) == r
    ensures Channel(Pack(a, r, g, b), 1) == g && Channel(Pack(a, r, g, b), 0) == b
  {}

  lemma ChannelBelowAlpha(f: Frame, r: Rotation, k: nat)
    requires k < 3 && PremultipliedFrame(f)
    ensures forall x: nat, y: nat :: TurnedChannel(f, r, k)(x, y) <= TurnedChannel(f, r, 3)(x, y)
  {
    hide Channel, At;
    forall x: nat, y: nat
      ensures TurnedChannel(f, r, k)(x, y) <= TurnedChannel(f, r, 3)(x, y)
    {
      var p := SampleRotated(f, r, Min(x, TurnedWidth(f, r) - 1), Min(y, TurnedHeight(f, r) - 1));
      assert Premultiplied(p);
      assert k == 0 || k == 1 || k == 2;
    }
  }

  /** A channel of a shrunk pixel lies between its least and greatest value over the box. */
  lemma ShrunkBetween(f: Frame, r: Rotation, dw: nat, dh: nat, x: nat, y: nat, k: nat, lo: Byte, hi: Byte)
    requires dw > 0 && dh > 0 && k < 4 && Shrinks(f, r, dw, dh) && InPlace(f, r, dw, dh, x, y)
    requires forall sx: nat, sy: nat :: Touches(BoxBehind(f, r, dw, dh, x, y), sx, sy) ==>
      lo <= TurnedChannel(f, r, k)(sx, sy) <= hi
    ensures lo <= Channel(ComposedPixel(f, r, dw, dh, x, y), k) <= hi
  {
    hide Mean, Pack, Channel, TurnedChannel;
    BlitFits(f, r, dw, dh);
    var p := PlacementOf(f, r, dw, dh);
    var s := BoxBehind(f, r, dw, dh, x, y);
    MeanBetween(TurnedChannel(f, r, k), s, lo, hi);
    PackChannels(Mean(TurnedChannel(f, r, 3), s), Mean(TurnedChannel(f, r, 2), s),
                 Mean(TurnedChannel(f, r, 1), s), Mean(TurnedChannel(f, r, 0), s));
    assert k == 0 || k == 1 || k == 2 || k == 3;
  }

  /** A frame of one color stays that color wherever the sprite is, at any size and turn. */
  lemma FlatColorSurvives(f: Frame, r: Rotation, dw: nat, dh: nat, x: nat, y: nat, color: Pixel)
    requires dw > 0 && dh > 0 && InPlace(f, r, dw, dh, x, y)
    requires forall sx: nat, sy: nat :: sx < f.width && sy < f.height ==> PixelAt(f, sx, sy) == color
    ensures ComposedPixel(f, r, dw, dh, x, y) == color
  {
    hide At, Channel, BoxPixel;
    BlitFits(f, r, dw, dh);
    if Shrinks(f, r, dw, dh) {
      forall k: nat | k < 4
        ensures Channel(ComposedPixel(f, r, dw, dh, x, y), k) == Channel(color, k)
      {
        ShrunkBetween(f, r, dw, dh, x, y, k, Channel(color, k), Channel(color, k));
      }
      SameChannels(ComposedPixel(f, r, dw, dh, x, y), color);
    }
  }

  /** The accumulators of one box stay far below 64 bits for every frame the loader accepts. */
  lemma AccumulatorFits(f: Frame, r: Rotation, bw: nat, bh: nat, dx: nat, dy: nat, k: nat)
    requires f.width <= 512 && f.height <= 512 && k < 4
    requires 0 < bw <= TurnedWidth(f, r) && 0 < bh <= TurnedHeight(f, r)
    ensures
      var s := BoxOf(f, r, bw, bh, dx, dy);
      Sum(TurnedChannel(f, r, k), s) + s.Area() / 2 <= 256 * 0x4_0000_0000 < 0x1_0000_0000_0000_0000
  {
    hide Sum, TurnedChannel;
    var s := BoxOf(f, r, bw, bh, dx, dy);
    SumBetween(TurnedChannel(f, r, k), s, 0, 255);
    var fx, fy := Step(TurnedWidth(f, r), bw), Step(TurnedHeight(f, r), bh);
    PreimageArea(fx, fy, dx, dy);
    StepAtMost(TurnedWidth(f, r), bw);
    StepAtMost(TurnedHeight(f, r), bh);
    MulLe(fx, fy, 0x2_0000);
    MulMono(0x2_0000, fx, 0x2_0000);
  }

  lemma StepAtMost(turned: nat, blit: nat)
    requires 0 < blit <= turned
    ensures Step(turned, blit) <= turned * 256
  {
    StepPositive(turned, blit);
    MulMono(blit, 1, Step(turned, blit));
  }
}
