/** Decorations composited into a framebuffer, redrawing only the damage. */
module FramebufferPresenter {
  import opened Compositing
  import opened Damage
  import opened Grid
  import opened Pixels

  /** The decorations on the canvas: what slot `i` shows at a pixel of its own, and how many bytes
      lie between its rows. Both depend on nothing but the slot's rectangle and generation. */
  datatype Looks = Looks(pixel: (nat, Slot, nat, nat) -> Pixel, stride: (nat, Slot) -> U32)

  /** The blend takes slot `i`: its rows are as long as it is wide. */
  predicate Taken(look: Looks, i: nat, s: Slot) {
    4 * s.w <= look.stride(i, s)
  }

  // ----- The whole frame, drawn from nothing

  /** Pixel (x, y) once the first `n` slots have been blended over a clear canvas, in order. */
  function Drawn(slots: seq<Slot>, look: Looks, n: nat, x: nat, y: nat): Pixel
    requires n <= |slots|
  {
    if n == 0 then 0
    else
      var under := Drawn(slots, look, n - 1, x, y);
      var s := slots[n - 1];
      if Covers(s, x, y) && Taken(look, n - 1, s) then BlendPixelOver(look.pixel(n - 1, s, x - s.x, y - s.y), under) else under
  }

  function Full(slots: seq<Slot>, look: Looks, x: nat, y: nat): Pixel {
    Drawn(slots, look, |slots|, x, y)
  }

  /** Outside the damage the old frame and the new one look the same. */
  lemma {:induction false} UndamagedLooksSame(prev: seq<Slot>, cur: seq<Slot>, look: Looks, cw: U32, ch: U32, n: nat, x: nat, y: nat)
    requires x < Capped(cw) && y < Capped(ch)
    requires |prev| == |cur| > 0 && n <= |cur|
    requires !InRect(DamageOf(prev, cur, cw, ch), x, y)
    ensures Drawn(prev, look, n, x, y) == Drawn(cur, look, n, x, y)
  {
    hide BlendPixelOver, DamageOf, Covers, InRect, Taken;
    if n > 0 {
      UndamagedLooksSame(prev, cur, look, cw, ch, n - 1, x, y);
      UndamagedUnchanged(prev, cur, cw, ch, n - 1, x, y);
    }
  }

  // ----- The buffers

  ghost predicate OnScreen(w: nat, h: nat, x: nat, y: nat) {
    x < w && y < h
  }

  /** The scratch canvas shows `slots`, drawn in full. */
  ghost predicate ShadowShows(shadow: seq<Pixel>, w: nat, h: nat, slots: seq<Slot>, look: Looks) {
    forall x: nat, y: nat :: OnScreen(w, h, x, y) ==>
      At(w, x, y) < |shadow| && shadow[At(w, x, y)] == Full(slots, look, x, y)
  }

  /** Every row the framebuffer has room for shows `slots`, drawn in full and converted. */
  ghost predicate FbShows(fb: seq<Pixel>, stride: nat, w: nat, h: nat, slots: seq<Slot>, look: Looks, format: OutputFormat) {
    forall x: nat, y: nat :: OnScreen(w, h, x, y) && y * stride + stride <= |fb| ==>
      At(stride, x, y) < |fb| && fb[At(stride, x, y)] == Converted(Full(slots, look, x, y), format)
  }

  // ----- The presenter

  /** What of a rectangle's axis is visible: where it starts, and how much of it. */
  datatype Visible = Visible(start: nat, length: nat)

  /** What comes of a step: nothing is left to do, 32-bit arithmetic overflows and the code stops,
      or a value. */
  datatype Clipped<+T> = Hidden | Stops | Shown(value: T)

  const U32_MAX: nat := 0xffff_ffff

  /** One axis of a rectangle clipped to a buffer, in signed and unsigned 32-bit numbers. */
  function Clip(pos: I32, size: U32, extent: U32): (v: Clipped<Visible>)
    ensures v.Shown? ==> 0 < v.value.length <= size && v.value.start + v.value.length <= extent
  {
    var off: nat := if pos < 0 then 0 - pos else 0;
    var start: int := if pos == I32_MIN then I32_MIN else pos + off;
    var signed: int := if extent > I32_MAX then extent - 0x1_0000_0000 else extent;
    if start >= signed || size <= off then Hidden
    else
      var from: nat := if start < 0 then start + 0x1_0000_0000 else start;
      if from > extent then Stops
      else if from == extent then Hidden
      else Shown(Visible(from, if size - off < extent - from then size - off else extent - from))
  }

  /** Which positions of an axis a clipped rectangle leaves; it stops for the least number only. */
  lemma ClipExact(pos: I32, size: U32, extent: U32, x: nat)
    requires extent <= I32_MAX && x < extent
    ensures
      var v := Clip(pos, size, extent);
      && (v.Stops? <==> pos == I32_MIN && size > 0x8000_0000)
      && (!v.Stops? ==> (pos <= x < pos + size <==> v.Shown? && v.value.start <= x < v.value.start + v.value.length))
  {}

  /** What of a region is cleared, or that a row offset overflows. */
  function ClearPlan(w: U32, h: U32, region: Rect): Clipped<(Visible, Visible)> {
    match Clip(region.x, region.w, w)
    case Hidden => Hidden
    case Stops => Stops
    case Shown(xr) =>
      match Clip(region.y, region.h, h)
      case Hidden => Hidden
      case Stops => Stops
      case Shown(yr) => if RowsFit(yr, 4 * w) then Shown((xr, yr)) else Stops
  }

  /** The last visible row's offset is a 32-bit number, and so every one's is. */
  predicate RowsFit(yr: Visible, stride: nat) {
    yr.length > 0 ==> (yr.start + yr.length - 1) * stride <= U32_MAX
  }

  /** Set every pixel of a region of the shadow to clear; what hangs off it is clipped. */
  method ClearInto(shadow: array<Pixel>, w: U32, h: U32, region: Rect) returns (completed: bool)
    requires w <= MAX_WIDTH && h <= I32_MAX && shadow.Length >= w * h
    modifies shadow
    ensures completed <==> !ClearPlan(w, h, region).Stops?
    ensures completed ==> forall x: nat, y: nat :: OnScreen(w, h, x, y) ==>
      && At(w, x, y) < shadow.Length
      && shadow[At(w, x, y)] == if InRect(region, x, y) then 0 else old(shadow[At(w, x, y)])
  {
    hide At, Clip, RowsFit;
    PositionsFit(w, h);
    var xs, ys := Clip(region.x, region.w, w), Clip(region.y, region.h, h);
    forall x: nat, y: nat | OnScreen(w, h, x, y)
      ensures !xs.Stops? && !ys.Stops? ==> (InRect(region, x, y) <==> xs.Shown? && ys.Shown? && InSpans(xs.value, ys.value, x, y))
      ensures xs.Hidden? ==> !InRect(region, x, y)
    {
      ClipExact(region.x, region.w, w, x);
      ClipExact(region.y, region.h, h, y);
    }
    match xs
    case Hidden => completed := true;
    case Stops => completed := false;
    case Shown(xr) =>
      match ys
      case Hidden => completed := true;
      case Stops => completed := false;
      case Shown(yr) => completed := ClearRows(shadow, w, h, xr, yr);
  }

  method ClearRows(shadow: array<Pixel>, w: nat, h: nat, xr: Visible, yr: Visible) returns (completed: bool)
    requires shadow.Length >= w * h && xr.start + xr.length <= w && yr.start + yr.length <= h
    modifies shadow
    ensures completed <==> RowsFit(yr, 4 * w)
    ensures completed ==> forall x: nat, y: nat :: OnScreen(w, h, x, y) ==>
      && At(w, x, y) < shadow.Length
      && shadow[At(w, x, y)] == if InSpans(xr, yr, x, y) then 0 else old(shadow[At(w, x, y)])
  {
    hide At, RowsFit;
    PositionsFit(w, h);
    NoRowsFit(yr.start, 4 * w);
    for y := yr.start to yr.start + yr.length
      invariant RowsFit(Visible(yr.start, y - yr.start), 4 * w)
      invariant forall x: nat, y': nat :: OnScreen(w, h, x, y') ==>
        shadow[At(w, x, y')] == if InSpans(xr, yr, x, y') && y' < y then 0 else old(shadow[At(w, x, y')])
    {
      RowOffset(yr, y, 4 * w);
      if y * (4 * w) > U32_MAX {
        return false;
      }
      for x := xr.start to xr.start + xr.length
        invariant forall x': nat, y': nat :: OnScreen(w, h, x', y') ==>
          shadow[At(w, x', y')] == if InSpans(xr, yr, x', y') && (y' < y || (y' == y && x' < x)) then 0 else old(shadow[At(w, x', y')])
      {
        ColumnsApart(w, h, x);
        shadow[At(w, x, y)] := 0;
      }
    }
    completed := true;
  }

  /** A row's offset fits when the last one's does; fitting, it is the last so far. */
  lemma RowOffset(yr: Visible, y: nat, stride: nat)
    requires yr.start <= y < yr.start + yr.length
    ensures RowsFit(yr, stride) ==> y * stride <= U32_MAX
    ensures y * stride <= U32_MAX ==> RowsFit(Visible(yr.start, y + 1 - yr.start), stride)
  {
    MulMono(yr.start + yr.length - 1, y, stride);
  }

  lemma NoRowsFit(start: nat, stride: nat)
    ensures RowsFit(Visible(start, 0), stride)
  {}

  predicate InSpans(xr: Visible, yr: Visible, x: nat, y: nat) {
    xr.start <= x < xr.start + xr.length && yr.start <= y < yr.start + yr.length
  }

  // ----- Blending one source

  /** One axis of a blend: what is visible of the destination, and what of the source goes there. */
  datatype AxisRange = AxisRange(dst: Visible, src: Visible)

  /** Source and destination are clipped each to its own buffer. */
  function ClipAxis(dstPos: I32, dstSize: U32, dstExtent: U32, srcPos: I32, srcSize: U32, srcExtent: U32): (a: Clipped<AxisRange>)
    ensures a.Shown? ==> a.value.dst.start + a.value.dst.length <= dstExtent && a.value.src.start + a.value.src.length <= srcExtent
    ensures a.Shown? ==> a.value.src.length > 0 && a.value.dst.length > 0
  {
    if dstSize == 0 || srcSize == 0 then Hidden
    else
      match Clip(srcPos, srcSize, srcExtent)
      case Hidden => Hidden
      case Stops => Stops
      case Shown(src) =>
        match Clip(dstPos, dstSize, dstExtent)
        case Hidden => Hidden
        case Stops => Stops
        case Shown(dst) => Shown(AxisRange(dst, src))
  }

  /** The source position that lands on position `i` of the visible destination, nearest neighbor. */
  function SourceOf(a: AxisRange, i: nat): nat {
    a.src.start + if a.dst.length <= 1 then 0 else i * a.src.length / a.dst.length
  }

  /** It is the source position that the destination position's start falls in, scaled: the first for the
      first, and never past the end. */
  lemma SourceScales(a: AxisRange, i: nat)
    requires i < a.dst.length && a.src.length > 0
    ensures
      var j := SourceOf(a, i) - a.src.start;
      && 0 <= j < a.src.length
      && j * a.dst.length <= i * a.src.length < j * a.dst.length + a.dst.length
  {
    var q := i * a.src.length / a.dst.length;
    QuotientOf(i * a.src.length, a.dst.length, q);
    MulMono(a.dst.length, i + 1, a.src.length);
    if a.dst.length > 1 && q >= a.src.length {
      MulMono(q, a.src.length, a.dst.length);
    }
  }

  lemma QuotientOf(n: nat, d: nat, q: nat)
    requires d > 0 && q == n / d
    ensures q * d <= n < q * d + d
  {}

  /** The product behind it is a 32-bit number. */
  predicate IndexFits(a: AxisRange, i: nat) {
    a.dst.length <= 1 || i * a.src.length <= U32_MAX
  }

  /** It is for every visible position, as it is for the last. */
  predicate IndicesFit(a: AxisRange) {
    a.dst.length > 0 ==> IndexFits(a, a.dst.length - 1)
  }

  lemma IndexBefore(a: AxisRange, i: nat)
    requires i < a.dst.length
    ensures IndicesFit(a) ==> IndexFits(a, i)
  {
    MulMono(a.dst.length - 1, i, a.src.length);
  }

  lemma SameLength(i: nat, n: nat)
    requires i < n
    ensures i * n / n == i
  {
    QuotientIs(i * n, i, 0, n);
  }

  /** Position `i` is computed, and is the one `pos` lines up with `srcPos`. */
  predicate Aligned(a: AxisRange, i: nat, pos: int, srcPos: int) {
    IndexFits(a, i) && SourceOf(a, i) == srcPos + (a.dst.start + i - pos)
  }

  /** A rectangle as large on one side as on the other, whose source lies in its buffer, is copied
      pixel for pixel exactly when nothing is cut from its start, and from its end at most as much as
      rounding hides: one pixel, or all but one; and the last product fits 32 bits. A longer cut is
      squeezed in; a longer span stops the code. */
  lemma AlignedIff(pos: I32, size: U32, extent: U32, srcPos: I32, srcExtent: U32)
    requires extent <= I32_MAX && 0 <= srcPos && srcPos + size <= srcExtent <= I32_MAX
    requires ClipAxis(pos, size, extent, srcPos, size, srcExtent).Shown?
    ensures
      var a := ClipAxis(pos, size, extent, srcPos, size, srcExtent).value;
      var v := a.dst.length;
      (forall i: nat :: i < v ==> Aligned(a, i, pos, srcPos)) <==>
        && pos >= 0 && (size - v <= 1 || v == 1)
        && (v <= 1 || (v - 1) * size <= U32_MAX)
  {
    hide Aligned;
    var a := ClipAxis(pos, size, extent, srcPos, size, srcExtent).value;
    var v := a.dst.length;
    if pos < 0 {
      StartCut(a, pos, srcPos);
    } else if v == 1 {
      OneAligned(a, pos, srcPos);
    } else {
      EndAlignedIff(a, pos, srcPos, size - v);
    }
  }

  lemma StartCut(a: AxisRange, pos: int, srcPos: nat)
    requires pos < 0 && a.src.start == srcPos && a.dst.length > 0
    ensures !Aligned(a, 0, pos, srcPos)
  {
    assert 0 * a.src.length == 0;
  }

  lemma OneAligned(a: AxisRange, pos: nat, srcPos: nat)
    requires a.src.start == srcPos && a.dst.start == pos && a.dst.length == 1
    ensures Aligned(a, 0, pos, srcPos)
  {}

  lemma EndAlignedIff(a: AxisRange, pos: nat, srcPos: nat, cut: nat)
    requires a.dst.start == pos && a.dst.length > 1 && a.src == Visible(srcPos, a.dst.length + cut)
    ensures
      var v := a.dst.length;
      (forall i: nat :: i < v ==> Aligned(a, i, pos, srcPos)) <==> cut <= 1 && (v - 1) * (v + cut) <= U32_MAX
  {
    hide Aligned;
    var v := a.dst.length;
    LastAlignedIff(a, pos, srcPos, cut);
    forall i: nat | i < v
      ensures Aligned(a, v - 1, pos, srcPos) ==> Aligned(a, i, pos, srcPos)
    {
      AlignedBefore(a, pos, srcPos, cut, i);
    }
  }

  lemma LastAlignedIff(a: AxisRange, pos: nat, srcPos: nat, cut: nat)
    requires a.dst.start == pos && a.dst.length > 1 && a.src == Visible(srcPos, a.dst.length + cut)
    ensures
      var v := a.dst.length;
      Aligned(a, v - 1, pos, srcPos) <==> cut <= 1 && (v - 1) * (v + cut) <= U32_MAX
  {
    hide Aligned;
    var v := a.dst.length;
    EndAlignedAt(a, pos, srcPos, cut, v - 1);
    if cut > 1 {
      Large(v, cut);
    } else {
      MulMono(1, cut, v - 1);
      Small((v - 1) * cut, v);
    }
  }

  lemma AlignedBefore(a: AxisRange, pos: nat, srcPos: nat, cut: nat, i: nat)
    requires a.dst.start == pos && a.dst.length > 1 && a.src == Visible(srcPos, a.dst.length + cut)
    requires i < a.dst.length
    ensures Aligned(a, a.dst.length - 1, pos, srcPos) ==> Aligned(a, i, pos, srcPos)
  {
    hide Aligned;
    var v := a.dst.length;
    LastAlignedIff(a, pos, srcPos, cut);
    EndAlignedAt(a, pos, srcPos, cut, i);
    MulMono(v - 1, i, v + cut);
    if cut <= 1 {
      MulMono(1, cut, i);
      Small(i * cut, v);
    }
  }

  lemma EndAlignedAt(a: AxisRange, pos: nat, srcPos: nat, cut: nat, i: nat)
    requires a.dst.start == pos && a.dst.length > 1 && a.src == Visible(srcPos, a.dst.length + cut)
    ensures Aligned(a, i, pos, srcPos) <==> i * (a.dst.length + cut) <= U32_MAX && i * cut / a.dst.length == 0
  {
    Squeezed(i, a.dst.length, cut);
  }

  lemma Squeezed(i: nat, v: nat, cut: nat)
    requires v > 0
    ensures i * (v + cut) / v == i + i * cut / v
  {
    var product := i * cut;
    var q := product / v;
    Spread(v, cut, i);
    Spread(i, q, v);
    QuotientIs(i * (v + cut), i + q, product % v, v);
  }

  lemma Spread(a: nat, b: nat, k: nat)
    ensures (a + b) * k == a * k + b * k && k * (a + b) == k * a + k * b
  {}

  lemma QuotientIs(n: nat, q: nat, r: nat, v: nat)
    requires r < v && n == q * v + r
    ensures n / v == q
  {
    var p := n / v;
    assert n == p * v + n % v;
    if p < q {
      MulMono(q, p + 1, v);
    } else if p > q {
      MulMono(p, q + 1, v);
    }
  }

  lemma Small(n: nat, v: nat)
    requires n < v
    ensures n / v == 0
  {}

  lemma Large(v: nat, cut: nat)
    requires v > 1 && cut > 1
    ensures (v - 1) * cut / v >= 1
  {
    MulMono(cut, 2, v - 1);
    QuotientAtLeastOne((v - 1) * cut, v);
  }

  lemma QuotientAtLeastOne(n: nat, v: nat)
    requires n >= v > 0
    ensures n / v >= 1
  {}

  /** Two pixels that hang off by one: the first shows on the one place left, where the second
      belongs. */
  lemma SqueezedExample()
    ensures
      var a := ClipAxis(-1, 2, 2, 0, 2, 2);
      a == Shown(AxisRange(Visible(0, 1), Visible(0, 2))) && SourceOf(a.value, 0) == 0 && !Aligned(a.value, 0, -1, 0)
  {}

  /** What a blend does: which axis ranges it walks, or nothing, or that some index or row offset
      overflows. */
  function BlendPlan(w: U32, h: U32, sw: U32, sh: U32, stride: U32, srcRect: Rect, dstRect: Rect): Clipped<(AxisRange, AxisRange)> {
    if w == 0 || h == 0 || stride < 4 * sw then Hidden
    else
      match ClipAxis(dstRect.x, dstRect.w, w, srcRect.x, srcRect.w, sw)
      case Hidden => Hidden
      case Stops => Stops
      case Shown(xr) =>
        match ClipAxis(dstRect.y, dstRect.h, h, srcRect.y, srcRect.h, sh)
        case Hidden => Hidden
        case Stops => Stops
        case Shown(yr) => if BlendFits(xr, yr, stride, 4 * w) then Shown((xr, yr)) else Stops
  }

  /** The last index of each axis, and the last row's offset on either side, are 32-bit numbers. */
  predicate BlendFits(xr: AxisRange, yr: AxisRange, srcStride: nat, dstStride: nat) {
    && IndicesFit(xr)
    && forall dy: nat :: dy < yr.dst.length ==> RowFits(yr, dy, srcStride, dstStride)
  }

  predicate RowFits(yr: AxisRange, dy: nat, srcStride: nat, dstStride: nat) {
    && IndexFits(yr, dy)
    && SourceOf(yr, dy) * srcStride <= U32_MAX
    && (yr.dst.start + dy) * dstStride <= U32_MAX
  }

  /** Every row fits exactly when the last does. */
  lemma LastRowFits(yr: AxisRange, srcStride: nat, dstStride: nat)
    requires yr.dst.length > 0
    ensures (forall dy: nat :: dy < yr.dst.length ==> RowFits(yr, dy, srcStride, dstStride)) <==>
      RowFits(yr, yr.dst.length - 1, srcStride, dstStride)
  {
    hide SourceOf;
    var last := yr.dst.length - 1;
    forall dy: nat | dy < yr.dst.length && RowFits(yr, last, srcStride, dstStride)
      ensures RowFits(yr, dy, srcStride, dstStride)
    {
      MulMono(last, dy, yr.src.length);
      SourceRises(yr, dy, last);
      MulMono(SourceOf(yr, last), SourceOf(yr, dy), srcStride);
      MulMono(yr.dst.start + last, yr.dst.start + dy, dstStride);
    }
  }

  lemma SourceRises(a: AxisRange, i: nat, j: nat)
    requires i <= j
    ensures SourceOf(a, i) <= SourceOf(a, j)
  {
    if a.dst.length > 1 {
      MulMono(j, i, a.src.length);
      DivideMonotone(i * a.src.length, j * a.src.length, a.dst.length);
    }
  }

  lemma DivideMonotone(m: nat, n: nat, v: nat)
    requires m <= n && v > 0
    ensures m / v <= n / v
  {
    var p, q := m / v, n / v;
    assert p * v <= m && n < q * v + v;
    if p > q {
      MulMono(p, q + 1, v);
    }
  }

  /** The shadow after a source has been blended over the visible part of a rectangle. */
  ghost predicate BlendedInto(after: seq<Pixel>, before: seq<Pixel>, w: nat, h: nat, src: (nat, nat) -> Pixel, xr: AxisRange, yr: AxisRange) {
    && |after| == |before|
    && forall x: nat, y: nat :: OnScreen(w, h, x, y) ==>
         && At(w, x, y) < |after|
         && after[At(w, x, y)] == if InSpans(xr.dst, yr.dst, x, y)
              then BlendPixelOver(src(SourceOf(xr, x - xr.dst.start), SourceOf(yr, y - yr.dst.start)), before[At(w, x, y)])
              else before[At(w, x, y)]
  }

  /** Blend a source rectangle over a rectangle of the shadow, both clipped, scaling what is left of
      the one to what is left of the other. A source longer than its stride is refused. Indices and
      row offsets are 32-bit products: it does not complete exactly when one of them overflows. */
  method BlendInto(shadow: array<Pixel>, w: U32, h: U32, src: (nat, nat) -> Pixel, sw: U32, sh: U32, stride: U32, srcRect: Rect, dstRect: Rect)
    returns (completed: bool)
    requires w <= MAX_WIDTH && shadow.Length >= w * h
    modifies shadow
    ensures completed <==> !BlendPlan(w, h, sw, sh, stride, srcRect, dstRect).Stops?
    ensures match BlendPlan(w, h, sw, sh, stride, srcRect, dstRect)
      case Hidden => shadow[..] == old(shadow[..])
      case Stops => true
      case Shown((xr, yr)) => BlendedInto(shadow[..], old(shadow[..]), w, h, src, xr, yr)
  {
    hide At, BlendPixelOver, Clip, ClipAxis, BlendFits;
    if w == 0 || h == 0 || stride < 4 * sw {
      return true;
    }
    var xs := ClipAxis(dstRect.x, dstRect.w, w, srcRect.x, srcRect.w, sw);
    if !xs.Shown? {
      return xs.Hidden?;
    }
    var ys := ClipAxis(dstRect.y, dstRect.h, h, srcRect.y, srcRect.h, sh);
    if !ys.Shown? {
      return ys.Hidden?;
    }
    completed := BlendRows(shadow, w, h, src, stride, xs.value, ys.value);
  }

  method BlendRows(shadow: array<Pixel>, w: nat, h: nat, src: (nat, nat) -> Pixel, stride: nat, xr: AxisRange, yr: AxisRange)
    returns (completed: bool)
    requires shadow.Length >= w * h && xr.dst.start + xr.dst.length <= w && yr.dst.start + yr.dst.length <= h
    requires xr.dst.length > 0 && yr.dst.length > 0
    modifies shadow
    ensures completed <==> BlendFits(xr, yr, stride, 4 * w)
    ensures completed ==> BlendedInto(shadow[..], old(shadow[..]), w, h, src, xr, yr)
  {
    hide At, BlendPixelOver, SourceOf, IndexFits, IndicesFit, RowFits;
    PositionsFit(w, h);
    var x0, y0 := xr.dst.start, yr.dst.start;
    for dy := 0 to yr.dst.length
      invariant dy > 0 ==> IndicesFit(xr)
      invariant forall k: nat :: k < dy ==> RowFits(yr, k, stride, 4 * w)
      invariant forall x: nat, y: nat :: OnScreen(w, h, x, y) ==>
        shadow[At(w, x, y)] == if InSpans(xr.dst, yr.dst, x, y) && y < y0 + dy
          then BlendPixelOver(src(SourceOf(xr, x - x0), SourceOf(yr, y - y0)), old(shadow[At(w, x, y)]))
          else old(shadow[At(w, x, y)])
    {
      if !RowFits(yr, dy, stride, 4 * w) {
        return false;
      }
      for dx := 0 to xr.dst.length
        invariant dx == xr.dst.length ==> IndicesFit(xr)
        invariant forall x: nat, y: nat :: OnScreen(w, h, x, y) ==>
          shadow[At(w, x, y)] == if InSpans(xr.dst, yr.dst, x, y) && (y < y0 + dy || (y == y0 + dy && x < x0 + dx))
            then BlendPixelOver(src(SourceOf(xr, x - x0), SourceOf(yr, y - y0)), old(shadow[At(w, x, y)]))
            else old(shadow[At(w, x, y)])
      {
        IndexBefore(xr, dx);
        LastIndex(xr);
        if !IndexFits(xr, dx) {
          return false;
        }
        ColumnsApart(w, h, x0 + dx);
        shadow[At(w, x0 + dx, y0 + dy)] :=
          BlendPixelOver(src(SourceOf(xr, dx), SourceOf(yr, dy)), shadow[At(w, x0 + dx, y0 + dy)]);
      }
    }
    completed := true;
  }

  lemma LastIndex(a: AxisRange)
    requires a.dst.length > 0
    ensures IndicesFit(a) <==> IndexFits(a, a.dst.length - 1)
  {}

  /** Convert one row of the shadow into the framebuffer. */
  method ConvertRow(fb: array<Pixel>, stride: nat, shadow: array<Pixel>, w: nat, h: nat, row: nat, format: OutputFormat)
    requires fb != shadow && w <= stride && row < h && shadow.Length >= w * h && row * stride + stride <= fb.Length
    modifies fb
    ensures forall x: nat :: x < w ==>
      At(stride, x, row) < fb.Length && At(w, x, row) < shadow.Length && fb[At(stride, x, row)] == Converted(shadow[At(w, x, row)], format)
    ensures forall i :: 0 <= i < fb.Length && !(row * stride <= i < row * stride + stride) ==> fb[i] == old(fb[i])
  {
    PositionsFit(w, h);
    for x := 0 to w
      invariant forall k: nat :: k < x ==>
        At(stride, k, row) < fb.Length && At(w, k, row) < shadow.Length && fb[At(stride, k, row)] == Converted(shadow[At(w, k, row)], format)
      invariant forall i :: 0 <= i < fb.Length && !(row * stride <= i < row * stride + stride) ==> fb[i] == old(fb[i])
    {
      assert At(w, x, row) < shadow.Length;
      fb[At(stride, x, row)] := Converted(shadow[At(w, x, row)], format);
    }
  }

  // ----- A frame's blends, in order

  /** What slot `i` of a frame has to do with some damage: its blend, if the two overlap. */
  function SlotPlan(look: Looks, i: nat, s: Slot, damage: Rect, w: U32, h: U32): Clipped<(AxisRange, AxisRange)> {
    var overlap := IntersectRect(s.x, s.y, s.w, s.h, damage);
    if !s.armed || overlap.IsEmpty() then Hidden
    else
      OverlapOffset(s, damage);
      BlendPlan(w, h, s.w, s.h, look.stride(i, s), Rect(overlap.x - s.x, overlap.y - s.y, overlap.w, overlap.h), overlap)
  }

  /** An overlap lies less than a signed number from its decoration's corner. */
  lemma OverlapOffset(s: Slot, damage: Rect)
    ensures
      var r := IntersectRect(s.x, s.y, s.w, s.h, damage);
      !r.IsEmpty() ==> 0 <= r.x - s.x < I32_MAX && 0 <= r.y - s.y < I32_MAX
  {}

  /** A shadow pixel after slot `i` has been blended inside some damage. */
  function Layer(look: Looks, i: nat, s: Slot, damage: Rect, w: U32, h: U32, under: Pixel, x: nat, y: nat): Pixel {
    match SlotPlan(look, i, s, damage, w, h)
    case Hidden => under
    case Stops => under
    case Shown((xr, yr)) =>
      if InSpans(xr.dst, yr.dst, x, y)
      then BlendPixelOver(look.pixel(i, s, SourceOf(xr, x - xr.dst.start), SourceOf(yr, y - yr.dst.start)), under)
      else under
  }

  /** A shadow pixel after damage has been cleared and the first `n` slots blended over it. */
  function Composite(slots: seq<Slot>, look: Looks, damage: Rect, w: U32, h: U32, n: nat, base: Pixel, x: nat, y: nat): Pixel
    requires n <= |slots|
  {
    if n == 0 then if InRect(damage, x, y) then 0 else base
    else Layer(look, n - 1, slots[n - 1], damage, w, h, Composite(slots, look, damage, w, h, n - 1, base, x, y), x, y)
  }

  ghost predicate Composed(shadow: seq<Pixel>, base: seq<Pixel>, w: U32, h: U32, slots: seq<Slot>, look: Looks, n: nat, damage: Rect)
    requires n <= |slots|
  {
    && |shadow| == |base|
    && forall x: nat, y: nat :: OnScreen(w, h, x, y) ==>
         && At(w, x, y) < |shadow|
         && shadow[At(w, x, y)] == Composite(slots, look, damage, w, h, n, base[At(w, x, y)], x, y)
  }

  /** Nothing overflows: not the stride, nor the clearing, nor any blend, nor the end of the rows to
      convert. */
  predicate Completes(slots: seq<Slot>, look: Looks, damage: Rect, w: U32, h: U32) {
    && !ClearPlan(w, h, damage).Stops?
    && (forall i :: 0 <= i < |slots| ==> !SlotPlan(look, i, slots[i], damage, w, h).Stops?)
    && FirstRow(damage) + damage.h <= U32_MAX
  }

  /** There is something to do: damage, and a shadow as large as the framebuffer. */
  predicate HasWork(damage: Rect, w: U32, h: U32, length: nat) {
    !damage.IsEmpty() && length >= w * h && w > 0 && h > 0
  }

  function FirstRow(damage: Rect): nat {
    if damage.y < 0 then 0 else damage.y
  }

  function LastRow(damage: Rect, h: U32): nat {
    if FirstRow(damage) + damage.h < h then FirstRow(damage) + damage.h else h
  }

  /** Rows converted are the damaged ones on the framebuffer; of damage that starts above it, as many
      from the top as it has. */
  lemma DamagedRows(damage: Rect, h: U32, y: nat)
    ensures FirstRow(damage) <= y < LastRow(damage, h) <==>
      y < h && if damage.y >= 0 then damage.y <= y < damage.y + damage.h else y < damage.h
    ensures damage.y <= y < damage.y + damage.h && y < h ==> FirstRow(damage) <= y < LastRow(damage, h)
  {}

  /** Blend `slots` into the framebuffer over any damage, by way of the shadow. It does not complete
      exactly when a 32-bit number overflows on the way. */
  method ComposeIntoFramebuffer(fb: array<Pixel>, stride: nat, w: U32, h: U32, shadow: array<Pixel>,
                                slots: seq<Slot>, look: Looks, format: OutputFormat, damage: Rect) returns (completed: bool)
    requires fb != shadow && w <= stride && h <= I32_MAX
    modifies fb, shadow
    ensures completed <==> w <= MAX_WIDTH && (HasWork(damage, w, h, shadow.Length) ==> Completes(slots, look, damage, w, h))
    ensures completed && !HasWork(damage, w, h, shadow.Length) ==> shadow[..] == old(shadow[..]) && fb[..] == old(fb[..])
    ensures completed && HasWork(damage, w, h, shadow.Length) ==>
      && Composed(shadow[..], old(shadow[..]), w, h, slots, look, |slots|, damage)
      && RowsConverted(fb[..], old(fb[..]), stride, shadow[..], w, h, format, FirstRow(damage), LastRow(damage, h))
  {
    hide At, BlendPixelOver, BlendedInto, BlendPlan, ClearPlan, IntersectRect, SlotPlan, Composed, Composite, Layer, RowsConverted;
    if w > MAX_WIDTH {
      return false;
    }
    if damage.IsEmpty() || shadow.Length < w * h || w == 0 || h == 0 {
      return true;
    }
    ghost var base := shadow[..];
    var cleared := ClearInto(shadow, w, h, damage);
    if !cleared {
      return false;
    }
    ComposedStart(shadow[..], base, w, h, slots, look, damage);
    for i := 0 to |slots|
      invariant forall k :: 0 <= k < i ==> !SlotPlan(look, k, slots[k], damage, w, h).Stops?
      invariant Composed(shadow[..], base, w, h, slots, look, i, damage)
      invariant fb[..] == old(fb[..])
    {
      var s := slots[i];
      ghost var before := shadow[..];
      SlotPlanIs(look, i, s, damage, w, h);
      var overlap := IntersectRect(s.x, s.y, s.w, s.h, damage);
      if s.armed && !overlap.IsEmpty() {
        OverlapOffset(s, damage);
        var src := (x: nat, y: nat) => look.pixel(i, s, x, y);
        var blended := BlendInto(shadow, w, h, src, s.w, s.h, look.stride(i, s),
                                 Rect(overlap.x - s.x, overlap.y - s.y, overlap.w, overlap.h), overlap);
        if !blended {
          return false;
        }
      }
      ComposedMore(before, shadow[..], base, w, h, slots, look, i, damage);
    }
    if FirstRow(damage) + damage.h > U32_MAX {
      return false;
    }
    ConvertRows(fb, stride, shadow, w, h, format, FirstRow(damage), LastRow(damage, h));
    completed := true;
  }

  lemma SlotPlanIs(look: Looks, i: nat, s: Slot, damage: Rect, w: U32, h: U32)
    ensures
      var overlap := IntersectRect(s.x, s.y, s.w, s.h, damage);
      if !s.armed || overlap.IsEmpty() then SlotPlan(look, i, s, damage, w, h) == Hidden
      else
        && 0 <= overlap.x - s.x < I32_MAX && 0 <= overlap.y - s.y < I32_MAX
        && SlotPlan(look, i, s, damage, w, h) ==
           BlendPlan(w, h, s.w, s.h, look.stride(i, s), Rect(overlap.x - s.x, overlap.y - s.y, overlap.w, overlap.h), overlap)
  {
    hide BlendPlan;
    OverlapOffset(s, damage);
  }

  lemma ComposedStart(shadow: seq<Pixel>, base: seq<Pixel>, w: U32, h: U32, slots: seq<Slot>, look: Looks, damage: Rect)
    requires |shadow| == |base|
    requires forall x: nat, y: nat :: OnScreen(w, h, x, y) ==>
      && At(w, x, y) < |shadow|
      && shadow[At(w, x, y)] == if InRect(damage, x, y) then 0 else base[At(w, x, y)]
    ensures Composed(shadow, base, w, h, slots, look, 0, damage)
  {
    hide At;
  }

  lemma ComposedMore(before: seq<Pixel>, after: seq<Pixel>, base: seq<Pixel>, w: U32, h: U32, slots: seq<Slot>, look: Looks, i: nat, damage: Rect)
    requires i < |slots| && Composed(before, base, w, h, slots, look, i, damage)
    requires
      var s := slots[i];
      match SlotPlan(look, i, s, damage, w, h)
      case Hidden => after == before
      case Stops => false
      case Shown((xr, yr)) => BlendedInto(after, before, w, h, (x: nat, y: nat) => look.pixel(i, s, x, y), xr, yr)
    ensures Composed(after, base, w, h, slots, look, i + 1, damage)
  {
    hide At, BlendPixelOver, SlotPlan, SourceOf;
  }

  // ----- On the canvas

  ghost predicate OnCanvasRect(r: Rect, w: U32, h: U32) {
    0 <= r.x <= r.x + r.w <= w && 0 <= r.y <= r.y + r.h <= h
  }

  lemma InsideUnclipped(pos: I32, size: U32, extent: U32, srcPos: I32, srcExtent: U32)
    requires 0 <= pos < pos + size <= extent <= I32_MAX && 0 <= srcPos && srcPos + size <= srcExtent <= I32_MAX
    ensures ClipAxis(pos, size, extent, srcPos, size, srcExtent) == Shown(AxisRange(Visible(pos, size), Visible(srcPos, size)))
  {}

  lemma SourceIs(pos: nat, size: nat, origin: int, x: nat)
    requires origin <= pos <= x < pos + size
    ensures SourceOf(AxisRange(Visible(pos, size), Visible(pos - origin, size)), x - pos) == x - origin
  {
    SameLength(x - pos, size);
  }

  /** The overlap of a decoration with damage on the canvas lies in both. */
  lemma OverlapInside(s: Slot, damage: Rect, w: U32, h: U32)
    requires w <= I32_MAX && h <= I32_MAX && OnCanvasRect(damage, w, h)
    requires !IntersectRect(s.x, s.y, s.w, s.h, damage).IsEmpty()
    ensures
      var r := IntersectRect(s.x, s.y, s.w, s.h, damage);
      && 0 <= r.x < r.x + r.w <= w && 0 <= r.y < r.y + r.h <= h
      && s.x <= r.x < r.x + r.w <= s.x + s.w && s.y <= r.y < r.y + r.h <= s.y + s.h
  {}

  /** For damage on the canvas the blend of a drawable slot completes exactly when its overlap is at
      most 65536 pixels each way and its last row lies within 32 bits in the slot's buffer and in the
      shadow. */
  predicate SlotFits(look: Looks, i: nat, s: Slot, damage: Rect, w: U32) {
    var r := IntersectRect(s.x, s.y, s.w, s.h, damage);
    s.armed && !r.IsEmpty() && Drawable(s) && Taken(look, i, s) ==>
      && r.w <= 0x1_0000 && r.h <= 0x1_0000
      && (r.y + r.h - 1 - s.y) * look.stride(i, s) <= U32_MAX
      && (r.y + r.h - 1) * (4 * w) <= U32_MAX
  }

  lemma SlotCompletesIff(look: Looks, i: nat, s: Slot, damage: Rect, w: U32, h: U32)
    requires w <= MAX_WIDTH && h <= I32_MAX && OnCanvasRect(damage, w, h)
    ensures SlotPlan(look, i, s, damage, w, h).Stops? <==> !SlotFits(look, i, s, damage, w)
    ensures SlotPlan(look, i, s, damage, w, h).Shown? ==> Drawable(s) && Taken(look, i, s)
    ensures
      var r := IntersectRect(s.x, s.y, s.w, s.h, damage);
      if SlotPlan(look, i, s, damage, w, h).Shown? then
        SlotPlan(look, i, s, damage, w, h).value ==
          (AxisRange(Visible(r.x, r.w), Visible(r.x - s.x, r.w)), AxisRange(Visible(r.y, r.h), Visible(r.y - s.y, r.h)))
      else SlotPlan(look, i, s, damage, w, h).Hidden? && Drawable(s) && Taken(look, i, s) ==> r.IsEmpty()
  {
    hide SourceOf, RowFits, IntersectRect, Clip, ClipAxis;
    var r := IntersectRect(s.x, s.y, s.w, s.h, damage);
    SlotPlanIs(look, i, s, damage, w, h);
    if s.armed && !r.IsEmpty() {
      OverlapInside(s, damage, w, h);
      if Taken(look, i, s) {
        NarrowEnough(look.stride(i, s), s.w);
        InsideUnclipped(r.x, r.w, w, r.x - s.x, s.w);
        if Drawable(s) {
          InsideUnclipped(r.y, r.h, h, r.y - s.y, s.h);
          var xr := AxisRange(Visible(r.x, r.w), Visible(r.x - s.x, r.w));
          var yr := AxisRange(Visible(r.y, r.h), Visible(r.y - s.y, r.h));
          SquareFits(r.w);
          RowsOfOverlap(yr, r, s, look.stride(i, s), 4 * w);
        } else {
          TooHigh(r.y, r.h, h, r.y - s.y, s.h);
        }
      }
    }
  }

  lemma NarrowEnough(stride: U32, width: U32)
    requires 4 * width <= stride
    ensures width <= MAX_WIDTH
  {}

  /** A source higher than a signed number has nothing visible. */
  lemma TooHigh(pos: I32, size: U32, extent: U32, srcPos: I32, srcExtent: U32)
    requires srcExtent > I32_MAX && srcPos >= 0
    ensures ClipAxis(pos, size, extent, srcPos, size, srcExtent) == Hidden
  {}

  /** A span times itself, less one, fits 32 bits exactly up to 65536. */
  lemma SquareFits(n: nat)
    ensures n > 0 ==> ((n - 1) * n <= U32_MAX <==> n <= 0x1_0000)
  {
    if n > 0x1_0000 {
      MulMono(n - 1, 0x1_0000, n);
      MulMono(n, 0x1_0001, 0x1_0000);
    } else if n > 0 {
      MulMono(0xffff, n - 1, n);
      MulMono(0x1_0000, n, 0xffff);
    }
  }

  lemma RowsOfOverlap(yr: AxisRange, r: Rect, s: Slot, srcStride: nat, dstStride: nat)
    requires r.h > 0 && r.y >= 0 && s.y <= r.y && yr == AxisRange(Visible(r.y, r.h), Visible(r.y - s.y, r.h))
    ensures (forall dy: nat :: dy < yr.dst.length ==> RowFits(yr, dy, srcStride, dstStride)) <==>
      r.h <= 0x1_0000 && (r.y + r.h - 1 - s.y) * srcStride <= U32_MAX && (r.y + r.h - 1) * dstStride <= U32_MAX
  {
    hide SourceOf;
    LastRowFits(yr, srcStride, dstStride);
    SourceIs(r.y, r.h, s.y, r.y + r.h - 1);
    SquareFits(r.h);
  }

  /** On the canvas, blending the slots inside the damage is drawing them there. */
  lemma {:induction false} CompositeIsDrawn(slots: seq<Slot>, look: Looks, damage: Rect, w: U32, h: U32, n: nat, base: Pixel, x: nat, y: nat)
    requires w <= MAX_WIDTH && h <= I32_MAX && OnCanvasRect(damage, w, h) && n <= |slots| && OnScreen(w, h, x, y)
    requires forall i :: 0 <= i < n ==> !SlotPlan(look, i, slots[i], damage, w, h).Stops?
    ensures Composite(slots, look, damage, w, h, n, base, x, y) == if InRect(damage, x, y) then Drawn(slots, look, n, x, y) else base
  {
    hide SlotPlan, BlendPixelOver, SourceOf, IntersectRect, Covers, Taken;
    if n > 0 {
      CompositeIsDrawn(slots, look, damage, w, h, n - 1, base, x, y);
      LayerIsDrawn(slots[n - 1], look, n - 1, damage, w, h, Composite(slots, look, damage, w, h, n - 1, base, x, y), x, y);
    }
  }

  lemma LayerIsDrawn(s: Slot, look: Looks, i: nat, damage: Rect, w: U32, h: U32, under: Pixel, x: nat, y: nat)
    requires w <= MAX_WIDTH && h <= I32_MAX && OnCanvasRect(damage, w, h) && OnScreen(w, h, x, y)
    requires !SlotPlan(look, i, s, damage, w, h).Stops?
    ensures Layer(look, i, s, damage, w, h, under, x, y) ==
      if InRect(damage, x, y) && Covers(s, x, y) && Taken(look, i, s) then BlendPixelOver(look.pixel(i, s, x - s.x, y - s.y), under)
      else under
  {
    hide SlotPlan, BlendPixelOver, SourceOf, IntersectRect, SlotFits;
    SlotCompletesIff(look, i, s, damage, w, h);
    var r := IntersectRect(s.x, s.y, s.w, s.h, damage);
    if Drawable(s) && Taken(look, i, s) {
      IntersectExact(s, damage, x, y);
      if SlotPlan(look, i, s, damage, w, h).Shown? && InRect(r, x, y) {
        OverlapLies(s, damage);
        SourceIs(r.x, r.w, s.x, x);
        SourceIs(r.y, r.h, s.y, y);
      }
    }
  }

  lemma OverlapLies(s: Slot, damage: Rect)
    ensures
      var r := IntersectRect(s.x, s.y, s.w, s.h, damage);
      !r.IsEmpty() ==> s.x <= r.x && s.y <= r.y && damage.x <= r.x && damage.y <= r.y
  {}

  /** Rows `first` to `last` of the framebuffer hold the converted shadow, as far as they fit, and
      every other row is as it was. */
  ghost predicate RowsConverted(fb: seq<Pixel>, before: seq<Pixel>, stride: nat, shadow: seq<Pixel>, w: nat, h: nat,
                                format: OutputFormat, first: nat, last: nat)
  {
    && |fb| == |before|
    && forall x: nat, y: nat :: OnScreen(w, h, x, y) && y * stride + stride <= |fb| ==>
         && At(stride, x, y) < |fb| && At(w, x, y) < |shadow|
         && fb[At(stride, x, y)] == if first <= y < last then Converted(shadow[At(w, x, y)], format) else before[At(stride, x, y)]
  }

  method ConvertRows(fb: array<Pixel>, stride: nat, shadow: array<Pixel>, w: nat, h: nat, format: OutputFormat, first: nat, last: nat)
    requires fb != shadow && w <= stride && last <= h && shadow.Length >= w * h
    modifies fb
    ensures RowsConverted(fb[..], old(fb[..]), stride, shadow[..], w, h, format, first, last)
  {
    hide RowsConverted;
    ghost var before := fb[..];
    ConvertedStart(before, stride, shadow[..], w, h, format, first, last);
    var row := first;
    while row < last
      invariant first <= row && (first <= last ==> row <= last)
      invariant RowsConverted(fb[..], before, stride, shadow[..], w, h, format, first, if first <= last then row else last)
    {
      if row * stride + stride > fb.Length {
        ConvertedStop(fb[..], before, stride, shadow[..], w, h, format, first, row, last);
        return;
      }
      ghost var entered := fb[..];
      ConvertRow(fb, stride, shadow, w, h, row, format);
      ConvertedStep(entered, fb[..], before, stride, shadow[..], w, h, format, first, row);
      row := row + 1;
    }
  }

  lemma ConvertedStart(fb: seq<Pixel>, stride: nat, shadow: seq<Pixel>, w: nat, h: nat, format: OutputFormat, first: nat, last: nat)
    requires |shadow| >= w * h && w <= stride
    ensures RowsConverted(fb, fb, stride, shadow, w, h, format, first, if first <= last then first else last)
  {
    forall x: nat, y: nat | OnScreen(w, h, x, y) && y * stride + stride <= |fb|
      ensures At(stride, x, y) < |fb| && At(w, x, y) < |shadow|
    {
      AtFits(w, h, x, y);
    }
  }

  lemma ConvertedStop(fb: seq<Pixel>, before: seq<Pixel>, stride: nat, shadow: seq<Pixel>, w: nat, h: nat, format: OutputFormat,
                      first: nat, row: nat, last: nat)
    requires row * stride + stride > |fb| && first <= row <= last
    requires RowsConverted(fb, before, stride, shadow, w, h, format, first, row)
    ensures RowsConverted(fb, before, stride, shadow, w, h, format, first, last)
  {
    forall y: nat | y >= row
      ensures y * stride + stride > |fb|
    {
      MulMono(y, row, stride);
    }
  }

  lemma ConvertedStep(entered: seq<Pixel>, fb: seq<Pixel>, before: seq<Pixel>, stride: nat, shadow: seq<Pixel>, w: nat, h: nat,
                      format: OutputFormat, first: nat, row: nat)
    requires |fb| == |entered| && first <= row < h && w <= stride
    requires RowsConverted(entered, before, stride, shadow, w, h, format, first, row)
    requires forall x: nat :: x < w ==>
      At(stride, x, row) < |fb| && At(w, x, row) < |shadow| && fb[At(stride, x, row)] == Converted(shadow[At(w, x, row)], format)
    requires forall i :: 0 <= i < |fb| && !(row * stride <= i < row * stride + stride) ==> fb[i] == entered[i]
    ensures RowsConverted(fb, before, stride, shadow, w, h, format, first, row + 1)
  {
    forall x: nat, y: nat | OnScreen(w, h, x, y) && y * stride + stride <= |fb|
      ensures At(stride, x, y) < |fb| && At(w, x, y) < |shadow|
      ensures fb[At(stride, x, y)] == if first <= y < row + 1 then Converted(shadow[At(w, x, y)], format) else before[At(stride, x, y)]
    {
      if y != row {
        RowsApart(stride, h, row, y);
      }
    }
  }

  // ----- Frame after frame

  /** Whether a frame's redraw completes. */
  predicate FrameCompletes(prev: seq<Slot>, cur: seq<Slot>, look: Looks, w: U32, h: U32) {
    var damage := DamageOf(prev, cur, w, h);
    w <= MAX_WIDTH && (damage.IsEmpty() || w == 0 || h == 0 || Completes(cur, look, damage, w, h))
  }

  /** One frame: redraw what changed since `prev`, and only that. */
  method PresentFrame(fb: array<Pixel>, stride: nat, w: U32, h: U32, shadow: array<Pixel>, look: Looks, format: OutputFormat,
                      prev: seq<Slot>, cur: seq<Slot>) returns (completed: bool)
    requires fb != shadow && w <= stride && h <= I32_MAX && shadow.Length >= w * h
    requires prev != [] ==>
      ShadowShows(shadow[..], w, h, prev, look) && FbShows(fb[..], stride, w, h, prev, look, format)
    modifies fb, shadow
    ensures completed <==> FrameCompletes(prev, cur, look, w, h)
    ensures completed ==> ShadowShows(shadow[..], w, h, cur, look) && FbShows(fb[..], stride, w, h, cur, look, format)
  {
    hide At, Drawn, DamageOf, ShadowShows, FbShows, Composed, RowsConverted, Completes;
    var damage := ComputeDamage(prev, cur, w, h);
    ghost var base, baseFb := shadow[..], fb[..];
    completed := ComposeIntoFramebuffer(fb, stride, w, h, shadow, cur, look, format, damage);
    if completed {
      IncrementalIsFull(shadow[..], base, fb[..], baseFb, stride, w, h, look, format, prev, cur);
    }
  }

  /** Redrawing the damage of a correct frame gives the next frame, drawn in full. */
  lemma IncrementalIsFull(shadow: seq<Pixel>, base: seq<Pixel>, fb: seq<Pixel>, baseFb: seq<Pixel>, stride: nat, w: U32, h: U32,
                          look: Looks, format: OutputFormat, prev: seq<Slot>, cur: seq<Slot>)
    requires h <= I32_MAX && w <= stride && |base| >= w * h && FrameCompletes(prev, cur, look, w, h)
    requires prev != [] ==> ShadowShows(base, w, h, prev, look) && FbShows(baseFb, stride, w, h, prev, look, format)
    requires
      var damage := DamageOf(prev, cur, w, h);
      if !HasWork(damage, w, h, |base|) then shadow == base && fb == baseFb
      else
        && Composed(shadow, base, w, h, cur, look, |cur|, damage)
        && RowsConverted(fb, baseFb, stride, shadow, w, h, format, FirstRow(damage), LastRow(damage, h))
    ensures ShadowShows(shadow, w, h, cur, look)
    ensures FbShows(fb, stride, w, h, cur, look, format)
  {
    hide At, Drawn, OnCanvas, Touched, Composite, SlotPlan, ClearPlan;
    var damage := DamageOf(prev, cur, w, h);
    DamageOnCanvas(prev, cur, w, h);
    forall x: nat, y: nat | OnScreen(w, h, x, y) && !InRect(damage, x, y)
      ensures prev != [] && Full(prev, look, x, y) == Full(cur, look, x, y)
    {
      UndamagedLooksSame(prev, cur, look, w, h, |cur|, x, y);
    }
    PositionsFit(w, h);
    forall x: nat, y: nat | OnScreen(w, h, x, y)
      ensures At(w, x, y) < |shadow| && shadow[At(w, x, y)] == Full(cur, look, x, y)
    {
      if HasWork(damage, w, h, |base|) {
        CompositeIsDrawn(cur, look, damage, w, h, |cur|, base[At(w, x, y)], x, y);
      }
    }
    forall x: nat, y: nat | OnScreen(w, h, x, y) && y * stride + stride <= |fb|
      ensures At(stride, x, y) < |fb| && fb[At(stride, x, y)] == Converted(Full(cur, look, x, y), format)
    {}
  }

  lemma DamageOnCanvas(prev: seq<Slot>, cur: seq<Slot>, w: U32, h: U32)
    requires w <= I32_MAX && h <= I32_MAX
    ensures OnCanvasRect(DamageOf(prev, cur, w, h), w, h)
  {}

  /** A frame completes after the one before it. */
  predicate NextCompletes(frames: seq<seq<Slot>>, look: Looks, w: U32, h: U32, k: nat)
    requires k < |frames|
  {
    FrameCompletes(if k == 0 then [] else frames[k - 1], frames[k], look, w, h)
  }

  predicate AllComplete(frames: seq<seq<Slot>>, look: Looks, w: U32, h: U32, n: nat)
    requires n <= |frames|
  {
    forall k: nat :: k < n ==> NextCompletes(frames, look, w, h, k)
  }

  /** Any number of frames: slots may appear, go, move, repaint, open and close, and the buffers
      end up showing the last frame as if it had been drawn from nothing. */
  method PresentAll(fb: array<Pixel>, stride: nat, w: U32, h: U32, shadow: array<Pixel>, look: Looks, format: OutputFormat,
                    frames: seq<seq<Slot>>) returns (completed: bool)
    requires fb != shadow && w <= stride && h <= I32_MAX && shadow.Length >= w * h
    modifies fb, shadow
    ensures completed <==> AllComplete(frames, look, w, h, |frames|)
    ensures completed && frames != [] ==>
      && ShadowShows(shadow[..], w, h, frames[|frames| - 1], look)
      && FbShows(fb[..], stride, w, h, frames[|frames| - 1], look, format)
  {
    hide ShadowShows, FbShows, FrameCompletes;
    var prev: seq<Slot> := [];
    for k := 0 to |frames|
      invariant prev == if k == 0 then [] else frames[k - 1]
      invariant AllComplete(frames, look, w, h, k)
      invariant k > 0 ==> ShadowShows(shadow[..], w, h, prev, look) && FbShows(fb[..], stride, w, h, prev, look, format)
    {
      var drawn := PresentFrame(fb, stride, w, h, shadow, look, format, prev, frames[k]);
      if !drawn {
        assert !NextCompletes(frames, look, w, h, k);
        return false;
      }
      prev := frames[k];
    }
    completed := true;
  }

  /** A frame completes exactly when the last damaged row lies within 32 bits and every overlap with
      the damage fits. */
  lemma FrameCompletesIff(prev: seq<Slot>, cur: seq<Slot>, look: Looks, w: U32, h: U32)
    requires w <= MAX_WIDTH && h <= I32_MAX
    ensures
      var damage := DamageOf(prev, cur, w, h);
      FrameCompletes(prev, cur, look, w, h) <==>
        damage.IsEmpty() ||
        ((damage.y + damage.h - 1) * (4 * w) <= U32_MAX && forall i :: 0 <= i < |cur| ==> SlotFits(look, i, cur[i], damage, w))
  {
    hide SlotPlan, SlotFits, DamageOf, Clip;
    var damage := DamageOf(prev, cur, w, h);
    DamageOnCanvas(prev, cur, w, h);
    if !damage.IsEmpty() {
      ClipInside(damage.x, damage.w, w);
      ClipInside(damage.y, damage.h, h);
      forall i | 0 <= i < |cur|
        ensures SlotPlan(look, i, cur[i], damage, w, h).Stops? <==> !SlotFits(look, i, cur[i], damage, w)
      {
        SlotCompletesIff(look, i, cur[i], damage, w, h);
      }
    }
  }

  lemma ClipInside(pos: I32, size: U32, extent: U32)
    requires 0 <= pos < pos + size <= extent <= I32_MAX
    ensures Clip(pos, size, extent) == Shown(Visible(pos, size))
  {}

  /** Any canvas up to 65536 pixels each way whose bytes a 32-bit number counts, with slots whose
      buffers are no larger, always completes. */
  lemma SmallFramesComplete(prev: seq<Slot>, cur: seq<Slot>, look: Looks, w: U32, h: U32)
    requires w <= 0x1_0000 && h <= 0x1_0000 && 4 * w * h <= U32_MAX
    requires forall i :: 0 <= i < |cur| ==> cur[i].h * look.stride(i, cur[i]) <= U32_MAX
    ensures FrameCompletes(prev, cur, look, w, h)
  {
    hide SlotPlan, DamageOf, IntersectRect;
    FrameCompletesIff(prev, cur, look, w, h);
    var damage := DamageOf(prev, cur, w, h);
    DamageOnCanvas(prev, cur, w, h);
    if !damage.IsEmpty() {
      MulMono(h, damage.y + damage.h - 1, 4 * w);
      forall i | 0 <= i < |cur|
        ensures SlotFits(look, i, cur[i], damage, w)
      {
        var s := cur[i];
        var r := IntersectRect(s.x, s.y, s.w, s.h, damage);
        if s.armed && !r.IsEmpty() {
          OverlapInside(s, damage, w, h);
          MulMono(s.h, r.y + r.h - 1 - s.y, look.stride(i, s));
          MulMono(h, r.y + r.h - 1, 4 * w);
        }
      }
    }
  }

  lemma WideRowDamaged(s: Slot)
    requires s == Slot(true, 0, 0, 0x1_0001, 1, 0)
    ensures
      var damage := DamageOf([], [s], 0x1_0001, 1);
      damage == Rect(0, 0, 0x1_0001, 1) && IntersectRect(s.x, s.y, s.w, s.h, damage) == damage
  {}

  /** One row of 65537 pixels: nothing is clipped, and drawing it the first time stops the code at
      its last pixel. */
  lemma WideRowExample(look: Looks)
    requires look.stride(0, Slot(true, 0, 0, 0x1_0001, 1, 0)) == 0x4_0004
    ensures !FrameCompletes([], [Slot(true, 0, 0, 0x1_0001, 1, 0)], look, 0x1_0001, 1)
    ensures
      var a := ClipAxis(0, 0x1_0001, 0x1_0001, 0, 0x1_0001, 0x1_0001);
      a == Shown(AxisRange(Visible(0, 0x1_0001), Visible(0, 0x1_0001))) && !IndexFits(a.value, 0x1_0000)
  {
    hide FrameCompletes, DamageOf, IntersectRect;
    var s := Slot(true, 0, 0, 0x1_0001, 1, 0);
    WideRowDamaged(s);
    FrameCompletesIff([], [s], look, 0x1_0001, 1);
    assert !SlotFits(look, 0, [s][0], Rect(0, 0, 0x1_0001, 1), 0x1_0001);
  }
}
