/** Shadow patches: the panel's rounded shape spread by blurring, then tinted. */
module ShadowRender {
  import opened BoxBlur
  import opened Fourcc
  import opened Grid
  import opened Pixels

  datatype Elevation = Blurred | Focused

  datatype ShadowKey = ShadowKey(width: nat, height: nat, elevation: Elevation, themeId: nat)

  /** What a shadow reads of a theme.  `alphaOf` stands for the float arithmetic that turns a
      byte of coverage into a byte of alpha at an elevation. */
  datatype Theme = Theme(cornerRadius: int, shadowExtent: int, b: Byte, g: Byte, r: Byte, alphaOf: (Elevation, Byte) -> Byte)

  function Max0(x: int): nat {
    if x > 0 then x else 0
  }

  function Min(x: nat, y: nat): nat {
    if x < y then x else y
  }

  function AbsDiff(x: nat, y: nat): nat {
    if x < y then y - x else x - y
  }

  /** A point of a rectangle, in none of its four cut corners. */
  predicate InsideRoundedRect(x: nat, y: nat, rectX: nat, rectY: nat, w: nat, h: nat, radius: nat)
    requires 2 * radius <= w && 2 * radius <= h
  {
    if x < rectX || y < rectY || x >= rectX + w || y >= rectY + h then false
    else if radius == 0 then true
    else
      var lx, ly := x - rectX, y - rectY;
      if radius <= lx < w - radius || radius <= ly < h - radius then true
      else
        var cx := if lx < radius then radius else w - radius - 1;
        var cy := if ly < radius then radius else h - radius - 1;
        var dx, dy := AbsDiff(lx, cx), AbsDiff(ly, cy);
        dx * dx + dy * dy <= radius * radius
  }

  /** From an edge of a rectangle to the nearer of its two sides. */
  function Inset(at: nat, start: nat, length: nat): nat
    requires start <= at < start + length
  {
    Min(at - start, start + length - 1 - at)
  }

  /** A corner is cut where a point is nearer than the radius to sides both ways, and further than the
      radius from the point that lies the radius away from both. */
  predicate CutOff(ix: nat, iy: nat, radius: nat) {
    ix < radius && iy < radius && (radius - ix) * (radius - ix) + (radius - iy) * (radius - iy) > radius * radius
  }

  /** A rounded rectangle is what lies in the rectangle with its corners cut off. */
  lemma InsideIff(x: nat, y: nat, rectX: nat, rectY: nat, w: nat, h: nat, radius: nat)
    requires 2 * radius <= w && 2 * radius <= h
    ensures InsideRoundedRect(x, y, rectX, rectY, w, h, radius) <==>
      && rectX <= x < rectX + w && rectY <= y < rectY + h
      && !CutOff(Inset(x, rectX, w), Inset(y, rectY, h), radius)
  {
    if rectX <= x < rectX + w && rectY <= y < rectY + h {
      var lx, ly := x - rectX, y - rectY;
      var cx := if lx < radius then radius else w - radius - 1;
      var cy := if ly < radius then radius else h - radius - 1;
      assert Inset(x, rectX, w) < radius ==> AbsDiff(lx, cx) == radius - Inset(x, rectX, w);
      assert Inset(y, rectY, h) < radius ==> AbsDiff(ly, cy) == radius - Inset(y, rectY, h);
    }
  }

  function Extent(theme: Theme): nat {
    Max0(theme.shadowExtent)
  }

  /** The panel the shadow is cast by, along one axis. */
  function Panel(length: nat, theme: Theme): nat {
    Max0(length - 2 * Extent(theme))
  }

  function Radius(key: ShadowKey, theme: Theme): (r: nat)
    ensures 2 * r <= Panel(key.width, theme) && 2 * r <= Panel(key.height, theme)
  {
    Min(Min(Max0(theme.cornerRadius), Panel(key.width, theme) / 2), Panel(key.height, theme) / 2)
  }

  /** It is the theme's radius, or the largest that fits twice both ways. */
  lemma RadiusIsLargest(key: ShadowKey, theme: Theme)
    ensures
      var r, w, h := Radius(key, theme), Panel(key.width, theme), Panel(key.height, theme);
      && 2 * r <= w && 2 * r <= h && (theme.cornerRadius >= 0 ==> r <= theme.cornerRadius)
      && (r == Max0(theme.cornerRadius) || 2 * (r + 1) > w || 2 * (r + 1) > h)
  {}

  predicate InMask(key: ShadowKey, theme: Theme, x: nat, y: nat) {
    && Panel(key.width, theme) > 0 && Panel(key.height, theme) > 0
    && InsideRoundedRect(x, y, Extent(theme), Extent(theme), Panel(key.width, theme), Panel(key.height, theme), Radius(key, theme))
  }

  /** The panel casting a shadow lies the shadow's extent inside the patch on all four sides. */
  lemma InMaskIff(key: ShadowKey, theme: Theme, x: nat, y: nat)
    ensures
      var e := Extent(theme);
      InMask(key, theme, x, y) <==>
        && e <= x < key.width - e && e <= y < key.height - e
        && !CutOff(Min(x - e, key.width - e - 1 - x), Min(y - e, key.height - e - 1 - y), Radius(key, theme))
  {
    hide InsideRoundedRect;
    if Panel(key.width, theme) > 0 && Panel(key.height, theme) > 0 {
      InsideIff(x, y, Extent(theme), Extent(theme), Panel(key.width, theme), Panel(key.height, theme), Radius(key, theme));
    }
  }

  /** The panel's shape: white inside it, black outside. */
  function Mask(key: ShadowKey, theme: Theme): (img: Image)
    ensures Sized(img, key.width, key.height)
  {
    seq(key.height, y requires 0 <= y < key.height =>
      seq(key.width, x requires 0 <= x < key.width => if InMask(key, theme, x, y) then 255 else 0))
  }

  /** How much shadow falls on each pixel: the mask under three clamp-to-edge means. */
  function Coverage(key: ShadowKey, theme: Theme): (img: Image)
    ensures Sized(img, key.width, key.height)
  {
    Blurred3(Naive, Mask(key, theme), key.width, key.height, Extent(theme))
  }

  function ScaleByAlpha(channel: Byte, alpha: Byte): (c: Byte)
    ensures c <= alpha && c <= channel
  {
    ScaleByAlphaFits(channel, alpha);
    channel * alpha / 255
  }

  lemma ScaleByAlphaFits(channel: Byte, alpha: Byte)
    ensures channel * alpha / 255 <= alpha && channel * alpha / 255 <= channel
  {
    MulMono(255, channel, alpha);
    MulMono(255, alpha, channel);
    DividedBy255(channel * alpha, alpha);
    DividedBy255(channel * alpha, channel);
  }

  lemma DividedBy255(product: nat, bound: nat)
    requires product <= 255 * bound
    ensures product / 255 <= bound
  {
  }

  /** The four bytes of a pixel of this coverage, in memory order. */
  function Tint(theme: Theme, elevation: Elevation, coverage: Byte): (px: seq<Byte>)
    ensures |px| == 4 && px[0] <= px[3] && px[1] <= px[3] && px[2] <= px[3]
  {
    var a := theme.alphaOf(elevation, coverage);
    [ScaleByAlpha(theme.b, a), ScaleByAlpha(theme.g, a), ScaleByAlpha(theme.r, a), a]
  }

  /** As a word, a tinted pixel is the theme's color under its alpha, rounded down. */
  lemma TintIsSeen(theme: Theme, elevation: Elevation, coverage: Byte)
    ensures
      var px := Tint(theme, elevation, coverage);
      var word := LittleEndian(px);
      var a := theme.alphaOf(elevation, coverage);
      && word < 0x1_0000_0000 && Reads(word, "ARGB", 'A') == a
      && PartOf(Reads(word, "ARGB", 'R'), theme.r, a)
      && PartOf(Reads(word, "ARGB", 'G'), theme.g, a)
      && PartOf(Reads(word, "ARGB", 'B'), theme.b, a)
  {
    hide Channel;
    var px := Tint(theme, elevation, coverage);
    FourBytes(px);
    assert PartOf(px[0], theme.b, px[3]) && PartOf(px[1], theme.g, px[3]) && PartOf(px[2], theme.r, px[3]);
  }

  /** `part` is the whole part of `channel` times `a` in 255ths. */
  predicate PartOf(part: Byte, channel: Byte, a: Byte) {
    255 * part <= channel * a < 255 * part + 255
  }

  /** Byte `c` of pixel (x, y) in a packed patch `w` wide. */
  function ByteAt(w: nat, x: nat, y: nat, c: nat): nat {
    4 * At(w, x, y) + c
  }

  /** `patch` is the shadow of `key` under `theme`. */
  ghost predicate Renders(patch: seq<Byte>, key: ShadowKey, theme: Theme) {
    && |patch| == 4 * (key.width * key.height)
    && forall x: nat, y: nat, c: nat :: x < key.width && y < key.height && c < 4 ==>
         && ByteAt(key.width, x, y, c) < |patch|
         && patch[ByteAt(key.width, x, y, c)] == Tint(theme, key.elevation, Coverage(key, theme)[y][x])[c]
  }

  // ----- Why the fast blur is exact here

  /** A mask with anything in it is wide and high enough for the blur's radius. */
  lemma MaskBlurrable(key: ShadowKey, theme: Theme)
    requires Extent(theme) > 0
    ensures Blurrable(Mask(key, theme), key.width, key.height, PerPass(Extent(theme)))
  {
    var radius := PerPass(Extent(theme));
    assert radius <= Extent(theme);
    if !(radius < key.width && radius < key.height) {
      assert Panel(key.width, theme) == 0 || Panel(key.height, theme) == 0;
      forall y, x | 0 <= y < key.height && 0 <= x < key.width
        ensures Mask(key, theme)[y][x] == 0
      {
        assert !InMask(key, theme, x, y);
      }
    }
  }

  lemma RenderUsesExactBlur(key: ShadowKey, theme: Theme)
    ensures Blurred3(Running, Mask(key, theme), key.width, key.height, Extent(theme)) == Coverage(key, theme)
  {
    hide Mask, Passes, Blurrable;
    var extent := Extent(theme);
    if extent != 0 {
      MaskBlurrable(key, theme);
      RunningRefinesNaive(Mask(key, theme), key.width, key.height, PerPass(extent), 3);
    }
  }

  // ----- Symmetry

  /** The rounded rectangle is its own mirror image both ways, because the radius is at most half
      of each side. */
  lemma MaskSymmetric(key: ShadowKey, theme: Theme)
    ensures Symmetric(Mask(key, theme), key.width, key.height)
  {
    forall y: nat, x: nat | y < key.height && x < key.width
      ensures Mirrored(Mask(key, theme), key.width, key.height, x, y)
    {
      InMaskMirrored(key, theme, x, y);
    }
  }

  lemma InMaskMirrored(key: ShadowKey, theme: Theme, x: nat, y: nat)
    requires x < key.width && y < key.height
    ensures InMask(key, theme, x, y) == InMask(key, theme, key.width - 1 - x, y)
    ensures InMask(key, theme, x, y) == InMask(key, theme, x, key.height - 1 - y)
  {}

  /** Every shadow patch looks the same from the left as from the right, and from above as from
      below. */
  lemma ShadowSymmetric(patch: seq<Byte>, key: ShadowKey, theme: Theme, x: nat, y: nat, c: nat)
    requires Renders(patch, key, theme)
    requires x < key.width && y < key.height && c < 4
    ensures
      var w, h := key.width, key.height;
      && ByteAt(w, x, y, c) < |patch| && ByteAt(w, w - 1 - x, y, c) < |patch| && ByteAt(w, x, h - 1 - y, c) < |patch|
      && patch[ByteAt(w, x, y, c)] == patch[ByteAt(w, w - 1 - x, y, c)]
      && patch[ByteAt(w, x, y, c)] == patch[ByteAt(w, x, h - 1 - y, c)]
  {
    hide Mask, Passes, Tint, ByteAt;
    MaskSymmetric(key, theme);
    if Extent(theme) != 0 {
      PassesSymmetric(Mask(key, theme), key.width, key.height, PerPass(Extent(theme)), 3);
    }
    assert Mirrored(Coverage(key, theme), key.width, key.height, x, y);
  }

  /** A patch is never brighter than it is opaque, so it composites without carrying. */
  lemma ShadowPremultiplied(patch: seq<Byte>, key: ShadowKey, theme: Theme, x: nat, y: nat, c: nat)
    requires Renders(patch, key, theme)
    requires x < key.width && y < key.height && c < 4
    ensures ByteAt(key.width, x, y, c) < |patch| && ByteAt(key.width, x, y, 3) < |patch|
    ensures patch[ByteAt(key.width, x, y, c)] <= patch[ByteAt(key.width, x, y, 3)]
  {
    hide Coverage, ByteAt;
    var px := Tint(theme, key.elevation, Coverage(key, theme)[y][x]);
    assert patch[ByteAt(key.width, x, y, 3)] == px[3];
    assert patch[ByteAt(key.width, x, y, c)] == px[c];
  }

  /** A key and a theme determine the patch. */
  lemma RendersUnique(p: seq<Byte>, q: seq<Byte>, key: ShadowKey, theme: Theme)
    requires Renders(p, key, theme) && Renders(q, key, theme)
    ensures p == q
  {
    hide Coverage, Tint;
    forall k: nat | k < |p|
      ensures p[k] == q[k]
    {
      var x, y, c := ByteFrom(key.width, key.height, k);
    }
  }

  lemma ByteFrom(w: nat, h: nat, k: nat) returns (x: nat, y: nat, c: nat)
    requires k < 4 * (w * h)
    ensures x < w && y < h && c < 4 && ByteAt(w, x, y, c) == k
  {
    var i := k / 4;
    assert w > 0;
    x, y, c := i % w, i / w, k % 4;
    assert i == y * w + x;
    if y >= h {
      MulMono(y, h, w);
    }
  }

  // ----- Rendering

  /** Render one shadow patch. */
  method RenderShadow(key: ShadowKey, theme: Theme) returns (patch: seq<Byte>)
    ensures Renders(patch, key, theme)
  {
    hide Coverage, Tint, Blurred3, Rows, Mask, At;
    var w, h := key.width, key.height;
    var mask := FillMask(key, theme);
    Blur3(mask, w, h, Extent(theme));
    RenderUsesExactBlur(key, theme);
    ghost var covered := mask[..];
    var out := new Byte[4 * mask.Length];
    for index := 0 to mask.Length
      invariant forall k, c :: 0 <= k < index && 0 <= c < 4 ==> out[4 * k + c] == Tint(theme, key.elevation, mask[k])[c]
      invariant mask[..] == covered
      modifies out
    {
      var px := Tint(theme, key.elevation, mask[index]);
      var offset := 4 * index;
      out[offset], out[offset + 1], out[offset + 2], out[offset + 3] := px[0], px[1], px[2], px[3];
    }
    patch := out[..];
    TintedRenders(mask[..], patch, key, theme);
  }

  lemma TintedRenders(mask: seq<Byte>, patch: seq<Byte>, key: ShadowKey, theme: Theme)
    requires |mask| == key.width * key.height && |patch| == 4 * |mask|
    requires Rows(mask, key.width, key.height) == Coverage(key, theme)
    requires forall k, c :: 0 <= k < |mask| && 0 <= c < 4 ==> patch[4 * k + c] == Tint(theme, key.elevation, mask[k])[c]
    ensures Renders(patch, key, theme)
  {
    hide Coverage, Tint, Rows, At;
    forall x: nat, y: nat, c: nat | x < key.width && y < key.height && c < 4
      ensures ByteAt(key.width, x, y, c) < |patch|
      ensures patch[ByteAt(key.width, x, y, c)] == Tint(theme, key.elevation, Coverage(key, theme)[y][x])[c]
    {
      PixelIn(mask, key.width, key.height, x, y);
    }
  }

  lemma PixelIn(s: seq<Byte>, w: nat, h: nat, x: nat, y: nat)
    requires |s| == w * h && x < w && y < h
    ensures At(w, x, y) < |s| && Rows(s, w, h)[y][x] == s[At(w, x, y)]
  {
    AtFits(w, h, x, y);
  }

  /** The shape, opaque inside and clear outside. */
  method FillMask(key: ShadowKey, theme: Theme) returns (mask: array<Byte>)
    ensures fresh(mask) && mask.Length == key.width * key.height
    ensures Rows(mask[..], key.width, key.height) == Mask(key, theme)
  {
    hide *;
    var w, h := key.width, key.height;
    mask := new Byte[w * h](_ => 0);
    PositionsFit(w, h);
    NoPanelNoMask(key, theme);
    if Panel(w, theme) > 0 && Panel(h, theme) > 0 {
      for y := 0 to h
        invariant forall x: nat, y': nat :: x < w && y' < h ==> At(w, x, y') < mask.Length
        invariant forall x: nat, y': nat :: x < w && y' < y ==> mask[At(w, x, y')] == MaskByte(key, theme, x, y')
        invariant forall x: nat, y': nat :: x < w && y <= y' < h ==> mask[At(w, x, y')] == 0
      {
        for x := 0 to w
          invariant forall x': nat, y': nat :: x' < w && y' < h && (y' < y || (y' == y && x' < x)) ==>
            mask[At(w, x', y')] == MaskByte(key, theme, x', y')
          invariant forall x': nat, y': nat :: x' < w && y' < h && (y' > y || (y' == y && x' >= x)) ==> mask[At(w, x', y')] == 0
        {
          ColumnsApart(w, h, x);
          MaskByteIs(key, theme, x, y);
          if InMask(key, theme, x, y) {
            mask[At(w, x, y)] := 0xFF;
          }
        }
      }
    }
    MaskFilled(mask[..], key, theme);
  }

  lemma MaskByteIs(key: ShadowKey, theme: Theme, x: nat, y: nat)
    ensures MaskByte(key, theme, x, y) == if InMask(key, theme, x, y) then 255 else 0
  {}

  lemma NoPanelNoMask(key: ShadowKey, theme: Theme)
    ensures Panel(key.width, theme) == 0 || Panel(key.height, theme) == 0 ==>
      forall x: nat, y: nat :: MaskByte(key, theme, x, y) == 0
  {}

  function MaskByte(key: ShadowKey, theme: Theme, x: nat, y: nat): Byte {
    if InMask(key, theme, x, y) then 255 else 0
  }

  lemma MaskFilled(s: seq<Byte>, key: ShadowKey, theme: Theme)
    requires |s| == key.width * key.height
    requires forall x: nat, y: nat :: x < key.width && y < key.height ==>
      At(key.width, x, y) < |s| && s[At(key.width, x, y)] == MaskByte(key, theme, x, y)
    ensures Rows(s, key.width, key.height) == Mask(key, theme)
  {
    hide InMask;
    forall y: nat | y < key.height
      ensures Rows(s, key.width, key.height)[y] == Mask(key, theme)[y]
    {
      assert forall x: nat :: x < key.width ==> s[At(key.width, x, y)] == MaskByte(key, theme, x, y);
    }
  }
}
