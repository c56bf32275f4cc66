/** Rendered shadows, kept least-recently-used, and composited onto a destination. */
module ShadowCaches {
  import opened Grid
  import opened Pixels
  import opened ShadowRender
  import opened Recency

  const DEFAULT_CAPACITY: nat := 8

  datatype Use = Use(key: ShadowKey, theme: Theme)

  function KeysOf(uses: seq<Use>): (keys: seq<ShadowKey>)
    ensures |keys| == |uses| && forall i :: 0 <= i < |uses| ==> keys[i] == uses[i].key
  {
    seq(|uses|, i requires 0 <= i < |uses| => uses[i].key)
  }

  /** A key is only ever used with one theme. */
  ghost predicate Consistent(uses: seq<Use>) {
    forall i, j :: 0 <= i < |uses| && 0 <= j < |uses| && uses[i].key == uses[j].key ==> uses[i].theme == uses[j].theme
  }

  /** The patch is what `key` looks like under some theme it has been used with. */
  ghost predicate Rendered(uses: seq<Use>, key: ShadowKey, patch: seq<Byte>) {
    exists i :: 0 <= i < |uses| && uses[i].key == key && Renders(patch, key, uses[i].theme)
  }

  lemma RenderedMore(uses: seq<Use>, use: Use, key: ShadowKey, patch: seq<Byte>)
    requires Rendered(uses, key, patch)
    ensures Rendered(uses + [use], key, patch)
  {
    var i :| 0 <= i < |uses| && uses[i].key == key && Renders(patch, key, uses[i].theme);
    assert (uses + [use])[i] == uses[i];
  }

  lemma RenderedLast(uses: seq<Use>, use: Use, patch: seq<Byte>)
    requires Renders(patch, use.key, use.theme)
    ensures Rendered(uses + [use], use.key, patch)
  {
    assert (uses + [use])[|uses|] == use;
  }

  /** With consistent uses, a patch in the cache is the one an uncached render would give. */
  lemma CachedIsFresh(uses: seq<Use>, use: Use, patch: seq<Byte>)
    requires use in uses && Consistent(uses) && Rendered(uses, use.key, patch)
    ensures Renders(patch, use.key, use.theme)
  {}

  lemma DropFirst<K(!new), V>(order: seq<K>, entries: map<K, V>)
    requires order != [] && Distinct(order) && |entries| == |order| && forall k :: k in entries <==> k in order
    ensures
      var rest := order[1..];
      && Distinct(rest) && |entries - {order[0]}| == |rest|
      && forall k :: k in entries - {order[0]} <==> k in rest
  {
    var rest := order[1..];
    assert order == [order[0]] + rest;
    assert order[0] in entries;
    assert (entries - {order[0]}).Keys == entries.Keys - {order[0]};
  }

  lemma OnlyOne<K>(kept: seq<K>, order: seq<K>)
    requires order == kept || (kept != [] && order == kept[1..])
    ensures |order| == |kept| ==> order == kept
  {}

  // ----- Compositing

  /** The part of a byte left by the rest, truncating. */
  function Left(under: nat, clear: nat): nat {
    under * clear / 255
  }

  /** One byte source-over: the source plus what it leaves uncovered of the destination. */
  function OverByte(add: Byte, alpha: Byte, under: Byte): (out: Byte) {
    Min(255, add + Left(under, 255 - alpha))
  }

  /** A premultiplied source never saturates. */
  lemma OverByteExact(add: Byte, alpha: Byte, under: Byte)
    requires add <= alpha
    ensures OverByte(add, alpha, under) == add + under * (255 - alpha) / 255
    ensures alpha == 255 ==> OverByte(add, alpha, under) == add
    ensures add == alpha == 0 ==> OverByte(add, alpha, under) == under
  {
    hide Min;
    var clear := 255 - alpha;
    MulMono(255, under, clear);
    ScaledFits(under * clear, clear);
    assert Min(255, add + under * clear / 255) == add + under * clear / 255 by { MinIs(255, add + under * clear / 255); }
    if alpha == 0 {
      assert under * clear == 255 * under;
    }
  }

  lemma ScaledFits(product: nat, clear: nat)
    requires product <= 255 * clear
    ensures product / 255 <= clear
  {}

  lemma MinIs(x: nat, y: nat)
    ensures y <= x ==> Min(x, y) == y
  {}

  /** A row of pixels composited over the bytes from `at`. */
  function RowOver(src: seq<Byte>, px: seq<Byte>, at: nat): (r: seq<Byte>)
    requires |src| % 4 == 0 && at + |src| <= |px|
    ensures |r| == |px|
  {
    seq(|px|, i requires 0 <= i < |px| =>
      if at <= i < at + |src| then Composited(src, i - at, px[i]) else px[i])
  }

  /** Byte `k` of a row of pixels over a byte of the destination. */
  function Composited(row: seq<Byte>, k: nat, under: Byte): Byte
    requires |row| % 4 == 0 && k < |row|
  {
    OverByte(row[k], row[k / 4 * 4 + 3], under)
  }

  /** Where row `y` starts. */
  function RowStart(y: nat, stride: nat): nat {
    y * stride
  }

  /** Rows `y` to `rows` composited in turn, `stride` apart, stopping at the first that does not
      fit. */
  function RowsOver(source: seq<seq<Byte>>, px: seq<Byte>, stride: nat, y: nat): (r: seq<Byte>)
    requires y <= |source| && forall k :: 0 <= k < |source| ==> |source[k]| % 4 == 0
    ensures |r| == |px|
    decreases |source| - y
  {
    if y == |source| || RowStart(y, stride) + |source[y]| > |px| then px
    else RowsOver(source, RowOver(source[y], px, RowStart(y, stride)), stride, y + 1)
  }

  /** Byte `i` lies in row `k`, one of those from `y`, and the row fits. */
  predicate InRow(k: nat, y: nat, rows: nat, stride: nat, len: nat, size: nat, i: nat) {
    y <= k < rows && RowStart(k, stride) <= i < RowStart(k, stride) + len && RowStart(k, stride) + len <= size
  }

  /** Where rows do not overlap each destination byte is composited at most once, from the row
      and column it belongs to, and nothing else changes. */
  lemma {:induction false} RowsOverAt(source: seq<seq<Byte>>, px: seq<Byte>, stride: nat, y: nat, len: nat, i: nat)
    requires len % 4 == 0 && len <= stride && y <= |source|
    requires forall k :: 0 <= k < |source| ==> |source[k]| == len
    requires i < |px|
    ensures forall k: nat :: InRow(k, y, |source|, stride, len, |px|, i) ==>
      RowsOver(source, px, stride, y)[i] == Composited(source[k], i - RowStart(k, stride), px[i])
    ensures (forall k: nat :: !InRow(k, y, |source|, stride, len, |px|, i)) ==> RowsOver(source, px, stride, y)[i] == px[i]
    decreases |source| - y
  {
    hide RowStart, Composited;
    forall k: nat | k > y
      ensures RowStart(k, stride) >= RowStart(y, stride) + len
    {
      LaterRow(y, k, stride);
    }
    if y < |source| && RowStart(y, stride) + len <= |px| {
      var next := y + 1;
      RowsOverAt(source, RowOver(source[y], px, RowStart(y, stride)), stride, next, len, i);
      assert InRow(y, y, |source|, stride, len, |px|, i) <==> RowStart(y, stride) <= i < RowStart(y, stride) + len;
      forall k: nat | InRow(k, next, |source|, stride, len, |px|, i)
        ensures InRow(k, y, |source|, stride, len, |px|, i)
      {}
    }
  }

  lemma LaterRow(y: nat, k: nat, stride: nat)
    requires k > y
    ensures RowStart(k, stride) >= RowStart(y, stride) + stride
  {
    MulMono(k, y + 1, stride);
  }

  /** The bytes of a patch. */
  function PatchSize(key: ShadowKey): nat {
    4 * (key.width * key.height)
  }

  /** The rows of a patch a destination of this size shows. */
  function PatchRows(patch: seq<Byte>, key: ShadowKey, rows: nat, cols: nat): (r: seq<seq<Byte>>)
    requires |patch| == PatchSize(key) && rows <= key.height && cols <= key.width
    ensures |r| == rows && forall y :: 0 <= y < rows ==> |r[y]| == 4 * cols
  {
    seq(rows, y requires 0 <= y < rows => PatchRow(patch, key, y, cols))
  }

  function PatchRow(patch: seq<Byte>, key: ShadowKey, y: nat, cols: nat): (r: seq<Byte>)
    requires |patch| == PatchSize(key) && y < key.height && cols <= key.width
    ensures |r| == 4 * cols
  {
    RowFits(key, y);
    patch[y * key.width * 4..y * key.width * 4 + 4 * cols]
  }

  lemma RowFits(key: ShadowKey, y: nat)
    requires y < key.height
    ensures y * key.width * 4 + 4 * key.width <= 4 * (key.width * key.height)
  {
    MulMono(key.height, y + 1, key.width);
    assert (y + 1) * key.width == y * key.width + key.width;
  }

  /** A destination after one patch. */
  function Blitted(patch: seq<Byte>, key: ShadowKey, px: seq<Byte>, stride: nat, width: nat, height: nat): (r: seq<Byte>)
    requires |patch| == PatchSize(key)
    ensures |r| == |px|
  {
    RowsOver(PatchRows(patch, key, Min(key.height, height), Min(key.width, width)), px, stride, 0)
  }

  /** Blitting a shadow puts each of its pixels that the destination has room for over the
      destination's pixel in the same row and column. */
  lemma BlitShows(patch: seq<Byte>, key: ShadowKey, theme: Theme, px: seq<Byte>, stride: nat, width: nat, height: nat, x: nat, y: nat, c: nat)
    requires Renders(patch, key, theme) && 4 * Min(key.width, width) <= stride
    requires x < Min(key.width, width) && y < Min(key.height, height) && c < 4
    requires RowStart(y, stride) + 4 * Min(key.width, width) <= |px|
    ensures
      var shade := Tint(theme, key.elevation, Coverage(key, theme)[y][x]);
      var at := RowStart(y, stride) + 4 * x + c;
      at < |px| && Blitted(patch, key, px, stride, width, height)[at] == OverByte(shade[c], shade[3], px[at])
  {
    hide *;
    var rows, cols := Min(key.height, height), Min(key.width, width);
    MinFits(key, width, height);
    RendersAt(patch, key, theme, x, y);
    RowBytes(patch, key, y, cols, x, c);
    RowBytes(patch, key, y, cols, x, 3);
    BlitAt(patch, key, px, stride, width, height, x, y, c);
  }

  lemma MinFits(key: ShadowKey, width: nat, height: nat)
    ensures Min(key.width, width) <= key.width && Min(key.height, height) <= key.height
  {}

  lemma RendersAt(patch: seq<Byte>, key: ShadowKey, theme: Theme, x: nat, y: nat)
    requires Renders(patch, key, theme) && x < key.width && y < key.height
    ensures |patch| == PatchSize(key)
    ensures forall c: nat :: c < 4 ==>
      ByteAt(key.width, x, y, c) < |patch| && patch[ByteAt(key.width, x, y, c)] == Tint(theme, key.elevation, Coverage(key, theme)[y][x])[c]
  {
    hide Coverage, Tint, ByteAt;
  }

  lemma BlitAt(patch: seq<Byte>, key: ShadowKey, px: seq<Byte>, stride: nat, width: nat, height: nat, x: nat, y: nat, c: nat)
    requires |patch| == PatchSize(key) && 4 * Min(key.width, width) <= stride
    requires x < Min(key.width, width) && y < Min(key.height, height) && c < 4
    requires RowStart(y, stride) + 4 * Min(key.width, width) <= |px|
    ensures
      var row := PatchRow(patch, key, y, Min(key.width, width));
      var at := RowStart(y, stride) + 4 * x + c;
      at < |px| && Blitted(patch, key, px, stride, width, height)[at] == OverByte(row[4 * x + c], row[4 * x + 3], px[at])
  {
    hide OverByte, RowStart, PatchRow, RowsOver, PatchSize;
    var rows, cols := Min(key.height, height), Min(key.width, width);
    RowShown(PatchRows(patch, key, rows, cols), px, stride, cols, x, y, c);
  }

  lemma RowShown(source: seq<seq<Byte>>, px: seq<Byte>, stride: nat, cols: nat, x: nat, y: nat, c: nat)
    requires 4 * cols <= stride && x < cols && y < |source| && c < 4 && RowStart(y, stride) + 4 * cols <= |px|
    requires forall k :: 0 <= k < |source| ==> |source[k]| == 4 * cols
    ensures
      var at := RowStart(y, stride) + 4 * x + c;
      at < |px| && RowsOver(source, px, stride, 0)[at] == OverByte(source[y][4 * x + c], source[y][4 * x + 3], px[at])
  {
    hide OverByte, RowStart, RowsOver;
    var at := RowStart(y, stride) + 4 * x + c;
    RowsOverAt(source, px, stride, 0, 4 * cols, at);
    assert InRow(y, 0, |source|, stride, 4 * cols, |px|, at);
    SameCell(x, c);
  }

  /** A cross-fade puts the mix of the two shadows' pixels in the same row and column there instead. */
  lemma FadeShows(pa: seq<Byte>, pb: seq<Byte>, a: ShadowKey, b: ShadowKey, themeA: Theme, themeB: Theme, mix: (real, Byte, Byte) -> Byte, t: real,
                  px: seq<Byte>, stride: nat, width: nat, height: nat, x: nat, y: nat, c: nat)
    requires a.width == b.width && a.height == b.height && Renders(pa, a, themeA) && Renders(pb, b, themeB)
    requires 4 * Min(a.width, width) <= stride && x < Min(a.width, width) && y < Min(a.height, height) && c < 4
    requires RowStart(y, stride) + 4 * Min(a.width, width) <= |px|
    ensures |pa| == PatchSize(a) && |pb| == PatchSize(b)
    ensures
      var l := Tint(themeA, a.elevation, Coverage(a, themeA)[y][x]);
      var r := Tint(themeB, b.elevation, Coverage(b, themeB)[y][x]);
      var at := RowStart(y, stride) + 4 * x + c;
      at < |px| && Faded(pa, pb, a, b, mix, t, px, stride, width, height)[at] == OverByte(mix(t, l[c], r[c]), mix(t, l[3], r[3]), px[at])
  {
    hide *;
    MinFits(a, width, height);
    RendersAt(pa, a, themeA, x, y);
    RendersAt(pb, b, themeB, x, y);
    RowBytes(pa, a, y, Min(a.width, width), x, c);
    RowBytes(pa, a, y, Min(a.width, width), x, 3);
    RowBytes(pb, b, y, Min(a.width, width), x, c);
    RowBytes(pb, b, y, Min(a.width, width), x, 3);
    FadeAt(pa, pb, a, b, mix, t, px, stride, width, height, x, y, c);
  }

  lemma FadeAt(pa: seq<Byte>, pb: seq<Byte>, a: ShadowKey, b: ShadowKey, mix: (real, Byte, Byte) -> Byte, t: real,
               px: seq<Byte>, stride: nat, width: nat, height: nat, x: nat, y: nat, c: nat)
    requires a.width == b.width && a.height == b.height && |pa| == PatchSize(a) && |pb| == PatchSize(b)
    requires 4 * Min(a.width, width) <= stride && x < Min(a.width, width) && y < Min(a.height, height) && c < 4
    requires RowStart(y, stride) + 4 * Min(a.width, width) <= |px|
    ensures
      var l, r := PatchRow(pa, a, y, Min(a.width, width)), PatchRow(pb, b, y, Min(a.width, width));
      var at := RowStart(y, stride) + 4 * x + c;
      && at < |px|
      && Faded(pa, pb, a, b, mix, t, px, stride, width, height)[at]
         == OverByte(mix(t, l[4 * x + c], r[4 * x + c]), mix(t, l[4 * x + 3], r[4 * x + 3]), px[at])
  {
    hide OverByte, RowStart, PatchRow, RowsOver, PatchSize;
    var rows, cols := Min(a.height, height), Min(a.width, width);
    RowShown(MixedRows(mix, t, PatchRows(pa, a, rows, cols), PatchRows(pb, b, rows, cols)), px, stride, cols, x, y, c);
  }

  lemma SameCell(x: nat, c: nat)
    requires c < 4
    ensures (4 * x + c) / 4 * 4 + 3 == 4 * x + 3
  {}

  lemma RowBytes(patch: seq<Byte>, key: ShadowKey, y: nat, cols: nat, x: nat, c: nat)
    requires |patch| == PatchSize(key) && y < key.height && cols <= key.width && x < cols && c < 4
    ensures ByteAt(key.width, x, y, c) < |patch| && PatchRow(patch, key, y, cols)[4 * x + c] == patch[ByteAt(key.width, x, y, c)]
  {
    RowFits(key, y);
  }

  /** A destination after a blend of two patches of one size. */
  function Faded(pa: seq<Byte>, pb: seq<Byte>, a: ShadowKey, b: ShadowKey, mix: (real, Byte, Byte) -> Byte, t: real,
                 px: seq<Byte>, stride: nat, width: nat, height: nat): (r: seq<Byte>)
    requires a.width == b.width && a.height == b.height && |pa| == PatchSize(a) && |pb| == PatchSize(b)
    ensures |r| == |px|
  {
    var rows, cols := Min(a.height, height), Min(a.width, width);
    RowsOver(MixedRows(mix, t, PatchRows(pa, a, rows, cols), PatchRows(pb, b, rows, cols)), px, stride, 0)
  }

  /** Two rows mixed byte by byte; `mix` stands for the float interpolation and rounding. */
  function Mixed(mix: (real, Byte, Byte) -> Byte, t: real, l: seq<Byte>, r: seq<Byte>): (m: seq<Byte>)
    requires |l| == |r|
    ensures |m| == |l|
  {
    seq(|l|, i requires 0 <= i < |l| => mix(t, l[i], r[i]))
  }

  function MixedRows(mix: (real, Byte, Byte) -> Byte, t: real, a: seq<seq<Byte>>, b: seq<seq<Byte>>): (m: seq<seq<Byte>>)
    requires |a| == |b| && forall y :: 0 <= y < |a| ==> |a[y]| == |b[y]|
    ensures |m| == |a| && forall y :: 0 <= y < |a| ==> |m[y]| == |a[y]|
  {
    seq(|a|, y requires 0 <= y < |a| => Mixed(mix, t, a[y], b[y]))
  }

  /** Where a shadow is blitted to: `stride` bytes between rows. */
  datatype ShadowDest = ShadowDest(pixels: array<Byte>, stride: nat, width: nat, height: nat)

  /** Composite one row in place. */
  method SrcOverRow(src: seq<Byte>, dst: array<Byte>, at: nat)
    requires |src| % 4 == 0 && at + |src| <= dst.Length
    modifies dst
    ensures dst[..] == RowOver(src, old(dst[..]), at)
  {
    hide OverByte;
    for i := 0 to |src|
      invariant forall k :: 0 <= k < dst.Length ==>
        dst[k] == if at <= k < at + i then OverByte(src[k - at], src[(k - at) / 4 * 4 + 3], old(dst[k])) else old(dst[k])
    {
      dst[at + i] := OverByte(src[i], src[i / 4 * 4 + 3], dst[at + i]);
    }
  }

  /** Composite rows until they run out or stop fitting. */
  method CompositeRows(source: seq<seq<Byte>>, dst: array<Byte>, stride: nat)
    requires forall k :: 0 <= k < |source| ==> |source[k]| % 4 == 0
    modifies dst
    ensures dst[..] == RowsOver(source, old(dst[..]), stride, 0)
  {
    hide RowOver;
    var y := 0;
    while y < |source|
      invariant y <= |source|
      invariant RowsOver(source, dst[..], stride, y) == RowsOver(source, old(dst[..]), stride, 0)
    {
      if y * stride + |source[y]| > dst.Length {
        return;
      }
      SrcOverRow(source[y], dst, y * stride);
      y := y + 1;
    }
  }

  class ShadowCache {
    var entries: map<ShadowKey, seq<Byte>>
    /** Use order, oldest first. */
    var order: seq<ShadowKey>
    const capacity: nat
    /** Every use since the cache was made or cleared. */
    ghost var uses: seq<Use>

    /** The keys held are exactly the `capacity` most recently used, oldest first, and each has
        its patch. */
    ghost predicate Valid()
      reads this
    {
      && capacity > 0
      && order == LastN(capacity, ByRecency(KeysOf(uses)))
      && (forall k :: k in entries <==> k in order)
      && forall k :: k in entries ==> Rendered(uses, k, entries[k])
    }

    constructor (requested: nat)
      ensures Valid() && uses == []
      ensures capacity == if requested == 0 then DEFAULT_CAPACITY else requested
    {
      entries, order, uses := map[], [], [];
      capacity := if requested == 0 then DEFAULT_CAPACITY else requested;
    }

    method Clear()
      requires Valid()
      modifies this
      ensures Valid() && uses == [] && entries == map[]
    {
      entries, order, uses := map[], [], [];
    }

    /** Make a shadow the most recent entry, rendered unless it was held. */
    method Ensure(key: ShadowKey, theme: Theme)
      requires Valid()
      modifies this
      ensures Valid() && uses == old(uses) + [Use(key, theme)]
      ensures key in entries
      ensures forall k :: k in old(entries) && k in entries ==> entries[k] == old(entries[k])
      ensures key !in old(entries) ==> Renders(entries[key], key, theme)
    {
      hide ByRecency, LastN, Without, Rendered;
      ghost var history := KeysOf(uses);
      assert KeysOf(uses + [Use(key, theme)]) == history + [key];
      forall k | k in entries
        ensures Rendered(uses + [Use(key, theme)], k, entries[k])
      {
        RenderedMore(uses, Use(key, theme), k, entries[k]);
      }
      if key in entries {
        HitStep(capacity, history, key);
        order := Without(order, key) + [key];
        uses := uses + [Use(key, theme)];
        return;
      }
      MissStep(capacity, history, key);
      MakeRoom();
      var patch := RenderShadow(key, theme);
      RenderedLast(uses, Use(key, theme), patch);
      entries := entries[key := patch];
      order := order + [key];
      uses := uses + [Use(key, theme)];
    }

    /** Drop the oldest entries until another fits, which is at most one. */
    method MakeRoom()
      requires Valid()
      modifies this`entries, this`order
      ensures order == if |old(order)| < capacity then old(order) else old(order)[1..]
      ensures forall k :: k in entries <==> k in order
      ensures forall k :: k in entries ==> k in old(entries) && entries[k] == old(entries[k])
    {
      hide *;
      Occupancy();
      OrderIsKeys();
      ghost var kept := order;
      while |entries| >= capacity && order != []
        invariant |entries| == |order| <= capacity
        invariant forall k :: k in entries <==> k in order
        invariant Distinct(order)
        invariant order == kept || (order == kept[1..] && |kept| == capacity)
        invariant forall k :: k in entries ==> k in old(entries) && entries[k] == old(entries[k])
        decreases |order|
      {
        var oldest := order[0];
        DropFirst(order, entries);
        OnlyOne(kept, order);
        order := order[1..];
        entries := entries - {oldest};
      }
    }

    lemma OrderIsKeys()
      requires Valid()
      ensures capacity > 0 && forall k :: k in entries <==> k in order
    {
      hide ByRecency, LastN, Rendered;
    }

    /** As many entries as keys in order, and never more than the capacity. */
    lemma Occupancy()
      requires Valid()
      ensures |entries| == |order| <= capacity && Distinct(order)
    {
      RecencyDistinct(KeysOf(uses));
      var older := LastSplit(capacity, ByRecency(KeysOf(uses)));
      DistinctParts(older, order);
      DistinctSize(order, entries.Keys);
      assert |entries.Keys| == |entries|;
    }

    /** Draw a shadow over `dst`, from the cache or made for it. */
    method BlitInto(key: ShadowKey, theme: Theme, dst: ShadowDest) returns (drawn: bool, ghost patch: seq<Byte>)
      requires Valid()
      modifies this, dst.pixels
      ensures Valid()
      ensures drawn <==> key.width > 0 && key.height > 0 && dst.width > 0 && dst.height > 0
      ensures !drawn ==> dst.pixels[..] == old(dst.pixels[..]) && uses == old(uses)
      ensures drawn ==>
        && uses == old(uses) + [Use(key, theme)]
        && Rendered(uses, key, patch) && |patch| == PatchSize(key)
        && (Consistent(uses) ==> Renders(patch, key, theme))
        && dst.pixels[..] == Blitted(patch, key, old(dst.pixels[..]), dst.stride, dst.width, dst.height)
    {
      hide ByRecency, LastN, PatchRow, RowsOver, Consistent, Renders, Rendered;
      if key.width == 0 || key.height == 0 || dst.width == 0 || dst.height == 0 {
        return false, [];
      }
      Ensure(key, theme);
      patch := entries[key];
      RenderedSize(uses, key, patch);
      if Consistent(uses) {
        CachedIsFresh(uses, Use(key, theme), patch);
      }
      CompositeRows(PatchRows(entries[key], key, Min(key.height, dst.height), Min(key.width, dst.width)), dst.pixels, dst.stride);
      drawn := true;
    }

    /** Composite the mix of two shadows: `a` for `t` up to zero, `b` from one on. */
    method BlitCrossFade(a: ShadowKey, b: ShadowKey, theme: Theme, dst: ShadowDest, t: real, mix: (real, Byte, Byte) -> Byte)
      returns (drawn: bool, ghost pa: seq<Byte>, ghost pb: seq<Byte>)
      requires Valid()
      modifies this, dst.pixels
      ensures Valid()
      ensures drawn <==>
        && a.width > 0 && a.height > 0 && a.width == b.width && a.height == b.height && dst.width > 0 && dst.height > 0
        && (t <= 0.0 || t >= 1.0 || a == b || capacity >= 2)
      ensures !drawn ==> dst.pixels[..] == old(dst.pixels[..])
      ensures drawn ==> |pa| == |pb| == PatchSize(a) == PatchSize(b)
      ensures drawn && 0.0 < t < 1.0 ==>
        && uses == old(uses) + [Use(a, theme)] + [Use(b, theme)]
        && Rendered(uses, a, pa) && Rendered(uses, b, pb)
        && (Consistent(uses) ==> Renders(pa, a, theme) && Renders(pb, b, theme))
        && dst.pixels[..] == Faded(pa, pb, a, b, mix, t, old(dst.pixels[..]), dst.stride, dst.width, dst.height)
      ensures drawn && t <= 0.0 ==>
        && uses == old(uses) + [Use(a, theme)] && Rendered(uses, a, pa)
        && dst.pixels[..] == Blitted(pa, a, old(dst.pixels[..]), dst.stride, dst.width, dst.height)
      ensures drawn && t >= 1.0 ==>
        && uses == old(uses) + [Use(b, theme)] && Rendered(uses, b, pb)
        && dst.pixels[..] == Blitted(pb, b, old(dst.pixels[..]), dst.stride, dst.width, dst.height)
    {
      hide ByRecency, LastN, PatchSize, Faded, Consistent, Renders, Rendered, Blitted, Distinct;
      pa, pb := [], [];
      if a.width == 0 || a.height == 0 || a.width != b.width || a.height != b.height || dst.width == 0 || dst.height == 0 {
        return false, pa, pb;
      }
      SameSize(a, b);
      if t <= 0.0 {
        drawn, pa := BlitInto(a, theme, dst);
        pb := pa;
        return;
      }
      if t >= 1.0 {
        drawn, pb := BlitInto(b, theme, dst);
        pa := pb;
        return;
      }
      Ensure(a, theme);
      ghost var between := KeysOf(uses);
      Ensure(b, theme);
      assert KeysOf(uses) == KeysOf(old(uses)) + [a] + [b];
      PairKept(capacity, KeysOf(old(uses)), a, b);
      if a !in entries || b !in entries {
        return false, pa, pb;
      }
      pa, pb := entries[a], entries[b];
      RenderedSize(uses, a, pa);
      RenderedSize(uses, b, pb);
      if Consistent(uses) {
        CachedIsFresh(uses, Use(a, theme), pa);
        CachedIsFresh(uses, Use(b, theme), pb);
      }
      FadeInto(entries[a], entries[b], a, b, mix, t, dst);
      drawn := true;
    }
  }

  /** Composite the blend of two patches of one size. */
  method FadeInto(pa: seq<Byte>, pb: seq<Byte>, a: ShadowKey, b: ShadowKey, mix: (real, Byte, Byte) -> Byte, t: real, dst: ShadowDest)
    requires a.width == b.width && a.height == b.height && |pa| == PatchSize(a) && |pb| == PatchSize(b)
    modifies dst.pixels
    ensures dst.pixels[..] == Faded(pa, pb, a, b, mix, t, old(dst.pixels[..]), dst.stride, dst.width, dst.height)
  {
    hide PatchRow, RowsOver, Mixed;
    var rows, cols := Min(a.height, dst.height), Min(a.width, dst.width);
    CompositeRows(MixedRows(mix, t, PatchRows(pa, a, rows, cols), PatchRows(pb, b, rows, cols)), dst.pixels, dst.stride);
  }

  lemma SameSize(a: ShadowKey, b: ShadowKey)
    requires a.width == b.width && a.height == b.height
    ensures PatchSize(a) == PatchSize(b)
  {}

  lemma RenderedSize(uses: seq<Use>, key: ShadowKey, patch: seq<Byte>)
    requires Rendered(uses, key, patch)
    ensures |patch| == PatchSize(key)
  {}

  /** Of two keys used one after the other, the first is still held exactly when it is also the
      second or there is room for both. */
  lemma PairKept(n: nat, uses: seq<ShadowKey>, a: ShadowKey, b: ShadowKey)
    requires n > 0
    ensures a in LastN(n, ByRecency(uses + [a] + [b])) <==> a == b || n >= 2
  {
    var all := uses + [a] + [b];
    KeptIffRecent(n, all, a);
    assert all[|uses|] == a;
    assert all[..|all| - 1] == uses + [a];
    if a == b {
      assert KeysSince(all, a) == {};
    } else {
      assert KeysSince(uses + [a], a) == {};
      assert KeysSince(all, a) == {b};
    }
  }
}
