/** Writing a sprite into a strided buffer in place, and shifting it there. */
module SpriteBlit {
  import opened BoxFilter
  import opened Grid
  import opened Pixels
  import opened Sprite

  // ----- Averaging one box

  /** The weighted channel sums of a box, highest channel first, and the total weight. */
  ghost predicate Accumulated(f: Frame, r: Rotation, s: Span, acc: seq<nat>, total: nat, sy: nat, sx: nat) {
    && |acc| == 4
    && (forall k: nat :: k < 4 ==> acc[3 - k] == PartialSum(TurnedChannel(f, r, k), s, sy, sx))
    && total == PartialWeight(s, sy, sx)
  }

  /** Rows above `sy` in full, and row `sy` up to column `sx`. */
  ghost function PartialSum(v: Source, s: Span, sy: nat, sx: nat): int {
    BoxSum(v, s.left, s.right, s.top, s.bottom, First(s.left), End(s.right), First(s.top), sy)
    + Cover(sy, s.top, s.bottom) * RowSum(v, sy, s.left, s.right, First(s.left), sx)
  }

  ghost function PartialWeight(s: Span, sy: nat, sx: nat): int {
    CoverSum(s.top, s.bottom, First(s.top), sy) * CoverSum(s.left, s.right, First(s.left), End(s.right))
    + Cover(sy, s.top, s.bottom) * CoverSum(s.left, s.right, First(s.left), sx)
  }

  lemma AccumulateStart(f: Frame, r: Rotation, s: Span)
    ensures Accumulated(f, r, s, [0, 0, 0, 0], 0, First(s.top), First(s.left))
  {}

  /** The four accumulators, a weighted pixel more. */
  function Added(acc: seq<nat>, weight: nat, px: Pixel): (more: seq<nat>)
    requires |acc| == 4
    ensures |more| == 4
  {
    [acc[0] + weight * Channel(px, 3), acc[1] + weight * Channel(px, 2),
     acc[2] + weight * Channel(px, 1), acc[3] + weight * Channel(px, 0)]
  }

  lemma AccumulateCell(f: Frame, r: Rotation, s: Span, acc: seq<nat>, total: nat, sy: nat, sx: nat, weight: nat, px: Pixel)
    requires |acc| == 4 && Accumulated(f, r, s, acc, total, sy, sx)
    requires First(s.left) <= sx && weight == Cover(sx, s.left, s.right) * Cover(sy, s.top, s.bottom)
    requires px == SampleRotated(f, r, Min(sx, TurnedWidth(f, r) - 1), Min(sy, TurnedHeight(f, r) - 1))
    ensures Accumulated(f, r, s, Added(acc, weight, px), total + weight, sy, sx + 1)
  {
    hide PartialSum, PartialWeight, SampleRotated, Channel, Cover, First;
    forall k: nat | k < 4
      ensures PartialSum(TurnedChannel(f, r, k), s, sy, sx + 1) == PartialSum(TurnedChannel(f, r, k), s, sy, sx) + weight * Channel(px, k)
    {
      SumCell(TurnedChannel(f, r, k), s, sy, sx, weight, Channel(px, k));
    }
    WeightCell(s, sy, sx, weight);
    assert acc[3 - 0] == acc[3] && acc[3 - 1] == acc[2] && acc[3 - 2] == acc[1] && acc[3 - 3] == acc[0];
  }

  lemma SumCell(v: Source, s: Span, sy: nat, sx: nat, weight: nat, value: nat)
    requires First(s.left) <= sx && weight == Cover(sx, s.left, s.right) * Cover(sy, s.top, s.bottom) && value == v(sx, sy)
    ensures PartialSum(v, s, sy, sx + 1) == PartialSum(v, s, sy, sx) + weight * value
  {
    hide Cover, BoxSum, RowSum, First, End;
    RowCell(v, sy, s.left, s.right, First(s.left), sx, Cover(sx, s.left, s.right), Cover(sy, s.top, s.bottom), value);
  }

  lemma WeightCell(s: Span, sy: nat, sx: nat, weight: nat)
    requires First(s.left) <= sx && weight == Cover(sx, s.left, s.right) * Cover(sy, s.top, s.bottom)
    ensures PartialWeight(s, sy, sx + 1) == PartialWeight(s, sy, sx) + weight
  {
    hide Cover, CoverSum, First, End;
    CoverCell(s.left, s.right, First(s.left), sx, Cover(sy, s.top, s.bottom));
  }

  lemma RowCell(v: Source, y: nat, left: nat, right: nat, a: nat, b: nat, cw: nat, ch: nat, value: nat)
    requires a <= b && cw == Cover(b, left, right) && value == v(b, y)
    ensures ch * RowSum(v, y, left, right, a, b + 1) == ch * RowSum(v, y, left, right, a, b) + cw * ch * value
  {
    hide Cover;
    var sum := RowSum(v, y, left, right, a, b);
    assert RowSum(v, y, left, right, a, b + 1) == sum + cw * value;
    Spread(ch, sum, cw, value);
  }

  lemma Spread(ch: nat, sum: nat, cw: nat, value: nat)
    ensures ch * (sum + cw * value) == ch * sum + cw * ch * value
  {}

  lemma CoverCell(left: nat, right: nat, a: nat, b: nat, ch: nat)
    requires a <= b
    ensures ch * CoverSum(left, right, a, b + 1) == ch * CoverSum(left, right, a, b) + Cover(b, left, right) * ch
  {
    hide Cover;
    assert CoverSum(left, right, a, b + 1) == CoverSum(left, right, a, b) + Cover(b, left, right);
    Spread(ch, CoverSum(left, right, a, b), Cover(b, left, right), 1);
  }

  lemma AccumulateRow(f: Frame, r: Rotation, s: Span, acc: seq<nat>, total: nat, sy: nat)
    requires First(s.left) <= End(s.right) && First(s.top) <= sy
    requires Accumulated(f, r, s, acc, total, sy, End(s.right))
    ensures Accumulated(f, r, s, acc, total, sy + 1, First(s.left))
  {
    hide Cover, First, End, TurnedChannel;
    var a, b, c := First(s.left), End(s.right), First(s.top);
    forall k: nat | k < 4
      ensures PartialSum(TurnedChannel(f, r, k), s, sy + 1, a) == PartialSum(TurnedChannel(f, r, k), s, sy, b)
    {
      var v := TurnedChannel(f, r, k);
      assert BoxSum(v, s.left, s.right, s.top, s.bottom, a, b, c, sy + 1)
        == BoxSum(v, s.left, s.right, s.top, s.bottom, a, b, c, sy) + Cover(sy, s.top, s.bottom) * RowSum(v, sy, s.left, s.right, a, b);
      assert RowSum(v, sy + 1, s.left, s.right, a, a) == 0;
    }
    assert CoverSum(s.top, s.bottom, c, sy + 1) == CoverSum(s.top, s.bottom, c, sy) + Cover(sy, s.top, s.bottom);
    Distribute(CoverSum(s.top, s.bottom, c, sy), Cover(sy, s.top, s.bottom), CoverSum(s.left, s.right, a, b));
    assert CoverSum(s.left, s.right, a, a) == 0;
  }

  /** At the end the sums are the box's and the weights total its area. */
  lemma AccumulateEnd(f: Frame, r: Rotation, s: Span, acc: seq<nat>, total: nat)
    requires Proper(s) && Accumulated(f, r, s, acc, total, End(s.bottom), First(s.left))
    ensures total == s.Area()
    ensures |acc| == 4 && forall k: nat :: k < 4 ==> acc[3 - k] == Sum(TurnedChannel(f, r, k), s)
  {
    hide Cover, First, End, TurnedChannel;
    CoversSpan(s.left, s.right);
    CoversSpan(s.top, s.bottom);
    assert CoverSum(s.left, s.right, First(s.left), First(s.left)) == 0;
    forall k: nat | k < 4
      ensures acc[3 - k] == Sum(TurnedChannel(f, r, k), s)
    {
      assert RowSum(TurnedChannel(f, r, k), End(s.bottom), s.left, s.right, First(s.left), First(s.left)) == 0;
    }
  }

  /** The mean pixel of one box, by accumulating what each touched cell contributes. */
  method AverageBox(f: Frame, r: Rotation, s: Span) returns (out: Pixel)
    requires s.left < s.right && s.top < s.bottom
    requires End(s.right) <= TurnedWidth(f, r) && End(s.bottom) <= TurnedHeight(f, r)
    ensures out == BoxPixel(f, r, s)
  {
    hide Accumulated, Cover, CoverSum, Sum, Channel, SampleRotated, TurnedChannel, First, End, BoxPixel, MinInt, MaxInt;
    CoversSpan(s.left, s.right);
    CoversSpan(s.top, s.bottom);
    var firstRow, lastRow, firstCol, lastCol := First(s.top), End(s.bottom), First(s.left), End(s.right);
    var acc: seq<nat> := [0, 0, 0, 0];
    var total: nat := 0;
    AccumulateStart(f, r, s);
    AccumulatedShape(f, r, s, acc, total, firstRow, firstCol);
    for sy := firstRow to lastRow
      invariant |acc| == 4 && Accumulated(f, r, s, acc, total, sy, firstCol)
    {
      var coveredH := MinInt(s.bottom, 256 * (sy + 1)) - MaxInt(s.top, 256 * sy);
      TouchedCover(sy, s.top, s.bottom);
      for sx := firstCol to lastCol
        invariant |acc| == 4 && Accumulated(f, r, s, acc, total, sy, sx)
      {
        var coveredW := MinInt(s.right, 256 * (sx + 1)) - MaxInt(s.left, 256 * sx);
        TouchedCover(sx, s.left, s.right);
        var weight := coveredW * coveredH;
        WeightIs(s, sy, sx, coveredW, coveredH);
        var px := SampleRotated(f, r, Min(sx, TurnedWidth(f, r) - 1), Min(sy, TurnedHeight(f, r) - 1));
        AccumulateCell(f, r, s, acc, total, sy, sx, weight, px);
        acc := Added(acc, weight, px);
        total := total + weight;
      }
      AccumulateRow(f, r, s, acc, total, sy);
    }
    AccumulateEnd(f, r, s, acc, total);
    out := Averages(f, r, s, acc, total);
  }

  /** Divide the sums by the weight, rounding to nearest, and pack them. */
  method Averages(f: Frame, r: Rotation, ghost s: Span, acc: seq<nat>, total: nat) returns (out: Pixel)
    requires s.left < s.right && s.top < s.bottom && total == s.Area()
    requires |acc| == 4 && forall k: nat :: k < 4 ==> acc[3 - k] == Sum(TurnedChannel(f, r, k), s)
    ensures out == BoxPixel(f, r, s)
  {
    hide Sum, TurnedChannel, Pack, Mean;
    AreaPositive(s);
    var half := total / 2;
    MeansAre(f, r, s, acc, total);
    out := Pack((acc[0] + half) / total, (acc[1] + half) / total, (acc[2] + half) / total, (acc[3] + half) / total);
  }

  lemma WeightIs(s: Span, sy: nat, sx: nat, coveredW: nat, coveredH: nat)
    requires coveredW == Cover(sx, s.left, s.right) && coveredH == Cover(sy, s.top, s.bottom)
    ensures coveredW * coveredH == Cover(sx, s.left, s.right) * Cover(sy, s.top, s.bottom)
  {}

  lemma AccumulatedShape(f: Frame, r: Rotation, s: Span, acc: seq<nat>, total: nat, sy: nat, sx: nat)
    requires Accumulated(f, r, s, acc, total, sy, sx)
    ensures |acc| == 4
  {}

  lemma MeansAre(f: Frame, r: Rotation, s: Span, acc: seq<nat>, total: nat)
    requires s.left < s.right && s.top < s.bottom && total == s.Area() > 0
    requires |acc| == 4 && forall k: nat :: k < 4 ==> acc[3 - k] == Sum(TurnedChannel(f, r, k), s)
    ensures forall k: nat :: k < 4 ==> (acc[3 - k] + total / 2) / total == Mean(TurnedChannel(f, r, k), s)
    ensures (acc[0] + total / 2) / total == Mean(TurnedChannel(f, r, 3), s)
    ensures (acc[1] + total / 2) / total == Mean(TurnedChannel(f, r, 2), s)
    ensures (acc[2] + total / 2) / total == Mean(TurnedChannel(f, r, 1), s)
    ensures (acc[3] + total / 2) / total == Mean(TurnedChannel(f, r, 0), s)
  {
    hide Sum, TurnedChannel;
    assert acc[3 - 3] == Sum(TurnedChannel(f, r, 3), s) && acc[3 - 2] == Sum(TurnedChannel(f, r, 2), s);
    assert acc[3 - 1] == Sum(TurnedChannel(f, r, 1), s) && acc[3 - 0] == Sum(TurnedChannel(f, r, 0), s);
  }

  // ----- Areas of a strided buffer

  /** Index `i` is a cell of the area: columns `[x0, x1)` of rows `[y0, y1)`. */
  ghost predicate InArea(i: int, stride: nat, x0: nat, x1: nat, y0: nat, y1: nat) {
    exists x: nat, y: nat :: x0 <= x < x1 && y0 <= y < y1 && i == At(stride, x, y)
  }

  lemma InAreaAt(stride: nat, x0: nat, x1: nat, y0: nat, y1: nat, x: nat, y: nat)
    requires x0 <= x < x1 && y0 <= y < y1
    ensures InArea(At(stride, x, y), stride, x0, x1, y0, y1)
  {}

  lemma InAreaWider(i: int, stride: nat, x0: nat, x1: nat, y0: nat, y1: nat, dw: nat, dh: nat)
    requires x1 <= dw && y1 <= dh && InArea(i, stride, x0, x1, y0, y1)
    ensures InArea(i, stride, 0, dw, 0, dh)
  {
    var x: nat, y: nat :| x0 <= x < x1 && y0 <= y < y1 && i == At(stride, x, y);
    InAreaAt(stride, 0, dw, 0, dh, x, y);
  }

  lemma NotInArea(stride: nat, x0: nat, x1: nat, y0: nat, y1: nat, x: nat, y: nat)
    requires x1 <= stride && x < stride && !(x0 <= x < x1 && y0 <= y < y1)
    ensures !InArea(At(stride, x, y), stride, x0, x1, y0, y1)
  {
    if InArea(At(stride, x, y), stride, x0, x1, y0, y1) {
      var x': nat, y': nat :| x0 <= x' < x1 && y0 <= y' < y1 && At(stride, x, y) == At(stride, x', y');
      AtDistinct(stride, x, y, x', y');
    }
  }

  /** The area holds the composed sprite; every other index is as it was. */
  ghost predicate Painted(after: seq<Pixel>, before: seq<Pixel>, f: Frame, r: Rotation, dw: nat, dh: nat, stride: nat,
                          x0: nat, x1: nat, y0: nat, y1: nat)
    requires dw > 0 && dh > 0
  {
    && |after| == |before|
    && (forall x: nat, y: nat :: x0 <= x < x1 && y0 <= y < y1 ==>
          At(stride, x, y) < |after| && after[At(stride, x, y)] == ComposedPixel(f, r, dw, dh, x, y))
    && forall i :: 0 <= i < |after| && !InArea(i, stride, x0, x1, y0, y1) ==> after[i] == before[i]
  }

  /** Clear the visible part of every row. */
  method ClearRows(dst: array<Pixel>, dw: nat, dh: nat, stride: nat)
    requires dw <= stride && dst.Length >= dh * stride
    modifies dst
    ensures forall x: nat, y: nat :: x < dw && y < dh ==> At(stride, x, y) < dst.Length && dst[At(stride, x, y)] == 0
    ensures forall i :: 0 <= i < dst.Length && !InArea(i, stride, 0, dw, 0, dh) ==> dst[i] == old(dst[i])
  {
    hide *;
    PositionsFit(stride, dh);
    for y := 0 to dh
      invariant forall x: nat, y': nat :: x < dw && y' < y ==> dst[At(stride, x, y')] == 0
      invariant forall i :: 0 <= i < dst.Length && !InArea(i, stride, 0, dw, 0, dh) ==> dst[i] == old(dst[i])
    {
      for x := 0 to dw
        invariant forall x': nat, y': nat :: x' < dw && y' < dh && (y' < y || (y' == y && x' < x)) ==> dst[At(stride, x', y')] == 0
        invariant forall i :: 0 <= i < dst.Length && !InArea(i, stride, 0, dw, 0, dh) ==> dst[i] == old(dst[i])
      {
        InAreaAt(stride, 0, dw, 0, dh, x, y);
        ColumnsApart(stride, dh, x);
        dst[At(stride, x, y)] := 0;
      }
    }
  }

  /** Write the shrunk sprite, one box per pixel. */
  method BoxDownscale(f: Frame, r: Rotation, dst: array<Pixel>, dw: nat, dh: nat, stride: nat, x0: nat, y0: nat, bw: nat, bh: nat)
    requires dw > 0 && dh > 0 && dw <= stride && dst.Length >= dh * stride && Shrinks(f, r, dw, dh)
    requires var p := PlacementOf(f, r, dw, dh); x0 == p.x && y0 == p.y && bw == p.width && bh == p.height
    requires 0 < bw <= TurnedWidth(f, r) && 0 < bh <= TurnedHeight(f, r) && x0 + bw <= dw && y0 + bh <= dh
    modifies dst
    ensures Painted(dst[..], old(dst[..]), f, r, dw, dh, stride, x0, x0 + bw, y0, y0 + bh)
  {
    hide *;
    PositionsFit(stride, dh);
    var fx, fy := Step(TurnedWidth(f, r), bw), Step(TurnedHeight(f, r), bh);
    for dy := 0 to bh
      invariant forall x: nat, y: nat :: x0 <= x < x0 + bw && y0 <= y < y0 + dy ==> dst[At(stride, x, y)] == ComposedPixel(f, r, dw, dh, x, y)
      invariant forall i :: 0 <= i < dst.Length && !InArea(i, stride, x0, x0 + bw, y0, y0 + bh) ==> dst[i] == old(dst[i])
    {
      for dx := 0 to bw
        invariant forall x: nat, y: nat :: x0 <= x < x0 + bw && y0 <= y < y0 + bh && (y < y0 + dy || (y == y0 + dy && x < x0 + dx)) ==>
          dst[At(stride, x, y)] == ComposedPixel(f, r, dw, dh, x, y)
        invariant forall i :: 0 <= i < dst.Length && !InArea(i, stride, x0, x0 + bw, y0, y0 + bh) ==> dst[i] == old(dst[i])
      {
        var out := ShrunkAt(f, r, dw, dh, x0, y0, bw, bh, fx, fy, dx, dy);
        InAreaAt(stride, x0, x0 + bw, y0, y0 + bh, x0 + dx, y0 + dy);
        ColumnsApart(stride, dh, x0 + dx);
        dst[At(stride, x0 + dx, y0 + dy)] := out;
      }
    }
    AllPainted(dst[..], old(dst[..]), f, r, dw, dh, stride, x0, x0 + bw, y0, y0 + bh);
  }

  lemma AllPainted(after: seq<Pixel>, before: seq<Pixel>, f: Frame, r: Rotation, dw: nat, dh: nat, stride: nat,
                   left: nat, right: nat, top: nat, bottom: nat)
    requires dw > 0 && dh > 0 && |after| == |before|
    requires forall x: nat, y: nat :: left <= x < right && top <= y < bottom ==>
      At(stride, x, y) < |after| && after[At(stride, x, y)] == ComposedPixel(f, r, dw, dh, x, y)
    requires forall i :: 0 <= i < |after| && !InArea(i, stride, left, right, top, bottom) ==> after[i] == before[i]
    ensures Painted(after, before, f, r, dw, dh, stride, left, right, top, bottom)
  {
    hide At, InArea, ComposedPixel;
  }

  /** One pixel of a shrunk sprite: the mean of the box of `fx` by `fy` that lands on it. */
  method ShrunkAt(f: Frame, r: Rotation, ghost dw: nat, ghost dh: nat, ghost x0: nat, ghost y0: nat, bw: nat, bh: nat,
                  fx: nat, fy: nat, dx: nat, dy: nat) returns (out: Pixel)
    requires dw > 0 && dh > 0 && Shrinks(f, r, dw, dh)
    requires var p := PlacementOf(f, r, dw, dh); x0 == p.x && y0 == p.y && bw == p.width && bh == p.height
    requires 0 < bw <= TurnedWidth(f, r) && 0 < bh <= TurnedHeight(f, r) && dx < bw && dy < bh
    requires fx == Step(TurnedWidth(f, r), bw) && fy == Step(TurnedHeight(f, r), bh)
    ensures out == ComposedPixel(f, r, dw, dh, x0 + dx, y0 + dy)
  {
    hide BoxPixel, End, First, Shrinks, PlacementOf, ComposedPixel, Step;
    ShrunkPixel(f, r, dw, dh, x0 + dx, y0 + dy);
    BoxInside(f, r, bw, bh, dx, dy);
    out := AverageBox(f, r, Preimage(fx, fy, dx, dy));
  }

  /** Inside its place a shrunk sprite shows the mean of the box behind each pixel. */
  lemma ShrunkPixel(f: Frame, r: Rotation, dw: nat, dh: nat, x: nat, y: nat)
    requires dw > 0 && dh > 0 && Shrinks(f, r, dw, dh)
    requires var p := PlacementOf(f, r, dw, dh); p.x <= x < p.x + p.width && p.y <= y < p.y + p.height
    ensures
      var p := PlacementOf(f, r, dw, dh);
      && 0 < p.width <= TurnedWidth(f, r) && 0 < p.height <= TurnedHeight(f, r)
      && var s := BoxOf(f, r, p.width, p.height, x - p.x, y - p.y);
         && s == Preimage(Step(TurnedWidth(f, r), p.width), Step(TurnedHeight(f, r), p.height), x - p.x, y - p.y)
         && ComposedPixel(f, r, dw, dh, x, y) == BoxPixel(f, r, s)
  {
    hide BoxPixel;
    BlitFits(f, r, dw, dh);
  }

  lemma WholePixel(f: Frame, r: Rotation, dw: nat, dh: nat, x: nat, y: nat)
    requires dw > 0 && dh > 0 && !Shrinks(f, r, dw, dh)
    requires var p := PlacementOf(f, r, dw, dh); p.x <= x < p.x + p.width && p.y <= y < p.y + p.height
    ensures
      var p := PlacementOf(f, r, dw, dh);
      && p.width == TurnedWidth(f, r) && p.height == TurnedHeight(f, r)
      && ComposedPixel(f, r, dw, dh, x, y) == SampleRotated(f, r, x - p.x, y - p.y)
  {
    hide SampleRotated;
    UnshrunkIsWhole(f, r, dw, dh);
  }

  /** Write a sprite that fits, pixel for pixel. */
  method CopyTurned(f: Frame, r: Rotation, dst: array<Pixel>, dw: nat, dh: nat, stride: nat, x0: nat, y0: nat, bw: nat, bh: nat)
    requires dw > 0 && dh > 0 && dw <= stride && dst.Length >= dh * stride && !Shrinks(f, r, dw, dh)
    requires var p := PlacementOf(f, r, dw, dh); x0 == p.x && y0 == p.y && bw == p.width && bh == p.height
    requires x0 + bw <= dw && y0 + bh <= dh
    modifies dst
    ensures Painted(dst[..], old(dst[..]), f, r, dw, dh, stride, x0, x0 + bw, y0, y0 + bh)
  {
    hide At, InArea, SampleRotated, Shrinks, PlacementOf, ComposedPixel;
    PositionsFit(stride, dh);
    for y := 0 to bh
      invariant forall x: nat, y': nat :: x0 <= x < x0 + bw && y0 <= y' < y0 + y ==> dst[At(stride, x, y')] == ComposedPixel(f, r, dw, dh, x, y')
      invariant forall i :: 0 <= i < dst.Length && !InArea(i, stride, x0, x0 + bw, y0, y0 + bh) ==> dst[i] == old(dst[i])
    {
      for x := 0 to bw
        invariant forall x': nat, y': nat :: x0 <= x' < x0 + bw && y0 <= y' < y0 + bh && (y' < y0 + y || (y' == y0 + y && x' < x0 + x)) ==>
          dst[At(stride, x', y')] == ComposedPixel(f, r, dw, dh, x', y')
        invariant forall i :: 0 <= i < dst.Length && !InArea(i, stride, x0, x0 + bw, y0, y0 + bh) ==> dst[i] == old(dst[i])
      {
        WholePixel(f, r, dw, dh, x0 + x, y0 + y);
        InAreaAt(stride, x0, x0 + bw, y0, y0 + bh, x0 + x, y0 + y);
        ColumnsApart(stride, dh, x0 + x);
        dst[At(stride, x0 + x, y0 + y)] := SampleRotated(f, r, x, y);
      }
    }
  }

  /** The buffer shows the composed sprite, and its stride padding is untouched. */
  ghost predicate Shows(after: seq<Pixel>, before: seq<Pixel>, f: Frame, r: Rotation, dw: nat, dh: nat, stride: nat)
    requires dw > 0 && dh > 0
  {
    Painted(after, before, f, r, dw, dh, stride, 0, dw, 0, dh)
  }

  /** Compose a frame into a cursor plane buffer, and say where it landed. */
  method Compose(f: Frame, r: Rotation, dst: array<Pixel>, dw: nat, dh: nat, stride: nat) returns (placement: Placement)
    requires dw > 0 && dh > 0 && dw <= stride && dst.Length >= dh * stride
    modifies dst
    ensures Shows(dst[..], old(dst[..]), f, r, dw, dh, stride)
    ensures placement == PlacementOf(f, r, dw, dh)
  {
    hide At, InArea, ComposedPixel, Shrinks, Painted;
    ghost var before := dst[..];
    ClearRows(dst, dw, dh, stride);
    ghost var cleared := dst[..];
    BlitFits(f, r, dw, dh);
    var bw, bh := BlitWidth(f, r, dw, dh), BlitHeight(f, r, dw, dh);
    var x0, y0 := Centered(dw, bw), Centered(dh, bh);
    if Shrinks(f, r, dw, dh) {
      BoxDownscale(f, r, dst, dw, dh, stride, x0, y0, bw, bh);
    } else {
      CopyTurned(f, r, dst, dw, dh, stride, x0, y0, bw, bh);
    }
    ComposedElsewhere(dst[..], cleared, before, f, r, dw, dh, stride);
    placement := PlacementOf(f, r, dw, dh);
  }

  lemma ComposedElsewhere(after: seq<Pixel>, cleared: seq<Pixel>, before: seq<Pixel>, f: Frame, r: Rotation, dw: nat, dh: nat, stride: nat)
    requires dw > 0 && dh > 0 && dw <= stride && |cleared| == |before|
    requires forall x: nat, y: nat :: x < dw && y < dh ==> At(stride, x, y) < |cleared| && cleared[At(stride, x, y)] == 0
    requires forall i :: 0 <= i < |cleared| && !InArea(i, stride, 0, dw, 0, dh) ==> cleared[i] == before[i]
    requires
      var p := PlacementOf(f, r, dw, dh);
      && p.x + p.width <= dw && p.y + p.height <= dh
      && Painted(after, cleared, f, r, dw, dh, stride, p.x, p.x + p.width, p.y, p.y + p.height)
    ensures Shows(after, before, f, r, dw, dh, stride)
  {
    hide At, InArea, PlacementOf;
    var p := PlacementOf(f, r, dw, dh);
    forall x: nat, y: nat | x < dw && y < dh
      ensures At(stride, x, y) < |after| && after[At(stride, x, y)] == ComposedPixel(f, r, dw, dh, x, y)
    {
      if !InPlace(f, r, dw, dh, x, y) {
        NotInArea(stride, p.x, p.x + p.width, p.y, p.y + p.height, x, y);
      }
    }
    forall i | 0 <= i < |after| && !InArea(i, stride, 0, dw, 0, dh)
      ensures after[i] == before[i]
    {
      if InArea(i, stride, p.x, p.x + p.width, p.y, p.y + p.height) {
        InAreaWider(i, stride, p.x, p.x + p.width, p.y, p.y + p.height, dw, dh);
      }
    }
  }

  // ----- Shifting in place

  /** Pixel (x, y) of a buffer whose content moved `sx` left and `sy` up, clearing what it left. */
  function ShiftedPixel(buffer: seq<Pixel>, dw: nat, dh: nat, stride: nat, sx: nat, sy: nat, x: nat, y: nat): Pixel
    requires dw <= stride && |buffer| >= dh * stride
  {
    if x + sx < dw && y + sy < dh then
      AtFits(stride, dh, x + sx, y + sy);
      buffer[At(stride, x + sx, y + sy)]
    else 0
  }

  ghost predicate Shifted(after: seq<Pixel>, before: seq<Pixel>, dw: nat, dh: nat, stride: nat, sx: nat, sy: nat)
    requires dw <= stride && |before| >= dh * stride
  {
    && |after| == |before|
    && (forall x: nat, y: nat :: x < dw && y < dh ==>
          At(stride, x, y) < |after| && after[At(stride, x, y)] == ShiftedPixel(before, dw, dh, stride, sx, sy, x, y))
    && forall i :: 0 <= i < |after| && !InArea(i, stride, 0, dw, 0, dh) ==> after[i] == before[i]
  }

  /** Copy `n` pixels down to a lower index, as a memory move does. */
  method CopyDown(dst: array<Pixel>, from: nat, to: nat, n: nat)
    requires to <= from && from + n <= dst.Length
    modifies dst
    ensures forall i :: to <= i < to + n ==> dst[i] == old(dst[i + (from - to)])
    ensures forall i :: 0 <= i < dst.Length && !(to <= i < to + n) ==> dst[i] == old(dst[i])
  {
    for k := 0 to n
      invariant forall i :: to <= i < to + k ==> dst[i] == old(dst[i + (from - to)])
      invariant forall i :: 0 <= i < dst.Length && !(to <= i < to + k) ==> dst[i] == old(dst[i])
    {
      dst[to + k] := dst[from + k];
    }
  }

  method Fill(dst: array<Pixel>, from: nat, n: nat)
    requires from + n <= dst.Length
    modifies dst
    ensures forall i :: from <= i < from + n ==> dst[i] == 0
    ensures forall i :: 0 <= i < dst.Length && !(from <= i < from + n) ==> dst[i] == old(dst[i])
  {
    for k := 0 to n
      invariant forall i :: from <= i < from + k ==> dst[i] == 0
      invariant forall i :: 0 <= i < dst.Length && !(from <= i < from + k) ==> dst[i] == old(dst[i])
    {
      dst[from + k] := 0;
    }
  }

  /** One row of the shift, starting at `row`: from `from` when there is a row to move, else
      cleared. */
  method ShiftRow(dst: array<Pixel>, row: nat, from: nat, w: nat, sx: nat, moves: bool)
    requires sx <= w && row + w <= dst.Length
    requires moves ==> row <= from && from + (w - sx) <= dst.Length
    modifies dst
    ensures forall i :: row <= i < row + w ==> dst[i] == if moves && i < row + w - sx then old(dst[i + (from - row)]) else 0
    ensures forall i :: 0 <= i < dst.Length && !(row <= i < row + w) ==> dst[i] == old(dst[i])
  {
    if moves {
      CopyDown(dst, from, row, w - sx);
      Fill(dst, row + w - sx, sx);
    } else {
      Fill(dst, row, w);
    }
  }

  /** Rows above `y` are shifted, and the rest as they were. */
  ghost predicate RowsShifted(current: seq<Pixel>, before: seq<Pixel>, dw: nat, dh: nat, stride: nat, sx: nat, sy: nat, y: nat)
    requires dw <= stride && |before| >= dh * stride
  {
    && |current| == |before|
    && (forall x: nat, y': nat :: x < dw && y' < y ==>
          At(stride, x, y') < |current| && current[At(stride, x, y')] == ShiftedPixel(before, dw, dh, stride, sx, sy, x, y'))
    && (forall i :: y * stride <= i < |before| ==> current[i] == before[i])
    && forall i :: 0 <= i < |before| && !InArea(i, stride, 0, dw, 0, dh) ==> current[i] == before[i]
  }

  /** Move a composed buffer's pixels up and left in place, clearing what they leave behind. */
  method ShiftUpLeft(dst: array<Pixel>, dw: nat, dh: nat, stride: nat, shiftX: nat, shiftY: nat)
    requires dw <= stride && dst.Length >= dh * stride
    modifies dst
    ensures Shifted(dst[..], old(dst[..]), dw, dh, stride, Min(shiftX, dw), Min(shiftY, dh))
  {
    hide *;
    MinAtMost(shiftX, dw);
    MinAtMost(shiftY, dh);
    var sx, sy := Min(shiftX, dw), Min(shiftY, dh);
    ghost var before := dst[..];
    if sx == 0 && sy == 0 {
      NoShift(before, dw, dh, stride);
      return;
    }
    NoRowsShifted(before, dw, dh, stride, sx, sy);
    for y := 0 to dh
      invariant RowsShifted(dst[..], before, dw, dh, stride, sx, sy, y)
    {
      ghost var entered := dst[..];
      RowsShiftedSize(entered, before, dw, dh, stride, sx, sy, y);
      var row := At(stride, 0, y);
      var moves := y + sy < dh;
      var from := if moves then At(stride, sx, y + sy) else 0;
      RowBounds(dw, dh, stride, sx, sy, y);
      ShiftRow(dst, row, from, dw, sx, moves);
      RowShifted(before, entered, dst[..], dw, dh, stride, sx, sy, y, row, from);
    }
    AllRowsShifted(dst[..], before, dw, dh, stride, sx, sy);
  }

  lemma MinAtMost(x: nat, y: nat)
    ensures Min(x, y) <= y
  {}

  lemma NoRowsShifted(before: seq<Pixel>, dw: nat, dh: nat, stride: nat, sx: nat, sy: nat)
    requires dw <= stride && |before| >= dh * stride
    ensures RowsShifted(before, before, dw, dh, stride, sx, sy, 0)
  {}

  lemma RowsShiftedSize(current: seq<Pixel>, before: seq<Pixel>, dw: nat, dh: nat, stride: nat, sx: nat, sy: nat, y: nat)
    requires dw <= stride && |before| >= dh * stride && RowsShifted(current, before, dw, dh, stride, sx, sy, y)
    ensures |current| == |before|
  {}

  lemma AllRowsShifted(current: seq<Pixel>, before: seq<Pixel>, dw: nat, dh: nat, stride: nat, sx: nat, sy: nat)
    requires dw <= stride && |before| >= dh * stride && RowsShifted(current, before, dw, dh, stride, sx, sy, dh)
    ensures Shifted(current, before, dw, dh, stride, sx, sy)
  {
    hide At, InArea, ShiftedPixel;
  }

  /** The row read lies at or after the row written, inside the buffer. */
  lemma RowBounds(dw: nat, dh: nat, stride: nat, sx: nat, sy: nat, y: nat)
    requires dw <= stride && y < dh && sx <= dw
    ensures At(stride, 0, y) + stride <= dh * stride
    ensures y + sy < dh ==> At(stride, 0, y) + sx <= At(stride, sx, y + sy) && At(stride, sx, y + sy) + (dw - sx) <= dh * stride
  {
    RowFits(stride, dh, y);
    if y + sy < dh {
      RowFits(stride, dh, y + sy);
      MulMono(y + sy, y, stride);
    }
  }

  lemma RowFits(stride: nat, h: nat, y: nat)
    requires y < h
    ensures y * stride + stride == (y + 1) * stride <= h * stride
  {
    MulMono(h, y + 1, stride);
  }

  lemma NoShift(before: seq<Pixel>, dw: nat, dh: nat, stride: nat)
    requires dw <= stride && |before| >= dh * stride
    ensures Shifted(before, before, dw, dh, stride, 0, 0)
  {
    hide At, InArea;
    forall x: nat, y: nat | x < dw && y < dh
      ensures At(stride, x, y) < |before| && before[At(stride, x, y)] == ShiftedPixel(before, dw, dh, stride, 0, 0, x, y)
    {
      AtFits(stride, dh, x, y);
    }
  }

  /** Row `y` read only rows not yet written, wrote only its own visible cells, and is now right. */
  lemma RowShifted(before: seq<Pixel>, entered: seq<Pixel>, after: seq<Pixel>, dw: nat, dh: nat, stride: nat, sx: nat, sy: nat, y: nat,
                   row: nat, from: nat)
    requires dw <= stride && |before| == |entered| == |after| && |before| >= dh * stride && y < dh && sx <= dw
    requires RowsShifted(entered, before, dw, dh, stride, sx, sy, y)
    requires row == At(stride, 0, y) && row + stride <= |before|
    requires y + sy < dh ==> from == At(stride, sx, y + sy) && row + sx <= from && from + (dw - sx) <= |before|
    requires forall i :: row <= i < row + dw ==> after[i] == if y + sy < dh && i < row + dw - sx then entered[i + (from - row)] else 0
    requires forall i :: 0 <= i < |before| && !(row <= i < row + dw) ==> after[i] == entered[i]
    ensures RowsShifted(after, before, dw, dh, stride, sx, sy, y + 1)
  {
    hide InArea;
    Distribute(y, 1, stride);
    forall x: nat, y': nat | x < dw && y' < y + 1
      ensures At(stride, x, y') < |after| && after[At(stride, x, y')] == ShiftedPixel(before, dw, dh, stride, sx, sy, x, y')
    {
      if y' < y {
        RowsApart(stride, dh, y, y');
        MulMono(y, y', stride);
      } else {
        assert At(stride, x, y') == row + x;
      }
    }
    forall i | 0 <= i < |before| && !InArea(i, stride, 0, dw, 0, dh)
      ensures after[i] == before[i]
    {
      if row <= i < row + dw {
        InAreaAt(stride, 0, dw, 0, dh, i - row, y);
      }
    }
  }
}
