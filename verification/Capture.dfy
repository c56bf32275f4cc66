/** What a CRTC shows, composed again from the planes on it. */
module Capture {
  import opened Blending
  import opened Grid
  import opened Options
  import opened Pixels

  const MAX: int := 0x7fff_ffff

  // ----- Sampling

  /** Where an output coordinate falls in a source, in 32.32 fixed point. */
  datatype Axis = Axis(start: int, step: int, len: nat) {
    function Position(at: nat): int {
      start + at * step
    }
  }

  /** The remainder of a division truncated toward zero. */
  function Remainder(x: real, period: real): real
    requires period > 0.0
  {
    x - period * Toward0(x / period) as real
  }

  function Toward0(x: real): int {
    if x >= 0.0 then x.Floor else -(-x).Floor
  }

  /** How much of a source each of `size` pixels across it takes. */
  function Inverse(len: nat, size: nat): real
    requires size > 0
  {
    len as real / size as real
  }

  /** The axis of a source drawn `size` across from `origin`: pixels have their centers at a half on both
      sides, and the start is brought within a reflection's period.  The rounding of the 64-bit floats
      is not modelled. */
  function AxisOf(len: nat, size: nat, origin: int): Axis
    requires len > 0 && size > 0
  {
    var start := Remainder(Translation(len, size, origin), Period(len));
    Axis((start * ONE as real).Floor, (Inverse(len, size) * ONE as real).Floor, len)
  }

  /** Where the first output pixel's center would lie. */
  function Translation(len: nat, size: nat, origin: int): real
    requires size > 0
  {
    -(origin as real * Inverse(len, size)) + 0.5 * Inverse(len, size) - 0.5
  }

  /** Reflecting twice comes back to the start. */
  function Period(len: nat): (p: real)
    requires len > 0
    ensures p > 0.0
  {
    (2 * len) as real
  }

  /** Where the center of the output pixel at `at` lies in a source drawn `size` across from `origin`,
      counted from the center of the source's first pixel. */
  function Center(len: nat, size: nat, origin: int, at: nat): real
    requires size > 0
  {
    ((at - origin) as real + 0.5) * Inverse(len, size) - 0.5
  }

  /** An output pixel samples where its center lies, but for whole reflection periods, and less by at
      most one part in 2^32 for the start and for each pixel stepped. */
  lemma SamplesCenter(len: nat, size: nat, origin: int, at: nat) returns (periods: int)
    requires len > 0 && size > 0
    ensures
      var exact := (Center(len, size, origin, at) - periods as real * Period(len)) * ONE as real;
      0.0 <= exact - AxisOf(len, size, origin).Position(at) as real < (at + 1) as real
  {
    hide *;
    var inverse, base := Inverse(len, size), Translation(len, size, origin);
    var start := Remainder(base, Period(len));
    periods := Toward0(base / Period(len));
    AxisIs(len, size, origin);
    RemainderIs(base, Period(len));
    CenterIs(len, size, origin, at);
    SampledBelow(start, inverse, at);
    PositionIs(AxisOf(len, size, origin), at, (start * ONE as real).Floor, (inverse * ONE as real).Floor);
    SameStart(Center(len, size, origin, at), periods as real * Period(len), base, start, at as real * inverse);
  }

  lemma SameStart(center: real, whole: real, base: real, start: real, moved: real)
    requires center == base + moved && start == base - whole
    ensures (center - whole) * ONE as real == (start + moved) * ONE as real
  {}

  lemma SampledBelow(start: real, inverse: real, at: nat)
    ensures
      var first, step := (start * ONE as real).Floor, (inverse * ONE as real).Floor;
      0.0 <= (start + at as real * inverse) * ONE as real - (first as real + at as real * step as real) < (at + 1) as real
  {
    InSteps(start, at as real, inverse);
    StepsBelow(start * ONE as real, inverse * ONE as real, at);
    assert (at + 1) as real == at as real + 1.0;
  }

  lemma AxisIs(len: nat, size: nat, origin: int)
    requires len > 0 && size > 0
    ensures
      var axis, start := AxisOf(len, size, origin), Remainder(Translation(len, size, origin), Period(len));
      axis.start == (start * ONE as real).Floor && axis.step == (Inverse(len, size) * ONE as real).Floor
  {}

  lemma CenterIs(len: nat, size: nat, origin: int, at: nat)
    requires size > 0
    ensures Center(len, size, origin, at) == Translation(len, size, origin) + at as real * Inverse(len, size)
  {
    hide Inverse;
    Spread(at as real, -(origin as real), 0.5, Inverse(len, size));
  }

  lemma RemainderIs(x: real, period: real)
    requires period > 0.0
    ensures Remainder(x, period) == x - Toward0(x / period) as real * period
  {}

  lemma Spread(x: real, y: real, z: real, k: real)
    ensures (x + y + z) * k == x * k + y * k + z * k
    ensures y * k == -(-y * k)
  {}

  lemma InSteps(start: real, n: real, inverse: real)
    ensures (start + n * inverse) * ONE as real == start * ONE as real + n * (inverse * ONE as real)
  {}

  lemma StepsBelow(first: real, step: real, at: nat)
    ensures 0.0 <= first + at as real * step - (first.Floor as real + at as real * step.Floor as real) < at as real + 1.0
  {
    var left := step - step.Floor as real;
    FloorIs(step);
    Share(at, left);
    Parted(at as real, step.Floor as real, left, step);
    FloorBelow(first, at as real * step, at as real * step.Floor as real, at as real * left, at as real);
  }

  lemma FloorBelow(first: real, total: real, whole: real, left: real, most: real)
    requires total == whole + left && 0.0 <= left <= most
    ensures 0.0 <= first + total - (first.Floor as real + whole) < most + 1.0
  {}

  lemma PositionIs(axis: Axis, at: nat, first: int, step: int)
    requires axis.start == first && axis.step == step
    ensures axis.Position(at) as real == first as real + at as real * step as real
  {
    AsReals(at, axis.step);
  }

  lemma Parted(n: real, whole: real, left: real, step: real)
    requires step == whole + left
    ensures n * step == n * whole + n * left
  {}

  lemma FloorIs(x: real)
    ensures 0.0 <= x - x.Floor as real < 1.0
  {}

  lemma Share(n: nat, part: real)
    requires 0.0 <= part < 1.0
    ensures 0.0 <= n as real * part <= n as real
  {}

  lemma {:induction false} AsReals(n: nat, k: int)
    ensures (n * k) as real == n as real * k as real
  {
    if n > 0 {
      AsReals(n - 1, k);
      assert n * k == (n - 1) * k + k;
      Spread((n - 1) as real, 1.0, 0.0, k as real);
    }
  }

  datatype Taps = Taps(near: nat, far: nat, weight: Weight)

  const ONE: int := 0x1_0000_0000

  /** Reading past either edge turns back, as often as it takes. */
  function Reflect(index: int, len: nat): (i: nat)
    requires len > 0
    ensures i < len
    decreases if index < 0 then -2 * index - 1 else 2 * index
  {
    if index < 0 then Reflect(-index - 1, len)
    else if index >= len then Reflect(2 * len - 1 - index, len)
    else index
  }

  /** The two source pixels an output coordinate mixes. */
  function TapsAt(axis: Axis, at: nat): Taps
    requires axis.len > 0
  {
    var position := axis.Position(at);
    var turned := position / ONE % (2 * axis.len);
    var whole := if turned >= axis.len then turned - 2 * axis.len else turned;
    var next := if whole + 1 < axis.len - 1 then whole + 1 else axis.len - 1;
    Taps(if whole < 0 then -whole - 1 else whole, if next < 0 then -next - 1 else next, position / 0x100_0000 % 256)
  }

  lemma ReflectTwice(index: int, len: nat)
    requires len > 0 && index >= 0
    ensures Reflect(index + 2 * len, len) == Reflect(index, len)
  {
    var i := index + 2 * len;
    assert Reflect(i, len) == Reflect(2 * len - 1 - i, len) == Reflect(-index - 1, len);
  }

  lemma ReflectOnce(index: int, len: nat)
    requires len > 0
    ensures Reflect(index + 2 * len, len) == Reflect(index, len)
  {
    if index >= 0 {
      ReflectTwice(index, len);
    } else if index < -2 * len {
      ReflectTwice(-index - 1 - 2 * len, len);
    } else {
      var k := index + 2 * len;
      assert -index - 1 == 2 * len - 1 - k;
      if k < len {
        assert Reflect(-index - 1, len) == Reflect(2 * len - 1 - (-index - 1), len);
      }
    }
  }

  /** Reflection repeats every two lengths. */
  lemma {:induction false} ReflectPeriod(index: int, len: nat, q: int)
    requires len > 0
    ensures Reflect(index + 2 * len * q, len) == Reflect(index, len)
    decreases if q < 0 then -q else q
  {
    if q > 0 {
      ReflectPeriod(index, len, q - 1);
      ReflectOnce(index + 2 * len * (q - 1), len);
      Stepped(index, len, q - 1);
    } else if q < 0 {
      ReflectPeriod(index, len, q + 1);
      ReflectOnce(index + 2 * len * q, len);
      Stepped(index, len, q);
    }
  }

  lemma Stepped(index: int, len: nat, q: int)
    ensures index + 2 * len * q + 2 * len == index + 2 * len * (q + 1)
  {}

  /** The taps are the pixel an output coordinate falls in and the one after it, turned back at the
      edges wherever they lie. */
  lemma TapsReflect(axis: Axis, at: nat)
    requires axis.len > 0
    ensures
      var whole := axis.Position(at) / ONE;
      var taps := TapsAt(axis, at);
      var part := axis.Position(at) - whole * ONE;
      && taps.near == Reflect(whole, axis.len) && taps.far == Reflect(whole + 1, axis.len)
      && taps.weight * ONE <= 256 * part < taps.weight * ONE + ONE
  {
    WeightIsPart(axis.Position(at));
    var whole, period := axis.Position(at) / ONE, 2 * axis.len;
    var turned, q := whole % period, whole / period;
    assert whole == turned + period * q;
    ReflectPeriod(turned, axis.len, q);
    ReflectPeriod(turned + 1, axis.len, q);
    assert whole + 1 == turned + 1 + period * q;
    if turned + 1 == period {
      assert Reflect(turned + 1, axis.len) == Reflect(-1, axis.len) == Reflect(0, axis.len);
    }
  }

  /** The weight is what lies past the near pixel, in 256ths. */
  lemma WeightIsPart(position: int)
    ensures
      var weight: nat := position / 0x100_0000 % 256;
      weight * ONE <= 256 * (position - position / ONE * ONE) < weight * ONE + ONE
  {
    assert position / ONE == position / 0x100_0000 / 256;
  }

  /** Whole periods make no difference to where a reflected index lies. */
  lemma PeriodReflects(index: int, len: nat)
    requires len > 0
    ensures Reflect(index + Period(len).Floor, len) == Reflect(index, len)
  {
    ReflectOnce(index, len);
  }

  // ----- One plane

  /** A plane's pixels and where they land. A zero destination size means the framebuffer's. */
  datatype Plane = Plane(bytes: seq<Byte>, width: nat, height: nat, pitch: nat, format: Format,
                         x: int, y: int, w: nat, h: nat, zpos: int) {
    function Wide(): nat {
      if w == 0 then width else w
    }

    function High(): nat {
      if h == 0 then height else h
    }

    predicate Empty() {
      Wide() == 0 || High() == 0 || width == 0 || height == 0
    }

    predicate Unscaled() {
      Wide() == width && High() == height
    }

    function XAxis(): Axis
      requires !Empty()
    {
      AxisOf(width, Wide(), x)
    }

    function YAxis(): Axis
      requires !Empty()
    {
      AxisOf(height, High(), y)
    }
  }

  /** A framebuffer pixel, unless it lies past the end of the mapping. */
  function Fetch(p: Plane, row: nat, column: nat): (pixel: Option<Pixel>)
    ensures pixel.Some? ==> Premultiplied(pixel.value)
  {
    var at := row * p.pitch + column * p.format.Bytes();
    if at + p.format.Bytes() > |p.bytes| then None else
      ReadPremultiplied(p.format, p.bytes[at..at + p.format.Bytes()]);
      Some(Read(p.format, p.bytes[at..at + p.format.Bytes()]))
  }

  /** Four pixels mixed, down each column first; nothing if one is missing. */
  function Mix(p: Plane, rows: Taps, columns: Taps): (pixel: Option<Pixel>)
    ensures pixel.Some? ==> Premultiplied(pixel.value)
  {
    match (Fetch(p, rows.near, columns.near), Fetch(p, rows.near, columns.far), Fetch(p, rows.far, columns.near), Fetch(p, rows.far, columns.far))
    case (Some(topNear), Some(topFar), Some(bottomNear), Some(bottomFar)) =>
      LerpPremultiplied(topNear, bottomNear, rows.weight);
      LerpPremultiplied(topFar, bottomFar, rows.weight);
      LerpPremultiplied(Lerp(topNear, bottomNear, rows.weight), Lerp(topFar, bottomFar, rows.weight), columns.weight);
      Some(Lerp(Lerp(topNear, bottomNear, rows.weight), Lerp(topFar, bottomFar, rows.weight), columns.weight))
    case _ => None
  }

  /** A mapping laid out in rows of pixels, each followed by what fills it up to the pitch. */
  function Flat(parts: seq<seq<Byte>>): seq<Byte> {
    if parts == [] then [] else parts[0] + Flat(parts[1..])
  }

  lemma {:induction false} FlatPart(parts: seq<seq<Byte>>, len: nat, i: nat)
    requires i < |parts| && forall k :: 0 <= k < |parts| ==> |parts[k]| == len
    ensures i * len + len <= |Flat(parts)| && Flat(parts)[i * len..i * len + len] == parts[i]
  {
    var rest := Flat(parts[1..]);
    if i > 0 {
      FlatPart(parts[1..], len, i - 1);
      assert i * len == (i - 1) * len + len;
      assert Flat(parts)[i * len..i * len + len] == rest[(i - 1) * len..(i - 1) * len + len];
    } else {
      assert Flat(parts)[..len] == parts[0];
    }
  }

  /** Of a mapping laid out by its pitch, the pixel fetched is the one in that row and column. */
  lemma FetchFindsPixel(p: Plane, rows: seq<seq<seq<Byte>>>, fill: seq<Byte>, row: nat, column: nat)
    requires row < |rows| && column < |rows[row]|
    requires forall y, x :: 0 <= y < |rows| && 0 <= x < |rows[y]| ==> |rows[y][x]| == p.format.Bytes()
    requires p.bytes == Flat(seq(|rows|, y requires 0 <= y < |rows| => Flat(rows[y]) + fill))
    requires forall y :: 0 <= y < |rows| ==> |Flat(rows[y]) + fill| == p.pitch
    ensures Fetch(p, row, column) == Some(Read(p.format, rows[row][column]))
  {
    hide Read, Flat;
    var lines := seq(|rows|, y requires 0 <= y < |rows| => Flat(rows[y]) + fill);
    var n := p.format.Bytes();
    FlatPart(lines, p.pitch, row);
    FlatPart(rows[row], n, column);
    Inside(p.bytes, row * p.pitch, Flat(rows[row]), fill, column * n, n);
  }

  lemma Inside(bytes: seq<Byte>, start: nat, part: seq<Byte>, fill: seq<Byte>, at: nat, n: nat)
    requires start + |part + fill| <= |bytes| && bytes[start..start + |part + fill|] == part + fill && at + n <= |part|
    ensures bytes[start + at..start + at + n] == part[at..at + n]
  {
    var whole := bytes[start..start + |part + fill|];
    assert forall k :: 0 <= k < |part| ==> whole[k] == part[k];
    var left, right := bytes[start + at..start + at + n], part[at..at + n];
    forall k | 0 <= k < |left|
      ensures left[k] == right[k]
    {
      assert whole[at + k] == bytes[start + (at + k)];
    }
  }

  /** The exact mix of four channels, weighted by how far along each axis, in 65536ths. */
  function Bilinear(topNear: Byte, topFar: Byte, bottomNear: Byte, bottomFar: Byte, down: Weight, across: Weight): int {
    Weighted(Weighted(topNear, bottomNear, down), Weighted(topFar, bottomFar, down), across)
  }

  function Weighted(near: int, far: int, w: int): int {
    near * (256 - w) + far * w
  }

  /** Mixing rounds every channel down, by less than two. */
  lemma MixIsBilinear(p: Plane, rows: Taps, columns: Taps, k: nat)
    requires k < 4 && Mix(p, rows, columns).Some?
    ensures
      && Fetch(p, rows.near, columns.near).Some? && Fetch(p, rows.near, columns.far).Some?
      && Fetch(p, rows.far, columns.near).Some? && Fetch(p, rows.far, columns.far).Some?
    ensures
      var exact := Bilinear(Channel(Fetch(p, rows.near, columns.near).value, k), Channel(Fetch(p, rows.near, columns.far).value, k),
                            Channel(Fetch(p, rows.far, columns.near).value, k), Channel(Fetch(p, rows.far, columns.far).value, k),
                            rows.weight, columns.weight);
      0x1_0000 * Channel(Mix(p, rows, columns).value, k) <= exact < 0x1_0000 * Channel(Mix(p, rows, columns).value, k) + 2 * 0x1_0000
  {
    hide Fetch, Channel, Pack, LerpChannel, Bilinear;
    var topNear, topFar := Fetch(p, rows.near, columns.near).value, Fetch(p, rows.near, columns.far).value;
    var bottomNear, bottomFar := Fetch(p, rows.far, columns.near).value, Fetch(p, rows.far, columns.far).value;
    LerpChannels(topNear, bottomNear, rows.weight, k);
    LerpChannels(topFar, bottomFar, rows.weight, k);
    LerpChannels(Lerp(topNear, bottomNear, rows.weight), Lerp(topFar, bottomFar, rows.weight), columns.weight, k);
    TwiceRounded(Channel(topNear, k), Channel(topFar, k), Channel(bottomNear, k), Channel(bottomFar, k), rows.weight, columns.weight);
  }

  lemma LerpChannels(near: Pixel, far: Pixel, w: Weight, k: nat)
    requires k < 4
    ensures Channel(Lerp(near, far, w), k) == LerpChannel(Channel(near, k), Channel(far, k), w)
  {
    hide Channel, Pack, LerpChannel;
    assert k == 0 || k == 1 || k == 2 || k == 3;
  }

  lemma TwiceRounded(topNear: Byte, topFar: Byte, bottomNear: Byte, bottomFar: Byte, down: Weight, across: Weight)
    ensures
      var c := LerpChannel(LerpChannel(topNear, bottomNear, down), LerpChannel(topFar, bottomFar, down), across);
      var exact := Bilinear(topNear, topFar, bottomNear, bottomFar, down, across);
      0x1_0000 * c <= exact < 0x1_0000 * c + 2 * 0x1_0000
  {
    hide LerpChannel, Weighted;
    LerpRounds(topNear, bottomNear, down);
    LerpRounds(topFar, bottomFar, down);
    LerpRounds(LerpChannel(topNear, bottomNear, down), LerpChannel(topFar, bottomFar, down), across);
    RoundedWeights(Weighted(topNear, bottomNear, down), Weighted(topFar, bottomFar, down),
                   LerpChannel(topNear, bottomNear, down), LerpChannel(topFar, bottomFar, down), across);
  }

  lemma LerpRounds(a: Byte, b: Byte, w: Weight)
    ensures 256 * LerpChannel(a, b, w) <= Weighted(a, b, w) < 256 * LerpChannel(a, b, w) + 256
  {}

  lemma RoundedWeights(near: nat, far: nat, l: nat, r: nat, w: Weight)
    requires 256 * l <= near <= 256 * l + 255 && 256 * r <= far <= 256 * r + 255
    ensures 256 * Weighted(l, r, w) <= Weighted(near, far, w) <= 256 * Weighted(l, r, w) + 255 * 256
  {
    Leftover(near, l, 256 - w);
    Leftover(far, r, w);
  }

  lemma Leftover(n: nat, q: nat, w: nat)
    requires 256 * q <= n <= 256 * q + 255
    ensures 256 * (q * w) <= n * w <= 256 * (q * w) + 255 * w
  {
    MulMono(n, 256 * q, w);
    MulMono(256 * q + 255, n, w);
    assert 256 * q * w == 256 * (q * w);
    assert (256 * q + 255) * w == 256 * q * w + 255 * w;
  }

  /** Whether a coordinate lies on an extent, as a signed 32-bit number. */
  predicate Within(at: int, start: int, len: nat) {
    start <= at < start + len && at <= MAX
  }

  /** What a plane puts at (x, y) of the output, if anything. */
  function Shown(p: Plane, x: nat, y: nat): (pixel: Option<Pixel>)
    ensures pixel.Some? ==> Premultiplied(pixel.value)
  {
    if p.Empty() || !Within(x, p.x, p.Wide()) || !Within(y, p.y, p.High()) then None
    else if p.Unscaled() then Fetch(p, y - p.y, x - p.x)
    else Mix(p, TapsAt(p.YAxis(), y), TapsAt(p.XAxis(), x))
  }

  /** A plane shows something exactly inside its destination, which is as large as its framebuffer where
      no size is given, and where what it reads there is not missing: the one pixel over it, or, where
      the sizes differ, the four around it. */
  lemma ShownIff(p: Plane, x: nat, y: nat)
    ensures
      var w, h := if p.w > 0 then p.w else p.width, if p.h > 0 then p.h else p.height;
      if p.width > 0 && p.height > 0 && p.x <= x < p.x + w && p.y <= y < p.y + h && x <= MAX && y <= MAX then
        if w == p.width && h == p.height then Shown(p, x, y) == Fetch(p, y - p.y, x - p.x)
        else Shown(p, x, y) == Mix(p, TapsAt(AxisOf(p.height, h, p.y), y), TapsAt(AxisOf(p.width, w, p.x), x))
      else Shown(p, x, y) == None
  {
    hide Fetch, Mix, TapsAt, AxisOf;
  }

  /** An output pixel under a plane. */
  function Under(dst: Pixel, p: Plane, x: nat, y: nat): Pixel {
    if Shown(p, x, y).Some? then SrcOver(dst, Shown(p, x, y).value) else dst
  }

  // ----- Which coordinates are visible

  function First(start: int): nat {
    if start < 0 then 0 else start
  }

  /** How many of `len` coordinates from `start` land on an output `size` across. */
  function Count(start: int, len: nat, size: nat): nat {
    var end := if start + len < size then start + len else size;
    var last := if end > MAX + 1 then MAX + 1 else end;
    if last > First(start) then last - First(start) else 0
  }

  /** The coordinates that land on the output, each with its distance from the start. */
  method Visible(start: int, len: nat, size: nat) returns (pairs: seq<(nat, nat)>)
    ensures |pairs| == Count(start, len, size)
    ensures forall k :: 0 <= k < |pairs| ==> pairs[k] == (First(start) + k - start, First(start) + k)
  {
    pairs := [];
    for offset := 0 to len
      invariant |pairs| == Count(start, offset, size)
      invariant forall k :: 0 <= k < |pairs| ==> pairs[k] == (First(start) + k - start, First(start) + k)
    {
      var at := start + offset;
      if 0 <= at <= MAX && at < size {
        pairs := pairs + [(offset, at)];
      }
    }
  }

  /** They are the ones within the extent, and no others of the output. */
  lemma VisibleIff(start: int, len: nat, size: nat, at: nat)
    requires at < size
    ensures Within(at, start, len) <==> First(start) <= at < First(start) + Count(start, len, size)
  {}

  // ----- Blitting

  /** Pixels above row `Y`, and in it left of `X`, are under the plane; the rest are as they were. */
  ghost predicate Blended(current: seq<Pixel>, before: seq<Pixel>, p: Plane, w: nat, h: nat, X: nat, Y: nat)
    requires |before| == w * h
  {
    && |current| == |before|
    && forall x: nat, y: nat :: x < w && y < h ==>
         At(w, x, y) < |before| &&
         current[At(w, x, y)] == if y < Y || (y == Y && x < X) then Under(before[At(w, x, y)], p, x, y) else before[At(w, x, y)]
  }

  lemma NothingAbove(before: seq<Pixel>, p: Plane, w: nat, h: nat)
    requires |before| == w * h && !p.Empty()
    ensures Blended(before, before, p, w, h, 0, First(p.y))
  {
    hide At, Fetch, Mix;
    PositionsFit(w, h);
  }

  lemma NothingLeft(current: seq<Pixel>, before: seq<Pixel>, p: Plane, w: nat, h: nat, Y: nat)
    requires |before| == w * h && !p.Empty() && Blended(current, before, p, w, h, 0, Y)
    ensures Blended(current, before, p, w, h, First(p.x), Y)
  {
    hide At, Fetch, Mix;
  }

  lemma NothingRight(current: seq<Pixel>, before: seq<Pixel>, p: Plane, w: nat, h: nat, Y: nat)
    requires |before| == w * h && !p.Empty()
    requires Blended(current, before, p, w, h, First(p.x) + Count(p.x, p.Wide(), w), Y)
    ensures Blended(current, before, p, w, h, 0, Y + 1)
  {
    hide At, Fetch, Mix, Count, First, Within;
    forall x: nat | x < w
      ensures Within(x, p.x, p.Wide()) ==> x < First(p.x) + Count(p.x, p.Wide(), w)
    {
      VisibleIff(p.x, p.Wide(), w, x);
    }
  }

  lemma NothingBelow(current: seq<Pixel>, before: seq<Pixel>, p: Plane, w: nat, h: nat)
    requires |before| == w * h && !p.Empty()
    requires Blended(current, before, p, w, h, 0, First(p.y) + Count(p.y, p.High(), h))
    ensures Composed(current, before, p, w, h)
  {
    hide At, Fetch, Mix, Count, First, Within;
    forall y: nat | y < h
      ensures Within(y, p.y, p.High()) ==> y < First(p.y) + Count(p.y, p.High(), h)
    {
      VisibleIff(p.y, p.High(), h, y);
    }
  }

  /** Every pixel of the output is under the plane. */
  ghost predicate Composed(current: seq<Pixel>, before: seq<Pixel>, p: Plane, w: nat, h: nat)
    requires |before| == w * h
  {
    && |current| == |before|
    && forall x: nat, y: nat :: x < w && y < h ==>
         At(w, x, y) < |before| && current[At(w, x, y)] == Under(before[At(w, x, y)], p, x, y)
  }

  lemma OneMore(current: seq<Pixel>, next: seq<Pixel>, before: seq<Pixel>, p: Plane, w: nat, h: nat, X: nat, Y: nat)
    requires |before| == w * h && X < w && Y < h && Blended(current, before, p, w, h, X, Y)
    requires At(w, X, Y) < |current| && next == current[At(w, X, Y) := Under(current[At(w, X, Y)], p, X, Y)]
    ensures Blended(next, before, p, w, h, X + 1, Y)
  {
    hide At, Under;
    ColumnsApart(w, h, X);
  }

  method Paint(image: array<Pixel>, w: nat, h: nat, p: Plane, x: nat, y: nat, pixel: Option<Pixel>, ghost before: seq<Pixel>)
    requires image.Length == w * h == |before| && x < w && y < h
    requires pixel == Shown(p, x, y) && Blended(image[..], before, p, w, h, x, y)
    modifies image
    ensures Blended(image[..], before, p, w, h, x + 1, y)
  {
    hide At, Shown, Blended, SrcOver;
    AtFits(w, h, x, y);
    ghost var current := image[..];
    if pixel.Some? {
      image[At(w, x, y)] := SrcOver(image[At(w, x, y)], pixel.value);
    }
    OneMore(current, image[..], before, p, w, h, x, y);
  }

  method BlitUnscaled(image: array<Pixel>, w: nat, h: nat, p: Plane)
    requires image.Length == w * h && !p.Empty() && p.Unscaled()
    modifies image
    ensures Composed(image[..], old(image[..]), p, w, h)
  {
    hide At, Blended, Composed, Fetch, Shown, Count, First;
    ghost var before := image[..];
    NothingAbove(before, p, w, h);
    var rows := Visible(p.y, p.height, h);
    for i := 0 to |rows|
      invariant Blended(image[..], before, p, w, h, 0, First(p.y) + i)
    {
      var y := rows[i].1;
      NothingLeft(image[..], before, p, w, h, y);
      var columns := Visible(p.x, p.width, w);
      for j := 0 to |columns|
        invariant Blended(image[..], before, p, w, h, First(p.x) + j, y)
      {
        var x := columns[j].1;
        UnscaledShown(p, w, h, i, j);
        Paint(image, w, h, p, x, y, Fetch(p, rows[i].0, columns[j].0), before);
      }
      NothingRight(image[..], before, p, w, h, y);
    }
    NothingBelow(image[..], before, p, w, h);
  }

  /** The pair at a place in the visible ones lies on the output, within the plane. */
  lemma PairOn(start: int, len: nat, size: nat, k: nat)
    requires k < Count(start, len, size)
    ensures First(start) + k < size && Within(First(start) + k, start, len)
  {}

  lemma UnscaledShown(p: Plane, w: nat, h: nat, i: nat, j: nat)
    requires !p.Empty() && p.Unscaled() && i < Count(p.y, p.height, h) && j < Count(p.x, p.width, w)
    ensures First(p.x) + j < w && First(p.y) + i < h && p.x <= First(p.x) + j && p.y <= First(p.y) + i
    ensures Shown(p, First(p.x) + j, First(p.y) + i) == Fetch(p, First(p.y) + i - p.y, First(p.x) + j - p.x)
  {
    hide Fetch;
    PairOn(p.y, p.height, h, i);
    PairOn(p.x, p.width, w, j);
  }

  method BlitScaled(image: array<Pixel>, w: nat, h: nat, p: Plane)
    requires image.Length == w * h && !p.Empty() && !p.Unscaled()
    modifies image
    ensures Composed(image[..], old(image[..]), p, w, h)
  {
    hide At, Blended, Composed, Mix, Shown, Count, First, TapsAt;
    ghost var before := image[..];
    NothingAbove(before, p, w, h);
    var columns := Visible(p.x, p.Wide(), w);
    var taps := seq(|columns|, j requires 0 <= j < |columns| => TapsAt(p.XAxis(), columns[j].1));
    var rows := Visible(p.y, p.High(), h);
    for i := 0 to |rows|
      invariant Blended(image[..], before, p, w, h, 0, First(p.y) + i)
    {
      var y := rows[i].1;
      NothingLeft(image[..], before, p, w, h, y);
      for j := 0 to |columns|
        invariant Blended(image[..], before, p, w, h, First(p.x) + j, y)
      {
        var x := columns[j].1;
        ScaledShown(p, w, h, i, j);
        Paint(image, w, h, p, x, y, Mix(p, TapsAt(p.YAxis(), y), taps[j]), before);
      }
      NothingRight(image[..], before, p, w, h, y);
    }
    NothingBelow(image[..], before, p, w, h);
  }

  lemma ScaledShown(p: Plane, w: nat, h: nat, i: nat, j: nat)
    requires !p.Empty() && !p.Unscaled() && i < Count(p.y, p.High(), h) && j < Count(p.x, p.Wide(), w)
    ensures First(p.x) + j < w && First(p.y) + i < h
    ensures Shown(p, First(p.x) + j, First(p.y) + i) == Mix(p, TapsAt(p.YAxis(), First(p.y) + i), TapsAt(p.XAxis(), First(p.x) + j))
  {
    hide Mix, TapsAt;
    PairOn(p.y, p.High(), h, i);
    PairOn(p.x, p.Wide(), w, j);
  }

  /** Blend a plane of any size over the image, where it lies on it. */
  method BlitPlane(image: array<Pixel>, w: nat, h: nat, p: Plane)
    requires image.Length == w * h
    modifies image
    ensures Composed(image[..], old(image[..]), p, w, h)
  {
    hide At, Mix, Fetch;
    if p.Empty() {
      PositionsFit(w, h);
      return;
    }
    if p.Unscaled() {
      BlitUnscaled(image, w, h, p);
    } else {
      BlitScaled(image, w, h, p);
    }
  }

  // ----- Every plane

  /** Put a plane above all those no higher. */
  function Insert(sorted: seq<Plane>, p: Plane): seq<Plane> {
    if sorted == [] || sorted[|sorted| - 1].zpos <= p.zpos then sorted + [p]
    else Insert(sorted[..|sorted| - 1], p) + [sorted[|sorted| - 1]]
  }

  /** Bottom up, keeping the order of planes at the same height. */
  function Stacked(planes: seq<Plane>): seq<Plane> {
    if planes == [] then [] else Insert(Stacked(planes[..|planes| - 1]), planes[|planes| - 1])
  }

  ghost predicate Ascending(s: seq<Plane>) {
    forall i, j :: 0 <= i < j < |s| ==> s[i].zpos <= s[j].zpos
  }

  /** The planes at one height, in order. */
  function AtZpos(s: seq<Plane>, z: int): seq<Plane> {
    if s == [] then []
    else if s[|s| - 1].zpos == z then AtZpos(s[..|s| - 1], z) + [s[|s| - 1]]
    else AtZpos(s[..|s| - 1], z)
  }

  lemma AtZposNext(s: seq<Plane>, p: Plane, z: int)
    ensures AtZpos(s + [p], z) == if p.zpos == z then AtZpos(s, z) + [p] else AtZpos(s, z)
  {
    assert (s + [p])[..|s|] == s;
  }

  lemma {:induction false} InsertStable(s: seq<Plane>, p: Plane, z: int)
    requires Ascending(s)
    ensures Ascending(Insert(s, p)) && (forall q :: q in Insert(s, p) ==> q == p || q in s)
    ensures AtZpos(Insert(s, p), z) == if p.zpos == z then AtZpos(s, z) + [p] else AtZpos(s, z)
  {
    hide AtZpos;
    if s == [] || s[|s| - 1].zpos <= p.zpos {
      AtZposNext(s, p, z);
    } else {
      var init, last := s[..|s| - 1], s[|s| - 1];
      assert s == init + [last];
      InsertStable(init, p, z);
      InsertedAscending(init, p, last);
      AtZposNext(Insert(init, p), last, z);
      AtZposNext(init, last, z);
    }
  }

  lemma InsertedAscending(init: seq<Plane>, p: Plane, last: Plane)
    requires Ascending(init + [last]) && p.zpos < last.zpos
    requires Ascending(Insert(init, p)) && forall q :: q in Insert(init, p) ==> q == p || q in init
    ensures Ascending(Insert(init, p) + [last])
  {
    hide Insert;
    forall q | q in init
      ensures q.zpos <= last.zpos
    {
      var i :| 0 <= i < |init| && init[i] == q;
      assert (init + [last])[i] == q && (init + [last])[|init|] == last;
    }
  }

  /** The stack is in ascending order, and the planes at every height are those given, in the order
      given. */
  lemma {:induction false} StackedStable(planes: seq<Plane>, z: int)
    ensures Ascending(Stacked(planes)) && AtZpos(Stacked(planes), z) == AtZpos(planes, z)
  {
    if planes != [] {
      StackedStable(planes[..|planes| - 1], z);
      InsertStable(Stacked(planes[..|planes| - 1]), planes[|planes| - 1], z);
    }
  }

  /** An output pixel under the lowest `n` planes of a stack, over nothing. */
  function Composite(stack: seq<Plane>, n: nat, x: nat, y: nat): Pixel
    requires n <= |stack|
  {
    if n == 0 then 0 else Under(Composite(stack, n - 1, x, y), stack[n - 1], x, y)
  }

  /** What becomes of a plane the kernel lists: it is gone when asked about, it shows nothing on this
      CRTC, its pixels cannot be mapped, or they can. */
  datatype Listed = Gone | Unbound | Unreadable | Readable(plane: Plane)

  /** The planes that can be read, in the order listed. */
  function ReadableOf(listed: seq<Listed>): seq<Plane> {
    if listed == [] then []
    else if listed[|listed| - 1].Readable? then ReadableOf(listed[..|listed| - 1]) + [listed[|listed| - 1].plane]
    else ReadableOf(listed[..|listed| - 1])
  }

  function UnboundIn(listed: seq<Listed>): nat {
    if listed == [] then 0 else UnboundIn(listed[..|listed| - 1]) + if listed[|listed| - 1].Unbound? then 1 else 0
  }

  /** Map every readable plane; one that cannot be read is skipped. */
  method CollectPlanes(listed: seq<Listed>) returns (frames: seq<Plane>, enumerated: nat, unbound: nat)
    ensures frames == ReadableOf(listed) && enumerated == |listed| && unbound == UnboundIn(listed)
    ensures forall p :: p in frames <==> Readable(p) in listed
  {
    frames, enumerated, unbound := [], |listed|, 0;
    for i := 0 to |listed|
      invariant frames == ReadableOf(listed[..i]) && unbound == UnboundIn(listed[..i])
      invariant forall p :: p in frames <==> Readable(p) in listed[..i]
    {
      assert listed[..i + 1] == listed[..i] + [listed[i]];
      match listed[i]
      case Gone =>
      case Unbound => unbound := unbound + 1;
      case Unreadable =>
      case Readable(plane) => frames := frames + [plane];
    }
    assert listed[..|listed|] == listed;
  }

  datatype Captured = NoMode | NothingReadable | Picture(pixels: array<Pixel>, width: nat, height: nat)

  /** Compose the planes that can be read, bottom up. */
  method Snapshot(mode: Option<(nat, nat)>, listed: seq<Listed>) returns (r: Captured)
    ensures r.NoMode? <==> mode.None?
    ensures r.NothingReadable? <==> mode.Some? && ReadableOf(listed) == []
    ensures r.Picture? ==>
      && fresh(r.pixels) && (r.width, r.height) == mode.value && r.pixels.Length == r.width * r.height
      && var stack := Stacked(ReadableOf(listed));
         ShowsStack(r.pixels[..], stack, |stack|, r.width, r.height)
  {
    hide At, Composed, Under, Stacked;
    if mode.None? {
      return NoMode;
    }
    var planes, _, _ := CollectPlanes(listed);
    if planes == [] {
      return NothingReadable;
    }
    var (w, h) := mode.value;
    var stack := Stacked(planes);
    var image := new Pixel[w * h](_ => 0);
    PositionsFit(w, h);
    for i := 0 to |stack|
      invariant ShowsStack(image[..], stack, i, w, h)
    {
      ghost var before := image[..];
      BlitPlane(image, w, h, stack[i]);
      OnePlaneMore(before, image[..], stack, i, w, h);
    }
    r := Picture(image, w, h);
  }

  /** Every output pixel is the planes' pixels there, blended bottom up. */
  ghost predicate ShowsStack(pixels: seq<Pixel>, stack: seq<Plane>, n: nat, w: nat, h: nat)
    requires n <= |stack|
  {
    forall x: nat, y: nat :: x < w && y < h ==> At(w, x, y) < |pixels| && pixels[At(w, x, y)] == Composite(stack, n, x, y)
  }

  lemma OnePlaneMore(before: seq<Pixel>, after: seq<Pixel>, stack: seq<Plane>, i: nat, w: nat, h: nat)
    requires i < |stack| && |before| == w * h && ShowsStack(before, stack, i, w, h) && Composed(after, before, stack[i], w, h)
    ensures ShowsStack(after, stack, i + 1, w, h)
  {
    hide At, Under;
  }

  /** Whatever the planes hold, no color of the picture is brighter than its alpha. */
  lemma {:induction false} CompositePremultiplied(stack: seq<Plane>, n: nat, x: nat, y: nat)
    requires n <= |stack|
    ensures Premultiplied(Composite(stack, n, x, y))
  {
    hide SrcOver, Shown;
    if n > 0 {
      CompositePremultiplied(stack, n - 1, x, y);
      if Shown(stack[n - 1], x, y).Some? {
        SrcOverPremultiplied(Composite(stack, n - 1, x, y), Shown(stack[n - 1], x, y).value);
      }
    }
  }

  /** A pixel that is opaque stays opaque under every plane above. */
  lemma {:induction false} CompositeOpaque(stack: seq<Plane>, m: nat, n: nat, x: nat, y: nat)
    requires m <= n <= |stack| && Alpha(Composite(stack, m, x, y)) == 255
    ensures Alpha(Composite(stack, n, x, y)) == 255
  {
    hide SrcOver, Shown;
    if m < n {
      CompositeOpaque(stack, m, n - 1, x, y);
      if Shown(stack[n - 1], x, y).Some? {
        SrcOverOpaque(Composite(stack, n - 1, x, y), Shown(stack[n - 1], x, y).value);
      }
    }
  }

  /** What lies below an opaque pixel makes no difference. */
  lemma {:induction false} OpaqueHides(a: seq<Plane>, b: seq<Plane>, above: seq<Plane>, p: Plane, x: nat, y: nat)
    requires Shown(p, x, y).Some? && Alpha(Shown(p, x, y).value) == 255
    ensures
      Composite(a + [p] + above, |a| + 1 + |above|, x, y) == Composite(b + [p] + above, |b| + 1 + |above|, x, y)
  {
    hide Shown, OverChannel, Pack, Premultiplied;
    if above == [] {
      assert a + [p] + above == a + [p] && b + [p] + above == b + [p];
    } else {
      var init := above[..|above| - 1];
      OpaqueHides(a, b, init, p, x, y);
      CompositePrefix(a + [p] + above, a + [p] + init, |a| + |above|, x, y);
      CompositePrefix(b + [p] + above, b + [p] + init, |b| + |above|, x, y);
    }
  }

  lemma {:induction false} CompositePrefix(s: seq<Plane>, t: seq<Plane>, n: nat, x: nat, y: nat)
    requires n <= |s| && n <= |t| && s[..n] == t[..n]
    ensures Composite(s, n, x, y) == Composite(t, n, x, y)
  {
    hide Under;
    if n > 0 {
      assert s[n - 1] == s[..n][n - 1] == t[..n][n - 1] == t[n - 1];
      assert s[..n - 1] == s[..n][..n - 1] == t[..n][..n - 1] == t[..n - 1];
      CompositePrefix(s, t, n - 1, x, y);
    }
  }
}
