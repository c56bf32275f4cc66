/** Where a cursor's plane goes so that its hotspot lies under the pointer. */
module Stage {
  import opened Grid
  import opened Pixels
  import opened Sprite
  import opened SpriteBlit

  const MAX: int := 0x7fff_ffff
  const MIN: int := -0x8000_0000

  /** A signed 32-bit coordinate. */
  type Coordinate = x: int | -0x8000_0000 <= x <= 0x7fff_ffff
  /** An unsigned 32-bit distance. */
  type Offset = x: nat | x <= 0xffff_ffff

  /** The coordinate an offset back, saturating; an offset too large to be signed is ignored. */
  function Back(coordinate: Coordinate, offset: Offset): Coordinate {
    if offset > MAX then coordinate
    else if coordinate - offset < MIN then MIN
    else coordinate - offset
  }

  /** How far one axis of a plane at `origin` hangs off the top or left, at most the hotspot. */
  function Overhang(origin: Coordinate, hotspot: Offset): Offset {
    if origin > 0 then 0 else Min(0 - origin, hotspot)
  }

  function EdgeShift(pointer: Coordinate, hotspot: Offset): Offset {
    Overhang(Back(pointer, hotspot), hotspot)
  }

  /** The hotspot really lands on the pointer. */
  predicate Anchored(pointer: Coordinate, hotspot: Offset) {
    hotspot <= MAX && pointer - hotspot >= MIN
  }

  /** Exactly when the hotspot is a signed number and the subtraction does not saturate. */
  lemma HotspotUnderPointerIff(pointer: Coordinate, hotspot: Offset)
    ensures Back(pointer, hotspot) + hotspot == pointer <==> Anchored(pointer, hotspot)
  {}

  /** A shifted plane starts at the edge or inside, unless the pointer itself is off it. */
  lemma ShiftedOriginOnScreenIff(pointer: Coordinate, hotspot: Offset)
    ensures EdgeShift(pointer, hotspot) <= hotspot
    ensures 0 <= Back(pointer, hotspot - EdgeShift(pointer, hotspot)) <==> 0 <= pointer
  {}

  /** The plane moves by as much as the pixels do, exactly when nothing saturates. */
  lemma OriginMovesByShiftIff(pointer: Coordinate, hotspot: Offset)
    ensures
      var shift := EdgeShift(pointer, hotspot);
      Back(pointer, hotspot - shift) == Back(pointer, hotspot) + shift <==>
        if hotspot <= MAX then pointer - hotspot >= MIN else pointer >= 0
  {}

  // ----- What the screen shows

  /** What a plane showing a `w` by `h` buffer with its corner at (ox, oy) puts at (X, Y) of the
      screen; nothing is transparent. */
  function ScreenAt(buffer: seq<Pixel>, w: nat, h: nat, stride: nat, ox: int, oy: int, X: nat, Y: nat): Pixel
    requires w <= stride && |buffer| >= h * stride
  {
    if 0 <= X - ox < w && 0 <= Y - oy < h then
      AtFits(stride, h, X - ox, Y - oy);
      buffer[At(stride, X - ox, Y - oy)]
    else 0
  }

  /** Shifting the pixels and moving the plane as far the other way changes nothing on screen. */
  lemma EdgeShiftKeepsScreen(before: seq<Pixel>, after: seq<Pixel>, w: nat, h: nat, stride: nat,
                             px: Coordinate, py: Coordinate, hx: Offset, hy: Offset, X: nat, Y: nat)
    requires w <= stride && |before| >= h * stride && Anchored(px, hx) && Anchored(py, hy)
    requires Shifted(after, before, w, h, stride, Min(EdgeShift(px, hx), w), Min(EdgeShift(py, hy), h))
    ensures
      ScreenAt(after, w, h, stride, Back(px, hx - EdgeShift(px, hx)), Back(py, hy - EdgeShift(py, hy)), X, Y)
      == ScreenAt(before, w, h, stride, Back(px, hx), Back(py, hy), X, Y)
  {
    hide At, InArea;
    var ox, oy := Back(px, hx), Back(py, hy);
    var sx, sy := EdgeShift(px, hx), EdgeShift(py, hy);
    OriginMovesByShiftIff(px, hx);
    OriginMovesByShiftIff(py, hy);
    var x, y := X - ox - sx, Y - oy - sy;
    if 0 <= x < w && 0 <= y < h {
      AtFits(stride, h, x, y);
      assert after[At(stride, x, y)] == ShiftedPixel(before, w, h, stride, Min(sx, w), Min(sy, h), x, y);
    }
  }

  /** The pixel under the pointer is the buffer's pixel at the hotspot. */
  lemma PointerShowsHotspot(buffer: seq<Pixel>, w: nat, h: nat, stride: nat, px: Coordinate, py: Coordinate, hx: Offset, hy: Offset)
    requires w <= stride && |buffer| >= h * stride && Anchored(px, hx) && Anchored(py, hy)
    requires px >= 0 && py >= 0 && hx < w && hy < h
    ensures At(stride, hx, hy) < |buffer|
    ensures ScreenAt(buffer, w, h, stride, Back(px, hx), Back(py, hy), px, py) == buffer[At(stride, hx, hy)]
  {
    AtFits(stride, h, hx, hy);
  }

  // ----- Turning in hardware

  /** The rotation asked of a plane: the wanted one if it advertises it, else none. */
  function HardwareRotation(wanted: Rotation, supported: set<Rotation>): Rotation {
    if wanted in supported then wanted else Upright
  }

  /** How the pixels are turned as they are drawn. */
  function DrawRotation(wanted: Rotation, supported: set<Rotation>): Rotation {
    if wanted in supported then Upright else wanted
  }

  /** The sprite is turned once: by one of the two, and by as much as was asked. */
  lemma TurnedOnce(wanted: Rotation, supported: set<Rotation>)
    ensures HardwareRotation(wanted, supported) == Upright || DrawRotation(wanted, supported) == Upright
    ensures wanted in {HardwareRotation(wanted, supported), DrawRotation(wanted, supported)}
  {}

  /** What a plane that turns its buffer by half puts at (X, Y) of the screen. */
  function HalfTurnedAt(buffer: seq<Pixel>, w: nat, h: nat, stride: nat, ox: int, oy: int, X: nat, Y: nat): Pixel
    requires w <= stride && |buffer| >= h * stride
  {
    if 0 <= X - ox < w && 0 <= Y - oy < h then
      AtFits(stride, h, w - 1 - (X - ox), h - 1 - (Y - oy));
      buffer[At(stride, w - 1 - (X - ox), h - 1 - (Y - oy))]
    else 0
  }

  /** A plane turned by half in hardware is still placed by the hotspot of the upright buffer: under
      the pointer lies the pixel opposite the hotspot. */
  lemma HalfTurnShowsOpposite(buffer: seq<Pixel>, w: nat, h: nat, stride: nat, px: Coordinate, py: Coordinate, hx: Offset, hy: Offset)
    requires w <= stride && |buffer| >= h * stride && Anchored(px, hx) && Anchored(py, hy)
    requires px >= 0 && py >= 0 && hx < w && hy < h
    ensures At(stride, w - 1 - hx, h - 1 - hy) < |buffer|
    ensures HalfTurnedAt(buffer, w, h, stride, Back(px, hx), Back(py, hy), px, py) == buffer[At(stride, w - 1 - hx, h - 1 - hy)]
  {
    AtFits(stride, h, w - 1 - hx, h - 1 - hy);
  }

  /** So the pixel under the pointer is the hotspot's, whatever the buffer holds, exactly when the
      hotspot is the middle of the buffer. */
  lemma HalfTurnMovesHotspotIff(w: nat, h: nat, stride: nat, px: Coordinate, py: Coordinate, hx: Offset, hy: Offset)
    requires w <= stride && Anchored(px, hx) && Anchored(py, hy)
    requires px >= 0 && py >= 0 && hx < w && hy < h
    ensures
      (forall buffer: seq<Pixel> :: |buffer| == h * stride ==>
         ShowsHotspotTurned(buffer, w, h, stride, px, py, hx, hy))
      <==> 2 * hx + 1 == w && 2 * hy + 1 == h
  {
    hide At, HalfTurnedAt;
    AtFits(stride, h, hx, hy);
    AtFits(stride, h, w - 1 - hx, h - 1 - hy);
    forall buffer: seq<Pixel> | |buffer| == h * stride
      ensures HalfTurnedAt(buffer, w, h, stride, Back(px, hx), Back(py, hy), px, py) == buffer[At(stride, w - 1 - hx, h - 1 - hy)]
    {
      HalfTurnShowsOpposite(buffer, w, h, stride, px, py, hx, hy);
    }
    if !(2 * hx + 1 == w && 2 * hy + 1 == h) {
      AtDistinct(stride, hx, hy, w - 1 - hx, h - 1 - hy);
      var buffer: seq<Pixel> := seq(h * stride, i requires 0 <= i < h * stride => if i == At(stride, hx, hy) then 1 else 0);
      assert !ShowsHotspotTurned(buffer, w, h, stride, px, py, hx, hy);
    }
  }

  /** The pixel under the pointer is the buffer's pixel at the hotspot. */
  ghost predicate ShowsHotspotTurned(buffer: seq<Pixel>, w: nat, h: nat, stride: nat, px: Coordinate, py: Coordinate, hx: Offset, hy: Offset)
    requires w <= stride && |buffer| >= h * stride && hx < w && hy < h && px >= 0 && py >= 0
  {
    AtFits(stride, h, hx, hy);
    HalfTurnedAt(buffer, w, h, stride, Back(px, hx), Back(py, hy), px, py) == buffer[At(stride, hx, hy)]
  }

  /** An arrow whose tip is near the top left of its buffer: the pixel shown under the pointer is
      one near the bottom right. */
  lemma HalfTurnExample(buffer: seq<Pixel>)
    requires |buffer| == 64 * 64
    ensures HalfTurnedAt(buffer, 64, 64, 64, Back(100, 3), Back(100, 5), 100, 100) == buffer[At(64, 60, 58)]
  {
    HalfTurnShowsOpposite(buffer, 64, 64, 64, 100, 100, 3, 5);
  }

  // ----- Quarter turns

  /** Which way a plane turns its buffer by a quarter. */
  datatype Turn = Clockwise | Counterclockwise

  /** The cell of a square buffer that a turned plane shows at (x, y). */
  function TurnedCell(turn: Turn, n: nat, x: nat, y: nat): (cell: (nat, nat))
    requires x < n && y < n
    ensures cell.0 < n && cell.1 < n
  {
    match turn
    case Clockwise => (y, n - 1 - x)
    case Counterclockwise => (n - 1 - y, x)
  }

  /** A plane that turns clockwise shows of a square frame what drawing it a quarter turned would, and one
      that turns the other way what drawing it three quarters turned would. */
  lemma TurnsAsDrawn(f: Frame, x: nat, y: nat)
    requires f.width == f.height && x < f.width && y < f.height
    ensures
      var cell := TurnedCell(Clockwise, f.width, x, y);
      PixelAt(f, cell.0, cell.1) == SampleRotated(f, Quarter, x, y)
    ensures
      var cell := TurnedCell(Counterclockwise, f.width, x, y);
      PixelAt(f, cell.0, cell.1) == SampleRotated(f, ThreeQuarter, x, y)
  {}

  /** What a plane that turns its square buffer by a quarter puts at (X, Y) of the screen. */
  function QuarterTurnedAt(turn: Turn, buffer: seq<Pixel>, n: nat, stride: nat, ox: int, oy: int, X: nat, Y: nat): Pixel
    requires n <= stride && |buffer| >= n * stride
  {
    if 0 <= X - ox < n && 0 <= Y - oy < n then
      var cell := TurnedCell(turn, n, X - ox, Y - oy);
      AtFits(stride, n, cell.0, cell.1);
      buffer[At(stride, cell.0, cell.1)]
    else 0
  }

  /** Under the pointer lies the pixel a quarter turn brings to where the upright hotspot is. */
  lemma QuarterTurnShows(turn: Turn, buffer: seq<Pixel>, n: nat, stride: nat, px: Coordinate, py: Coordinate, hx: Offset, hy: Offset)
    requires n <= stride && |buffer| >= n * stride && Anchored(px, hx) && Anchored(py, hy)
    requires px >= 0 && py >= 0 && hx < n && hy < n
    ensures
      var cell := TurnedCell(turn, n, hx, hy);
      && At(stride, cell.0, cell.1) < |buffer|
      && QuarterTurnedAt(turn, buffer, n, stride, Back(px, hx), Back(py, hy), px, py) == buffer[At(stride, cell.0, cell.1)]
  {
    hide At;
    var cell := TurnedCell(turn, n, hx, hy);
    AtFits(stride, n, cell.0, cell.1);
  }

  /** The pixel under the pointer is the buffer's pixel at the hotspot. */
  ghost predicate ShowsHotspotQuartered(turn: Turn, buffer: seq<Pixel>, n: nat, stride: nat, px: Coordinate, py: Coordinate, hx: Offset, hy: Offset)
    requires n <= stride && |buffer| >= n * stride && hx < n && hy < n && px >= 0 && py >= 0
  {
    AtFits(stride, n, hx, hy);
    QuarterTurnedAt(turn, buffer, n, stride, Back(px, hx), Back(py, hy), px, py) == buffer[At(stride, hx, hy)]
  }

  /** Whichever way it turns, that is the hotspot's pixel for every buffer exactly when the hotspot is
      the middle of the buffer. */
  lemma QuarterTurnMovesHotspotIff(turn: Turn, n: nat, stride: nat, px: Coordinate, py: Coordinate, hx: Offset, hy: Offset)
    requires n <= stride && Anchored(px, hx) && Anchored(py, hy)
    requires px >= 0 && py >= 0 && hx < n && hy < n
    ensures
      (forall buffer: seq<Pixel> :: |buffer| == n * stride ==>
         ShowsHotspotQuartered(turn, buffer, n, stride, px, py, hx, hy))
      <==> 2 * hx + 1 == n && 2 * hy + 1 == n
  {
    hide At, QuarterTurnedAt;
    var cell := TurnedCell(turn, n, hx, hy);
    AtFits(stride, n, hx, hy);
    AtFits(stride, n, cell.0, cell.1);
    forall buffer: seq<Pixel> | |buffer| == n * stride
      ensures QuarterTurnedAt(turn, buffer, n, stride, Back(px, hx), Back(py, hy), px, py) == buffer[At(stride, cell.0, cell.1)]
    {
      QuarterTurnShows(turn, buffer, n, stride, px, py, hx, hy);
    }
    if !(2 * hx + 1 == n && 2 * hy + 1 == n) {
      AtDistinct(stride, hx, hy, cell.0, cell.1);
      var buffer: seq<Pixel> := seq(n * stride, i requires 0 <= i < n * stride => if i == At(stride, hx, hy) then 1 else 0);
      assert !ShowsHotspotQuartered(turn, buffer, n, stride, px, py, hx, hy);
    }
  }
}
