/** A cursor on a plane: drawn into the buffer that is not on screen, and placed so its hotspot
    lies under the pointer. */
module Renderers {
  import opened Animation
  import opened Fourcc
  import opened Grid
  import opened Options
  import opened PingPongs
  import opened Pixels
  import opened Sprite
  import opened SpriteBlit
  import opened Stage

  /** The channel orders a cursor plane takes. */
  datatype Format = Argb | Rgba | Abgr | Bgra

  /** A pixel in the plane's channel order. */
  function InOrder(p: Pixel, format: Format): Pixel {
    var a, r, g, b := Channel(p, 3), Channel(p, 2), Channel(p, 1), Channel(p, 0);
    match format
    case Argb => p
    case Rgba => Pack(r, g, b, a)
    case Abgr => Pack(a, b, g, r)
    case Bgra => Pack(b, g, r, a)
  }

  /** A format by its channels, from the top of a word. */
  function NameOf(format: Format): Name {
    match format
    case Argb => "ARGB"
    case Rgba => "RGBA"
    case Abgr => "ABGR"
    case Bgra => "BGRA"
  }

  /** A plane that reads a reordered word by its format's name sees the pixel, and nothing else reads
      as that. */
  lemma InOrderIsSeen(p: Pixel, word: Pixel, format: Format)
    ensures Seen(word, NameOf(format)) == p <==> word == InOrder(p, format)
  {
    hide Pack, Channel;
    PixelIsChannels(p);
    PixelIsChannels(word);
  }

  lemma ClearIsSeen(format: Format)
    ensures Seen(0, NameOf(format)) == 0
  {}

  /** The frame drawn for an index: the first, for one past the end. */
  function FrameOf(c: Cursor, index: nat): Frame {
    if index < |c.frames| then c.frames[index] else c.frames[0]
  }

  /** Pixel (x, y) of a buffer holding a sprite moved up and left. */
  function DrawnPixel(f: Frame, r: Rotation, size: nat, sx: nat, sy: nat, x: nat, y: nat): Pixel
    requires size > 0
  {
    if x + sx < size && y + sy < size then ComposedPixel(f, r, size, size, x + sx, y + sy) else 0
  }

  /** A buffer holds a sprite: what a plane of this format sees in it is the sprite's pixels. */
  ghost predicate Holds(words: seq<Pixel>, f: Frame, r: Rotation, size: nat, stride: nat, sx: nat, sy: nat, format: Format)
    requires size > 0
  {
    forall x: nat, y: nat :: x < size && y < size ==>
      At(stride, x, y) < |words| && Seen(words[At(stride, x, y)], NameOf(format)) == DrawnPixel(f, r, size, sx, sy, x, y)
  }

  /** What the plane is given: the buffer, unless it is hidden, where it goes on the CRTC, which part
      of it in 16.16, how it is turned and stacked, and the hotspot once there is one. */
  datatype PlaneState = PlaneState(buffer: Option<nat>, x: Coordinate, y: Coordinate, width: nat, height: nat,
                                   srcX: nat, srcY: nat, srcWidth: nat, srcHeight: nat,
                                   rotation: Rotation, hotspot: Option<(nat, nat)>, zpos: Option<nat>)

  /** The plane shows all of a buffer, one screen pixel for each of its own. */
  predicate Unscaled(s: PlaneState, size: nat) {
    && s.width == s.height == size && s.srcX == s.srcY == 0
    && s.srcWidth == s.width * 0x1_0000 && s.srcHeight == s.height * 0x1_0000
  }

  /** What a cursor should put at (X, Y) of the screen: the sprite, its hotspot under the pointer. */
  function CursorAt(f: Frame, r: Rotation, size: nat, px: Coordinate, py: Coordinate, X: nat, Y: nat): Pixel
    requires size > 0
  {
    var p := PlacementOf(f, r, size, size);
    var x, y := X - Back(px, p.hotspotX), Y - Back(py, p.hotspotY);
    if 0 <= x < size && 0 <= y < size then ComposedPixel(f, r, size, size, x, y) else 0
  }

  /** The sprite turned by half in place, in a buffer at (ox, oy). */
  function TurnedCursorAt(f: Frame, size: nat, ox: Coordinate, oy: Coordinate, X: nat, Y: nat): Pixel
    requires size > 0
  {
    if 0 <= X - ox < size && 0 <= Y - oy < size then
      ComposedPixel(f, Upright, size, size, size - 1 - (X - ox), size - 1 - (Y - oy))
    else 0
  }

  lemma HeldIsTurned(words: seq<Pixel>, f: Frame, size: nat, stride: nat, ox: Coordinate, oy: Coordinate, format: Format, X: nat, Y: nat)
    requires 0 < size <= stride && |words| == size * stride && Holds(words, f, Upright, size, stride, 0, 0, format)
    ensures Seen(HalfTurnedAt(words, size, size, stride, ox, oy, X, Y), NameOf(format)) == TurnedCursorAt(f, size, ox, oy, X, Y)
  {
    hide At, ComposedPixel, Seen;
    ClearIsSeen(format);
    var x, y := size - 1 - (X - ox), size - 1 - (Y - oy);
    if 0 <= x < size && 0 <= y < size {
      assert Seen(words[At(stride, x, y)], NameOf(format)) == DrawnPixel(f, Upright, size, 0, 0, x, y);
    }
  }

  /** The sprite turned by a quarter in place, in a buffer at (ox, oy). */
  function QuarteredCursorAt(turn: Turn, f: Frame, size: nat, ox: Coordinate, oy: Coordinate, X: nat, Y: nat): Pixel
    requires size > 0
  {
    if 0 <= X - ox < size && 0 <= Y - oy < size then
      var cell := TurnedCell(turn, size, X - ox, Y - oy);
      ComposedPixel(f, Upright, size, size, cell.0, cell.1)
    else 0
  }

  lemma HeldIsQuartered(turn: Turn, words: seq<Pixel>, f: Frame, size: nat, stride: nat, ox: Coordinate, oy: Coordinate, format: Format, X: nat, Y: nat)
    requires 0 < size <= stride && |words| == size * stride && Holds(words, f, Upright, size, stride, 0, 0, format)
    ensures Seen(QuarterTurnedAt(turn, words, size, stride, ox, oy, X, Y), NameOf(format)) == QuarteredCursorAt(turn, f, size, ox, oy, X, Y)
  {
    hide At, ComposedPixel, Seen;
    ClearIsSeen(format);
    if 0 <= X - ox < size && 0 <= Y - oy < size {
      var cell := TurnedCell(turn, size, X - ox, Y - oy);
      assert Seen(words[At(stride, cell.0, cell.1)], NameOf(format)) == DrawnPixel(f, Upright, size, 0, 0, cell.0, cell.1);
    }
  }

  class Renderer {
    const size: nat
    const stride: nat
    const format: Format
    const supported: set<Rotation>
    /** Where the plane is stacked, if that can be set. */
    const zpos: Option<nat>
    const first: array<Pixel>
    const second: array<Pixel>
    const which: PingPong
    var cursor: Option<Cursor>
    var placement: Option<Placement>
    var shiftX: Offset
    var shiftY: Offset
    var drawnFrame: Option<nat>
    var x: Coordinate
    var y: Coordinate
    var visible: bool
    var rotation: Rotation
    /** The buffer the plane is reading. */
    ghost var scanout: Option<nat>

    constructor (size: nat, stride: nat, format: Format, supported: set<Rotation>, zpos: Option<nat>, rotation: Rotation)
      requires 0 < size <= 0xffff_ffff && size <= stride
      ensures Valid() && cursor == None && scanout == None && fresh(first) && fresh(second) && fresh(which)
    {
      this.size, this.stride, this.format, this.supported, this.zpos, this.rotation := size, stride, format, supported, zpos, rotation;
      first := new Pixel[size * stride](_ => 0);
      second := new Pixel[size * stride](_ => 0);
      which := new PingPong(false);
      cursor, placement, drawnFrame, scanout := None, None, None, None;
      shiftX, shiftY, x, y, visible := 0, 0, 0, 0, true;
    }

    function Buffer(i: nat): array<Pixel> {
      if i == 0 then first else second
    }

    function Drawing(): Rotation
      reads this
    {
      DrawRotation(rotation, supported)
    }

    /** The plane turns the buffer as it shows it, so nothing is shifted at the edge. */
    predicate TurnedByHardware()
      reads this
    {
      rotation in supported && rotation != Upright
    }

    /** Two buffers, one of which the plane may be reading: the live one. */
    ghost predicate Ready()
      reads this, which
    {
      && 0 < size <= 0xffff_ffff && size <= stride
      && first.Length == size * stride && second.Length == size * stride && first != second
      && which.State().Valid() && !which.single
      && (scanout.Some? ==> scanout.value == which.active)
    }

    function ShiftFor(p: Placement): (Offset, Offset)
      requires p.hotspotX <= 0xffff_ffff && p.hotspotY <= 0xffff_ffff
      reads this
    {
      if TurnedByHardware() then (0, 0) else (EdgeShift(x, p.hotspotX), EdgeShift(y, p.hotspotY))
    }

    /** The buffer the next commit shows holds the frame last drawn. */
    ghost predicate Current()
      requires Ready()
      reads this, which, first, second
    {
      && drawnFrame.Some? == placement.Some? == cursor.Some?
      && (drawnFrame.Some? ==>
            var f := FrameOf(cursor.value, drawnFrame.value);
            && placement.value == PlacementOf(f, Drawing(), size, size)
            && placement.value.hotspotX <= 0xffff_ffff && placement.value.hotspotY <= 0xffff_ffff
            && shiftX <= placement.value.hotspotX && shiftY <= placement.value.hotspotY
            && Holds(Buffer(which.State().CommitTarget())[..], f, Drawing(), size, stride, shiftX, shiftY, format))
    }

    ghost predicate Valid()
      reads this, which, first, second
    {
      Ready() && Current()
    }

    /** The sprite is shifted as the pointer's position wants. */
    ghost predicate UpToDate()
      requires Valid()
      reads this, which, first, second
    {
      placement.Some? ==> (shiftX, shiftY) == ShiftFor(placement.value)
    }

    /** What staging writes. */
    ghost function Staged(): PlaneState
      requires Valid()
      reads this, which, first, second
    {
      var hotspot := if placement.Some? then Some((placement.value.hotspotX - shiftX, placement.value.hotspotY - shiftY)) else None;
      var hot := if hotspot.Some? then hotspot.value else (0, 0);
      PlaneState(if visible then Some(which.State().CommitTarget()) else None, Back(x, hot.0), Back(y, hot.1), size, size,
                 0, 0, size * 0x1_0000, size * 0x1_0000, HardwareRotation(rotation, supported), hotspot, zpos)
    }

    /** Draw a frame into the buffer that is not on screen; without a cursor there is none to draw. */
    method Draw(index: nat)
      requires Ready()
      modifies this`placement, this`shiftX, this`shiftY, this`drawnFrame, which, Buffer(which.State().DrawTarget())
      ensures Ready()
      ensures cursor.Some? ==> Valid() && UpToDate() && drawnFrame == Some(index) && which.State() == old(which.State().Drawn())
      ensures cursor.None? ==>
        && placement == old(placement) && shiftX == old(shiftX) && shiftY == old(shiftY) && drawnFrame == old(drawnFrame)
        && which.State() == old(which.State()) && unchanged(first, second)
      ensures scanout.Some? ==> old(which.State().DrawTarget()) != scanout.value
    {
      hide Holds, PlacementOf, Back, EdgeShift, Anchored, Staged;
      if cursor.None? {
        return;
      }
      var frame := FrameOf(cursor.value, index);
      var target := which.DrawTarget();
      var placed, sx, sy := Paint(frame, Drawing(), Buffer(target), size, stride, format, x, y, !TurnedByHardware());
      placement, shiftX, shiftY, drawnFrame := Some(placed), sx, sy, Some(index);
      which.MarkDrawn();
    }

    /** Take another cursor, whose first frame is drawn at once. */
    method SetCursor(c: Cursor)
      requires Valid()
      modifies this`cursor, this`placement, this`shiftX, this`shiftY, this`drawnFrame, which, Buffer(which.State().DrawTarget())
      ensures Valid() && UpToDate() && cursor == Some(c) && drawnFrame == Some(0)
      ensures which.State() == old(which.State().Drawn())
    {
      cursor, drawnFrame := Some(c), None;
      Draw(0);
    }

    /** Turn the cursor, redrawing it. */
    method SetRotation(r: Rotation)
      requires Valid()
      modifies this`rotation, this`placement, this`shiftX, this`shiftY, this`drawnFrame, which, Buffer(which.State().DrawTarget())
      ensures Valid() && rotation == r && drawnFrame == old(drawnFrame)
      ensures drawnFrame.Some? ==> UpToDate() && which.State() == old(which.State().Drawn())
      ensures drawnFrame.None? ==> which.State() == old(which.State())
    {
      rotation := r;
      if drawnFrame.Some? {
        Draw(drawnFrame.value);
      }
    }

    method MoveTo(toX: Coordinate, toY: Coordinate)
      requires Valid()
      modifies this`x, this`y
      ensures Valid() && x == toX && y == toY
    {
      x, y := toX, toY;
    }

    method SetVisible(show: bool)
      requires Valid()
      modifies this`visible
      ensures Valid() && visible == show
    {
      visible := show;
    }

    /** Redraw the sprite if the pointer's position wants it shifted otherwise. */
    method Prepare() returns (changed: bool)
      requires Valid()
      modifies this`placement, this`shiftX, this`shiftY, this`drawnFrame, which, Buffer(which.State().DrawTarget())
      ensures Valid() && UpToDate() && drawnFrame == old(drawnFrame) && placement == old(placement)
      ensures changed <==> !old(UpToDate())
      ensures which.State() == if changed then old(which.State().Drawn()) else old(which.State())
    {
      if drawnFrame.None? {
        return false;
      }
      var wanted := ShiftFor(placement.value);
      if wanted == (shiftX, shiftY) {
        return false;
      }
      Draw(drawnFrame.value);
      changed := true;
    }

    /** Draw the frame due, if it is not the one drawn. */
    method Tick(elapsed: nat) returns (changed: bool)
      requires Valid()
      modifies this`placement, this`shiftX, this`shiftY, this`drawnFrame, which, Buffer(which.State().DrawTarget())
      ensures Valid()
      ensures cursor.Some? && cursor.value.IsAnimated() ==>
        drawnFrame.Some? && Covers(cursor.value, drawnFrame.value, Into(cursor.value, elapsed))
      ensures !changed ==> drawnFrame == old(drawnFrame) && which.State() == old(which.State())
      ensures changed ==> UpToDate() && which.State() == old(which.State().Drawn()) && drawnFrame != old(drawnFrame)
    {
      if cursor.None? || !cursor.value.IsAnimated() {
        return false;
      }
      var wanted := FrameIndexAt(cursor.value, elapsed);
      if drawnFrame == Some(wanted) {
        return false;
      }
      Draw(wanted);
      changed := true;
    }

    /** What the plane should be given, for a caller with its own commit. */
    method StageInto() returns (state: PlaneState)
      requires Valid()
      ensures state == Staged()
    {
      var target := which.CommitTarget();
      var hotspot: Option<(nat, nat)> := None;
      var hotX, hotY := 0, 0;
      if placement.Some? {
        hotX, hotY := placement.value.hotspotX - shiftX, placement.value.hotspotY - shiftY;
        hotspot := Some((hotX, hotY));
      }
      state := PlaneState(if visible then Some(target) else None, Back(x, hotX), Back(y, hotY), size, size,
                          0, 0, size * 0x1_0000, size * 0x1_0000, HardwareRotation(rotation, supported), hotspot, zpos);
    }

    /** A commit carrying what was staged landed. The plane and the pair are in step exactly when the
        buffer staged is the one that would be staged now, or none: so whatever was moved or hidden
        since, but not when a first picture was drawn since. */
    method Published(ghost landed: PlaneState)
      requires Valid()
      modifies this`scanout, which
      ensures scanout == landed.buffer && which.State() == old(which.State().Published())
      ensures Valid() <==> landed.buffer.None? || landed.buffer.value == old(which.State().CommitTarget())
      ensures Valid() ==> UpToDate() == old(UpToDate())
    {
      scanout := landed.buffer;
      which.Published();
    }

    /** Stage and commit; the kernel may refuse. What it took is what the screen shows. */
    method Commit(accepts: bool) returns (landed: Option<PlaneState>)
      requires Valid()
      modifies this`placement, this`shiftX, this`shiftY, this`drawnFrame, this`scanout, which, Buffer(which.State().DrawTarget())
      ensures Valid() && UpToDate() && drawnFrame == old(drawnFrame) && placement == old(placement)
      ensures landed.Some? <==> accepts
      ensures accepts ==> scanout == landed.value.buffer && (scanout.Some? <==> visible)
      ensures accepts ==> landed.value.rotation == HardwareRotation(rotation, supported) && Unscaled(landed.value, size)
      ensures !accepts ==> scanout == old(scanout) && which.active == old(which.active)
      ensures accepts && visible && cursor.Some? ==>
        match landed.value.rotation
        case Upright => Anchored(x, placement.value.hotspotX) && Anchored(y, placement.value.hotspotY) ==> ShowsCursor(landed.value)
        case Half => ShowsTurned(landed.value)
        case _ => ShowsQuartered(landed.value)
    {
      hide Seen, Holds, ScreenAt, CursorAt, HalfTurnedAt, TurnedCursorAt, QuarterTurnedAt, QuarteredCursorAt, PlacementOf, Anchored, Back, EdgeShift;
      var _ := Prepare();
      var state := StageInto();
      if !accepts {
        return None;
      }
      StagedShowsCursor();
      StagedShowsTurned();
      Published(state);
      landed := Some(state);
    }

    /** The plane puts on screen the frame last drawn, its hotspot under the pointer. */
    ghost predicate ShowsCursor(state: PlaneState)
      requires Valid() && drawnFrame.Some?
      reads this, which, first, second
    {
      && state.buffer.Some?
      && forall X: nat, Y: nat ::
           Seen(ScreenAt(Buffer(state.buffer.value)[..], size, size, stride, state.x, state.y, X, Y), NameOf(format))
           == CursorAt(FrameOf(cursor.value, drawnFrame.value), Drawing(), size, x, y, X, Y)
    }

    /** A plane that turns its buffer by half puts on screen the upright frame last drawn, turned by
        half where it lies, placed by its upright hotspot. */
    ghost predicate ShowsTurned(state: PlaneState)
      requires Valid() && drawnFrame.Some?
      reads this, which, first, second
    {
      && state.buffer.Some?
      && state.x == Back(x, placement.value.hotspotX) && state.y == Back(y, placement.value.hotspotY)
      && forall X: nat, Y: nat ::
           Seen(HalfTurnedAt(Buffer(state.buffer.value)[..], size, size, stride, state.x, state.y, X, Y), NameOf(format))
           == TurnedCursorAt(FrameOf(cursor.value, drawnFrame.value), size, state.x, state.y, X, Y)
    }

    /** A plane that turns its buffer by a quarter, either way, does the same with a quarter turn. */
    ghost predicate ShowsQuartered(state: PlaneState)
      requires Valid() && drawnFrame.Some?
      reads this, which, first, second
    {
      && state.buffer.Some?
      && state.x == Back(x, placement.value.hotspotX) && state.y == Back(y, placement.value.hotspotY)
      && forall turn: Turn, X: nat, Y: nat ::
           Seen(QuarterTurnedAt(turn, Buffer(state.buffer.value)[..], size, stride, state.x, state.y, X, Y), NameOf(format))
           == QuarteredCursorAt(turn, FrameOf(cursor.value, drawnFrame.value), size, state.x, state.y, X, Y)
    }

    lemma StagedShowsTurned()
      requires Valid() && UpToDate()
      ensures visible && drawnFrame.Some? && TurnedByHardware() ==> ShowsTurned(Staged()) && ShowsQuartered(Staged())
    {
      hide Seen, Holds, HalfTurnedAt, TurnedCursorAt, QuarterTurnedAt, QuarteredCursorAt, PlacementOf;
      if visible && drawnFrame.Some? && TurnedByHardware() {
        var f := FrameOf(cursor.value, drawnFrame.value);
        forall turn: Turn, X: nat, Y: nat
          ensures
            Seen(QuarterTurnedAt(turn, Buffer(Staged().buffer.value)[..], size, stride, Staged().x, Staged().y, X, Y), NameOf(format))
            == QuarteredCursorAt(turn, f, size, Staged().x, Staged().y, X, Y)
        {
          HeldIsQuartered(turn, Buffer(Staged().buffer.value)[..], f, size, stride, Staged().x, Staged().y, format, X, Y);
        }
        forall X: nat, Y: nat
          ensures
            Seen(HalfTurnedAt(Buffer(Staged().buffer.value)[..], size, size, stride, Staged().x, Staged().y, X, Y), NameOf(format))
            == TurnedCursorAt(f, size, Staged().x, Staged().y, X, Y)
        {
          HeldIsTurned(Buffer(Staged().buffer.value)[..], f, size, stride, Staged().x, Staged().y, format, X, Y);
        }
      }
    }

    lemma StagedShowsCursor()
      requires Valid() && UpToDate()
      ensures visible && drawnFrame.Some? && !TurnedByHardware() && Anchored(x, placement.value.hotspotX) && Anchored(y, placement.value.hotspotY) ==>
        ShowsCursor(Staged())
    {
      hide Seen, Holds, ScreenAt, CursorAt, PlacementOf;
      if visible && drawnFrame.Some? && !TurnedByHardware() && Anchored(x, placement.value.hotspotX) && Anchored(y, placement.value.hotspotY) {
        forall X: nat, Y: nat
          ensures
            Seen(ScreenAt(Buffer(Staged().buffer.value)[..], size, size, stride, Staged().x, Staged().y, X, Y), NameOf(format))
            == CursorAt(FrameOf(cursor.value, drawnFrame.value), Drawing(), size, x, y, X, Y)
        {
          HeldIsShown(Buffer(Staged().buffer.value)[..], FrameOf(cursor.value, drawnFrame.value), Drawing(), size, stride, x, y, format, X, Y);
        }
      }
    }
  }

  lemma HotspotIsOffset(f: Frame, r: Rotation, size: nat)
    requires size > 0
    ensures PlacementOf(f, r, size, size).hotspotX <= 0xffff_ffff && PlacementOf(f, r, size, size).hotspotY <= 0xffff_ffff
  {
    hide PlaceHotspot, ScaleHotspot;
  }

  lemma ShiftWithinHotspot(x: Coordinate, y: Coordinate, p: Placement)
    requires p.hotspotX <= 0xffff_ffff && p.hotspotY <= 0xffff_ffff
    ensures EdgeShift(x, p.hotspotX) <= p.hotspotX && EdgeShift(y, p.hotspotY) <= p.hotspotY
  {
    ShiftedOriginOnScreenIff(x, p.hotspotX);
    ShiftedOriginOnScreenIff(y, p.hotspotY);
  }

  /** Compose a frame in a scratch buffer, shift it to suit the pointer, and copy it out. */
  method Paint(f: Frame, r: Rotation, buffer: array<Pixel>, size: nat, stride: nat, format: Format, x: Coordinate, y: Coordinate, shifts: bool)
    returns (placed: Placement, sx: Offset, sy: Offset)
    requires 0 < size <= stride && buffer.Length == size * stride
    modifies buffer
    ensures placed == PlacementOf(f, r, size, size) && placed.hotspotX <= 0xffff_ffff && placed.hotspotY <= 0xffff_ffff
    ensures (sx, sy) == if shifts then (EdgeShift(x, placed.hotspotX), EdgeShift(y, placed.hotspotY)) else (0, 0)
    ensures sx <= placed.hotspotX && sy <= placed.hotspotY
    ensures Holds(buffer[..], f, r, size, stride, sx, sy, format)
  {
    hide Holds, At, PlacementOf, Shows, Shifted, Back, EdgeShift, InOrder;
    var scratch := new Pixel[size * stride](_ => 0);
    placed := Compose(f, r, scratch, size, size, stride);
    ghost var composed := scratch[..];
    HotspotIsOffset(f, r, size);
    ShiftWithinHotspot(x, y, placed);
    sx, sy := 0, 0;
    if shifts {
      sx, sy := EdgeShift(x, placed.hotspotX), EdgeShift(y, placed.hotspotY);
    }
    ShiftUpLeft(scratch, size, size, stride, sx, sy);
    CopyInOrder(scratch, buffer, size, stride, format);
    ScratchHolds(composed, scratch[..], buffer[..], f, r, size, stride, sx, sy, format);
  }

  /** Copy the visible part of a scratch buffer, in the plane's channel order. */
  method CopyInOrder(scratch: array<Pixel>, buffer: array<Pixel>, size: nat, stride: nat, format: Format)
    requires size <= stride && scratch.Length == size * stride && buffer.Length == size * stride && scratch != buffer
    modifies buffer
    ensures forall x: nat, y: nat :: x < size && y < size ==>
      At(stride, x, y) < buffer.Length && buffer[At(stride, x, y)] == InOrder(scratch[At(stride, x, y)], format)
  {
    hide At, InOrder;
    PositionsFit(stride, size);
    for y := 0 to size
      invariant forall x: nat, y': nat :: x < size && y' < y ==> buffer[At(stride, x, y')] == InOrder(scratch[At(stride, x, y')], format)
    {
      for x := 0 to size
        invariant forall x': nat, y': nat :: x' < size && (y' < y || (y' == y && x' < x)) ==>
          buffer[At(stride, x', y')] == InOrder(scratch[At(stride, x', y')], format)
      {
        ColumnsApart(stride, size, x);
        buffer[At(stride, x, y)] := InOrder(scratch[At(stride, x, y)], format);
      }
    }
  }

  lemma ScratchHolds(composed: seq<Pixel>, shifted: seq<Pixel>, buffer: seq<Pixel>, f: Frame, r: Rotation, size: nat, stride: nat, sx: nat, sy: nat, format: Format)
    requires size > 0 && size <= stride && |composed| == |shifted| == |buffer| == size * stride
    requires exists before: seq<Pixel> :: Shows(composed, before, f, r, size, size, stride)
    requires Shifted(shifted, composed, size, size, stride, Min(sx, size), Min(sy, size))
    requires forall x: nat, y: nat :: x < size && y < size ==>
      At(stride, x, y) < |buffer| && buffer[At(stride, x, y)] == InOrder(shifted[At(stride, x, y)], format)
    ensures Holds(buffer, f, r, size, stride, sx, sy, format)
  {
    hide At, InArea, InOrder, Seen, ComposedPixel;
    var before: seq<Pixel> :| Shows(composed, before, f, r, size, size, stride);
    forall x: nat, y: nat | x < size && y < size
      ensures At(stride, x, y) < |buffer| && Seen(buffer[At(stride, x, y)], NameOf(format)) == DrawnPixel(f, r, size, sx, sy, x, y)
    {
      InOrderIsSeen(shifted[At(stride, x, y)], buffer[At(stride, x, y)], format);
      assert shifted[At(stride, x, y)] == ShiftedPixel(composed, size, size, stride, Min(sx, size), Min(sy, size), x, y);
    }
  }

  /** A shifted sprite on a plane moved as far the other way shows the sprite where it belongs. */
  lemma HeldIsShown(words: seq<Pixel>, f: Frame, r: Rotation, size: nat, stride: nat, px: Coordinate, py: Coordinate, format: Format, X: nat, Y: nat)
    requires 0 < size <= stride && |words| == size * stride
    requires PlacementOf(f, r, size, size).hotspotX <= 0xffff_ffff && PlacementOf(f, r, size, size).hotspotY <= 0xffff_ffff
    requires
      var p := PlacementOf(f, r, size, size);
      && Anchored(px, p.hotspotX) && Anchored(py, p.hotspotY)
      && Holds(words, f, r, size, stride, EdgeShift(px, p.hotspotX), EdgeShift(py, p.hotspotY), format)
    ensures
      var p := PlacementOf(f, r, size, size);
      Seen(ScreenAt(words, size, size, stride, Back(px, p.hotspotX - EdgeShift(px, p.hotspotX)), Back(py, p.hotspotY - EdgeShift(py, p.hotspotY)), X, Y),
           NameOf(format))
      == CursorAt(f, r, size, px, py, X, Y)
  {
    hide Back, EdgeShift, PlacementOf, ComposedPixel, Seen, Holds, ScreenAt;
    var p := PlacementOf(f, r, size, size);
    OriginMoves(px, p.hotspotX);
    OriginMoves(py, p.hotspotY);
    HeldAt(words, f, r, size, stride, EdgeShift(px, p.hotspotX), EdgeShift(py, p.hotspotY), Back(px, p.hotspotX), Back(py, p.hotspotY), format, X, Y);
  }

  lemma OriginMoves(pointer: Coordinate, hotspot: Offset)
    requires Anchored(pointer, hotspot)
    ensures
      var shift := EdgeShift(pointer, hotspot);
      && shift <= hotspot
      && Back(pointer, hotspot - shift) == Back(pointer, hotspot) + shift
      && (shift == 0 || Back(pointer, hotspot) + shift <= 0)
  {}

  lemma HeldAt(words: seq<Pixel>, f: Frame, r: Rotation, size: nat, stride: nat, sx: nat, sy: nat, ox: int, oy: int, format: Format, X: nat, Y: nat)
    requires 0 < size <= stride && |words| == size * stride && Holds(words, f, r, size, stride, sx, sy, format)
    requires (sx == 0 || ox + sx <= 0) && (sy == 0 || oy + sy <= 0)
    ensures
      Seen(ScreenAt(words, size, size, stride, ox + sx, oy + sy, X, Y), NameOf(format))
      == if 0 <= X - ox < size && 0 <= Y - oy < size then ComposedPixel(f, r, size, size, X - ox, Y - oy) else 0
  {
    hide At, ComposedPixel, Seen;
    ClearIsSeen(format);
    var x, y := X - ox - sx, Y - oy - sy;
    if 0 <= x < size && 0 <= y < size {
      assert Seen(words[At(stride, x, y)], NameOf(format)) == DrawnPixel(f, r, size, sx, sy, x, y);
    }
  }

  /** So the pixel under the pointer is the frame's own hotspot pixel, when the sprite fits its
      buffer and the hotspot lies in the frame. */
  lemma PointerShowsFrameHotspot(f: Frame, r: Rotation, size: nat, px: Coordinate, py: Coordinate)
    requires 0 < size <= 0x7fff_ffff && px >= 0 && py >= 0
    requires !Shrinks(f, r, size, size) && f.xhot < f.width && f.yhot < f.height
    ensures CursorAt(f, r, size, px, py, px, py) == PixelAt(f, f.xhot, f.yhot)
  {
    hide At, ComposedPixel, PlacementOf;
    HotspotPixel(f, r, size, size);
  }
}
