/** How little of a canvas has to be redrawn between two frames of decorations. */
module Damage {

  const I32_MAX: int := 0x7fff_ffff
  const I32_MIN: int := -0x8000_0000

  type I32 = x: int | I32_MIN <= x <= I32_MAX
  type U32 = x: nat | x <= 0xffff_ffff

  function Clamp32(x: int): (r: I32) {
    if x < I32_MIN then I32_MIN else if x > I32_MAX then I32_MAX else x
  }

  /** A position plus a length, the length capped and the sum saturating, as 32-bit code does it. */
  function Edge(at: I32, length: U32): (r: I32) {
    Clamp32(at + if length > I32_MAX then I32_MAX else length)
  }

  /** Where a decoration lies in a frame, and which of its pictures it shows. */
  datatype Slot = Slot(armed: bool, x: I32, y: I32, w: U32, h: U32, generation: nat)

  datatype Rect = Rect(x: I32, y: I32, w: U32, h: U32) {
    predicate IsEmpty() {
      w == 0 || h == 0
    }
  }

  const Nothing: Rect := Rect(0, 0, 0, 0)

  predicate InRect(r: Rect, x: int, y: int) {
    r.x <= x < r.x + r.w && r.y <= y < r.y + r.h
  }

  /** The most pixels across of which a 32-bit stride holds a row. */
  const MAX_WIDTH: nat := 0x3fff_ffff

  /** A decoration the blend takes: one wider than any stride, or higher than a signed number, is
      refused whole. */
  predicate Drawable(s: Slot) {
    s.armed && s.w <= MAX_WIDTH && s.h <= I32_MAX
  }

  /** The pixels a decoration is drawn on. */
  predicate Covers(s: Slot, x: int, y: int) {
    Drawable(s) && s.x <= x < s.x + s.w && s.y <= y < s.y + s.h
  }

  /** What an unarmed slot says of its rectangle does not matter. */
  predicate Changed(before: Slot, after: Slot) {
    || before.armed != after.armed
    || (after.armed && (before.x != after.x || before.y != after.y || before.w != after.w || before.h != after.h
                        || before.generation != after.generation))
  }

  /** A half-open box in 32-bit coordinates, or nothing. */
  datatype Box = NoBox | Box(x0: I32, y0: I32, x1: I32, y1: I32)

  predicate InBox(b: Box, x: int, y: int) {
    b.Box? && b.x0 <= x < b.x1 && b.y0 <= y < b.y1
  }

  predicate Within(inner: Box, outer: Box) {
    inner.NoBox? || (outer.Box? && outer.x0 <= inner.x0 && outer.y0 <= inner.y0 && inner.x1 <= outer.x1 && inner.y1 <= outer.y1)
  }

  function Lower(x: I32, y: I32): I32 {
    if x < y then x else y
  }

  function Upper(x: I32, y: I32): I32 {
    if x > y then x else y
  }

  /** The smallest box around both. */
  function Join(a: Box, b: Box): (r: Box)
    ensures Within(a, r) && Within(b, r)
  {
    if a.NoBox? then b
    else if b.NoBox? then a
    else Box(Lower(a.x0, b.x0), Lower(a.y0, b.y0), Upper(a.x1, b.x1), Upper(a.y1, b.y1))
  }

  lemma JoinIsLeast(a: Box, b: Box, c: Box)
    requires Within(a, c) && Within(b, c)
    ensures Within(Join(a, b), c)
  {}

  function Footprint(s: Slot): Box {
    if !s.armed || s.w == 0 || s.h == 0 then NoBox else Box(s.x, s.y, Edge(s.x, s.w), Edge(s.y, s.h))
  }

  /** Around the old and new footprints of the first `n` slots that changed. */
  function Touched(prev: seq<Slot>, cur: seq<Slot>, n: nat): Box
    requires n <= |prev| && n <= |cur|
  {
    if n == 0 then NoBox
    else if !Changed(prev[n - 1], cur[n - 1]) then Touched(prev, cur, n - 1)
    else Join(Join(Touched(prev, cur, n - 1), Footprint(prev[n - 1])), Footprint(cur[n - 1]))
  }

  lemma {:induction false} TouchedHolds(prev: seq<Slot>, cur: seq<Slot>, n: nat, i: nat)
    requires i < n <= |prev| && n <= |cur| && Changed(prev[i], cur[i])
    ensures Within(Footprint(prev[i]), Touched(prev, cur, n)) && Within(Footprint(cur[i]), Touched(prev, cur, n))
  {
    if i < n - 1 {
      TouchedHolds(prev, cur, n - 1, i);
    }
  }

  /** Nothing smaller would do. */
  lemma {:induction false} TouchedIsLeast(prev: seq<Slot>, cur: seq<Slot>, n: nat, c: Box)
    requires n <= |prev| && n <= |cur|
    requires forall i :: 0 <= i < n && Changed(prev[i], cur[i]) ==> Within(Footprint(prev[i]), c) && Within(Footprint(cur[i]), c)
    ensures Within(Touched(prev, cur, n), c)
  {
    hide Join, Footprint;
    if n > 0 {
      var before := Touched(prev, cur, n - 1);
      TouchedIsLeast(prev, cur, n - 1, c);
      if Changed(prev[n - 1], cur[n - 1]) {
        JoinIsLeast(before, Footprint(prev[n - 1]), c);
        JoinIsLeast(Join(before, Footprint(prev[n - 1])), Footprint(cur[n - 1]), c);
      }
    }
  }

  /** An extent as far as a signed number goes. */
  function Capped(extent: U32): I32 {
    if extent > I32_MAX then I32_MAX else extent
  }

  /** A box as the canvas sees it. */
  function OnCanvas(b: Box, cw: U32, ch: U32): (r: Rect) {
    if b.NoBox? then Nothing
    else
      var x0, y0, x1, y1 := Upper(b.x0, 0), Upper(b.y0, 0), Lower(b.x1, Capped(cw)), Lower(b.y1, Capped(ch));
      if x1 <= x0 || y1 <= y0 then Nothing else Rect(x0, y0, x1 - x0, y1 - y0)
  }

  lemma OnCanvasExact(b: Box, cw: U32, ch: U32, x: nat, y: nat)
    requires x < Capped(cw) && y < Capped(ch)
    ensures InRect(OnCanvas(b, cw, ch), x, y) <==> InBox(b, x, y)
  {}

  /** Accumulates a bounding box. */
  class Bounds {
    var valid: bool
    var x0: I32
    var y0: I32
    var x1: I32
    var y1: I32

    function Value(): Box
      reads this
    {
      if valid then Box(x0, y0, x1, y1) else NoBox
    }

    constructor ()
      ensures Value() == NoBox
    {
      valid, x0, y0, x1, y1 := false, 0, 0, 0, 0;
    }

    method Add(x: I32, y: I32, w: U32, h: U32)
      modifies this
      ensures Value() == Join(old(Value()), Footprint(Slot(true, x, y, w, h, 0)))
    {
      if w == 0 || h == 0 {
        return;
      }
      var right, bottom := Edge(x, w), Edge(y, h);
      if valid {
        x0 := Lower(x0, x);
        y0 := Lower(y0, y);
        x1 := Upper(x1, right);
        y1 := Upper(y1, bottom);
      } else {
        valid, x0, y0, x1, y1 := true, x, y, right, bottom;
      }
    }
  }

  /** What has to be redrawn: everything when the slots cannot be paired, and otherwise the part
      of the canvas inside one box around every footprint that changed. */
  function DamageOf(prev: seq<Slot>, cur: seq<Slot>, cw: U32, ch: U32): Rect {
    if |prev| != |cur| || |prev| == 0 then Rect(0, 0, cw, ch)
    else OnCanvas(Touched(prev, cur, |cur|), cw, ch)
  }

  method ComputeDamage(prev: seq<Slot>, cur: seq<Slot>, cw: U32, ch: U32) returns (r: Rect)
    ensures r == DamageOf(prev, cur, cw, ch)
    ensures 0 <= r.x <= r.x + r.w <= cw && 0 <= r.y <= r.y + r.h <= ch
  {
    if |prev| != |cur| || |prev| == 0 {
      return Rect(0, 0, cw, ch);
    }
    var bounds := new Bounds();
    for i := 0 to |cur|
      invariant bounds.Value() == Touched(prev, cur, i)
    {
      var before, after := prev[i], cur[i];
      if !Changed(before, after) {
        continue;
      }
      if before.armed {
        bounds.Add(before.x, before.y, before.w, before.h);
      }
      if after.armed {
        bounds.Add(after.x, after.y, after.w, after.h);
      }
    }
    if !bounds.valid {
      return Nothing;
    }
    var x0, y0, x1, y1 := Upper(bounds.x0, 0), Upper(bounds.y0, 0), Lower(bounds.x1, Capped(cw)), Lower(bounds.y1, Capped(ch));
    if x1 <= x0 || y1 <= y0 {
      return Nothing;
    }
    return Rect(x0, y0, x1 - x0, y1 - y0);
  }

  /** Away from the damage, slot by slot, nothing drawn has changed. */
  lemma UndamagedUnchanged(prev: seq<Slot>, cur: seq<Slot>, cw: U32, ch: U32, i: nat, x: nat, y: nat)
    requires x < Capped(cw) && y < Capped(ch)
    requires |prev| == |cur| > 0 && i < |cur|
    requires !InRect(DamageOf(prev, cur, cw, ch), x, y)
    ensures Covers(prev[i], x, y) == Covers(cur[i], x, y)
    ensures Covers(cur[i], x, y) ==> prev[i] == cur[i]
  {
    OnCanvasExact(Touched(prev, cur, |cur|), cw, ch, x, y);
    if Changed(prev[i], cur[i]) {
      TouchedHolds(prev, cur, |cur|, i);
      CoveredInFootprint(prev[i], x, y);
      CoveredInFootprint(cur[i], x, y);
    }
  }

  lemma CoveredInFootprint(s: Slot, x: nat, y: nat)
    requires x < I32_MAX && y < I32_MAX
    ensures Covers(s, x, y) ==> InBox(Footprint(s), x, y)
  {}

  /** What a rectangle and a region have in common. */
  function IntersectRect(x: I32, y: I32, w: U32, h: U32, region: Rect): (r: Rect) {
    var x0, y0 := Upper(x, region.x), Upper(y, region.y);
    var x1, y1 := Lower(Edge(x, w), Edge(region.x, region.w)), Lower(Edge(y, h), Edge(region.y, region.h));
    if x1 <= x0 || y1 <= y0 then Nothing else Rect(x0, y0, x1 - x0, y1 - y0)
  }

  /** For sizes that are signed numbers the overlap is exactly what lies in both. */
  lemma IntersectExact(s: Slot, region: Rect, x: nat, y: nat)
    requires x < I32_MAX && y < I32_MAX && Drawable(s) && region.w <= I32_MAX && region.h <= I32_MAX
    ensures InRect(IntersectRect(s.x, s.y, s.w, s.h, region), x, y) <==> Covers(s, x, y) && InRect(region, x, y)
  {}
}
