/** A loaded cursor: its frames, and which of them is showing when. */
module Animation {
  import Grid
  import opened Options
  import opened Sprite

  /** Times are in nanoseconds. `cycle` is how long one loop takes. */
  datatype RawCursor = RawCursor(frames: seq<Frame>, cycle: nat) {
    predicate IsAnimated() {
      |frames| > 1 && cycle != 0
    }
  }

  type Cursor = c: RawCursor | c.frames != [] && c.cycle == Prefix(c.frames, |c.frames|)
    ghost witness RawCursor([RawFrame([0], 1, 1, 0, 0, 0)], 0)

  /** How long the first `n` frames show. */
  function Prefix(frames: seq<Frame>, n: nat): nat
    requires n <= |frames|
  {
    if n == 0 then 0 else Prefix(frames, n - 1) + frames[n - 1].delay
  }

  const NANOS: nat := 0x1_0000_0000_0000_0000

  /** Frame `i` covers the moment `t` of the loop. */
  predicate Covers(c: Cursor, i: nat, t: nat) {
    i < |c.frames| && Prefix(c.frames, i) <= t < Prefix(c.frames, i + 1)
  }

  /** How far into the loop a cursor is: the start, when that is more nanoseconds than a machine
      word holds. */
  function Into(c: Cursor, elapsed: nat): (t: nat)
    requires c.cycle > 0
    ensures t < c.cycle
  {
    var t := elapsed % c.cycle;
    if t < NANOS then t else 0
  }

  /** The longest time there is: 2^64 seconds, less a nanosecond. */
  const FOREVER: nat := NANOS * 1_000_000_000 - 1

  /** Assemble a cursor, adding up its frames' delays. There is none without a frame, and adding up
      does not complete exactly when the sum is longer than any time. */
  method Assemble(frames: seq<Frame>) returns (completed: bool, c: Option<Cursor>)
    ensures completed <==> Prefix(frames, |frames|) <= FOREVER
    ensures completed ==> (c.Some? <==> frames != [])
    ensures completed && c.Some? ==> c.value.frames == frames && c.value.cycle == Prefix(frames, |frames|)
  {
    if frames == [] {
      return true, None;
    }
    var cycle := 0;
    for i := 0 to |frames|
      invariant cycle == Prefix(frames, i) <= FOREVER
    {
      if cycle + frames[i].delay > FOREVER {
        PrefixGrows(frames, i + 1, |frames|);
        return false, None;
      }
      cycle := cycle + frames[i].delay;
    }
    completed := true;
    c := Some(RawCursor(frames, cycle));
  }

  /** Which frame is showing: the one covering how far into the loop it is, so the fallthrough is
      never reached. */
  method FrameIndexAt(c: Cursor, elapsed: nat) returns (index: nat)
    ensures index < |c.frames|
    ensures !c.IsAnimated() ==> index == 0
    ensures c.IsAnimated() ==> Covers(c, index, Into(c, elapsed))
  {
    if !c.IsAnimated() {
      return 0;
    }
    var into := Into(c, elapsed);
    var accumulated := 0;
    for i := 0 to |c.frames|
      invariant accumulated == Prefix(c.frames, i) <= into
    {
      accumulated := accumulated + c.frames[i].delay;
      if into < accumulated {
        return i;
      }
    }
    assert false;
  }

  lemma {:induction false} PrefixGrows(frames: seq<Frame>, i: nat, j: nat)
    requires i <= j <= |frames|
    ensures Prefix(frames, i) <= Prefix(frames, j)
  {
    if i < j {
      PrefixGrows(frames, i, j - 1);
    }
  }

  /** Exactly one frame covers a moment of the loop. */
  lemma CoversUnique(c: Cursor, i: nat, j: nat, t: nat)
    requires Covers(c, i, t) && Covers(c, j, t)
    ensures i == j
  {
    if i < j {
      PrefixGrows(c.frames, i + 1, j);
    } else if j < i {
      PrefixGrows(c.frames, j + 1, i);
    }
  }

  lemma {:induction false} CoveredWithin(c: Cursor, t: nat, n: nat)
    requires n <= |c.frames| && t < Prefix(c.frames, n)
    ensures exists i: nat :: Covers(c, i, t)
  {
    if t < Prefix(c.frames, n - 1) {
      CoveredWithin(c, t, n - 1);
    } else {
      assert Covers(c, n - 1, t);
    }
  }

  /** The frame that covers a time. */
  ghost function Showing(c: Cursor, elapsed: nat): (i: nat)
    ensures i < |c.frames|
    ensures if c.IsAnimated() then Covers(c, i, Into(c, elapsed)) else i == 0
  {
    if c.IsAnimated() then
      CoveredWithin(c, Into(c, elapsed), |c.frames|);
      var i: nat :| Covers(c, i, Into(c, elapsed)); i
    else 0
  }

  /** A frame without a delay never shows in an animated cursor. */
  lemma ZeroDelayNeverShows(c: Cursor, elapsed: nat)
    requires c.IsAnimated()
    ensures c.frames[Showing(c, elapsed)].delay > 0
  {}

  /** Whole loops make no difference. */
  lemma Periodic(c: Cursor, elapsed: nat, loops: nat)
    requires c.IsAnimated()
    ensures Showing(c, elapsed + loops * c.cycle) == Showing(c, elapsed)
  {
    SameRemainder(elapsed, loops, c.cycle);
    CoversUnique(c, Showing(c, elapsed + loops * c.cycle), Showing(c, elapsed), Into(c, elapsed));
  }

  lemma {:induction false} SameRemainder(t: nat, k: nat, n: nat)
    requires n > 0
    ensures (t + k * n) % n == t % n
  {
    if k > 0 {
      assert t + k * n == (t + (k - 1) * n) + n;
      SameRemainder(t, k - 1, n);
      AddOne(t + (k - 1) * n, n);
    }
  }

  lemma AddOne(t: nat, n: nat)
    requires n > 0
    ensures (t + n) % n == t % n
  {
    var q := t / n;
    assert t + n == (q + 1) * n + t % n;
    RemainderIs(t + n, q + 1, t % n, n);
  }

  lemma RemainderIs(t: nat, q: nat, r: nat, n: nat)
    requires r < n && t == q * n + r
    ensures t % n == r
  {
    var p := t / n;
    assert p * n + t % n == q * n + r;
    if p < q {
      Grid.MulMono(q, p + 1, n);
    } else if p > q {
      Grid.MulMono(p, q + 1, n);
    }
  }

  /** The moments of one loop during which frame `i` shows. */
  ghost function Moments(c: Cursor, i: nat): set<nat> {
    set t: nat | t < c.cycle && Showing(c, t) == i
  }

  /** Every frame shows for exactly its delay in each loop. */
  lemma ShowsForItsDelay(c: Cursor, i: nat)
    requires c.IsAnimated() && c.cycle <= NANOS && i < |c.frames|
    ensures |Moments(c, i)| == c.frames[i].delay
  {
    var from, to := Prefix(c.frames, i), Prefix(c.frames, i + 1);
    PrefixGrows(c.frames, i + 1, |c.frames|);
    forall t: nat | t < c.cycle
      ensures Showing(c, t) == i <==> from <= t < to
    {
      RemainderIs(t, 0, t, c.cycle);
      if from <= t < to {
        CoversUnique(c, i, Showing(c, t), t);
      }
    }
    assert Moments(c, i) == Interval(from, to);
  }

  /** The moments from `a` up to but not including `b`. */
  ghost function Interval(a: nat, b: nat): (s: set<nat>)
    ensures forall t: nat :: t in s <==> a <= t < b
    ensures |s| == (if a <= b then b - a else 0)
    decreases b
  {
    if a >= b then {} else Interval(a, b - 1) + {b - 1}
  }

  /** The clock agrees with the frames at every moment. */
  ghost predicate KeepsTime(c: Cursor)
    requires c.IsAnimated()
  {
    forall elapsed: nat :: Covers(c, Showing(c, elapsed), elapsed % c.cycle)
  }

  /** It does exactly when a loop's nanoseconds fit a machine word, or one frame fills the loop. */
  lemma KeepsTimeIff(c: Cursor)
    requires c.IsAnimated()
    ensures KeepsTime(c) <==> c.cycle <= NANOS || exists i: nat :: i < |c.frames| && c.frames[i].delay == c.cycle
  {
    if c.cycle > NANOS {
      RemainderIs(c.cycle - 1, 0, c.cycle - 1, c.cycle);
      var first := Showing(c, c.cycle - 1);
      PrefixGrows(c.frames, first + 1, |c.frames|);
      assert Covers(c, first, c.cycle - 1) ==> c.frames[first].delay == c.cycle;
      if i: nat :| i < |c.frames| && c.frames[i].delay == c.cycle {
        PrefixGrows(c.frames, i + 1, |c.frames|);
        forall elapsed: nat
          ensures Covers(c, Showing(c, elapsed), elapsed % c.cycle)
        {
          CoversUnique(c, i, Showing(c, elapsed), Into(c, elapsed));
        }
      }
    }
  }

  /** Two frames of 2^64 nanoseconds each: at the start of the second the first is shown. */
  lemma LongLoopExample(f: Frame)
    requires f.delay == NANOS
    ensures Prefix([f, f], 2) == 2 * NANOS
    ensures
      var c: Cursor := RawCursor([f, f], 2 * NANOS);
      Showing(c, NANOS) == 0 && Covers(c, 1, NANOS % c.cycle) && !KeepsTime(c)
  {
    var frames := [f, f];
    assert Prefix(frames, 1) == NANOS;
    assert Prefix(frames, 2) == 2 * NANOS;
    var c: Cursor := RawCursor(frames, 2 * NANOS);
    assert Into(c, NANOS) == 0;
    assert Covers(c, 0, 0);
    CoversUnique(c, Showing(c, NANOS), 0, 0);
    assert !Covers(c, 0, NANOS % c.cycle);
  }

  /** Every cursor loaded from a file keeps time: 256 frames of a 32-bit count of milliseconds. */
  lemma LoadedCursorsKeepTime(c: Cursor)
    requires c.IsAnimated() && |c.frames| <= 256
    requires forall i :: 0 <= i < |c.frames| ==> c.frames[i].delay <= 0xffff_ffff * 1_000_000
    ensures KeepsTime(c)
  {
    PrefixAtMost(c.frames, |c.frames|, 0xffff_ffff * 1_000_000);
    Grid.MulMono(256, |c.frames|, 0xffff_ffff * 1_000_000);
    KeepsTimeIff(c);
  }

  lemma {:induction false} PrefixAtMost(frames: seq<Frame>, n: nat, most: nat)
    requires n <= |frames| && forall i :: 0 <= i < |frames| ==> frames[i].delay <= most
    ensures Prefix(frames, n) <= n * most
  {
    if n > 0 {
      PrefixAtMost(frames, n - 1, most);
    }
  }
}
