/** Box blurs by running sum, against the clamp-to-edge mean they stand for. */
module BoxBlur {
  import opened Grid
  import opened Pixels

  /** Rows of equally long rows. */
  type Image = seq<seq<Byte>>

  ghost predicate Sized(img: Image, w: nat, h: nat) {
    |img| == h && forall y :: 0 <= y < h ==> |img[y]| == w
  }

  // ----- The simple form: the mean over a window whose ends repeat the edge

  function Clamp(k: int, n: nat): (c: nat)
    requires n > 0
    ensures c < n
  {
    if k < 0 then 0 else if k >= n then n - 1 else k
  }

  function WindowSum(line: seq<Byte>, lo: int, hi: int): (sum: nat)
    requires |line| > 0 && lo <= hi
    ensures sum <= 255 * (hi - lo)
    decreases hi - lo
  {
    if lo == hi then 0 else WindowSum(line, lo, hi - 1) + line[Clamp(hi - 1, |line|)]
  }

  function Window(radius: nat): (n: nat)
    ensures n > 0
  {
    2 * radius + 1
  }

  lemma DivBound(sum: nat, window: nat)
    requires window > 0 && sum <= 255 * window
    ensures sum / window <= 255
  {
    var q := sum / window;
    assert q * window <= sum;
    if q >= 256 {
      MulMono(q, 256, window);
    }
  }

  /** The mean of a window, truncated. */
  function MeanOf(sum: nat, window: nat): (m: Byte)
    requires window > 0 && sum <= 255 * window
  {
    DivBound(sum, window);
    sum / window
  }

  function Mean(line: seq<Byte>, x: int, radius: nat): (m: Byte)
    requires |line| > 0
  {
    MeanOf(WindowSum(line, x - radius, x + radius + 1), Window(radius))
  }

  function MeanLine(line: seq<Byte>, radius: nat): (r: seq<Byte>)
    ensures |r| == |line|
  {
    seq(|line|, x requires 0 <= x < |line| => Mean(line, x, radius))
  }

  lemma {:induction false} WindowSplit(line: seq<Byte>, lo: int, mid: int, hi: int)
    requires |line| > 0 && lo <= mid <= hi
    ensures WindowSum(line, lo, hi) == WindowSum(line, lo, mid) + WindowSum(line, mid, hi)
    decreases hi - mid
  {
    if mid < hi {
      WindowSplit(line, lo, mid, hi - 1);
    }
  }

  lemma WindowOne(line: seq<Byte>, k: int)
    requires |line| > 0
    ensures WindowSum(line, k, k + 1) == line[Clamp(k, |line|)]
  {
    assert WindowSum(line, k, k) == 0;
  }

  /** Sliding by one: what enters on the right, less what leaves on the left. */
  lemma WindowSlide(line: seq<Byte>, lo: int, hi: int)
    requires |line| > 0 && lo < hi
    ensures WindowSum(line, lo + 1, hi + 1)
      == WindowSum(line, lo, hi) + line[Clamp(hi, |line|)] - line[Clamp(lo, |line|)]
  {
    WindowSplit(line, lo, lo + 1, hi);
    WindowOne(line, lo);
  }

  lemma {:induction false} WindowConstant(line: seq<Byte>, lo: int, hi: int, c: nat)
    requires |line| > 0 && lo <= hi && c < |line|
    requires forall k :: lo <= k < hi ==> Clamp(k, |line|) == c
    ensures WindowSum(line, lo, hi) == (hi - lo) * line[c]
    decreases hi - lo
  {
    if lo < hi {
      WindowConstant(line, lo, hi - 1, c);
    }
  }

  // ----- The fast form

  /** What the seed of the running sum leaves out when the radius passes the line's end. */
  function Deficit(line: seq<Byte>, radius: nat): nat
    requires |line| > 0
  {
    if radius <= |line| - 1 then 0 else (radius - (|line| - 1)) * line[|line| - 1]
  }

  lemma DeficitZero(line: seq<Byte>, radius: nat)
    requires |line| > 0
    ensures Deficit(line, radius) == 0 <==> radius <= |line| - 1 || line[|line| - 1] == 0
  {}

  /** Even then the running sum never goes below zero. */
  lemma DeficitFits(line: seq<Byte>, radius: nat, x: nat)
    requires |line| > 0
    ensures Deficit(line, radius) <= WindowSum(line, x - radius, x + radius + 1)
  {
    var n := |line|;
    if radius > n - 1 {
      var from := x + radius + 1 - (radius - (n - 1));
      WindowSplit(line, x - radius, from, x + radius + 1);
      WindowConstant(line, from, x + radius + 1, n - 1);
    }
  }

  /** What the running sum holds for position `x`. */
  function RunningSum(line: seq<Byte>, x: nat, radius: nat): (sum: nat)
    requires |line| > 0
    ensures sum <= 255 * Window(radius)
  {
    DeficitFits(line, radius, x);
    WindowSum(line, x - radius, x + radius + 1) - Deficit(line, radius)
  }

  function RunningMean(line: seq<Byte>, x: nat, radius: nat): (m: Byte)
    requires |line| > 0
  {
    MeanOf(RunningSum(line, x, radius), Window(radius))
  }

  lemma RunningMeanIs(line: seq<Byte>, x: nat, radius: nat, sum: nat, window: nat)
    requires |line| > 0 && sum == RunningSum(line, x, radius) && window == 2 * radius + 1
    ensures sum / window == RunningMean(line, x, radius)
  {}

  function RunningLine(line: seq<Byte>, radius: nat): (r: seq<Byte>)
    ensures |r| == |line|
  {
    seq(|line|, x requires 0 <= x < |line| => RunningMean(line, x, radius))
  }

  lemma RunningIsMean(line: seq<Byte>, radius: nat)
    requires |line| > 0 && Deficit(line, radius) == 0
    ensures RunningLine(line, radius) == MeanLine(line, radius)
  {}

  /** The seed: the part of the window inside the line, and the left edge once per step of the
      radius. */
  lemma Seed(line: seq<Byte>, radius: nat)
    requires |line| > 0
    ensures
      var last := if radius < |line| - 1 then radius else |line| - 1;
      RunningSum(line, 0, radius) == WindowSum(line, 0, last + 1) + radius * line[0]
  {
    hide WindowSum;
    var n := |line|;
    var last := if radius < n - 1 then radius else n - 1;
    WindowSplit(line, 0 - radius, 0, radius + 1);
    WindowConstant(line, 0 - radius, 0, 0);
    WindowSplit(line, 0, last + 1, radius + 1);
    WindowConstant(line, last + 1, radius + 1, n - 1);
    var beyond := radius - last;
    assert WindowSum(line, last + 1, radius + 1) == beyond * line[n - 1];
    assert Deficit(line, radius) == beyond * line[n - 1];
  }

  lemma RunningStep(line: seq<Byte>, x: nat, radius: nat)
    requires x < |line|
    ensures RunningSum(line, x + 1, radius)
      == RunningSum(line, x, radius) + line[Clamp(x + radius + 1, |line|)] - line[Clamp(x - radius, |line|)]
  {
    WindowSlide(line, x - radius, x + radius + 1);
  }

  // ----- Lines of an image in a flat buffer

  function Row(s: seq<Byte>, w: nat, h: nat, y: nat): (r: seq<Byte>)
    requires |s| == w * h && y < h
    ensures |r| == w
  {
    seq(w, x requires 0 <= x < w => AtFits(w, h, x, y); s[At(w, x, y)])
  }

  function Column(s: seq<Byte>, w: nat, h: nat, x: nat): (c: seq<Byte>)
    requires |s| == w * h && x < w
    ensures |c| == h
  {
    seq(h, y requires 0 <= y < h => AtFits(w, h, x, y); s[At(w, x, y)])
  }

  function Rows(s: seq<Byte>, w: nat, h: nat): (img: Image)
    requires |s| == w * h
    ensures Sized(img, w, h)
  {
    seq(h, y requires 0 <= y < h => Row(s, w, h, y))
  }

  function ColumnOf(img: Image, w: nat, x: nat): (c: seq<Byte>)
    requires Sized(img, w, |img|) && x < w
    ensures |c| == |img|
  {
    seq(|img|, y requires 0 <= y < |img| => img[y][x])
  }

  lemma ColumnOfRows(s: seq<Byte>, w: nat, h: nat, x: nat)
    requires |s| == w * h && x < w
    ensures ColumnOf(Rows(s, w, h), w, x) == Column(s, w, h, x)
  {}

  // ----- One pass, on images

  /** Which of the two forms a pass uses. */
  datatype Form = Running | Naive

  function BlurLine(form: Form, line: seq<Byte>, radius: nat): (r: seq<Byte>)
    ensures |r| == |line|
  {
    match form case Running => RunningLine(line, radius) case Naive => MeanLine(line, radius)
  }

  function PassH(form: Form, img: Image, w: nat, h: nat, radius: nat): (r: Image)
    requires Sized(img, w, h)
    ensures Sized(r, w, h)
  {
    seq(h, y requires 0 <= y < h => BlurLine(form, img[y], radius))
  }

  function PassV(form: Form, img: Image, w: nat, h: nat, radius: nat): (r: Image)
    requires Sized(img, w, h)
    ensures Sized(r, w, h)
  {
    seq(h, y requires 0 <= y < h =>
      seq(w, x requires 0 <= x < w => BlurLine(form, ColumnOf(img, w, x), radius)[y]))
  }

  function Passes(form: Form, img: Image, w: nat, h: nat, radius: nat, n: nat): (r: Image)
    requires Sized(img, w, h)
    ensures Sized(r, w, h)
  {
    if n == 0 then img
    else PassV(form, PassH(form, Passes(form, img, w, h, radius, n - 1), w, h, radius), w, h, radius)
  }

  // ----- The methods

  /** One row of the horizontal pass, starting at index `row`. */
  method BlurRow(src: array<Byte>, dst: array<Byte>, row: nat, width: nat, radius: nat)
    requires src != dst && src.Length == dst.Length && width > 0 && row + width <= src.Length
    modifies dst
    ensures dst[row..row + width] == RunningLine(src[row..row + width], radius)
    ensures forall i :: 0 <= i < dst.Length && !(row <= i < row + width) ==> dst[i] == old(dst[i])
  {
    hide RunningSum, WindowSum, Deficit, RunningMean, RunningLine;
    ghost var line := src[row..row + width];
    var window := 2 * radius + 1;
    var sum := 0;
    var last := if radius < width - 1 then radius else width - 1;
    EmptyWindow(line);
    for x := 0 to last + 1
      invariant sum == WindowSum(line, 0, x)
      modifies {}
    {
      WindowGrow(line, x);
      sum := sum + src[row + x];
    }
    sum := sum + radius * src[row];
    Seed(line, radius);
    for x := 0 to width
      invariant sum == RunningSum(line, x, radius)
      invariant forall i :: 0 <= i < dst.Length && !(row <= i < row + width) ==> dst[i] == old(dst[i])
      invariant forall k :: 0 <= k < x ==> dst[row + k] == RunningMean(line, k, radius)
    {
      RunningMeanIs(line, x, radius, sum, window);
      dst[row + x] := sum / window;
      var next := src[row + (if x + radius + 1 < width - 1 then x + radius + 1 else width - 1)];
      var gone := src[row + (if x > radius then x - radius else 0)];
      RunningStep(line, x, radius);
      sum := sum + next - gone;
    }
    LineRun(line, dst[row..row + width], radius);
  }

  lemma LineRun(line: seq<Byte>, out: seq<Byte>, radius: nat)
    requires |line| == |out| && forall k :: 0 <= k < |line| ==> out[k] == RunningMean(line, k, radius)
    ensures out == RunningLine(line, radius)
  {}

  /** One column of the vertical pass. */
  method BlurColumn(src: array<Byte>, dst: array<Byte>, width: nat, height: nat, x: nat, radius: nat)
    requires src != dst && src.Length == dst.Length == width * height && x < width && height > 0
    modifies dst
    ensures Column(dst[..], width, height, x) == RunningLine(Column(src[..], width, height, x), radius)
    ensures forall y: nat, x': nat :: x' < width && y < height && x' != x ==>
      At(width, x', y) < dst.Length && dst[At(width, x', y)] == old(dst[At(width, x', y)])
  {
    hide RunningSum, WindowSum, Deficit, RunningMean, RunningLine, At, Column;
    ghost var line := Column(src[..], width, height, x);
    var window := 2 * radius + 1;
    ColumnIndex(src[..], width, height, x);
    ColumnsApart(width, height, x);
    var sum := 0;
    var last := if radius < height - 1 then radius else height - 1;
    EmptyWindow(line);
    for y := 0 to last + 1
      invariant sum == WindowSum(line, 0, y)
      modifies {}
    {
      WindowGrow(line, y);
      sum := sum + src[At(width, x, y)];
    }
    sum := sum + radius * src[At(width, x, 0)];
    Seed(line, radius);
    for y := 0 to height
      invariant sum == RunningSum(line, y, radius)
      invariant forall y': nat, x': nat :: x' < width && y' < height && x' != x ==>
        dst[At(width, x', y')] == old(dst[At(width, x', y')])
      invariant forall k: nat :: k < y ==> dst[At(width, x, k)] == RunningMean(line, k, radius)
    {
      RunningMeanIs(line, y, radius, sum, window);
      dst[At(width, x, y)] := sum / window;
      var next := src[At(width, x, if y + radius + 1 < height - 1 then y + radius + 1 else height - 1)];
      var gone := src[At(width, x, if y > radius then y - radius else 0)];
      RunningStep(line, y, radius);
      sum := sum + next - gone;
    }
    ColumnIndex(dst[..], width, height, x);
    LineRun(line, Column(dst[..], width, height, x), radius);
  }

  /** One horizontal box pass. */
  method BoxBlurH(src: array<Byte>, dst: array<Byte>, width: nat, height: nat, radius: nat)
    requires src != dst && src.Length == dst.Length == width * height && width > 0
    modifies dst
    ensures Rows(dst[..], width, height) == PassH(Running, Rows(src[..], width, height), width, height, radius)
  {
    hide RunningLine, Row;
    for y := 0 to height
      invariant forall y': nat :: y' < y ==>
        Row(dst[..], width, height, y') == RunningLine(Row(src[..], width, height, y'), radius)
    {
      ghost var before := dst[..];
      AtFits(width, height, 0, y);
      BlurRow(src, dst, y * width, width, radius);
      RowSlice(src[..], width, height, y);
      RowSlice(dst[..], width, height, y);
      forall y': nat | y' < y
        ensures Row(dst[..], width, height, y') == Row(before, width, height, y')
      {
        RowsApart(width, height, y, y');
        AtFits(width, height, 0, y');
        RowSlice(dst[..], width, height, y');
        RowSlice(before, width, height, y');
      }
    }
  }

  /** One vertical box pass. */
  method BoxBlurV(src: array<Byte>, dst: array<Byte>, width: nat, height: nat, radius: nat)
    requires src != dst && src.Length == dst.Length == width * height && height > 0
    modifies dst
    ensures Rows(dst[..], width, height) == PassV(Running, Rows(src[..], width, height), width, height, radius)
  {
    hide RunningLine, Column, At, Rows, PassV;
    for x := 0 to width
      invariant forall x': nat :: x' < x ==>
        Column(dst[..], width, height, x') == RunningLine(Column(src[..], width, height, x'), radius)
    {
      ghost var before := dst[..];
      BlurColumn(src, dst, width, height, x, radius);
      forall x': nat | x' < x
        ensures Column(dst[..], width, height, x') == Column(before, width, height, x')
      {
        ColumnIndex(dst[..], width, height, x');
        ColumnIndex(before, width, height, x');
      }
    }
    ColumnsBlurred(src[..], dst[..], width, height, radius);
  }

  lemma RowSlice(s: seq<Byte>, w: nat, h: nat, y: nat)
    requires |s| == w * h && y < h
    ensures y * w + w <= |s| && Row(s, w, h, y) == s[y * w..y * w + w]
  {
    RowFits(w, h, y);
    var start := y * w;
    assert forall x: nat :: x < w ==> At(w, x, y) == start + x;
  }

  lemma RowFits(w: nat, h: nat, y: nat)
    requires y < h
    ensures y * w + w <= w * h
  {
    MulMono(h, y + 1, w);
  }

  lemma ColumnsBlurred(src: seq<Byte>, dst: seq<Byte>, w: nat, h: nat, radius: nat)
    requires |src| == |dst| == w * h
    requires forall x: nat :: x < w ==> Column(dst, w, h, x) == RunningLine(Column(src, w, h, x), radius)
    ensures Rows(dst, w, h) == PassV(Running, Rows(src, w, h), w, h, radius)
  {
    hide RunningLine;
    var expected := PassV(Running, Rows(src, w, h), w, h, radius);
    forall y: nat | y < h
      ensures Rows(dst, w, h)[y] == expected[y]
    {
      forall x: nat | x < w
        ensures Rows(dst, w, h)[y][x] == expected[y][x]
      {
        ColumnOfRows(src, w, h, x);
        assert Column(dst, w, h, x)[y] == RunningLine(Column(src, w, h, x), radius)[y];
      }
    }
  }

  /** The radius of each of the three passes. */
  function PerPass(totalRadius: nat): (r: nat)
    ensures r >= 1
  {
    if totalRadius / 3 > 1 then totalRadius / 3 else 1
  }

  /** It is a third of the whole radius, rounded down, and at least one. */
  lemma ThirdOfRadius(totalRadius: nat)
    ensures
      var r := PerPass(totalRadius);
      if totalRadius < 3 then r == 1 else 3 * r <= totalRadius < 3 * r + 3
  {}

  /** What three passes make of an image, in either form. */
  function Blurred3(form: Form, img: Image, w: nat, h: nat, totalRadius: nat): (r: Image)
    requires Sized(img, w, h)
    ensures Sized(r, w, h)
  {
    if totalRadius == 0 || w == 0 || h == 0 then img else Passes(form, img, w, h, PerPass(totalRadius), 3)
  }

  /** Three box blurs. */
  method Blur3(buf: array<Byte>, width: nat, height: nat, totalRadius: nat)
    requires buf.Length == width * height
    modifies buf
    ensures Rows(buf[..], width, height) == Blurred3(Running, Rows(old(buf[..]), width, height), width, height, totalRadius)
  {
    hide PassH, PassV, Rows;
    if totalRadius == 0 || width == 0 || height == 0 {
      return;
    }
    var perPass := PerPass(totalRadius);
    var scratch := new Byte[buf.Length];
    ghost var start := Rows(buf[..], width, height);
    for n := 0 to 3
      invariant Rows(buf[..], width, height) == Passes(Running, start, width, height, perPass, n)
    {
      BoxBlurH(buf, scratch, width, height, perPass);
      BoxBlurV(scratch, buf, width, height, perPass);
    }
  }

  // ----- When the two forms agree

  ghost predicate AllZero(img: Image) {
    forall y, x :: 0 <= y < |img| && 0 <= x < |img[y]| ==> img[y][x] == 0
  }

  /** The bound under which no seed can be short, or an image with nothing to leave out. */
  ghost predicate Blurrable(img: Image, w: nat, h: nat, radius: nat) {
    (radius < w && radius < h) || AllZero(img)
  }

  lemma {:induction false} ZeroWindow(line: seq<Byte>, lo: int, hi: int)
    requires |line| > 0 && lo <= hi && forall k :: 0 <= k < |line| ==> line[k] == 0
    ensures WindowSum(line, lo, hi) == 0
    decreases hi - lo
  {
    if lo < hi {
      ZeroWindow(line, lo, hi - 1);
    }
  }

  lemma ZeroLine(form: Form, line: seq<Byte>, radius: nat)
    requires forall k :: 0 <= k < |line| ==> line[k] == 0
    ensures BlurLine(form, line, radius) == line
  {
    hide WindowSum, MeanOf;
    forall x: nat | x < |line|
      ensures BlurLine(form, line, radius)[x] == 0
    {
      ZeroWindow(line, x - radius, x + radius + 1);
      MeanOfZero(Window(radius));
      DeficitZero(line, radius);
    }
  }

  lemma MeanOfZero(window: nat)
    requires window > 0
    ensures MeanOf(0, window) == 0
  {}

  lemma LineAgrees(line: seq<Byte>, radius: nat)
    requires radius < |line| || forall k :: 0 <= k < |line| ==> line[k] == 0
    ensures BlurLine(Running, line, radius) == BlurLine(Naive, line, radius)
  {
    if radius < |line| {
      RunningIsMean(line, radius);
    } else {
      ZeroLine(Running, line, radius);
      ZeroLine(Naive, line, radius);
    }
  }

  lemma PassHAgrees(img: Image, w: nat, h: nat, radius: nat)
    requires Sized(img, w, h) && Blurrable(img, w, h, radius)
    ensures PassH(Running, img, w, h, radius) == PassH(Naive, img, w, h, radius)
    ensures Blurrable(PassH(Naive, img, w, h, radius), w, h, radius)
  {
    hide BlurLine;
    forall y: nat | y < h
      ensures BlurLine(Running, img[y], radius) == BlurLine(Naive, img[y], radius)
      ensures AllZero(img) ==> BlurLine(Naive, img[y], radius) == img[y]
    {
      LineAgrees(img[y], radius);
      if AllZero(img) {
        ZeroLine(Naive, img[y], radius);
      }
    }
  }

  lemma PassVAgrees(img: Image, w: nat, h: nat, radius: nat)
    requires Sized(img, w, h) && Blurrable(img, w, h, radius)
    ensures PassV(Running, img, w, h, radius) == PassV(Naive, img, w, h, radius)
    ensures Blurrable(PassV(Naive, img, w, h, radius), w, h, radius)
  {
    hide BlurLine;
    forall x: nat | x < w
      ensures BlurLine(Running, ColumnOf(img, w, x), radius) == BlurLine(Naive, ColumnOf(img, w, x), radius)
      ensures AllZero(img) ==> BlurLine(Naive, ColumnOf(img, w, x), radius) == ColumnOf(img, w, x)
    {
      LineAgrees(ColumnOf(img, w, x), radius);
      if AllZero(img) {
        ZeroLine(Naive, ColumnOf(img, w, x), radius);
      }
    }
    var running, naive := PassV(Running, img, w, h, radius), PassV(Naive, img, w, h, radius);
    forall y: nat | y < h
      ensures running[y] == naive[y] && (AllZero(img) ==> naive[y] == img[y])
    {
      assert forall x: nat :: x < w ==> running[y][x] == naive[y][x];
      if AllZero(img) {
        assert forall x: nat :: x < w ==> naive[y][x] == ColumnOf(img, w, x)[y];
      }
    }
  }

  /** The running sums compute the clamp-to-edge means, for any number of passes. */
  lemma {:induction false} RunningRefinesNaive(img: Image, w: nat, h: nat, radius: nat, n: nat)
    requires Sized(img, w, h) && Blurrable(img, w, h, radius)
    ensures Passes(Running, img, w, h, radius, n) == Passes(Naive, img, w, h, radius, n)
    ensures Blurrable(Passes(Naive, img, w, h, radius, n), w, h, radius)
  {
    hide PassH, PassV, Blurrable;
    if n > 0 {
      RunningRefinesNaive(img, w, h, radius, n - 1);
      var before := Passes(Naive, img, w, h, radius, n - 1);
      PassHAgrees(before, w, h, radius);
      PassVAgrees(PassH(Naive, before, w, h, radius), w, h, radius);
    }
  }

  // ----- Where the two forms differ

  /** An image whose every pixel is in a range. */
  ghost predicate Between(img: Image, low: nat, high: nat) {
    forall y, x :: 0 <= y < |img| && 0 <= x < |img[y]| ==> low <= img[y][x] <= high
  }

  ghost predicate LineBetween(line: seq<Byte>, low: nat, high: nat) {
    forall k :: 0 <= k < |line| ==> low <= line[k] <= high
  }

  lemma {:induction false} WindowBetween(line: seq<Byte>, lo: int, hi: int, low: nat, high: nat)
    requires |line| > 0 && lo <= hi && LineBetween(line, low, high)
    ensures low * (hi - lo) <= WindowSum(line, lo, hi) <= high * (hi - lo)
    decreases hi - lo
  {
    if lo < hi {
      WindowBetween(line, lo, hi - 1, low, high);
      Times(low, hi - lo);
      Times(high, hi - lo);
    }
  }

  lemma Times(c: nat, n: int)
    ensures c * n == c * (n - 1) + c
  {}

  lemma MeanBetween(sum: nat, window: nat, low: nat, high: nat)
    requires window > 0 && low * window <= sum <= high * window && high <= 255
    ensures sum <= 255 * window && low <= MeanOf(sum, window) <= high
  {
    MulMono(255, high, window);
    var q := sum / window;
    assert q * window <= sum < q * window + window;
    if q < low {
      MulMono(low, q + 1, window);
    } else if q > high {
      MulMono(q, high + 1, window);
    }
  }

  /** A mean stays in the range of its line. */
  lemma NaiveBetween(line: seq<Byte>, radius: nat, low: nat, high: nat)
    requires LineBetween(line, low, high) && high <= 255
    ensures LineBetween(MeanLine(line, radius), low, high)
  {
    hide WindowSum, MeanOf, LineBetween;
    forall x: nat | x < |line|
      ensures low <= MeanLine(line, radius)[x] <= high
    {
      WindowBetween(line, x - radius, x + radius + 1, low, high);
      MeanBetween(WindowSum(line, x - radius, x + radius + 1), Window(radius), low, high);
    }
    AllBetween(MeanLine(line, radius), low, high);
  }

  lemma AllBetween(line: seq<Byte>, low: nat, high: nat)
    requires forall x: nat :: x < |line| ==> low <= line[x] <= high
    ensures LineBetween(line, low, high)
  {}

  /** The fast form never rises above its line; and a line of the brightest value comes out darker
      everywhere once the radius passes its end. */
  lemma RunningBelow(line: seq<Byte>, radius: nat, high: nat)
    requires LineBetween(line, 0, high) && high <= 255
    ensures LineBetween(RunningLine(line, radius), 0, high)
    ensures LineBetween(line, 255, 255) && radius >= |line| ==> LineBetween(RunningLine(line, radius), 0, 254)
  {
    hide WindowSum, MeanOf, LineBetween, Deficit;
    forall x: nat | x < |line|
      ensures RunningLine(line, radius)[x] <= high
      ensures LineBetween(line, 255, 255) && radius >= |line| ==> RunningLine(line, radius)[x] <= 254
    {
      WindowBetween(line, x - radius, x + radius + 1, 0, high);
      MeanBetween(RunningSum(line, x, radius), Window(radius), 0, high);
      if LineBetween(line, 255, 255) && radius >= |line| {
        ShortSeed(line, radius);
        WindowBetween(line, x - radius, x + radius + 1, 255, 255);
        BelowTop(RunningSum(line, x, radius), Window(radius));
      }
    }
    AllBetween(RunningLine(line, radius), 0, high);
    if LineBetween(line, 255, 255) && radius >= |line| {
      AllBetween(RunningLine(line, radius), 0, 254);
    }
  }

  lemma ShortSeed(line: seq<Byte>, radius: nat)
    requires 0 < |line| <= radius && LineBetween(line, 255, 255)
    ensures Deficit(line, radius) > 0
  {}

  lemma BelowTop(sum: nat, window: nat)
    requires window > 0 && sum < 255 * window
    ensures MeanOf(sum, window) <= 254
  {
    var q := sum / window;
    assert q * window <= sum;
    if q >= 255 {
      MulMono(q, 255, window);
    }
  }

  /** The forms agree on every line of a length exactly when the radius does not pass its end. */
  lemma LinesAgreeIff(n: nat, radius: nat)
    requires n > 0
    ensures (forall line: seq<Byte> :: |line| == n ==> BlurLine(Running, line, radius) == BlurLine(Naive, line, radius))
      <==> radius < n
  {
    if radius < n {
      forall line: seq<Byte> | |line| == n
        ensures BlurLine(Running, line, radius) == BlurLine(Naive, line, radius)
      {
        LineAgrees(line, radius);
      }
    } else {
      var line: seq<Byte> := seq(n, _ => 255);
      RunningBelow(line, radius, 255);
      NaiveBetween(line, radius, 255, 255);
      assert BlurLine(Running, line, radius)[0] <= 254 && BlurLine(Naive, line, radius)[0] == 255;
    }
  }

  lemma PassHBetween(form: Form, img: Image, w: nat, h: nat, radius: nat, low: nat, high: nat)
    requires Sized(img, w, h) && Between(img, low, high) && high <= 255
    ensures form == Naive || low == 0 || radius < w ==> Between(PassH(form, img, w, h, radius), low, high)
    ensures form == Running && low == 255 && radius >= w ==> Between(PassH(form, img, w, h, radius), 0, 254)
  {
    hide RunningLine, MeanLine;
    forall y: nat | y < h
      ensures form == Naive || low == 0 || radius < w ==> LineBetween(BlurLine(form, img[y], radius), low, high)
      ensures form == Running && low == 255 && radius >= w ==> LineBetween(BlurLine(form, img[y], radius), 0, 254)
    {
      LineBetweenAfter(form, img[y], radius, low, high);
    }
  }

  lemma LineBetweenAfter(form: Form, line: seq<Byte>, radius: nat, low: nat, high: nat)
    requires LineBetween(line, low, high) && high <= 255
    ensures form == Naive || low == 0 || radius < |line| ==> LineBetween(BlurLine(form, line, radius), low, high)
    ensures form == Running && low == 255 && radius >= |line| ==> LineBetween(BlurLine(form, line, radius), 0, 254)
  {
    NaiveBetween(line, radius, low, high);
    RunningBelow(line, radius, high);
    if radius < |line| {
      LineAgrees(line, radius);
    }
  }

  lemma PassVBetween(form: Form, img: Image, w: nat, h: nat, radius: nat, low: nat, high: nat)
    requires Sized(img, w, h) && Between(img, low, high) && high <= 255
    ensures form == Naive || low == 0 || radius < h ==> Between(PassV(form, img, w, h, radius), low, high)
    ensures form == Running && low == 255 && radius >= h ==> Between(PassV(form, img, w, h, radius), 0, 254)
  {
    hide BlurLine;
    forall x: nat | x < w
      ensures form == Naive || low == 0 || radius < h ==> LineBetween(BlurLine(form, ColumnOf(img, w, x), radius), low, high)
      ensures form == Running && low == 255 && radius >= h ==> LineBetween(BlurLine(form, ColumnOf(img, w, x), radius), 0, 254)
    {
      LineBetweenAfter(form, ColumnOf(img, w, x), radius, low, high);
    }
  }

  /** The mean keeps a white image white; the running sums darken all of it when the radius passes
      either side, and no later pass brightens it. */
  lemma {:induction false} WhiteDarkens(img: Image, w: nat, h: nat, radius: nat, n: nat)
    requires Sized(img, w, h) && Between(img, 255, 255)
    ensures Between(Passes(Naive, img, w, h, radius, n), 255, 255)
    ensures n > 0 && (radius >= w || radius >= h) ==> Between(Passes(Running, img, w, h, radius, n), 0, 254)
  {
    hide PassH, PassV, Between;
    if n > 0 {
      WhiteDarkens(img, w, h, radius, n - 1);
      var naive := Passes(Naive, img, w, h, radius, n - 1);
      PassHBetween(Naive, naive, w, h, radius, 255, 255);
      PassVBetween(Naive, PassH(Naive, naive, w, h, radius), w, h, radius, 255, 255);
      var running := Passes(Running, img, w, h, radius, n - 1);
      var across := PassH(Running, running, w, h, radius);
      if n > 1 && (radius >= w || radius >= h) {
        PassHBetween(Running, running, w, h, radius, 0, 254);
        PassVBetween(Running, across, w, h, radius, 0, 254);
      } else if radius >= w {
        PassHBetween(Running, img, w, h, radius, 255, 255);
        PassVBetween(Running, across, w, h, radius, 0, 254);
      } else if radius >= h {
        PassHBetween(Running, img, w, h, radius, 255, 255);
        PassVBetween(Running, across, w, h, radius, 255, 255);
      }
    }
  }

  /** Any number of passes agree on every image of a size exactly when the radius passes neither
      side. */
  lemma PassesAgreeIff(w: nat, h: nat, radius: nat, n: nat)
    requires w > 0 && h > 0 && n > 0
    ensures (forall img: Image :: Sized(img, w, h) ==> Passes(Running, img, w, h, radius, n) == Passes(Naive, img, w, h, radius, n))
      <==> radius < w && radius < h
  {
    hide Passes;
    if radius < w && radius < h {
      forall img: Image | Sized(img, w, h)
        ensures Passes(Running, img, w, h, radius, n) == Passes(Naive, img, w, h, radius, n)
      {
        RunningRefinesNaive(img, w, h, radius, n);
      }
    } else {
      var row: seq<Byte> := seq(w, _ => 255);
      var white: Image := seq(h, _ => row);
      WhiteDarkens(white, w, h, radius, n);
      var dark, light := Passes(Running, white, w, h, radius, n), Passes(Naive, white, w, h, radius, n);
      assert dark[0][0] <= 254 && light[0][0] == 255;
    }
  }

  /** The shortest line the fast form gets wrong. */
  lemma RunningCanDiffer()
    ensures BlurLine(Running, [255], 1) == [170] && BlurLine(Naive, [255], 1) == [255]
  {
    WindowConstant([255], -1, 2, 0);
  }

  // ----- Mirror images

  function Reverse(line: seq<Byte>): (r: seq<Byte>)
    ensures |r| == |line|
  {
    seq(|line|, x requires 0 <= x < |line| => line[|line| - 1 - x])
  }

  lemma ClampMirror(line: seq<Byte>, k: int)
    requires |line| > 0
    ensures Reverse(line)[Clamp(k, |line|)] == line[Clamp(|line| - 1 - k, |line|)]
  {}

  lemma WindowReverse(line: seq<Byte>, lo: int, hi: int)
    requires |line| > 0 && lo <= hi
    ensures WindowSum(Reverse(line), lo, hi) == WindowSum(line, |line| - hi, |line| - lo)
    decreases hi - lo
  {
    hide Clamp, Reverse;
    var n := |line|;
    if lo < hi {
      WindowReverse(line, lo, hi - 1);
      WindowSplit(line, n - hi, n - hi + 1, n - lo);
      WindowOne(line, n - hi);
      ClampMirror(line, hi - 1);
    }
  }

  lemma MeanReverse(line: seq<Byte>, radius: nat)
    ensures MeanLine(Reverse(line), radius) == Reverse(MeanLine(line, radius))
  {
    hide WindowSum;
    var n := |line|;
    forall x: nat | x < n
      ensures MeanLine(Reverse(line), radius)[x] == MeanLine(line, radius)[n - 1 - x]
    {
      WindowReverse(line, x - radius, x + radius + 1);
      assert n - (x + radius + 1) == n - 1 - x - radius && n - (x - radius) == n - 1 - x + radius + 1;
    }
  }

  /** Equal to its own left-right and top-bottom mirror images. */
  ghost predicate Symmetric(img: Image, w: nat, h: nat) {
    && Sized(img, w, h)
    && forall y: nat, x: nat :: y < h && x < w ==> Mirrored(img, w, h, x, y)
  }

  ghost predicate Mirrored(img: Image, w: nat, h: nat, x: nat, y: nat)
    requires Sized(img, w, h) && x < w && y < h
  {
    img[y][x] == img[y][w - 1 - x] && img[y][x] == img[h - 1 - y][x]
  }

  lemma MirroredRow(img: Image, w: nat, h: nat, y: nat)
    requires Symmetric(img, w, h) && y < h
    ensures img[y] == img[h - 1 - y] && img[y] == Reverse(img[y])
  {
    forall x: nat | x < w
      ensures img[y][x] == img[h - 1 - y][x] && img[y][x] == img[y][w - 1 - x]
    {
      assert Mirrored(img, w, h, x, y);
    }
  }

  lemma MirroredColumn(img: Image, w: nat, h: nat, x: nat)
    requires Symmetric(img, w, h) && x < w
    ensures ColumnOf(img, w, x) == ColumnOf(img, w, w - 1 - x) && ColumnOf(img, w, x) == Reverse(ColumnOf(img, w, x))
  {
    forall y: nat | y < h
      ensures img[y][x] == img[h - 1 - y][x] && img[y][x] == img[y][w - 1 - x]
    {
      assert Mirrored(img, w, h, x, y);
    }
  }

  lemma PassHSymmetric(img: Image, w: nat, h: nat, radius: nat)
    requires Symmetric(img, w, h)
    ensures Symmetric(PassH(Naive, img, w, h, radius), w, h)
  {
    hide MeanLine;
    forall y: nat | y < h
      ensures img[y] == img[h - 1 - y] && img[y] == Reverse(img[y])
      ensures MeanLine(img[y], radius) == Reverse(MeanLine(img[y], radius))
    {
      MirroredRow(img, w, h, y);
      MeanReverse(img[y], radius);
    }
  }

  lemma PassVSymmetric(img: Image, w: nat, h: nat, radius: nat)
    requires Symmetric(img, w, h)
    ensures Symmetric(PassV(Naive, img, w, h, radius), w, h)
  {
    hide MeanLine;
    forall x: nat | x < w
      ensures ColumnOf(img, w, x) == ColumnOf(img, w, w - 1 - x)
      ensures MeanLine(ColumnOf(img, w, x), radius) == Reverse(MeanLine(ColumnOf(img, w, x), radius))
    {
      MirroredColumn(img, w, h, x);
      MeanReverse(ColumnOf(img, w, x), radius);
    }
  }

  /** Blurring keeps an image symmetric. */
  lemma {:induction false} PassesSymmetric(img: Image, w: nat, h: nat, radius: nat, n: nat)
    requires Symmetric(img, w, h)
    ensures Symmetric(Passes(Naive, img, w, h, radius, n), w, h)
  {
    hide PassH, PassV, Symmetric;
    SymmetricSized(img, w, h);
    if n > 0 {
      PassesSymmetric(img, w, h, radius, n - 1);
      var before := Passes(Naive, img, w, h, radius, n - 1);
      PassHSymmetric(before, w, h, radius);
      PassVSymmetric(PassH(Naive, before, w, h, radius), w, h, radius);
    }
  }

  lemma SymmetricSized(img: Image, w: nat, h: nat)
    requires Symmetric(img, w, h)
    ensures Sized(img, w, h)
  {}

  lemma EmptyWindow(line: seq<Byte>)
    requires |line| > 0
    ensures WindowSum(line, 0, 0) == 0
  {}

  lemma WindowGrow(line: seq<Byte>, x: nat)
    requires x < |line|
    ensures WindowSum(line, 0, x + 1) == WindowSum(line, 0, x) + line[x]
  {}

  lemma ColumnIndex(s: seq<Byte>, w: nat, h: nat, x: nat)
    requires |s| == w * h && x < w
    ensures forall y: nat :: y < h ==> At(w, x, y) == y * w + x < |s|
    ensures forall y: nat :: y < h ==> Column(s, w, h, x)[y] == s[At(w, x, y)]
  {
    forall y: nat | y < h
      ensures At(w, x, y) == y * w + x < |s| && Column(s, w, h, x)[y] == s[At(w, x, y)]
    {
      OneOfColumn(s, w, h, x, y);
    }
  }

  lemma OneOfColumn(s: seq<Byte>, w: nat, h: nat, x: nat, y: nat)
    requires |s| == w * h && x < w && y < h
    ensures At(w, x, y) == y * w + x < |s| && Column(s, w, h, x)[y] == s[At(w, x, y)]
  {
    AtFits(w, h, x, y);
  }
}
