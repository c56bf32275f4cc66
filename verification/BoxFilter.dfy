/** Area-weighted box filtering in 24.8 fixed point: a destination cell is the mean of the source
    cells its preimage touches, each weighted by the area of it that falls inside. */
module BoxFilter {
  import opened Pixels

  /** Source values: the byte of a channel at a column and row. */
  type Source = (nat, nat) -> Byte

  function MinInt(x: int, y: int): int {
    if x < y then x else y
  }

  function MaxInt(x: int, y: int): int {
    if x > y then x else y
  }

  /** How much of `[lo, hi)` lies in `[a, b)`. */
  function Overlap(a: int, b: int, lo: int, hi: int): nat {
    MaxInt(0, MinInt(hi, b) - MaxInt(lo, a))
  }

  /** How much of source cell `k`, 256 units long, lies in `[lo, hi)`. */
  function Cover(k: nat, lo: nat, hi: nat): nat {
    Overlap(256 * k, 256 * k + 256, lo, hi)
  }

  /** The first cell a span touches, and the one past the last. */
  function First(lo: nat): nat {
    lo / 256
  }

  function End(hi: nat): nat {
    (hi + 255) / 256
  }

  // ----- One axis

  function CoverSum(lo: nat, hi: nat, a: nat, b: nat): nat {
    if a >= b then 0 else CoverSum(lo, hi, a, b - 1) + Cover(b - 1, lo, hi)
  }

  lemma {:induction false} CoverSumIs(lo: nat, hi: nat, a: nat, b: nat)
    requires lo <= hi && a <= b
    ensures CoverSum(lo, hi, a, b) == Overlap(256 * a, 256 * b, lo, hi)
  {
    if a < b {
      CoverSumIs(lo, hi, a, b - 1);
    }
  }

  /** The cells a span touches cover it exactly. */
  lemma CoversSpan(lo: nat, hi: nat)
    requires lo <= hi
    ensures First(lo) <= End(hi) && CoverSum(lo, hi, First(lo), End(hi)) == hi - lo
  {
    CoverSumIs(lo, hi, First(lo), End(hi));
  }

  /** In the loop the cells are the touched ones, where the subtraction cannot go below zero. */
  lemma TouchedCover(k: nat, lo: nat, hi: nat)
    requires lo < hi && First(lo) <= k < End(hi)
    ensures MinInt(hi, 256 * (k + 1)) - MaxInt(lo, 256 * k) == Cover(k, lo, hi) > 0
  {}

  /** What source cell `k` contributes to the first `n` destination cells, each `f` long. */
  function Contribution(k: nat, f: nat, n: nat): nat {
    if n == 0 then 0 else Contribution(k, f, n - 1) + Cover(k, (n - 1) * f, n * f)
  }

  /** It is counted once for its overlap with the covered extent: nothing is dropped inside it,
      and nothing counted twice. */
  lemma {:induction false} ContributionIs(k: nat, f: nat, n: nat)
    ensures Contribution(k, f, n) == Cover(k, 0, n * f)
  {
    if n > 0 {
      ContributionIs(k, f, n - 1);
      Multiple(n, f);
    }
  }

  lemma Multiple(n: nat, f: nat)
    requires n > 0
    ensures n * f == (n - 1) * f + f
  {}

  // ----- Both axes

  /** One source row's values, weighted by their widths. */
  function RowSum(v: Source, y: nat, left: nat, right: nat, a: nat, b: nat): nat {
    if a >= b then 0 else RowSum(v, y, left, right, a, b - 1) + Cover(b - 1, left, right) * v(b - 1, y)
  }

  /** The box's values, weighted by their areas. */
  function BoxSum(v: Source, left: nat, right: nat, top: nat, bottom: nat, a: nat, b: nat, c: nat, d: nat): nat {
    if c >= d then 0
    else BoxSum(v, left, right, top, bottom, a, b, c, d - 1) + Cover(d - 1, top, bottom) * RowSum(v, d - 1, left, right, a, b)
  }

  /** A box in source space, 256 units to a cell. */
  datatype Span = Span(left: nat, right: nat, top: nat, bottom: nat) {
    function Area(): nat
      requires left <= right && top <= bottom
    {
      (right - left) * (bottom - top)
    }
  }

  ghost predicate Proper(s: Span) {
    s.left < s.right && s.top < s.bottom
  }

  function Sum(v: Source, s: Span): nat {
    BoxSum(v, s.left, s.right, s.top, s.bottom, First(s.left), End(s.right), First(s.top), End(s.bottom))
  }

  /** Whether a source cell is touched by a span. */
  ghost predicate Touches(s: Span, x: nat, y: nat) {
    First(s.left) <= x < End(s.right) && First(s.top) <= y < End(s.bottom)
  }

  lemma {:induction false} RowSumBetween(v: Source, w: Source, y: nat, left: nat, right: nat, a: nat, b: nat)
    requires a <= b && forall x: nat :: a <= x < b ==> v(x, y) <= w(x, y)
    ensures RowSum(v, y, left, right, a, b) <= RowSum(w, y, left, right, a, b)
  {
    if a < b {
      RowSumBetween(v, w, y, left, right, a, b - 1);
      MulLe(Cover(b - 1, left, right), v(b - 1, y), w(b - 1, y));
    }
  }

  lemma MulLe(k: nat, x: nat, y: nat)
    requires x <= y
    ensures k * x <= k * y
  {}

  lemma Distribute(x: nat, y: nat, k: nat)
    ensures (x + y) * k == x * k + y * k
  {}

  lemma Reassociate(x: nat, y: nat, k: nat)
    ensures x * (y * k) == (y * x) * k
  {}

  lemma {:induction false} BoxSumBetween(v: Source, w: Source, left: nat, right: nat, top: nat, bottom: nat,
                                         a: nat, b: nat, c: nat, d: nat)
    requires a <= b && c <= d && forall x: nat, y: nat :: a <= x < b && c <= y < d ==> v(x, y) <= w(x, y)
    ensures BoxSum(v, left, right, top, bottom, a, b, c, d) <= BoxSum(w, left, right, top, bottom, a, b, c, d)
  {
    hide Cover;
    if c < d {
      BoxSumBetween(v, w, left, right, top, bottom, a, b, c, d - 1);
      RowSumBetween(v, w, d - 1, left, right, a, b);
      MulLe(Cover(d - 1, top, bottom), RowSum(v, d - 1, left, right, a, b), RowSum(w, d - 1, left, right, a, b));
    }
  }

  /** The box sum is monotone in the values it touches. */
  lemma SumMonotone(v: Source, w: Source, s: Span)
    requires Proper(s) && forall x: nat, y: nat :: Touches(s, x, y) ==> v(x, y) <= w(x, y)
    ensures Sum(v, s) <= Sum(w, s)
  {
    CoversSpan(s.left, s.right);
    CoversSpan(s.top, s.bottom);
    BoxSumBetween(v, w, s.left, s.right, s.top, s.bottom, First(s.left), End(s.right), First(s.top), End(s.bottom));
  }

  lemma {:induction false} RowSumConst(v: Source, y: nat, left: nat, right: nat, a: nat, b: nat, m: Byte)
    requires a <= b && forall x: nat :: a <= x < b ==> v(x, y) == m
    ensures RowSum(v, y, left, right, a, b) == CoverSum(left, right, a, b) * m
  {
    hide Cover;
    if a < b {
      RowSumConst(v, y, left, right, a, b - 1, m);
    }
  }

  lemma {:induction false} BoxSumConst(v: Source, left: nat, right: nat, top: nat, bottom: nat,
                                       a: nat, b: nat, c: nat, d: nat, m: Byte)
    requires a <= b && c <= d && forall x: nat, y: nat :: a <= x < b && c <= y < d ==> v(x, y) == m
    ensures BoxSum(v, left, right, top, bottom, a, b, c, d) == CoverSum(top, bottom, c, d) * (CoverSum(left, right, a, b) * m)
  {
    hide Cover, RowSum;
    if c < d {
      BoxSumConst(v, left, right, top, bottom, a, b, c, d - 1, m);
      RowSumConst(v, d - 1, left, right, a, b, m);
      Distribute(CoverSum(top, bottom, c, d - 1), Cover(d - 1, top, bottom), CoverSum(left, right, a, b) * m);
    }
  }

  /** A box of one value sums to its area times that value: the weights total the area. */
  lemma SumConstant(v: Source, s: Span, m: Byte)
    requires Proper(s) && forall x: nat, y: nat :: Touches(s, x, y) ==> v(x, y) == m
    ensures Sum(v, s) == s.Area() * m
  {
    hide BoxSum, CoverSum, First, End;
    CoversSpan(s.left, s.right);
    CoversSpan(s.top, s.bottom);
    BoxSumConst(v, s.left, s.right, s.top, s.bottom, First(s.left), End(s.right), First(s.top), End(s.bottom), m);
    Reassociate(s.bottom - s.top, s.right - s.left, m);
  }

  /** Between the least and the greatest value of the box. */
  lemma SumBetween(v: Source, s: Span, lo: Byte, hi: Byte)
    requires Proper(s) && forall x: nat, y: nat :: Touches(s, x, y) ==> lo <= v(x, y) <= hi
    ensures s.Area() * lo <= Sum(v, s) <= s.Area() * hi
  {
    var below, above := (x: nat, y: nat) => lo, (x: nat, y: nat) => hi;
    SumConstant(below, s, lo);
    SumConstant(above, s, hi);
    SumMonotone(below, v, s);
    SumMonotone(v, above, s);
  }

  // ----- The rounded mean

  lemma RoundedFits(sum: nat, area: nat, lo: nat, hi: nat)
    requires area > 0 && area * lo <= sum <= area * hi
    ensures lo <= (sum + area / 2) / area <= hi
  {
    var q := (sum + area / 2) / area;
    DivIs(sum + area / 2, area, q);
    if q > hi {
      MulLe(area, hi + 1, q);
    }
    if q < lo {
      MulLe(area, q + 1, lo);
    }
  }

  lemma DivIs(n: nat, d: nat, q: nat)
    requires d > 0 && q == n / d
    ensures d * q <= n < d * (q + 1) && d * (q + 1) == d * q + d
  {}

  lemma AreaPositive(s: Span)
    requires Proper(s)
    ensures s.Area() > 0
  {
    assert (s.right - s.left) * (s.bottom - s.top) >= 1 * 1;
  }

  /** The rounded mean of a channel over a box. */
  function Mean(v: Source, s: Span): (m: Byte)
    requires Proper(s)
  {
    AreaPositive(s);
    SumBetween(v, s, 0, 255);
    RoundedFits(Sum(v, s), s.Area(), 0, 255);
    (Sum(v, s) + s.Area() / 2) / s.Area()
  }

  /** It lies between the least and the greatest value it averages, so flat color survives. */
  lemma MeanBetween(v: Source, s: Span, lo: Byte, hi: Byte)
    requires Proper(s) && forall x: nat, y: nat :: Touches(s, x, y) ==> lo <= v(x, y) <= hi
    ensures lo <= Mean(v, s) <= hi
  {
    AreaPositive(s);
    SumBetween(v, s, lo, hi);
    RoundedFits(Sum(v, s), s.Area(), lo, hi);
  }

  /** A channel nowhere above another has a mean no higher. */
  lemma MeanMonotone(v: Source, w: Source, s: Span)
    requires Proper(s) && forall x: nat, y: nat :: Touches(s, x, y) ==> v(x, y) <= w(x, y)
    ensures Mean(v, s) <= Mean(w, s)
  {
    hide Sum;
    AreaPositive(s);
    SumMonotone(v, w, s);
    var area := s.Area();
    DivIs(Sum(v, s) + area / 2, area, Mean(v, s));
    DivIs(Sum(w, s) + area / 2, area, Mean(w, s));
    if Mean(v, s) > Mean(w, s) {
      MulLe(area, Mean(w, s) + 1, Mean(v, s));
    }
  }

  /** And it is the nearest byte: off by no more than half the area it divides by. */
  lemma MeanNearest(v: Source, s: Span)
    requires Proper(s)
    ensures 0 - s.Area() <= 2 * (s.Area() * Mean(v, s) - Sum(v, s)) <= s.Area()
  {
    hide Sum;
    AreaPositive(s);
    DivIs(Sum(v, s) + s.Area() / 2, s.Area(), Mean(v, s));
  }

  // ----- Every destination cell together

  /** The preimage of destination cell (dx, dy) when the cells are `fx` by `fy`. */
  function Preimage(fx: nat, fy: nat, dx: nat, dy: nat): Span {
    Span(dx * fx, dx * fx + fx, dy * fy, dy * fy + fy)
  }

  lemma PreimageArea(fx: nat, fy: nat, dx: nat, dy: nat)
    ensures Preimage(fx, fy, dx, dy).Area() == fx * fy
    ensures fx > 0 && fy > 0 ==> Proper(Preimage(fx, fy, dx, dy))
  {}

  /** The weight of source cell (sx, sy) in destination cell (dx, dy). */
  function Weight(fx: nat, fy: nat, dx: nat, dy: nat, sx: nat, sy: nat): nat {
    Cover(sx, dx * fx, dx * fx + fx) * Cover(sy, dy * fy, dy * fy + fy)
  }

  function WeightInRow(fx: nat, fy: nat, n: nat, dy: nat, sx: nat, sy: nat): nat {
    if n == 0 then 0 else WeightInRow(fx, fy, n - 1, dy, sx, sy) + Weight(fx, fy, n - 1, dy, sx, sy)
  }

  /** Its weight over `n` by `m` destination cells. */
  function WeightInAll(fx: nat, fy: nat, n: nat, m: nat, sx: nat, sy: nat): nat {
    if m == 0 then 0 else WeightInAll(fx, fy, n, m - 1, sx, sy) + WeightInRow(fx, fy, n, m - 1, sx, sy)
  }

  lemma {:induction false} WeightInRowIs(fx: nat, fy: nat, n: nat, dy: nat, sx: nat, sy: nat)
    ensures WeightInRow(fx, fy, n, dy, sx, sy) == Contribution(sx, fx, n) * Cover(sy, dy * fy, dy * fy + fy)
  {
    hide Cover;
    if n > 0 {
      WeightInRowIs(fx, fy, n - 1, dy, sx, sy);
      Multiple(n, fx);
    }
  }

  lemma {:induction false} WeightInAllIs(fx: nat, fy: nat, n: nat, m: nat, sx: nat, sy: nat)
    ensures WeightInAll(fx, fy, n, m, sx, sy) == Contribution(sx, fx, n) * Contribution(sy, fy, m)
  {
    hide Cover;
    if m > 0 {
      WeightInAllIs(fx, fy, n, m - 1, sx, sy);
      WeightInRowIs(fx, fy, n, m - 1, sx, sy);
      OneMoreRow(fx, fy, n, m, sx, sy, Contribution(sx, fx, n), Contribution(sy, fy, m - 1), Cover(sy, (m - 1) * fy, (m - 1) * fy + fy));
    }
  }

  lemma OneMoreRow(fx: nat, fy: nat, n: nat, m: nat, sx: nat, sy: nat, across: nat, down: nat, last: nat)
    requires m > 0 && down == Contribution(sy, fy, m - 1) && last == Cover(sy, (m - 1) * fy, (m - 1) * fy + fy)
    requires WeightInAll(fx, fy, n, m - 1, sx, sy) == across * down && WeightInRow(fx, fy, n, m - 1, sx, sy) == across * last
    ensures WeightInAll(fx, fy, n, m, sx, sy) == across * Contribution(sy, fy, m)
  {
    hide Cover, WeightInRow;
    Multiple(m, fy);
    assert across * (down + last) == across * down + across * last;
  }

  /** Over the whole destination a source cell weighs exactly its overlap with the covered extent:
      a cell wholly inside counts once, for its full area of 256 by 256. */
  lemma EveryCellOnce(fx: nat, fy: nat, n: nat, m: nat, sx: nat, sy: nat)
    ensures WeightInAll(fx, fy, n, m, sx, sy) == Cover(sx, 0, n * fx) * Cover(sy, 0, m * fy)
    ensures 256 * sx + 256 <= n * fx && 256 * sy + 256 <= m * fy ==> WeightInAll(fx, fy, n, m, sx, sy) == 65536
  {
    hide Cover, Contribution, WeightInAll;
    WeightInAllIs(fx, fy, n, m, sx, sy);
    ContributionIs(sx, fx, n);
    ContributionIs(sy, fy, m);
    WholeCell(sx, n * fx);
    WholeCell(sy, m * fy);
  }

  lemma WholeCell(k: nat, extent: nat)
    ensures 256 * k + 256 <= extent ==> Cover(k, 0, extent) == 256
  {}
}
