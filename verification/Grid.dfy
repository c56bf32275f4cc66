/** Positions of a rectangle of cells in a flat, row-major buffer. */
module Grid {

  lemma MulMono(a: nat, b: nat, k: nat)
    requires a >= b
    ensures a * k >= b * k
  {}

  /** The index of column `x` of row `y`, rows `w` apart. */
  function At(w: nat, x: nat, y: nat): nat {
    y * w + x
  }

  lemma AtFits(w: nat, h: nat, x: nat, y: nat)
    requires x < w && y < h
    ensures At(w, x, y) < w * h
    ensures y * w + w <= w * h
  {
    assert (y + 1) * w <= h * w;
  }

  lemma AtDistinct(w: nat, x: nat, y: nat, x': nat, y': nat)
    requires x < w && x' < w && (x != x' || y != y')
    ensures At(w, x, y) != At(w, x', y')
  {
    if y < y' {
      assert (y + 1) * w <= y' * w;
    } else if y' < y {
      assert (y' + 1) * w <= y * w;
    }
  }

  /** Distinct positions have distinct indices, for every column and column `x`. */
  lemma ColumnsApart(w: nat, h: nat, x: nat)
    requires x < w
    ensures forall y: nat, x': nat :: x' < w && y < h ==> At(w, x', y) < w * h
    ensures forall y: nat, y': nat, x': nat :: x' < w && (x' != x || y != y') ==> At(w, x', y') != At(w, x, y)
  {
    forall y: nat, x': nat | x' < w && y < h
      ensures At(w, x', y) < w * h
    {
      AtFits(w, h, x', y);
    }
    forall y: nat, y': nat, x': nat | x' < w && (x' != x || y != y')
      ensures At(w, x', y') != At(w, x, y)
    {
      AtDistinct(w, x', y', x, y);
    }
  }

  lemma RowsApart(w: nat, h: nat, y: nat, y': nat)
    requires y < h && y' < h && y != y'
    ensures y * w + w <= y' * w || y' * w + w <= y * w
  {
    if y' < y {
      assert (y' + 1) * w <= y * w;
    } else {
      assert (y + 1) * w <= y' * w;
    }
  }

  lemma PositionsFit(w: nat, h: nat)
    ensures forall x: nat, y: nat :: x < w && y < h ==> At(w, x, y) < w * h
  {
    forall x: nat, y: nat | x < w && y < h
      ensures At(w, x, y) < w * h
    {
      AtFits(w, h, x, y);
    }
  }
}
