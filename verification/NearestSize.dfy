/** Which of the sizes a cursor file lists is loaded. */
module NearestSize {

  function Diff(a: nat, b: nat): nat {
    if a < b then b - a else a - b
  }

  /** The size kept after looking at every one in turn; 0 stands for none yet. */
  function Best(sizes: seq<nat>, requested: nat): nat {
    if sizes == [] then 0 else
      var best := Best(sizes[..|sizes| - 1], requested);
      var size := sizes[|sizes| - 1];
      if best == 0 || Diff(size, requested) < Diff(best, requested) then size else best
  }

  method FindNearest(sizes: seq<nat>, requested: nat) returns (best: nat)
    ensures best == Best(sizes, requested)
  {
    best := 0;
    for i := 0 to |sizes|
      invariant best == Best(sizes[..i], requested)
    {
      assert sizes[..i + 1][..i] == sizes[..i];
      if best == 0 || Diff(sizes[i], requested) < Diff(best, requested) {
        best := sizes[i];
      }
    }
    assert sizes[..|sizes|] == sizes;
  }

  /** The nearest size listed, the earliest of several; none if only zeros are. */
  ghost predicate IsNearest(sizes: seq<nat>, requested: nat, best: nat) {
    if best == 0 then forall i :: 0 <= i < |sizes| ==> sizes[i] == 0
    else exists i: nat :: NearestAt(sizes, requested, best, i)
  }

  ghost predicate NearestAt(sizes: seq<nat>, requested: nat, best: nat, i: nat) {
    && i < |sizes| && sizes[i] == best
    && forall j :: 0 <= j < |sizes| && sizes[j] != 0 ==>
      if j < i then Diff(best, requested) < Diff(sizes[j], requested) else Diff(best, requested) <= Diff(sizes[j], requested)
  }

  /** A size no further above the request than zero is below it. */
  ghost predicate HasClose(sizes: seq<nat>, requested: nat) {
    exists i :: 0 <= i < |sizes| && 0 < sizes[i] <= 2 * requested
  }

  /** The least size is listed after the last zero. */
  ghost predicate LeastIsLast(sizes: seq<nat>) {
    exists i: nat :: LeastAt(sizes, i)
  }

  ghost predicate LeastAt(sizes: seq<nat>, i: nat) {
    && i < |sizes| && sizes[i] > 0 && (forall j :: i < j < |sizes| ==> sizes[j] > 0)
    && forall j :: 0 <= j < |sizes| && sizes[j] > 0 ==> sizes[i] <= sizes[j]
  }

  lemma {:induction false} CloseIsNearest(sizes: seq<nat>, requested: nat)
    requires HasClose(sizes, requested)
    ensures IsNearest(sizes, requested, Best(sizes, requested)) && 0 < Best(sizes, requested) <= 2 * requested
  {
    var init, size := sizes[..|sizes| - 1], sizes[|sizes| - 1];
    var best := Best(init, requested);
    assert forall i :: 0 <= i < |init| ==> init[i] == sizes[i];
    if HasClose(init, requested) {
      CloseIsNearest(init, requested);
      var i: nat :| NearestAt(init, requested, best, i);
      NearestOrNew(sizes, requested, best, i);
    } else {
      BestIsListed(init, requested);
      NewIsNearest(sizes, requested);
    }
  }

  lemma NearestOrNew(sizes: seq<nat>, requested: nat, best: nat, i: nat)
    requires sizes != [] && best > 0 && best <= 2 * requested && NearestAt(sizes[..|sizes| - 1], requested, best, i)
    ensures
      var n := |sizes| - 1;
      if Diff(sizes[n], requested) < Diff(best, requested) then NearestAt(sizes, requested, sizes[n], n)
      else NearestAt(sizes, requested, best, i)
  {
    var init := sizes[..|sizes| - 1];
    assert forall j :: 0 <= j < |init| ==> init[j] == sizes[j];
  }

  lemma NewIsNearest(sizes: seq<nat>, requested: nat)
    requires sizes != [] && !HasClose(sizes[..|sizes| - 1], requested) && 0 < sizes[|sizes| - 1] <= 2 * requested
    ensures NearestAt(sizes, requested, sizes[|sizes| - 1], |sizes| - 1)
  {
    var init := sizes[..|sizes| - 1];
    assert forall j :: 0 <= j < |init| ==> init[j] == sizes[j];
  }

  lemma {:induction false} BestIsListed(sizes: seq<nat>, requested: nat)
    ensures Best(sizes, requested) == 0 || Best(sizes, requested) in sizes
  {
    if sizes != [] {
      BestIsListed(sizes[..|sizes| - 1], requested);
    }
  }

  lemma FarBest(sizes: seq<nat>, requested: nat)
    requires !HasClose(sizes, requested)
    ensures Best(sizes, requested) == 0 || Best(sizes, requested) > 2 * requested
  {
    BestIsListed(sizes, requested);
  }

  /** With nothing close, every zero starts the choice over. */
  lemma {:induction false} FarRestarts(sizes: seq<nat>, requested: nat, chosen: nat)
    requires !HasClose(sizes, requested) && chosen == Best(sizes, requested)
    ensures if sizes == [] || sizes[|sizes| - 1] == 0 then chosen == 0 else SinceZero(sizes, chosen)
  {
    if sizes != [] {
      var init, size := sizes[..|sizes| - 1], sizes[|sizes| - 1];
      assert forall i :: 0 <= i < |init| ==> init[i] == sizes[i];
      assert !HasClose(init, requested);
      var best := Best(init, requested);
      FarRestarts(init, requested, best);
      FarBest(init, requested);
      if size == 0 {
        assert best > 0 ==> Diff(0, requested) < Diff(best, requested);
      } else if best == 0 {
        assert init == [] || init[|init| - 1] == 0;
        assert LeastSinceZero(sizes, chosen, |init|, |init|);
      } else {
        var z: nat, i: nat :| LeastSinceZero(init, best, z, i);
        assert size > 2 * requested && best > 2 * requested;
        LeastExtends(sizes, best, z, i);
        assert LeastSinceZero(sizes, chosen, z, if size < best then |init| else i);
      }
    }
  }

  ghost predicate SinceZero(sizes: seq<nat>, best: nat) {
    exists z: nat, i: nat :: LeastSinceZero(sizes, best, z, i)
  }

  lemma LeastExtends(sizes: seq<nat>, best: nat, z: nat, i: nat)
    requires sizes != [] && sizes[|sizes| - 1] > 0 && LeastSinceZero(sizes[..|sizes| - 1], best, z, i)
    ensures
      var size := sizes[|sizes| - 1];
      if size < best then LeastSinceZero(sizes, size, z, |sizes| - 1) else LeastSinceZero(sizes, best, z, i)
  {
    var init := sizes[..|sizes| - 1];
    assert forall j :: 0 <= j < |init| ==> init[j] == sizes[j];
  }

  /** The least of the sizes from `z`, which follows the last zero. */
  ghost predicate LeastSinceZero(sizes: seq<nat>, best: nat, z: nat, i: nat) {
    && z <= i < |sizes| && sizes[i] == best && (z == 0 || sizes[z - 1] == 0)
    && forall j :: z <= j < |sizes| ==> 0 < best <= sizes[j]
  }

  /** The nearest size is chosen exactly when one is close, or none is listed, or the least is
      listed after the last zero: a listed zero otherwise makes the choice forget what came
      before it. */
  lemma NearestIff(sizes: seq<nat>, requested: nat)
    ensures IsNearest(sizes, requested, Best(sizes, requested)) <==>
      HasClose(sizes, requested) || (forall i :: 0 <= i < |sizes| ==> sizes[i] == 0) || LeastIsLast(sizes)
  {
    if HasClose(sizes, requested) {
      CloseIsNearest(sizes, requested);
    } else {
      var best := Best(sizes, requested);
      FarRestarts(sizes, requested, best);
      BestIsListed(sizes, requested);
      if best > 0 {
        var z: nat, i: nat :| LeastSinceZero(sizes, best, z, i);
        FarNearest(sizes, requested, best, z, i);
      }
    }
  }

  lemma FarNearest(sizes: seq<nat>, requested: nat, best: nat, z: nat, i: nat)
    requires !HasClose(sizes, requested) && LeastSinceZero(sizes, best, z, i)
    ensures IsNearest(sizes, requested, best) <==> LeastIsLast(sizes)
  {
    assert forall j :: 0 <= j < |sizes| && sizes[j] > 0 ==> sizes[j] > 2 * requested;
    if LeastIsLast(sizes) {
      var k: nat :| LeastAt(sizes, k);
      assert sizes[k] == best;
      var first := Earliest(sizes, best, i);
      assert NearestAt(sizes, requested, best, first);
    }
    if IsNearest(sizes, requested, best) {
      var n: nat :| NearestAt(sizes, requested, best, n);
      assert LeastAt(sizes, i);
    }
  }

  ghost function {:induction false} Earliest(sizes: seq<nat>, size: nat, i: nat): (k: nat)
    requires i < |sizes| && sizes[i] == size
    ensures k <= i && sizes[k] == size && forall j :: 0 <= j < k ==> sizes[j] != size
  {
    if exists j :: 0 <= j < i && sizes[j] == size then
      var j: nat :| j < i && sizes[j] == size;
      Earliest(sizes, size, j)
    else i
  }

  /** Without zeros, the earliest of the nearest sizes is always the one chosen. */
  lemma {:induction false} NonzeroIsNearest(sizes: seq<nat>, requested: nat)
    requires forall i :: 0 <= i < |sizes| ==> sizes[i] > 0
    ensures IsNearest(sizes, requested, Best(sizes, requested))
  {
    if sizes != [] {
      var init := sizes[..|sizes| - 1];
      NonzeroIsNearest(init, requested);
      if init != [] {
        var best := Best(init, requested);
        var i: nat :| NearestAt(init, requested, best, i);
        if Best(sizes, requested) == best {
          assert NearestAt(sizes, requested, best, i);
        } else {
          assert NearestAt(sizes, requested, Best(sizes, requested), |init|);
        }
      } else {
        assert NearestAt(sizes, requested, Best(sizes, requested), 0);
      }
    }
  }

  /** A pack of 5 and 7 pixels that lists a zero between them: asked for 1, the 7 is loaded. */
  lemma ZeroForgetsExample()
    ensures Best([5, 0, 7], 1) == 7 && !IsNearest([5, 0, 7], 1, 7)
  {
    assert [5, 0, 7][..2] == [5, 0] && [5, 0][..1] == [5] && [5][..0] == [];
    assert Best([5], 1) == 5;
    assert Best([5, 0], 1) == 0;
    forall i: nat
      ensures !NearestAt([5, 0, 7], 1, 7, i)
    {
      var s := [5, 0, 7];
      assert s[0] == 5 && s[1] == 0 && s[2] == 7;
    }
  }
}
