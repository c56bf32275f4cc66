/** Splitting zpos-ordered layers over planes that stack by plane id.

    Where no plane exposes a zpos, layers in zpos order have to sit on planes in id order, and the
    layers left over form one contiguous run, blended onto a canvas plane between the run's
    neighbours.  Two greedy fits, from the bottom up and from the top down, are enough to find
    the best such arrangement. */
module PlaneOrders {
  import opened Options

  datatype Range = Range(start: nat, end: nat)

  /** Which planes could carry the canvas, when there is one. */
  datatype Canvas = NoCanvas | Canvas(on: nat -> bool)

  /** A split: which layers the canvas takes, and the plane that carries it. */
  datatype Choice = Choice(run: Range, canvas: Option<nat>)

  /** Both tables of greedy fits: packed downward from below, and upward from above. */
  datatype PlaneOrder = PlaneOrder(
    pre: seq<Option<nat>>, prePlane: seq<Option<nat>>,
    suf: seq<Option<nat>>, sufPlane: seq<Option<nat>>)

  // ----- What an arrangement is, independently of how one is found

  /** Layers `[lo, hi)` sit on strictly ascending planes below `m` that they fit. */
  ghost predicate Climbs(fits: (nat, nat) -> bool, m: nat, p: seq<nat>, lo: nat, hi: nat) {
    && hi <= |p|
    && (forall i: nat :: lo <= i < hi ==> p[i] < m && fits(i, p[i]))
    && forall i: nat, j: nat :: lo <= i < j < hi ==> p[i] < p[j]
  }

  /** Everything outside `run` on ascending planes; with a canvas, a non-empty run has a plane
      that hosts it strictly between the layers below and the layers above. */
  ghost predicate Arrangement(fits: (nat, nat) -> bool, hosts: Canvas, n: nat, m: nat,
                              choice: Choice, p: seq<nat>)
  {
    var a, b := choice.run.start, choice.run.end;
    && a <= b <= n == |p|
    && Climbs(fits, m, p, 0, a) && Climbs(fits, m, p, b, n)
    && (forall i: nat, j: nat :: i < a && b <= j < n ==> p[i] < p[j])
    && if hosts.Canvas? && a < b then
         choice.canvas.Some? && Between(hosts.on, m, p, a, b, choice.canvas.value)
       else choice.canvas.None?
  }

  ghost predicate Between(hosts: nat -> bool, m: nat, p: seq<nat>, a: nat, b: nat, c: nat)
    requires a <= b <= |p|
  {
    && c < m && hosts(c)
    && (forall i: nat :: i < a ==> p[i] < c)
    && forall j: nat :: b <= j < |p| ==> c < p[j]
  }

  predicate Admissible(n: nat, maxPlaced: nat, forced: Option<Range>, run: Range) {
    && run.start <= run.end <= n
    && (forced.Some? ==> run.start <= forced.value.start && forced.value.end <= run.end)
    && PlacedCount(n, run) <= maxPlaced
  }

  function PlacedCount(n: nat, run: Range): nat
    requires run.start <= run.end <= n
  {
    n - (run.end - run.start)
  }

  function CostOf(cost: nat -> int, a: nat, b: nat): int
    requires a <= b
    decreases b - a
  {
    if a == b then 0 else CostOf(cost, a, b - 1) + cost(b - 1)
  }

  /** More layers placed, or as many with less composited cost, or with as much and tried no later. */
  predicate NoWorse(n: nat, cost: nat -> int, x: Range, y: Range)
    requires x.start <= x.end <= n && y.start <= y.end <= n
  {
    || PlacedCount(n, x) > PlacedCount(n, y)
    || (PlacedCount(n, x) == PlacedCount(n, y) &&
        (|| CostOf(cost, x.start, x.end) < CostOf(cost, y.start, y.end)
         || (CostOf(cost, x.start, x.end) == CostOf(cost, y.start, y.end) && (x == y || Considered(x, y.start, y.end)))))
  }

  // ----- The greedy fits

  /** Bottom-up: layer `i` takes the first plane it fits above the layers before it. */
  ghost predicate TakesFirst(fits: (nat, nat) -> bool, m: nat, i: nat, from: Option<nat>, plane: Option<nat>, next: Option<nat>) {
    if from.Some? && plane.Some? then
      && from.value <= plane.value < m && fits(i, plane.value)
      && (forall k: nat :: from.value <= k < plane.value ==> !fits(i, k))
      && next.Some? && next.value == plane.value + 1
    else
      && plane.None? && next.None?
      && (from.Some? ==> forall k: nat :: from.value <= k < m ==> !fits(i, k))
  }

  ghost predicate Earliest(fits: (nat, nat) -> bool, m: nat, pre: seq<Option<nat>>, plane: seq<Option<nat>>, upto: nat) {
    && |pre| == |plane| + 1 && upto <= |plane|
    && pre[0] == Some(0)
    && forall i: nat :: i < upto ==> TakesFirst(fits, m, i, pre[i], plane[i], pre[i + 1])
  }

  /** Top-down: layer `i` takes the last plane it fits below the layers after it. */
  ghost predicate TakesLast(fits: (nat, nat) -> bool, i: nat, below: Option<nat>, plane: Option<nat>) {
    if below.Some? && plane.Some? then
      && plane.value < below.value && fits(i, plane.value)
      && forall k: nat :: plane.value < k < below.value ==> !fits(i, k)
    else
      && plane.None?
      && (below.Some? ==> forall k: nat :: k < below.value ==> !fits(i, k))
  }

  ghost predicate Latest(fits: (nat, nat) -> bool, m: nat, suf: seq<Option<nat>>, plane: seq<Option<nat>>, downto: nat) {
    && |suf| == |plane| + 1
    && suf[|plane|] == Some(m)
    && forall i: nat :: downto <= i < |plane| ==> suf[i] == plane[i] && TakesLast(fits, i, suf[i + 1], plane[i])
  }

  ghost predicate Greedy(fits: (nat, nat) -> bool, n: nat, m: nat, order: PlaneOrder) {
    && |order.prePlane| == n == |order.sufPlane|
    && |order.pre| == n + 1 == |order.suf|
    && Earliest(fits, m, order.pre, order.prePlane, n)
    && Latest(fits, m, order.suf, order.sufPlane, 0)
  }

  /** Fit `n` zpos-ordered layers onto `m` id-ordered planes, both ways. */
  method New(n: nat, m: nat, fits: (nat, nat) -> bool) returns (order: PlaneOrder)
    ensures Greedy(fits, n, m, order)
  {
    hide *;
    var pre: seq<Option<nat>> := seq(n + 1, _ => None)[0 := Some(0)];
    var prePlane: seq<Option<nat>> := seq(n, _ => None);
    var i := 0;
    UpStarts(fits, n, m, pre, prePlane);
    while i < n && pre[i].Some?
      invariant i <= n && |pre| == n + 1 && |prePlane| == n
      invariant UpTo(fits, n, m, pre, prePlane, i)
    {
      ghost var pre0, prePlane0 := pre, prePlane;
      var j := FindUp(fits, i, pre[i].value, m);
      if j.Some? {
        prePlane := prePlane[i := j];
        pre := pre[i + 1 := Some(j.value + 1)];
      }
      UpStep(fits, n, m, pre0, prePlane0, i, j, pre, prePlane);
      i := i + 1;
    }
    UpEnds(fits, n, m, pre, prePlane, i);
    var suf: seq<Option<nat>> := seq(n + 1, _ => None)[n := Some(m)];
    var sufPlane: seq<Option<nat>> := seq(n, _ => None);
    i := n;
    DownStarts(fits, n, m, suf, sufPlane);
    while i > 0 && suf[i].Some?
      invariant i <= n && |suf| == n + 1 && |sufPlane| == n
      invariant DownTo(fits, n, m, suf, sufPlane, i)
    {
      ghost var suf0, sufPlane0 := suf, sufPlane;
      var layer, below := i - 1, suf[i].value;
      var ok := (k: nat) => fits(layer, k);
      var j := FindDown(ok, 0, below);
      forall k: nat | k < below && (j.Some? ==> j.value < k)
        ensures !fits(layer, k)
      {
        assert !ok(k);
      }
      if j.Some? {
        sufPlane := sufPlane[i - 1 := j];
        suf := suf[i - 1 := j];
      }
      DownStep(fits, n, m, suf0, sufPlane0, i, layer, j, suf, sufPlane);
      i := i - 1;
    }
    DownEnds(fits, n, m, suf, sufPlane, i);
    order := PlaneOrder(pre, prePlane, suf, sufPlane);
    BothWays(fits, n, m, order);
  }

  /** Layers below `i` are placed earliest first, and the rest are not yet. */
  ghost predicate UpTo(fits: (nat, nat) -> bool, n: nat, m: nat, pre: seq<Option<nat>>, prePlane: seq<Option<nat>>, i: nat) {
    && |pre| == n + 1 && |prePlane| == n && i <= n
    && Earliest(fits, m, pre, prePlane, i)
    && (forall k :: i < k <= n ==> pre[k].None?)
    && forall k :: i <= k < n ==> prePlane[k].None?
  }

  lemma UpStarts(fits: (nat, nat) -> bool, n: nat, m: nat, pre: seq<Option<nat>>, prePlane: seq<Option<nat>>)
    requires |pre| == n + 1 && |prePlane| == n && pre[0] == Some(0)
    requires (forall k :: 0 < k <= n ==> pre[k].None?) && forall k :: 0 <= k < n ==> prePlane[k].None?
    ensures UpTo(fits, n, m, pre, prePlane, 0)
  {}

  lemma UpStep(fits: (nat, nat) -> bool, n: nat, m: nat, pre: seq<Option<nat>>, prePlane: seq<Option<nat>>, i: nat, j: Option<nat>,
               nextPre: seq<Option<nat>>, nextPlane: seq<Option<nat>>)
    requires i < n && UpTo(fits, n, m, pre, prePlane, i) && |pre| == n + 1 && |prePlane| == n && pre[i].Some?
    requires if j.Some? then nextPre == pre[i + 1 := Some(j.value + 1)] && nextPlane == prePlane[i := j]
      else nextPre == pre && nextPlane == prePlane
    requires j.Some? ==>
      && pre[i].value <= j.value < m && fits(i, j.value)
      && forall k: nat :: pre[i].value <= k < j.value ==> !fits(i, k)
    requires j.None? ==> forall k: nat :: pre[i].value <= k < m ==> !fits(i, k)
    ensures UpTo(fits, n, m, nextPre, nextPlane, i + 1)
  {
    hide TakesFirst;
    assert TakesFirst(fits, m, i, nextPre[i], nextPlane[i], nextPre[i + 1]) by {
      FirstTaken(fits, m, i, pre[i], j, nextPre[i + 1]);
    }
  }

  lemma FirstTaken(fits: (nat, nat) -> bool, m: nat, i: nat, from: Option<nat>, j: Option<nat>, next: Option<nat>)
    requires from.Some?
    requires next == if j.Some? then Some(j.value + 1) else None
    requires j.Some? ==>
      && from.value <= j.value < m && fits(i, j.value)
      && forall k: nat :: from.value <= k < j.value ==> !fits(i, k)
    requires j.None? ==> forall k: nat :: from.value <= k < m ==> !fits(i, k)
    ensures TakesFirst(fits, m, i, from, j, next)
  {}

  /** A layer that cannot be placed leaves none above it placed. */
  lemma UpEnds(fits: (nat, nat) -> bool, n: nat, m: nat, pre: seq<Option<nat>>, prePlane: seq<Option<nat>>, i: nat)
    requires UpTo(fits, n, m, pre, prePlane, i) && i <= n && |pre| == n + 1 && (i == n || pre[i].None?)
    ensures Earliest(fits, m, pre, prePlane, n)
  {}

  /** Layers from `i` up are placed latest first, and the rest are not yet. */
  ghost predicate DownTo(fits: (nat, nat) -> bool, n: nat, m: nat, suf: seq<Option<nat>>, sufPlane: seq<Option<nat>>, i: nat) {
    && |suf| == n + 1 && |sufPlane| == n && i <= n
    && Latest(fits, m, suf, sufPlane, i)
    && forall k :: 0 <= k < i ==> suf[k].None? && sufPlane[k].None?
  }

  lemma DownStarts(fits: (nat, nat) -> bool, n: nat, m: nat, suf: seq<Option<nat>>, sufPlane: seq<Option<nat>>)
    requires |suf| == n + 1 && |sufPlane| == n && suf[n] == Some(m)
    requires forall k :: 0 <= k < n ==> suf[k].None? && sufPlane[k].None?
    ensures DownTo(fits, n, m, suf, sufPlane, n)
  {}

  lemma DownStep(fits: (nat, nat) -> bool, n: nat, m: nat, suf: seq<Option<nat>>, sufPlane: seq<Option<nat>>, i: nat, layer: nat, j: Option<nat>,
                 nextSuf: seq<Option<nat>>, nextPlane: seq<Option<nat>>)
    requires layer + 1 == i <= n && DownTo(fits, n, m, suf, sufPlane, i) && |suf| == n + 1 && |sufPlane| == n && suf[i].Some?
    requires if j.Some? then nextSuf == suf[layer := j] && nextPlane == sufPlane[layer := j]
      else nextSuf == suf && nextPlane == sufPlane
    requires j.Some? ==> j.value < suf[i].value && fits(layer, j.value)
    requires forall k: nat :: k < suf[i].value && (j.Some? ==> j.value < k) ==> !fits(layer, k)
    ensures DownTo(fits, n, m, nextSuf, nextPlane, layer)
  {
    hide TakesLast;
    assert TakesLast(fits, layer, nextSuf[i], nextPlane[layer]) by {
      LastTaken(fits, layer, suf[i], j);
    }
  }

  lemma LastTaken(fits: (nat, nat) -> bool, i: nat, below: Option<nat>, j: Option<nat>)
    requires below.Some? && (j.Some? ==> j.value < below.value && fits(i, j.value))
    requires forall k: nat :: k < below.value && (j.Some? ==> j.value < k) ==> !fits(i, k)
    ensures TakesLast(fits, i, below, j)
  {}

  lemma DownEnds(fits: (nat, nat) -> bool, n: nat, m: nat, suf: seq<Option<nat>>, sufPlane: seq<Option<nat>>, i: nat)
    requires DownTo(fits, n, m, suf, sufPlane, i) && i <= n && |suf| == n + 1 && (i == 0 || suf[i].None?)
    ensures Latest(fits, m, suf, sufPlane, 0)
  {}

  lemma BothWays(fits: (nat, nat) -> bool, n: nat, m: nat, order: PlaneOrder)
    requires |order.prePlane| == n == |order.sufPlane| && |order.pre| == n + 1 == |order.suf|
    requires Earliest(fits, m, order.pre, order.prePlane, n) && Latest(fits, m, order.suf, order.sufPlane, 0)
    ensures Greedy(fits, n, m, order)
  {}

  /** The first plane in `[from, to)` the layer fits. */
  method FindUp(fits: (nat, nat) -> bool, layer: nat, from: nat, to: nat) returns (j: Option<nat>)
    ensures j.Some? ==>
      && from <= j.value < to && fits(layer, j.value)
      && forall k: nat :: from <= k < j.value ==> !fits(layer, k)
    ensures j.None? ==> forall k: nat :: from <= k < to ==> !fits(layer, k)
  {
    var k := from;
    while k < to
      invariant from <= k
      invariant forall x: nat :: from <= x < k && x < to ==> !fits(layer, x)
    {
      if fits(layer, k) {
        return Some(k);
      }
      k := k + 1;
    }
    return None;
  }

  /** The last plane in `[from, to)` that qualifies. */
  method FindDown(ok: nat -> bool, from: nat, to: nat) returns (j: Option<nat>)
    ensures j.Some? ==> from <= j.value < to && ok(j.value) && forall k: nat :: j.value < k < to ==> !ok(k)
    ensures j.None? ==> forall k: nat :: from <= k < to ==> !ok(k)
  {
    var k := to;
    while k > from
      invariant k <= to
      invariant forall x: nat :: from <= x && k <= x < to ==> !ok(x)
    {
      k := k - 1;
      if ok(k) {
        return Some(k);
      }
    }
    return None;
  }

  // ----- Greedy is optimal

  /** No fit of the lowest `a` layers frees a lower plane than the earliest-first one, which
      exists whenever any does. */
  lemma {:induction false} EarliestIsLeast(fits: (nat, nat) -> bool, n: nat, m: nat, order: PlaneOrder, p: seq<nat>, a: nat)
    requires Greedy(fits, n, m, order) && a <= n
    requires Climbs(fits, m, p, 0, a)
    ensures order.pre[a].Some?
    ensures a > 0 ==> order.pre[a].value <= p[a - 1] + 1
    ensures a == 0 ==> order.pre[a].value == 0
  {
    if a > 0 {
      EarliestIsLeast(fits, n, m, order, p, a - 1);
      assert fits(a - 1, p[a - 1]);
      assert a > 1 ==> p[a - 2] < p[a - 1];
    }
  }

  /** No fit of the layers from `b` up leaves a higher plane free than the latest-first one. */
  lemma {:induction false} LatestIsGreatest(fits: (nat, nat) -> bool, n: nat, m: nat, order: PlaneOrder, p: seq<nat>, b: nat)
    requires Greedy(fits, n, m, order) && b <= n
    requires Climbs(fits, m, p, b, n)
    ensures order.suf[b].Some?
    ensures b < n ==> order.suf[b].value >= p[b]
    ensures b == n ==> order.suf[b].value == m
    decreases n - b
  {
    if b < n {
      LatestIsGreatest(fits, n, m, order, p, b + 1);
      assert fits(b, p[b]);
      assert b + 1 < n ==> p[b] < p[b + 1];
    }
  }

  /** The planes a choice uses: the earliest fit below the run and the latest fit above it. */
  ghost function PlanesOf(order: PlaneOrder, n: nat, choice: Choice): (p: seq<nat>)
    requires |order.prePlane| == n == |order.sufPlane|
    ensures |p| == n
  {
    seq(n, i requires 0 <= i < n =>
      var plane := if i < choice.run.start then order.prePlane[i] else order.sufPlane[i];
      if plane.Some? then plane.value else 0)
  }

  lemma {:induction false} EarliestClimbs(fits: (nat, nat) -> bool, n: nat, m: nat, order: PlaneOrder, a: nat)
    requires Greedy(fits, n, m, order) && a <= n && order.pre[a].Some?
    ensures forall i: nat :: i < a ==>
      && order.prePlane[i].Some? && order.prePlane[i].value < m
      && fits(i, order.prePlane[i].value) && order.prePlane[i].value < order.pre[a].value
    ensures forall i: nat, j: nat :: i < j < a ==> order.prePlane[i].value < order.prePlane[j].value
    ensures order.pre[a].value <= m
  {
    if a > 0 {
      EarliestClimbs(fits, n, m, order, a - 1);
    }
  }

  lemma {:induction false} LatestClimbs(fits: (nat, nat) -> bool, n: nat, m: nat, order: PlaneOrder, b: nat)
    requires Greedy(fits, n, m, order) && b <= n && order.suf[b].Some?
    ensures forall i: nat :: b <= i < n ==>
      && order.sufPlane[i].Some? && order.sufPlane[i].value < m
      && fits(i, order.sufPlane[i].value) && order.sufPlane[i].value >= order.suf[b].value
    ensures forall i: nat, j: nat :: b <= i < j < n ==> order.sufPlane[i].value < order.sufPlane[j].value
    ensures order.suf[b].value <= m
    decreases n - b
  {
    if b < n {
      LatestClimbs(fits, n, m, order, b + 1);
    }
  }

  /** What the search tests for one run: both halves fit, and there is room between them. */
  ghost predicate RoomFor(order: PlaneOrder, hosts: Canvas, n: nat, choice: Choice) {
    var a, b := choice.run.start, choice.run.end;
    && a <= b <= n && |order.pre| == n + 1 == |order.suf|
    && order.pre[a].Some? && order.suf[b].Some?
    && if hosts.Canvas? && a < b then
         && choice.canvas.Some? && hosts.on(choice.canvas.value)
         && order.pre[a].value <= choice.canvas.value < order.suf[b].value
       else choice.canvas.None? && order.pre[a].value <= order.suf[b].value
  }

  /** No plane above the canvas chosen, and below the layers above the run, could host it. */
  ghost predicate Topmost(order: PlaneOrder, hosts: Canvas, n: nat, choice: Choice)
    requires choice.run.end <= n && |order.suf| == n + 1
  {
    choice.canvas.Some? && hosts.Canvas? && order.suf[choice.run.end].Some? ==>
      forall k: nat :: choice.canvas.value < k < order.suf[choice.run.end].value ==> !hosts.on(k)
  }

  /** So no arrangement of the same run has its canvas higher. */
  lemma TopmostIsHighest(fits: (nat, nat) -> bool, hosts: Canvas, n: nat, m: nat, order: PlaneOrder, choice: Choice, other: Choice, p: seq<nat>)
    requires Greedy(fits, n, m, order) && RoomFor(order, hosts, n, choice) && Topmost(order, hosts, n, choice)
    requires Arrangement(fits, hosts, n, m, other, p) && other.run == choice.run
    ensures NoHigher(choice, other)
  {
    hide Arrangement, Earliest, Latest;
    ArrangementHasRoom(fits, hosts, n, m, order, other, p);
  }

  predicate NoHigher(choice: Choice, other: Choice) {
    && (other.canvas.Some? <==> choice.canvas.Some?)
    && (choice.canvas.Some? ==> other.canvas.value <= choice.canvas.value)
  }

  lemma RoomIsArrangement(fits: (nat, nat) -> bool, hosts: Canvas, n: nat, m: nat, order: PlaneOrder, choice: Choice)
    requires Greedy(fits, n, m, order) && RoomFor(order, hosts, n, choice)
    ensures Arrangement(fits, hosts, n, m, choice, PlanesOf(order, n, choice))
  {
    hide Earliest, Latest;
    EarliestClimbs(fits, n, m, order, choice.run.start);
    LatestClimbs(fits, n, m, order, choice.run.end);
  }

  lemma ArrangementHasRoom(fits: (nat, nat) -> bool, hosts: Canvas, n: nat, m: nat, order: PlaneOrder, choice: Choice, p: seq<nat>)
    requires Greedy(fits, n, m, order)
    requires Arrangement(fits, hosts, n, m, choice, p)
    ensures RoomFor(order, hosts, n, choice)
  {
    hide Earliest, Latest;
    var a, b := choice.run.start, choice.run.end;
    EarliestIsLeast(fits, n, m, order, p, a);
    LatestIsGreatest(fits, n, m, order, p, b);
    assert a > 0 && b < n ==> p[a - 1] < p[b];
    assert a > 0 ==> p[a - 1] < m;
    assert hosts.Canvas? && a < b ==> Between(hosts.on, m, p, a, b, choice.canvas.value);
  }

  // ----- The search

  datatype Best = Best(choice: Choice, placed: nat, total: int)

  /** `best` is an arrangement no worse than any for the runs considered so far. */
  ghost predicate BestSoFar(order: PlaneOrder, hosts: Canvas, n: nat, maxPlaced: nat, forced: Option<Range>,
                            cost: nat -> int, best: Option<Best>, a: nat, b: nat)
  {
    && (best.Some? ==> SoundBest(order, hosts, n, maxPlaced, forced, cost, best.value) && Considered(best.value.choice.run, a, b))
    && forall choice: Choice ::
         Considered(choice.run, a, b) && RoomFor(order, hosts, n, choice) && Admissible(n, maxPlaced, forced, choice.run)
         ==> best.Some? && NoWorse(n, cost, best.value.choice.run, choice.run)
  }

  ghost predicate SoundBest(order: PlaneOrder, hosts: Canvas, n: nat, maxPlaced: nat, forced: Option<Range>,
                            cost: nat -> int, best: Best)
  {
    && RoomFor(order, hosts, n, best.choice) && Topmost(order, hosts, n, best.choice)
    && Admissible(n, maxPlaced, forced, best.choice.run)
    && best.placed == PlacedCount(n, best.choice.run)
    && best.total == CostOf(cost, best.choice.run.start, best.choice.run.end)
  }

  /** Runs are tried by start, then by end. */
  predicate Considered(run: Range, a: nat, b: nat) {
    run.start < a || (run.start == a && run.end < b)
  }

  /** The best split with at most `maxPlaced` layers on planes: none has more there, of those that have
      as many none composites less, and of those that composite as much none is tried before it; the
      canvas is as high as any arrangement of that run has it.  `None` means that no arrangement at all is admissible. */
  method Choose(order: PlaneOrder, n: nat, m: nat, ghost fits: (nat, nat) -> bool, maxPlaced: nat, forced: Option<Range>,
                hosts: Canvas, cost: nat -> int) returns (choice: Option<Choice>)
    requires Greedy(fits, n, m, order)
    ensures choice.Some? ==>
      && Arrangement(fits, hosts, n, m, choice.value, PlanesOf(order, n, choice.value))
      && Admissible(n, maxPlaced, forced, choice.value.run)
    ensures forall other: Choice, p: seq<nat> ::
      Arrangement(fits, hosts, n, m, other, p) && Admissible(n, maxPlaced, forced, other.run) ==>
        choice.Some? && NoWorse(n, cost, choice.value.run, other.run)
    ensures forall other: Choice, p: seq<nat> ::
      choice.Some? && Arrangement(fits, hosts, n, m, other, p) && other.run == choice.value.run ==> NoHigher(choice.value, other)
  {
    hide RoomFor, Topmost, NoHigher, NoWorse, Earliest, Latest, Arrangement, SoundBest, CostOf, Admissible;
    var best: Option<Best> := None;
    var a := 0;
    while a <= n && order.pre[a].Some?
      invariant a <= n + 1
      invariant BestSoFar(order, hosts, n, maxPlaced, forced, cost, best, a, 0)
    {
      var low := order.pre[a].value;
      var b := a;
      while b <= n
        invariant a <= b <= n + 1
        invariant BestSoFar(order, hosts, n, maxPlaced, forced, cost, best, a, if b == a then 0 else b)
      {
        var found := TryRun(order, n, m, fits, maxPlaced, forced, hosts, a, b, low);
        if found.Some? {
          var placed := n - (b - a);
          var total := SumCost(cost, a, b);
          if best.None? || placed > best.value.placed || (placed == best.value.placed && total < best.value.total) {
            Improves(order, hosts, n, maxPlaced, forced, cost, best, found.value, a, b);
            best := Some(Best(found.value, placed, total));
          } else {
            Keeps(order, hosts, n, maxPlaced, forced, cost, best.value, found.value, a, b);
          }
        } else {
          Skips(order, hosts, n, maxPlaced, forced, cost, best, a, b);
        }
        b := b + 1;
      }
      NextStart(order, hosts, n, maxPlaced, forced, cost, best, a);
      a := a + 1;
    }
    AllConsidered(fits, order, hosts, n, m, maxPlaced, forced, cost, best, a);
    choice := match best case Some(x) => Some(x.choice) case None => None;
  }

  /** One run: is it admissible, and is there room for it? */
  method TryRun(order: PlaneOrder, n: nat, m: nat, ghost fits: (nat, nat) -> bool, maxPlaced: nat, forced: Option<Range>,
                hosts: Canvas, a: nat, b: nat, low: nat) returns (found: Option<Choice>)
    requires Greedy(fits, n, m, order) && a <= b <= n && order.pre[a] == Some(low)
    ensures found.Some? ==>
      && found.value.run == Range(a, b)
      && RoomFor(order, hosts, n, found.value) && Topmost(order, hosts, n, found.value)
      && Admissible(n, maxPlaced, forced, Range(a, b))
    ensures found.None? ==>
      || !Admissible(n, maxPlaced, forced, Range(a, b))
      || forall choice: Choice :: choice.run == Range(a, b) ==> !RoomFor(order, hosts, n, choice)
  {
    hide Earliest, Latest;
    if order.suf[b].None? {
      return None;
    }
    var high := order.suf[b].value;
    if forced.Some? && (a > forced.value.start || b < forced.value.end) {
      return None;
    }
    if n - (b - a) > maxPlaced {
      return None;
    }
    if hosts.Canvas? && a < b {
      var j := FindDown(hosts.on, low, high);
      if j.None? {
        return None;
      }
      return Some(Choice(Range(a, b), j));
    }
    if low > high {
      return None;
    }
    return Some(Choice(Range(a, b), None));
  }

  method SumCost(cost: nat -> int, a: nat, b: nat) returns (total: int)
    requires a <= b
    ensures total == CostOf(cost, a, b)
  {
    total := 0;
    for i := a to b
      invariant total == CostOf(cost, a, i)
    {
      total := total + cost(i);
    }
  }

  lemma Improves(order: PlaneOrder, hosts: Canvas, n: nat, maxPlaced: nat, forced: Option<Range>,
                 cost: nat -> int, best: Option<Best>, choice: Choice, a: nat, b: nat)
    requires a <= b <= n && choice.run == Range(a, b)
    requires RoomFor(order, hosts, n, choice) && Topmost(order, hosts, n, choice) && Admissible(n, maxPlaced, forced, choice.run)
    requires BestSoFar(order, hosts, n, maxPlaced, forced, cost, best, a, if b == a then 0 else b)
    requires best.Some? ==>
      || n - (b - a) > best.value.placed
      || (n - (b - a) == best.value.placed && CostOf(cost, a, b) < best.value.total)
    ensures BestSoFar(order, hosts, n, maxPlaced, forced, cost, Some(Best(choice, n - (b - a), CostOf(cost, a, b))), a, b + 1)
  {
    hide RoomFor, Topmost, CostOf;
  }

  lemma Keeps(order: PlaneOrder, hosts: Canvas, n: nat, maxPlaced: nat, forced: Option<Range>,
              cost: nat -> int, best: Best, choice: Choice, a: nat, b: nat)
    requires a <= b <= n && choice.run == Range(a, b)
    requires BestSoFar(order, hosts, n, maxPlaced, forced, cost, Some(best), a, if b == a then 0 else b)
    requires !(n - (b - a) > best.placed || (n - (b - a) == best.placed && CostOf(cost, a, b) < best.total))
    ensures BestSoFar(order, hosts, n, maxPlaced, forced, cost, Some(best), a, b + 1)
  {
    hide RoomFor, Topmost, CostOf;
  }

  lemma Skips(order: PlaneOrder, hosts: Canvas, n: nat, maxPlaced: nat, forced: Option<Range>,
              cost: nat -> int, best: Option<Best>, a: nat, b: nat)
    requires a <= b <= n
    requires BestSoFar(order, hosts, n, maxPlaced, forced, cost, best, a, if b == a then 0 else b)
    requires !Admissible(n, maxPlaced, forced, Range(a, b))
      || forall choice: Choice :: choice.run == Range(a, b) ==> !RoomFor(order, hosts, n, choice)
    ensures BestSoFar(order, hosts, n, maxPlaced, forced, cost, best, a, b + 1)
  {
    hide CostOf;
    assert forall run: Range :: run.start == a && run.end == b ==> run == Range(a, b);
  }

  lemma NextStart(order: PlaneOrder, hosts: Canvas, n: nat, maxPlaced: nat, forced: Option<Range>,
                  cost: nat -> int, best: Option<Best>, a: nat)
    requires BestSoFar(order, hosts, n, maxPlaced, forced, cost, best, a, n + 1)
    ensures BestSoFar(order, hosts, n, maxPlaced, forced, cost, best, a + 1, 0)
  {
    hide CostOf;
  }

  lemma AllConsidered(fits: (nat, nat) -> bool, order: PlaneOrder, hosts: Canvas, n: nat, m: nat,
                      maxPlaced: nat, forced: Option<Range>, cost: nat -> int, best: Option<Best>, a: nat)
    requires Greedy(fits, n, m, order) && a <= n + 1
    requires a <= n ==> order.pre[a].None?
    requires BestSoFar(order, hosts, n, maxPlaced, forced, cost, best, a, 0)
    ensures best.Some? ==>
      && Arrangement(fits, hosts, n, m, best.value.choice, PlanesOf(order, n, best.value.choice))
      && Admissible(n, maxPlaced, forced, best.value.choice.run)
    ensures forall other: Choice, p: seq<nat> ::
      Arrangement(fits, hosts, n, m, other, p) && Admissible(n, maxPlaced, forced, other.run) ==>
        best.Some? && NoWorse(n, cost, best.value.choice.run, other.run)
    ensures forall other: Choice, p: seq<nat> ::
      best.Some? && Arrangement(fits, hosts, n, m, other, p) && other.run == best.value.choice.run ==> NoHigher(best.value.choice, other)
  {
    hide CostOf, Arrangement, NoWorse, NoHigher, Topmost;
    if best.Some? {
      RoomIsArrangement(fits, hosts, n, m, order, best.value.choice);
      forall other: Choice, p: seq<nat> | Arrangement(fits, hosts, n, m, other, p) && other.run == best.value.choice.run
        ensures NoHigher(best.value.choice, other)
      {
        TopmostIsHighest(fits, hosts, n, m, order, best.value.choice, other, p);
      }
    }
    forall other: Choice, p: seq<nat> |
      Arrangement(fits, hosts, n, m, other, p) && Admissible(n, maxPlaced, forced, other.run)
      ensures best.Some? && NoWorse(n, cost, best.value.choice.run, other.run)
    {
      ArrangementHasRoom(fits, hosts, n, m, order, other, p);
      if a <= n && other.run.start >= a {
        NothingBeyond(fits, n, m, order, a, other.run.start);
      }
    }
  }

  lemma {:induction false} NothingBeyond(fits: (nat, nat) -> bool, n: nat, m: nat, order: PlaneOrder, a: nat, x: nat)
    requires Greedy(fits, n, m, order) && a <= x <= n && order.pre[a].None?
    ensures order.pre[x].None?
  {
    if x > a {
      NothingBeyond(fits, n, m, order, a, x - 1);
    }
  }

  /** Which plane a split puts a layer on; none, for one the canvas takes. */
  function PlaneOf(order: PlaneOrder, i: nat, choice: Choice): (r: Option<nat>)
    requires i < |order.prePlane| == |order.sufPlane|
  {
    if i < choice.run.start then order.prePlane[i]
    else if i >= choice.run.end then order.sufPlane[i]
    else None
  }

  /** A layer outside a run there is room for gets the plane the arrangement gives it. */
  lemma PlaneOfIsPlaced(fits: (nat, nat) -> bool, hosts: Canvas, n: nat, m: nat, order: PlaneOrder, choice: Choice, i: nat)
    requires Greedy(fits, n, m, order) && RoomFor(order, hosts, n, choice) && i < n
    ensures PlaneOf(order, i, choice).Some? <==> !(choice.run.start <= i < choice.run.end)
    ensures PlaneOf(order, i, choice).Some? ==> PlaneOf(order, i, choice).value == PlanesOf(order, n, choice)[i]
  {
    hide Earliest, Latest;
    EarliestClimbs(fits, n, m, order, choice.run.start);
    LatestClimbs(fits, n, m, order, choice.run.end);
  }

  // ----- Stacking

  /** One layer's place in a plane-id-ordered stack; `plane` is the canvas's for a layer that
      rides it, and `None` when it is composited with no canvas plane to stack it at. */
  datatype Position = Position(zpos: nat, plane: Option<nat>, onCanvas: bool)

  /** A strictly lower zpos sits on a strictly lower plane id, unless both layers ride the
      canvas, which blends them in order itself. */
  ghost predicate PlaneOrderConsistent(positions: seq<Position>) {
    forall x, y :: 0 <= x < |positions| && 0 <= y < |positions| && positions[x].zpos < positions[y].zpos ==>
      StacksBelow(positions[x], positions[y])
  }

  predicate StacksBelow(x: Position, y: Position) {
    match (x.plane, y.plane)
    case (Some(px), Some(py)) => px < py || (px == py && x.onCanvas && y.onCanvas)
    case _ => false
  }

  /** In a consistent stack a layer above another is on a plane above the other's, or on the same one and
      both ride the canvas there; every layer with one above or below it has a plane. */
  lemma HigherSitsHigher(positions: seq<Position>, x: nat, y: nat)
    requires PlaneOrderConsistent(positions) && x < |positions| && y < |positions|
    requires positions[x].zpos < positions[y].zpos
    ensures positions[x].plane.Some? && positions[y].plane.Some? && positions[x].plane.value <= positions[y].plane.value
    ensures positions[x].plane == positions[y].plane ==> positions[x].onCanvas && positions[y].onCanvas
  {
    assert StacksBelow(positions[x], positions[y]);
  }

  /** Where the layers end up when `choice` is programmed onto planes `ids`. */
  ghost function Positions(choice: Choice, p: seq<nat>, ids: seq<nat>, zpos: seq<nat>): (r: seq<Position>)
    requires |p| == |zpos|
    requires forall i :: 0 <= i < |p| && !(choice.run.start <= i < choice.run.end) ==> p[i] < |ids|
    requires choice.canvas.Some? ==> choice.canvas.value < |ids|
  {
    seq(|p|, i requires 0 <= i < |p| =>
      if choice.run.start <= i < choice.run.end then
        Position(zpos[i], if choice.canvas.Some? then Some(ids[choice.canvas.value]) else None, true)
      else
        Position(zpos[i], Some(ids[p[i]]), false))
  }

  /** An arrangement keeps the stack in zpos order, which the kernel would never check: that
      holds by construction for whatever `Choose` returns, unless layers were dropped for want of
      a canvas. */
  lemma ArrangementKeepsOrder(fits: (nat, nat) -> bool, hosts: Canvas, n: nat, m: nat, choice: Choice, p: seq<nat>,
                              ids: seq<nat>, zpos: seq<nat>)
    requires Arrangement(fits, hosts, n, m, choice, p)
    requires |ids| == m && forall i, j :: 0 <= i < j < m ==> ids[i] < ids[j]
    requires |zpos| == n && forall i, j :: 0 <= i < j < n ==> zpos[i] <= zpos[j]
    requires hosts.Canvas? || choice.run.start == choice.run.end
    ensures forall i :: 0 <= i < n && !(choice.run.start <= i < choice.run.end) ==> p[i] < m
    ensures choice.canvas.Some? ==> choice.canvas.value < m
    ensures PlaneOrderConsistent(Positions(choice, p, ids, zpos))
  {
    var positions := Positions(choice, p, ids, zpos);
    var a, b := choice.run.start, choice.run.end;
    forall x, y | 0 <= x < n && 0 <= y < n && positions[x].zpos < positions[y].zpos
      ensures StacksBelow(positions[x], positions[y])
    {
      assert x < y;
      if !(a <= x < b) && !(a <= y < b) {
        assert p[x] < p[y];
      }
    }
  }
}
