/** Dense zpos numbering for the planes a frame arms. */
module ZposOrder {
  import opened Options

  const U64_MAX: nat := 0xffff_ffff_ffff_ffff

  function SaturatingAdd(x: nat, y: nat): nat {
    if x + y > U64_MAX then U64_MAX else x + y
  }

  /** What matters of a plane here: its id and its zpos range, if it has one. */
  datatype Plane = Plane(id: nat, zposMin: Option<nat>, zposMax: Option<nat>)

  /** A plane in use, with the zpos its layer wants and the one it will be told. */
  datatype StackEntry = StackEntry(plane: Plane, requested: Option<nat>, written: Option<nat>, belowTies: bool)

  predicate Rankable(e: StackEntry) {
    e.requested.Some? && e.plane.zposMin.Some? && e.plane.zposMax.Some?
  }

  datatype Rank = Rank(index: nat, requested: nat, afterTies: bool, planeId: nat, min: nat, max: nat) {
    predicate Fixed() { min == max }
  }

  function RankOf(e: StackEntry, index: nat): Rank
    requires Rankable(e)
  {
    Rank(index, e.requested.value, !e.belowTies, e.plane.id, e.plane.zposMin.value, e.plane.zposMax.value)
  }

  /** By requested zpos; on a tie entries marked to go under, then by plane id. */
  predicate Before(x: Rank, y: Rank) {
    || x.requested < y.requested
    || (x.requested == y.requested && !x.afterTies && y.afterTies)
    || (x.requested == y.requested && x.afterTies == y.afterTies && x.planeId <= y.planeId)
  }

  predicate Ordered(ranks: seq<Rank>) {
    forall i, j :: 0 <= i < j < |ranks| ==> Before(ranks[i], ranks[j])
  }

  lemma OrderedAt(ranks: seq<Rank>, x: nat, y: nat)
    requires Ordered(ranks) && x < |ranks| && y < |ranks| && x != y
    ensures !Before(ranks[y], ranks[x]) ==> x < y
  {}

  function Insert(r: Rank, ranks: seq<Rank>): (s: seq<Rank>)
    ensures multiset(s) == multiset(ranks) + multiset{r}
  {
    if ranks == [] || !Before(ranks[0], r) then [r] + ranks
    else
      assert ranks == [ranks[0]] + ranks[1..];
      [ranks[0]] + Insert(r, ranks[1..])
  }

  lemma {:induction false} InsertOrdered(r: Rank, ranks: seq<Rank>)
    requires Ordered(ranks)
    ensures Ordered(Insert(r, ranks))
  {
    if ranks != [] && Before(ranks[0], r) {
      var rest := Insert(r, ranks[1..]);
      InsertOrdered(r, ranks[1..]);
      forall i | 0 <= i < |rest|
        ensures Before(ranks[0], rest[i])
      {
        assert rest[i] in multiset(rest);
        assert rest[i] == r || rest[i] in ranks[1..];
      }
    }
  }

  /** The stable sort by stacking order. */
  function Sort(ranks: seq<Rank>): (s: seq<Rank>)
    ensures multiset(s) == multiset(ranks)
  {
    if ranks == [] then []
    else
      assert ranks == ranks[..|ranks| - 1] + [ranks[|ranks| - 1]];
      Insert(ranks[|ranks| - 1], Sort(ranks[..|ranks| - 1]))
  }

  lemma {:induction false} SortOrdered(ranks: seq<Rank>)
    ensures Ordered(Sort(ranks))
  {
    if ranks != [] {
      var n := |ranks| - 1;
      SortOrdered(ranks[..n]);
      InsertOrdered(ranks[n], Sort(ranks[..n]));
    }
  }

  // ----- What a numbering is, independently of how one is found

  /** A zpos for each rank inside its plane's range, strictly rising along the order. */
  ghost predicate Numbering(ranks: seq<Rank>, v: seq<nat>) {
    && |v| == |ranks|
    && (forall i :: 0 <= i < |v| ==> ranks[i].min <= v[i] <= ranks[i].max)
    && forall i, j :: 0 <= i < j < |v| ==> v[i] < v[j]
  }

  ghost predicate RangesFit(ranks: seq<Rank>) {
    forall i :: 0 <= i < |ranks| ==> ranks[i].max <= U64_MAX
  }

  /** The greedy value for a rank after the value before it; `None` when it does not fit. */
  function Next(previous: Option<nat>, r: Rank): Option<nat> {
    var value := match previous
      case Some(p) => if r.Fixed() then r.min else
          var up := SaturatingAdd(p, 1);
          if up > r.min then up else r.min
      case None => r.min;
    if (previous.Some? && r.Fixed() && r.min <= previous.value) || value > r.max then None else Some(value)
  }

  function Prev(values: seq<nat>, k: nat): Option<nat>
    requires k <= |values|
  {
    if k == 0 then None else Some(values[k - 1])
  }

  /** The `i`th value is the greedy one after the value before it. */
  ghost predicate GreedyStep(ranks: seq<Rank>, values: seq<nat>, i: nat)
    requires i < |values| <= |ranks|
  {
    Next(Prev(values, i), ranks[i]) == Some(values[i])
  }

  /** `values` is the greedy run over the first ranks. */
  ghost predicate GreedyRun(ranks: seq<Rank>, values: seq<nat>) {
    && |values| <= |ranks|
    && forall i: nat :: i < |values| ==> GreedyStep(ranks, values, i)
  }

  /** One step of the run: the value fits its plane. */
  lemma GreedyAt(ranks: seq<Rank>, values: seq<nat>, k: nat)
    requires GreedyRun(ranks, values) && k < |values|
    ensures Next(Prev(values, k), ranks[k]) == Some(values[k])
    ensures ranks[k].min <= values[k] <= ranks[k].max
  {
    assert GreedyStep(ranks, values, k);
  }

  lemma GreedyStart(ranks: seq<Rank>)
    ensures GreedyRun(ranks, [])
  {}

  lemma GreedyMore(ranks: seq<Rank>, values: seq<nat>, value: nat)
    requires GreedyRun(ranks, values) && |values| < |ranks|
    requires Next(Prev(values, |values|), ranks[|values|]) == Some(value)
    ensures GreedyRun(ranks, values + [value])
  {
    hide Next;
    var more := values + [value];
    forall i: nat | i < |more|
      ensures GreedyStep(ranks, more, i)
    {
      assert Prev(more, i) == Prev(values, i);
      if i < |values| {
        assert GreedyStep(ranks, values, i);
      }
    }
  }

  lemma NumberingAt(ranks: seq<Rank>, v: seq<nat>, k: nat)
    requires Numbering(ranks, v) && k < |ranks|
    ensures ranks[k].min <= v[k] <= ranks[k].max
    ensures k > 0 ==> v[k - 1] < v[k]
  {}

  /** No numbering has a lower value anywhere. */
  lemma {:induction false} GreedyIsLeast(ranks: seq<Rank>, values: seq<nat>, v: seq<nat>, k: nat)
    requires GreedyRun(ranks, values) && RangesFit(ranks) && Numbering(ranks, v) && k < |values|
    ensures values[k] <= v[k]
  {
    GreedyAt(ranks, values, k);
    NumberingAt(ranks, v, k);
    if k > 0 {
      GreedyIsLeast(ranks, values, v, k - 1);
    }
  }

  /** Where there is a numbering greedy never gets stuck. */
  lemma NumberingUnsticks(ranks: seq<Rank>, values: seq<nat>, v: seq<nat>)
    requires GreedyRun(ranks, values) && RangesFit(ranks) && |values| < |ranks|
    requires Numbering(ranks, v)
    ensures Next(Prev(values, |values|), ranks[|values|]).Some?
  {
    var k := |values|;
    NumberingAt(ranks, v, k);
    if k > 0 {
      GreedyIsLeast(ranks, values, v, k - 1);
    }
  }

  // ----- When a completed run is a numbering

  /** What rank `k` is pushed up to by the ranks from `i`, one value each. */
  function Climb(ranks: seq<Rank>, i: nat, k: nat): nat
    requires i <= k < |ranks|
  {
    ranks[i].min + (k - i)
  }

  /** No rank is pushed past the top of the range: 64 bits leave room for the whole stack. */
  ghost predicate Room(ranks: seq<Rank>) {
    forall i: nat, k: nat :: i <= k < |ranks| ==> Climb(ranks, i, k) <= U64_MAX
  }

  lemma {:induction false} NumberingClimbs(ranks: seq<Rank>, v: seq<nat>, i: nat, k: nat)
    requires Numbering(ranks, v) && i <= k < |ranks|
    ensures Climb(ranks, i, k) <= v[k]
  {
    NumberingAt(ranks, v, k);
    if i < k {
      NumberingClimbs(ranks, v, i, k - 1);
    }
  }

  /** A numbering of any kind needs the room. */
  lemma NumberingHasRoom(ranks: seq<Rank>, v: seq<nat>)
    requires Numbering(ranks, v) && RangesFit(ranks)
    ensures Room(ranks)
  {
    forall i: nat, k: nat | i <= k < |ranks|
      ensures Climb(ranks, i, k) <= U64_MAX
    {
      NumberingClimbs(ranks, v, i, k);
      NumberingAt(ranks, v, k);
    }
  }

  /** Given room a greedy value is the least some rank pushes it to, so the increment never
      saturates. */
  lemma {:induction false} GreedyLands(ranks: seq<Rank>, values: seq<nat>, k: nat) returns (i: nat)
    requires GreedyRun(ranks, values) && Room(ranks) && k < |values|
    ensures i <= k && values[k] == Climb(ranks, i, k)
    ensures k > 0 ==> values[k - 1] < values[k]
  {
    GreedyAt(ranks, values, k);
    i := k;
    if k > 0 {
      var j := GreedyLands(ranks, values, k - 1);
      assert Climb(ranks, j, k) == values[k - 1] + 1 <= U64_MAX;
      if values[k] != ranks[k].min {
        i := j;
      }
    }
  }

  lemma {:induction false} GreedyRises(ranks: seq<Rank>, values: seq<nat>, i: nat, j: nat)
    requires GreedyRun(ranks, values) && Room(ranks) && i < j < |values|
    ensures values[i] < values[j]
  {
    var _ := GreedyLands(ranks, values, j);
    if i < j - 1 {
      GreedyRises(ranks, values, i, j - 1);
    }
  }

  /** A complete greedy run is a numbering exactly when there is room for the stack. */
  lemma GreedyIsNumbering(ranks: seq<Rank>, values: seq<nat>)
    requires GreedyRun(ranks, values) && RangesFit(ranks) && |values| == |ranks|
    ensures Numbering(ranks, values) <==> Room(ranks)
  {
    hide GreedyRun, Room, RangesFit;
    if Room(ranks) {
      forall i | 0 <= i < |values|
        ensures ranks[i].min <= values[i] <= ranks[i].max
      {
        GreedyAt(ranks, values, i);
      }
      forall i, j | 0 <= i < j < |values|
        ensures values[i] < values[j]
      {
        GreedyRises(ranks, values, i, j);
      }
    }
    if Numbering(ranks, values) {
      NumberingHasRoom(ranks, values);
    }
  }

  lemma {:induction false} GreedyClimbs(ranks: seq<Rank>, values: seq<nat>, i: nat, k: nat)
    requires GreedyRun(ranks, values) && i <= k < |values|
    requires forall j :: 0 <= j < |ranks| ==> ranks[j].max < U64_MAX
    ensures Climb(ranks, i, k) <= values[k]
  {
    GreedyAt(ranks, values, k);
    if i < k {
      GreedyClimbs(ranks, values, i, k - 1);
      GreedyAt(ranks, values, k - 1);
    }
  }

  /** When no range reaches the top, completing is enough: success means a numbering. */
  lemma NoTopHasRoom(ranks: seq<Rank>, values: seq<nat>)
    requires GreedyRun(ranks, values) && |values| == |ranks|
    requires forall j :: 0 <= j < |ranks| ==> ranks[j].max < U64_MAX
    ensures Room(ranks) && Numbering(ranks, values)
  {
    hide GreedyRun;
    forall i: nat, k: nat | i <= k < |ranks|
      ensures Climb(ranks, i, k) <= U64_MAX
    {
      GreedyClimbs(ranks, values, i, k);
      GreedyAt(ranks, values, k);
    }
    GreedyIsNumbering(ranks, values);
  }

  // ----- The entries and their ranks

  /** The ranks stand for exactly the entries that can be numbered. */
  ghost predicate RanksOf(entries: seq<StackEntry>, ranks: seq<Rank>) {
    && (forall k :: 0 <= k < |ranks| ==>
          ranks[k].index < |entries| && Rankable(entries[ranks[k].index]) && ranks[k] == RankOf(entries[ranks[k].index], ranks[k].index))
    && (forall j, k :: 0 <= j < k < |ranks| ==> ranks[j].index != ranks[k].index)
    && forall i :: 0 <= i < |entries| && Rankable(entries[i]) ==> RankOf(entries[i], i) in ranks
  }

  lemma SortedRanksOf(entries: seq<StackEntry>, ranks: seq<Rank>)
    requires RanksOf(entries, ranks)
    ensures RanksOf(entries, Sort(ranks))
  {
    hide Before, Rankable, RankOf;
    var s := Sort(ranks);
    SameElements(ranks, s);
    forall j, k | 0 <= j < k < |s|
      ensures s[j].index != s[k].index
    {
      SortedDistinct(ranks, s, j, k);
    }
    forall k | 0 <= k < |s|
      ensures s[k] in ranks
    {
      assert s[k] in s;
    }
  }

  lemma RangesOf(entries: seq<StackEntry>, ranks: seq<Rank>)
    requires RanksOf(entries, ranks)
    requires forall i :: 0 <= i < |entries| && Rankable(entries[i]) ==> entries[i].plane.zposMax.value <= U64_MAX
    ensures RangesFit(ranks)
  {}

  lemma RanksIndexed(entries: seq<StackEntry>, ranks: seq<Rank>)
    requires RanksOf(entries, ranks)
    ensures forall k :: 0 <= k < |ranks| ==> ranks[k].index < |entries|
  {}

  lemma SameElements(a: seq<Rank>, b: seq<Rank>)
    requires multiset(a) == multiset(b)
    ensures forall r :: r in a <==> r in b
  {
    forall r
      ensures r in a <==> r in b
    {
      assert r in a <==> r in multiset(a);
      assert r in b <==> r in multiset(b);
    }
  }

  lemma SortedDistinct(ranks: seq<Rank>, s: seq<Rank>, j: nat, k: nat)
    requires forall x, y :: 0 <= x < y < |ranks| ==> ranks[x].index != ranks[y].index
    requires multiset(s) == multiset(ranks) && j < k < |s|
    ensures s[j].index != s[k].index
  {
    SameElements(ranks, s);
    assert s[j] in ranks && s[k] in ranks;
    if s[j] == s[k] {
      TwiceIn(s, j, k);
      UniqueOnce(ranks, s[k]);
    }
  }

  lemma TwiceIn(s: seq<Rank>, j: nat, k: nat)
    requires j < k < |s| && s[j] == s[k]
    ensures multiset(s)[s[k]] >= 2
  {
    assert s == s[..k] + [s[k]] + s[k + 1..];
    assert s[j] in s[..k];
    assert s[j] in multiset(s[..k]);
  }

  lemma UniqueOnce(ranks: seq<Rank>, r: Rank)
    requires forall j, k :: 0 <= j < k < |ranks| ==> ranks[j].index != ranks[k].index
    ensures multiset(ranks)[r] <= 1
  {
    if ranks != [] {
      var n := |ranks| - 1;
      assert ranks == ranks[..n] + [ranks[n]];
      UniqueOnce(ranks[..n], r);
      if r == ranks[n] {
        assert r !in ranks[..n];
        assert r !in multiset(ranks[..n]);
      }
    }
  }

  function Unwritten(e: StackEntry): StackEntry {
    e.(written := e.requested)
  }

  /** What the caller gets back: when the greedy run gets stuck every entry is told to write what it
      asked for; when it completes the numbered entries get its values. */
  ghost predicate Stacked(before: seq<StackEntry>, after: seq<StackEntry>, ok: bool, ranks: seq<Rank>, values: seq<nat>) {
    && |after| == |before|
    && RanksOf(before, ranks) && Ordered(ranks)
    && (forall i :: 0 <= i < |after| && !(ok && Rankable(before[i])) ==> after[i] == Unwritten(before[i]))
    && (ok ==>
          && |values| == |ranks| && GreedyRun(ranks, values)
          && forall k :: 0 <= k < |ranks| ==> after[ranks[k].index] == before[ranks[k].index].(written := Some(values[k])))
    && (!ok ==> Stuck(ranks, values))
  }

  /** The greedy run stops short: the next rank takes no value above the last. */
  ghost predicate Stuck(ranks: seq<Rank>, values: seq<nat>) {
    GreedyRun(ranks, values) && |values| < |ranks| && Next(Prev(values, |values|), ranks[|values|]).None?
  }

  /** Give every plane in use the lowest zpos that keeps the order wanted. */
  method StackZpos(entries: array<StackEntry>) returns (ok: bool, ghost ranks: seq<Rank>, ghost values: seq<nat>)
    requires forall i :: 0 <= i < entries.Length && Rankable(entries[i]) ==> entries[i].plane.zposMax.value <= U64_MAX
    modifies entries
    ensures Stacked(old(entries[..]), entries[..], ok, ranks, values)
    ensures RangesFit(ranks)
    ensures forall v :: Numbering(ranks, v) ==> ok && Undercuts(values, v)
    ensures ok ==> (Numbering(ranks, values) <==> Room(ranks))
    ensures (exists v :: Numbering(ranks, v)) <==> ok && Room(ranks)
  {
    hide Next, Numbering, Room, Stuck, GreedyRun, RanksOf, Ordered, RangesFit, Undercuts;
    ghost var before := entries[..];
    var unsorted := CollectRanks(entries);
    var order := Sort(unsorted);
    SortOrdered(unsorted);
    SortedRanksOf(before, unsorted);
    RangesOf(before, order);
    RanksIndexed(before, order);
    var numbers: seq<nat>;
    ok, numbers := Number(order);
    ranks, values := order, numbers;
    if ok {
      WriteAll(entries, before, order, numbers);
    }
  }

  /** Give each rank in turn the lowest value its plane takes above the one before. */
  method Number(order: seq<Rank>) returns (ok: bool, numbers: seq<nat>)
    requires RangesFit(order)
    ensures if ok then GreedyRun(order, numbers) && |numbers| == |order| else Stuck(order, numbers)
    ensures forall v :: Numbering(order, v) ==> ok && Undercuts(numbers, v)
    ensures ok ==> (Numbering(order, numbers) <==> Room(order))
    ensures (exists v :: Numbering(order, v)) <==> ok && Room(order)
  {
    hide Next, Numbering, Room, GreedyRun, RangesFit;
    numbers := [];
    GreedyStart(order);
    var previous: Option<nat> := None;
    for k := 0 to |order|
      invariant |numbers| == k && GreedyRun(order, numbers)
      invariant previous == Prev(numbers, k)
    {
      var value := Next(previous, order[k]);
      if value.None? {
        forall v: seq<nat>
          ensures !Numbering(order, v)
        {
          if Numbering(order, v) {
            NumberingUnsticks(order, numbers, v);
          }
        }
        return false, numbers;
      }
      GreedyMore(order, numbers, value.value);
      numbers := numbers + [value.value];
      previous := value;
    }
    GreedyIsNumbering(order, numbers);
    forall v: seq<nat> | Numbering(order, v)
      ensures Undercuts(numbers, v) && Room(order)
    {
      GreedyUndercuts(order, numbers, v);
      NumberingHasRoom(order, v);
    }
    return true, numbers;
  }

  /** Nowhere higher. */
  ghost predicate Undercuts(values: seq<nat>, v: seq<nat>) {
    |values| <= |v| && forall k :: 0 <= k < |values| ==> values[k] <= v[k]
  }

  lemma GreedyUndercuts(ranks: seq<Rank>, values: seq<nat>, v: seq<nat>)
    requires GreedyRun(ranks, values) && RangesFit(ranks) && Numbering(ranks, v)
    ensures Undercuts(values, v)
  {
    forall k: nat | k < |values|
      ensures values[k] <= v[k]
    {
      GreedyIsLeast(ranks, values, v, k);
    }
  }

  /** Write each ranked entry its number. */
  method WriteAll(entries: array<StackEntry>, ghost before: seq<StackEntry>, order: seq<Rank>, numbers: seq<nat>)
    requires RanksOf(before, order) && |before| == entries.Length && |numbers| == |order|
    requires forall i :: 0 <= i < entries.Length ==> entries[i] == Unwritten(before[i])
    modifies entries
    ensures forall i :: 0 <= i < entries.Length && !Rankable(before[i]) ==> entries[i] == Unwritten(before[i])
    ensures forall k :: 0 <= k < |order| ==> entries[order[k].index] == before[order[k].index].(written := Some(numbers[k]))
  {
    for k := 0 to |order|
      invariant forall i :: 0 <= i < entries.Length && (forall j :: 0 <= j < k ==> order[j].index != i) ==> entries[i] == Unwritten(before[i])
      invariant forall j :: 0 <= j < k ==> entries[order[j].index] == before[order[j].index].(written := Some(numbers[j]))
    {
      entries[order[k].index] := entries[order[k].index].(written := Some(numbers[k]));
    }
  }

  /** Reset every entry to what it asked for, and rank the ones that can be numbered. */
  method CollectRanks(entries: array<StackEntry>) returns (ranks: seq<Rank>)
    requires forall i :: 0 <= i < entries.Length && Rankable(entries[i]) ==> entries[i].plane.zposMax.value <= U64_MAX
    modifies entries
    ensures forall i :: 0 <= i < entries.Length ==> entries[i] == Unwritten(old(entries[i]))
    ensures RanksOf(old(entries[..]), ranks) && RangesFit(ranks)
  {
    hide RanksOf, RangesFit;
    ranks := [];
    ghost var before := entries[..];
    NoRanks(before);
    for index := 0 to entries.Length
      invariant forall i :: 0 <= i < index ==> entries[i] == Unwritten(before[i])
      invariant forall i :: index <= i < entries.Length ==> entries[i] == before[i]
      invariant RanksOf(before[..index], ranks) && RangesFit(ranks)
    {
      NextRank(before, ranks, index);
      entries[index] := Unwritten(entries[index]);
      if Rankable(entries[index]) {
        ranks := ranks + [RankOf(entries[index], index)];
      }
    }
    assert before[..entries.Length] == before;
  }

  lemma NoRanks(entries: seq<StackEntry>)
    ensures RanksOf(entries[..0], []) && RangesFit([])
  {}

  lemma NextRank(entries: seq<StackEntry>, ranks: seq<Rank>, index: nat)
    requires index < |entries| && RanksOf(entries[..index], ranks) && RangesFit(ranks)
    requires Rankable(entries[index]) ==> entries[index].plane.zposMax.value <= U64_MAX
    ensures
      var entry := Unwritten(entries[index]);
      var more := if Rankable(entry) then ranks + [RankOf(entry, index)] else ranks;
      RanksOf(entries[..index + 1], more) && RangesFit(more)
  {
    hide RankOf, Rankable, Unwritten, RanksOf, RangesFit;
    UnwrittenRank(entries[index], index);
    assert entries[..index + 1] == entries[..index] + [entries[index]];
    if Rankable(entries[index]) {
      OneRankMore(entries[..index], ranks, entries[index]);
    } else {
      NoRankMore(entries[..index], ranks, entries[index]);
    }
  }

  lemma OneRankMore(entries: seq<StackEntry>, ranks: seq<Rank>, e: StackEntry)
    requires RanksOf(entries, ranks) && RangesFit(ranks) && Rankable(e) && e.plane.zposMax.value <= U64_MAX
    ensures RanksOf(entries + [e], ranks + [RankOf(e, |entries|)]) && RangesFit(ranks + [RankOf(e, |entries|)])
  {
    hide RankOf, Rankable;
    RankIndex(e, |entries|);
    var after, more := entries + [e], ranks + [RankOf(e, |entries|)];
    assert more[|ranks|] == RankOf(after[|entries|], |entries|);
    forall i | 0 <= i < |after| && Rankable(after[i])
      ensures RankOf(after[i], i) in more
    {
      if i < |entries| {
        assert RankOf(entries[i], i) in ranks;
      }
    }
  }

  lemma NoRankMore(entries: seq<StackEntry>, ranks: seq<Rank>, e: StackEntry)
    requires RanksOf(entries, ranks) && !Rankable(e)
    ensures RanksOf(entries + [e], ranks)
  {
    hide RankOf, Rankable;
    var after := entries + [e];
    forall i | 0 <= i < |after| && Rankable(after[i])
      ensures RankOf(after[i], i) in ranks
    {
      assert RankOf(entries[i], i) in ranks;
    }
  }

  lemma UnwrittenRank(e: StackEntry, index: nat)
    ensures Rankable(Unwritten(e)) <==> Rankable(e)
    ensures Rankable(e) ==> RankOf(Unwritten(e), index) == RankOf(e, index)
  {}

  lemma RankIndex(e: StackEntry, index: nat)
    ensures Rankable(e) ==> RankOf(e, index).index == index && RankOf(e, index).max == e.plane.zposMax.value
  {}

  // ----- What it means for the stack

  predicate ZposFixed(p: Plane) {
    p.zposMin.Some? && p.zposMax.Some? && p.zposMin == p.zposMax
  }

  /** Where a layer requesting `zpos` stacks on a plane. */
  function EffectiveZpos(p: Plane, zpos: Option<nat>): Option<nat> {
    if ZposFixed(p) then p.zposMin else zpos
  }

  /** Two layers stack in the order their requests ask for. */
  predicate StackingConsistent(pa: Plane, za: Option<nat>, pb: Plane, zb: Option<nat>) {
    if za.None? || zb.None? || za == zb then true
    else
      var ea, eb := EffectiveZpos(pa, za), EffectiveZpos(pb, zb);
      if ea.None? || eb.None? then true
      else ea != eb && (za.value < zb.value <==> ea.value < eb.value)
  }

  /** Two planes whose layers ask for different heights are consistent exactly when the heights they get,
      a fixed plane its own and any other the one asked for, differ the same way. */
  lemma ConsistentIff(pa: Plane, za: nat, pb: Plane, zb: nat)
    requires za != zb
    ensures
      var a := if pa.zposMin.Some? && pa.zposMin == pa.zposMax then pa.zposMin.value else za;
      var b := if pb.zposMin.Some? && pb.zposMin == pb.zposMax then pb.zposMin.value else zb;
      StackingConsistent(pa, Some(za), pb, Some(zb)) <==> (za < zb && a < b) || (za > zb && a > b)
    ensures StackingConsistent(pa, None, pb, Some(zb)) && StackingConsistent(pa, Some(za), pb, None) && StackingConsistent(pa, Some(za), pb, Some(za))
  {}

  /** After a numbering every pair of numbered planes is written in the order requested, so the
      values written are themselves consistent, and no two planes share one. */
  lemma StackedKeepsRequests(before: seq<StackEntry>, after: seq<StackEntry>, ranks: seq<Rank>, values: seq<nat>, i: nat, j: nat)
    requires Stacked(before, after, true, ranks, values) && Numbering(ranks, values)
    requires i < |before| && j < |before| && i != j && Rankable(before[i]) && Rankable(before[j])
    ensures after[i].written.Some? && after[j].written.Some? && after[i].written != after[j].written
    ensures before[i].requested.value < before[j].requested.value ==> after[i].written.value < after[j].written.value
    ensures StackingConsistent(after[i].plane, after[i].written, after[j].plane, after[j].written)
    ensures ZposFixed(before[i].plane) ==> after[i].written == before[i].plane.zposMin
    ensures before[i].plane.zposMin.value <= after[i].written.value <= before[i].plane.zposMax.value
  {
    var x :| 0 <= x < |ranks| && ranks[x] == RankOf(before[i], i);
    var y :| 0 <= y < |ranks| && ranks[y] == RankOf(before[j], j);
    assert after[ranks[x].index] == before[i].(written := Some(values[x]));
    assert after[ranks[y].index] == before[j].(written := Some(values[y]));
    if before[i].requested.value < before[j].requested.value {
      OrderedAt(ranks, x, y);
    }
    assert ranks[x].min <= values[x] <= ranks[x].max;
    assert ranks[y].min <= values[y] <= ranks[y].max;
  }

  /** Two planes whose ranges reach the top, the first able to take nothing else: success is
      reported, both are told to take the top value, and no numbering exists. */
  lemma TopReusedExample(after: seq<StackEntry>, ok: bool, ranks: seq<Rank>, values: seq<nat>)
    requires
      var a := StackEntry(Plane(1, Some(U64_MAX), Some(U64_MAX)), Some(1), None, false);
      var b := StackEntry(Plane(2, Some(0), Some(U64_MAX)), Some(2), None, false);
      Stacked([a, b], after, ok, ranks, values)
    ensures ok && |after| == 2 && after[0].written == Some(U64_MAX) == after[1].written
    ensures !Room(ranks) && forall v :: !Numbering(ranks, v)
  {
    var a := StackEntry(Plane(1, Some(U64_MAX), Some(U64_MAX)), Some(1), None, false);
    var b := StackEntry(Plane(2, Some(0), Some(U64_MAX)), Some(2), None, false);
    TwoRanks(a, b, ranks);
    assert !Room(ranks) by {
      assert Climb(ranks, 0, 1) > U64_MAX;
    }
    forall v | Numbering(ranks, v)
      ensures false
    {
      NumberingHasRoom(ranks, v);
    }
    assert Next(None, ranks[0]) == Some(U64_MAX);
    assert Next(Some(U64_MAX), ranks[1]) == Some(U64_MAX);
    if |values| > 0 {
      GreedyAt(ranks, values, 0);
    }
    if |values| > 1 {
      GreedyAt(ranks, values, 1);
    }
  }

  lemma TwoRanks(a: StackEntry, b: StackEntry, ranks: seq<Rank>)
    requires Rankable(a) && Rankable(b) && a.requested.value < b.requested.value
    requires RanksOf([a, b], ranks) && Ordered(ranks)
    ensures ranks == [RankOf(a, 0), RankOf(b, 1)]
  {
    var entries := [a, b];
    assert RankOf(entries[0], 0) in ranks && RankOf(entries[1], 1) in ranks;
    var x :| 0 <= x < |ranks| && ranks[x] == RankOf(a, 0);
    var y :| 0 <= y < |ranks| && ranks[y] == RankOf(b, 1);
    OrderedAt(ranks, x, y);
    AtMostTwo(ranks);
  }

  lemma AtMostTwo(ranks: seq<Rank>)
    requires forall k :: 0 <= k < |ranks| ==> ranks[k].index < 2
    requires forall j, k :: 0 <= j < k < |ranks| ==> ranks[j].index != ranks[k].index
    ensures |ranks| <= 2
  {
    if |ranks| > 2 {
      var x, y, z := ranks[0].index, ranks[1].index, ranks[2].index;
      Pigeonhole(x, y, z);
    }
  }

  lemma Pigeonhole(x: nat, y: nat, z: nat)
    requires x < 2 && y < 2 && z < 2
    ensures x == y || y == z || x == z
  {
  }

  /** An entry marked to stack under its ties does: with the same request and no mark, the other
      plane is written above it whatever the plane ids. */
  lemma BelowTiesGoesUnder(before: seq<StackEntry>, after: seq<StackEntry>, ranks: seq<Rank>, values: seq<nat>, i: nat, j: nat)
    requires Stacked(before, after, true, ranks, values) && Numbering(ranks, values)
    requires i < |before| && j < |before| && Rankable(before[i]) && Rankable(before[j])
    requires before[i].requested == before[j].requested && before[i].belowTies && !before[j].belowTies
    ensures after[i].written.Some? && after[j].written.Some? && after[i].written.value < after[j].written.value
  {
    var x :| 0 <= x < |ranks| && ranks[x] == RankOf(before[i], i);
    var y :| 0 <= y < |ranks| && ranks[y] == RankOf(before[j], j);
    assert after[ranks[x].index] == before[i].(written := Some(values[x]));
    assert after[ranks[y].index] == before[j].(written := Some(values[y]));
    OrderedAt(ranks, x, y);
  }

  /** Of two entries with the same request, both marked or neither, the one on the lower plane id is
      written lower. */
  lemma TiesGoByPlane(before: seq<StackEntry>, after: seq<StackEntry>, ranks: seq<Rank>, values: seq<nat>, i: nat, j: nat)
    requires Stacked(before, after, true, ranks, values) && Numbering(ranks, values)
    requires i < |before| && j < |before| && Rankable(before[i]) && Rankable(before[j])
    requires before[i].requested == before[j].requested && before[i].belowTies == before[j].belowTies
    requires before[i].plane.id < before[j].plane.id
    ensures after[i].written.Some? && after[j].written.Some? && after[i].written.value < after[j].written.value
  {
    var x :| 0 <= x < |ranks| && ranks[x] == RankOf(before[i], i);
    var y :| 0 <= y < |ranks| && ranks[y] == RankOf(before[j], j);
    assert after[ranks[x].index] == before[i].(written := Some(values[x]));
    assert after[ranks[y].index] == before[j].(written := Some(values[y]));
    OrderedAt(ranks, x, y);
  }
}
