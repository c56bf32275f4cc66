/** Maximum-cardinality bipartite matching between layers (left) and planes (right).

    `Solve` is the phase structure of Hopcroft and Karp: a breadth-first layering from the free
    left nodes, then one depth-first augmentation attempt per free left node.  The loop has no
    bound of its own; it ends because a phase whose layering reaches a free right node always
    places at least one more layer.  It ends soon because the way to a free right node is longer
    after every phase, and no matching can exceed one with a long way left by much. */
module Matching {
  import opened Options

  /** One candidate placement; the score orders the search and nothing else. */
  datatype Edge = Edge(right: nat, score: int)

  type Graph = seq<seq<Edge>>
  type Links = seq<Option<nat>>

  ghost predicate HasEdge(adj: Graph, u: nat, v: nat) {
    u < |adj| && exists i :: 0 <= i < |adj[u]| && adj[u][i].right == v
  }

  // ----- What a matching is, independently of how one is found

  /** A set of (layer, plane) pairs that are all edges and share no endpoint. */
  ghost predicate IsMatching(adj: Graph, pairs: set<(nat, nat)>) {
    && (forall p :: p in pairs ==> HasEdge(adj, p.0, p.1))
    && (forall p, q :: p in pairs && q in pairs && (p.0 == q.0 || p.1 == q.1) ==> p == q)
  }

  ghost predicate IsMaximum(adj: Graph, pairs: set<(nat, nat)>) {
    IsMatching(adj, pairs) && forall other :: IsMatching(adj, other) ==> |other| <= |pairs|
  }

  ghost predicate SameEdges(a: Graph, b: Graph) {
    forall u: nat, v: nat :: HasEdge(a, u, v) <==> HasEdge(b, u, v)
  }

  // ----- The matcher's link arrays

  ghost predicate InRange(adj: Graph, nRight: nat) {
    forall u, i :: 0 <= u < |adj| && 0 <= i < |adj[u]| ==> adj[u][i].right < nRight
  }

  /** Every left link is an edge and is answered by the right node it points to. */
  ghost predicate LeftLinked(adj: Graph, ml: Links, mr: Links) {
    && |ml| == |adj|
    && forall u: nat :: u < |ml| && ml[u].Some? ==>
         ml[u].value < |mr| && mr[ml[u].value] == Some(u) && HasEdge(adj, u, ml[u].value)
  }

  /** Every right link, except at `hole`, is answered by the left node it points to. */
  ghost predicate RightLinked(ml: Links, mr: Links, hole: Option<nat>) {
    && (forall v: nat :: v < |mr| && mr[v].Some? ==> mr[v].value < |ml|)
    && (forall v: nat :: v < |mr| && mr[v].Some? && hole != Some(v) ==> ml[mr[v].value] == Some(v))
  }

  ghost predicate Linked(adj: Graph, ml: Links, mr: Links) {
    LeftLinked(adj, ml, mr) && RightLinked(ml, mr, None)
  }

  /** The left nodes that have a partner. */
  ghost function Placed(ml: Links): (s: set<nat>)
    ensures forall u: nat :: u in s <==> u < |ml| && ml[u].Some?
  {
    set u: nat | u < |ml| && ml[u].Some?
  }

  ghost function Pairs(ml: Links): (s: set<(nat, nat)>) {
    set u: nat | u < |ml| && ml[u].Some? :: (u, ml[u].value)
  }

  lemma LinkedIsMatching(adj: Graph, ml: Links, mr: Links)
    requires Linked(adj, ml, mr)
    ensures IsMatching(adj, Pairs(ml))
    ensures |Pairs(ml)| == |Placed(ml)|
  {
    var pairs := Pairs(ml);
    forall p, q | p in pairs && q in pairs && (p.0 == q.0 || p.1 == q.1)
      ensures p == q
    {
      assert mr[p.1] == Some(p.0) && mr[q.1] == Some(q.0);
    }
    ImageSize(Placed(ml), pairs, ml);
  }

  lemma ImageSize(us: set<nat>, pairs: set<(nat, nat)>, ml: Links)
    requires forall u :: u in us ==> u < |ml| && ml[u].Some?
    requires pairs == set u | u in us :: (u, ml[u].value)
    ensures |pairs| == |us|
  {
    if us == {} {
      assert pairs == {};
    } else {
      var u :| u in us;
      var rest := us - {u};
      var restPairs := set x | x in rest :: (x, ml[x].value);
      assert pairs == restPairs + {(u, ml[u].value)};
      ImageSize(rest, restPairs, ml);
    }
  }

  // ----- The layering

  /** Where an edge into right node `v` leads: its partner, or the sentinel when it is free. */
  function Next(mr: Links, v: nat, sentinel: nat): (x: nat)
    requires v < |mr|
  {
    match mr[v] case Some(u) => u case None => sentinel
  }

  /** There is an edge from `p` that leads to `x`. */
  ghost predicate Leads(adj: Graph, mr: Links, p: nat, x: nat)
    requires InRange(adj, |mr|)
  {
    p < |adj| && exists i :: 0 <= i < |adj[p]| && Next(mr, adj[p][i].right, |adj|) == x
  }

  /** The breadth-first layers: zero at exactly the free left nodes, and every deeper node has a
      predecessor one layer up. */
  ghost predicate Layered(adj: Graph, ml: Links, mr: Links, dist: Links)
    requires InRange(adj, |mr|)
  {
    && |ml| == |adj|
    && |dist| == |adj| + 1
    && (forall u :: 0 <= u < |adj| ==> (dist[u] == Some(0) <==> ml[u].None?))
    && dist[|adj|] != Some(0)
    && forall x: nat :: x < |dist| && dist[x].Some? && dist[x].value > 0 ==> HasPredecessor(adj, mr, dist, x)
  }

  /** Some node one layer up leads to `x`. */
  ghost predicate HasPredecessor(adj: Graph, mr: Links, dist: Links, x: nat)
    requires InRange(adj, |mr|) && |dist| == |adj| + 1 && x < |dist|
  {
    dist[x].Some? && dist[x].value > 0 && exists p: nat :: p < |adj| && dist[p] == Some(dist[x].value - 1) && Leads(adj, mr, p, x)
  }

  /** Nothing reached leads anywhere unreached. */
  ghost predicate Closed(adj: Graph, mr: Links, dist: Links)
    requires InRange(adj, |mr|) && |dist| == |adj| + 1
  {
    ClosedBut(adj, mr, dist, [])
  }

  /** The same, not counting the nodes still waiting to be expanded. */
  ghost predicate ClosedBut(adj: Graph, mr: Links, dist: Links, waiting: seq<nat>)
    requires InRange(adj, |mr|) && |dist| == |adj| + 1
  {
    forall u: nat, x: nat ::
      (u < |adj| && dist[u].Some? && u !in waiting && x <= |adj| && Leads(adj, mr, u, x)) ==> dist[x].Some?
  }

  ghost predicate Capped(dist: Links, bound: nat) {
    forall x :: 0 <= x < |dist| && dist[x].Some? ==> dist[x].value <= bound
  }

  ghost predicate Deeper(dist: Links, u: nat, x: nat)
    requires u < |dist| && x < |dist|
  {
    dist[u].Some? && dist[x].Some? && dist[x].value > dist[u].value
  }

  // ----- Least layers

  /** An alternating walk of `k` edges leads from a free left node to `x`. */
  ghost predicate Walk(adj: Graph, ml: Links, mr: Links, x: nat, k: nat)
    requires InRange(adj, |mr|) && |ml| == |adj|
    decreases k
  {
    if k == 0 then x < |adj| && ml[x].None?
    else exists p: nat :: Walk(adj, ml, mr, p, k - 1) && Leads(adj, mr, p, x)
  }

  /** A layer is the length of the shortest walk; what has no layer has no walk, or none as short
      as the way to a free right node. */
  ghost predicate Shortest(adj: Graph, ml: Links, mr: Links, dist: Links)
    requires InRange(adj, |mr|) && |ml| == |adj| && |dist| == |adj| + 1
  {
    && (forall x: nat :: x <= |adj| && dist[x].Some? ==> Walk(adj, ml, mr, x, dist[x].value))
    && forall x: nat, k: nat :: x <= |adj| && Walk(adj, ml, mr, x, k) && (dist[|adj|].Some? ==> k <= dist[|adj|].value) ==>
         dist[x].Some? && dist[x].value <= k
  }

  /** A node expanded leads at most one layer down. */
  ghost predicate Tight(adj: Graph, mr: Links, dist: Links, waiting: seq<nat>)
    requires InRange(adj, |mr|) && |dist| == |adj| + 1
  {
    forall u: nat, x: nat ::
      (u < |adj| && dist[u].Some? && u !in waiting && Closer(dist, u) && x <= |adj| && Leads(adj, mr, u, x)) ==>
        dist[x].Some? && dist[x].value <= dist[u].value + 1
  }

  /** Closer than the nearest free right node found. */
  predicate Closer(dist: Links, u: nat)
    requires u < |dist|
  {
    dist[u].Some? && (dist[|dist| - 1].Some? ==> dist[u].value < dist[|dist| - 1].value)
  }

  /** Nodes wait in the order of their layers, from `low` on. */
  ghost predicate Rising(dist: Links, low: nat, waiting: seq<nat>) {
    && (forall i :: 0 <= i < |waiting| ==> waiting[i] < |dist| && dist[waiting[i]].Some? && low <= dist[waiting[i]].value)
    && forall i, j :: 0 <= i < j < |waiting| ==> dist[waiting[i]].value <= dist[waiting[j]].value
  }

  ghost predicate NoDeeper(dist: Links, most: nat) {
    forall x :: 0 <= x < |dist| && dist[x].Some? ==> dist[x].value <= most
  }

  /** While `u` is expanded: nothing lies more than a layer below it. */
  ghost predicate Expanding(adj: Graph, mr: Links, dist: Links, u: nat, waiting: seq<nat>) {
    && InRange(adj, |mr|) && |dist| == |adj| + 1 && u < |adj| && dist[u].Some?
    && NoDeeper(dist, dist[u].value + 1)
    && Rising(dist, dist[u].value, waiting)
    && Tight(adj, mr, dist, [u] + waiting)
    && (dist[|adj|].Some? ==> NoDeeper(dist, dist[|adj|].value))
  }

  ghost predicate BreadthFirst(adj: Graph, mr: Links, dist: Links, waiting: seq<nat>) {
    && InRange(adj, |mr|) && |dist| == |adj| + 1
    && Rising(dist, 0, waiting)
    && (waiting != [] ==> NoDeeper(dist, dist[waiting[0]].value + 1))
    && Tight(adj, mr, dist, waiting)
    && (dist[|adj|].Some? ==> NoDeeper(dist, dist[|adj|].value))
  }

  lemma BreadthStart(adj: Graph, ml: Links, mr: Links, dist: Links, waiting: seq<nat>)
    requires InRange(adj, |mr|) && |ml| == |adj| && |dist| == |adj| + 1 && dist[|adj|].None?
    requires forall x: nat :: x < |adj| ==> dist[x] == if ml[x].None? then Some(0) else None
    requires forall x: nat :: x < |adj| && ml[x].None? ==> x in waiting
    requires forall q :: q in waiting ==> q < |adj| && ml[q].None?
    ensures BreadthFirst(adj, mr, dist, waiting)
  {
    assert forall i :: 0 <= i < |waiting| ==> waiting[i] in waiting;
  }

  lemma BreadthPop(adj: Graph, mr: Links, dist: Links, waiting: seq<nat>)
    requires BreadthFirst(adj, mr, dist, waiting) && waiting != [] && waiting[0] < |adj|
    ensures Expanding(adj, mr, dist, waiting[0], waiting[1..])
  {
    assert waiting == [waiting[0]] + waiting[1..];
    assert forall i :: 0 <= i < |waiting[1..]| ==> waiting[1..][i] == waiting[i + 1];
  }

  lemma BreadthSkip(adj: Graph, mr: Links, dist: Links, u: nat, waiting: seq<nat>)
    requires Expanding(adj, mr, dist, u, waiting)
    requires !Closer(dist, u) || forall x: nat :: x <= |adj| && Leads(adj, mr, u, x) ==> dist[x].Some?
    ensures BreadthFirst(adj, mr, dist, waiting)
  {
    hide Leads;
    forall v: nat, x: nat | v < |adj| && dist[v].Some? && v !in waiting && Closer(dist, v) && x <= |adj| && Leads(adj, mr, v, x)
      ensures dist[x].Some? && dist[x].value <= dist[v].value + 1
    {
      if v != u {
        assert v !in [u] + waiting;
      }
    }
  }

  lemma BreadthVisit(adj: Graph, mr: Links, dist: Links, u: nat, waiting: seq<nat>, next: nat)
    requires Expanding(adj, mr, dist, u, waiting) && Closer(dist, u) && next <= |adj| && dist[next].None?
    ensures
      var after := dist[next := Some(dist[u].value + 1)];
      Expanding(adj, mr, after, u, Enqueued(waiting, next, |adj|)) && Closer(after, u)
  {
    hide Leads, Rising, Tight, NoDeeper;
    var d := dist[u].value + 1;
    NotDeeperThan(dist, next, d, d);
    StillRising(dist, dist[u].value, waiting, next, d, |adj|);
    StillTight(adj, mr, dist, u, waiting, next, d);
    if next != |adj| && dist[|adj|].Some? {
      NotDeeperThan(dist, next, d, dist[|adj|].value);
    }
  }

  lemma NotDeeperThan(dist: Links, next: nat, d: nat, most: nat)
    requires NoDeeper(dist, most) && next < |dist| && d <= most
    ensures NoDeeper(dist[next := Some(d)], most)
  {}

  lemma StillRising(dist: Links, low: nat, waiting: seq<nat>, next: nat, d: nat, sentinel: nat)
    requires Rising(dist, low, waiting) && NoDeeper(dist, d) && low <= d && next < |dist| && dist[next].None?
    ensures Rising(dist[next := Some(d)], low, Enqueued(waiting, next, sentinel))
  {
    assert forall i :: 0 <= i < |waiting| ==> waiting[i] != next;
  }

  lemma StillTight(adj: Graph, mr: Links, dist: Links, u: nat, waiting: seq<nat>, next: nat, d: nat)
    requires InRange(adj, |mr|) && |dist| == |adj| + 1 && next <= |adj| && dist[next].None? && u < |adj|
    requires Tight(adj, mr, dist, [u] + waiting)
    ensures Tight(adj, mr, dist[next := Some(d)], [u] + Enqueued(waiting, next, |adj|))
  {
    hide Leads;
    var after := dist[next := Some(d)];
    var queue := Enqueued(waiting, next, |adj|);
    assert forall q :: q in waiting ==> q in queue;
    forall v: nat, x: nat | v < |adj| && after[v].Some? && v !in [u] + queue && Closer(after, v) && x <= |adj| && Leads(adj, mr, v, x)
      ensures after[x].Some? && after[x].value <= after[v].value + 1
    {
      assert next != |adj| ==> next in queue;
      assert v !in [u] + waiting;
    }
  }

  /** Every edge out of `u` has been looked at. */
  lemma ExpandedLeads(adj: Graph, mr: Links, dist: Links, u: nat)
    requires InRange(adj, |mr|) && u < |adj| && |dist| == |adj| + 1 && Expanded(adj, mr, dist, u, |adj[u]|)
    ensures forall x: nat :: x <= |adj| && Leads(adj, mr, u, x) ==> dist[x].Some?
  {}

  /** What a breadth-first search layers are the least distances. */
  lemma LayersAreShortest(adj: Graph, ml: Links, mr: Links, dist: Links)
    requires InRange(adj, |mr|) && Layered(adj, ml, mr, dist) && BreadthFirst(adj, mr, dist, [])
    ensures Shortest(adj, ml, mr, dist)
  {
    hide Layered, BreadthFirst, Walk;
    LayeredSize(adj, ml, mr, dist);
    forall x: nat | x <= |adj| && dist[x].Some?
      ensures Walk(adj, ml, mr, x, dist[x].value)
    {
      LayerHasWalk(adj, ml, mr, dist, x, dist[x].value);
    }
    forall x: nat, k: nat | x <= |adj| && Walk(adj, ml, mr, x, k) && (dist[|adj|].Some? ==> k <= dist[|adj|].value)
      ensures dist[x].Some? && dist[x].value <= k
    {
      WalkIsNoShorter(adj, ml, mr, dist, x, k);
    }
  }

  lemma LayeredSize(adj: Graph, ml: Links, mr: Links, dist: Links)
    requires InRange(adj, |mr|) && Layered(adj, ml, mr, dist)
    ensures |ml| == |adj| && |dist| == |adj| + 1
  {}

  lemma {:induction false} LayerHasWalk(adj: Graph, ml: Links, mr: Links, dist: Links, x: nat, d: nat)
    requires InRange(adj, |mr|) && Layered(adj, ml, mr, dist) && x <= |adj| && dist[x] == Some(d)
    ensures Walk(adj, ml, mr, x, d)
    decreases d
  {
    hide Leads;
    if d > 0 {
      assert HasPredecessor(adj, mr, dist, x);
      var p: nat :| p < |adj| && dist[p] == Some(d - 1) && Leads(adj, mr, p, x);
      LayerHasWalk(adj, ml, mr, dist, p, d - 1);
    }
  }

  lemma {:induction false} WalkIsNoShorter(adj: Graph, ml: Links, mr: Links, dist: Links, x: nat, k: nat)
    requires InRange(adj, |mr|) && Layered(adj, ml, mr, dist) && BreadthFirst(adj, mr, dist, [])
    requires x <= |adj| && Walk(adj, ml, mr, x, k) && (dist[|adj|].Some? ==> k <= dist[|adj|].value)
    ensures dist[x].Some? && dist[x].value <= k
    decreases k
  {
    hide Leads, Layered, BreadthFirst;
    LayeredSize(adj, ml, mr, dist);
    if k == 0 {
      FreeIsLayered(adj, ml, mr, dist, x);
    } else {
      var p: nat :| Walk(adj, ml, mr, p, k - 1) && Leads(adj, mr, p, x);
      LeadsFrom(adj, mr, p, x);
      WalkIsNoShorter(adj, ml, mr, dist, p, k - 1);
      OneStepDown(adj, mr, dist, p, x);
    }
  }

  lemma FreeIsLayered(adj: Graph, ml: Links, mr: Links, dist: Links, x: nat)
    requires InRange(adj, |mr|) && Layered(adj, ml, mr, dist) && x < |adj| && ml[x].None?
    ensures dist[x] == Some(0)
  {}

  lemma OneStepDown(adj: Graph, mr: Links, dist: Links, p: nat, x: nat)
    requires InRange(adj, |mr|) && BreadthFirst(adj, mr, dist, []) && |dist| == |adj| + 1 && p < |adj| && x <= |adj|
    requires dist[p].Some? && Closer(dist, p) && Leads(adj, mr, p, x)
    ensures dist[x].Some? && dist[x].value <= dist[p].value + 1
  {
    hide Leads;
  }

  lemma LeadsFrom(adj: Graph, mr: Links, p: nat, x: nat)
    requires InRange(adj, |mr|) && Leads(adj, mr, p, x)
    ensures p < |adj|
  {}

  // ----- Building the layering

  /** What the breadth-first search keeps: the nodes waiting to be expanded are layered, and the
      one at position `i` no deeper than the number of nodes popped before it. */
  ghost predicate Frontier(adj: Graph, ml: Links, mr: Links, dist: Links, waiting: seq<nat>, popped: nat) {
    && InRange(adj, |mr|) && (forall v :: 0 <= v < |mr| && mr[v].Some? ==> mr[v].value < |adj|)
    && Layered(adj, ml, mr, dist)
    && Capped(dist, |adj|)
    && popped + |waiting| + Unseen(dist, |adj|) == |adj|
    && Waiting(adj, dist, waiting, popped)
  }

  ghost predicate Waiting(adj: Graph, dist: Links, waiting: seq<nat>, popped: nat)
    requires |dist| == |adj| + 1
  {
    forall i :: 0 <= i < |waiting| ==>
      waiting[i] < |adj| && dist[waiting[i]].Some? && dist[waiting[i]].value <= popped + i
  }

  /** The first `index` edges of `u` lead to layered nodes. */
  ghost predicate Expanded(adj: Graph, mr: Links, dist: Links, u: nat, index: nat)
    requires InRange(adj, |mr|) && u < |adj| && index <= |adj[u]|
  {
    forall i :: 0 <= i < index ==>
      var x := Next(mr, adj[u][i].right, |adj|);
      x < |dist| && dist[x].Some?
  }

  lemma FrontierStart(adj: Graph, ml: Links, mr: Links, dist: Links, queue: seq<nat>)
    requires InRange(adj, |mr|) && (forall v :: 0 <= v < |mr| && mr[v].Some? ==> mr[v].value < |adj|)
    requires |ml| == |adj| && |dist| == |adj| + 1 && dist[|adj|].None?
    requires forall x: nat :: x < |adj| ==> dist[x] == if ml[x].None? then Some(0) else None
    requires forall x: nat :: x < |adj| && ml[x].None? ==> x in queue
    requires forall q :: q in queue ==> q < |adj| && ml[q].None?
    requires |queue| + Unseen(dist, |adj|) == |adj|
    ensures Frontier(adj, ml, mr, dist, queue, 0)
    ensures ClosedBut(adj, mr, dist, queue)
  {
    assert forall i :: 0 <= i < |queue| ==> queue[i] in queue;
  }

  lemma FrontierGives(adj: Graph, ml: Links, mr: Links, dist: Links, waiting: seq<nat>, popped: nat)
    requires Frontier(adj, ml, mr, dist, waiting, popped)
    ensures Layered(adj, ml, mr, dist) && Capped(dist, |adj|) && |dist| == |adj| + 1
  {}

  lemma NoneLinked(adj: Graph, ml: Links, mr: Links)
    requires |ml| == |adj| && (forall u :: 0 <= u < |ml| ==> ml[u].None?) && forall v :: 0 <= v < |mr| ==> mr[v].None?
    ensures Linked(adj, ml, mr) && |Placed(ml)| == 0
  {
    assert Placed(ml) == {};
  }

  lemma RowInRange(adj: Graph, nRight: nat, u: nat)
    requires InRange(adj, nRight) && u < |adj|
    ensures forall i :: 0 <= i < |adj[u]| ==> adj[u][i].right < nRight
  {}

  lemma LinkedInRange(adj: Graph, ml: Links, mr: Links)
    requires Linked(adj, ml, mr)
    ensures |ml| == |adj| && forall v :: 0 <= v < |mr| && mr[v].Some? ==> mr[v].value < |adj|
  {}

  lemma ExpandedStep(adj: Graph, mr: Links, dist: Links, u: nat, index: nat)
    requires InRange(adj, |mr|) && u < |adj| && index < |adj[u]|
    requires var x := Next(mr, adj[u][index].right, |adj|); x < |dist| && dist[x].Some?
    requires Expanded(adj, mr, dist, u, index)
    ensures Expanded(adj, mr, dist, u, index + 1)
  {}

  lemma ExpandedKept(adj: Graph, mr: Links, dist: Links, u: nat, index: nat, x: nat, d: nat)
    requires InRange(adj, |mr|) && u < |adj| && index <= |adj[u]| && x < |dist|
    requires Expanded(adj, mr, dist, u, index)
    ensures Expanded(adj, mr, dist[x := Some(d)], u, index)
  {}

  lemma ExpandedNone(adj: Graph, mr: Links, dist: Links, u: nat)
    requires InRange(adj, |mr|) && u < |adj|
    ensures Expanded(adj, mr, dist, u, 0)
  {}

  lemma FrontierPop(adj: Graph, ml: Links, mr: Links, dist: Links, waiting: seq<nat>, popped: nat)
    requires Frontier(adj, ml, mr, dist, waiting, popped) && waiting != []
    ensures Frontier(adj, ml, mr, dist, waiting[1..], popped + 1)
    ensures waiting[0] < |adj| && dist[waiting[0]].Some? && dist[waiting[0]].value <= popped
    ensures waiting == [waiting[0]] + waiting[1..]
  {
    forall i | 0 <= i < |waiting| - 1
      ensures var w := waiting[1..][i]; w < |adj| && dist[w].Some? && dist[w].value <= popped + 1 + i
    {
      assert waiting[1..][i] == waiting[i + 1];
    }
  }

  /** The queue once `next` has been reached: it waits, unless it stands for a free right node. */
  function Enqueued(waiting: seq<nat>, next: nat, sentinel: nat): seq<nat> {
    if next == sentinel then waiting else waiting + [next]
  }

  /** Reaching `next` from `u` for the first time keeps everything the search relies on. */
  lemma FrontierVisit(adj: Graph, ml: Links, mr: Links, dist: Links, waiting: seq<nat>, popped: nat,
                      u: nat, index: nat, next: nat, d: nat)
    requires Frontier(adj, ml, mr, dist, waiting, popped)
    requires u < |adj| && index < |adj[u]| && next == Next(mr, adj[u][index].right, |adj|)
    requires next <= |adj| && dist[next].None? && dist[u].Some? && d == dist[u].value + 1 <= popped
    ensures Frontier(adj, ml, mr, dist[next := Some(d)], Enqueued(waiting, next, |adj|), popped)
  {
    UnseenUpdate(dist, |adj|, next, d);
    LayeredUpdate(adj, ml, mr, dist, u, index);
    WaitingVisit(adj, dist, waiting, popped, next, d);
    hide Layered, Unseen, Leads, Waiting;
  }

  lemma WaitingVisit(adj: Graph, dist: Links, waiting: seq<nat>, popped: nat, next: nat, d: nat)
    requires |dist| == |adj| + 1 && next <= |adj| && dist[next].None? && d <= popped
    requires Waiting(adj, dist, waiting, popped)
    ensures Waiting(adj, dist[next := Some(d)], Enqueued(waiting, next, |adj|), popped)
  {}

  lemma ClosedVisit(adj: Graph, mr: Links, dist: Links, waiting: seq<nat>, u: nat, next: nat, d: nat)
    requires InRange(adj, |mr|) && |dist| == |adj| + 1 && next <= |adj| && dist[next].None?
    requires dist[|adj|].None? ==> ClosedBut(adj, mr, dist, [u] + waiting)
    ensures next != |adj| && dist[|adj|].None? ==>
      ClosedBut(adj, mr, dist[next := Some(d)], [u] + Enqueued(waiting, next, |adj|))
  {
    var dist', waiting' := dist[next := Some(d)], Enqueued(waiting, next, |adj|);
    if next != |adj| && dist[|adj|].None? {
      forall w: nat, x: nat | w < |adj| && dist'[w].Some? && w !in [u] + waiting' && x <= |adj| && Leads(adj, mr, w, x)
        ensures dist'[x].Some?
      {
        assert next in waiting' && forall q :: q in waiting ==> q in waiting';
        assert w !in [u] + waiting;
      }
    }
  }

  lemma LayeredUpdate(adj: Graph, ml: Links, mr: Links, dist: Links, u: nat, index: nat)
    requires InRange(adj, |mr|) && Layered(adj, ml, mr, dist)
    requires u < |adj| && dist[u].Some? && index < |adj[u]|
    requires var next := Next(mr, adj[u][index].right, |adj|); next <= |adj| && dist[next].None?
    ensures Layered(adj, ml, mr, dist[Next(mr, adj[u][index].right, |adj|) := Some(dist[u].value + 1)])
  {
    var next := Next(mr, adj[u][index].right, |adj|);
    assert Leads(adj, mr, u, next);
    LayeredMore(adj, ml, mr, dist, u, next);
  }

  lemma LayeredMore(adj: Graph, ml: Links, mr: Links, dist: Links, u: nat, next: nat)
    requires InRange(adj, |mr|) && Layered(adj, ml, mr, dist) && u < |adj| && dist[u].Some?
    requires next <= |adj| && dist[next].None? && Leads(adj, mr, u, next)
    ensures Layered(adj, ml, mr, dist[next := Some(dist[u].value + 1)])
  {
    hide Leads, InRange, HasPredecessor;
    var dist' := dist[next := Some(dist[u].value + 1)];
    forall x: nat | x < |dist'| && dist'[x].Some? && dist'[x].value > 0
      ensures HasPredecessor(adj, mr, dist', x)
    {
      if x == next {
        NewPredecessor(adj, mr, dist', u, x);
      } else {
        SamePredecessor(adj, mr, dist, next, dist[u].value + 1, x);
      }
    }
  }

  lemma NewPredecessor(adj: Graph, mr: Links, dist: Links, u: nat, x: nat)
    requires InRange(adj, |mr|) && |dist| == |adj| + 1 && u < |adj| && x < |dist|
    requires dist[u].Some? && dist[x] == Some(dist[u].value + 1) && Leads(adj, mr, u, x)
    ensures HasPredecessor(adj, mr, dist, x)
  {
    hide Leads;
  }

  lemma SamePredecessor(adj: Graph, mr: Links, dist: Links, next: nat, d: nat, x: nat)
    requires InRange(adj, |mr|) && |dist| == |adj| + 1 && next < |dist| && dist[next].None? && x < |dist| && x != next
    requires HasPredecessor(adj, mr, dist, x)
    ensures HasPredecessor(adj, mr, dist[next := Some(d)], x)
  {
    hide Leads;
    var p: nat :| p < |adj| && dist[p] == Some(dist[x].value - 1) && Leads(adj, mr, p, x);
    assert dist[next := Some(d)][p] == dist[p];
  }

  lemma ExpandedAll(adj: Graph, mr: Links, dist: Links, u: nat, waiting: seq<nat>)
    requires InRange(adj, |mr|) && |dist| == |adj| + 1 && u < |adj|
    requires Expanded(adj, mr, dist, u, |adj[u]|)
    ensures ClosedBut(adj, mr, dist, [u] + waiting) ==> ClosedBut(adj, mr, dist, waiting)
  {
    if ClosedBut(adj, mr, dist, [u] + waiting) {
      forall w: nat, x: nat | w < |adj| && dist[w].Some? && w !in waiting && x <= |adj| && Leads(adj, mr, w, x)
        ensures dist[x].Some?
      {
        if w != u {
          assert w !in [u] + waiting;
        }
      }
    }
  }

  // ----- Maximality, by a vertex cover of the same size

  /** When the layering reaches no free right node, no matching of the graph is larger: the
      unreached layers and the planes next to reached layers cover every edge, and there are
      exactly as many of them as there are pairs. */
  lemma StuckIsMaximum(adj: Graph, ml: Links, mr: Links, dist: Links)
    requires InRange(adj, |mr|)
    requires Linked(adj, ml, mr)
    requires Layered(adj, ml, mr, dist) && Closed(adj, mr, dist) && dist[|adj|].None?
    ensures IsMaximum(adj, Pairs(ml))
  {
    LinkedIsMatching(adj, ml, mr);
    var unreached := set u: nat | u < |adj| && dist[u].None?;
    var near := set v: nat | v < |mr| && mr[v].Some? && mr[v].value < |adj| && dist[mr[v].value].Some?;
    CoverSize(adj, ml, mr, dist, unreached, near);
    forall other: set<(nat, nat)> | IsMatching(adj, other)
      ensures |other| <= |Pairs(ml)|
    {
      forall p | p in other
        ensures p.0 in unreached || p.1 in near
      {
        assert HasEdge(adj, p.0, p.1);
        var i :| 0 <= i < |adj[p.0]| && adj[p.0][i].right == p.1;
        if dist[p.0].Some? {
          assert Leads(adj, mr, p.0, Next(mr, p.1, |adj|));
        }
      }
      CoveredSize(adj, other, unreached, near);
    }
  }

  lemma CoverSize(adj: Graph, ml: Links, mr: Links, dist: Links, unreached: set<nat>, near: set<nat>)
    requires InRange(adj, |mr|)
    requires Linked(adj, ml, mr)
    requires Layered(adj, ml, mr, dist) && Closed(adj, mr, dist) && dist[|adj|].None?
    requires unreached == set u: nat | u < |adj| && dist[u].None?
    requires near == set v: nat | v < |mr| && mr[v].Some? && mr[v].value < |adj| && dist[mr[v].value].Some?
    ensures |unreached| + |near| == |Placed(ml)|
  {
    var reached := set u: nat | u < |adj| && ml[u].Some? && dist[u].Some?;
    assert Placed(ml) == unreached + reached;
    assert unreached !! reached;
    assert forall u :: u in reached ==> mr[ml[u].value] == Some(u);
    assert forall v :: v in near ==> ml[mr[v].value] == Some(v);
    PartnersSize(reached, near, ml, mr);
  }

  lemma PartnersSize(us: set<nat>, vs: set<nat>, ml: Links, mr: Links)
    requires forall u :: u in us ==> u < |ml| && ml[u].Some? && ml[u].value in vs
    requires forall v :: v in vs ==> v < |mr| && mr[v].Some? && mr[v].value in us
    requires forall u :: u in us ==> mr[ml[u].value] == Some(u)
    requires forall v :: v in vs ==> ml[mr[v].value] == Some(v)
    ensures |us| == |vs|
  {
    if us == {} {
      assert vs == {};
    } else {
      var u :| u in us;
      var v := ml[u].value;
      PartnersSize(us - {u}, vs - {v}, ml, mr);
    }
  }

  lemma CoveredSize(adj: Graph, pairs: set<(nat, nat)>, lefts: set<nat>, rights: set<nat>)
    requires IsMatching(adj, pairs)
    requires forall p :: p in pairs ==> p.0 in lefts || p.1 in rights
    ensures |pairs| <= |lefts| + |rights|
    decreases pairs
  {
    if pairs != {} {
      var p :| p in pairs;
      if p.0 in lefts {
        CoveredSize(adj, pairs - {p}, lefts - {p.0}, rights);
      } else {
        CoveredSize(adj, pairs - {p}, lefts, rights - {p.1});
      }
    }
  }

  /** Scores cannot change how many layers are placed: two graphs with the same edges, however
      scored and ordered, have equally large maximum matchings. */
  lemma ScoresDoNotChangeCardinality(a: Graph, b: Graph, ma: set<(nat, nat)>, mb: set<(nat, nat)>)
    requires SameEdges(a, b)
    requires IsMaximum(a, ma) && IsMaximum(b, mb)
    ensures |ma| == |mb|
  {
    assert IsMatching(b, ma);
    assert IsMatching(a, mb);
  }

  // ----- Progress: a layering that reaches a free right node is never wasted

  /** The nodes a round has given up on: layered when it began, not any more. */
  ghost predicate Dead(dist0: Links, dist: Links, x: nat)
    requires |dist| == |dist0|
  {
    x < |dist| && dist0[x].Some? && dist[x].None?
  }

  /** A dead node leads one layer down only to dead nodes, and never to a free right node. */
  ghost predicate DeadClosed(adj: Graph, mr: Links, dist0: Links, dist: Links)
    requires InRange(adj, |mr|) && |dist| == |dist0| == |adj| + 1
  {
    forall u: nat, x: nat ::
      (u < |adj| && x <= |adj| && Dead(dist0, dist, u) && Leads(adj, mr, u, x) && dist0[x] == Some(dist0[u].value + 1))
      ==> x < |adj| && Dead(dist0, dist, x)
  }

  lemma {:induction false} DeadLayers(adj: Graph, ml: Links, mr: Links, dist0: Links, dist: Links, x: nat)
    requires InRange(adj, |mr|) && |dist| == |dist0| == |adj| + 1 && |ml| == |adj|
    requires Layered(adj, ml, mr, dist0)
    requires DeadClosed(adj, mr, dist0, dist)
    requires forall u: nat :: u < |adj| && ml[u].None? ==> dist[u].None?
    requires x <= |adj| && dist0[x].Some?
    ensures x < |adj| && Dead(dist0, dist, x)
    decreases dist0[x].value
  {
    if dist0[x].value > 0 {
      var p :| 0 <= p < |adj| && dist0[p] == Some(dist0[x].value - 1) && Leads(adj, mr, p, x);
      DeadLayers(adj, ml, mr, dist0, dist, p);
    }
  }

  /** What a round keeps: nodes have only been given up, and lead down only to others given up; and by
      the layers it began with no edge leads more than one down. */
  ghost predicate RoundKept(adj: Graph, mr: Links, dist0: Links, dist: Links) {
    && InRange(adj, |mr|) && |dist| == |dist0| == |adj| + 1 && dist0[|adj|].Some?
    && Faded(dist0, dist) && DeadClosed(adj, mr, dist0, dist)
    && Tight(adj, mr, dist0, []) && NoDeeper(dist0, dist0[|adj|].value)
  }

  lemma RoundStarts(adj: Graph, mr: Links, dist: Links)
    requires |dist| == |adj| + 1 && dist[|adj|].Some? && BreadthFirst(adj, mr, dist, [])
    ensures RoundKept(adj, mr, dist, dist)
  {}

  lemma RoundSizes(adj: Graph, mr: Links, dist0: Links, dist: Links)
    requires RoundKept(adj, mr, dist0, dist)
    ensures InRange(adj, |mr|) && |dist| == |dist0| == |adj| + 1 && dist0[|adj|].Some?
    ensures Faded(dist0, dist) && DeadClosed(adj, mr, dist0, dist)
  {}

  lemma FreeAtZero(adj: Graph, ml: Links, mr: Links, dist: Links)
    requires InRange(adj, |mr|) && Layered(adj, ml, mr, dist)
    ensures |ml| == |adj| && |dist| == |adj| + 1
    ensures forall x: nat :: x < |adj| && ml[x].None? ==> dist[x] == Some(0)
  {}

  lemma NotAtZero(adj: Graph, ml: Links, mr: Links, dist: Links)
    requires InRange(adj, |mr|) && Layered(adj, ml, mr, dist)
    ensures |dist| == |adj| + 1 && dist[|adj|] != Some(0)
  {}

  /** After a deeper augmentation the right node `u` wants is still its old partner's. */
  lemma StillNext(adj: Graph, before: Links, ml0: Links, mr0: Links, ml: Links, mr: Links, u: nat, index: nat)
    requires InRange(adj, |mr0|) && Linked(adj, ml0, mr0) && u < |adj| && index < |adj[u]|
    requires
      var v := adj[u][index].right;
      match mr0[v]
      case None => ml == ml0 && mr == mr0
      case Some(next) => Augmented(adj, before, ml0, mr0, ml, mr, next)
    ensures |mr| == |mr0| && Next(mr, adj[u][index].right, |adj|) == Next(mr0, adj[u][index].right, |adj|)
  {}

  /** Giving `u` the right node of a node one layer below moves that node's edge up: whatever led to
      the one below now leads to `u`, which lies no lower than what leads to it. */
  lemma RelinkKeepsRound(adj: Graph, mr: Links, dist0: Links, dist: Links, u: nat, index: nat, before: Links)
    requires RoundKept(adj, mr, dist0, dist) && u < |adj| && index < |adj[u]| && dist[u].Some?
    requires
      var x := Next(mr, adj[u][index].right, |adj|);
      |before| == |dist0| && x < |before| && before[x] == Some(dist[u].value + 1) && Faded(dist0, before)
    ensures RoundKept(adj, mr[adj[u][index].right := Some(u)], dist0, dist)
  {
    hide Leads;
    var v := adj[u][index].right;
    var x, after := Next(mr, v, |adj|), mr[v := Some(u)];
    FadedAt(dist0, before, x);
    FadedAt(dist0, dist, u);
    forall p: nat, y: nat | p < |adj| && Leads(adj, after, p, y)
      ensures Leads(adj, mr, p, y) || (y == u && Leads(adj, mr, p, x))
    {
      RelinkedLeads(adj, mr, u, v, p, y);
    }
  }

  lemma FadedAt(dist0: Links, dist: Links, x: nat)
    requires Faded(dist0, dist) && x < |dist| && dist[x].Some?
    ensures dist0[x] == dist[x]
  {}

  lemma RelinkedLeads(adj: Graph, mr: Links, u: nat, v: nat, p: nat, y: nat)
    requires InRange(adj, |mr|) && v < |mr| && Leads(adj, mr[v := Some(u)], p, y)
    ensures Leads(adj, mr, p, y) || (y == u && Leads(adj, mr, p, Next(mr, v, |adj|)))
  {
    var i :| 0 <= i < |adj[p]| && Next(mr[v := Some(u)], adj[p][i].right, |adj|) == y;
    if adj[p][i].right == v {
      assert Next(mr, adj[p][i].right, |adj|) == Next(mr, v, |adj|);
    } else {
      assert Next(mr, adj[p][i].right, |adj|) == y;
    }
  }

  /** Every way to a free right node is longer than `length`. */
  ghost predicate Beyond(adj: Graph, ml: Links, mr: Links, length: nat)
    requires InRange(adj, |mr|) && |ml| == |adj|
  {
    forall k: nat :: Walk(adj, ml, mr, |adj|, k) ==> k > length
  }

  /** By the layers a round began with, a walk to `x` is no shorter than `x` is deep; one as short runs
      through nodes given up. */
  lemma {:induction false} WalkIsDeep(adj: Graph, ml: Links, mr: Links, dist0: Links, dist: Links, x: nat, k: nat)
    requires RoundKept(adj, mr, dist0, dist) && |ml| == |adj| && x <= |adj|
    requires forall f: nat :: f < |adj| && ml[f].None? ==> dist0[f] == Some(0) && dist[f].None?
    requires Walk(adj, ml, mr, x, k) && k <= dist0[|adj|].value
    ensures dist0[x].Some? && dist0[x].value <= k
    ensures dist0[x].value == k ==> x < |adj| && Dead(dist0, dist, x)
    decreases k
  {
    hide Leads, Faded;
    if k > 0 {
      var p: nat :| Walk(adj, ml, mr, p, k - 1) && Leads(adj, mr, p, x);
      LeadsFrom(adj, mr, p, x);
      WalkIsDeep(adj, ml, mr, dist0, dist, p, k - 1);
    }
  }

  /** Once every free node has been tried, no walk as short as the last layering's is left. */
  lemma RoundLengthens(adj: Graph, ml: Links, mr: Links, dist0: Links, dist: Links)
    requires RoundKept(adj, mr, dist0, dist) && |ml| == |adj|
    requires forall f: nat :: f < |adj| && ml[f].None? ==> dist0[f] == Some(0) && dist[f].None?
    ensures Beyond(adj, ml, mr, dist0[|adj|].value)
  {
    hide Walk;
    forall k: nat | Walk(adj, ml, mr, |adj|, k)
      ensures k > dist0[|adj|].value
    {
      if k <= dist0[|adj|].value {
        WalkIsDeep(adj, ml, mr, dist0, dist, |adj|, k);
      }
    }
  }

  lemma BeyondLayered(adj: Graph, ml: Links, mr: Links, dist: Links, length: nat)
    requires InRange(adj, |mr|) && |ml| == |adj| && |dist| == |adj| + 1
    requires Beyond(adj, ml, mr, length) && Shortest(adj, ml, mr, dist)
    ensures dist[|adj|].Some? ==> dist[|adj|].value > length
  {
    hide Walk;
  }

  // ----- Preference

  /** The first `index` edges of `u` lead to right nodes that have a partner. */
  ghost predicate Taken(adj: Graph, mr: Links, u: nat, index: nat)
    requires InRange(adj, |mr|) && u < |adj| && index <= |adj[u]|
  {
    forall j :: 0 <= j < index ==> mr[adj[u][j].right].Some?
  }

  /** No edge listed before the one to `v` leads to a free right node. */
  ghost predicate Settled(adj: Graph, mr: Links, u: nat, v: nat)
    requires InRange(adj, |mr|) && u < |adj|
  {
    exists i: nat :: i < |adj[u]| && adj[u][i].right == v && Taken(adj, mr, u, i)
  }

  ghost predicate AllSettled(adj: Graph, ml: Links, mr: Links) {
    && InRange(adj, |mr|) && |ml| == |adj|
    && forall u: nat :: u < |ml| && ml[u].Some? ==> Settled(adj, mr, u, ml[u].value)
  }

  /** A right node once taken stays taken. */
  ghost predicate StillTaken(before: Links, after: Links) {
    |before| == |after| && forall v :: 0 <= v < |before| && before[v].Some? ==> after[v].Some?
  }

  lemma StillTakenFrom(before: Links, between: Links, after: Links)
    requires StillTaken(before, between) && StillTaken(between, after)
    ensures StillTaken(before, after)
  {}

  lemma StillTakenSelf(links: Links)
    ensures StillTaken(links, links)
  {}

  lemma NoneSettled(adj: Graph, ml: Links, mr: Links)
    requires InRange(adj, |mr|) && |ml| == |adj| && forall u :: 0 <= u < |ml| ==> ml[u].None?
    ensures AllSettled(adj, ml, mr)
  {}

  /** What an attempt from `u`, in layer `du`, has passed over is taken, if a free right node could still
      lie one layer down. */
  ghost predicate PassedTaken(adj: Graph, mr: Links, dist0: Links, u: nat, du: nat, index: nat)
    requires InRange(adj, |mr|) && u < |adj| && index <= |adj[u]| && |dist0| == |adj| + 1 && dist0[|adj|].Some?
  {
    du < dist0[|adj|].value ==> Taken(adj, mr, u, index)
  }

  lemma NonePassed(adj: Graph, mr: Links, dist0: Links, u: nat, du: nat)
    requires InRange(adj, |mr|) && u < |adj| && |dist0| == |adj| + 1 && dist0[|adj|].Some?
    ensures PassedTaken(adj, mr, dist0, u, du, 0)
  {}

  /** An edge to a free right node is never passed over: that node lies one layer down. */
  lemma PassOver(adj: Graph, mr: Links, dist0: Links, dist: Links, u: nat, du: nat, index: nat)
    requires RoundKept(adj, mr, dist0, dist) && u < |adj| && index < |adj[u]| && dist[u] == Some(du)
    requires Next(mr, adj[u][index].right, |adj|) == |adj| ==> dist[|adj|] != Some(du + 1)
    requires PassedTaken(adj, mr, dist0, u, du, index)
    ensures PassedTaken(adj, mr, dist0, u, du, index + 1)
  {
    hide Leads, Dead;
    var v := adj[u][index].right;
    if du < dist0[|adj|].value {
      FadedAt(dist0, dist, u);
      LeadsBy(adj, mr, u, index);
      assert Closer(dist0, u) && u !in [];
    }
  }

  lemma LeadsBy(adj: Graph, mr: Links, u: nat, index: nat)
    requires InRange(adj, |mr|) && u < |adj| && index < |adj[u]|
    ensures Leads(adj, mr, u, Next(mr, adj[u][index].right, |adj|))
  {}

  /** `u` takes the plane of its edge `index`, having passed over none that is free. */
  lemma Settle(adj: Graph, ml: Links, mr0: Links, mr: Links, dist0: Links, dist: Links, u: nat, index: nat)
    requires AllSettled(adj, ml, mr) && StillTaken(mr0, mr) && u < |adj| && index < |adj[u]|
    requires RoundKept(adj, mr0, dist0, dist) && dist[u].Some?
    requires
      var x := Next(mr0, adj[u][index].right, |adj|);
      x <= |adj| && dist[x] == Some(dist[u].value + 1)
    requires PassedTaken(adj, mr0, dist0, u, dist[u].value, index)
    ensures
      var v := adj[u][index].right;
      v < |mr| && AllSettled(adj, ml[u := Some(v)], mr[v := Some(u)]) && StillTaken(mr0, mr[v := Some(u)])
  {
    hide DeadClosed, Tight;
    var v := adj[u][index].right;
    FadedAt(dist0, dist, Next(mr0, v, |adj|));
    var ml', mr' := ml[u := Some(v)], mr[v := Some(u)];
    assert Taken(adj, mr', u, index);
    forall w: nat | w < |ml'| && ml'[w].Some?
      ensures Settled(adj, mr', w, ml'[w].value)
    {
      if w != u {
        var i: nat :| i < |adj[w]| && adj[w][i].right == ml[w].value && Taken(adj, mr, w, i);
        assert Taken(adj, mr', w, i);
      }
    }
  }

  /** Whatever `w` could use, `u` could. */
  ghost predicate UsesAll(adj: Graph, u: nat, w: nat) {
    forall v: nat :: HasEdge(adj, w, v) ==> HasEdge(adj, u, v)
  }

  /** No node is placed ahead of an earlier one that could use everything it could. */
  ghost predicate InTurn(adj: Graph, ml: Links) {
    forall u: nat, w: nat :: u < w < |ml| && UsesAll(adj, u, w) && ml[w].Some? ==> ml[u].Some?
  }

  /** `u` leads one layer down. */
  ghost predicate LeadsDown(adj: Graph, mr: Links, dist: Links, u: nat)
    requires InRange(adj, |mr|) && |dist| == |adj| + 1 && u < |adj|
  {
    dist[u].Some? && exists x: nat :: x <= |adj| && dist[x] == Some(dist[u].value + 1) && Leads(adj, mr, u, x)
  }

  lemma NonePlaced(adj: Graph, ml: Links)
    requires forall u :: 0 <= u < |ml| ==> ml[u].None?
    ensures InTurn(adj, ml)
  {}

  lemma LeadDown(adj: Graph, mr: Links, start: Links, before: Links, u: nat, index: nat)
    requires InRange(adj, |mr|) && |start| == |adj| + 1 && u < |adj| && index < |adj[u]|
    requires GivenUp(start, before, u) && before[u].Some? && before[u] == start[u]
    requires
      var x := Next(mr, adj[u][index].right, |adj|);
      x <= |adj| && before[x] == Some(before[u].value + 1)
    ensures LeadsDown(adj, mr, start, u)
  {
    LeadsBy(adj, mr, u, index);
  }

  /** Where an earlier free node was tried in vain, one that could use no more leads nowhere. */
  lemma TurnKept(adj: Graph, ml0: Links, ml: Links, mr: Links, dist0: Links, dist: Links, w: nat)
    requires InTurn(adj, ml0) && RoundKept(adj, mr, dist0, dist) && |ml| == |ml0| == |adj|
    requires w < |adj| && Placed(ml) == Placed(ml0) + {w}
    requires LeadsDown(adj, mr, dist, w) && dist0[w] == Some(0)
    requires forall u: nat :: u < w && ml0[u].None? ==> dist0[u] == Some(0) && dist[u].None?
    ensures InTurn(adj, ml)
  {
    hide Leads, HasEdge, UsesAll, LeadsDown;
    forall u: nat | u < w && UsesAll(adj, u, w)
      ensures ml0[u].Some?
    {
      LeadsDownToo(adj, mr, dist0, dist, u, w);
    }
    forall u: nat, x: nat | u < x < |ml| && UsesAll(adj, u, x) && ml[x].Some?
      ensures ml[u].Some?
    {
      assert x in Placed(ml);
      assert u in Placed(ml0) ==> u in Placed(ml);
    }
  }

  lemma LeadsDownToo(adj: Graph, mr: Links, dist0: Links, dist: Links, u: nat, w: nat)
    requires RoundKept(adj, mr, dist0, dist) && u < |adj| && w < |adj|
    requires LeadsDown(adj, mr, dist, w) && dist0[w] == Some(0) && UsesAll(adj, u, w)
    ensures dist0[u] == Some(0) ==> dist[u].Some?
  {
    hide Tight, NoDeeper;
    var x: nat :| x <= |adj| && dist[x] == Some(dist[w].value + 1) && Leads(adj, mr, w, x);
    var i :| 0 <= i < |adj[w]| && Next(mr, adj[w][i].right, |adj|) == x;
    assert HasEdge(adj, w, adj[w][i].right);
    LeadsInto(adj, mr, u, adj[w][i].right);
    FadedAt(dist0, dist, x);
    FadedAt(dist0, dist, w);
    assert !Dead(dist0, dist, x);
  }

  // ----- Few rounds

  /** The nodes of one layer. */
  ghost function LayerOf(dist: Links, n: nat, i: nat): set<nat>
    requires n <= |dist|
  {
    set u: nat | u < n && dist[u] == Some(i)
  }

  /** The nodes above layer `k`. */
  ghost function Above(dist: Links, n: nat, k: nat): set<nat>
    requires n <= |dist|
  {
    set u: nat | u < n && dist[u].Some? && dist[u].value < k
  }

  /** Cutting the graph at any layer above a free right node covers every edge, so no matching is
      larger than this one by more than that layer holds. */
  lemma LayerBounds(adj: Graph, ml: Links, mr: Links, dist: Links, other: set<(nat, nat)>, i: nat)
    requires Linked(adj, ml, mr) && InRange(adj, |mr|) && Layered(adj, ml, mr, dist) && BreadthFirst(adj, mr, dist, [])
    requires dist[|adj|].Some? && i < dist[|adj|].value && IsMatching(adj, other)
    ensures |other| <= |Placed(ml)| + |LayerOf(dist, |adj|, i)|
  {
    hide Layered, BreadthFirst, Linked, Placed, LayerOf, IsMatching, HasEdge, InRange;
    var n := |adj|;
    LayeredSize(adj, ml, mr, dist);
    LinkedInRange(adj, ml, mr);
    var lefts := set u: nat | u < n && (dist[u].Some? ==> dist[u].value >= i);
    var upper := set u: nat | u < n && ml[u].Some? && dist[u].Some? && dist[u].value <= i;
    var near := set v: nat | v < |mr| && mr[v].Some? && dist[mr[v].value].Some? && dist[mr[v].value].value <= i;
    LayerSplits(adj, ml, mr, dist, i, lefts, upper);
    UpperSize(adj, ml, mr, dist, i, upper, near);
    forall p | p in other
      ensures p.0 in lefts || p.1 in near
    {
      MatchingHasEdge(adj, other, p);
      LayerCovers(adj, mr, dist, i, p.0, p.1);
    }
    CoveredSize(adj, other, lefts, near);
  }

  lemma MatchingHasEdge(adj: Graph, pairs: set<(nat, nat)>, p: (nat, nat))
    requires IsMatching(adj, pairs) && p in pairs
    ensures HasEdge(adj, p.0, p.1)
  {}

  /** An edge starts no higher than layer `i`, or the right node's partner lies no lower. */
  lemma LayerCovers(adj: Graph, mr: Links, dist: Links, i: nat, u: nat, v: nat)
    requires InRange(adj, |mr|) && BreadthFirst(adj, mr, dist, []) && HasEdge(adj, u, v)
    requires forall w :: 0 <= w < |mr| && mr[w].Some? ==> mr[w].value < |adj|
    requires dist[|adj|].Some? && i < dist[|adj|].value
    ensures u < |adj| && v < |mr|
    ensures (dist[u].Some? ==> dist[u].value >= i)
         || (mr[v].Some? && dist[mr[v].value].Some? && dist[mr[v].value].value <= i)
  {
    hide Leads, HasEdge, Rising, NoDeeper;
    LeadsInto(adj, mr, u, v);
  }

  /** What lies no higher than layer `i`, and what is placed no lower, overlap in what is placed on it;
      together they are what is placed and the layer. */
  lemma LayerSplits(adj: Graph, ml: Links, mr: Links, dist: Links, i: nat, lefts: set<nat>, upper: set<nat>)
    requires InRange(adj, |mr|) && Layered(adj, ml, mr, dist)
    requires lefts == set u: nat | u < |adj| && (dist[u].Some? ==> dist[u].value >= i)
    requires upper == set u: nat | u < |adj| && ml[u].Some? && dist[u].Some? && dist[u].value <= i
    ensures |lefts| + |upper| == |Placed(ml)| + |LayerOf(dist, |adj|, i)|
  {
    hide HasPredecessor, InRange;
    assert lefts + upper == Placed(ml) + LayerOf(dist, |adj|, i);
    assert lefts * upper == Placed(ml) * LayerOf(dist, |adj|, i);
    SplitSize(lefts, upper, Placed(ml), LayerOf(dist, |adj|, i));
  }

  lemma SplitSize(a: set<nat>, b: set<nat>, c: set<nat>, d: set<nat>)
    requires a + b == c + d && a * b == c * d
    ensures |a| + |b| == |c| + |d|
  {
    assert |a + b| == |a| + |b| - |a * b|;
    assert |c + d| == |c| + |d| - |c * d|;
  }

  lemma LeadsInto(adj: Graph, mr: Links, u: nat, v: nat)
    requires InRange(adj, |mr|) && HasEdge(adj, u, v)
    ensures u < |adj| && v < |mr| && Leads(adj, mr, u, Next(mr, v, |adj|))
  {
    var i :| 0 <= i < |adj[u]| && adj[u][i].right == v;
  }

  lemma UpperSize(adj: Graph, ml: Links, mr: Links, dist: Links, i: nat, upper: set<nat>, near: set<nat>)
    requires Linked(adj, ml, mr) && |dist| == |adj| + 1
    requires upper == set u: nat | u < |adj| && ml[u].Some? && dist[u].Some? && dist[u].value <= i
    requires near == set v: nat | v < |mr| && mr[v].Some? && dist[mr[v].value].Some? && dist[mr[v].value].value <= i
    ensures |upper| == |near|
  {
    assert forall u :: u in upper ==> mr[ml[u].value] == Some(u);
    assert forall v :: v in near ==> ml[mr[v].value] == Some(v);
    PartnersSize(upper, near, ml, mr);
  }

  /** What another matching has over this one fits into every layer above the nearest free right node
      at once. */
  lemma {:induction false} LayersBound(adj: Graph, ml: Links, mr: Links, dist: Links, other: set<(nat, nat)>, k: nat)
    requires Linked(adj, ml, mr) && InRange(adj, |mr|) && Layered(adj, ml, mr, dist) && BreadthFirst(adj, mr, dist, [])
    requires dist[|adj|].Some? && k <= dist[|adj|].value && IsMatching(adj, other)
    ensures (|other| - |Placed(ml)|) * k <= |Above(dist, |adj|, k)|
  {
    hide Layered, BreadthFirst, Linked, Placed;
    LayeredSize(adj, ml, mr, dist);
    if k > 0 {
      LayersBound(adj, ml, mr, dist, other, k - 1);
      LayerBounds(adj, ml, mr, dist, other, k - 1);
      NextAbove(dist, |adj|, k - 1);
      OneMoreTime(|other| - |Placed(ml)|, k);
    }
  }

  lemma OneMoreTime(a: int, k: nat)
    requires k > 0
    ensures a * k == a * (k - 1) + a
  {}

  lemma NextAbove(dist: Links, n: nat, k: nat)
    requires n <= |dist|
    ensures |Above(dist, n, k + 1)| == |Above(dist, n, k)| + |LayerOf(dist, n, k)|
  {
    assert Above(dist, n, k + 1) == Above(dist, n, k) + LayerOf(dist, n, k);
    assert Above(dist, n, k) !! LayerOf(dist, n, k);
  }

  lemma FewLeft(adj: Graph, ml: Links, mr: Links, dist: Links, other: set<(nat, nat)>)
    requires Linked(adj, ml, mr) && InRange(adj, |mr|) && Layered(adj, ml, mr, dist) && BreadthFirst(adj, mr, dist, [])
    requires dist[|adj|].Some? && IsMatching(adj, other)
    ensures (|other| - |Placed(ml)|) * dist[|adj|].value <= |adj|
  {
    hide Layered, BreadthFirst, Linked, Placed, IsMatching;
    LayeredSize(adj, ml, mr, dist);
    var k := dist[|adj|].value;
    LayersBound(adj, ml, mr, dist, other, k);
    BoundedSize(Above(dist, |adj|, k), |adj|);
  }

  /** How much was placed before each round so far: at least one more in every round; and before
      round `s` no matching had more left, times `s + 1`, than there are nodes. */
  ghost predicate Recorded(adj: Graph, history: seq<nat>, matched: nat) {
    && (forall s: nat :: s < |history| ==> history[s] + (|history| - s) <= matched)
    && forall s: nat, other: set<(nat, nat)> :: s < |history| && IsMatching(adj, other) ==> Allowed(adj, history, s, other)
  }

  ghost predicate Allowed(adj: Graph, history: seq<nat>, s: nat, other: set<(nat, nat)>)
    requires s < |history|
  {
    (|other| - history[s]) * (s + 1) <= |adj|
  }

  lemma NothingRecorded(adj: Graph, matched: nat)
    ensures Recorded(adj, [], matched)
  {}

  lemma Record(adj: Graph, ml: Links, mr: Links, dist: Links, history: seq<nat>, matched: nat)
    requires Linked(adj, ml, mr) && InRange(adj, |mr|) && Layered(adj, ml, mr, dist) && BreadthFirst(adj, mr, dist, [])
    requires dist[|adj|].Some? && dist[|adj|].value > |history| && matched == |Placed(ml)| && Recorded(adj, history, matched)
    ensures Recorded(adj, history + [matched], matched + 1)
  {
    hide Layered, BreadthFirst, Linked, Placed, IsMatching;
    LayeredSize(adj, ml, mr, dist);
    var more := history + [matched];
    forall s: nat, other: set<(nat, nat)> | s < |more| && IsMatching(adj, other)
      ensures Allowed(adj, more, s, other)
    {
      if s < |history| {
        assert Allowed(adj, history, s, other);
      } else {
        FewLeft(adj, ml, mr, dist, other);
        AtMostTimes(|other| - matched, |history| + 1, dist[|adj|].value, |adj|);
      }
    }
  }

  lemma AtMostTimes(a: int, k: nat, l: nat, n: nat)
    requires k <= l && a * l <= n
    ensures a * k <= n
  {
    if a >= 0 {
      TimesMonotone(a, k, l);
    }
  }

  lemma TimesMonotone(a: nat, k: nat, l: nat)
    requires k <= l
    ensures a * k <= a * l
  {}

  lemma MoreRecorded(adj: Graph, history: seq<nat>, before: nat, matched: nat)
    requires Recorded(adj, history, before + 1) && matched > before
    ensures Recorded(adj, history, matched)
  {
    hide Allowed, IsMatching;
  }

  /** Half the rounds place at least half as many; what is left for the other half bounds both. */
  lemma FewRounds(adj: Graph, history: seq<nat>, placed: set<(nat, nat)>)
    requires IsMatching(adj, placed) && Recorded(adj, history, |placed|)
    ensures |history| * |history| <= 4 * |adj|
  {
    hide IsMatching;
    if |history| > 0 {
      var r, s := |history|, |history| / 2;
      assert Allowed(adj, history, s, placed);
      var a := |placed| - history[s];
      TimesAtLeast(a, r - s, s + 1);
      HalfSquared(r, s, |adj|);
    }
  }

  lemma TimesAtLeast(a: int, b: nat, k: nat)
    requires a >= b
    ensures a * k >= b * k
  {}

  lemma HalfSquared(r: nat, s: nat, n: nat)
    requires s == r / 2 && (r - s) * (s + 1) <= n
    ensures r * r <= 4 * n
  {
    var t := r - s;
    assert r == s + t && s <= t <= s + 1;
    assert r * r == s * s + 2 * (s * t) + t * t;
    assert t * (s + 1) == t * s + t;
    if t == s {
      assert s * t == s * s && t * t == s * s;
    } else {
      assert t * t == s * s + 2 * s + 1 && s * t == s * s + s;
    }
  }

  // ----- Preference order

  predicate Descending(edges: seq<Edge>) {
    forall i, j :: 0 <= i < j < |edges| ==> edges[i].score >= edges[j].score
  }

  /** Insert before the first edge scored lower, so equals keep their order. */
  function InsertByScore(e: Edge, edges: seq<Edge>): (r: seq<Edge>)
    ensures multiset(r) == multiset(edges) + multiset{e}
  {
    if edges == [] || edges[0].score < e.score then [e] + edges
    else
      assert edges == [edges[0]] + edges[1..];
      [edges[0]] + InsertByScore(e, edges[1..])
  }

  lemma {:induction false} InsertKeepsDescending(e: Edge, edges: seq<Edge>)
    requires Descending(edges)
    ensures Descending(InsertByScore(e, edges))
  {
    hide InsertByScore, Descending;
    InsertUnfold(e, edges);
    DescendingTail(edges);
    if edges == [] || edges[0].score < e.score {
      FirstDescending(e, edges);
    } else {
      var rest := InsertByScore(e, edges[1..]);
      InsertKeepsDescending(e, edges[1..]);
      forall i | 0 <= i < |rest|
        ensures rest[i].score <= edges[0].score
      {
        InsertedFrom(e, edges[1..], rest, i);
      }
      FirstDescending(edges[0], rest);
    }
  }

  lemma FirstDescending(first: Edge, rest: seq<Edge>)
    requires Descending(rest) && forall i :: 0 <= i < |rest| ==> rest[i].score <= first.score
    ensures Descending([first] + rest)
  {}

  lemma InsertedFrom(e: Edge, edges: seq<Edge>, rest: seq<Edge>, i: nat)
    requires multiset(rest) == multiset(edges) + multiset{e} && i < |rest|
    ensures rest[i] == e || exists j :: 0 <= j < |edges| && edges[j] == rest[i]
  {
    assert rest[i] in multiset(rest);
  }

  /** The stable descending sort of an adjacency list. */
  function SortByScore(edges: seq<Edge>): (r: seq<Edge>)
    ensures multiset(r) == multiset(edges)
  {
    if edges == [] then []
    else
      assert edges == edges[..|edges| - 1] + [edges[|edges| - 1]];
      InsertByScore(edges[|edges| - 1], SortByScore(edges[..|edges| - 1]))
  }

  function SortAll(adj: Graph): (r: Graph)
    ensures |r| == |adj| && forall u :: 0 <= u < |adj| ==> r[u] == SortByScore(adj[u])
  {
    seq(|adj|, u requires 0 <= u < |adj| => SortByScore(adj[u]))
  }

  lemma {:induction false} SortIsDescending(edges: seq<Edge>)
    ensures Descending(SortByScore(edges))
  {
    if edges != [] {
      var n := |edges| - 1;
      SortIsDescending(edges[..n]);
      InsertKeepsDescending(edges[n], SortByScore(edges[..n]));
    }
  }

  function WithScore(edges: seq<Edge>, score: int): seq<Edge> {
    if edges == [] then []
    else if edges[0].score == score then [edges[0]] + WithScore(edges[1..], score)
    else WithScore(edges[1..], score)
  }

  lemma WithScoreAppend(a: seq<Edge>, b: seq<Edge>, score: int)
    ensures WithScore(a + b, score) == WithScore(a, score) + WithScore(b, score)
  {
    if a == [] {
      assert a + b == b;
    } else {
      assert (a + b)[1..] == a[1..] + b;
      WithScoreAppend(a[1..], b, score);
    }
  }

  lemma {:induction false} InsertIsStable(e: Edge, edges: seq<Edge>, score: int)
    requires Descending(edges)
    ensures WithScore(InsertByScore(e, edges), score) == WithScore(edges, score) + WithScore([e], score)
  {
    hide WithScore, Descending, InsertByScore;
    DescendingTail(edges);
    InsertUnfold(e, edges);
    if edges == [] || edges[0].score < e.score {
      InFront(e, edges, score);
    } else {
      InsertIsStable(e, edges[1..], score);
      Behind(edges[0], edges[1..], InsertByScore(e, edges[1..]), e, score);
      assert edges == [edges[0]] + edges[1..];
    }
  }

  lemma InsertUnfold(e: Edge, edges: seq<Edge>)
    ensures InsertByScore(e, edges) ==
      if edges == [] || edges[0].score < e.score then [e] + edges else [edges[0]] + InsertByScore(e, edges[1..])
  {}

  lemma InFront(e: Edge, edges: seq<Edge>, score: int)
    requires Descending(edges) && (edges == [] || edges[0].score < e.score)
    ensures WithScore([e] + edges, score) == WithScore(edges, score) + WithScore([e], score)
  {
    hide WithScore, Descending;
    DescendingTail(edges);
    WithScoreAppend([e], edges, score);
    if e.score == score {
      NoneWithScore(edges, score);
    } else {
      NoneWithScore([e], score);
    }
  }

  lemma Behind(first: Edge, tail: seq<Edge>, rest: seq<Edge>, e: Edge, score: int)
    requires WithScore(rest, score) == WithScore(tail, score) + WithScore([e], score)
    ensures WithScore([first] + rest, score) == WithScore([first] + tail, score) + WithScore([e], score)
  {
    hide WithScore;
    WithScoreAppend([first], tail, score);
    WithScoreAppend([first], rest, score);
  }

  lemma DescendingTail(edges: seq<Edge>)
    requires Descending(edges)
    ensures edges != [] ==> Descending(edges[1..]) && forall i :: 0 <= i < |edges| ==> edges[i].score <= edges[0].score
  {}

  lemma NoneWithScore(edges: seq<Edge>, score: int)
    requires forall i :: 0 <= i < |edges| ==> edges[i].score != score
    ensures WithScore(edges, score) == []
  {}

  /** Edges of equal score are tried in the order they were added. */
  lemma {:induction false} SortIsStable(edges: seq<Edge>, score: int)
    ensures WithScore(SortByScore(edges), score) == WithScore(edges, score)
  {
    if edges != [] {
      var n := |edges| - 1;
      assert edges == edges[..n] + [edges[n]];
      SortIsStable(edges[..n], score);
      SortIsDescending(edges[..n]);
      InsertIsStable(edges[n], SortByScore(edges[..n]), score);
      WithScoreAppend(edges[..n], [edges[n]], score);
    }
  }

  /** Edge `i` is tried before edge `j`: it scores higher, or as high and was added earlier. */
  predicate TriedBefore(edges: seq<Edge>, i: nat, j: nat)
    requires i < |edges| && j < |edges|
  {
    edges[i].score > edges[j].score || (edges[i].score == edges[j].score && i < j)
  }

  /** Nothing preferred to `v` is left free: for every edge to a free right node some edge to `v` is
      tried before it. */
  ghost predicate NonePreferred(edges: seq<Edge>, mr: Links, v: nat) {
    forall j: nat :: j < |edges| && edges[j].right < |mr| && mr[edges[j].right].None? ==> BeatenBy(edges, j, v)
  }

  ghost predicate BeatenBy(edges: seq<Edge>, j: nat, v: nat)
    requires j < |edges|
  {
    exists i: nat :: i < |edges| && edges[i].right == v && TriedBefore(edges, i, j)
  }

  lemma {:induction false} InWithScore(edges: seq<Edge>, score: int, e: Edge)
    ensures e in WithScore(edges, score) <==> e in edges && e.score == score
  {
    if edges != [] {
      InWithScore(edges[1..], score, e);
      assert edges == [edges[0]] + edges[1..];
    }
  }

  /** Of equal scores, what comes after a prefix of the sorted list was added after its last. */
  lemma SortedPrefix(edges: seq<Edge>, i: nat, j: nat)
    requires i < |SortByScore(edges)| && j < |edges| && edges[j] !in SortByScore(edges)[..i + 1]
    requires edges[j].score == SortByScore(edges)[i].score
    ensures SortByScore(edges)[i] in edges[..j]
  {
    hide WithScore, SortByScore;
    var s, score := SortByScore(edges), edges[j].score;
    var front, back := WithScore(s[..i + 1], score), WithScore(edges[..j], score);
    SortIsStable(edges, score);
    assert s == s[..i + 1] + s[i + 1..] && edges == edges[..j] + edges[j..];
    WithScoreAppend(s[..i + 1], s[i + 1..], score);
    WithScoreAppend(edges[..j], edges[j..], score);
    WithScoreFirst(edges[j..], score);
    InWithScore(s[..i + 1], score, edges[j]);
    InWithScore(s[..i + 1], score, s[i]);
    InWithScore(edges[..j], score, s[i]);
    assert s[i] == s[..i + 1][i];
    SharedFront(front, WithScore(s[i + 1..], score), back, WithScore(edges[j..], score), s[i]);
  }

  lemma WithScoreFirst(edges: seq<Edge>, score: int)
    requires edges != [] && edges[0].score == score
    ensures WithScore(edges, score) != [] && WithScore(edges, score)[0] == edges[0]
  {}

  /** One list cut in two ways: what only starts the second part lies past the first. */
  lemma SharedFront(a: seq<Edge>, b: seq<Edge>, c: seq<Edge>, d: seq<Edge>, e: Edge)
    requires a + b == c + d && d != [] && d[0] !in a && e in a
    ensures e in c
  {
    assert (c + d)[|c|] == d[0];
    var k :| 0 <= k < |a| && a[k] == e;
    assert (a + b)[k] == (c + d)[k];
  }

  /** Settled by the sorted list is preferred by the list given. */
  lemma SettledIsPreferred(given: Graph, mr: Links, u: nat, v: nat)
    requires u < |given| && InRange(SortAll(given), |mr|) && v < |mr| && mr[v].Some?
    requires Settled(SortAll(given), mr, u, v)
    ensures NonePreferred(given[u], mr, v)
  {
    hide SortByScore, TriedBefore;
    var edges, s := given[u], SortByScore(given[u]);
    var i: nat :| i < |s| && s[i].right == v && Taken(SortAll(given), mr, u, i);
    forall j: nat | j < |edges| && edges[j].right < |mr| && mr[edges[j].right].None?
      ensures BeatenBy(edges, j, v)
    {
      assert edges[j] in multiset(s) && s[i] in multiset(edges);
      TriedFirst(edges, i, j);
    }
  }

  lemma AllPreferred(given: Graph, ml: Links, mr: Links)
    requires AllSettled(SortAll(given), ml, mr) && Linked(given, ml, mr)
    ensures forall u: nat :: u < |ml| && ml[u].Some? ==> NonePreferred(given[u], mr, ml[u].value)
  {
    hide Settled, NonePreferred, SortByScore;
    forall u: nat | u < |ml| && ml[u].Some?
      ensures NonePreferred(given[u], mr, ml[u].value)
    {
      SettledIsPreferred(given, mr, u, ml[u].value);
    }
  }

  lemma TriedFirst(edges: seq<Edge>, i: nat, j: nat)
    requires i < |SortByScore(edges)| && j < |edges| && edges[j] !in SortByScore(edges)[..i + 1]
    ensures BeatenBy(edges, j, SortByScore(edges)[i].right)
  {
    hide SortByScore;
    var s := SortByScore(edges);
    assert edges[j] in multiset(s) && s[i] in multiset(edges);
    var k :| 0 <= k < |s| && s[k] == edges[j];
    assert forall x :: 0 <= x <= i ==> s[..i + 1][x] == s[x];
    assert k > i;
    SortIsDescending(edges);
    if s[i].score == edges[j].score {
      SortedPrefix(edges, i, j);
      var x :| 0 <= x < j && edges[..j][x] == s[i];
      assert TriedBefore(edges, x, j);
    } else {
      var x :| 0 <= x < |edges| && edges[x] == s[i];
      assert TriedBefore(edges, x, j);
    }
  }

  lemma SortKeepsEdges(adj: Graph)
    ensures SameEdges(adj, SortAll(adj))
  {
    var sorted := SortAll(adj);
    forall u: nat, v: nat
      ensures HasEdge(adj, u, v) <==> HasEdge(sorted, u, v)
    {
      if HasEdge(adj, u, v) {
        var i :| 0 <= i < |adj[u]| && adj[u][i].right == v;
        assert adj[u][i] in multiset(sorted[u]);
        assert adj[u][i] in sorted[u];
      }
      if HasEdge(sorted, u, v) {
        var i :| 0 <= i < |sorted[u]| && sorted[u][i].right == v;
        assert sorted[u][i] in multiset(adj[u]);
        assert sorted[u][i] in adj[u];
      }
    }
  }

  /** How many of the first `n` nodes are unlayered. */
  ghost function Unseen(dist: Links, n: nat): (k: nat)
    requires n <= |dist|
    ensures k <= n
  {
    if n == 0 then 0 else Unseen(dist, n - 1) + if dist[n - 1].None? then 1 else 0
  }

  lemma UnseenUpdate(dist: Links, n: nat, x: nat, d: nat)
    requires n <= |dist| && x < |dist| && dist[x].None?
    ensures Unseen(dist[x := Some(d)], n) == Unseen(dist, n) - if x < n then 1 else 0
  {
    if n > 0 {
      UnseenUpdate(dist, n - 1, x, d);
    }
  }

  lemma UnseenNext(dist: Links, n: nat)
    requires n < |dist|
    ensures Unseen(dist, n + 1) == Unseen(dist, n) + if dist[n].None? then 1 else 0
  {}

  lemma UnseenSame(a: Links, b: Links, n: nat)
    requires n <= |a| && n <= |b| && forall i :: 0 <= i < n ==> a[i] == b[i]
    ensures Unseen(a, n) == Unseen(b, n)
  {}

  lemma BoundedSize(s: set<nat>, n: nat)
    requires forall x :: x in s ==> x < n
    ensures |s| <= n
  {
    if n == 0 {
      assert s == {};
    } else {
      BoundedSize(s - {n - 1}, n - 1);
    }
  }

  class BipartiteMatching {
    var nLeft: nat
    var nRight: nat
    var adj: Graph
    var matchLeft: Links
    var matchRight: Links
    var dist: Links
    var matched: nat

    ghost predicate Valid()
      reads this
    {
      && |adj| == |matchLeft| == nLeft
      && |matchRight| == nRight
      && |dist| == nLeft + 1
      && InRange(adj, nRight)
    }

    /** An empty matcher. It has no layer yet, not even the sentinel's: `Reset` shapes it. */
    constructor ()
      ensures nLeft == 0 && nRight == 0 && matched == 0
      ensures adj == [] && matchLeft == [] && matchRight == [] && dist == []
      ensures nLeft >= |dist| && !Valid()
    {
      nLeft, nRight, matched := 0, 0, 0;
      adj, matchLeft, matchRight, dist := [], [], [], [];
    }

    /** Re-shape and clear: what is left is what a new matcher of that shape would hold. */
    method Reset(left: nat, right: nat)
      modifies this
      ensures Valid() && nLeft == left && nRight == right && matched == 0
      ensures adj == seq(left, _ => [])
      ensures matchLeft == seq(left, _ => None) && matchRight == seq(right, _ => None)
      ensures dist == seq(left + 1, _ => None)
    {
      nLeft, nRight, matched := left, right, 0;
      adj := seq(left, _ => []);
      matchLeft := seq(left, _ => None);
      matchRight := seq(right, _ => None);
      dist := seq(left + 1, _ => None);
    }

    /** Record that a layer could use a plane; an endpoint out of range is ignored. */
    method AddScoredEdge(left: nat, right: nat, score: int)
      requires Valid()
      modifies this`adj
      ensures Valid()
      ensures left >= nLeft || right >= nRight ==> adj == old(adj)
      ensures left < nLeft && right < nRight ==>
        adj == old(adj)[left := old(adj)[left] + [Edge(right, score)]]
      ensures forall u: nat, v: nat :: HasEdge(adj, u, v) <==>
        HasEdge(old(adj), u, v) || (u == left < nLeft && v == right < nRight)
    {
      if left >= nLeft || right >= nRight {
        return;
      }
      ghost var before := adj;
      adj := adj[left := adj[left] + [Edge(right, score)]];
      forall u: nat, v: nat
        ensures HasEdge(adj, u, v) <==> HasEdge(before, u, v) || (u == left && v == right)
      {
        if HasEdge(before, u, v) {
          var i :| 0 <= i < |before[u]| && before[u][i].right == v;
          assert adj[u][i].right == v;
        }
        if u == left && v == right {
          assert adj[u][|adj[u]| - 1].right == v;
        }
      }
    }

    /** Place as many layers as any matching of the graph could, in a number of rounds whose square is
        at most four times the layers. */
    method Solve() returns (count: nat, ghost rounds: nat)
      requires Valid()
      modifies this
      ensures Valid() && nLeft == old(nLeft) && nRight == old(nRight)
      ensures adj == SortAll(old(adj))
      ensures Linked(old(adj), matchLeft, matchRight)
      ensures count == matched == |Pairs(matchLeft)|
      ensures IsMaximum(old(adj), Pairs(matchLeft))
      ensures rounds * rounds <= 4 * nLeft
      ensures forall u: nat :: u < nLeft && matchLeft[u].Some? ==> NonePreferred(old(adj)[u], matchRight, matchLeft[u].value)
      ensures InTurn(old(adj), matchLeft)
    {
      hide InTurn, AllSettled, StillTaken, NonePreferred, Layered, Closed, ClosedBut, BreadthFirst, Shortest, Beyond, Recorded, Capped, Linked, Placed, IsMatching, IsMaximum, HasEdge, SameEdges, InRange;
      matched := 0;
      matchLeft := seq(nLeft, _ => None);
      matchRight := seq(nRight, _ => None);
      ghost var given := adj;
      adj := SortAll(adj);
      SortKeepsEdges(given);
      ghost var graph := adj;
      SortedInRange(given, graph, nRight);
      rounds := 0;
      ghost var history: seq<nat> := [];
      NoneLinked(adj, matchLeft, matchRight);
      NoneSettled(adj, matchLeft, matchRight);
      NonePlaced(adj, matchLeft);
      NothingRecorded(adj, matched);

      var more := Bfs();
      NotAtZero(adj, matchLeft, matchRight, dist);
      while more
        invariant Valid() && nLeft == old(nLeft) && nRight == old(nRight) && adj == graph
        invariant Linked(adj, matchLeft, matchRight) && AllSettled(adj, matchLeft, matchRight) && InTurn(adj, matchLeft)
        invariant matched == |Placed(matchLeft)|
        invariant Layered(adj, matchLeft, matchRight, dist)
        invariant Capped(dist, nLeft)
        invariant more <==> dist[nLeft].Some?
        invariant !more ==> Closed(adj, matchRight, dist)
        invariant BreadthFirst(adj, matchRight, dist, [])
        invariant more ==> dist[nLeft].value > rounds
        invariant |history| == rounds && Recorded(adj, history, matched)
        decreases nLeft - matched
      {
        BoundedSize(Placed(matchLeft), nLeft);
        ghost var length, before := dist[nLeft].value, matched;
        Record(adj, matchLeft, matchRight, dist, history, matched);
        AugmentAll();
        BoundedSize(Placed(matchLeft), nLeft);
        more := Bfs();
        BeyondLayered(adj, matchLeft, matchRight, dist, length);
        MoreRecorded(adj, history + [before], before, matched);
        history := history + [before];
        rounds := rounds + 1;
      }
      StuckIsMaximum(adj, matchLeft, matchRight, dist);
      LinkedIsMatching(adj, matchLeft, matchRight);
      FewRounds(adj, history, Pairs(matchLeft));
      TransferEdges(given, graph, matchLeft, matchRight);
      AllPreferred(given, matchLeft, matchRight);
      SameTurn(given, graph, matchLeft);
      count := matched;
    }

    /** One round: try to augment from every free layer. Something is placed, and afterwards the way to
        a free right node is longer. */
    method AugmentAll()
      requires Valid()
      requires Linked(adj, matchLeft, matchRight) && matched == |Placed(matchLeft)|
      requires Layered(adj, matchLeft, matchRight, dist) && Capped(dist, nLeft) && dist[nLeft].Some?
      requires BreadthFirst(adj, matchRight, dist, []) && AllSettled(adj, matchLeft, matchRight) && InTurn(adj, matchLeft)
      modifies this`matchLeft, this`matchRight, this`dist, this`matched
      ensures AllSettled(adj, matchLeft, matchRight) && StillTaken(old(matchRight), matchRight) && InTurn(adj, matchLeft)
      ensures Valid() && Linked(adj, matchLeft, matchRight) && matched == |Placed(matchLeft)|
      ensures matched > old(matched)
      ensures Beyond(adj, matchLeft, matchRight, old(dist)[nLeft].value)
    {
      hide InTurn, LeadsDown, AllSettled, StillTaken, Capped, RoundKept, BreadthFirst, Layered, Linked, Augmented, GivenUp, InRange, Placed, Beyond;
      ghost var dist0 := dist;
      ghost var ml0, mr0 := matchLeft, matchRight;
      RoundStarts(adj, mr0, dist0);
      FreeAtZero(adj, ml0, mr0, dist0);
      StillTakenSelf(mr0);
      for u := 0 to nLeft
        invariant Valid() && Linked(adj, matchLeft, matchRight) && matched == |Placed(matchLeft)|
        invariant Capped(dist, nLeft) && RoundKept(adj, matchRight, dist0, dist)
        invariant AllSettled(adj, matchLeft, matchRight) && StillTaken(mr0, matchRight) && InTurn(adj, matchLeft)
        invariant matched >= old(matched)
        invariant matched == old(matched) ==> matchLeft == ml0 && matchRight == mr0
        invariant forall x: nat :: x < nLeft && matchLeft[x].None? ==> dist0[x] == Some(0)
        invariant forall x: nat :: x < u && matchLeft[x].None? ==> dist[x].None?
      {
        if matchLeft[u].None? {
          ghost var d, ml, mr := dist, matchLeft, matchRight;
          var found := Dfs(u, dist0);
          GivenUpTop(d, dist, u, nLeft);
          StillTakenFrom(mr0, mr, matchRight);
          if found {
            AugmentedFree(adj, d, ml, mr, matchLeft, matchRight, u);
            TurnKept(adj, ml, matchLeft, mr, dist0, d, u);
            matched := matched + 1;
          }
        }
      }
      RoundSizes(adj, matchRight, dist0, dist);
      if matched == old(matched) {
        DeadLayers(adj, ml0, mr0, dist0, dist, nLeft);
      }
      RoundLengthens(adj, matchLeft, matchRight, dist0, dist);
    }

    /** Layer the nodes breadth-first from the free layers. */
    method Bfs() returns (reachable: bool)
      requires Valid() && Linked(adj, matchLeft, matchRight)
      modifies this`dist
      ensures Valid()
      ensures Layered(adj, matchLeft, matchRight, dist) && Capped(dist, nLeft)
      ensures reachable <==> dist[nLeft].Some?
      ensures !reachable ==> Closed(adj, matchRight, dist)
      ensures Shortest(adj, matchLeft, matchRight, dist) && BreadthFirst(adj, matchRight, dist, [])
    {
      hide BreadthFirst, Expanding, Rising, Tight, Shortest, Leads, Frontier, ClosedBut, Expanded, Layered, Capped, Linked, LeftLinked, RightLinked, Unseen, InRange;
      LinkedInRange(adj, matchLeft, matchRight);
      var sentinel := nLeft;
      var queue := LayerFreeNodes();
      ghost var popped := 0;
      while queue != []
        invariant |dist| == nLeft + 1
        invariant Frontier(adj, matchLeft, matchRight, dist, queue, popped)
        invariant dist[sentinel].None? ==> ClosedBut(adj, matchRight, dist, queue)
        invariant BreadthFirst(adj, matchRight, dist, queue)
        decreases Unseen(dist, nLeft) + |queue|
      {
        var u := queue[0];
        FrontierPop(adj, matchLeft, matchRight, dist, queue, popped);
        BreadthPop(adj, matchRight, dist, queue);
        queue := queue[1..];
        popped := popped + 1;
        var closer := match (dist[u], dist[sentinel])
          case (Some(_), None) => true
          case (Some(du), Some(ds)) => du < ds
          case (None, _) => false;
        if !closer {
          BreadthSkip(adj, matchRight, dist, u, queue);
          continue;
        }
        queue := Expand(u, queue, popped);
      }
      FrontierGives(adj, matchLeft, matchRight, dist, queue, popped);
      LayersAreShortest(adj, matchLeft, matchRight, dist);
      reachable := dist[sentinel].Some?;
    }

    /** Layer zero: the left nodes with no partner, all of which start out waiting. */
    method LayerFreeNodes() returns (queue: seq<nat>)
      requires Valid() && Linked(adj, matchLeft, matchRight)
      modifies this`dist
      ensures Valid()
      ensures Frontier(adj, matchLeft, matchRight, dist, queue, 0)
      ensures dist[nLeft].None? && ClosedBut(adj, matchRight, dist, queue)
      ensures BreadthFirst(adj, matchRight, dist, queue)
    {
      hide BreadthFirst, Linked, LeftLinked, RightLinked, Unseen, Frontier, ClosedBut, InRange;
      LinkedInRange(adj, matchLeft, matchRight);
      queue := [];
      for u := 0 to nLeft
        invariant |dist| == nLeft + 1
        invariant forall x: nat :: x < u ==> dist[x] == if matchLeft[x].None? then Some(0) else None
        invariant forall x: nat :: x < u && matchLeft[x].None? ==> x in queue
        invariant forall q :: q in queue ==> q < u && matchLeft[q].None?
        invariant |queue| + Unseen(dist, u) == u
      {
        ghost var d := dist;
        if matchLeft[u].None? {
          dist := dist[u := Some(0)];
          queue := queue + [u];
        } else {
          dist := dist[u := None];
        }
        UnseenSame(d, dist, u);
        UnseenNext(dist, u);
      }
      ghost var d := dist;
      dist := dist[nLeft := None];
      UnseenSame(d, dist, nLeft);
      FrontierStart(adj, matchLeft, matchRight, dist, queue);
      BreadthStart(adj, matchLeft, matchRight, dist, queue);
    }

    /** Layer everything `u` leads to that is not layered yet. */
    method Expand(u: nat, waiting: seq<nat>, ghost popped: nat) returns (queue: seq<nat>)
      requires Valid() && Linked(adj, matchLeft, matchRight)
      requires u < nLeft && dist[u].Some? && dist[u].value < popped
      requires Frontier(adj, matchLeft, matchRight, dist, waiting, popped)
      requires dist[nLeft].None? ==> ClosedBut(adj, matchRight, dist, [u] + waiting)
      requires Expanding(adj, matchRight, dist, u, waiting) && Closer(dist, u)
      modifies this`dist
      ensures Valid() && BreadthFirst(adj, matchRight, dist, queue)
      ensures Frontier(adj, matchLeft, matchRight, dist, queue, popped)
      ensures dist[nLeft].None? ==> ClosedBut(adj, matchRight, dist, queue)
      ensures Unseen(dist, nLeft) + |queue| == Unseen(old(dist), nLeft) + |waiting|
    {
      hide Expanding, BreadthFirst, Closer, Leads, Frontier, ClosedBut, Expanded, Layered, Capped, Linked, LeftLinked, RightLinked, Unseen, InRange;
      LinkedInRange(adj, matchLeft, matchRight);
      RowInRange(adj, nRight, u);
      var sentinel := nLeft;
      queue := waiting;
      var du := dist[u].value;
      ExpandedNone(adj, matchRight, dist, u);
      for index := 0 to |adj[u]|
        invariant |dist| == nLeft + 1 && dist[u] == Some(du)
        invariant Frontier(adj, matchLeft, matchRight, dist, queue, popped)
        invariant dist[sentinel].None? ==> ClosedBut(adj, matchRight, dist, [u] + queue)
        invariant Expanded(adj, matchRight, dist, u, index)
        invariant Expanding(adj, matchRight, dist, u, queue) && Closer(dist, u)
        invariant Unseen(dist, nLeft) + |queue| == Unseen(old(dist), nLeft) + |waiting|
      {
        var next := Next(matchRight, adj[u][index].right, sentinel);
        if dist[next].None? {
          FrontierVisit(adj, matchLeft, matchRight, dist, queue, popped, u, index, next, du + 1);
          ClosedVisit(adj, matchRight, dist, queue, u, next, du + 1);
          ExpandedKept(adj, matchRight, dist, u, index, next, du + 1);
          UnseenUpdate(dist, nLeft, next, du + 1);
          BreadthVisit(adj, matchRight, dist, u, queue, next);
          dist := dist[next := Some(du + 1)];
          if next != sentinel {
            queue := queue + [next];
          }
        }
        ExpandedStep(adj, matchRight, dist, u, index);
      }
      ExpandedAll(adj, matchRight, dist, u, queue);
      ExpandedLeads(adj, matchRight, dist, u);
      BreadthSkip(adj, matchRight, dist, u, queue);
    }

    /** Try to augment from left node `u`, which may be matched if its partner is being taken.
        `dist0` is the round's first layering, for the proof of progress: a failed call only gives up
        nodes that no longer lead down to a free right node, and a successful one only moves links up
        the layers. */
    method Dfs(u: nat, ghost dist0: Links) returns (found: bool)
      requires Valid() && u <= nLeft
      requires Linked(adj, matchLeft, matchRight)
      requires Capped(dist, nLeft)
      requires RoundKept(adj, matchRight, dist0, dist) && AllSettled(adj, matchLeft, matchRight)
      requires u == nLeft ==> dist[u].Some?
      modifies this`matchLeft, this`matchRight, this`dist
      ensures Valid()
      ensures GivenUp(old(dist), dist, u)
      ensures u == nLeft ==> found && matchLeft == old(matchLeft) && matchRight == old(matchRight)
      ensures found && u < nLeft ==>
        Augmented(adj, old(dist), old(matchLeft), old(matchRight), matchLeft, matchRight, u)
      ensures !found ==> u < nLeft && matchLeft == old(matchLeft) && matchRight == old(matchRight) && dist[u].None?
      ensures RoundKept(adj, matchRight, dist0, dist)
      ensures AllSettled(adj, matchLeft, matchRight) && StillTaken(old(matchRight), matchRight)
      ensures found && u < nLeft ==> LeadsDown(adj, old(matchRight), old(dist), u)
      decreases if u == nLeft then 0 else if dist[u].Some? then nLeft - dist[u].value + 2 else 1
    {
      hide LeadsDown, AllSettled, StillTaken, PassedTaken, Linked, LeftLinked, RightLinked, Capped, RoundKept, Faded, DeadClosed, Exhausted, GivenUp, Augmented, Placed, InRange;
      RoundSizes(adj, matchRight, dist0, dist);
      LinkedInRange(adj, matchLeft, matchRight);
      GivenUpNone(dist, u);
      StillTakenSelf(matchRight);
      CappedAt(dist, nLeft, u);
      var sentinel := nLeft;
      if u == sentinel {
        return true;
      }
      if dist[u].None? {
        return false;
      }
      var du := dist[u].value;
      RowInRange(adj, nRight, u);
      ExhaustedNone(adj, matchRight, dist0, dist, u, du);
      NonePassed(adj, matchRight, dist0, u, du);
      for index := 0 to |adj[u]|
        invariant Valid() && matchLeft == old(matchLeft) && matchRight == old(matchRight)
        invariant GivenUp(old(dist), dist, u) && dist[u] == Some(du) && Capped(dist, nLeft)
        invariant RoundKept(adj, matchRight, dist0, dist)
        invariant Exhausted(adj, matchRight, dist0, dist, u, du, index)
        invariant AllSettled(adj, matchLeft, matchRight) && PassedTaken(adj, matchRight, dist0, u, du, index)
      {
        ghost var entered := dist;
        RoundSizes(adj, matchRight, dist0, dist);
        var v := adj[u][index].right;
        var next := Next(matchRight, v, sentinel);
        if dist[next] == Some(du + 1) {
          ghost var before := dist;
          var deeper := Dfs(next, dist0);
          GivenUpBelow(old(dist), before, dist, u, next, nLeft);
          if deeper {
            Augment(adj, old(dist), before, old(matchLeft), old(matchRight), matchLeft, matchRight, u, index);
            StillNext(adj, before, old(matchLeft), old(matchRight), matchLeft, matchRight, u, index);
            RelinkKeepsRound(adj, matchRight, dist0, dist, u, index, before);
            LeadDown(adj, old(matchRight), old(dist), before, u, index);
            Settle(adj, matchLeft, old(matchRight), matchRight, dist0, before, u, index);
            matchRight := matchRight[v := Some(u)];
            matchLeft := matchLeft[u := Some(v)];
            return true;
          }
        }
        ExhaustedStep(adj, matchRight, dist0, entered, dist, u, du, index);
        PassOver(adj, matchRight, dist0, entered, u, du, index);
      }
      DeadGrows(adj, matchRight, dist0, dist, u);
      GivenUpLast(old(dist), dist, u);
      dist := dist[u := None];
      return false;
    }
  }

  /** Nothing was given up but `u` and nodes deeper than it. */
  ghost predicate GivenUp(before: Links, after: Links, u: nat) {
    && |before| == |after| && u < |before|
    && forall x: nat :: x < |before| && after[x] != before[x] ==>
         after[x].None? && x < |before| - 1 && (x == u || Deeper(before, u, x))
  }

  lemma CappedAt(dist: Links, bound: nat, x: nat)
    requires Capped(dist, bound) && x < |dist|
    ensures dist[x].Some? ==> dist[x].value <= bound
  {}

  /** What a top-level attempt leaves behind, whichever way it went. */
  lemma GivenUpTop(before: Links, after: Links, u: nat, bound: nat)
    requires GivenUp(before, after, u) && Capped(before, bound)
    ensures |after| == |before| && Capped(after, bound)
    ensures forall x: nat :: x < |before| && before[x].None? ==> after[x].None?
  {}

  /** An augmentation from a free node leaves no hole and places one more. */
  lemma AugmentedFree(adj: Graph, dist: Links, ml0: Links, mr0: Links, ml: Links, mr: Links, u: nat)
    requires Augmented(adj, dist, ml0, mr0, ml, mr, u) && ml0[u].None?
    ensures Linked(adj, ml, mr) && Placed(ml) == Placed(ml0) + {u} && |Placed(ml)| == |Placed(ml0)| + 1
    ensures |ml| == |ml0| && ml[u].Some? && forall x: nat :: x < |ml| && ml[x].None? ==> ml0[x].None?
  {
    assert u !in Placed(ml0);
    forall x: nat | x < |ml| && ml[x].None?
      ensures ml0[x].None?
    {
      assert x !in Placed(ml);
    }
    assert u in Placed(ml);
  }

  lemma GivenUpNone(dist: Links, u: nat)
    requires u < |dist|
    ensures GivenUp(dist, dist, u)
  {}

  lemma GivenUpBelow(start: Links, before: Links, after: Links, u: nat, next: nat, bound: nat)
    requires GivenUp(start, before, u) && before[u].Some? && before[u] == start[u]
    requires next < |before| && before[next] == Some(before[u].value + 1) && GivenUp(before, after, next)
    requires Capped(before, bound)
    ensures GivenUp(start, after, u) && after[u] == before[u] && Capped(after, bound)
  {}

  lemma GivenUpLast(start: Links, dist: Links, u: nat)
    requires GivenUp(start, dist, u) && u < |dist| - 1
    ensures GivenUp(start, dist[u := None], u)
  {}

  /** `u` has gained a partner; only nodes deeper than `u` changed theirs; every right node but
      `u`'s former partner is answered. */
  ghost predicate Augmented(adj: Graph, dist: Links, ml0: Links, mr0: Links, ml: Links, mr: Links, u: nat) {
    && u < |adj| == |ml0| == |ml| && |mr| == |mr0| && |dist| == |adj| + 1
    && dist[u].Some?
    && LeftLinked(adj, ml, mr) && RightLinked(ml, mr, ml0[u])
    && Placed(ml) == Placed(ml0) + {u}
    && ml[u] != ml0[u]
    && (ml0[u].Some? ==> ml0[u].value < |mr| && mr[ml0[u].value] == Some(u))
    && forall x: nat :: x < |adj| && x != u && !Deeper(dist, u, x) ==> ml[x] == ml0[x]
  }

  lemma Augment(adj: Graph, start: Links, before: Links, ml0: Links, mr0: Links, ml: Links, mr: Links, u: nat, index: nat)
    requires InRange(adj, |mr0|) && Linked(adj, ml0, mr0)
    requires u < |adj| && index < |adj[u]| && |start| == |adj| + 1
    requires GivenUp(start, before, u) && before[u].Some? && before[u] == start[u]
    requires
      var v := adj[u][index].right;
      match mr0[v]
      case None => ml == ml0 && mr == mr0
      case Some(next) => before[next] == Some(before[u].value + 1) && Augmented(adj, before, ml0, mr0, ml, mr, next)
    ensures
      var v := adj[u][index].right;
      v < |mr| && u < |ml| && Augmented(adj, start, ml0, mr0, ml[u := Some(v)], mr[v := Some(u)], u)
  {
    var v := adj[u][index].right;
    assert HasEdge(adj, u, v);
    Relinked(adj, ml0, mr0, ml, mr, u, v);
    RelinkedPlaced(adj, ml0, mr0, ml, mr, u, v);
    forall x: nat | x < |adj| && x != u && !Deeper(start, u, x)
      ensures ml[x] == ml0[x]
    {
      if mr0[v].Some? {
        assert !Deeper(before, mr0[v].value, x);
      }
    }
  }

  /** Relative to the round's first layering, nodes have only been given up. */
  ghost predicate Faded(dist0: Links, dist: Links) {
    && |dist| == |dist0| > 0 && dist[|dist| - 1] == dist0[|dist| - 1]
    && (forall x: nat :: x < |dist0| && dist0[x].Some? ==> dist[x] == dist0[x] || dist[x].None?)
    && forall x: nat :: x < |dist0| && dist0[x].None? ==> dist[x].None?
  }

  /** The first `index` edges of `u` lead one layer down only to dead nodes. */
  ghost predicate Exhausted(adj: Graph, mr: Links, dist0: Links, dist: Links, u: nat, du: nat, index: nat)
    requires InRange(adj, |mr|) && |dist| == |dist0| == |adj| + 1 && u < |adj| && index <= |adj[u]|
  {
    forall i :: 0 <= i < index ==>
      var x := Next(mr, adj[u][i].right, |adj|);
      x <= |adj| && dist0[x] == Some(du + 1) ==> x < |adj| && Dead(dist0, dist, x)
  }

  lemma ExhaustedNone(adj: Graph, mr: Links, dist0: Links, dist: Links, u: nat, du: nat)
    requires InRange(adj, |mr|) && |dist| == |dist0| == |adj| + 1 && u < |adj|
    ensures Exhausted(adj, mr, dist0, dist, u, du, 0)
  {}

  lemma ExhaustedStep(adj: Graph, mr: Links, dist0: Links, before: Links, after: Links, u: nat, du: nat, index: nat)
    requires InRange(adj, |mr|) && |before| == |after| == |dist0| == |adj| + 1 && u < |adj| && index < |adj[u]|
    requires Exhausted(adj, mr, dist0, before, u, du, index)
    requires Faded(dist0, before)
    requires
      var x := Next(mr, adj[u][index].right, |adj|);
      && x <= |adj|
      && if before[x] == Some(du + 1) then x < |adj| && after[x].None? && GivenUp(before, after, x)
         else after == before
    ensures Exhausted(adj, mr, dist0, after, u, du, index + 1)
  {}

  lemma DeadGrows(adj: Graph, mr: Links, dist0: Links, dist: Links, u: nat)
    requires RoundKept(adj, mr, dist0, dist) && u < |adj| && dist[u].Some?
    requires Exhausted(adj, mr, dist0, dist, u, dist[u].value, |adj[u]|)
    ensures RoundKept(adj, mr, dist0, dist[u := None])
  {
    hide Tight, NoDeeper;
    forall w: nat, x: nat | w < |adj| && x <= |adj| && Dead(dist0, dist[u := None], w) && Leads(adj, mr, w, x)
      && dist0[x] == Some(dist0[w].value + 1)
      ensures x < |adj| && Dead(dist0, dist[u := None], x)
    {
      if w == u {
        var i :| 0 <= i < |adj[u]| && Next(mr, adj[u][i].right, |adj|) == x;
        assert Dead(dist0, dist, x);
      } else {
        assert Dead(dist0, dist, w);
        assert Dead(dist0, dist, x);
      }
    }
  }

  /** Giving `v` to `u` once `v`'s old partner, if any, has moved elsewhere. */
  lemma Relinked(adj: Graph, ml0: Links, mr0: Links, ml: Links, mr: Links, u: nat, v: nat)
    requires Linked(adj, ml0, mr0) && HasEdge(adj, u, v) && v < |mr0|
    requires Moved(adj, ml0, mr0, ml, mr, u, v)
    ensures LeftLinked(adj, ml[u := Some(v)], mr[v := Some(u)])
    ensures RightLinked(ml[u := Some(v)], mr[v := Some(u)], ml0[u])
    ensures ml0[u] != Some(v) && (ml0[u].Some? ==> mr[ml0[u].value] == Some(u))
  {}

  lemma RelinkedPlaced(adj: Graph, ml0: Links, mr0: Links, ml: Links, mr: Links, u: nat, v: nat)
    requires Linked(adj, ml0, mr0) && HasEdge(adj, u, v) && v < |mr0|
    requires Moved(adj, ml0, mr0, ml, mr, u, v)
    ensures Placed(ml[u := Some(v)]) == Placed(ml0) + {u}
  {
    if mr0[v].Some? {
      assert mr0[v].value in Placed(ml0);
    }
    assert forall x: nat :: x in Placed(ml[u := Some(v)]) <==> x in Placed(ml0) + {u};
  }

  /** From `ml0`/`mr0`, the partner of `v` (which is not `u`) has been given another right node. */
  ghost predicate Moved(adj: Graph, ml0: Links, mr0: Links, ml: Links, mr: Links, u: nat, v: nat)
    requires v < |mr0|
  {
    && u < |ml0| == |ml| && |mr| == |mr0| && ml[u] == ml0[u]
    && match mr0[v]
       case None => ml == ml0 && mr == mr0
       case Some(next) =>
         && next != u && next < |ml0|
         && LeftLinked(adj, ml, mr) && RightLinked(ml, mr, ml0[next])
         && Placed(ml) == Placed(ml0) + {next}
         && mr[v] == Some(next) && ml[next] != Some(v)
  }

  lemma SortedInRange(adj: Graph, sorted: Graph, nRight: nat)
    requires InRange(adj, nRight) && SameEdges(adj, sorted)
    ensures InRange(sorted, nRight)
  {
    forall u, i | 0 <= u < |sorted| && 0 <= i < |sorted[u]|
      ensures sorted[u][i].right < nRight
    {
      assert HasEdge(sorted, u, sorted[u][i].right);
      assert HasEdge(adj, u, sorted[u][i].right);
    }
  }

  lemma SameTurn(a: Graph, b: Graph, ml: Links)
    requires SameEdges(a, b) && InTurn(b, ml)
    ensures InTurn(a, ml)
  {
    hide HasEdge;
    assert forall u: nat, w: nat :: UsesAll(a, u, w) ==> UsesAll(b, u, w);
  }

  lemma TransferEdges(a: Graph, b: Graph, ml: Links, mr: Links)
    requires SameEdges(a, b) && |a| == |b|
    requires Linked(b, ml, mr) && IsMaximum(b, Pairs(ml))
    ensures Linked(a, ml, mr) && IsMaximum(a, Pairs(ml))
  {
    forall other: set<(nat, nat)> | IsMatching(a, other)
      ensures IsMatching(b, other)
    {}
  }
}
