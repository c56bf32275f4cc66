/** Finding a cursor among the installed themes: breadth first along a graph of parents that may be
    cyclic and may name themes nobody installed. */
module ThemeSearch {
  import opened Options

  /** An indexed theme: the directories providing it, in search order, and its parents. */
  datatype Record = Record(name: string, dirs: seq<string>, inherits: seq<string>)

  /** A snapshot of what is installed. `find` says where a directory holds a cursor, under any of
      its names. */
  datatype Index = Index(themes: seq<Record>, byName: map<string, nat>, find: (string, string) -> Option<string>) {
    ghost predicate Valid() {
      && (forall n :: n in byName ==> byName[n] < |themes| && themes[byName[n]].name == n)
      && (forall i :: 0 <= i < |themes| ==> themes[i].name in byName && byName[themes[i].name] == i)
    }

    /** The parents of a theme; none for one that is not installed. */
    function Parents(name: string): seq<string>
      requires Valid()
    {
      if name in byName then themes[byName[name]].inherits else []
    }

    /** Where a theme holds a cursor, if it is installed and does. */
    function Held(theme: string, cursor: string): Option<string>
      requires Valid()
    {
      if theme in byName then FirstIn(themes[byName[theme]].dirs, cursor) else None
    }

    /** The first directory that holds a cursor. */
    function FirstIn(dirs: seq<string>, cursor: string): (path: Option<string>)
      ensures path.None? ==> forall i :: 0 <= i < |dirs| ==> find(dirs[i], cursor).None?
      ensures path.Some? ==> exists k :: 0 <= k < |dirs| && find(dirs[k], cursor) == path && forall i :: 0 <= i < k ==> find(dirs[i], cursor).None?
    {
      if dirs == [] then None
      else if find(dirs[0], cursor).Some? then find(dirs[0], cursor)
      else FirstIn(dirs[1..], cursor)
    }

    /** Every name some theme inherits. */
    ghost function Inherited(): set<string> {
      set i, p | 0 <= i < |themes| && p in themes[i].inherits :: p
    }

    lemma ParentsInherited(name: string)
      requires Valid()
      ensures Names(Parents(name)) <= Inherited()
    {}
  }

  function Names(s: seq<string>): set<string> {
    set n | n in s
  }

  // ----- The reference: layer by layer

  /** The names of `s` not in `seen`, each once. */
  function Sift(s: seq<string>, seen: set<string>): (unseen: seq<string>)
    ensures Names(unseen) == Names(s) - seen
  {
    if s == [] then []
    else if s[0] in seen then
      assert Names(s) == {s[0]} + Names(s[1..]);
      Sift(s[1..], seen)
    else
      var later := Sift(s[1..], seen + {s[0]});
      assert Names([s[0]] + later) == {s[0]} + Names(later);
      assert Names(s) == {s[0]} + Names(s[1..]);
      [s[0]] + later
  }

  /** The parents of a layer of themes, in order. */
  function AllParents(index: Index, layer: seq<string>): (parents: seq<string>)
    requires index.Valid()
    ensures Names(parents) <= index.Inherited()
  {
    if layer == [] then [] else
      index.ParentsInherited(layer[0]);
      index.Parents(layer[0]) + AllParents(index, layer[1..])
  }

  /** Themes in the order to look: the new ones among `layer`, then the new ones among their
      parents, and so on. */
  ghost function Layers(index: Index, layer: seq<string>, seen: set<string>): seq<string>
    requires index.Valid()
    decreases |index.Inherited() + Names(layer) - seen|
  {
    var unseen := Sift(layer, seen);
    if unseen == [] then [] else
      FewerLeft(index, layer, seen);
      unseen + Layers(index, AllParents(index, unseen), seen + Names(unseen))
  }

  lemma FewerLeft(index: Index, layer: seq<string>, seen: set<string>)
    requires index.Valid() && Sift(layer, seen) != []
    ensures
      var unseen := Sift(layer, seen);
      |index.Inherited() + Names(AllParents(index, unseen)) - (seen + Names(unseen))| < |index.Inherited() + Names(layer) - seen|
  {
    var unseen := Sift(layer, seen);
    assert unseen[0] in Names(unseen);
    Fewer(index.Inherited() + Names(AllParents(index, unseen)) - (seen + Names(unseen)), index.Inherited() + Names(layer) - seen, unseen[0]);
  }

  lemma Fewer<T>(a: set<T>, b: set<T>, x: T)
    requires a <= b && x in b && x !in a
    ensures |a| < |b|
  {
    assert b == a + (b - a);
    assert |b - a| > 0;
  }

  /** The first theme of a list to hold a cursor: its place, or the length. */
  function FirstHolder(index: Index, cursor: string, order: seq<string>): (k: nat)
    requires index.Valid()
    ensures k <= |order|
    ensures forall i :: 0 <= i < k ==> index.Held(order[i], cursor).None?
    ensures k < |order| ==> index.Held(order[k], cursor).Some?
  {
    if order == [] || index.Held(order[0], cursor).Some? then 0 else 1 + FirstHolder(index, cursor, order[1..])
  }

  lemma {:induction false} FirstHolderIs(index: Index, cursor: string, order: seq<string>, k: nat)
    requires index.Valid() && k <= |order|
    requires forall i :: 0 <= i < k ==> index.Held(order[i], cursor).None?
    requires k < |order| ==> index.Held(order[k], cursor).Some?
    ensures FirstHolder(index, cursor, order) == k
  {
    if k > 0 {
      FirstHolderIs(index, cursor, order[1..], k - 1);
    }
  }

  // ----- The queue

  /** What a walk has yet to visit: the rest of this layer, and then the layers after it. */
  ghost function Rest(index: Index, now: seq<string>, next: seq<string>, visited: set<string>): seq<string>
    requires index.Valid()
  {
    var unseen := Sift(now, visited);
    unseen + Layers(index, next + AllParents(index, unseen), visited + Names(unseen))
  }

  lemma RestOfSeen(index: Index, now: seq<string>, next: seq<string>, visited: set<string>)
    requires index.Valid() && now != [] && now[0] in visited
    ensures Rest(index, now, next, visited) == Rest(index, now[1..], next, visited)
  {}

  lemma RestOfNew(index: Index, now: seq<string>, next: seq<string>, visited: set<string>)
    requires index.Valid() && now != [] && now[0] !in visited
    ensures Rest(index, now, next, visited) == [now[0]] + Rest(index, now[1..], next + index.Parents(now[0]), visited + {now[0]})
  {
    var rest := Sift(now[1..], visited + {now[0]});
    assert ([now[0]] + rest)[1..] == rest;
    assert next + (index.Parents(now[0]) + AllParents(index, rest)) == next + index.Parents(now[0]) + AllParents(index, rest);
    assert visited + Names([now[0]] + rest) == visited + {now[0]} + Names(rest);
  }

  lemma RestOfLayer(index: Index, next: seq<string>, visited: set<string>)
    requires index.Valid()
    ensures Rest(index, [], next, visited) == Layers(index, next, visited) == Rest(index, next, [], visited)
  {
    assert next + AllParents(index, []) == next;
    assert visited + Names([]) == visited;
    var unseen := Sift(next, visited);
    assert [] + AllParents(index, unseen) == AllParents(index, unseen);
    if unseen == [] {
      assert AllParents(index, unseen) == [] && Sift([], visited + Names(unseen)) == [];
    }
  }

  datatype Resolution = Resolution(theme: string, source: string, chain: seq<string>)

  /** A walk so far: its queue, whose first `now` names are the rest of this layer, and the first
      `seen` themes of the order, visited without finding the cursor. */
  ghost predicate Walking(index: Index, root: string, cursor: string, chain0: seq<string>, visited0: set<string>,
                          queue: seq<string>, now: nat, seen: nat, chain: seq<string>, visited: set<string>)
    requires index.Valid()
  {
    var order := Layers(index, [root], visited0);
    && now <= |queue| && seen <= |order|
    && order[seen..] == Rest(index, queue[..now], queue[now..], visited)
    && chain == chain0 + order[..seen] && visited == visited0 + Names(order[..seen])
    && (forall i :: 0 <= i < seen ==> index.Held(order[i], cursor).None?)
    && Names(queue) <= index.Inherited() + {root}
  }

  /** The walk is over: the cursor is in the last of the themes looked at, or in none. */
  ghost predicate Walked(index: Index, root: string, cursor: string, chain0: seq<string>, visited0: set<string>,
                         found: Option<Resolution>, chain: seq<string>, visited: set<string>)
    requires index.Valid()
  {
    var order := Layers(index, [root], visited0);
    var k := FirstHolder(index, cursor, order);
    && (k == |order| ==> found == None && chain == chain0 + order && visited == visited0 + Names(order))
    && (k < |order| ==> found == Some(Resolution(order[k], index.Held(order[k], cursor).value, chain0 + order[..k + 1])))
  }

  /** Walk breadth first from `root`, adding to the themes seen so far, until one holds the cursor.
      Themes are looked at exactly layer by layer, and the walk ends on every graph. */
  method Bfs(index: Index, root: string, cursor: string, chain0: seq<string>, visited0: set<string>)
    returns (found: Option<Resolution>, chain: seq<string>, visited: set<string>)
    requires index.Valid()
    ensures Walked(index, root, cursor, chain0, visited0, found, chain, visited)
  {
    hide *;
    var queue := [root];
    chain, visited := chain0, visited0;
    ghost var now: nat, seen: nat := 1, 0;
    WalkStarts(index, root, cursor, chain0, visited0);
    while queue != []
      invariant Walking(index, root, cursor, chain0, visited0, queue, now, seen, chain, visited)
      decreases |index.Inherited() + {root} - visited|, |queue|
    {
      if now == 0 {
        NextLayer(index, root, cursor, chain0, visited0, queue, seen, chain, visited);
        now := |queue|;
      }
      VisitSeen(index, root, cursor, chain0, visited0, queue, now, seen, chain, visited);
      var current := queue[0];
      if current !in visited {
        VisitNew(index, root, cursor, chain0, visited0, queue, now, seen, chain, visited);
      }
      queue := queue[1..];
      now := now - 1;
      if current in visited {
        continue;
      }
      visited := visited + {current};
      chain := chain + [current];
      seen := seen + 1;
      if current !in index.byName {
        continue;
      }
      var record := index.themes[index.byName[current]];
      queue := queue + record.inherits;
      var source := FindIn(index, record.dirs, cursor);
      if source.Some? {
        found := Some(Resolution(current, source.value, chain));
        return;
      }
    }
    WalkEnds(index, root, cursor, chain0, visited0, queue, now, seen, chain, visited);
    found := None;
  }

  lemma WalkStarts(index: Index, root: string, cursor: string, chain0: seq<string>, visited0: set<string>)
    requires index.Valid()
    ensures Walking(index, root, cursor, chain0, visited0, [root], 1, 0, chain0, visited0)
  {
    hide Rest, Layers;
    RestOfLayer(index, [root], visited0);
    assert [root][..1] == [root] && [root][1..] == [];
  }

  lemma NextLayer(index: Index, root: string, cursor: string, chain0: seq<string>, visited0: set<string>,
                  queue: seq<string>, seen: nat, chain: seq<string>, visited: set<string>)
    requires index.Valid() && Walking(index, root, cursor, chain0, visited0, queue, 0, seen, chain, visited)
    ensures Walking(index, root, cursor, chain0, visited0, queue, |queue|, seen, chain, visited)
  {
    hide Rest, Layers, Names;
    RestOfLayer(index, queue, visited);
    assert queue[..0] == [] && queue[0..] == queue && queue[..|queue|] == queue && queue[|queue|..] == [];
  }

  lemma VisitSeen(index: Index, root: string, cursor: string, chain0: seq<string>, visited0: set<string>,
                  queue: seq<string>, now: nat, seen: nat, chain: seq<string>, visited: set<string>)
    requires index.Valid() && Walking(index, root, cursor, chain0, visited0, queue, now, seen, chain, visited)
    requires 0 < now
    ensures queue != [] && now <= |queue|
    ensures queue[0] in visited ==>
      Walking(index, root, cursor, chain0, visited0, queue[1..], now - 1, seen, chain, visited)
  {
    hide Rest, Layers;
    if queue[0] in visited {
      RestOfSeen(index, queue[..now], queue[now..], visited);
      assert queue[..now][1..] == queue[1..][..now - 1] && queue[now..] == queue[1..][now - 1..];
    }
  }

  lemma VisitNew(index: Index, root: string, cursor: string, chain0: seq<string>, visited0: set<string>,
                 queue: seq<string>, now: nat, seen: nat, chain: seq<string>, visited: set<string>)
    requires index.Valid() && Walking(index, root, cursor, chain0, visited0, queue, now, seen, chain, visited)
    requires 0 < now && queue != [] && queue[0] !in visited
    ensures |index.Inherited() + {root} - (visited + {queue[0]})| < |index.Inherited() + {root} - visited|
    ensures queue[0] !in index.byName ==>
      Walking(index, root, cursor, chain0, visited0, queue[1..], now - 1, seen + 1, chain + [queue[0]], visited + {queue[0]})
    ensures queue[0] in index.byName ==> index.byName[queue[0]] < |index.themes|
    ensures queue[0] in index.byName ==>
      var record := index.themes[index.byName[queue[0]]];
      match index.FirstIn(record.dirs, cursor)
      case None =>
        Walking(index, root, cursor, chain0, visited0, queue[1..] + record.inherits, now - 1, seen + 1, chain + [queue[0]], visited + {queue[0]})
      case Some(source) =>
        forall v :: Walked(index, root, cursor, chain0, visited0, Some(Resolution(queue[0], source, chain + [queue[0]])), chain + [queue[0]], v)
  {
    hide Rest, Layers, Walking, Walked, Names, Sift, FirstHolder;
    FrontIsNext(index, root, cursor, chain0, visited0, queue, now, seen, chain, visited);
    assert queue[1..] + [] == queue[1..];
    match index.Held(queue[0], cursor)
    case None => VisitWithout(index, root, cursor, chain0, visited0, queue, now, seen, chain, visited);
    case Some(source) => VisitWith(index, root, cursor, chain0, visited0, queue, now, seen, chain, visited);
  }

  /** A name not yet visited at the front of the queue is the next one in order. */
  lemma FrontIsNext(index: Index, root: string, cursor: string, chain0: seq<string>, visited0: set<string>,
                    queue: seq<string>, now: nat, seen: nat, chain: seq<string>, visited: set<string>)
    requires index.Valid() && Walking(index, root, cursor, chain0, visited0, queue, now, seen, chain, visited)
    requires 0 < now && queue != [] && queue[0] !in visited
    ensures
      var order := Layers(index, [root], visited0);
      var pushed := queue[1..] + index.Parents(queue[0]);
      && now <= |queue| && seen < |order| && order[seen] == queue[0] && order[..seen + 1] == order[..seen] + [queue[0]]
      && order[seen + 1..] == Rest(index, pushed[..now - 1], pushed[now - 1..], visited + {queue[0]})
    ensures |index.Inherited() + {root} - (visited + {queue[0]})| < |index.Inherited() + {root} - visited|
  {
    hide Rest, Layers, Sift, FirstHolder, Names;
    var current, order := queue[0], Layers(index, [root], visited0);
    InAll(queue, index.Inherited() + {root});
    Fewer(index.Inherited() + {root} - (visited + {current}), index.Inherited() + {root} - visited, current);
    PushAfterPop(queue, now, index.Parents(current));
    RestOfNew(index, queue[..now], queue[now..], visited);
    NextOf(order, seen, current, Rest(index, queue[..now][1..], queue[now..] + index.Parents(current), visited + {current}));
  }

  lemma InAll(queue: seq<string>, all: set<string>)
    requires queue != [] && Names(queue) <= all
    ensures queue[0] in all
  {
    assert queue[0] in Names(queue);
  }

  lemma PushAfterPop<T>(queue: seq<T>, now: nat, more: seq<T>)
    requires 0 < now <= |queue|
    ensures queue[..now][0] == queue[0] && queue[..now][1..] == (queue[1..] + more)[..now - 1]
    ensures queue[now..] + more == (queue[1..] + more)[now - 1..]
  {}

  lemma NextOf<T>(order: seq<T>, seen: nat, x: T, rest: seq<T>)
    requires seen <= |order| && order[seen..] == [x] + rest
    ensures seen < |order| && order[seen] == x && order[..seen + 1] == order[..seen] + [x] && order[seen + 1..] == rest
  {
    assert order[seen..][0] == x;
    assert order[seen + 1..] == order[seen..][1..];
  }

  lemma VisitWith(index: Index, root: string, cursor: string, chain0: seq<string>, visited0: set<string>,
                  queue: seq<string>, now: nat, seen: nat, chain: seq<string>, visited: set<string>)
    requires index.Valid() && Walking(index, root, cursor, chain0, visited0, queue, now, seen, chain, visited)
    requires
      var order := Layers(index, [root], visited0);
      queue != [] && seen < |order| && order[seen] == queue[0] && order[..seen + 1] == order[..seen] + [queue[0]]
    requires index.Held(queue[0], cursor).Some?
    ensures forall v ::
      Walked(index, root, cursor, chain0, visited0, Some(Resolution(queue[0], index.Held(queue[0], cursor).value, chain + [queue[0]])),
             chain + [queue[0]], v)
  {
    hide Rest, Layers, Names;
    var order := Layers(index, [root], visited0);
    FirstHolderIs(index, cursor, order, seen);
    assert chain0 + order[..seen] + [queue[0]] == chain0 + order[..seen + 1];
  }

  lemma VisitWithout(index: Index, root: string, cursor: string, chain0: seq<string>, visited0: set<string>,
                     queue: seq<string>, now: nat, seen: nat, chain: seq<string>, visited: set<string>)
    requires index.Valid() && Walking(index, root, cursor, chain0, visited0, queue, now, seen, chain, visited)
    requires
      var order := Layers(index, [root], visited0);
      && 0 < now <= |queue| && seen < |order| && order[seen] == queue[0] && order[..seen + 1] == order[..seen] + [queue[0]]
      && var pushed := queue[1..] + index.Parents(queue[0]);
         order[seen + 1..] == Rest(index, pushed[..now - 1], pushed[now - 1..], visited + {queue[0]})
    requires index.Held(queue[0], cursor).None?
    ensures
      Walking(index, root, cursor, chain0, visited0, queue[1..] + index.Parents(queue[0]), now - 1, seen + 1,
              chain + [queue[0]], visited + {queue[0]})
  {
    hide Rest, Layers;
    index.ParentsInherited(queue[0]);
    var order := Layers(index, [root], visited0);
    assert chain0 + order[..seen] + [queue[0]] == chain0 + order[..seen + 1];
    assert Names(order[..seen + 1]) == Names(order[..seen]) + {queue[0]};
  }

  lemma WalkEnds(index: Index, root: string, cursor: string, chain0: seq<string>, visited0: set<string>,
                 queue: seq<string>, now: nat, seen: nat, chain: seq<string>, visited: set<string>)
    requires index.Valid() && Walking(index, root, cursor, chain0, visited0, queue, now, seen, chain, visited)
    requires queue == []
    ensures Walked(index, root, cursor, chain0, visited0, None, chain, visited)
  {
    hide Rest;
    RestOfLayer(index, [], visited);
    var order := Layers(index, [root], visited0);
    assert order[..|order|] == order;
    FirstHolderIs(index, cursor, order, |order|);
  }

  /** The first directory of a theme that holds the cursor. */
  method FindIn(index: Index, dirs: seq<string>, cursor: string) returns (source: Option<string>)
    ensures source == index.FirstIn(dirs, cursor)
  {
    for i := 0 to |dirs|
      invariant index.FirstIn(dirs, cursor) == index.FirstIn(dirs[i..], cursor)
    {
      if index.find(dirs[i], cursor).Some? {
        return index.find(dirs[i], cursor);
      }
    }
    source := None;
  }

  // ----- Resolving

  datatype Outcome = Found(at: Resolution) | NotFound | InvalidName

  function ThemeNames(themes: seq<Record>): seq<string> {
    seq(|themes|, i requires 0 <= i < |themes| => themes[i].name)
  }

  /** Every theme, in the order they are tried: from the start, then from `default`, then the rest
      as they were discovered. */
  ghost function Order(index: Index, start: string): seq<string>
    requires index.Valid()
  {
    var walked := FromDefault(index, start, Layers(index, [start], {}));
    walked + Sift(ThemeNames(index.themes), Names(walked))
  }

  ghost function FromDefault(index: Index, start: string, walked: seq<string>): seq<string>
    requires index.Valid()
  {
    if start != "default" && "default" !in Names(walked) then walked + Layers(index, ["default"], Names(walked)) else walked
  }

  /** The first theme of an order that holds the cursor. */
  ghost function Answer(index: Index, cursor: string, order: seq<string>): Outcome
    requires index.Valid()
  {
    var k := FirstHolder(index, cursor, order);
    if k < |order| then Found(Resolution(order[k], index.Held(order[k], cursor).value, order[..k + 1])) else NotFound
  }

  lemma AnswerInPrefix(index: Index, cursor: string, a: seq<string>, b: seq<string>)
    requires index.Valid()
    ensures Answer(index, cursor, a).Found? ==> Answer(index, cursor, a + b) == Answer(index, cursor, a)
    ensures Answer(index, cursor, a) == NotFound ==>
      FirstHolder(index, cursor, a) == |a| && FirstHolder(index, cursor, a + b) == |a| + FirstHolder(index, cursor, b)
  {
    var k, l := FirstHolder(index, cursor, a), FirstHolder(index, cursor, b);
    if k < |a| {
      FirstHolderIs(index, cursor, a + b, k);
      assert (a + b)[..k + 1] == a[..k + 1];
    } else {
      FirstHolderIs(index, cursor, a + b, |a| + l);
    }
  }

  /** Where to start: the theme asked for, else the environment's, else `default`. */
  function Start(preferred: string, environment: string): string {
    if preferred != "" then preferred else if environment != "" then environment else "default"
  }

  /** What a walk found, in terms of the answer over the themes it has walked. */
  lemma WalkedAnswers(index: Index, root: string, cursor: string, chain0: seq<string>, visited0: set<string>,
                      found: Option<Resolution>, chain: seq<string>, visited: set<string>)
    requires index.Valid() && Walked(index, root, cursor, chain0, visited0, found, chain, visited)
    requires Answer(index, cursor, chain0) == NotFound && visited0 == Names(chain0)
    ensures Answer(index, cursor, chain0 + Layers(index, [root], visited0)) == if found.Some? then Found(found.value) else NotFound
    ensures found.None? ==> chain == chain0 + Layers(index, [root], visited0) && visited == Names(chain)
  {
    hide Layers;
    var order := Layers(index, [root], visited0);
    AnswerInPrefix(index, cursor, chain0, order);
    var k := FirstHolder(index, cursor, order);
    if k < |order| {
      assert (chain0 + order)[..|chain0| + k + 1] == chain0 + order[..k + 1];
    }
  }

  /** Find a cursor: breadth first from the theme to start with, then from `default` unless that
      was reached, then among the themes left, as discovered. */
  method Walk(index: Index, cursor: string, preferred: string, environment: string) returns (r: Outcome)
    requires index.Valid()
    ensures r == Answer(index, cursor, Order(index, Start(preferred, environment)))
  {
    hide *;
    var start := preferred;
    if start == "" {
      start := environment;
    }
    if start == "" {
      start := "default";
    }
    StartIs(preferred, environment, start);
    EmptyWalk(index, cursor);
    var found, chain, visited := Bfs(index, start, cursor, [], {});
    WalkedAnswers(index, start, cursor, [], {}, found, chain, visited);
    ghost var first := Layers(index, [start], {});
    assert [] + first == first;
    FirstAnswers(index, cursor, start);
    if found.Some? {
      return Found(found.value);
    }
    if start != "default" && "default" !in visited {
      found, chain, visited := Bfs(index, "default", cursor, chain, visited);
      WalkedAnswers(index, "default", cursor, first, Names(first), found, chain, visited);
      if found.Some? {
        return Found(found.value);
      }
    }
    r := TryRest(index, cursor, chain);
  }

  lemma StartIs(preferred: string, environment: string, start: string)
    requires start == if preferred != "" then preferred else if environment != "" then environment else "default"
    ensures start == Start(preferred, environment)
  {}

  lemma EmptyWalk(index: Index, cursor: string)
    requires index.Valid()
    ensures Answer(index, cursor, []) == NotFound && Names([]) == {}
  {}

  /** An answer among the first themes tried is the answer; the rest are tried if there is none. */
  lemma FirstAnswers(index: Index, cursor: string, start: string)
    requires index.Valid()
    ensures
      var first := Layers(index, [start], {});
      var both := first + Layers(index, ["default"], Names(first));
      var onlyFirst := start == "default" || "default" in Names(first);
      && (Answer(index, cursor, first).Found? ==> Answer(index, cursor, Order(index, start)) == Answer(index, cursor, first))
      && (!onlyFirst && Answer(index, cursor, both).Found? ==> Answer(index, cursor, Order(index, start)) == Answer(index, cursor, both))
      && Order(index, start) == (if onlyFirst then first else both) + Sift(ThemeNames(index.themes), Names(if onlyFirst then first else both))
  {
    hide Layers, Answer, Sift, ThemeNames, Names, FirstHolder;
    var first := Layers(index, [start], {});
    var second := Layers(index, ["default"], Names(first));
    var walked := FromDefault(index, start, first);
    var third := Sift(ThemeNames(index.themes), Names(walked));
    AnswerInPrefix(index, cursor, walked, third);
    AnswerInPrefix(index, cursor, first, second);
  }

  /** The last resort: every theme not yet tried, in discovery order. */
  method TryRest(index: Index, cursor: string, tried: seq<string>) returns (r: Outcome)
    requires index.Valid() && Answer(index, cursor, tried) == NotFound
    ensures r == Answer(index, cursor, tried + Sift(ThemeNames(index.themes), Names(tried)))
  {
    hide *;
    var chain := tried;
    ghost var order := tried + Sift(ThemeNames(index.themes), Names(tried));
    RestStarts(index, tried);
    for i := 0 to |index.themes|
      invariant order == chain + Sift(ThemeNames(index.themes[i..]), Names(chain))
      invariant Answer(index, cursor, chain) == NotFound
    {
      var record := index.themes[i];
      TryOne(index, cursor, chain, i);
      if record.name in chain {
        continue;
      }
      var source := FindIn(index, record.dirs, cursor);
      chain := chain + [record.name];
      if source.Some? {
        return Found(Resolution(record.name, source.value, chain));
      }
    }
    NoneLeft(index, chain);
    r := NotFound;
  }

  lemma RestStarts(index: Index, tried: seq<string>)
    ensures index.themes[0..] == index.themes
  {}

  lemma NoneLeft(index: Index, chain: seq<string>)
    ensures chain + Sift(ThemeNames(index.themes[|index.themes|..]), Names(chain)) == chain
  {}

  lemma TryOne(index: Index, cursor: string, chain: seq<string>, i: nat)
    requires index.Valid() && i < |index.themes| && Answer(index, cursor, chain) == NotFound
    ensures
      var name := index.themes[i].name;
      var order := chain + Sift(ThemeNames(index.themes[i..]), Names(chain));
      if name in chain then order == chain + Sift(ThemeNames(index.themes[i + 1..]), Names(chain))
      else
        && order == chain + [name] + Sift(ThemeNames(index.themes[i + 1..]), Names(chain + [name]))
        && match index.FirstIn(index.themes[i].dirs, cursor)
           case None => Answer(index, cursor, chain + [name]) == NotFound
           case Some(source) => Answer(index, cursor, order) == Found(Resolution(name, source, chain + [name]))
  {
    var name := index.themes[i].name;
    var left := ThemeNames(index.themes[i..]);
    assert left[0] == name && left[1..] == ThemeNames(index.themes[i + 1..]);
    if name !in chain {
      assert Names(chain + [name]) == Names(chain) + {name};
      var after := Sift(left[1..], Names(chain) + {name});
      assert chain + ([name] + after) == chain + [name] + after;
      AnswerInPrefix(index, cursor, chain, [name]);
      AnswerInPrefix(index, cursor, chain + [name], after);
      assert (chain + [name])[..|chain| + 1] == chain + [name];
    }
  }

  // ----- The memo

  /** A name that could be a path, or part of one, is refused. */
  predicate ValidName(cursor: string) {
    cursor != "" && cursor != "." && cursor != ".." && '/' !in cursor && '\\' !in cursor
  }

  datatype Key = Key(cursor: string, preferred: string)

  class Theme {
    const index: Index
    var cache: map<Key, Outcome>

    constructor (index: Index)
      requires index.Valid()
      ensures Valid() && this.index == index && cache == map[]
    {
      this.index := index;
      cache := map[];
    }

    /** Every remembered outcome is what a walk of the snapshot gives. */
    ghost predicate Valid()
      reads this
    {
      && index.Valid()
      && forall k :: k in cache ==> ValidName(k.cursor) && Remembered(k)
    }

    ghost predicate Remembered(k: Key)
      requires index.Valid() && k in cache
      reads this
    {
      exists environment: string :: cache[k] == Answer(index, k.cursor, Order(index, Start(k.preferred, environment)))
    }

    /** Resolve a cursor name. Names refused never reach the memo; a theme named outright gives what
        a walk would; with none named, the first lookup's environment decides. */
    method Resolve(cursor: string, preferred: string, environment: string) returns (r: Outcome)
      requires Valid()
      modifies this
      ensures Valid()
      ensures !ValidName(cursor) ==> r == InvalidName && cache == old(cache)
      ensures ValidName(cursor) ==> r.Found? || r.NotFound?
      ensures ValidName(cursor) && (preferred != "" || Key(cursor, preferred) !in old(cache)) ==>
        r == Answer(index, cursor, Order(index, Start(preferred, environment)))
      ensures ValidName(cursor) ==> cache == old(cache)[Key(cursor, preferred) := r]
    {
      hide Answer, Order;
      if cursor == "" || cursor == "." || cursor == ".." || '/' in cursor || '\\' in cursor {
        return InvalidName;
      }
      AnswersAreOutcomes(index);
      var key := Key(cursor, preferred);
      if key in cache {
        assert cache[key := cache[key]] == cache;
        return cache[key];
      }
      r := Walk(index, cursor, preferred, environment);
      label walked:
      cache := cache[key := r];
      assert forall k :: k in cache && k != key ==> old@walked(Remembered(k)) && Remembered(k);
    }
  }

  lemma AnswersAreOutcomes(index: Index)
    requires index.Valid()
    ensures forall cursor, order :: Answer(index, cursor, order).Found? || Answer(index, cursor, order).NotFound?
  {}

  // ----- What the order promises

  ghost predicate Distinct(s: seq<string>) {
    forall i, j :: 0 <= i < j < |s| ==> s[i] != s[j]
  }

  lemma {:induction false} SiftDistinct(s: seq<string>, seen: set<string>)
    ensures Distinct(Sift(s, seen))
  {
    if s != [] {
      if s[0] in seen {
        SiftDistinct(s[1..], seen);
      } else {
        SiftDistinct(s[1..], seen + {s[0]});
        NoneSeen(Sift(s[1..], seen + {s[0]}), seen + {s[0]});
      }
    }
  }

  lemma NoneSeen(s: seq<string>, seen: set<string>)
    requires Names(s) !! seen
    ensures forall i :: 0 <= i < |s| ==> s[i] !in seen
  {
    forall i | 0 <= i < |s|
      ensures s[i] !in seen
    {
      assert s[i] in Names(s);
    }
  }

  lemma DistinctTogether(a: seq<string>, b: seq<string>)
    requires Distinct(a) && Distinct(b) && Names(a) !! Names(b)
    ensures Distinct(a + b)
  {
    NoneSeen(b, Names(a));
    forall i, j | 0 <= i < j < |a + b|
      ensures (a + b)[i] != (a + b)[j]
    {
      if i < |a| <= j {
        assert a[i] in Names(a);
      }
    }
  }

  lemma NamesTogether(a: seq<string>, b: seq<string>)
    ensures Names(a + b) == Names(a) + Names(b)
  {}

  lemma {:induction false} LayersDistinct(index: Index, layer: seq<string>, seen: set<string>)
    requires index.Valid()
    ensures Distinct(Layers(index, layer, seen)) && Names(Layers(index, layer, seen)) !! seen
    decreases |index.Inherited() + Names(layer) - seen|
  {
    hide Distinct, Names, AllParents, Sift;
    var unseen := Sift(layer, seen);
    SiftDistinct(layer, seen);
    NoNames();
    if unseen != [] {
      FewerLeft(index, layer, seen);
      LayersDistinct(index, AllParents(index, unseen), seen + Names(unseen));
      var later := Layers(index, AllParents(index, unseen), seen + Names(unseen));
      DistinctTogether(unseen, later);
      NamesTogether(unseen, later);
    }
  }

  lemma NoNames()
    ensures Names([]) == {} && Distinct([])
  {}

  /** No theme is tried twice. */
  lemma OrderDistinct(index: Index, start: string)
    requires index.Valid()
    ensures Distinct(Order(index, start))
  {
    hide Distinct, Layers, Names, Sift;
    var first := Layers(index, [start], {});
    var walked := FromDefault(index, start, first);
    LayersDistinct(index, [start], {});
    LayersDistinct(index, ["default"], Names(first));
    DistinctTogether(first, Layers(index, ["default"], Names(first)));
    SiftDistinct(ThemeNames(index.themes), Names(walked));
    DistinctTogether(walked, Sift(ThemeNames(index.themes), Names(walked)));
  }

  /** A cursor is not found exactly when no installed theme has it, whatever the start. */
  lemma NotFoundIff(index: Index, cursor: string, start: string)
    requires index.Valid()
    ensures Answer(index, cursor, Order(index, start)) == NotFound <==>
      forall i :: 0 <= i < |index.themes| ==> index.FirstIn(index.themes[i].dirs, cursor).None?
  {
    hide Layers, FromDefault;
    var order := Order(index, start);
    forall i | 0 <= i < |index.themes|
      ensures index.themes[i].name in order
    {
      var walked := FromDefault(index, start, Layers(index, [start], {}));
      assert ThemeNames(index.themes)[i] in Names(ThemeNames(index.themes));
      NamesTogether(walked, Sift(ThemeNames(index.themes), Names(walked)));
      assert index.themes[i].name in Names(order);
    }
  }

  /** The themes reached from a root in exactly `d` steps along `Inherits`. */
  ghost function Reach(index: Index, root: string, d: nat): set<string>
    requires index.Valid()
  {
    if d == 0 then {root} else set t, p | t in Reach(index, root, d - 1) && p in index.Parents(t) :: p
  }

  /** Every parent of a name of `a` is in `b`. */
  ghost predicate ParentsIn(index: Index, a: set<string>, b: set<string>)
    requires index.Valid()
  {
    forall t :: t in a ==> Names(index.Parents(t)) <= b
  }

  lemma {:induction false} AllParentsHas(index: Index, layer: seq<string>)
    requires index.Valid()
    ensures ParentsIn(index, Names(layer), Names(AllParents(index, layer)))
  {
    if layer != [] {
      AllParentsHas(index, layer[1..]);
      NamesTogether(index.Parents(layer[0]), AllParents(index, layer[1..]));
      assert Names(layer) == {layer[0]} + Names(layer[1..]);
    }
  }

  lemma {:induction false} AllParentsOf(index: Index, layer: seq<string>, p: string)
    requires index.Valid() && p in AllParents(index, layer)
    ensures exists t :: t in layer && p in index.Parents(t)
  {
    if p in index.Parents(layer[0]) {
      assert layer[0] in layer;
    } else {
      AllParentsOf(index, layer[1..], p);
      var t :| t in layer[1..] && p in index.Parents(t);
      assert t in layer;
    }
  }

  /** All at fewer than `d` steps were seen, and all at `d` steps are seen or in the layer, which
      holds nothing else. */
  ghost predicate AtDistance(index: Index, root: string, layer: seq<string>, seen: set<string>, d: nat)
    requires index.Valid()
  {
    && Names(layer) <= Reach(index, root, d)
    && (forall k: nat :: k < d ==> Reach(index, root, k) <= seen)
    && Reach(index, root, d) <= seen + Names(layer)
    && ParentsIn(index, seen, seen + Names(layer))
  }

  lemma NextDistance(index: Index, root: string, layer: seq<string>, seen: set<string>, d: nat)
    requires index.Valid() && AtDistance(index, root, layer, seen, d)
    ensures
      var unseen := Sift(layer, seen);
      AtDistance(index, root, AllParents(index, unseen), seen + Names(unseen), d + 1)
  {
    hide Sift, AllParents, Reach, Index.Valid;
    var unseen := Sift(layer, seen);
    AllParentsHas(index, unseen);
    var next := AllParents(index, unseen);
    ParentsReached(index, root, unseen, d);
    ReachCovered(index, root, d, seen + Names(unseen), seen + Names(unseen) + Names(next));
  }

  lemma ParentsReached(index: Index, root: string, layer: seq<string>, d: nat)
    requires index.Valid() && Names(layer) <= Reach(index, root, d)
    ensures Names(AllParents(index, layer)) <= Reach(index, root, d + 1)
  {
    hide AllParents;
    forall p | p in AllParents(index, layer)
      ensures p in Reach(index, root, d + 1)
    {
      AllParentsOf(index, layer, p);
      var t :| t in layer && p in index.Parents(t);
      assert t in Names(layer);
    }
  }

  lemma ReachCovered(index: Index, root: string, d: nat, a: set<string>, b: set<string>)
    requires index.Valid() && Reach(index, root, d) <= a && ParentsIn(index, a, b)
    ensures Reach(index, root, d + 1) <= b
  {
    forall p | p in Reach(index, root, d + 1)
      ensures p in b
    {
      var t :| t in Reach(index, root, d) && p in index.Parents(t);
      assert p in Names(index.Parents(t));
    }
  }

  /** A theme at `d` steps, all nearer ones of which come earlier. */
  ghost predicate NearestAt(index: Index, root: string, order: seq<string>, seen: set<string>, i: nat, d: nat)
    requires index.Valid() && i < |order|
  {
    order[i] in Reach(index, root, d) && forall k: nat :: k < d ==> Reach(index, root, k) <= seen + Names(order[..i])
  }

  lemma {:induction false} LayersNearest(index: Index, root: string, layer: seq<string>, seen: set<string>, d: nat, i: nat)
    requires index.Valid() && AtDistance(index, root, layer, seen, d) && i < |Layers(index, layer, seen)|
    ensures exists e: nat :: NearestAt(index, root, Layers(index, layer, seen), seen, i, e)
    decreases |index.Inherited() + Names(layer) - seen|
  {
    hide Sift, AllParents, AtDistance, Reach, Names, Index.Valid;
    var order := Layers(index, layer, seen);
    var unseen := Sift(layer, seen);
    FewerLeft(index, layer, seen);
    NextDistance(index, root, layer, seen, d);
    var later := Layers(index, AllParents(index, unseen), seen + Names(unseen));
    assert order == unseen + later;
    if i < |unseen| {
      InLayer(index, root, layer, seen, d, unseen, i);
      assert NearestAt(index, root, order, seen, i, d);
    } else {
      LayersNearest(index, root, AllParents(index, unseen), seen + Names(unseen), d + 1, i - |unseen|);
      var e: nat :| NearestAt(index, root, later, seen + Names(unseen), i - |unseen|, e);
      NearestLater(index, root, unseen, later, seen, i, e);
    }
  }

  lemma NearestLater(index: Index, root: string, unseen: seq<string>, later: seq<string>, seen: set<string>, i: nat, d: nat)
    requires index.Valid() && |unseen| <= i < |unseen + later|
    requires NearestAt(index, root, later, seen + Names(unseen), i - |unseen|, d)
    ensures NearestAt(index, root, unseen + later, seen, i, d)
  {
    hide Reach;
    assert (unseen + later)[..i] == unseen + later[..i - |unseen|];
    NamesTogether(unseen, later[..i - |unseen|]);
  }

  lemma InLayer(index: Index, root: string, layer: seq<string>, seen: set<string>, d: nat, unseen: seq<string>, i: nat)
    requires index.Valid() && AtDistance(index, root, layer, seen, d) && Names(unseen) <= Names(layer) && i < |unseen|
    ensures unseen[i] in Reach(index, root, d) && forall k: nat :: k < d ==> Reach(index, root, k) <= seen
  {
    hide Reach;
    assert unseen[i] in Names(unseen);
  }

  /** Everything reachable is in the layers. */
  lemma {:induction false} LayersReachAll(index: Index, root: string, layer: seq<string>, seen: set<string>, d: nat, k: nat)
    requires index.Valid() && AtDistance(index, root, layer, seen, d)
    ensures Reach(index, root, k) <= seen + Names(Layers(index, layer, seen))
    decreases |index.Inherited() + Names(layer) - seen|
  {
    hide Sift, AllParents, Reach;
    var unseen := Sift(layer, seen);
    if unseen == [] {
      NoNames();
      NothingLeft(index, root, layer, seen, d);
      ReachClosed(index, root, seen, d, k);
    } else {
      FewerLeft(index, layer, seen);
      NextDistance(index, root, layer, seen, d);
      LayersReachAll(index, root, AllParents(index, unseen), seen + Names(unseen), d + 1, k);
      NamesTogether(unseen, Layers(index, AllParents(index, unseen), seen + Names(unseen)));
    }
  }

  /** When a layer brings nothing new, what was seen is closed. */
  lemma NothingLeft(index: Index, root: string, layer: seq<string>, seen: set<string>, d: nat)
    requires index.Valid() && AtDistance(index, root, layer, seen, d) && Sift(layer, seen) == []
    ensures ParentsIn(index, seen, seen)
    ensures forall j: nat :: j <= d ==> Reach(index, root, j) <= seen
  {
    hide Reach, Sift, Index.Valid;
    SiftedAway(layer, seen);
    assert seen + Names(layer) == seen;
    forall j: nat | j <= d
      ensures Reach(index, root, j) <= seen
    {
      if j == d {
        assert Reach(index, root, d) <= seen + Names(layer);
      }
    }
  }

  lemma SiftedAway(layer: seq<string>, seen: set<string>)
    requires Sift(layer, seen) == []
    ensures Names(layer) <= seen
  {
    NoNames();
    assert Names(layer) - seen == {};
  }

  lemma {:induction false} ReachClosed(index: Index, root: string, seen: set<string>, d: nat, k: nat)
    requires index.Valid() && ParentsIn(index, seen, seen) && forall j: nat :: j <= d ==> Reach(index, root, j) <= seen
    ensures Reach(index, root, k) <= seen
  {
    if k > d {
      ReachClosed(index, root, seen, d, k - 1);
      forall p | p in Reach(index, root, k)
        ensures p in seen
      {
        var t :| t in Reach(index, root, k - 1) && p in index.Parents(t);
        assert p in Names(index.Parents(t));
      }
    }
  }

  ghost predicate HeldWithin(index: Index, cursor: string, root: string, d: nat)
    requires index.Valid()
  {
    exists t :: t in Reach(index, root, d) && index.Held(t, cursor).Some?
  }

  // ----- Ties, by the order parents are listed in

  /** Where the paths of `d` steps along `Inherits` from some themes end: those through the first theme
      first, and of those the ones through its first parent. */
  ghost function PathEnds(index: Index, names: seq<string>, d: nat): seq<string>
    requires index.Valid()
    decreases d, |names|
  {
    if d == 0 then names
    else if names == [] then []
    else PathEnds(index, index.Parents(names[0]), d - 1) + PathEnds(index, names[1..], d)
  }

  /** Shorter paths first, `d` lengths from `k` on. */
  ghost function PathsFrom(index: Index, names: seq<string>, k: nat, d: nat): seq<string>
    requires index.Valid()
    decreases d
  {
    if d == 0 then [] else PathEnds(index, names, k) + PathsFrom(index, names, k + 1, d - 1)
  }

  lemma {:induction false} PathEndsTogether(index: Index, a: seq<string>, b: seq<string>, d: nat)
    requires index.Valid()
    ensures PathEnds(index, a + b, d) == PathEnds(index, a, d) + PathEnds(index, b, d)
  {
    if a == [] {
      assert a + b == b;
    } else if d > 0 {
      assert (a + b)[1..] == a[1..] + b;
      PathEndsTogether(index, a[1..], b, d);
    }
  }

  lemma {:induction false} PathEndsOfParents(index: Index, names: seq<string>, d: nat)
    requires index.Valid()
    ensures PathEnds(index, AllParents(index, names), d) == PathEnds(index, names, d + 1)
  {
    if names == [] {
      NoPathEnds(index, d);
    } else {
      PathEndsTogether(index, index.Parents(names[0]), AllParents(index, names[1..]), d);
      PathEndsOfParents(index, names[1..], d);
    }
  }

  lemma NoPathEnds(index: Index, d: nat)
    requires index.Valid()
    ensures PathEnds(index, [], d) == []
  {}

  lemma {:induction false} PathsOfParents(index: Index, names: seq<string>, k: nat, d: nat)
    requires index.Valid()
    ensures PathsFrom(index, AllParents(index, names), k, d) == PathsFrom(index, names, k + 1, d)
    decreases d
  {
    if d > 0 {
      PathEndsOfParents(index, names, k);
      PathsOfParents(index, names, k + 1, d - 1);
    }
  }

  lemma {:induction false} SiftTogether(a: seq<string>, b: seq<string>, seen: set<string>)
    ensures Sift(a + b, seen) == Sift(a, seen) + Sift(b, seen + Names(a))
  {
    if a == [] {
      assert a + b == b && seen + Names(a) == seen;
    } else {
      assert (a + b)[1..] == a[1..] + b;
      assert Names(a) == {a[0]} + Names(a[1..]);
      SiftTogether(a[1..], b, seen + {a[0]});
      assert a[0] in seen ==> seen + {a[0]} == seen;
      assert seen + {a[0]} + Names(a[1..]) == seen + Names(a);
    }
  }

  lemma SiftNothing(s: seq<string>, seen: set<string>)
    requires Names(s) <= seen
    ensures Sift(s, seen) == []
  {
    NoneNamed(Sift(s, seen));
  }

  lemma NoneNamed(s: seq<string>)
    ensures Names(s) == {} ==> s == []
  {
    assert s != [] ==> s[0] in Names(s);
  }

  /** Themes seen before have no new parents, so leaving them out changes nothing. */
  lemma {:induction false} SiftedParents(index: Index, layer: seq<string>, seen: set<string>, known: set<string>)
    requires index.Valid() && ParentsIn(index, seen, known)
    ensures Sift(AllParents(index, layer), known) == Sift(AllParents(index, Sift(layer, seen)), known)
  {
    hide Names, Index.Valid;
    if layer != [] {
      var parents := index.Parents(layer[0]);
      SiftTogether(parents, AllParents(index, layer[1..]), known);
      if layer[0] in seen {
        SiftNothing(parents, known);
        assert known + Names(parents) == known;
        SiftedParents(index, layer[1..], seen, known);
      } else {
        var rest := Sift(layer[1..], seen + {layer[0]});
        assert ([layer[0]] + rest)[1..] == rest;
        SiftTogether(parents, AllParents(index, rest), known);
        SiftedParents(index, layer[1..], seen + {layer[0]}, known + Names(parents));
      }
    }
  }

  /** Paths are looked along layer by layer. */
  lemma PathsStep(index: Index, layer: seq<string>, seen: set<string>, d: nat)
    requires index.Valid() && d > 0
    ensures
      Sift(PathsFrom(index, layer, 0, d), seen)
      == Sift(layer, seen) + Sift(PathsFrom(index, AllParents(index, layer), 0, d - 1), seen + Names(layer))
  {
    hide AllParents, Names, Sift, Index.Valid;
    PathsOfParents(index, layer, 0, d - 1);
    SiftTogether(layer, PathsFrom(index, layer, 1, d - 1), seen);
  }

  /** Two layers with the same new themes have the same new themes below them. */
  lemma {:induction false} SamePaths(index: Index, a: seq<string>, b: seq<string>, seen: set<string>, d: nat)
    requires index.Valid() && Sift(a, seen) == Sift(b, seen) && ParentsIn(index, seen, seen + Names(a))
    ensures Sift(PathsFrom(index, a, 0, d), seen) == Sift(PathsFrom(index, b, 0, d), seen)
    decreases d
  {
    hide Index.Valid, AllParents, Names, Sift, ParentsIn;
    if d > 0 {
      var known := seen + Names(a);
      SiftNames(a, seen);
      SiftNames(b, seen);
      PathsStep(index, a, seen, d);
      PathsStep(index, b, seen, d);
      SiftedParents(index, a, seen, known);
      SiftedParents(index, b, seen, known);
      KnownParents(index, a, seen);
      SamePaths(index, AllParents(index, a), AllParents(index, b), known, d - 1);
    }
  }

  lemma SiftNames(s: seq<string>, seen: set<string>)
    ensures seen + Names(Sift(s, seen)) == seen + Names(s)
  {}

  lemma KnownParents(index: Index, layer: seq<string>, seen: set<string>)
    requires index.Valid() && ParentsIn(index, seen, seen + Names(layer))
    ensures ParentsIn(index, seen + Names(layer), seen + Names(layer) + Names(AllParents(index, layer)))
  {
    AllParentsHas(index, layer);
  }

  lemma LayersStep(index: Index, layer: seq<string>, seen: set<string>)
    requires index.Valid()
    ensures
      var unseen := Sift(layer, seen);
      Layers(index, layer, seen) ==
        if unseen == [] then [] else unseen + Layers(index, AllParents(index, unseen), seen + Names(unseen))
  {
    hide AllParents, Sift, Names, Index.Valid;
  }

  /** Themes are looked at in the order in which they first end a path along `Inherits`: shorter paths
      before longer ones, and of equal length those through parents listed earlier, first step first. */
  lemma {:induction false} LayersByPaths(index: Index, layer: seq<string>, seen: set<string>, d: nat)
    requires index.Valid() && ParentsIn(index, seen, seen + Names(layer))
    requires |index.Inherited() + Names(layer) - seen| < d
    ensures Layers(index, layer, seen) == Sift(PathsFrom(index, layer, 0, d), seen)
    decreases d
  {
    hide Index.Valid, AllParents, Sift, Names, Layers, ParentsIn, PathsFrom;
    var unseen := Sift(layer, seen);
    LayersStep(index, layer, seen);
    PathsStep(index, layer, seen, d);
    if unseen == [] {
      NothingNew(index, layer, seen, d - 1);
    } else {
      SiftNames(layer, seen);
      FewerLeft(index, layer, seen);
      BelowUnseen(index, layer, seen, d - 1);
      LayersByPaths(index, AllParents(index, unseen), seen + Names(layer), d - 1);
    }
  }

  /** Below a layer only what lies below its unseen themes is new. */
  lemma BelowUnseen(index: Index, layer: seq<string>, seen: set<string>, d: nat)
    requires index.Valid() && ParentsIn(index, seen, seen + Names(layer))
    ensures
      var known, below := seen + Names(layer), AllParents(index, Sift(layer, seen));
      && Sift(PathsFrom(index, AllParents(index, layer), 0, d), known) == Sift(PathsFrom(index, below, 0, d), known)
      && ParentsIn(index, known, known + Names(below))
  {
    hide Index.Valid, AllParents, Sift, Names, ParentsIn, PathsFrom;
    SiftNames(layer, seen);
    SiftedParents(index, layer, seen, seen + Names(layer));
    KnownParents(index, layer, seen);
    KnownParents(index, Sift(layer, seen), seen);
    SamePaths(index, AllParents(index, layer), AllParents(index, Sift(layer, seen)), seen + Names(layer), d);
  }

  lemma NothingNew(index: Index, layer: seq<string>, seen: set<string>, d: nat)
    requires index.Valid() && ParentsIn(index, seen, seen + Names(layer)) && Sift(layer, seen) == []
    ensures Sift(PathsFrom(index, AllParents(index, layer), 0, d), seen + Names(layer)) == []
  {
    hide Index.Valid, AllParents, ParentsIn, PathsFrom;
    SiftNames(layer, seen);
    assert seen + Names(layer) == seen;
    AllParentsWithin(index, layer, seen);
    NoNewPaths(index, AllParents(index, layer), seen, d);
  }

  lemma {:induction false} NoNewPaths(index: Index, layer: seq<string>, seen: set<string>, d: nat)
    requires index.Valid() && Names(layer) <= seen && ParentsIn(index, seen, seen)
    ensures Sift(PathsFrom(index, layer, 0, d), seen) == []
    decreases d
  {
    if d > 0 {
      assert seen + Names(layer) == seen;
      PathsStep(index, layer, seen, d);
      SiftNothing(layer, seen);
      AllParentsWithin(index, layer, seen);
      NoNewPaths(index, AllParents(index, layer), seen, d - 1);
    }
  }

  lemma AllParentsWithin(index: Index, layer: seq<string>, seen: set<string>)
    requires index.Valid() && Names(layer) <= seen && ParentsIn(index, seen, seen)
    ensures Names(AllParents(index, layer)) <= seen
  {
    forall p | p in AllParents(index, layer)
      ensures p in seen
    {
      AllParentsOf(index, layer, p);
      var t :| t in layer && p in index.Parents(t);
      assert t in Names(layer) && p in Names(index.Parents(t));
    }
  }

  /** When a theme reachable from the start has the cursor, the one it comes from is as few
      `Inherits` steps away as any that has it. */
  lemma NearestHolder(index: Index, cursor: string, start: string)
    requires index.Valid() && exists d: nat :: HeldWithin(index, cursor, start, d)
    ensures
      var answer := Answer(index, cursor, Order(index, start));
      && answer.Found?
      && exists d: nat :: answer.at.theme in Reach(index, start, d) && forall e: nat :: e < d ==> !HeldWithin(index, cursor, start, e)
  {
    hide Layers, Reach, FirstHolder, Sift, Order;
    var first := Layers(index, [start], {});
    var d: nat :| HeldWithin(index, cursor, start, d);
    RootAtDistance(index, start);
    LayersReachAll(index, start, [start], {}, 0, d);
    var k := FirstHolder(index, cursor, first);
    var t :| t in Reach(index, start, d) && index.Held(t, cursor).Some?;
    assert t in first;
    FirstAnswers(index, cursor, start);
    LayersNearest(index, start, [start], {}, 0, k);
    var e: nat :| NearestAt(index, start, first, {}, k, e);
    forall j: nat | j < e
      ensures !HeldWithin(index, cursor, start, j)
    {
      EarlierHoldNone(index, cursor, first, k);
    }
  }

  lemma EarlierHoldNone(index: Index, cursor: string, order: seq<string>, k: nat)
    requires index.Valid() && k == FirstHolder(index, cursor, order)
    ensures forall t :: t in Names(order[..k]) ==> index.Held(t, cursor).None?
  {
    forall t | t in Names(order[..k])
      ensures index.Held(t, cursor).None?
    {
      var i :| 0 <= i < k && order[..k][i] == t;
      assert order[i] == t;
    }
  }

  lemma RootAtDistance(index: Index, root: string)
    requires index.Valid()
    ensures AtDistance(index, root, [root], {}, 0)
  {}
}
