/** Overlay planes claimed for decorations, for every CRTC its own. */
module Reservations {
  import opened Options

  datatype Plane = Plane(id: nat, crtcs: set<nat>, overlay: bool, linear: set<nat>, zpos: Option<nat>)

  /** A plane that would do, by its place in the stack. */
  datatype Candidate = Candidate(zpos: nat, id: nat)

  datatype Request = Request(crtc: nat, fourcc: nat, count: nat, minZpos: nat)

  datatype Outcome = Claimed(planes: seq<nat>) | Shortfall(crtc: nat, wanted: nat, found: nat)

  type Claims = map<nat, seq<nat>>

  function Ids(candidates: seq<Candidate>): (ids: seq<nat>)
    ensures |ids| == |candidates|
  {
    seq(|candidates|, i requires 0 <= i < |candidates| => candidates[i].id)
  }

  /** A plane without a zpos is shown to sit above nothing, so it does only where nothing was
      asked. */
  predicate Suits(p: Plane, r: Request, taken: set<nat>) {
    && r.crtc in p.crtcs && p.overlay && r.fourcc in p.linear && p.id !in taken
    && if p.zpos.None? then r.minZpos == 0 else p.zpos.value >= r.minZpos
  }

  function AsCandidate(p: Plane): Candidate {
    Candidate(if p.zpos.None? then 0 else p.zpos.value, p.id)
  }

  /** The planes of a registry that would do, in its order. */
  function Candidates(registry: seq<Plane>, r: Request, taken: set<nat>): seq<Candidate> {
    if registry == [] then [] else
      var last := registry[|registry| - 1];
      var before := Candidates(registry[..|registry| - 1], r, taken);
      if Suits(last, r, taken) then before + [AsCandidate(last)] else before
  }

  predicate Before(a: Candidate, b: Candidate) {
    a.zpos < b.zpos || (a.zpos == b.zpos && a.id <= b.id)
  }

  predicate Ascending(s: seq<Candidate>) {
    forall i, j :: 0 <= i < j < |s| ==> Before(s[i], s[j])
  }

  /** The same candidates, least first. */
  ghost predicate SortedFrom(s: seq<Candidate>, candidates: seq<Candidate>) {
    Ascending(s) && multiset(s) == multiset(candidates)
  }

  lemma {:induction false} SortedUnique(s: seq<Candidate>, t: seq<Candidate>)
    requires Ascending(s) && Ascending(t) && multiset(s) == multiset(t)
    ensures s == t
  {
    hide Ascending;
    if s == [] {
      assert |multiset(t)| == 0;
    } else {
      SameFirst(s, t);
      TailOf(s);
      TailOf(t);
      SortedUnique(s[1..], t[1..]);
    }
  }

  lemma TailOf(s: seq<Candidate>)
    requires s != [] && Ascending(s)
    ensures s == [s[0]] + s[1..] && Ascending(s[1..]) && multiset(s[1..]) == multiset(s) - multiset{s[0]}
  {
    assert s == [s[0]] + s[1..];
  }

  lemma SameFirst(s: seq<Candidate>, t: seq<Candidate>)
    requires Ascending(s) && Ascending(t) && multiset(s) == multiset(t) && s != []
    ensures t != [] && s[0] == t[0]
  {
    assert s[0] in multiset(t);
    assert t[0] in multiset(s);
    var i :| 0 <= i < |t| && t[i] == s[0];
    var j :| 0 <= j < |s| && s[j] == t[0];
  }

  /** The planes all CRTCs hold. */
  ghost function Union(claims: Claims): set<nat> {
    set c, p | c in claims && p in claims[c] :: p
  }

  /** The planes other CRTCs hold. */
  ghost function HeldByOthers(claims: Claims, crtc: nat): set<nat> {
    Union(claims - {crtc})
  }

  /** What a reservation does to the claims, and what it answers. */
  ghost predicate Reserves(registry: seq<Plane>, r: Request, before: Claims, after: Claims, outcome: Outcome) {
    var candidates := Candidates(registry, r, HeldByOthers(before, r.crtc));
    if r.count == 0 then outcome == Claimed([]) && after == if r.crtc in before then before else before[r.crtc := []]
    else if |candidates| < r.count then outcome == Shortfall(r.crtc, r.count, |candidates|) && after == before - {r.crtc}
    else
      && outcome.Claimed? && after == before[r.crtc := outcome.planes]
      && Least(outcome.planes, candidates, r.count)
  }

  /** The ids of the `count` least candidates, least first. */
  ghost predicate Least(planes: seq<nat>, candidates: seq<Candidate>, count: nat) {
    exists s: seq<Candidate> :: SortedFrom(s, candidates) && count <= |s| && planes == Ids(s[..count])
  }

  lemma LeastUnique(p: seq<nat>, q: seq<nat>, candidates: seq<Candidate>, count: nat)
    requires Least(p, candidates, count) && Least(q, candidates, count)
    ensures p == q
  {
    var s: seq<Candidate> :| SortedFrom(s, candidates) && count <= |s| && p == Ids(s[..count]);
    var t: seq<Candidate> :| SortedFrom(t, candidates) && count <= |t| && q == Ids(t[..count]);
    SortedUnique(s, t);
  }

  /** Asking again for the same gives the same planes and changes nothing. */
  lemma RepeatChangesNothing(registry: seq<Plane>, r: Request, c0: Claims, c1: Claims, c2: Claims, first: Outcome, second: Outcome)
    requires Reserves(registry, r, c0, c1, first) && Reserves(registry, r, c1, c2, second) && first.Claimed?
    ensures second == first && c2 == c1
  {
    hide Least, Candidates;
    if r.count > 0 {
      assert c1 - {r.crtc} == c0 - {r.crtc};
      LeastUnique(first.planes, second.planes, Candidates(registry, r, HeldByOthers(c0, r.crtc)), r.count);
      assert c1[r.crtc := second.planes] == c1;
    }
  }

  /** No plane has two holders. */
  ghost predicate Exclusive(claims: Claims) {
    forall c, d, p :: c in claims && d in claims && c != d && p in claims[c] ==> p !in claims[d]
  }

  ghost predicate UniqueIds(registry: seq<Plane>) {
    forall i, j :: 0 <= i < j < |registry| ==> registry[i].id != registry[j].id
  }

  lemma {:induction false} CandidatesFree(registry: seq<Plane>, r: Request, taken: set<nat>)
    ensures forall c :: c in Candidates(registry, r, taken) ==> c.id !in taken
  {
    if registry != [] {
      CandidatesFree(registry[..|registry| - 1], r, taken);
    }
  }

  /** No plane another CRTC holds is claimed. */
  lemma LeastFree(planes: seq<nat>, registry: seq<Plane>, r: Request, taken: set<nat>)
    requires Least(planes, Candidates(registry, r, taken), r.count)
    ensures forall p :: p in planes ==> p !in taken
  {
    hide Candidates;
    var candidates := Candidates(registry, r, taken);
    CandidatesFree(registry, r, taken);
    var s: seq<Candidate> :| SortedFrom(s, candidates) && r.count <= |s| && planes == Ids(s[..r.count]);
    forall p | p in planes
      ensures p !in taken
    {
      var i :| 0 <= i < |planes| && planes[i] == p;
      InSorted(s, candidates, i);
    }
  }

  lemma {:induction false} CandidatesFrom(registry: seq<Plane>, r: Request, taken: set<nat>)
    requires UniqueIds(registry)
    ensures
      var candidates := Candidates(registry, r, taken);
      && (forall c :: c in candidates ==> exists i :: 0 <= i < |registry| && registry[i].id == c.id)
      && forall i, j :: 0 <= i < j < |candidates| ==> candidates[i].id != candidates[j].id
  {
    if registry != [] {
      var init := registry[..|registry| - 1];
      assert UniqueIds(init);
      CandidatesFrom(init, r, taken);
      forall c | c in Candidates(init, r, taken)
        ensures c.id != registry[|init|].id && exists i :: 0 <= i < |registry| && registry[i].id == c.id
      {
        var i :| 0 <= i < |init| && init[i].id == c.id;
        assert registry[i].id == c.id;
      }
      assert registry[|init|].id == AsCandidate(registry[|init|]).id;
    }
  }

  /** A registry that lists every plane once has none claimed twice. */
  lemma LeastDistinct(planes: seq<nat>, registry: seq<Plane>, r: Request, taken: set<nat>)
    requires UniqueIds(registry) && Least(planes, Candidates(registry, r, taken), r.count)
    ensures forall i, j :: 0 <= i < j < |planes| ==> planes[i] != planes[j]
  {
    var candidates := Candidates(registry, r, taken);
    CandidatesFrom(registry, r, taken);
    var s: seq<Candidate> :| SortedFrom(s, candidates) && r.count <= |s| && planes == Ids(s[..r.count]);
    DistinctIds(s, candidates);
  }

  lemma {:induction false} CandidateSuits(registry: seq<Plane>, r: Request, taken: set<nat>, c: Candidate)
    requires c in Candidates(registry, r, taken)
    ensures exists i :: 0 <= i < |registry| && Suits(registry[i], r, taken) && c == AsCandidate(registry[i])
  {
    hide Suits, AsCandidate;
    var last := registry[|registry| - 1];
    if !Suits(last, r, taken) || c != AsCandidate(last) {
      CandidateSuits(registry[..|registry| - 1], r, taken, c);
      var i :| 0 <= i < |registry| - 1 && Suits(registry[..|registry| - 1][i], r, taken) && c == AsCandidate(registry[..|registry| - 1][i]);
      assert registry[i] == registry[..|registry| - 1][i];
    }
  }

  /** Every plane claimed is an overlay of the CRTC that takes the format, stacks where asked, and
      that no other CRTC holds. */
  lemma ClaimedSuit(registry: seq<Plane>, r: Request, before: Claims, after: Claims, outcome: Outcome, id: nat)
    requires Reserves(registry, r, before, after, outcome) && outcome.Claimed? && id in outcome.planes
    ensures exists p ::
      && p in registry && p.id == id
      && p.overlay && r.crtc in p.crtcs && r.fourcc in p.linear
      && (r.minZpos > 0 ==> p.zpos.Some?) && (p.zpos.Some? ==> p.zpos.value >= r.minZpos)
      && forall c :: c in before && c != r.crtc ==> p.id !in before[c]
  {
    hide Candidates, SortedFrom;
    var candidates := Candidates(registry, r, HeldByOthers(before, r.crtc));
    var s: seq<Candidate> :| SortedFrom(s, candidates) && r.count <= |s| && outcome.planes == Ids(s[..r.count]);
    var i :| 0 <= i < |outcome.planes| && outcome.planes[i] == id;
    InSorted(s, candidates, i);
    CandidateSuits(registry, r, HeldByOthers(before, r.crtc), s[i]);
    var k :| 0 <= k < |registry| && Suits(registry[k], r, HeldByOthers(before, r.crtc)) && s[i] == AsCandidate(registry[k]);
    NotHeld(before, r.crtc, id);
    assert registry[k] in registry;
  }

  lemma NotHeld(claims: Claims, crtc: nat, id: nat)
    ensures id !in HeldByOthers(claims, crtc) <==> forall c :: c in claims && c != crtc ==> id !in claims[c]
  {
    var others := claims - {crtc};
    forall c | c in claims && c != crtc
      ensures c in others && others[c] == claims[c]
    {}
    forall c | c in others
      ensures c in claims && c != crtc && others[c] == claims[c]
    {}
    assert id in Union(others) <==> exists c :: c in others && id in others[c];
  }

  lemma InSorted(s: seq<Candidate>, candidates: seq<Candidate>, i: nat)
    requires SortedFrom(s, candidates) && i < |s|
    ensures s[i] in candidates
  {
    assert s[i] in multiset(s);
  }

  lemma DistinctIds(s: seq<Candidate>, candidates: seq<Candidate>)
    requires multiset(s) == multiset(candidates)
    requires forall i, j :: 0 <= i < j < |candidates| ==> candidates[i].id != candidates[j].id
    ensures forall i, j :: 0 <= i < j < |s| ==> s[i].id != s[j].id
  {
    forall i, j | 0 <= i < j < |s|
      ensures s[i].id != s[j].id
    {
      if s[i] == s[j] {
        Twice(s, i, j);
        AtMostOnce(candidates, s[i]);
      } else {
        assert s[i] in multiset(s) && s[j] in multiset(s);
        var k :| 0 <= k < |candidates| && candidates[k] == s[i];
        var l :| 0 <= l < |candidates| && candidates[l] == s[j];
      }
    }
  }

  lemma Twice(s: seq<Candidate>, i: nat, j: nat)
    requires i < j < |s| && s[i] == s[j]
    ensures multiset(s)[s[i]] >= 2
  {
    assert s == s[..j] + [s[j]] + s[j + 1..];
    assert s[i] in s[..j];
  }

  lemma {:induction false} AtMostOnce(s: seq<Candidate>, c: Candidate)
    requires forall i, j :: 0 <= i < j < |s| ==> s[i].id != s[j].id
    ensures multiset(s)[c] <= 1
  {
    if s != [] {
      AtMostOnce(s[1..], c);
      assert s == [s[0]] + s[1..];
      if s[0] == c {
        assert c !in s[1..];
      }
    }
  }

  lemma LeftOut(planes: seq<nat>, s: seq<Candidate>, count: nat, k: nat)
    requires count <= |s| && planes == Ids(s[..count]) && k < |s|
    ensures k < count ==> s[k].id in planes
  {
    if k < count {
      assert planes[k] == s[k].id;
    }
  }

  /** Every claim is of the least planes on offer: one left unclaimed comes after them all. */
  lemma UnclaimedComesLater(planes: seq<nat>, candidates: seq<Candidate>, count: nat, left: Candidate)
    requires Least(planes, candidates, count) && left in candidates && left.id !in planes
    ensures |planes| == count
    ensures forall p :: p in planes ==> exists c :: c in candidates && c.id == p && Before(c, left)
  {
    var s: seq<Candidate> :| SortedFrom(s, candidates) && count <= |s| && planes == Ids(s[..count]);
    assert left in multiset(s);
    var k :| 0 <= k < |s| && s[k] == left;
    LeftOut(planes, s, count, k);
    forall p | p in planes
      ensures exists c :: c in candidates && c.id == p && Before(c, left)
    {
      var i :| 0 <= i < |planes| && planes[i] == p;
      assert s[i] in multiset(candidates);
    }
  }

  /** Lower in the stack, or as low with no greater id; a plane without a zpos is as low as any. */
  predicate LiesBelow(q: Plane, p: Plane) {
    match (q.zpos, p.zpos)
    case (None, None) => q.id <= p.id
    case (None, Some(z)) => z > 0 || q.id <= p.id
    case (Some(z), None) => z == 0 && q.id <= p.id
    case (Some(y), Some(z)) => y < z || (y == z && q.id <= p.id)
  }

  lemma {:induction false} SuitableOffered(registry: seq<Plane>, r: Request, taken: set<nat>, p: Plane)
    requires p in registry && Suits(p, r, taken)
    ensures AsCandidate(p) in Candidates(registry, r, taken)
  {
    hide Suits, AsCandidate;
    var init, last := registry[..|registry| - 1], registry[|registry| - 1];
    if p != last {
      assert p in init;
      SuitableOffered(init, r, taken, p);
    }
  }

  /** Every plane claimed lies below every plane that would have done and was not. */
  lemma ClaimsLieBelow(registry: seq<Plane>, r: Request, before: Claims, after: Claims, outcome: Outcome, id: nat, left: Plane)
    requires Reserves(registry, r, before, after, outcome) && outcome.Claimed? && id in outcome.planes
    requires left in registry && left.overlay && r.crtc in left.crtcs && r.fourcc in left.linear && left.id !in outcome.planes
    requires (r.minZpos > 0 ==> left.zpos.Some?) && (left.zpos.Some? ==> left.zpos.value >= r.minZpos)
    requires forall c :: c in before && c != r.crtc ==> left.id !in before[c]
    ensures exists q :: q in registry && q.id == id && LiesBelow(q, left)
  {
    hide Candidates, SortedFrom, Least, LiesBelow;
    var taken := HeldByOthers(before, r.crtc);
    var candidates := Candidates(registry, r, taken);
    NotHeld(before, r.crtc, left.id);
    SuitableOffered(registry, r, taken, left);
    UnclaimedComesLater(outcome.planes, candidates, r.count, AsCandidate(left));
    var c :| c in candidates && c.id == id && Before(c, AsCandidate(left));
    CandidateSuits(registry, r, taken, c);
    var i :| 0 <= i < |registry| && Suits(registry[i], r, taken) && c == AsCandidate(registry[i]);
    BeforeIsBelow(registry[i], left);
  }

  lemma BeforeIsBelow(q: Plane, p: Plane)
    ensures Before(AsCandidate(q), AsCandidate(p)) <==> LiesBelow(q, p)
  {}

  class OverlayReservation {
    var byCrtc: Claims
    var all: set<nat>

    /** Claims are exclusive, and `all` is their union. */
    ghost predicate Valid()
      reads this
    {
      Exclusive(byCrtc) && all == Union(byCrtc)
    }

    constructor ()
      ensures Valid() && byCrtc == map[] && all == {}
    {
      byCrtc, all := map[], {};
    }

    /** Give back everything a CRTC holds. */
    method Release(crtc: nat)
      requires Valid()
      modifies this
      ensures Valid() && byCrtc == old(byCrtc) - {crtc} && all == HeldByOthers(old(byCrtc), crtc)
    {
      ReleaseKeeps(byCrtc, crtc);
      if crtc in byCrtc {
        var planes := byCrtc[crtc];
        byCrtc := byCrtc - {crtc};
        for i := 0 to |planes|
          modifies this`all
          invariant all == old(all) - Members(planes[..i])
        {
          all := all - {planes[i]};
        }
        assert planes[..|planes|] == planes;
      }
    }

    /** Claim the `count` least planes that would do, the CRTC's earlier claim given back first.
        When there are too few, nothing is claimed. */
    method Reserve(registry: seq<Plane>, r: Request) returns (outcome: Outcome)
      requires Valid()
      modifies this
      ensures Valid() && Reserves(registry, r, old(byCrtc), byCrtc, outcome)
    {
      hide Candidates, Least, Ascending, Exclusive, Union, HeldByOthers;
      if r.count == 0 {
        if r.crtc !in byCrtc {
          NoClaim(byCrtc, r.crtc);
          byCrtc := byCrtc[r.crtc := []];
        }
        return Claimed([]);
      }
      Release(r.crtc);
      var candidates := Offer(registry, r, all);
      if |candidates| < r.count {
        return Shortfall(r.crtc, r.count, |candidates|);
      }
      var sorted := Sort(candidates);
      SortedSize(sorted, candidates);
      var claimed := Ids(sorted[..r.count]);
      IsLeast(claimed, sorted, candidates, r.count);
      NewClaim(registry, r, old(byCrtc), byCrtc, all, claimed);
      all := all + Members(claimed);
      byCrtc := byCrtc[r.crtc := claimed];
      outcome := Claimed(claimed);
    }
  }

  function Members(s: seq<nat>): set<nat> {
    set p | p in s
  }

  lemma ReleaseKeeps(claims: Claims, crtc: nat)
    requires Exclusive(claims)
    ensures Exclusive(claims - {crtc})
    ensures Union(claims - {crtc}) == Union(claims) - (if crtc in claims then Members(claims[crtc]) else {})
  {
    var held := if crtc in claims then Members(claims[crtc]) else {};
    forall p
      ensures p in Union(claims - {crtc}) <==> p in Union(claims) - held
    {
      if p in Union(claims) - held {
        var c :| c in claims && p in claims[c];
        assert c in claims - {crtc} && p in (claims - {crtc})[c];
      }
      if p in Union(claims - {crtc}) {
        var c :| c in claims - {crtc} && p in (claims - {crtc})[c];
        assert p in claims[c];
      }
    }
  }

  lemma NoClaim(claims: Claims, crtc: nat)
    requires crtc !in claims && Exclusive(claims)
    ensures Exclusive(claims[crtc := []]) && Union(claims[crtc := []]) == Union(claims)
  {
    var after := claims[crtc := []];
    forall p
      ensures p in Union(after) <==> p in Union(claims)
    {
      if p in Union(claims) {
        var c :| c in claims && p in claims[c];
        assert c in after && p in after[c];
      }
    }
  }

  lemma SortedSize(s: seq<Candidate>, candidates: seq<Candidate>)
    requires SortedFrom(s, candidates)
    ensures |s| == |candidates|
  {
    assert |multiset(s)| == |multiset(candidates)|;
  }

  lemma IsLeast(claimed: seq<nat>, s: seq<Candidate>, candidates: seq<Candidate>, count: nat)
    requires SortedFrom(s, candidates) && count <= |s| && claimed == Ids(s[..count])
    ensures Least(claimed, candidates, count)
  {}

  lemma NewClaim(registry: seq<Plane>, r: Request, before: Claims, others: Claims, all: set<nat>, claimed: seq<nat>)
    requires Exclusive(others) && all == Union(others) == HeldByOthers(before, r.crtc) && others == before - {r.crtc}
    requires Least(claimed, Candidates(registry, r, all), r.count)
    ensures Exclusive(others[r.crtc := claimed]) && Union(others[r.crtc := claimed]) == all + Members(claimed)
    ensures others[r.crtc := claimed] == before[r.crtc := claimed]
  {
    hide Least, Candidates;
    LeastFree(claimed, registry, r, all);
    var after := others[r.crtc := claimed];
    forall c, p | c in others && p in others[c]
      ensures p !in claimed
    {
      assert p in Union(others);
    }
    forall p
      ensures p in Union(after) <==> p in all + Members(claimed)
    {
      if p in all {
        var c :| c in others && p in others[c];
        assert c in after && p in after[c];
      } else if p in Members(claimed) {
        assert p in after[r.crtc];
      }
    }
  }

  method Offer(registry: seq<Plane>, r: Request, taken: set<nat>) returns (candidates: seq<Candidate>)
    ensures candidates == Candidates(registry, r, taken)
  {
    candidates := [];
    for i := 0 to |registry|
      invariant candidates == Candidates(registry[..i], r, taken)
    {
      assert registry[..i + 1][..i] == registry[..i];
      if Suits(registry[i], r, taken) {
        candidates := candidates + [AsCandidate(registry[i])];
      }
    }
    assert registry[..|registry|] == registry;
  }

  /** Sort by zpos, then by id. */
  method Sort(candidates: seq<Candidate>) returns (s: seq<Candidate>)
    ensures SortedFrom(s, candidates)
  {
    s := [];
    for i := 0 to |candidates|
      invariant SortedFrom(s, candidates[..i])
    {
      assert candidates[..i + 1] == candidates[..i] + [candidates[i]];
      s := Insert(s, candidates[i]);
    }
    assert candidates[..|candidates|] == candidates;
  }

  method Insert(s: seq<Candidate>, c: Candidate) returns (t: seq<Candidate>)
    requires Ascending(s)
    ensures Ascending(t) && multiset(t) == multiset(s) + multiset{c}
  {
    hide Ascending;
    var k := |s|;
    while k > 0 && !Before(s[k - 1], c)
      invariant 0 <= k <= |s| && forall j :: k <= j < |s| ==> Before(c, s[j])
    {
      k := k - 1;
    }
    t := s[..k] + [c] + s[k..];
    assert s == s[..k] + s[k..];
    Inserted(s, c, k);
  }

  lemma Inserted(s: seq<Candidate>, c: Candidate, k: nat)
    requires Ascending(s) && k <= |s| && (k > 0 ==> Before(s[k - 1], c)) && forall j :: k <= j < |s| ==> Before(c, s[j])
    ensures Ascending(s[..k] + [c] + s[k..])
  {
    forall j: nat | j < k
      ensures Before(s[j], c)
    {}
  }
}
