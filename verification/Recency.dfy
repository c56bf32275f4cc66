/** Least-recently-used order, as a function of the whole history of uses. */
module Recency {

  /** Every element but `k`, in order. */
  function Without<K(==, !new)>(s: seq<K>, k: K): (r: seq<K>)
    ensures k !in r && forall x :: x in r <==> x in s && x != k
    ensures |r| <= |s|
  {
    if s == [] then []
    else if s[0] == k then Without(s[1..], k)
    else [s[0]] + Without(s[1..], k)
  }

  /** The last `n` elements, or all of them. */
  function LastN<K(!new)>(n: nat, s: seq<K>): (r: seq<K>)
    ensures |r| == if |s| < n then |s| else n
    ensures forall x :: x in r ==> x in s
  {
    if |s| < n then s else s[|s| - n..]
  }

  /** The distinct keys of a history, least recently used first. */
  function ByRecency<K(==, !new)>(uses: seq<K>): (r: seq<K>)
    ensures forall x :: x in r <==> x in uses
  {
    if uses == [] then []
    else
      var before, last := uses[..|uses| - 1], uses[|uses| - 1];
      assert uses == before + [last];
      Without(ByRecency(before), last) + [last]
  }

  ghost predicate Distinct<K(!new)>(s: seq<K>) {
    forall i, j :: 0 <= i < j < |s| ==> s[i] != s[j]
  }

  lemma {:induction false} WithoutAppend<K(!new)>(a: seq<K>, b: seq<K>, k: K)
    ensures Without(a + b, k) == Without(a, k) + Without(b, k)
  {
    if a == [] {
      assert a + b == b;
    } else {
      assert (a + b)[1..] == a[1..] + b;
      WithoutAppend(a[1..], b, k);
    }
  }

  lemma {:induction false} WithoutAbsent<K(!new)>(s: seq<K>, k: K)
    requires k !in s
    ensures Without(s, k) == s
  {
    if s != [] {
      WithoutAbsent(s[1..], k);
    }
  }

  lemma {:induction false} WithoutDistinct<K(!new)>(s: seq<K>, k: K)
    requires Distinct(s)
    ensures Distinct(Without(s, k))
    ensures |Without(s, k)| == |s| - if k in s then 1 else 0
  {
    if s != [] {
      WithoutDistinct(s[1..], k);
      assert s == [s[0]] + s[1..];
      if s[0] == k {
        WithoutAbsent(s[1..], k);
      } else {
        DistinctCons(s[0], Without(s[1..], k));
      }
    }
  }

  lemma DistinctCons<K(!new)>(x: K, s: seq<K>)
    requires Distinct(s) && x !in s
    ensures Distinct([x] + s)
  {}

  lemma {:induction false} RecencyDistinct<K(!new)>(uses: seq<K>)
    ensures Distinct(ByRecency(uses))
  {
    if uses != [] {
      var before := uses[..|uses| - 1];
      RecencyDistinct(before);
      WithoutDistinct(ByRecency(before), uses[|uses| - 1]);
    }
  }

  lemma RecencyUse<K(!new)>(uses: seq<K>, k: K)
    ensures ByRecency(uses + [k]) == Without(ByRecency(uses), k) + [k]
  {
    assert (uses + [k])[..|uses|] == uses;
  }

  lemma LastSplit<K(!new)>(n: nat, s: seq<K>) returns (older: seq<K>)
    ensures s == older + LastN(n, s)
    ensures older != [] ==> |LastN(n, s)| == n
  {
    older := s[..|s| - |LastN(n, s)|];
  }

  /** A hit moves the key to the end of what is kept. */
  lemma HitStep<K(!new)>(n: nat, uses: seq<K>, k: K)
    requires k in LastN(n, ByRecency(uses))
    ensures LastN(n, ByRecency(uses + [k])) == Without(LastN(n, ByRecency(uses)), k) + [k]
  {
    hide ByRecency, Without, Distinct;
    var all := ByRecency(uses);
    var kept := LastN(n, all);
    RecencyDistinct(uses);
    var older := LastSplit(n, all);
    DistinctParts(older, kept);
    RecencyUse(uses, k);
    WithoutAppend(older, kept, k);
    WithoutAbsent(older, k);
    WithoutDistinct(kept, k);
    assert ByRecency(uses + [k]) == older + (Without(kept, k) + [k]);
    LastOfAppend(n, older, Without(kept, k) + [k]);
  }

  lemma DistinctParts<K(!new)>(a: seq<K>, b: seq<K>)
    requires Distinct(a + b)
    ensures Distinct(a) && Distinct(b) && forall x :: x in b ==> x !in a
  {
    forall i, j | 0 <= i < j < |a|
      ensures a[i] != a[j]
    {
      assert (a + b)[i] != (a + b)[j];
    }
    forall i, j | 0 <= i < j < |b|
      ensures b[i] != b[j]
    {
      assert (a + b)[|a| + i] != (a + b)[|a| + j];
    }
    forall i, j | 0 <= i < |a| && 0 <= j < |b|
      ensures a[i] != b[j]
    {
      assert (a + b)[i] != (a + b)[|a| + j];
    }
  }

  lemma LastOfAppend<K(!new)>(n: nat, a: seq<K>, b: seq<K>)
    requires |b| == n || (a == [] && |b| <= n)
    ensures LastN(n, a + b) == b
  {}

  /** A miss appends the key, and drops the oldest when there is no room. */
  lemma MissStep<K(!new)>(n: nat, uses: seq<K>, k: K)
    requires n > 0 && k !in LastN(n, ByRecency(uses))
    ensures
      var kept := LastN(n, ByRecency(uses));
      LastN(n, ByRecency(uses + [k])) == (if |kept| < n then kept else kept[1..]) + [k]
  {
    hide ByRecency, Without;
    var all := ByRecency(uses);
    var kept := LastN(n, all);
    var older := LastSplit(n, all);
    RecencyUse(uses, k);
    WithoutAppend(older, kept, k);
    WithoutAbsent(kept, k);
    if |kept| < n {
      WithoutNone(k);
      LastOfAppend(n, older, kept + [k]);
      assert older + (kept + [k]) == kept + [k];
    } else {
      var w := Without(older, k);
      assert (w + kept) + [k] == (w + [kept[0]]) + (kept[1..] + [k]);
      LastOfAppend(n, w + [kept[0]], kept[1..] + [k]);
    }
  }

  lemma WithoutNone<K(!new)>(k: K)
    ensures Without([], k) == []
  {}

  // ----- What the order means

  /** The keys used since `k` last was. */
  function KeysSince<K(==, !new)>(uses: seq<K>, k: K): set<K> {
    if uses == [] || uses[|uses| - 1] == k then {}
    else KeysSince(uses[..|uses| - 1], k) + {uses[|uses| - 1]}
  }

  /** In recency order, what follows a key is exactly what was used since. */
  lemma {:induction false} AfterIsSince<K(!new)>(uses: seq<K>, k: K) returns (before: seq<K>, after: seq<K>)
    requires k in uses
    ensures ByRecency(uses) == before + [k] + after
    ensures forall x :: x in after <==> x in KeysSince(uses, k)
  {
    hide ByRecency, Without;
    var init, last := uses[..|uses| - 1], uses[|uses| - 1];
    assert uses == init + [last];
    if last == k {
      RecencyUse(init, k);
      before, after := Without(ByRecency(init), k), [];
    } else {
      var b, a := AfterIsSince(init, k);
      RecencyUse(init, last);
      WithoutAppend(b + [k], a, last);
      WithoutAppend(b, [k], last);
      WithoutAbsent([k], last);
      before, after := Without(b, last), Without(a, last) + [last];
    }
  }

  lemma {:induction false} DistinctSize<K(!new)>(s: seq<K>, elements: set<K>)
    requires Distinct(s) && forall x :: x in s <==> x in elements
    ensures |s| == |elements|
  {
    if s == [] {
      assert elements == {};
    } else {
      var rest := s[1..];
      assert s == [s[0]] + rest;
      DistinctSize(rest, elements - {s[0]});
    }
  }

  /** A key is among the last `n` exactly when it has been used and fewer than `n` other keys
      have been used since. */
  lemma KeptIffRecent<K(!new)>(n: nat, uses: seq<K>, k: K)
    ensures k in LastN(n, ByRecency(uses)) <==> k in uses && |KeysSince(uses, k)| < n
  {
    var all := ByRecency(uses);
    if k in uses {
      var before, after := AfterIsSince(uses, k);
      RecencyDistinct(uses);
      DistinctParts(before + [k], after);
      DistinctSize(after, KeysSince(uses, k));
      assert all[|before|] == k;
      if |after| < n {
        var at := |before| - (|all| - |LastN(n, all)|);
        assert LastN(n, all)[at] == k;
      } else {
        var older := LastSplit(n, all);
        DistinctParts(older, LastN(n, all));
        assert older[|before|] == k;
      }
    }
  }

  /** A larger cache holds everything a smaller one does. */
  lemma LargerHoldsMore<K(!new)>(small: nat, large: nat, uses: seq<K>, k: K)
    requires small <= large && k in LastN(small, ByRecency(uses))
    ensures k in LastN(large, ByRecency(uses))
  {
    KeptIffRecent(small, uses, k);
    KeptIffRecent(large, uses, k);
  }
}
