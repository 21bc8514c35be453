/** The single pass over the node ids by which BD1 and GDH2 nodes find their neighbours on the
    ring (crypto/bd1.h) and their position in the chain (crypto/gdh2_utils.h). */
module Neighbours {

  predicate Distinct(ids: seq<nat>) {
    forall x, y :: 0 <= x < y < |ids| ==> ids[x] != ids[y]
  }

  /** p is the greatest of ids below id, or, if there is none, the greatest of all. */
  ghost predicate IsPredecessor(ids: seq<nat>, id: nat, p: nat) {
    && p in ids
    && if exists x :: x in ids && x < id
       then p < id && forall x :: x in ids && x < id ==> x <= p
       else forall x :: x in ids ==> x <= p
  }

  /** p is the least of ids above id, or, if there is none, the least of all. */
  ghost predicate IsSuccessor(ids: seq<nat>, id: nat, p: nat) {
    && p in ids
    && if exists x :: x in ids && x > id
       then p > id && forall x :: x in ids && x > id ==> p <= x
       else forall x :: x in ids ==> p <= x
  }

  ghost predicate IsFirst(ids: seq<nat>, p: nat) {
    p in ids && forall x :: x in ids ==> p <= x
  }

  ghost predicate IsLast(ids: seq<nat>, p: nat) {
    p in ids && forall x :: x in ids ==> x <= p
  }

  /** How many of ids are below id. */
  function CountBelow(ids: seq<nat>, id: nat): nat {
    if ids == [] then 0 else CountBelow(ids[..|ids| - 1], id) + if ids[|ids| - 1] < id then 1 else 0
  }

  /** network_t of gdh2_utils.h, and with it _get_prev_next_nodes of bd1.h: the ids may come in
      any order. */
  method FindNeighbours(ids: seq<nat>, id: nat) returns (prev: nat, next: nat, first: nat, last: nat, pos: nat)
    requires id in ids
    ensures IsPredecessor(ids, id, prev) && IsSuccessor(ids, id, next)
    ensures IsFirst(ids, first) && IsLast(ids, last)
    ensures pos == CountBelow(ids, id) + 1
  {
    prev, next, first, last, pos := id, id, id, id, 1;
    var i := 0;
    while i < |ids|
      invariant 0 <= i <= |ids|
      invariant first in ids && first <= id && forall x :: x in ids[..i] ==> first <= x
      invariant last in ids && last >= id && forall x :: x in ids[..i] ==> x <= last
      invariant prev in ids && prev <= id && forall x :: x in ids[..i] && x < id ==> prev < id && x <= prev
      invariant next in ids && next >= id && forall x :: x in ids[..i] && x > id ==> next > id && next <= x
      invariant pos == CountBelow(ids[..i], id) + 1
    {
      var x := ids[i];
      assert ids[..i + 1] == ids[..i] + [x];
      if x < first { first := x; }
      if x > last { last := x; }
      if (prev == id || (prev < id && x > prev)) && x < id { prev := x; }
      if (next == id || (next >= id && x < next)) && x > id { next := x; }
      if x < id { pos := pos + 1; }
      i := i + 1;
    }
    assert ids[..|ids|] == ids;
    if prev == id { prev := last; }
    if next == id { next := first; }
  }

  predicate Ascending(s: seq<nat>) {
    forall x, y :: 0 <= x < y < |s| ==> s[x] < s[y]
  }

  /** In the ascending listing of the ids, the neighbours are one place down and up, cyclically,
      and pos is the 1-based place. */
  lemma RingPlaces(ids: seq<nat>, sorted: seq<nat>, k: nat, prev: nat, next: nat)
    requires Distinct(ids) && Ascending(sorted) && multiset(ids) == multiset(sorted) && k < |sorted|
    requires IsPredecessor(ids, sorted[k], prev) && IsSuccessor(ids, sorted[k], next)
    ensures prev == sorted[if k == 0 then |sorted| - 1 else k - 1]
    ensures next == sorted[if k + 1 == |sorted| then 0 else k + 1]
    ensures CountBelow(ids, sorted[k]) == k
  {
    hide *;
    SameMembers(ids, sorted);
    SamePredecessor(ids, sorted, sorted[k], prev);
    SameSuccessor(ids, sorted, sorted[k], next);
    PredecessorPlace(sorted, k, prev);
    SuccessorPlace(sorted, k, next);
    CountPermuted(ids, sorted, sorted[k]);
    CountAscending(sorted, |sorted|, k);
    assert sorted[..|sorted|] == sorted;
  }

  lemma SamePredecessor(s: seq<nat>, t: seq<nat>, id: nat, p: nat)
    requires (forall x :: x in s <==> x in t) && IsPredecessor(s, id, p)
    ensures IsPredecessor(t, id, p)
  {
  }

  lemma SameSuccessor(s: seq<nat>, t: seq<nat>, id: nat, p: nat)
    requires (forall x :: x in s <==> x in t) && IsSuccessor(s, id, p)
    ensures IsSuccessor(t, id, p)
  {
  }

  lemma PredecessorPlace(sorted: seq<nat>, k: nat, p: nat)
    requires Ascending(sorted) && k < |sorted| && IsPredecessor(sorted, sorted[k], p)
    ensures p == sorted[if k == 0 then |sorted| - 1 else k - 1]
  {
    var i :| 0 <= i < |sorted| && sorted[i] == p;
    assert sorted[|sorted| - 1] in sorted;
    if k > 0 {
      assert sorted[k - 1] in sorted && sorted[k - 1] < sorted[k];
    } else {
      forall x | x in sorted ensures x >= sorted[0] { var l :| 0 <= l < |sorted| && sorted[l] == x; }
    }
  }

  lemma SuccessorPlace(sorted: seq<nat>, k: nat, p: nat)
    requires Ascending(sorted) && k < |sorted| && IsSuccessor(sorted, sorted[k], p)
    ensures p == sorted[if k + 1 == |sorted| then 0 else k + 1]
  {
    var i :| 0 <= i < |sorted| && sorted[i] == p;
    assert sorted[0] in sorted;
    if k + 1 < |sorted| {
      assert sorted[k + 1] in sorted && sorted[k + 1] > sorted[k];
    } else {
      forall x | x in sorted ensures x <= sorted[k] { var l :| 0 <= l < |sorted| && sorted[l] == x; }
    }
  }

  lemma SameMembers(s: seq<nat>, t: seq<nat>)
    requires multiset(s) == multiset(t)
    ensures forall x :: x in s <==> x in t
  {
    forall x ensures x in s <==> x in t {
      assert x in s <==> x in multiset(s);
      assert x in t <==> x in multiset(t);
    }
  }

  lemma {:induction false} CountAscending(s: seq<nat>, n: nat, k: nat)
    requires Ascending(s) && k < |s| && n <= |s|
    ensures CountBelow(s[..n], s[k]) == if n <= k then n else k
  {
    if n > 0 {
      CountAscending(s, n - 1, k);
      assert s[..n][..n - 1] == s[..n - 1];
    }
  }

  lemma {:induction false} CountRemove(s: seq<nat>, i: nat, id: nat)
    requires i < |s|
    ensures CountBelow(s, id) == CountBelow(s[..i] + s[i + 1..], id) + if s[i] < id then 1 else 0
    decreases |s|
  {
    var n := |s| - 1;
    if i == n {
      assert s[..i] + s[i + 1..] == s[..n];
    } else {
      CountRemove(s[..n], i, id);
      var w := s[..i] + s[i + 1..];
      assert w[..|w| - 1] == s[..n][..i] + s[..n][i + 1..] && w[|w| - 1] == s[n];
    }
  }

  lemma RemoveOne(s: seq<nat>, i: nat)
    requires i < |s|
    ensures multiset(s[..i] + s[i + 1..]) == multiset(s) - multiset{s[i]}
  {
    assert s == s[..i] + [s[i]] + s[i + 1..];
  }

  lemma {:induction false} CountPermuted(s: seq<nat>, t: seq<nat>, id: nat)
    requires multiset(s) == multiset(t)
    ensures CountBelow(s, id) == CountBelow(t, id)
    decreases |s|
  {
    if s == [] {
      assert |multiset(t)| == 0;
    } else {
      var n := |s| - 1;
      assert s[n] in multiset(t);
      var i :| 0 <= i < |t| && t[i] == s[n];
      CountRemove(t, i, id);
      RemoveOne(s, n);
      RemoveOne(t, i);
      assert s[..n] + s[n + 1..] == s[..n];
      CountPermuted(s[..n], t[..i] + t[i + 1..], id);
    }
  }
}
