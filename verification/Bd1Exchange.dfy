/** BD1KeyExchange of crypto/bd1.h: collecting the neighbours' points and everybody's values, and
    putting the values in the order of the ring. */
module Bd1Exchange {
  import opened Bignum
  import opened Groups
  import opened CombMul
  import opened Ecp
  import opened Bd1
  import opened Bd1Ring
  import opened Neighbours

  const CMD_BD1_Zi := 0x20
  const CMD_BD1_Xi := 0x21

  datatype Option<+T> = None | Some(value: T)

  /** A packet; data is None when its size is not that of a point. */
  datatype Packet<+P> = Packet(cmd: nat, src: nat, data: Option<P>)

  /** An element of _X_keys. */
  datatype Entry<+P> = Entry(id: nat, key: P)

  // ---- The order of the values ------------------------------------------------------------

  ghost predicate ById<P>(s: seq<Entry<P>>) {
    forall x, y :: 0 <= x < y < |s| ==> s[x].id <= s[y].id
  }

  function KeysAbove<P>(s: seq<Entry<P>>, id: nat): seq<P> {
    if s == [] then []
    else KeysAbove(s[..|s| - 1], id) + if s[|s| - 1].id > id then [s[|s| - 1].key] else []
  }

  function EntriesBelow<P>(s: seq<Entry<P>>, id: nat): seq<Entry<P>> {
    if s == [] then []
    else EntriesBelow(s[..|s| - 1], id) + if s[|s| - 1].id < id then [s[|s| - 1]] else []
  }

  function Keys<P>(s: seq<Entry<P>>): (r: seq<P>)
    ensures |r| == |s| && forall i :: 0 <= i < |r| ==> r[i] == s[i].key
  {
    seq(|s|, i requires 0 <= i < |s| => s[i].key)
  }

  ghost predicate AllFrom<P>(q: seq<Entry<P>>, id: nat) {
    forall x :: 0 <= x < |q| ==> id <= q[x].id
  }

  lemma TakeOut<P>(q: seq<Entry<P>>, m: nat)
    requires m < |q| && AllFrom(q, q[m].id)
    ensures multiset(q) == multiset(q[..m] + q[m + 1..]) + multiset{q[m]}
    ensures AllFrom(q[..m] + q[m + 1..], q[m].id)
  {
    assert q == q[..m] + [q[m]] + q[m + 1..];
  }

  /** The priority queue's top, an entry of least id, and pop. */
  method PopTop<P>(q: seq<Entry<P>>) returns (top: Entry<P>, rest: seq<Entry<P>>)
    requires q != []
    ensures |rest| == |q| - 1 && multiset(q) == multiset(rest) + multiset{top}
    ensures top in q && AllFrom(rest, top.id)
  {
    var m, i := 0, 1;
    while i < |q|
      invariant 0 <= m < i <= |q| && forall x :: 0 <= x < i ==> q[m].id <= q[x].id
    {
      if q[i].id < q[m].id { m := i; }
      i := i + 1;
    }
    top, rest := q[m], q[..m] + q[m + 1..];
    TakeOut(q, m);
  }

  /** Popped so far, in order, and what is left. */
  ghost predicate Popped<P>(q: seq<Entry<P>>, sorted: seq<Entry<P>>, heap: seq<Entry<P>>) {
    && multiset(sorted) + multiset(heap) == multiset(q) && |sorted| + |heap| == |q|
    && ById(sorted) && (sorted != [] ==> AllFrom(heap, sorted[|sorted| - 1].id))
  }

  lemma PopOne<P>(q: seq<Entry<P>>, sorted: seq<Entry<P>>, heap: seq<Entry<P>>, top: Entry<P>, rest: seq<Entry<P>>)
    requires Popped(q, sorted, heap) && top in heap && AllFrom(rest, top.id)
    requires |rest| == |heap| - 1 && multiset(heap) == multiset(rest) + multiset{top}
    ensures Popped(q, sorted + [top], rest)
  {
    hide AllFrom;
    PopMultiset(multiset(sorted), multiset(rest), top);
    assert multiset(sorted + [top]) == multiset(sorted) + multiset{top};
    if sorted != [] { InFrom(heap, sorted[|sorted| - 1].id, top); }
  }

  lemma PopMultiset<T>(s: multiset<T>, r: multiset<T>, x: T)
    ensures (s + multiset{x}) + r == s + (r + multiset{x})
  {
  }

  lemma InFrom<P>(q: seq<Entry<P>>, id: nat, e: Entry<P>)
    requires AllFrom(q, id) && e in q
    ensures id <= e.id
  {
  }

  ghost predicate Sorting<P>(q: seq<Entry<P>>, sorted: seq<Entry<P>>) {
    multiset(sorted) == multiset(q) && ById(sorted)
  }

  /** The keys of greater ids than id, ascending, and the entries of smaller ids, ascending. */
  ghost predicate IsSplit<P(!new)>(q: seq<Entry<P>>, id: nat, buf: seq<P>, queue: seq<Entry<P>>) {
    exists sorted :: Sorting(q, sorted) && buf == KeysAbove(sorted, id) && queue == EntriesBelow(sorted, id)
  }

  /** The keys of greater ids, ascending, then those of smaller ids, ascending. */
  ghost predicate FromOwnPlace<P(!new)>(q: seq<Entry<P>>, id: nat, buf: seq<P>) {
    exists sorted :: Sorting(q, sorted) && buf == KeysAbove(sorted, id) + Keys(EntriesBelow(sorted, id))
  }

  /** The first loop: keys of greater ids go to the buffer, entries of smaller ids to a queue. */
  method SplitValues<P(!new)>(q: seq<Entry<P>>, id: nat, n: nat) returns (buf: seq<P>, queue: seq<Entry<P>>)
    requires |q| == n
    ensures IsSplit(q, id, buf, queue)
  {
    hide Popped;
    var heap := q;
    buf, queue := [], [];
    ghost var sorted := [];
    NothingPopped(q);
    while heap != [] && |buf| < n
      invariant Popped(q, sorted, heap) && |buf| + |heap| <= n
      invariant buf == KeysAbove(sorted, id) && queue == EntriesBelow(sorted, id)
      decreases |heap|
    {
      var k, rest := PopTop(heap);
      if k.id < id {
        queue := queue + [k];
      } else if k.id > id {
        buf := buf + [k.key];
      }
      PopOne(q, sorted, heap, k, rest);
      assert (sorted + [k])[..|sorted|] == sorted;
      sorted, heap := sorted + [k], rest;
    }
    AllPopped(q, sorted, heap);
    assert Sorting(q, sorted);
  }

  lemma NothingPopped<P>(q: seq<Entry<P>>)
    ensures Popped(q, [], q)
  {
  }

  lemma AllPopped<P>(q: seq<Entry<P>>, sorted: seq<Entry<P>>, heap: seq<Entry<P>>)
    requires Popped(q, sorted, heap)
    ensures ById(sorted) && (heap == [] ==> multiset(sorted) == multiset(q))
  {
  }

  /** The two loops that empty _X_keys into the buffer: first the keys of greater ids, then those
      of smaller ids that were queued on the way. */
  method OrderValues<P(!new)>(q: seq<Entry<P>>, id: nat, n: nat) returns (buf: seq<P>)
    requires |q| == n
    ensures FromOwnPlace(q, id, buf)
  {
    hide Sorting, KeysAbove, EntriesBelow;
    var queue;
    buf, queue := SplitValues(q, id, n);
    ghost var above := buf;
    var i := 0;
    while i < |queue|
      invariant 0 <= i <= |queue| && buf == above + Keys(queue[..i])
    {
      buf := buf + [queue[i].key];
      assert Keys(queue[..i + 1]) == Keys(queue[..i]) + [queue[i].key];
      i := i + 1;
    }
    assert queue[..i] == queue;
  }

  /** With all ids different, this is the order of the ring, starting after one's own place. */
  lemma RingOrder<P>(sorted: seq<Entry<P>>, k: nat)
    requires k < |sorted| && forall x, y :: 0 <= x < y < |sorted| ==> sorted[x].id < sorted[y].id
    ensures KeysAbove(sorted, sorted[k].id) + Keys(EntriesBelow(sorted, sorted[k].id))
         == Keys(sorted[k + 1..]) + Keys(sorted[..k])
  {
    assert sorted[..|sorted|] == sorted;
    AboveAscending(sorted, k, |sorted|);
    BelowAscending(sorted, k, |sorted|);
  }

  lemma NoneAbove<P>(s: seq<Entry<P>>, id: nat)
    ensures s == [] ==> KeysAbove(s, id) == []
  {
  }

  lemma AboveLast<P>(s: seq<Entry<P>>, id: nat)
    requires s != []
    ensures KeysAbove(s, id) == KeysAbove(s[..|s| - 1], id) + if s[|s| - 1].id > id then [s[|s| - 1].key] else []
  {
  }

  lemma {:induction false} AboveAscending<P>(sorted: seq<Entry<P>>, k: nat, n: nat)
    requires k < |sorted| && forall x, y :: 0 <= x < y < |sorted| ==> sorted[x].id < sorted[y].id
    requires n <= |sorted|
    ensures KeysAbove(sorted[..n], sorted[k].id) == if n <= k then [] else Keys(sorted[k + 1..n])
  {
    hide KeysAbove;
    if n == 0 { NoneAbove(sorted[..0], sorted[k].id); }
    if n > 0 {
      AboveAscending(sorted, k, n - 1);
      AboveLast(sorted[..n], sorted[k].id);
      assert sorted[..n][..n - 1] == sorted[..n - 1];
      if n - 1 > k {
        assert sorted[k + 1..n] == sorted[k + 1..n - 1] + [sorted[n - 1]];
        assert Keys(sorted[k + 1..n]) == Keys(sorted[k + 1..n - 1]) + [sorted[n - 1].key];
      }
    }
  }

  lemma {:induction false} BelowAscending<P>(sorted: seq<Entry<P>>, k: nat, n: nat)
    requires k < |sorted| && forall x, y :: 0 <= x < y < |sorted| ==> sorted[x].id < sorted[y].id
    requires n <= |sorted|
    ensures EntriesBelow(sorted[..n], sorted[k].id) == sorted[..if n <= k then n else k]
  {
    if n > 0 {
      BelowAscending(sorted, k, n - 1);
      assert sorted[..n][..n - 1] == sorted[..n - 1];
      if n <= k { assert sorted[..n] == sorted[..n - 1] + [sorted[n - 1]]; }
    }
  }

  // ---- BD1KeyExchange ---------------------------------------------------------------------

  /** What the reading loop of update() works on. */
  datatype Collected<+P> = Collected(zPrev: Option<P>, zNext: Option<P>, count: bv8, xs: seq<Entry<P>>)

  /** One packet: the neighbours' points are kept and flagged, values are queued. */
  function Collect<P>(c: Collected<P>, prev: nat, next: nat, p: Packet<P>): Collected<P> {
    if p.data.None? then c
    else if p.cmd == CMD_BD1_Zi then
      var d := if p.src == prev then c.(zPrev := p.data, count := c.count | 1) else c;
      if p.src == next then d.(zNext := p.data, count := d.count | 2) else d
    else if p.cmd == CMD_BD1_Xi then c.(xs := c.xs + [Entry(p.src, p.data.value)])
    else c
  }

  /** The packets that one update() reads: until there are none, or n values are there. */
  function CollectAll<P>(c: Collected<P>, prev: nat, next: nat, n: nat, inbox: seq<Packet<P>>)
      : (Collected<P>, seq<Packet<P>>)
    decreases |inbox|
  {
    if inbox == [] || |c.xs| >= n then (c, inbox)
    else CollectAll(Collect(c, prev, next, inbox[0]), prev, next, n, inbox[1..])
  }

  /** Flags and points belong together. */
  predicate Consistent<P>(c: Collected<P>) {
    c.count < 4 ==>
      && (c.count & 1 != 0 <==> c.zPrev.Some?)
      && (c.count & 2 != 0 <==> c.zNext.Some?)
  }

  lemma FlagBits(c: bv8)
    ensures c < 4 ==> c | 1 < 4 && (c | 1) & 1 != 0 && ((c | 1) & 2 != 0 <==> c & 2 != 0)
    ensures c < 4 ==> c | 2 < 4 && (c | 2) & 2 != 0 && ((c | 2) & 1 != 0 <==> c & 1 != 0)
    ensures c >= 4 ==> c | 1 >= 4 && c | 2 >= 4
  {
  }

  lemma CollectConsistent<P>(c: Collected<P>, prev: nat, next: nat, p: Packet<P>)
    requires Consistent(c)
    ensures Consistent(Collect(c, prev, next, p))
  {
    FlagBits(c.count);
    FlagBits(c.count | 1);
  }

  class Bd1KeyExchange<P(!new, ==)> {
    const self: nat
    const ids: seq<nat>
    const prev: nat
    const next: nat
    const ctx: Bd1Context<P>
    var got: Collected<P>
    var inbox: seq<Packet<P>>
    var sent: seq<Packet<P>>
    var completed: bool
    var failed: bool
    var key: P

    ghost predicate Valid()
      reads this, ctx, ctx.grp, ctx.grp.N, ctx.grp.T, ctx.r
    {
      && ctx.Valid() && 2 <= |ids| <= 255 && |ids| < ctx.grp.N.Value()
      && IsPredecessor(ids, self, prev) && IsSuccessor(ids, self, next)
      && Consistent(got)
    }

    /** init(): find the neighbours, and broadcast the public point. */
    constructor (ids: seq<nat>, self: nat, grp: EcpGroup<P>, r: Mpi)
      requires self in ids && 2 <= |ids| <= 255
      requires GoodGroup(grp) && r != grp.N && r.p != [] && 1 <= r.Value() < grp.N.Value()
      requires grp.G != grp.curve.zero && |ids| < grp.N.Value()
      modifies grp`T
      ensures Valid() && this.ids == ids && this.self == self && ctx.grp == grp && ctx.r == r
      ensures got == Collected(None, None, 0, []) && !completed && !failed && inbox == []
      ensures ctx.z == ctx.X == key == grp.curve.zero
      ensures sent == [Packet(CMD_BD1_Zi, self, Some(Times(grp.curve, r.Value(), grp.G)))]
    {
      hide Limbs.Val, GoodGroup, Times, IsPredecessor, IsSuccessor, IsFirst, IsLast, CountBelow;
      var prev, next, first, last, pos := FindNeighbours(ids, self);
      this.ids, this.self, this.prev, this.next := ids, self, prev, next;
      ctx := new Bd1Context(grp, r);
      got, inbox, sent := Collected(None, None, 0, []), [], [];
      completed, failed, key := false, false, grp.curve.zero;
      new;
      var c, z := ctx.GenPoint();
      sent := [Packet(CMD_BD1_Zi, self, Some(z))];
    }

    /** The reading loop of update(). */
    method ReadPackets()
      requires Valid()
      modifies this`got, this`inbox
      ensures Valid() && (got, inbox) == CollectAll(old(got), prev, next, |ids|, old(inbox))
    {
      hide Limbs.Val, GoodGroup, IsPredecessor, IsSuccessor, Collect, Consistent;
      ghost var goal := CollectAll(got, prev, next, |ids|, inbox);
      while inbox != [] && |got.xs| < |ids|
        invariant Valid() && CollectAll(got, prev, next, |ids|, inbox) == goal
        decreases |inbox|
      {
        CollectConsistent(got, prev, next, inbox[0]);
        got := Collect(got, prev, next, inbox[0]);
        inbox := inbox[1..];
      }
    }

    /** The block for the moment when both neighbours' points are there. */
    method SendValue()
      requires Valid() && got.count == 3
      modifies this`got, this`sent, ctx`z, ctx`X, ctx.grp`T
      ensures Valid() && old(got).zPrev.Some? && old(got).zNext.Some?
      ensures ctx.z == old(got).zPrev.value
      ensures ctx.X == Times(ctx.grp.curve, ctx.r.Value(),
                             ctx.grp.curve.add(old(got).zNext.value, ctx.grp.curve.neg(old(got).zPrev.value)))
      ensures sent == old(sent) + [Packet(CMD_BD1_Xi, self, Some(ctx.X))]
      ensures got == old(got).(count := 4, xs := old(got).xs + [Entry(self, ctx.X)])
    {
      hide Limbs.Val, GoodGroup, Times, IsPredecessor, IsSuccessor;
      assert 3 as bv8 & 1 != 0 && 3 as bv8 & 2 != 0;
      var c := ctx.GenValue(got.zPrev.value, got.zNext.value);
      sent := sent + [Packet(CMD_BD1_Xi, self, Some(ctx.X))];
      got := got.(count := 4, xs := got.xs + [Entry(self, ctx.X)]);
    }

    /** The block for the moment when all values are there: sort them, and compute the key. */
    method FinishKey() returns (ok: bool, ghost buf: seq<P>)
      requires Valid() && |got.xs| == |ids|
      requires |KeysAbove(got.xs, self)| + |EntriesBelow(got.xs, self)| >= |ids| - 2
      modifies this`got, this`completed, this`failed, this`key, ctx.grp`T
      ensures Valid() && got == old(got).(xs := [])
      ensures FromOwnPlace(old(got).xs, self, buf)
      ensures |buf| >= |ids| - 2
      ensures ok <==> KeyComputes(ctx.grp.curve, ctx.z, ctx.X, buf[..|ids| - 2], |ids|)
      ensures failed == (old(failed) || !ok)
      ensures completed == (old(completed) || ok)
      ensures key == if ok then KeySum(ctx.grp.curve, ctx.r.Value(), ctx.z, ctx.X, buf[..|ids| - 2], |ids|)
                     else old(key)
    {
      hide Limbs.Val, GoodGroup, Times, IsPredecessor, IsSuccessor, KeySum, KeysAbove, EntriesBelow, Consistent,
          FromOwnPlace, KeyComputes;
      var values := OrderValues(got.xs, self, |ids|);
      buf := values;
      OrderLength(got.xs, buf, self);
      got := got.(xs := []);
      assert Consistent(got) by { XsDoNotMatter(old(got), []); }
      var c, k := ctx.ComputeKey(values, |ids|);
      ok := c == Ok;
      if !ok { failed := true; return; }
      key := k;
      completed := true;
    }
  }

  lemma XsDoNotMatter<P>(c: Collected<P>, xs: seq<Entry<P>>)
    requires Consistent(c)
    ensures Consistent(c.(xs := xs))
  {
  }

  /** How many entries are not one's own does not depend on their order. */
  function Others<P>(s: seq<Entry<P>>, id: nat): nat {
    if s == [] then 0 else Others(s[..|s| - 1], id) + if s[|s| - 1].id != id then 1 else 0
  }

  lemma {:induction false} OthersLength<P>(s: seq<Entry<P>>, id: nat)
    ensures |KeysAbove(s, id)| + |EntriesBelow(s, id)| == Others(s, id)
  {
    if s != [] { OthersLength(s[..|s| - 1], id); }
  }

  lemma {:induction false} OthersRemove<P>(s: seq<Entry<P>>, i: nat, id: nat)
    requires i < |s|
    ensures Others(s, id) == Others(s[..i] + s[i + 1..], id) + if s[i].id != id then 1 else 0
    decreases |s|
  {
    var n := |s| - 1;
    if i == n {
      assert s[..i] + s[i + 1..] == s[..n];
    } else {
      OthersRemove(s[..n], i, id);
      var w := s[..i] + s[i + 1..];
      assert w[..|w| - 1] == s[..n][..i] + s[..n][i + 1..] && w[|w| - 1] == s[n];
    }
  }

  lemma {:induction false} OthersPermuted<P>(s: seq<Entry<P>>, t: seq<Entry<P>>, id: nat)
    requires multiset(s) == multiset(t)
    ensures Others(s, id) == Others(t, id)
    decreases |s|
  {
    if s == [] {
      assert |multiset(t)| == 0;
    } else {
      var n := |s| - 1;
      assert s[n] in multiset(t);
      var i :| 0 <= i < |t| && t[i] == s[n];
      OthersRemove(t, i, id);
      RemoveOne(s, n);
      RemoveOne(t, i);
      assert s[..n] + s[n + 1..] == s[..n];
      SameRest(multiset(s[..n]), multiset(t[..i] + t[i + 1..]), multiset{s[n]});
      OthersPermuted(s[..n], t[..i] + t[i + 1..], id);
    }
  }

  lemma RemoveOne<T>(s: seq<T>, i: nat)
    requires i < |s|
    ensures multiset(s[..i] + s[i + 1..]) + multiset{s[i]} == multiset(s)
  {
    assert s == s[..i] + [s[i]] + s[i + 1..];
  }

  lemma SameRest<T>(a: multiset<T>, b: multiset<T>, c: multiset<T>)
    requires a + c == b + c
    ensures a == b
  {
    assert a == (a + c) - c && b == (b + c) - c;
  }

  lemma OrderLength<P(!new)>(q: seq<Entry<P>>, buf: seq<P>, id: nat)
    requires FromOwnPlace(q, id, buf)
    ensures |buf| == |KeysAbove(q, id)| + |EntriesBelow(q, id)|
  {
    hide KeysAbove, EntriesBelow;
    var sorted :| Sorting(q, sorted) && buf == KeysAbove(sorted, id) + Keys(EntriesBelow(sorted, id));
    OthersLength(q, id);
    OthersLength(sorted, id);
    OthersPermuted(q, sorted, id);
  }

  // ---- Agreement --------------------------------------------------------------------------

  ghost predicate StrictlyById<P>(s: seq<Entry<P>>) {
    forall x, y :: 0 <= x < y < |s| ==> s[x].id < s[y].id
  }

  /** There is only one way to sort entries with different ids. */
  lemma {:induction false} SortedUnique<P>(s: seq<Entry<P>>, t: seq<Entry<P>>)
    requires multiset(s) == multiset(t) && ById(s) && StrictlyById(t)
    ensures s == t
    decreases |s|
  {
    assert |multiset(s)| == |s| && |multiset(t)| == |t|;
    if s != [] {
      var n := |s| - 1;
      LastIsSame(s, t);
      RemoveOne(s, n);
      RemoveOne(t, n);
      assert s[..n] + s[n + 1..] == s[..n] && t[..n] + t[n + 1..] == t[..n];
      SameRest(multiset(s[..n]), multiset(t[..n]), multiset{s[n]});
      SortedUnique(s[..n], t[..n]);
      assert s == s[..n] + [s[n]] && t == t[..n] + [t[n]];
    }
  }

  lemma LastIsSame<P>(s: seq<Entry<P>>, t: seq<Entry<P>>)
    requires multiset(s) == multiset(t) && ById(s) && StrictlyById(t) && |s| == |t| > 0
    ensures s[|s| - 1] == t[|s| - 1]
  {
    var n := |s| - 1;
    assert s[n] in multiset(t) && t[n] in multiset(s);
    var i :| 0 <= i <= n && t[i] == s[n];
    var j :| 0 <= j <= n && s[j] == t[n];
    assert s[j].id <= s[n].id;
    assert t[n].id <= t[i].id;
  }

  /** Everybody's values by id. */
  function EntriesOf<P>(ids: seq<nat>, values: seq<P>): (s: seq<Entry<P>>)
    requires |ids| == |values|
    ensures |s| == |ids| && forall i :: 0 <= i < |s| ==> s[i] == Entry(ids[i], values[i])
  {
    seq(|ids|, i requires 0 <= i < |ids| => Entry(ids[i], values[i]))
  }

  /** The value that the node at place i broadcasts, from its neighbours' points. */
  ghost predicate IsValue<P(!new)>(g: Group<P>, base: P, r: seq<int>, i: nat, x: P)
    requires i < |r|
  {
    var next, prev := if i + 1 == |r| then 0 else i + 1, if i == 0 then |r| - 1 else i - 1;
    x == Times(g, r[i], g.add(Times(g, r[next], base), g.neg(Times(g, r[prev], base))))
  }

  lemma ValueScalar<P(!new)>(g: Group<P>, base: P, x: int, next: int, prev: int)
    requires Abelian(g)
    ensures Times(g, x, g.add(Times(g, next, base), g.neg(Times(g, prev, base)))) == Times(g, x * (next - prev), base)
  {
    hide Abelian, Times;
    TimesNeg(g, prev, base);
    TimesAdd(g, next, 0 - prev, base);
    TimesMul(g, x, next - prev, base);
  }

  /** Seen from place k, the values that follow on the ring. */
  lemma RotatedValues<P(!new)>(g: Group<P>, base: P, r: seq<int>, values: seq<P>, k: nat)
    requires Abelian(g) && k < |r| == |values| && |r| >= 2
    requires forall i :: 0 <= i < |r| ==> IsValue(g, base, r, i, values[i])
    ensures AreDifferences(g, base, Rotate(r, k), Rotate(values, k)[..|r| - 1])
  {
    hide Abelian, Times;
    var s, v, n := Rotate(r, k), Rotate(values, k), |r|;
    forall t | 0 <= t < n - 1 ensures v[..n - 1][t] == Times(g, Difference(s, t), base) {
      var i := if t + k < n then t + k else t + k - n;
      assert IsValue(g, base, r, i, values[i]);
      var next, prev := if i + 1 == n then 0 else i + 1, if i == 0 then n - 1 else i - 1;
      assert s[t + 1] == r[next] && Prior(s, t) == r[prev] && s[t] == r[i];
      ValueScalar(g, base, r[i], r[next], r[prev]);
    }
  }

  /** The ordered values are those at the places after k, cyclically. */
  lemma OrderedValues<P(!new)>(ids: seq<nat>, values: seq<P>, k: nat, xs: seq<Entry<P>>, buf: seq<P>)
    requires k < |ids| == |values| && Ascending(ids)
    requires multiset(xs) == multiset(EntriesOf(ids, values)) && FromOwnPlace(xs, ids[k], buf)
    ensures buf == values[k + 1..] + values[..k]
  {
    hide KeysAbove, EntriesBelow;
    var sorted :| Sorting(xs, sorted) && buf == KeysAbove(sorted, ids[k]) + Keys(EntriesBelow(sorted, ids[k]));
    SortedUnique(sorted, EntriesOf(ids, values));
    RingOrder(sorted, k);
  }

  lemma FromPlace<P>(values: seq<P>, k: nat, buf: seq<P>)
    requires k < |values| && buf == values[k + 1..] + values[..k] && |values| >= 2
    ensures |buf| == |values| - 1
    ensures [values[k]] + buf[..|values| - 2] == Rotate(values, k)[..|values| - 1]
  {
  }

  /** The node at place k of the ring: when its predecessor's point is right and its queue holds
      everybody's values, its own too, in whatever order they came, the key it computes is the
      cyclic sum of products of neighbouring secrets, the same for every k. */
  lemma Agreement<P(!new)>(g: Group<P>, base: P, ids: seq<nat>, r: seq<int>, values: seq<P>, k: nat, z: P,
                           xs: seq<Entry<P>>, buf: seq<P>)
    requires Abelian(g) && k < |ids| == |r| == |values| && |ids| >= 2 && Ascending(ids)
    requires forall i :: 0 <= i < |r| ==> IsValue(g, base, r, i, values[i])
    requires z == Times(g, r[if k == 0 then |r| - 1 else k - 1], base)
    requires multiset(xs) == multiset(EntriesOf(ids, values)) && FromOwnPlace(xs, ids[k], buf)
    ensures |buf| == |ids| - 1 && KeySum(g, r[k], z, values[k], buf[..|ids| - 2], |ids|) == Times(g, RingSum(r), base)
  {
    hide *;
    var n := |ids|;
    OrderedValues(ids, values, k, xs, buf);
    var v, s := Rotate(values, k), Rotate(r, k);
    FromPlace(values, k, buf);
    RotatedValues(g, base, r, values, k);
    SeatKey(g, base, s, z, values[k], buf[..n - 2]);
    RingRotates(r, k);
  }
}
