/** A network of nodes running bd1.h: every interleaving of deliveries that keeps each sender's point
    before its value.  Nodes are numbered by their places on the ring, in the order of their ids. */
module Bd1Network {
  import opened Arith
  import opened Groups
  import opened Primes
  import opened Ecp
  import opened Neighbours
  import opened Bd1
  import opened Bd1Ring
  import opened Bd1Exchange
  import MkaNetwork

  /** The group, its base point, and the nodes' ids and secrets. */
  datatype Config<!P(!new)> = Config(g: Group<P>, base: P, ids: seq<nat>, r: seq<int>)

  ghost predicate GoodConfig<P(!new)>(c: Config<P>) {
    Abelian(c.g) && |c.ids| == |c.r| && 2 <= |c.ids| <= 255 && Ascending(c.ids)
  }

  /** What a node has collected, the point and the value it works with, and its key. */
  datatype Seat<+P> = Seat(got: Collected<P>, z: P, X: P, done: bool, failed: bool, key: P)

  /** taken[j][i] says how many broadcasts of node i node j has read: first the point, then the
      value, once sent. */
  datatype Network<+P> = Network(seats: seq<Seat<P>>, taken: seq<seq<nat>>)

  /** One packet is read, the own value is sent, or the key is computed. */
  datatype Action = Read(at: nat, src: nat) | Send(at: nat) | Finish(at: nat)

  function Before(n: nat, i: nat): nat
    requires i < n
  {
    if i == 0 then n - 1 else i - 1
  }

  function After(n: nat, i: nat): nat
    requires i < n
  {
    if i + 1 == n then 0 else i + 1
  }

  ghost function PointOf<P(!new)>(c: Config<P>, i: nat): P {
    if i < |c.r| then Times(c.g, c.r[i], c.base) else c.g.zero
  }

  /** The value that node i broadcasts when its neighbours' points are right. */
  ghost function ValueOf<P(!new)>(c: Config<P>, i: nat): P {
    if i < |c.r| then
      Times(c.g, c.r[i], c.g.add(PointOf(c, After(|c.r|, i)), c.g.neg(PointOf(c, Before(|c.r|, i)))))
    else c.g.zero
  }

  ghost predicate Shaped<P(!new)>(c: Config<P>, net: Network<P>) {
    && |net.seats| == |c.ids| && |net.taken| == |c.ids|
    && forall j :: 0 <= j < |net.taken| ==> |net.taken[j]| == |c.ids|
  }

  ghost function Start<P(!new)>(c: Config<P>): Network<P> {
    var n := |c.ids|;
    Network(seq(n, _ => Seat(Collected(None, None, 0, []), c.g.zero, c.g.zero, false, false, c.g.zero)),
            seq(n, _ => seq(n, _ => 0)))
  }

  /** The packet that node j reads next from node i. */
  ghost function NextPacket<P(!new)>(c: Config<P>, net: Network<P>, j: nat, i: nat): Packet<P>
    requires Shaped(c, net) && j < |c.ids| && i < |c.ids|
  {
    if net.taken[j][i] == 0 then Packet(0x20, c.ids[i], Some(PointOf(c, i)))
    else Packet(0x21, c.ids[i], Some(net.seats[i].X))
  }

  /** Whether a node has sent its value. */
  predicate HasSent<P>(s: Seat<P>) { s.got.count == 4 }

  ghost predicate Enabled<P(!new)>(c: Config<P>, net: Network<P>, act: Action) {
    var n := |c.ids|;
    && Shaped(c, net)
    && match act
       case Read(j, i) =>
         HasPacket(c, net, j, i) && !net.seats[j].done && !net.seats[j].failed && |net.seats[j].got.xs| < n
       case Send(j) => j < n && net.seats[j].got.count == 3 && !net.seats[j].failed
       case Finish(j) => j < n && |net.seats[j].got.xs| == n && !net.seats[j].done && !net.seats[j].failed
  }

  /** bd1_compute_key on the ordered values: the key, or a failure. */
  ghost function Finished<P(!new)>(c: Config<P>, j: nat, s: Seat<P>, buf: seq<P>): Seat<P>
    requires |c.ids| == |c.r| && j < |c.ids| && |c.ids| >= 2 && |buf| >= |c.ids| - 2
  {
    var n, b := |c.ids|, buf[..|c.ids| - 2];
    if KeyComputes(c.g, s.z, s.X, b, n)
    then s.(got := s.got.(xs := []), done := true, key := KeySum(c.g, c.r[j], s.z, s.X, b, n))
    else s.(got := s.got.(xs := []), failed := true)
  }

  /** For any order of entries of the same id. */
  ghost predicate MayFinish<P(!new)>(c: Config<P>, j: nat, s: Seat<P>, s': Seat<P>)
    requires |c.ids| == |c.r| && j < |c.ids|
  {
    exists buf: seq<P> ::
      FromOwnPlace(s.got.xs, c.ids[j], buf) && |buf| >= |c.ids| - 2 && |c.ids| >= 2 && s' == Finished(c, j, s, buf)
  }

  /** Whether a broadcast of node i is waiting for node j. */
  ghost predicate HasPacket<P(!new)>(c: Config<P>, net: Network<P>, j: nat, i: nat)
    requires Shaped(c, net)
  {
    var n := |c.ids|;
    j < n && i < n && i != j && (net.taken[j][i] == 0 || (net.taken[j][i] == 1 && HasSent(net.seats[i])))
  }

  ghost function AfterRead<P(!new)>(c: Config<P>, net: Network<P>, j: nat, i: nat): Network<P>
    requires Shaped(c, net) && j < |c.ids| && i < |c.ids|
  {
    var n, s := |c.ids|, net.seats[j];
    Network(
      net.seats[j := s.(got := Collect(s.got, c.ids[Before(n, j)], c.ids[After(n, j)], NextPacket(c, net, j, i)))],
      net.taken[j := net.taken[j][i := net.taken[j][i] + 1]])
  }

  /** One step of the network; Bd1Simulation shows that it is what update() does. */
  ghost predicate Next<P(!new)>(c: Config<P>, net: Network<P>, act: Action, net': Network<P>)
    requires |c.ids| == |c.r| && Enabled(c, net, act)
  {
    var n := |c.ids|;
    match act
    case Read(j, i) => net' == AfterRead(c, net, j, i)
    case Send(j) =>
      var s := net.seats[j];
      s.got.zPrev.Some? && s.got.zNext.Some? &&
      var X := Times(c.g, c.r[j], c.g.add(s.got.zNext.value, c.g.neg(s.got.zPrev.value)));
      net' == net.(seats := net.seats[j :=
        s.(z := s.got.zPrev.value, X := X, got := s.got.(count := 4, xs := s.got.xs + [Entry(c.ids[j], X)]))])
    case Finish(j) =>
      && |net'.seats| == n && MayFinish(c, j, net.seats[j], net'.seats[j])
      && net' == net.(seats := net.seats[j := net'.seats[j]])
  }

  ghost predicate IsPath<P(!new)>(c: Config<P>, nets: seq<Network<P>>, acts: seq<Action>)
    requires |c.ids| == |c.r|
  {
    && |nets| == |acts| + 1
    && forall t :: 0 <= t < |acts| ==> Enabled(c, nets[t], acts[t]) && Next(c, nets[t], acts[t], nets[t + 1])
  }

  ghost predicate IsRun<P(!new)>(c: Config<P>, nets: seq<Network<P>>, acts: seq<Action>) {
    GoodConfig(c) && IsPath(c, nets, acts) && nets[0] == Start(c)
  }

  /** Whether the call at node j will succeed: none of the points that it multiplies is zero.  It does
      not multiply its predecessor's value. */
  ghost predicate Succeeds<P(!new)>(c: Config<P>, j: nat)
    requires j < |c.ids|
  {
    var n := |c.ids|;
    && PointOf(c, Before(n, j)) != c.g.zero
    && (n == 2 || forall i :: 0 <= i < n && i != Before(n, j) ==> ValueOf(c, i) != c.g.zero)
  }

  // ---- The invariant ----------------------------------------------------------------------

  /** The sender of an entry, and its value, are those of a node that was read twice, or the own
      ones. */
  ghost predicate RightEntry<P(!new)>(c: Config<P>, j: nat, s: Seat<P>, row: seq<nat>, e: Entry<P>, i: nat) {
    && i < |c.ids| && i < |row| && e == Entry(c.ids[i], ValueOf(c, i))
    && (if i == j then HasSent(s) else row[i] == 2)
  }

  ghost predicate HasSender<P(!new)>(c: Config<P>, j: nat, s: Seat<P>, row: seq<nat>, e: Entry<P>) {
    exists i: nat :: RightEntry(c, j, s, row, e, i)
  }

  ghost predicate Gathered<P(!new)>(c: Config<P>, j: nat, s: Seat<P>, row: seq<nat>) {
    && (forall x :: 0 <= x < |s.got.xs| ==> HasSender(c, j, s, row, s.got.xs[x]))
    && (forall x, y :: 0 <= x < y < |s.got.xs| ==> s.got.xs[x].id != s.got.xs[y].id)
  }

  /** How many nodes were read twice. */
  function Twos(row: seq<nat>): nat {
    if row == [] then 0 else Twos(row[..|row| - 1]) + if row[|row| - 1] == 2 then 1 else 0
  }

  ghost predicate SeatInv<P(!new)>(c: Config<P>, j: nat, s: Seat<P>, row: seq<nat>)
    requires j < |c.ids| == |c.r|
  {
    var n := |c.ids|;
    var p, f := Before(n, j), After(n, j);
    && |row| == n && row[j] == 0 && (forall i :: 0 <= i < n ==> row[i] <= 2)
    && Consistent(s.got) && s.got.count <= 4
    && (s.got.zPrev.Some? <==> row[p] > 0) && (s.got.zPrev.Some? ==> s.got.zPrev.value == PointOf(c, p))
    && (s.got.zNext.Some? <==> row[f] > 0) && (s.got.zNext.Some? ==> s.got.zNext.value == PointOf(c, f))
    && (HasSent(s) ==> row[p] > 0 && row[f] > 0 && s.z == PointOf(c, p) && s.X == ValueOf(c, j))
    && Gathered(c, j, s, row)
    && (!s.done && !s.failed ==> |s.got.xs| == Twos(row) + if HasSent(s) then 1 else 0)
    && (s.done ==> HasSent(s) && Succeeds(c, j) && s.key == Times(c.g, RingSum(c.r), c.base))
    && (s.failed ==> HasSent(s) && !Succeeds(c, j))
  }

  ghost predicate Inv<P(!new)>(c: Config<P>, net: Network<P>)
    requires |c.ids| == |c.r|
  {
    && Shaped(c, net)
    && forall j :: 0 <= j < |c.ids| ==> SeatInv(c, j, net.seats[j], net.taken[j])
  }

  lemma {:induction false} TwosZero(row: seq<nat>)
    requires forall i :: 0 <= i < |row| ==> row[i] == 0
    ensures Twos(row) == 0
  {
    if row != [] { TwosZero(row[..|row| - 1]); }
  }

  lemma {:induction false} TwosUpdate(row: seq<nat>, i: nat, x: nat)
    requires i < |row|
    ensures Twos(row[i := x]) == Twos(row) - (if row[i] == 2 then 1 else 0) + (if x == 2 then 1 else 0)
  {
    var n := |row| - 1;
    if i == n {
      assert row[i := x][..n] == row[..n];
    } else {
      TwosUpdate(row[..n], i, x);
      assert row[i := x][..n] == row[..n][i := x];
    }
  }

  lemma {:induction false} TwosBound(row: seq<nat>, j: nat)
    requires j < |row| && row[j] != 2
    ensures Twos(row) <= |row| - 1
    ensures Twos(row) == |row| - 1 <==> forall i :: 0 <= i < |row| && i != j ==> row[i] == 2
  {
    var n := |row| - 1;
    if j == n {
      AllTwos(row[..n]);
      forall i | 0 <= i < n ensures row[..n][i] == row[i] {}
    } else {
      TwosBound(row[..n], j);
      forall i | 0 <= i < n ensures row[..n][i] == row[i] {}
    }
  }

  lemma {:induction false} AllTwos(row: seq<nat>)
    ensures Twos(row) <= |row|
    ensures Twos(row) == |row| <==> forall i :: 0 <= i < |row| ==> row[i] == 2
  {
    if row != [] {
      var n := |row| - 1;
      AllTwos(row[..n]);
      forall i | 0 <= i < n ensures row[..n][i] == row[i] {}
    }
  }

  lemma StartInv<P(!new)>(c: Config<P>)
    requires GoodConfig(c)
    ensures Inv(c, Start(c))
  {
    hide Abelian, PointOf, ValueOf, Times, RingSum;
    var net := Start(c);
    forall j | 0 <= j < |c.ids| ensures SeatInv(c, j, net.seats[j], net.taken[j]) {
      TwosZero(net.taken[j]);
    }
  }

  lemma BesideOther(n: nat, j: nat)
    requires 2 <= n && j < n
    ensures Before(n, j) < n && After(n, j) < n && Before(n, j) != j && After(n, j) != j
  {
  }

  lemma DistinctIds(ids: seq<nat>, i: nat, k: nat)
    requires Ascending(ids) && i < |ids| && k < |ids| && ids[i] == ids[k]
    ensures i == k
  {
  }

  // ---- Reading ----------------------------------------------------------------------------

  /** A neighbour's point. */
  lemma ReadPoint<P(!new)>(c: Config<P>, j: nat, s: Seat<P>, row: seq<nat>, i: nat)
    requires GoodConfig(c) && j < |c.ids| && SeatInv(c, j, s, row) && i < |c.ids| && i != j && row[i] == 0
    ensures var n := |c.ids|;
      var p := Packet(CMD_BD1_Zi, c.ids[i], Some(PointOf(c, i)));
      SeatInv(c, j, s.(got := Collect(s.got, c.ids[Before(n, j)], c.ids[After(n, j)], p)), row[i := 1])
  {
    hide Abelian, PointOf, ValueOf, Times, RingSum, Gathered;
    var n := |c.ids|;
    var p := Packet(CMD_BD1_Zi, c.ids[i], Some(PointOf(c, i)));
    BesideOther(n, j);
    var s' := s.(got := Collect(s.got, c.ids[Before(n, j)], c.ids[After(n, j)], p));
    CollectConsistent(s.got, c.ids[Before(n, j)], c.ids[After(n, j)], p);
    if c.ids[i] == c.ids[Before(n, j)] { DistinctIds(c.ids, i, Before(n, j)); }
    if c.ids[i] == c.ids[After(n, j)] { DistinctIds(c.ids, i, After(n, j)); }
    TwosUpdate(row, i, 1);
    FlagRange(s.got.count);
    FlagRange(s.got.count | 1);
    StillGathered(c, j, s, s', row, row[i := 1]);
  }

  lemma FlagRange(x: bv8)
    ensures x < 4 ==> x | 1 < 4 && x | 2 < 4
  {
  }

  lemma StillGathered<P(!new)>(c: Config<P>, j: nat, s: Seat<P>, s': Seat<P>, row: seq<nat>, row': seq<nat>)
    requires Gathered(c, j, s, row) && s'.got.xs == s.got.xs && (HasSent(s) ==> HasSent(s')) && |row'| == |row|
    requires forall i :: 0 <= i < |row| ==> row[i] == 2 ==> row'[i] == 2
    ensures Gathered(c, j, s', row')
  {
    hide PointOf, ValueOf;
    forall x | 0 <= x < |s'.got.xs| ensures HasSender(c, j, s', row', s'.got.xs[x]) {
      assert HasSender(c, j, s, row, s.got.xs[x]);
      var i: nat :| RightEntry(c, j, s, row, s.got.xs[x], i);
      assert RightEntry(c, j, s', row', s'.got.xs[x], i);
    }
  }

  /** Another entry. */
  lemma MoreGathered<P(!new)>(c: Config<P>, j: nat, s: Seat<P>, s': Seat<P>, row: seq<nat>, row': seq<nat>, i: nat)
    requires Ascending(c.ids) && Gathered(c, j, s, row) && |row| == |c.ids| == |row'| && i < |c.ids|
    requires (HasSent(s) ==> HasSent(s')) && forall k :: 0 <= k < |row| ==> row[k] == 2 ==> row'[k] == 2
    requires if i == j then !HasSent(s) && HasSent(s') else row[i] != 2 && row'[i] == 2
    requires s'.got.xs == s.got.xs + [Entry(c.ids[i], ValueOf(c, i))]
    ensures Gathered(c, j, s', row')
  {
    hide PointOf, ValueOf;
    var xs := s.got.xs;
    forall x | 0 <= x < |xs| ensures HasSender(c, j, s', row', xs[x]) && xs[x].id != c.ids[i] {
      assert HasSender(c, j, s, row, xs[x]);
      var k: nat :| RightEntry(c, j, s, row, xs[x], k);
      assert RightEntry(c, j, s', row', xs[x], k);
      if xs[x].id == c.ids[i] { DistinctIds(c.ids, k, i); }
    }
    assert RightEntry(c, j, s', row', s'.got.xs[|xs|], i);
    assert HasSender(c, j, s', row', s'.got.xs[|xs|]);
  }

  /** A value. */
  lemma ReadValue<P(!new)>(c: Config<P>, j: nat, s: Seat<P>, row: seq<nat>, i: nat)
    requires GoodConfig(c) && j < |c.ids| && SeatInv(c, j, s, row) && i < |c.ids| && i != j && row[i] == 1
    requires !s.done && !s.failed
    ensures var n := |c.ids|;
      var p := Packet(CMD_BD1_Xi, c.ids[i], Some(ValueOf(c, i)));
      SeatInv(c, j, s.(got := Collect(s.got, c.ids[Before(n, j)], c.ids[After(n, j)], p)), row[i := 2])
  {
    hide Abelian, PointOf, ValueOf, Times, RingSum, Gathered;
    var n := |c.ids|;
    var p := Packet(CMD_BD1_Xi, c.ids[i], Some(ValueOf(c, i)));
    BesideOther(n, j);
    var s' := s.(got := Collect(s.got, c.ids[Before(n, j)], c.ids[After(n, j)], p));
    CollectConsistent(s.got, c.ids[Before(n, j)], c.ids[After(n, j)], p);
    TwosUpdate(row, i, 2);
    MoreGathered(c, j, s, s', row, row[i := 2], i);
  }

  /** The own value. */
  lemma SendRight<P(!new)>(c: Config<P>, j: nat, s: Seat<P>, row: seq<nat>)
    requires GoodConfig(c) && j < |c.ids| && SeatInv(c, j, s, row) && s.got.count == 3
    ensures s.got.zPrev.Some? && s.got.zNext.Some?
    ensures var X := Times(c.g, c.r[j], c.g.add(s.got.zNext.value, c.g.neg(s.got.zPrev.value)));
      SeatInv(c, j, s.(z := s.got.zPrev.value, X := X,
          got := s.got.(count := 4, xs := s.got.xs + [Entry(c.ids[j], X)])), row)
  {
    hide Abelian, PointOf, Times, RingSum, Gathered;
    assert 3 as bv8 & 1 != 0 && 3 as bv8 & 2 != 0;
    var X := Times(c.g, c.r[j], c.g.add(s.got.zNext.value, c.g.neg(s.got.zPrev.value)));
    assert X == ValueOf(c, j);
    var s' := s.(z := s.got.zPrev.value, X := X, got := s.got.(count := 4, xs := s.got.xs + [Entry(c.ids[j], X)]));
    MoreGathered(c, j, s, s', row, row, j);
  }

  // ---- The key ----------------------------------------------------------------------------

  /** Entries of different ids, as many as there are nodes, are everybody's. */
  lemma Everybodys<P(!new)>(c: Config<P>, j: nat, s: Seat<P>, row: seq<nat>, values: seq<P>)
    requires Ascending(c.ids) && Gathered(c, j, s, row) && |s.got.xs| == |c.ids| == |values|
    requires forall i :: 0 <= i < |values| ==> values[i] == ValueOf(c, i)
    ensures multiset(s.got.xs) == multiset(EntriesOf(c.ids, values))
  {
    hide ValueOf;
    var xs, es := s.got.xs, EntriesOf(c.ids, values);
    forall x | 0 <= x < |xs| ensures xs[x] in es {
      assert HasSender(c, j, s, row, xs[x]);
      var i: nat :| RightEntry(c, j, s, row, xs[x], i);
      assert es[i] == xs[x];
    }
    Same(xs, es);
  }

  lemma {:induction false} Once<T>(s: seq<T>, x: T)
    requires forall a, b :: 0 <= a < b < |s| ==> s[a] != s[b]
    ensures multiset(s)[x] == if x in s then 1 else 0
  {
    if s != [] {
      var n := |s| - 1;
      Once(s[..n], x);
      assert s == s[..n] + [s[n]];
    }
  }

  lemma Same<T>(s: seq<T>, t: seq<T>)
    requires |s| == |t| && (forall x :: 0 <= x < |s| ==> s[x] in t)
    requires (forall a, b :: 0 <= a < b < |s| ==> s[a] != s[b]) && forall a, b :: 0 <= a < b < |t| ==> t[a] != t[b]
    ensures multiset(s) == multiset(t)
  {
    forall x ensures multiset(s)[x] <= multiset(t)[x] {
      Once(s, x);
      Once(t, x);
    }
    var d := multiset(t) - multiset(s);
    assert multiset(t) == multiset(s) + d;
    assert |d| == 0;
  }

  /** The values after place j multiply to a key exactly when the call at node j is to succeed. */
  lemma ComputesIff<P(!new)>(c: Config<P>, j: nat, values: seq<P>, buf: seq<P>)
    requires j < |c.ids| == |c.r| && |c.ids| >= 2 && |values| == |c.ids| && buf == values[j + 1..] + values[..j]
    requires forall i :: 0 <= i < |values| ==> values[i] == ValueOf(c, i)
    ensures KeyComputes(c.g, PointOf(c, Before(|c.ids|, j)), values[j], buf[..|c.ids| - 2], |c.ids|) <==> Succeeds(c, j)
  {
    hide PointOf, ValueOf;
    var n, b := |c.ids|, buf[..|c.ids| - 2];
    forall x | 0 <= x < n - 2 ensures b[x] == values[if j + 1 + x < n then j + 1 + x else j + 1 + x - n] {
    }
    if n > 2 && values[j] != c.g.zero && NoneZero(c.g, b) {
      forall i | 0 <= i < n && i != Before(n, j) ensures ValueOf(c, i) != c.g.zero {
        if i > j { assert b[i - j - 1] == values[i]; } else if i < j { assert b[n - j - 1 + i] == values[i]; }
      }
    }
  }

  lemma KeyRight<P(!new)>(c: Config<P>, j: nat, s: Seat<P>, row: seq<nat>, buf: seq<P>)
    requires GoodConfig(c) && j < |c.ids| && SeatInv(c, j, s, row) && |s.got.xs| == |c.ids| && !s.done && !s.failed
    requires FromOwnPlace(s.got.xs, c.ids[j], buf) && |buf| >= |c.ids| - 2
    ensures HasSent(s) && KeySum(c.g, c.r[j], s.z, s.X, buf[..|c.ids| - 2], |c.ids|) == Times(c.g, RingSum(c.r), c.base)
    ensures KeyComputes(c.g, s.z, s.X, buf[..|c.ids| - 2], |c.ids|) <==> Succeeds(c, j)
  {
    hide Abelian, Times, RingSum, Gathered, FromOwnPlace, KeySum, Succeeds, KeyComputes;
    var n := |c.ids|;
    BesideOther(n, j);
    TwosBound(row, j);
    var values := seq(n, i requires 0 <= i < n => ValueOf(c, i));
    Everybodys(c, j, s, row, values);
    Bd1Exchange.Agreement(c.g, c.base, c.ids, c.r, values, j, s.z, s.got.xs, buf);
    OrderedValues(c.ids, values, j, s.got.xs, buf);
    ComputesIff(c, j, values, buf);
  }

  /** Every action keeps the invariant. */
  lemma NextInv<P(!new)>(c: Config<P>, net: Network<P>, act: Action, net': Network<P>)
    requires GoodConfig(c) && Inv(c, net) && Enabled(c, net, act) && Next(c, net, act, net')
    ensures Inv(c, net')
  {
    hide Abelian, Times, RingSum, SeatInv, MayFinish, Collect, PointOf, ValueOf;
    var n := |c.ids|;
    match act
    case Read(j, i) =>
      AtMostTwo(c, j, net.seats[j], net.taken[j], i);
      if net.taken[j][i] == 0 {
        ReadPoint(c, j, net.seats[j], net.taken[j], i);
      } else {
        SentValue(c, i, net.seats[i], net.taken[i]);
        ReadValue(c, j, net.seats[j], net.taken[j], i);
      }
    case Send(j) =>
      SendRight(c, j, net.seats[j], net.taken[j]);
    case Finish(j) =>
      FinishRight(c, j, net.seats[j], net.taken[j], net'.seats[j]);
  }

  lemma AtMostTwo<P(!new)>(c: Config<P>, j: nat, s: Seat<P>, row: seq<nat>, i: nat)
    requires j < |c.ids| == |c.r| && SeatInv(c, j, s, row) && i < |c.ids|
    ensures |row| == |c.ids| && row[i] <= 2
  {
    hide Times, RingSum, Gathered;
  }

  lemma SentValue<P(!new)>(c: Config<P>, j: nat, s: Seat<P>, row: seq<nat>)
    requires j < |c.ids| == |c.r| && SeatInv(c, j, s, row) && HasSent(s)
    ensures s.X == ValueOf(c, j)
  {
    hide Times, RingSum, Gathered, ValueOf;
  }

  lemma FinishRight<P(!new)>(c: Config<P>, j: nat, s: Seat<P>, row: seq<nat>, s': Seat<P>)
    requires GoodConfig(c) && j < |c.ids| && SeatInv(c, j, s, row) && |s.got.xs| == |c.ids| && !s.done && !s.failed
    requires MayFinish(c, j, s, s')
    ensures SeatInv(c, j, s', row)
  {
    hide Abelian, Times, RingSum, PointOf, ValueOf, FromOwnPlace, KeySum, KeyComputes, Succeeds;
    var buf: seq<P> :| FromOwnPlace(s.got.xs, c.ids[j], buf) && |buf| >= |c.ids| - 2 && s' == Finished(c, j, s, buf);
    KeyRight(c, j, s, row, buf);
    XsDoNotMatter(s.got, []);
  }

  lemma {:induction false} RunInv<P(!new)>(c: Config<P>, nets: seq<Network<P>>, acts: seq<Action>, t: nat)
    requires IsRun(c, nets, acts) && t <= |acts|
    ensures |c.ids| == |c.r| && Inv(c, nets[t])
  {
    hide Inv, Enabled, Start, Next;
    if t == 0 {
      StartInv(c);
    } else {
      RunInv(c, nets, acts, t - 1);
      NextInv(c, nets[t - 1], acts[t - 1], nets[t]);
    }
  }

  /** Agreement: in every run, every node that has completed has the same key, the cyclic sum of
      products of neighbouring secrets times the base point. */
  lemma Agreement<P(!new)>(c: Config<P>, nets: seq<Network<P>>, acts: seq<Action>, t: nat, j: nat)
    requires IsRun(c, nets, acts) && t <= |acts| && j < |c.ids|
    ensures |nets[t].seats| == |c.ids|
    ensures nets[t].seats[j].done ==> nets[t].seats[j].key == Times(c.g, RingSum(c.r), c.base)
  {
    hide Enabled, Start, Next, Times, RingSum, Gathered;
    RunInv(c, nets, acts, t);
    assert SeatInv(c, j, nets[t].seats[j], nets[t].taken[j]);
  }

  // ---- No node stalls, and every run ends -------------------------------------------------

  /** As long as the call of some node is still to come, something can happen. */
  lemma Progress<P(!new)>(c: Config<P>, net: Network<P>) returns (act: Action)
    requires GoodConfig(c) && Inv(c, net)
    requires exists j :: 0 <= j < |net.seats| && !net.seats[j].done && !net.seats[j].failed
    ensures Enabled(c, net, act)
  {
    hide SeatInv, Abelian;
    var n := |c.ids|;
    if j :| 0 <= j < n && !HasSent(net.seats[j]) {
      act := BeforeSending(c, net, j);
    } else {
      var j :| 0 <= j < n && !net.seats[j].done && !net.seats[j].failed;
      act := AfterSending(c, net, j);
    }
  }

  /** When a run can go no further, every node has completed whose call is to succeed, and the others
      have failed; before that, no node completes or fails that is not to. */
  lemma Outcome<P(!new)>(c: Config<P>, nets: seq<Network<P>>, acts: seq<Action>, t: nat, j: nat)
    requires IsRun(c, nets, acts) && t <= |acts| && j < |c.ids|
    ensures |nets[t].seats| == |c.ids|
    ensures nets[t].seats[j].done ==> Succeeds(c, j)
    ensures nets[t].seats[j].failed ==> !Succeeds(c, j)
    ensures (forall act :: !Enabled(c, nets[t], act)) ==> nets[t].seats[j].done || nets[t].seats[j].failed
  {
    hide Enabled, Start, Next, Times, RingSum, Gathered, Succeeds;
    RunInv(c, nets, acts, t);
    assert SeatInv(c, j, nets[t].seats[j], nets[t].taken[j]);
    if !nets[t].seats[j].done && !nets[t].seats[j].failed {
      var act := Progress(c, nets[t]);
    }
  }

  /** The secrets on either side of node i are the same modulo q. */
  predicate SameBeside(r: seq<int>, q: int, i: nat)
    requires i < |r| && q > 0
  {
    (r[After(|r|, i)] - r[Before(|r|, i)]) % q == 0
  }

  lemma ValueZero<P(!new)>(c: Config<P>, q: int, i: nat)
    requires PrimeGroup(c.g, q) && c.base != c.g.zero && i < |c.r| && forall x :: 0 <= x < |c.r| ==> 0 < c.r[x] < q
    ensures q > 0 && PointOf(c, i) != c.g.zero && (ValueOf(c, i) == c.g.zero <==> SameBeside(c.r, q, i))
  {
    hide Times, Abelian, Prime;
    PrimeOrderOf(c.g, q, c.base);
    PrimeOrder(c.g, q, c.base);
    var n := |c.r|;
    var next, prev := c.r[After(n, i)], c.r[Before(n, i)];
    ValueScalar(c.g, c.base, c.r[i], next, prev);
    ZeroMultiple(c.g, q, c.r[i], c.base);
    ZeroMultiple(c.g, q, c.r[i] * (next - prev), c.base);
    FactorMultiple(q, c.r[i], next - prev);
  }

  /** With secrets in [1, q) for a prime order q: the call at node j succeeds if and only if there are
      two nodes only, or no node but its predecessor has neighbours with the same secret. */
  lemma SucceedsIff<P(!new)>(c: Config<P>, q: int, j: nat)
    requires GoodConfig(c) && PrimeGroup(c.g, q) && c.base != c.g.zero && j < |c.ids|
    requires forall i :: 0 <= i < |c.r| ==> 0 < c.r[i] < q
    ensures q > 0 && (Succeeds(c, j) <==>
      |c.r| == 2 || forall i :: 0 <= i < |c.r| && i != Before(|c.r|, j) ==> !SameBeside(c.r, q, i))
  {
    hide Times, Abelian, Prime, PointOf, ValueOf, SameBeside;
    forall i | 0 <= i < |c.r|
      ensures q > 0 && PointOf(c, i) != c.g.zero && (ValueOf(c, i) == c.g.zero <==> SameBeside(c.r, q, i))
    {
      ValueZero(c, q, i);
    }
    ValueZero(c, q, j);
  }

  /** So every run ends with the key at all nodes if and only if there are two nodes only, or no node has
      neighbours with the same secret. */
  lemma AllSucceedIff<P(!new)>(c: Config<P>, q: int)
    requires GoodConfig(c) && PrimeGroup(c.g, q) && c.base != c.g.zero
    requires forall i :: 0 <= i < |c.r| ==> 0 < c.r[i] < q
    ensures q > 0 && (AllSucceed(c) <==>
      |c.r| == 2 || forall i :: 0 <= i < |c.r| ==> !SameBeside(c.r, q, i))
  {
    hide Times, Abelian, Prime, PrimeGroup, Succeeds, SameBeside;
    forall j | 0 <= j < |c.ids|
      ensures q > 0 && (Succeeds(c, j) <==>
        |c.r| == 2 || forall i :: 0 <= i < |c.r| && i != Before(|c.r|, j) ==> !SameBeside(c.r, q, i))
    {
      SucceedsIff(c, q, j);
    }
    SucceedsIff(c, q, 0);
    if AllSucceed(c) && |c.r| > 2 {
      forall i | 0 <= i < |c.r| ensures !SameBeside(c.r, q, i) {
        assert i != Before(|c.r|, i) && Succeeds(c, i);
      }
    }
  }

  /** Three nodes with the secrets 1, 2 and 1: only the last one gets a key. */
  lemma EqualSecretsFail<P(!new)>(c: Config<P>, q: int)
    requires GoodConfig(c) && PrimeGroup(c.g, q) && c.base != c.g.zero && q > 2 && c.r == [1, 2, 1]
    ensures !Succeeds(c, 0) && !Succeeds(c, 1) && Succeeds(c, 2)
  {
    hide Times, Abelian, Prime, PrimeGroup, Succeeds;
    assert SameBeside(c.r, q, 1);
    SucceedsIff(c, q, 0);
    SucceedsIff(c, q, 1);
    SucceedsIff(c, q, 2);
    assert (1 - 2) % q == q - 1 by { ModMultiple(q - 1, -1, q); }
  }

  lemma BeforeSending<P(!new)>(c: Config<P>, net: Network<P>, j: nat) returns (act: Action)
    requires GoodConfig(c) && Inv(c, net) && j < |c.ids| && !HasSent(net.seats[j])
    ensures Enabled(c, net, act)
  {
    hide Gathered, PointOf, ValueOf, Times, RingSum, Abelian;
    var n, s, row := |c.ids|, net.seats[j], net.taken[j];
    assert SeatInv(c, j, s, row);
    BesideOther(n, j);
    TwosBound(row, j);
    BothFlags(s.got.count);
    if row[Before(n, j)] == 0 { return Read(j, Before(n, j)); }
    if row[After(n, j)] == 0 { return Read(j, After(n, j)); }
    act := Send(j);
  }

  lemma BothFlags(x: bv8)
    ensures x <= 4 && x != 4 && x & 1 != 0 && x & 2 != 0 ==> x == 3
    ensures x <= 4 && x != 4 ==> x < 4
  {
  }

  lemma AfterSending<P(!new)>(c: Config<P>, net: Network<P>, j: nat) returns (act: Action)
    requires GoodConfig(c) && Inv(c, net) && j < |c.ids| && !net.seats[j].failed && !net.seats[j].done
    requires forall i :: 0 <= i < |c.ids| ==> HasSent(net.seats[i])
    ensures Enabled(c, net, act)
  {
    hide Gathered, PointOf, ValueOf, Times, RingSum, Abelian;
    var n, s, row := |c.ids|, net.seats[j], net.taken[j];
    assert SeatInv(c, j, s, row);
    TwosBound(row, j);
    if i :| 0 <= i < n && i != j && row[i] != 2 { return Read(j, i); }
    act := Finish(j);
  }

  /** One node's part of the work done: packets read, its value sent, its end. */
  function SeatWork<P>(s: Seat<P>, row: seq<nat>): nat {
    MkaNetwork.RowSum(row) + (if HasSent(s) then 1 else 0) + (if s.done || s.failed then 1 else 0)
  }

  function Work<P>(net: Network<P>): (w: seq<nat>)
    requires |net.seats| == |net.taken|
    ensures |w| == |net.seats| && forall j :: 0 <= j < |w| ==> w[j] == SeatWork(net.seats[j], net.taken[j])
  {
    seq(|net.seats|, j requires 0 <= j < |net.seats| => SeatWork(net.seats[j], net.taken[j]))
  }

  lemma WorkGrows<P(!new)>(c: Config<P>, net: Network<P>, act: Action, net': Network<P>)
    requires GoodConfig(c) && Inv(c, net) && Enabled(c, net, act) && Next(c, net, act, net')
    ensures Shaped(c, net') && MkaNetwork.RowSum(Work(net)) < MkaNetwork.RowSum(Work(net'))
  {
    hide Abelian, Times, SeatInv, MayFinish, MkaNetwork.RowSum, PointOf, ValueOf;
    var j := match act case Read(at, _) => at case Send(at) => at case Finish(at) => at;
    if act.Read? {
      MkaNetwork.RowUpdate(net.taken[j], act.src, net.taken[j][act.src] + 1);
      AtMostTwo(c, j, net.seats[j], net.taken[j], act.src);
      CountKept(c, j, net.seats[j], net.taken[j], NextPacket(c, net, j, act.src), act.src);
    }
    if act.Finish? { FinishEnds(c, j, net.seats[j], net'.seats[j]); }
    assert Work(net') == Work(net)[j := Work(net')[j]];
    MkaNetwork.RowLess(Work(net), Work(net'), j);
  }

  lemma FinishEnds<P(!new)>(c: Config<P>, j: nat, s: Seat<P>, s': Seat<P>)
    requires |c.ids| == |c.r| && j < |c.ids| && MayFinish(c, j, s, s')
    ensures s'.got.count == s.got.count && (s'.done || s'.failed)
  {
    hide FromOwnPlace, KeySum, KeyComputes;
  }

  lemma CountKept<P(!new)>(c: Config<P>, j: nat, s: Seat<P>, row: seq<nat>, p: Packet<P>, i: nat)
    requires GoodConfig(c) && j < |c.ids| && SeatInv(c, j, s, row) && i < |c.ids| == |row| && p.src == c.ids[i]
    requires p.cmd == CMD_BD1_Xi || row[i] == 0
    ensures Before(|c.ids|, j) < |c.ids| && After(|c.ids|, j) < |c.ids|
    ensures HasSent(s) ==> Collect(s.got, c.ids[Before(|c.ids|, j)], c.ids[After(|c.ids|, j)], p).count == 4
  {
    hide Abelian, Times, RingSum, Gathered, PointOf, ValueOf, Consistent;
    var n := |c.ids|;
    BesideOther(n, j);
    if HasSent(s) {
      if c.ids[i] == c.ids[Before(n, j)] { DistinctIds(c.ids, i, Before(n, j)); }
      if c.ids[i] == c.ids[After(n, j)] { DistinctIds(c.ids, i, After(n, j)); }
    }
  }

  lemma WorkBound<P(!new)>(c: Config<P>, net: Network<P>)
    requires |c.ids| == |c.r| && Inv(c, net)
    ensures MkaNetwork.RowSum(Work(net)) <= |c.ids| * (|c.ids| * 2 + 2)
  {
    hide SeatInv, MkaNetwork.RowSum;
    var n := |c.ids|;
    forall j | 0 <= j < n ensures Work(net)[j] <= n * 2 + 2 {
      forall i | 0 <= i < n ensures net.taken[j][i] <= 2 { AtMostTwo(c, j, net.seats[j], net.taken[j], i); }
      MkaNetwork.RowBound(net.taken[j], 2);
    }
    MkaNetwork.RowBound(Work(net), n * 2 + 2);
  }

  /** No run is longer than n (2 n + 2) actions: with Progress, every run goes on until every node has
      completed or failed. */
  lemma {:induction false} RunsEnd<P(!new)>(c: Config<P>, nets: seq<Network<P>>, acts: seq<Action>, t: nat)
    requires IsRun(c, nets, acts) && t <= |acts|
    ensures Shaped(c, nets[t]) && t <= MkaNetwork.RowSum(Work(nets[t])) <= |c.ids| * (|c.ids| * 2 + 2)
  {
    hide Inv, Enabled, Start, Next, MkaNetwork.RowSum, Work;
    RunInv(c, nets, acts, t);
    WorkBound(c, nets[t]);
    InvShaped(c, nets[t]);
    if t > 0 {
      RunsEnd(c, nets, acts, t - 1);
      RunInv(c, nets, acts, t - 1);
      WorkGrows(c, nets[t - 1], acts[t - 1], nets[t]);
    }
  }

  lemma InvShaped<P(!new)>(c: Config<P>, net: Network<P>)
    requires |c.ids| == |c.r| && Inv(c, net)
    ensures Shaped(c, net)
  {
  }

  // ---- Runs to the end --------------------------------------------------------------------

  /** With different ids, at most one of the entries is one's own. */
  lemma {:induction false} OthersDistinct<P>(s: seq<Entry<P>>, id: nat)
    requires forall x, y :: 0 <= x < y < |s| ==> s[x].id != s[y].id
    ensures Others(s, id) + 1 >= |s|
    ensures (forall x :: 0 <= x < |s| ==> s[x].id != id) ==> Others(s, id) == |s|
  {
    if s != [] { OthersDistinct(s[..|s| - 1], id); }
  }

  lemma EnoughOthers<P(!new)>(c: Config<P>, j: nat, s: Seat<P>, row: seq<nat>)
    requires j < |c.ids| == |c.r| && SeatInv(c, j, s, row)
    ensures |KeysAbove(s.got.xs, c.ids[j])| + |EntriesBelow(s.got.xs, c.ids[j])| + 1 >= |s.got.xs|
    ensures !s.done && !s.failed ==> |s.got.xs| <= |c.ids|
  {
    hide KeysAbove, EntriesBelow, PointOf, ValueOf, Succeeds, Times, RingSum, HasSender, Others;
    OthersLength(s.got.xs, c.ids[j]);
    OthersDistinct(s.got.xs, c.ids[j]);
    TwosBound(row, j);
  }

  lemma {:induction false} InsertById<P>(s: seq<Entry<P>>, e: Entry<P>) returns (t: seq<Entry<P>>)
    requires ById(s)
    ensures ById(t) && multiset(t) == multiset(s) + multiset{e} && |t| == |s| + 1
    ensures t[|t| - 1] == e || (s != [] && t[|t| - 1] == s[|s| - 1])
    decreases |s|
  {
    var n := |s| - 1;
    if s == [] || s[n].id <= e.id {
      t := s + [e];
    } else {
      var u := InsertById(s[..n], e);
      assert s == s[..n] + [s[n]];
      t := u + [s[n]];
      LastIsGreatest(u);
    }
  }

  lemma LastIsGreatest<P>(s: seq<Entry<P>>)
    requires ById(s) && s != []
    ensures forall x :: 0 <= x < |s| ==> s[x].id <= s[|s| - 1].id
  {
  }

  lemma {:induction false} SortingExists<P>(q: seq<Entry<P>>) returns (sorted: seq<Entry<P>>)
    ensures Sorting(q, sorted)
    decreases |q|
  {
    if q == [] { return []; }
    var n := |q| - 1;
    var s := SortingExists(q[..n]);
    assert q == q[..n] + [q[n]];
    sorted := InsertById(s, q[n]);
  }

  /** What is enabled can happen. */
  lemma NextExists<P(!new)>(c: Config<P>, net: Network<P>, act: Action) returns (net': Network<P>)
    requires GoodConfig(c) && Inv(c, net) && Enabled(c, net, act)
    ensures Next(c, net, act, net')
  {
    hide SeatInv, Abelian, PointOf, ValueOf, Times, Collect;
    var n := |c.ids|;
    match act
    case Read(j, i) =>
      net' := AfterRead(c, net, j, i);
    case Send(j) =>
      var s := net.seats[j];
      SendRight(c, j, s, net.taken[j]);
      var X := Times(c.g, c.r[j], c.g.add(s.got.zNext.value, c.g.neg(s.got.zPrev.value)));
      net' := net.(seats := net.seats[j :=
        s.(z := s.got.zPrev.value, X := X, got := s.got.(count := 4, xs := s.got.xs + [Entry(c.ids[j], X)]))]);
    case Finish(j) =>
      var s' := FinishExists(c, j, net.seats[j], net.taken[j]);
      net' := net.(seats := net.seats[j := s']);
  }

  lemma FinishExists<P(!new)>(c: Config<P>, j: nat, s: Seat<P>, row: seq<nat>) returns (s': Seat<P>)
    requires GoodConfig(c) && j < |c.ids| && SeatInv(c, j, s, row) && |s.got.xs| == |c.ids|
    ensures MayFinish(c, j, s, s')
  {
    hide SeatInv, Abelian, KeySum, KeyComputes, KeysAbove, EntriesBelow, Sorting;
    EnoughOthers(c, j, s, row);
    var sorted := SortingExists(s.got.xs);
    var buf := KeysAbove(sorted, c.ids[j]) + Keys(EntriesBelow(sorted, c.ids[j]));
    assert FromOwnPlace(s.got.xs, c.ids[j], buf);
    OrderLength(s.got.xs, buf, c.ids[j]);
    s' := Finished(c, j, s, buf);
  }

  ghost predicate IsEnd<P(!new)>(c: Config<P>, net: Network<P>) {
    forall act :: !Enabled(c, net, act)
  }

  ghost predicate AllDone<P>(net: Network<P>) {
    forall j :: 0 <= j < |net.seats| ==> net.seats[j].done
  }

  ghost predicate AllSucceed<P(!new)>(c: Config<P>) {
    forall j :: 0 <= j < |c.ids| ==> Succeeds(c, j)
  }

  /** Every run goes on to an end. */
  lemma {:induction false} Extends<P(!new)>(c: Config<P>, nets: seq<Network<P>>, acts: seq<Action>)
    returns (nets': seq<Network<P>>, acts': seq<Action>)
    requires IsRun(c, nets, acts)
    ensures IsRun(c, nets', acts') && IsEnd(c, nets'[|acts'|]) && nets <= nets' && acts <= acts'
    decreases |c.ids| * (|c.ids| * 2 + 2) - |acts|
  {
    hide Enabled, Next, Start, Abelian, MkaNetwork.RowSum, Work, Shaped, Inv;
    RunsEnd(c, nets, acts, |acts|);
    if IsEnd(c, nets[|acts|]) { return nets, acts; }
    var act :| Enabled(c, nets[|acts|], act);
    RunInv(c, nets, acts, |acts|);
    var net := NextExists(c, nets[|acts|], act);
    var nets1, acts1 := nets + [net], acts + [act];
    RunsEnd(c, nets1, acts1, |acts1|);
    nets', acts' := Extends(c, nets1, acts1);
  }

  /** Some run ends with the key at all nodes, and then every run that comes to its end, if and only if
      all calls are to succeed. */
  lemma CompletesIff<P(!new)>(c: Config<P>)
    requires GoodConfig(c)
    ensures (exists nets, acts :: IsRun(c, nets, acts) && AllDone(nets[|acts|])) <==> AllSucceed(c)
  {
    hide Enabled, Next, Start, Abelian, Succeeds;
    if nets, acts :| IsRun(c, nets, acts) && AllDone(nets[|acts|]) {
      forall j | 0 <= j < |c.ids| ensures Succeeds(c, j) { Outcome(c, nets, acts, |acts|, j); }
    }
    if AllSucceed(c) {
      var nets, acts := Extends(c, [Start(c)], []);
      EndsDone(c, nets, acts);
    }
  }

  lemma EndsDone<P(!new)>(c: Config<P>, nets: seq<Network<P>>, acts: seq<Action>)
    requires IsRun(c, nets, acts) && AllSucceed(c) && IsEnd(c, nets[|acts|])
    ensures AllDone(nets[|acts|])
  {
    hide Enabled, Next, Start, Abelian, Succeeds;
    Outcome(c, nets, acts, |acts|, 0);
    forall j | 0 <= j < |c.ids| ensures nets[|acts|].seats[j].done { Outcome(c, nets, acts, |acts|, j); }
  }
}
