/** The objects of Bd1Exchange are the nodes of Bd1Network: one update() of an object is a path of the
    network's actions at its node. */
module Bd1Simulation {
  import opened Bignum
  import opened Groups
  import opened CombMul
  import opened Ecp
  import opened Neighbours
  import opened Bd1
  import opened Bd1Exchange
  import opened Bd1Network

  // ---- Objects and seats ------------------------------------------------------------------

  ghost function SeatOf<P(!new)>(x: Bd1KeyExchange<P>): Seat<P>
    reads x, x.ctx
  {
    Seat(x.got, x.ctx.z, x.ctx.X, x.completed, x.failed, x.key)
  }

  /** What node j has broadcast. */
  ghost function SentBy<P(!new)>(c: Config<P>, j: nat, s: Seat<P>): seq<Packet<P>>
    requires j < |c.ids|
  {
    [Packet(0x20, c.ids[j], Some(PointOf(c, j)))]
    + if HasSent(s) then [Packet(0x21, c.ids[j], Some(s.X))] else []
  }

  /** x is set up as node j: it may have been given the ids in any order. */
  ghost predicate IsNode<P(!new)>(c: Config<P>, j: nat, x: Bd1KeyExchange<P>)
    reads x, x.ctx, x.ctx.grp, x.ctx.grp.N, x.ctx.grp.T, x.ctx.r
  {
    && GoodConfig(c) && j < |c.ids|
    && x.Valid() && Distinct(x.ids) && multiset(x.ids) == multiset(c.ids) && x.self == c.ids[j]
    && x.ctx.grp.curve == c.g && x.ctx.grp.G == c.base && x.ctx.r.Value() == c.r[j]
  }

  /** x is in the state of node j. */
  ghost predicate Plays<P(!new)>(c: Config<P>, net: Network<P>, j: nat, x: Bd1KeyExchange<P>)
    reads x, x.ctx, x.ctx.grp, x.ctx.grp.N, x.ctx.grp.T, x.ctx.r
  {
    && IsNode(c, j, x) && Shaped(c, net)
    && SeatOf(x) == net.seats[j] && x.sent == SentBy(c, j, net.seats[j])
  }

  lemma Places<P(!new)>(c: Config<P>, j: nat, x: Bd1KeyExchange<P>)
    requires IsNode(c, j, x)
    ensures |x.ids| == |c.ids| && x.prev == c.ids[Before(|c.ids|, j)] && x.next == c.ids[After(|c.ids|, j)]
  {
    hide Limbs.Val, GoodGroup, CountBelow, IsPredecessor, IsSuccessor, Abelian;
    assert |multiset(x.ids)| == |x.ids| && |multiset(c.ids)| == |c.ids|;
    RingPlaces(x.ids, c.ids, j, x.prev, x.next);
  }

  /** A new object plays its node at the start. */
  method Boot<P(!new, ==)>(ghost c: Config<P>, order: seq<nat>, self: nat, ghost j: nat, grp: EcpGroup<P>, r: Mpi)
    returns (x: Bd1KeyExchange<P>)
    requires GoodConfig(c) && j < |c.ids| && self == c.ids[j]
    requires Distinct(order) && multiset(order) == multiset(c.ids)
    requires GoodGroup(grp) && r != grp.N && r.p != [] && 1 <= r.Value() < grp.N.Value()
    requires grp.G != grp.curve.zero && |order| < grp.N.Value()
    requires grp.curve == c.g && grp.G == c.base && r.Value() == c.r[j]
    modifies grp`T
    ensures Plays(c, Start(c), j, x) && x.inbox == []
  {
    hide Limbs.Val, GoodGroup, Times, CountBelow, IsPredecessor, IsSuccessor, Abelian;
    SameMembers(order, c.ids);
    assert |multiset(order)| == |order| && |multiset(c.ids)| == |c.ids|;
    x := new Bd1KeyExchange(order, self, grp, r);
  }

  // ---- Reading ----------------------------------------------------------------------------

  /** Something in the inbox: the next broadcast of another node, or a packet without effect. */
  datatype Item<+P> = From(src: nat) | Foreign(packet: Packet<P>)

  /** A packet of another size or command, or the point of a node that is no neighbour. */
  predicate IsForeign<P>(prev: nat, next: nat, p: Packet<P>) {
    p.data.None? || (p.cmd != 0x20 && p.cmd != 0x21) || (p.cmd == 0x20 && p.src != prev && p.src != next)
  }

  /** The broadcasts are waiting for node j, to be read in this order, with others between them. */
  ghost predicate AllWaiting<P(!new)>(c: Config<P>, net: Network<P>, j: nat, items: seq<Item<P>>)
    decreases |items|
  {
    && Shaped(c, net) && j < |c.ids|
    && (items == [] ||
        match items[0]
        case From(i) => HasPacket(c, net, j, i) && AllWaiting(c, AfterRead(c, net, j, i), j, items[1..])
        case Foreign(p) =>
          && IsForeign(c.ids[Before(|c.ids|, j)], c.ids[After(|c.ids|, j)], p)
          && AllWaiting(c, net, j, items[1..]))
  }

  /** The packets themselves. */
  ghost function Coming<P(!new)>(c: Config<P>, net: Network<P>, j: nat, items: seq<Item<P>>): seq<Packet<P>>
    requires AllWaiting(c, net, j, items)
    decreases |items|
  {
    if items == [] then []
    else
      match items[0]
      case From(i) => [NextPacket(c, net, j, i)] + Coming(c, AfterRead(c, net, j, i), j, items[1..])
      case Foreign(p) => [p] + Coming(c, net, j, items[1..])
  }

  lemma ForeignCollected<P>(c: Collected<P>, prev: nat, next: nat, p: Packet<P>)
    requires IsForeign(prev, next, p)
    ensures Collect(c, prev, next, p) == c
  {
  }

  /** The networks differ at most in the seat of node j. */
  ghost predicate OnlySeat<P>(net: Network<P>, net': Network<P>, j: nat) {
    && net.taken == net'.taken && |net.seats| == |net'.seats|
    && forall i :: 0 <= i < |net.seats| && i != j ==> net.seats[i] == net'.seats[i]
  }

  /** What comes does not depend on node j itself. */
  lemma {:induction false} ComingSame<P(!new)>(c: Config<P>, net: Network<P>, net': Network<P>, j: nat,
      items: seq<Item<P>>)
    requires AllWaiting(c, net, j, items) && OnlySeat(net, net', j)
    ensures AllWaiting(c, net', j, items) && Coming(c, net', j, items) == Coming(c, net, j, items)
    decreases |items|
  {
    hide PointOf, Collect, IsForeign;
    if items != [] {
      match items[0]
      case From(i) => ComingSame(c, AfterRead(c, net, j, i), AfterRead(c, net', j, i), j, items[1..]);
      case Foreign(p) => ComingSame(c, net, net', j, items[1..]);
    }
  }

  /** Reading a packet does not change whether the own value is sent. */
  lemma ReadKeepsSent<P(!new)>(c: Config<P>, net: Network<P>, j: nat, i: nat)
    requires GoodConfig(c) && Inv(c, net) && Enabled(c, net, Read(j, i))
    ensures HasSent(AfterRead(c, net, j, i).seats[j]) == HasSent(net.seats[j])
  {
    hide Abelian, Gathered, PointOf, ValueOf, Succeeds, Groups.Times, Bd1Ring.RingSum, Consistent;
    var s, row := net.seats[j], net.taken[j];
    assert SeatInv(c, j, s, row);
    CountKept(c, j, s, row, NextPacket(c, net, j, i), i);
    FlagRange(s.got.count);
    FlagRange(s.got.count | 1);
  }

  lemma PathCons<P(!new)>(c: Config<P>, net: Network<P>, act: Action, nets: seq<Network<P>>, acts: seq<Action>)
    requires |c.ids| == |c.r| && IsPath(c, nets, acts) && Enabled(c, net, act) && Next(c, net, act, nets[0])
    ensures IsPath(c, [net] + nets, [act] + acts)
  {
    hide Enabled, Next;
  }

  lemma PathAppend<P(!new)>(c: Config<P>, nets: seq<Network<P>>, acts: seq<Action>, act: Action, net: Network<P>)
    requires |c.ids| == |c.r| && IsPath(c, nets, acts)
    requires Enabled(c, nets[|acts|], act) && Next(c, nets[|acts|], act, net)
    ensures IsPath(c, nets + [net], acts + [act])
  {
    hide Enabled, Next;
  }

  /** The reading loop is a path of reads. */
  lemma {:induction false} ReadsArePath<P(!new)>(c: Config<P>, net: Network<P>, j: nat, items: seq<Item<P>>)
    returns (k: nat, nets: seq<Network<P>>, acts: seq<Action>)
    requires GoodConfig(c) && Inv(c, net) && AllWaiting(c, net, j, items)
    requires !net.seats[j].done && !net.seats[j].failed
    ensures |nets| == |acts| + 1
    ensures IsPath(c, nets, acts) && nets[0] == net && (forall t :: 0 <= t < |acts| ==> acts[t].at == j)
    ensures var last, n := nets[|acts|], |c.ids|;
      && Inv(c, last) && k <= |items| && AllWaiting(c, last, j, items[k..])
      && (k == |items| || |last.seats[j].got.xs| >= n)
      && CollectAll(net.seats[j].got, c.ids[Before(n, j)], c.ids[After(n, j)], n, Coming(c, net, j, items))
         == (last.seats[j].got, Coming(c, last, j, items[k..]))
      && last.seats[j] == net.seats[j].(got := last.seats[j].got)
      && HasSent(last.seats[j]) == HasSent(net.seats[j])
    decreases |items|
  {
    hide Inv, Abelian, PointOf, Collect, IsForeign;
    if items == [] || |net.seats[j].got.xs| >= |c.ids| {
      assert items[0..] == items;
      return 0, [net], [];
    }
    var k1;
    match items[0] {
      case Foreign(p) =>
        ForeignCollected(net.seats[j].got, c.ids[Before(|c.ids|, j)], c.ids[After(|c.ids|, j)], p);
        k1, nets, acts := ReadsArePath(c, net, j, items[1..]);
      case From(i) =>
        var act, net1 := Read(j, i), AfterRead(c, net, j, i);
        assert Enabled(c, net, act) && Next(c, net, act, net1);
        NextInv(c, net, act, net1);
        ReadKeepsSent(c, net, j, i);
        var nets1, acts1;
        k1, nets1, acts1 := ReadsArePath(c, net1, j, items[1..]);
        PathCons(c, net, act, nets1, acts1);
        nets, acts := [net] + nets1, [act] + acts1;
    }
    k := k1 + 1;
    assert items[1..][k1..] == items[k..];
  }

  // ---- update() ---------------------------------------------------------------------------

  /** An action at node j, or none. */
  ghost predicate AtMostOne<P(!new)>(c: Config<P>, net: Network<P>, act: Action, net': Network<P>)
    requires |c.ids| == |c.r|
  {
    net' == net || (Enabled(c, net, act) && Next(c, net, act, net'))
  }

  /** The block that sends the own value. */
  method SendIfReady<P(!new, ==)>(ghost c: Config<P>, ghost net: Network<P>, ghost j: nat, x: Bd1KeyExchange<P>)
    returns (ghost net': Network<P>)
    requires Plays(c, net, j, x) && Inv(c, net) && !x.completed && !x.failed
    modifies x`got, x`sent, x.ctx`z, x.ctx`X, x.ctx.grp`T
    ensures AtMostOne(c, net, Send(j), net') && OnlySeat(net, net', j)
    ensures Plays(c, net', j, x) && Inv(c, net') && !Enabled(c, net', Send(j))
  {
    hide Limbs.Val, GoodGroup, Times, IsPredecessor, IsSuccessor, Abelian, SeatInv, PointOf, Distinct, Consistent,
         MayFinish;
    net' := net;
    if x.got.count == 3 {
      ghost var old' := x.got;
      x.SendValue();
      net' := net.(seats := net.seats[j := SeatOf(x)]);
      NextInv(c, net, Send(j), net');
    }
  }

  /** The block that computes the key. */
  method FinishIfReady<P(!new, ==)>(ghost c: Config<P>, ghost net: Network<P>, ghost j: nat, x: Bd1KeyExchange<P>)
    returns (ghost net': Network<P>)
    requires Plays(c, net, j, x) && Inv(c, net) && !x.completed && !x.failed && !Enabled(c, net, Send(j))
    modifies x`got, x`completed, x`failed, x`key, x.ctx.grp`T
    ensures AtMostOne(c, net, Finish(j), net') && OnlySeat(net, net', j)
    ensures Plays(c, net', j, x) && Inv(c, net')
    ensures !Enabled(c, net', Send(j)) && !Enabled(c, net', Finish(j))
    ensures |net.seats[j].got.xs| >= |c.ids| ==> x.completed || x.failed
  {
    hide Limbs.Val, GoodGroup, Times, IsPredecessor, IsSuccessor, Abelian, SeatInv, PointOf, ValueOf, Distinct,
         Consistent, KeySum, KeyComputes, KeysAbove, EntriesBelow, FromOwnPlace;
    net' := net;
    Places(c, j, x);
    assert SeatInv(c, j, net.seats[j], net.taken[j]);
    EnoughOthers(c, j, net.seats[j], net.taken[j]);
    if |x.got.xs| == |x.ids| {
      ghost var s := SeatOf(x);
      var ok, buf := x.FinishKey();
      assert SeatOf(x) == Finished(c, j, s, buf);
      net' := net.(seats := net.seats[j := SeatOf(x)]);
      NextInv(c, net, Finish(j), net');
    }
  }

  /** One update() on the packets that wait for the node: a path of reads, then the own value if both
      points are there, then the key if all values are there; and no such thing is left to do. */
  method Update<P(!new, ==)>(ghost c: Config<P>, ghost net: Network<P>, ghost j: nat, ghost items: seq<Item<P>>,
      x: Bd1KeyExchange<P>)
    returns (ghost k: nat, ghost nets: seq<Network<P>>, ghost acts: seq<Action>)
    requires Plays(c, net, j, x) && Inv(c, net) && !x.completed && !x.failed
    requires AllWaiting(c, net, j, items) && x.inbox == Coming(c, net, j, items)
    modifies x`got, x`inbox, x`sent, x`completed, x`failed, x`key, x.ctx`z, x.ctx`X, x.ctx.grp`T
    ensures |nets| == |acts| + 1
    ensures IsPath(c, nets, acts) && nets[0] == net && (forall t :: 0 <= t < |acts| ==> acts[t].at == j)
    ensures Plays(c, nets[|acts|], j, x) && Inv(c, nets[|acts|])
    ensures k <= |items| && AllWaiting(c, nets[|acts|], j, items[k..])
    ensures x.inbox == Coming(c, nets[|acts|], j, items[k..])
    ensures k == |items| || x.completed || x.failed
    ensures !Enabled(c, nets[|acts|], Send(j)) && !Enabled(c, nets[|acts|], Finish(j))
  {
    hide Limbs.Val, GoodGroup, Times, IsPredecessor, IsSuccessor, Abelian, Inv, PointOf, ValueOf, Distinct,
         Consistent, IsPath, Enabled, AllWaiting, Coming, Shaped, AtMostOne;
    InvShaped(c, net);
    Places(c, j, x);
    k, nets, acts := ReadsArePath(c, net, j, items);
    ghost var net1 := nets[|acts|];
    InvShaped(c, net1);
    ShapedSeat(c, net1, j);
    x.ReadPackets();
    ghost var net2 := SendIfReady(c, net1, j, x);
    nets, acts := Longer(c, nets, acts, Send(j), net2);
    ComingSame(c, net1, net2, j, items[k..]);
    assert |net1.seats[j].got.xs| >= |c.ids| ==> |net2.seats[j].got.xs| >= |c.ids| by { AtMostMore(c, net1, j, net2); }
    ghost var net3 := FinishIfReady(c, net2, j, x);
    nets, acts := Longer(c, nets, acts, Finish(j), net3);
    ComingSame(c, net2, net3, j, items[k..]);
  }

  lemma ShapedSeat<P(!new)>(c: Config<P>, net: Network<P>, j: nat)
    requires Shaped(c, net) && j < |c.ids|
    ensures j < |net.seats|
  {
  }

  lemma AtMostMore<P(!new)>(c: Config<P>, net: Network<P>, j: nat, net': Network<P>)
    requires |c.ids| == |c.r| && AtMostOne(c, net, Send(j), net') && Shaped(c, net) && j < |c.ids|
    ensures |net'.seats| == |net.seats| == |c.ids| && |net'.seats[j].got.xs| >= |net.seats[j].got.xs|
  {
    hide Times;
  }

  lemma Longer<P(!new)>(c: Config<P>, nets: seq<Network<P>>, acts: seq<Action>, act: Action, net: Network<P>)
    returns (nets': seq<Network<P>>, acts': seq<Action>)
    requires |c.ids| == |c.r| && IsPath(c, nets, acts) && AtMostOne(c, nets[|acts|], act, net)
    requires forall t :: 0 <= t < |acts| ==> acts[t].at == act.at
    ensures |nets'| == |acts'| + 1
    ensures IsPath(c, nets', acts') && nets'[0] == nets[0] && nets'[|acts'|] == net
    ensures forall t :: 0 <= t < |acts'| ==> acts'[t].at == act.at
  {
    hide Enabled, Next;
    if net == nets[|acts|] { return nets, acts; }
    PathAppend(c, nets, acts, act, net);
    nets', acts' := nets + [net], acts + [act];
  }

  /** The other nodes, and with them the objects that play them, are left alone. */
  lemma OthersPlay<P(!new)>(c: Config<P>, net: Network<P>, act: Action, net': Network<P>, i: nat, x: Bd1KeyExchange<P>)
    requires GoodConfig(c) && Enabled(c, net, act) && Next(c, net, act, net') && i != act.at && Plays(c, net, i, x)
    ensures Plays(c, net', i, x)
  {
    hide Limbs.Val, GoodGroup, Times, Collect, PointOf, MayFinish, Distinct, Abelian, IsPredecessor, IsSuccessor;
  }
}
