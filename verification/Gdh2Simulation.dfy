/** The objects of Gdh2Exchange are the nodes of Gdh2Network: what on_recv does to an object is what
    the network's action does to its node. */
module Gdh2Simulation {
  import opened Bignum
  import opened Groups
  import opened CombMul
  import opened Ecp
  import opened Neighbours
  import opened Gdh2
  import opened Gdh2Exchange
  import opened Gdh2Network

  /** The packet in which node i sends its list; ids are the nodes' ids in the order of their places. */
  function PacketOf<P>(ids: seq<nat>, i: nat, s: seq<P>): Packet<P>
    requires i < |ids|
  {
    if i + 1 == |ids| then Broadcast(ids[i], 0x26, s)
    else Directed(ids[i], ids[i + 1], 0x25, s)
  }

  /** The packet that an action delivers. */
  ghost function PacketFor<P(!new)>(c: Config<P>, net: Network<P>, ids: seq<nat>, act: Action): Packet<P>
    requires |ids| == |c.secrets| && Enabled(c, net, act)
  {
    var i := if act.Pass? then act.at - 1 else |ids| - 1;
    PacketOf(ids, i, net.sent[i].value)
  }

  /** x is set up as node i: it may have been given the ids in any order. */
  ghost predicate IsNode<P(!new)>(c: Config<P>, ids: seq<nat>, i: nat, x: Gdh2Node<P>)
    reads x, x.ctx, x.ctx.grp, x.ctx.grp.N, x.ctx.grp.T, x.ctx.priv
  {
    && Ascending(ids) && |ids| == |c.secrets| && i < |ids|
    && x.Valid() && Distinct(x.ids) && multiset(x.ids) == multiset(ids) && x.self == ids[i]
    && x.ctx.grp.curve == c.g && x.ctx.grp.G == c.base && x.ctx.priv.Value() == c.secrets[i]
  }

  /** x is in the state of node i. */
  ghost predicate Plays<P(!new)>(c: Config<P>, net: Network<P>, ids: seq<nat>, i: nat, x: Gdh2Node<P>)
    reads x, x.ctx, x.ctx.grp, x.ctx.grp.N, x.ctx.grp.T, x.ctx.priv
  {
    && IsNode(c, ids, i, x) && Shaped(c, net)
    && (x.completed <==> net.keys[i].Some?) && (x.completed ==> x.ctx.key == net.keys[i].value)
    && x.outbox == if net.sent[i].Some? then [PacketOf(ids, i, net.sent[i].value)] else []
  }

  lemma Places<P(!new)>(c: Config<P>, ids: seq<nat>, i: nat, x: Gdh2Node<P>)
    requires IsNode(c, ids, i, x) && |ids| >= 2
    ensures |x.ids| == |ids| && x.pos == i + 1
    ensures x.prev == ids[if i == 0 then |ids| - 1 else i - 1] && x.next == ids[if i + 1 == |ids| then 0 else i + 1]
    ensures x.last == ids[|ids| - 1] && (x.self == x.last <==> i + 1 == |ids|)
    ensures x.first == ids[0] && (x.self == x.first <==> i == 0)
  {
    hide Limbs.Val, GoodGroup, CountBelow, IsPredecessor, IsSuccessor;
    assert |multiset(x.ids)| == |x.ids| && |multiset(ids)| == |ids|;
    RingPlaces(x.ids, ids, i, x.prev, x.next);
    SameMembers(x.ids, ids);
    EndPlaces(ids, x.first, x.last);
    SamePlace(ids, i, 0);
    SamePlace(ids, i, |ids| - 1);
  }

  lemma EndPlaces(ids: seq<nat>, first: nat, last: nat)
    requires Ascending(ids) && ids != [] && first in ids && last in ids
    requires (forall x :: x in ids ==> first <= x) && forall x :: x in ids ==> x <= last
    ensures first == ids[0] && last == ids[|ids| - 1]
  {
    var i :| 0 <= i < |ids| && ids[i] == first;
    var k :| 0 <= k < |ids| && ids[k] == last;
    assert ids[0] in ids && ids[|ids| - 1] in ids;
  }

  lemma SamePlace(ids: seq<nat>, i: nat, k: nat)
    requires Ascending(ids) && i < |ids| && k < |ids|
    ensures ids[i] == ids[k] <==> i == k
  {
  }

  /** A new object plays its node at the start. */
  method Boot<P(!new, ==)>(ghost c: Config<P>, order: seq<nat>, ghost ids: seq<nat>, self: nat, ghost i: nat,
      grp: EcpGroup<P>, priv: Mpi)
    returns (x: Gdh2Node<P>)
    requires Ascending(ids) && |ids| == |c.secrets| >= 2 && i < |ids| && self == ids[i]
    requires Distinct(order) && multiset(order) == multiset(ids)
    requires GoodGroup(grp) && priv != grp.N && 1 <= priv.Value() < grp.N.Value() && grp.G != grp.curve.zero
    requires grp.curve == c.g && grp.G == c.base && priv.Value() == c.secrets[i]
    modifies grp`T
    ensures Plays(c, Start(c), ids, i, x)
  {
    hide Limbs.Val, GoodGroup, Times, CountBelow, IsPredecessor, IsSuccessor, IsFirst, IsLast;
    SameMembers(order, ids);
    assert |multiset(order)| == |order| && |multiset(ids)| == |ids|;
    x := new Gdh2Node(order, self, grp, priv);
    Places(c, ids, i, x);
  }

  /** An object that receives the packet of an action does what the network does. */
  method Receive<P(!new, ==)>(ghost c: Config<P>, ghost net: Network<P>, ghost ids: seq<nat>, ghost act: Action,
      p: Packet<P>, x: Gdh2Node<P>)
    returns (ok: bool)
    requires GoodConfig(c) && Enabled(c, net, act) && LongEnough(c, net) && Plays(c, net, ids, act.at, x)
    requires p == PacketFor(c, net, ids, act)
    modifies x`completed, x`outbox, x.ctx`key, x.ctx.grp`T
    ensures ok <==> !Do(c, net, act).failed
    ensures ok ==> Plays(c, Do(c, net, act), ids, act.at, x)
  {
    hide Limbs.Val, GoodGroup, Times, CountBelow, IsPredecessor, IsSuccessor, IsFirst, IsLast, NoneZero, LastList,
         NextList, PrimeGroup, GetsThrough;
    Places(c, ids, act.at, x);
    ok := x.OnRecv(p);
  }

  /** The other nodes, and with them the objects that play them, are left alone. */
  lemma OthersPlay<P(!new)>(c: Config<P>, net: Network<P>, ids: seq<nat>, act: Action, i: nat, x: Gdh2Node<P>)
    requires Enabled(c, net, act) && LongEnough(c, net) && i != act.at && Plays(c, net, ids, i, x)
    ensures Plays(c, Do(c, net, act), ids, i, x)
  {
    hide Limbs.Val, GoodGroup, Times, NoneZero, LastList, NextList;
  }

  /** In a run the call never fails. */
  method ReceiveInRun<P(!new, ==)>(ghost c: Config<P>, ghost nets: seq<Network<P>>, ghost acts: seq<Action>,
      ghost t: nat, ghost ids: seq<nat>, p: Packet<P>, x: Gdh2Node<P>)
    returns (ok: bool)
    requires IsRun(c, nets, acts) && t < |acts| && Plays(c, nets[t], ids, acts[t].at, x)
    requires p == PacketFor(c, nets[t], ids, acts[t])
    modifies x`completed, x`outbox, x.ctx`key, x.ctx.grp`T
    ensures ok && Plays(c, nets[t + 1], ids, acts[t].at, x)
  {
    hide Do, Inv, LongEnough, Plays, Enabled, Start;
    RunInv(c, nets, acts, t + 1);
    InvNoFailure(c, nets[t + 1]);
    ok := Receive(c, nets[t], ids, acts[t], p, x);
  }

  lemma InvNoFailure<P(!new)>(c: Config<P>, net: Network<P>)
    requires |c.secrets| >= 2 && Inv(c, net)
    ensures !net.failed
  {
  }
}
