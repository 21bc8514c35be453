/** The objects of MkaExchange are the nodes of MkaNetwork: one update() of an object is a path of the
    network's actions at its node, with the copy that the protocol needs or with the one that mka.h
    makes. */
module MkaSimulation {
  import opened Bignum
  import opened Groups
  import opened CombMul
  import opened Primes
  import opened Ecp
  import opened MkaProtocol
  import opened MkaExchange
  import opened MkaNetwork
  import opened MkaAsWrittenRuns

  // ---- Nodes by place and by id -----------------------------------------------------------

  predicate Different(ids: seq<nat>) {
    forall x, y :: 0 <= x < y < |ids| ==> ids[x] != ids[y]
  }

  /** All senders that a node knows of are places. */
  predicate Placed<P>(n: nat, node: Node<P>) {
    && (forall x :: 0 <= x < |node.users| ==> node.users[x] < n)
    && (forall x :: 0 <= x < |node.deferred| ==> node.deferred[x].src < n)
  }

  function IdsOf(ids: seq<nat>, places: seq<nat>): (s: seq<nat>)
    requires forall x :: 0 <= x < |places| ==> places[x] < |ids|
    ensures |s| == |places| && forall x :: 0 <= x < |s| ==> s[x] == ids[places[x]]
  {
    seq(|places|, x requires 0 <= x < |places| => ids[places[x]])
  }

  function EntriesById<P>(ids: seq<nat>, entries: seq<Deferred<P>>): (s: seq<Deferred<P>>)
    requires forall x :: 0 <= x < |entries| ==> entries[x].src < |ids|
    ensures |s| == |entries|
    ensures forall x :: 0 <= x < |s| ==> s[x] == Deferred(ids[entries[x].src], entries[x].value)
  {
    seq(|entries|, x requires 0 <= x < |entries| => Deferred(ids[entries[x].src], entries[x].value))
  }

  /** The same node, with ids for places. */
  function ById<P>(ids: seq<nat>, node: Node<P>): Node<P>
    requires Placed(|ids|, node)
  {
    node.(users := IdsOf(ids, node.users), deferred := EntriesById(ids, node.deferred))
  }

  lemma AcceptById<P>(ids: seq<nat>, node: Node<P>, i: nat, key: P)
    requires Different(ids) && Placed(|ids|, node) && i < |ids|
    ensures Placed(|ids|, Accept(node, i, key))
    ensures ById(ids, Accept(node, i, key)) == Accept(ById(ids, node), ids[i], key)
  {
    var users := IdsOf(ids, node.users);
    if i in node.users {
      var x :| 0 <= x < |node.users| && node.users[x] == i;
      assert users[x] == ids[i];
    } else {
      forall x | 0 <= x < |users| ensures users[x] != ids[i] { assert node.users[x] != i; }
      assert IdsOf(ids, node.users + [i]) == users + [ids[i]];
    }
  }

  lemma {:induction false} ReplayById<P>(ids: seq<nat>, node: Node<P>, entries: seq<Deferred<P>>, copy: Copy<P>)
    requires Different(ids) && Placed(|ids|, node) && forall x :: 0 <= x < |entries| ==> entries[x].src < |ids|
    ensures Placed(|ids|, Replay(node, entries, copy))
    ensures ById(ids, Replay(node, entries, copy)) == Replay(ById(ids, node), EntriesById(ids, entries), copy)
    decreases |entries|
  {
    hide ById, Accept, Placed, Different;
    if entries != [] {
      var e := entries[0];
      AcceptById(ids, node, e.src, CopiedKey(e, copy));
      StepById(ids, node);
      var m := if e.value.step == node.step then Accept(node, e.src, CopiedKey(e, copy)) else node;
      assert EntriesById(ids, entries)[1..] == EntriesById(ids, entries[1..]);
      ReplayById(ids, m, entries[1..], copy);
    }
  }

  lemma StepById<P>(ids: seq<nat>, node: Node<P>)
    requires Placed(|ids|, node)
    ensures ById(ids, node).step == node.step && |ById(ids, node).users| == |node.users|
    ensures ById(ids, node).status == node.status
  {
  }

  lemma ReceiveById<P>(ids: seq<nat>, node: Node<P>, i: nat, v: StepValue<P>)
    requires Different(ids) && Placed(|ids|, node) && i < |ids|
    ensures Placed(|ids|, Receive(node, i, v))
    ensures ById(ids, Receive(node, i, v)) == Receive(ById(ids, node), ids[i], v)
  {
    hide Accept, Different;
    AcceptById(ids, node, i, v.key);
    if v.step == node.step + 1 {
      assert EntriesById(ids, node.deferred + [Deferred(i, v)])
          == EntriesById(ids, node.deferred) + [Deferred(ids[i], v)];
    }
  }

  lemma AdvanceById<P(!new)>(ids: seq<nat>, g: Group<P>, q: int, a: int, n: nat, node: Node<P>, copy: Copy<P>)
    requires Prime(q) && 2 <= n <= q && Different(ids) && Placed(|ids|, node)
    ensures Placed(|ids|, Advance(g, q, a, n, node, copy))
    ensures ById(ids, Advance(g, q, a, n, node, copy)) == Advance(g, q, a, n, ById(ids, node), copy)
  {
    hide Accumulate, Broadcast, Replay, Prime, Different;
    NoIds(ids);
    match Accumulate(g, q, node.k, node.r, n, node.slots)
    case None =>
    case Some(k) =>
      var next := node.(k := k, r := Arith.Min(node.r + 1, n - 2), users := [], slots := [], step := node.step + 1);
      match Broadcast(g, a, next.k, next.r, n)
      case None =>
      case Some(v) =>
        var begun := next.(k := v, sent := next.sent + [StepValue(next.step, v)], deferred := []);
        NoEntries<P>(ids);
        ReplayById(ids, begun, node.deferred, copy);
  }

  lemma NoIds(ids: seq<nat>)
    ensures IdsOf(ids, []) == []
  {
  }

  lemma NoEntries<P>(ids: seq<nat>)
    ensures var none: seq<Deferred<P>> := []; EntriesById(ids, none) == none
  {
  }

  /** What the object does with a value of the node with the id ids[i] is what its node does with one of
      the node at place i. */
  lemma ProcessById<P(!new)>(ids: seq<nat>, g: Group<P>, q: int, a: int, n: nat, own: bool, node: Node<P>, i: nat,
      v: StepValue<P>)
    requires Prime(q) && 2 <= n <= q && Different(ids) && Placed(|ids|, node) && i < |ids|
    ensures Placed(|ids|, ProcessWith(g, q, a, n, own, node, i, v))
    ensures ById(ids, ProcessWith(g, q, a, n, own, node, i, v))
         == ProcessWith(g, q, a, n, own, ById(ids, node), ids[i], v)
  {
    hide Receive, Advance, Prime, Different, Placed, ById;
    ReceiveById(ids, node, i, v);
    var m := Receive(node, i, v);
    StepById(ids, m);
    AdvanceById(ids, g, q, a, n, m, if own then OwnValue else TriggerValue(v.key));
  }

  // ---- The network ------------------------------------------------------------------------

  /** An action, with either copy. */
  ghost function DoWith<P(!new)>(c: Config<P>, own: bool, net: Network<P>, act: Action): Network<P>
    requires GoodConfig(c) && Prime(c.q) && Enabled(c, net, act)
  {
    if own then Do(c, net, act) else DoAsWritten(c, net, act)
  }

  ghost predicate IsPath<P(!new)>(c: Config<P>, own: bool, nets: seq<Network<P>>, acts: seq<Action>)
    requires GoodConfig(c) && Prime(c.q)
  {
    && |nets| == |acts| + 1
    && forall t :: 0 <= t < |acts| ==>
         Enabled(c, nets[t], acts[t]) && nets[t + 1] == DoWith(c, own, nets[t], acts[t])
  }

  function At(act: Action): nat { if act.Deliver? then act.to else act.at }

  /** Something in the inbox: the next broadcast of a peer, or a packet that is not for this exchange. */
  datatype Item<+P> = Next(src: nat) | Foreign(packet: Packet<P>)

  ghost predicate IsForeign<P(!new)>(ids: seq<nat>, p: Packet<P>) {
    p.cmd != 0x27 || p.src !in ids || p.data.None?
  }

  /** The broadcasts are in flight, each sender's in its order. */
  ghost predicate AllWaiting<P(!new)>(c: Config<P>, ids: seq<nat>, net: Network<P>, j: nat, items: seq<Item<P>>)
    decreases |items|
  {
    && MkaNetwork.Shaped(c, net) && j < |c.secrets| == |ids|
    && (items == [] ||
        match items[0]
        case Next(i) =>
          && Peer(j, i, |c.secrets|) && net.taken[j][i] < |net.nodes[i].sent|
          && AllWaiting(c, ids, Taken(net, j, i), j, items[1..])
        case Foreign(p) => IsForeign(ids, p) && p.src != ids[j] && AllWaiting(c, ids, net, j, items[1..]))
  }

  /** The network with a broadcast taken out of flight. */
  ghost function Taken<P(!new)>(net: Network<P>, j: nat, i: nat): Network<P>
    requires j < |net.taken| && i < |net.taken[j]|
  {
    net.(taken := net.taken[j := net.taken[j][i := net.taken[j][i] + 1]])
  }

  /** The packets themselves. */
  ghost function Coming<P(!new)>(c: Config<P>, ids: seq<nat>, net: Network<P>, j: nat, items: seq<Item<P>>):
      (ps: seq<Packet<P>>)
    requires AllWaiting(c, ids, net, j, items)
    ensures |ps| == |items|
    decreases |items|
  {
    if items == [] then []
    else
      match items[0]
      case Next(i) =>
        [Packet(0x27, ids[i], Some(net.nodes[i].sent[net.taken[j][i]]))]
        + Coming(c, ids, Taken(net, j, i), j, items[1..])
      case Foreign(p) => [p] + Coming(c, ids, net, j, items[1..])
  }

  /** The networks differ at most in the node j. */
  ghost predicate OnlyNode<P>(net: Network<P>, net': Network<P>, j: nat) {
    && net.taken == net'.taken && |net.nodes| == |net'.nodes|
    && forall i :: 0 <= i < |net.nodes| && i != j ==> net.nodes[i] == net'.nodes[i]
  }

  /** What comes does not depend on node j itself. */
  lemma {:induction false} ComingSame<P(!new)>(c: Config<P>, ids: seq<nat>, net: Network<P>, net': Network<P>, j: nat,
      items: seq<Item<P>>)
    requires AllWaiting(c, ids, net, j, items) && OnlyNode(net, net', j)
    ensures AllWaiting(c, ids, net', j, items) && Coming(c, ids, net', j, items) == Coming(c, ids, net, j, items)
    decreases |items|
  {
    hide IsForeign;
    if items != [] {
      match items[0]
      case Next(i) => ComingSame(c, ids, Taken(net, j, i), Taken(net', j, i), j, items[1..]);
      case Foreign(p) => ComingSame(c, ids, net, net', j, items[1..]);
    }
  }

  // ---- Objects and nodes ------------------------------------------------------------------

  ghost function Members(ids: seq<nat>): set<nat> { set x | x in ids }

  /** x is set up as node j, whose id is ids[j]. */
  ghost predicate IsNode<P(!new)>(c: Config<P>, own: bool, ids: seq<nat>, j: nat, x: MkaKeyExchange<P>)
    reads x, x.ctx, if x.ctx == null then {} else {x.ctx.grp, x.ctx.grp.N, x.ctx.a},
          if x.ctx == null || x.ctx.grp.T == null then {} else {x.ctx.grp.T}
  {
    && GoodConfig(c) && Prime(c.q) && Different(ids) && |ids| == |c.secrets| && j < |ids|
    && x.Valid() && x.own == own && x.self == ids[j] && x.nodes == Members(ids)
    && x.ctx.grp.curve == c.g && x.ctx.grp.G == c.base && x.ctx.grp.N.Value() == c.q && x.ctx.a.Value() == c.secrets[j]
  }

  /** x is in the state of node j. */
  ghost predicate Plays<P(!new)>(c: Config<P>, own: bool, net: Network<P>, ids: seq<nat>, j: nat, x: MkaKeyExchange<P>)
    reads x, x.ctx, if x.ctx == null then {} else {x.ctx.grp, x.ctx.grp.N, x.ctx.a},
          if x.ctx == null || x.ctx.grp.T == null then {} else {x.ctx.grp.T}
  {
    && IsNode(c, own, ids, j, x) && MkaNetwork.Shaped(c, net)
    && Placed(|ids|, net.nodes[j]) && x.Abs() == ById(ids, net.nodes[j])
    && (x.status == Running ==> x.Active())
  }

  lemma {:induction false} MembersCount(ids: seq<nat>)
    requires Different(ids)
    ensures |Members(ids)| == |ids|
  {
    if ids != [] {
      var n := |ids| - 1;
      MembersCount(ids[..n]);
      assert Members(ids) == Members(ids[..n]) + {ids[n]};
      assert ids[n] !in ids[..n];
    }
  }

  // ---- The reading loop -------------------------------------------------------------------

  lemma PathCons<P(!new)>(c: Config<P>, own: bool, net: Network<P>, act: Action, nets: seq<Network<P>>,
      acts: seq<Action>)
    requires GoodConfig(c) && Prime(c.q) && IsPath(c, own, nets, acts)
    requires Enabled(c, net, act) && nets[0] == DoWith(c, own, net, act)
    ensures IsPath(c, own, [net] + nets, [act] + acts)
  {
    hide Enabled, DoWith, GoodConfig, Prime;
  }

  lemma PathAppend<P(!new)>(c: Config<P>, own: bool, nets: seq<Network<P>>, acts: seq<Action>, act: Action)
    requires GoodConfig(c) && Prime(c.q) && IsPath(c, own, nets, acts) && Enabled(c, nets[|acts|], act)
    ensures IsPath(c, own, nets + [DoWith(c, own, nets[|acts|], act)], acts + [act])
  {
    hide Enabled, DoWith, GoodConfig, Prime;
  }

  /** Reading the next broadcast of a peer is a delivery. */
  lemma DeliverStep<P(!new)>(c: Config<P>, own: bool, ids: seq<nat>, net: Network<P>, j: nat, i: nat)
    requires GoodConfig(c) && Prime(c.q) && Different(ids) && |ids| == |c.secrets| && Enabled(c, net, Deliver(j, i))
    requires Placed(|ids|, net.nodes[j])
    ensures var net' := DoWith(c, own, net, Deliver(j, i));
      var p := Packet(0x27, ids[i], Some(net.nodes[i].sent[net.taken[j][i]]));
      && |Members(ids)| == |ids| && MkaNetwork.Shaped(c, net') && OnlyNode(Taken(net, j, i), net', j)
      && Placed(|ids|, net'.nodes[j]) && 2 <= |ids| <= c.q
      && ById(ids, net'.nodes[j])
         == Handle(c.g, c.q, c.secrets[j], Members(ids), own, ById(ids, net.nodes[j]), p)
  {
    hide Process, ProcessAsWritten, Prime, Placed, ById, Different, GoodConfig;
    ConfigFacts(c);
    MembersCount(ids);
    var v := net.nodes[i].sent[net.taken[j][i]];
    ProcessById(ids, c.g, c.q, c.secrets[j], |ids|, own, net.nodes[j], i, v);
  }

  lemma ForeignStep<P(!new)>(g: Group<P>, q: int, a: int, ids: seq<nat>, own: bool, node: Node<P>, p: Packet<P>)
    requires Prime(q) && 2 <= |Members(ids)| <= q && IsForeign(ids, p)
    ensures Handle(g, q, a, Members(ids), own, node, p) == node
  {
    hide ProcessWith, Prime;
  }

  /** A delivery leaves a running node running, or stopped by an error. */
  lemma DeliverStatus<P(!new)>(c: Config<P>, own: bool, net: Network<P>, j: nat, i: nat)
    requires GoodConfig(c) && Prime(c.q) && Enabled(c, net, Deliver(j, i))
    ensures var s := DoWith(c, own, net, Deliver(j, i)).nodes[j].status; s == Running || s == Error
  {
    hide Advance, Prime, GoodConfig;
    ConfigFacts(c);
    var v := net.nodes[i].sent[net.taken[j][i]];
    var m := Receive(net.nodes[j], i, v);
    AdvanceStatus(c.g, c.q, c.secrets[j], |c.secrets|, m, if own then OwnValue else TriggerValue(v.key));
  }

  /** The reading loop of update() is a path of deliveries. */
  lemma {:induction false} ReadsArePath<P(!new)>(c: Config<P>, own: bool, ids: seq<nat>, net: Network<P>, j: nat,
      items: seq<Item<P>>)
    returns (k: nat, nets: seq<Network<P>>, acts: seq<Action>)
    requires GoodConfig(c) && Prime(c.q) && Different(ids) && |ids| == |c.secrets| && AllWaiting(c, ids, net, j, items)
    requires Placed(|ids|, net.nodes[j]) && (net.nodes[j].status == Running || net.nodes[j].status == Error)
    ensures |Members(ids)| == |ids| && 2 <= |ids| <= c.q && |nets| == |acts| + 1
    ensures IsPath(c, own, nets, acts) && nets[0] == net && (forall t :: 0 <= t < |acts| ==> At(acts[t]) == j)
    ensures var last, node, inbox := nets[|acts|], ById(ids, net.nodes[j]), Coming(c, ids, net, j, items);
      && k <= |items| && MkaNetwork.Shaped(c, last) && Placed(|ids|, last.nodes[j])
      && Consumed(c.g, c.q, c.secrets[j], Members(ids), own, node, inbox) == k
      && HandleAll(c.g, c.q, c.secrets[j], Members(ids), own, node, inbox[..k]) == ById(ids, last.nodes[j])
      && AllWaiting(c, ids, last, j, items[k..]) && Coming(c, ids, last, j, items[k..]) == inbox[k..]
      && (k == |items| || last.nodes[j].step + 1 >= |ids| || last.nodes[j].status == Error)
      && (last.nodes[j].status == Running || last.nodes[j].status == Error)
    decreases |items|
  {
    hide Prime, GoodConfig, Different, Placed, ById, Handle, DoWith, Consumed, HandleAll, IsForeign;
    ConfigFacts(c);
    MembersCount(ids);
    var g, q, a, nodes, node := c.g, c.q, c.secrets[j], Members(ids), ById(ids, net.nodes[j]);
    var inbox := Coming(c, ids, net, j, items);
    StepById(ids, net.nodes[j]);
    if items == [] || node.step + 1 >= |ids| || node.status == Error {
      HandleStops(g, q, a, nodes, own, node, inbox);
      assert items[0..] == items && inbox[0..] == inbox;
      return 0, [net], [];
    }
    HandleFirst(g, q, a, nodes, own, node, inbox);
    var k1;
    match items[0] {
      case Foreign(p) =>
        ForeignStep(g, q, a, ids, own, node, p);
        k1, nets, acts := ReadsArePath(c, own, ids, net, j, items[1..]);
      case Next(i) =>
        var act := Deliver(j, i);
        var net1 := DoWith(c, own, net, act);
        DeliverStep(c, own, ids, net, j, i);
        DeliverStatus(c, own, net, j, i);
        ComingSame(c, ids, Taken(net, j, i), net1, j, items[1..]);
        var nets1, acts1;
        k1, nets1, acts1 := ReadsArePath(c, own, ids, net1, j, items[1..]);
        PathCons(c, own, net, act, nets1, acts1);
        nets, acts := [net] + nets1, [act] + acts1;
    }
    k := k1 + 1;
    assert items[1..][k1..] == items[k..] && inbox[1..][k1..] == inbox[k..];
  }

  // ---- update() ---------------------------------------------------------------------------

  /** A new object plays its node at the start. */
  method Boot<P(!new, ==)>(ghost c: Config<P>, own: bool, ghost ids: seq<nat>, ghost j: nat, self: nat, nodes: set<nat>,
      grp: EcpGroup<P>, secret: Mpi)
    returns (x: MkaKeyExchange<P>)
    requires GoodConfig(c) && Prime(c.q) && Different(ids) && |ids| == |c.secrets| && j < |ids|
    requires self == ids[j] && nodes == Members(ids)
    requires GoodGroup(grp) && secret != grp.N && grp.G != grp.curve.zero
    requires 1 <= secret.Value() < grp.N.Value() && |nodes| < grp.N.Value()
    requires grp.curve == c.g && grp.G == c.base && grp.N.Value() == c.q && secret.Value() == c.secrets[j]
    modifies grp`T
    ensures Plays(c, own, Start(c), ids, j, x) && x.inbox == []
  {
    hide Limbs.Val, GoodGroup, Times, Prime, PrimeGroup;
    MembersCount(ids);
    x := new MkaKeyExchange(self, own);
    var ok := x.Init(nodes, grp, secret);
    NoIds(ids);
    NoEntries<P>(ids);
    StartShape(c, j);
  }

  lemma StartShape<P(!new)>(c: Config<P>, j: nat)
    requires j < |c.secrets|
    ensures MkaNetwork.Shaped(c, Start(c)) && Start(c).nodes[j] == Started(c, j) && Placed(|c.secrets|, Started(c, j))
  {
    hide Times;
    forall i | 0 <= i < |c.secrets| ensures |Start(c).taken[i]| == |c.secrets| {
      assert Start(c).taken[i] == Zeros(|c.secrets|);
    }
  }

  lemma PlaysFacts<P(!new)>(c: Config<P>, own: bool, net: Network<P>, ids: seq<nat>, j: nat, x: MkaKeyExchange<P>)
    requires Plays(c, own, net, ids, j, x)
    ensures GoodConfig(c) && Prime(c.q) && Different(ids) && |ids| == |c.secrets| && j < |ids|
    ensures x.ctx != null && |x.arrivals| <= |x.remoteKeys| && MkaNetwork.Shaped(c, net) && Placed(|ids|, net.nodes[j])
    ensures x.Abs() == ById(ids, net.nodes[j]) && x.status == net.nodes[j].status && x.currentStep == net.nodes[j].step
    ensures x.nodes == Members(ids) && x.own == own && |x.nodes| == |ids|
    ensures x.ctx.grp.curve == c.g && x.ctx.grp.N.Value() == c.q && x.ctx.a.Value() == c.secrets[j]
    ensures x.status == Running ==> x.Active()
  {
    hide Limbs.Val, GoodGroup, Prime, PrimeGroup, GoodConfig;
    MembersCount(ids);
  }

  /** The end of update(). */
  lemma FinishById<P(!new)>(ids: seq<nat>, g: Group<P>, a: int, node: Node<P>)
    requires Placed(|ids|, node)
    ensures Placed(|ids|, Finish(g, a, node)) && ById(ids, Finish(g, a, node)) == Finish(g, a, ById(ids, node))
    ensures Finish(g, a, node).status != Running
  {
    hide Times;
  }

  /** One update() on the packets that wait for the node: a path of deliveries, and then the key if the
      last step is done. */
  method Update<P(!new, ==)>(ghost c: Config<P>, own: bool, ghost net: Network<P>, ghost ids: seq<nat>, ghost j: nat,
      ghost items: seq<Item<P>>, x: MkaKeyExchange<P>)
    returns (ghost k: nat, ghost nets: seq<Network<P>>, ghost acts: seq<Action>)
    requires Plays(c, own, net, ids, j, x) && x.status == Running
    requires AllWaiting(c, ids, net, j, items) && x.inbox == Coming(c, ids, net, j, items)
    modifies x`status, x`currentStep, x`remoteUsers, x`remoteKeys, x`nextStepValues, x`outbox,
             x`arrivals, x`inbox, x.ctx`k, x.ctx`r, x.ctx`key, x.ctx.grp`T
    ensures |nets| == |acts| + 1 && GoodConfig(c) && Prime(c.q) && IsPath(c, own, nets, acts) && nets[0] == net
    ensures forall t :: 0 <= t < |acts| ==> At(acts[t]) == j
    ensures Plays(c, own, nets[|acts|], ids, j, x)
    ensures k <= |items| && AllWaiting(c, ids, nets[|acts|], j, items[k..])
    ensures x.inbox == Coming(c, ids, nets[|acts|], j, items[k..])
    ensures k == |items| || x.status != Running
    ensures !Enabled(c, nets[|acts|], Complete(j))
  {
    hide Limbs.Val, GoodGroup, Prime, PrimeGroup, GoodConfig, ById, Placed, Consumed, HandleAll, IsPath, AllWaiting,
         Coming, Enabled, DoWith, Different, Finish, NoRepeats, Elements, Members;
    PlaysFacts(c, own, net, ids, j, x);
    k, nets, acts := ReadsArePath(c, own, ids, net, j, items);
    ghost var last := nets[|acts|];
    var ok := x.Update();
    StepById(ids, last.nodes[j]);
    NoComplete(c, last, j);
    if last.nodes[j].status == Running && last.nodes[j].step == |ids| - 1 {
      ghost var act, done := Complete(j), DoWith(c, own, last, Complete(j));
      CompleteStep(c, own, ids, last, j);
      PathAppend(c, own, nets, acts, act);
      ComingSame(c, ids, last, done, j, items[k..]);
      nets, acts := nets + [done], acts + [act];
    }
    PlaysFacts(c, own, nets[|acts|], ids, j, x);
    if x.status == Running { x.ActiveFacts(); }
  }

  lemma NoComplete<P(!new)>(c: Config<P>, net: Network<P>, j: nat)
    requires MkaNetwork.Shaped(c, net) && j < |c.secrets|
    ensures Enabled(c, net, Complete(j)) <==> net.nodes[j].status == Running && net.nodes[j].step == |c.secrets| - 1
  {
  }

  lemma CompleteStep<P(!new)>(c: Config<P>, own: bool, ids: seq<nat>, net: Network<P>, j: nat)
    requires GoodConfig(c) && Prime(c.q) && Enabled(c, net, Complete(j)) && Placed(|ids|, net.nodes[j])
    ensures var net' := DoWith(c, own, net, Complete(j));
      && OnlyNode(net, net', j) && MkaNetwork.Shaped(c, net') && Placed(|ids|, net'.nodes[j])
      && ById(ids, net'.nodes[j]) == Finish(c.g, c.secrets[j], ById(ids, net.nodes[j]))
      && net'.nodes[j].status != Running && !Enabled(c, net', Complete(j))
  {
    hide Times, Prime, GoodConfig, ById, Placed, Finish;
    FinishById(ids, c.g, c.secrets[j], net.nodes[j]);
  }

  /** The other nodes, and with them the objects that play them, are left alone. */
  lemma OthersPlay<P(!new)>(c: Config<P>, own: bool, net: Network<P>, act: Action, ids: seq<nat>, i: nat,
      x: MkaKeyExchange<P>)
    requires GoodConfig(c) && Prime(c.q) && Enabled(c, net, act) && i != At(act) && Plays(c, own, net, ids, i, x)
    ensures Plays(c, own, DoWith(c, own, net, act), ids, i, x)
  {
    hide Limbs.Val, GoodGroup, Prime, PrimeGroup, GoodConfig, ById, Placed, Different, Process, ProcessAsWritten,
         Finish, IsNode;
    IsPlace(c, own, ids, i, x);
    SameNode(c, own, net, act, i);
  }

  lemma SameNode<P(!new)>(c: Config<P>, own: bool, net: Network<P>, act: Action, i: nat)
    requires GoodConfig(c) && Prime(c.q) && Enabled(c, net, act) && i != At(act) && i < |c.secrets|
    ensures var net' := DoWith(c, own, net, act); MkaNetwork.Shaped(c, net') && net'.nodes[i] == net.nodes[i]
  {
    hide Prime, GoodConfig, Process, ProcessAsWritten, Finish;
  }

  lemma IsPlace<P(!new)>(c: Config<P>, own: bool, ids: seq<nat>, j: nat, x: MkaKeyExchange<P>)
    requires IsNode(c, own, ids, j, x)
    ensures j < |ids| == |c.secrets| && x.ctx != null && x.Valid()
  {
    hide Limbs.Val, GoodGroup, Prime, GoodConfig, Different;
  }

  /** With the intended copy, paths from the start are runs of the protocol; with the one of mka.h they
      are runs as written. */
  lemma PathsAreRuns<P(!new)>(c: Config<P>, own: bool, nets: seq<Network<P>>, acts: seq<Action>)
    requires GoodConfig(c) && Prime(c.q) && IsPath(c, own, nets, acts) && nets[0] == Start(c)
    ensures if own then MkaNetwork.IsRun(c, nets, acts) else IsRunAsWritten(c, nets, acts)
  {
    hide Enabled, Do, DoAsWritten, GoodConfig, Prime, Start;
  }
}
