/** A network of nodes running the key agreement of crypto/mka.h: every interleaving of packet
    deliveries that keeps each sender's packets in order. */
module MkaNetwork {
  import opened Arith
  import opened Groups
  import opened Symmetric
  import opened Primes
  import opened Ecp
  import opened Mka
  import opened MkaProtocol

  /** The nodes, and how many broadcasts of node i node j has taken in (taken[j][i]): what lies
      between is in flight, in order. */
  datatype Network<+P> = Network(nodes: seq<Node<P>>, taken: seq<seq<nat>>)

  /** A packet of src reaches a node inside update(), or update() computes the key. */
  datatype Action = Deliver(to: nat, src: nat) | Complete(at: nat)

  function Zeros(n: nat): (z: seq<nat>)
    ensures |z| == n && forall i :: 0 <= i < n ==> z[i] == 0
  {
    seq(n, _ => 0)
  }

  /** A node after init(). */
  ghost function Started<P(!new)>(c: Config<P>, j: nat): Node<P>
    requires j < |c.secrets|
  {
    var k := Times(c.g, c.secrets[j], c.base);
    Node(Running, 0, [], [], [], k, 0, c.g.zero, [StepValue(0, k)])
  }

  ghost function Start<P(!new)>(c: Config<P>): Network<P> {
    var n := |c.secrets|;
    Network(seq(n, j requires 0 <= j < n => Started(c, j)), seq(n, j requires 0 <= j < n => Zeros(n)))
  }

  ghost predicate Shaped<P(!new)>(c: Config<P>, net: Network<P>) {
    var n := |c.secrets|;
    |net.nodes| == n && |net.taken| == n && forall j :: 0 <= j < n ==> |net.taken[j]| == n
  }

  ghost predicate Enabled<P(!new)>(c: Config<P>, net: Network<P>, act: Action) {
    var n := |c.secrets|;
    && Shaped(c, net)
    && match act
       case Deliver(j, i) =>
         && j < n && Peer(j, i, n)
         && net.nodes[j].status == Running && net.nodes[j].step + 1 < n
         && net.taken[j][i] < |net.nodes[i].sent|
       case Complete(j) =>
         j < n && net.nodes[j].status == Running && net.nodes[j].step == n - 1
  }

  ghost function Delivered<P(!new)>(c: Config<P>, net: Network<P>, j: nat, i: nat): Node<P>
    requires GoodConfig(c) && Prime(c.q) && Enabled(c, net, Deliver(j, i))
  {
    Process(c.g, c.q, c.secrets[j], |c.secrets|, net.nodes[j], i, net.nodes[i].sent[net.taken[j][i]])
  }

  ghost function Do<P(!new)>(c: Config<P>, net: Network<P>, act: Action): Network<P>
    requires GoodConfig(c) && Prime(c.q) && Enabled(c, net, act)
  {
    match act
    case Deliver(j, i) =>
      Network(net.nodes[j := Delivered(c, net, j, i)],
              net.taken[j := net.taken[j][i := net.taken[j][i] + 1]])
    case Complete(j) =>
      net.(nodes := net.nodes[j := Finish(c.g, c.secrets[j], net.nodes[j])])
  }

  /** A run from the start: any enabled action may come next. */
  ghost predicate IsRun<P(!new)>(c: Config<P>, nets: seq<Network<P>>, acts: seq<Action>) {
    && GoodConfig(c) && Prime(c.q)
    && |nets| == |acts| + 1 && nets[0] == Start(c)
    && forall t :: 0 <= t < |acts| ==> Enabled(c, nets[t], acts[t]) && nets[t + 1] == Do(c, nets[t], acts[t])
  }

  // ---- The invariant ----------------------------------------------------------------------

  ghost predicate Inv<P(!new)>(c: Config<P>, net: Network<P>) {
    var n := |c.secrets|;
    && Shaped(c, net)
    && (forall j :: 0 <= j < n ==> NodeInv(c, j, net.nodes[j], net.taken[j]) && net.taken[j][j] == 0)
    && (forall j: nat, i: nat :: j < n && Peer(j, i, n) ==> net.taken[j][i] <= |net.nodes[i].sent|)
  }

  lemma StartInv<P(!new)>(c: Config<P>)
    requires GoodConfig(c)
    ensures Inv(c, Start(c))
  {
    hide Times, Share, PrimeGroup, NodeInv;
    var net, n := Start(c), |c.secrets|;
    forall j | 0 <= j < n
      ensures net.nodes[j] == Started(c, j) && net.taken[j] == Zeros(n) && NodeInv(c, j, net.nodes[j], net.taken[j])
    {
      StartedInv(c, j);
    }
    assert Shaped(c, net);
    forall j: nat, i: nat | j < n && Peer(j, i, n) ensures net.taken[j][i] <= |net.nodes[i].sent| {
      assert net.taken[j] == Zeros(n);
    }
  }

  lemma StartedInv<P(!new)>(c: Config<P>, j: nat)
    requires GoodConfig(c) && j < |c.secrets|
    ensures NodeInv(c, j, Started(c, j), Zeros(|c.secrets|))
  {
    hide Times, Share, PrimeGroup, Sources, Done, Stopped, Zeros;
    FirstShare(c.secrets, j);
    EmptySources<P>();
    var node := Started(c, j);
    assert node.deferred == [];
    assert Holds(c, j, node, Zeros(|c.secrets|));
    assert History(c, j, node.sent);
  }

  /** What a node has broadcast, and taken in, follows from its step. */
  lemma NodeBounds<P(!new)>(c: Config<P>, j: nat, node: Node<P>, row: seq<nat>)
    requires j < |c.secrets| && NodeInv(c, j, node, row)
    ensures |row| == |c.secrets| && node.step < |c.secrets|
    ensures forall i: nat :: Peer(j, i, |c.secrets|) ==> row[i] >= node.step
    ensures History(c, j, node.sent) && |node.sent| <= node.step + 1
  {
    hide Value, Times, Elementary, Product, NoRepeats, Sources, History;
  }

  /** The steps of any two nodes differ by at most one. */
  lemma StepsWithinOne<P(!new)>(c: Config<P>, net: Network<P>, j: nat, i: nat)
    requires Inv(c, net) && j < |c.secrets| && i < |c.secrets|
    ensures net.nodes[i].step <= net.nodes[j].step + 1
  {
    hide NodeInv, History;
    NodeBounds(c, j, net.nodes[j], net.taken[j]);
    NodeBounds(c, i, net.nodes[i], net.taken[i]);
    if i != j { assert net.taken[i][j] <= |net.nodes[j].sent|; }
  }

  /** A packet in flight is the sender's value for its step, at most one step ahead. */
  lemma InFlight<P(!new)>(c: Config<P>, net: Network<P>, j: nat, i: nat)
    requires Inv(c, net) && Enabled(c, net, Deliver(j, i))
    ensures net.taken[j][i] <= net.nodes[j].step + 1
    ensures net.nodes[i].sent[net.taken[j][i]] == StepValue(net.taken[j][i], Value(c, i, net.taken[j][i]))
  {
    hide NodeInv, Value;
    StepsWithinOne(c, net, j, i);
    NodeBounds(c, i, net.nodes[i], net.taken[i]);
  }

  /** Processing the next packet of a peer keeps a node's invariant. */
  lemma ProcessInv<P(!new)>(c: Config<P>, j: nat, node: Node<P>, row: seq<nat>, i: nat)
    requires GoodConfig(c) && Prime(c.q) && j < |c.secrets| && Peer(j, i, |c.secrets|)
    requires AtWork(c, j, node, row) && |node.users| < |c.secrets| - 1 && row[i] <= node.step + 1
    ensures var v := StepValue(row[i], Value(c, i, row[i]));
      var m := Receive(node, i, v);
      && AtWork(c, j, m, row[i := row[i] + 1])
      && (|m.users| == |c.secrets| - 1 ==> row[i] == node.step)
      && NodeInv(c, j, Process(c.g, c.q, c.secrets[j], |c.secrets|, node, i, v), row[i := row[i] + 1])
  {
    hide Value, NoRepeats, Sources, Times, Elementary, Product, Prime, PrimeGroup, Advance, Holds, History;
    HoldsCount(c, j, node, row);
    var v := StepValue(row[i], Value(c, i, row[i]));
    var m, row' := Receive(node, i, v), row[i := row[i] + 1];
    ReceiveHolds(c, j, node, row, i);
    HoldsCount(c, j, m, row');
    if |m.users| == |c.secrets| - 1 {
      assert row[i] == node.step;
      AdvanceInv(c, j, m, row', i);
    }
  }

  lemma HoldsCount<P(!new)>(c: Config<P>, j: nat, node: Node<P>, row: seq<nat>)
    requires j < |c.secrets| && Holds(c, j, node, row)
    ensures |node.users| <= |c.secrets| - 1 && |row| == |c.secrets|
  {
    hide Value, NoRepeats, Sources;
    CountedPeers(j, |c.secrets|, node.users);
  }

  lemma {:induction false} ReplaySent<P>(node: Node<P>, entries: seq<Deferred<P>>, copy: Copy<P>)
    ensures Replay(node, entries, copy).sent == node.sent && Replay(node, entries, copy).status == node.status
    decreases |entries|
  {
    if entries != [] {
      var e := entries[0];
      ReplaySent(if e.value.step == node.step then Accept(node, e.src, CopiedKey(e, copy)) else node, entries[1..],
          copy);
    }
  }

  /** Broadcasts are never taken back. */
  lemma ProcessSent<P(!new)>(g: Group<P>, q: int, a: int, n: nat, node: Node<P>, src: nat, v: StepValue<P>)
    requires Prime(q) && 2 <= n <= q
    ensures node.sent <= Process(g, q, a, n, node, src, v).sent
  {
    hide Replay, Accumulate, Broadcast, Prime;
    var m := Receive(node, src, v);
    match Accumulate(g, q, m.k, m.r, n, m.slots)
    case None =>
    case Some(k) =>
      match Broadcast(g, a, k, Min(m.r + 1, n - 2), n)
      case None =>
      case Some(w) =>
        ReplaySent(m.(k := w, r := Min(m.r + 1, n - 2), users := [], slots := [], step := m.step + 1,
                      sent := m.sent + [StepValue(m.step + 1, w)], deferred := []), m.deferred, OwnValue);
  }

  lemma FinishInv<P(!new)>(c: Config<P>, j: nat, node: Node<P>, row: seq<nat>)
    requires GoodConfig(c) && j < |c.secrets| && NodeInv(c, j, node, row)
    requires node.status == Running && node.step == |c.secrets| - 1
    ensures NodeInv(c, j, Finish(c.g, c.secrets[j], node), row) && Finish(c.g, c.secrets[j], node).sent == node.sent
  {
    hide Value, NoRepeats, Sources, Times, Elementary, Product, Prime, PrimeGroup, Holds;
    ConfigFacts(c);
    KeyIsProduct(c.g, c.base, c.secrets, j, node.k);
  }

  /** Every action keeps the invariant. */
  lemma DoInv<P(!new)>(c: Config<P>, net: Network<P>, act: Action)
    requires GoodConfig(c) && Prime(c.q) && Inv(c, net) && Enabled(c, net, act)
    ensures Inv(c, Do(c, net, act))
  {
    hide NodeInv, Process, Finish, Prime, GoodConfig, Value;
    match act
    case Deliver(j, i) =>
      InFlight(c, net, j, i);
      RunningAtWork(c, j, net.nodes[j], net.taken[j]);
      ProcessInv(c, j, net.nodes[j], net.taken[j], i);
      ConfigFacts(c);
      ProcessSent(c.g, c.q, c.secrets[j], |c.secrets|, net.nodes[j], i, net.nodes[i].sent[net.taken[j][i]]);
    case Complete(j) =>
      FinishInv(c, j, net.nodes[j], net.taken[j]);
  }

  lemma RunningAtWork<P(!new)>(c: Config<P>, j: nat, node: Node<P>, row: seq<nat>)
    requires j < |c.secrets| && NodeInv(c, j, node, row) && node.status == Running && node.step + 1 < |c.secrets|
    ensures AtWork(c, j, node, row) && |node.users| < |c.secrets| - 1
  {
    hide AtWork;
  }

  lemma {:induction false} RunInv<P(!new)>(c: Config<P>, nets: seq<Network<P>>, acts: seq<Action>, t: nat)
    requires IsRun(c, nets, acts) && t <= |acts|
    ensures Inv(c, nets[t])
  {
    hide Inv, Enabled, Prime, Start, Do, GoodConfig;
    if t == 0 {
      StartInv(c);
    } else {
      RunInv(c, nets, acts, t - 1);
      DoInv(c, nets[t - 1], acts[t - 1]);
    }
  }

  // ---- What holds in every run ------------------------------------------------------------

  /** Agreement: in every run, every node that has completed has the same key, the product of
      all secrets times the base point. */
  lemma Agreement<P(!new)>(c: Config<P>, nets: seq<Network<P>>, acts: seq<Action>, t: nat, j: nat)
    requires IsRun(c, nets, acts) && t <= |acts| && j < |c.secrets|
    ensures |nets[t].nodes| == |c.secrets|
    ensures nets[t].nodes[j].status == Completed ==> nets[t].nodes[j].key == Times(c.g, Product(c.secrets), c.base)
  {
    hide Enabled, Start, Do, Times, Product, Value, Elementary, Holds, History;
    RunInv(c, nets, acts, t);
    assert NodeInv(c, j, nets[t].nodes[j], nets[t].taken[j]);
  }

  /** At every moment of every run: steps differ by at most one, and a node at work in step s
      has taken in s, s + 1 or s + 2 broadcasts of each peer. */
  lemma InStep<P(!new)>(c: Config<P>, nets: seq<Network<P>>, acts: seq<Action>, t: nat, j: nat, i: nat)
    requires IsRun(c, nets, acts) && t <= |acts| && j < |c.secrets| && Peer(j, i, |c.secrets|)
    ensures Shaped(c, nets[t])
    ensures nets[t].nodes[i].step <= nets[t].nodes[j].step + 1
    ensures nets[t].nodes[j].status == Running && nets[t].nodes[j].step + 1 < |c.secrets| ==>
              nets[t].nodes[j].step <= nets[t].taken[j][i] <= nets[t].nodes[j].step + 2
  {
    hide Enabled, Start, Do, Value, History;
    RunInv(c, nets, acts, t);
    StepsWithinOne(c, nets[t], j, i);
    assert NodeInv(c, j, nets[t].nodes[j], nets[t].taken[j]);
  }

  /** A node goes to the next step exactly when the packet completes one value of the present
      step from every peer, and these values are what it accumulates. */
  lemma StepConsumesOneEach<P(!new)>(c: Config<P>, net: Network<P>, j: nat, i: nat)
    requires GoodConfig(c) && Prime(c.q) && Inv(c, net) && Enabled(c, net, Deliver(j, i))
    ensures var m := Receive(net.nodes[j], i, net.nodes[i].sent[net.taken[j][i]]);
      && (Delivered(c, net, j, i).step > net.nodes[j].step ==>
            && |m.users| == |c.secrets| - 1 && NoRepeats(m.users)
            && (forall p: nat :: Peer(j, p, |c.secrets|) ==> p in m.users)
            && multiset(m.slots) == multiset(Without(Values(c, net.nodes[j].step), j)))
      && (|m.users| == |c.secrets| - 1 ==>
            Delivered(c, net, j, i).status == Error || Delivered(c, net, j, i).step == net.nodes[j].step + 1)
  {
    hide Inv, Prime, GoodConfig, Value, Values, Accumulate, Broadcast, Replay, Holds, History, NoRepeats;
    var v := net.nodes[i].sent[net.taken[j][i]];
    var m := Receive(net.nodes[j], i, v);
    InFlight(c, net, j, i);
    AtWorkIn(c, net, j);
    ProcessInv(c, j, net.nodes[j], net.taken[j], i);
    ConfigFacts(c);
    AdvanceSteps(c.g, c.q, c.secrets[j], |c.secrets|, m, OwnValue);
    if |m.users| == |c.secrets| - 1 {
      FullStep(c, j, m, net.taken[j][i := net.taken[j][i] + 1]);
      HoldsNoRepeats(c, j, m, net.taken[j][i := net.taken[j][i] + 1]);
    }
  }

  lemma HoldsNoRepeats<P(!new)>(c: Config<P>, j: nat, node: Node<P>, row: seq<nat>)
    requires j < |c.secrets| && Holds(c, j, node, row)
    ensures NoRepeats(node.users)
  {
  }

  lemma AtWorkIn<P(!new)>(c: Config<P>, net: Network<P>, j: nat)
    requires Inv(c, net) && j < |c.secrets| && net.nodes[j].status == Running && net.nodes[j].step + 1 < |c.secrets|
    ensures AtWork(c, j, net.nodes[j], net.taken[j]) && |net.nodes[j].users| < |c.secrets| - 1
  {
    hide NodeInv;
    RunningAtWork(c, j, net.nodes[j], net.taken[j]);
  }

  lemma AdvanceSteps<P(!new)>(g: Group<P>, q: int, a: int, n: nat, node: Node<P>, copy: Copy<P>)
    requires Prime(q) && 2 <= n <= q
    ensures Advance(g, q, a, n, node, copy).status == Error || Advance(g, q, a, n, node, copy).step == node.step + 1
  {
    hide Replay, Accumulate, Broadcast, Prime;
    match Accumulate(g, q, node.k, node.r, n, node.slots)
    case None =>
    case Some(k) =>
      match Broadcast(g, a, k, Min(node.r + 1, n - 2), n)
      case None =>
      case Some(w) =>
        ReplayStep(node.(k := w, r := Min(node.r + 1, n - 2), users := [], slots := [], step := node.step + 1,
                         sent := node.sent + [StepValue(node.step + 1, w)], deferred := []), node.deferred, copy);
  }

  lemma {:induction false} ReplayStep<P>(node: Node<P>, entries: seq<Deferred<P>>, copy: Copy<P>)
    ensures Replay(node, entries, copy).step == node.step
    decreases |entries|
  {
    if entries != [] {
      var e := entries[0];
      ReplayStep(if e.value.step == node.step then Accept(node, e.src, CopiedKey(e, copy)) else node, entries[1..],
          copy);
    }
  }

  // ---- No node stalls ---------------------------------------------------------------------

  ghost predicate AllCompleted<P(!new)>(net: Network<P>) {
    forall j :: 0 <= j < |net.nodes| ==> net.nodes[j].status == Completed
  }

  ghost predicate NoError<P(!new)>(net: Network<P>) {
    forall j :: 0 <= j < |net.nodes| ==> net.nodes[j].status != Error
  }

  lemma {:induction false} LeastStep<P(!new)>(net: Network<P>, n: nat) returns (j: nat)
    requires 0 < n <= |net.nodes|
    ensures j < n && forall i :: 0 <= i < n ==> net.nodes[j].step <= net.nodes[i].step
  {
    j := 0;
    if n > 1 {
      var l := LeastStep(net, n - 1);
      j := if net.nodes[l].step <= net.nodes[n - 1].step then l else n - 1;
    }
  }

  /** As long as no call has failed and not all nodes have completed, something can happen:
      a node of least step always has a packet coming. */
  lemma Progress<P(!new)>(c: Config<P>, net: Network<P>) returns (act: Action)
    requires GoodConfig(c) && Inv(c, net) && NoError(net) && !AllCompleted(net)
    ensures Enabled(c, net, act)
  {
    hide NodeInv, GoodConfig;
    ConfigFacts(c);
    var j := LeastStep(net, |c.secrets|);
    var n := |c.secrets|;
    var i :| 0 <= i < n && net.nodes[i].status != Completed;
    StatusByStep(c, net, j);
    StatusByStep(c, net, i);
    if net.nodes[j].step == n - 1 {
      act := Complete(i);
    } else {
      var p := MissingPeer(c, net, j);
      StatusByStep(c, net, p);
      act := Deliver(j, p);
    }
  }

  lemma StatusByStep<P(!new)>(c: Config<P>, net: Network<P>, j: nat)
    requires Inv(c, net) && j < |c.secrets| && NoError(net)
    ensures net.nodes[j].step < |c.secrets|
    ensures net.nodes[j].step + 1 < |c.secrets| ==>
          net.nodes[j].status == Running && |net.nodes[j].sent| == net.nodes[j].step + 1
    ensures net.nodes[j].step == |c.secrets| - 1 ==>
              (net.nodes[j].status == Running || net.nodes[j].status == Completed)
              && |net.nodes[j].sent| == |c.secrets| - 1
  {
    hide Holds, History, Value;
    assert NodeInv(c, j, net.nodes[j], net.taken[j]);
  }

  lemma MissingPeer<P(!new)>(c: Config<P>, net: Network<P>, j: nat) returns (p: nat)
    requires Inv(c, net) && j < |c.secrets| && net.nodes[j].status == Running && net.nodes[j].step + 1 < |c.secrets|
    ensures Peer(j, p, |c.secrets|) && net.taken[j][p] == net.nodes[j].step
  {
    hide NodeInv, Value, NoRepeats, Sources, History;
    AtWorkIn(c, net, j);
    if forall i: nat :: Peer(j, i, |c.secrets|) ==> i in net.nodes[j].users {
      PeersIncluded(j, |c.secrets|, net.nodes[j].users);
      assert false;
    }
    p :| Peer(j, p, |c.secrets|) && p !in net.nodes[j].users;
  }

  lemma PeersIncluded(j: nat, n: nat, users: seq<nat>)
    requires j < n && forall i: nat :: Peer(j, i, n) ==> i in users
    ensures |users| >= n - 1
  {
    assert PeerSet(j, n) <= Elements(users);
    PeerCount(j, n);
    SubsetCount(PeerSet(j, n), Elements(users));
    ElementsBound(users);
  }

  lemma {:induction false} ElementsBound(s: seq<nat>)
    ensures |Elements(s)| <= |s|
  {
    if s != [] {
      var t, l := s[..|s| - 1], s[|s| - 1];
      ElementsBound(t);
      assert s == t + [l];
      assert Elements(s) == Elements(t) + {l};
    }
  }

  // ---- Every run ends ---------------------------------------------------------------------

  function RowSum(s: seq<nat>): nat {
    if s == [] then 0 else RowSum(s[..|s| - 1]) + s[|s| - 1]
  }

  lemma {:induction false} RowUpdate(s: seq<nat>, i: nat, x: nat)
    requires i < |s|
    ensures RowSum(s[i := x]) == RowSum(s) - s[i] + x
    decreases |s|
  {
    var n := |s| - 1;
    if i == n {
      assert s[i := x][..n] == s[..n];
    } else {
      RowUpdate(s[..n], i, x);
      assert s[i := x][..n] == s[..n][i := x];
    }
  }

  lemma {:induction false} RowBound(s: seq<nat>, b: nat)
    requires forall i :: 0 <= i < |s| ==> s[i] <= b
    ensures RowSum(s) <= |s| * b
  {
    if s != [] {
      RowBound(s[..|s| - 1], b);
      MulDist(|s| - 1, 1, b);
    }
  }

  /** One node's part of the work done: packets taken in, and one more for having ended. */
  function NodeWork<P>(node: Node<P>, row: seq<nat>): nat {
    RowSum(row) + if node.status == Running then 0 else 1
  }

  function Work<P>(net: Network<P>): (w: seq<nat>)
    requires |net.nodes| == |net.taken|
    ensures |w| == |net.nodes| && forall j :: 0 <= j < |w| ==> w[j] == NodeWork(net.nodes[j], net.taken[j])
  {
    seq(|net.nodes|, j requires 0 <= j < |net.nodes| => NodeWork(net.nodes[j], net.taken[j]))
  }

  lemma {:induction false} RowLess(s: seq<nat>, t: seq<nat>, j: nat)
    requires |s| == |t| && j < |s| && s[j] < t[j] && t == s[j := t[j]]
    ensures RowSum(s) < RowSum(t)
  {
    RowUpdate(s, j, t[j]);
  }

  /** Each action adds to the work done. */
  lemma WorkGrows<P(!new)>(c: Config<P>, net: Network<P>, act: Action)
    requires GoodConfig(c) && Prime(c.q) && Inv(c, net) && Enabled(c, net, act)
    ensures Shaped(c, Do(c, net, act)) && RowSum(Work(net)) < RowSum(Work(Do(c, net, act)))
  {
    hide NodeInv, Process, Prime, GoodConfig, RowSum;
    var net' := Do(c, net, act);
    var j := if act.Deliver? then act.to else act.at;
    if act.Deliver? {
      RowUpdate(net.taken[j], act.src, net.taken[j][act.src] + 1);
    }
    assert Work(net') == Work(net)[j := Work(net')[j]];
    RowLess(Work(net), Work(net'), j);
  }

  lemma WorkBound<P(!new)>(c: Config<P>, net: Network<P>)
    requires Inv(c, net)
    ensures RowSum(Work(net)) <= |c.secrets| * (|c.secrets| * |c.secrets| + 1)
  {
    hide NodeInv, RowSum, History;
    var n := |c.secrets|;
    forall j | 0 <= j < n ensures Work(net)[j] <= n * n + 1 {
      forall i | 0 <= i < n ensures net.taken[j][i] <= n {
        if i != j {
          assert Peer(j, i, n);
          NodeBounds(c, i, net.nodes[i], net.taken[i]);
        }
      }
      RowBound(net.taken[j], n);
    }
    RowBound(Work(net), n * n + 1);
  }

  /** No run is longer than the work there is: with Progress, every run without a failing call
      can be continued until all nodes have completed, and has then ended. */
  lemma {:induction false} RunsEnd<P(!new)>(c: Config<P>, nets: seq<Network<P>>, acts: seq<Action>, t: nat)
    requires IsRun(c, nets, acts) && t <= |acts|
    ensures Shaped(c, nets[t]) && t <= RowSum(Work(nets[t])) <= |c.secrets| * (|c.secrets| * |c.secrets| + 1)
  {
    hide NodeInv, Enabled, Prime, Start, Do, GoodConfig, RowSum, Work;
    RunInv(c, nets, acts, t);
    WorkBound(c, nets[t]);
    if t > 0 {
      RunsEnd(c, nets, acts, t - 1);
      RunInv(c, nets, acts, t - 1);
      WorkGrows(c, nets[t - 1], acts[t - 1]);
    }
  }
}
