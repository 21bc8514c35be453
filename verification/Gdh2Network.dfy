/** A network of nodes running gdh2_utils.h: every interleaving of deliveries along the chain and of
    the last node's broadcast, of those lists that fit into a receiver's ring.  Nodes are numbered 0
    to n - 1 by their places in the chain. */
module Gdh2Network {
  import opened Groups
  import opened Symmetric
  import opened Primes
  import opened Ecp
  import opened Mka
  import opened Gdh2
  import Telegrams
  import PacketWrapper
  import Framing

  datatype Option<+T> = None | Some(value: T)

  /** The group, its base point, and the nodes' secrets. */
  datatype Config<!P(!new)> = Config(g: Group<P>, q: int, base: P, secrets: seq<int>)

  ghost predicate GoodConfig<P(!new)>(c: Config<P>) {
    && PrimeGroup(c.g, c.q) && c.base != c.g.zero && 2 <= |c.secrets| <= 255
    && forall i :: 0 <= i < |c.secrets| ==> 0 < c.secrets[i] < c.q
  }

  /** What node i has sent is sent[i]: its list to the next node, or the last node's broadcast. */
  datatype Network<+P> = Network(sent: seq<Option<seq<P>>>, keys: seq<Option<P>>, failed: bool)

  /** Node `at` receives its predecessor's list, or the last node's broadcast. */
  datatype Action = Pass(at: nat) | Hear(at: nat)

  ghost predicate Shaped<P(!new)>(c: Config<P>, net: Network<P>) {
    |net.sent| == |net.keys| == |c.secrets|
  }

  /** The first node has sent its value. */
  ghost function Start<P(!new)>(c: Config<P>): Network<P>
    requires |c.secrets| >= 2
  {
    var none := seq(|c.secrets| - 1, _ => None);
    Network([Some([Times(c.g, c.secrets[0], c.base)])] + none, [None] + seq(|c.secrets| - 1, _ => None), false)
  }

  // ---- Sizes of packets -------------------------------------------------------------------

  /** What ecp_tls_write_point writes for a point of SECP256R1: its length, and then 65 bytes, or a
      single one for zero. */
  ghost function PointSize<P(!new)>(g: Group<P>, x: P): nat {
    if x == g.zero then 2 else 66
  }

  ghost function ListSize<P(!new)>(g: Group<P>, s: seq<P>): nat {
    if s == [] then 0 else ListSize(g, s[..|s| - 1]) + PointSize(g, s[|s| - 1])
  }

  /** What a receiver's ring has room for; see Framing. */
  ghost predicate GetsThrough<P(!new)>(g: Group<P>, s: seq<P>) {
    ListSize(g, s) <= 1021
  }

  /** The packet with the list is delivered exactly then. */
  lemma DeliveredIff<P(!new)>(g: Group<P>, s: seq<P>, own: Telegrams.u16, src: Telegrams.u16, m: Framing.Message)
    requires |m.data| == ListSize(g, s) < 65536 && Framing.ForUs(own, m.dest)
    ensures forall i :: 0 <= i < |Framing.SentOne(src, m)| ==> Telegrams.IsWire(Framing.SentOne(src, m)[i])
    ensures Framing.Solo(own, [], Framing.SentOne(src, m)).0 == [PacketWrapper.Packet(m.cmd, src, m.dest, m.data)]
       <==> GetsThrough(g, s)
  {
    hide *;
    hide Framing.Solo, Framing.SentOne;
    GetsThroughIs(g, s);
    Framing.DeliveredIff(own, src, m);
  }

  lemma GetsThroughIs<P(!new)>(g: Group<P>, s: seq<P>)
    ensures GetsThrough(g, s) <==> ListSize(g, s) <= 1021
  {
  }

  lemma {:induction false} SizeOfPoints<P(!new)>(g: Group<P>, s: seq<P>)
    requires NoneZero(g, s)
    ensures ListSize(g, s) == 66 * |s|
  {
    if s != [] { SizeOfPoints(g, s[..|s| - 1]); }
  }

  // ---- Runs -------------------------------------------------------------------------------

  /** Each packet is received once, if it gets through. */
  ghost predicate Enabled<P(!new)>(c: Config<P>, net: Network<P>, act: Action) {
    var n := |c.secrets|;
    && Shaped(c, net) && !net.failed
    && match act
       case Pass(i) => 1 <= i < n && net.sent[i - 1].Some? && net.sent[i].None?
                         && GetsThrough(c.g, net.sent[i - 1].value)
       case Hear(i) => i + 1 < n && net.sent[n - 1].Some? && net.keys[i].None?
                         && GetsThrough(c.g, net.sent[n - 1].value)
  }

  /** Lists have the length that the receiver reads. */
  ghost predicate LongEnough<P(!new)>(c: Config<P>, net: Network<P>) {
    && Shaped(c, net) && |c.secrets| >= 2
    && (forall i :: 0 <= i < |c.secrets| - 1 && net.sent[i].Some? ==> |net.sent[i].value| >= ReadCount(i + 2))
    && (net.sent[|c.secrets| - 1].Some? ==> |net.sent[|c.secrets| - 1].value| >= |c.secrets| - 1)
  }

  /** on_recv of the node: see Gdh2Exchange.  A call fails when a point it reads is zero. */
  ghost function Do<P(!new)>(c: Config<P>, net: Network<P>, act: Action): Network<P>
    requires Enabled(c, net, act) && LongEnough(c, net)
  {
    var n := |c.secrets|;
    match act
    case Pass(i) =>
      var buf := net.sent[i - 1].value[..ReadCount(i + 1)];
      if !NoneZero(c.g, buf) then net.(failed := true)
      else if i + 1 == n then
        net.(sent := net.sent[i := Some(LastList(c.g, c.base, c.secrets[i], n, buf))],
             keys := net.keys[i := Some(Times(c.g, c.secrets[i], buf[0]))])
      else net.(sent := net.sent[i := Some(NextList(c.g, c.base, c.secrets[i], i + 1, buf))])
    case Hear(i) =>
      var x := net.sent[n - 1].value[n - i - 2];
      if x == c.g.zero then net.(failed := true)
      else net.(keys := net.keys[i := Some(Times(c.g, c.secrets[i], x))])
  }

  ghost predicate IsRun<P(!new)>(c: Config<P>, nets: seq<Network<P>>, acts: seq<Action>) {
    && GoodConfig(c) && |nets| == |acts| + 1 && nets[0] == Start(c)
    && forall t :: 0 <= t < |acts| ==>
         Enabled(c, nets[t], acts[t]) && LongEnough(c, nets[t]) && nets[t + 1] == Do(c, nets[t], acts[t])
  }

  // ---- The invariant ----------------------------------------------------------------------

  /** The list of node i, not the last. */
  ghost predicate RightList<P(!new)>(c: Config<P>, i: nat, s: seq<P>)
    requires i < |c.secrets|
  {
    Multiples(c.g, c.base, ScalarList(c.secrets, i + 1), s) && NoneZero(c.g, s)
  }

  ghost predicate RightBroadcast<P(!new)>(c: Config<P>, s: seq<P>)
    requires |c.secrets| >= 2
  {
    && |s| == |c.secrets| - 1 && NoneZero(c.g, s)
    && forall j :: 0 <= j < |s| ==> s[j] == Times(c.g, Product(Without(c.secrets, |s| - 1 - j)), c.base)
  }

  ghost predicate Inv<P(!new)>(c: Config<P>, net: Network<P>)
    requires |c.secrets| >= 2
  {
    var n := |c.secrets|;
    && Shaped(c, net) && !net.failed && net.sent[0].Some?
    && (forall i :: 0 <= i < n - 1 && net.sent[i].Some? ==> RightList(c, i, net.sent[i].value))
    && (net.sent[n - 1].Some? ==> RightBroadcast(c, net.sent[n - 1].value))
    && (net.keys[n - 1].Some? <==> net.sent[n - 1].Some?)
    && (forall i :: 0 <= i < n && net.keys[i].Some? ==> net.keys[i].value == Times(c.g, Product(c.secrets), c.base))
  }

  lemma ListLength<P(!new)>(c: Config<P>, i: nat, s: seq<P>)
    requires i + 1 < |c.secrets| && RightList(c, i, s)
    ensures |s| == ReadCount(i + 2) && s[..ReadCount(i + 2)] == s
  {
    hide Times, Product;
  }

  lemma InvLongEnough<P(!new)>(c: Config<P>, net: Network<P>)
    requires |c.secrets| >= 2 && Inv(c, net)
    ensures LongEnough(c, net)
  {
    hide RightList, Times, Product;
    forall i | 0 <= i < |c.secrets| - 1 && net.sent[i].Some? ensures |net.sent[i].value| >= ReadCount(i + 2) {
      ListLength(c, i, net.sent[i].value);
    }
  }

  /** A nonzero point times a secret is not zero. */
  lemma TimesNonzero<P(!new)>(c: Config<P>, a: int, x: P)
    requires PrimeGroup(c.g, c.q) && 0 < a < c.q && x != c.g.zero
    ensures Times(c.g, a, x) != c.g.zero
  {
    hide Times, PrimeGroup;
    PrimeOrder(c.g, c.q, x);
  }

  lemma NextNonzero<P(!new)>(c: Config<P>, a: int, k: nat, buf: seq<P>)
    requires PrimeGroup(c.g, c.q) && 0 < a < c.q && c.base != c.g.zero && k >= 2 && |buf| >= ReadCount(k)
    requires NoneZero(c.g, buf)
    ensures NoneZero(c.g, NextList(c.g, c.base, a, k, buf))
    ensures NoneZero(c.g, LastList(c.g, c.base, a, k, buf))
  {
    hide Times, PrimeGroup;
    TimesNonzero(c, a, c.base);
    forall i | 0 <= i < |buf| ensures Times(c.g, a, buf[i]) != c.g.zero { TimesNonzero(c, a, buf[i]); }
  }

  lemma StartInv<P(!new)>(c: Config<P>)
    requires GoodConfig(c)
    ensures Inv(c, Start(c))
  {
    hide Times, PrimeGroup, Product;
    var a := c.secrets;
    assert a[..1] == [a[0]];
    SingleProduct(a[0]);
    TimesNonzero(c, a[0], c.base);
  }

  /** Every action keeps the invariant, and no call fails. */
  lemma DoInv<P(!new)>(c: Config<P>, net: Network<P>, act: Action)
    requires GoodConfig(c) && Inv(c, net) && Enabled(c, net, act)
    ensures LongEnough(c, net) && Inv(c, Do(c, net, act))
  {
    hide Times, PrimeGroup, Product, RightList, RightBroadcast, LongEnough, NoneZero;
    InvLongEnough(c, net);
    match act
    case Pass(i) =>
      var buf := net.sent[i - 1].value;
      ListLength(c, i - 1, buf);
      PassRight(c, i, buf);
    case Hear(i) =>
      HearRight(c, i, net.sent[|c.secrets| - 1].value);
  }

  lemma PassRight<P(!new)>(c: Config<P>, i: nat, buf: seq<P>)
    requires GoodConfig(c) && 1 <= i < |c.secrets| && RightList(c, i - 1, buf) && |buf| == ReadCount(i + 1)
    ensures NoneZero(c.g, buf)
    ensures i + 1 < |c.secrets| ==> RightList(c, i, NextList(c.g, c.base, c.secrets[i], i + 1, buf))
    ensures i + 1 == |c.secrets| ==> RightBroadcast(c, LastList(c.g, c.base, c.secrets[i], i + 1, buf))
    ensures i + 1 == |c.secrets| ==> Times(c.g, c.secrets[i], buf[0]) == Times(c.g, Product(c.secrets), c.base)
  {
    hide Times, Product, NextList, LastList, NoneZero, Prime, Abelian;
    NextNonzero(c, c.secrets[i], i + 1, buf);
    if i + 1 < |c.secrets| {
      NextListIsRight(c.g, c.base, c.secrets, i, buf);
    } else {
      LastKey(c.g, c.base, c.secrets, buf);
      var s := LastList(c.g, c.base, c.secrets[i], i + 1, buf);
      forall j | 0 <= j < |s| ensures s[j] == Times(c.g, Product(Without(c.secrets, |s| - 1 - j)), c.base) {
        LastListIsRight(c.g, c.base, c.secrets, buf, i - j);
      }
    }
  }

  lemma HearRight<P(!new)>(c: Config<P>, i: nat, s: seq<P>)
    requires GoodConfig(c) && i + 1 < |c.secrets| && RightBroadcast(c, s)
    ensures |s| == |c.secrets| - 1
    ensures var x := s[|c.secrets| - i - 2];
      x != c.g.zero && Times(c.g, c.secrets[i], x) == Times(c.g, Product(c.secrets), c.base)
  {
    hide Times, Product, Prime, Abelian;
    ProductSplit(c.secrets, i);
    TimesProduct(c.g, c.base, c.secrets[i], Product(Without(c.secrets, i)));
  }

  lemma {:induction false} RunInv<P(!new)>(c: Config<P>, nets: seq<Network<P>>, acts: seq<Action>, t: nat)
    requires IsRun(c, nets, acts) && t <= |acts|
    ensures |c.secrets| >= 2 && Inv(c, nets[t])
  {
    hide Inv, Enabled, Start, Do, LongEnough;
    if t == 0 {
      StartInv(c);
    } else {
      RunInv(c, nets, acts, t - 1);
      DoInv(c, nets[t - 1], acts[t - 1]);
    }
  }

  /** Agreement: in every run no call fails, and every node that has a key has the product of all
      secrets times the base point. */
  lemma Agreement<P(!new)>(c: Config<P>, nets: seq<Network<P>>, acts: seq<Action>, t: nat, i: nat)
    requires IsRun(c, nets, acts) && t <= |acts| && i < |c.secrets|
    ensures |nets[t].keys| == |c.secrets| && !nets[t].failed
    ensures nets[t].keys[i].Some? ==> nets[t].keys[i].value == Times(c.g, Product(c.secrets), c.base)
  {
    hide Enabled, Start, Do, LongEnough, Times, Product, RightList, RightBroadcast;
    RunInv(c, nets, acts, t);
  }

  // ---- When runs go on, and how they end --------------------------------------------------

  /** The list of node i, not the last, gets through if it has at most fifteen points. */
  lemma ListThrough<P(!new)>(c: Config<P>, i: nat, s: seq<P>)
    requires i + 1 < |c.secrets| && RightList(c, i, s)
    ensures ListSize(c.g, s) == 66 * ReadCount(i + 2) && (GetsThrough(c.g, s) <==> i <= 13)
  {
    hide RightList, ListSize;
    ListLength(c, i, s);
    ListNonzero(c, i, s);
    SizeOfPoints(c.g, s);
  }

  lemma ListNonzero<P(!new)>(c: Config<P>, i: nat, s: seq<P>)
    requires i < |c.secrets| && RightList(c, i, s)
    ensures NoneZero(c.g, s)
  {
  }

  lemma BroadcastThrough<P(!new)>(c: Config<P>, s: seq<P>)
    requires |c.secrets| >= 2 && RightBroadcast(c, s)
    ensures ListSize(c.g, s) == 66 * (|c.secrets| - 1) && (GetsThrough(c.g, s) <==> |c.secrets| <= 16)
  {
    hide ListSize, Times, Product;
    SizeOfPoints(c.g, s);
  }

  /** As long as some node has no key, a packet that gets through is under way, unless there are
      sixteen nodes or more and the fifteenth has sent its list. */
  lemma Progress<P(!new)>(c: Config<P>, net: Network<P>) returns (act: Action)
    requires GoodConfig(c) && Inv(c, net) && exists i :: 0 <= i < |net.keys| && net.keys[i].None?
    requires |c.secrets| <= 15 || net.sent[14].None?
    ensures Enabled(c, net, act)
  {
    hide RightList, RightBroadcast, Times, Product, PrimeGroup, GetsThrough;
    var n := |c.secrets|;
    if n <= 15 && net.sent[n - 1].Some? {
      var i :| 0 <= i < n && net.keys[i].None?;
      BroadcastThrough(c, net.sent[n - 1].value);
      act := Hear(i);
    } else {
      var i := FirstSilent(net.sent, if n <= 15 then n - 1 else 14);
      ListThrough(c, i - 1, net.sent[i - 1].value);
      act := Pass(i);
    }
  }

  /** No list is sent before the one before it; and with sixteen nodes or more nobody after the
      fifteenth has sent anything, and nobody has a key. */
  ghost predicate Orderly<P(!new)>(c: Config<P>, net: Network<P>) {
    && Shaped(c, net)
    && (forall i :: 1 <= i < |c.secrets| && net.sent[i].Some? ==> net.sent[i - 1].Some?)
    && (|c.secrets| > 15 ==>
          (forall i :: 15 <= i < |c.secrets| ==> net.sent[i].None?)
          && (forall i :: 0 <= i < |c.secrets| ==> net.keys[i].None?))
  }

  lemma DoOrderly<P(!new)>(c: Config<P>, net: Network<P>, act: Action)
    requires GoodConfig(c) && Inv(c, net) && Enabled(c, net, act) && LongEnough(c, net) && Orderly(c, net)
    ensures Orderly(c, Do(c, net, act))
  {
    hide RightList, RightBroadcast, Times, Product, PrimeGroup, GetsThrough, NextList, LastList, LongEnough, NoneZero;
    if |c.secrets| > 15 && act.Pass? { ListThrough(c, act.at - 1, net.sent[act.at - 1].value); }
  }

  lemma {:induction false} RunOrderly<P(!new)>(c: Config<P>, nets: seq<Network<P>>, acts: seq<Action>, t: nat)
    requires IsRun(c, nets, acts) && t <= |acts|
    ensures |c.secrets| >= 2 && Inv(c, nets[t]) && Orderly(c, nets[t])
  {
    hide Inv, Enabled, Do, LongEnough, Times;
    RunInv(c, nets, acts, t);
    if t > 0 {
      RunOrderly(c, nets, acts, t - 1);
      DoOrderly(c, nets[t - 1], acts[t - 1]);
    }
  }

  lemma {:induction false} LaterSilent<P(!new)>(c: Config<P>, net: Network<P>, i: nat, k: nat)
    requires Orderly(c, net) && 1 <= i <= k < |c.secrets| && net.sent[i].None?
    ensures net.sent[k].None?
  {
    if i < k { LaterSilent(c, net, i, k - 1); }
  }

  lemma EnabledMissing<P(!new)>(c: Config<P>, net: Network<P>, act: Action)
    requires GoodConfig(c) && Inv(c, net) && Orderly(c, net) && Enabled(c, net, act)
    ensures exists i :: 0 <= i < |c.secrets| && net.keys[i].None?
    ensures |c.secrets| <= 15 || net.sent[14].None?
  {
    hide RightList, RightBroadcast, Times, Product, PrimeGroup, GetsThrough;
    var n := |c.secrets|;
    if act.Pass? {
      ListThrough(c, act.at - 1, net.sent[act.at - 1].value);
      LaterSilent(c, net, act.at, n - 1);
      assert net.keys[n - 1].None?;
      if n > 15 { LaterSilent(c, net, act.at, 14); }
    }
  }

  /** At every moment of every run: something can happen if and only if some node has no key, and
      there are at most fifteen nodes or the fifteenth has not sent yet. */
  lemma GoesOnIff<P(!new)>(c: Config<P>, nets: seq<Network<P>>, acts: seq<Action>, t: nat)
    requires IsRun(c, nets, acts) && t <= |acts|
    ensures Shaped(c, nets[t])
    ensures (exists act :: Enabled(c, nets[t], act)) <==>
      && (exists i :: 0 <= i < |c.secrets| && nets[t].keys[i].None?)
      && (|c.secrets| <= 15 || nets[t].sent[14].None?)
  {
    hide Do, LongEnough, Times, RightList, RightBroadcast, Product, PrimeGroup, GetsThrough, Start, Enabled;
    var net := nets[t];
    RunOrderly(c, nets, acts, t);
    if act :| Enabled(c, net, act) { EnabledMissing(c, net, act); }
    if (exists i :: 0 <= i < |c.secrets| && net.keys[i].None?) && (|c.secrets| <= 15 || net.sent[14].None?) {
      var act := Progress(c, net);
    }
  }

  ghost predicate AllDone<P>(net: Network<P>) {
    forall i :: 0 <= i < |net.keys| ==> net.keys[i].Some?
  }

  ghost predicate NoneDone<P>(net: Network<P>) {
    forall i :: 0 <= i < |net.keys| ==> net.keys[i].None?
  }

  /** The end of a run: nothing can happen any more. */
  ghost predicate IsEnd<P(!new)>(c: Config<P>, net: Network<P>) {
    forall act :: !Enabled(c, net, act)
  }

  /** Where a run can go no further, all nodes have the key if there are at most fifteen of them,
      and none has it if there are more. */
  lemma Outcome<P(!new)>(c: Config<P>, nets: seq<Network<P>>, acts: seq<Action>)
    requires IsRun(c, nets, acts) && IsEnd(c, nets[|acts|])
    ensures if |c.secrets| <= 15 then AllDone(nets[|acts|]) else NoneDone(nets[|acts|])
  {
    hide Do, LongEnough, Times, Enabled, Start, Inv;
    GoesOnIff(c, nets, acts, |acts|);
    RunOrderly(c, nets, acts, |acts|);
  }

  /** Every run goes on to such an end. */
  lemma {:induction false} Extends<P(!new)>(c: Config<P>, nets: seq<Network<P>>, acts: seq<Action>)
    returns (nets': seq<Network<P>>, acts': seq<Action>)
    requires IsRun(c, nets, acts)
    ensures IsRun(c, nets', acts') && IsEnd(c, nets'[|acts'|])
    ensures nets <= nets' && acts <= acts'
    decreases 2 * |c.secrets| - |acts|
  {
    hide Do, LongEnough, Times, Enabled, Start, Inv, GoodConfig;
    RunsEnd(c, nets, acts, |acts|);
    if IsEnd(c, nets[|acts|]) { return nets, acts; }
    var act :| Enabled(c, nets[|acts|], act);
    var nets1, acts1 := OneMore(c, nets, acts, act);
    RunsEnd(c, nets1, acts1, |acts1|);
    nets', acts' := Extends(c, nets1, acts1);
  }

  lemma OneMore<P(!new)>(c: Config<P>, nets: seq<Network<P>>, acts: seq<Action>, act: Action)
    returns (nets': seq<Network<P>>, acts': seq<Action>)
    requires IsRun(c, nets, acts) && Enabled(c, nets[|acts|], act)
    ensures IsRun(c, nets', acts') && acts' == acts + [act] && nets <= nets'
  {
    hide Do, Times, Enabled, Start, Inv, LongEnough;
    RunInv(c, nets, acts, |acts|);
    InvLongEnough(c, nets[|acts|]);
    nets', acts' := nets + [Do(c, nets[|acts|], act)], acts + [act];
  }

  /** In some run all nodes complete, and then in all that go on to their end, if and only if there are
      at most fifteen of them. */
  lemma CompletesIff<P(!new)>(c: Config<P>)
    requires GoodConfig(c)
    ensures (exists nets, acts :: IsRun(c, nets, acts) && AllDone(nets[|acts|])) <==> |c.secrets| <= 15
  {
    hide Do, LongEnough, Times, Enabled, Start, Inv, PrimeGroup;
    if |c.secrets| > 15 {
      forall nets, acts | IsRun(c, nets, acts) ensures !AllDone(nets[|acts|]) { SomeWait(c, nets, acts); }
    }
    var nets, acts := Extends(c, [Start(c)], []);
    Outcome(c, nets, acts);
  }

  lemma SomeWait<P(!new)>(c: Config<P>, nets: seq<Network<P>>, acts: seq<Action>)
    requires IsRun(c, nets, acts) && |c.secrets| > 15
    ensures !AllDone(nets[|acts|])
  {
    hide Do, LongEnough, Times, Enabled, Start, Inv;
    RunOrderly(c, nets, acts, |acts|);
    assert nets[|acts|].keys[0].None?;
  }

  /** Sixteen nodes: the list of the fifteenth, of sixteen points, is too long for the ring of the last,
      and every run that goes on to its end leaves all nodes without a key. */
  lemma SixteenStall<P(!new)>(c: Config<P>) returns (nets: seq<Network<P>>, acts: seq<Action>)
    requires GoodConfig(c) && |c.secrets| == 16
    ensures IsRun(c, nets, acts) && IsEnd(c, nets[|acts|]) && NoneDone(nets[|acts|])
    ensures var net := nets[|acts|]; |net.sent| == 16 && net.sent[14].Some? && ListSize(c.g, net.sent[14].value) == 1056
  {
    hide Do, LongEnough, Times, Enabled, Start, RightList, RightBroadcast, ListSize;
    nets, acts := Extends(c, [Start(c)], []);
    Outcome(c, nets, acts);
    GoesOnIff(c, nets, acts, |acts|);
    RunOrderly(c, nets, acts, |acts|);
    assert nets[|acts|].keys[0].None?;
    ListThrough(c, 14, nets[|acts|].sent[14].value);
  }

  lemma {:induction false} FirstSilent<T>(sent: seq<Option<T>>, m: nat) returns (k: nat)
    requires 0 < m < |sent| && sent[0].Some? && sent[m].None?
    ensures 1 <= k <= m && sent[k].None? && sent[k - 1].Some?
  {
    if sent[m - 1].Some? { return m; }
    k := FirstSilent(sent, m - 1);
  }

  function Count<T>(s: seq<Option<T>>): nat {
    if s == [] then 0 else Count(s[..|s| - 1]) + if s[|s| - 1].Some? then 1 else 0
  }

  lemma {:induction false} CountSet<T>(s: seq<Option<T>>, i: nat, x: T)
    requires i < |s| && s[i].None?
    ensures Count(s[i := Some(x)]) == Count(s) + 1
  {
    var n := |s| - 1;
    if i == n {
      assert s[i := Some(x)][..n] == s[..n];
    } else {
      CountSet(s[..n], i, x);
      assert s[i := Some(x)][..n] == s[..n][i := Some(x)];
    }
  }

  lemma {:induction false} CountBound<T>(s: seq<Option<T>>)
    ensures Count(s) <= |s|
  {
    if s != [] { CountBound(s[..|s| - 1]); }
  }

  /** Packets sent and keys computed. */
  function Work<P>(net: Network<P>): nat { Count(net.sent) + Count(net.keys) }

  lemma WorkGrows<P(!new)>(c: Config<P>, net: Network<P>, act: Action)
    requires GoodConfig(c) && Inv(c, net) && Enabled(c, net, act)
    ensures LongEnough(c, net) && Work(net) < Work(Do(c, net, act))
  {
    hide Times, PrimeGroup, Product, RightList, RightBroadcast, NextList, LastList, LongEnough, NoneZero, Count;
    InvLongEnough(c, net);
    var n := |c.secrets|;
    match act
    case Pass(i) =>
      var buf := net.sent[i - 1].value;
      ListLength(c, i - 1, buf);
      PassRight(c, i, buf);
      if i + 1 == n {
        CountSet(net.sent, i, LastList(c.g, c.base, c.secrets[i], n, buf));
        CountSet(net.keys, i, Times(c.g, c.secrets[i], buf[0]));
      } else {
        CountSet(net.sent, i, NextList(c.g, c.base, c.secrets[i], i + 1, buf));
      }
    case Hear(i) =>
      HearRight(c, i, net.sent[n - 1].value);
      CountSet(net.keys, i, Times(c.g, c.secrets[i], net.sent[n - 1].value[n - i - 2]));
  }

  /** No run is longer than 2 n actions. */
  lemma {:induction false} RunsEnd<P(!new)>(c: Config<P>, nets: seq<Network<P>>, acts: seq<Action>, t: nat)
    requires IsRun(c, nets, acts) && t <= |acts|
    ensures t <= Work(nets[t]) <= 2 * |c.secrets|
  {
    hide Inv, Enabled, Start, Do, LongEnough, Work;
    RunInv(c, nets, acts, t);
    WorkBound(c, nets[t]);
    if t > 0 {
      RunsEnd(c, nets, acts, t - 1);
      RunInv(c, nets, acts, t - 1);
      WorkGrows(c, nets[t - 1], acts[t - 1]);
    }
  }

  lemma WorkBound<P(!new)>(c: Config<P>, net: Network<P>)
    requires |c.secrets| >= 2 && Inv(c, net)
    ensures Work(net) <= 2 * |c.secrets|
  {
    hide RightList, RightBroadcast, Times, Product;
    CountBound(net.sent);
    CountBound(net.keys);
  }
}
