/** Runs of the network in which every replay copies the triggering packet's key, as mka.h does: they
    agree when every replay is harmless, that is, when the deferred values sum to what is copied
    instead of them. */
module MkaAsWrittenRuns {
  import opened Arith
  import opened Groups
  import opened GroupSums
  import opened Symmetric
  import opened Primes
  import opened Ecp
  import opened MkaProtocol
  import opened MkaNetwork
  import opened MkaAsWritten

  // ---- One step ---------------------------------------------------------------------------

  /** The values copied for the deferred entries sum to the values that the entries hold. */
  ghost predicate SumsAlike<P(!new)>(g: Group<P>, entries: seq<Deferred<P>>, v: P) {
    SumPoints(g, Keys(entries)) == Times(g, |entries|, v)
  }

  lemma {:induction false} RepeatSum<P(!new)>(g: Group<P>, n: nat, v: P)
    requires Abelian(g)
    ensures SumPoints(g, Repeat(n, v)) == Times(g, n, v)
  {
    hide Abelian;
    if n == 0 {
      assert Repeat(0, v) == [];
    } else {
      var s := Repeat(n, v);
      assert s[..n - 1] == Repeat(n - 1, v) && s[n - 1] == v;
      RepeatSum(g, n - 1, v);
      AddComm(g, Times(g, n - 1, v), v);
    }
  }

  lemma {:induction false} SumAppend<P(!new)>(g: Group<P>, s: seq<P>, t: seq<P>)
    requires Abelian(g)
    ensures SumPoints(g, s + t) == g.add(SumPoints(g, s), SumPoints(g, t))
  {
    hide Abelian;
    if t == [] {
      assert s + t == s;
      AddZero(g, SumPoints(g, s));
    } else {
      var n := |t| - 1;
      assert (s + t)[..|s| + n] == s + t[..n] && (s + t)[|s| + n] == t[n];
      SumAppend(g, s, t[..n]);
      AddAssoc(g, SumPoints(g, s), SumPoints(g, t[..n]), t[n]);
    }
  }

  lemma AddCancelRight<P(!new)>(g: Group<P>, x: P, y: P, z: P)
    requires Abelian(g)
    ensures g.add(x, z) == g.add(y, z) <==> x == y
  {
    hide Abelian;
    AddComm(g, x, z);
    AddComm(g, y, z);
    if g.add(x, z) == g.add(y, z) { AddCancel(g, z, x, y); }
  }

  /** The accumulation depends on the sum of the slots, and on it alone. */
  lemma AccumulateBySum<P(!new)>(g: Group<P>, q: int, k: P, r: nat, n: nat, s: seq<P>, t: seq<P>)
    requires PrimeGroup(g, q) && Prime(q) && q > 1 && n <= q && r + 2 <= n && (r > 0 ==> k != g.zero)
    ensures Accumulate(g, q, k, r, n, s) == Accumulate(g, q, k, r, n, t) <==> SumPoints(g, s) == SumPoints(g, t)
  {
    hide Abelian, Times, SumPoints, Prime, Cong;
    var m := g.neg(Times(g, r, k));
    var d, e := g.add(SumPoints(g, s), m), g.add(SumPoints(g, t), m);
    AddCancelRight(g, SumPoints(g, s), SumPoints(g, t), m);
    var i := InverseOf(q, r + 1);
    if d != g.zero && e != g.zero && Times(g, i, d) == Times(g, i, e) {
      assert i * (r + 1) == (r + 1) * i;
      TimesCancel(g, q, i, r + 1, d, e);
    }
  }

  /** After a replay as written, and whatever values come later in the step, the next accumulation
      is the one that the protocol needs if and only if the copied values sum alike. */
  lemma NextAccumulation<P(!new)>(g: Group<P>, q: int, n: nat, begun: Node<P>, entries: seq<Deferred<P>>, v: P,
      more: seq<P>)
    requires PrimeGroup(g, q) && Prime(q) && q > 1 && n <= q && begun.r + 2 <= n && (begun.r > 0 ==> begun.k != g.zero)
    requires forall x :: 0 <= x < |entries| ==> entries[x].value.step == begun.step && entries[x].src !in begun.users
    requires NoRepeats(Sources(entries))
    ensures var w, o := Replay(begun, entries, TriggerValue(v)), Replay(begun, entries, OwnValue);
      Accumulate(g, q, begun.k, begun.r, n, w.slots + more) == Accumulate(g, q, begun.k, begun.r, n, o.slots + more)
      <==> SumsAlike(g, entries, v)
  {
    hide Abelian, Times, SumPoints, Prime, Accumulate, Replay, NoRepeats, Sources, Keys;
    ReplayTrigger(begun, entries, v);
    ReplayAll(begun, entries);
    var w, o := Replay(begun, entries, TriggerValue(v)), Replay(begun, entries, OwnValue);
    AccumulateBySum(g, q, begun.k, begun.r, n, w.slots + more, o.slots + more);
    SumAppend(g, w.slots, more);
    SumAppend(g, o.slots, more);
    AddCancelRight(g, SumPoints(g, w.slots), SumPoints(g, o.slots), SumPoints(g, more));
    SumAppend(g, begun.slots, Repeat(|entries|, v));
    SumAppend(g, begun.slots, Keys(entries));
    RepeatSum(g, |entries|, v);
    AddComm(g, SumPoints(g, begun.slots), Times(g, |entries|, v));
    AddComm(g, SumPoints(g, begun.slots), SumPoints(g, Keys(entries)));
    AddCancelRight(g, Times(g, |entries|, v), SumPoints(g, Keys(entries)), SumPoints(g, begun.slots));
  }

  /** For a node of a run that goes to a next step: with the copy as written, that step's accumulation
      is right, whatever values come later, if and only if the copied values sum alike. */
  lemma AccumulationExact<P(!new)>(c: Config<P>, j: nat, node: Node<P>, row: seq<nat>, v: P, more: seq<P>)
    requires GoodConfig(c) && Prime(c.q) && j < |c.secrets| && AtWork(c, j, node, row)
    ensures var n, a := |c.secrets|, c.secrets[j];
      var w, o := Advance(c.g, c.q, a, n, node, TriggerValue(v)), Advance(c.g, c.q, a, n, node, OwnValue);
      && w.k == o.k && w.r == o.r
      && (o.status == Running && o.step + 1 < n && o.k != c.g.zero ==>
            (Accumulate(c.g, c.q, w.k, w.r, n, w.slots + more) == Accumulate(c.g, c.q, o.k, o.r, n, o.slots + more)
             <==> SumsAlike(c.g, node.deferred, v)))
  {
    hide SumsAlike, Times, Prime, Replay, Value, Holds, History, NoRepeats, Sources, GoodConfig, Accumulate, Broadcast;
    ConfigFacts(c);
    var n, a := |c.secrets|, c.secrets[j];
    DeferredNext(c, j, node, row);
    var p := Accumulate(c.g, c.q, node.k, node.r, n, node.slots);
    if p.Some? && node.step + 1 != n - 1 {
      var b := Broadcast(c.g, a, p.value, Min(node.r + 1, n - 2), n);
      if b.Some? {
        var begun := node.(k := b.value, r := Min(node.r + 1, n - 2), users := [], slots := [], step := node.step + 1,
                           sent := node.sent + [StepValue(node.step + 1, b.value)], deferred := []);
        ReplayTrigger(begun, node.deferred, v);
        ReplayAll(begun, node.deferred);
        if begun.k != c.g.zero { NextAccumulation(c.g, c.q, n, begun, node.deferred, v, more); }
      }
    }
  }

  // ---- Two nodes that differ in their slots only ------------------------------------------

  ghost predicate SameButSlots<P(!new)>(g: Group<P>, a: Node<P>, b: Node<P>) {
    a == b.(slots := a.slots) && SumPoints(g, a.slots) == SumPoints(g, b.slots)
  }

  lemma ReceiveSame<P(!new)>(g: Group<P>, a: Node<P>, b: Node<P>, src: nat, v: StepValue<P>)
    requires SameButSlots(g, a, b)
    ensures SameButSlots(g, Receive(a, src, v), Receive(b, src, v))
  {
    assert (a.slots + [v.key])[..|a.slots|] == a.slots && (b.slots + [v.key])[..|b.slots|] == b.slots;
  }

  /** What a step may copy without harm. */
  ghost predicate StepHarmless<P(!new)>(g: Group<P>, n: nat, node: Node<P>, v: P) {
    node.step + 1 == n - 1 || SumsAlike(g, node.deferred, v)
  }

  lemma AdvanceSame<P(!new)>(c: Config<P>, j: nat, a: Node<P>, b: Node<P>, row: seq<nat>, v: P)
    requires GoodConfig(c) && Prime(c.q) && j < |c.secrets| && AtWork(c, j, b, row)
    requires SameButSlots(c.g, a, b) && StepHarmless(c.g, |c.secrets|, a, v)
    ensures SameButSlots(c.g, Advance(c.g, c.q, c.secrets[j], |c.secrets|, a, TriggerValue(v)),
                         Advance(c.g, c.q, c.secrets[j], |c.secrets|, b, OwnValue))
  {
    hide Abelian, Times, SumPoints, Prime, Replay, Value, Holds, History, NoRepeats, Sources, Keys, GoodConfig;
    ConfigFacts(c);
    var n := |c.secrets|;
    DeferredNext(c, j, b, row);
    var p := Accumulate(c.g, c.q, b.k, b.r, n, b.slots);
    assert Accumulate(c.g, c.q, a.k, a.r, n, a.slots) == p;
    if p.Some? && b.step + 1 != n - 1 {
      var w := Broadcast(c.g, c.secrets[j], p.value, Min(b.r + 1, n - 2), n);
      if w.Some? {
        var begun := b.(k := w.value, r := Min(b.r + 1, n - 2), users := [], slots := [], step := b.step + 1,
                        sent := b.sent + [StepValue(b.step + 1, w.value)], deferred := []);
        ReplaySame(c.g, begun, b.deferred, v);
      }
    }
  }

  lemma ReplaySame<P(!new)>(g: Group<P>, begun: Node<P>, entries: seq<Deferred<P>>, v: P)
    requires Abelian(g) && begun.users == [] && begun.slots == [] && NoRepeats(Sources(entries))
    requires forall x :: 0 <= x < |entries| ==> entries[x].value.step == begun.step
    requires SumsAlike(g, entries, v)
    ensures SameButSlots(g, Replay(begun, entries, TriggerValue(v)), Replay(begun, entries, OwnValue))
  {
    hide Abelian, Times, SumPoints, Replay, NoRepeats, Sources, Keys;
    ReplayTrigger(begun, entries, v);
    ReplayAll(begun, entries);
    RepeatSum(g, |entries|, v);
    assert begun.slots + Repeat(|entries|, v) == Repeat(|entries|, v) && begun.slots + Keys(entries) == Keys(entries);
  }

  // ---- Networks ---------------------------------------------------------------------------

  ghost predicate SameNets<P(!new)>(c: Config<P>, w: Network<P>, net: Network<P>) {
    && w.taken == net.taken && |w.nodes| == |net.nodes|
    && forall j :: 0 <= j < |w.nodes| ==> SameButSlots(c.g, w.nodes[j], net.nodes[j])
  }

  /** An action with the copy that mka.h makes. */
  ghost function DoAsWritten<P(!new)>(c: Config<P>, net: Network<P>, act: Action): Network<P>
    requires GoodConfig(c) && Prime(c.q) && Enabled(c, net, act)
  {
    match act
    case Deliver(j, i) =>
      var v := net.nodes[i].sent[net.taken[j][i]];
      Network(net.nodes[j := ProcessAsWritten(c.g, c.q, c.secrets[j], |c.secrets|, net.nodes[j], i, v)],
              net.taken[j := net.taken[j][i := net.taken[j][i] + 1]])
    case Complete(j) =>
      net.(nodes := net.nodes[j := Finish(c.g, c.secrets[j], net.nodes[j])])
  }

  ghost predicate IsRunAsWritten<P(!new)>(c: Config<P>, nets: seq<Network<P>>, acts: seq<Action>) {
    && GoodConfig(c) && Prime(c.q)
    && |nets| == |acts| + 1 && nets[0] == Start(c)
    && forall t :: 0 <= t < |acts| ==> Enabled(c, nets[t], acts[t]) && nets[t + 1] == DoAsWritten(c, nets[t], acts[t])
  }

  /** A delivery that completes a step copies nothing that changes the sum. */
  ghost predicate Harmless<P(!new)>(c: Config<P>, net: Network<P>, act: Action)
    requires Enabled(c, net, act)
  {
    act.Deliver? ==>
      var v := net.nodes[act.src].sent[net.taken[act.to][act.src]];
      var m := Receive(net.nodes[act.to], act.src, v);
      |m.users| == |c.secrets| - 1 ==> StepHarmless(c.g, |c.secrets|, m, v.key)
  }

  /** In particular when every deferred value equals the one that is copied. */
  lemma EqualIsHarmless<P(!new)>(c: Config<P>, net: Network<P>, act: Action)
    requires GoodConfig(c) && Enabled(c, net, act)
    requires act.Deliver? ==>
      var v := net.nodes[act.src].sent[net.taken[act.to][act.src]];
      forall x :: 0 <= x < |net.nodes[act.to].deferred| ==> net.nodes[act.to].deferred[x].value.key == v.key
    ensures Harmless(c, net, act)
  {
    hide GoodConfig, Keys, Times, SumPoints;
    ConfigFacts(c);
    if act.Deliver? {
      var v := net.nodes[act.src].sent[net.taken[act.to][act.src]];
      var m := Receive(net.nodes[act.to], act.src, v);
      RepeatIsKeys(m.deferred, v.key);
      RepeatSum(c.g, |m.deferred|, v.key);
    }
  }

  lemma EnabledSame<P(!new)>(c: Config<P>, w: Network<P>, net: Network<P>, act: Action)
    requires SameNets(c, w, net) && Enabled(c, w, act)
    ensures Enabled(c, net, act)
  {
    hide SumPoints;
  }

  /** A harmless action keeps the two networks alike. */
  lemma DoSame<P(!new)>(c: Config<P>, w: Network<P>, net: Network<P>, act: Action)
    requires GoodConfig(c) && Prime(c.q) && Inv(c, net) && SameNets(c, w, net)
    requires Enabled(c, w, act) && Enabled(c, net, act) && Harmless(c, w, act)
    ensures SameNets(c, DoAsWritten(c, w, act), Do(c, net, act))
  {
    hide GoodConfig, Prime, Inv, Advance, NodeInv, SameButSlots, StepHarmless;
    SameFacts(c, w, net);
    match act
    case Deliver(j, i) =>
      var v := net.nodes[i].sent[net.taken[j][i]];
      AtWorkIn(c, net, j);
      InFlight(c, net, j, i);
      ProcessInv(c, j, net.nodes[j], net.taken[j], i);
      ReceiveSame(c.g, w.nodes[j], net.nodes[j], i, v);
      var a, b := Receive(w.nodes[j], i, v), Receive(net.nodes[j], i, v);
      SameUsers(c.g, a, b);
      ConfigFacts(c);
      if |b.users| == |c.secrets| - 1 {
        AdvanceSame(c, j, a, b, net.taken[j][i := net.taken[j][i] + 1], v.key);
      }
    case Complete(j) =>
      FinishSame(c.g, c.secrets[j], w.nodes[j], net.nodes[j]);
  }

  lemma SameFacts<P(!new)>(c: Config<P>, w: Network<P>, net: Network<P>)
    requires SameNets(c, w, net)
    ensures |w.nodes| == |net.nodes| && forall j :: 0 <= j < |w.nodes| ==> w.nodes[j].sent == net.nodes[j].sent
  {
    hide SumPoints;
  }

  lemma SameUsers<P(!new)>(g: Group<P>, a: Node<P>, b: Node<P>)
    requires SameButSlots(g, a, b)
    ensures a.users == b.users && a.sent == b.sent
  {
  }

  lemma FinishSame<P(!new)>(g: Group<P>, s: int, a: Node<P>, b: Node<P>)
    requires SameButSlots(g, a, b)
    ensures SameButSlots(g, Finish(g, s, a), Finish(g, s, b))
  {
    hide SumPoints, Times;
  }

  /** A run as written whose actions are all harmless is, up to the slots, a run of the protocol. */
  lemma {:induction false} IntendedRun<P(!new)>(c: Config<P>, nets: seq<Network<P>>, acts: seq<Action>, t: nat)
    returns (runs: seq<Network<P>>)
    requires IsRunAsWritten(c, nets, acts) && t <= |acts|
    requires forall s :: 0 <= s < |acts| ==> Harmless(c, nets[s], acts[s])
    ensures MkaNetwork.IsRun(c, runs, acts[..t]) && SameNets(c, nets[t], runs[t])
  {
    hide GoodConfig, Prime, Enabled, Harmless, Do, DoAsWritten, Start, SameNets, Inv;
    if t == 0 {
      runs := [Start(c)];
      StartSame(c);
      assert acts[..0] == [];
    } else {
      var r := IntendedRun(c, nets, acts, t - 1);
      var act := acts[t - 1];
      RunInv(c, r, acts[..t - 1], t - 1);
      EnabledSame(c, nets[t - 1], r[t - 1], act);
      DoSame(c, nets[t - 1], r[t - 1], act);
      assert acts[..t] == acts[..t - 1] + [act];
      runs := r + [Do(c, r[t - 1], act)];
    }
  }

  lemma StartSame<P(!new)>(c: Config<P>)
    ensures SameNets(c, Start(c), Start(c))
  {
  }

  /** Agreement for runs as written, if every replay is harmless. */
  lemma AgreementAsWritten<P(!new)>(c: Config<P>, nets: seq<Network<P>>, acts: seq<Action>, t: nat, j: nat)
    requires IsRunAsWritten(c, nets, acts) && t <= |acts| && j < |c.secrets|
    requires forall s :: 0 <= s < |acts| ==> Harmless(c, nets[s], acts[s])
    ensures |nets[t].nodes| == |c.secrets|
    ensures nets[t].nodes[j].status == Completed ==> nets[t].nodes[j].key == Times(c.g, Product(c.secrets), c.base)
  {
    hide GoodConfig, Prime, Enabled, Harmless, Do, DoAsWritten, Start, SumPoints, Times, Product;
    var runs := IntendedRun(c, nets, acts, t);
    MkaNetwork.Agreement(c, runs, acts[..t], t, j);
  }
}
