/** When the calls of the key agreement of crypto/mka.h fail, and so when its runs end with the key at
    all nodes: an elementary symmetric polynomial of some node's peers' secrets must not vanish. */
module MkaOutcome {
  import opened Arith
  import opened Groups
  import opened GroupSums
  import opened Symmetric
  import opened Primes
  import opened Ecp
  import opened Mka
  import opened MkaProtocol
  import opened MkaNetwork

  /** ecp_gen_privkey draws secrets from [1, N). */
  ghost predicate InRange<P(!new)>(c: Config<P>) {
    GoodConfig(c) && Prime(c.q) && c.base != c.g.zero && forall i :: 0 <= i < |c.secrets| ==> 0 < c.secrets[i] < c.q
  }

  /** The point that node j holds after t accumulations. */
  ghost function After<P(!new)>(c: Config<P>, j: nat, t: nat): P
    requires j < |c.secrets|
  {
    Times(c.g, Elementary(Without(c.secrets, j), t), c.base)
  }

  /** Node j gets through its first s accumulations. */
  ghost predicate Passed<P(!new)>(c: Config<P>, j: nat, s: nat)
    requires j < |c.secrets|
  {
    forall t :: 0 <= t <= s ==> After(c, j, t) != c.g.zero
  }

  ghost predicate Passes<P(!new)>(c: Config<P>, j: nat)
    requires j < |c.secrets|
  {
    Passed(c, j, |c.secrets| - 1)
  }

  /** A nonzero multiple of a nonzero point is not zero. */
  lemma MultipleNonzero<P(!new)>(c: Config<P>, m: int, x: P)
    requires PrimeGroup(c.g, c.q) && 0 < m < c.q
    ensures Times(c.g, m, x) == c.g.zero <==> x == c.g.zero
  {
    hide Times, Abelian, Prime;
    if x == c.g.zero {
      PrimeOrderOf(c.g, c.q, x);
      TimesZero(c.g, m);
    } else {
      PrimeOrder(c.g, c.q, x);
    }
  }

  lemma FirstPassed<P(!new)>(c: Config<P>, j: nat)
    requires InRange(c) && j < |c.secrets|
    ensures Passed(c, j, 0)
  {
    hide Times, PrimeGroup, Prime;
    ConfigFacts(c);
    TimesSmall(c.g, c.base);
  }

  /** A full step accumulates exactly when the next point is not zero. */
  lemma AccumulateIff<P(!new)>(c: Config<P>, j: nat, node: Node<P>)
    requires InRange(c) && j < |c.secrets| && node.step + 1 < |c.secrets| && Passed(c, j, node.step)
    requires multiset(node.slots) == multiset(Without(Values(c, node.step), j))
    requires node.k == Value(c, j, node.step) && node.r == node.step
    ensures Accumulate(c.g, c.q, node.k, node.r, |c.secrets|, node.slots).Some?
       <==> After(c, j, node.step + 1) != c.g.zero
  {
    hide Times, Abelian, Prime, Elementary, SumPoints, Shares, Values, Cong;
    ConfigFacts(c);
    var t, vs := node.step, Values(c, node.step);
    ShareBroadcast(c, j, t, After(c, j, t));
    MultipleNonzero(c, c.secrets[j], After(c, j, t));
    ValuesAreMultiples(c, t);
    RoundDifference(c.g, c.base, c.secrets, j, t, vs, node.slots);
    MultipleNonzero(c, t + 1, After(c, j, t + 1));
  }

  /** Whether a node's state fits to what its peers' secrets allow. */
  ghost predicate Fate<P(!new)>(c: Config<P>, j: nat, node: Node<P>)
    requires j < |c.secrets|
  {
    if node.status == Error then !Passes(c, j) else Passed(c, j, node.step)
  }

  lemma NotPassed<P(!new)>(c: Config<P>, j: nat, t: nat)
    requires j < |c.secrets| && After(c, j, t) == c.g.zero && t < |c.secrets|
    ensures !Passes(c, j)
  {
  }

  lemma PassedNext<P(!new)>(c: Config<P>, j: nat, t: nat)
    requires j < |c.secrets| && Passed(c, j, t) && After(c, j, t + 1) != c.g.zero
    ensures Passed(c, j, t + 1)
  {
    hide After;
  }

  lemma AdvanceFate<P(!new)>(c: Config<P>, j: nat, node: Node<P>, row: seq<nat>)
    requires InRange(c) && j < |c.secrets| && AtWork(c, j, node, row) && Fate(c, j, node)
    requires |node.users| == |c.secrets| - 1
    ensures Fate(c, j, Advance(c.g, c.q, c.secrets[j], |c.secrets|, node, OwnValue))
  {
    hide Value, Holds, History, Replay, Times, Accumulate, Prime, PrimeGroup, After, Passed, Values;
    var n, t := |c.secrets|, node.step;
    ConfigFacts(c);
    FullStep(c, j, node, row);
    AccumulateIff(c, j, node);
    FullStepPoint(c, j, node);
    var p := Accumulate(c.g, c.q, node.k, node.r, n, node.slots);
    if p.None? {
      NotPassed(c, j, t + 1);
    } else {
      PassedNext(c, j, t);
      assert p.value == After(c, j, t + 1) by { AfterIs(c, j, t + 1); }
      if t + 1 < n - 1 {
        var v := Times(c.g, c.secrets[j], p.value);
        var begun := node.(k := v, r := node.r + 1, users := [], slots := [], step := t + 1,
                           sent := node.sent + [StepValue(t + 1, v)], deferred := []);
        ReplaySent(begun, node.deferred, OwnValue);
        ReplayStep(begun, node.deferred, OwnValue);
      }
    }
  }

  lemma AfterIs<P(!new)>(c: Config<P>, j: nat, t: nat)
    requires j < |c.secrets|
    ensures After(c, j, t) == Times(c.g, Elementary(Without(c.secrets, j), t), c.base)
  {
  }

  ghost predicate AllFates<P(!new)>(c: Config<P>, net: Network<P>) {
    |net.nodes| == |c.secrets| && forall j :: 0 <= j < |c.secrets| ==> Fate(c, j, net.nodes[j])
  }

  lemma DoFates<P(!new)>(c: Config<P>, net: Network<P>, act: Action)
    requires InRange(c) && Inv(c, net) && Enabled(c, net, act) && AllFates(c, net)
    ensures AllFates(c, Do(c, net, act))
  {
    hide NodeInv, Advance, Finish, Prime, GoodConfig, Value, Passed, PrimeGroup, Times;
    ConfigFacts(c);
    match act
    case Deliver(j, i) =>
      InFlight(c, net, j, i);
      AtWorkIn(c, net, j);
      ProcessInv(c, j, net.nodes[j], net.taken[j], i);
      var m := Receive(net.nodes[j], i, net.nodes[i].sent[net.taken[j][i]]);
      if |m.users| == |c.secrets| - 1 { AdvanceFate(c, j, m, net.taken[j][i := net.taken[j][i] + 1]); }
    case Complete(j) =>
      FinishFate(c, j, net.nodes[j], net.taken[j]);
  }

  /** The key is computed from a nonzero point. */
  lemma FinishFate<P(!new)>(c: Config<P>, j: nat, node: Node<P>, row: seq<nat>)
    requires InRange(c) && j < |c.secrets| && NodeInv(c, j, node, row) && Fate(c, j, node)
    requires node.status == Running && node.step == |c.secrets| - 1
    ensures Finish(c.g, c.secrets[j], node).status == Completed && Fate(c, j, Finish(c.g, c.secrets[j], node))
  {
    hide Holds, History, Value, Times, Elementary, PrimeGroup, Prime;
    AfterIs(c, j, |c.secrets| - 1);
  }

  lemma {:induction false} RunFates<P(!new)>(c: Config<P>, nets: seq<Network<P>>, acts: seq<Action>, t: nat)
    requires MkaNetwork.IsRun(c, nets, acts) && InRange(c) && t <= |acts|
    ensures Inv(c, nets[t]) && AllFates(c, nets[t])
  {
    hide Inv, Enabled, Prime, Do, GoodConfig, Fate, Started;
    RunInv(c, nets, acts, t);
    if t == 0 {
      forall j | 0 <= j < |c.secrets| ensures Fate(c, j, Started(c, j)) { StartFate(c, j); }
    } else {
      RunFates(c, nets, acts, t - 1);
      DoFates(c, nets[t - 1], acts[t - 1]);
    }
  }

  lemma StartFate<P(!new)>(c: Config<P>, j: nat)
    requires InRange(c) && j < |c.secrets|
    ensures Fate(c, j, Started(c, j))
  {
    hide Times, After;
    FirstPassed(c, j);
  }

  /** All accumulations of all nodes get through. */
  ghost predicate AllPass<P(!new)>(c: Config<P>) {
    forall j :: 0 <= j < |c.secrets| ==> Passes(c, j)
  }

  /** In every run: a call has failed only at a node that does not pass, and a node that has completed
      passes. */
  lemma Outcome<P(!new)>(c: Config<P>, nets: seq<Network<P>>, acts: seq<Action>, t: nat, j: nat)
    requires MkaNetwork.IsRun(c, nets, acts) && InRange(c) && t <= |acts| && j < |c.secrets|
    ensures |nets[t].nodes| == |c.secrets|
    ensures nets[t].nodes[j].status == Error ==> !Passes(c, j)
    ensures nets[t].nodes[j].status == Completed ==> Passes(c, j)
  {
    hide Enabled, Prime, Do, GoodConfig, Passed, Start, Holds, History, Value, Times, Elementary;
    RunFates(c, nets, acts, t);
    assert NodeInv(c, j, nets[t].nodes[j], nets[t].taken[j]);
  }

  ghost predicate IsEnd<P(!new)>(c: Config<P>, net: Network<P>) {
    forall act :: !Enabled(c, net, act)
  }

  /** Every run goes on to an end. */
  lemma {:induction false} Extends<P(!new)>(c: Config<P>, nets: seq<Network<P>>, acts: seq<Action>)
    returns (nets': seq<Network<P>>, acts': seq<Action>)
    requires MkaNetwork.IsRun(c, nets, acts)
    ensures MkaNetwork.IsRun(c, nets', acts') && IsEnd(c, nets'[|acts'|]) && nets <= nets' && acts <= acts'
    decreases |c.secrets| * (|c.secrets| * |c.secrets| + 1) - |acts|
  {
    hide Do, Enabled, Start, GoodConfig, Prime, RowSum, Work, Shaped;
    RunsEnd(c, nets, acts, |acts|);
    if IsEnd(c, nets[|acts|]) { return nets, acts; }
    var act :| Enabled(c, nets[|acts|], act);
    var nets1, acts1 := nets + [Do(c, nets[|acts|], act)], acts + [act];
    RunsEnd(c, nets1, acts1, |acts1|);
    nets', acts' := Extends(c, nets1, acts1);
  }

  /** If all pass, every run that has come to its end has the key at all nodes. */
  lemma EndsCompleted<P(!new)>(c: Config<P>, nets: seq<Network<P>>, acts: seq<Action>)
    requires MkaNetwork.IsRun(c, nets, acts) && InRange(c) && AllPass(c) && IsEnd(c, nets[|acts|])
    ensures AllCompleted(nets[|acts|])
  {
    hide Do, Enabled, Start, GoodConfig, Prime, Passes, Inv;
    RunInv(c, nets, acts, |acts|);
    forall j | 0 <= j < |nets[|acts|].nodes| ensures nets[|acts|].nodes[j].status != Error {
      NetSize(c, nets[|acts|]);
      Outcome(c, nets, acts, |acts|, j);
    }
    if !AllCompleted(nets[|acts|]) { var act := Progress(c, nets[|acts|]); }
  }

  lemma NetSize<P(!new)>(c: Config<P>, net: Network<P>)
    requires Inv(c, net)
    ensures |net.nodes| == |c.secrets|
  {
    hide NodeInv;
  }

  /** Some run ends with the key at all nodes, and then every run that comes to its end, if and only if
      all accumulations of all nodes get through. */
  lemma CompletesIff<P(!new)>(c: Config<P>)
    requires InRange(c)
    ensures (exists nets, acts :: MkaNetwork.IsRun(c, nets, acts) && AllCompleted(nets[|acts|])) <==> AllPass(c)
  {
    hide Do, Enabled, Start, GoodConfig, Prime, Passes, Inv;
    if nets, acts :| MkaNetwork.IsRun(c, nets, acts) && AllCompleted(nets[|acts|]) {
      forall j | 0 <= j < |c.secrets| ensures Passes(c, j) { Outcome(c, nets, acts, |acts|, j); }
    }
    if AllPass(c) {
      var nets, acts := Extends(c, [Start(c)], []);
      EndsCompleted(c, nets, acts);
    }
  }

  ghost function Remainder<P(!new)>(c: Config<P>, j: nat, t: nat): int
    requires j < |c.secrets| && c.q > 0
  {
    Elementary(Without(c.secrets, j), t) % c.q
  }

  /** That is a condition on the secrets: none of the polynomials e_1, ..., e_(n-1) of n - 1 of them is
      a multiple of the group order. */
  lemma PassedIff<P(!new)>(c: Config<P>, j: nat, s: nat)
    requires InRange(c) && j < |c.secrets|
    ensures Passed(c, j, s) <==> forall t :: 0 <= t <= s ==> Remainder(c, j, t) != 0
  {
    hide Times, Abelian, Elementary, Prime;
    ConfigFacts(c);
    PrimeOrder(c.g, c.q, c.base);
    forall t | 0 <= t <= s
      ensures After(c, j, t) == c.g.zero <==> Remainder(c, j, t) == 0
    {
      ZeroMultiple(c.g, c.q, Elementary(Without(c.secrets, j), t), c.base);
    }
    if Passed(c, j, s) {
      forall t | 0 <= t <= s ensures Remainder(c, j, t) != 0 { assert After(c, j, t) != c.g.zero; }
    }
  }

  /** Three nodes, two of whose secrets are opposite: the third node's first accumulation fails. */
  lemma OppositeSecretsFail<P(!new)>(c: Config<P>, x: int, y: int)
    requires InRange(c) && c.secrets == [x, y, c.q - y]
    ensures !Passed(c, 0, 1) && !Passes(c, 0) && !AllPass(c)
  {
    hide Times, Abelian, Prime, GoodConfig;
    var w := Without(c.secrets, 0);
    assert w == [y, c.q - y];
    assert w[1..] == [c.q - y] && w[1..][1..] == [];
    assert Elementary(w[1..], 1) == Elementary([], 1) + (c.q - y) * Elementary([], 0);
    assert Elementary(w, 1) == c.q;
    assert Remainder(c, 0, 1) == 0;
    PassedIff(c, 0, 1);
    PassedIff(c, 0, 2);
  }
}
