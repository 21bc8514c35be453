/** MKAKeyExchange of crypto/mka.h: the object that feeds received packets to the key agreement,
    proved against the step machine of MkaProtocol. */
module MkaExchange {
  import opened Arith
  import opened Bignum
  import opened Groups
  import opened GroupSums
  import opened CombMul
  import opened Primes
  import opened Ecp
  import opened Mka
  import opened MkaProtocol

  const CMD_MKA_PACKET := 0x27

  /** A packet as PKTWrapper hands it out; data is None when its size is not that of a step. */
  datatype Packet<+P> = Packet(cmd: nat, src: nat, data: Option<StepValue<P>>)

  /** _crypto_update on a value, with either copy in the replay loop. */
  ghost function ProcessWith<P(!new)>(g: Group<P>, q: int, a: int, n: nat, own: bool, node: Node<P>, src: nat,
      v: StepValue<P>): Node<P>
    requires Prime(q) && 2 <= n <= q
  {
    if own then Process(g, q, a, n, node, src, v) else ProcessAsWritten(g, q, a, n, node, src, v)
  }

  /** What update() does with one packet. */
  ghost function Handle<P(!new)>(g: Group<P>, q: int, a: int, nodes: set<nat>, own: bool, node: Node<P>,
      p: Packet<P>): Node<P>
    requires Prime(q) && 2 <= |nodes| <= q
  {
    if p.cmd != CMD_MKA_PACKET || p.src !in nodes || p.data.None? then node
    else ProcessWith(g, q, a, |nodes|, own, node, p.src, p.data.value)
  }

  /** How many packets one update() reads: until there are none, the last step is done, or a
      call fails. */
  ghost function Consumed<P(!new)>(g: Group<P>, q: int, a: int, nodes: set<nat>, own: bool, node: Node<P>,
      inbox: seq<Packet<P>>): (k: nat)
    requires Prime(q) && 2 <= |nodes| <= q
    ensures k <= |inbox|
    decreases |inbox|
  {
    if inbox == [] || node.step + 1 >= |nodes| || node.status == Error then 0
    else 1 + Consumed(g, q, a, nodes, own, Handle(g, q, a, nodes, own, node, inbox[0]), inbox[1..])
  }

  /** The packets one after the other. */
  ghost function HandleAll<P(!new)>(g: Group<P>, q: int, a: int, nodes: set<nat>, own: bool, node: Node<P>,
      inbox: seq<Packet<P>>): Node<P>
    requires Prime(q) && 2 <= |nodes| <= q
    decreases |inbox|
  {
    if inbox == [] then node
    else HandleAll(g, q, a, nodes, own, Handle(g, q, a, nodes, own, node, inbox[0]), inbox[1..])
  }

  /** The accumulation's result is determined: it is the one that Accumulate names. */
  lemma AccumulatedIsUnique<P(!new)>(g: Group<P>, q: int, k: P, r: nat, n: nat, buf: seq<P>, k': P)
    requires PrimeGroup(g, q) && Prime(q) && q > 1 && n <= q
    requires Accumulate(g, q, k, r, n, buf).Some? && Accumulated(g, r, k, buf, k')
    ensures Accumulate(g, q, k, r, n, buf) == Some(k')
  {
    hide Times, SumPoints, PrimeGroup, Prime, Cong;
    AccumulateMeaning(g, q, k, r, n, buf);
    TimesCancel(g, q, r + 1, InverseOf(q, r + 1), Accumulate(g, q, k, r, n, buf).value, k');
  }

  class MkaKeyExchange<P(!new, ==)> {
    /** This node's id; no node receives its own packets. */
    const self: nat
    /** Whether the replay loop copies a deferred entry's own key, or, as mka.h has it, the key
        of the packet at hand. */
    const own: bool
    var status: ExchangeStatus
    var nodes: set<nat>
    var currentStep: nat
    var remoteUsers: set<nat>
    var remoteKeys: seq<P>
    var nextStepValues: seq<Deferred<P>>
    var ctx: MkaContext?<P>
    var inbox: seq<Packet<P>>
    var outbox: seq<StepValue<P>>
    /** remoteUsers in order of arrival. */
    ghost var arrivals: seq<nat>

    constructor (self: nat, own: bool)
      ensures status == Offline && this.self == self && this.own == own && inbox == [] && nextStepValues == []
    {
      this.self, this.own := self, own;
      status, nodes, currentStep, remoteUsers, remoteKeys := Offline, {}, 0, {}, [];
      nextStepValues, ctx, inbox, outbox, arrivals := [], null, [], [], [];
    }

    /** The state as a node of the step machine. */
    ghost function Abs(): Node<P>
      requires ctx != null && |arrivals| <= |remoteKeys|
      reads this, ctx
    {
      Node(status, currentStep, arrivals, remoteKeys[..|arrivals|], nextStepValues, ctx.k,
          if ctx.r < 0 then 0 else ctx.r, ctx.key, outbox)
    }

    /** Everything but the crypto context: the slots match the users, and only peers are known. */
    ghost predicate Tidy()
      reads this
    {
      && self in nodes && 2 <= |nodes| <= 255
      && |remoteKeys| == |nodes| - 1
      && NoRepeats(arrivals) && remoteUsers == Elements(arrivals)
      && remoteUsers <= nodes - {self}
      && (forall x :: 0 <= x < |nextStepValues| ==> nextStepValues[x].src in nodes - {self})
      && (forall x :: 0 <= x < |inbox| ==> inbox[x].src != self)
    }

    ghost predicate Valid()
      reads this, ctx, if ctx == null then {} else {ctx.grp, ctx.grp.N, ctx.a},
            if ctx == null || ctx.grp.T == null then {} else {ctx.grp.T}
    {
      && ctx != null && Tidy() && ctx.Valid() && ctx.n == |nodes|
      && |arrivals| <= |nodes| - 1
    }

    lemma ArrivalsBounded()
      requires Tidy()
      ensures |arrivals| == |remoteUsers| <= |nodes| - 1
      ensures remoteUsers < nodes - {self} ==> |arrivals| < |nodes| - 1
    {
      NoRepeatsCount(arrivals);
      assert nodes == (nodes - {self}) + {self};
      SubsetCount(remoteUsers, nodes - {self});
    }

    /** Storing a value in the next free slot, unless its sender's is already there. */
    method Insert(src: nat, key: P)
      requires ctx != null && Tidy() && src in nodes - {self}
      modifies this`remoteKeys, this`remoteUsers, this`arrivals
      ensures Tidy() && |arrivals| <= |nodes| - 1 && |old(arrivals)| <= |nodes| - 1
      ensures Abs() == Accept(old(Abs()), src, key)
    {
      ArrivalsBounded();
      NewUser(arrivals, src);
      if src !in remoteUsers {
        var pos := |remoteUsers|;
        remoteKeys := remoteKeys[pos := key];
        remoteUsers := remoteUsers + {src};
        arrivals := arrivals + [src];
      }
      ArrivalsBounded();
    }

    /** The loop over _next_step_values. */
    method ReplayDeferred(v: P)
      requires ctx != null && Tidy()
      modifies this`remoteKeys, this`remoteUsers, this`arrivals, this`nextStepValues
      ensures Tidy() && |arrivals| <= |nodes| - 1 && |old(arrivals)| <= |nodes| - 1
      ensures nextStepValues == []
      ensures Abs() == Replay(old(Abs().(deferred := [])), old(nextStepValues),
          if own then OwnValue else TriggerValue(v))
    {
      hide Accept, NoRepeats, Elements;
      ArrivalsBounded();
      ghost var copy := if own then OwnValue else TriggerValue(v);
      ghost var goal := Replay(Abs().(deferred := []), nextStepValues, copy);
      while nextStepValues != []
        invariant Tidy() && |arrivals| <= |nodes| - 1
        invariant Replay(Abs().(deferred := []), nextStepValues, copy) == goal
      {
        var mks := nextStepValues[0];
        ghost var before := Abs();
        nextStepValues := nextStepValues[1..];
        if mks.value.step == currentStep {
          Insert(mks.src, if own then mks.value.key else v);
        }
        AcceptKeepsDeferred(before, mks.src, CopiedKey(mks, copy), nextStepValues);
      }
    }

    /** _crypto_broadcast. */
    method CryptoBroadcast() returns (ok: bool)
      requires Valid() && currentStep <= |nodes| - 2 && ctx.r >= 0
      modifies this`status, this`outbox, ctx`k, ctx.grp`T
      ensures Valid() && ctx.r == old(ctx.r)
      ensures var b := Broadcast(ctx.grp.curve, ctx.a.Value(), old(ctx.k), ctx.r, |nodes|);
        && ok == b.Some?
        && Abs() == if ok then old(Abs()).(k := b.value, sent := old(outbox) + [StepValue(currentStep, b.value)])
                    else old(Abs()).(status := Error)
    {
      hide Limbs.Val, GoodGroup, Times, NoRepeats, Elements;
      var c, out := ctx.MakeBroadval();
      if c != Ok {
        status := Error;
        return false;
      }
      outbox := outbox + [StepValue(currentStep, out)];
      return true;
    }

    /** mka_acc_broadval on the slots, all of them filled. */
    method AccumulateStep() returns (ok: bool)
      requires Valid() && |arrivals| == |nodes| - 1 && ctx.r >= 0
      modifies this`status, ctx`k, ctx`r, ctx.grp`T
      ensures Valid() && ctx.r >= 0
      ensures PrimeGroup(ctx.grp.curve, ctx.grp.N.Value()) && Prime(ctx.grp.N.Value()) && |nodes| <= ctx.grp.N.Value()
      ensures var p := Accumulate(ctx.grp.curve, ctx.grp.N.Value(), old(ctx.k), old(ctx.r), |nodes|, old(remoteKeys));
        && ok == p.Some?
        && Abs() == if ok then old(Abs()).(k := p.value, r := Min(old(ctx.r) + 1, |nodes| - 2))
            else old(Abs()).(status := Error)
    {
      hide Limbs.Val, GoodGroup, Times, NoRepeats, Elements, SumPoints, Prime, PrimeGroup, Accumulated;
      ghost var k, r := ctx.k, ctx.r;
      var c := ctx.AccBroadval(remoteKeys);
      GroupIsPrime(ctx.grp);
      if c != Ok {
        status := Error;
        return false;
      }
      AccumulatedIsUnique(ctx.grp.curve, ctx.grp.N.Value(), k, r, |nodes|, remoteKeys, ctx.k);
      return true;
    }

    /** _remote_users.clear() and _current_step++. */
    method NextStep()
      requires Valid()
      modifies this`currentStep, this`remoteUsers, this`arrivals
      ensures Valid() && currentStep == old(currentStep) + 1
      ensures Abs() == old(Abs()).(users := [], slots := [], step := currentStep)
    {
      hide GoodGroup;
      remoteUsers, arrivals := {}, [];
      currentStep := currentStep + 1;
      assert remoteKeys[..0] == [];
    }

    /** What follows when all values of the step are there. */
    method AdvanceStep(v: P) returns (ok: bool)
      requires Valid() && |arrivals| == |nodes| - 1 && currentStep <= |nodes| - 2 && ctx.r >= 0
      modifies this`status, this`currentStep, this`remoteUsers, this`remoteKeys, this`nextStepValues, this`outbox,
               this`arrivals, ctx`k, ctx`r, ctx.grp`T
      ensures Valid() && ctx.r >= 0 && Prime(ctx.grp.N.Value()) && |nodes| <= ctx.grp.N.Value()
      ensures currentStep <= |nodes| - 1
      ensures Abs() == Advance(ctx.grp.curve, ctx.grp.N.Value(), ctx.a.Value(), |nodes|, old(Abs()),
                               if own then OwnValue else TriggerValue(v))
      ensures ok == (status != Error) || old(status) == Error
    {
      hide Limbs.Val, GoodGroup, Times, SumPoints, Prime, PrimeGroup, Accumulated, Accumulate, Broadcast, Replay,
          NoRepeats, Elements;
      assert remoteKeys[..|arrivals|] == remoteKeys;
      ok := AccumulateStep();
      if !ok { return; }
      NextStep();
      if currentStep == |nodes| - 1 { return; }
      ok := CryptoBroadcast();
      if !ok { return; }
      ReplayStatus(Abs().(deferred := []), nextStepValues, if own then OwnValue else TriggerValue(v));
      ReplayDeferred(v);
    }

    /** _crypto_update. */
    method CryptoUpdate(src: nat, data: Option<StepValue<P>>) returns (ok: bool)
      requires Valid() && status == Running && currentStep <= |nodes| - 2 && ctx.r >= 0
      requires src in nodes - {self}
      modifies this`status, this`currentStep, this`remoteUsers, this`remoteKeys, this`nextStepValues, this`outbox,
               this`arrivals, ctx`k, ctx`r, ctx.grp`T
      ensures Valid() && ctx.r >= 0 && Prime(ctx.grp.N.Value()) && |nodes| <= ctx.grp.N.Value()
      ensures currentStep <= |nodes| - 1 && (status == Running || status == Error)
      ensures Abs() == if data.None? then old(Abs())
        else ProcessWith(ctx.grp.curve, ctx.grp.N.Value(), ctx.a.Value(), |nodes|, own, old(Abs()), src, data.value)
      ensures ok == (status != Error)
    {
      hide Limbs.Val, GoodGroup, Times, Prime, PrimeGroup, Accept, Advance, NoRepeats, Elements;
      GroupIsPrime(ctx.grp);
      if data.None? { return true; }
      var mka := data.value;
      ArrivalsBounded();
      if mka.step == currentStep {
        Insert(src, mka.key);
      } else if mka.step == currentStep + 1 {
        nextStepValues := nextStepValues + [Deferred(src, mka)];
      }
      ArrivalsBounded();
      if |remoteUsers| == |nodes| - 1 {
        AdvanceStatus(ctx.grp.curve, ctx.grp.N.Value(), ctx.a.Value(), |nodes|, Abs(),
            if own then OwnValue else TriggerValue(mka.key));
        ok := AdvanceStep(mka.key);
      } else {
        ok := true;
      }
    }

    /** A running exchange between two calls. */
    ghost predicate Active()
      reads this, ctx, if ctx == null then {} else {ctx.grp, ctx.grp.N, ctx.a},
            if ctx == null || ctx.grp.T == null then {} else {ctx.grp.T}
    {
      Valid() && status == Running && currentStep <= |nodes| - 1 && ctx.r == Min(currentStep, |nodes| - 2)
    }

    /** init(): the node set is agreed, and secret is what the random generator supplies.  Values that
        were deferred before are not dropped. */
    method Init(nodes: set<nat>, grp: EcpGroup<P>, secret: Mpi) returns (ok: bool)
      requires GoodGroup(grp) && grp.G != grp.curve.zero && secret != grp.N
      requires 1 <= secret.Value() < grp.N.Value() && |nodes| < grp.N.Value()
      requires self in nodes && forall x :: 0 <= x < |inbox| ==> inbox[x].src != self
      requires forall x :: 0 <= x < |nextStepValues| ==> nextStepValues[x].src in nodes - {self}
      modifies this`status, this`nodes, this`currentStep, this`remoteUsers, this`remoteKeys, this`outbox, this`arrivals,
               this`ctx, grp`T
      ensures ok == (old(status) == Offline && 2 <= |nodes| <= 255)
      ensures ok ==> Active() && this.nodes == nodes && ctx.grp == grp && ctx.a == secret
      ensures ok ==> var k := Times(grp.curve, secret.Value(), grp.G);
        Abs() == Node(Running, 0, [], [], nextStepValues, k, 0, grp.curve.zero, [StepValue(0, k)])
      ensures !ok ==> status == old(status)
    {
      hide Limbs.Val, GoodGroup, Times;
      if status != Offline { return false; }
      if |nodes| > 255 || |nodes| < 2 { return false; }
      status := Running;
      this.nodes := nodes;
      ctx := new MkaContext(grp, secret, |nodes|);
      ClearBuffers(grp.curve.zero);
      ok := CryptoBroadcast();
    }

    /** The buffers at the start: n - 1 empty slots, nobody heard of. */
    method ClearBuffers(zero: P)
      requires |nodes| >= 2
      modifies this`currentStep, this`remoteUsers, this`remoteKeys, this`outbox, this`arrivals
      ensures currentStep == 0 && remoteUsers == {} && arrivals == [] && outbox == []
      ensures |remoteKeys| == |nodes| - 1 && remoteKeys[..0] == []
    {
      remoteKeys := seq(|nodes| - 1, _ => zero);
      remoteUsers, arrivals := {}, [];
      currentStep := 0;
      outbox := [];
    }

    /** The end of update(): the key, once the last step is done. */
    method ComputeKey() returns (ok: bool)
      requires Active() && currentStep == |nodes| - 1
      modifies this`status, ctx`key, ctx.grp`T
      ensures Valid()
      ensures Abs() == Finish(ctx.grp.curve, ctx.a.Value(), old(Abs())) && ok == (status != Error)
    {
      hide Limbs.Val, GoodGroup, Times, NoRepeats, Elements;
      var c := ctx.ComputeKey();
      status := if c != Ok then Error else Completed;
      ok := c == Ok;
    }

    /** One pass of the loop of update(), the packet taken off the queue. */
    method HandlePacket(packet: Packet<P>) returns (ok: bool)
      requires Active() && currentStep <= |nodes| - 2 && packet.src != self
      modifies this`status, this`currentStep, this`remoteUsers, this`remoteKeys, this`nextStepValues, this`outbox,
               this`arrivals, ctx`k, ctx`r, ctx.grp`T
      ensures Valid() && |arrivals| <= |remoteKeys| && Prime(ctx.grp.N.Value()) && |nodes| <= ctx.grp.N.Value()
      ensures Abs() == Handle(ctx.grp.curve, ctx.grp.N.Value(), ctx.a.Value(), nodes, own, old(Abs()), packet)
      ensures packet.cmd == 0x27 && packet.src in nodes && packet.data.Some? ==>
        var g, q, a, v := ctx.grp.curve, ctx.grp.N.Value(), ctx.a.Value(), packet.data.value;
        Abs() == if own then Process(g, q, a, |nodes|, old(Abs()), packet.src, v)
                 else ProcessAsWritten(g, q, a, |nodes|, old(Abs()), packet.src, v)
      ensures !(packet.cmd == 0x27 && packet.src in nodes && packet.data.Some?) ==> Abs() == old(Abs())
      ensures |old(arrivals)| < |nodes| - 1 && packet.data.Some? &&
              packet.data.value.step != old(currentStep) && packet.data.value.step != old(currentStep) + 1 ==>
                Abs() == old(Abs())
      ensures ok == (status != Error) == (Abs().status != Error) && (ok ==> Active())
    {
      hide Limbs.Val, GoodGroup, Times, Prime, PrimeGroup, Process, ProcessAsWritten, NoRepeats, Elements;
      GroupIsPrime(ctx.grp);
      if packet.cmd != CMD_MKA_PACKET || packet.src !in nodes { return true; }
      HandleRound(ctx.grp.curve, ctx.grp.N.Value(), ctx.a.Value(), nodes, own, Abs(), packet);
      OtherStep(ctx.grp.curve, ctx.grp.N.Value(), ctx.a.Value(), |nodes|, Abs(), packet);
      ok := CryptoUpdate(packet.src, packet.data);
    }

    /** update(): read packets until there are none or the last step is done, then compute the
        key.  The state becomes that of the step machine after the packets read. */
    method Update() returns (ok: bool)
      requires Active()
      modifies this`status, this`currentStep, this`remoteUsers, this`remoteKeys, this`nextStepValues, this`outbox,
               this`arrivals, this`inbox, ctx`k, ctx`r, ctx`key, ctx.grp`T
      ensures Valid() && Prime(ctx.grp.N.Value()) && |nodes| <= ctx.grp.N.Value()
      ensures ok == (status != Error) && (status == Running ==> Active())
      ensures var g, q, a := ctx.grp.curve, ctx.grp.N.Value(), ctx.a.Value();
        var k := Consumed(g, q, a, nodes, own, old(Abs()), old(inbox));
        var m := HandleAll(g, q, a, nodes, own, old(Abs()), old(inbox)[..k]);
        && inbox == old(inbox)[k..]
        && Abs() == if m.status == Running && m.step == |nodes| - 1 then Finish(g, a, m) else m
    {
      hide Limbs.Val, GoodGroup, Times, Prime, PrimeGroup, Consumed, HandleAll, NoRepeats, Elements, Finish;
      ok := ReadPackets();
      if ok && currentStep == |nodes| - 1 { ok := ComputeKey(); }
    }

    /** _pkts.read */
    method NextPacket() returns (packet: Packet<P>)
      requires Active() && inbox != []
      modifies this`inbox
      ensures Active() && |arrivals| <= |remoteKeys| && currentStep == old(currentStep)
      ensures packet == old(inbox)[0] && packet.src != self && inbox == old(inbox)[1..]
      ensures Abs() == old(Abs())
    {
      hide GoodGroup, NoRepeats, Elements;
      packet := inbox[0];
      inbox := inbox[1..];
    }

    lemma ActiveFacts()
      requires Active()
      ensures Valid() && ctx != null && |arrivals| <= |remoteKeys|
      ensures status == Running && currentStep <= |nodes| - 1 && Abs().step == currentStep && Abs().status == status
      ensures Prime(ctx.grp.N.Value()) && 2 <= |nodes| <= ctx.grp.N.Value()
    {
      hide Prime, PrimeGroup, Limbs.Val;
      GroupIsPrime(ctx.grp);
    }

    /** The loop of update(). */
    method ReadPackets() returns (ok: bool)
      requires Active()
      modifies this`status, this`currentStep, this`remoteUsers, this`remoteKeys, this`nextStepValues, this`outbox,
               this`arrivals, this`inbox, ctx`k, ctx`r, ctx.grp`T
      ensures Valid() && Prime(ctx.grp.N.Value()) && |nodes| <= ctx.grp.N.Value()
      ensures ok == (status != Error) && (ok ==> Active())
      ensures var g, q, a := ctx.grp.curve, ctx.grp.N.Value(), ctx.a.Value();
        var k := Consumed(g, q, a, nodes, own, old(Abs()), old(inbox));
        inbox == old(inbox)[k..] && Abs() == HandleAll(g, q, a, nodes, own, old(Abs()), old(inbox)[..k])
    {
      hide *;
      ActiveFacts();
      ghost var g, q, a, start, packets := ctx.grp.curve, ctx.grp.N.Value(), ctx.a.Value(), Abs(), inbox;
      ghost var k := Consumed(g, q, a, nodes, own, start, packets);
      ghost var j := 0;
      while inbox != [] && currentStep < |nodes| - 1
        invariant Active() && |arrivals| <= |remoteKeys| && q == ctx.grp.N.Value() && a == ctx.a.Value()
        invariant 0 <= j <= k <= |packets| && inbox == packets[j..]
        invariant k - j == Consumed(g, q, a, nodes, own, Abs(), inbox)
        invariant HandleAll(g, q, a, nodes, own, Abs(), inbox[..k - j])
            == HandleAll(g, q, a, nodes, own, start, packets[..k])
        decreases |inbox|
      {
        ActiveFacts();
        HandleFirst(g, q, a, nodes, own, Abs(), inbox);
        var packet := NextPacket();
        j := j + 1;
        ok := HandlePacket(packet);
        HandleStops(g, q, a, nodes, own, Abs(), inbox);
        if !ok { return; }
      }
      ActiveFacts();
      HandleStops(g, q, a, nodes, own, Abs(), inbox);
      ok := true;
    }
  }

  /** Reading one packet, and then the rest. */
  lemma HandleFirst<P(!new)>(g: Group<P>, q: int, a: int, nodes: set<nat>, own: bool, node: Node<P>,
      inbox: seq<Packet<P>>)
    requires Prime(q) && 2 <= |nodes| <= q && inbox != [] && node.step + 1 < |nodes| && node.status != Error
    ensures var h := Handle(g, q, a, nodes, own, node, inbox[0]);
      var k := Consumed(g, q, a, nodes, own, h, inbox[1..]);
      && Consumed(g, q, a, nodes, own, node, inbox) == k + 1
      && HandleAll(g, q, a, nodes, own, node, inbox[..k + 1]) == HandleAll(g, q, a, nodes, own, h, inbox[1..][..k])
  {
    hide Handle, Prime;
    var k := Consumed(g, q, a, nodes, own, Handle(g, q, a, nodes, own, node, inbox[0]), inbox[1..]);
    assert inbox[..k + 1][1..] == inbox[1..][..k];
  }

  lemma HandleStops<P(!new)>(g: Group<P>, q: int, a: int, nodes: set<nat>, own: bool, node: Node<P>,
      inbox: seq<Packet<P>>)
    requires Prime(q) && 2 <= |nodes| <= q
    ensures inbox == [] || node.step + 1 >= |nodes| || node.status == Error ==>
              Consumed(g, q, a, nodes, own, node, inbox) == 0
    ensures HandleAll(g, q, a, nodes, own, node, inbox[..0]) == node
  {
  }

  lemma HandleRound<P(!new)>(g: Group<P>, q: int, a: int, nodes: set<nat>, own: bool, node: Node<P>, p: Packet<P>)
    requires Prime(q) && 2 <= |nodes| <= q && node.step + 1 < |nodes| && node.r == node.step
    ensures var m := Handle(g, q, a, nodes, own, node, p); m.r == Min(m.step, |nodes| - 2) || m.status == Error
  {
    hide Prime, Advance;
    if p.cmd == CMD_MKA_PACKET && p.src in nodes && p.data.Some? {
      var m := Receive(node, p.src, p.data.value);
      AdvanceRound(g, q, a, |nodes|, m, if own then OwnValue else TriggerValue(p.data.value.key));
    }
  }

  lemma OtherStep<P(!new)>(g: Group<P>, q: int, a: int, n: nat, node: Node<P>, p: Packet<P>)
    requires Prime(q) && 2 <= n <= q
    ensures |node.users| < n - 1 && p.data.Some? && p.data.value.step != node.step &&
            p.data.value.step != node.step + 1 ==>
              && Process(g, q, a, n, node, p.src, p.data.value) == node
              && ProcessAsWritten(g, q, a, n, node, p.src, p.data.value) == node
  {
    hide Prime, Process, ProcessAsWritten;
    if |node.users| < n - 1 && p.data.Some? && p.data.value.step != node.step && p.data.value.step != node.step + 1 {
      OtherValues(g, q, a, n, node, p.src, p.data.value);
    }
  }

  lemma AdvanceRound<P(!new)>(g: Group<P>, q: int, a: int, n: nat, node: Node<P>, copy: Copy<P>)
    requires Prime(q) && 2 <= n <= q && node.step + 1 < n && node.r == node.step
    ensures var m := Advance(g, q, a, n, node, copy); m.r == Min(m.step, n - 2) || m.status == Error
  {
    hide Replay, Accumulate, Broadcast, Prime;
    match Accumulate(g, q, node.k, node.r, n, node.slots)
    case None =>
    case Some(k) =>
      match Broadcast(g, a, k, Min(node.r + 1, n - 2), n)
      case None =>
      case Some(w) =>
        ReplayRound(node.(k := w, r := Min(node.r + 1, n - 2), users := [], slots := [], step := node.step + 1,
                          sent := node.sent + [StepValue(node.step + 1, w)], deferred := []), node.deferred, copy);
  }

  lemma {:induction false} ReplayRound<P>(node: Node<P>, entries: seq<Deferred<P>>, copy: Copy<P>)
    ensures Replay(node, entries, copy).r == node.r && Replay(node, entries, copy).step == node.step
    decreases |entries|
  {
    if entries != [] {
      var e := entries[0];
      ReplayRound(if e.value.step == node.step then Accept(node, e.src, CopiedKey(e, copy)) else node, entries[1..],
          copy);
    }
  }

  lemma AdvanceStatus<P(!new)>(g: Group<P>, q: int, a: int, n: nat, node: Node<P>, copy: Copy<P>)
    requires Prime(q) && 2 <= n <= q
    ensures var m := Advance(g, q, a, n, node, copy); m.status == node.status || m.status == Error
  {
    hide Replay, Accumulate, Broadcast, Prime;
    match Accumulate(g, q, node.k, node.r, n, node.slots)
    case None =>
    case Some(k) =>
      match Broadcast(g, a, k, Min(node.r + 1, n - 2), n)
      case None =>
      case Some(w) =>
        ReplayStatus(node.(k := w, r := Min(node.r + 1, n - 2), users := [], slots := [], step := node.step + 1,
                           sent := node.sent + [StepValue(node.step + 1, w)], deferred := []), node.deferred, copy);
  }

  lemma {:induction false} ReplayStatus<P>(node: Node<P>, entries: seq<Deferred<P>>, copy: Copy<P>)
    ensures Replay(node, entries, copy).status == node.status
    decreases |entries|
  {
    if entries != [] {
      var e := entries[0];
      ReplayStatus(if e.value.step == node.step then Accept(node, e.src, CopiedKey(e, copy)) else node, entries[1..],
          copy);
    }
  }

  lemma AcceptKeepsDeferred<P>(node: Node<P>, src: nat, key: P, rest: seq<Deferred<P>>)
    ensures Accept(node.(deferred := rest), src, key).(deferred := []) == Accept(node.(deferred := []), src, key)
  {
  }

  lemma NewUser(arrivals: seq<nat>, src: nat)
    requires NoRepeats(arrivals)
    ensures src in arrivals <==> src in Elements(arrivals)
    ensures src !in arrivals ==> NoRepeats(arrivals + [src]) && Elements(arrivals + [src]) == Elements(arrivals) + {src}
  {
  }
}
