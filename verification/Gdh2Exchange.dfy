/** The three behaviours of crypto/gdh2_utils.h: what the first, the last and every other node of
    the chain does with the packets it receives. */
module Gdh2Exchange {
  import opened Bignum
  import opened Groups
  import opened CombMul
  import opened Ecp
  import opened Gdh2
  import opened Neighbours

  const CMD_GDH2_NODE_VAL := 0x25
  const CMD_GDH2_LAST_VAL := 0x26

  /** A packet; a broadcast one has no destination. */
  datatype Packet<+P> = Broadcast(src: nat, cmd: nat, data: seq<P>)
                      | Directed(src: nat, dest: nat, cmd: nat, data: seq<P>)

  /** The value a node waits for from its predecessor, or from the last node. */
  predicate FromPrev<P>(p: Packet<P>, prev: nat) {
    p.src == prev && p.cmd == CMD_GDH2_NODE_VAL
  }

  predicate FromLast<P>(p: Packet<P>, last: nat) {
    p.src == last && p.cmd == CMD_GDH2_LAST_VAL
  }

  class Gdh2Node<P(!new, ==)> {
    const ids: seq<nat>
    const self: nat
    const prev: nat
    const next: nat
    const first: nat
    const last: nat
    const pos: nat
    const ctx: Gdh2Context<P>
    var completed: bool
    var outbox: seq<Packet<P>>

    ghost predicate Valid()
      reads this, ctx, ctx.grp, ctx.grp.N, ctx.grp.T, ctx.priv
    {
      && ctx.Valid() && ctx.N == |ids| && self in ids
      && IsPredecessor(ids, self, prev) && IsSuccessor(ids, self, next)
      && IsFirst(ids, first) && IsLast(ids, last) && pos == CountBelow(ids, self) + 1
    }

    /** network_t, and the choice of the behaviour; the first node sends its value at once. */
    constructor (ids: seq<nat>, self: nat, grp: EcpGroup<P>, priv: Mpi)
      requires self in ids && |ids| >= 2
      requires GoodGroup(grp) && priv != grp.N && 1 <= priv.Value() < grp.N.Value() && grp.G != grp.curve.zero
      modifies grp`T
      ensures Valid() && this.ids == ids && this.self == self && ctx.grp == grp && ctx.priv == priv && !completed
      ensures outbox == if self == first then
                [Directed(self, next, CMD_GDH2_NODE_VAL, [Times(grp.curve, priv.Value(), grp.G)])] else []
    {
      hide Limbs.Val, GoodGroup, Times, IsPredecessor, IsSuccessor, IsFirst, IsLast, CountBelow;
      var prev, next, first, last, pos := FindNeighbours(ids, self);
      this.ids, this.self := ids, self;
      this.prev, this.next, this.first, this.last, this.pos := prev, next, first, last, pos;
      ctx := new Gdh2Context(grp, priv, |ids|);
      completed, outbox := false, [];
      new;
      if self == first {
        var c, v := ctx.MakeFirstval();
        outbox := [Directed(self, next, CMD_GDH2_NODE_VAL, v)];
      }
    }

    /** on_recv of the behaviour that gdh2.h chooses. */
    method OnRecv(p: Packet<P>) returns (ok: bool)
      requires Valid() && 1 <= pos <= |ids| && (self == first <==> pos == 1) && (self == last <==> pos == |ids|)
      requires self != first && FromPrev(p, prev) ==> |p.data| >= ReadCount(pos)
      requires self != last && FromLast(p, last) ==> |p.data| >= |ids| - 1
      modifies this`completed, this`outbox, ctx`key, ctx.grp`T
      ensures Valid()
      ensures !(self != first && FromPrev(p, prev)) && !(self != last && FromLast(p, last)) ==>
            ok && completed == old(completed) && outbox == old(outbox) && ctx.key == old(ctx.key)
      ensures self != first && FromPrev(p, prev) ==>
        var g, base, a, buf := ctx.grp.curve, ctx.grp.G, ctx.priv.Value(), p.data[..ReadCount(pos)];
        && (ok <==> NoneZero(g, buf))
        && (ok ==>
              && outbox == old(outbox) + [
                   if pos == |ids| then Broadcast(self, CMD_GDH2_LAST_VAL, LastList(g, base, a, pos, buf))
                   else Directed(self, next, CMD_GDH2_NODE_VAL, NextList(g, base, a, pos, buf))]
              && completed == (old(completed) || pos == |ids|)
              && ctx.key == if pos == |ids| then Times(g, a, buf[0]) else old(ctx.key))
      ensures self != last && FromLast(p, last) ==>
        var x := p.data[|ids| - pos - 1];
        && (ok <==> x != ctx.grp.curve.zero) && outbox == old(outbox)
        && (ok ==> completed && ctx.key == Times(ctx.grp.curve, ctx.priv.Value(), x))
    {
      hide Limbs.Val, GoodGroup, Times, IsPredecessor, IsSuccessor, IsFirst, IsLast, CountBelow, LastList, NextList,
          NoneZero;
      if self == first {
        ok := FirstOnRecv(p);
      } else if self == last {
        ok := LastOnRecv(p);
      } else {
        ok := SimpleOnRecv(p);
      }
    }

    /** FirstNodeBehavior::on_recv: only the last node's broadcast counts. */
    method FirstOnRecv(p: Packet<P>) returns (ok: bool)
      requires Valid() && self == first && (FromLast(p, last) ==> |p.data| >= |ids| - 1)
      modifies this`completed, ctx`key, ctx.grp`T
      ensures Valid()
      ensures !FromLast(p, last) ==> ok && completed == old(completed) && ctx.key == old(ctx.key)
      ensures FromLast(p, last) ==>
                (ok <==> 1 <= pos < |ids| && p.data[|ids| - pos - 1] != ctx.grp.curve.zero)
      ensures FromLast(p, last) && ok ==>
                completed
                && ctx.key == Times(ctx.grp.curve, ctx.priv.Value(), p.data[|ids| - pos - 1])
      ensures !ok ==> completed == old(completed)
    {
      hide Limbs.Val, GoodGroup, Times, IsPredecessor, IsSuccessor, IsFirst, IsLast, CountBelow;
      if p.src != last { return true; }
      if p.cmd == CMD_GDH2_LAST_VAL {
        var c := ctx.ComputeKey(pos, p.data);
        if c != Ok { return false; }
        completed := true;
      }
      return true;
    }

    /** LastNodeBehavior::on_recv: the predecessor's list is turned into the broadcast. */
    method LastOnRecv(p: Packet<P>) returns (ok: bool)
      requires Valid() && self == last && pos == |ids| && (FromPrev(p, prev) ==> |p.data| >= ReadCount(pos))
      modifies this`completed, this`outbox, ctx`key, ctx.grp`T
      ensures Valid()
      ensures !FromPrev(p, prev) ==>
            ok && completed == old(completed) && outbox == old(outbox) && ctx.key == old(ctx.key)
      ensures FromPrev(p, prev) ==> (ok <==> NoneZero(ctx.grp.curve, p.data[..ReadCount(|ids|)]))
      ensures FromPrev(p, prev) && ok ==>
                var list := LastList(ctx.grp.curve, ctx.grp.G, ctx.priv.Value(), |ids|, p.data[..ReadCount(|ids|)]);
                && completed && outbox == old(outbox) + [Broadcast(self, CMD_GDH2_LAST_VAL, list)]
                && ctx.key == Times(ctx.grp.curve, ctx.priv.Value(), p.data[0])
      ensures !ok ==> completed == old(completed) && outbox == old(outbox)
    {
      hide Limbs.Val, GoodGroup, Times, IsPredecessor, IsSuccessor, IsFirst, IsLast, CountBelow, LastList, NextList,
          NoneZero;
      if p.src != prev { return true; }
      if p.cmd == CMD_GDH2_NODE_VAL {
        var c, list := ctx.MakeVal(pos, p.data);
        if c != Ok { return false; }
        outbox := outbox + [Broadcast(self, CMD_GDH2_LAST_VAL, list)];
        completed := true;
      }
      return true;
    }

    /** SimpleNodeBehavior::on_recv: the predecessor's list is extended and passed on, and the last
        node's broadcast gives the key. */
    method SimpleOnRecv(p: Packet<P>) returns (ok: bool)
      requires Valid() && 2 <= pos < |ids|
      requires (FromPrev(p, prev) ==> |p.data| >= ReadCount(pos)) && (FromLast(p, last) ==> |p.data| >= |ids| - 1)
      modifies this`completed, this`outbox, ctx`key, ctx.grp`T
      ensures Valid()
      ensures !FromPrev(p, prev) && !FromLast(p, last) ==>
                ok && completed == old(completed) && outbox == old(outbox) && ctx.key == old(ctx.key)
      ensures FromPrev(p, prev) ==> (ok <==> NoneZero(ctx.grp.curve, p.data[..ReadCount(pos)]))
      ensures FromPrev(p, prev) && ok ==>
                var list := NextList(ctx.grp.curve, ctx.grp.G, ctx.priv.Value(), pos, p.data[..ReadCount(pos)]);
                && outbox == old(outbox) + [Directed(self, next, CMD_GDH2_NODE_VAL, list)]
                && completed == old(completed) && ctx.key == old(ctx.key)
      ensures FromLast(p, last) ==> (ok <==> p.data[|ids| - pos - 1] != ctx.grp.curve.zero)
      ensures FromLast(p, last) && ok ==>
                && completed && outbox == old(outbox)
                && ctx.key == Times(ctx.grp.curve, ctx.priv.Value(), p.data[|ids| - pos - 1])
      ensures !ok ==> completed == old(completed) && outbox == old(outbox)
    {
      hide Limbs.Val, GoodGroup, Times, IsPredecessor, IsSuccessor, IsFirst, IsLast, CountBelow, LastList, NextList,
          NoneZero;
      if p.cmd == CMD_GDH2_NODE_VAL {
        if p.src != prev { return true; }
        var c, list := ctx.MakeVal(pos, p.data);
        if c != Ok { return false; }
        outbox := outbox + [Directed(self, next, CMD_GDH2_NODE_VAL, list)];
      } else if p.cmd == CMD_GDH2_LAST_VAL {
        if p.src != last { return true; }
        var c := ctx.ComputeKey(pos, p.data);
        if c != Ok { return false; }
        completed := true;
      }
      return true;
    }
  }
}
