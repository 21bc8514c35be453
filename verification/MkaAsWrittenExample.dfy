/** A run of three nodes with the copy that crypto/mka.h makes, in which a node ends with a key that
    is not the common one. */
module MkaAsWrittenExample {
  import opened Arith
  import opened Groups
  import opened GroupSums
  import opened Symmetric
  import opened Divisors
  import opened Primes
  import opened Ecp
  import opened MkaProtocol
  import opened MkaNetwork
  import opened MkaAsWritten
  import opened MkaAsWrittenRuns

  // ---- The integers modulo 7 --------------------------------------------------------------

  type Z7 = x: int | 0 <= x < 7

  function Add7(x: Z7, y: Z7): Z7 { if x + y >= 7 then x + y - 7 else x + y }

  function Neg7(x: Z7): Z7 { if x == 0 then 0 else 7 - x }

  function Integers7(): Group<Z7> { Group(0, Add7, Neg7) }

  lemma Add7Assoc(x: Z7, y: Z7, z: Z7)
    ensures Add7(Add7(x, y), z) == Add7(x, Add7(y, z))
  {
  }

  lemma Integers7Abelian()
    ensures Abelian(Integers7())
  {
    var g := Integers7();
    forall x, y, z ensures g.add(g.add(x, y), z) == g.add(x, g.add(y, z)) { Add7Assoc(x, y, z); }
  }

  lemma {:induction false} Times7(k: nat, x: Z7)
    ensures Times(Integers7(), k, x) == (k * x) % 7
  {
    if k > 0 {
      Times7(k - 1, x);
      assert k * x == (k - 1) * x + x by { MulDist(k - 1, 1, x); }
      Mod7Add((k - 1) * x, x);
    }
  }

  lemma Mod7Add(a: int, x: Z7)
    ensures Add7(x, a % 7) == (a + x) % 7
  {
  }

  lemma SevenIsPrime()
    ensures Prime(7)
  {
    forall d: nat | 1 < d < 7 ensures !Divides(d, 7) {
    }
  }

  /** Three nodes with the secrets 1, 2 and 3. */
  function Example(): Config<Z7> {
    Config(Integers7(), 7, 1, [1, 2, 3])
  }

  lemma ExampleIsGood()
    ensures GoodConfig(Example()) && Prime(7)
  {
    hide Times, Prime, Abelian;
    Integers7Abelian();
    SevenIsPrime();
    forall p: Z7 ensures Times(Integers7(), 7, p) == 0 { Times7(7, p); }
  }

  lemma Sum7(x: Z7, y: Z7, r: nat, k: Z7)
    requires r <= 1
    ensures Add7(Add7(Add7(0, x), y), Neg7((r * k) % 7)) == (x + y - r * k) % 7
  {
    if r == 0 { assert r * k == 0; } else { assert r * k == k; }
  }

  lemma Accumulate7(k: Z7, r: nat, x: Z7, y: Z7)
    requires r <= 1 && Prime(7) && PrimeGroup(Integers7(), 7)
    requires r > 0 ==> k != 0
    ensures var d := (x + y - r * k) % 7;
      var p := Accumulate(Integers7(), 7, k, r, 3, [x, y]);
      d != 0 ==> p.Some? && ((r + 1) * p.value) % 7 == d
  {
    hide Times, Prime, PrimeGroup, Cong;
    var g := Integers7();
    assert SumPoints(g, [x, y]) == Add7(Add7(0, x), y) by {
      assert [x, y][..1] == [x] && [x][..0] == [];
      assert SumPoints(g, [x]) == Add7(SumPoints(g, []), x);
    }
    Times7(r, k);
    var d := Add7(Add7(Add7(0, x), y), Neg7((r * k) % 7));
    Sum7(x, y, r, k);
    if d != 0 {
      AccumulateMeaning(g, 7, k, r, 3, [x, y]);
      var v := Accumulate(g, 7, k, r, 3, [x, y]).value;
      Times7(r + 1, v);
    }
  }

  lemma ProductSmall(x: int, y: int, z: int)
    ensures Product([x, y, z]) == x * (y * z)
  {
    assert [x, y, z][1..] == [y, z] && [y, z][1..] == [z] && [z][1..] == [];
    assert Product([z]) == z;
  }

  // ---- One node ---------------------------------------------------------------------------

  function At(step: nat, users: seq<nat>, slots: seq<Z7>, deferred: seq<Deferred<Z7>>, k: Z7, r: nat,
      sent: seq<StepValue<Z7>>): Node<Z7>
  {
    Node(Running, step, users, slots, deferred, k, r, 0, sent)
  }

  /** The end of the first step: x and y have come. */
  lemma FirstAdvance(a: nat, m: Node<Z7>, x: Z7, y: Z7, w: Z7, copy: Copy<Z7>)
    requires Prime(7) && PrimeGroup(Integers7(), 7)
    requires m.step == 0 && m.r == 0 && m.slots == [x, y] && (x + y) % 7 != 0 && w == (a * ((x + y) % 7)) % 7
    ensures Advance(Integers7(), 7, a, 3, m, copy)
         == Replay(m.(k := w, r := 1, users := [], slots := [], step := 1, sent := m.sent + [StepValue(1, w)],
                      deferred := []), m.deferred, copy)
  {
    hide Times, Prime, PrimeGroup, Accumulate, Replay;
    var d: Z7 := (x + y) % 7;
    Accumulate7(m.k, 0, x, y);
    assert Accumulate(Integers7(), 7, m.k, 0, 3, [x, y]) == MkaProtocol.Some(d);
    Times7(a, d);
  }

  /** The end of the second: 2 k = x + y - k_before. */
  lemma SecondAdvance(m: Node<Z7>, copy: Copy<Z7>)
    requires Prime(7) && PrimeGroup(Integers7(), 7)
    requires m.step == 1 && m.r == 1 && m.slots == [2, 1] && m.k == 2
    ensures Advance(Integers7(), 7, 3, 3, m, copy) == m.(k := 4, r := 1, users := [], slots := [], step := 2)
  {
    hide Times, Prime, PrimeGroup, Accumulate, Replay;
    Accumulate7(2, 1, 2, 1);
    assert Accumulate(Integers7(), 7, 2, 1, 3, [2, 1]) == MkaProtocol.Some(4);
  }

  /** The replay of one deferred entry. */
  lemma ReplayOne(m: Node<Z7>, src: nat, own: Z7, v: Z7)
    requires m.users == [] && m.slots == [] && m.step == 1
    ensures Replay(m, [Deferred(src, StepValue(1, own))], TriggerValue(v)) == m.(users := [src], slots := [v])
  {
    hide Replay;
    var entries := [Deferred(src, StepValue(1, own))];
    TriggerFirst(m, entries, v);
    assert entries[1..] == [] && m.users + [src] == [src] && m.slots + [v] == [v];
    TriggerNone(m.(users := [src], slots := [v]), v);
  }

  // ---- The run ----------------------------------------------------------------------------

  function Sent0(): seq<StepValue<Z7>> { [StepValue(0, 1)] }
  function Sent1(): seq<StepValue<Z7>> { [StepValue(0, 2)] }
  function Sent2(): seq<StepValue<Z7>> { [StepValue(0, 3)] }
  function Both0(): seq<StepValue<Z7>> { [StepValue(0, 1), StepValue(1, 5)] }
  function Both1(): seq<StepValue<Z7>> { [StepValue(0, 2), StepValue(1, 1)] }
  function Both2(): seq<StepValue<Z7>> { [StepValue(0, 3), StepValue(1, 2)] }

  /** Node 0 after none, one and both of the others' first broadcasts; node 1 likewise. */
  function First(t: nat): Node<Z7> {
    if t == 0 then At(0, [], [], [], 1, 0, Sent0())
    else if t == 1 then At(0, [1], [2], [], 1, 0, Sent0())
    else At(1, [], [], [], 5, 1, Both0())
  }

  function Second(t: nat): Node<Z7> {
    if t == 0 then At(0, [], [], [], 2, 0, Sent1())
    else if t == 1 then At(0, [0], [1], [], 2, 0, Sent1())
    else At(1, [], [], [], 1, 1, Both1())
  }

  /** Node 2: both broadcasts of node 0 come before the first of node 1. */
  function Third(t: nat): Node<Z7> {
    if t == 0 then At(0, [], [], [], 3, 0, Sent2())
    else if t == 1 then At(0, [0], [1], [], 3, 0, Sent2())
    else if t == 2 then At(0, [0], [1], [Deferred(0, StepValue(1, 5))], 3, 0, Sent2())
    else if t == 3 then At(1, [0], [2], [], 2, 1, Both2())
    else if t == 4 then At(2, [], [], [], 4, 1, Both2())
    else Node(Completed, 2, [], [], [], 4, 1, 5, Both2())
  }

  function Least(x: nat, y: nat): nat { if x < y then x else y }

  /** How many actions at each node the first t actions contain. */
  function Progressed(t: nat): (nat, nat, nat) {
    (Least(t, 2), if t < 2 then 0 else Least(t - 2, 2), if t < 4 then 0 else t - 4)
  }

  function Rows(t: nat): seq<seq<nat>> {
    var (a, b, c) := Progressed(t);
    [[0, if a > 0 then 1 else 0, if a > 1 then 1 else 0],
     [if b > 0 then 1 else 0, 0, if b > 1 then 1 else 0],
     [Least(c, 2), if c <= 2 then 0 else Least(c - 2, 2), 0]]
  }

  function NetAt(t: nat): Network<Z7> {
    var (a, b, c) := Progressed(t);
    Network([First(a), Second(b), Third(c)], Rows(t))
  }

  function ActAt(t: nat): Action {
    if t == 0 then Deliver(0, 1) else if t == 1 then Deliver(0, 2)
    else if t == 2 then Deliver(1, 0) else if t == 3 then Deliver(1, 2)
    else if t < 6 then Deliver(2, 0) else if t < 8 then Deliver(2, 1)
    else Complete(2)
  }

  lemma FirstSteps()
    requires Prime(7) && PrimeGroup(Integers7(), 7)
    ensures ProcessAsWritten(Integers7(), 7, 1, 3, First(0), 1, StepValue(0, 2)) == First(1)
    ensures ProcessAsWritten(Integers7(), 7, 1, 3, First(1), 2, StepValue(0, 3)) == First(2)
  {
    hide Times, Prime, PrimeGroup, Advance;
    var m := First(1).(users := [1, 2], slots := [2, 3]);
    assert Receive(First(1), 2, StepValue(0, 3)) == m;
    FirstAdvance(1, m, 2, 3, 5, TriggerValue(3));
    TriggerNone(First(2), 3);
  }

  lemma SecondSteps()
    requires Prime(7) && PrimeGroup(Integers7(), 7)
    ensures ProcessAsWritten(Integers7(), 7, 2, 3, Second(0), 0, StepValue(0, 1)) == Second(1)
    ensures ProcessAsWritten(Integers7(), 7, 2, 3, Second(1), 2, StepValue(0, 3)) == Second(2)
  {
    hide Times, Prime, PrimeGroup, Advance;
    var m := Second(1).(users := [0, 2], slots := [1, 3]);
    assert Receive(Second(1), 2, StepValue(0, 3)) == m;
    FirstAdvance(2, m, 1, 3, 1, TriggerValue(3));
    TriggerNone(Second(2), 3);
  }

  /** The value deferred from node 0 is 5; the copy puts 2 in its place. */
  lemma ThirdSteps()
    requires Prime(7) && PrimeGroup(Integers7(), 7)
    ensures ProcessAsWritten(Integers7(), 7, 3, 3, Third(0), 0, StepValue(0, 1)) == Third(1)
    ensures ProcessAsWritten(Integers7(), 7, 3, 3, Third(1), 0, StepValue(1, 5)) == Third(2)
    ensures ProcessAsWritten(Integers7(), 7, 3, 3, Third(2), 1, StepValue(0, 2)) == Third(3)
    ensures ProcessAsWritten(Integers7(), 7, 3, 3, Third(3), 1, StepValue(1, 1)) == Third(4)
    ensures Finish(Integers7(), 3, Third(4)) == Third(5)
  {
    hide Times, Prime, PrimeGroup, Advance, Replay;
    var m := Third(2).(users := [0, 1], slots := [1, 2]);
    assert Receive(Third(2), 1, StepValue(0, 2)) == m;
    FirstAdvance(3, m, 1, 2, 2, TriggerValue(2));
    assert Sent2() + [StepValue(1, 2)] == Both2();
    ReplayOne(At(1, [], [], [], 2, 1, Both2()), 0, 5, 2);
    var l := Third(3).(users := [0, 1], slots := [2, 1]);
    assert Receive(Third(3), 1, StepValue(1, 1)) == l;
    SecondAdvance(l, TriggerValue(1));
    Times7(3, 4);
  }

  lemma RowsShape(t: nat)
    ensures |Rows(t)| == 3 && |Rows(t)[0]| == 3 && |Rows(t)[1]| == 3 && |Rows(t)[2]| == 3
    ensures t < 8 ==> Rows(t)[ActAt(t).to][ActAt(t).src] == if t == 5 || t == 7 then 1 else 0
    ensures t >= 8 ==> Rows(t) == Rows(8)
  {
  }

  lemma RowsStep(t: nat)
    requires t < 8
    ensures var j, i := ActAt(t).to, ActAt(t).src;
      Rows(t + 1) == Rows(t)[j := Rows(t)[j][i := Rows(t)[j][i] + 1]]
  {
    var j, i := ActAt(t).to, ActAt(t).src;
    var r, s := Rows(t), Rows(t + 1);
    assert s[j] == r[j][i := r[j][i] + 1] by {
      forall x | 0 <= x < 3 ensures s[j][x] == r[j][i := r[j][i] + 1][x] {
        assert x == 0 || x == 1 || x == 2;
      }
    }
    assert forall y :: 0 <= y < 3 && y != j ==> s[y] == r[y];
  }

  lemma NodeRight(t: nat)
    requires Prime(7) && PrimeGroup(Integers7(), 7) && t < 8
    ensures |Rows(t)| == 3 && |Rows(t)[ActAt(t).to]| == 3
    ensures var net, j, i := NetAt(t), ActAt(t).to, ActAt(t).src;
      && Enabled(Example(), net, ActAt(t))
      && NetAt(t + 1).nodes[j]
         == ProcessAsWritten(Integers7(), 7, j + 1, 3, net.nodes[j], i, net.nodes[i].sent[net.taken[j][i]])
  {
    hide Times, Prime, PrimeGroup, ProcessAsWritten, Finish, Rows;
    RowsShape(t);
    FirstSteps();
    SecondSteps();
    ThirdSteps();
    if t == 0 {} else if t == 1 {} else if t == 2 {} else if t == 3 {} else if t == 4 {}
    else if t == 5 {} else if t == 6 {} else {}
  }

  lemma ActionRight(t: nat)
    requires GoodConfig(Example()) && Prime(7) && t < 9
    ensures Enabled(Example(), NetAt(t), ActAt(t))
    ensures NetAt(t + 1) == DoAsWritten(Example(), NetAt(t), ActAt(t))
  {
    hide Times, Prime, PrimeGroup, ProcessAsWritten, Finish, Rows, First, Second, Third;
    var net, next := NetAt(t), NetAt(t + 1);
    if t == 8 {
      LastAction();
    } else {
      var j, i := ActAt(t).to, ActAt(t).src;
      RowsShape(t);
      NodeRight(t);
      RowsStep(t);
      assert next.nodes == net.nodes[j := next.nodes[j]];
    }
  }

  lemma LastAction()
    requires GoodConfig(Example()) && Prime(7)
    ensures Enabled(Example(), NetAt(8), Complete(2)) && NetAt(9) == DoAsWritten(Example(), NetAt(8), Complete(2))
  {
    hide Times, Prime, PrimeGroup, ProcessAsWritten, Finish, Rows;
    RowsShape(8);
    RowsShape(9);
    ThirdSteps();
    assert NetAt(9).nodes == NetAt(8).nodes[2 := Third(5)];
  }

  lemma StartIs()
    ensures Start(Example()) == NetAt(0)
  {
    hide Times;
    Times7(1, 1);
    Times7(2, 1);
    Times7(3, 1);
    var net := Start(Example());
    assert net.nodes[0] == First(0) && net.nodes[1] == Second(0) && net.nodes[2] == Third(0);
    assert Rows(0)[0] == Zeros(3) && Rows(0)[1] == Zeros(3) && Rows(0)[2] == Zeros(3);
    assert net.nodes == NetAt(0).nodes && net.taken == NetAt(0).taken;
  }

  /** A run as written in which node 2 completes with a key other than the common one. */
  lemma AsWrittenDisagrees() returns (nets: seq<Network<Z7>>, acts: seq<Action>)
    ensures IsRunAsWritten(Example(), nets, acts) && |nets[|acts|].nodes| == 3
    ensures nets[|acts|].nodes[2].status == Completed
    ensures nets[|acts|].nodes[2].key != Times(Integers7(), Product(Example().secrets), Example().base)
  {
    hide Times, Prime, PrimeGroup, Product, Enabled, DoAsWritten, Start;
    ExampleIsGood();
    StartIs();
    nets, acts := seq(10, (t: nat) => NetAt(t)), seq(9, (t: nat) => ActAt(t));
    forall t | 0 <= t < 9
      ensures Enabled(Example(), nets[t], acts[t]) && nets[t + 1] == DoAsWritten(Example(), nets[t], acts[t])
    {
      ActionRight(t);
    }
    ProductSmall(1, 2, 3);
    Times7(6, 1);
  }
}
