/** The multi-party key agreement of sban/src/mka.c: its context, and why its rounds make all
    parties arrive at the same key. */
module Mka {
  import opened Arith
  import opened Limbs
  import opened Bignum
  import opened Divisors
  import opened Groups
  import opened GroupSums
  import opened Symmetric
  import opened CombMul
  import opened ModInverse
  import opened Primes
  import opened Ecp

  /** k' is what the round-r accumulation of buf makes of k: the point whose (r + 1)-fold is
      the sum of buf less the r-fold of k. */
  ghost predicate Accumulated<P(!new)>(g: Group<P>, r: nat, k: P, buf: seq<P>, k': P) {
    Times(g, r + 1, k') == g.add(SumPoints(g, buf), g.neg(Times(g, r, k)))
  }

  // ---- The algebra of the rounds ----------------------------------------------------------

  /** What party i broadcasts in round r, as a multiple of the base point: its secret times the
      r-th elementary symmetric polynomial of the others' secrets. */
  ghost function Share(a: seq<int>, i: nat, r: nat): int
    requires i < |a|
  {
    a[i] * Elementary(Without(a, i), r)
  }

  ghost function Shares(a: seq<int>, n: nat, r: nat): (s: seq<int>)
    requires n <= |a|
    ensures |s| == n && forall j :: 0 <= j < n ==> s[j] == Share(a, j, r)
  {
    if n == 0 then [] else Shares(a, n - 1, r) + [Share(a, n - 1, r)]
  }

  lemma {:induction false} TotalShares(a: seq<int>, n: nat, r: nat)
    requires n <= |a|
    ensures Total(Shares(a, n, r)) == Cofactors(a, n, r)
  {
    hide Elementary;
    if n > 0 {
      TotalShares(a, n - 1, r);
      var s := Shares(a, n, r);
      assert s[..n - 1] == Shares(a, n - 1, r);
    }
  }

  ghost predicate Multiples<P(!new)>(g: Group<P>, base: P, s: seq<int>, vs: seq<P>) {
    |s| == |vs| && forall j :: 0 <= j < |s| ==> vs[j] == Times(g, s[j], base)
  }

  lemma SubtractMultiple<P(!new)>(g: Group<P>, base: P, x: P, c: int, d: int)
    requires Abelian(g) && g.add(x, Times(g, c, base)) == Times(g, d, base)
    ensures x == Times(g, d - c, base)
  {
    hide *;
    var tc := Times(g, c, base);
    TimesAdd(g, d - c, c, base);
    AddComm(g, x, tc);
    AddComm(g, Times(g, d - c, base), tc);
    AddCancel(g, tc, x, Times(g, d - c, base));
  }

  /** What a round accumulates, before the division: (r + 1) times the next elementary symmetric
      polynomial of the others' secrets. */
  lemma RoundDifference<P(!new)>(g: Group<P>, base: P, a: seq<int>, i: nat, r: nat, vs: seq<P>, buf: seq<P>)
    requires Abelian(g) && i < |a|
    requires Multiples(g, base, Shares(a, |a|, r), vs) && multiset(buf) == multiset(Without(vs, i))
    ensures g.add(SumPoints(g, buf), g.neg(Times(g, r, vs[i])))
         == Times(g, r + 1, Times(g, Elementary(Without(a, i), r + 1), base))
  {
    hide *;
    var e1, e0 := Elementary(a, r + 1), Elementary(Without(a, i), r + 1);
    var s := Share(a, i, r);
    PeersSum(g, base, a, i, r, vs, buf);
    assert vs[i] == Times(g, s, base) by { MultipleAt(g, base, a, r, vs, i); }
    TimesMul(g, r, s, base);
    TimesNeg(g, r * s, base);
    TimesAdd(g, (r + 1) * e1 - s, 0 - r * s, base);
    ShareSplit(a, i, r);
    RoundAlgebra(r, e1, s, e0);
    TimesMul(g, r + 1, e0, base);
  }

  /** One round: from everybody's broadcast of round r, in whatever order the peers' values are
      summed, party i accumulates the next elementary symmetric polynomial of the others' secrets. */
  lemma RoundStep<P(!new)>(g: Group<P>, q: int, base: P, a: seq<int>, i: nat, r: nat, vs: seq<P>, buf: seq<P>, k': P)
    requires PrimeGroup(g, q) && r + 1 < q && i < |a|
    requires Multiples(g, base, Shares(a, |a|, r), vs) && multiset(buf) == multiset(Without(vs, i))
    requires Accumulated(g, r, vs[i], buf, k')
    ensures k' == Times(g, Elementary(Without(a, i), r + 1), base)
  {
    hide *;
    PrimeOrderOf(g, q, base);
    RoundDifference(g, base, a, i, r, vs, buf);
    MultipleAt(g, base, a, r, vs, i);
    AccumulatedElim(g, r, vs[i], buf, k');
    var e := InverseModPrime(q, r + 1);
    TimesCancel(g, q, r + 1, e, k', Times(g, Elementary(Without(a, i), r + 1), base));
  }

  lemma AccumulatedElim<P(!new)>(g: Group<P>, r: nat, k: P, buf: seq<P>, k': P)
    requires Accumulated(g, r, k, buf, k')
    ensures Times(g, r + 1, k') == g.add(SumPoints(g, buf), g.neg(Times(g, r, k)))
  {
  }

  lemma MultipleAt<P(!new)>(g: Group<P>, base: P, a: seq<int>, r: nat, vs: seq<P>, i: nat)
    requires Multiples(g, base, Shares(a, |a|, r), vs) && i < |a|
    ensures |vs| == |a| && vs[i] == Times(g, Share(a, i, r), base)
  {
  }

  lemma RoundAlgebra(r: int, e1: int, s: int, e0: int)
    requires e1 == e0 + s
    ensures ((r + 1) * e1 - s) + (0 - r * s) == (r + 1) * e0
  {
  }

  lemma ShareSplit(a: seq<int>, i: nat, r: nat)
    requires i < |a|
    ensures Elementary(a, r + 1) == Elementary(Without(a, i), r + 1) + Share(a, i, r)
  {
    hide Elementary;
    ElementarySplit(a, i, r + 1);
  }

  /** The sum over the peers: (r + 1) times the next polynomial of all, less one's own share. */
  lemma PeersSum<P(!new)>(g: Group<P>, base: P, a: seq<int>, i: nat, r: nat, vs: seq<P>, buf: seq<P>)
    requires Abelian(g) && i < |a|
    requires Multiples(g, base, Shares(a, |a|, r), vs) && multiset(buf) == multiset(Without(vs, i))
    ensures SumPoints(g, buf) == Times(g, (r + 1) * Elementary(a, r + 1) - Share(a, i, r), base)
  {
    hide Abelian, Times, Elementary, SumPoints, Share;
    SumPermuted(g, buf, Without(vs, i));
    SumWithout(g, vs, i);
    SumTimes(g, Shares(a, |a|, r), vs, base);
    TotalShares(a, |a|, r);
    CofactorSum(a, r);
    SubtractMultiple(g, base, SumPoints(g, buf), Share(a, i, r), (r + 1) * Elementary(a, r + 1));
  }

  /** The key of every party: the product of all the secrets. */
  lemma KeyIsProduct<P(!new)>(g: Group<P>, base: P, a: seq<int>, i: nat, k: P)
    requires Abelian(g) && i < |a| && k == Times(g, Elementary(Without(a, i), |a| - 1), base)
    ensures Times(g, a[i], k) == Times(g, Product(a), base)
  {
    hide Abelian, Times, Elementary, Product;
    ElementaryTop(Without(a, i), |a| - 1);
    ProductSplit(a, i);
    TimesMul(g, a[i], Product(Without(a, i)), base);
  }

  /** The broadcast that makes k into the next share. */
  lemma NextShare<P(!new)>(g: Group<P>, base: P, a: seq<int>, i: nat, r: nat, k: P)
    requires Abelian(g) && i < |a| && k == Times(g, Elementary(Without(a, i), r), base)
    ensures Times(g, a[i], k) == Times(g, Share(a, i, r), base)
  {
    hide Abelian, Times, Elementary;
    TimesMul(g, a[i], Elementary(Without(a, i), r), base);
  }

  lemma FirstShare(a: seq<int>, i: nat)
    requires i < |a|
    ensures Share(a, i, 0) == a[i]
  {
  }

  /** A whole run of the rounds.  ks(r)[i] is party i's accumulator when round r begins, and
      sent(r)[i] what it broadcasts; bufs(r)[i] is what it receives, in some order. */
  ghost predicate IsRun<P(!new)>(g: Group<P>, base: P, a: seq<int>, ks: nat -> seq<P>, sent: nat -> seq<P>,
                                 bufs: nat -> seq<seq<P>>) {
    && (forall r :: |ks(r)| == |sent(r)| == |bufs(r)| == |a|)
    && (forall i :: 0 <= i < |a| ==> ks(0)[i] == Times(g, a[i], base) && sent(0)[i] == ks(0)[i])
    && (forall r, i :: 0 < r <= |a| - 2 && 0 <= i < |a| ==> sent(r)[i] == Times(g, a[i], ks(r)[i]))
    && (forall r, i :: 0 <= r <= |a| - 2 && 0 <= i < |a| ==>
          multiset(bufs(r)[i]) == multiset(Without(sent(r), i))
              && Accumulated(g, r, sent(r)[i], bufs(r)[i], ks(r + 1)[i]))
  }

  lemma RunFacts<P(!new)>(g: Group<P>, base: P, a: seq<int>, ks: nat -> seq<P>, sent: nat -> seq<P>,
                          bufs: nat -> seq<seq<P>>, r: nat, i: nat)
    requires IsRun(g, base, a, ks, sent, bufs) && r <= |a| - 2 && i < |a|
    ensures |ks(r)| == |sent(r)| == |bufs(r)| == |ks(r + 1)| == |a|
    ensures sent(r)[i] == Times(g, a[i], if r == 0 then base else ks(r)[i])
    ensures multiset(bufs(r)[i]) == multiset(Without(sent(r), i))
    ensures Accumulated(g, r, sent(r)[i], bufs(r)[i], ks(r + 1)[i])
  {
    hide Times, Accumulated;
  }

  /** After the accumulation of round r, every party holds the (r + 1)-st elementary symmetric
      polynomial of the others' secrets, times the base point. */
  lemma {:induction false} RoundInvariant<P(!new)>(g: Group<P>, q: int, base: P, a: seq<int>, ks: nat -> seq<P>,
                                                   sent: nat -> seq<P>, bufs: nat -> seq<seq<P>>, r: nat)
    requires PrimeGroup(g, q) && |a| < q && r <= |a| - 2 && IsRun(g, base, a, ks, sent, bufs)
    ensures |ks(r + 1)| == |a|
    ensures forall i :: 0 <= i < |a| ==> ks(r + 1)[i] == Times(g, Elementary(Without(a, i), r + 1), base)
  {
    hide *;
    if r > 0 { RoundInvariant(g, q, base, a, ks, sent, bufs, r - 1); }
    RunFacts(g, base, a, ks, sent, bufs, r, 0);
    var vs := sent(r);
    PrimeOrderOf(g, q, base);
    forall i | 0 <= i < |a| ensures vs[i] == Times(g, Share(a, i, r), base) {
      RunFacts(g, base, a, ks, sent, bufs, r, i);
      if r == 0 { FirstShare(a, i); } else { NextShare(g, base, a, i, r, ks(r)[i]); }
    }
    MultiplesIntro(g, base, a, r, vs);
    forall i | 0 <= i < |a| ensures ks(r + 1)[i] == Times(g, Elementary(Without(a, i), r + 1), base) {
      RunFacts(g, base, a, ks, sent, bufs, r, i);
      RoundStep(g, q, base, a, i, r, vs, bufs(r)[i], ks(r + 1)[i]);
    }
  }

  lemma MultiplesIntro<P(!new)>(g: Group<P>, base: P, a: seq<int>, r: nat, vs: seq<P>)
    requires |vs| == |a| && forall i :: 0 <= i < |a| ==> vs[i] == Times(g, Share(a, i, r), base)
    ensures Multiples(g, base, Shares(a, |a|, r), vs)
  {
    hide Times, Share;
  }

  /** All n >= 2 parties compute the same key, the product of all secrets times the base point. */
  lemma KeyAgreement<P(!new)>(g: Group<P>, q: int, base: P, a: seq<int>, ks: nat -> seq<P>,
                              sent: nat -> seq<P>, bufs: nat -> seq<seq<P>>)
    requires PrimeGroup(g, q) && 2 <= |a| < q && IsRun(g, base, a, ks, sent, bufs)
    ensures forall i :: 0 <= i < |a| ==> Times(g, a[i], ks(|a| - 1)[i]) == Times(g, Product(a), base)
  {
    hide Times, Elementary, Accumulated, Prime, Product;
    RoundInvariant(g, q, base, a, ks, sent, bufs, |a| - 2);
    forall i | 0 <= i < |a| ensures Times(g, a[i], ks(|a| - 1)[i]) == Times(g, Product(a), base) {
      KeyIsProduct(g, base, a, i, ks(|a| - 1)[i]);
    }
  }

  /** A round number as an mpi. */
  method SmallScalar(x: nat) returns (m: Mpi)
    requires x < 256
    ensures fresh(m) && m.Value() == x && m.p != []
  {
    m := new Mpi();
    BaseFacts();
    Lset(m, x);
  }

  /** The r-fold of the inverse of k. */
  method NegatedMultiple<P(!new, ==)>(grp: EcpGroup<P>, r: nat, k: P) returns (c: Code, tmp2: P)
    requires GoodGroup(grp) && 0 < r < 256 && r < grp.N.Value()
    modifies grp`T
    ensures GoodGroup(grp) && (grp.T == old(grp.T) || fresh(grp.T))
    ensures c == if k == grp.curve.zero then BadInput else Ok
    ensures c == Ok ==> tmp2 == grp.curve.neg(Times(grp.curve, r, k))
  {
    hide *;
    var m := SmallScalar(r);
    GoodFacts(grp);
    c, tmp2 := EcpMul(grp, grp.curve.zero, m, grp.curve.neg(k));
    GroupIsAbelian(grp);
    NegZero(grp.curve, k);
    NegTimes(grp.curve, r, k);
    if c != Ok { c := BadInput; }
  }

  /** The point whose m-fold is x: x times the inverse of m modulo the order of the curve. */
  method DivideBy<P(!new, ==)>(grp: EcpGroup<P>, k: P, m: nat, x: P) returns (c: Code, k': P)
    requires GoodGroup(grp) && 0 < m < 256 && m < grp.N.Value()
    modifies grp`T
    ensures GoodGroup(grp) && (grp.T == old(grp.T) || fresh(grp.T))
    ensures c == if x == grp.curve.zero then BadInput else Ok
    ensures c == Ok ==> Times(grp.curve, m, k') == x
  {
    hide *;
    var r := SmallScalar(m);
    var e := new Mpi();
    GroupIsPrime(grp);
    PrimeCoprime(grp.N.Value(), m);
    PositiveAbs(r);
    var st := InvMod(e, r, grp.N);
    InverseInRange(m, e.Value(), grp.N.Value());
    ghost var ev := e.Value();
    GoodFacts(grp);
    c, k' := EcpMul(grp, k, e, x);
    UndoInverse(grp.curve, grp.N.Value(), m, ev, x);
    if c != Ok { c := BadInput; }
  }

  lemma PositiveAbs(x: Mpi)
    requires x.Value() > 0
    ensures x.Abs() == x.Value()
  {
  }

  lemma GroupIsPrime<P(!new)>(grp: EcpGroup<P>)
    requires GoodGroup(grp)
    ensures PrimeGroup(grp.curve, grp.N.Value()) && Prime(grp.N.Value()) && grp.N.Value() > 1 && grp.N.p != []
  {
  }

  // ---- mka_context ------------------------------------------------------------------------

  /** The source's mka_context.  The exported key is the X coordinate of the point key. */
  class MkaContext<P(!new, ==)> {
    const grp: EcpGroup<P>
    var a: Mpi
    var k: P
    var key: P
    var n: int
    var r: int

    /** The curve is fit for use, the secret in range, and n below the order of the curve and
        small enough for the driver's uint8_t. */
    ghost predicate Valid()
      reads this, grp, grp.N, grp.T, a
    {
      && GoodGroup(grp) && a != grp.N
      && 1 <= a.Value() < grp.N.Value()
      && 2 <= n <= 255 && n < grp.N.Value() && r >= 0
    }

    /** mka_init and mka_set_part, with the secret that ecp_gen_keypair draws from [1, N). */
    constructor (grp: EcpGroup<P>, secret: Mpi, n: int)
      requires GoodGroup(grp) && grp.G != grp.curve.zero && secret != grp.N
      requires 1 <= secret.Value() < grp.N.Value()
      requires 2 <= n <= 255 && n < grp.N.Value()
      modifies grp`T
      ensures Valid() && this.grp == grp && a == secret && this.n == n && r == 0
      ensures k == Times(grp.curve, a.Value(), grp.G) && key == grp.curve.zero
    {
      this.grp, a, this.n, r := grp, secret, n, 0;
      k, key := grp.curve.zero, grp.curve.zero;
      new;
      hide Val, Prime, Times, Abelian;
      var c;
      GoodFacts(grp);
      c, k := EcpMul(grp, k, secret, grp.G);
    }

    /** mka_make_broadval: the point to send, which is a * k except in round 0. */
    method MakeBroadval() returns (c: Code, out: P)
      requires Valid()
      modifies this`k, grp`T
      ensures Valid()
      ensures c == if r > n - 2 then MaxRoundExceeded
                   else if r > 0 && old(k) == grp.curve.zero then BadInput else Ok
      ensures c == Ok ==> k == (if r == 0 then old(k) else Times(grp.curve, a.Value(), old(k))) && out == k
      ensures c != Ok ==> k == old(k)
    {
      hide Val, Prime, Times, Abelian;
      if r > n - 2 { return MaxRoundExceeded, k; }
      if r == 0 { return Ok, k; }
      var tmp;
      GoodFacts(grp);
      c, tmp := EcpMul(grp, k, a, k);
      if c != Ok { return BadInput, k; }
      k := tmp;
      return Ok, k;
    }

    /** The sum of the n - 1 received points. */
    method SumReceived(buf: seq<P>) returns (sum: P)
      requires 2 <= n && |buf| == n - 1
      ensures sum == SumPoints(grp.curve, buf)
    {
      sum := grp.curve.zero;
      var i := 0;
      while i < n - 1
        invariant 0 <= i <= n - 1 && sum == SumPoints(grp.curve, buf[..i])
      {
        sum := grp.curve.add(sum, buf[i]);
        assert buf[..i + 1][..i] == buf[..i];
        i := i + 1;
      }
      assert buf[..i] == buf;
    }

    /** sum less the r-fold of k. */
    method SubtractOwn(sum: P) returns (c: Code, d: P)
      requires Valid() && r <= n - 2
      modifies grp`T
      ensures Valid()
      ensures c == if r > 0 && k == grp.curve.zero then BadInput else Ok
      ensures c == Ok ==> d == grp.curve.add(sum, grp.curve.neg(Times(grp.curve, r, k)))
    {
      hide Val, Times, GoodGroup, Abelian;
      if r == 0 {
        GroupIsAbelian(grp);
        NegTimes(grp.curve, 0, k);
        SubtractNothing(grp.curve, sum);
        return Ok, sum;
      }
      var tmp2;
      c, tmp2 := NegatedMultiple(grp, r, k);
      d := if c == Ok then grp.curve.add(sum, tmp2) else sum;
    }

    /** mka_acc_broadval: one round's accumulation of the n - 1 received points. */
    method AccBroadval(buf: seq<P>) returns (c: Code)
      requires Valid() && |buf| == n - 1
      modifies this`k, this`r, grp`T
      ensures Valid()
      ensures c == if old(r) > n - 2 then MaxRoundExceeded
                   else if old(r) > 0 && old(k) == grp.curve.zero then BadInput
                   else if grp.curve.zero
                     == grp.curve.add(SumPoints(grp.curve, buf), grp.curve.neg(Times(grp.curve, old(r), old(k))))
                   then BadInput else Ok
      ensures c == Ok ==> Accumulated(grp.curve, old(r), old(k), buf, k) && r == Min(old(r) + 1, n - 2)
      ensures c != Ok ==> k == old(k) && r == old(r)
    {
      hide Val, Abelian, Times, SumPoints, Gcd, Cong, Prime, GoodGroup;
      if r > n - 2 { return MaxRoundExceeded; }
      var sum := SumReceived(buf);
      var tmp1;
      c, tmp1 := SubtractOwn(sum);
      if c != Ok { return; }
      var k';
      c, k' := DivideBy(grp, k, r + 1, tmp1);
      if c != Ok { return BadInput; }
      k := k';
      if r < n - 2 { r := r + 1; }
    }

    /** mka_compute_key, in the last round only. */
    method ComputeKey() returns (c: Code)
      requires Valid()
      modifies this`key, grp`T
      ensures Valid()
      ensures c == if r > n - 2 then MaxRoundExceeded else if r < n - 2 then RoundNotCompleted
                   else if k == grp.curve.zero then BadInput else Ok
      ensures key == if c == Ok then Times(grp.curve, a.Value(), k) else old(key)
    {
      hide Val, Prime, Abelian, Times;
      if r > n - 2 { return MaxRoundExceeded; }
      if r < n - 2 { return RoundNotCompleted; }
      var tmp;
      GoodFacts(grp);
      c, tmp := EcpMul(grp, grp.curve.zero, a, k);
      if c != Ok { return BadInput; }
      key := tmp;
    }
  }

  lemma GroupIsAbelian<P(!new)>(grp: EcpGroup<P>)
    requires GoodGroup(grp)
    ensures Abelian(grp.curve)
  {
  }

  lemma SubtractNothing<P(!new)>(g: Group<P>, sum: P)
    requires Abelian(g)
    ensures g.add(sum, g.neg(g.zero)) == sum
  {
    hide Abelian;
    NegZero(g, sum);
    AddZero(g, sum);
  }

  lemma NegZero<P(!new)>(g: Group<P>, k: P)
    requires Abelian(g)
    ensures g.neg(k) == g.zero <==> k == g.zero
    ensures g.neg(g.zero) == g.zero
  {
    hide Abelian;
    AddNeg(g, k);
    AddZero(g, k);
    AddNeg(g, g.zero);
    AddZero(g, g.neg(g.zero));
  }

  lemma NegTimes<P(!new)>(g: Group<P>, r: int, k: P)
    requires Abelian(g)
    ensures Times(g, r, g.neg(k)) == g.neg(Times(g, r, k))
    ensures Times(g, 0, k) == g.zero
  {
    hide Abelian, Times;
    TimesSmall(g, k);
    TimesMul(g, r, -1, k);
    TimesNeg(g, r, k);
    assert r * -1 == 0 - r;
  }

  lemma InverseInRange(m: int, e: int, q: int)
    requires q > 1 && 0 <= e < q && (m * e) % q == 1
    ensures 1 <= e && Cong(m * e, 1, q)
  {
    assert m * 0 == 0;
    DivUnique(1, 0, 1, q);
  }

  lemma UndoInverse<P(!new)>(g: Group<P>, q: int, m: int, e: int, x: P)
    requires PrimeGroup(g, q) && q > 1 && Cong(m * e, 1, q)
    ensures Times(g, m, Times(g, e, x)) == x
  {
    hide *;
    PrimeOrderOf(g, q, x);
    TimesMul(g, m, e, x);
    TimesCong(g, m * e, 1, q, x);
    TimesSmall(g, x);
  }
}
