/** Scalar multiplication as the key agreements call it: ecp_mul with its checks, on a curve
    whose points form a group of prime order. */
module Ecp {
  import opened Arith
  import opened Limbs
  import opened Bignum
  import opened Primes
  import opened Groups
  import opened CombMul

  /** The return codes of the key agreement code that the model keeps. */
  datatype Code = Ok | BadInput | InvalidKey | NoTable | MaxRoundExceeded | RoundNotCompleted

  ghost predicate PrimeGroup<P(!new)>(g: Group<P>, q: int) {
    Abelian(g) && Prime(q) && q % 2 == 1 && forall p :: Times(g, q, p) == g.zero
  }

  /** The assumption of ecp.h on its groups: all points have the odd prime order N. */
  ghost predicate CurveGroup<P(!new)>(grp: EcpGroup<P>)
    reads grp, grp.N, grp.T
  {
    grp.Valid() && grp.N.p != [] && PrimeGroup(grp.curve, grp.N.Value())
  }

  /** Besides, the comb tables can be had, as they can for every N of at least 37 bits
      (CombMul.LargeOrderWorks). */
  ghost predicate GoodGroup<P(!new)>(grp: EcpGroup<P>)
    reads grp, grp.N, grp.T
  {
    && CurveGroup(grp)
    && CombWorks(grp.N.Value(), grp.nbits, true) && CombWorks(grp.N.Value(), grp.nbits, false)
  }

  lemma GoodFacts<P(!new)>(grp: EcpGroup<P>)
    requires GoodGroup(grp)
    ensures CurveGroup(grp) && grp.N.Value() > 0
    ensures CombWorks(grp.N.Value(), grp.nbits, true) && CombWorks(grp.N.Value(), grp.nbits, false)
  {
  }

  lemma LargeGroupIsGood<P(!new)>(grp: EcpGroup<P>)
    requires CurveGroup(grp) && grp.nbits >= 37
    ensures GoodGroup(grp)
  {
    hide CombWorks;
    LargeOrderWorks(grp.N.Abs(), grp.nbits, true);
    LargeOrderWorks(grp.N.Abs(), grp.nbits, false);
  }

  lemma PrimeOrderOf<P(!new)>(g: Group<P>, q: int, p: P)
    requires PrimeGroup(g, q)
    ensures Abelian(g) && Prime(q) && q % 2 == 1 && q > 1 && Times(g, q, p) == g.zero
  {
  }

  /** A factor prime to the order can be cancelled. */
  lemma TimesCancel<P(!new)>(g: Group<P>, q: int, m: int, e: int, x: P, y: P)
    requires PrimeGroup(g, q) && q > 0 && Cong(m * e, 1, q) && Times(g, m, x) == Times(g, m, y)
    ensures x == y
  {
    hide *;
    PrimeOrderOf(g, q, x);
    PrimeOrderOf(g, q, y);
    TimesMul(g, e, m, x);
    TimesMul(g, e, m, y);
    assert e * m == m * e;
    TimesCong(g, m * e, 1, q, x);
    TimesCong(g, m * e, 1, q, y);
    TimesSmall(g, x);
    TimesSmall(g, y);
  }

  /** In a group of prime order q, every point but zero has order q. */
  lemma PrimeOrder<P(!new)>(g: Group<P>, q: int, p: P)
    requires PrimeGroup(g, q) && p != g.zero
    ensures HasOrder(g, q, p)
  {
    hide Times, Abelian, Prime;
    PrimeOrderOf(g, q, p);
    forall k | 0 < k < q ensures Times(g, k, p) != g.zero {
      if Times(g, k, p) == g.zero {
        var e := InverseModPrime(q, k);
        TimesZero(g, k);
        TimesCancel(g, q, k, e, p, g.zero);
      }
    }
  }

  /** ecp_mul, with its checks of the scalar and of the point: it succeeds exactly for a nonzero
      point and a scalar in range, when the comb table can be had. */
  method EcpMul<P(!new, ==)>(grp: EcpGroup<P>, r0: P, m: Mpi, p: P) returns (c: Code, r: P)
    requires CurveGroup(grp)
    modifies grp`T
    ensures CurveGroup(grp) && (grp.T == old(grp.T) || fresh(grp.T))
    ensures old(GoodGroup(grp)) ==> GoodGroup(grp)
    ensures c == if p == grp.curve.zero then BadInput
                 else if !(1 <= m.Value() < grp.N.Value()) then InvalidKey
                 else if CombWorks(grp.N.Value(), grp.nbits, p == grp.G) then Ok else NoTable
    ensures r == if c == Ok then Times(grp.curve, m.Value(), p) else if c == NoTable then grp.curve.zero else r0
  {
    hide Val, Times, Abelian, Prime, CombMul.IsTable, CombMul.TableWorks, Bits.BitLen, HasOrder;
    if p == grp.curve.zero { return BadInput, r0; }
    var lo := CmpInt(m, 1);
    var hi := CmpMpi(m, grp.N);
    if lo < 0 || hi >= 0 { return InvalidKey, r0; }
    PrimeOrderOf(grp.curve, grp.N.Value(), p);
    PrimeOrder(grp.curve, grp.N.Value(), p);
    var st;
    st, r := grp.MulComb(r0, m, p);
    c := if st == Success then Ok else NoTable;
  }
}
