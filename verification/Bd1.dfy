/** The Burmester-Desmedt agreement of sban/src/bd1.c: its context, and the telescoping sum that
    makes all keys equal. */
module Bd1 {
  import opened Arith
  import opened Limbs
  import opened Bignum
  import opened BignumMul
  import opened BignumDiv
  import opened Groups
  import opened CombMul
  import opened Primes
  import opened Ecp
  import opened Mka

  /** The sum of weight, weight - 1, ... times the points of b. */
  ghost function Countdown<P(!new)>(g: Group<P>, weight: int, b: seq<P>): P {
    if b == [] then g.zero
    else g.add(Countdown(g, weight, b[..|b| - 1]), Times(g, weight - (|b| - 1), b[|b| - 1]))
  }

  // ---- bd1_context ------------------------------------------------------------------------

  /** The source's bd1_context; r is the secret drawn by ecp_gen_keypair. */
  class Bd1Context<P(!new, ==)> {
    const grp: EcpGroup<P>
    const r: Mpi
    var z: P
    var X: P

    ghost predicate Valid()
      reads this, grp, grp.N, grp.T, r
    {
      && GoodGroup(grp) && r != grp.N && r.p != [] && 1 <= r.Value() < grp.N.Value()
      && grp.G != grp.curve.zero
    }

    constructor (grp: EcpGroup<P>, r: Mpi)
      requires GoodGroup(grp) && r != grp.N && r.p != [] && 1 <= r.Value() < grp.N.Value()
      requires grp.G != grp.curve.zero
      ensures Valid() && this.grp == grp && this.r == r && z == grp.curve.zero && X == grp.curve.zero
    {
      this.grp, this.r, z, X := grp, r, grp.curve.zero, grp.curve.zero;
    }

    /** bd1_gen_point: the public point. */
    method GenPoint() returns (c: Code, z: P)
      requires Valid()
      modifies grp`T
      ensures Valid() && c == Ok && z == Times(grp.curve, r.Value(), grp.G)
    {
      hide Val, GoodGroup, Times;
      GoodFacts(grp);
      c, z := EcpMul(grp, grp.curve.zero, r, grp.G);
    }

    /** bd1_gen_value, on the points of the predecessor and of the successor. */
    method GenValue(zPrev: P, zNext: P) returns (c: Code)
      requires Valid()
      modifies this`z, this`X, grp`T
      ensures Valid() && c == Ok && z == zPrev
      ensures X == Times(grp.curve, r.Value(), grp.curve.add(zNext, grp.curve.neg(zPrev)))
    {
      hide Val, GoodGroup, Times;
      z := zPrev;
      var z2 := grp.curve.add(zNext, grp.curve.neg(z));
      GroupIsAbelian(grp);
      TimesZero(grp.curve, r.Value());
      if z2 == grp.curve.zero {
        X := grp.curve.zero;
        return Ok;
      }
      GoodFacts(grp);
      c, X := EcpMul(grp, X, r, z2);
    }

    /** n times the secret times the predecessor's point: the key's first summand. */
    method FirstSummand(n: nat) returns (c: Code, h: P)
      requires Valid() && 2 <= n <= 255
      modifies grp`T
      ensures Valid()
      ensures grp.N.Value() > 0 && (c == Ok <==> z != grp.curve.zero || (n * r.Value()) % grp.N.Value() == 0)
      ensures c == Ok ==> h == Times(grp.curve, n * r.Value(), z)
    {
      hide *;
      BaseFacts();
      ValidFacts();
      var e1 := new Mpi();
      var e2 := new Mpi();
      MulInt(e1, r, n);
      var st := ModMpi(e2, e1, grp.N);
      ghost var ev := e2.Value();
      c, h := ScalarTimes(grp, e2, z);
      ReducedScalar(grp, n, r.Value(), ev, z);
      ValidIntro();
    }

    lemma ValidFacts()
      requires Valid()
      ensures GoodGroup(grp) && r != grp.N && r.p != [] && 1 <= r.Value() < grp.N.Value() && grp.G != grp.curve.zero
      ensures Abelian(grp.curve)
    {
      hide Val;
      GroupIsAbelian(grp);
    }

    lemma ValidIntro()
      requires GoodGroup(grp) && r != grp.N && r.p != [] && 1 <= r.Value() < grp.N.Value() && grp.G != grp.curve.zero
      ensures Valid()
    {
      hide GoodGroup;
    }

    /** The loop of bd1_compute_key: from (n - 2) times the next value down to 1 times the last. */
    method AddValues(key0: P, buf: seq<P>, n: nat) returns (c: Code, key: P)
      requires Valid() && 2 < n <= 255 && n < grp.N.Value() && |buf| >= n - 2
      modifies grp`T
      ensures Valid()
      ensures c == Ok ==> key == grp.curve.add(key0, Countdown(grp.curve, n - 2, buf[..n - 2]))
      ensures c == Ok <==> NoneZero(grp.curve, buf[..n - 2])
    {
      hide *;
      ValidFacts();
      key := key0;
      c := Ok;
      CountdownNone(grp.curve, key0, n - 2);
      NoneZeroNone(grp.curve, buf);
      var i := 2;
      while i <= n - 1
        invariant 2 <= i <= n && Valid() && c == Ok && NoneZero(grp.curve, buf[..i - 2])
        invariant key == grp.curve.add(key0, Countdown(grp.curve, n - 2, buf[..i - 2]))
      {
        ValidFacts();
        CountdownStep(grp.curve, key0, n - 2, buf, i - 2);
        NoneZeroStep(grp.curve, buf, i - 2, n - 2);
        var helper2;
        c, helper2 := SmallTimes(grp, n - i, buf[i - 2]);
        ValidIntro();
        if c != Ok { return; }
        key := grp.curve.add(key, helper2);
        i := i + 1;
      }
    }

    /** bd1_compute_key, on the n - 2 or more values that follow one's own on the ring: it fails
        exactly when a point it multiplies is zero. */
    method ComputeKey(buf: seq<P>, n: nat) returns (c: Code, key: P)
      requires Valid() && 2 <= n <= 255 && n < grp.N.Value() && |buf| >= n - 2
      modifies grp`T
      ensures Valid()
      ensures c == Ok ==> key == KeySum(grp.curve, r.Value(), z, X, buf[..n - 2], n)
      ensures c == Ok <==> KeyComputes(grp.curve, z, X, buf[..n - 2], n)
    {
      hide *;
      ValidFacts();
      NotMultiple(grp, n, r.Value());
      KeyComputesParts(grp.curve, z, X, buf[..n - 2], n);
      c, key := FirstSummand(n);
      ghost var first := key;
      KeySumParts(grp.curve, r.Value(), z, X, buf[..n - 2], n);
      if c != Ok { return; }
      if n == 2 { return; }
      ValidFacts();
      var helper2;
      c, helper2 := SmallTimes(grp, n - 1, X);
      ValidIntro();
      if c != Ok { return; }
      key := grp.curve.add(key, helper2);
      c, key := AddValues(key, buf, n);
    }
  }

  lemma NoneZeroNone<P(!new)>(g: Group<P>, s: seq<P>)
    ensures NoneZero(g, s[..0])
  {
  }

  lemma NoneZeroStep<P(!new)>(g: Group<P>, s: seq<P>, i: nat, m: nat)
    requires i < m <= |s|
    ensures NoneZero(g, s[..i + 1]) <==> NoneZero(g, s[..i]) && s[i] != g.zero
    ensures s[i] == g.zero ==> !NoneZero(g, s[..m])
  {
    if NoneZero(g, s[..i + 1]) {
      assert s[..i + 1][i] == s[i];
      forall x | 0 <= x < i ensures s[..i][x] != g.zero { assert s[..i + 1][x] == s[..i][x]; }
    }
    assert s[..m][i] == s[i];
  }

  /** When bd1_compute_key succeeds: no point that it multiplies is zero. */
  ghost predicate KeyComputes<P(!new)>(g: Group<P>, z: P, X: P, buf: seq<P>, n: nat) {
    z != g.zero && (n == 2 || (X != g.zero && NoneZero(g, buf)))
  }

  lemma KeyComputesParts<P(!new)>(g: Group<P>, z: P, X: P, buf: seq<P>, n: nat)
    ensures KeyComputes(g, z, X, buf, n) <==> z != g.zero && (n == 2 || (X != g.zero && NoneZero(g, buf)))
  {
  }

  /** n r is not a multiple of the order, so the first scalar is never zero. */
  lemma NotMultiple<P(!new)>(grp: EcpGroup<P>, n: int, r: int)
    requires GoodGroup(grp) && 0 < n < grp.N.Value() && 0 < r < grp.N.Value()
    ensures (n * r) % grp.N.Value() != 0
  {
    hide *;
    GroupIsPrime(grp);
    ProductNotMultiple(grp.N.Value(), n, r);
  }

  /** What bd1_compute_key adds up. */
  ghost function KeySum<P(!new)>(g: Group<P>, r: int, z: P, X: P, buf: seq<P>, n: nat): P {
    if n == 2 then Times(g, n * r, z)
    else g.add(g.add(Times(g, n * r, z), Times(g, n - 1, X)), Countdown(g, n - 2, buf))
  }

  lemma KeySumParts<P(!new)>(g: Group<P>, r: int, z: P, X: P, buf: seq<P>, n: nat)
    ensures KeySum(g, r, z, X, buf, n)
         == if n == 2 then Times(g, n * r, z)
            else g.add(g.add(Times(g, n * r, z), Times(g, n - 1, X)), Countdown(g, n - 2, buf))
  {
  }

  lemma CountdownNone<P(!new)>(g: Group<P>, first: P, weight: int)
    requires Abelian(g)
    ensures g.add(first, Countdown(g, weight, [])) == first
  {
    hide Abelian;
    Groups.AddZero(g, first);
  }

  lemma CountdownStep<P(!new)>(g: Group<P>, first: P, weight: int, b: seq<P>, i: nat)
    requires Abelian(g) && i < |b|
    ensures g.add(g.add(first, Countdown(g, weight, b[..i])), Times(g, weight - i, b[i]))
         == g.add(first, Countdown(g, weight, b[..i + 1]))
  {
    hide Abelian, Times;
    assert b[..i + 1][..i] == b[..i];
    AddAssoc(g, first, Countdown(g, weight, b[..i]), Times(g, weight - i, b[i]));
  }

  /** e2 * z, where e2 may be zero. */
  method ScalarTimes<P(!new, ==)>(grp: EcpGroup<P>, e: Mpi, z: P) returns (c: Code, h: P)
    requires GoodGroup(grp) && 0 <= e.Value() < grp.N.Value()
    modifies grp`T
    ensures GoodGroup(grp) && (grp.T == old(grp.T) || fresh(grp.T))
    ensures c == Ok <==> z != grp.curve.zero || e.Value() == 0
    ensures c == Ok ==> h == Times(grp.curve, e.Value(), z)
  {
    hide *;
    BaseFacts();
    var zero := CmpInt(e, 0);
    CompareZero(e.Value());
    if zero == 0 {
      GroupIsAbelian(grp);
      TimesSmall(grp.curve, z);
      return Ok, grp.curve.zero;
    }
    GoodFacts(grp);
    c, h := EcpMul(grp, grp.curve.zero, e, z);
  }

  lemma CompareZero(x: int)
    ensures Compare(x, 0) == 0 <==> x == 0
  {
  }

  method SmallTimes<P(!new, ==)>(grp: EcpGroup<P>, m: nat, x: P) returns (c: Code, h: P)
    requires GoodGroup(grp) && 0 < m < 256 && m < grp.N.Value()
    modifies grp`T
    ensures GoodGroup(grp) && (grp.T == old(grp.T) || fresh(grp.T))
    ensures c == Ok <==> x != grp.curve.zero
    ensures c == Ok ==> h == Times(grp.curve, m, x)
  {
    hide *;
    var e := SmallScalar(m);
    GoodFacts(grp);
    c, h := EcpMul(grp, grp.curve.zero, e, x);
  }

  lemma ReducedScalar<P(!new)>(grp: EcpGroup<P>, n: int, r: int, e: int, z: P)
    requires GoodGroup(grp) && grp.N.Value() > 0 && e == (r * n) % grp.N.Value()
    ensures Times(grp.curve, e, z) == Times(grp.curve, n * r, z) && e == (n * r) % grp.N.Value()
  {
    hide *;
    GroupIsPrime(grp);
    PrimeOrderOf(grp.curve, grp.N.Value(), z);
    assert r * n == n * r;
    CongMod(n * r, grp.N.Value());
    TimesCong(grp.curve, e, n * r, grp.N.Value(), z);
  }
}
