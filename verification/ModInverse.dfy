/** Binary gcd and modular inverse of bignum.c (HAC 14.54, 14.61). */
module ModInverse {
  import opened Arith
  import opened Bits
  import opened Limbs
  import opened Bignum
  import opened BignumAdd
  import opened BignumShift
  import opened BignumDiv
  import opened Divisors

  /** The bit the source tests with X->p[0] & 1 is the parity of the number. */
  lemma ParityOfLimb(p: seq<limb>)
    requires p != []
    ensures p[0] % 2 == Val(p) % 2
  {
    hide Pow, Val;
    BaseFacts();
    ValFirst(p);
    var h := B / 2;
    assert B == 2 * h;
    MulAssoc(2, h, Val(p[1..]));
  }

  lemma HalfShift(x: nat)
    requires x % 2 == 0
    ensures 2 * Shr(x, 1) == x
  {
    PowOne(2);
    ShrUnique(x, 1, x / 2, 0);
  }

  /** What mpi_gcd computes. */
  ghost function GcdResult(a: nat, b: nat): nat {
    if b == 0 && a != 0 then 0 else Gcd(a, b)
  }

  /** That is the gcd exactly when B is nonzero or A is zero. */
  lemma GcdResultExact(a: nat, b: nat)
    ensures GcdResult(a, b) == Gcd(a, b) <==> b != 0 || a == 0
  {
    GcdZero(a);
  }

  /** x shifted down to its odd part. */
  lemma OddPart(x: nat, r: nat)
    requires IsLowBit(x, r) && x > 0
    ensures Shr(x, r) > 0 && Shr(x, r) % 2 == 1 && x == Shr(x, r) * Pow(2, r) && Shr(x, r) <= x
    ensures x % 2 == 1 ==> r == 0 && Shr(x, r) == x
  {
    hide Pow, Shr, Low;
    ShrLow(x, r);
    var q := Shr(x, r);
    MulMono(1, Pow(2, r), q);
    if r == 0 {
      PowOne(2);
      ShrUnique(x, 0, x, 0);
    } else {
      PowSucc(2, r - 1);
      EvenProduct(q, Pow(2, r - 1));
    }
  }

  /** The invariant of the gcd loop: one argument is odd, and the gcd is unchanged. */
  ghost predicate GcdInv(a: nat, b: nat, g: nat) {
    b > 0 && (a % 2 == 1 || b % 2 == 1) && Gcd(a, b) == g
  }

  /** Shifting both arguments to their odd parts. */
  lemma GcdOddParts(a: nat, b: nat, g: nat, r: nat, t: nat)
    requires GcdInv(a, b, g) && a > 0 && IsLowBit(a, r) && IsLowBit(b, t)
    ensures var x, y := Shr(a, r), Shr(b, t);
            x > 0 && y > 0 && x % 2 == 1 && y % 2 == 1 && Gcd(x, y) == g
  {
    hide Pow, Shr, IsLowBit, Gcd;
    OddPart(a, r);
    OddPart(b, t);
    var x, y := Shr(a, r), Shr(b, t);
    if b % 2 == 1 {
      GcdShift(x, r, b);
    } else {
      GcdSymmetric(a, b);
      GcdShift(y, t, a);
      GcdSymmetric(y, a);
    }
  }

  /** Subtracting the smaller odd number and halving. */
  lemma GcdStep(x: nat, y: nat)
    requires x >= y > 0 && x % 2 == 1 && y % 2 == 1
    ensures Gcd(Shr(x - y, 1), y) == Gcd(x, y)
  {
    hide Shr, Gcd;
    GcdSubtract(x, y);
    HalfShift(x - y);
    if x > y { GcdHalve(Shr(x - y, 1), y); }
  }

  /** Shifting by less than the low bit loses nothing. */
  lemma ShiftBelowLowBit(x: nat, r: nat, k: nat)
    requires IsLowBit(x, r) && x > 0 && k <= r
    ensures Shr(x, k) > 0 && x == Shr(x, k) * Pow(2, k) && (k == r ==> Shr(x, k) % 2 == 1)
  {
    hide Pow, Shr, Low;
    OddPart(x, r);
    var q := Shr(x, r);
    PowAdd(2, r - k, k);
    MulNonneg(q, Pow(2, r - k));
    MulAssoc(q, Pow(2, r - k), Pow(2, k));
    MulMono(1, Pow(2, r - k), q);
    ShrUnique(x, k, q * Pow(2, r - k), 0);
  }

  /** The state of mpi_gcd before its loop. */
  lemma CommonShift(a: nat, b: nat, r: nat, t: nat, lz: nat)
    requires IsLowBit(a, r) && IsLowBit(b, t) && lz == Min(r, t)
    ensures a == 0 || b == 0 ==> lz == 0 && Shr(a, lz) == a && Shr(b, lz) == b
    ensures a > 0 && b > 0 ==>
              GcdInv(Shr(a, lz), Shr(b, lz), Gcd(Shr(a, lz), Shr(b, lz)))
    ensures b > 0 ==> Shr(b, lz) > 0 && Gcd(Shr(a, lz), Shr(b, lz)) * Pow(2, lz) == Gcd(a, b)
  {
    hide Pow, Shr, Low, Gcd;
    PowOne(2);
    if a == 0 || b == 0 {
      ShrUnique(a, 0, a, 0);
      ShrUnique(b, 0, b, 0);
    } else {
      ShiftBelowLowBit(a, r, lz);
      ShiftBelowLowBit(b, t, lz);
      GcdScale(Shr(a, lz), Shr(b, lz), Pow(2, lz));
    }
  }

  /** The loop of mpi_gcd.  With b = 0 it runs a down to zero and leaves zero. */
  method GcdLoop(TA: Mpi, TB: Mpi, ghost g: nat)
    requires TA != TB && TA.s == 1 && TB.s == 1 && TA.p != [] && TB.p != []
    requires TA.Abs() > 0 && TB.Abs() > 0 ==> GcdInv(TA.Abs(), TB.Abs(), g)
    requires TA.Abs() == 0 ==> TB.Abs() == g
    modifies TA, TB
    ensures TB.Abs() == (if old(TB.Abs()) == 0 then 0 else g) && TB.p != [] && TB.s == 1
  {
    hide Pow, Val, Sig, Gcd, Shr, IsLowBit, GcdInv;
    BaseFacts();
    var c := CmpInt(TA, 0);
    while c != 0
      invariant TA.s == 1 && TB.s == 1 && TA.p != [] && TB.p != [] && c == Compare(TA.Abs(), 0)
      invariant old(TB.Abs()) == 0 ==> TB.Abs() == 0
      invariant old(TB.Abs()) > 0 ==> TB.Abs() > 0
      invariant TA.Abs() > 0 && TB.Abs() > 0 ==> GcdInv(TA.Abs(), TB.Abs(), g)
      invariant TA.Abs() == 0 && TB.Abs() > 0 ==> TB.Abs() == g
      decreases TA.Abs() + TB.Abs()
    {
      GcdRound(TA, TB, g);
      c := CmpInt(TA, 0);
    }
  }

  /** The body of that loop. */
  method GcdRound(TA: Mpi, TB: Mpi, ghost g: nat)
    requires TA != TB && TA.s == 1 && TB.s == 1 && TA.p != [] && TB.p != [] && TA.Abs() > 0
    requires TB.Abs() > 0 ==> GcdInv(TA.Abs(), TB.Abs(), g)
    modifies TA, TB
    ensures TA.s == 1 && TB.s == 1 && TA.p != [] && TB.p != []
    ensures TA.Abs() + TB.Abs() < old(TA.Abs()) + old(TB.Abs())
    ensures TB.Abs() == 0 <==> old(TB.Abs()) == 0
    ensures TB.Abs() > 0 && TA.Abs() > 0 ==> GcdInv(TA.Abs(), TB.Abs(), g)
    ensures TB.Abs() > 0 && TA.Abs() == 0 ==> TB.Abs() == g
  {
    hide Pow, Val, Sig, Gcd, Shr, IsLowBit, GcdInv;
    ghost var a, b := TA.Abs(), TB.Abs();
    var r := Lsb(TA);
    ShiftR(TA, r);
    var t := Lsb(TB);
    ShiftR(TB, t);
    RoundFacts(a, b, g, r, t);
    ghost var x, y := TA.Abs(), TB.Abs();
    var c := CmpMpi(TA, TB);
    if c >= 0 {
      var _ := SubAbs(TA, TA, TB);
      ShiftR(TA, 1);
      ShrSmaller(x - y);
    } else {
      var _ := SubAbs(TB, TB, TA);
      ShiftR(TB, 1);
      ShrSmaller(y - x);
    }
  }

  lemma ShrSmaller(x: nat)
    ensures Shr(x, 1) <= x && (x > 0 ==> Shr(x, 1) < x)
  {
    hide Pow, Shr, Low;
    PowOne(2);
    ShrLow(x, 1);
  }

  /** What one round does to the two numbers. */
  lemma RoundFacts(a: nat, b: nat, g: nat, r: nat, t: nat)
    requires a > 0 && IsLowBit(a, r) && IsLowBit(b, t)
    requires b > 0 ==> GcdInv(a, b, g)
    ensures var x, y := Shr(a, r), Shr(b, t);
            0 < x <= a && y <= b && (y == 0 <==> b == 0)
            && (y > 0 && x >= y ==>
                  (x > y ==> Shr(x - y, 1) > 0 && GcdInv(Shr(x - y, 1), y, g))
                  && (x == y ==> y == g && Shr(x - y, 1) == 0))
            && (y > x ==> Shr(y - x, 1) > 0 && GcdInv(x, Shr(y - x, 1), g))
  {
    hide Pow, Shr, Gcd, IsLowBit, GcdInv;
    OddPart(a, r);
    var x, y := Shr(a, r), Shr(b, t);
    if b == 0 {
      LowBitOfZero(t);
      return;
    }
    OddPart(b, t);
    GcdOddParts(a, b, g, r, t);
    if x >= y { AfterFirst(x, y, g); } else { AfterSecond(x, y, g); }
  }

  lemma AfterFirst(x: nat, y: nat, g: nat)
    requires x >= y > 0 && x % 2 == 1 && y % 2 == 1 && Gcd(x, y) == g
    ensures x > y ==> Shr(x - y, 1) > 0 && GcdInv(Shr(x - y, 1), y, g)
    ensures x == y ==> y == g && Shr(x - y, 1) == 0
  {
    hide Shr, Gcd;
    GcdStep(x, y);
    HalfShift(x - y);
    GcdZero(y);
  }

  lemma AfterSecond(x: nat, y: nat, g: nat)
    requires y > x > 0 && x % 2 == 1 && y % 2 == 1 && Gcd(x, y) == g
    ensures Shr(y - x, 1) > 0 && GcdInv(x, Shr(y - x, 1), g)
  {
    hide Shr, Gcd;
    GcdSymmetric(x, y);
    GcdStep(y, x);
    HalfShift(y - x);
    GcdSymmetric(Shr(y - x, 1), x);
  }

  lemma LowBitOfZero(t: nat)
    requires IsLowBit(0, t)
    ensures t == 0 && Shr(0, t) == 0
  {
    PowOne(2);
    ShrUnique(0, 0, 0, 0);
  }

  /** mpi_gcd: G = gcd(|A|, |B|), except that a zero B with a nonzero A gives 0. */
  method GcdMpi(G: Mpi, A: Mpi, Bm: Mpi)
    requires A.p != [] && Bm.p != []
    modifies G
    ensures G.Value() == GcdResult(old(A.Abs()), old(Bm.Abs())) && G.p != []
  {
    hide Pow, Val, Sig, Gcd, Shr, IsLowBit, GcdInv, BitLen, LimbCount;
    ghost var a, b := A.Abs(), Bm.Abs();
    var TA := new Mpi();
    var TB := new Mpi();
    Copy(TA, A);
    Copy(TB, Bm);
    var lz := Lsb(TA);
    var lzt := Lsb(TB);
    CommonShift(a, b, lz, lzt, Min(lz, lzt));
    if lzt < lz { lz := lzt; }
    ShiftR(TA, lz);
    ShiftR(TB, lz);
    TA.s, TB.s := 1, 1;
    ghost var g := Gcd(TA.Abs(), TB.Abs());
    GcdZero(TB.Abs());
    GcdLoop(TA, TB, g);
    ShiftL(TB, lz);
    PowOne(2);
    GcdZero(0);
    Copy(G, TB);
  }

  /** u stands for s * A + t * N, the invariant of the extended algorithm. */
  ghost predicate Combination(u: int, s: int, t: int, a: int, n: int) {
    u == s * a + t * n
  }

  /** An even combination of two numbers that are not both even has coefficients that are
      both even, or become so by adding n to one and subtracting a from the other. */
  lemma EvenCoefficients(u: int, s: int, t: int, a: int, n: int)
    requires Combination(u, s, t, a, n) && u % 2 == 0 && (a % 2 == 1 || n % 2 == 1)
    ensures s % 2 == 1 || t % 2 == 1 ==>
              (s + n) % 2 == 0 && (t - a) % 2 == 0 && Combination(u, s + n, t - a, a, n)
  {
    ParityProduct(s, a);
    ParityProduct(t, n);
    EvenSum(s * a, t * n);
    MulDist(s, n, a);
    MulDist(t, a, n);
    if s % 2 == 1 || t % 2 == 1 {
      CrossedParities(s % 2, t % 2, a % 2, n % 2);
      SameParity(s, n);
      SameParity(t, a);
    }
  }

  lemma EvenSum(p: int, q: int)
    requires (p + q) % 2 == 0
    ensures p % 2 == q % 2
  {
  }

  lemma SameParity(x: int, y: int)
    requires x % 2 == y % 2
    ensures (x + y) % 2 == 0 && (x - y) % 2 == 0
  {
  }

  lemma CrossedParities(s: nat, t: nat, a: nat, n: nat)
    requires s < 2 && t < 2 && a < 2 && n < 2 && s * a == t * n
    requires (s == 1 || t == 1) && (a == 1 || n == 1)
    ensures s == n && t == a
  {
  }

  lemma ParityProduct(x: int, y: int)
    ensures (x * y) % 2 == (x % 2) * (y % 2)
  {
    var h, e := x / 2, y / 2;
    if x % 2 == 0 {
      MulAssoc(2, h, y);
    } else if y % 2 == 0 {
      EvenProduct(x, e);
    } else {
      OddProduct(h, e);
    }
  }

  lemma HalveCombination(u: int, s: int, t: int, a: int, n: int, u': int, s': int, t': int)
    requires Combination(u, s, t, a, n) && u == 2 * u' && s == 2 * s' && t == 2 * t'
    ensures Combination(u', s', t', a, n)
  {
    MulAssoc(2, s', a);
    MulAssoc(2, t', n);
  }

  lemma SubtractCombinations(u: int, s: int, t: int, v: int, s': int, t': int, a: int, n: int)
    requires Combination(u, s, t, a, n) && Combination(v, s', t', a, n)
    ensures Combination(u - v, s - s', t - t', a, n)
  {
    MulDist(s, s', a);
    MulDist(t, t', n);
  }

  /** X = X / 2 for an even number of either sign. */
  method HalveExact(X: Mpi)
    requires X.p != [] && X.Value() % 2 == 0
    modifies X
    ensures 2 * X.Value() == old(X.Value()) && X.p != []
  {
    hide Pow, Val, Shr;
    HalfShift(X.Abs());
    ShiftR(X, 1);
  }

  /** One of the two halving loops of mpi_inv_mod: U, with U = U1 * TA + U2 * TB, loses its
      factors of two, and every halving of the coefficients is exact. */
  method HalveWhileEven(U: Mpi, U1: Mpi, U2: Mpi, TA: Mpi, TB: Mpi, ghost v: nat)
    requires U != U1 && U != U2 && U1 != U2 && TA !in {U, U1, U2} && TB !in {U, U1, U2}
    requires U.p != [] && U1.p != [] && U2.p != [] && TA.p != [] && TB.p != []
    requires U.Value() > 0 && v > 0 && Gcd(U.Value(), v) == 1
    requires TA.Value() % 2 == 1 || TB.Value() % 2 == 1
    requires Combination(U.Value(), U1.Value(), U2.Value(), TA.Value(), TB.Value())
    modifies U, U1, U2
    ensures U.p != [] && U1.p != [] && U2.p != []
    ensures 0 < U.Value() <= old(U.Value()) && U.Value() % 2 == 1 && Gcd(U.Value(), v) == 1
    ensures Combination(U.Value(), U1.Value(), U2.Value(), TA.Value(), TB.Value())
  {
    hide Pow, Val, Gcd, Combination;
    ParityOfLimb(U.p);
    while U.p[0] % 2 == 0
      invariant U.p != [] && U1.p != [] && U2.p != []
      invariant 0 < U.Value() <= old(U.Value()) && Gcd(U.Value(), v) == 1
      invariant U.p[0] % 2 == U.Value() % 2
      invariant Combination(U.Value(), U1.Value(), U2.Value(), TA.Value(), TB.Value())
      decreases U.Value()
    {
      HalveOnce(U, U1, U2, TA, TB);
      CoprimeFactor(U.Value(), 2, v);
      ParityOfLimb(U.p);
    }
  }

  /** The body of that loop. */
  method HalveOnce(U: Mpi, U1: Mpi, U2: Mpi, TA: Mpi, TB: Mpi)
    requires U != U1 && U != U2 && U1 != U2 && TA !in {U, U1, U2} && TB !in {U, U1, U2}
    requires U.p != [] && U1.p != [] && U2.p != [] && TA.p != [] && TB.p != []
    requires U.Value() % 2 == 0 && (TA.Value() % 2 == 1 || TB.Value() % 2 == 1)
    requires Combination(U.Value(), U1.Value(), U2.Value(), TA.Value(), TB.Value())
    modifies U, U1, U2
    ensures U.p != [] && U1.p != [] && U2.p != []
    ensures 2 * U.Value() == old(U.Value())
    ensures Combination(U.Value(), U1.Value(), U2.Value(), TA.Value(), TB.Value())
  {
    hide Pow, Val, Combination;
    ghost var u, a, n := U.Value(), TA.Value(), TB.Value();
    EvenCoefficients(u, U1.Value(), U2.Value(), a, n);
    HalveExact(U);
    ParityOfLimb(U1.p);
    ParityOfLimb(U2.p);
    if U1.p[0] % 2 != 0 || U2.p[0] % 2 != 0 {
      AddMpi(U1, U1, TB);
      SubMpi(U2, U2, TA);
    }
    ghost var s, t := U1.Value(), U2.Value();
    HalveExact(U1);
    HalveExact(U2);
    HalveCombination(u, s, t, a, n, U.Value(), U1.Value(), U2.Value());
  }

  /** The two halves of the loop body of mpi_inv_mod that subtract. */
  method SubtractTriple(U: Mpi, U1: Mpi, U2: Mpi, V: Mpi, V1: Mpi, V2: Mpi, ghost a: int, ghost n: int)
    requires U !in {U1, U2, V, V1, V2} && U1 !in {U2, V, V1, V2} && U2 !in {V, V1, V2}
    requires U.p != [] && U1.p != [] && U2.p != [] && V.p != [] && V1.p != [] && V2.p != []
    requires Combination(U.Value(), U1.Value(), U2.Value(), a, n)
    requires Combination(V.Value(), V1.Value(), V2.Value(), a, n)
    modifies U, U1, U2
    ensures U.p != [] && U1.p != [] && U2.p != []
    ensures U.Value() == old(U.Value()) - V.Value()
    ensures Combination(U.Value(), U1.Value(), U2.Value(), a, n)
  {
    hide Pow, Val, Combination;
    SubtractCombinations(U.Value(), U1.Value(), U2.Value(), V.Value(), V1.Value(), V2.Value(), a, n);
    SubMpi(U, U, V);
    SubMpi(U1, U1, V1);
    SubMpi(U2, U2, V2);
  }

  /** The main loop of mpi_inv_mod.  It ends with U = 0 and V = 1 = V1 * TA + V2 * TB. */
  method InverseLoop(U: Mpi, U1: Mpi, U2: Mpi, V: Mpi, V1: Mpi, V2: Mpi, TA: Mpi, TB: Mpi)
    requires U !in {U1, U2, V, V1, V2} && U1 !in {U2, V, V1, V2} && U2 !in {V, V1, V2}
    requires V !in {V1, V2} && V1 != V2 && {TA, TB} !! {U, U1, U2, V, V1, V2}
    requires U.p != [] && U1.p != [] && U2.p != [] && V.p != [] && V1.p != [] && V2.p != []
    requires TA.p != [] && TB.p != [] && (TA.Value() % 2 == 1 || TB.Value() % 2 == 1)
    requires U.Value() > 0 && V.Value() > 0 && Gcd(U.Value(), V.Value()) == 1
    requires Combination(U.Value(), U1.Value(), U2.Value(), TA.Value(), TB.Value())
    requires Combination(V.Value(), V1.Value(), V2.Value(), TA.Value(), TB.Value())
    modifies U, U1, U2, V, V1, V2
    ensures V1.p != [] && Combination(1, V1.Value(), V2.Value(), TA.Value(), TB.Value())
  {
    hide Pow, Val, Gcd, Combination;
    var c := 1;
    while c != 0
      invariant U.p != [] && U1.p != [] && U2.p != [] && V.p != [] && V1.p != [] && V2.p != []
      invariant U.Value() >= 0 && V.Value() > 0 && Gcd(U.Value(), V.Value()) == 1
      invariant c != 0 ==> U.Value() > 0
      invariant c == 0 ==> U.Value() == 0
      invariant Combination(U.Value(), U1.Value(), U2.Value(), TA.Value(), TB.Value())
      invariant Combination(V.Value(), V1.Value(), V2.Value(), TA.Value(), TB.Value())
      decreases U.Value() + V.Value(), c != 0
    {
      HalveWhileEven(U, U1, U2, TA, TB, V.Value());
      GcdSymmetric(U.Value(), V.Value());
      HalveWhileEven(V, V1, V2, TA, TB, U.Value());
      ghost var x, y := U.Value(), V.Value();
      GcdSymmetric(x, y);
      var r := CmpMpi(U, V);
      if r >= 0 {
        SubtractTriple(U, U1, U2, V, V1, V2, TA.Value(), TB.Value());
        GcdSubtract(x, y);
      } else {
        SubtractTriple(V, V1, V2, U, U1, U2, TA.Value(), TB.Value());
        GcdSubtract(y, x);
        GcdSymmetric(y - x, x);
      }
      c := NonzeroFlag(U);
    }
    GcdZero(V.Value());
  }

  method NonzeroFlag(U: Mpi) returns (c: int)
    ensures c == Compare(U.Value(), 0)
  {
    BaseFacts();
    c := CmpInt(U, 0);
  }

  /** Coprime numbers are not both even, and a multiple of n >= 2 is not coprime to n. */
  lemma CoprimeFacts(a: int, n: nat)
    requires n >= 2 && Gcd(if a >= 0 then a else 0 - a, n) == 1
    ensures a % n > 0 && ((a % n) % 2 == 1 || n % 2 == 1) && Gcd(a % n, n) == 1
  {
    hide Gcd, Divides;
    var m: nat := if a >= 0 then a else 0 - a;
    var r: nat := a % n;
    DivMod(a, n);
    GcdDivides(r, n);
    var g := Gcd(r, n);
    DividesCombination(g, n, r, a / n, 1);
    DividesAbs(g, a);
    GcdGreatest(m, n, g);
    OnlyDivisorOfOne(g);
    if r == 0 { GcdZero(n); }
    if r % 2 == 0 && n % 2 == 0 {
      TwoDivides(r);
      TwoDivides(n);
      GcdGreatest(r, n, 2);
      OnlyDivisorOfOne(2);
    }
  }

  lemma DividesAbs(g: nat, a: int)
    requires g > 0 && Divides(g, a)
    ensures Divides(g, if a >= 0 then a else 0 - a)
  {
    hide Divides;
    DividesProduct(g, a, -1);
  }

  lemma OnlyDivisorOfOne(g: nat)
    requires g > 0 && Divides(g, 1)
    ensures g == 1
  {
    hide Divides;
    var k := DividesWitness(g, 1);
    PositiveFactor(k, g);
    MulMono(1, k, g);
  }

  lemma TwoDivides(x: nat)
    requires x % 2 == 0
    ensures Divides(2, x)
  {
  }

  /** mpi_inv_mod, for every N but 1: X is the inverse of A modulo N in [0, N) when
      gcd(A, N) = 1, and the call is refused otherwise. */
  method InvMod(X: Mpi, A: Mpi, N: Mpi) returns (st: Status)
    requires A.p != [] && N.p != [] && N.Value() != 1
    modifies X
    ensures st == if old(N.Value()) <= 0 then BadInputData
                  else if Gcd(old(A.Abs()), old(N.Value())) == 1 then Success else NotAcceptable
    ensures st == Success ==> 0 <= X.Value() < old(N.Value())
    ensures st == Success ==> (old(A.Value()) * X.Value()) % old(N.Value()) == 1
    ensures st != Success ==> X.p == old(X.p) && X.s == old(X.s)
  {
    hide Pow, Val, Gcd, Combination, Cong;
    BaseFacts();
    var c := CmpInt(N, 0);
    if c <= 0 { return BadInputData; }
    var G := new Mpi();
    GcdMpi(G, A, N);
    c := CmpInt(G, 1);
    if c != 0 { return NotAcceptable; }
    CoprimeFacts(A.Value(), N.Value());
    var V1 := InverseCoefficient(A, N);
    Copy(X, V1);
    return Success;
  }

  /** Everything between the gcd test and the final copy. */
  method InverseCoefficient(A: Mpi, N: Mpi) returns (V1: Mpi)
    requires A.p != [] && N.p != [] && N.Value() >= 2
    requires A.Value() % N.Value() > 0 && Gcd(A.Value() % N.Value(), N.Value()) == 1
    requires (A.Value() % N.Value()) % 2 == 1 || N.Value() % 2 == 1
    ensures fresh(V1) && 0 <= V1.Value() < N.Value()
    ensures (A.Value() * V1.Value()) % N.Value() == 1
  {
    hide Pow, Val, Sig, Gcd, Combination, Cong;
    BaseFacts();
    ghost var a, n := A.Value(), N.Value();
    var TA, TU, TB, TV := InverseOperands(A, N);
    var U1 := SmallNumber(1);
    var U2 := SmallNumber(0);
    V1 := SmallNumber(0);
    var V2 := SmallNumber(1);
    FirstCombinations(a % n, n);
    InverseLoop(TU, U1, U2, TV, V1, V2, TA, TB);
    ghost var v := V1.Value();
    RaiseToNonnegative(V1, N);
    InverseReduced(a, n, v, V2.Value(), V1.Value());
    ReduceBelow(V1, N);
  }

  method SmallNumber(z: limb) returns (X: Mpi)
    ensures fresh(X) && X.p != [] && X.Value() == z
  {
    hide Pow, Val;
    X := new Mpi();
    Lset(X, z);
  }

  /** TA = TU = A mod N and TB = TV = N. */
  method InverseOperands(A: Mpi, N: Mpi) returns (TA: Mpi, TU: Mpi, TB: Mpi, TV: Mpi)
    requires A.p != [] && N.p != [] && N.Value() >= 2
    ensures fresh(TA) && fresh(TU) && fresh(TB) && fresh(TV)
    ensures TA !in {TU, TB, TV} && TU !in {TB, TV} && TB != TV
    ensures TA.p != [] && TU.p != [] && TB.p != [] && TV.p != []
    ensures TA.Value() == TU.Value() == A.Value() % N.Value() && TB.Value() == TV.Value() == N.Value()
  {
    hide Pow, Val, Sig;
    TA := new Mpi();
    var _ := ModMpi(TA, A, N);
    TU := CopyOf(TA);
    TB := CopyOf(N);
    TV := CopyOf(N);
  }

  method CopyOf(Y: Mpi) returns (X: Mpi)
    requires Y.p != []
    ensures fresh(X) && X.p != [] && X.Value() == Y.Value()
  {
    hide Pow, Val, Sig;
    X := new Mpi();
    Copy(X, Y);
  }

  lemma InverseReduced(a: int, n: int, v1: int, v2: int, w: int)
    requires n >= 2 && Combination(1, v1, v2, a % n, n) && Cong(w, v1, n)
    ensures (a * (w % n)) % n == 1
  {
    hide Cong, Combination;
    var r := a % n;
    CongMod(a, n);
    CongMod(w, n);
    CombinationCong(v1, v2, r, n);
    CongMul(r, a, v1, v1, n);
    CongMul(a, a, w % n, w, n);
    CongMul(a, a, w, v1, n);
    InverseChain(a * (w % n), a * w, a * v1, r * v1, n);
  }

  lemma CombinationCong(v1: int, v2: int, r: int, n: int)
    requires n > 0 && Combination(1, v1, v2, r, n)
    ensures Cong(1, r * v1, n)
  {
    hide Cong;
    CongMultiple(1, r * v1, v2, n);
  }

  lemma InverseChain(x: int, y: int, z: int, u: int, n: int)
    requires n >= 2 && Cong(x, y, n) && Cong(y, z, n) && Cong(u, z, n) && Cong(1, u, n)
    ensures x % n == 1
  {
    DivUnique(1, 0, 1, n);
  }

  lemma FirstCombinations(a: int, n: int)
    ensures Combination(a, 1, 0, a, n) && Combination(n, 0, 1, a, n)
  {
  }

  /** U after k rounds of a halving loop. */
  function Halved(u: nat, k: nat): nat {
    if k == 0 then u else Halved(u, k - 1) / 2
  }

  /** The halving loops of mpi_inv_mod end exactly from a nonzero number: from zero, every round
      leaves an even zero. */
  lemma {:induction false} HalvingEnds(u: nat)
    ensures u != 0 <==> exists k: nat :: Halved(u, k) % 2 == 1
  {
    if u == 0 {
      forall k: nat ensures Halved(0, k) == 0 { HalvedZero(k); }
    } else if u % 2 == 1 {
      assert Halved(u, 0) % 2 == 1;
    } else {
      HalvingEnds(u / 2);
      var v: nat := u / 2;
      var k: nat :| Halved(v, k) % 2 == 1;
      HalvedLater(u, k);
      assert Halved(u, k + 1) % 2 == 1;
    }
  }

  lemma {:induction false} HalvedZero(k: nat)
    ensures Halved(0, k) == 0
  {
    if k > 0 { HalvedZero(k - 1); }
  }

  lemma {:induction false} HalvedLater(u: nat, k: nat)
    ensures Halved(u, k + 1) == Halved(u / 2, k)
  {
    if k > 0 { HalvedLater(u, k - 1); }
  }

  /** Why N = 1 is left out: the gcd test passes, U starts as A mod 1, and from that the first
      halving loop never comes to an odd number. */
  lemma NoInverseModuloOne(a: nat)
    ensures GcdResult(a, 1) == 1 && forall k: nat :: Halved(a % 1, k) % 2 == 0
  {
    hide Gcd;
    GcdDivides(a, 1);
    OnlyDivisorOfOne(Gcd(a, 1));
    forall k: nat ensures Halved(a % 1, k) == 0 { HalvedZero(k); }
  }
}
