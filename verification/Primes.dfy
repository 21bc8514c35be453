/** Prime numbers. */
module Primes {
  import opened Arith
  import opened Divisors

  ghost predicate Prime(q: int) {
    q > 1 && forall d: nat :: 1 < d < q ==> !Divides(d, q)
  }

  lemma PrimeCoprime(q: int, x: nat)
    requires Prime(q) && 0 < x < q
    ensures Gcd(x, q) == 1
  {
    hide Gcd;
    GcdDivides(x, q);
    var g := Gcd(x, q);
    var k := DividesWitness(g, x);
    if k <= 0 { MulMono(k, 0, g); }
    MulMono(1, k, g);
  }

  /** A number that a prime does not divide is coprime to it. */
  lemma PrimeOrMultiple(q: int, x: nat)
    requires Prime(q) && q > 1 && x % q != 0
    ensures Gcd(x, q) == 1
  {
    hide Gcd, Prime;
    DivMod(x, q);
    PrimeCoprime(q, x % q);
    GcdSymmetric(x, q);
    GcdSymmetric(x % q, q);
    GcdReduce(x, q);
  }

  lemma GcdReduce(x: nat, q: nat)
    requires q > 0
    ensures Gcd(x, q) == Gcd(q, x % q)
  {
  }

  /** A prime divides no product of smaller numbers. */
  lemma ProductNotMultiple(q: int, x: nat, y: nat)
    requires Prime(q) && 0 < x < q && 0 < y < q
    ensures (x * y) % q != 0
  {
    hide Prime, Cong;
    if (x * y) % q == 0 {
      var e := InverseModPrime(q, x);
      MultipleModulo(x * y, e, q);
      assert (x * e) * y == (x * y) * e;
      OneModulo(x * e, y, q);
    }
  }

  /** A prime divides a product exactly when it divides a factor. */
  lemma FactorMultiple(q: int, x: int, y: int)
    requires Prime(q) && 0 < x < q
    ensures (x * y) % q == 0 <==> y % q == 0
  {
    hide Prime, Cong;
    CongMod(y, q);
    CongScale(y, y % q, x, q);
    assert y * x == x * y && (y % q) * x == x * (y % q);
    ModBound(y, q);
    if y % q != 0 { ProductNotMultiple(q, x, y % q); }
    SameRemainder(x * y, x * (y % q), q);
  }

  lemma ModBound(y: int, q: int)
    requires q > 0
    ensures 0 <= y % q < q
  {
  }

  lemma SameRemainder(a: int, b: int, q: int)
    requires q > 0 && Cong(a, b, q)
    ensures a % q == b % q
  {
  }

  lemma MultipleModulo(a: int, e: int, q: int)
    requires q > 0 && a % q == 0
    ensures (a * e) % q == 0
  {
    CongScale(a, 0, e, q);
  }

  lemma OneModulo(a: int, y: nat, q: int)
    requires q > 1 && Cong(a, 1, q) && y < q
    ensures (a * y) % q == y
  {
    CongScale(a, 1, y, q);
  }

  lemma InverseModPrime(q: int, x: nat) returns (e: int)
    requires Prime(q) && 0 < x < q
    ensures Cong(x * e, 1, q)
  {
    hide Gcd, Prime, Cong;
    PrimeCoprime(q, x);
    var s, t := Bezout(x, q);
    e := s;
    assert x * e == 1 + (0 - t) * q by { MulDist(0, t, q); }
    CongMultiple(x * e, 1, 0 - t, q);
  }
}
