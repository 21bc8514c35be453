/** Greatest common divisors of natural numbers. */
module Divisors {
  import opened Arith

  ghost function Gcd(a: nat, b: nat): nat
    decreases b
  {
    if b == 0 then a else Gcd(b, a % b)
  }

  ghost predicate Divides(d: nat, x: int)
    requires d > 0
  {
    x % d == 0
  }

  lemma DividesWitness(d: nat, x: int) returns (k: int)
    requires d > 0 && Divides(d, x)
    ensures x == k * d
  {
    DivMod(x, d);
    k := x / d;
  }

  lemma DividesMultiple(d: nat, k: int)
    requires d > 0
    ensures Divides(d, k * d)
  {
    DivUnique(k * d, k, 0, d);
  }

  /** A divisor of x and y divides every combination of them. */
  lemma DividesCombination(d: nat, x: int, y: int, s: int, t: int)
    requires d > 0 && Divides(d, x) && Divides(d, y)
    ensures Divides(d, s * x + t * y)
  {
    hide Divides;
    var k := DividesWitness(d, x);
    var l := DividesWitness(d, y);
    MulAssoc(s, k, d);
    MulAssoc(t, l, d);
    MulDist(s * k, t * l, d);
    DividesMultiple(d, s * k + t * l);
  }

  lemma DividesProduct(d: nat, x: int, s: int)
    requires d > 0 && Divides(d, x)
    ensures Divides(d, s * x)
  {
    DividesCombination(d, x, x, s, 0);
  }

  /** The greatest common divisor as a combination of its arguments. */
  lemma {:induction false} Bezout(a: nat, b: nat) returns (s: int, t: int)
    ensures s * a + t * b == Gcd(a, b)
    decreases b
  {
    if b == 0 {
      s, t := 1, 0;
    } else {
      var u, v := Bezout(b, a % b);
      s, t := v, u - v * (a / b);
      DivMod(a, b);
      BezoutAlgebra(u, v, b, a / b, a % b);
    }
  }

  lemma BezoutAlgebra(u: int, v: int, b: int, q: int, r: int)
    ensures v * (q * b + r) + (u - v * q) * b == u * b + v * r
  {
    MulAssoc(v, q, b);
    MulDist(u, v * q, b);
  }

  /** Gcd(a, b) divides both of its arguments. */
  lemma {:induction false} GcdDivides(a: nat, b: nat)
    requires a > 0 || b > 0
    ensures Gcd(a, b) > 0 && Divides(Gcd(a, b), a) && Divides(Gcd(a, b), b)
    decreases b
  {
    hide Divides;
    if b == 0 {
      DividesMultiple(a, 1);
      DividesMultiple(a, 0);
    } else {
      GcdDivides(b, a % b);
      DivMod(a, b);
      DividesCombination(Gcd(a, b), b, a % b, a / b, 1);
    }
  }

  /** Every common divisor divides Gcd(a, b). */
  lemma {:induction false} GcdGreatest(a: nat, b: nat, d: nat)
    requires d > 0 && Divides(d, a) && Divides(d, b)
    ensures Divides(d, Gcd(a, b))
    decreases b
  {
    hide Divides;
    if b > 0 {
      DivMod(a, b);
      DividesCombination(d, a, b, 1, 0 - a / b);
      GcdGreatest(b, a % b, d);
    }
  }

  lemma MutualDivisors(g: nat, h: nat)
    requires g > 0 && h > 0 && Divides(g, h) && Divides(h, g)
    ensures g == h
  {
    var k := DividesWitness(g, h);
    var l := DividesWitness(h, g);
    PositiveFactor(k, g);
    PositiveFactor(l, h);
    MulMono(1, k, g);
    MulMono(1, l, h);
  }

  lemma PositiveFactor(k: int, g: nat)
    requires g > 0 && k * g > 0
    ensures k >= 1
  {
    if k < 1 { MulMono(k, 0, g); }
  }

  /** Two pairs with the same common divisors have the same gcd. */
  lemma SameGcd(a: nat, b: nat, x: nat, y: nat)
    requires (a > 0 || b > 0) && (x > 0 || y > 0)
    requires forall d: nat :: d > 0 && Divides(d, a) && Divides(d, b) ==> Divides(d, x) && Divides(d, y)
    requires forall d: nat :: d > 0 && Divides(d, x) && Divides(d, y) ==> Divides(d, a) && Divides(d, b)
    ensures Gcd(a, b) == Gcd(x, y)
  {
    hide Divides, Gcd;
    GcdDivides(a, b);
    GcdDivides(x, y);
    GcdGreatest(a, b, Gcd(x, y));
    GcdGreatest(x, y, Gcd(a, b));
    MutualDivisors(Gcd(a, b), Gcd(x, y));
  }

  lemma GcdSymmetric(a: nat, b: nat)
    requires a > 0 || b > 0
    ensures Gcd(a, b) == Gcd(b, a)
  {
    hide Divides, Gcd;
    SameGcd(a, b, b, a);
  }

  lemma GcdZero(b: nat)
    ensures Gcd(0, b) == b && Gcd(b, 0) == b
  {
  }

  lemma GcdSubtract(a: nat, b: nat)
    requires a >= b > 0
    ensures Gcd(a - b, b) == Gcd(a, b)
  {
    hide Divides, Gcd;
    forall d: nat | d > 0 && Divides(d, a) && Divides(d, b) ensures Divides(d, a - b) {
      DividesCombination(d, a, b, 1, -1);
    }
    forall d: nat | d > 0 && Divides(d, a - b) && Divides(d, b) ensures Divides(d, a) {
      DividesCombination(d, a - b, b, 1, 1);
    }
    SameGcd(a - b, b, a, b);
  }

  /** A divisor of twice a and of an odd number divides a. */
  lemma OddDivisor(d: nat, a: int, b: int)
    requires d > 0 && Divides(d, 2 * a) && Divides(d, b) && b % 2 == 1
    ensures Divides(d, a)
  {
    hide Divides;
    var k := DividesWitness(d, 2 * a);
    var l := DividesWitness(d, b);
    OddFactor(l, d);
    EvenFactor(k, d, a);
    DividesMultiple(d, k / 2);
  }

  lemma OddFactor(l: int, d: nat)
    requires (l * d) % 2 == 1
    ensures d % 2 == 1
  {
    if d % 2 == 0 { EvenProduct(l, d / 2); }
  }

  lemma EvenProduct(l: int, h: int)
    ensures (l * (2 * h)) % 2 == 0
  {
    assert l * (2 * h) == 2 * (l * h);
  }

  lemma OddProduct(h: int, e: int)
    ensures ((2 * h + 1) * (2 * e + 1)) % 2 == 1
  {
    var y := 2 * e + 1;
    MulDist(2 * h, 1, y);
    MulAssoc(2, h, y);
  }

  lemma EvenFactor(k: int, d: nat, a: int)
    requires k * d == 2 * a && d % 2 == 1
    ensures a == (k / 2) * d
  {
    if k % 2 == 1 {
      OddProduct(k / 2, d / 2);
    } else {
      MulAssoc(2, k / 2, d);
    }
  }

  lemma GcdHalve(a: nat, b: nat)
    requires a > 0 && b % 2 == 1
    ensures Gcd(2 * a, b) == Gcd(a, b)
  {
    hide Divides, Gcd;
    forall d: nat | d > 0 && Divides(d, 2 * a) && Divides(d, b) ensures Divides(d, a) {
      OddDivisor(d, a, b);
    }
    forall d: nat | d > 0 && Divides(d, a) && Divides(d, b) ensures Divides(d, 2 * a) {
      DividesProduct(d, a, 2);
    }
    SameGcd(2 * a, b, a, b);
  }

  /** Taking all factors of two out of an argument next to an odd one. */
  lemma {:induction false} GcdShift(a: nat, k: nat, b: nat)
    requires a > 0 && b % 2 == 1
    ensures a * Pow(2, k) > 0 && Gcd(a * Pow(2, k), b) == Gcd(a, b)
    decreases k
  {
    hide Gcd, Pow;
    PowOne(2);
    MulMono(1, Pow(2, k), a);
    if k > 0 {
      GcdShift(a, k - 1, b);
      PowSucc(2, k - 1);
      assert a * Pow(2, k) == 2 * (a * Pow(2, k - 1));
      GcdHalve(a * Pow(2, k - 1), b);
    }
  }

  /** A common power of two comes out of both arguments. */
  lemma GcdScale(a: nat, b: nat, w: nat)
    requires (a > 0 || b > 0) && w > 0
    ensures 0 <= a * w && 0 <= b * w && Gcd(a * w, b * w) == Gcd(a, b) * w
  {
    hide Divides, Gcd;
    MulNonneg(a, w);
    MulNonneg(b, w);
    if a > 0 { MulMono(1, a, w); }
    if b > 0 { MulMono(1, b, w); }
    GcdDivides(a, b);
    var g := Gcd(a, b);
    ScaleDivides(g, a, w);
    ScaleDivides(g, b, w);
    MulMono(1, g, w);
    GcdDivides(a * w, b * w);
    GcdGreatest(a * w, b * w, g * w);
    var h := Gcd(a * w, b * w);
    DividesMultiple(w, a);
    DividesMultiple(w, b);
    GcdGreatest(a * w, b * w, w);
    var k := DividesWitness(w, h);
    PositiveFactor(k, w);
    UnscaleDivides(k, a, w);
    UnscaleDivides(k, b, w);
    GcdGreatest(a, b, k);
    ScaleDivides(k, g, w);
    MutualDivisors(g * w, h);
  }

  lemma ScaleDivides(d: nat, x: nat, w: nat)
    requires d > 0 && w > 0 && Divides(d, x)
    ensures d * w > 0 && Divides(d * w, x * w)
  {
    hide Divides;
    MulMono(1, d, w);
    var k := DividesWitness(d, x);
    MulAssoc(k, d, w);
    DividesMultiple(d * w, k);
  }

  lemma UnscaleDivides(d: nat, x: nat, w: nat)
    requires d > 0 && w > 0 && d * w > 0 && Divides(d * w, x * w)
    ensures Divides(d, x)
  {
    hide Divides;
    var k := DividesWitness(d * w, x * w);
    MulAssoc(k, d, w);
    if x < k * d { MulStrict(x, k * d, w); }
    if x > k * d { MulStrict(k * d, x, w); }
    DividesMultiple(d, k);
  }

  /** Coprimality survives dividing an argument. */
  lemma CoprimeFactor(a: nat, m: nat, b: nat)
    requires a > 0 && b > 0 && m > 0 && Gcd(a * m, b) == 1
    ensures Gcd(a, b) == 1
  {
    hide Divides, Gcd;
    GcdDivides(a, b);
    var g := Gcd(a, b);
    DividesProduct(g, a, m);
    MulNonneg(a, m);
    GcdGreatest(a * m, b, g);
    var k := DividesWitness(g, 1);
    PositiveFactor(k, g);
    MulMono(1, k, g);
  }
}
