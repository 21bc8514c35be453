/** Integer arithmetic used by the other modules: powers, Euclidean division and
    congruences.  Every lemma is stated with explicit arguments. */
module Arith {

  function Pow(b: nat, e: nat): (r: nat)
    ensures b > 0 ==> r > 0
  {
    if e == 0 then 1 else b * Pow(b, e - 1)
  }

  function Max(a: int, b: int): int {
    if a >= b then a else b
  }

  function Min(a: int, b: int): int {
    if a <= b then a else b
  }

  lemma {:induction false} PowAdd(b: nat, e: nat, f: nat)
    ensures Pow(b, e + f) == Pow(b, e) * Pow(b, f)
  {
    if e > 0 {
      PowAdd(b, e - 1, f);
      assert Pow(b, e + f) == b * Pow(b, e - 1 + f);
      MulAssoc(b, Pow(b, e - 1), Pow(b, f));
    }
  }

  lemma PowOne(b: nat)
    ensures Pow(b, 0) == 1 && Pow(b, 1) == b
  {
    assert Pow(b, 1) == b * Pow(b, 0);
  }

  lemma PowSucc(b: nat, e: nat)
    ensures Pow(b, e + 1) == b * Pow(b, e)
  {
  }

  lemma {:induction false} PowMono(b: nat, e: nat, f: nat)
    requires b > 0 && e <= f
    ensures Pow(b, e) <= Pow(b, f)
    decreases f
  {
    if e < f {
      PowMono(b, e, f - 1);
      MulMono(1, b, Pow(b, f - 1));
    }
  }

  lemma {:induction false} PowMul(b: nat, e: nat, f: nat)
    ensures Pow(Pow(b, e), f) == Pow(b, e * f)
    decreases f
  {
    if f > 0 {
      PowMul(b, e, f - 1);
      assert e * f == e + e * (f - 1);
      PowAdd(b, e, e * (f - 1));
    } else {
      assert e * f == 0;
    }
  }

  lemma PowStrict(b: nat, e: nat, f: nat)
    requires b > 1 && e < f
    ensures Pow(b, e) < Pow(b, f)
  {
    PowMono(b, e + 1, f);
    MulMono(2, b, Pow(b, e));
  }

  lemma MulAssoc(x: int, y: int, z: int)
    ensures x * (y * z) == (x * y) * z
  {
  }

  lemma MulNonneg(x: int, y: int)
    requires x >= 0 && y >= 0
    ensures x * y >= 0
  {
  }

  lemma MulDist(x: int, y: int, z: int)
    ensures (x + y) * z == x * z + y * z
    ensures (x - y) * z == x * z - y * z
  {
  }

  lemma MulSwap(k: int, m: int, u: int)
    ensures (k * m) * u == (k * u) * m
  {
  }

  lemma MulMono(x: int, y: int, z: int)
    requires x <= y && z >= 0
    ensures x * z <= y * z
  {
  }

  lemma MulStrict(x: int, y: int, z: int)
    requires x < y && z > 0
    ensures x * z < y * z
  {
  }

  /** Cancelling a positive factor in a strict inequality. */
  lemma MulCancelLess(x: int, y: int, z: int)
    requires x * z < y * z && z > 0
    ensures x < y
  {
    if y <= x { MulMono(y, x, z); }
  }

  lemma DivUnique(x: int, q: int, r: int, d: int)
    requires d > 0 && 0 <= r < d && x == q * d + r
    ensures x / d == q && x % d == r
  {
    var q', r' := x / d, x % d;
    assert x == q' * d + r';
    assert (q - q') * d == r' - r;
    if q > q' {
      MulMono(1, q - q', d);
    } else if q < q' {
      MulMono(q - q', -1, d);
    }
  }

  lemma DivMod(x: int, d: int)
    requires d > 0
    ensures x == (x / d) * d + x % d && 0 <= x % d < d
  {
  }

  /** x and y leave the same remainder modulo m. */
  ghost predicate Cong(x: int, y: int, m: int)
    requires m > 0
  {
    x % m == y % m
  }

  lemma ModMultiple(x: int, k: int, m: int)
    requires m > 0
    ensures (x + k * m) % m == x % m
  {
    DivMod(x, m);
    assert x + k * m == (x / m + k) * m + x % m;
    DivUnique(x + k * m, x / m + k, x % m, m);
  }

  lemma CongMultiple(x: int, y: int, k: int, m: int)
    requires m > 0 && x == y + k * m
    ensures Cong(x, y, m)
  {
    ModMultiple(y, k, m);
  }

  lemma CongWitness(x: int, y: int, m: int) returns (k: int)
    requires m > 0 && Cong(x, y, m)
    ensures x == y + k * m
  {
    k := x / m - y / m;
    DivMod(x, m);
    DivMod(y, m);
  }

  lemma CongMod(x: int, m: int)
    requires m > 0
    ensures Cong(x % m, x, m)
  {
    DivMod(x, m);
    CongMultiple(x, x % m, x / m, m);
  }

  lemma CongAdd(x: int, y: int, u: int, v: int, m: int)
    requires m > 0 && Cong(x, y, m) && Cong(u, v, m)
    ensures Cong(x + u, y + v, m)
  {
    var k := CongWitness(x, y, m);
    var l := CongWitness(u, v, m);
    assert x + u == y + v + (k + l) * m;
    CongMultiple(x + u, y + v, k + l, m);
  }

  lemma CongSub(x: int, y: int, u: int, v: int, m: int)
    requires m > 0 && Cong(x, y, m) && Cong(u, v, m)
    ensures Cong(x - u, y - v, m)
  {
    var k := CongWitness(x, y, m);
    var l := CongWitness(u, v, m);
    assert x - u == y - v + (k - l) * m;
    CongMultiple(x - u, y - v, k - l, m);
  }

  lemma CongScale(x: int, y: int, u: int, m: int)
    requires m > 0 && Cong(x, y, m)
    ensures Cong(x * u, y * u, m)
  {
    var k := CongWitness(x, y, m);
    MulSwap(k, m, u);
    assert x * u == y * u + (k * m) * u;
    CongMultiple(x * u, y * u, k * u, m);
  }

  lemma CongMul(x: int, y: int, u: int, v: int, m: int)
    requires m > 0 && Cong(x, y, m) && Cong(u, v, m)
    ensures Cong(x * u, y * v, m)
  {
    CongScale(x, y, u, m);
    CongScale(u, v, y, m);
  }

  lemma CongRange(x: int, y: int, m: int)
    requires m > 0 && Cong(x, y, m) && 0 <= x < m
    ensures x == y % m
  {
    DivUnique(x, 0, x, m);
  }

  /** The power of a residue. */
  lemma {:induction false} CongPow(x: nat, y: nat, e: nat, m: int)
    requires m > 0 && Cong(x, y, m)
    ensures Cong(Pow(x, e), Pow(y, e), m)
  {
    if e > 0 {
      CongPow(x, y, e - 1, m);
      CongMul(x, y, Pow(x, e - 1), Pow(y, e - 1), m);
    }
  }
}
