/** Bit-level views of natural numbers: bitwise or, single bits and bit length. */
module Bits {
  import opened Arith

  /** C's | on unsigned operands. */
  function Or(x: nat, y: nat): nat {
    if x == 0 && y == 0 then 0
    else (if x % 2 == 1 || y % 2 == 1 then 1 else 0) + 2 * Or(x / 2, y / 2)
  }

  /** x >> n */
  function Shr(x: nat, n: nat): nat {
    x / Pow(2, n)
  }

  /** The low n bits of x. */
  function Low(x: nat, n: nat): nat {
    x % Pow(2, n)
  }

  lemma ShrLow(x: nat, n: nat)
    ensures x == Shr(x, n) * Pow(2, n) + Low(x, n) && Low(x, n) < Pow(2, n)
  {
    DivMod(x, Pow(2, n));
  }

  lemma ShrUnique(x: nat, n: nat, q: nat, r: nat)
    requires r < Pow(2, n) && x == q * Pow(2, n) + r
    ensures Shr(x, n) == q && Low(x, n) == r
  {
    DivUnique(x, q, r, Pow(2, n));
  }

  /** (x >> i) & 1 */
  function BitAt(x: nat, i: nat): (b: nat)
    ensures b <= 1
  {
    Shr(x, i) % 2
  }

  /** Operands without a common bit: or is addition. */
  lemma {:induction false} OrDisjoint(x: nat, y: nat, t: nat)
    requires Low(x, t) == 0 && y < Pow(2, t)
    ensures Or(x, y) == x + y
    decreases t
  {
    if t == 0 {
      OrZero(x);
    } else {
      var h := Pow(2, t - 1);
      var q := x / Pow(2, t);
      DivMod(x, Pow(2, t));
      assert x == 2 * (q * h);
      DivUnique(q * h, q, 0, h);
      OrDisjoint(x / 2, y / 2, t - 1);
    }
  }

  lemma {:induction false} OrZero(x: nat)
    ensures Or(x, 0) == x
  {
    if x > 0 { OrZero(x / 2); }
  }

  /** Number of bits up to and including the most significant one. */
  function BitLen(x: nat): nat {
    if x == 0 then 0 else 1 + BitLen(x / 2)
  }

  lemma {:induction false} BitLenBounds(x: nat)
    ensures x < Pow(2, BitLen(x))
    ensures x > 0 ==> Pow(2, BitLen(x) - 1) <= x
  {
    if x > 0 { BitLenBounds(x / 2); }
  }

  lemma BitLenUnique(x: nat, n: nat)
    requires x < Pow(2, n) && (n > 0 ==> Pow(2, n - 1) <= x)
    ensures n == BitLen(x)
  {
    BitLenBounds(x);
    var m := BitLen(x);
    if n < m { PowMono(2, n, m - 1); }
    if m < n { PowMono(2, m, n - 1); }
  }

  /** Splitting a power of two. */
  lemma Pow2Split(n: nat, t: nat)
    requires t <= n
    ensures Pow(2, n) == Pow(2, t) * Pow(2, n - t)
  {
    PowAdd(2, t, n - t);
  }

  lemma BitLenMul(x: nat, k: nat)
    requires x > 0
    ensures BitLen(x * Pow(2, k)) == BitLen(x) + k
  {
    BitLenBounds(x);
    var w := Pow(2, k);
    PowAdd(2, BitLen(x), k);
    PowAdd(2, BitLen(x) - 1, k);
    MulStrict(x, Pow(2, BitLen(x)), w);
    MulMono(Pow(2, BitLen(x) - 1), x, w);
    BitLenUnique(x * w, BitLen(x) + k);
  }

  /** The low a + b bits: the low a, and b more above them. */
  lemma LowSplit(m: nat, a: nat, b: nat)
    ensures Low(m, a + b) == Low(m, a) + Pow(2, a) * Low(Shr(m, a), b)
  {
    hide Pow, Shr, Low;
    ShrLow(m, a);
    ShrLow(Shr(m, a), b);
    var q, h, l := Shr(Shr(m, a), b), Low(Shr(m, a), b), Low(m, a);
    var r := l + Pow(2, a) * h;
    PowAdd(2, a, b);
    assert m == q * Pow(2, a + b) + r by {
      MulDist(q * Pow(2, b), h, Pow(2, a));
      MulAssoc(q, Pow(2, b), Pow(2, a));
    }
    assert r < Pow(2, a + b) by { MulMono(h + 1, Pow(2, b), Pow(2, a)); MulDist(h, 1, Pow(2, a)); }
    MulNonneg(Pow(2, a), h);
    ShrUnique(m, a + b, q, r);
  }

  lemma LowWhole(m: nat, n: nat)
    requires BitLen(m) <= n
    ensures Low(m, n) == m
  {
    hide Pow;
    BitLenBounds(m);
    PowMono(2, BitLen(m), n);
    DivUnique(m, 0, m, Pow(2, n));
  }
}
