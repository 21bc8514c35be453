/** Multiplication of bignum.c and the two portable multiply-accumulate steps of bn_mul.h. */
module BignumMul {
  import opened Arith
  import opened Bits
  import opened Limbs
  import opened Bignum
  import opened BignumAdd
  import opened BignumShift

  lemma WordSum(x: limb, y: limb)
    requires x + y < B
    ensures AddW(x, y) == x + y
  {
    DivUnique(x + y, 0, x + y, B);
  }

  lemma HighBelow(r0: nat, u: int, total: nat)
    requires r0 + B * u <= total < B * B
    ensures u < B
  {
    hide Pow;
    if u >= B { MulMono(B, u, B); }
  }

  lemma MulAddBound(s: limb, b: limb, c: limb, d: limb)
    ensures s * b + c + d < B * B
  {
    hide Pow;
    BaseFacts();
    MulMono(s, B - 1, b);
    MulMono(b, B - 1, B - 1);
    MulDist(B, 1, B - 1);
    MulDist(B, 1, B);
  }

  /** One addition into the low word, its carry into the high word: both words together
      grow by x, and the high word does not overflow. */
  lemma AccumulateStep(r0: limb, r1: limb, x: limb, before: nat, total: nat)
    requires r0 + B * r1 == before && before + x <= total < B * B
    ensures var y := AddW(r0, x); var z := AddW(r1, Bit(y < x));
            y + B * z == before + x
  {
    hide Pow;
    BaseFacts();
    AddCarry(r0, x);
    var y := AddW(r0, x);
    var k := Bit(y < x);
    MulDist(r1, k, B);
    HighBelow(y, r1 + k, total);
    WordSum(r1, k);
  }

  /** The step of bn_mul.h with a double-width product: r0 + B * r1 = s * b + c + d. */
  method MulAddWide(s: limb, b: limb, c: limb, d: limb) returns (r0: limb, r1: limb)
    ensures r0 + B * r1 == s * b + c + d
  {
    hide Pow, AddW, Bit;
    MulNonneg(s, b);
    MulAddBound(s, b, c, d);
    var r: nat := s * b;
    DivMod(r, B);
    HighBelow(r % B, r / B, r);
    r0 := r % B;
    r1 := r / B;
    r0, r1 := AddTwo(r0, r1, c, d, r + c + d);
  }

  /** Half the bits of a limb. */
  function biH(): nat {
    biL / 2
  }

  lemma HalfBase()
    ensures B == Pow(2, biH()) * Pow(2, biH()) && 0 < biH() < biL && biL == 2 * biH()
  {
    hide Pow;
    LimbBase(biH());
  }

  /** The four partial products of the half-limb step: what rx and ry add to both words. */
  lemma CrossTerm(r: nat, h: nat, l: nat, w: nat)
    requires r == h * w + l
    ensures r * w == h * (w * w) + l * w
  {
    MulDist(h * w, l, w);
    MulAssoc(h, w, w);
  }

  lemma HalfProducts(s0: nat, s1: nat, b0: nat, b1: nat, w: nat)
    ensures (s1 * w + s0) * (b1 * w + b0)
         == s0 * b0 + (s0 * b1) * w + (s1 * b0) * w + (s1 * b1) * (w * w)
  {
    var b := b1 * w + b0;
    MulDist(s1 * w, s0, b);
    assert s0 * b == s0 * b0 + s0 * (b1 * w);
    MulAssoc(s0, b1, w);
    assert (s1 * w) * b == (s1 * w) * b0 + (s1 * w) * (b1 * w);
    MulSwap(s1, w, b0);
    FourFactors(s1, b1, w);
  }

  lemma FourFactors(x: nat, y: nat, w: nat)
    ensures (x * w) * (y * w) == (x * y) * (w * w)
  {
    MulAssoc(x * w, y, w);
    MulSwap(x, w, y);
    MulAssoc(x * y, w, w);
  }

  lemma HalfBound(x: nat, y: nat, w: nat)
    requires x < w && y < w
    ensures 0 <= x * y < w * w
  {
    MulNonneg(x, y);
    MulMono(x, w - 1, y);
    MulMono(y, w - 1, w - 1);
    MulDist(w, 1, w - 1);
    MulDist(w, 1, w);
  }

  /** The half-limb products of s and b: two words and the two cross terms. */
  method FourProducts(s: limb, b: limb) returns (r0: limb, r1: limb, rx: limb, ry: limb)
    ensures s * b == r0 + B * r1 + B * Shr(rx, biH()) + B * Shr(ry, biH())
                  + ShlW(rx, biH()) + ShlW(ry, biH())
    ensures Shr(rx, biH()) < B && Shr(ry, biH()) < B
  {
    hide Pow, Shr, Low, ShlW, biH;
    HalfBase();
    HalvesOf(b);
    HalvesOf(s);
    var b0: nat, b1: nat := Shr(ShlW(b, biH()), biH()), Shr(b, biH());
    var s0: nat, s1: nat := Shr(ShlW(s, biH()), biH()), Shr(s, biH());
    ghost var w := Pow(2, biH());
    HalfBound(s0, b1, w);
    HalfBound(s0, b0, w);
    HalfBound(s1, b0, w);
    HalfBound(s1, b1, w);
    rx, r0 := s0 * b1, s0 * b0;
    ry, r1 := s1 * b0, s1 * b1;
    HalfProducts(s0, s1, b0, b1, w);
    CrossParts(rx);
    CrossParts(ry);
  }

  /** The step of bn_mul.h without a double-width type: the same result from four
      half-limb products. */
  method MulAddHalves(s: limb, b: limb, c: limb, d: limb) returns (r0: limb, r1: limb)
    ensures r0 + B * r1 == s * b + c + d
  {
    hide *;
    var rx, ry;
    r0, r1, rx, ry := FourProducts(s, b);
    MulAddBound(s, b, c, d);
    r0, r1 := AddCross(r0, r1, rx, ry, c, d, s * b + c + d);
  }

  method AddCross(a0: limb, a1: limb, x: limb, y: limb, c: limb, d: limb, ghost total: int)
    returns (r0: limb, r1: limb)
    requires Shr(x, biH()) < B && Shr(y, biH()) < B && total < B * B
    requires total == a0 + B * a1 + B * Shr(x, biH()) + B * Shr(y, biH())
                      + ShlW(x, biH()) + ShlW(y, biH()) + c + d
    ensures r0 + B * r1 == total
  {
    hide *;
    r0, r1 := a0, a1;
    var rx, ry := x, y;
    r1 := AddHighParts(r0, r1, Shr(rx, biH()), Shr(ry, biH()), total);
    rx, ry := ShlW(rx, biH()), ShlW(ry, biH());
    r0, r1 := AddTwo(r0, r1, rx, ry, total);
    r0, r1 := AddTwo(r0, r1, c, d, total);
  }

  method AddHighParts(r0: limb, r1: limb, hx: limb, hy: limb, ghost total: int) returns (z: limb)
    requires r0 + B * r1 + B * hx + B * hy <= total < B * B
    ensures r0 + B * z == r0 + B * r1 + B * hx + B * hy
  {
    hide Pow, AddW;
    MulNonneg(B, hy);
    HighAdd(r0, r1, hx, r0 + B * r1, total);
    z := AddW(r1, hx);
    HighAdd(r0, z, hy, r0 + B * z, total);
    z := AddW(z, hy);
  }

  /** r0 += x; r1 += (r0 < x); r0 += y; r1 += (r0 < y) */
  method AddTwo(a0: limb, a1: limb, x: limb, y: limb, ghost total: int) returns (r0: limb, r1: limb)
    requires a0 + B * a1 + x + y <= total < B * B
    ensures r0 + B * r1 == a0 + B * a1 + x + y
  {
    hide Pow, AddW, Bit;
    MulNonneg(B, a1);
    ghost var before: nat := a0 + B * a1;
    AccumulateStep(a0, a1, x, before, total);
    r0 := AddW(a0, x);
    r1 := AddW(a1, Bit(r0 < x));
    AccumulateStep(r0, r1, y, before + x, total);
    r0 := AddW(r0, y);
    r1 := AddW(r1, Bit(r0 < y));
  }

  lemma HighAdd(r0: limb, r1: limb, h: limb, before: nat, total: nat)
    requires r0 + B * r1 == before && before + B * h <= total < B * B
    ensures r0 + B * AddW(r1, h) == before + B * h
  {
    hide Pow, AddW;
    MulDist(r1, h, B);
    HighBelow(r0, r1 + h, total);
    WordSum(r1, h);
  }

  lemma HalvesOf(x: limb)
    ensures Shr(ShlW(x, biH()), biH()) < Pow(2, biH()) && Shr(x, biH()) < Pow(2, biH())
    ensures x == Shr(x, biH()) * Pow(2, biH()) + Shr(ShlW(x, biH()), biH())
  {
    hide Pow, Shr, Low, ShlW, biH;
    HalfBase();
    var n := biH();
    ShiftDownParts(x, n);
    ShrLow(x, n);
    ShrUnique(Low(x, n) * Pow(2, n), n, Low(x, n), 0);
  }

  lemma CrossParts(r: limb)
    ensures r * Pow(2, biH()) == B * Shr(r, biH()) + ShlW(r, biH())
    ensures Shr(r, biH()) < B
  {
    hide Pow, Shr, Low, ShlW, biH;
    HalfBase();
    var n := biH();
    ShiftDownParts(r, n);
    ShrLow(r, n);
    CrossTerm(r, Shr(r, n), Low(r, n), Pow(2, n));
  }

  /** One limb of the multiply-accumulate loop, in terms of whole numbers. */
  lemma MulStep(p: seq<limb>, k: nat, x: limb, b: limb, c: limb, r0: limb, r1: limb)
    requires k < |p| && r0 + B * r1 == x * b + c + p[k]
    ensures Val(p[k := r0]) + r1 * Pow(B, k + 1) == Val(p) + c * Pow(B, k) + x * b * Pow(B, k)
  {
    hide Pow, Val;
    ValUpdate(p, k, r0);
    CarryWeight(p[k], r0, r1, x * b + c, k);
    MulDist(x * b, c, Pow(B, k));
  }

  lemma PartialProduct(s: seq<limb>, k: nat, b: limb, off: nat)
    requires k < |s|
    ensures Val(s[..k + 1]) * b * Pow(B, off) == Val(s[..k]) * b * Pow(B, off) + s[k] * b * Pow(B, off + k)
  {
    hide *;
    ValPrefix(s, k);
    PowAdd(B, k, off);
    ProductAlgebra(Val(s[..k]), s[k], b, Pow(B, k), Pow(B, off));
  }

  lemma ProductAlgebra(v: int, x: int, b: int, w: int, u: int)
    ensures (v + x * w) * b * u == v * b * u + x * b * (w * u)
  {
    MulDist(v, x * w, b);
    MulSwap(x, w, b);
    MulDist(v * b, (x * b) * w, u);
    MulAssoc(x * b, w, u);
  }

  /** mpi_mul_hlp: D[off..] += s[..n] * b.  The closing carry loop stops inside D because
      the sum fits there. */
  method MulHlp(n: nat, s: seq<limb>, D: Mpi, off: nat, b: limb)
    requires n <= |s| && off + n < |D.p|
    requires Val(D.p) + Val(s[..n]) * b * Pow(B, off) < Pow(B, |D.p|)
    modifies D`p
    ensures |D.p| == |old(D.p)| && D.p[..off] == old(D.p)[..off]
    ensures Val(D.p) == Val(old(D.p)) + Val(s[..n]) * b * Pow(B, off)
  {
    hide *;
    BaseFacts();
    var c: limb := 0;
    ZeroPrefixProduct(s, b, off);
    for k := 0 to n
      invariant |D.p| == |old(D.p)| && D.p[..off] == old(D.p)[..off]
      invariant Val(D.p) + c * Pow(B, off + k) == Val(old(D.p)) + Val(s[..k]) * b * Pow(B, off)
    {
      ghost var q := D.p;
      var r0, r1 := MulAddWide(s[k], b, c, D.p[off + k]);
      MulStep(q, off + k, s[k], b, c, r0, r1);
      PartialProduct(s, k, b, off);
      D.p := D.p[off + k := r0];
      c := r1;
    }
    CarryOut(D, off, off + n, c);
  }

  lemma ZeroPrefixProduct(s: seq<limb>, b: limb, off: nat)
    ensures Val(s[..0]) * b * Pow(B, off) == 0
  {
    ValZeros(s[..0]);
  }

  /** The do-while loop that ends mpi_mul_hlp. */
  method CarryOut(D: Mpi, off: nat, from: nat, carry: limb)
    requires off <= from < |D.p| && Val(D.p) + carry * Pow(B, from) < Pow(B, |D.p|)
    modifies D`p
    ensures |D.p| == |old(D.p)| && D.p[..off] == old(D.p)[..off]
    ensures Val(D.p) == Val(old(D.p)) + carry * Pow(B, from)
  {
    hide *;
    BaseFacts();
    ghost var target := Val(D.p) + carry * Pow(B, from);
    var i, c: limb := from, carry;
    ghost var q := D.p;
    CarryOutStep(q, i, c);
    D.p := D.p[i := AddW(D.p[i], c)];
    c := Bit(D.p[i] < c);
    i := i + 1;
    while c != 0
      invariant from < i <= |D.p| == |old(D.p)| && c <= 1
      invariant D.p[..off] == old(D.p)[..off]
      invariant Val(D.p) + c * Pow(B, i) == target
      decreases if c == 0 then 0 else 1 + |D.p| - i
    {
      assert i < |D.p|;
      q := D.p;
      CarryOutStep(q, i, c);
      D.p := D.p[i := AddW(D.p[i], c)];
      CarryOfOne(q[i], c);
      c := Bit(D.p[i] < c);
      i := i + 1;
    }
  }

  lemma CarryOutStep(p: seq<limb>, i: nat, c: limb)
    requires i < |p|
    ensures var z := AddW(p[i], c);
            Bit(z < c) <= 1 && Val(p[i := z]) + Bit(z < c) * Pow(B, i + 1) == Val(p) + c * Pow(B, i)
  {
    hide Pow, Val;
    var z := AddW(p[i], c);
    AddCarry(p[i], c);
    ValUpdate(p, i, z);
    CarryWeight(p[i], z, Bit(z < c), c, i);
  }

  lemma CarryOfOne(x: limb, c: limb)
    requires c <= 1
    ensures Bit(AddW(x, c) < c) == 1 ==> AddW(x, c) == 0
  {
  }

  /** A itself, or a private copy when X is about to overwrite it. */
  method Unaliased(X: Mpi, A: Mpi) returns (Y: Mpi)
    ensures Y != X && (Y == A || fresh(Y)) && Y.Abs() == A.Abs() && Y.Value() == A.Value()
    ensures Sig(Y.p) == Sig(A.p) && (A.p != [] ==> Y.s == A.s)
  {
    hide Val, Sig;
    if X != A { return A; }
    Y := new Mpi();
    Copy(Y, A);
    CompareBySig(Y.p, A.p);
  }

  /** mpi_mul_mpi: X = A * B, whichever of them X overwrites. */
  method MulMpi(X: Mpi, A: Mpi, Bm: Mpi)
    modifies X
    ensures X.Value() == old(A.Value()) * old(Bm.Value())
    ensures X.Abs() == old(A.Abs()) * old(Bm.Abs())
    ensures |X.p| == Max(1, Max(|old(X.p)|, Sig(old(A.p)) + Sig(old(Bm.p))))
    ensures old(A.p) != [] && old(Bm.p) != [] ==> X.s == old(A.s) * old(Bm.s)
  {
    hide Pow, Val, Sig, Zeros;
    BaseFacts();
    var A' := Unaliased(X, A);
    var B' := Unaliased(X, Bm);
    var i := Significant(A'.p);
    var j := Significant(B'.p);
    Grow(X, i + j);
    Lset(X, 0);
    SchoolbookProduct(X, A'.p, i, B'.p, j);
    X.s := A'.s * B'.s;
    SignedProduct(A'.s, B'.s, A'.Abs(), B'.Abs(), A'.Value(), B'.Value());
  }

  lemma SignedProduct(s: Sign, t: Sign, a: nat, b: nat, x: int, y: int)
    requires x == (if s == 1 then a else 0 - a) && y == (if t == 1 then b else 0 - b)
    ensures x * y == if s * t == 1 then a * b else 0 - a * b
  {
  }

  /** The outer loop of mpi_mul_mpi, from the top limb of b down. */
  method SchoolbookProduct(X: Mpi, a: seq<limb>, i: nat, b: seq<limb>, j0: nat)
    requires i == Sig(a) && j0 == Sig(b) && i + j0 <= |X.p| && Val(X.p) == 0
    modifies X`p
    ensures |X.p| == |old(X.p)| && Val(X.p) == Val(a) * Val(b)
  {
    hide *;
    SigBounds(a);
    SigBounds(b);
    var j := j0;
    while j > 0
      invariant 0 <= j <= j0 && |X.p| == |old(X.p)|
      invariant Val(X.p) == Val(a) * (Val(b) - Val(b[..j]))
    {
      ProductRoom(a, b, j, |X.p|);
      MulHlp(i, a, X, j - 1, b[j - 1]);
      j := j - 1;
    }
    ValZeros(b[..0]);
  }

  lemma ProductRoom(a: seq<limb>, b: seq<limb>, j: nat, n: nat)
    requires 0 < j <= Sig(b) && Sig(a) + Sig(b) <= n
    ensures Val(a) * (Val(b) - Val(b[..j])) + Val(a[..Sig(a)]) * b[j - 1] * Pow(B, j - 1)
         == Val(a) * (Val(b) - Val(b[..j - 1])) < Pow(B, n)
  {
    hide *;
    SigBounds(a);
    SigBounds(b);
    ValPrefix(b, j - 1);
    MulAssoc(Val(a), b[j - 1], Pow(B, j - 1));
    MulDist(Val(b) - Val(b[..j]), b[j - 1] * Pow(B, j - 1), Val(a));
    PowAdd(B, Sig(a), Sig(b));
    PowMono(B, Sig(a) + Sig(b), n);
    ProductBelow(Val(a), Val(b) - Val(b[..j - 1]), Pow(B, Sig(a)), Pow(B, Sig(b)));
  }

  lemma ProductBelow(a: nat, b: int, x: nat, y: nat)
    requires a < x && b < y && y > 0
    ensures a * b < x * y
  {
    MulMono(b, y, a);
    MulStrict(a, x, y);
  }

  /** mpi_mul_int: X = A * b. */
  method MulInt(X: Mpi, A: Mpi, b: limb)
    modifies X
    ensures X.Value() == old(A.Value()) * b
    ensures X.Abs() == old(A.Abs()) * b
    ensures |X.p| == Max(1, Max(|old(X.p)|, Sig(old(A.p)) + (if b == 0 then 0 else 1)))
    ensures old(A.p) != [] ==> X.s == old(A.s)
  {
    hide Pow, Val, Sig;
    var Y := new Mpi();
    Y.s, Y.p := 1, [b];
    ValSingle(b);
    SigUnique(Y.p, if b == 0 then 0 else 1);
    MulMpi(X, A, Y);
  }
}
