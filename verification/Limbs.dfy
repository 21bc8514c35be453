/** Limb arrays of a multi-precision integer (bignum.c, bignum.h).

    biL is the number of bits in a limb.  It is left open among the four widths the
    library can be built with, so everything below holds for each of them. */
module Limbs {
  import opened Arith

  type LimbBits = b: nat | b == 8 || b == 16 || b == 32 || b == 64 witness 32

  const biL: LimbBits
  const B: nat := Pow(2, biL)

  /** An unsigned machine word. */
  type limb = x: nat | x < B witness 0

  lemma BaseFacts()
    ensures B >= 256 && B % 4 == 0
  {
    PowersOfTwo();
    hide Pow;
    PowMono(2, 8, biL);
    PowAdd(2, 2, biL - 2);
    DivUnique(B, Pow(2, biL - 2), 0, 4);
  }

  lemma PowersOfTwo()
    ensures Pow(2, 2) == 4 && Pow(2, 8) == 256
  {
  }

  /** Wrapping word operations, as C defines them on unsigned words. */
  function AddW(x: limb, y: limb): limb {
    (x + y) % B
  }

  function SubW(x: limb, y: limb): limb {
    (x - y) % B
  }

  /** C's value of a comparison. */
  function Bit(b: bool): limb {
    BaseFacts();
    if b then 1 else 0
  }

  lemma AddCarry(x: limb, y: limb)
    ensures AddW(x, y) + B * Bit(AddW(x, y) < y) == x + y
  {
    BaseFacts();
    if x + y < B {
      DivUnique(x + y, 0, x + y, B);
    } else {
      DivUnique(x + y, 1, x + y - B, B);
    }
  }

  lemma SubBorrow(x: limb, y: limb)
    ensures SubW(x, y) - B * Bit(x < y) == x - y
  {
    BaseFacts();
    if x >= y {
      DivUnique(x - y, 0, x - y, B);
    } else {
      DivUnique(x - y, -1, x - y + B, B);
    }
  }

  /** The limb x at position i. */
  ghost function Weighted(x: nat, i: nat): (r: nat)
    ensures r == x * Pow(B, i)
  {
    MulNonneg(x, Pow(B, i));
    x * Pow(B, i)
  }

  /** The number a limb array stands for, least significant limb first. */
  ghost function Val(p: seq<limb>): nat {
    if |p| == 0 then 0 else Val(p[..|p| - 1]) + Weighted(p[|p| - 1], |p| - 1)
  }

  function Zeros(n: nat): (z: seq<limb>)
    ensures |z| == n && forall i :: 0 <= i < n ==> z[i] == 0
  {
    seq(n, i => 0)
  }

  /** A low part below B^n and a limb on top of it stay below B^(n+1). */
  lemma BelowNext(low: nat, x: limb, n: nat)
    requires low < Pow(B, n)
    ensures low + x * Pow(B, n) < Pow(B, n + 1)
  {
    var w := Pow(B, n);
    MulMono(x, B - 1, w);
    MulDist(B, 1, w);
  }

  lemma {:induction false} ValBound(p: seq<limb>)
    ensures Val(p) < Pow(B, |p|)
  {
    if |p| > 0 {
      var n := |p| - 1;
      ValBound(p[..n]);
      BelowNext(Val(p[..n]), p[n], n);
    }
  }

  lemma {:induction false} ValZeros(p: seq<limb>)
    requires forall i :: 0 <= i < |p| ==> p[i] == 0
    ensures Val(p) == 0
  {
    if |p| > 0 {
      ValZeros(p[..|p| - 1]);
    }
  }

  lemma {:induction false} ValUpdate(p: seq<limb>, i: nat, v: limb)
    requires i < |p|
    ensures Val(p[i := v]) == Val(p) + (v - p[i]) * Pow(B, i)
  {
    hide Pow;
    var n := |p| - 1;
    if i == n {
      assert p[i := v][..n] == p[..n];
      MulDist(v, p[i], Pow(B, i));
    } else {
      ValUpdate(p[..n], i, v);
      assert p[i := v][..n] == p[..n][i := v];
    }
  }

  lemma {:induction false} ValConcat(p: seq<limb>, q: seq<limb>)
    ensures Val(p + q) == Val(p) + Val(q) * Pow(B, |p|)
  {
    if |q| == 0 {
      assert p + q == p;
    } else {
      var q' := q[..|q| - 1];
      var n := |q| - 1;
      assert (p + q)[..|p + q| - 1] == p + q';
      ValConcat(p, q');
      PowAdd(B, n, |p|);
      assert (p + q)[|p + q| - 1] == q[n];
      MulAssoc(q[n], Pow(B, n), Pow(B, |p|));
      MulDist(Val(q'), q[n] * Pow(B, n), Pow(B, |p|));
    }
  }

  lemma ValSplit(p: seq<limb>, i: nat)
    requires i <= |p|
    ensures Val(p) == Val(p[..i]) + Val(p[i..]) * Pow(B, i)
  {
    hide Pow;
    assert p == p[..i] + p[i..];
    ValConcat(p[..i], p[i..]);
  }

  lemma ValPrefix(p: seq<limb>, i: nat)
    requires i < |p|
    ensures Val(p[..i + 1]) == Val(p[..i]) + p[i] * Pow(B, i)
  {
    hide Pow;
    assert p[..i + 1][..i] == p[..i];
  }

  lemma ValSingle(x: limb)
    ensures Val([x]) == x
  {
    assert [x][..0] == [];
    assert Val([]) == 0;
    assert Pow(B, 0) == 1;
  }

  /** The lowest limb is the value modulo B. */
  lemma ValFirst(p: seq<limb>)
    requires |p| > 0
    ensures Val(p) == p[0] + B * Val(p[1..])
    ensures Val(p) % B == p[0]
  {
    hide Pow;
    ValSplit(p, 1);
    assert p[..1] == [p[0]];
    ValSingle(p[0]);
    PowOne(B);
    DivUnique(Val(p), Val(p[1..]), p[0], B);
  }

  lemma ValZeroTail(p: seq<limb>, i: nat)
    requires i <= |p| && forall k :: i <= k < |p| ==> p[k] == 0
    ensures Val(p[..i]) == Val(p)
  {
    hide Pow;
    ValSplit(p, i);
    ValZeros(p[i..]);
  }

  /** Number of limbs up to the highest nonzero one. */
  ghost function Sig(p: seq<limb>): (n: nat)
    ensures n <= |p|
    ensures forall k :: n <= k < |p| ==> p[k] == 0
    ensures n > 0 ==> p[n - 1] != 0
  {
    if |p| == 0 then 0
    else if p[|p| - 1] != 0 then |p|
    else
      var n := Sig(p[..|p| - 1]);
      assert forall k :: n <= k < |p| - 1 ==> p[k] == p[..|p| - 1][k];
      n
  }

  lemma SigUnique(p: seq<limb>, n: nat)
    requires n <= |p| && (forall k :: n <= k < |p| ==> p[k] == 0) && (n > 0 ==> p[n - 1] != 0)
    ensures n == Sig(p)
  {
  }

  /** A number with n significant limbs lies in [B^(n-1), B^n). */
  lemma SigBounds(p: seq<limb>)
    ensures Val(p) == Val(p[..Sig(p)]) < Pow(B, Sig(p))
    ensures Sig(p) > 0 ==> Pow(B, Sig(p) - 1) <= Val(p)
    ensures Sig(p) == 0 <==> Val(p) == 0
  {
    hide Pow;
    var n := Sig(p);
    ValZeroTail(p, n);
    ValBound(p[..n]);
    if n > 0 {
      ValPrefix(p, n - 1);
      MulMono(1, p[n - 1], Pow(B, n - 1));
    }
  }

  /** More significant limbs means a larger number. */
  lemma SigOrder(p: seq<limb>, q: seq<limb>)
    requires Sig(p) < Sig(q)
    ensures Val(p) < Val(q)
  {
    hide Pow;
    SigBounds(p);
    SigBounds(q);
    PowMono(B, Sig(p), Sig(q) - 1);
  }

  /** The first difference from the top decides. */
  lemma TopDecides(p: seq<limb>, q: seq<limb>, i: nat)
    requires i < |p| && i < |q| && p[i] < q[i]
    ensures Val(p[..i + 1]) < Val(q[..i + 1])
  {
    hide Pow;
    ValPrefix(p, i);
    ValPrefix(q, i);
    ValBound(p[..i]);
    var w := Pow(B, i);
    MulMono(p[i] + 1, q[i], w);
    MulDist(p[i], 1, w);
  }

  lemma {:induction false} EqualAbove(p: seq<limb>, q: seq<limb>, i: nat, n: nat)
    requires i <= n <= |p| && n <= |q| && forall k :: i <= k < n ==> p[k] == q[k]
    ensures Val(p[..n]) - Val(p[..i]) == Val(q[..n]) - Val(q[..i])
    decreases n
  {
    hide Pow;
    if i < n {
      EqualAbove(p, q, i, n - 1);
      ValPrefix(p, n - 1);
      ValPrefix(q, n - 1);
    }
  }
}
