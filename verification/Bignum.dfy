/** The mpi object of bignum.c and its storage, assignment and comparison routines. */
module Bignum {
  import opened Arith
  import opened Limbs

  /** The return codes of bignum.c that the model keeps. */
  datatype Status = Success | NegativeValue | DivisionByZero | BadInputData | NotAcceptable

  type Sign = x: int | x == 1 || x == -1 witness 1

  /** A signed number: sign s, and limbs p, least significant first.  The source's n is
      |p|, and its unallocated p is []. */
  class Mpi {
    var s: Sign
    var p: seq<limb>

    constructor ()
      ensures s == 1 && p == []
    {
      s, p := 1, [];
    }

    ghost function Abs(): nat
      reads this
    {
      Val(p)
    }

    ghost function Value(): int
      reads this
    {
      if s == 1 then Val(p) else 0 - Val(p)
    }
  }

  /** The loop that skips zero limbs from the top, used all over bignum.c. */
  method Significant(p: seq<limb>) returns (n: nat)
    ensures n == Sig(p)
  {
    n := |p|;
    while n > 0 && p[n - 1] == 0
      invariant n <= |p| && forall k :: n <= k < |p| ==> p[k] == 0
    {
      n := n - 1;
    }
    SigUnique(p, n);
  }

  /** mpi_grow: more limbs, same value. */
  method Grow(X: Mpi, n: nat)
    modifies X`p
    ensures X.p == old(X.p) + Zeros(Max(0, n - |old(X.p)|))
    ensures |X.p| == Max(n, |old(X.p)|) && X.Abs() == old(X.Abs())
  {
    if |X.p| < n {
      X.p := X.p + Zeros(n - |X.p|);
    } else {
      assert X.p == X.p + Zeros(0);
    }
    PaddingKeepsVal(old(X.p), X.p);
  }

  lemma PaddingKeepsVal(p: seq<limb>, q: seq<limb>)
    requires |p| <= |q| && q[..|p|] == p && forall k :: |p| <= k < |q| ==> q[k] == 0
    ensures Val(q) == Val(p)
  {
    ValZeroTail(q, |p|);
  }

  /** mpi_copy: X takes the value of Y; the limb count of X never shrinks, except that an
      unallocated Y empties X. */
  method Copy(X: Mpi, Y: Mpi)
    modifies X
    ensures X.Value() == old(Y.Value()) && X.Abs() == old(Y.Abs())
    ensures X == Y ==> X.p == old(X.p) && X.s == old(X.s)
    ensures X != Y && Y.p != [] ==> X.s == Y.s && |X.p| == Max(|old(X.p)|, Max(1, Sig(Y.p)))
  {
    if X == Y { return; }
    if Y.p == [] {
      X.s, X.p := 1, [];
      return;
    }
    var i := |Y.p| - 1;
    while i > 0 && Y.p[i] == 0
      invariant 0 <= i < |Y.p| && forall k :: i < k < |Y.p| ==> Y.p[k] == 0
    {
      i := i - 1;
    }
    i := i + 1;
    SigUnique(Y.p, if i == 1 && Y.p[0] == 0 then 0 else i);
    X.s := Y.s;
    Grow(X, i);
    X.p := Y.p[..i] + Zeros(|X.p| - i);
    PaddingKeepsVal(Y.p[..i], X.p);
    ValZeroTail(Y.p, i);
  }

  /** mpi_lset. */
  method Lset(X: Mpi, z: int)
    requires 0 - B < z < B
    modifies X
    ensures X.Value() == z && X.s == (if z < 0 then -1 else 1)
    ensures |X.p| == Max(1, |old(X.p)|)
    ensures X.p == [if z < 0 then -z else z] + Zeros(|X.p| - 1)
  {
    Grow(X, 1);
    X.p := Zeros(|X.p|);
    var m: limb := if z < 0 then -z else z;
    ValZeros(X.p);
    ValUpdate(X.p, 0, m);
    PowOne(B);
    X.p := X.p[0 := m];
    X.s := if z < 0 then -1 else 1;
  }

  lemma CompareBySig(p: seq<limb>, q: seq<limb>)
    ensures Sig(p) < Sig(q) ==> Val(p) < Val(q)
    ensures Sig(q) < Sig(p) ==> Val(q) < Val(p)
    ensures Val(p) == Val(p[..Sig(p)]) && Val(q) == Val(q[..Sig(q)])
    ensures (Sig(p) == 0 <==> Val(p) == 0) && (Sig(q) == 0 <==> Val(q) == 0)
  {
    SigBounds(p);
    SigBounds(q);
    if Sig(p) < Sig(q) { SigOrder(p, q); }
    if Sig(q) < Sig(p) { SigOrder(q, p); }
  }

  ghost function Compare(x: int, y: int): int {
    if x < y then -1 else if x > y then 1 else 0
  }

  /** mpi_cmp_abs. */
  method CmpAbs(X: Mpi, Y: Mpi) returns (r: int)
    ensures r == Compare(X.Abs(), Y.Abs())
  {
    var i := Significant(X.p);
    var j := Significant(Y.p);
    CompareBySig(X.p, Y.p);
    if i == 0 && j == 0 { return 0; }
    if i > j { return 1; }
    if j > i { return -1; }
    r := CmpLimbs(X.p, Y.p, i);
  }

  /** The limb-by-limb comparison that ends both mpi_cmp_abs and mpi_cmp_mpi. */
  method CmpLimbs(p: seq<limb>, q: seq<limb>, n: nat) returns (r: int)
    requires n <= |p| && n <= |q|
    ensures r == Compare(Val(p[..n]), Val(q[..n]))
  {
    var i := n;
    while i > 0
      invariant 0 <= i <= n
      invariant forall k :: i <= k < n ==> p[k] == q[k]
    {
      EqualAbove(p, q, i, n);
      if p[i - 1] > q[i - 1] { TopDecides(q, p, i - 1); return 1; }
      if p[i - 1] < q[i - 1] { TopDecides(p, q, i - 1); return -1; }
      i := i - 1;
    }
    EqualAbove(p, q, 0, n);
    return 0;
  }

  /** mpi_cmp_mpi. */
  method CmpMpi(X: Mpi, Y: Mpi) returns (r: int)
    ensures r == Compare(X.Value(), Y.Value())
  {
    var i := Significant(X.p);
    var j := Significant(Y.p);
    CompareBySig(X.p, Y.p);
    if i == 0 && j == 0 { return 0; }
    if i > j { return X.s; }
    if j > i { return 0 - Y.s; }
    if X.s > 0 && Y.s < 0 { return 1; }
    if Y.s > 0 && X.s < 0 { return -1; }
    r := CmpLimbs(X.p, Y.p, i);
    r := if r > 0 then X.s else if r < 0 then 0 - X.s else 0;
  }

  /** mpi_cmp_int. */
  method CmpInt(X: Mpi, z: int) returns (r: int)
    requires 0 - B < z < B
    ensures r == Compare(X.Value(), z)
  {
    var Y := new Mpi();
    Y.s := if z < 0 then -1 else 1;
    Y.p := [if z < 0 then -z else z];
    ValSingle(Y.p[0]);
    r := CmpMpi(X, Y);
  }
}
