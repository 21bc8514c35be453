/** Normalisation of Jacobian coordinates (ecp.c): one point by one inversion, and many points
    with a single inversion. */
module Normalise {
  import opened Arith
  import opened Primes
  import opened CurveEquation
  import opened Jacobian

  /** X', Y' are the affine coordinates of the point with Jacobian coordinates X, Y, Z. */
  ghost predicate Normalised(p: int, X: int, Y: int, Z: int, X': int, Y': int)
    requires p > 0
  {
    Residue(X', p) && Residue(Y', p) && Cong(M(X', M(Z, Z)), X, p) && Cong(M(Y', M(M(Z, Z), Z)), Y, p)
  }

  /** mpi_inv_mod on a residue: the inverse, or an error when there is none. */
  method InverseMod(c: Curve, z: int) returns (ok: bool, r: int)
    requires ValidCurve(c) && Residue(z, c.P)
    ensures ok == (z != 0)
    ensures ok ==> Residue(r, c.P) && Cong(M(z, r), 1, c.P)
  {
    hide Cong, Prime;
    if z == 0 { return false, 0; }
    InverseResidue(c.P, z);
    var e :| 0 <= e < c.P && (z * e) % c.P == 1 % c.P;
    CongIntro(z * e, 1, c.P);
    return true, e;
  }

  lemma InverseResidue(p: int, z: int)
    requires p > 0 && Prime(p) && 0 < z < p
    ensures exists e :: 0 <= e < p && (z * e) % p == 1 % p
  {
    hide Cong, Prime;
    var e := InverseModPrime(p, z);
    CongMod(e, p);
    CongScale(e % p, e, z, p);
    assert (e % p) * z == z * (e % p) && e * z == z * e;
    CongTrans(z * (e % p), z * e, 1, p);
    DivMod(e, p);
    CongElim(z * (e % p), 1, p);
  }

  lemma CongElim(x: int, y: int, p: int)
    requires p > 0 && Cong(x, y, p)
    ensures x % p == y % p
  {
  }

  lemma CongIntro(x: int, y: int, p: int)
    requires p > 0 && x % p == y % p
    ensures Cong(x, y, p)
  {
  }

  /** The multiplications by Zi = 1/Z and its powers that both functions end with. */
  method ScaleCoordinates(c: Curve, pt: EcpPoint, Zi: int, ghost Z: int)
    requires ValidCurve(c) && Residue(pt.X, c.P) && Residue(pt.Y, c.P) && Residue(Zi, c.P)
    requires Cong(M(Z, Zi), 1, c.P)
    modifies pt`X, pt`Y
    ensures Normalised(c.P, old(pt.X), old(pt.Y), Z, pt.X, pt.Y)
  {
    hide Cong, M, ValidCurve, Residue;
    CurveFacts(c);
    ghost var X, Y := pt.X, pt.Y;
    CongRefl(X, c.P);
    CongRefl(Y, c.P);
    CongRefl(Zi, c.P);
    var ZZi := ModMul(c, Zi, Zi, Zi, Zi);
    pt.X := ModMul(c, pt.X, ZZi, X, M(Zi, Zi));
    pt.Y := ModMul(c, pt.Y, ZZi, Y, M(Zi, Zi));
    pt.Y := ModMul(c, pt.Y, Zi, M(Y, M(Zi, Zi)), Zi);
    UndoScaling(c.P, X, Y, Z, Zi, pt.X, pt.Y);
  }

  lemma UndoScaling(p: int, X: int, Y: int, Z: int, Zi: int, X': int, Y': int)
    requires p > 0 && Cong(M(Z, Zi), 1, p)
    requires Cong(X', M(X, M(Zi, Zi)), p) && Cong(Y', M(M(Y, M(Zi, Zi)), Zi), p)
    ensures Cong(M(X', M(Z, Z)), X, p) && Cong(M(Y', M(M(Z, Z), Z)), Y, p)
  {
    hide Cong, M;
    var z2, z3, q := M(Z, Z), M(M(Z, Z), Z), M(Z, Zi);
    CongRefl(z2, p);
    CongRefl(z3, p);
    CongRefl(X, p);
    CongRefl(Y, p);
    CongProduct(p, X', z2, M(X, M(Zi, Zi)), z2);
    CongProduct(p, Y', z3, M(M(Y, M(Zi, Zi)), Zi), z3);
    CongProduct(p, q, q, 1, 1);
    CongProduct(p, M(q, q), q, M(1, 1), 1);
    CongProduct(p, X, M(q, q), X, M(1, 1));
    CongProduct(p, Y, M(M(q, q), q), Y, M(M(1, 1), 1));
    ScalingIdentities(X, Y, Z, Zi);
    CongTrans(M(X', z2), M(M(X, M(Zi, Zi)), z2), X, p);
    CongTrans(M(Y', z3), M(M(M(Y, M(Zi, Zi)), Zi), z3), Y, p);
  }

  lemma ScalingIdentities(X: int, Y: int, Z: int, Zi: int)
    ensures M(M(X, M(Zi, Zi)), M(Z, Z)) == M(X, M(M(Z, Zi), M(Z, Zi)))
    ensures M(M(M(Y, M(Zi, Zi)), Zi), M(M(Z, Z), Z)) == M(Y, M(M(M(Z, Zi), M(Z, Zi)), M(Z, Zi)))
    ensures M(X, M(1, 1)) == X && M(Y, M(M(1, 1), 1)) == Y
  {
    assert (Z * Zi) * (Z * Zi) == (Zi * Zi) * (Z * Z);
    assert ((Zi * Zi) * (Z * Z)) * (Z * Zi) == ((Zi * Zi) * Zi) * ((Z * Z) * Z) by { Regroup(Zi * Zi, Z * Z, Zi, Z); }
    MulAssoc(X, Zi * Zi, Z * Z);
    MulAssoc(Y, Zi * Zi, Zi);
    MulAssoc(Y, (Zi * Zi) * Zi, (Z * Z) * Z);
  }

  /** ecp_normalize_jac.  Z stays 0 for infinity. */
  method NormalizeJac(c: Curve, pt: EcpPoint)
    requires ValidCurve(c) && pt.Valid(c.P) && pt.zSet
    modifies pt
    ensures pt.Valid(c.P) && pt.zSet
    ensures old(pt.Z) == 0 ==> pt.X == old(pt.X) && pt.Y == old(pt.Y) && pt.Z == 0
    ensures old(pt.Z) != 0 ==> pt.Z == 1 && Normalised(c.P, old(pt.X), old(pt.Y), old(pt.Z), pt.X, pt.Y)
  {
    hide Cong, M, Prime;
    if pt.Z == 0 { return; }
    var ok, Zi := InverseMod(c, pt.Z);
    ScaleCoordinates(c, pt, Zi, pt.Z);
    pt.Z := 1;
  }

  // ---- Many points ------------------------------------------------------------------------

  /** Coordinates, as read off a point. */
  datatype Triple = Triple(X: int, Y: int, Z: int)

  ghost function Read(pt: EcpPoint): Triple
    reads pt
  {
    Triple(pt.X, pt.Y, pt.Z)
  }

  ghost function ReadAll(T: seq<EcpPoint>): (t: seq<Triple>)
    reads set pt | pt in T
    ensures |t| == |T| && forall i :: 0 <= i < |T| ==> t[i] == Read(T[i])
  {
    if T == [] then [] else ReadAll(T[..|T| - 1]) + [Read(T[|T| - 1])]
  }

  ghost function ZProduct(t: seq<Triple>, n: nat): int
    requires n <= |t|
  {
    if n == 0 then 1 else M(ZProduct(t, n - 1), t[n - 1].Z)
  }

  predicate DistinctPoints(T: seq<EcpPoint>) {
    forall x, y :: 0 <= x < y < |T| ==> T[x] != T[y]
  }

  ghost predicate AllValid(c: Curve, T: seq<EcpPoint>, t: seq<Triple>)
    reads set pt | pt in T
  {
    |t| == |T| && forall i :: 0 <= i < |T| ==> T[i].Valid(c.P) && T[i].zSet && Read(T[i]) == t[i]
  }

  /** The first loop: products[i] = Z_0 * ... * Z_i. */
  method PrefixProducts(c: Curve, T: seq<EcpPoint>, ghost t: seq<Triple>) returns (products: seq<int>)
    requires ValidCurve(c) && |T| > 0 && AllValid(c, T, t)
    ensures |products| == |T|
    ensures forall i :: 0 <= i < |T| ==> Residue(products[i], c.P) && Cong(products[i], ZProduct(t, i + 1), c.P)
  {
    hide Cong, M, Prime, Residue;
    CurveFacts(c);
    products := [T[0].Z];
    CongRefl(t[0].Z, c.P);
    OneTimes(t[0].Z);
    assert ZProduct(t, 1) == M(ZProduct(t, 0), t[0].Z);
    var i := 1;
    while i < |T|
      invariant 1 <= i <= |T| && |products| == i
      invariant forall k :: 0 <= k < i ==> Residue(products[k], c.P) && Cong(products[k], ZProduct(t, k + 1), c.P)
    {
      assert T[i].Valid(c.P) && Read(T[i]) == t[i];
      CongRefl(t[i].Z, c.P);
      var x := ModMul(c, products[i - 1], T[i].Z, ZProduct(t, i), t[i].Z);
      products := products + [x];
      i := i + 1;
    }
  }

  lemma OneTimes(x: int)
    ensures M(1, x) == x && M(x, 1) == x
  {
  }

  /** u is the inverse of the product of the first n denominators. */
  ghost predicate InverseOfFirst(c: Curve, t: seq<Triple>, n: nat, u: int)
    requires n <= |t| && c.P > 0
  {
    Residue(u, c.P) && Cong(M(ZProduct(t, n), u), 1, c.P)
  }

  /** One step of the backward loop: 1/Z_i, and the inverse of the shorter product. */
  method PeelInverse(c: Curve, Z: int, i: nat, products: seq<int>, u: int, ghost t: seq<Triple>)
      returns (Zi: int, u': int)
    requires ValidCurve(c) && i < |t| == |products| && Residue(Z, c.P) && Z == t[i].Z
    requires forall k :: 0 <= k < |t| ==> Residue(products[k], c.P) && Cong(products[k], ZProduct(t, k + 1), c.P)
    requires InverseOfFirst(c, t, i + 1, u)
    ensures Residue(Zi, c.P) && Cong(M(Z, Zi), 1, c.P)
    ensures i > 0 ==> InverseOfFirst(c, t, i, u')
  {
    hide Cong, M, Prime, Residue, ZProduct;
    CurveFacts(c);
    CongRefl(u, c.P);
    CongRefl(Z, c.P);
    LastFactor(t, i);
    if i == 0 {
      OneTimes(Z);
      return u, u;
    }
    Zi := ModMul(c, u, products[i - 1], u, ZProduct(t, i));
    u' := ModMul(c, u, Z, u, Z);
    PeelAlgebra(c.P, ZProduct(t, i), Z, u, Zi, u');
  }

  lemma LastFactor(t: seq<Triple>, i: nat)
    requires i < |t|
    ensures ZProduct(t, i + 1) == M(ZProduct(t, i), t[i].Z) && ZProduct(t, 0) == 1
  {
    hide M;
  }

  lemma PeelAlgebra(p: int, q: int, Z: int, u: int, Zi: int, u': int)
    requires p > 0 && Cong(M(M(q, Z), u), 1, p) && Cong(Zi, M(u, q), p) && Cong(u', M(u, Z), p)
    ensures Cong(M(Z, Zi), 1, p) && Cong(M(q, u'), 1, p)
  {
    hide Cong;
    CongRefl(Z, p);
    CongRefl(q, p);
    CongProduct(p, Z, Zi, Z, M(u, q));
    CongProduct(p, q, u', q, M(u, Z));
    assert Z * (u * q) == (q * Z) * u && q * (u * Z) == (q * Z) * u by { Reorder(q, Z, u); }
    CongTrans(M(Z, Zi), M(Z, M(u, q)), 1, p);
    CongTrans(M(q, u'), M(q, M(u, Z)), 1, p);
  }

  lemma Reorder(q: int, z: int, u: int)
    ensures z * (u * q) == (q * z) * u && q * (u * z) == (q * z) * u
  {
  }

  /** The points from i on are normalised, the others untouched. */
  ghost predicate HalfDone(c: Curve, T: seq<EcpPoint>, t: seq<Triple>, i: nat)
    requires c.P > 0
    reads set pt | pt in T
  {
    && |t| == |T|
    && (forall k :: 0 <= k < i && k < |T| ==> T[k].Valid(c.P) && T[k].zSet && Read(T[k]) == t[k])
    && (forall k :: i <= k < |T| ==> Normalised(c.P, t[k].X, t[k].Y, t[k].Z, T[k].X, T[k].Y) && T[k].ZValue() == 1)
  }

  /** The body of the backward loop on point i, whose Z is freed at the end. */
  method NormalisePoint(c: Curve, T: seq<EcpPoint>, i: nat, Zi: int, ghost t: seq<Triple>)
    requires ValidCurve(c) && i < |T| && DistinctPoints(T) && HalfDone(c, T, t, i + 1)
    requires Residue(Zi, c.P) && Cong(M(t[i].Z, Zi), 1, c.P)
    modifies T[i]
    ensures HalfDone(c, T, t, i)
  {
    hide Cong, M, Prime, Normalised;
    ScaleCoordinates(c, T[i], Zi, t[i].Z);
    T[i].zSet := false;
  }

  /** ecp_normalize_jac_many: every point gets the affine coordinates that normalising it alone
      gives it; if some Z is zero, there is an error and nothing changes. */
  method NormalizeJacMany(c: Curve, T: seq<EcpPoint>) returns (ok: bool)
    requires ValidCurve(c) && |T| >= 2 && DistinctPoints(T)
    requires forall i :: 0 <= i < |T| ==> T[i].Valid(c.P) && T[i].zSet
    modifies set pt | pt in T
    ensures ok == forall i :: 0 <= i < |T| ==> old(T[i].Z) != 0
    ensures ok ==> forall i :: 0 <= i < |T| ==>
              Normalised(c.P, old(T[i].X), old(T[i].Y), old(T[i].Z), T[i].X, T[i].Y) && T[i].ZValue() == 1
    ensures !ok ==> forall i :: 0 <= i < |T| ==> unchanged(T[i])
  {
    hide Cong, M, Prime, Residue, ZProduct, Normalised;
    ghost var t := ReadAll(T);
    assert AllValid(c, T, t);
    var n := |T|;
    var products := PrefixProducts(c, T, t);
    ProductNonzero(c, t, n);
    ZeroTest(products[n - 1], ZProduct(t, n), c.P);
    var u;
    ok, u := InverseMod(c, products[n - 1]);
    if !ok { return; }
    InverseMoves(c.P, products[n - 1], ZProduct(t, n), u);
    assert HalfDone(c, T, t, n);
    var i := n;
    while i > 0
      invariant 0 <= i <= n && HalfDone(c, T, t, i)
      invariant i > 0 ==> InverseOfFirst(c, t, i, u)
    {
      i := i - 1;
      var Zi;
      Zi, u := PeelInverse(c, T[i].Z, i, products, u, t);
      NormalisePoint(c, T, i, Zi, t);
    }
  }

  lemma InverseMoves(p: int, x: int, y: int, u: int)
    requires p > 0 && Cong(M(x, u), 1, p) && Cong(x, y, p)
    ensures Cong(M(y, u), 1, p)
  {
    hide Cong, M;
    CongRefl(u, p);
    Symmetric(x, y, p);
    CongProduct(p, y, u, x, u);
    CongTrans(M(y, u), M(x, u), 1, p);
  }

  /** The product of denominators is zero modulo P exactly when one of them is. */
  lemma {:induction false} ProductNonzero(c: Curve, t: seq<Triple>, n: nat)
    requires ValidCurve(c) && n <= |t| && forall i :: 0 <= i < |t| ==> Residue(t[i].Z, c.P)
    ensures Cong(ZProduct(t, n), 0, c.P) <==> exists i :: 0 <= i < n && t[i].Z == 0
  {
    hide Cong, M, Prime, Residue;
    if n == 0 {
      OneNonzero(c);
    } else {
      ProductNonzero(c, t, n - 1);
      ZeroProduct(c.P, ZProduct(t, n - 1), t[n - 1].Z);
      CongRefl(t[n - 1].Z, c.P);
      ZeroTest(t[n - 1].Z, t[n - 1].Z, c.P);
    }
  }

  lemma OneNonzero(c: Curve)
    requires ValidCurve(c)
    ensures !Cong(1, 0, c.P)
  {
    DivUnique(1, 0, 1, c.P);
    DivUnique(0, 0, 0, c.P);
  }

  /** Affine coordinates are unique: both functions give a point the same ones. */
  lemma NormalisedUnique(c: Curve, X: int, Y: int, Z: int, x: int, y: int, x': int, y': int)
    requires ValidCurve(c) && !Cong(Z, 0, c.P)
    requires Normalised(c.P, X, Y, Z, x, y) && Normalised(c.P, X, Y, Z, x', y')
    ensures x == x' && y == y'
  {
    hide Cong, M, Prime;
    var p := c.P;
    ZeroProduct(p, Z, Z);
    ZeroProduct(p, M(Z, Z), Z);
    CancelFactor(c, x, x', M(Z, Z), X);
    CancelFactor(c, y, y', M(M(Z, Z), Z), Y);
  }

  lemma CancelFactor(c: Curve, x: int, x': int, w: int, v: int)
    requires ValidCurve(c) && !Cong(w, 0, c.P) && Residue(x, c.P) && Residue(x', c.P)
    requires Cong(M(x, w), v, c.P) && Cong(M(x', w), v, c.P)
    ensures x == x'
  {
    hide Cong, Prime;
    var p := c.P;
    CongSub(M(x, w), v, M(x', w), v, p);
    MulDist(x, x', w);
    ZeroProduct(p, x - x', w);
    SmallDifference(x, x', p);
  }

  lemma SmallDifference(x: int, y: int, p: int)
    requires Residue(x, p) && Residue(y, p) && p > 0 && Cong(x - y, 0, p)
    ensures x == y
  {
    var k := CongWitness(x - y, 0, p);
    if k > 0 { MulMono(1, k, p); }
    if k < 0 { MulMono(k, -1, p); }
  }

  /** A normalised point still stands for the same affine point. */
  lemma NormalisedStands(c: Curve, X: int, Y: int, Z: int, x: int, y: int, a: Affine)
    requires ValidCurve(c) && a.At? && Stands(c.P, X, Y, Z, a) && Normalised(c.P, X, Y, Z, x, y)
    ensures Stands(c.P, x, y, 1, a) && x == a.x % c.P && y == a.y % c.P
  {
    hide Cong, M, Prime;
    var p := c.P;
    PowersOfZ(a.x, a.y, Z);
    AffineResidue(c, X, M(Z, Z), a.x);
    AffineResidue(c, Y, M(M(Z, Z), Z), a.y);
    NormalisedUnique(c, X, Y, Z, x, y, a.x % p, a.y % p);
    OneNonzero(c);
    CongMod(a.x, p);
    CongMod(a.y, p);
  }

  lemma AffineResidue(c: Curve, X: int, w: int, x: int)
    requires ValidCurve(c) && Cong(X, M(x, w), c.P)
    ensures Residue(x % c.P, c.P) && Cong(M(x % c.P, w), X, c.P)
  {
    hide Cong, Prime;
    CongMod(x, c.P);
    CongScale(x % c.P, x, w, c.P);
    Symmetric(X, M(x, w), c.P);
    CongTrans(M(x % c.P, w), M(x, w), X, c.P);
  }
}
