/** Point doubling and mixed addition in Jacobian coordinates (ecp.c), against the tangent and
    chord laws.  Coordinates and temporaries are the values of the source's mpi variables. */
module Jacobian {
  import opened Arith
  import opened CurveEquation
  import opened Primes
  import opened Ecp

  // ---- The field --------------------------------------------------------------------------

  datatype Coefficient = MinusThree | General(a: nat)

  /** The parts of ecp_group that the formulas use: grp->A.p == NULL stands for A = -3. */
  datatype Curve = Curve(P: nat, A: Coefficient)

  ghost predicate ValidCurve(c: Curve) {
    c.P > 3 && Prime(c.P) && c.P % 2 == 1 && (c.A.General? ==> c.A.a < c.P)
  }

  ghost function ACoeff(c: Curve): int {
    if c.A.MinusThree? then -3 else c.A.a
  }

  ghost predicate Residue(x: int, p: int) {
    0 <= x < p
  }

  /** mpi_mul_mpi and MOD_MUL, on residues: the product is below P^2, so that the guard of ecp_modp
      does not fire.  e and f are what u and v are congruent to. */
  method ModMul(c: Curve, u: int, v: int, ghost e: int, ghost f: int) returns (r: int)
    requires c.P > 0 && Residue(u, c.P) && Residue(v, c.P) && Cong(u, e, c.P) && Cong(v, f, c.P)
    ensures Residue(r, c.P) && Cong(r, M(e, f), c.P)
  {
    hide Cong;
    ProductOfResidues(u, v, c.P);
    var n := u * v;
    assert 0 <= n < c.P * c.P;
    r := n % c.P;
    CongMod(n, c.P);
    CongMul(u, e, v, f, c.P);
    CongTrans(r, n, e * f, c.P);
  }

  /** MOD_SUB */
  method ModSub(c: Curve, n: int, ghost e: int) returns (r: int)
    requires c.P > 0 && n < c.P && Cong(n, e, c.P)
    ensures Residue(r, c.P) && Cong(r, e, c.P)
  {
    hide Cong;
    r := n;
    while r < 0
      invariant r < c.P && Cong(r, e, c.P)
      decreases 0 - r
    {
      CongNext(r, e, c.P);
      r := r + c.P;
    }
  }

  /** MOD_ADD */
  method ModAdd(c: Curve, n: int, ghost e: int) returns (r: int)
    requires c.P > 0 && n >= 0 && Cong(n, e, c.P)
    ensures Residue(r, c.P) && Cong(r, e, c.P)
  {
    hide Cong;
    r := n;
    while r >= c.P
      invariant r >= 0 && Cong(r, e, c.P)
    {
      CongNext(r - c.P, e, c.P);
      r := r - c.P;
    }
  }

  /** mpi_add_mpi and MOD_ADD */
  method AddMod(c: Curve, u: int, v: int, ghost e: int, ghost f: int) returns (r: int)
    requires c.P > 0 && Residue(u, c.P) && Residue(v, c.P) && Cong(u, e, c.P) && Cong(v, f, c.P)
    ensures Residue(r, c.P) && Cong(r, e + f, c.P)
  {
    CongAdd(u, e, v, f, c.P);
    r := ModAdd(c, u + v, e + f);
  }

  /** mpi_sub_mpi and MOD_SUB */
  method SubMod(c: Curve, u: int, v: int, ghost e: int, ghost f: int) returns (r: int)
    requires c.P > 0 && Residue(u, c.P) && Residue(v, c.P) && Cong(u, e, c.P) && Cong(v, f, c.P)
    ensures Residue(r, c.P) && Cong(r, e - f, c.P)
  {
    CongSub(u, e, v, f, c.P);
    r := ModSub(c, u - v, e - f);
  }

  /** mpi_mul_int and MOD_ADD */
  method ScaleMod(c: Curve, u: int, k: nat, ghost e: int) returns (r: int)
    requires c.P > 0 && Residue(u, c.P) && Cong(u, e, c.P)
    ensures Residue(r, c.P) && Cong(r, k * e, c.P)
  {
    hide Cong;
    CongScale(u, e, k, c.P);
    MulNonneg(u, k);
    assert e * k == k * e;
    r := ModAdd(c, u * k, k * e);
  }

  lemma CongNext(r: int, n: int, p: int)
    requires p > 0
    ensures Cong(r, n, p) <==> Cong(r + p, n, p)
  {
    ModMultiple(r, 1, p);
  }

  lemma ProductOfResidues(x: int, y: int, p: int)
    requires Residue(x, p) && Residue(y, p)
    ensures 0 <= x * y < p * p
  {
    MulNonneg(x, y);
    MulMono(x, p, y);
    MulStrict(y, p, p);
    assert p * y == y * p;
  }

  lemma CongRefl(x: int, p: int)
    requires p > 0
    ensures Cong(x, x, p)
  {
  }

  lemma CongTrans(x: int, y: int, z: int, p: int)
    requires p > 0 && Cong(x, y, p) && Cong(y, z, p)
    ensures Cong(x, z, p)
  {
  }

  // ---- Points -----------------------------------------------------------------------------

  /** A point of the curve: infinity, or a pair of coordinates, taken modulo P. */
  datatype Affine = Infinity | At(x: int, y: int)

  /** The Jacobian coordinates X, Y, Z stand for the point a. */
  ghost predicate Stands(p: int, X: int, Y: int, Z: int, a: Affine)
    requires p > 0
  {
    match a
    case Infinity => Cong(Z, 0, p)
    case At(x, y) => !Cong(Z, 0, p) && Cong(X, x * (Z * Z), p) && Cong(Y, y * (Z * Z * Z), p)
  }

  /** ecp_point.  zSet is Z.p != NULL: table entries leave Z unset, which means 1. */
  class EcpPoint {
    var X: int
    var Y: int
    var Z: int
    var zSet: bool

    constructor (X: int, Y: int, Z: int)
      ensures this.X == X && this.Y == Y && this.Z == Z && zSet
    {
      this.X, this.Y, this.Z, zSet := X, Y, Z, true;
    }

    /** All coordinates are residues. */
    ghost predicate Valid(p: int)
      reads this
    {
      Residue(X, p) && Residue(Y, p) && Residue(Z, p)
    }

    ghost function ZValue(): int
      reads this
    {
      if zSet then Z else 1
    }

    ghost predicate Is(p: int, a: Affine)
      requires p > 0
      reads this
    {
      Stands(p, X, Y, ZValue(), a)
    }
  }

  /** l is the slope of the tangent at (x, y). */
  ghost predicate TangentSlope(c: Curve, x: int, y: int, l: int)
    requires c.P > 0
  {
    Cong(2 * y * l, 3 * (x * x) + ACoeff(c), c.P)
  }

  /** l is the slope of the chord through (x1, y1) and (x2, y2). */
  ghost predicate ChordSlope(c: Curve, x1: int, y1: int, x2: int, y2: int, l: int)
    requires c.P > 0
  {
    Cong(l * (x2 - x1), y2 - y1, c.P)
  }

  /** Third point of a line of slope l through (x1, y1) and a point over x2, mirrored. */
  function Third(x1: int, y1: int, x2: int, l: int): (r: Affine)
    ensures r.At?
  {
    var x3 := l * l - x1 - x2;
    At(x3, l * (x1 - x3) - y1)
  }

  // ---- Doubling ---------------------------------------------------------------------------

  // The doubling's coordinates as polynomials in X, Y, Z.

  ghost function TermS(X: int, Y: int): int { 4 * M(X, M(Y, Y)) }

  ghost function TermM(X: int, Z: int, a: int): int { 3 * M(X, X) + M(a, M(M(Z, Z), M(Z, Z))) }

  ghost function YYYY(Y: int): int { M(M(Y, Y), M(Y, Y)) }

  ghost function DoubleX(X: int, Y: int, Z: int, a: int): int {
    M(TermM(X, Z, a), TermM(X, Z, a)) - TermS(X, Y) - TermS(X, Y)
  }

  ghost function DoubleY(X: int, Y: int, Z: int, a: int): int {
    M(TermM(X, Z, a), TermS(X, Y) - DoubleX(X, Y, Z, a)) - 8 * YYYY(Y)
  }

  ghost function DoubleZ(Y: int, Z: int): int { 2 * M(Y, Z) }

  /** The first half of ecp_double_jac: the terms usually called S, Y^2, M, Y^4 and Z^2. */
  method DoubleTerms(c: Curve, X: int, Y: int, Z: int) returns (T1: int, T2: int, T3: int, Y3: int, Z3: int)
    requires ValidCurve(c) && Residue(X, c.P) && Residue(Y, c.P) && Residue(Z, c.P)
    ensures Residue(T1, c.P) && Residue(T2, c.P) && Residue(T3, c.P) && Residue(Y3, c.P) && Residue(Z3, c.P)
    ensures Cong(T1, TermS(X, Y), c.P) && Cong(T2, M(Y, Y), c.P) && Cong(T3, TermM(X, Z, ACoeff(c)), c.P)
    ensures Cong(Y3, YYYY(Y), c.P) && Cong(Z3, M(Z, Z), c.P)
  {
    hide *;
    CurveFacts(c);
    CongRefl(X, c.P);
    CongRefl(Y, c.P);
    CongRefl(Z, c.P);
    ghost var yy, sum := M(Y, Y), X + M(Y, Y);
    var X3;
    T3 := ModMul(c, X, X, X, X);
    T2 := ModMul(c, Y, Y, Y, Y);
    Y3 := ModMul(c, T2, T2, yy, yy);
    X3 := AddMod(c, X, T2, X, yy);
    X3 := ModMul(c, X3, X3, sum, sum);
    X3 := SubMod(c, X3, Y3, M(sum, sum), M(yy, yy));
    X3 := SubMod(c, X3, T3, M(sum, sum) - M(yy, yy), M(X, X));
    T1 := ScaleMod(c, X3, 2, M(sum, sum) - M(yy, yy) - M(X, X));
    Z3 := ModMul(c, Z, Z, Z, Z);
    X3 := ModMul(c, Z3, Z3, M(Z, Z), M(Z, Z));
    T3 := ScaleMod(c, T3, 3, M(X, X));
    X3 := TimesA(c, X3, M(M(Z, Z), M(Z, Z)));
    T3 := AddMod(c, T3, X3, 3 * M(X, X), M(ACoeff(c), M(M(Z, Z), M(Z, Z))));
    DoubleIdentities(X, Y, Z, ACoeff(c));
  }

  lemma CurveFacts(c: Curve)
    requires ValidCurve(c)
    ensures c.P > 3 && c.P % 2 == 1 && Prime(c.P)
  {
  }

  /** X3 times A: three times negated, or a product.  Both branches end with MOD_MUL. */
  method TimesA(c: Curve, n: int, ghost e: int) returns (r: int)
    requires ValidCurve(c) && Residue(n, c.P) && Cong(n, e, c.P)
    ensures Residue(r, c.P) && Cong(r, M(ACoeff(c), e), c.P)
  {
    hide Cong, Prime;
    CongRefl(1, c.P);
    if c.A.MinusThree? {
      r := n * 3;
      r := 0 - r;
      CongScale(n, e, -3, c.P);
      r := ModSub(c, r, e * -3);
      r := ModMul(c, r, 1, e * -3, 1);
    } else {
      CongRefl(c.A.a, c.P);
      r := ModMul(c, n, c.A.a, e, c.A.a);
    }
  }

  lemma DoubleIdentities(X: int, Y: int, Z: int, a: int)
    ensures var yy := M(Y, Y);
      2 * (M(X + yy, X + yy) - M(yy, yy) - M(X, X)) == TermS(X, Y) && M(yy, yy) == YYYY(Y)
    ensures 3 * M(X, X) + M(a, M(M(Z, Z), M(Z, Z))) == TermM(X, Z, a)
  {
    BinomialSquare(X, M(Y, Y));
  }

  lemma BinomialSquare(x: int, y: int)
    ensures M(x + y, x + y) - M(y, y) - M(x, x) == 2 * M(x, y)
    ensures M(x + y, x + y) - M(x, x) - M(y, y) == 2 * M(x, y)
  {
    assert (x + y) * (x + y) == x * x + 2 * (x * y) + y * y;
  }

  /** Doubling stays on the curve: A is -3, or the coefficient itself. */
  lemma DoubleStays(c: Curve, b: int, X: int, Y: int, Z: int, X': int, Y': int, Z': int)
    requires c.P > 0 && OnCurve(c.P, if c.A.MinusThree? then -3 else c.A.a, b, X, Y, Z)
    requires Cong(X', DoubleX(X, Y, Z, ACoeff(c)), c.P) && Cong(Y', DoubleY(X, Y, Z, ACoeff(c)), c.P)
    requires Cong(Z', DoubleZ(Y, Z), c.P)
    ensures OnCurve(c.P, if c.A.MinusThree? then -3 else c.A.a, b, X', Y', Z')
  {
    hide M, Cong, OnCurve;
    var a := ACoeff(c);
    DoubleOnCurve(c.P, a, b, X, Y, Z);
    OnCurveCong(c.P, a, b, DoubleX(X, Y, Z, a), DoubleY(X, Y, Z, a), DoubleZ(Y, Z), X', Y', Z');
  }

  lemma DoubleOnAll(c: Curve, X: int, Y: int, Z: int, X': int, Y': int, Z': int)
    requires c.P > 0
    requires Cong(X', DoubleX(X, Y, Z, ACoeff(c)), c.P) && Cong(Y', DoubleY(X, Y, Z, ACoeff(c)), c.P)
    requires Cong(Z', DoubleZ(Y, Z), c.P)
    ensures var a := if c.A.MinusThree? then -3 else c.A.a;
      forall b :: OnCurve(c.P, a, b, X, Y, Z) ==> OnCurve(c.P, a, b, X', Y', Z')
  {
    hide M, Cong, OnCurve, DoubleX, DoubleY, DoubleZ;
    var a := if c.A.MinusThree? then -3 else c.A.a;
    forall b | OnCurve(c.P, a, b, X, Y, Z) ensures OnCurve(c.P, a, b, X', Y', Z') {
      DoubleStays(c, b, X, Y, Z, X', Y', Z');
    }
  }

  /** Being on the curve depends on the coordinates only modulo P. */
  lemma OnCurveCong(p: int, a: int, b: int, X: int, Y: int, Z: int, X': int, Y': int, Z': int)
    requires p > 0 && OnCurve(p, a, b, X, Y, Z) && Cong(X', X, p) && Cong(Y', Y, p) && Cong(Z', Z, p)
    ensures OnCurve(p, a, b, X', Y', Z')
  {
    hide M, Cong, OnCurve;
    CongRefl(a, p);
    CongRefl(b, p);
    CongProduct(p, X', X', X, X);
    CongProduct(p, M(X', X'), X', M(X, X), X);
    CongProduct(p, Y', Y', Y, Y);
    CongProduct(p, Z', Z', Z, Z);
    CongProduct(p, M(Z', Z'), M(Z', Z'), M(Z, Z), M(Z, Z));
    CongProduct(p, Fourth(Z'), M(Z', Z'), Fourth(Z), M(Z, Z));
    CongProduct(p, a, Fourth(Z'), a, Fourth(Z));
    CongProduct(p, M(a, Fourth(Z')), X', M(a, Fourth(Z)), X);
    CongProduct(p, b, Sixth(Z'), b, Sixth(Z));
    CongSub(M(Y', Y'), M(Y, Y), Cube(X'), Cube(X), p);
    CongSub(M(Y', Y') - Cube(X'), M(Y, Y) - Cube(X), M(M(a, Fourth(Z')), X'), M(M(a, Fourth(Z)), X), p);
    OnCurveIs(p, a, b, X, Y, Z);
    OnCurveIs(p, a, b, X', Y', Z');
    var e, f := M(b, Sixth(Z)), Left(M(a, Fourth(Z)), X, M(Y, Y));
    var e', f' := M(b, Sixth(Z')), Left(M(a, Fourth(Z')), X', M(Y', Y'));
    CongTrans(e', e, f, p);
    Symmetric(f', f, p);
    CongTrans(e', f, f', p);
  }

  /** ecp_double_jac.  R may be P: the coordinates of R are written last. */
  method DoubleJac(c: Curve, R: EcpPoint, P: EcpPoint)
    requires ValidCurve(c) && P.Valid(c.P) && P.zSet
    modifies R
    ensures R.Valid(c.P) && R.zSet
    ensures Cong(R.X, DoubleX(old(P.X), old(P.Y), old(P.Z), ACoeff(c)), c.P)
    ensures Cong(R.Y, DoubleY(old(P.X), old(P.Y), old(P.Z), ACoeff(c)), c.P)
    ensures Cong(R.Z, DoubleZ(old(P.Y), old(P.Z)), c.P)
    ensures var a := if c.A.MinusThree? then -3 else c.A.a;
      forall b :: OnCurve(c.P, a, b, old(P.X), old(P.Y), old(P.Z)) ==> OnCurve(c.P, a, b, R.X, R.Y, R.Z)
  {
    hide M, Cong, TermS, TermM, YYYY, ValidCurve, Residue, OnCurve;
    CurveFacts(c);
    CongRefl(P.Y, c.P);
    CongRefl(P.Z, c.P);
    ghost var X, Y, Z, a := P.X, P.Y, P.Z, ACoeff(c);
    ghost var s, m, x3 := TermS(X, Y), TermM(X, Z, a), DoubleX(X, Y, Z, a);
    var T1, T2, T3, Y3, Z3 := DoubleTerms(c, P.X, P.Y, P.Z);
    var X3 := ModMul(c, T3, T3, m, m);
    X3 := SubMod(c, X3, T1, M(m, m), s);
    X3 := SubMod(c, X3, T1, M(m, m) - s, s);
    T1 := SubMod(c, T1, X3, s, x3);
    T1 := ModMul(c, T3, T1, m, s - x3);
    T3 := ScaleMod(c, Y3, 8, YYYY(Y));
    Y3 := SubMod(c, T1, T3, M(m, s - x3), 8 * YYYY(Y));
    T1 := AddMod(c, P.Y, P.Z, Y, Z);
    T1 := ModMul(c, T1, T1, Y + Z, Y + Z);
    T1 := SubMod(c, T1, T2, M(Y + Z, Y + Z), M(Y, Y));
    Z3 := SubMod(c, T1, Z3, M(Y + Z, Y + Z) - M(Y, Y), M(Z, Z));
    BinomialSquare(Y, Z);
    DoubleOnAll(c, X, Y, Z, X3, Y3, Z3);
    R.X := X3;
    R.Y := Y3;
    R.Z := Z3;
    R.zSet := true;
  }

  // ---- The tangent law --------------------------------------------------------------------

  lemma CongProduct(p: int, u: int, v: int, e: int, f: int)
    requires p > 0 && Cong(u, e, p) && Cong(v, f, p)
    ensures Cong(M(u, v), M(e, f), p)
  {
    CongMul(u, e, v, f, p);
  }

  /** If Z3 is congruent to W, and X3, Y3 to multiples of its square and cube. */
  lemma StandsBy(p: int, X3: int, Y3: int, Z3: int, x: int, y: int, W: int)
    requires p > 0 && Cong(Z3, W, p) && !Cong(W, 0, p)
    requires Cong(X3, M(x, M(W, W)), p) && Cong(Y3, M(y, M(M(W, W), W)), p)
    ensures Stands(p, X3, Y3, Z3, At(x, y))
  {
    CongRefl(x, p);
    CongRefl(y, p);
    Symmetric(Z3, W, p);
    CongProduct(p, W, W, Z3, Z3);
    CongProduct(p, M(W, W), W, M(Z3, Z3), Z3);
    CongProduct(p, x, M(W, W), x, M(Z3, Z3));
    CongProduct(p, y, M(M(W, W), W), y, M(M(Z3, Z3), Z3));
    CongTrans(X3, M(x, M(W, W)), M(x, M(Z3, Z3)), p);
    CongTrans(Y3, M(y, M(M(W, W), W)), M(y, M(M(Z3, Z3), Z3)), p);
  }

  lemma Symmetric(x: int, y: int, p: int)
    requires p > 0 && Cong(x, y, p)
    ensures Cong(y, x, p)
  {
  }

  /** The doubled point's denominator, in terms of y and of u = Z^2. */
  ghost function DoubleW(y: int, u: int): int { 2 * M(y, M(u, u)) }

  lemma DoubleDenominator(p: int, X: int, Y: int, Z: int, x: int, y: int)
    requires p > 0 && Cong(Y, M(y, M(M(Z, Z), Z)), p)
    ensures Cong(DoubleZ(Y, Z), DoubleW(y, M(Z, Z)), p)
  {
    CongRefl(Z, p);
    var u := M(Z, Z);
    CongProduct(p, Y, Z, M(y, M(u, Z)), Z);
    assert (y * (u * Z)) * Z == y * (u * (Z * Z));
    CongScale(M(Y, Z), M(y, M(u, u)), 2, p);
  }

  lemma DoubleSTerm(p: int, X: int, Y: int, Z: int, x: int, y: int)
    requires p > 0 && Cong(X, M(x, M(Z, Z)), p) && Cong(Y, M(y, M(M(Z, Z), Z)), p)
    ensures var W := DoubleW(y, M(Z, Z)); Cong(TermS(X, Y), M(x, M(W, W)), p)
  {
    hide Cong;
    var u := M(Z, Z);
    var e := M(y, M(u, Z));
    CongProduct(p, Y, Y, e, e);
    CongProduct(p, X, M(Y, Y), M(x, u), M(e, e));
    CongScale(M(X, M(Y, Y)), M(M(x, u), M(e, e)), 4, p);
    SIdentity(x, y, u, Z);
  }

  lemma SIdentity(x: int, y: int, u: int, z: int)
    requires u == M(z, z)
    ensures var e, W := M(y, M(u, z)), DoubleW(y, u); 4 * M(M(x, u), M(e, e)) == M(x, M(W, W))
  {
    var q := u * u;
    assert (y * (u * z)) * (y * (u * z)) == (y * y) * (q * u)
        by { assert (u * z) * (u * z) == q * u; SquareProduct(y, u * z); }
    assert (2 * (y * q)) * (2 * (y * q)) == 4 * ((y * y) * (q * q)) by { SquareProduct(y, q); }
    assert (x * u) * ((y * y) * (q * u)) == x * ((y * y) * (q * q));
  }

  lemma SquareProduct(a: int, b: int)
    ensures (a * b) * (a * b) == (a * a) * (b * b)
  {
  }

  lemma DoubleMTerm(c: Curve, X: int, Z: int, x: int, y: int, l: int)
    requires c.P > 0 && Cong(X, M(x, M(Z, Z)), c.P) && TangentSlope(c, x, y, l)
    ensures Cong(TermM(X, Z, ACoeff(c)), M(l, DoubleW(y, M(Z, Z))), c.P)
  {
    hide Cong;
    var p, u, a := c.P, M(Z, Z), ACoeff(c);
    CongProduct(p, X, X, M(x, u), M(x, u));
    SquareProduct(x, u);
    CongScale(M(X, X), M(M(x, x), M(u, u)), 3, p);
    CongRefl(M(a, M(u, u)), p);
    CongAdd(3 * M(X, X), 3 * M(M(x, x), M(u, u)), M(a, M(u, u)), M(a, M(u, u)), p);
    Symmetric(2 * y * l, 3 * (x * x) + a, p);
    CongScale(3 * (x * x) + a, 2 * y * l, M(u, u), p);
    MulDist(3 * (x * x), a, M(u, u));
    assert 3 * M(M(x, x), M(u, u)) == (3 * (x * x)) * M(u, u);
    assert (2 * y * l) * M(u, u) == M(l, DoubleW(y, u)) by { SlopeIdentity(l, y, M(u, u)); }
    CongTrans(TermM(X, Z, a), (3 * (x * x) + a) * M(u, u), (2 * y * l) * M(u, u), p);
  }

  lemma SlopeIdentity(l: int, y: int, q: int)
    ensures (2 * y * l) * q == M(l, 2 * M(y, q))
  {
    assert (y * l) * q == l * (y * q);
  }

  lemma DoubleYTerm(p: int, Y: int, Z: int, y: int)
    requires p > 0 && Cong(Y, M(y, M(M(Z, Z), Z)), p)
    ensures var W := DoubleW(y, M(Z, Z)); Cong(8 * YYYY(Y), M(y, M(M(W, W), W)), p)
  {
    hide Cong;
    var u := M(Z, Z);
    var e := M(y, M(u, Z));
    CongProduct(p, Y, Y, e, e);
    CongProduct(p, M(Y, Y), M(Y, Y), M(e, e), M(e, e));
    CongScale(YYYY(Y), M(M(e, e), M(e, e)), 8, p);
    YIdentity(y, u, Z);
  }

  lemma YIdentity(y: int, u: int, z: int)
    requires u == M(z, z)
    ensures var e, W := M(y, M(u, z)), DoubleW(y, u); 8 * M(M(e, e), M(e, e)) == M(y, M(M(W, W), W))
  {
    var q, v := u * u, y * y;
    assert (y * (u * z)) * (y * (u * z)) == v * (q * u)
        by { assert (u * z) * (u * z) == q * u; SquareProduct(y, u * z); }
    SquareProduct(v, q * u);
    SquareProduct(q, u);
    assert (2 * (y * q)) * (2 * (y * q)) == 4 * (v * (q * q)) by { SquareProduct(y, q); }
    assert (v * (q * q)) * (y * q) == (v * y) * (q * q * q);
    assert y * ((v * y) * (q * q * q)) == (v * v) * (q * q * q);
    assert (q * q) * (u * u) == q * q * q;
  }

  /** The tangent law: doubling (x, y) with y nonzero gives the third point of the tangent,
      mirrored; with y zero it gives infinity. */
  lemma DoublingLaw(c: Curve, X: int, Y: int, Z: int, x: int, y: int, l: int)
    requires ValidCurve(c) && Stands(c.P, X, Y, Z, At(x, y))
    ensures Cong(y, 0, c.P) ==> Stands(c.P, DoubleX(X, Y, Z, ACoeff(c)), DoubleY(X, Y, Z, ACoeff(c)), DoubleZ(Y, Z),
        Infinity)
    ensures !Cong(y, 0, c.P) && TangentSlope(c, x, y, l) ==>
      Stands(c.P, DoubleX(X, Y, Z, ACoeff(c)), DoubleY(X, Y, Z, ACoeff(c)), DoubleZ(Y, Z), Third(x, y, x, l))
  {
    hide Cong, TermS, TermM, YYYY, TangentSlope, DoubleZ, Prime;
    var p, a, W := c.P, ACoeff(c), DoubleW(y, M(Z, Z));
    assert x * (Z * Z) == M(x, M(Z, Z)) && y * (Z * Z * Z) == M(y, M(M(Z, Z), Z));
    DoubleDenominator(p, X, Y, Z, x, y);
    DenominatorZero(c, y, Z);
    if Cong(y, 0, p) {
      CongTrans(DoubleZ(Y, Z), W, 0, p);
    } else if TangentSlope(c, x, y, l) {
      DoubleSTerm(p, X, Y, Z, x, y);
      DoubleMTerm(c, X, Z, x, y, l);
      DoubleYTerm(p, Y, Z, y);
      LineX(p, TermM(X, Z, a), TermS(X, Y), TermS(X, Y), l, x, x, W);
      LineY(p, TermM(X, Z, a), TermS(X, Y), DoubleX(X, Y, Z, a), 8 * YYYY(Y), l, x, l * l - x - x, y, W);
      StandsBy(p, DoubleX(X, Y, Z, a), DoubleY(X, Y, Z, a), DoubleZ(Y, Z), l * l - x - x,
          l * (x - (l * l - x - x)) - y, W);
    }
  }

  /** W vanishes exactly when y does: P is an odd prime and Z is invertible. */
  lemma DenominatorZero(c: Curve, y: int, Z: int)
    requires ValidCurve(c) && !Cong(Z, 0, c.P)
    ensures Cong(DoubleW(y, M(Z, Z)), 0, c.P) <==> Cong(y, 0, c.P)
  {
    hide Cong, Prime, M;
    var p, u := c.P, M(Z, Z);
    ZeroProduct(p, Z, Z);
    ZeroProduct(p, u, u);
    ZeroProduct(p, y, M(u, u));
    ZeroProduct(p, 2, M(y, M(u, u)));
    TwoNonzero(p);
    assert M(2, M(y, M(u, u))) == 2 * M(y, M(u, u)) by { Unfold(2, M(y, M(u, u))); }
  }

  lemma Unfold(x: int, y: int)
    ensures M(x, y) == x * y
  {
  }

  lemma TwoNonzero(p: int)
    requires p > 3
    ensures !Cong(2, 0, p)
  {
    DivUnique(2, 0, 2, p);
    DivUnique(0, 0, 0, p);
  }

  /** A product is zero modulo a prime exactly when a factor is. */
  lemma ZeroProduct(p: int, x: int, y: int)
    requires p > 0 && Prime(p)
    ensures Cong(M(x, y), 0, p) <==> Cong(x, 0, p) || Cong(y, 0, p)
  {
    hide Prime, Cong;
    CongRefl(x, p);
    CongRefl(y, p);
    if Cong(x, 0, p) {
      CongProduct(p, x, y, 0, y);
    } else if Cong(y, 0, p) {
      CongProduct(p, x, y, x, 0);
    } else if Cong(M(x, y), 0, p) {
      NonzeroResidue(x, p);
      var e := InverseModPrime(p, x % p);
      CongMod(x, p);
      CongRefl(e, p);
      CongMul(x % p, x, e, e, p);
      Symmetric((x % p) * e, x * e, p);
      CongTrans(x * e, (x % p) * e, 1, p);
      CongScale(x * e, 1, y, p);
      CongScale(M(x, y), 0, e, p);
      assert M(x, y) * e == (x * e) * y by { MulSwap(x, y, e); }
      Symmetric((x * e) * y, 1 * y, p);
      CongTrans(y, (x * e) * y, 0 * e, p);
    }
  }

  lemma NonzeroResidue(x: int, p: int)
    requires p > 0 && !Cong(x, 0, p)
    ensures 0 < x % p < p
  {
    DivMod(x, p);
    DivUnique(0, 0, 0, p);
  }

  /** Coordinates are on the curve exactly when the point that they stand for is. */
  lemma StandsOnCurve(p: int, a: int, b: int, X: int, Y: int, Z: int, x: int, y: int)
    requires p > 0 && Prime(p) && Stands(p, X, Y, Z, At(x, y))
    ensures OnCurve(p, a, b, X, Y, Z) <==> Cong(y * y, x * x * x + a * x + b, p)
  {
    hide M, Cong, OnCurve, Prime, Sixth, Fourth;
    var g, k := M(M(Z, Z), x), M(M(M(Z, Z), Z), y);
    LiftTerms(a, b, Z, x, y);
    OnCurveIs(p, a, b, g, k, Z);
    NormalForm(p, a, b, x, y, Z, X, Y, g, k);
    Symmetric(X, g, p);
    Symmetric(Y, k, p);
    CongRefl(Z, p);
    if OnCurve(p, a, b, X, Y, Z) { OnCurveCong(p, a, b, X, Y, Z, g, k, Z); }
    if OnCurve(p, a, b, g, k, Z) { OnCurveCong(p, a, b, g, k, Z, X, Y, Z); }
    SixthNonzero(p, Z);
    CancelFactor(p, b, Left(a, x, M(y, y)), Sixth(Z));
    AffineEquation(p, a, b, x, y);
  }

  lemma NormalForm(p: int, a: int, b: int, x: int, y: int, Z: int, X: int, Y: int, g: int, k: int)
    requires p > 0 && Stands(p, X, Y, Z, At(x, y)) && g == M(M(Z, Z), x) && k == M(M(M(Z, Z), Z), y)
    ensures Cong(X, g, p) && Cong(Y, k, p) && !Cong(Z, 0, p)
  {
    assert g == x * (Z * Z) && k == y * (Z * Z * Z);
  }

  lemma SixthNonzero(p: int, Z: int)
    requires p > 0 && Prime(p) && !Cong(Z, 0, p)
    ensures !Cong(Sixth(Z), 0, p)
  {
    hide M, Cong, Prime;
    ZeroProduct(p, Z, Z);
    ZeroProduct(p, M(Z, Z), M(Z, Z));
    ZeroProduct(p, Fourth(Z), M(Z, Z));
  }

  lemma CancelFactor(p: int, x: int, y: int, f: int)
    requires p > 0 && Prime(p) && !Cong(f, 0, p)
    ensures Cong(x * f, y * f, p) <==> Cong(x, y, p)
  {
    hide Cong, Prime, M;
    if Cong(x, y, p) {
      CongScale(x, y, f, p);
    } else if Cong(x * f, y * f, p) {
      CongRefl(y, p);
      CongRefl(y * f, p);
      CongSub(x * f, y * f, y * f, y * f, p);
      assert M(x - y, f) == x * f - y * f by { Unfold(x - y, f); }
      ZeroProduct(p, x - y, f);
      CongAdd(x - y, 0, y, y, p);
    }
  }

  lemma AffineEquation(p: int, a: int, b: int, x: int, y: int)
    requires p > 0
    ensures Cong(b, Left(a, x, M(y, y)), p) <==> Cong(y * y, x * x * x + a * x + b, p)
  {
    OnCurveIs(p, a, b, x, y, 1);
    Ones(a, b);
    assert 1 * 1 == 1;
  }

  /** The x coordinate of a line's third point, over W^2. */
  lemma LineX(p: int, m: int, s1: int, s2: int, l: int, x1: int, x2: int, W: int)
    requires p > 0 && Cong(m, M(l, W), p) && Cong(s1, M(x1, M(W, W)), p) && Cong(s2, M(x2, M(W, W)), p)
    ensures Cong(M(m, m) - s1 - s2, M(l * l - x1 - x2, M(W, W)), p)
  {
    hide Cong;
    CongProduct(p, m, m, M(l, W), M(l, W));
    SquareProduct(l, W);
    CongSub(M(m, m), (l * l) * M(W, W), s1, M(x1, M(W, W)), p);
    CongSub(M(m, m) - s1, (l * l) * M(W, W) - M(x1, M(W, W)), s2, M(x2, M(W, W)), p);
    MulDist(l * l, x1, M(W, W));
    MulDist(l * l - x1, x2, M(W, W));
  }

  /** And its y coordinate, mirrored, over W^3. */
  lemma LineY(p: int, m: int, s: int, x3: int, y4: int, l: int, x: int, xr: int, y: int, W: int)
    requires p > 0 && Cong(m, M(l, W), p) && Cong(s, M(x, M(W, W)), p) && Cong(x3, M(xr, M(W, W)), p)
    requires Cong(y4, M(y, M(M(W, W), W)), p)
    ensures Cong(M(m, s - x3) - y4, M(l * (x - xr) - y, M(M(W, W), W)), p)
  {
    hide Cong;
    var w2 := M(W, W);
    CongSub(s, M(x, w2), x3, M(xr, w2), p);
    MulDist(x, xr, w2);
    CongProduct(p, m, s - x3, M(l, W), M(x - xr, w2));
    assert M(M(l, W), M(x - xr, w2)) == M(l * (x - xr), M(w2, W)) by { Regroup(l, W, x - xr, w2); }
    CongSub(M(m, s - x3), M(l * (x - xr), M(w2, W)), y4, M(y, M(w2, W)), p);
    MulDist(l * (x - xr), y, M(w2, W));
  }

  lemma Regroup(a: int, b: int, c: int, d: int)
    ensures (a * b) * (c * d) == (a * c) * (d * b)
  {
  }

  // ---- Mixed addition ---------------------------------------------------------------------

  // The sum's coordinates as polynomials: h and r are Z^2 x2 - X and Z^3 y2 - Y.

  ghost function DiffX(X: int, Z: int, x2: int): int { M(M(Z, Z), x2) - X }

  ghost function DiffY(Y: int, Z: int, y2: int): int { M(M(M(Z, Z), Z), y2) - Y }

  ghost function SumX(X: int, h: int, r: int): int { M(r, r) - 2 * M(M(h, h), X) - M(M(h, h), h) }

  ghost function SumY(X: int, Y: int, h: int, r: int): int {
    M(M(M(h, h), X) - SumX(X, h, r), r) - M(M(M(h, h), h), Y)
  }

  ghost function SumZ(Z: int, h: int): int { M(Z, h) }

  /** The differences T1 and T2, on which the special cases turn. */
  method Differences(c: Curve, X: int, Y: int, Z: int, x2: int, y2: int) returns (T1: int, T2: int)
    requires ValidCurve(c) && Residue(X, c.P) && Residue(Y, c.P) && Residue(Z, c.P)
    requires Residue(x2, c.P) && Residue(y2, c.P)
    ensures Residue(T1, c.P) && Cong(T1, DiffX(X, Z, x2), c.P)
    ensures Residue(T2, c.P) && Cong(T2, DiffY(Y, Z, y2), c.P)
  {
    hide M, Cong, ValidCurve, Residue;
    CurveFacts(c);
    CongRefl(X, c.P);
    CongRefl(Y, c.P);
    CongRefl(Z, c.P);
    CongRefl(x2, c.P);
    CongRefl(y2, c.P);
    T1 := ModMul(c, Z, Z, Z, Z);
    T2 := ModMul(c, T1, Z, M(Z, Z), Z);
    T1 := ModMul(c, T1, x2, M(Z, Z), x2);
    T2 := ModMul(c, T2, y2, M(M(Z, Z), Z), y2);
    T1 := SubMod(c, T1, X, M(M(Z, Z), x2), X);
    T2 := SubMod(c, T2, Y, M(M(M(Z, Z), Z), y2), Y);
  }

  /** The general case, from the differences on: X and Z, and two terms for Y. */
  method SumXTerms(c: Curve, X0: int, Z0: int, t1: int, T2: int, ghost h: int, ghost r: int)
    returns (X: int, Z: int, T3: int, T4: int)
    requires ValidCurve(c) && Residue(X0, c.P) && Residue(Z0, c.P)
    requires Residue(t1, c.P) && Cong(t1, h, c.P) && Residue(T2, c.P) && Cong(T2, r, c.P)
    ensures Residue(X, c.P) && Residue(Z, c.P) && Residue(T3, c.P) && Residue(T4, c.P)
    ensures Cong(X, M(r, r) - 2 * M(M(h, h), X0) - M(M(h, h), h), c.P) && Cong(Z, M(Z0, h), c.P)
    ensures Cong(T3, M(M(h, h), X0), c.P) && Cong(T4, M(M(h, h), h), c.P)
  {
    hide *;
    CurveFacts(c);
    CongRefl(X0, c.P);
    CongRefl(Z0, c.P);
    var T1 := t1;
    Z := ModMul(c, Z0, T1, Z0, h);
    T3 := ModMul(c, T1, T1, h, h);
    T4 := ModMul(c, T3, T1, M(h, h), h);
    T3 := ModMul(c, T3, X0, M(h, h), X0);
    T1 := ScaleMod(c, T3, 2, M(M(h, h), X0));
    X := ModMul(c, T2, T2, r, r);
    X := SubMod(c, X, T1, M(r, r), 2 * M(M(h, h), X0));
    X := SubMod(c, X, T4, M(r, r) - 2 * M(M(h, h), X0), M(M(h, h), h));
  }

  /** The general case. */
  method SumTerms(c: Curve, X0: int, Y0: int, Z0: int, t1: int, T2: int, ghost h: int, ghost r: int)
    returns (X: int, Y: int, Z: int)
    requires ValidCurve(c) && Residue(X0, c.P) && Residue(Y0, c.P) && Residue(Z0, c.P)
    requires Residue(t1, c.P) && Cong(t1, h, c.P) && Residue(T2, c.P) && Cong(T2, r, c.P)
    ensures Residue(X, c.P) && Residue(Y, c.P) && Residue(Z, c.P)
    ensures Cong(X, SumX(X0, h, r), c.P) && Cong(Y, SumY(X0, Y0, h, r), c.P) && Cong(Z, SumZ(Z0, h), c.P)
  {
    hide *;
    CurveFacts(c);
    CongRefl(Y0, c.P);
    SumShape(X0, Y0, Z0, h, r);
    ghost var x, s, t := SumX(X0, h, r), M(M(h, h), X0), M(M(h, h), h);
    var T3, T4;
    X, Z, T3, T4 := SumXTerms(c, X0, Z0, t1, T2, h, r);
    T3 := SubMod(c, T3, X, s, x);
    T3 := ModMul(c, T3, T2, s - x, r);
    T4 := ModMul(c, T4, Y0, t, Y0);
    Y := SubMod(c, T3, T4, M(s - x, r), M(t, Y0));
  }

  lemma SumShape(X: int, Y: int, Z: int, h: int, r: int)
    ensures SumX(X, h, r) == M(r, r) - 2 * M(M(h, h), X) - M(M(h, h), h)
    ensures SumY(X, Y, h, r) == M(M(M(h, h), X) - SumX(X, h, r), r) - M(M(M(h, h), h), Y)
    ensures SumZ(Z, h) == M(Z, h)
  {
  }

  /** ecp_copy */
  method CopyPoint(R: EcpPoint, Q: EcpPoint)
    modifies R
    ensures R.X == old(Q.X) && R.Y == old(Q.Y) && R.Z == old(Q.Z) && R.zSet == old(Q.zSet)
  {
    R.X, R.Y, R.Z, R.zSet := Q.X, Q.Y, Q.Z, Q.zSet;
  }

  /** The coordinates of a point are congruent to these. */
  ghost predicate HasCoordinates(R: EcpPoint, p: int, X: int, Y: int, Z: int)
    requires p > 0
    reads R
  {
    R.Valid(p) && R.zSet && Cong(R.X, X, p) && Cong(R.Y, Y, p) && Cong(R.Z, Z, p)
  }

  /** ecp_add_mixed.  R may be P or Q. */
  method AddMixed(c: Curve, R: EcpPoint, P: EcpPoint, Q: EcpPoint) returns (code: Code)
    requires ValidCurve(c) && P.Valid(c.P) && P.zSet && Q.Valid(c.P)
    modifies R
    ensures code == Ok ==> R.Valid(c.P)
    ensures code == if old(P.Z) != 0 && old(Q.zSet) && old(Q.Z) != 0 && old(Q.Z) != 1 then BadInput else Ok
    ensures code == BadInput ==> unchanged(R)
    ensures old(P.Z) == 0 ==> R.X == old(Q.X) && R.Y == old(Q.Y) && R.Z == old(Q.Z) && R.zSet == old(Q.zSet)
    ensures old(P.Z) != 0 && old(Q.zSet) && old(Q.Z) == 0 ==>
              R.X == old(P.X) && R.Y == old(P.Y) && R.Z == old(P.Z) && R.zSet
    ensures old(P.Z) != 0 && old(Q.ZValue()) == 1 ==>
      var X, Y, Z, a := old(P.X), old(P.Y), old(P.Z), ACoeff(c);
      var h, r := DiffX(X, Z, old(Q.X)), DiffY(Y, Z, old(Q.Y));
      if !Cong(h, 0, c.P) then HasCoordinates(R, c.P, SumX(X, h, r), SumY(X, Y, h, r), SumZ(Z, h))
      else if Cong(r, 0, c.P) then HasCoordinates(R, c.P, DoubleX(X, Y, Z, a), DoubleY(X, Y, Z, a), DoubleZ(Y, Z))
      else R.Z == 0 && R.zSet
    ensures var a := if c.A.MinusThree? then -3 else c.A.a;
      forall b ::
        OnCurve(c.P, a, b, old(P.X), old(P.Y), old(P.Z)) && OnCurve(c.P, a, b, old(Q.X), old(Q.Y), old(Q.ZValue()))
        ==> OnCurve(c.P, a, b, R.X, R.Y, R.ZValue()) || code != Ok
  {
    hide OnCurve, M, Cong, ValidCurve, Residue, DiffX, DiffY, SumX, SumY, SumZ, DoubleX, DoubleY, DoubleZ;
    CurveFacts(c);
    SmallResidues(c);
    if P.Z == 0 {
      CopyPoint(R, Q);
      return Ok;
    }
    if Q.zSet && Q.Z == 0 {
      CopyPoint(R, P);
      return Ok;
    }
    if Q.zSet && Q.Z != 1 { return BadInput; }
    ghost var h, r := DiffX(P.X, P.Z, Q.X), DiffY(P.Y, P.Z, Q.Y);
    var T1, T2 := Differences(c, P.X, P.Y, P.Z, Q.X, Q.Y);
    ZeroTest(T1, h, c.P);
    ZeroTest(T2, r, c.P);
    if T1 == 0 {
      if T2 == 0 {
        DoubleJac(c, R, P);
      } else {
        InfinityOnCurve(c);
        R.X, R.Y, R.Z, R.zSet := 1, 1, 0, true;
      }
      return Ok;
    }
    var X, Y, Z := SumTerms(c, P.X, P.Y, P.Z, T1, T2, h, r);
    SumOnAll(c, P.X, P.Y, P.Z, Q.X, Q.Y, X, Y, Z);
    R.X := X;
    R.Y := Y;
    R.Z := Z;
    R.zSet := true;
    code := Ok;
  }

  lemma InfinityOnCurve(c: Curve)
    requires c.P > 0
    ensures forall a, b :: OnCurve(c.P, a, b, 1, 1, 0)
  {
  }

  /** The general case of addition stays on the curve. */
  lemma SumOnAll(c: Curve, X: int, Y: int, Z: int, x2: int, y2: int, X': int, Y': int, Z': int)
    requires c.P > 0
    requires var h, r := DiffX(X, Z, x2), DiffY(Y, Z, y2);
      Cong(X', SumX(X, h, r), c.P) && Cong(Y', SumY(X, Y, h, r), c.P) && Cong(Z', SumZ(Z, h), c.P)
    ensures forall a, b ::
              OnCurve(c.P, a, b, X, Y, Z) && OnCurve(c.P, a, b, x2, y2, 1) ==> OnCurve(c.P, a, b, X', Y', Z')
  {
    hide M, Cong, OnCurve;
    var h, r := DiffX(X, Z, x2), DiffY(Y, Z, y2);
    forall a, b | OnCurve(c.P, a, b, X, Y, Z) && OnCurve(c.P, a, b, x2, y2, 1)
      ensures OnCurve(c.P, a, b, X', Y', Z')
    {
      SumOnCurve(c.P, a, b, X, Y, Z, x2, y2, h, r);
      OnCurveCong(c.P, a, b, SumX(X, h, r), SumY(X, Y, h, r), SumZ(Z, h), X', Y', Z');
    }
  }

  lemma SmallResidues(c: Curve)
    requires ValidCurve(c)
    ensures Residue(0, c.P) && Residue(1, c.P)
  {
  }

  /** A residue is zero exactly when what it is congruent to is zero. */
  lemma ZeroTest(t: int, h: int, p: int)
    requires p > 0 && Residue(t, p) && Cong(t, h, p)
    ensures t == 0 <==> Cong(h, 0, p)
  {
    DivUnique(t, 0, t, p);
    DivUnique(0, 0, 0, p);
  }

  // ---- The chord law ----------------------------------------------------------------------

  /** The differences in terms of the affine coordinates, with u = Z^2. */
  lemma DifferenceTerms(p: int, X: int, Y: int, Z: int, x1: int, y1: int, x2: int, y2: int)
    requires p > 0 && Cong(X, M(x1, M(Z, Z)), p) && Cong(Y, M(y1, M(M(Z, Z), Z)), p)
    ensures Cong(DiffX(X, Z, x2), M(M(Z, Z), x2 - x1), p)
    ensures Cong(DiffY(Y, Z, y2), M(M(M(Z, Z), Z), y2 - y1), p)
  {
    hide Cong;
    var u, v := M(Z, Z), M(M(Z, Z), Z);
    CongRefl(M(u, x2), p);
    CongSub(M(u, x2), M(u, x2), X, M(x1, u), p);
    CongRefl(M(v, y2), p);
    CongSub(M(v, y2), M(v, y2), Y, M(y1, v), p);
    Distribute(u, x2, x1);
    Distribute(v, y2, y1);
  }

  lemma Distribute(u: int, a: int, b: int)
    ensures M(u, a) - M(b, u) == M(u, a - b)
  {
  }

  /** h and r against the denominator W = Z h and the slope. */
  lemma ChordTerms(p: int, X: int, Y: int, Z: int, h: int, r: int, x1: int, y1: int, d: int, e: int, l: int)
    requires p > 0 && Cong(X, M(x1, M(Z, Z)), p) && Cong(Y, M(y1, M(M(Z, Z), Z)), p)
    requires Cong(h, M(M(Z, Z), d), p) && Cong(r, M(M(M(Z, Z), Z), e), p) && Cong(l * d, e, p)
    ensures var W := M(Z, M(M(Z, Z), d));
      && Cong(SumZ(Z, h), W, p) && Cong(r, M(l, W), p)
      && Cong(M(M(h, h), X), M(x1, M(W, W)), p) && Cong(M(M(h, h), h), M(d, M(W, W)), p)
      && Cong(M(M(M(h, h), h), Y), M(y1, M(M(W, W), W)), p)
  {
    hide Cong, M;
    var u := M(Z, Z);
    var v, g := M(u, Z), M(u, d);
    var W := M(Z, g);
    CongRefl(Z, p);
    CongRefl(v, p);
    CongProduct(p, Z, h, Z, g);
    assert SumZ(Z, h) == M(Z, h);
    Symmetric(l * d, e, p);
    CongProduct(p, v, e, v, l * d);
    CongTrans(r, M(v, e), M(v, l * d), p);
    CongProduct(p, h, h, g, g);
    CongProduct(p, M(h, h), X, M(g, g), M(x1, u));
    CongProduct(p, M(h, h), h, M(g, g), g);
    CongProduct(p, M(M(h, h), h), Y, M(M(g, g), g), M(y1, v));
    ChordIdentities(Z, u, d, l, x1, y1);
  }

  lemma ChordIdentities(z: int, u: int, d: int, l: int, x: int, y: int)
    requires u == M(z, z)
    ensures var g := M(u, d); var W := M(z, g);
      && M(M(u, z), l * d) == M(l, W) && M(M(g, g), M(x, u)) == M(x, M(W, W)) && M(M(g, g), g) == M(d, M(W, W))
      && M(M(M(g, g), g), M(y, M(u, z))) == M(y, M(M(W, W), W))
  {
    var g := u * d;
    var W := z * g;
    assert W * W == (g * g) * u by { SquareProduct(z, g); }
    assert (g * g) * g == d * ((g * g) * u);
    assert (u * z) * (l * d) == l * (z * (u * d));
    assert (g * g) * (x * u) == x * ((g * g) * u);
    LastIdentity(g, y, u, z);
  }

  lemma LastIdentity(g: int, y: int, u: int, z: int)
    ensures ((g * g) * g) * (y * (u * z)) == y * (((g * g) * u) * (z * g))
  {
    assert ((g * g) * g) * (u * z) == ((g * g) * u) * (z * g) by { Regroup(g * g, g, u, z); }
    MulAssoc((g * g) * g, y, u * z);
  }

  /** The chord law: the sum of points with different x is the third point of the chord,
      mirrored. */
  lemma ChordLaw(c: Curve, X: int, Y: int, Z: int, x1: int, y1: int, x2: int, y2: int, l: int)
    requires ValidCurve(c) && Stands(c.P, X, Y, Z, At(x1, y1))
    requires !Cong(DiffX(X, Z, x2), 0, c.P) && ChordSlope(c, x1, y1, x2, y2, l)
    ensures var h, r := DiffX(X, Z, x2), DiffY(Y, Z, y2);
      Stands(c.P, SumX(X, h, r), SumY(X, Y, h, r), SumZ(Z, h), Third(x1, y1, x2, l))
  {
    hide Cong, DiffX, DiffY, SumX, SumY, SumZ, M, Prime;
    var p, h, r := c.P, DiffX(X, Z, x2), DiffY(Y, Z, y2);
    PowersOfZ(x1, y1, Z);
    var d, e := x2 - x1, y2 - y1;
    var W := M(Z, M(M(Z, Z), d));
    DifferenceTerms(p, X, Y, Z, x1, y1, x2, y2);
    ChordTerms(p, X, Y, Z, h, r, x1, y1, d, e, l);
    SumShape(X, Y, Z, h, r);
    ZeroProduct(p, Z, h);
    if Cong(W, 0, p) { CongTrans(SumZ(Z, h), W, 0, p); }
    var s, t := M(M(h, h), X), M(M(h, h), h);
    CongAdd(s, M(x1, M(W, W)), t, M(d, M(W, W)), p);
    SumOfMultiples(x1, d, M(W, W));
    LineX(p, r, s, s + t, l, x1, x2, W);
    var xr := l * l - x1 - x2;
    LineY(p, r, s, SumX(X, h, r), M(t, Y), l, x1, xr, y1, W);
    Commute(r, s - SumX(X, h, r));
    StandsBy(p, SumX(X, h, r), SumY(X, Y, h, r), SumZ(Z, h), xr, l * (x1 - xr) - y1, W);
  }

  lemma PowersOfZ(x: int, y: int, Z: int)
    ensures x * (Z * Z) == M(x, M(Z, Z)) && y * (Z * Z * Z) == M(y, M(M(Z, Z), Z))
  {
  }

  lemma SumOfMultiples(a: int, b: int, w: int)
    ensures M(a, w) + M(b, w) == M(a + b, w)
  {
  }

  lemma Commute(a: int, b: int)
    ensures M(a, b) == M(b, a)
  {
  }

  // ---- The group law ----------------------------------------------------------------------

  /** r is the sum of a and b by the chord and tangent construction. */
  ghost predicate IsSum(c: Curve, a: Affine, b: Affine, r: Affine)
    requires c.P > 0
  {
    if a.Infinity? then r == b
    else if b.Infinity? then r == a
    else if !Cong(b.x - a.x, 0, c.P) then
      exists l :: ChordSlope(c, a.x, a.y, b.x, b.y, l) && r == Third(a.x, a.y, b.x, l)
    else if !Cong(b.y - a.y, 0, c.P) || Cong(a.y, 0, c.P) then r == Infinity
    else exists l :: TangentSlope(c, a.x, a.y, l) && r == Third(a.x, a.y, a.x, l)
  }

  /** A mirrored third point of the line through (x1, y1) with the slope l = e / d: what its coordinates
      satisfy, without the slope. */
  lemma ThirdExplicit(p: int, x1: int, y1: int, x2: int, l: int, d: int, e: int)
    requires p > 0 && Cong(l * d, e, p)
    ensures var r := Third(x1, y1, x2, l);
      && Cong((r.x + x1 + x2) * (d * d), e * e, p)
      && Cong((r.y + y1) * d, e * (x1 - r.x), p)
  {
    hide Cong;
    var r := Third(x1, y1, x2, l);
    CongMul(l * d, e, l * d, e, p);
    SquareProduct(l, d);
    assert r.x + x1 + x2 == l * l && r.y + y1 == l * (x1 - r.x);
    CongScale(l * d, e, x1 - r.x, p);
    MulSwap(l, x1 - r.x, d);
  }

  lemma SlopeOfTangent(c: Curve, x: int, y: int, l: int)
    requires c.P > 0 && TangentSlope(c, x, y, l)
    ensures Cong(l * (2 * y), 3 * (x * x) + ACoeff(c), c.P)
  {
    assert 2 * y * l == l * (2 * y);
  }

  /** The sum of two points of the plane, written out.  The line through them, or the tangent of the
      curve, meets the point that mirrors the sum. */
  lemma SumExplicit(c: Curve, a: Affine, b: Affine, r: Affine)
    requires ValidCurve(c) && a.At? && b.At? && IsSum(c, a, b, r)
    ensures !Cong(b.x - a.x, 0, c.P) ==>
      && r.At? && Cong((r.x + a.x + b.x) * ((b.x - a.x) * (b.x - a.x)), (b.y - a.y) * (b.y - a.y), c.P)
      && Cong((r.y + a.y) * (b.x - a.x), (b.y - a.y) * (a.x - r.x), c.P)
    ensures Cong(b.x - a.x, 0, c.P) && (!Cong(b.y - a.y, 0, c.P) || Cong(a.y, 0, c.P)) ==> r == Infinity
    ensures Cong(b.x - a.x, 0, c.P) && Cong(b.y - a.y, 0, c.P) && !Cong(a.y, 0, c.P) ==>
      var k := 3 * (a.x * a.x) + if c.A.MinusThree? then -3 else c.A.a;
      && r.At? && Cong((r.x + a.x + a.x) * ((2 * a.y) * (2 * a.y)), k * k, c.P)
      && Cong((r.y + a.y) * (2 * a.y), k * (a.x - r.x), c.P)
  {
    hide Cong, Prime, Third, TangentSlope;
    if !Cong(b.x - a.x, 0, c.P) {
      var l :| ChordSlope(c, a.x, a.y, b.x, b.y, l) && r == Third(a.x, a.y, b.x, l);
      ThirdExplicit(c.P, a.x, a.y, b.x, l, b.x - a.x, b.y - a.y);
    } else if Cong(b.y - a.y, 0, c.P) && !Cong(a.y, 0, c.P) {
      var l :| TangentSlope(c, a.x, a.y, l) && r == Third(a.x, a.y, a.x, l);
      SlopeOfTangent(c, a.x, a.y, l);
      ThirdExplicit(c.P, a.x, a.y, a.x, l, 2 * a.y, 3 * (a.x * a.x) + ACoeff(c));
    }
  }

  /** Division modulo P. */
  lemma Quotient(p: int, d: int, e: int) returns (l: int)
    requires p > 0 && Prime(p) && !Cong(d, 0, p)
    ensures Cong(l * d, e, p)
  {
    hide Prime, Cong;
    NonzeroResidue(d, p);
    var i := InverseModPrime(p, d % p);
    CongMod(d, p);
    CongRefl(i, p);
    CongMul(d % p, d, i, i, p);
    Symmetric((d % p) * i, d * i, p);
    CongTrans(d * i, (d % p) * i, 1, p);
    CongScale(d * i, 1, e, p);
    l := i * e;
    assert (d * i) * e == l * d by { MulAssoc(d, i, e); }
  }

  /** Every two points have a sum. */
  lemma SumExists(c: Curve, a: Affine, b: Affine) returns (r: Affine)
    requires ValidCurve(c)
    ensures IsSum(c, a, b, r)
  {
    hide Prime, Cong;
    if a.Infinity? { return b; }
    if b.Infinity? { return a; }
    if !Cong(b.x - a.x, 0, c.P) {
      var l := Quotient(c.P, b.x - a.x, b.y - a.y);
      assert ChordSlope(c, a.x, a.y, b.x, b.y, l);
      r := Third(a.x, a.y, b.x, l);
    } else if !Cong(b.y - a.y, 0, c.P) || Cong(a.y, 0, c.P) {
      r := Infinity;
    } else {
      TwoNonzero(c.P);
      ZeroProduct(c.P, 2, a.y);
      Unfold(2, a.y);
      var l := Quotient(c.P, 2 * a.y, 3 * (a.x * a.x) + ACoeff(c));
      assert 2 * a.y * l == l * (2 * a.y);
      assert TangentSlope(c, a.x, a.y, l);
      r := Third(a.x, a.y, a.x, l);
    }
  }

  /** A difference vanishes exactly when the affine coordinates agree. */
  lemma DifferenceZero(c: Curve, X: int, Y: int, Z: int, x1: int, y1: int, x2: int, y2: int)
    requires ValidCurve(c) && Stands(c.P, X, Y, Z, At(x1, y1))
    ensures Cong(DiffX(X, Z, x2), 0, c.P) <==> Cong(x2 - x1, 0, c.P)
    ensures Cong(DiffY(Y, Z, y2), 0, c.P) <==> Cong(y2 - y1, 0, c.P)
  {
    hide Cong, M, DiffX, DiffY, Prime;
    PowersOfZ(x1, y1, Z);
    var p, u := c.P, M(Z, Z);
    DifferenceTerms(p, X, Y, Z, x1, y1, x2, y2);
    ZeroProduct(p, Z, Z);
    ZeroProduct(p, u, Z);
    ZeroProduct(p, u, x2 - x1);
    ZeroProduct(p, M(u, Z), y2 - y1);
    ZeroTransfers(DiffX(X, Z, x2), M(u, x2 - x1), p);
    ZeroTransfers(DiffY(Y, Z, y2), M(M(u, Z), y2 - y1), p);
  }

  lemma ZeroTransfers(x: int, y: int, p: int)
    requires p > 0 && Cong(x, y, p)
    ensures Cong(x, 0, p) <==> Cong(y, 0, p)
  {
  }

  /** What a point stands for depends on its coordinates only modulo P. */
  lemma StandsCong(p: int, X: int, Y: int, Z: int, X': int, Y': int, Z': int, a: Affine)
    requires p > 0 && Cong(X', X, p) && Cong(Y', Y, p) && Cong(Z', Z, p) && Stands(p, X, Y, Z, a)
    ensures Stands(p, X', Y', Z', a)
  {
    hide Cong;
    match a
    case Infinity => CongTrans(Z', Z, 0, p);
    case At(x, y) =>
      ZeroTransfers(Z', Z, p);
      PowersOfZ(x, y, Z);
      CongTrans(X', X, M(x, M(Z, Z)), p);
      CongTrans(Y', Y, M(y, M(M(Z, Z), Z)), p);
      StandsBy(p, X', Y', Z', x, y, Z);
  }

  /** ecp_double_jac doubles the point that its argument stands for. */
  method DoublePoint(c: Curve, R: EcpPoint, P: EcpPoint, ghost a: Affine, ghost r: Affine)
    requires ValidCurve(c) && P.Valid(c.P) && P.zSet && P.Is(c.P, a) && IsSum(c, a, a, r)
    modifies R
    ensures R.Valid(c.P) && R.zSet && R.Is(c.P, r)
  {
    hide Cong, M, DoubleX, DoubleY, DoubleZ, Prime, Residue;
    ghost var X, Y, Z, k := P.X, P.Y, P.Z, ACoeff(c);
    DoubleJac(c, R, P);
    DoubleStands(c, X, Y, Z, a, r);
    StandsCong(c.P, DoubleX(X, Y, Z, k), DoubleY(X, Y, Z, k), DoubleZ(Y, Z), R.X, R.Y, R.Z, r);
  }

  lemma DoubleStands(c: Curve, X: int, Y: int, Z: int, a: Affine, r: Affine)
    requires ValidCurve(c) && Stands(c.P, X, Y, Z, a) && IsSum(c, a, a, r)
    ensures Stands(c.P, DoubleX(X, Y, Z, ACoeff(c)), DoubleY(X, Y, Z, ACoeff(c)), DoubleZ(Y, Z), r)
  {
    hide Cong, M, DoubleX, DoubleY, Prime, TangentSlope;
    if a.Infinity? {
      ZeroProduct(c.P, Y, Z);
      ZeroProduct(c.P, 2, M(Y, Z));
      Unfold(2, M(Y, Z));
    } else {
      CongRefl(0, c.P);
      assert a.x - a.x == 0 && a.y - a.y == 0;
      var l :| Cong(a.y, 0, c.P) || (TangentSlope(c, a.x, a.y, l) && r == Third(a.x, a.y, a.x, l));
      DoublingLaw(c, X, Y, Z, a.x, a.y, l);
    }
  }

  /** ecp_add_mixed adds the points that its arguments stand for, special cases included, when the
      second is normalised. */
  method AddPoints(c: Curve, R: EcpPoint, P: EcpPoint, Q: EcpPoint, ghost a: Affine, ghost b: Affine, ghost r: Affine)
    returns (code: Code)
    requires ValidCurve(c) && P.Valid(c.P) && P.zSet && Q.Valid(c.P)
    requires P.Is(c.P, a) && Q.Is(c.P, b) && (Q.ZValue() == 0 || Q.ZValue() == 1) && IsSum(c, a, b, r)
    modifies R
    ensures code == Ok && R.Valid(c.P) && R.Is(c.P, r)
  {
    hide Cong, M, DoubleX, DoubleY, DoubleZ, SumX, SumY, SumZ, DiffX, DiffY, Prime, ChordSlope, TangentSlope, IsSum;
    ghost var X, Y, Z, k, x2, y2 := P.X, P.Y, P.Z, ACoeff(c), Q.X, Q.Y;
    ghost var h, d := DiffX(X, Z, x2), DiffY(Y, Z, y2);
    ZeroZ(c, P.Z, P.X, P.Y, a);
    ZeroZ(c, Q.ZValue(), Q.X, Q.Y, b);
    TrivialSum(c, a, b, r);
    CongRefl(0, c.P);
    code := AddMixed(c, R, P, Q);
    if Z != 0 && b.At? {
      SumStands(c, X, Y, Z, a, x2, y2, b, r);
      if !Cong(h, 0, c.P) {
        StandsCong(c.P, SumX(X, h, d), SumY(X, Y, h, d), SumZ(Z, h), R.X, R.Y, R.Z, r);
      } else if Cong(d, 0, c.P) {
        StandsCong(c.P, DoubleX(X, Y, Z, k), DoubleY(X, Y, Z, k), DoubleZ(Y, Z), R.X, R.Y, R.Z, r);
      }
    }
  }

  lemma ZeroZ(c: Curve, Z: int, X: int, Y: int, a: Affine)
    requires c.P > 0 && Residue(Z, c.P) && Stands(c.P, X, Y, Z, a)
    ensures Z == 0 <==> a.Infinity?
  {
    CongRefl(Z, c.P);
    ZeroTest(Z, Z, c.P);
  }

  lemma TrivialSum(c: Curve, a: Affine, b: Affine, r: Affine)
    requires c.P > 0 && IsSum(c, a, b, r)
    ensures a.Infinity? ==> r == b
    ensures b.Infinity? ==> r == a
  {
  }

  /** In each case of ecp_add_mixed, the result stands for the sum. */
  lemma SumStands(c: Curve, X: int, Y: int, Z: int, a: Affine, x2: int, y2: int, b: Affine, r: Affine)
    requires ValidCurve(c) && Stands(c.P, X, Y, Z, a) && a.At? && b.At? && Stands(c.P, x2, y2, 1, b)
    requires IsSum(c, a, b, r)
    ensures var h, d := DiffX(X, Z, x2), DiffY(Y, Z, y2);
      if !Cong(h, 0, c.P) then Stands(c.P, SumX(X, h, d), SumY(X, Y, h, d), SumZ(Z, h), r)
      else if Cong(d, 0, c.P) then
        Stands(c.P, DoubleX(X, Y, Z, ACoeff(c)), DoubleY(X, Y, Z, ACoeff(c)), DoubleZ(Y, Z), r)
      else r == Infinity
  {
    hide Cong, M, DoubleX, DoubleY, DoubleZ, SumX, SumY, SumZ, DiffX, DiffY, Prime, TangentSlope, ChordSlope, Third;
    var p, h, d := c.P, DiffX(X, Z, x2), DiffY(Y, Z, y2);
    DifferenceZero(c, X, Y, Z, a.x, a.y, x2, y2);
    SameCoordinates(p, x2, y2, b);
    SameDifference(p, x2, b.x, a.x);
    SameDifference(p, y2, b.y, a.y);
    if !Cong(h, 0, p) {
      var l :| ChordSlope(c, a.x, a.y, b.x, b.y, l) && r == Third(a.x, a.y, b.x, l);
      SameSlope(c, a.x, a.y, x2, y2, b, l);
      ChordLaw(c, X, Y, Z, a.x, a.y, x2, y2, l);
      SameThird(p, SumX(X, h, d), SumY(X, Y, h, d), SumZ(Z, h), a.x, a.y, x2, b.x, l);
    } else if Cong(d, 0, p) {
      var l :| Cong(a.y, 0, p) || (TangentSlope(c, a.x, a.y, l) && r == Third(a.x, a.y, a.x, l));
      DoublingLaw(c, X, Y, Z, a.x, a.y, l);
    }
  }

  /** With Z = 1 the coordinates are the affine ones. */
  lemma SameCoordinates(p: int, x2: int, y2: int, b: Affine)
    requires p > 0 && b.At? && Stands(p, x2, y2, 1, b)
    ensures Cong(x2, b.x, p) && Cong(y2, b.y, p)
  {
    assert b.x * (1 * 1) == b.x && b.y * (1 * 1 * 1) == b.y;
  }

  lemma SameDifference(p: int, x: int, y: int, z: int)
    requires p > 0 && Cong(x, y, p)
    ensures Cong(x - z, 0, p) <==> Cong(y - z, 0, p)
    ensures Cong(x - z, y - z, p)
  {
    CongRefl(z, p);
    CongSub(x, y, z, z, p);
  }

  lemma SameSlope(c: Curve, x1: int, y1: int, x2: int, y2: int, b: Affine, l: int)
    requires c.P > 0 && b.At? && Cong(x2, b.x, c.P) && Cong(y2, b.y, c.P) && ChordSlope(c, x1, y1, b.x, b.y, l)
    ensures ChordSlope(c, x1, y1, x2, y2, l)
  {
    hide Cong;
    var p := c.P;
    SameDifference(p, x2, b.x, x1);
    SameDifference(p, y2, b.y, y1);
    CongScale(x2 - x1, b.x - x1, l, p);
    assert (x2 - x1) * l == l * (x2 - x1) && (b.x - x1) * l == l * (b.x - x1);
    CongTrans(l * (x2 - x1), l * (b.x - x1), b.y - y1, p);
    Symmetric(y2 - y1, b.y - y1, p);
    CongTrans(l * (x2 - x1), b.y - y1, y2 - y1, p);
  }

  lemma SameThird(p: int, X: int, Y: int, Z: int, x1: int, y1: int, x2: int, x2': int, l: int)
    requires p > 0 && Cong(x2, x2', p) && Stands(p, X, Y, Z, Third(x1, y1, x2, l))
    ensures Stands(p, X, Y, Z, Third(x1, y1, x2', l))
  {
    hide Cong;
    var t, t' := Third(x1, y1, x2, l), Third(x1, y1, x2', l);
    CongRefl(l * l - x1, p);
    CongSub(l * l - x1, l * l - x1, x2, x2', p);
    CongRefl(x1, p);
    CongSub(x1, x1, t.x, t'.x, p);
    CongScale(x1 - t.x, x1 - t'.x, l, p);
    assert (x1 - t.x) * l == l * (x1 - t.x) && (x1 - t'.x) * l == l * (x1 - t'.x);
    CongRefl(y1, p);
    CongSub(l * (x1 - t.x), l * (x1 - t'.x), y1, y1, p);
    CongScale(t.x, t'.x, Z * Z, p);
    CongScale(t.y, t'.y, Z * Z * Z, p);
    CongTrans(X, t.x * (Z * Z), t'.x * (Z * Z), p);
    CongTrans(Y, t.y * (Z * Z * Z), t'.y * (Z * Z * Z), p);
  }
}
