/** The curve Y^2 = X^3 + a X Z^4 + b Z^6 modulo a number, and the polynomial identities by which
    doubling and addition in these coordinates stay on it. */
module CurveEquation {
  import opened Arith

  /** A product of polynomials, named so that proofs can treat it as one term. */
  ghost function M(e: int, f: int): int {
    e * f
  }

  /** (X, Y, Z) lies on the curve with the coefficients a and b. */
  ghost predicate OnCurve(p: int, a: int, b: int, X: int, Y: int, Z: int)
    requires p > 0
  {
    Cong(Y * Y, X * X * X + a * X * ((Z * Z) * (Z * Z)) + b * ((Z * Z) * (Z * Z) * (Z * Z)), p)
  }

  // The terms of the equation.

  ghost function Fourth(Z: int): int { M(M(Z, Z), M(Z, Z)) }

  ghost function Sixth(Z: int): int { M(Fourth(Z), M(Z, Z)) }

  ghost function Cube(X: int): int { M(M(X, X), X) }

  /** What the other terms leave for b Z^6. */
  ghost function Left(w: int, X: int, u: int): int { u - Cube(X) - M(w, X) }

  lemma OnCurveIs(p: int, a: int, b: int, X: int, Y: int, Z: int)
    requires p > 0
    ensures OnCurve(p, a, b, X, Y, Z) <==> Cong(M(b, Sixth(Z)), Left(M(a, Fourth(Z)), X, M(Y, Y)), p)
  {
    hide Cong;
    var u, v, w := M(Y, Y), Cube(X) + M(M(a, Fourth(Z)), X), M(b, Sixth(Z));
    CurveTerms(a, b, X, Y, Z);
    if Cong(u, v + w, p) {
      var k := CongWitness(u, v + w, p);
      MoveOver(k, p);
      CongMultiple(w, u - v, 0 - k, p);
    } else if Cong(w, u - v, p) {
      var k := CongWitness(w, u - v, p);
      MoveOver(k, p);
      CongMultiple(u, v + w, 0 - k, p);
    }
  }

  lemma MoveOver(k: int, p: int)
    ensures (0 - k) * p == 0 - k * p
  {
  }

  lemma CurveTerms(a: int, b: int, X: int, Y: int, Z: int)
    ensures X * X * X + a * X * ((Z * Z) * (Z * Z)) + b * ((Z * Z) * (Z * Z) * (Z * Z))
         == Cube(X) + M(M(a, Fourth(Z)), X) + M(b, Sixth(Z))
  {
    Rotate(a, X, (Z * Z) * (Z * Z));
  }

  lemma Rotate(x: int, y: int, z: int)
    ensures x * y * z == M(M(x, z), y)
  {
  }

  // ---- Identities -------------------------------------------------------------------------

  lemma SquareOfDifference(x: int, y: int)
    ensures M(x - y, x - y) == M(x, x) - 2 * M(x, y) + M(y, y)
  {
  }

  lemma SquareOfProduct(x: int, y: int)
    ensures M(M(x, y), M(x, y)) == M(M(x, x), M(y, y))
  {
  }

  lemma Scale(k: int, x: int, y: int)
    ensures M(x, k * y) == k * M(x, y) && M(k * x, y) == k * M(x, y)
  {
  }

  lemma Distribute(x: int, y: int, z: int)
    ensures M(x, y - z) == M(x, y) - M(x, z) && M(y - z, x) == M(y, x) - M(z, x)
    ensures M(x, y + z) == M(x, y) + M(x, z) && M(y + z, x) == M(y, x) + M(z, x)
  {
  }

  lemma CubicPart(t: int, q: int)
    ensures M(t + 8 * q, M(4 * q - t, 4 * q - t)) == Cube(t) - 48 * M(M(q, q), t) + 128 * Cube(q)
  {
  }

  /** The square of the doubled Y. */
  lemma DoubledSquare(m: int, t: int, q: int, u2: int)
    requires M(m, m) == t + 8 * q
    ensures var y := M(m, 4 * q - t) - 8 * u2;
      M(y, y) == Cube(t) - 48 * M(M(q, q), t) + 128 * Cube(q) - 64 * M(M(m, q), u2) + 16 * M(M(m, t), u2)
               + 64 * M(u2, u2)
  {
    hide M, Cube;
    var d := 4 * q - t;
    var P := M(m, d);
    SquareOfDifference(P, 8 * u2);
    Scale(8, P, u2);
    Scale(8, 8 * u2, u2);
    Scale(8, u2, u2);
    SquareOfProduct(m, d);
    CubicPart(t, q);
    Distribute(m, 4 * q, t);
    Scale(4, m, q);
    Distribute(u2, 4 * M(m, q), M(m, t));
    Scale(4, M(m, q), u2);
  }

  lemma RestTerms(X: int, u: int, m: int, t: int)
    ensures var q, u2 := M(X, u), M(u, u);
      && M(M(M(X, X), u2), t) == M(M(q, q), t) && M(M(u2, u), Cube(X)) == Cube(q)
      && M(M(m, u2), t) == M(M(m, t), u2)
  {
    SquareOfProduct(X, u);
    Reorder(m, u * u, t);
    CubeOfProduct(X, u);
  }

  lemma Reorder(x: int, y: int, z: int)
    ensures M(M(x, y), z) == M(M(x, z), y)
  {
  }

  lemma CubeOfProduct(x: int, y: int)
    ensures M(M(M(y, y), y), Cube(x)) == Cube(M(x, y))
  {
  }

  lemma LastFactor(u2: int, u: int, w: int, X: int)
    ensures M(M(u2, u), M(w, X)) == M(M(w, M(X, u)), u2)
  {
  }

  lemma ThreeSquares(X: int, u: int)
    ensures M(M(M(X, X), M(X, u)), M(u, u)) == Cube(M(X, u))
  {
  }

  /** Doubling, with u = Y^2, w = a Z^4, m = 3 X^2 + w and t the doubled X. */
  lemma DoubleIdentity(X: int, u: int, m: int, t: int, w: int)
    requires m == 3 * M(X, X) + w && t == M(m, m) - 8 * M(X, u)
    ensures var u2 := M(u, u);
      var y := M(m, 4 * M(X, u) - t) - 8 * u2;
      M(y, y) == Cube(t) + 16 * M(M(w, u2), t) + 64 * M(M(u2, u), Left(w, X, u))
  {
    hide M, Cube;
    var q, u2 := M(X, u), M(u, u);
    DoubledSquare(m, t, q, u2);
    RestTerms(X, u, m, t);
    // 16 w u^2 t
    var x2 := M(X, X);
    Distribute(u2, m, 3 * x2);
    Scale(3, x2, u2);
    Distribute(t, M(m, u2), 3 * M(x2, u2));
    Scale(3, M(x2, u2), t);
    // 64 u^3 (u - X^3 - w X)
    var u3 := M(u2, u);
    Distribute(u3, u - Cube(X), M(w, X));
    Distribute(u3, u, Cube(X));
    LastFactor(u2, u, w, X);
    Distribute(q, m, 3 * x2);
    Scale(3, x2, q);
    Distribute(u2, M(m, q), 3 * M(x2, q));
    Scale(3, M(x2, q), u2);
    ThreeSquares(X, u);
    SquareOfSquare(u);
  }

  lemma SquareOfSquare(u: int)
    ensures M(M(M(u, u), u), u) == M(M(u, u), M(u, u))
  {
  }

  /** The terms of the equation for a multiple of Z. */
  lemma ScaledTerms(Z: int, f: int)
    ensures Fourth(M(Z, f)) == M(Fourth(Z), Fourth(f)) && Sixth(M(Z, f)) == M(Sixth(Z), Sixth(f))
  {
    var z, g := M(Z, Z), M(f, f);
    SquareOfProduct(Z, f);
    SquareOfProduct(z, g);
    CubeOfSquares(z, g);
  }

  lemma CubeOfSquares(z: int, g: int)
    ensures M(M(M(z, z), M(g, g)), M(z, g)) == M(M(M(z, z), z), M(M(g, g), g))
  {
  }

  lemma FactorTwo(f: int)
    ensures Fourth(2 * f) == 16 * Fourth(f) && Sixth(2 * f) == 64 * Sixth(f)
  {
    hide M;
    Scale(2, 2 * f, f);
    Scale(2, f, f);
    var g := M(f, f);
    Scale(4, 4 * g, g);
    Scale(4, g, g);
    Scale(16, M(g, g), 4 * g);
    Scale(4, M(g, g), g);
  }

  lemma PowersOfRoot(Y: int)
    ensures var u := M(Y, Y); Fourth(Y) == M(u, u) && Sixth(Y) == M(M(u, u), u)
  {
  }

  lemma Shift(x: int, y: int, z: int)
    ensures M(x, M(y, z)) == M(M(x, y), z) && M(x, y) == M(y, x)
  {
  }

  /** Doubling stays on the curve. */
  lemma DoubleOnCurve(p: int, a: int, b: int, X: int, Y: int, Z: int)
    requires p > 0 && OnCurve(p, a, b, X, Y, Z)
    ensures var u, m := M(Y, Y), 3 * M(X, X) + M(a, Fourth(Z));
      var t := M(m, m) - 8 * M(X, u);
      OnCurve(p, a, b, t, M(m, 4 * M(X, u) - t) - 8 * M(u, u), 2 * M(Y, Z))
  {
    hide M, Cong, OnCurve, Fourth, Sixth, Cube;
    var u, w := M(Y, Y), M(a, Fourth(Z));
    var m := 3 * M(X, X) + w;
    var t := M(m, m) - 8 * M(X, u);
    var y, u3, e := M(m, 4 * M(X, u) - t) - 8 * M(u, u), M(M(u, u), u), M(b, Sixth(Z));
    OnCurveIs(p, a, b, X, Y, Z);
    OnCurveIs(p, a, b, t, y, 2 * M(Y, Z));
    DoubleIdentity(X, u, m, t, w);
    FactorTwo(M(Y, Z));
    ScaledTerms(Y, Z);
    PowersOfRoot(Y);
    // a Z'^4 and b Z'^6
    Scale(16, a, M(M(u, u), Fourth(Z)));
    Shift(a, M(u, u), Fourth(Z));
    Shift(a, Fourth(Z), M(u, u));
    Shift(M(u, u), Fourth(Z), 0);
    Scale(16, M(w, M(u, u)), t);
    Scale(64, b, M(u3, Sixth(Z)));
    Shift(b, Sixth(Z), u3);
    Shift(u3, Sixth(Z), 0);
    CongScale(e, Left(w, X, u), u3, p);
    CongScale(e * u3, Left(w, X, u) * u3, 64, p);
    Products(e, Left(w, X, u), u3);
  }

  lemma Products(e: int, f: int, g: int)
    ensures e * g * 64 == 64 * M(e, g) && f * g * 64 == 64 * M(g, f)
  {
  }

  // ---- Addition ---------------------------------------------------------------------------

  lemma CubeOfSum(x: int, y: int)
    ensures Cube(x + y) == Cube(x) + 3 * M(M(x, x), y) + 3 * M(x, M(y, y)) + Cube(y)
  {
  }

  lemma SquareOfSum(x: int, y: int)
    ensures M(x + y, x + y) == M(x, x) + 2 * M(x, y) + M(y, y)
  {
  }

  /** What w h is, for points (X, Y) and (X + h, Y + r) of the curve y^2 = x^3 + w x + const. */
  ghost function Slope(X: int, Y: int, h: int, r: int): int {
    2 * M(Y, r) + M(r, r) - 3 * M(M(X, X), h) - 3 * M(X, M(h, h)) - Cube(h)
  }

  lemma SlopeIs(w: int, X: int, Y: int, h: int, r: int)
    ensures Left(w, X + h, M(Y + r, Y + r)) - Left(w, X, M(Y, Y)) == Slope(X, Y, h, r) - M(w, h)
  {
    hide M, Cube;
    CubeOfSum(X, h);
    SquareOfSum(Y, r);
    Distribute(w, X, h);
  }

  lemma CubeOfDifference(x: int, y: int)
    ensures Cube(x - y) == Cube(x) - 3 * M(M(x, x), y) + 3 * M(x, M(y, y)) - Cube(y)
  {
  }

  lemma PowersOfH(X: int, h: int)
    ensures var S, T := M(M(h, h), X), Cube(h);
      && M(M(M(X, X), h), T) == M(S, S) && M(M(X, M(h, h)), T) == M(S, T)
      && Sixth(h) == M(T, T) && M(Cube(X), M(T, T)) == Cube(S) && M(Fourth(h), h) == M(h, Fourth(h))
      && M(h, T) == Fourth(h) && M(M(h, h), Fourth(h)) == M(T, T)
  {
    var g := h * h;
    Reorder(g, X, g * X);
    PowersOne(X, g);
    PowersTwo(X, g, h);
    PowersThree(X, g, h);
  }

  lemma PowersOne(X: int, g: int)
    ensures M(M(X, X), M(g, g)) == M(M(g, X), M(g, X)) && M(M(M(M(g, g), g), X), M(X, X)) == Cube(M(g, X))
  {
  }

  lemma PowersTwo(X: int, g: int, h: int)
    requires g == h * h
    ensures M(M(X, X) * h, g * h) == M(M(X, X), M(g, g)) && M(X * g, g * h) == M(g * X, g * h)
    ensures M(g * h, g * h) == M(g * g, g)
  {
    assert (X * X * h) * (g * h) == (X * X) * (g * (h * h));
    assert (g * h) * (g * h) == (g * g) * (h * h);
  }

  lemma PowersThree(X: int, g: int, h: int)
    requires g == h * h
    ensures h * (g * h) == g * g && g * (g * g) == (g * h) * (g * h)
    ensures (X * X * X) * ((g * g) * g) == M(M(M(M(g, g), g), X), M(X, X))
  {
    assert h * (g * h) == g * (h * h);
    assert (g * h) * (g * h) == (g * g) * (h * h);
  }

  /** The identity behind addition: D is S less the new X. */
  lemma SumIdentity(X: int, Y: int, h: int, r: int)
    ensures var S, T := M(M(h, h), X), Cube(h);
      var D := 3 * S + T - M(r, r);
      var y := M(D, r) - M(T, Y);
      M(y, y) - Cube(S - D) + M(M(Slope(X, Y, h, r), T), D) - M(M(Y, Y) - Cube(X), M(T, T)) == 0
  {
    hide M, Cube, Fourth, Sixth;
    var S, T, q := M(M(h, h), X), Cube(h), M(r, r);
    var D := 3 * S + T - q;
    PowersOfH(X, h);
    SquareOfDifference(M(D, r), M(T, Y));
    SquareOfProduct(D, r);
    SquareOfProduct(T, Y);
    CubeOfDifference(S, D);
    Distribute(M(T, T), M(Y, Y), Cube(X));
    Shift(M(T, T), M(Y, Y), 0);
    SlopeTerms(X, Y, h, r, S, T, D);
    FinalTerms(S, T, D, q);
    Cross(D, r, T, Y);
    Shift(S, D, D);
    Shift(M(S, S), D, 0);
  }

  lemma Cross(d: int, r: int, t: int, y: int)
    ensures M(M(d, r), M(t, y)) == M(M(M(y, r), t), d)
  {
  }

  lemma SlopeTerms(X: int, Y: int, h: int, r: int, S: int, T: int, D: int)
    requires M(M(M(X, X), h), T) == M(S, S) && M(M(X, M(h, h)), T) == M(S, T) && Cube(h) == T
    ensures M(M(Slope(X, Y, h, r), T), D)
         == 2 * M(M(M(Y, r), T), D) + M(M(M(r, r), T), D) - 3 * M(M(S, S), D) - 3 * M(M(S, T), D) - M(M(T, T), D)
  {
    hide M, Cube;
    FiveTimes(M(Y, r), M(r, r), M(M(X, X), h), M(X, M(h, h)), T, T);
    FiveTimes(M(M(Y, r), T), M(M(r, r), T), M(S, S), M(S, T), M(T, T), D);
  }

  lemma FiveTimes(a: int, b: int, c: int, d: int, e: int, f: int)
    ensures M(2 * a + b - 3 * c - 3 * d - e, f) == 2 * M(a, f) + M(b, f) - 3 * M(c, f) - 3 * M(d, f) - M(e, f)
  {
  }

  lemma FinalTerms(S: int, T: int, D: int, q: int)
    requires q == 3 * S + T - D
    ensures M(M(D, D), q) - 3 * M(S, M(D, D)) + Cube(D) + M(M(q, T), D) - 3 * M(M(S, T), D) - M(M(T, T), D) == 0
  {
    FinalExpanded(S, T, D);
  }

  lemma FinalExpanded(S: int, T: int, D: int)
    ensures M(M(D, D), 3 * S + T - D) - 3 * M(S, M(D, D)) + Cube(D) + M(M(3 * S + T - D, T), D) - 3 * M(M(S, T), D)
          - M(M(T, T), D) == 0
  {
  }

  /** Addition stays on the curve: the second point is (x, y, 1), and h and r are the differences. */
  lemma SumOnCurve(p: int, a: int, b: int, X: int, Y: int, Z: int, x: int, y: int, h: int, r: int)
    requires p > 0 && OnCurve(p, a, b, X, Y, Z) && OnCurve(p, a, b, x, y, 1)
    requires h == M(M(Z, Z), x) - X && r == M(M(M(Z, Z), Z), y) - Y
    ensures var t := M(r, r) - 2 * M(M(h, h), X) - M(M(h, h), h);
      OnCurve(p, a, b, t, M(M(M(h, h), X) - t, r) - M(M(M(h, h), h), Y), M(Z, h))
  {
    hide M, Cong, OnCurve, Fourth, Sixth, Slope, Left;
    var w, e, u := M(a, Fourth(Z)), M(b, Sixth(Z)), M(Y, Y);
    var S, T := M(M(h, h), X), Cube(h);
    var D := 3 * S + T - M(r, r);
    var y3 := M(D, r) - M(T, Y);
    OnCurveIs(p, a, b, X, Y, Z);
    OnCurveIs(p, a, b, S - D, y3, M(Z, h));
    LiftPoint(p, a, b, Z, x, y);
    SlopeIs(w, X, Y, h, r);
    WhValue(p, w, e, X, Y, h, r);
    ScaledTerms(Z, h);
    SumIdentity(X, Y, h, r);
    PowersOfH(X, h);
    SumGoal(p, a, b, w, e, X, Y, h, r, Fourth(Z), Sixth(Z), S, T, D, y3);
  }

  /** A point with Z = 1, in the coordinates of another Z. */
  lemma LiftPoint(p: int, a: int, b: int, Z: int, x: int, y: int)
    requires p > 0 && OnCurve(p, a, b, x, y, 1)
    ensures var g, k := M(M(Z, Z), x), M(M(M(Z, Z), Z), y);
      Cong(M(b, Sixth(Z)), Left(M(a, Fourth(Z)), g, M(k, k)), p)
  {
    hide M, Cong, OnCurve, Fourth, Sixth;
    OnCurveIs(p, a, b, x, y, 1);
    Ones(a, b);
    var s := Sixth(Z);
    CongScale(b, Left(a, x, M(y, y)), s, p);
    LiftTerms(a, b, Z, x, y);
  }

  lemma Ones(a: int, b: int)
    ensures M(a, Fourth(1)) == a && M(b, Sixth(1)) == b
  {
  }

  lemma LiftTerms(a: int, b: int, Z: int, x: int, y: int)
    ensures var g, k := M(M(Z, Z), x), M(M(M(Z, Z), Z), y);
      && b * Sixth(Z) == M(b, Sixth(Z))
      && Left(a, x, M(y, y)) * Sixth(Z) == Left(M(a, Fourth(Z)), g, M(k, k))
  {
    hide M, Cube, Fourth, Sixth;
    var s, c := Sixth(Z), M(y, y) - Cube(x);
    MeansProduct(c, a, x, b, s);
    Distribute(s, c, M(a, x));
    Distribute(s, M(y, y), Cube(x));
    LiftPowers(a, Z, x, y);
  }

  lemma MeansProduct(c: int, a: int, x: int, b: int, s: int)
    ensures c * s == M(c, s) && (c - M(a, x)) * s == M(c - M(a, x), s) && b * s == M(b, s)
  {
  }

  lemma LiftPowers(a: int, Z: int, x: int, y: int)
    ensures var g, k, s := M(M(Z, Z), x), M(M(M(Z, Z), Z), y), Sixth(Z);
      M(k, k) == M(M(y, y), s) && Cube(g) == M(Cube(x), s) && M(M(a, Fourth(Z)), g) == M(M(a, x), s)
  {
    var z := Z * Z;
    SquareOfProduct(z * Z, y);
    SquareOfProduct(z, Z);
    Shift(M(z * Z, z * Z), M(y, y), 0);
    CubeOfProduct(x, z);
    Commute(z, x);
    LiftMiddle(a, z, x);
  }

  lemma Commute(x: int, y: int)
    ensures Cube(M(x, y)) == Cube(M(y, x)) && M(M(M(x, x), x), Cube(y)) == M(Cube(y), M(M(x, x), x))
  {
  }

  lemma LiftMiddle(a: int, z: int, x: int)
    ensures M(M(a, M(z, z)), M(z, x)) == M(M(a, x), M(M(z, z), z))
  {
  }

  lemma WhValue(p: int, w: int, e: int, X: int, Y: int, h: int, r: int)
    requires p > 0 && Cong(e, Left(w, X, M(Y, Y)), p) && Cong(e, Left(w, X + h, M(Y + r, Y + r)), p)
    ensures Cong(M(w, h), Slope(X, Y, h, r), p)
  {
    hide M, Cong, Left, Slope;
    SlopeIs(w, X, Y, h, r);
    CongSub(e, Left(w, X + h, M(Y + r, Y + r)), e, Left(w, X, M(Y, Y)), p);
    var k := CongWitness(e - e, Slope(X, Y, h, r) - M(w, h), p);
    CongMultiple(M(w, h), Slope(X, Y, h, r), k, p);
  }

  lemma SumGoal(p: int, a: int, b: int, w: int, e: int, X: int, Y: int, h: int, r: int, f: int, s: int, S: int, T: int,
      D: int, y: int)
    requires p > 0 && w == M(a, f) && e == M(b, s) && S == M(M(h, h), X) && T == Cube(h)
    requires Cong(e, Left(w, X, M(Y, Y)), p) && Cong(M(w, h), Slope(X, Y, h, r), p)
    requires M(y, y) - Cube(S - D) + M(M(Slope(X, Y, h, r), T), D) - M(M(Y, Y) - Cube(X), M(T, T)) == 0
    ensures Cong(M(b, M(s, Sixth(h))), Left(M(a, M(f, Fourth(h))), S - D, M(y, y)), p)
  {
    hide M, Cong, Slope, Cube, Fourth, Sixth;
    var u, l, k := M(Y, Y), Left(w, X, M(Y, Y)), Slope(X, Y, h, r);
    PowersOfH(X, h);
    Shift(b, s, Sixth(h));
    Shift(a, f, Fourth(h));
    Scaled(p, e, l, M(T, T));
    Scaled(p, M(w, h), k, M(T, D));
    Shift(k, T, D);
    Shift(M(w, h), T, D);
    // w h^4 (S - D) and w X h^6
    Distribute(M(w, Fourth(h)), S, D);
    WTerms(w, h, X, T, D);
    Distribute(M(T, T), u - Cube(X), M(w, X));
    Balance(M(e, M(T, T)), M(l, M(T, T)), M(M(w, h), M(T, D)), M(k, M(T, D)), p);
  }

  lemma Scaled(p: int, x: int, y: int, f: int)
    requires p > 0 && Cong(x, y, p)
    ensures Cong(M(x, f), M(y, f), p)
  {
    CongScale(x, y, f, p);
  }

  lemma WTerms(w: int, h: int, X: int, T: int, D: int)
    requires T == Cube(h)
    ensures M(M(w, Fourth(h)), M(M(h, h), X)) == M(M(w, X), M(T, T))
    ensures M(M(w, Fourth(h)), D) == M(M(w, h), M(T, D))
  {
    hide M, Cube, Fourth;
    PowersOfH(X, h);
    var f := Fourth(h);
    FourFactors(w, f, M(h, h), X);
    Shift(M(h, h), f, 0);
    FourFactors(w, h, T, D);
    Shift(w, h, T);
    Shift(M(w, h), T, D);
  }

  lemma FourFactors(w: int, f: int, g: int, x: int)
    ensures M(M(w, f), M(g, x)) == M(M(w, x), M(g, f))
  {
  }

  lemma Balance(x: int, y: int, u: int, v: int, p: int)
    requires p > 0 && Cong(x, y, p) && Cong(u, v, p)
    ensures Cong(x, y - v + u, p)
  {
    hide Cong;
    CongSub(x, y, u, v, p);
    var k := CongWitness(x - u, y - v, p);
    CongMultiple(x, y - v + u, k, p);
  }
}
