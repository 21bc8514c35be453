/** Long division of bignum.c (Knuth's algorithm D, HAC 14.20) and reduction, for builds with a
    double-width type and, by the parameter wide, for builds without one. */
module BignumDiv {
  import opened Arith
  import opened Bits
  import opened Limbs
  import opened Bignum
  import opened BignumAdd
  import opened BignumShift
  import opened BignumMul
  import opened PortableQuotient

  /** Quotient rounded toward zero, and the remainder that goes with it. */
  ghost function TruncDiv(a: int, b: int): int
    requires b != 0
  {
    if (a >= 0) == (b > 0) then AbsOf(a) / AbsOf(b) else 0 - AbsOf(a) / AbsOf(b)
  }

  ghost function TruncRem(a: int, b: int): int
    requires b != 0
  {
    if a >= 0 then AbsOf(a) % AbsOf(b) else 0 - AbsOf(a) % AbsOf(b)
  }

  ghost function AbsOf(a: int): nat {
    if a >= 0 then a else 0 - a
  }

  /** What makes that quotient and remainder the right ones. */
  ghost predicate IsDivision(a: int, b: int, q: int, r: int) {
    a == q * b + r && AbsOf(r) < AbsOf(b) && (r == 0 || (r > 0) == (a > 0))
  }

  /** TruncDiv and TruncRem are the only quotient and remainder of that kind. */
  lemma DivisionExact(a: int, b: int, q: int, r: int)
    requires b != 0
    ensures IsDivision(a, b, q, r) <==> q == TruncDiv(a, b) && r == TruncRem(a, b)
  {
    hide IsDivision, TruncDiv, TruncRem;
    TruncIsDivision(a, b);
    if IsDivision(a, b, q, r) {
      UniqueDivision(a, b, q, r, TruncDiv(a, b), TruncRem(a, b));
    }
  }

  lemma TruncIsDivision(a: int, b: int)
    requires b != 0
    ensures IsDivision(a, b, TruncDiv(a, b), TruncRem(a, b))
  {
    DivMod(AbsOf(a), AbsOf(b));
    SignCases(AbsOf(a) / AbsOf(b), AbsOf(b), b);
  }

  lemma SignCases(u: int, y: nat, b: int)
    ensures b == y ==> u * b == u * y && (0 - u) * b == 0 - u * y
    ensures b == 0 - y ==> u * b == 0 - u * y && (0 - u) * b == u * y
  {
  }

  lemma UniqueDivision(a: int, b: int, q: int, r: int, q': int, r': int)
    requires b != 0 && IsDivision(a, b, q, r) && IsDivision(a, b, q', r')
    ensures q == q' && r == r'
  {
    assert (q - q') * b == r' - r;
    if q != q' {
      NonzeroMultiple(q - q', b);
    }
  }

  lemma NonzeroMultiple(k: int, b: int)
    requires k != 0
    ensures AbsOf(k * b) >= AbsOf(b)
  {
    if k > 0 {
      if b >= 0 { MulMono(1, k, b); } else { MulMono(1, k, 0 - b); }
    } else {
      if b >= 0 { MulMono(1, 0 - k, b); } else { MulMono(1, 0 - k, 0 - b); }
    }
  }

  /** A divisor whose top limb has just biL - 1 bits. */
  ghost predicate Normalised(y: nat, t: nat) {
    (B / 4) * Pow(B, t) <= y < (B / 2) * Pow(B, t)
  }

  /** The digit estimate before add-back: as large as two limbs of y and three of x allow. */
  ghost predicate BestEstimate(z: nat, y2: nat, x3: nat) {
    z < B && z * y2 <= x3 && LargeEnough(z, y2, x3)
  }

  ghost predicate LargeEnough(z: nat, y2: nat, x3: nat) {
    z == B - 1 || x3 < (z + 1) * y2
  }

  /** One long-division digit.  x < y * w * B is what is left of the dividend; y = y2 * u + yl
      and x = x3 * (u * w) + xl show the limbs the estimate looks at.  The estimate is never
      too small, and at most one too large: one add-back is always enough. */
  lemma EstimateWithinOne(x: nat, y: nat, w: nat, u: nat, y2: nat, yl: nat, x3: nat, xl: nat, z: nat)
    requires u > 0 && w > 0 && y == y2 * u + yl && yl < u && x == x3 * (u * w) + xl && xl < u * w
    requires BestEstimate(z, y2, x3) && x < (y * w) * B && B <= y2
    ensures x < (z + 1) * (y * w)
    ensures (z - 1) * (y * w) <= x
  {
    hide Pow;
    var v := u * w;
    YTimesW(y2, u, yl, w);
    if z < B - 1 {
      MulMono(x3 + 1, (z + 1) * y2, v);
      MulDist(x3, 1, v);
      MulAssoc(z + 1, y2, v);
      MulMono(y2 * v, y * w, z + 1);
    }
    if z >= 1 {
      EstimateNotTooLarge(y * w, y2, v, x3, z);
    } else {
      MulNonneg(y, w);
    }
  }

  lemma YTimesW(y2: nat, u: nat, yl: nat, w: nat)
    requires yl < u && w > 0
    ensures y2 * (u * w) <= (y2 * u + yl) * w < (y2 + 1) * (u * w)
  {
    MulDist(y2 * u, yl, w);
    MulAssoc(y2, u, w);
    MulNonneg(yl, w);
    MulStrict(yl, u, w);
    MulDist(y2, 1, u * w);
  }

  lemma EstimateNotTooLarge(yw: nat, y2: nat, v: nat, x3: nat, z: nat)
    requires 1 <= z < B <= y2 && z * y2 <= x3 && yw < (y2 + 1) * v
    ensures (z - 1) * yw <= x3 * v
  {
    MulMono(yw, (y2 + 1) * v, z - 1);
    MulAssoc(z - 1, y2 + 1, v);
    assert (z - 1) * (y2 + 1) == z * y2 - y2 + z - 1;
    MulMono((z - 1) * (y2 + 1), x3, v);
  }

  /** The two top limbs of the divisor, as the source loads them into T1. */
  function TopTwo(y: seq<limb>, t: nat): (v: seq<limb>)
    requires t < |y|
    ensures |v| == 2
  {
    [if t < 1 then 0 else y[t - 1], y[t]]
  }

  /** The three top limbs of what is left of the dividend, as loaded into T2. */
  function TopThree(x: seq<limb>, i: nat): (v: seq<limb>)
    requires i < |x|
    ensures |v| == 3
  {
    [if i < 2 then 0 else x[i - 2], if i < 1 then 0 else x[i - 1], x[i]]
  }

  lemma TwoLimbs(a: limb, b: limb)
    ensures Val([a, b]) == a + b * B
  {
    hide Pow, Val;
    ValFirst([a, b]);
    assert [a, b][1..] == [b];
    ValSingle(b);
  }

  lemma ThreeLimbs(a: limb, b: limb, c: limb)
    ensures Val([a, b, c]) == a + b * B + c * (B * B)
  {
    hide Pow, Val;
    ValFirst([a, b, c]);
    assert [a, b, c][1..] == [b, c];
    TwoLimbs(b, c);
    MulDist(b, c * B, B);
    MulAssoc(c, B, B);
  }

  /** Whether the estimate for a digit is large enough: with a double-width type always, without
      one unless PortableQuotient.Estimate is below the quotient. */
  ghost predicate DigitFine(wide: bool, hi: limb, lo: limb, d: limb) {
    wide || hi >= d || (Top(d) && Upper(d) > 0 ==> !TooLow(hi, lo, d))
  }

  /** The quotient of the two top limbs by one, capped at a limb. */
  method FirstEstimate(x: seq<limb>, y: seq<limb>, i: nat, t: nat, wide: bool) returns (z: limb)
    requires 1 <= i < |x| && t < |y| && Top(y[t]) && y[t] > 0
    ensures DigitFine(wide, x[i], x[i - 1], y[t]) ==> LargeEnough(z, Val(TopTwo(y, t)), Val(TopThree(x, i)))
    ensures !DigitFine(wide, x[i], x[i - 1], y[t]) ==> (z + 5) * y[t] <= x[i] * B + x[i - 1]
  {
    hide Pow, Or, Val, TopTwo, TopThree, Top, TooLow;
    BaseFacts();
    if x[i] >= y[t] {
      z := B - 1;
    } else if wide {
      var r := OneLimbQuotient(x, y, i, t);
      if r > B - 1 {
        r := B - 1;
      }
      z := r;
    } else {
      z := Estimate(x[i], x[i - 1], y[t]);
      EstimateUsed(x, y, i, t, z, !DigitFine(wide, x[i], x[i - 1], y[t]));
    }
  }

  lemma EstimateUsed(x: seq<limb>, y: seq<limb>, i: nat, t: nat, z: limb, low: bool)
    requires 1 <= i < |x| && t < |y| && y[t] > 0
    requires var q := (x[i] * B + x[i - 1]) / y[t]; if low then z + 5 <= q else z >= q
    ensures if low then (z + 5) * y[t] <= x[i] * B + x[i - 1]
            else Val(TopThree(x, i)) < (z + 1) * Val(TopTwo(y, t))
  {
    hide Pow, Val, TopTwo, TopThree;
    var v := x[i] * B + x[i - 1];
    var q := v / y[t];
    DivMod(v, y[t]);
    if low {
      MulMono(z + 5, q, y[t]);
    } else {
      MulMono(q, z, y[t]);
      OneLimbEstimate(x, y, i, t, z);
    }
  }

  method OneLimbQuotient(x: seq<limb>, y: seq<limb>, i: nat, t: nat) returns (r: nat)
    requires 1 <= i < |x| && t < |y| && y[t] > 0
    ensures Val(TopThree(x, i)) < (r + 1) * Val(TopTwo(y, t))
  {
    hide *;
    DoubleWord(x[i], x[i - 1]);
    var d := Or(x[i] * B, x[i - 1]);
    DivMod(d, y[t]);
    r := d / y[t];
    OneLimbEstimate(x, y, i, t, r);
  }

  lemma DoubleWord(hi: limb, lo: limb)
    ensures hi * B >= 0 && Or(hi * B, lo) == hi * B + lo
  {
    hide Pow, Or;
    MulNonneg(hi, B);
    ShrUnique(hi * B, biL, hi, 0);
    OrDisjoint(hi * B, lo, biL);
  }

  lemma OneLimbEstimate(x: seq<limb>, y: seq<limb>, i: nat, t: nat, r: int)
    requires 1 <= i < |x| && t < |y| && r >= 0
    requires x[i] * B + x[i - 1] < r * y[t] + y[t]
    ensures Val(TopThree(x, i)) < (r + 1) * Val(TopTwo(y, t))
  {
    hide Pow, Val;
    BaseFacts();
    var x0: limb := if i < 2 then 0 else x[i - 2];
    var y0: limb := if t < 1 then 0 else y[t - 1];
    ThreeLimbs(x0, x[i - 1], x[i]);
    TwoLimbs(y0, y[t]);
    OneLimbAlgebra(x[i], x[i - 1], x0, y[t], y0, r, B);
  }

  lemma OneLimbAlgebra(x2: int, x1: int, x0: int, y1: int, y0: int, r: int, b: int)
    requires x2 * b + x1 < r * y1 + y1 && 0 <= x0 < b && y0 >= 0 && r >= 0
    ensures x0 + x1 * b + x2 * (b * b) < (r + 1) * (y0 + y1 * b)
  {
    MulMono(x2 * b + x1 + 1, r * y1 + y1, b);
    MulDist(x2 * b + x1, 1, b);
    MulDist(x2 * b, x1, b);
    MulAssoc(x2, b, b);
    MulDist(r, 1, y1);
    MulAssoc(r + 1, y1, b);
    MulNonneg(r + 1, y0);
    MulDist(y0, y1 * b, r + 1);
  }

  /** The loop that lowers the digit until it passes the two-limb test. */
  method CorrectEstimate(Z: Mpi, j: nat, X: Mpi, Y: Mpi, i: nat, t: nat, T1: Mpi, T2: Mpi)
    requires Z != T1 && Z != T2 && T1 != T2 && {X, Y} !! {Z, T1, T2}
    requires j < |Z.p| && 1 <= i < |X.p| && t < |Y.p| && |T1.p| >= 2 && |T2.p| >= 3
    modifies Z`p, T1, T2
    ensures |T1.p| >= 2 && |T2.p| >= 3
    ensures |Z.p| == |old(Z.p)| && Z.p == old(Z.p)[j := Z.p[j]]
    ensures Z.p[j] <= old(Z.p[j]) && Z.p[j] * Val(TopTwo(Y.p, t)) <= Val(TopThree(X.p, i))
    ensures LargeEnough(old(Z.p[j]), Val(TopTwo(Y.p, t)), Val(TopThree(X.p, i)))
        ==> BestEstimate(Z.p[j], Val(TopTwo(Y.p, t)), Val(TopThree(X.p, i)))
  {
    hide Pow, Val, Sig, Zeros, AddW, SubW, TopTwo, TopThree, LargeEnough;
    BaseFacts();
    WrapAround(Z.p[j]);
    ghost var z: limb := Z.p[j];
    Z.p := Z.p[j := AddW(Z.p[j], 1)];
    var more := true;
    while more
      invariant |T1.p| >= 2 && |T2.p| >= 3 && |Z.p| == |old(Z.p)|
      invariant z <= old(Z.p[j])
      invariant LargeEnough(old(Z.p[j]), Val(TopTwo(Y.p, t)), Val(TopThree(X.p, i)))
            ==> LargeEnough(z, Val(TopTwo(Y.p, t)), Val(TopThree(X.p, i)))
      invariant if more then SubW(Z.p[j], 1) == z
                else Z.p[j] == z && z * Val(TopTwo(Y.p, t)) <= Val(TopThree(X.p, i))
      invariant Z.p == old(Z.p)[j := Z.p[j]]
      decreases z, more
    {
      Z.p := Z.p[j := SubW(Z.p[j], 1)];
      more := TooLarge(Z.p[j], X, Y, i, t, T1, T2);
      if more {
        NextDigit(z, Val(TopTwo(Y.p, t)), Val(TopThree(X.p, i)));
        z := z - 1;
      }
    }
  }

  /** The body of that loop: T1 = digit * two limbs, T2 = three limbs, and their comparison. */
  method TooLarge(z: limb, X: Mpi, Y: Mpi, i: nat, t: nat, T1: Mpi, T2: Mpi) returns (more: bool)
    requires T1 != T2 && {X, Y} !! {T1, T2}
    requires 1 <= i < |X.p| && t < |Y.p| && |T1.p| >= 2 && |T2.p| >= 3
    modifies T1, T2
    ensures |T1.p| >= 2 && |T2.p| >= 3
    ensures more <==> z * Val(TopTwo(Y.p, t)) > Val(TopThree(X.p, i))
  {
    hide Pow, Val, Sig, TopTwo, TopThree;
    LoadLow(T1, TopTwo(Y.p, t));
    MulInt(T1, T1, z);
    LoadLow(T2, TopThree(X.p, i));
    var c := CmpMpi(T1, T2);
    more := c > 0;
  }

  /** mpi_lset(X, 0) followed by stores to the low limbs. */
  method LoadLow(X: Mpi, v: seq<limb>)
    requires 1 <= |v| <= |X.p|
    modifies X
    ensures X.s == 1 && |X.p| == |old(X.p)| && Val(X.p) == Val(v)
  {
    hide Pow, Val;
    BaseFacts();
    Lset(X, 0);
    X.p := v + X.p[|v|..];
    assert X.p[..|v|] == v;
    PaddingKeepsVal(v, X.p);
  }

  lemma WrapAround(z: limb)
    ensures SubW(AddW(z, 1), 1) == z
  {
    hide Pow;
    BaseFacts();
    if z == B - 1 {
      DivUnique(z + 1, 1, 0, B);
      DivUnique(-1, -1, B - 1, B);
    } else {
      DivUnique(z + 1, 0, z + 1, B);
      DivUnique(z, 0, z, B);
    }
  }

  /** A digit that fails the test is not zero, and the next one is covered by it. */
  lemma NextDigit(z: limb, y2: nat, x3: nat)
    requires z * y2 > x3
    ensures z > 0 && SubW(z, 1) == z - 1 && LargeEnough(z - 1, y2, x3)
  {
    BaseFacts();
    DivUnique(z - 1, 0, z - 1, B);
  }

  /** The three limbs x[i-2..i] carry everything of x above B^(i-2). */
  lemma TopSplit(p: seq<limb>, m: nat, k: nat)
    requires m + k <= |p| && Val(p) < Pow(B, m + k)
    ensures Val(p) == Val(p[m..m + k]) * Pow(B, m) + Val(p[..m]) && Val(p[..m]) < Pow(B, m)
  {
    hide *;
    ValSplit(p, m + k);
    NoHighPart(Val(p), Val(p[..m + k]), Val(p[m + k..]), Pow(B, m + k));
    ValSplit(p[..m + k], m);
    assert p[..m + k][..m] == p[..m] && p[..m + k][m..] == p[m..m + k];
    ValBound(p[..m]);
  }

  lemma NormalisedTop(y: seq<limb>, t: nat)
    requires t < |y| && Normalised(Val(y), t)
    ensures Val(y) < Pow(B, t + 1) && y[t] > 0 && Top(y[t]) && y[t] * Pow(B, t) <= Val(y) < (y[t] + 1) * Pow(B, t)
  {
    hide Pow, Val;
    BaseFacts();
    var w := Pow(B, t);
    PowSucc(B, t);
    MulMono(B / 2, B, w);
    MulMono(1, B / 4, w);
    TopSplit(y, t, 1);
    assert y[t..t + 1] == [y[t]];
    ValSingle(y[t]);
    MulDist(y[t], 1, w);
    if y[t] < B / 4 { MulMono(y[t] + 1, B / 4, w); }
    if y[t] >= B / 2 { MulMono(B / 2, y[t], w); }
  }

  /** One digit of the division: how far the estimated multiple can be from x. */
  lemma DigitBounds(x: seq<limb>, y: seq<limb>, i: nat, t: nat, z: nat)
    requires t < i < |x| && t < |y| && Normalised(Val(y), t)
    requires Val(x) < (Val(y) * Pow(B, i - t - 1)) * B
    requires BestEstimate(z, Val(TopTwo(y, t)), Val(TopThree(x, i)))
    ensures Val(x) < (z + 1) * (Val(y) * Pow(B, i - t - 1))
    ensures (z - 1) * (Val(y) * Pow(B, i - t - 1)) <= Val(x)
  {
    hide Pow, Val, BestEstimate, Normalised, TopTwo, TopThree;
    NormalisedTop(y, t);
    DividendBelow(x, y, i, t);
    TopTwoLarge(y, t);
    if t >= 1 {
      WindowsLong(x, y, i, t);
      EstimateWithinOne(Val(x), Val(y), Pow(B, i - t - 1), Pow(B, t - 1), Val(TopTwo(y, t)),
        Val(y[..t - 1]), Val(TopThree(x, i)), Val(x[..i - 2]), z);
    } else {
      var w := Pow(B, i - 1);
      var xl := WindowShort(x, y, i);
      ScaleUp(Val(x), Val(y), w);
      EstimateWithinOne(Val(x) * B, Val(y) * B, w, 1, Val(TopTwo(y, t)), 0, Val(TopThree(x, i)), xl, z);
      ScaleDown(Val(x), Val(y), w, z);
    }
  }

  lemma DividendBelow(x: seq<limb>, y: seq<limb>, i: nat, t: nat)
    requires t < i < |x| && Val(y) < Pow(B, t + 1)
    requires Val(x) < (Val(y) * Pow(B, i - t - 1)) * B
    ensures Val(x) < Pow(B, i + 1)
  {
    hide *;
    var w := Pow(B, i - t - 1);
    MulStrict(Val(y), Pow(B, t + 1), w);
    PowAdd(B, t + 1, i - t - 1);
    MulMono(Val(y) * w, Pow(B, i), B);
    PowSucc(B, i);
  }

  lemma TopTwoLarge(y: seq<limb>, t: nat)
    requires t < |y| && y[t] > 0
    ensures Val(TopTwo(y, t)) >= B
  {
    hide Pow, Val;
    TwoLimbs(TopTwo(y, t)[0], y[t]);
    MulMono(1, y[t], B);
  }

  lemma WindowsLong(x: seq<limb>, y: seq<limb>, i: nat, t: nat)
    requires 1 <= t < i < |x| && t < |y| && Val(y) < Pow(B, t + 1) && Val(x) < Pow(B, i + 1)
    ensures Val(y) == Val(TopTwo(y, t)) * Pow(B, t - 1) + Val(y[..t - 1])
    ensures Val(y[..t - 1]) < Pow(B, t - 1)
    ensures Val(x) == Val(TopThree(x, i)) * (Pow(B, t - 1) * Pow(B, i - t - 1)) + Val(x[..i - 2])
    ensures Val(x[..i - 2]) < Pow(B, t - 1) * Pow(B, i - t - 1)
  {
    hide Pow, Val;
    TopSplit(y, t - 1, 2);
    assert y[t - 1..t + 1] == TopTwo(y, t);
    TopSplit(x, i - 2, 3);
    assert x[i - 2..i + 1] == TopThree(x, i);
    PowAdd(B, t - 1, i - t - 1);
  }

  /** With a one-limb divisor the window reaches below the limb array; scale by B. */
  lemma WindowShort(x: seq<limb>, y: seq<limb>, i: nat) returns (xl: nat)
    requires 1 <= i < |x| && 0 < |y| && Val(y) < Pow(B, 1) && Val(x) < Pow(B, i + 1)
    ensures Val(y) * B == Val(TopTwo(y, 0)) * 1 + 0
    ensures Val(x) * B == Val(TopThree(x, i)) * (1 * Pow(B, i - 1)) + xl && xl < Pow(B, i - 1)
  {
    hide Pow, Val;
    BaseFacts();
    PowOne(B);
    TopSplit(y, 0, 1);
    assert y[0..1] == [y[0]];
    ValZeros(y[..0]);
    ValSingle(y[0]);
    TwoLimbs(0, y[0]);
    if i >= 2 {
      xl := WindowShortHigh(x, i);
    } else {
      WindowShortLow(x);
      xl := 0;
    }
  }

  lemma WindowShortHigh(x: seq<limb>, i: nat) returns (xl: nat)
    requires 2 <= i < |x| && Val(x) < Pow(B, i + 1)
    ensures Val(x) * B == Val(TopThree(x, i)) * Pow(B, i - 1) + xl && xl < Pow(B, i - 1)
  {
    hide Pow, Val;
    BaseFacts();
    TopSplit(x, i - 2, 3);
    assert x[i - 2..i + 1] == TopThree(x, i);
    PowSucc(B, i - 2);
    MulNonneg(Val(x[..i - 2]), B);
    xl := Val(x[..i - 2]) * B;
    MulDist(Val(TopThree(x, i)) * Pow(B, i - 2), Val(x[..i - 2]), B);
    MulAssoc(Val(TopThree(x, i)), Pow(B, i - 2), B);
    MulStrict(Val(x[..i - 2]), Pow(B, i - 2), B);
  }

  lemma WindowShortLow(x: seq<limb>)
    requires 2 <= |x| && Val(x) < Pow(B, 2)
    ensures Val(x) * B == Val(TopThree(x, 1))
  {
    hide Pow, Val;
    PowOne(B);
    TopSplit(x, 0, 2);
    ValZeros(x[..0]);
    assert x[0..2] == [x[0], x[1]];
    TwoLimbs(x[0], x[1]);
    ThreeLimbs(0, x[0], x[1]);
    MulDist(x[0], x[1] * B, B);
    MulAssoc(x[1], B, B);
  }

  lemma ScaleUp(x: nat, y: nat, w: nat)
    requires x < (y * w) * B
    ensures x * B < ((y * B) * w) * B
  {
    hide Pow;
    BaseFacts();
    MulStrict(x, (y * w) * B, B);
    MulSwap(y, w, B);
  }

  lemma ScaleDown(x: nat, y: nat, w: nat, z: int)
    requires x * B < (z + 1) * ((y * B) * w) && (z - 1) * ((y * B) * w) <= x * B
    ensures x < (z + 1) * (y * w) && (z - 1) * (y * w) <= x
  {
    hide Pow;
    BaseFacts();
    var yw := y * w;
    MulSwap(y, w, B);
    MulAssoc(z + 1, yw, B);
    MulAssoc(z - 1, yw, B);
    MulCancelLess(x, (z + 1) * yw, B);
    if (z - 1) * yw > x { MulStrict(x, (z - 1) * yw, B); }
  }

  /** The quotient digits still to come are zero, and x is what is left of the dividend. */
  ghost predicate Running(x: int, y: nat, z: seq<limb>, n: nat, x0: nat) {
    0 <= x && x + Val(z) * y == x0 && forall k :: 0 <= k < n && k < |z| ==> z[k] == 0
  }

  /** Besides, it fits: the digits so far are right. */
  ghost predicate Progress(x: int, y: nat, z: seq<limb>, n: nat, x0: nat) {
    Running(x, y, z, n, x0) && x < y * Pow(B, n)
  }

  lemma RunningNonneg(x: int, y: nat, z: seq<limb>, n: nat, x0: nat)
    requires Running(x, y, z, n, x0)
    ensures x >= 0
  {
  }

  lemma ProgressIs(x: int, y: nat, z: seq<limb>, n: nat, x0: nat)
    ensures Progress(x, y, z, n, x0) <==> Running(x, y, z, n, x0) && x < y * Pow(B, n)
  {
  }

  /** Storing a digit and subtracting its multiple of the divisor. */
  lemma StoreDigit(x: int, y: nat, z: seq<limb>, n: nat, x0: nat, d: limb)
    requires n < |z| && Running(x, y, z, n + 1, x0)
    requires 0 <= x - d * (y * Pow(B, n))
    ensures Running(x - d * (y * Pow(B, n)), y, z[n := d], n, x0)
  {
    hide Pow, Val;
    ValUpdate(z, n, d);
    var w := Pow(B, n);
    MulDist(Val(z), d * w, y);
    MulSwap(d, w, y);
    MulAssoc(d, y, w);
  }

  /** Whatever the estimate was, one add-back is enough to get back to a nonnegative number. */
  lemma DigitNotTooLarge(x: seq<limb>, y: seq<limb>, i: nat, t: nat, z: limb)
    requires t < i < |x| && t < |y| && Normalised(Val(y), t)
    requires z * Val(TopTwo(y, t)) <= Val(TopThree(x, i))
    ensures (z - 1) * (Val(y) * Pow(B, i - t - 1)) <= Val(x)
  {
    hide Pow, Val, Normalised, TopTwo, TopThree;
    var w := Pow(B, i - t - 1);
    var p := x[..i + 1];
    NormalisedTop(y, t);
    TopTwoLarge(y, t);
    PrefixBelow(x, i + 1);
    SameWindow(x, i);
    ValBound(p);
    if z == 0 {
      MulNonneg(Val(y), w);
    } else if t >= 1 {
      WindowsLong(p, y, i, t);
      YTimesW(Val(TopTwo(y, t)), Pow(B, t - 1), Val(y[..t - 1]), w);
      EstimateNotTooLarge(Val(y) * w, Val(TopTwo(y, t)), Pow(B, t - 1) * w, Val(TopThree(x, i)), z);
    } else {
      var xl := WindowShort(p, y, i);
      YTimesW(Val(TopTwo(y, t)), 1, 0, w);
      EstimateNotTooLarge((Val(y) * B) * w, Val(TopTwo(y, t)), w, Val(TopThree(x, i)), z);
      ScaleDownLow(Val(p), Val(y), w, z);
    }
  }

  lemma PrefixBelow(x: seq<limb>, k: nat)
    requires k <= |x|
    ensures Val(x[..k]) <= Val(x)
  {
    hide Pow, Val;
    ValSplit(x, k);
    MulNonneg(Val(x[k..]), Pow(B, k));
  }

  lemma SameWindow(x: seq<limb>, i: nat)
    requires i < |x|
    ensures TopThree(x[..i + 1], i) == TopThree(x, i)
  {
  }

  lemma ScaleDownLow(x: nat, y: nat, w: nat, z: int)
    requires (z - 1) * ((y * B) * w) <= x * B
    ensures (z - 1) * (y * w) <= x
  {
    hide Pow;
    BaseFacts();
    MulSwap(y, w, B);
    MulAssoc(z - 1, y * w, B);
    if (z - 1) * (y * w) > x { MulStrict(x, (z - 1) * (y * w), B); }
  }

  /** An estimate that is too low by a few leaves at least one more multiple. */
  lemma DigitTooSmall(x: seq<limb>, y: seq<limb>, i: nat, t: nat, z: nat)
    requires t < i < |x| && t < |y| && Normalised(Val(y), t) && z < B
    requires (z + 5) * y[t] <= x[i] * B + x[i - 1]
    ensures (z + 1) * (Val(y) * Pow(B, i - t - 1)) <= Val(x)
  {
    hide Pow, Val, Normalised;
    NormalisedTop(y, t);
    TopIs(y[t]);
    BaseFacts();
    var v, u := Pow(B, i - 1), Pow(B, i - t - 1);
    PowAdd(B, t, i - t - 1);
    MulStrict(Val(y), (y[t] + 1) * Pow(B, t), u);
    MulAssoc(y[t] + 1, Pow(B, t), u);
    assert Val(y) * u <= (y[t] + 1) * v;
    TwoAbove(x, i);
    SmallAlgebra(z, y[t], x[i] * B + x[i - 1], v, Val(y) * u, B);
  }

  /** The limbs x[i] and x[i - 1] alone. */
  lemma TwoAbove(x: seq<limb>, i: nat)
    requires 1 <= i < |x|
    ensures (x[i] * B + x[i - 1]) * Pow(B, i - 1) <= Val(x)
  {
    hide Pow, Val;
    var p := x[..i + 1];
    PrefixBelow(x, i + 1);
    ValBound(p);
    TopSplit(p, i - 1, 2);
    assert p[i - 1..i + 1] == [x[i - 1], x[i]];
    TwoLimbs(x[i - 1], x[i]);
  }

  lemma SmallAlgebra(z: int, d: int, a: int, v: int, yu: int, b: int)
    requires (z + 5) * d <= a && v > 0 && yu <= (d + 1) * v && 0 <= z < b && b <= 4 * d && d > 0
    ensures (z + 1) * yu <= a * v
  {
    assert (z + 1) * (d + 1) <= (z + 5) * d by { MulDist(z, 1, d + 1); MulDist(z, 5, d); }
    MulMono(yu, (d + 1) * v, z + 1);
    MulAssoc(z + 1, d + 1, v);
    MulMono((z + 1) * (d + 1), a, v);
  }

  /** Storing the digit d, the estimate after the two-limb test: it or one less leaves a nonnegative
      rest, which fits if the digits before were right and the estimate was large enough, and
      does not fit otherwise. */
  lemma DigitChoice(x: seq<limb>, y: seq<limb>, z: seq<limb>, i: nat, t: nat, x0: nat, d: limb)
    requires t < i < |x| && t < |y| && i - t <= |z| && Normalised(Val(y), t)
    requires Running(Val(x), Val(y), z, i - t, x0)
    requires d * Val(TopTwo(y, t)) <= Val(TopThree(x, i))
    ensures var j := i - t - 1; var yw := Val(y) * Pow(B, j); var r := Val(x) - d * yw;
            if r >= 0 then Running(r, Val(y), z[j := d], j, x0)
            else d > 0 && SubW(d, 1) == d - 1 && Running(r + yw, Val(y), z[j := d - 1], j, x0)
    ensures var yw := Val(y) * Pow(B, i - t - 1); var r := Val(x) - d * yw;
            Val(x) < Val(y) * Pow(B, i - t) && BestEstimate(d, Val(TopTwo(y, t)), Val(TopThree(x, i)))
            ==> (if r >= 0 then r else r + yw) < yw
  {
    hide Pow, Val, Normalised, BestEstimate, TopTwo, TopThree, Running, SubW;
    var j := i - t - 1;
    var yw := Val(y) * Pow(B, j);
    DigitNotTooLarge(x, y, i, t, d);
    MulDist(d, 1, yw);
    if Val(x) - d * yw >= 0 {
      StoreDigit(Val(x), Val(y), z, j, x0, d);
    } else {
      DigitPositive(d, yw, Val(x));
      StoreDigit(Val(x), Val(y), z, j, x0, d - 1);
    }
    if Val(x) < Val(y) * Pow(B, i - t) && BestEstimate(d, Val(TopTwo(y, t)), Val(TopThree(x, i))) {
      PowSucc(B, j);
      MulAssoc(Val(y), Pow(B, j), B);
      DigitBounds(x, y, i, t, d);
    }
  }

  /** When the rest did not fit before a digit, no digit makes it fit. */
  lemma StaysTooLarge(x: int, y: nat, j: nat, d: limb)
    requires x >= y * Pow(B, j + 1)
    ensures x - d * (y * Pow(B, j)) >= y * Pow(B, j)
  {
    hide Pow;
    PowSucc(B, j);
    MulAssoc(y, Pow(B, j), B);
    MulNonneg(y, Pow(B, j));
    MulMono(d + 1, B, y * Pow(B, j));
    MulDist(d, 1, y * Pow(B, j));
  }

  lemma DigitPositive(d: limb, yw: int, x: nat)
    requires x < d * yw
    ensures d > 0 && SubW(d, 1) == d - 1
  {
    hide Pow;
    BaseFacts();
    DivUnique(d - 1, 0, d - 1, B);
  }

  /** X -= (z * Y) << (biL * j) */
  method SubtractMultiple(X: Mpi, Y: Mpi, T1: Mpi, z: limb, j: nat)
    requires X != T1 && Y != X && Y != T1 && Y.p != [] && Y.s == 1 && X.p != []
    modifies X, T1
    ensures X.Value() == old(X.Value()) - z * (Y.Abs() * Pow(B, j))
    ensures |X.p| >= |old(X.p)| && |T1.p| >= |old(T1.p)|
  {
    hide Pow, Val, Sig, BitLen, LimbCount;
    BasePower(j);
    MulSwap(Y.Abs(), z, Pow(B, j));
    MulInt(T1, Y, z);
    ShiftL(T1, biL * j);
    assert T1.Value() == z * (Y.Abs() * Pow(B, j));
    SubMpi(X, X, T1);
  }

  /** X += Y << (biL * j) */
  method AddBack(X: Mpi, Y: Mpi, T1: Mpi, j: nat)
    requires X != T1 && Y != X && Y != T1 && Y.p != [] && Y.s == 1 && X.p != []
    modifies X, T1
    ensures X.Value() == old(X.Value()) + Y.Abs() * Pow(B, j)
    ensures |X.p| >= |old(X.p)| && |T1.p| >= |old(T1.p)|
  {
    hide Pow, Val, Sig, BitLen, LimbCount;
    BasePower(j);
    Copy(T1, Y);
    ShiftL(T1, biL * j);
    AddMpi(X, X, T1);
  }

  /** One round of the main loop: position i of the dividend, digit i - t - 1 of the quotient.  The
      rest fits after it exactly when it did before and the estimate was large enough. */
  method DivStep(X: Mpi, Y: Mpi, Z: Mpi, T1: Mpi, T2: Mpi, i: nat, t: nat, wide: bool, ghost x0: nat)
    requires X != T1 && X != T2 && X != Z && Z != T1 && Z != T2 && T1 != T2 && Y !in {X, Z, T1, T2}
    requires t < i < |X.p| && t < |Y.p| && i - t <= |Z.p| && |T1.p| >= 2 && |T2.p| >= 3
    requires Y.s == 1 && Normalised(Y.Abs(), t)
    requires Running(X.Value(), Y.Abs(), Z.p, i - t, x0)
    modifies X, Z`p, T1, T2
    ensures |X.p| >= |old(X.p)| && |Z.p| == |old(Z.p)| && |T1.p| >= 2 && |T2.p| >= 3
    ensures Running(X.Value(), Y.Abs(), Z.p, i - t - 1, x0)
    ensures X.Value() < Y.Abs() * Pow(B, i - t - 1)
       <==> old(X.Value()) < Y.Abs() * Pow(B, i - t) && DigitFine(wide, old(X.p[i]), old(X.p[i - 1]), Y.p[t])
  {
    hide Pow, Val, Sig, Normalised, BestEstimate, LargeEnough, SubW, TopTwo, TopThree, Running, DigitFine, Top;
    RunningNonneg(X.Value(), Y.Abs(), Z.p, i - t, x0);
    var j := i - t - 1;
    NormalisedTop(Y.p, t);
    ghost var z0, p, yw := Z.p, X.p, Y.Abs() * Pow(B, j);
    var z := FirstEstimate(X.p, Y.p, i, t, wide);
    Z.p := Z.p[j := z];
    CorrectEstimate(Z, j, X, Y, i, t, T1, T2);
    assert Z.p == z0[j := Z.p[j]];
    ghost var d: limb := Z.p[j];
    DigitChoice(p, Y.p, z0, i, t, x0, d);
    if !DigitFine(wide, p[i], p[i - 1], Y.p[t]) { TooSmallAfter(p, Y.p, i, t, z, d); }
    if Val(p) >= Y.Abs() * Pow(B, j + 1) { StaysTooLarge(Val(p), Y.Abs(), j, d); }
    SubtractMultiple(X, Y, T1, Z.p[j], j);
    var c := CmpInt(X, 0);
    if c < 0 {
      MulNonneg(Y.Abs(), Pow(B, j));
      AddBack(X, Y, T1, j);
      Z.p := Z.p[j := SubW(Z.p[j], 1)];
      assert Z.p == z0[j := Z.p[j]];
    }
  }

  lemma TooSmallAfter(x: seq<limb>, y: seq<limb>, i: nat, t: nat, z: limb, d: limb)
    requires t < i < |x| && t < |y| && Normalised(Val(y), t) && d <= z
    requires (z + 5) * y[t] <= x[i] * B + x[i - 1]
    ensures Val(x) - d * (Val(y) * Pow(B, i - t - 1)) >= Val(y) * Pow(B, i - t - 1)
  {
    hide Pow, Val, Normalised;
    var yw := Val(y) * Pow(B, i - t - 1);
    DigitTooSmall(x, y, i, t, z);
    MulNonneg(Val(y), Pow(B, i - t - 1));
    MulMono(d + 1, z + 1, yw);
    MulDist(d, 1, yw);
  }

  /** The divisor of msb-aligned length m * biL + biL - 1 bits is normalised. */
  lemma NormalisedBits(v: nat, m: nat)
    requires BitLen(v) == m * biL + biL - 1
    ensures Normalised(v, m)
  {
    hide *;
    HalfAndQuarter();
    BitRange(v, m * biL + biL - 1);
    BasePower(m);
    PowAdd(2, biL - 1, biL * m);
    PowAdd(2, biL - 2, biL * m);
    NormalisedFrom(v, m, Pow(2, biL - 2), Pow(2, biL - 1));
  }

  lemma BitRange(v: nat, n: nat)
    requires n > 0 && BitLen(v) == n
    ensures Pow(2, n - 1) <= v < Pow(2, n)
  {
    hide Pow;
    BitLenBounds(v);
  }

  lemma HalfAndQuarter()
    ensures Pow(2, biL - 1) == B / 2 && Pow(2, biL - 2) == B / 4
  {
    PowersOfTwo();
    hide Pow;
    LimbBase(1);
    LimbBase(2);
    PowOne(2);
    BaseQuarter(B, Pow(2, biL - 1), Pow(2, biL - 2));
  }

  lemma BaseQuarter(b: nat, h: nat, q: nat)
    requires b == 2 * h && b == 4 * q
    ensures b / 2 == h && b / 4 == q
  {
  }

  lemma NormalisedFrom(v: nat, m: nat, q: nat, h: nat)
    requires q == B / 4 && h == B / 2 && q * Pow(B, m) <= v < h * Pow(B, m)
    ensures Normalised(v, m)
  {
  }

  /** How far the source shifts to normalise a divisor. */
  function NormalShift(y: nat): nat {
    biL - 1 - RestBits(BitLen(y))
  }

  /** Both operands shifted so that the divisor is normalised. */
  method Normalise(X: Mpi, Y: Mpi) returns (k: nat)
    requires X != Y && 0 < Y.Abs() <= X.Abs()
    requires |X.p| == Sig(X.p) && |Y.p| == Sig(Y.p)
    modifies X`p, Y`p
    ensures X.Abs() == old(X.Abs()) * Pow(2, k) && Y.Abs() == old(Y.Abs()) * Pow(2, k)
    ensures k == NormalShift(old(Y.Abs()))
    ensures |Y.p| == LimbCount(BitLen(old(Y.Abs())) + k) && |X.p| == LimbCount(BitLen(old(X.Abs())) + k)
    ensures 0 < |Y.p| <= |X.p| <= |old(X.p)| + 1 && |X.p| >= |old(X.p)| && Normalised(Y.Abs(), |Y.p| - 1)
  {
    hide Pow, Val, Sig, BitLen, LimbCount, Normalised, RestBits;
    ghost var x, y := X.Abs(), Y.Abs();
    SigBounds(X.p);
    SigBounds(Y.p);
    SigBits(X.p);
    SigBits(Y.p);
    var bits := Msb(Y);
    k := RestBits(bits);
    if k < biL - 1 {
      k := biL - 1 - k;
      ShiftL(X, k);
      ShiftL(Y, k);
    } else {
      k := 0;
      PowOne(2);
    }
    NormalShiftIs(y);
    NormalisedLengths(x, y, k);
    NormalisedDivisor(y, k);
  }

  lemma NormalShiftIs(y: nat)
    ensures NormalShift(y) == biL - 1 - RestBits(BitLen(y))
  {
  }

  lemma {:induction false} BitLenMono(x: nat, y: nat)
    requires x <= y
    ensures BitLen(x) <= BitLen(y)
  {
    if x > 0 { BitLenMono(x / 2, y / 2); }
  }

  lemma NormalisedDivisor(y: nat, k: nat)
    requires 0 < y && k < biL && RestBits(BitLen(y)) + k == biL - 1
    ensures 0 < LimbCount(BitLen(y) + k) && Normalised(y * Pow(2, k), LimbCount(BitLen(y) + k) - 1)
  {
    hide Pow, Normalised, BitLen, RestBits, WholeLimbs, LimbCount;
    BitLenMul(y, k);
    var m := WholeLimbs(BitLen(y));
    CountSplit(BitLen(y));
    MulDist(m, 1, biL);
    LimbCountUnique(BitLen(y) + k, m + 1);
    NormalisedBits(y * Pow(2, k), m);
  }

  lemma NormalisedLengths(x: nat, y: nat, k: nat)
    requires 0 < y <= x && k < biL
    ensures LimbCount(BitLen(y)) <= LimbCount(BitLen(y) + k) <= LimbCount(BitLen(x) + k) <= LimbCount(BitLen(x)) + 1
    ensures LimbCount(BitLen(x)) <= LimbCount(BitLen(x) + k)
  {
    hide BitLen, LimbCount;
    BitLenMono(y, x);
    LimbCountMono(BitLen(y), BitLen(y) + k);
    LimbCountMono(BitLen(y) + k, BitLen(x) + k);
    LimbCountMono(BitLen(x), BitLen(x) + k);
    LimbCountMono(BitLen(x) + k, BitLen(x) + biL);
    LimbCountNext(BitLen(x));
  }

  lemma LimbCountMono(a: nat, b: nat)
    requires a <= b
    ensures LimbCount(a) <= LimbCount(b)
  {
    var p, q := LimbCount(a), LimbCount(b);
    DivMod(a + biL - 1, biL);
    DivMod(b + biL - 1, biL);
    if q < p {
      MulMono(q + 1, p, biL);
      MulDist(q, 1, biL);
    }
  }

  lemma LimbCountNext(a: nat)
    ensures LimbCount(a + biL) == LimbCount(a) + 1
  {
    var p := LimbCount(a);
    DivMod(a + biL - 1, biL);
    MulDist(p, 1, biL);
    DivUnique(a + biL + biL - 1, p + 1, (a + biL - 1) % biL, biL);
  }

  /** The loop that takes the top digit: at most three subtractions, since the divisor is
      normalised. */
  method TopDigit(X: Mpi, Y: Mpi, Z: Mpi, m: nat, t: nat)
    requires X != Y && X != Z && Y != Z && X.p != [] && Y.p != [] && Y.s == 1
    requires m < |Z.p| && (forall k :: 0 <= k < |Z.p| ==> Z.p[k] == 0)
    requires 0 <= X.Value() < Pow(B, m + t + 1) && (B / 4) * Pow(B, m + t) <= Y.Abs()
    modifies X, Z`p
    ensures |X.p| >= |old(X.p)| && |Z.p| == |old(Z.p)| && Z.p[m] <= 3
    ensures 0 <= X.Value() < Y.Abs() && X.Value() == old(X.Value()) - Z.p[m] * Y.Abs()
    ensures Z.p == old(Z.p)[m := Z.p[m]]
  {
    hide Pow, Val, Sig, AddW;
    BaseFacts();
    ghost var x0 := X.Value();
    var c := CmpMpi(X, Y);
    while c >= 0
      invariant |X.p| >= |old(X.p)| && |Z.p| == |old(Z.p)| && Z.p[m] <= 3
      invariant Z.p == old(Z.p)[m := Z.p[m]]
      invariant 0 <= X.Value() == x0 - Z.p[m] * Y.Abs()
      invariant c == Compare(X.Value(), Y.Value())
      decreases 4 - Z.p[m]
    {
      TopDigitBound(x0, Y.Abs(), Z.p[m], m + t);
      Z.p := Z.p[m := AddW(Z.p[m], 1)];
      SubMpi(X, X, Y);
      c := CmpMpi(X, Y);
    }
  }

  lemma TopDigitBound(x0: int, y: nat, c: limb, e: nat)
    requires x0 < Pow(B, e + 1) && (B / 4) * Pow(B, e) <= y && y <= x0 - c * y && c <= 3
    ensures c < 3 && AddW(c, 1) == c + 1 && (c + 1) * y == c * y + y
  {
    hide Pow;
    BaseFacts();
    PowSucc(B, e);
    MulDist(c, 1, y);
    DivUnique(c + 1, 0, c + 1, B);
    if c == 3 {
      var q := B / 4;
      assert B == 4 * q;
      MulAssoc(4, q, Pow(B, e));
    }
  }

  /** The divisor moved up by m limbs for the first loop, and back. */
  lemma ShiftedDivisor(y: nat, m: nat, t: nat, n: nat)
    requires Normalised(y, t)
    ensures (B / 4) * Pow(B, m + t) <= y * Pow(2, biL * m) == y * Pow(B, m)
    ensures Shr(y * Pow(B, m), biL * m) == y
  {
    hide Pow, Shr;
    BasePower(m);
    PowAdd(B, t, m);
    MulMono((B / 4) * Pow(B, t), y, Pow(B, m));
    MulAssoc(B / 4, Pow(B, t), Pow(B, m));
    ShrUnique(y * Pow(B, m), biL * m, y, 0);
  }

  lemma FirstProgress(x: int, x0: nat, y: nat, z: seq<limb>, m: nat, d: limb)
    requires m < |z| && forall k :: 0 <= k < |z| ==> z[k] == 0
    requires 0 <= x && x == x0 - d * (y * Pow(B, m))
    ensures Running(x, y, z[m := d], m, x0)
  {
    hide Pow, Val;
    ValZeros(z);
    ValUpdate(z, m, d);
    MulAssoc(d, y, Pow(B, m));
    MulSwap(d, Pow(B, m), y);
  }

  /** Limb k of a number. */
  function LimbAt(v: nat, k: nat): limb {
    BaseFacts();
    (v / Pow(B, k)) % B
  }

  /** Whether the estimate at position i is large enough, when the digits before were right: then
      the rest of the dividend is x0 modulo the divisor moved up to that position. */
  ghost predicate StepFine(wide: bool, x0: nat, y: nat, i: nat, t: nat)
    requires y > 0 && t < i
  {
    BaseFacts();
    MulNonneg(y, Pow(B, i - t));
    var r := RestAt(x0, y, i - t);
    DigitFine(wide, LimbAt(r, i), LimbAt(r, i - 1), LimbAt(y, t))
  }

  ghost function RestAt(x0: nat, y: nat, n: nat): (r: nat)
    requires y > 0
  {
    BaseFacts();
    MulMono(1, y, Pow(B, n));
    RemainderNonneg(x0, y * Pow(B, n));
    x0 % (y * Pow(B, n))
  }

  lemma RestIs(x: nat, y: nat, z: seq<limb>, n: nat, x0: nat)
    requires y > 0 && Progress(x, y, z, n, x0) && n <= |z|
    ensures RestAt(x0, y, n) == x
  {
    hide Pow, Val;
    MulMono(1, y, Pow(B, n));
    LowZeros(z, n);
    var q := Val(z[n..]);
    MulSwap(q, Pow(B, n), y);
    MulAssoc(q, y, Pow(B, n));
    DivUnique(x0, q, x, y * Pow(B, n));
  }

  lemma LowZeros(z: seq<limb>, n: nat)
    requires n <= |z| && forall k :: 0 <= k < n ==> z[k] == 0
    ensures Val(z) == Val(z[n..]) * Pow(B, n)
  {
    hide Pow, Val;
    ValSplit(z, n);
    ValZeros(z[..n]);
  }

  lemma LimbIs(p: seq<limb>, k: nat)
    requires k < |p|
    ensures LimbAt(Val(p), k) == p[k]
  {
    hide Pow, Val;
    BaseFacts();
    ValSplit(p, k);
    ValBound(p[..k]);
    DivUnique(Val(p), Val(p[k..]), Val(p[..k]), Pow(B, k));
    ValFirst(p[k..]);
    DivUnique(Val(p[k..]), Val(p[k..][1..]), p[k], B);
  }

  /** All estimates from position n down to i. */
  ghost predicate StepsFine(wide: bool, x0: nat, y: nat, n: nat, i: nat, t: nat)
    requires y > 0 && t <= i
  {
    forall k :: i < k <= n ==> StepFine(wide, x0, y, k, t)
  }

  lemma NextStep(wide: bool, x0: nat, y: nat, n: nat, i: nat, t: nat)
    requires y > 0 && t < i <= n
    ensures StepsFine(wide, x0, y, n, i - 1, t) <==> StepsFine(wide, x0, y, n, i, t) && StepFine(wide, x0, y, i, t)
  {
    hide StepFine;
  }

  /** The limbs that the estimate looks at are those of the rest. */
  lemma StepLimbs(wide: bool, x: seq<limb>, y: seq<limb>, z: seq<limb>, i: nat, t: nat, x0: nat)
    requires t < i < |x| && t < |y| && i - t <= |z| && Val(y) > 0
    requires Progress(Val(x), Val(y), z, i - t, x0)
    ensures StepFine(wide, x0, Val(y), i, t) <==> DigitFine(wide, x[i], x[i - 1], y[t])
  {
    hide Pow, Val, Progress, DigitFine, LimbAt, RestAt;
    RestIs(Val(x), Val(y), z, i - t, x0);
    LimbIs(x, i);
    LimbIs(x, i - 1);
    LimbIs(y, t);
  }

  /** The division proper, on normalised operands: the quotient so far and the rest always belong
      together, and the rest is below the divisor exactly when no estimate was too low. */
  method DivCore(X: Mpi, Y: Mpi, Z: Mpi, wide: bool) returns (ghost x0: nat)
    requires X != Y && X != Z && Y != Z && Y.s == 1 && X.Value() >= 0
    requires 0 < |Y.p| <= |X.p| && Normalised(Y.Abs(), |Y.p| - 1)
    requires |X.p| - |Y.p| < |Z.p| && (forall k :: 0 <= k < |Z.p| ==> Z.p[k] == 0)
    modifies X, Y, Z`p
    ensures x0 == old(X.Value()) && Y.Abs() == old(Y.Abs()) > 0
    ensures Running(X.Value(), Y.Abs(), Z.p, 0, x0)
    ensures X.Value() < Y.Abs() <==> StepsFine(wide, x0, Y.Abs(), old(|X.p|) - 1, old(|Y.p|) - 1, old(|Y.p|) - 1)
    ensures |Z.p| == |old(Z.p)| && |X.p| >= |old(X.p)|
  {
    hide Pow, Val, Sig, Normalised, Progress, Running, Shr, BitLen, LimbCount, StepsFine, StepFine, DigitFine;
    x0 := X.Value();
    ValBound(X.p);
    ghost var y, z0 := Y.Abs(), Z.p;
    var T1 := new Mpi();
    var T2 := new Mpi();
    Grow(T1, 2);
    Grow(T2, 3);
    var n, t := |X.p| - 1, |Y.p| - 1;
    ShiftedDivisor(y, n - t, t, n);
    ShiftL(Y, biL * (n - t));
    TopDigit(X, Y, Z, n - t, t);
    FirstProgress(X.Value(), x0, y, z0, n - t, Z.p[n - t]);
    ShiftR(Y, biL * (n - t));
    YPositive(y, t);
    NoSteps(wide, x0, y, n, t);
    var i := n;
    while i > t
      invariant |Z.p| == |old(Z.p)| && t <= i <= n < |X.p| && t < |Y.p| && n - t < |Z.p| && |T1.p| >= 2 && |T2.p| >= 3
      invariant Y.s == 1 && Y.Abs() == y
      invariant Running(X.Value(), y, Z.p, i - t, x0)
      invariant X.Value() < y * Pow(B, i - t) <==> StepsFine(wide, x0, y, n, i, t)
    {
      ghost var p, z := X.p, Z.p;
      RunningNonneg(X.Value(), y, Z.p, i - t, x0);
      ProgressIs(X.Value(), y, Z.p, i - t, x0);
      NextStep(wide, x0, y, n, i, t);
      if X.Value() < y * Pow(B, i - t) { StepLimbs(wide, p, Y.p, z, i, t, x0); }
      DivStep(X, Y, Z, T1, T2, i, t, wide, x0);
      i := i - 1;
    }
    PowOne(B);
  }

  lemma NoSteps(wide: bool, x0: nat, y: nat, n: nat, t: nat)
    requires y > 0 && t <= n
    ensures StepsFine(wide, x0, y, n, n, t)
  {
  }

  lemma YPositive(y: nat, t: nat)
    requires Normalised(y, t)
    ensures y > 0
  {
    hide Pow;
    BaseFacts();
    MulMono(1, B / 4, Pow(B, t));
  }

  /** Undoing the normalising shift. */
  lemma Unnormalise(a: nat, b: nat, k: nat, z: seq<limb>, x: nat)
    requires b > 0 && Running(x, b * Pow(2, k), z, 0, a * Pow(2, k))
    ensures Shr(x, k) == a - Val(z) * b
    ensures x < b * Pow(2, k) <==> Shr(x, k) < b
  {
    hide Pow, Val, Shr;
    var q, s := Val(z), Pow(2, k);
    PowOne(2);
    PowMono(2, 0, k);
    MulAssoc(q, b, s);
    MulDist(a, q * b, s);
    var r := a - q * b;
    if r < 0 { MulMono(r, -1, s); }
    ShrUnique(x, k, r, 0);
    if r < b { MulStrict(r, b, s); } else { MulMono(b, r, s); }
  }

  /** Whether dividing a by b is exact: always with a double-width type; without one, when no
      estimate is too low. */
  ghost predicate DivisionFine(wide: bool, a: nat, b: nat) {
    wide || b == 0 || a < b || NormalisedFine(a, b)
  }

  ghost predicate NormalisedFine(a: nat, b: nat)
    requires b > 0
  {
    var k := NormalShift(b);
    var n, t := LimbCount(BitLen(a) + k) - 1, LimbCount(BitLen(b) + k) - 1;
    0 <= t && 0 <= n && (MulMono(1, b, Pow(2, k)); StepsFine(false, a * Pow(2, k), b * Pow(2, k), n, t, t))
  }

  lemma WideIsFine(x0: nat, y: nat, n: nat, i: nat, t: nat)
    requires y > 0 && t <= i
    ensures StepsFine(true, x0, y, n, i, t)
  {
  }

  lemma FineSteps(wide: bool, a: nat, b: nat, k: nat, n: nat, t: nat, yk: nat)
    requires 0 < b <= a && k == NormalShift(b) && n + 1 == LimbCount(BitLen(a) + k) && t + 1 == LimbCount(BitLen(b) + k)
    requires yk == b * Pow(2, k) && yk > 0
    ensures DivisionFine(wide, a, b) <==> StepsFine(wide, a * Pow(2, k), yk, n, t, t)
  {
    hide StepsFine, LimbCount, BitLen, NormalShift, Pow;
    if wide { WideIsFine(a * Pow(2, k), yk, n, t, t); }
  }

  /** Quotient and remainder of the magnitudes, in Z and X. */
  method DivMagnitudes(X: Mpi, Y: Mpi, Z: Mpi, wide: bool)
    requires X != Y && X != Z && Y != Z && 0 < Y.Abs() <= X.Abs() && X.s == 1 && Y.s == 1
    requires |X.p| == Sig(X.p) && |Y.p| == Sig(Y.p)
    requires |Z.p| >= |X.p| + 2 && (forall k :: 0 <= k < |Z.p| ==> Z.p[k] == 0)
    modifies X, Y, Z`p
    ensures |Z.p| == |old(Z.p)| && |X.p| >= |old(X.p)|
    ensures X.Abs() == old(X.Abs()) - Z.Abs() * old(Y.Abs())
    ensures X.Abs() < old(Y.Abs()) <==> DivisionFine(wide, old(X.Abs()), old(Y.Abs()))
  {
    hide Pow, Val, Sig, Normalised, Progress, Running, Shr, DivisionFine, StepsFine, BitLen, LimbCount, NormalShift;
    ghost var a, b := X.Abs(), Y.Abs();
    var k := Normalise(X, Y);
    ghost var n, t := |X.p| - 1, |Y.p| - 1;
    ghost var x0 := DivCore(X, Y, Z, wide);
    FineSteps(wide, a, b, k, n, t, Y.Abs());
    RunningNonneg(X.Value(), Y.Abs(), Z.p, 0, x0);
    Unnormalise(a, b, k, Z.p, X.Value());
    ShiftR(X, k);
  }

  /** mpi_div_mpi: A = Q * B + R, rounding the quotient toward zero.  Either result may be skipped;
      R may overwrite A or B, Q may not.  The equation always holds; the results are the quotient
      and the remainder exactly when the division of the magnitudes is fine. */
  method DivMpi(Q: Mpi?, R: Mpi?, A: Mpi, Bm: Mpi, wide: bool := true) returns (ok: bool)
    requires Q != null ==> Q != A && Q != Bm && Q != R
    modifies if Q == null then {} else {Q}
    modifies if R == null then {} else {R}
    ensures ok <==> old(Bm.Value()) != 0
    ensures ok && Q != null ==>
      (Q.Value() == TruncDiv(old(A.Value()), old(Bm.Value())) <==> DivisionFine(wide, old(A.Abs()), old(Bm.Abs())))
    ensures ok && R != null ==>
      (R.Value() == TruncRem(old(A.Value()), old(Bm.Value())) <==> DivisionFine(wide, old(A.Abs()), old(Bm.Abs())))
    ensures ok && Q != null && R != null ==> old(A.Value()) == Q.Value() * old(Bm.Value()) + R.Value()
    ensures ok && R != null ==> Cong(R.Value(), old(A.Value()), old(Bm.Abs()))
    ensures ok && R != null && R.Value() == 0 && old(A.Abs()) >= old(Bm.Abs()) ==> R.s == 1
    ensures ok && R != null && old(A.s) == 1 && old(A.p) != [] ==> R.s == 1
    ensures !ok && Q != null ==> Q.p == old(Q.p) && Q.s == old(Q.s)
    ensures !ok && R != null ==> R.p == old(R.p) && R.s == old(R.s)
    ensures ok && R != null && old(A.p) != [] ==> R.p != [] && |R.p| >= |old(R.p)|
  {
    hide Pow, Val, Sig, Zeros, TruncDiv, TruncRem, DivisionFine, Cong;
    BaseFacts();
    var c := CmpInt(Bm, 0);
    if c == 0 { return false; }
    c := CmpAbs(A, Bm);
    if c < 0 {
      SmallDividend(A.Value(), Bm.Value(), A.Abs(), Bm.Abs(), wide);
      if Q != null { Lset(Q, 0); }
      if R != null { Copy(R, A); }
      return true;
    }
    var X, Z := DivideLarge(A, Bm, wide);
    LargeDividend(A.Value(), Bm.Value(), A.s, Bm.s, A.Abs(), Bm.Abs(), Z.Abs(), X.Abs());
    SignedEquation(A.Value(), Bm.Value(), A.s, Bm.s, A.Abs(), Bm.Abs(), Z.Abs(), X.Abs());
    if Q != null {
      Copy(Q, Z);
      Q.s := A.s * Bm.s;
    }
    if R != null {
      StoreRemainder(R, X, A.s);
    }
    return true;
  }

  /** The last lines of mpi_div_mpi: the remainder takes the sign of the dividend. */
  method StoreRemainder(R: Mpi, X: Mpi, s: Sign)
    requires R != X && X.p != []
    modifies R, X
    ensures R.Value() == (if s == 1 then old(X.Abs()) else 0 - old(X.Abs()))
    ensures (R.Value() == 0 || s == 1 ==> R.s == 1) && R.p != [] && |R.p| >= |old(R.p)|
  {
    hide Pow, Val, Sig;
    BaseFacts();
    X.s := s;
    Copy(R, X);
    var c := CmpInt(R, 0);
    if c == 0 { R.s := 1; }
  }

  /** The part of mpi_div_mpi between the early return and the results. */
  method DivideLarge(A: Mpi, Bm: Mpi, wide: bool) returns (X: Mpi, Z: Mpi)
    requires 0 < Bm.Abs() <= A.Abs()
    ensures fresh(X) && fresh(Z) && X != Z && X.p != [] && Z.p != []
    ensures X.Abs() == A.Abs() - Z.Abs() * Bm.Abs()
    ensures X.Abs() < Bm.Abs() <==> DivisionFine(wide, A.Abs(), Bm.Abs())
  {
    hide Pow, Val, Sig, Zeros, DivisionFine;
    BaseFacts();
    X := new Mpi();
    var Y := new Mpi();
    Z := new Mpi();
    TrimmedCopy(X, A);
    TrimmedCopy(Y, Bm);
    X.s, Y.s := 1, 1;
    Grow(Z, |A.p| + 2);
    Clear(Z);
    EmptyValue(X.p);
    DivMagnitudes(X, Y, Z, wide);
  }

  /** mpi_lset(X, 0) */
  method Clear(X: Mpi)
    requires X.p != []
    modifies X
    ensures X.s == 1 && |X.p| == |old(X.p)| && forall k :: 0 <= k < |X.p| ==> X.p[k] == 0
  {
    BaseFacts();
    Lset(X, 0);
  }

  /** The signs put on a quotient q and a rest r of the magnitudes are right exactly when r is
      below the divisor. */
  lemma LargeDividend(a: int, b: int, sa: Sign, sb: Sign, x: nat, y: nat, q: nat, r: nat)
    requires a == sa * x && b == sb * y && y > 0 && x >= y && r == x - q * y
    ensures sa * sb * q == TruncDiv(a, b) <==> r < y
    ensures sa * r == TruncRem(a, b) <==> r < y
  {
    hide Pow;
    assert AbsOf(a) == x && AbsOf(b) == y;
    assert (a >= 0) == (sa == 1) && (b > 0) == (sb == 1);
    DivMod(x, y);
    if r < y {
      DivUnique(x, q, r, y);
    } else if q == x / y {
      assert false;
    }
    RightQuotient(x, y, q, r);
  }

  lemma SignedEquation(a: int, b: int, sa: Sign, sb: Sign, x: nat, y: nat, q: nat, r: nat)
    requires a == sa * x && b == sb * y && y > 0 && r == x - q * y
    ensures a == sa * sb * q * b + sa * r && Cong(sa * r, a, y)
  {
    if sa == 1 && sb == 1 {} else if sa == 1 {} else if sb == 1 {} else {}
    CongMultiple(a, sa * r, sa * q, y);
  }

  lemma RightQuotient(x: nat, y: nat, q: nat, r: nat)
    requires y > 0 && x >= y && r == x - q * y
    ensures q == x / y <==> r < y
    ensures r == x % y <==> r < y
    ensures x / y > 0
  {
    DivMod(x, y);
    if r < y { DivUnique(x, q, r, y); }
    if x / y <= 0 { MulMono(x / y, 0, y); }
  }

  lemma SmallDividend(a: int, b: int, x: nat, y: nat, wide: bool)
    requires AbsOf(a) == x < y == AbsOf(b)
    ensures TruncDiv(a, b) == 0 && TruncRem(a, b) == a && DivisionFine(wide, x, y)
    ensures Cong(a, a, y)
  {
    DivUnique(AbsOf(a), 0, AbsOf(a), AbsOf(b));
  }

  /** Without a double-width type, division by b is exact for every dividend when the lower half of
      the normalised divisor's top limb is not among the two greatest. */
  lemma MostDivisorsFine(a: nat, b: nat)
    requires b > 0
    requires var y := b * Pow(2, NormalShift(b)); var t := LimbCount(BitLen(b) + NormalShift(b)) - 1;
      t >= 0 && y >= 0 && (Lower(LimbAt(y, t)) + 3 <= Half())
    ensures DivisionFine(false, a, b)
  {
    hide Pow, TooLow, Upper, Lower, LimbAt, RestAt, Top, BitLen, LimbCount, NormalShift, Half;
    if b <= a {
      var k := NormalShift(b);
      var n, t := LimbCount(BitLen(a) + k) - 1, LimbCount(BitLen(b) + k) - 1;
      LimbCountNonneg(a, b, k);
      var x0, y: nat := a * Pow(2, k), b * Pow(2, k);
      MulMono(1, b, Pow(2, k));
      forall i | t < i <= n ensures StepFine(false, x0, y, i, t) {
        var r := RestAt(x0, y, i - t);
        if Top(LimbAt(y, t)) && LimbAt(r, i) < LimbAt(y, t) { NoWrap(LimbAt(r, i), LimbAt(r, i - 1), LimbAt(y, t)); }
      }
    }
  }

  lemma LimbCountNonneg(a: nat, b: nat, k: nat)
    requires b <= a && LimbCount(BitLen(b) + k) >= 1
    ensures LimbCount(BitLen(a) + k) >= 1
  {
    hide LimbCount, BitLen;
    BitLenMono(b, a);
    LimbCountMono(BitLen(b) + k, BitLen(a) + k);
  }

  /** For every limb size there are operands whose quotient comes out wrong without a double-width
      type: a two-limb dividend and a one-limb divisor. */
  lemma PortableDivisionFails() returns (a: nat, b: nat)
    ensures 0 < b < B && b <= a < B * B && !DivisionFine(false, a, b)
  {
    hide Pow, TooLow, Upper, Lower, LimbAt, RestAt, Top, BitLen, LimbCount, NormalShift, Val, StepFine;
    BaseFacts();
    var hi, d := SomeWrap();
    TopIs(d);
    MulNonneg(hi, B);
    a, b := hi * B, d;
    MulMono(1, hi, B);
    MulStrict(hi, B, B);
    OneLimbNormal(d);
    TwoLimbsLong(hi);
    PowOne(2);
    assert a * Pow(2, 0) == a && b * Pow(2, 0) == b;
    FailingStep(hi, d, a);
  }

  /** A limb of biL - 1 bits needs no shift. */
  lemma OneLimbNormal(d: limb)
    requires B / 4 <= d < B / 2
    ensures NormalShift(d) == 0 && LimbCount(BitLen(d) + 0) == 1
  {
    hide Pow, BitLen;
    HalfAndQuarter();
    BaseFacts();
    BitLenUnique(d, biL - 1);
    DivUnique(biL - 1, 0, biL - 1, biL);
    LimbCountUnique(biL - 1, 1);
  }

  lemma TwoLimbsLong(hi: limb)
    requires hi > 0
    ensures hi * B >= 0 && LimbCount(BitLen(hi * B) + 0) == 2
  {
    hide Pow, BitLen, LimbCount, Val, Sig;
    var p := [0, hi];
    TwoLimbs(0, hi);
    SigBits(p);
    SigUnique(p, 2);
  }

  lemma FailingStep(hi: limb, d: limb, a: nat)
    requires Top(d) && hi < d && Upper(d) > 0 && Wraps(hi, d) > 0 && a == hi * B
    ensures d > 0 && !StepFine(false, a, d, 1, 0)
  {
    hide Pow, Upper, Lower, Top, Wraps, Partial, UpperQuotient;
    BaseFacts();
    TopIs(d);
    PowOne(B);
    MulStrict(hi, d, B);
    DivUnique(a, 0, a, d * B);
    DivUnique(a, hi, 0, B);
    DivUnique(hi, 0, hi, B);
    DivUnique(d, d, 0, 1);
    DivUnique(d, 0, d, B);
    DivUnique(a, a, 0, 1);
  }

  lemma WideIsExact(a: nat, b: nat)
    ensures DivisionFine(true, a, b)
  {
  }

  /** Copying a nonzero number into a fresh object leaves just its significant limbs. */
  method TrimmedCopy(X: Mpi, A: Mpi)
    requires X != A && X.p == [] && A.Abs() > 0
    modifies X
    ensures X.Abs() == A.Abs() && |X.p| == Sig(X.p) <= |A.p|
  {
    hide Pow, Val, Sig;
    SigBounds(A.p);
    ValZeros([]);
    Copy(X, A);
    CompareBySig(X.p, A.p);
  }

  /** mpi_mod_mpi: R = A mod B in [0, B), for every A, in place or not.  When the division leaves too
      large a rest, the closing subtractions still reduce it. */
  method ModMpi(R: Mpi, A: Mpi, Bm: Mpi, wide: bool := true) returns (st: Status)
    requires R != Bm
    modifies R
    ensures st == if Bm.Value() < 0 then NegativeValue
                  else if Bm.Value() == 0 then DivisionByZero else Success
    ensures st == Success ==> R.Value() == old(A.Value()) % Bm.Value() && R.Value() < Bm.Value()
    ensures st == Success && old(A.p) != [] ==> R.p != [] && |R.p| >= |old(R.p)|
    ensures st == Success && old(A.p) != [] && old(A.s) == 1 ==> R.s == 1
    ensures st != Success ==> R.p == old(R.p) && R.s == old(R.s)
  {
    hide Pow, Val, Sig, TruncDiv, TruncRem, Cong, DivisionFine;
    BaseFacts();
    var c := CmpInt(Bm, 0);
    if c < 0 { return NegativeValue; }
    ghost var a, b := A.Value(), Bm.Value();
    var ok := DivMpi(null, R, A, Bm, wide);
    if !ok { return DivisionByZero; }
    ghost var r := R.Value();
    RaiseToNonnegative(R, Bm);
    ModChain(R.Value(), r, a, b);
    ReduceBelow(R, Bm);
    return Success;
  }

  /** while R < 0: R += B */
  method RaiseToNonnegative(R: Mpi, Bm: Mpi)
    requires R != Bm && Bm.Value() > 0
    modifies R
    ensures R.Value() >= 0 && Cong(R.Value(), old(R.Value()), Bm.Value())
    ensures old(R.Value()) >= 0 ==> R.s == old(R.s) && R.p == old(R.p)
    ensures old(R.p) != [] ==> R.p != [] && |R.p| >= |old(R.p)|
  {
    hide Pow, Val;
    BaseFacts();
    ghost var b := Bm.Value();
    var c := CmpInt(R, 0);
    while c < 0
      invariant Cong(R.Value(), old(R.Value()), b) && c == Compare(R.Value(), 0)
      invariant old(R.Value()) >= 0 ==> R.s == old(R.s) && R.p == old(R.p)
      invariant old(R.p) != [] ==> R.p != [] && |R.p| >= |old(R.p)|
      decreases 0 - R.Value()
    {
      EmptyValue(R.p);
      EmptyValue(Bm.p);
      ModMultiple(R.Value(), 1, b);
      AddMpi(R, R, Bm);
      c := CmpInt(R, 0);
    }
  }

  /** while R >= B: R -= B */
  method ReduceBelow(R: Mpi, Bm: Mpi)
    requires R != Bm && R.Value() >= 0 && Bm.Value() > 0
    modifies R
    ensures R.Value() == old(R.Value()) % Bm.Value() && 0 <= R.Value() < Bm.Value()
    ensures old(R.s) == 1 ==> R.s == 1
    ensures old(R.p) != [] ==> R.p != [] && |R.p| >= |old(R.p)|
  {
    hide Pow, Val;
    ghost var b := Bm.Value();
    var c := CmpMpi(R, Bm);
    while c >= 0
      invariant 0 <= R.Value() && Cong(R.Value(), old(R.Value()), b) && c == Compare(R.Value(), b)
      invariant old(R.s) == 1 ==> R.s == 1
      invariant old(R.p) != [] ==> R.p != [] && |R.p| >= |old(R.p)|
      decreases R.Value()
    {
      EmptyValue(R.p);
      EmptyValue(Bm.p);
      ModMultiple(R.Value(), -1, b);
      SubMpi(R, R, Bm);
      c := CmpMpi(R, Bm);
    }
    CongRange(R.Value(), old(R.Value()), b);
  }

  lemma EmptyValue(p: seq<limb>)
    ensures p == [] ==> Val(p) == 0
  {
  }

  lemma ModChain(x: int, r: int, a: int, b: int)
    requires b > 0 && Cong(x, r, b) && Cong(r, a, b)
    ensures x % b == a % b
  {
  }
}
