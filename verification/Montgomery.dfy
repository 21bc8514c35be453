/** Montgomery arithmetic of bignum.c (HAC 14.36). */
module Montgomery {
  import opened Arith
  import opened Limbs
  import opened Bignum
  import opened BignumAdd
  import opened BignumShift
  import opened BignumMul

  /** mm is the negated inverse of m0 modulo the limb base. */
  ghost predicate IsMontgomeryConstant(m0: limb, mm: limb) {
    Cong(m0 * mm, -1, B)
  }

  /** C's ~x on a limb. */
  function Not(x: limb): limb {
    B - 1 - x
  }

  /** mpi_montg_init: Newton's iteration from an inverse modulo 16. */
  method MontgInit(N: Mpi) returns (mm: limb)
    requires N.p != [] && N.p[0] % 2 == 1
    ensures IsMontgomeryConstant(N.p[0], mm)
  {
    hide Pow, Cong, AddW, Not;
    var m0 := N.p[0];
    BitTwoFits(m0);
    var x: limb := m0;
    x := AddW(x, 8 * (((m0 + 2) / 4) % 2));
    StartInverse(m0);
    var i: nat := biL;
    ghost var e := 4;
    while i >= 8
      invariant i * e == 4 * biL && i in {4, 8, 16, 32, 64}
      invariant 0 < e && Cong(m0 * x, 1, Pow(2, e))
      decreases i
    {
      NewtonStep(m0, x, e);
      x := NewtonValue(m0, x);
      i, e := i / 2, 2 * e;
    }
    NegatedInverse(m0, x);
    mm := AddW(Not(x), 1);
  }

  /** x *= 2 - m0 * x, in words */
  function NewtonValue(m0: limb, x: limb): limb {
    (x * ((2 - m0 * x) % B)) % B
  }

  lemma BitTwoFits(m0: limb)
    ensures 8 * (((m0 + 2) / 4) % 2) < B && B > 1
  {
    BaseFacts();
  }

  lemma StartInverse(m0: limb)
    requires m0 % 2 == 1 && 8 * (((m0 + 2) / 4) % 2) < B
    ensures Cong(m0 * AddW(m0, 8 * (((m0 + 2) / 4) % 2)), 1, Pow(2, 4))
  {
    assert Pow(2, 4) == 16;
    hide Pow, Cong;
    var c := ((m0 + 2) / 4) % 2;
    LimbBase(4);
    CongDivisor(m0 + 8 * c, B, 16, Pow(2, biL - 4));
    CongMul(m0, m0, AddW(m0, 8 * c), m0 + 8 * c, 16);
    OddTimes(m0, c);
    CongTrans3(m0 * AddW(m0, 8 * c), m0 * (m0 + 8 * c), 1, 1, 16);
  }

  lemma OddTimes(m: nat, c: nat)
    requires m % 2 == 1 && c == ((m + 2) / 4) % 2
    ensures Cong(m * (m + 8 * c), 1, 16)
  {
    hide Cong;
    var q, r := OddParts(m);
    BitTwo(m, q, r);
    OddSquare(m, q, r, c);
  }

  lemma OddParts(m: nat) returns (q: nat, r: nat)
    requires m % 2 == 1
    ensures m == 8 * q + r && (r == 1 || r == 3 || r == 5 || r == 7)
  {
    q, r := m / 8, m % 8;
  }

  lemma BitTwo(m: nat, q: nat, r: nat)
    requires m == 8 * q + r && (r == 1 || r == 3 || r == 5 || r == 7)
    ensures ((m + 2) / 4) % 2 == if r == 3 || r == 5 then 1 else 0
  {
    var h := if r == 1 then 0 else if r == 7 then 2 else 1;
    DivUnique(m + 2, 2 * q + h, r + 2 - 4 * h, 4);
  }

  lemma OddSquare(m: nat, q: nat, r: nat, c: nat)
    requires m == 8 * q + r && (r * r + 8 * (c * r)) % 16 == 1
    ensures Cong(m * (m + 8 * c), 1, 16)
  {
    var k := 4 * (q * q) + q * r + 4 * (q * c);
    assert m * (m + 8 * c) == (r * r + 8 * (c * r)) + k * 16;
    CongMultiple(m * (m + 8 * c), r * r + 8 * (c * r), k, 16);
  }

  /** If m * x is 1 modulo 2^e then x * (2 - m * x) does it modulo 2^(2e). */
  lemma NewtonStep(m: limb, x: limb, e: nat)
    requires 0 < e && 2 * e <= biL && Cong(m * x, 1, Pow(2, e))
    ensures Cong(m * NewtonValue(m, x), 1, Pow(2, 2 * e))
  {
    hide Pow, Cong;
    var w := Pow(2, e);
    var k := CongWitness(m * x, 1, w);
    PowAdd(2, e, e);
    LimbBase(2 * e);
    var d := 2 - m * x;
    MulAssoc(m, x, d);
    SquareGone(m * x, k, w);
    CongMultiple(m * (x * d), 1, -(k * k), w * w);
    var z := x * (d % B);
    CongDivisor(d, B, w * w, Pow(2, biL - 2 * e));
    CongMul(x, x, d % B, d, w * w);
    CongDivisor(z, B, w * w, Pow(2, biL - 2 * e));
    CongMul(m, m, z, x * d, w * w);
    CongMul(m, m, z % B, z, w * w);
    CongTrans3(m * (z % B), m * z, m * (x * d), 1, w * w);
  }

  lemma SquareGone(t: int, k: int, w: int)
    requires t == 1 + k * w
    ensures t * (2 - t) == 1 - (k * k) * (w * w)
  {
    assert t * (2 - t) == 1 - (k * w) * (k * w);
    assert (k * w) * (k * w) == (k * k) * (w * w);
  }

  /** A residue modulo a multiple of m is congruent modulo m. */
  lemma CongDivisor(x: int, b: int, m: int, q: int)
    requires m > 0 && b > 0 && b == m * q
    ensures Cong(x % b, x, m)
  {
    DivMod(x, b);
    MulAssoc(x / b, q, m);
    CongMultiple(x, x % b, (x / b) * q, m);
  }

  lemma CongTrans3(a: int, b: int, c: int, d: int, m: int)
    requires m > 0 && Cong(a, b, m) && Cong(b, c, m) && Cong(c, d, m)
    ensures Cong(a, d, m)
  {
  }

  lemma CongSymm(a: int, b: int, m: int)
    requires m > 0 && Cong(a, b, m)
    ensures Cong(b, a, m)
  {
  }

  lemma NegatedInverse(m0: limb, x: limb)
    requires Cong(m0 * x, 1, Pow(2, biL))
    ensures IsMontgomeryConstant(m0, AddW(Not(x), 1))
  {
    hide Pow, Cong;
    BaseFacts();
    CongMod(B - x, B);
    CongMultiple(B - x, 0 - x, 1, B);
    var y := AddW(Not(x), 1);
    CongMul(m0, m0, y, B - x, B);
    CongMul(m0, m0, B - x, 0 - x, B);
    CongSub(0, 0, m0 * x, 1, B);
    assert m0 * (0 - x) == 0 - m0 * x;
    CongTrans3(m0 * y, m0 * (B - x), m0 * (0 - x), -1, B);
  }

  /** The value above limb i after adding v there. */
  lemma TailChange(p: seq<limb>, q: seq<limb>, i: nat, v: int)
    requires |p| == |q| && i <= |p| && p[..i] == q[..i] && Val(q) == Val(p) + v * Pow(B, i)
    ensures Val(q[i..]) == Val(p[i..]) + v
  {
    hide Pow, Val;
    ValSplit(p, i);
    ValSplit(q, i);
    var a, b, w := Val(p[i..]), Val(q[i..]), Pow(B, i);
    MulDist(a, v, w);
    if b < a + v { MulStrict(b, a + v, w); }
    if b > a + v { MulStrict(a + v, b, w); }
  }

  lemma TailRoom(p: seq<limb>, i: nat, v: nat, k: nat)
    requires i + k <= |p| && Val(p[i..]) + v < Pow(B, k)
    ensures Val(p) + v * Pow(B, i) < Pow(B, |p|)
  {
    hide Pow, Val;
    ValSplit(p, i);
    ValBound(p[..i]);
    var a, w := Val(p[i..]), Pow(B, i);
    MulDist(a, v, w);
    MulMono(a + v + 1, Pow(B, k), w);
    MulDist(a + v, 1, w);
    PowAdd(B, k, i);
    PowMono(B, k + i, |p|);
  }

  /** T += u * s[..m] shifted up by i, seen in the window above limb i. */
  method AddMultiple(T: Mpi, i: nat, s: seq<limb>, m: nat, u: limb, k: nat)
    requires m <= |s| && i + m < |T.p| && i + k <= |T.p|
    requires Val(T.p[i..]) + Val(s[..m]) * u < Pow(B, k)
    modifies T`p
    ensures |T.p| == |old(T.p)| && T.p[..i] == old(T.p)[..i]
    ensures Val(T.p[i..]) == Val(old(T.p)[i..]) + Val(s[..m]) * u
  {
    hide Pow, Val;
    MulNonneg(Val(s[..m]), u);
    TailRoom(T.p, i, Val(s[..m]) * u, k);
    ghost var p := T.p;
    MulHlp(m, s, T, i, u);
    TailChange(p, T.p, i, Val(s[..m]) * u);
  }

  /** The multiplier of N that clears the lowest limb. */
  function ClearingDigit(d0: limb, u0: limb, b0: limb, mm: limb): limb {
    ((d0 + u0 * b0) * mm) % B
  }

  lemma DigitClears(d0: limb, u0: limb, b0: limb, n0: limb, mm: limb)
    requires IsMontgomeryConstant(n0, mm)
    ensures Cong(d0 + u0 * b0 + ClearingDigit(d0, u0, b0, mm) * n0, 0, B)
  {
    hide Pow, Cong;
    var t := d0 + u0 * b0;
    var u1 := ClearingDigit(d0, u0, b0, mm);
    CongMod(t * mm, B);
    CongMul(u1, t * mm, n0, n0, B);
    MulAssoc(t, mm, n0);
    CongMul(t, t, mm * n0, -1, B);
    CongTrans3(u1 * n0, t * (mm * n0), t * (-1), t * (-1), B);
    CongAdd(t, t, u1 * n0, t * (-1), B);
  }

  /** Both lowest limbs give the whole sum modulo B. */
  lemma LowLimbClears(t: nat, b: nat, n: nat, d0: limb, u0: limb, b0: limb, n0: limb, u1: limb)
    requires t % B == d0 && b % B == b0 && n % B == n0
    requires Cong(d0 + u0 * b0 + u1 * n0, 0, B)
    ensures (t + b * u0 + n * u1) % B == 0
  {
    hide Pow;
    BaseFacts();
    CongMod(t, B);
    CongMod(b, B);
    CongMod(n, B);
    CongMul(b, b0, u0, u0, B);
    CongMul(n, n0, u1, u1, B);
    CongAdd(t, d0, b * u0, b0 * u0, B);
    CongAdd(t + b * u0, d0 + b0 * u0, n * u1, n0 * u1, B);
    DivUnique(0, 0, 0, B);
  }

  /** What one round knows about its window: it stays below 2N, and below B^(n+1). */
  lemma RoundBounds(t: nat, b: nat, n: nat, u0: limb, u1: limb, k: nat)
    requires t < 2 * n && b <= n && n < Pow(B, k)
    ensures 0 <= b * u0 && 0 <= n * u1 && t + b * u0 < Pow(B, k + 2) && t + b * u0 + n * u1 < Pow(B, k + 2)
    ensures t + b * u0 + n * u1 < 2 * (n * B)
    ensures 2 * n < Pow(B, k + 1)
  {
    hide Pow;
    BaseFacts();
    MulNonneg(b, u0);
    MulNonneg(n, u1);
    MulMono(b, n, u0);
    MulMono(u0, B - 1, n);
    MulMono(u1, B - 1, n);
    MulDist(B, 1, n);
    PowSucc(B, k);
    PowSucc(B, k + 1);
    MulMono(2, B, Pow(B, k));
    MulMono(2, B, Pow(B, k + 1));
    MulStrict(n, Pow(B, k), B);
  }

  /** One round: T[i..] = (T[i..] + u0 * B + u1 * N) / B, with u0 kept below. */
  method MontRound(T: Mpi, i: nat, u0: limb, b: seq<limb>, m: nat, N: seq<limb>, mm: limb)
    returns (u1: limb)
    requires 0 < m <= |b| && m <= |N| && Val(b[..m]) <= Val(N)
    requires IsMontgomeryConstant(N[0], mm)
    requires i + |N| + 2 < |T.p| && Val(T.p[i..]) < 2 * Val(N)
    modifies T`p
    ensures |T.p| == |old(T.p)| && T.p[..i] == old(T.p)[..i] && T.p[i] == u0
    ensures B * Val(T.p[i + 1..]) == Val(old(T.p)[i..]) + Val(b[..m]) * u0 + Val(N) * u1
    ensures Val(T.p[i + 1..]) < 2 * Val(N)
  {
    hide Pow, Val, Cong, IsMontgomeryConstant, ClearingDigit;
    var n := |N|;
    ghost var t := Val(T.p[i..]);
    u1 := ClearingDigit(T.p[i], u0, b[0], mm);
    DigitClears(T.p[i], u0, b[0], N[0], mm);
    ValFirst(T.p[i..]);
    ValFirst(b[..m]);
    ValFirst(N);
    ValBound(N);
    assert N[..n] == N;
    LowLimbClears(t, Val(b[..m]), Val(N), T.p[i], u0, b[0], N[0], u1);
    RoundBounds(t, Val(b[..m]), Val(N), u0, u1, n);
    AddMultiple(T, i, b, m, u0, n + 2);
    AddMultiple(T, i, N, n, u1, n + 2);
    ValFirst(T.p[i..]);
    assert T.p[i..][1..] == T.p[i + 1..];
    HalfBelow(Val(T.p[i + 1..]), Val(N));
    TopLimbZero(T.p[i + 1..], n + 1);
    ghost var q := T.p;
    T.p := T.p[i := u0];
    T.p := T.p[i + n + 2 := 0];
    assert T.p == q[i := u0];
    assert T.p[i + 1..] == q[i + 1..];
  }

  lemma HalfBelow(x: nat, n: nat)
    requires B * x < 2 * (n * B)
    ensures x < 2 * n
  {
    hide Pow;
    MulAssoc(2, n, B);
    MulCancelLess(x, 2 * n, B);
  }

  lemma TopLimbZero(p: seq<limb>, k: nat)
    requires k < |p| && Val(p) < Pow(B, k)
    ensures p[k] == 0 && Val(p[k..]) == 0 && Val(p[..k]) == Val(p)
  {
    hide Pow, Val;
    BaseFacts();
    ValSplit(p, k);
    NoHighPart(Val(p), Val(p[..k]), Val(p[k..]), Pow(B, k));
    ValFirst(p[k..]);
  }

  /** The invariant of the rounds: T[..i] holds the digits of A already used, and the window
      above is their product with B plus a multiple of N, divided by B^i. */
  ghost predicate RoundsDone(T: seq<limb>, i: nat, a: seq<limb>, b: nat, n: nat, k: nat) {
    i <= |a| && i <= |T| && T[..i] == a[..i] && Val(T[i..]) < 2 * n
    && Val(T[i..]) * Pow(B, i) == Val(a[..i]) * b + k * n
  }

  lemma RoundsStep(T: seq<limb>, T': seq<limb>, i: nat, a: seq<limb>, b: nat, n: nat, k: nat, u1: limb)
    requires RoundsDone(T, i, a, b, n, k) && i < |a| && i < |T| == |T'|
    requires T'[..i] == T[..i] && T'[i] == a[i] && Val(T'[i + 1..]) < 2 * n
    requires B * Val(T'[i + 1..]) == Val(T[i..]) + b * a[i] + n * u1
    ensures RoundsDone(T', i + 1, a, b, n, k + u1 * Pow(B, i))
  {
    hide Pow, Val;
    ValPrefix(a, i);
    PowSucc(B, i);
    RoundAlgebra(Val(T[i..]), Val(T'[i + 1..]), Val(a[..i]), a[i], b, n, k, u1, Pow(B, i), B);
    assert T'[..i + 1] == T'[..i] + [T'[i]];
    assert a[..i + 1] == a[..i] + [a[i]];
  }

  lemma RoundAlgebra(t: int, t': int, v: int, x: int, b: int, n: int, k: int, u: int, w: int, base: int)
    requires base * t' == t + b * x + n * u && t * w == v * b + k * n
    ensures t' * (base * w) == (v + x * w) * b + (k + u * w) * n
  {
    MulAssoc(t', base, w);
    MulDist(t + b * x, n * u, w);
    MulDist(t, b * x, w);
    MulDist(v, x * w, b);
    MulDist(k, u * w, n);
    MulSwap(x, w, b);
    MulSwap(u, w, n);
  }

  /** mpi_montmul: A = A * B * R^-1 mod N with R = B^n, for odd N of n limbs, A < R and
      B <= N.  A and B may be the same object. */
  method MontMul(A: Mpi, Bm: Mpi, N: Mpi, mm: limb, T: Mpi)
    requires N.p != [] && Bm.p != [] && IsMontgomeryConstant(N.p[0], mm)
    requires A != N && T != A && T != Bm && T != N
    requires |A.p| > |N.p| && A.Abs() < Pow(B, |N.p|) && Bm.Abs() <= N.Abs() && N.Abs() > 0
    requires |T.p| >= 2 * (|N.p| + 1)
    modifies A`p, T`p
    ensures |A.p| == |old(A.p)| && |T.p| == |old(T.p)|
    ensures A.Abs() < N.Abs()
    ensures Cong(A.Abs() * Pow(B, |N.p|), old(A.Abs()) * old(Bm.Abs()), N.Abs())
  {
    hide Pow, Val, Cong, IsMontgomeryConstant, RoundsDone;
    var n := |N.p|;
    ghost var a, b, nv := A.Abs(), Bm.Abs(), N.Abs();
    ValBound(N.p);
    ghost var k := MontRounds(A, Bm, N, mm, T);
    RoundsFinal(T.p, n, A.p, b, nv, k);
    A.p := T.p[n..2 * n + 1] + A.p[n + 1..];
    ghost var w := A.Abs();
    FinalSubtraction(A, N, T);
    CongMul(A.Abs(), w, Pow(B, n), Pow(B, n), nv);
    CongTrans3(A.Abs() * Pow(B, n), w * Pow(B, n), a * b, a * b, nv);
  }

  /** The main loop of mpi_montmul. */
  method MontRounds(A: Mpi, Bm: Mpi, N: Mpi, mm: limb, T: Mpi) returns (ghost k: nat)
    requires N.p != [] && Bm.p != [] && IsMontgomeryConstant(N.p[0], mm)
    requires T != A && T != Bm && T != N
    requires |A.p| > |N.p| && Bm.Abs() <= N.Abs() && N.Abs() > 0
    requires |T.p| >= 2 * (|N.p| + 1)
    modifies T`p
    ensures |T.p| == |old(T.p)| && RoundsDone(T.p, |N.p|, A.p, Bm.Abs(), N.Abs(), k)
  {
    hide Pow, Val, Cong, IsMontgomeryConstant, RoundsDone;
    k := 0;
    T.p := Zeros(|T.p|);
    var n := |N.p|;
    var m := if |Bm.p| < n then |Bm.p| else n;
    ValBound(N.p);
    LowPart(Bm.p, m, n);
    RoundsStart(T.p, A.p, Bm.Abs(), N.Abs());
    for i := 0 to n
      invariant |T.p| == |old(T.p)|
      invariant RoundsDone(T.p, i, A.p, Bm.Abs(), N.Abs(), k)
    {
      RoundsWindow(T.p, i, A.p, Bm.Abs(), N.Abs(), k);
      ghost var q := T.p;
      var u1 := MontRound(T, i, A.p[i], Bm.p, m, N.p, mm);
      RoundsStep(q, T.p, i, A.p, Bm.Abs(), N.Abs(), k, u1);
      MulNonneg(u1, Pow(B, i));
      k := k + u1 * Pow(B, i);
    }
  }

  lemma LowPart(p: seq<limb>, m: nat, n: nat)
    requires m == if |p| < n then |p| else n
    requires Val(p) < Pow(B, n)
    ensures Val(p[..m]) == Val(p)
  {
    hide Pow, Val;
    if m < |p| { TopLimbZero(p, m); } else { assert p[..m] == p; }
  }

  lemma RoundsStart(T: seq<limb>, a: seq<limb>, b: nat, n: nat)
    requires n > 0 && forall j :: 0 <= j < |T| ==> T[j] == 0
    ensures RoundsDone(T, 0, a, b, n, 0)
  {
    hide Pow, Val;
    assert T[0..] == T;
    ValZeros(T);
    ValZeros(a[..0]);
  }

  lemma RoundsWindow(T: seq<limb>, i: nat, a: seq<limb>, b: nat, n: nat, k: nat)
    requires RoundsDone(T, i, a, b, n, k)
    ensures i <= |T| && Val(T[i..]) < 2 * n
  {
  }

  /** After the last round the window is the product divided by R, up to one N too large,
      and it fills n + 1 limbs at most. */
  lemma RoundsFinal(T: seq<limb>, n: nat, a: seq<limb>, b: nat, nv: nat, k: nat)
    requires RoundsDone(T, n, a, b, nv, k) && n < |a| && |T| >= 2 * n + 2
    requires 0 < nv < Pow(B, n) && Val(a) < Pow(B, n)
    ensures var q := T[n..2 * n + 1] + a[n + 1..];
            Val(q) == Val(q[..n + 1]) < 2 * nv && Cong(Val(q) * Pow(B, n), Val(a) * b, nv)
            && Val(q) * Pow(B, n) <= Val(T) && (forall j :: n + 1 <= j < |q| ==> q[j] == 0)
  {
    hide Pow, Val, Cong;
    BaseFacts();
    var q := T[n..2 * n + 1] + a[n + 1..];
    TopLimbZero(a, n);
    HighZeros(a, n);
    PowSucc(B, n);
    MulMono(2, B, Pow(B, n));
    TopLimbZero(T[n..], n + 1);
    assert T[n..][..n + 1] == T[n..2 * n + 1] == q[..n + 1];
    ValZeroTail(q, n + 1);
    CongMultiple(Val(q) * Pow(B, n), Val(a) * b, k, nv);
    ValSplit(T, n);
  }

  lemma HighZeros(p: seq<limb>, k: nat)
    requires k <= |p| && Val(p) < Pow(B, k)
    ensures forall j :: k <= j < |p| ==> p[j] == 0
  {
    hide Pow, Val;
    forall j | k <= j < |p| ensures p[j] == 0 {
      PowMono(B, k, j);
      TopLimbZero(p, j);
    }
  }

  /** The closing comparison: subtract N once, or do the dummy subtraction on T. */
  method FinalSubtraction(A: Mpi, N: Mpi, T: Mpi)
    requires A != N && T != A && T != N && 0 < |N.p| < |A.p| && |N.p| < |T.p|
    requires A.Abs() < 2 * N.Abs() && A.Abs() * Pow(B, |N.p|) <= Val(T.p)
    modifies A`p, T`p
    ensures |A.p| == |old(A.p)| && |T.p| == |old(T.p)|
    ensures A.Abs() < N.Abs() && Cong(A.Abs(), old(A.Abs()), N.Abs())
  {
    hide Pow, Val;
    var n := |N.p|;
    var r := CmpAbs(A, N);
    assert N.p[..n] == N.p;
    if r >= 0 {
      SubHlp(n, N.p, A);
      CongMultiple(A.Abs(), old(A.Abs()), -1, N.Abs());
    } else {
      ValSplit(A.p, n);
      MulNonneg(Val(A.p[n..]), Pow(B, n));
      MulMono(1, Pow(B, n), A.Abs());
      SubHlp(n, A.p, T);
    }
  }

  /** mpi_montred: A = A * R^-1 mod N. */
  method MontRed(A: Mpi, N: Mpi, mm: limb, T: Mpi)
    requires N.p != [] && IsMontgomeryConstant(N.p[0], mm) && N.Abs() > 0
    requires A != N && T != A && T != N
    requires |A.p| > |N.p| && A.Abs() < Pow(B, |N.p|) && |T.p| >= 2 * (|N.p| + 1)
    modifies A`p, T`p
    ensures |A.p| == |old(A.p)| && |T.p| == |old(T.p)|
    ensures A.Abs() < N.Abs() && Cong(A.Abs() * Pow(B, |N.p|), old(A.Abs()), N.Abs())
  {
    hide Pow, Val, Cong, IsMontgomeryConstant;
    BaseFacts();
    var U := new Mpi();
    U.s, U.p := 1, [1];
    ValSingle(1);
    MontMul(A, U, N, mm, T);
  }
}
