/** The quotient estimate of mpi_div_mpi for builds without a double-width type, by half limbs.
    Division itself is proved in BignumDiv for the double-width form; here is when the two forms
    give the same digit. */
module PortableQuotient {
  import opened Arith
  import opened Bits
  import opened Limbs
  import opened BignumShift
  import opened BignumMul

  /** Half a limb's base. */
  function Half(): nat { Pow(2, biH()) }

  lemma HalfFacts()
    ensures B == Half() * Half() && Half() >= 16 && Half() % 4 == 0
  {
    hide Pow;
    HalfBase();
    PowersOfTwo();
    assert Pow(2, 4) == 16 by { PowAdd(2, 2, 2); }
    PowMono(2, 4, biH());
    PowAdd(2, 2, biH() - 2);
    DivUnique(Half(), Pow(2, biH() - 2), 0, 4);
  }

  function MulW(x: limb, y: limb): limb { (x * y) % B }

  /** The upper and the lower half of a limb. */
  function Upper(d: limb): nat { Shr(d, biH()) }

  function Lower(d: limb): nat { Shr(ShlW(d, biH()), biH()) }

  ghost function Guess(hi: nat, d: limb): nat
    requires Upper(d) > 0
  {
    hi / Upper(d)
  }

  /** How often the product of the first guess and the divisor's lower half wraps around. */
  ghost function Wraps(hi: nat, d: limb): int
    requires Upper(d) > 0
  {
    (Guess(hi, d) * Lower(d)) / B
  }

  /** The top limb of a divisor as mpi_div_mpi normalises it. */
  ghost predicate Top(d: limb) { B / 4 <= d < B / 2 }

  lemma TopHalves(d: limb)
    requires Top(d)
    ensures d == Upper(d) * Half() + Lower(d) && Lower(d) < Half()
    ensures Half() <= 4 * Upper(d) && 2 * Upper(d) < Half()
  {
    hide Pow, Shr, ShlW, biH;
    HalfFacts();
    HalvesOf(d);
    HalfRange(d, Upper(d), Lower(d), Half());
  }

  lemma HalfRange(d: nat, d1: nat, d0: nat, h: nat)
    requires h > 0 && h % 4 == 0 && d == d1 * h + d0 && d0 < h && (h * h) / 4 <= d < (h * h) / 2
    ensures h <= 4 * d1 && 2 * d1 < h
  {
    var k := h / 4;
    assert h == 4 * k;
    assert h * h == 4 * (k * h) by { MulAssoc(4, k, h); }
    assert h * h == 2 * (2 * k * h) by { MulAssoc(2, 2 * k, h); }
    if d1 < k {
      MulMono(d1 + 1, k, h);
      MulDist(d1, 1, h);
    }
    if d1 >= 2 * k { MulMono(2 * k, d1, h); }
  }

  // ---- Half a digit -----------------------------------------------------------------------

  /** The first guess is at most three too large for half a limb. */
  lemma GuessBound(hi: nat, d1: nat, d0: nat, h: nat)
    requires d1 > 0 && hi < d1 * h + d0 && d0 < h <= 4 * d1
    ensures hi / d1 <= h + 3
  {
    var q := hi / d1;
    DivMod(hi, d1);
    if q >= h + 4 {
      MulMono(h + 4, q, d1);
      MulDist(h, 4, d1);
      assert false;
    }
  }

  /** hi * H + l, less q multiples of d, in terms of the partial remainder and the product. */
  lemma StepIdentity(hi: nat, l: nat, d1: nat, d0: nat, d: nat, h: nat, q: nat)
    requires d1 > 0 && d == d1 * h + d0 && q == hi / d1
    ensures (hi % d1) * h + l - q * d0 == hi * h + l - q * d
  {
    DivMod(hi, d1);
    MulDist(q * d1, hi % d1, h);
    MulAssoc(q, d1, h);
    MulDist(d1 * h, d0, q);
  }

  lemma PartialBelow(x: nat, l: nat, d1: nat, h: nat)
    requires x < d1 && l < h
    ensures x * h + l < d1 * h
  {
    MulMono(x + 1, d1, h);
    MulDist(x, 1, h);
  }

  /** What the correcting loop keeps: full is r without the wrap-around. */
  ghost predicate Correcting(t: int, q: int, d: int, r: nat, m: nat, full: int) {
    && full - m == t - q * d < d && full >= 0
    && r == (if full < B then full else full - B) && (full < B || r < d)
  }

  /** A correction takes one multiple of d off the guess. */
  lemma CorrectOnce(t: int, q: limb, d: limb, r: limb, m: limb)
    requires t >= 0 && Top(d) && r < m && Correcting(t, q, d, r, m, r)
    ensures SubW(q, 1) == q - 1 && Correcting(t, q - 1, d, AddW(r, d), m, r + d)
    ensures r + d < B ==> AddW(r, d) == r + d
  {
    BaseFacts();
    assert q > 0 by { if q == 0 { assert false; } }
    DivUnique(q - 1, 0, q - 1, B);
    MulDist(q, 1, d);
    if r + d < B { DivUnique(r + d, 0, r + d, B); } else { DivUnique(r + d, 1, r + d - B, B); }
  }

  lemma RemainderLeft(t: int, q: limb, d: limb, r: limb, m: limb, full: int)
    requires Top(d) && Correcting(t, q, d, r, m, full) && full >= m
    ensures SubW(r, m) == full - m == t - q * d < d
  {
    BaseFacts();
    if full < B { DivUnique(r - m, 0, full - m, B); } else { DivUnique(r - m, -1, full - m, B); }
  }

  /** The guess by the upper half of d, the partial remainder, and the product to subtract. */
  method FirstGuess(hi: limb, l: nat, d: limb) returns (q: limb, r: limb, m: limb)
    requires Top(d) && hi < d && l < Half()
    ensures Upper(d) > 0 && q == Guess(hi, d) <= Half() + 3
    ensures r == hi % Upper(d) * Half() + l < d
    ensures q * Lower(d) == m + B * Wraps(hi, d) && Wraps(hi, d) >= 0
  {
    hide *;
    TopHalves(d);
    HalfFacts();
    var d0: nat, d1: nat := Shr(ShlW(d, biH()), biH()), Shr(d, biH());
    HalvesAre(d);
    GuessBound(hi, d1, d0, Half());
    GuessFits(hi, d1);
    q := hi / d1;
    r := hi - d1 * q;
    PartialBelow(r, l, d1, Half());
    ShiftPartial(r, l);
    r := Or(ShlW(r, biH()), l);
    LowerFits(d);
    ProductWraps(q, d0);
    m := MulW(q, d0);
    WrapsIs(hi, d);
  }

  lemma HalvesAre(d: limb)
    requires Upper(d) > 0
    ensures Shr(ShlW(d, biH()), biH()) == Lower(d) && Shr(d, biH()) == Upper(d)
  {
  }

  lemma GuessFits(hi: limb, d1: nat)
    requires d1 > 0
    ensures 0 <= hi / d1 < B && hi - d1 * (hi / d1) == hi % d1 && 0 <= hi % d1 < d1 && hi % d1 < B
  {
    hide Pow;
    DivMod(hi, d1);
    if hi / d1 >= B { MulMono(1, d1, hi / d1); }
    if hi / d1 < 0 { MulMono(hi / d1, -1, d1); }
    if hi % d1 > hi { MulNonneg(hi / d1, d1); }
  }

  lemma ShiftPartial(r: limb, l: nat)
    requires l < Half() && r * Half() + l < B
    ensures ShlW(r, biH()) == r * Half() && Or(r * Half(), l) == r * Half() + l
  {
    hide Pow, biH;
    MulNonneg(r, Half());
    DivUnique(r * Half(), 0, r * Half(), B);
    ShrUnique(r * Half(), biH(), r, 0);
    OrDisjoint(r * Half(), l, biH());
  }

  lemma LowerFits(d: limb)
    requires Lower(d) < Half()
    ensures Lower(d) < B
  {
    hide Lower, Half, Pow;
    HalfFacts();
    MulMono(1, Half(), Half());
  }

  lemma ProductWraps(x: limb, y: limb)
    ensures MulW(x, y) + B * ((x * y) / B) == x * y && (x * y) / B >= 0
  {
    hide Pow;
    BaseFacts();
    MulNonneg(x, y);
    QuotientNonneg(x * y, B);
  }

  lemma QuotientNonneg(x: nat, d: nat)
    requires d > 0
    ensures x / d >= 0 && x % d + d * (x / d) == x
  {
    DivMod(x, d);
    if x / d < 0 { MulMono(x / d, -1, d); }
  }

  lemma WrapsIs(hi: nat, d: limb)
    requires Upper(d) > 0
    ensures Wraps(hi, d) == (Guess(hi, d) * Lower(d)) / B && Guess(hi, d) == hi / Upper(d)
  {
  }

  /** The corrections. */
  method Correct(q0: limb, r0: limb, m: limb, d: limb, ghost t: int) returns (q: limb, r: limb)
    requires Top(d) && t >= 0 && Correcting(t, q0, d, r0, m, r0)
    ensures q <= q0 && r < d && q * d + r == t
  {
    hide *;
    q, r := q0, r0;
    ghost var full: int := r;
    if r < m {
      CorrectOnce(t, q, d, r, m);
      full := full + d;
      q, r := SubW(q, 1), AddW(r, d);
      while r >= d && r < m
        invariant Correcting(t, q, d, r, m, full) && q <= q0 && full >= d
        decreases B + d - full
      {
        NotWrapped(t, q, d, r, m, full);
        CorrectOnce(t, q, d, r, m);
        full := full + d;
        q, r := SubW(q, 1), AddW(r, d);
      }
    }
    NotWrapped(t, q, d, r, m, full);
    RemainderLeft(t, q, d, r, m, full);
    r := SubW(r, m);
  }

  lemma NotWrapped(t: int, q: int, d: limb, r: nat, m: limb, full: int)
    requires Top(d) && Correcting(t, q, d, r, m, full)
    ensures r >= d ==> full == r
    ensures r >= m && r >= d ==> full >= m
    ensures r < d && full >= d ==> full >= m
    ensures full < B + d
  {
  }

  /** One half of the estimate: upper limb hi, next half limb l.  It is the exact quotient of
      hi * H + l plus one B for every time the product wraps around. */
  method HalfStep(hi: limb, l: nat, d: limb) returns (q: limb, r: limb)
    requires Top(d) && hi < d && l < Half()
    ensures Upper(d) > 0 && q <= Half() + 3
    ensures r < d && q * d + r == hi * Half() + l + B * Wraps(hi, d)
  {
    hide *;
    TopHalves(d);
    var q0, r0, m := FirstGuess(hi, l, d);
    WrapsIs(hi, d);
    StepIdentity(hi, l, Upper(d), Lower(d), d, Half(), q0);
    StartCorrecting(hi, l, d, q0, r0, m);
    q, r := Correct(q0, r0, m, d, hi * Half() + l + B * Wraps(hi, d));
  }

  lemma StartCorrecting(hi: limb, l: nat, d: limb, q: limb, r: limb, m: limb)
    requires Upper(d) > 0 && r < d && q * Lower(d) == m + B * Wraps(hi, d) && Wraps(hi, d) >= 0
    requires r - q * Lower(d) == hi * Half() + l - q * d
    ensures var t := hi * Half() + l + B * Wraps(hi, d); t >= 0 && Correcting(t, q, d, r, m, r)
  {
    hide Half, Wraps, Lower, Upper, Pow;
    MulNonneg(hi, Half());
    MulNonneg(B, Wraps(hi, d));
  }

  // ---- The whole estimate -----------------------------------------------------------------

  /** Neither of the two products wraps around. */
  ghost predicate Exact(hi: limb, lo: limb, d: limb)
    requires Top(d) && Upper(d) > 0
  {
    Wraps(hi, d) == 0 && Wraps(Partial(hi, lo, d), d) == 0
  }

  /** The first product wraps around, or the second does below an odd upper half. */
  ghost predicate TooLow(hi: limb, lo: limb, d: limb)
    requires Top(d) && Upper(d) > 0
  {
    Wraps(hi, d) > 0 || (Wraps(Partial(hi, lo, d), d) > 0 && UpperQuotient(hi, lo, d) % 2 == 1)
  }

  ghost function UpperQuotient(hi: limb, lo: limb, d: limb): int
    requires Top(d)
  {
    BaseFacts();
    (hi * Half() + Upper(lo)) / d
  }

  /** The remainder after the quotient's upper half. */
  ghost function Partial(hi: limb, lo: limb, d: limb): nat
    requires Top(d)
  {
    BaseFacts();
    RemainderNonneg(hi * Half() + Upper(lo), d);
    (hi * Half() + Upper(lo)) % d
  }

  lemma RemainderNonneg(x: int, d: nat)
    requires d > 0
    ensures 0 <= x % d < d
  {
  }

  /** The estimate for the upper limbs hi and lo of a dividend: the quotient by d, exactly when no
      product of half limbs wraps around; and below it, by far, exactly when TooLow says so. */
  method Estimate(hi: limb, lo: limb, d: limb) returns (z: limb)
    requires Top(d) && hi < d
    ensures Upper(d) > 0
    ensures z == (hi * B + lo) / d <==> Exact(hi, lo, d)
    ensures z < (hi * B + lo) / d <==> TooLow(hi, lo, d)
    ensures TooLow(hi, lo, d) ==> z + 5 <= (hi * B + lo) / d
  {
    hide *;
    TopHalves(d);
    HalfFacts();
    HalvesOf(lo);
    LowUpper(lo);
    var q1, r1 := HalfStep(hi, Shr(lo, biH()), d);
    var q0, r0 := HalfStep(r1, Shr(ShlW(lo, biH()), biH()), d);
    OrWithin(ShlW(q1, biH()), q0);
    z := Or(ShlW(q1, biH()), q0);
    EstimateIff(hi, lo, d, q1, r1, q0, r0);
  }

  lemma LowUpper(lo: limb)
    ensures Upper(lo) == Shr(lo, biH()) && Lower(lo) == Shr(ShlW(lo, biH()), biH())
    ensures lo == Upper(lo) * Half() + Lower(lo) && Lower(lo) < Half() && Upper(lo) < Half()
  {
    hide Shr, ShlW, biH, Pow;
    HalvesOf(lo);
  }

  /** Or of numbers with an upper and a lower part. */
  lemma {:induction false} OrParts(xh: nat, xl: nat, yh: nat, yl: nat, n: nat)
    requires xl < Pow(2, n) && yl < Pow(2, n)
    ensures Or(xh * Pow(2, n) + xl, yh * Pow(2, n) + yl) == Or(xh, yh) * Pow(2, n) + Or(xl, yl)
    ensures Or(xl, yl) < Pow(2, n)
  {
    hide Pow, Or;
    PowOne(2);
    if n == 0 {
      OrZero(0);
    } else {
      PowSucc(2, n - 1);
      var w := Pow(2, n - 1);
      OrParts(xh, xl / 2, yh, yl / 2, n - 1);
      HalveParts(xh, xl, w);
      HalveParts(yh, yl, w);
      OrStep(xh * (2 * w) + xl, yh * (2 * w) + yl);
      OrStep(xl, yl);
      DoubledFactor(Or(xh, yh), w);
    }
  }

  lemma DoubledFactor(x: nat, w: nat)
    ensures x * (2 * w) == 2 * (x * w)
  {
  }

  lemma OrStep(x: nat, y: nat)
    ensures Or(x, y) == (if x % 2 == 1 || y % 2 == 1 then 1 else 0) + 2 * Or(x / 2, y / 2)
  {
  }

  lemma HalveParts(h: nat, l: nat, w: nat)
    requires l < 2 * w
    ensures h * (2 * w) + l >= 0 && (h * (2 * w) + l) % 2 == l % 2 && (h * (2 * w) + l) / 2 == h * w + l / 2
  {
    MulAssoc(h, 2, w);
    MulNonneg(h, w);
    assert h * (2 * w) == 2 * (h * w);
  }

  lemma OrWithin(x: limb, y: limb)
    ensures Or(x, y) < B
  {
    hide Pow, Or;
    OrBelow(x, y, biL);
  }

  lemma OrBelow(x: nat, y: nat, n: nat)
    requires x < Pow(2, n) && y < Pow(2, n)
    ensures Or(x, y) < Pow(2, n)
  {
    hide Pow, Or;
    OrParts(0, x, 0, y, n);
  }

  /** When the product wraps around, the quotient is near the top of its range, and the guess ends
      up above it. */
  lemma WrapLarge(hi: nat, d1: nat, d0: nat, d: nat, h: nat)
    requires d1 > 0 && d == d1 * h + d0 && d0 < h <= 4 * d1 && 16 <= h
    requires (hi / d1) * d0 >= h * h
    ensures hi * h >= (h - 3) * d && hi * h + h * h >= h * d
  {
    var g := hi / d1;
    DivMod(hi, d1);
    assert g > h by {
      if g <= h { MulMono(g, h, d0); MulMono(d0, h - 1, h); MulDist(h, 1, h); }
    }
    MulMono(h + 1, g, d1);
    MulDist(h, 1, d1);
    WrapAlgebra(hi, d1, d0, d, h, d1 * h);
  }

  lemma WrapAlgebra(hi: int, d1: int, d0: int, d: int, h: int, a: int)
    requires h > 0 && a == d1 * h && d == a + d0 && 0 <= d0 < h <= 4 * d1 && hi >= a + d1
    ensures hi * h >= (h - 3) * d && hi * h + h * h >= h * d
  {
    MulMono(a + d1, hi, h);
    MulDist(a, d1, h);
    assert hi * h >= a * h + a;
    MulDist(a, d0, h);
    assert d * h == a * h + d0 * h;
    MulMono(d0, h - 1, h);
    MulDist(h, 1, h);
    assert d0 * h <= h * h - h;
    MulMono(h, 4 * d1, h);
    MulAssoc(4, d1, h);
    assert h * h <= 4 * a;
    MulDist(h, 3, d);
    assert (h - 3) * d == d * h - 3 * d;
    assert h * d == d * h;
  }

  lemma WrapsRange(hi: limb, d: limb)
    requires Top(d) && hi < d && Upper(d) > 0
    ensures Wraps(hi, d) >= 0
    ensures Wraps(hi, d) > 0 ==> hi * Half() >= (Half() - 3) * d && hi * Half() + B >= Half() * d
  {
    hide *;
    TopHalves(d);
    HalfFacts();
    WrapsIs(hi, d);
    GuessFits(hi, Upper(d));
    MulNonneg(hi / Upper(d), Lower(d));
    WrapsCount(hi / Upper(d) * Lower(d));
    if Wraps(hi, d) > 0 { WrapLarge(hi, Upper(d), Lower(d), d, Half()); }
  }

  lemma WrapsCount(x: nat)
    ensures x / B >= 0 && (x / B > 0 ==> x >= B)
  {
    hide Pow;
    BaseFacts();
    QuotientNonneg(x, B);
    if x / B > 0 { MulMono(1, x / B, B); }
  }

  lemma WrapFacts(hi: limb, l: nat, d: limb, q: nat, r: nat)
    requires Top(d) && hi < d && l < Half() && Upper(d) > 0
    requires r < d && q * d + r == hi * Half() + l + B * Wraps(hi, d)
    ensures Wraps(hi, d) >= 0
    ensures Wraps(hi, d) > 0 ==> q >= Half() && hi * Half() + l >= (Half() - 3) * d
    ensures Wraps(hi, d) == 0 ==> q < Half()
  {
    hide *;
    HalfFacts();
    WrapsRange(hi, d);
    var k := Wraps(hi, d);
    if k > 0 {
      MulMono(1, k, B);
      QuotientLarge(hi, l, d, Half(), q, r, k * B);
    } else {
      assert B * k == 0;
      QuotientSmall(hi, l, d, Half(), q, r);
    }
  }

  lemma QuotientLarge(hi: int, l: int, d: int, h: int, q: int, r: int, wrapped: int)
    requires d > 0 && l >= 0 && r < d && q * d + r == hi * h + l + wrapped && wrapped >= h * h
    requires hi * h + h * h >= h * d
    ensures q >= h
  {
    if q < h { MulMono(q + 1, h, d); MulDist(q, 1, d); }
  }

  lemma QuotientSmall(hi: int, l: int, d: int, h: int, q: int, r: int)
    requires d > 0 && 0 <= l < h && 0 <= r && q * d + r == hi * h + l && hi < d
    ensures q < h
  {
    if q >= h { MulMono(h, q, d); MulMono(hi + 1, d, h); MulDist(hi, 1, h); }
  }

  /** The two halves put together. */
  lemma EstimateIff(hi: limb, lo: limb, d: limb, q1: limb, r1: limb, q0: limb, r0: limb)
    requires Top(d) && hi < d && Upper(d) > 0 && Lower(lo) < Half() && Upper(lo) < Half()
    requires r1 < d && q1 * d + r1 == hi * Half() + Upper(lo) + B * Wraps(hi, d) && q1 <= Half() + 3
    requires r0 < d && q0 * d + r0 == r1 * Half() + Lower(lo) + B * Wraps(r1, d) && q0 <= Half() + 3
    ensures Or(ShlW(q1, biH()), q0) == (hi * B + lo) / d <==> Exact(hi, lo, d)
    ensures Or(ShlW(q1, biH()), q0) < (hi * B + lo) / d <==> TooLow(hi, lo, d)
    ensures TooLow(hi, lo, d) ==> Or(ShlW(q1, biH()), q0) + 5 <= (hi * B + lo) / d
  {
    hide *;
    HalfFacts();
    WrapFacts(hi, Upper(lo), d, q1, r1);
    WrapFacts(r1, Lower(lo), d, q0, r0);
    LowUpper(lo);
    ExactIs(hi, lo, d);
    var h := Half();
    SplitDividend(hi, Upper(lo), Lower(lo), h);
    if Wraps(hi, d) > 0 {
      UpperWrapped(hi, Upper(lo), Lower(lo), d, q1, q0);
    } else {
      assert B * Wraps(hi, d) == 0;
      DivUnique(hi * h + Upper(lo), q1, r1, d);
      if Wraps(r1, d) > 0 {
        LowerWrapped(hi, Upper(lo), Lower(lo), d, q1, r1, q0);
      } else {
        assert B * Wraps(r1, d) == 0;
        BothExact(hi, Upper(lo), Lower(lo), d, q1, r1, q0, r0);
      }
    }
  }

  lemma ExactIs(hi: limb, lo: limb, d: limb)
    requires Top(d) && Upper(d) > 0
    ensures d > 0 && Partial(hi, lo, d) == (hi * Half() + Upper(lo)) % d
    ensures UpperQuotient(hi, lo, d) == (hi * Half() + Upper(lo)) / d
    ensures Exact(hi, lo, d) <==> Wraps(hi, d) == 0 && Wraps(Partial(hi, lo, d), d) == 0
    ensures TooLow(hi, lo, d)
       <==> Wraps(hi, d) > 0 || (Wraps(Partial(hi, lo, d), d) > 0 && UpperQuotient(hi, lo, d) % 2 == 1)
  {
    hide Wraps, Upper, Half;
    BaseFacts();
  }

  lemma SplitDividend(hi: nat, l1: nat, l0: nat, h: nat)
    ensures hi * (h * h) + (l1 * h + l0) == (hi * h + l1) * h + l0
  {
    MulDist(hi * h, l1, h);
    MulAssoc(hi, h, h);
  }

  lemma BothExact(hi: limb, l1: nat, l0: nat, d: limb, q1: limb, r1: limb, q0: limb, r0: limb)
    requires q1 * d + r1 == hi * Half() + l1 && q0 * d + r0 == r1 * Half() + l0 && r0 < d
    requires q1 < Half() && q0 < Half() && l1 * Half() + l0 < B
    ensures Or(ShlW(q1, biH()), q0) == ((hi * Half() + l1) * Half() + l0) / d
  {
    hide *;
    HalfFacts();
    var h := Half();
    PartialBelow(q1, q0, h, h);
    ShiftPartial(q1, q0);
    MulDist(q1 * d, r1, h);
    MulSwap(q1, d, h);
    MulDist(q1 * h, q0, d);
    DivUnique((hi * h + l1) * h + l0, q1 * h + q0, r0, d);
  }

  /** The lower half of the quotient is near the top of its range, that of the estimate below 4.  The
      excess bit of q0 is or-ed into the upper half, where it is lost if that is odd. */
  lemma LowerWrapped(hi: limb, l1: nat, l0: nat, d: limb, q1: limb, r1: limb, q0: limb)
    requires q1 * d + r1 == hi * Half() + l1 && q1 < Half() && r1 < d && l0 < Half()
    requires Half() <= q0 <= Half() + 3 && r1 * Half() + l0 >= (Half() - 3) * d
    ensures var z, q := Or(ShlW(q1, biH()), q0), ((hi * Half() + l1) * Half() + l0) / d;
      if q1 % 2 == 1 then z + 5 <= q else z > q
  {
    hide *;
    HalfFacts();
    var h := Half();
    var t: nat := r1 * h + l0;
    var low, rest := t / d, t % d;
    DivMod(t, d);
    QuotientSmall(r1, l0, d, h, low, rest);
    if low < h - 3 { MulMono(low + 1, h - 3, d); MulDist(low, 1, d); }
    PartialBelow(q1, 0, h, h);
    MulDist(q1 * d, r1, h);
    MulSwap(q1, d, h);
    MulDist(q1 * h, low, d);
    DivUnique((hi * h + l1) * h + l0, q1 * h + low, rest, d);
    DivUnique(q1 * h + low, q1, low, h);
    ShiftPartial(q1, 0);
    HalfIs();
    OrParts(q1, 0, 1, q0 - h, biH());
    OrZeroLeft(q0 - h);
    OrOne(q1);
    MulDist(q1, 1, h);
  }

  lemma OrOne(x: nat)
    ensures Or(x, 1) == if x % 2 == 1 then x else x + 1
  {
    OrZero(x / 2);
  }

  lemma HalfIs()
    ensures Half() == Pow(2, biH())
  {
  }

  lemma {:induction false} OrZeroLeft(x: nat)
    ensures Or(0, x) == x
  {
    if x > 0 { OrZeroLeft(x / 2); }
  }

  /** The upper half of the quotient is near the top of its range, that of the estimate below 4. */
  lemma UpperWrapped(hi: limb, l1: nat, l0: nat, d: limb, q1: limb, q0: limb)
    requires 0 < d && Half() <= q1 <= Half() + 3 && q0 <= Half() + 3
    requires hi * Half() + l1 >= (Half() - 3) * d
    ensures Or(ShlW(q1, biH()), q0) + 5 <= ((hi * Half() + l1) * Half() + l0) / d
  {
    hide *;
    HalfFacts();
    HalfIs();
    var h := Half();
    ShiftedAway(q1, h);
    PowAdd(2, 2, biH());
    PowersOfTwo();
    OrBelow(ShlW(q1, biH()), q0, 2 + biH());
    LargeQuotient(hi * h + l1, l0, d, h);
  }

  lemma LargeQuotient(t: nat, l0: nat, d: nat, h: nat)
    requires d > 0 && h >= 16 && t >= (h - 3) * d
    ensures (t * h + l0) / d >= 5 * h
  {
    MulMono((h - 3) * d, t, h);
    MulSwap(h - 3, d, h);
    MulMono(13, h - 3, h);
    MulMono(5 * h, (h - 3) * h, d);
    AtLeast(t * h + l0, 5 * h, d);
  }

  lemma AtLeast(x: int, k: int, d: int)
    requires d > 0 && x >= k * d
    ensures x / d >= k
  {
    DivMod(x, d);
    if x / d < k { MulMono(x / d + 1, k, d); MulDist(x / d, 1, d); }
  }

  lemma ShiftedAway(q: limb, h: nat)
    requires h == Half() && h <= q <= h + 3 && 16 <= h
    ensures ShlW(q, biH()) <= 3 * h
  {
    hide Pow, biH;
    HalfFacts();
    MulDist(q - h, h, h);
    MulMono(q - h, 3, h);
    MulMono(16, h, h);
    DivUnique(q * h, 1, (q - h) * h, B);
  }

  /** A divisor whose lower half is not among the two greatest makes no product wrap around. */
  lemma NoWrap(hi: limb, lo: limb, d: limb)
    requires Top(d) && hi < d && Lower(d) + 3 <= Half()
    ensures Upper(d) > 0 && Exact(hi, lo, d) && !TooLow(hi, lo, d)
  {
    hide *;
    TopHalves(d);
    LowUpper(lo);
    ExactIs(hi, lo, d);
    NoWrapAt(hi, d);
    var r := Partial(hi, lo, d);
    RemainderNonneg(hi * Half() + Upper(lo), d);
    NoWrapAt(r, d);
  }

  lemma NoWrapAt(hi: nat, d: limb)
    requires Top(d) && hi < d && Upper(d) > 0 && Lower(d) + 3 <= Half()
    ensures Wraps(hi, d) == 0
  {
    hide *;
    HalfFacts();
    TopHalves(d);
    WrapsIs(hi, d);
    var h, g := Half(), hi / Upper(d);
    GuessBound(hi, Upper(d), Lower(d), h);
    QuotientNonneg(hi, Upper(d));
    MulMono(g, h + 3, Lower(d));
    MulMono(Lower(d), h - 3, h + 3);
    MulDist(h, 3, h - 3);
    MulNonneg(g, Lower(d));
    DivUnique(g * Lower(d), 0, g * Lower(d), B);
  }

  /** For every limb size there are operands whose product wraps around: the double-width form and
      this one then differ. */
  lemma SomeWrap() returns (hi: limb, d: limb)
    ensures Top(d) && hi < d && Upper(d) > 0 && Wraps(hi, d) > 0
  {
    hide *;
    HalfFacts();
    var h := Half();
    DivMod(h, 4);
    LargestLower(h, h / 4);
    d := (h / 4) * h + (h - 1);
    hi := d - 1;
    TopIs(d);
    TopHalves(d);
    DivUnique(d, h / 4, h - 1, h);
    DivUnique(d, Upper(d), Lower(d), h);
    DivUnique(hi, h + 3, h / 4 - 2, h / 4);
    WrapsIs(hi, d);
    MulDist(h, 3, h - 1);
    MulDist(h, 1, h);
    AtLeast((h + 3) * (h - 1), 1, B);
  }

  lemma LargestLower(h: nat, k: nat)
    requires h == 4 * k && k >= 4
    ensures 0 <= k * h + (h - 1) < h * h
    ensures (h * h) / 4 <= k * h + (h - 1) < (h * h) / 2
    ensures k * h + (h - 1) - 1 == (h + 3) * k + (k - 2)
  {
    MulAssoc(4, k, h);
    assert h * h == 4 * (k * h);
    MulMono(4, k, h);
    DivUnique(h * h, k * h, 0, 4);
    DivUnique(h * h, 2 * (k * h), 0, 2);
  }

  lemma TopIs(d: limb)
    ensures Top(d) <==> B / 4 <= d < B / 2
  {
  }
}
