/** Sliding-window exponentiation of bignum.c (HAC 14.85). */
module ExpMod {
  import opened Arith
  import opened Bits
  import opened Limbs
  import opened Bignum
  import opened BignumAdd
  import opened BignumShift
  import opened BignumDiv
  import opened Montgomery
  import opened Divisors
  import opened Primes

  type WindowSize = w: nat | 1 <= w <= 6 witness 6

  /** The configured upper bound for the window. */
  const POLARSSL_MPI_WINDOW_SIZE: WindowSize

  /** The window size mpi_exp_mod picks for an exponent of so many bits. */
  function WindowFor(bits: nat): (w: WindowSize)
    ensures w <= POLARSSL_MPI_WINDOW_SIZE
  {
    var w := if bits > 671 then 6 else if bits > 239 then 5 else if bits > 79 then 4
             else if bits > 23 then 3 else 1;
    if w > POLARSSL_MPI_WINDOW_SIZE then POLARSSL_MPI_WINDOW_SIZE else w
  }

  /** w holds v in Montgomery form for the modulus N: reduced, and congruent to v * R. */
  ghost predicate InForm(w: Mpi, v: nat, N: Mpi)
    reads w, N
  {
    |w.p| > |N.p| && w.Abs() < N.Abs() && Cong(w.Abs(), v * Pow(B, |N.p|), N.Abs())
  }

  /** What every step needs from the modulus and the scratch space. */
  ghost predicate Setting(N: Mpi, mm: limb, T: Mpi)
    reads N, T
  {
    T != N && N.p != [] && N.p[0] % 2 == 1 && N.Abs() > 0
    && IsMontgomeryConstant(N.p[0], mm) && |T.p| >= 2 * (|N.p| + 1)
  }

  /** An inverse of R modulo an odd number: a power of the inverse of two. */
  lemma RadixInverse(p: seq<limb>) returns (r: nat)
    requires p != [] && p[0] % 2 == 1
    ensures Val(p) > 0 && Cong(Pow(B, |p|) * r, 1, Val(p))
  {
    hide Pow, Val, Cong;
    OddValue(p);
    var n := Val(p);
    var h := (n + 1) / 2;
    BasePower(|p|);
    var e := biL * |p|;
    r := Pow(h, e);
    CongMultiple(2 * h, 1, 1, n);
    CongPow(2 * h, 1, e, n);
    PowProduct(2, h, e);
    PowOfOne(e);
  }

  lemma OddValue(p: seq<limb>)
    requires p != [] && p[0] % 2 == 1
    ensures Val(p) % 2 == 1
  {
    hide Pow, Val;
    BaseFacts();
    ValFirst(p);
    var h := B / 2;
    assert B == 2 * h;
    MulAssoc(2, h, Val(p[1..]));
  }

  lemma {:induction false} PowProduct(a: nat, b: nat, e: nat)
    ensures Pow(a * b, e) == Pow(a, e) * Pow(b, e)
  {
    if e > 0 {
      PowProduct(a, b, e - 1);
      ProductSwap(a, b, Pow(a, e - 1), Pow(b, e - 1));
    }
  }

  lemma ProductSwap(a: int, b: int, x: int, y: int)
    ensures (a * b) * (x * y) == (a * x) * (b * y)
  {
    MulAssoc(a * b, x, y);
    MulSwap(a, b, x);
    MulAssoc(a * x, b, y);
  }

  lemma {:induction false} PowOfOne(e: nat)
    ensures Pow(1, e) == 1
  {
    if e > 0 { PowOfOne(e - 1); }
  }

  /** Cancelling R. */
  lemma CancelRadix(x: int, y: int, radix: nat, r: nat, n: nat)
    requires n > 0 && Cong(radix * r, 1, n) && Cong(x * radix, y * radix, n)
    ensures Cong(x, y, n)
  {
    hide Cong;
    CongMul(x * radix, y * radix, r, r, n);
    MulAssoc(x, radix, r);
    MulAssoc(y, radix, r);
    CongMul(x, x, radix * r, 1, n);
    CongMul(y, y, radix * r, 1, n);
    CongSymm(x * (radix * r), x * 1, n);
    CongTrans3(x, x * (radix * r), y * (radix * r), y, n);
  }

  /** The product of two numbers in Montgomery form. */
  method FormMul(A: Mpi, Bm: Mpi, N: Mpi, mm: limb, T: Mpi, ghost v: nat, ghost u: nat)
    requires Setting(N, mm, T) && A != N && T != A && T != Bm
    requires InForm(A, v, N) && InForm(Bm, u, N)
    modifies A`p, T`p
    ensures Setting(N, mm, T) && 0 <= v * u && InForm(A, v * u, N)
  {
    hide Pow, Val, Cong, IsMontgomeryConstant;
    MulNonneg(v, u);
    ValBound(N.p);
    ghost var a, b := A.Abs(), Bm.Abs();
    MontMul(A, Bm, N, mm, T);
    FormProduct(A.Abs(), a, b, v, u, N.p);
  }

  lemma FormProduct(x: nat, a: nat, b: nat, v: nat, u: nat, p: seq<limb>)
    requires p != [] && p[0] % 2 == 1 && Val(p) > 0
    requires Cong(x * Pow(B, |p|), a * b, Val(p))
    requires Cong(a, v * Pow(B, |p|), Val(p)) && Cong(b, u * Pow(B, |p|), Val(p))
    ensures Cong(x, (v * u) * Pow(B, |p|), Val(p))
  {
    hide Pow, Val, Cong;
    var n, radix := Val(p), Pow(B, |p|);
    var r := RadixInverse(p);
    CongMul(a, v * radix, b, u * radix, n);
    ProductSwap(v, radix, u, radix);
    MulAssoc(v * u, radix, radix);
    CongTrans3(x * radix, a * b, ((v * u) * radix) * radix, ((v * u) * radix) * radix, n);
    CancelRadix(x, (v * u) * radix, radix, r, n);
  }

  /** A := A * A, with A standing for base^k. */
  method SquareForm(A: Mpi, N: Mpi, mm: limb, T: Mpi, ghost base: nat, ghost k: nat)
    requires Setting(N, mm, T) && A != N && T != A && InForm(A, Pow(base, k), N)
    modifies A`p, T`p
    ensures Setting(N, mm, T) && InForm(A, Pow(base, 2 * k), N)
  {
    hide Pow, InForm, Setting;
    PowAdd(base, k, k);
    FormMul(A, A, N, mm, T, Pow(base, k), Pow(base, k));
  }

  /** A := A * W, adding exponents. */
  method MultiplyForm(A: Mpi, W: Mpi, N: Mpi, mm: limb, T: Mpi, ghost base: nat, ghost k: nat, ghost l: nat)
    requires Setting(N, mm, T) && A != N && T != A && T != W
    requires InForm(A, Pow(base, k), N) && InForm(W, Pow(base, l), N)
    modifies A`p, T`p
    ensures Setting(N, mm, T) && InForm(A, Pow(base, k + l), N)
  {
    hide Pow, InForm, Setting;
    PowAdd(base, k, l);
    FormMul(A, W, N, mm, T, Pow(base, k), Pow(base, l));
  }

  /** A fresh copy of a number in Montgomery form. */
  method CopyForm(W: Mpi, N: Mpi, ghost v: nat) returns (A: Mpi)
    requires InForm(W, v, N)
    ensures fresh(A) && InForm(A, v, N)
  {
    hide Pow, Val, Cong, Sig;
    A := new Mpi();
    Grow(A, |N.p| + 1);
    Copy(A, W);
  }

  /** The precomputed powers W[2^(wsize-1)] .. W[2^wsize - 1], plus W[1]; other entries stay
      unset. */
  method BuildTable(W1: Mpi, N: Mpi, mm: limb, T: Mpi, wsize: WindowSize, ghost base: nat)
    returns (W: seq<Mpi?>)
    requires Setting(N, mm, T) && T != N && W1 != N && T != W1 && InForm(W1, Pow(base, 1), N)
    modifies T`p
    ensures Setting(N, mm, T) && |W| == Pow(2, wsize) && W[1] == W1
    ensures forall i :: Pow(2, wsize - 1) <= i < Pow(2, wsize) ==>
              W[i] != null && (W[i] == W1 || fresh(W[i])) && InForm(W[i], Pow(base, i), N)
  {
    hide Pow, InForm, Setting;
    PowOne(2);
    PowMono(2, 1, wsize);
    PowSucc(2, wsize - 1);
    W := seq(Pow(2, wsize), _ => null);
    W := W[1 := W1];
    if wsize > 1 {
      PowMono(2, 1, wsize - 1);
      var j := Pow(2, wsize - 1);
      var Wj := CopyForm(W1, N, Pow(base, 1));
      for i := 0 to wsize - 1
        invariant fresh(Wj) && Setting(N, mm, T) && InForm(Wj, Pow(base, Pow(2, i)), N)
        invariant InForm(W1, Pow(base, 1), N)
      {
        PowSucc(2, i);
        SquareForm(Wj, N, mm, T, base, Pow(2, i));
      }
      W := W[j := Wj];
      var last := Wj;
      for i := j + 1 to Pow(2, wsize)
        invariant |W| == Pow(2, wsize) && W[1] == W1 && Setting(N, mm, T)
        invariant InForm(W1, Pow(base, 1), N)
        invariant W[i - 1] == last && fresh(last) && last != W1
        invariant forall k :: j <= k < i ==>
                    W[k] != null && fresh(W[k]) && W[k] != T && InForm(W[k], Pow(base, k), N)
      {
        var Wi := CopyForm(last, N, Pow(base, i - 1));
        MultiplyForm(Wi, W1, N, mm, T, base, i - 1, 1);
        W := W[i := Wi];
        last := Wi;
      }
    }
  }

  /** The state of the window machine after the leading bits of the exponent, which read as
      prefix: done is the exponent X already holds, win the bits collected in the window, and
      wbits those bits aligned to the window's left end. */
  ghost predicate WindowInv(prefix: nat, done: nat, win: nat, nbits: nat, wbits: nat, state: nat, wsize: nat)
  {
    nbits < wsize && win < Pow(2, nbits) && state <= 2
    && prefix == done * Pow(2, nbits) + win && wbits == win * Pow(2, wsize - nbits)
    && (state == 0 ==> nbits == 0 && done == 0)
    && (state == 1 ==> nbits == 0)
    && (state == 2 ==> nbits > 0 && Pow(2, nbits - 1) <= win)
  }

  lemma WindowStart(wsize: WindowSize)
    ensures WindowInv(0, 0, 0, 0, 0, 0, wsize)
  {
    PowOne(2);
  }

  /** A zero bit outside a window. */
  lemma WindowSkip(prefix: nat, done: nat, win: nat, nbits: nat, wbits: nat, state: nat, wsize: nat)
    requires WindowInv(prefix, done, win, nbits, wbits, state, wsize) && state < 2
    ensures WindowInv(2 * prefix, 2 * done, win, nbits, wbits, state, wsize)
  {
    hide Pow;
    PowOne(2);
  }

  /** A bit joins the window. */
  lemma WindowExtend(prefix: nat, done: nat, win: nat, nbits: nat, wbits: nat, state: nat, wsize: nat, ei: nat)
    requires WindowInv(prefix, done, win, nbits, wbits, state, wsize) && ei <= 1
    requires ei == 0 ==> state == 2
    ensures var n' := nbits + 1; var win' := 2 * win + ei;
            Or(wbits, ei * Pow(2, wsize - n')) == win' * Pow(2, wsize - n')
            && win' < Pow(2, n') && Pow(2, n' - 1) <= win'
            && 2 * prefix + ei == done * Pow(2, n') + win'
  {
    hide Pow, Or;
    var n' := nbits + 1;
    var w := Pow(2, wsize - n');
    PowOne(2);
    PowSucc(2, nbits);
    PowSucc(2, wsize - n');
    MulAssoc(win, 2, w);
    ShrUnique(wbits, wsize - n' + 1, win, 0);
    MulMono(ei, 1, w);
    OrDisjoint(wbits, ei * w, wsize - n' + 1);
    MulDist(2 * win, ei, w);
    MulSwap(2, win, w);
    if state == 2 { PowSucc(2, nbits - 1); }
    DoubledDone(done, Pow(2, nbits));
  }

  lemma DoubledDone(done: nat, w: nat)
    ensures done * (2 * w) == 2 * (done * w)
  {
  }

  lemma WindowOpen(prefix: nat, done: nat, win: nat, nbits: nat, wbits: nat, wsize: nat)
    requires 0 < nbits < wsize && win < Pow(2, nbits) && Pow(2, nbits - 1) <= win
    requires prefix == done * Pow(2, nbits) + win && wbits == win * Pow(2, wsize - nbits)
    ensures WindowInv(prefix, done, win, nbits, wbits, 2, wsize)
  {
  }

  lemma WindowFull(prefix: nat, wsize: WindowSize)
    ensures WindowInv(prefix, prefix, 0, 0, 0, 1, wsize)
  {
    PowOne(2);
  }

  /** The table entries an exponentiation may use. */
  ghost predicate TableReady(W: seq<Mpi?>, wsize: nat, base: nat, N: Mpi, X: Mpi, T: Mpi)
    requires wsize > 0
    reads set i | 0 <= i < |W| && W[i] != null :: W[i]
    reads N
  {
    |W| == Pow(2, wsize)
    && forall i :: Pow(2, wsize - 1) <= i < |W| ==>
         W[i] != null && W[i] != X && W[i] != T && InForm(W[i], Pow(base, i), N)
  }

  /** One exponent bit through the window machine. */
  method ProcessBit(ei: nat, state: nat, nbits: nat, wbits: nat, X: Mpi, N: Mpi, mm: limb, T: Mpi,
                    W: seq<Mpi?>, wsize: WindowSize,
                    ghost base: nat, ghost prefix: nat, ghost done: nat, ghost win: nat)
    returns (state': nat, nbits': nat, wbits': nat, ghost done': nat, ghost win': nat)
    requires ei <= 1 && WindowInv(prefix, done, win, nbits, wbits, state, wsize)
    requires Setting(N, mm, T) && T != N && X != N && T != X
    requires TableReady(W, wsize, base, N, X, T) && InForm(X, Pow(base, done), N)
    modifies X`p, T`p
    ensures Setting(N, mm, T) && TableReady(W, wsize, base, N, X, T)
    ensures WindowInv(2 * prefix + ei, done', win', nbits', wbits', state', wsize)
    ensures InForm(X, Pow(base, done'), N)
  {
    hide Pow, Or, InForm, Setting, WindowInv, TableReady;
    state', nbits', wbits', done', win' := state, nbits, wbits, done, win;
    StateRange(prefix, done, win, nbits, wbits, state, wsize);
    if ei == 0 && state == 0 {
      WindowSkip(prefix, done, win, nbits, wbits, state, wsize);
      return;
    }
    if ei == 0 && state == 1 {
      WindowSkip(prefix, done, win, nbits, wbits, state, wsize);
      SquareOutside(X, N, mm, T, W, wsize, base, done);
      done' := 2 * done;
      return;
    }
    WindowExtend(prefix, done, win, nbits, wbits, state, wsize, ei);
    state' := 2;
    nbits' := nbits + 1;
    wbits' := Or(wbits, ei * Pow(2, wsize - nbits'));
    win' := 2 * win + ei;
    if nbits' == wsize {
      PowOne(2);
      done' := CloseWindow(X, N, mm, T, W, wsize, wbits', base, done);
      state' := state' - 1;
      nbits', wbits', win' := 0, 0, 0;
      WindowFull(2 * prefix + ei, wsize);
    } else {
      WindowOpen(2 * prefix + ei, done, win', nbits', wbits', wsize);
    }
  }

  /** A squaring between windows leaves the table alone. */
  method SquareOutside(X: Mpi, N: Mpi, mm: limb, T: Mpi, W: seq<Mpi?>, wsize: WindowSize,
                       ghost base: nat, ghost done: nat)
    requires Setting(N, mm, T) && T != N && X != N && T != X
    requires TableReady(W, wsize, base, N, X, T) && InForm(X, Pow(base, done), N)
    modifies X`p, T`p
    ensures Setting(N, mm, T) && TableReady(W, wsize, base, N, X, T)
    ensures InForm(X, Pow(base, 2 * done), N)
  {
    hide Pow, InForm, Setting;
    SquareForm(X, N, mm, T, base, done);
  }

  lemma StateRange(prefix: nat, done: nat, win: nat, nbits: nat, wbits: nat, state: nat, wsize: nat)
    requires WindowInv(prefix, done, win, nbits, wbits, state, wsize)
    ensures state <= 2 && nbits < wsize && (state == 0 ==> done == 0)
  {
  }

  /** A full window: wsize squarings and one multiplication by a table entry. */
  method CloseWindow(X: Mpi, N: Mpi, mm: limb, T: Mpi, W: seq<Mpi?>, wsize: WindowSize, wbits: nat,
                     ghost base: nat, ghost done: nat)
    returns (ghost done': nat)
    requires Setting(N, mm, T) && T != N && X != N && T != X
    requires TableReady(W, wsize, base, N, X, T) && InForm(X, Pow(base, done), N)
    requires Pow(2, wsize - 1) <= wbits < Pow(2, wsize)
    modifies X`p, T`p
    ensures Setting(N, mm, T) && TableReady(W, wsize, base, N, X, T)
    ensures done' == done * Pow(2, wsize) + wbits && InForm(X, Pow(base, done'), N)
  {
    hide Pow, InForm, Setting;
    PowOne(2);
    ghost var k := done;
    for i := 0 to wsize
      invariant k == done * Pow(2, i) && Setting(N, mm, T) && InForm(X, Pow(base, k), N)
      invariant TableReady(W, wsize, base, N, X, T)
    {
      PowSucc(2, i);
      DoubledDone(done, Pow(2, i));
      SquareForm(X, N, mm, T, base, k);
      k := 2 * k;
    }
    MultiplyForm(X, W[wbits], N, mm, T, base, k, wbits);
    done' := k + wbits;
  }

  /** Moving one bit down the exponent. */
  lemma NextExponentBit(p: seq<limb>, l: nat, b: nat)
    requires l < |p| && b < biL
    ensures Shr(Val(p), l * biL + b) == 2 * Shr(Val(p), l * biL + b + 1) + BitAt(p[l], b)
  {
    hide *;
    ShrHalf(Val(p), l * biL + b);
    BitOfLimb(p, l, b);
  }

  /** The main loop of mpi_exp_mod, over the bits of E from the top. */
  method ScanExponent(X: Mpi, E: Mpi, N: Mpi, mm: limb, T: Mpi, W: seq<Mpi?>, wsize: WindowSize, ghost base: nat)
    returns (nbits: nat, wbits: nat, ghost done: nat, ghost win: nat)
    requires Setting(N, mm, T) && T != N && X != N && T != X && X != E && T != E
    requires TableReady(W, wsize, base, N, X, T) && InForm(X, Pow(base, 0), N)
    modifies X`p, T`p
    ensures Setting(N, mm, T) && TableReady(W, wsize, base, N, X, T)
    ensures InForm(X, Pow(base, done), N)
    ensures exists state :: WindowInv(E.Abs(), done, win, nbits, wbits, state, wsize)
  {
    hide Pow, Val, Or, InForm, Setting, WindowInv, Shr, Low, TableReady;
    var nblimbs: nat, bufsize: nat, state: nat := |E.p|, 0, 0;
    nbits, wbits, done, win := 0, 0, 0, 0;
    ExponentEnds(E.p);
    WindowStart(wsize);
    ghost var prefix: nat := 0;
    while true
      invariant nblimbs <= |E.p| && bufsize <= biL && (bufsize > 0 ==> nblimbs < |E.p|)
      invariant prefix == Shr(E.Abs(), nblimbs * biL + bufsize)
      invariant WindowInv(prefix, done, win, nbits, wbits, state, wsize)
      invariant Setting(N, mm, T) && InForm(X, Pow(base, done), N) && TableReady(W, wsize, base, N, X, T)
      decreases nblimbs * biL + bufsize
    {
      if bufsize == 0 {
        if nblimbs == 0 { break; }
        MulDist(nblimbs, 1, biL);
        nblimbs := nblimbs - 1;
        bufsize := biL;
      }
      bufsize := bufsize - 1;
      var ei := BitAt(E.p[nblimbs], bufsize);
      NextExponentBit(E.p, nblimbs, bufsize);
      state, nbits, wbits, done, win :=
        ProcessBit(ei, state, nbits, wbits, X, N, mm, T, W, wsize, base, prefix, done, win);
      prefix := 2 * prefix + ei;
    }
  }

  lemma ExponentEnds(p: seq<limb>)
    ensures Shr(Val(p), |p| * biL) == 0 && Shr(Val(p), 0) == Val(p)
  {
    hide Pow, Val;
    ValBound(p);
    BasePower(|p|);
    PowOne(2);
    ShrUnique(Val(p), |p| * biL, 0, Val(p));
    ShrUnique(Val(p), 0, Val(p), 0);
  }

  /** Bit wsize of the shifted window is the next bit of the window. */
  lemma NextWindowBit(win: nat, wsize: nat, nbits: nat, i: nat)
    requires i < nbits < wsize
    ensures BitAt(win * Pow(2, wsize - nbits + i + 1), wsize) == BitAt(win, nbits - i - 1)
  {
    hide Pow, Shr;
    var s := wsize - nbits + i + 1;
    ShrUnique(win * Pow(2, s), s, win, 0);
    ShrTwice(win * Pow(2, s), s, nbits - i - 1);
  }

  /** The closing loop of mpi_exp_mod, for the bits left in an unfinished window. */
  method FinishWindow(X: Mpi, W1: Mpi, N: Mpi, mm: limb, T: Mpi, nbits: nat, wbits0: nat, wsize: WindowSize,
                      ghost base: nat, ghost done: nat, ghost win: nat)
    requires Setting(N, mm, T) && T != N && X != N && T != X && W1 != X && W1 != T
    requires nbits < wsize && win < Pow(2, nbits) && wbits0 == win * Pow(2, wsize - nbits)
    requires InForm(X, Pow(base, done), N) && InForm(W1, Pow(base, 1), N)
    modifies X`p, T`p
    ensures Setting(N, mm, T) && InForm(X, Pow(base, done * Pow(2, nbits) + win), N)
  {
    hide Pow, InForm, Setting, Shr, Low;
    var wbits := wbits0;
    ghost var k: nat := done;
    PowOne(2);
    ShrUnique(win, nbits, 0, win);
    ShrUnique(win, 0, win, 0);
    for i := 0 to nbits
      invariant k == done * Pow(2, i) + Shr(win, nbits - i)
      invariant wbits == win * Pow(2, wsize - nbits + i)
      invariant Setting(N, mm, T) && InForm(X, Pow(base, k), N) && InForm(W1, Pow(base, 1), N)
    {
      PowSucc(2, i);
      DoubledDone(done, Pow(2, i));
      ShrHalf(win, nbits - i - 1);
      SquareForm(X, N, mm, T, base, k);
      k := 2 * k;
      PowSucc(2, wsize - nbits + i);
      DoubledDone(win, Pow(2, wsize - nbits + i));
      wbits := 2 * wbits;
      NextWindowBit(win, wsize, nbits, i);
      if BitAt(wbits, wsize) != 0 {
        MultiplyForm(X, W1, N, mm, T, base, k, 1);
        k := k + 1;
      }
    }
  }

  /** R^2 mod N. */
  ghost function RSquared(N: Mpi): nat
    requires N.Value() > 0
    reads N
  {
    Pow(B, 2 * |N.p|) % N.Value()
  }

  /** R^2 mod N, from the caller's cache or computed and stored there. */
  method RadixSquared(N: Mpi, cache: Mpi?) returns (RR: Mpi)
    requires N.p != [] && N.Value() > 0 && cache != N
    requires cache != null && cache.p != [] ==>
               cache.s == 1 && cache.Value() == RSquared(N)
    modifies if cache == null then {} else {cache}
    ensures (RR == cache || fresh(RR)) && RR.p != [] && RR.s == 1
    ensures RR.Value() == RSquared(N)
    ensures cache != null ==> cache.s == 1 && cache.p != [] && cache.Value() == RR.Value()
  {
    hide Pow, Val, Sig, LimbCount, BitLen, RSquared;
    BaseFacts();
    if cache != null && cache.p != [] {
      return cache;
    }
    RR := new Mpi();
    Lset(RR, 1);
    ShiftL(RR, |N.p| * 2 * biL);
    BasePower(2 * |N.p|);
    var st := ModMpi(RR, RR, N);
    RSquaredValue(N);
    if cache != null {
      Copy(cache, RR);
    }
  }

  lemma RSquaredValue(N: Mpi)
    requires N.Value() > 0
    ensures RSquared(N) == Pow(B, 2 * |N.p|) % N.Value() < N.Value()
  {
  }

  /** W[1] = A * R mod N: reduce A if needed, then one Montgomery product with R^2. */
  method FirstPower(A: Mpi, RR: Mpi, N: Mpi, mm: limb, T: Mpi) returns (W1: Mpi)
    requires Setting(N, mm, T) && T != N && N.s == 1 && A.p != [] && A.s == 1 && T != A && T != RR && RR != N
    requires RR.p != [] && RR.s == 1 && RR.Value() == RSquared(N)
    modifies T`p
    ensures fresh(W1) && Setting(N, mm, T) && InForm(W1, Pow(A.Abs(), 1), N)
  {
    hide Pow, Val, Sig, Cong, IsMontgomeryConstant;
    W1 := new Mpi();
    Grow(W1, |N.p| + 1);
    ghost var a, n := A.Abs(), N.Abs();
    var c := CmpMpi(A, N);
    CongMod(a, n);
    CongSame(a, n);
    if c >= 0 {
      var _ := ModMpi(W1, A, N);
    } else {
      Copy(W1, A);
    }
    ValBound(N.p);
    ghost var w := W1.Abs();
    MontMul(W1, RR, N, mm, T);
    ToForm(W1.Abs(), w, a, RR.Abs(), N.p);
    PowOne(a);
  }

  lemma CongSame(a: int, n: int)
    requires n > 0
    ensures Cong(a, a, n)
  {
  }

  lemma ToForm(x: nat, w: nat, a: nat, rr: nat, p: seq<limb>)
    requires p != [] && p[0] % 2 == 1 && Val(p) > 0
    requires Cong(w, a, Val(p)) && rr == Pow(B, 2 * |p|) % Val(p)
    requires Cong(x * Pow(B, |p|), w * rr, Val(p))
    ensures Cong(x, a * Pow(B, |p|), Val(p))
  {
    hide Pow, Val, Cong;
    var n, radix := Val(p), Pow(B, |p|);
    var r := RadixInverse(p);
    PowAdd(B, |p|, |p|);
    CongMod(radix * radix, n);
    CongMul(w, a, rr, radix * radix, n);
    MulAssoc(a, radix, radix);
    CongTrans3(x * radix, w * rr, (a * radix) * radix, (a * radix) * radix, n);
    CancelRadix(x, a * radix, radix, r, n);
  }

  /** X = R mod N: the number one in Montgomery form. */
  method OneForm(X: Mpi, RR: Mpi, N: Mpi, mm: limb, T: Mpi, ghost base: nat)
    requires Setting(N, mm, T) && T != N && N.s == 1 && X != N && X != T && X != RR && T != RR
    requires RR.p != [] && RR.s == 1 && RR.Value() == RSquared(N) && |X.p| > |N.p|
    modifies X, T`p
    ensures Setting(N, mm, T) && InForm(X, Pow(base, 0), N) && X.s == 1
  {
    hide Pow, Val, Sig, Cong, IsMontgomeryConstant;
    Copy(X, RR);
    ValBound(N.p);
    ghost var x := X.Abs();
    MontRed(X, N, mm, T);
    PowOne(base);
    CongSame(1, N.Abs());
    ToForm(X.Abs(), 1, 1, x, N.p);
  }

  /** Leaving Montgomery form. */
  method FromForm(X: Mpi, N: Mpi, mm: limb, T: Mpi, ghost v: nat)
    requires Setting(N, mm, T) && T != N && X != N && X != T && InForm(X, v, N)
    modifies X`p, T`p
    ensures X.Abs() == v % N.Abs() && X.p != []
  {
    hide Pow, Val, Cong, IsMontgomeryConstant;
    ValBound(N.p);
    ghost var x, n, radix := X.Abs(), N.Abs(), Pow(B, |N.p|);
    MontRed(X, N, mm, T);
    ghost var r := RadixInverse(N.p);
    CongTrans3(X.Abs() * radix, x, v * radix, v * radix, n);
    CancelRadix(X.Abs(), v, radix, r, n);
    CongRange(X.Abs(), v, n);
  }

  /** The computation of mpi_exp_mod on a nonnegative base. */
  method ExpModPositive(X: Mpi, A: Mpi, E: Mpi, N: Mpi, cache: Mpi?, wsize: WindowSize, mm: limb)
    requires N.p != [] && N.p[0] % 2 == 1 && N.Value() > 0 && IsMontgomeryConstant(N.p[0], mm)
    requires E.p != [] && A.p != [] && A.s == 1 && X != E && X != N && cache !in {X, A, E, N}
    requires |X.p| > |N.p|
    requires cache != null && cache.p != [] ==>
               cache.s == 1 && cache.Value() == RSquared(N)
    modifies X
    modifies if cache == null then {} else {cache}
    ensures X.s == 1 && X.p != [] && X.Value() == Pow(old(A.Abs()), E.Abs()) % N.Value()
  {
    hide Pow, Val, Sig, Cong, IsMontgomeryConstant, InForm, WindowInv, Or;
    ghost var base := A.Abs();
    var T := new Mpi();
    Grow(T, 2 * (|N.p| + 1));
    var RR := RadixSquared(N, cache);
    var W1 := FirstPower(A, RR, N, mm, T);
    OneForm(X, RR, N, mm, T, base);
    var W := BuildTable(W1, N, mm, T, wsize, base);
    var nbits, wbits;
    ghost var done, win;
    nbits, wbits, done, win := ScanExponent(X, E, N, mm, T, W, wsize, base);
    WindowResult(E.Abs(), done, win, nbits, wbits, wsize);
    FinishWindow(X, W1, N, mm, T, nbits, wbits, wsize, base, done, win);
    FromForm(X, N, mm, T, Pow(base, E.Abs()));
  }

  lemma WindowResult(e: nat, done: nat, win: nat, nbits: nat, wbits: nat, wsize: nat)
    requires exists state :: WindowInv(e, done, win, nbits, wbits, state, wsize)
    ensures nbits < wsize && win < Pow(2, nbits) && wbits == win * Pow(2, wsize - nbits)
    ensures e == done * Pow(2, nbits) + win
  {
  }

  /** What mpi_exp_mod leaves in X. */
  ghost function ExpModResult(a: nat, negative: bool, e: nat, n: nat): int
    requires n > 0
  {
    if negative then n - Pow(a, e) % n else Pow(a, e) % n
  }

  /** mpi_exp_mod: X = A^E mod N for odd N, for every window size and with or without a
      cached R^2; a negative base gets the correction of the source's last lines. */
  method ExpMod(X: Mpi, A: Mpi, E: Mpi, N: Mpi, cache: Mpi?) returns (st: Status)
    requires N.p != [] && E.p != [] && A.p != [] && X != E && X != N && cache !in {X, A, E, N}
    requires cache != null && cache.p != [] && N.Value() > 0 ==>
               cache.s == 1 && cache.Value() == RSquared(N)
    modifies X
    modifies if cache == null then {} else {cache}
    ensures st == if N.Value() < 0 || N.p[0] % 2 == 0 || E.Value() < 0 then BadInputData else Success
    ensures st == Success ==> N.Value() > 0
    ensures st == Success ==> X.Value() == ExpModResult(old(A.Abs()), old(A.s) == -1, E.Abs(), N.Value())
    ensures st != Success ==> X.p == old(X.p) && X.s == old(X.s)
  {
    hide Pow, Val, Sig, Cong, IsMontgomeryConstant, BitLen;
    BaseFacts();
    var c := CmpInt(N, 0);
    if c < 0 || N.p[0] % 2 == 0 { return BadInputData; }
    c := CmpInt(E, 0);
    if c < 0 { return BadInputData; }
    OddValue(N.p);
    var mm := MontgInit(N);
    var i := Msb(E);
    var wsize := WindowFor(i);
    Grow(X, |N.p| + 1);
    var A' := A;
    var neg := A.s == -1;
    if neg {
      A' := new Mpi();
      Copy(A', A);
      A'.s := 1;
    }
    ExpModPositive(X, A', E, N, cache, wsize, mm);
    if neg {
      X.s := -1;
      AddMpi(X, N, X);
    }
    return Success;
  }

  /** Powers of any integer. */
  ghost function IntPow(b: int, e: nat): int {
    if e == 0 then 1 else b * IntPow(b, e - 1)
  }

  lemma {:induction false} IntPowSign(a: nat, e: nat)
    ensures IntPow(a, e) == Pow(a, e)
    ensures IntPow(0 - a, e) == if e % 2 == 0 then Pow(a, e) else 0 - Pow(a, e)
  {
    hide Pow, IntPow;
    PowOne(a);
    IntPowZero(a);
    IntPowZero(0 - a);
    if e > 0 {
      IntPowSign(a, e - 1);
      IntPowSucc(a, e - 1);
      IntPowSucc(0 - a, e - 1);
      PowSucc(a, e - 1);
      NegatedProduct(a, Pow(a, e - 1));
      if e % 2 == 0 { assert (e - 1) % 2 == 1; } else { assert (e - 1) % 2 == 0; }
    }
  }

  lemma IntPowZero(b: int)
    ensures IntPow(b, 0) == 1
  {
  }

  lemma IntPowSucc(b: int, e: nat)
    ensures IntPow(b, e + 1) == b * IntPow(b, e)
  {
  }

  lemma NegatedProduct(a: int, p: int)
    ensures (0 - a) * p == 0 - a * p && (0 - a) * (0 - p) == a * p
  {
  }

  /** For a nonnegative base the result is the power; for a base of negative sign it is the
      reduced power exactly when the exponent is odd and the power is no multiple of N. */
  lemma NegativeBaseExact(a: nat, negative: bool, e: nat, n: nat)
    requires n > 0 && n % 2 == 1
    ensures ExpModResult(a, negative, e, n) == IntPow(if negative then 0 - a else a, e) % n
       <==> !negative || (e % 2 == 1 && Pow(a, e) % n != 0)
  {
    hide Pow, IntPow;
    IntPowSign(a, e);
    var p := Pow(a, e);
    DivMod(p, n);
    var x, q := p % n, p / n;
    if negative && e % 2 == 1 {
      if x == 0 {
        DivUnique(0 - p, 0 - q, 0, n);
      } else {
        DivUnique(0 - p, 0 - q - 1, n - x, n);
      }
    }
  }

  /** A power of a number coprime to n > 1 is no multiple of n. */
  lemma PowerOfCoprime(a: nat, e: nat, n: nat)
    requires n > 1 && Gcd(a, n) == 1
    ensures Pow(a, e) % n != 0
  {
    hide Pow, Gcd, Cong;
    var s, t := Bezout(a, n);
    var r: nat := s % n;
    CongMod(s, n);
    CongScale(r, s, a, n);
    assert s * a == 1 + (0 - t) * n by { MulDist(0, t, n); }
    CongMultiple(s * a, 1, 0 - t, n);
    CongThrough(r * a, s * a, 1, n);
    assert r * a == a * r;
    CongPow(a * r, 1, e, n);
    PowOfOne(e);
    PowProduct(a, r, e);
    if Pow(a, e) % n == 0 { ZeroTimes(Pow(a, e), Pow(r, e), n); }
  }

  lemma CongThrough(x: int, y: int, z: int, n: int)
    requires n > 0 && Cong(x, y, n) && Cong(y, z, n)
    ensures Cong(x, z, n)
  {
  }

  lemma ZeroTimes(x: int, y: int, n: int)
    requires n > 1 && x % n == 0
    ensures !Cong(x * y, 1, n)
  {
    DivMod(x, n);
    MulSwap(x / n, n, y);
    DivUnique(x * y, (x / n) * y, 0, n);
    DivUnique(1, 0, 1, n);
  }

  /** For a base coprime to N the sign of the base and the parity of the exponent decide. */
  lemma NegativeBaseCoprime(a: nat, negative: bool, e: nat, n: nat)
    requires n > 1 && n % 2 == 1 && Gcd(a, n) == 1
    ensures ExpModResult(a, negative, e, n) == IntPow(if negative then 0 - a else a, e) % n <==> !negative || e % 2 == 1
  {
    hide Pow, IntPow, Gcd, ExpModResult;
    NegativeBaseExact(a, negative, e, n);
    PowerOfCoprime(a, e, n);
  }

  /** For a prime N: a base of negative sign is treated right exactly when the exponent is odd and N
      does not divide the base. */
  lemma NegativeBasePrime(a: nat, negative: bool, e: nat, n: nat)
    requires Prime(n) && n % 2 == 1
    ensures ExpModResult(a, negative, e, n) == IntPow(if negative then 0 - a else a, e) % n
       <==> !negative || (e % 2 == 1 && a % n != 0)
  {
    hide Pow, IntPow, Gcd, ExpModResult, Prime;
    PrimeAboveOne(n);
    NegativeBaseExact(a, negative, e, n);
    if a % n != 0 {
      PrimeOrMultiple(n, a);
      PowerOfCoprime(a, e, n);
    } else if e > 0 {
      PowSucc(a, e - 1);
      DivMod(a, n);
      MulSwap(a / n, n, Pow(a, e - 1));
      DivUnique(Pow(a, e), (a / n) * Pow(a, e - 1), 0, n);
    }
  }

  lemma PrimeAboveOne(n: int)
    requires Prime(n)
    ensures n > 1
  {
  }

  /** The smallest failing call: (-1)^2 mod 3 comes out as 2. */
  lemma NegativeBaseFails()
    ensures ExpModResult(1, true, 2, 3) == 2 && IntPow(-1, 2) % 3 == 1
  {
    assert Pow(1, 2) == 1 * Pow(1, 1) == 1;
    assert IntPow(-1, 2) == -1 * IntPow(-1, 1);
  }
}
