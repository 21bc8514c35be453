/** Bit counting and shifting of bignum.c. */
module BignumShift {
  import opened Arith
  import opened Bits
  import opened Limbs
  import opened Bignum

  lemma LimbBase(t: nat)
    requires t <= biL
    ensures B == Pow(2, t) * Pow(2, biL - t)
  {
    hide Pow;
    Pow2Split(biL, t);
  }

  /** A shift count as whole limbs and remaining bits. */
  function WholeLimbs(count: nat): nat {
    count / biL
  }

  function RestBits(count: nat): (t: nat)
    ensures t < biL
  {
    count % biL
  }

  lemma CountSplit(count: nat)
    ensures count == WholeLimbs(count) * biL + RestBits(count)
  {
    DivMod(count, biL);
  }

  lemma BasePower(i: nat)
    ensures Pow(B, i) == Pow(2, biL * i)
  {
    hide Pow;
    PowMul(2, biL, i);
  }

  /** mpi_msb: the bit length of |X|. */
  method Msb(X: Mpi) returns (bits: nat)
    requires |X.p| > 0
    ensures bits == BitLen(X.Abs())
  {
    hide Pow, Val, Shr, BitLen;
    var i := |X.p| - 1;
    while i > 0 && X.p[i] == 0
      invariant 0 <= i < |X.p| && forall k :: i < k < |X.p| ==> X.p[k] == 0
    {
      i := i - 1;
    }
    var j: nat := biL;
    while j > 0 && BitAt(X.p[i], j - 1) == 0
      invariant 0 <= j <= biL && X.p[i] < Pow(2, j)
    {
      BelowHalf(X.p[i], j);
      j := j - 1;
    }
    bits := i * biL + j;
    PowOne(2);
    if j > 0 { BelowHalf(X.p[i], j); }
    ValZeroTail(X.p, i + 1);
    TopLimbBits(X.p[..i + 1], i, j);
  }

  lemma BelowHalf(x: nat, j: nat)
    requires j > 0 && x < Pow(2, j)
    ensures x < Pow(2, j - 1) <==> BitAt(x, j - 1) == 0
  {
    hide Pow;
    var h := Pow(2, j - 1);
    PowSucc(2, j - 1);
    if x < h {
      DivUnique(x, 0, x, h);
    } else {
      DivUnique(x, 1, x - h, h);
    }
  }

  lemma TopLimbBits(p: seq<limb>, i: nat, j: nat)
    requires |p| == i + 1 && j <= biL && p[i] < Pow(2, j)
    requires j > 0 ==> Pow(2, j - 1) <= p[i]
    requires j == 0 ==> i == 0
    ensures i * biL + j == BitLen(Val(p))
  {
    hide Pow, Val, Shr, Low, Or, BitLen;
    var w := Pow(B, i);
    assert p[..i + 1] == p;
    ValPrefix(p, i);
    ValBound(p[..i]);
    BasePower(i);
    PowAdd(2, j, biL * i);
    var x: int := p[i];
    MulMono(x + 1, Pow(2, j), w);
    MulDist(x, 1, w);
    if j > 0 {
      PowAdd(2, j - 1, biL * i);
      MulMono(Pow(2, j - 1), x, w);
    } else {
      assert p[..0] == [];
      PowOne(B);
    }
    BitLenUnique(Val(p), i * biL + j);
  }

  /** The exponent of two in x, or 0 for x = 0: what mpi_lsb reports. */
  ghost predicate IsLowBit(x: nat, r: nat) {
    if x == 0 then r == 0 else Low(x, r) == 0 && BitAt(x, r) == 1
  }

  /** mpi_lsb. */
  method Lsb(X: Mpi) returns (count: nat)
    ensures IsLowBit(X.Abs(), count)
  {
    hide Pow, Val, Shr, Low;
    count := 0;
    for i := 0 to |X.p|
      invariant count == i * biL && forall k :: 0 <= k < i ==> X.p[k] == 0
    {
      PowOne(2);
      ShrUnique(X.p[i], 0, X.p[i], 0);
      for j := 0 to biL
        invariant count == i * biL + j && Low(X.p[i], j) == 0
      {
        if BitAt(X.p[i], j) != 0 {
          LowBitFound(X.p, i, j);
          return;
        }
        NextBitZero(X.p[i], j);
        count := count + 1;
      }
      ShrUnique(X.p[i], biL, 0, X.p[i]);
      MulDist(i, 1, biL);
    }
    ValZeros(X.p);
    return 0;
  }

  lemma NextBitZero(x: nat, j: nat)
    requires Low(x, j) == 0 && BitAt(x, j) == 0
    ensures Low(x, j + 1) == 0
  {
    hide Pow;
    ShrLow(x, j);
    var q := Shr(x, j);
    PowSucc(2, j);
    MulSwap(2, q / 2, Pow(2, j));
    ShrUnique(x, j + 1, q / 2, 0);
  }

  lemma LowBitFound(p: seq<limb>, i: nat, j: nat)
    requires i < |p| && j < biL && forall k :: 0 <= k < i ==> p[k] == 0
    requires Low(p[i], j) == 0 && BitAt(p[i], j) != 0
    ensures IsLowBit(Val(p), i * biL + j)
  {
    hide Pow, Val, Shr, Low;
    var q, t := Shr(p[i], j), Pow(2, biL - j - 1);
    var v := Val(p[i + 1..]);
    LowBitValue(p, i, j);
    PowSucc(2, biL - j - 1);
    EvenPart(q, t, v);
    ShrUnique(Val(p), i * biL + j, q + Pow(2, biL - j) * v, 0);
    OddShift(Val(p), i * biL + j);
  }

  lemma OddShift(x: nat, r: nat)
    requires Low(x, r) == 0 && Shr(x, r) % 2 == 1
    ensures IsLowBit(x, r)
  {
    hide Pow, Shr, Low;
    if x == 0 { ShrUnique(0, r, 0, 0); }
  }

  lemma LowBitValue(p: seq<limb>, i: nat, j: nat)
    requires i < |p| && j < biL && forall k :: 0 <= k < i ==> p[k] == 0
    requires Low(p[i], j) == 0
    ensures Val(p) == (Shr(p[i], j) + Pow(2, biL - j) * Val(p[i + 1..])) * Pow(2, i * biL + j)
  {
    hide *;
    ValSplit(p, i);
    ValZeros(p[..i]);
    ValFirst(p[i..]);
    assert p[i..][1..] == p[i + 1..];
    ShrLow(p[i], j);
    LimbBase(j);
    BasePower(i);
    PowAdd(2, j, i * biL);
    LowBitAlgebra(Shr(p[i], j), Pow(2, j), Pow(2, biL - j), Val(p[i + 1..]), Pow(B, i), B);
  }

  lemma EvenPart(q: nat, t: nat, v: nat)
    ensures (q + (2 * t) * v) % 2 == q % 2
  {
    MulAssoc(2, t, v);
  }

  lemma LowBitAlgebra(q: nat, h: nat, t: nat, v: nat, w: nat, b: nat)
    requires b == h * t
    ensures (q * h + b * v) * w == (q + t * v) * (h * w)
  {
    MulAssoc(h, t, v);
    MulDist(q, t * v, h);
    MulAssoc(q + t * v, h, w);
  }

  /** mpi_shift_l: |X| times 2^count; X grows to just the limbs the result needs. */
  method ShiftL(X: Mpi, count: nat)
    requires |X.p| > 0
    modifies X`p
    ensures X.Abs() == old(X.Abs()) * Pow(2, count)
    ensures |X.p| == Max(|old(X.p)|, LimbCount(BitLen(old(X.Abs())) + count))
  {
    hide Pow, WholeLimbs, RestBits;
    var v0, t1 := WholeLimbs(count), RestBits(count);
    var bits := Msb(X);
    var i := bits + count;
    if |X.p| * biL < i {
      LimbsNeeded(|X.p|, i);
      Grow(X, LimbCount(i));
    } else {
      LimbsEnough(|X.p|, i);
    }
    ghost var x := X.Abs();
    ShiftFits(x, bits, count, |X.p|);
    if v0 > 0 {
      ShiftLimbsUp(X, v0);
    }
    SplitShift(x, count);
    if t1 > 0 {
      ShiftBitsUp(X, v0, t1, x * Pow(B, v0));
    }
  }

  lemma SplitShift(x: nat, count: nat)
    ensures (x * Pow(B, WholeLimbs(count))) * Pow(2, RestBits(count)) == x * Pow(2, count)
    ensures WholeLimbs(count) == 0 ==> x * Pow(B, WholeLimbs(count)) == x
    ensures RestBits(count) == 0 ==> x * Pow(2, count) == x * Pow(B, WholeLimbs(count))
  {
    hide Pow, WholeLimbs, RestBits;
    SplitCount(count);
    MulAssoc(x, Pow(B, WholeLimbs(count)), Pow(2, RestBits(count)));
  }

  lemma SplitCount(count: nat)
    ensures Pow(2, count) == Pow(B, WholeLimbs(count)) * Pow(2, RestBits(count))
    ensures WholeLimbs(count) == 0 ==> Pow(B, WholeLimbs(count)) == 1
    ensures RestBits(count) == 0 ==> Pow(2, RestBits(count)) == 1
  {
    hide Pow, WholeLimbs, RestBits;
    var v0, t1 := WholeLimbs(count), RestBits(count);
    CountSplit(count);
    BasePower(v0);
    PowAdd(2, biL * v0, t1);
    PowOne(2);
    PowOne(B);
  }

  /** The number of limbs that hold so many bits. */
  function LimbCount(bits: nat): nat {
    (bits + biL - 1) / biL
  }

  lemma LimbCountUnique(bits: nat, n: nat)
    requires bits <= n * biL < bits + biL
    ensures LimbCount(bits) == n
  {
    DivUnique(bits + biL - 1, n, bits + biL - 1 - n * biL, biL);
  }

  /** A number without leading zero limbs takes just the limbs its bits need. */
  lemma SigBits(p: seq<limb>)
    ensures Sig(p) == LimbCount(BitLen(Val(p)))
  {
    hide Pow, Val, BitLen, LimbCount, Sig;
    var n, v := Sig(p), Val(p);
    SigBounds(p);
    BitLenBounds(v);
    var bits := BitLen(v);
    BasePower(n);
    if n * biL < bits { PowMono(2, biL * n, bits - 1); }
    if n > 0 {
      BasePower(n - 1);
      if bits <= (n - 1) * biL { PowMono(2, bits, biL * (n - 1)); }
      MulDist(n, 1, biL);
    } else {
      PowOne(2);
      BitLenUnique(v, 0);
    }
    LimbCountUnique(bits, n);
  }

  lemma LimbsNeeded(n: nat, i: nat)
    requires n * biL < i
    ensures LimbCount(i) > n && LimbCount(i) * biL >= i
  {
    hide Pow;
    var q := (i + biL - 1) / biL;
    DivMod(i + biL - 1, biL);
    if q <= n { MulMono(q, n, biL); }
  }

  lemma LimbsEnough(n: nat, i: nat)
    requires i <= n * biL
    ensures LimbCount(i) <= n
  {
    hide Pow;
    var q := (i + biL - 1) / biL;
    DivMod(i + biL - 1, biL);
    if q > n {
      MulMono(n + 1, q, biL);
      MulDist(n, 1, biL);
    }
  }

  /** The shifted number and the intermediate one fit in n limbs. */
  lemma ShiftFits(x: nat, bits: nat, count: nat, n: nat)
    requires bits == BitLen(x) && bits + count <= n * biL
    ensures x * Pow(2, count) < Pow(B, n)
    ensures x * Pow(B, WholeLimbs(count)) < Pow(B, n)
    ensures WholeLimbs(count) <= n
  {
    hide Pow, BitLen, WholeLimbs, RestBits;
    BitLenBounds(x);
    PowAdd(2, bits, count);
    PowMono(2, bits + count, n * biL);
    BasePower(n);
    LimbShiftSmaller(count, n);
    ScaledBelow(x, Pow(2, bits), Pow(2, count), Pow(B, WholeLimbs(count)), Pow(B, n));
  }

  lemma ScaledBelow(x: nat, a: nat, b: nat, c: nat, d: nat)
    requires x < a && a * b <= d && c <= b && b > 0
    ensures x * b < d && x * c < d
  {
    MulStrict(x, a, b);
    MulMono(c, b, x);
  }

  lemma LimbShiftSmaller(count: nat, n: nat)
    requires count <= n * biL
    ensures WholeLimbs(count) <= n && Pow(B, WholeLimbs(count)) <= Pow(2, count)
  {
    hide Pow, WholeLimbs, RestBits;
    var v0 := WholeLimbs(count);
    CountSplit(count);
    BasePower(v0);
    PowMono(2, biL * v0, count);
    if v0 > n { MulMono(n + 1, v0, biL); MulDist(n, 1, biL); }
  }

  /** First half of mpi_shift_l: move limbs up by v0. */
  method ShiftLimbsUp(X: Mpi, v0: nat)
    requires 0 < v0 <= |X.p| && X.Abs() * Pow(B, v0) < Pow(B, |X.p|)
    modifies X`p
    ensures |X.p| == |old(X.p)| && X.Abs() == old(X.Abs()) * Pow(B, v0)
    ensures forall k :: 0 <= k < v0 ==> X.p[k] == 0
  {
    hide Pow, Val, Shr, Low, Or, BitLen;
    ghost var q := X.p;
    var n := |X.p|;
    var i := n;
    while i > v0
      invariant v0 <= i <= n == |X.p|
      invariant forall k :: i <= k < n ==> X.p[k] == q[k - v0]
      invariant forall k :: 0 <= k < i ==> X.p[k] == q[k]
    {
      X.p := X.p[i - 1 := X.p[i - v0 - 1]];
      i := i - 1;
    }
    while i > 0
      invariant 0 <= i <= v0 && |X.p| == n
      invariant forall k :: v0 <= k < n ==> X.p[k] == q[k - v0]
      invariant forall k :: i <= k < v0 ==> X.p[k] == 0
    {
      X.p := X.p[i - 1 := 0];
      i := i - 1;
    }
    LimbsUpVal(q, X.p, v0);
  }

  lemma LimbsUpVal(q: seq<limb>, p: seq<limb>, v0: nat)
    requires v0 <= |q| == |p| && Val(q) * Pow(B, v0) < Pow(B, |q|)
    requires forall k :: v0 <= k < |p| ==> p[k] == q[k - v0]
    requires forall k :: 0 <= k < v0 ==> p[k] == 0
    ensures Val(p) == Val(q) * Pow(B, v0)
  {
    hide Pow, Val, Shr, Low, Or, BitLen;
    var m := |q| - v0;
    assert p[v0..] == q[..m];
    ValSplit(p, v0);
    ValZeros(p[..v0]);
    PowAdd(B, m, v0);
    MulCancelLess(Val(q), Pow(B, m), Pow(B, v0));
    ValSplit(q, m);
    NoHighPart(Val(q), Val(q[..m]), Val(q[m..]), Pow(B, m));
  }

  lemma NoHighPart(x: nat, low: nat, high: nat, w: nat)
    requires x == low + high * w && x < w
    ensures high == 0 && low == x
  {
    if high > 0 { MulMono(1, high, w); }
  }

  /** Second half of mpi_shift_l: shift by fewer bits than a limb has. */
  method ShiftBitsUp(X: Mpi, v0: nat, t: nat, ghost x: nat)
    requires 0 < t < biL && v0 <= |X.p| && X.Abs() == x
    requires x * Pow(2, t) < Pow(B, |X.p|) && forall k :: 0 <= k < v0 ==> X.p[k] == 0
    modifies X`p
    ensures |X.p| == |old(X.p)| && X.Abs() == x * Pow(2, t)
  {
    hide Pow, Val, Shr, Low, Or, BitLen;
    BaseFacts();
    LimbBase(t);
    ghost var q := X.p;
    var i, r0: limb := v0, 0;
    ValZeros(q[..v0]);
    while i < |X.p|
      invariant v0 <= i <= |X.p| == |q| && r0 < Pow(2, t)
      invariant forall k :: i <= k < |q| ==> X.p[k] == q[k]
      invariant Val(X.p[..i]) + r0 * Pow(B, i) == Val(q[..i]) * Pow(2, t)
    {
      ghost var p0, r := X.p, r0;
      OrShifted(q[i], r0, t);
      var r1: limb := Shr(X.p[i], biL - t);
      X.p := X.p[i := ShlW(X.p[i], t)];
      X.p := X.p[i := Or(X.p[i], r0)];
      r0 := r1;
      assert X.p[..i] == p0[..i];
      ValPrefix(X.p, i);
      ValPrefix(q, i);
      ShiftUpStep(Val(p0[..i]), Val(q[..i]), q[i], X.p[i], r, r0, t, i);
      i := i + 1;
    }
    assert X.p[..i] == X.p && q[..i] == q;
    if r0 > 0 { MulMono(1, r0, Pow(B, i)); }
  }

  /** Left shift of a word: the bits that fall off the top are lost. */
  function ShlW(x: limb, t: nat): limb {
    (x * Pow(2, t)) % B
  }

  /** x < w * u split at u, then scaled by w. */
  lemma ShiftParts(x: nat, w: nat, u: nat, h: nat, l: nat)
    requires w > 0 && u > 0 && x < w * u && x == h * u + l && l < u
    ensures w * u > 0 && h < w
    ensures x * w == h * (w * u) + l * w
    ensures (x * w) % (w * u) == l * w
    ensures l * w + w <= w * u
  {
    MulCancelLess(h, w, u);
    MulDist(h * u, l, w);
    MulSwap(h, u, w);
    MulAssoc(h, w, u);
    MulMono(l + 1, u, w);
    MulDist(l, 1, w);
    DivUnique(x * w, h, l * w, w * u);
  }

  /** Shifting a word left by t: what stays, and what moves to the next word. */
  lemma OrShifted(x: limb, r0: nat, t: nat)
    requires 0 < t < biL && r0 < Pow(2, t)
    ensures Shr(x, biL - t) < Pow(2, t) <= B
    ensures Or(ShlW(x, t), r0) == ShlW(x, t) + r0 < B
    ensures ShlW(x, t) + B * Shr(x, biL - t) == x * Pow(2, t)
  {
    hide Pow, Shr, Low;
    LimbBase(t);
    var w, u := Pow(2, t), Pow(2, biL - t);
    var l := Low(x, biL - t);
    ShrLow(x, biL - t);
    ShiftParts(x, w, u, Shr(x, biL - t), l);
    ShrUnique(l * w, t, l, 0);
    OrDisjoint(l * w, r0, t);
    PowMono(2, t, biL);
  }

  lemma ShiftUpStep(vn: nat, vo: nat, x: limb, y: limb, r: limb, r1: limb, t: nat, i: nat)
    requires 0 < t < biL && vn + r * Pow(B, i) == vo * Pow(2, t)
    requires y + B * r1 == x * Pow(2, t) + r
    ensures vn + y * Pow(B, i) + r1 * Pow(B, i + 1) == (vo + x * Pow(B, i)) * Pow(2, t)
  {
    hide Pow;
    PowSucc(B, i);
    ShiftUpAlgebra(vn, vo, x, y, r, r1, Pow(B, i), Pow(2, t), B);
  }

  lemma ShiftUpAlgebra(vn: int, vo: int, x: int, y: int, r: int, r1: int, w: int, c: int, b: int)
    requires vn + r * w == vo * c && y + b * r1 == x * c + r
    ensures vn + y * w + r1 * (b * w) == (vo + x * w) * c
  {
    MulDist(vo, x * w, c);
    MulSwap(x, w, c);
    MulAssoc(r1, b, w);
    MulDist(y, r1 * b, w);
    MulDist(x * c, r, w);
  }

  /** mpi_shift_r: |X| divided by 2^count, rounding toward zero. */
  method ShiftR(X: Mpi, count: nat)
    modifies X
    ensures X.Abs() == Shr(old(X.Abs()), count)
    ensures X.s == old(X.s) || (X.Abs() == 0 && X.s == 1)
    ensures |X.p| == |old(X.p)| || (|old(X.p)| == 0 && |X.p| == 1)
  {
    hide Pow, Val, Shr, WholeLimbs, RestBits;
    BaseFacts();
    var v0, v1 := WholeLimbs(count), RestBits(count);
    if v0 > |X.p| || (v0 == |X.p| && v1 > 0) {
      ShiftedOut(X.p, count);
      Lset(X, 0);
      return;
    }
    SplitShiftDown(X.Abs(), count);
    if v0 > 0 {
      ShiftLimbsDown(X, v0);
    }
    if v1 > 0 {
      ShiftBitsDown(X, v1);
    }
  }

  lemma ShiftedOut(p: seq<limb>, count: nat)
    requires WholeLimbs(count) >= |p|
    ensures Shr(Val(p), count) == 0
  {
    hide Pow, Val, Shr, WholeLimbs, RestBits, WholeLimbs, RestBits;
    ValBound(p);
    CountSplit(count);
    BasePower(|p|);
    MulMono(|p|, WholeLimbs(count), biL);
    PowMono(2, biL * |p|, count);
    ShrUnique(Val(p), count, 0, Val(p));
  }

  lemma SplitShiftDown(x: nat, count: nat)
    ensures Shr(Shr(x, biL * (WholeLimbs(count))), RestBits(count)) == Shr(x, count)
    ensures WholeLimbs(count) == 0 ==> Shr(x, biL * WholeLimbs(count)) == x
    ensures RestBits(count) == 0 ==> Shr(x, biL * WholeLimbs(count)) == Shr(x, count)
  {
    hide Pow, Shr;
    CountSplit(count);
    ShrTwice(x, biL * (WholeLimbs(count)), RestBits(count));
    PowOne(2);
    ShrUnique(x, 0, x, 0);
  }

  lemma ShrTwice(x: nat, a: nat, b: nat)
    ensures Shr(Shr(x, a), b) == Shr(x, a + b)
  {
    hide Pow, Shr, Low;
    var y, l := Shr(x, a), Low(x, a);
    var z, m := Shr(y, b), Low(y, b);
    ShrLow(x, a);
    ShrLow(y, b);
    PowAdd(2, a, b);
    var u, w := Pow(2, a), Pow(2, b);
    MulDist(z * w, m, u);
    MulSwap(z, w, u);
    MulAssoc(z, u, w);
    MulMono(m + 1, w, u);
    MulDist(m, 1, u);
    ShrUnique(x, a + b, z, m * u + l);
  }

  /** First half of mpi_shift_r: move limbs down by v0. */
  method ShiftLimbsDown(X: Mpi, v0: nat)
    requires 0 < v0 <= |X.p|
    modifies X`p
    ensures |X.p| == |old(X.p)| && X.Abs() == Shr(old(X.Abs()), biL * v0)
  {
    hide Pow, Val, Shr, Low, Or, BitLen;
    ghost var q := X.p;
    var n := |X.p|;
    var i := 0;
    while i < n - v0
      invariant 0 <= i <= n - v0 && |X.p| == n
      invariant forall k :: 0 <= k < i ==> X.p[k] == q[k + v0]
      invariant forall k :: i <= k < n ==> X.p[k] == q[k]
    {
      X.p := X.p[i := X.p[i + v0]];
      i := i + 1;
    }
    while i < n
      invariant n - v0 <= i <= n == |X.p|
      invariant forall k :: 0 <= k < n - v0 ==> X.p[k] == q[k + v0]
      invariant forall k :: n - v0 <= k < i ==> X.p[k] == 0
    {
      X.p := X.p[i := 0];
      i := i + 1;
    }
    ValZeroTail(X.p, n - v0);
    assert X.p[..n - v0] == q[v0..];
    ValSplit(q, v0);
    ValBound(q[..v0]);
    BasePower(v0);
    ShrUnique(Val(q), biL * v0, Val(q[v0..]), Val(q[..v0]));
  }

  /** Second half of mpi_shift_r, from the top limb down. */
  method ShiftBitsDown(X: Mpi, t: nat)
    requires 0 < t < biL
    modifies X`p
    ensures |X.p| == |old(X.p)| && X.Abs() == Shr(old(X.Abs()), t)
  {
    hide Pow, Val, Shr, Low, Or, BitLen;
    BaseFacts();
    LimbBase(t);
    ghost var q := X.p;
    ghost var rem := 0;
    ValZeros(q[|q|..]);
    var i, r0: limb := |X.p|, 0;
    while i > 0
      invariant 0 <= i <= |X.p| == |q| && rem < Pow(2, t) && r0 == rem * Pow(2, biL - t)
      invariant forall k :: 0 <= k < i ==> X.p[k] == q[k]
      invariant Val(q[i..]) == Val(X.p[i..]) * Pow(2, t) + rem
    {
      ghost var p0 := X.p;
      ghost var x := X.p[i - 1];
      ShiftDownParts(x, t);
      OrShiftedDown(Shr(x, t), rem, t);
      var r1: limb := ShlW(X.p[i - 1], biL - t);
      X.p := X.p[i - 1 := Shr(X.p[i - 1], t)];
      X.p := X.p[i - 1 := Or(X.p[i - 1], r0)];
      r0 := r1;
      ValFirst(q[i - 1..]);
      ValFirst(X.p[i - 1..]);
      assert q[i - 1..][1..] == q[i..] && X.p[i - 1..][1..] == p0[i..];
      ShiftDownStep(Val(p0[i..]), Val(q[i..]), x, rem, t);
      rem := Low(x, t);
      i := i - 1;
    }
    assert q[0..] == q && X.p[0..] == X.p;
    ShrUnique(Val(q), t, Val(X.p), rem);
  }

  lemma RemainderFits(rem: nat, w: nat, u: nat)
    requires rem < w && u > 0
    ensures rem * u + u <= w * u
  {
    MulMono(rem + 1, w, u);
    MulDist(rem, 1, u);
  }

  /** Shifting a word right by t: what stays, and what moves to the word below. */
  lemma ShiftDownParts(x: limb, t: nat)
    requires 0 < t < biL
    ensures Shr(x, t) < Pow(2, biL - t) <= B
    ensures ShlW(x, biL - t) == Low(x, t) * Pow(2, biL - t)
    ensures Low(x, t) < Pow(2, t)
  {
    hide Pow, Shr, Low;
    LimbBase(t);
    var w, u := Pow(2, t), Pow(2, biL - t);
    assert B == u * w;
    ShrLow(x, t);
    ShiftParts(x, u, w, Shr(x, t), Low(x, t));
    PowMono(2, biL - t, biL);
  }

  /** A word y shifted down by t, under the t bits rem that came from the word above. */
  lemma OrShiftedDown(y: nat, rem: nat, t: nat)
    requires 0 < t < biL && rem < Pow(2, t) && y < Pow(2, biL - t)
    ensures Or(y, rem * Pow(2, biL - t)) == y + rem * Pow(2, biL - t) < B
  {
    hide Pow, Shr, Low, Or;
    LimbBase(t);
    var w, u := Pow(2, t), Pow(2, biL - t);
    ShrUnique(rem * u, biL - t, rem, 0);
    OrDisjoint(rem * u, y, biL - t);
    OrCommutes(rem * u, y);
    RemainderFits(rem, w, u);
  }

  lemma {:induction false} OrCommutes(x: nat, y: nat)
    ensures Or(x, y) == Or(y, x)
  {
    hide Pow;
    if x > 0 || y > 0 { OrCommutes(x / 2, y / 2); }
  }

  lemma ShiftDownStep(vn: nat, vo: nat, x: limb, rem: nat, t: nat)
    requires 0 < t < biL && vo == vn * Pow(2, t) + rem
    ensures x + B * vo == (Shr(x, t) + rem * Pow(2, biL - t) + B * vn) * Pow(2, t) + Low(x, t)
  {
    hide Pow, Shr, Low;
    LimbBase(t);
    ShrLow(x, t);
    ShiftDownAlgebra(vn, Shr(x, t), rem, Pow(2, t), Pow(2, biL - t));
  }

  lemma ShiftDownAlgebra(vn: int, h: int, rem: int, w: int, u: int)
    ensures h * w + (w * u) * (vn * w + rem) == (h + rem * u + (w * u) * vn) * w
  {
    var b := w * u;
    MulDist(vn * w, rem, b);
    MulAssoc(b, vn, w);
    MulDist(h + rem * u, b * vn, w);
    MulDist(h, rem * u, w);
    MulAssoc(rem, u, w);
  }

  /** Shifting by one bit less brings in one more bit. */
  lemma ShrHalf(x: nat, b: nat)
    ensures Shr(x, b) == 2 * Shr(x, b + 1) + BitAt(x, b)
  {
    hide Pow, Shr, Low;
    ShrTwice(x, b, 1);
    PowOne(2);
    ShrLow(Shr(x, b), 1);
    var q, r := Shr(Shr(x, b), 1), Low(Shr(x, b), 1);
    assert Shr(x, b) == 2 * q + r && r < 2;
  }

  /** The low bits of a limb are the low bits of the number it starts. */
  lemma LowBits(x: limb, v: nat, b: nat)
    requires b < biL
    ensures 0 <= B * v && BitAt(x + B * v, b) == BitAt(x, b)
  {
    hide Pow, Shr, Low;
    var w, h := Pow(2, b), Pow(2, biL - b - 1);
    MulNonneg(B, v);
    LimbBase(b);
    PowSucc(2, biL - b - 1);
    ShrLow(x, b);
    var q := Shr(x, b);
    MulNonneg(2 * h, v);
    BitAlgebra(q, w, 2 * h, v, Low(x, b));
    ShrUnique(x + B * v, b, q + (2 * h) * v, Low(x, b));
    EvenPart(q, h, v);
  }

  lemma BitAlgebra(q: nat, w: nat, t: nat, v: nat, l: nat)
    ensures q * w + l + (w * t) * v == (q + t * v) * w + l
  {
    MulAssoc(w, t, v);
    MulDist(q, t * v, w);
  }

  /** Bit b of limb l is bit l * biL + b of the number. */
  lemma BitOfLimb(p: seq<limb>, l: nat, b: nat)
    requires l < |p| && b < biL
    ensures BitAt(Val(p), l * biL + b) == BitAt(p[l], b)
  {
    hide Pow, Val, Shr, Low;
    ValSplit(p, l);
    ValBound(p[..l]);
    BasePower(l);
    ShrUnique(Val(p), l * biL, Val(p[l..]), Val(p[..l]));
    ShrTwice(Val(p), l * biL, b);
    ValFirst(p[l..]);
    LowBits(p[l], Val(p[l..][1..]), b);
  }

  /** mpi_get_bit, which reads zeros beyond the stored limbs. */
  method GetBit(X: Mpi, pos: nat) returns (b: nat)
    ensures b == BitAt(X.Abs(), pos)
  {
    hide Pow, Val, Shr;
    if |X.p| * biL <= pos {
      ValBound(X.p);
      BasePower(|X.p|);
      PowMono(2, biL * |X.p|, pos);
      ShrUnique(X.Abs(), pos, 0, X.Abs());
      return 0;
    }
    CountSplit(pos);
    LimbInRange(pos, |X.p|);
    BitOfLimb(X.p, WholeLimbs(pos), RestBits(pos));
    b := BitAt(X.p[WholeLimbs(pos)], RestBits(pos));
  }

  lemma LimbInRange(pos: nat, n: nat)
    requires pos < n * biL
    ensures WholeLimbs(pos) < n
  {
    CountSplit(pos);
    if WholeLimbs(pos) >= n { MulMono(n, WholeLimbs(pos), biL); }
  }
}
