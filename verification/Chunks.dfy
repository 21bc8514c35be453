/** The 32-bit view of a number that the fast reductions of ecp_curves.c work on: LOAD32 and
    STORE32 for each of the limb widths. */
module Chunks {
  import opened Arith
  import opened Bits
  import opened Limbs
  import opened Bignum
  import opened BignumShift

  const R32: nat := 0x1_0000_0000

  type chunk = x: nat | x < R32

  /** Chunk j of v. */
  ghost function ChunkAt(v: nat, j: nat): nat {
    Low(Shr(v, 32 * j), 32)
  }

  ghost function Placed(x: nat, i: nat): (r: nat)
    ensures r == Pow(2, 32 * i) * x
  {
    MulNonneg(Pow(2, 32 * i), x);
    Pow(2, 32 * i) * x
  }

  /** The number that a sequence of chunks stands for, least significant first. */
  ghost function Val32(w: seq<chunk>): nat {
    if w == [] then 0 else Val32(w[..|w| - 1]) + Placed(w[|w| - 1], |w| - 1)
  }

  lemma R32Power()
    ensures Pow(2, 32) == R32
  {
    PowAdd(2, 16, 16);
    Pow16();
  }

  lemma Pow16()
    ensures Pow(2, 16) == 0x1_0000
  {
    PowAdd(2, 8, 8);
    PowersOfTwo();
  }

  /** N's chunks, as many as its limbs hold (MAX32): the whole of its value. */
  ghost predicate IsView(p: seq<limb>, w: seq<chunk>) {
    Val(p) == Val32(w) && 32 * |w| <= |p| * biL < 32 * (|w| + 1)
  }

  lemma {:induction false} Val32Bound(w: seq<chunk>)
    ensures Val32(w) < Pow(2, 32 * |w|)
  {
    hide Pow;
    R32Power();
    PowOne(2);
    if w != [] {
      var n := |w| - 1;
      Val32Bound(w[..n]);
      PowAdd(2, 32, 32 * n);
      var x: int := w[n];
      MulMono(x + 1, R32, Pow(2, 32 * n));
      MulDist(x, 1, Pow(2, 32 * n));
    }
  }

  lemma {:induction false} Val32Update(w: seq<chunk>, i: nat, x: chunk)
    requires i < |w|
    ensures Val32(w[i := x]) == Val32(w) + (x - w[i]) * Pow(2, 32 * i)
  {
    hide Pow;
    var n := |w| - 1;
    if i == n {
      assert w[i := x][..n] == w[..n];
      MulDist(x, w[n], Pow(2, 32 * n));
    } else {
      Val32Update(w[..n], i, x);
      assert w[i := x][..n] == w[..n][i := x];
    }
  }

  lemma {:induction false} Val32Split(w: seq<chunk>, i: nat)
    requires i <= |w|
    ensures Val32(w) == Val32(w[..i]) + Pow(2, 32 * i) * Val32(w[i..])
    decreases |w| - i
  {
    hide *;
    if i == |w| {
      assert w[..i] == w && w[i..] == [];
      Val32None();
    } else {
      var n := |w| - 1;
      var u := w[..n];
      Val32Split(u, i);
      assert u[..i] == w[..i] && u[i..] == w[i..][..n - i];
      Val32Last(w);
      Val32Last(w[i..]);
      PowAdd(2, 32 * i, 32 * (n - i));
      SplitAlgebra(Pow(2, 32 * i), Pow(2, 32 * (n - i)), w[n], Val32(u[i..]));
    }
  }

  lemma SplitAlgebra(a: int, b: int, x: int, v: int)
    ensures a * (v + b * x) == a * v + (a * b) * x
  {
    MulAssoc(a, b, x);
    assert a * (v + b * x) == a * v + a * (b * x);
  }

  lemma Val32None()
    ensures Val32([]) == 0
  {
  }

  lemma Val32Last(w: seq<chunk>)
    requires w != []
    ensures Val32(w) == Val32(w[..|w| - 1]) + Pow(2, 32 * (|w| - 1)) * w[|w| - 1]
  {
    hide Pow;
  }

  /** A chunk of the view is that chunk of the value. */
  lemma ViewChunk(w: seq<chunk>, j: nat)
    requires j < |w|
    ensures ChunkAt(Val32(w), j) == w[j]
  {
    hide Pow, Shr, Low, Val32;
    Val32Split(w, j);
    Val32Bound(w[..j]);
    ShrUnique(Val32(w), 32 * j, Val32(w[j..]), Val32(w[..j]));
    Val32Split(w[j..], 1);
    assert w[j..][..1] == [w[j]];
    SingleChunk(w[j]);
    R32Power();
    ShrUnique(Val32(w[j..]), 32, Val32(w[j..][1..]), w[j]);
  }

  lemma SingleChunk(x: chunk)
    ensures Val32([x]) == x
  {
    hide Pow;
    PowOne(2);
    assert [x][..0] == [];
    assert Val32([x]) == Val32([]) + Pow(2, 0) * x;
  }

  /** Every number below 2^(32 m) has a view of m chunks. */
  ghost function View(v: nat, m: nat): (w: seq<chunk>)
    ensures |w| == m
  {
    if m == 0 then []
    else
      ChunkBound(v, m - 1);
      View(v, m - 1) + [ChunkAt(v, m - 1)]
  }

  lemma ChunkBound(v: nat, j: nat)
    ensures ChunkAt(v, j) < R32
  {
    hide Pow, Shr, Low;
    R32Power();
    ShrLow(Shr(v, 32 * j), 32);
  }

  lemma {:induction false} ViewValue(v: nat, m: nat)
    ensures Val32(View(v, m)) == Low(v, 32 * m)
  {
    hide Pow, Shr, Low;
    if m == 0 {
      PowOne(2);
      ShrUnique(v, 0, v, 0);
    } else {
      ViewValue(v, m - 1);
      LowSplit(v, 32 * (m - 1), 32);
      assert View(v, m)[..m - 1] == View(v, m - 1);
    }
  }

  // ---- LOAD32 and STORE32 -----------------------------------------------------------------

  /** How many limbs make a chunk, when limbs are not wider. */
  function LimbsPerChunk(): (k: nat)
    requires biL <= 32
    ensures k > 0 && k * biL == 32
  {
    if biL == 8 then 4 else if biL == 16 then 2 else 1
  }

  lemma ChunkPower(j: nat)
    requires biL <= 32
    ensures Pow(B, LimbsPerChunk() * j) == Pow(2, 32 * j)
  {
    hide Pow;
    BasePower(LimbsPerChunk() * j);
    MulAssoc(biL, LimbsPerChunk(), j);
  }

  /** A chunk is a stretch of limbs. */
  lemma ChunkOfLimbs(p: seq<limb>, j: nat)
    requires biL <= 32 && LimbsPerChunk() * (j + 1) <= |p|
    ensures var k := LimbsPerChunk(); ChunkAt(Val(p), j) == Val(p[k * j..k * j + k])
  {
    hide Pow, Val, Shr, Low;
    var k := LimbsPerChunk();
    assert k * (j + 1) == k * j + k;
    ValSplit(p, k * j);
    ValBound(p[..k * j]);
    ChunkPower(j);
    ShrUnique(Val(p), 32 * j, Val(p[k * j..]), Val(p[..k * j]));
    var q := p[k * j..];
    ValSplit(q, k);
    assert q[..k] == p[k * j..k * j + k];
    ValBound(q[..k]);
    ChunkPower(1);
    ShrUnique(Val(q), 32, Val(q[k..]), Val(q[..k]));
  }

  /** LOAD32 for limbs of 8, 16 or 32 bits: the or of the shifted limbs. */
  method LoadNarrow(N: Mpi, j: nat) returns (cur: chunk)
    requires biL <= 32 && LimbsPerChunk() * (j + 1) <= |N.p|
    ensures cur == ChunkAt(N.Abs(), j)
  {
    hide *;
    var k := LimbsPerChunk();
    assert k * (j + 1) == k * j + k;
    ghost var s := N.p[k * j..k * j + k];
    var x: nat, t := 0, 0;
    NoLimbs(s);
    while t < k
      invariant t <= k && x == Val(s[..t])
    {
      OrLimb(s, t);
      assert s[t] == N.p[k * j + t];
      x := Or(x, N.p[k * j + t] * Pow(2, biL * t));
      t := t + 1;
    }
    assert s[..k] == s;
    ChunkOfLimbs(N.p, j);
    ChunkBound(N.Abs(), j);
    AbsIsVal(N);
    cur := x;
  }

  lemma AbsIsVal(N: Mpi)
    ensures N.Abs() == Val(N.p)
  {
  }

  lemma NoLimbs(s: seq<limb>)
    ensures Val(s[..0]) == 0
  {
  }

  lemma OrLimb(s: seq<limb>, t: nat)
    requires t < |s|
    ensures Or(Val(s[..t]), s[t] * Pow(2, biL * t)) == Val(s[..t + 1])
  {
    hide Pow, Val, Or, Low;
    ValPrefix(s, t);
    ValBound(s[..t]);
    BasePower(t);
    OrCommutes(Val(s[..t]), s[t] * Pow(2, biL * t));
    MulNonneg(s[t], Pow(2, biL * t));
    LowOfMultiple(s[t], biL * t);
    OrDisjoint(s[t] * Pow(2, biL * t), Val(s[..t]), biL * t);
  }

  lemma LowOfMultiple(x: nat, n: nat)
    ensures x * Pow(2, n) >= 0 && Low(x * Pow(2, n), n) == 0
  {
    hide Pow;
    MulNonneg(x, Pow(2, n));
    ShrUnique(x * Pow(2, n), n, x, 0);
  }

  /** A chunk of a 64-bit limb. */
  lemma ChunkOfHalf(p: seq<limb>, j: nat)
    requires biL == 64 && j / 2 < |p|
    ensures ChunkAt(Val(p), j) == if j % 2 == 1 then Shr(p[j / 2], 32) else Low(p[j / 2], 32)
  {
    hide Pow, Val, Shr, Low;
    var l := j / 2;
    var x, rest := p[l], Val(p[l..][1..]);
    ValSplit(p, l);
    ValBound(p[..l]);
    BasePower(l);
    ShrUnique(Val(p), 64 * l, Val(p[l..]), Val(p[..l]));
    ValFirst(p[l..]);
    PowAdd(2, 32, 32);
    ShrLow(x, 32);
    var w := Pow(2, 32);
    HalfBound(x, w);
    MulAssoc(rest, w, w);
    MulDist(rest * w, Shr(x, 32), w);
    assert B == w * w;
    assert B * rest == rest * (w * w);
    ShrUnique(Val(p[l..]), 32, rest * w + Shr(x, 32), Low(x, 32));
    if j % 2 == 1 {
      ShrTwice(Val(p), 64 * l, 32);
      ShrUnique(rest * w + Shr(x, 32), 32, rest, Shr(x, 32));
    }
  }

  lemma HalfBound(x: nat, w: nat)
    requires w == Pow(2, 32) && x < w * w
    ensures Shr(x, 32) < w
  {
    hide Pow;
    ShrLow(x, 32);
    if Shr(x, 32) >= w { MulMono(w, Shr(x, 32), w); }
  }

  /** LOAD32: A( j ). */
  method Load32(N: Mpi, j: nat) returns (cur: chunk)
    requires 32 * (j + 1) <= |N.p| * biL
    ensures cur == ChunkAt(N.Abs(), j)
  {
    hide *;
    if biL == 64 {
      WideIndex(j, |N.p|);
      ChunkOfHalf(N.p, j);
      ChunkBound(N.Abs(), j);
      AbsIsVal(N);
      cur := if j % 2 == 1 then Shr(N.p[j / 2], 32) else Low(N.p[j / 2], 32);
    } else {
      NarrowIndex(j, |N.p|);
      cur := LoadNarrow(N, j);
    }
  }

  lemma WideIndex(j: nat, n: nat)
    requires biL == 64 && 32 * (j + 1) <= n * biL
    ensures j / 2 < n
  {
  }

  lemma NarrowIndex(j: nat, n: nat)
    requires biL <= 32 && 32 * (j + 1) <= n * biL
    ensures LimbsPerChunk() * (j + 1) <= n
  {
    if biL == 8 {} else if biL == 16 {}
  }

  /** STORE32 for limbs of 8, 16 or 32 bits. */
  method StoreNarrow(N: Mpi, i: nat, cur: chunk)
    requires biL <= 32 && LimbsPerChunk() * (i + 1) <= |N.p|
    modifies N`p
    ensures |N.p| == |old(N.p)| && N.Abs() == old(N.Abs()) + (cur - ChunkAt(old(N.Abs()), i)) * Pow(2, 32 * i)
  {
    hide *;
    var k := LimbsPerChunk();
    var b := k * i;
    assert k * (i + 1) == b + k;
    ghost var p := N.p;
    AbsIsVal(N);
    NoLimbs(N.p[b..b + k]);
    assert N.p[b..b + 0] == N.p[b..b + k][..0];
    var t := 0;
    LowNothing(cur);
    while t < k
      invariant t <= k && |N.p| == |p| && N.p[..b] == p[..b] && N.p[b + k..] == p[b + k..]
      invariant Val(N.p[b..b + t]) == Low(cur, biL * t)
    {
      ghost var q := N.p;
      var x: limb := LimbOf(cur, t);
      N.p := N.p[b + t := x];
      assert N.p[b..b + t + 1][..t] == q[b..b + t];
      StoredLimb(N.p[b..b + t + 1], cur, t);
      t := t + 1;
    }
    LowAll(cur, k);
    ReplaceChunk(p, N.p, i);
    ChunkOfLimbs(p, i);
    AbsIsVal(N);
  }

  /** (t_uint)( cur >> t * biL ) */
  function LimbOf(cur: nat, t: nat): limb {
    Shr(cur, biL * t) % B
  }

  lemma LowNothing(x: nat)
    ensures Low(x, biL * 0) == 0
  {
    hide Pow;
    PowOne(2);
    assert biL * 0 == 0;
    ShrUnique(x, 0, x, 0);
  }

  lemma LowAll(x: chunk, k: nat)
    requires k * biL == 32
    ensures Low(x, biL * k) == x
  {
    hide Pow;
    R32Power();
    assert biL * k == 32;
    ShrUnique(x, 32, 0, x);
  }

  lemma StoredLimb(s: seq<limb>, cur: nat, t: nat)
    requires |s| == t + 1 && Val(s[..t]) == Low(cur, biL * t) && s[t] == LimbOf(cur, t)
    ensures Val(s) == Low(cur, biL * (t + 1))
  {
    hide Pow, Val, Shr, Low;
    assert s[..t + 1] == s;
    ValPrefix(s, t);
    BasePower(t);
    LowSplit(cur, biL * t, biL);
    LowIsMod(Shr(cur, biL * t));
  }

  lemma LowIsMod(x: nat)
    ensures Low(x, biL) == x % B
  {
  }

  /** Replacing the limbs of chunk i. */
  lemma ReplaceChunk(p: seq<limb>, q: seq<limb>, i: nat)
    requires biL <= 32 && LimbsPerChunk() * (i + 1) <= |p| == |q|
    requires var k := LimbsPerChunk(); var b := k * i; q[..b] == p[..b] && q[b + k..] == p[b + k..]
    ensures var k := LimbsPerChunk(); var b := k * i;
      Val(q) == Val(p) + (Val(q[b..b + k]) - Val(p[b..b + k])) * Pow(2, 32 * i)
  {
    hide Pow, Val;
    var k := LimbsPerChunk();
    var b := k * i;
    assert k * (i + 1) == b + k;
    ValSplit(p, b);
    ValSplit(q, b);
    ValSplit(p[b..], k);
    ValSplit(q[b..], k);
    assert p[b..][..k] == p[b..b + k] && q[b..][..k] == q[b..b + k];
    assert p[b..][k..] == p[b + k..] && q[b..][k..] == q[b + k..];
    ChunkPower(i);
    MulDist(Val(q[b..]), Val(p[b..]), Pow(2, 32 * i));
  }

  /** The new value of a 64-bit limb whose half is replaced: the & and the | of STORE32. */
  function WithHalf(x: nat, high: bool, cur: nat): nat {
    if high then Or(Low(x, 32), cur * Pow(2, 32)) else Or(Shr(x, 32) * Pow(2, 32), cur)
  }

  lemma WithHalfValue(x: limb, high: bool, cur: chunk)
    requires biL == 64
    ensures WithHalf(x, high, cur) < B
    ensures WithHalf(x, high, cur) == x + (if high then (cur - Shr(x, 32)) * Pow(2, 32) else cur - Low(x, 32))
  {
    hide Pow, Shr, Low, Or;
    R32Power();
    PowAdd(2, 32, 32);
    var w := Pow(2, 32);
    ShrLow(x, 32);
    HalfBound(x, w);
    LowOfMultiple(cur, 32);
    LowOfMultiple(Shr(x, 32), 32);
    OrCommutes(Low(x, 32), cur * w);
    OrDisjoint(cur * w, Low(x, 32), 32);
    OrDisjoint(Shr(x, 32) * w, cur, 32);
    MulDist(cur, Shr(x, 32), w);
    MulMono(cur + 1, w, w);
    MulDist(cur, 1, w);
    MulMono(Shr(x, 32) + 1, w, w);
    MulDist(Shr(x, 32), 1, w);
  }

  /** STORE32 for 64-bit limbs. */
  method StoreWide(N: Mpi, i: nat, cur: chunk)
    requires biL == 64 && i / 2 < |N.p|
    modifies N`p
    ensures |N.p| == |old(N.p)| && N.Abs() == old(N.Abs()) + (cur - ChunkAt(old(N.Abs()), i)) * Pow(2, 32 * i)
  {
    hide *;
    ghost var p := N.p;
    AbsIsVal(N);
    WithHalfValue(N.p[i / 2], i % 2 == 1, cur);
    N.p := N.p[i / 2 := WithHalf(N.p[i / 2], i % 2 == 1, cur)];
    ReplaceHalf(p, i, cur);
    AbsIsVal(N);
  }

  lemma ReplaceHalf(p: seq<limb>, i: nat, cur: chunk)
    requires biL == 64 && i / 2 < |p| && WithHalf(p[i / 2], i % 2 == 1, cur) < B
    ensures Val(p[i / 2 := WithHalf(p[i / 2], i % 2 == 1, cur)]) == Val(p) + (cur - ChunkAt(Val(p), i)) * Pow(2, 32 * i)
  {
    hide Pow, Val, Shr, Low, Or, WithHalf, ChunkAt;
    var l, high := i / 2, i % 2 == 1;
    var x := p[l];
    WithHalfValue(x, high, cur);
    ChunkOfHalf(p, i);
    ValUpdate(p, l, WithHalf(x, high, cur));
    BasePower(l);
    if high {
      PowAdd(2, 64 * l, 32);
      MulAssoc(cur - Shr(x, 32), Pow(2, 32), Pow(2, 64 * l));
    }
  }

  /** STORE32. */
  method Store32(N: Mpi, i: nat, cur: chunk)
    requires 32 * (i + 1) <= |N.p| * biL
    modifies N`p
    ensures |N.p| == |old(N.p)| && N.Abs() == old(N.Abs()) + (cur - ChunkAt(old(N.Abs()), i)) * Pow(2, 32 * i)
  {
    hide *;
    if biL == 64 {
      WideIndex(i, |N.p|);
      StoreWide(N, i, cur);
    } else {
      NarrowIndex(i, |N.p|);
      StoreNarrow(N, i, cur);
    }
  }
}
