/** Comb multiplication of ecp.c: the precomputed table, the choice of a table entry by a
    signed digit, the main loop, and the whole of ecp_mul_comb, over a commutative group that
    stands for the curve.  ecp_double_jac is its doubling.  ecp_add_mixed is its addition, but
    when the first operand is zero it copies the second, and table entries come with Z unset,
    which the next test reads as zero: see MixedAdd. */
module CombMul {
  import opened Arith
  import opened Bits
  import opened Limbs
  import opened Bignum
  import opened BignumAdd
  import opened BignumShift
  import opened CombRecoding
  import opened Groups

  /** The bits of i spread out, d places apart. */
  ghost function Spread(i: nat, d: nat): nat {
    if i == 0 then 0 else i % 2 + Pow(2, d) * Spread(i / 2, d)
  }

  /** What entry i of the table multiplies by: 1, and the bits of i at d, 2d, 3d, ... */
  ghost function EntryScalar(i: nat, d: nat): nat {
    1 + Pow(2, d) * Spread(i, d)
  }

  ghost predicate IsTable<T(!new)>(g: Group<T>, t: seq<T>, p: T, w: nat, d: nat) {
    w >= 1 && |t| == Pow(2, w - 1) && forall i :: 0 <= i < |t| ==> t[i] == Times(g, EntryScalar(i, d), p)
  }

  lemma SpreadStep(b: nat, i: nat, d: nat)
    requires b <= 1
    ensures Spread(b + 2 * i, d) == b + Pow(2, d) * Spread(i, d)
  {
    hide Pow;
    if b + 2 * i == 0 {
      assert Pow(2, d) * Spread(i, d) == 0;
    } else {
      assert (b + 2 * i) / 2 == i && (b + 2 * i) % 2 == b;
    }
  }

  /** The top bit of an index. */
  lemma {:induction false} SpreadTop(j: nat, l: nat, d: nat)
    requires j < Pow(2, l)
    ensures Spread(Pow(2, l) + j, d) == Spread(j, d) + Pow(2, d * l)
  {
    hide Spread, Pow;
    if l == 0 {
      PowOne(2);
      assert d * 0 == 0;
      SpreadStep(1, 0, d);
      SpreadZero(d);
      assert Pow(2, d) * 0 == 0;
    } else {
      PowSucc(2, l - 1);
      SpreadTop(j / 2, l - 1, d);
      SpreadStep(j % 2, j / 2, d);
      SpreadStep(j % 2, Pow(2, l - 1) + j / 2, d);
      PowAdd(2, d, d * (l - 1));
      assert d + d * (l - 1) == d * l;
      assert Pow(2, d) * (Spread(j / 2, d) + Pow(2, d * (l - 1)))
          == Pow(2, d) * Spread(j / 2, d) + Pow(2, d) * Pow(2, d * (l - 1));
    }
  }

  lemma SpreadZero(d: nat)
    ensures Spread(0, d) == 0
  {
  }

  lemma EntryTop(j: nat, l: nat, d: nat)
    requires j < Pow(2, l)
    ensures EntryScalar(Pow(2, l) + j, d) == EntryScalar(j, d) + Pow(2, d * (l + 1))
  {
    hide Spread, Pow;
    SpreadTop(j, l, d);
    PowAdd(2, d, d * l);
    assert d + d * l == d * (l + 1);
    assert Pow(2, d) * (Spread(j, d) + Pow(2, d * l)) == Pow(2, d) * Spread(j, d) + Pow(2, d) * Pow(2, d * l);
  }

  // ---- Points as the source reads them ----------------------------------------------------

  /** ecp_add_mixed for a table entry q, whose Z is unset: zero plus q reads as zero. */
  function MixedAdd<T(!new, ==)>(g: Group<T>, p: T, q: T): T {
    if p == g.zero then g.zero else g.add(p, q)
  }

  /** ecp_normalize_jac_many on some entries: the points stay what they are; two or more of them
      are refused when one is zero, while a single one goes to ecp_normalize_jac. */
  method NormalizeMany<T(!new, ==)>(g: Group<T>, t: array<T>, TT: seq<nat>) returns (ok: bool)
    requires forall k :: 0 <= k < |TT| ==> TT[k] < t.Length
    ensures ok <==> |TT| < 2 || forall k :: 0 <= k < |TT| ==> t[TT[k]] != g.zero
  {
    if |TT| < 2 { return true; }
    var i := 0;
    while i < |TT|
      invariant i <= |TT| && forall k :: 0 <= k < i ==> t[TT[k]] != g.zero
    {
      if t[TT[i]] == g.zero { return false; }
      i := i + 1;
    }
    ok := true;
  }

  /** No entry of the table is zero, or it is too short to be checked. */
  ghost predicate TableWorks(n: int, w: nat, d: nat)
    requires n > 0 && w >= 1
  {
    w == 2 || forall i :: 0 <= i < Pow(2, w - 1) ==> EntryScalar(i, d) % n != 0
  }

  lemma {:induction false} PowerNotMultiple(e: nat, n: int)
    requires n > 1 && n % 2 == 1
    ensures Pow(2, e) % n != 0
  {
    hide Pow;
    PowOne(2);
    if e == 0 {
      DivUnique(1, 0, 1, n);
    } else {
      PowerNotMultiple(e - 1, n);
      PowSucc(2, e - 1);
      if Pow(2, e) % n == 0 {
        DivMod(Pow(2, e), n);
        var k := Pow(2, e) / n;
        EvenCofactor(k, n, Pow(2, e - 1));
        DivUnique(Pow(2, e - 1), k / 2, 0, n);
      }
    }
  }

  lemma EvenCofactor(k: int, n: int, x: int)
    requires n % 2 == 1 && k * n == 2 * x
    ensures (k / 2) * n == x
  {
    var h, m := k / 2, n / 2;
    assert k == 2 * h + k % 2 && n == 2 * m + 1;
    assert k * n == 2 * (h * n) + (k % 2) * n by { MulDist(2 * h, k % 2, n); MulAssoc(2, h, n); }
    if k % 2 == 1 { assert false; }
  }

  // ---- ecp_precompute_comb ----------------------------------------------------------------

  /** cur doubled d times, in place. */
  method DoubleTimes<T(!new)>(g: Group<T>, t: array<T>, i: nat, d: nat, ghost k: nat, ghost p: T)
    requires Abelian(g) && i < t.Length && t[i] == Times(g, k, p)
    modifies t
    ensures t[i] == Times(g, k * Pow(2, d), p)
    ensures forall j :: 0 <= j < t.Length && j != i ==> t[j] == old(t[j])
  {
    hide *;
    var j := 0;
    PowOne(2);
    while j < d
      invariant j <= d && t[i] == Times(g, k * Pow(2, j), p)
      invariant forall l :: 0 <= l < t.Length && l != i ==> t[l] == old(t[l])
    {
      TimesAdd(g, k * Pow(2, j), k * Pow(2, j), p);
      PowSucc(2, j);
      assert k * Pow(2, j) + k * Pow(2, j) == k * (2 * Pow(2, j));
      t[i] := g.add(t[i], t[i]);
      j := j + 1;
    }
  }

  /** Entries 0, 1, 2, 4, ... below 2^l hold 1, 2^d, 2^(2d), 2^(3d), ... times p. */
  ghost predicate Seeded<T(!new)>(g: Group<T>, t: seq<T>, l: nat, p: T, d: nat) {
    |t| > 0 && t[0] == p && SeededFrom(g, t, 0, l, p, d)
  }

  ghost predicate SeededFrom<T(!new)>(g: Group<T>, t: seq<T>, a: nat, l: nat, p: T, d: nat) {
    forall s :: a <= s < l ==> Pow(2, s) < |t| && t[Pow(2, s)] == Times(g, Pow(2, d * (s + 1)), p)
  }

  lemma DistinctPowers(s: nat, l: nat)
    requires s != l
    ensures Pow(2, s) != Pow(2, l)
  {
    if s < l { PowStrict(2, s, l); } else { PowStrict(2, l, s); }
  }

  lemma PowerBelow(l: nat, n: nat)
    ensures l < n <==> Pow(2, l) < Pow(2, n)
  {
    if l < n { PowStrict(2, l, n); } else { PowMono(2, n, l); }
  }

  /** The first loop: entry 2^l is the d-fold double of the one before.  TT collects them. */
  method SeedTable<T(!new)>(g: Group<T>, t: array<T>, p: T, w: nat, d: nat) returns (TT: seq<nat>)
    requires Abelian(g) && 1 <= w && t.Length == Pow(2, w - 1)
    modifies t
    ensures Seeded(g, t[..], w - 1, p, d)
    ensures |TT| == w - 1 && forall s :: 0 <= s < |TT| ==> TT[s] == Pow(2, s) < t.Length
  {
    hide *;
    PowOne(2);
    PowMono(2, 0, w - 1);
    t[0] := p;
    SeedStart(g, t[..], p, d);
    TT := [];
    var i := 1;
    while i < t.Length
      invariant i == Pow(2, |TT|) && |TT| <= w - 1 && i / 2 < t.Length
      invariant Seeded(g, t[..], |TT|, p, d) && t[i / 2] == Times(g, Pow(2, d * |TT|), p)
      invariant forall s :: 0 <= s < |TT| ==> TT[s] == Pow(2, s) < t.Length
      decreases w - 1 - |TT|
    {
      ghost var l := |TT|;
      PowerBelow(l, w - 1);
      PowSucc(2, l);
      ghost var u := t[..];
      t[i] := t[i / 2];
      DoubleTimes(g, t, i, d, Pow(2, d * l), p);
      SeedStep(g, u, t[..], i, l, p, d);
      TT := TT + [i];
      i := 2 * i;
    }
    PowerBelow(|TT|, w - 1);
  }

  lemma SeedStart<T(!new)>(g: Group<T>, u: seq<T>, p: T, d: nat)
    requires |u| > 0 && u[0] == p && Abelian(g)
    ensures Seeded(g, u, 0, p, d) && p == Times(g, Pow(2, d * 0), p)
  {
    hide Abelian, Times;
    PowOne(2);
    TimesSmall(g, p);
    assert d * 0 == 0;
  }

  lemma SeedStep<T(!new)>(g: Group<T>, u: seq<T>, v: seq<T>, i: nat, l: nat, p: T, d: nat)
    requires Seeded(g, u, l, p, d) && |v| == |u| && i == Pow(2, l) < |u|
    requires v[i] == Times(g, Pow(2, d * l) * Pow(2, d), p)
    requires forall j :: 0 <= j < |v| && j != i ==> v[j] == u[j]
    ensures Seeded(g, v, l + 1, p, d) && v[i] == Times(g, Pow(2, d * (l + 1)), p)
  {
    hide Pow, Times;
    PowAdd(2, d * l, d);
    assert d * l + d == d * (l + 1);
    PowMono(2, 0, l);
    PowOne(2);
    forall s | 0 <= s < l ensures Pow(2, s) != i { DistinctPowers(s, l); }
  }

  /** Entries below n are final. */
  ghost predicate Filled<T(!new)>(g: Group<T>, t: seq<T>, n: nat, p: T, d: nat) {
    n <= |t| && forall j :: 0 <= j < n ==> t[j] == Times(g, EntryScalar(j, d), p)
  }

  /** An entry below i that is zero, as it should be. */
  ghost predicate Broken<T(!new)>(g: Group<T>, t: seq<T>, i: nat, d: nat, n: int)
    requires n > 0
  {
    exists z :: 1 <= z < i && z < |t| && t[z] == g.zero && EntryScalar(z, d) % n == 0
  }

  /** TT lists the entries from 1 to i - 1. */
  ghost predicate Lists(TT: seq<nat>, i: nat) {
    && |TT| == i - 1
    && (forall k :: 0 <= k < |TT| ==> 1 <= TT[k] < i)
    && forall x :: 1 <= x < i ==> x in TT
  }

  /** The inner loop of the second pass: entries 2^l .. 2^(l+1) - 1 from those below 2^l.  Entry
      2^l itself is an operand, so it is overwritten last.  All entries are right, until one of
      them is zero. */
  method FillOctave<T(!new, ==)>(g: Group<T>, t: array<T>, i: nat, ghost l: nat, p: T, d: nat, ghost n: int,
      TT0: seq<nat>)
    returns (TT: seq<nat>)
    requires Abelian(g) && n > 1 && HasOrder(g, n, p) && i == Pow(2, l) && 2 * i <= t.Length
    requires Filled(g, t[..], i, p, d) || Broken(g, t[..], i, d, n)
    requires t[i] == Times(g, Pow(2, d * (l + 1)), p) && Lists(TT0, i)
    modifies t
    ensures Filled(g, t[..], 2 * i, p, d) || Broken(g, t[..], i, d, n)
    ensures forall k :: 2 * i <= k < t.Length ==> t[k] == old(t[k])
    ensures Lists(TT, 2 * i)
  {
    hide *;
    ghost var fine := Filled(g, t[..], i, p, d);
    if fine { FilledElim(g, t[..], i, p, d); }
    var j := i;
    TT := TT0;
    ListsStart(TT0, i);
    while j > 0
      invariant 0 <= j <= i
      invariant j > 0 ==> t[i] == Times(g, Pow(2, d * (l + 1)), p)
      invariant fine ==> forall k :: 0 <= k < i ==> t[k] == Times(g, EntryScalar(k, d), p)
      invariant fine ==> forall k :: i + j <= k < 2 * i ==> t[k] == Times(g, EntryScalar(k, d), p)
      invariant !fine ==> Broken(g, t[..], i, d, n)
      invariant forall k :: 2 * i <= k < t.Length ==> t[k] == old(t[k])
      invariant PartLists(TT, i, j)
    {
      j := j - 1;
      EntryTop(j, l, d);
      TimesAdd(g, EntryScalar(j, d), Pow(2, d * (l + 1)), p);
      if fine && t[j] == g.zero {
        ZeroMultiple(g, n, EntryScalar(j, d), p);
        BrokenAt(g, t[..], j, i, d, n);
        fine := false;
      }
      MixedAddIs(g, t[j], t[i]);
      ghost var u := t[..];
      t[i + j] := MixedAdd(g, t[j], t[i]);
      if !fine { StillBroken(g, u, t[..], i, d, n); }
      PartListsStep(TT, i, j);
      TT := TT + [i + j];
    }
    if fine { FilledIntro(g, t[..], 2 * i, p, d); }
    ListsEnd(TT, i);
  }

  /** TT lists the entries below i, and those from i + j on. */
  ghost predicate PartLists(TT: seq<nat>, i: nat, j: nat) {
    && |TT| == 2 * i - 1 - j
    && (forall k :: 0 <= k < |TT| ==> 1 <= TT[k] < 2 * i)
    && forall x :: 1 <= x < i || i + j <= x < 2 * i ==> x in TT
  }

  lemma ListsStart(TT: seq<nat>, i: nat)
    requires Lists(TT, i)
    ensures PartLists(TT, i, i)
  {
  }

  lemma PartListsStep(TT: seq<nat>, i: nat, j: nat)
    requires PartLists(TT, i, j + 1) && j < i
    ensures PartLists(TT + [i + j], i, j)
  {
  }

  lemma ListsEnd(TT: seq<nat>, i: nat)
    requires PartLists(TT, i, 0)
    ensures Lists(TT, 2 * i)
  {
  }

  lemma MixedAddIs<T(!new)>(g: Group<T>, p: T, q: T)
    ensures p != g.zero ==> MixedAdd(g, p, q) == g.add(p, q)
    ensures p == g.zero ==> MixedAdd(g, p, q) == g.zero
  {
  }

  lemma BrokenAt<T(!new)>(g: Group<T>, t: seq<T>, z: nat, i: nat, d: nat, n: int)
    requires n > 1 && z < i <= |t| && t[z] == g.zero && EntryScalar(z, d) % n == 0
    ensures Broken(g, t, i, d, n)
  {
    hide Pow;
    if z == 0 {
      SpreadZero(d);
      assert Pow(2, d) * 0 == 0;
      DivUnique(1, 0, 1, n);
    }
  }

  lemma StillBroken<T(!new)>(g: Group<T>, u: seq<T>, t: seq<T>, i: nat, d: nat, n: int)
    requires n > 0 && Broken(g, u, i, d, n) && |t| == |u| && forall k :: 0 <= k < i && k < |t| ==> t[k] == u[k]
    ensures Broken(g, t, i, d, n)
  {
  }

  lemma BrokenMore<T(!new)>(g: Group<T>, t: seq<T>, i: nat, d: nat, n: int)
    requires n > 0 && Broken(g, t, i / 2, d, n)
    ensures Broken(g, t, i, d, n)
  {
  }

  lemma FilledElim<T(!new)>(g: Group<T>, t: seq<T>, n: nat, p: T, d: nat)
    requires Filled(g, t, n, p, d)
    ensures n <= |t| && forall j :: 0 <= j < n ==> t[j] == Times(g, EntryScalar(j, d), p)
  {
  }

  lemma FilledIntro<T(!new)>(g: Group<T>, t: seq<T>, n: nat, p: T, d: nat)
    requires n <= |t| && forall j :: 0 <= j < n ==> t[j] == Times(g, EntryScalar(j, d), p)
    ensures Filled(g, t, n, p, d)
  {
  }

  lemma FirstEntry<T(!new)>(g: Group<T>, t: seq<T>, p: T, d: nat)
    requires Abelian(g) && |t| > 0 && t[0] == p
    ensures Filled(g, t, 1, p, d)
  {
    hide Abelian, Times, Pow;
    SpreadZero(d);
    assert Pow(2, d) * 0 == 0;
    TimesSmall(g, p);
  }

  /** ecp_precompute_comb, for a point of odd order n: refused exactly when an entry is zero, unless
      the table has two entries. */
  method PrecomputeComb<T(!new, ==)>(g: Group<T>, t: array<T>, p: T, w: nat, d: nat, ghost n: int) returns (ok: bool)
    requires Abelian(g) && 2 <= w && t.Length == Pow(2, w - 1)
    requires n > 1 && n % 2 == 1 && HasOrder(g, n, p)
    modifies t
    ensures ok <==> TableWorks(n, w, d)
    ensures ok ==> IsTable(g, t[..], p, w, d)
  {
    hide *;
    var TT := SeedTable(g, t, p, w, d);
    SeedsNonzero(g, t[..], p, w, d, n, TT);
    ok := NormalizeMany(g, t, TT);
    assert ok;
    SeededElim(g, t[..], w - 1, p, d);
    FirstEntry(g, t[..], p, d);
    PowOne(2);
    TT := [];
    NothingListed();
    ghost var l := 0;
    var i := 1;
    while i < t.Length
      invariant i == Pow(2, l) && l <= w - 1
      invariant Filled(g, t[..], i, p, d) || Broken(g, t[..], i / 2, d, n)
      invariant SeededFrom(g, t[..], l, w - 1, p, d)
      invariant Lists(TT, i)
      decreases w - 1 - l
    {
      PowerBelow(l, w - 1);
      PowSucc(2, l);
      PowMono(2, l + 1, w - 1);
      SeedAt(g, t[..], l, w - 1, p, d);
      ghost var s := t[..];
      if Broken(g, s, i / 2, d, n) { BrokenMore(g, s, i, d, n); }
      TT := FillOctave(g, t, i, l, p, d, n, TT);
      LaterSeeds(g, s, t[..], l, w - 1, p, d);
      l := l + 1;
      i := 2 * i;
    }
    PowerBelow(l, w - 1);
    ListedBelow(TT, i);
    ok := NormalizeMany(g, t, TT);
    TableChecked(g, t[..], p, w, d, n, TT, ok);
  }

  lemma ListedBelow(TT: seq<nat>, i: nat)
    requires Lists(TT, i)
    ensures forall k :: 0 <= k < |TT| ==> TT[k] < i
  {
  }

  lemma NothingListed()
    ensures Lists([], 1)
  {
  }

  lemma SeededElim<T(!new)>(g: Group<T>, t: seq<T>, l: nat, p: T, d: nat)
    requires Seeded(g, t, l, p, d)
    ensures |t| > 0 && t[0] == p && SeededFrom(g, t, 0, l, p, d)
  {
  }

  lemma SeedAt<T(!new)>(g: Group<T>, t: seq<T>, l: nat, e: nat, p: T, d: nat)
    requires l < e && SeededFrom(g, t, l, e, p, d)
    ensures Pow(2, l) < |t| && t[Pow(2, l)] == Times(g, Pow(2, d * (l + 1)), p)
  {
    hide Pow, Times;
  }

  lemma LaterSeeds<T(!new)>(g: Group<T>, s: seq<T>, t: seq<T>, l: nat, e: nat, p: T, d: nat)
    requires SeededFrom(g, s, l, e, p, d) && |t| == |s|
    requires forall k :: Pow(2, l + 1) <= k < |t| ==> t[k] == s[k]
    ensures SeededFrom(g, t, l + 1, e, p, d)
  {
    hide Pow, Times;
    forall r | l + 1 <= r < e ensures Pow(2, r) < |t| && t[Pow(2, r)] == Times(g, Pow(2, d * (r + 1)), p) {
      PowMono(2, l + 1, r);
      assert s[Pow(2, r)] == Times(g, Pow(2, d * (r + 1)), p);
    }
  }

  lemma SeedsNonzero<T(!new)>(g: Group<T>, t: seq<T>, p: T, w: nat, d: nat, n: int, TT: seq<nat>)
    requires Abelian(g) && n > 1 && n % 2 == 1 && HasOrder(g, n, p) && w >= 1 && Seeded(g, t, w - 1, p, d)
    requires |TT| == w - 1 && forall s :: 0 <= s < |TT| ==> TT[s] == Pow(2, s) < |t|
    ensures forall k :: 0 <= k < |TT| ==> t[TT[k]] != g.zero
  {
    hide Pow, Times, Abelian, HasOrder;
    forall k | 0 <= k < |TT| ensures t[TT[k]] != g.zero {
      PowerNotMultiple(d * (k + 1), n);
      ZeroMultiple(g, n, Pow(2, d * (k + 1)), p);
    }
  }

  /** The closing normalisation finds the zero entries. */
  lemma TableChecked<T(!new)>(g: Group<T>, t: seq<T>, p: T, w: nat, d: nat, n: int, TT: seq<nat>, ok: bool)
    requires Abelian(g) && n > 1 && HasOrder(g, n, p) && 2 <= w && |t| == Pow(2, w - 1) && Lists(TT, |t|)
    requires Filled(g, t, |t|, p, d) || Broken(g, t, |t| / 2, d, n)
    requires ok <==> |TT| < 2 || forall k :: 0 <= k < |TT| ==> t[TT[k]] != g.zero
    ensures ok <==> TableWorks(n, w, d)
    ensures ok ==> IsTable(g, t, p, w, d)
  {
    hide Pow, Times, Abelian, HasOrder, EntryScalar;
    PowOne(2);
    if w > 2 {
      PowMono(2, 2, w - 1);
      PowersOfTwo();
      if Filled(g, t, |t|, p, d) {
        forall i | 0 <= i < |t| ensures t[i] == g.zero <==> EntryScalar(i, d) % n == 0 {
          ZeroMultiple(g, n, EntryScalar(i, d), p);
        }
        FirstNonzero(d, n);
        forall x | 1 <= x < |t| ensures ok ==> t[x] != g.zero { assert x in TT; }
      } else {
        var z :| 1 <= z < |t| && t[z] == g.zero && EntryScalar(z, d) % n == 0;
        assert z in TT;
      }
    }
  }

  lemma FirstNonzero(d: nat, n: int)
    requires n > 1
    ensures EntryScalar(0, d) % n != 0
  {
    hide Pow;
    SpreadZero(d);
    assert Pow(2, d) * 0 == 0;
    DivUnique(1, 0, 1, n);
  }

  // ---- ecp_select_comb --------------------------------------------------------------------

  /** ( i & 0x7F ) >> 1 */
  function EntryIndex(x: bv8): nat {
    ((x & 0x7F) >> 1) as nat
  }

  /** Teeth l, l + 1, ... 6 of a digit as a number. */
  ghost function TeethFrom(x: bv8, l: nat): nat
    requires l <= 7
    decreases 7 - l
  {
    if l == 7 then 0 else Tooth(x, l) + 2 * TeethFrom(x, l + 1)
  }

  lemma IndexBits(x: bv8)
    ensures EntryIndex(x) == TeethFrom(x, 1)
  {
    hide Tooth, EntryIndex;
    IndexSum(x);
    assert TeethFrom(x, 1) == Tooth(x, 1) + 2 * (Tooth(x, 2) + 2 * (Tooth(x, 3) + 2 * (Tooth(x, 4)
      + 2 * (Tooth(x, 5) + 2 * Tooth(x, 6)))));
  }

  lemma IndexSum(x: bv8)
    ensures EntryIndex(x) == Tooth(x, 1) + 2 * Tooth(x, 2) + 4 * Tooth(x, 3) + 8 * Tooth(x, 4)
      + 16 * Tooth(x, 5) + 32 * Tooth(x, 6)
  {
  }

  /** A digit without teeth from w on: its index fits the table. */
  lemma {:induction false} TeethBound(x: bv8, w: nat, l: nat)
    requires l <= w <= 7 && OnlyTeeth(x, w)
    ensures TeethFrom(x, l) < Pow(2, w - l)
    decreases 7 - l
  {
    hide Tooth, Pow;
    PowOne(2);
    if l == 7 {
    } else if l == w {
      NoTeethAbove(x, w, l);
    } else {
      TeethBound(x, w, l + 1);
      PowSucc(2, w - l - 1);
    }
  }

  lemma {:induction false} NoTeethAbove(x: bv8, w: nat, l: nat)
    requires w <= l <= 7 && OnlyTeeth(x, w)
    ensures TeethFrom(x, l) == 0
    decreases 7 - l
  {
    hide Tooth;
    if l < 7 { NoTeethAbove(x, w, l + 1); }
  }

  /** A digit's value is that of its low teeth and, shifted, of its high teeth. */
  lemma {:induction false} DigitSplit(x: bv8, w: nat, l: nat, d: nat)
    requires l <= w <= 7 && OnlyTeeth(x, w)
    ensures DigitValue(x, w, d) == DigitValue(x, l, d) + Pow(2, d * l) * Spread(TeethFrom(x, l), d)
    decreases 7 - l
  {
    hide Tooth, Pow, Spread;
    SpreadZero(d);
    if l == w {
      NoTeethAbove(x, w, l);
      assert Pow(2, d * l) * 0 == 0;
    } else {
      DigitSplit(x, w, l + 1, d);
      SpreadStep(Tooth(x, l), TeethFrom(x, l + 1), d);
      PowAdd(2, d * l, d);
      assert d * l + d == d * (l + 1);
      SplitAlgebra(Tooth(x, l), Pow(2, d * l), Pow(2, d), Spread(TeethFrom(x, l + 1), d));
      assert DigitValue(x, l + 1, d) == DigitValue(x, l, d) + Tooth(x, l) * Pow(2, d * l);
    }
  }

  lemma SplitAlgebra(t: int, a: int, b: int, s: int)
    ensures t * a + (a * b) * s == a * (t + b * s)
  {
  }

  /** The entry chosen for an odd digit is the digit's value times p. */
  lemma EntryOfDigit(x: bv8, w: nat, d: nat)
    requires 1 <= w <= 7 && Tooth(x, 0) == 1 && OnlyTeeth(x, w)
    ensures EntryIndex(x) < Pow(2, w - 1) && EntryScalar(EntryIndex(x), d) == DigitValue(x, w, d)
  {
    hide Tooth, Pow, Spread, EntryIndex;
    IndexBits(x);
    TeethBound(x, w, 1);
    DigitSplit(x, w, 1, d);
    PowOne(2);
    assert d * 1 == d && d * 0 == 0;
    assert DigitValue(x, 1, d) == DigitValue(x, 0, d) + Tooth(x, 0) * Pow(2, d * 0);
  }

  /** ecp_select_comb: the whole table is read, one entry kept, and its sign set.  Only X and Y are
      kept, so the entry must not be zero. */
  method SelectComb<T(!new)>(g: Group<T>, r0: T, t: array<T>, i: bv8, ghost p: T, ghost w: nat, ghost d: nat)
      returns (r: T)
    requires Abelian(g) && 1 <= w <= 7 && IsTable(g, t[..], p, w, d)
    requires Tooth(i, 0) == 1 && OnlyTeeth(i, w)
    requires Times(g, DigitValue(i, w, d), p) != g.zero
    ensures r == Times(g, DigitSign(i) * DigitValue(i, w, d), p)
  {
    hide Abelian, Times, Pow, Tooth, EntryIndex, EntryScalar, DigitValue, OnlyTeeth;
    EntryOfDigit(i, w, d);
    var ii := EntryIndex(i);
    r := r0;
    var j := 0;
    while j < t.Length
      invariant j <= t.Length
      invariant ii < j ==> r == t[ii]
    {
      r := if j == ii then t[j] else r;
      j := j + 1;
    }
    TimesNeg(g, DigitValue(i, w, d), p);
    HighBit(i);
    r := if i & 0x80 != 0 then g.neg(r) else r;
  }

  lemma HighBit(x: bv8)
    ensures DigitSign(x) == if x & 0x80 != 0 then -1 else 1
  {
  }

  // ---- ecp_mul_comb_core ------------------------------------------------------------------

  /** No digit of x selects a zero entry. */
  ghost predicate Selectable<T(!new)>(g: Group<T>, x: seq<bv8>, p: T, w: nat, d: nat)
    requires w <= 7
  {
    forall k :: 0 <= k < |x| ==> Times(g, DigitValue(x[k], w, d), p) != g.zero
  }

  /** The main loop, from the top digit down.  The accumulator is never zero: its scalar stays
      between 1 and m (CombRecoding.AccumulatorRange), which is below the order of p. */
  method MulCombCore<T(!new, ==)>(g: Group<T>, r0: T, t: array<T>, x: array<bv8>, d: nat,
                                  ghost m: nat, ghost p: T, ghost w: nat, ghost n: int)
    returns (r: T)
    requires Abelian(g) && 1 <= w <= 7 && IsTable(g, t[..], p, w, d)
    requires IsRecoding(x[..], m, w, d) && m < n && n % 2 == 1 && HasOrder(g, n, p) && Selectable(g, x[..], p, w, d)
    ensures r == Times(g, m, p)
  {
    hide *;
    var i := d;
    DigitFacts(g, x[..], m, p, w, d, i);
    r := SelectComb(g, r0, t, x[i], p, w, d);
    TopDigit(x[..], w, d);
    while i != 0
      invariant i <= d && r == Times(g, TopValue(x[..], i, w, d), p)
    {
      ghost var k := TopValue(x[..], i, w, d);
      AccumulatorRange(x[..], m, w, d, i);
      DoubledNonzero(g, n, p, x[..], m, w, d, i);
      i := i - 1;
      r := g.add(r, r);
      TimesAdd(g, k, k, p);
      DigitFacts(g, x[..], m, p, w, d, i);
      ghost var e := DigitSign(x[i]) * DigitValue(x[i], w, d);
      var txi := SelectComb(g, r, t, x[i], p, w, d);
      TimesAdd(g, 2 * k, e, p);
      MixedAddIs(g, r, txi);
      r := MixedAdd(g, r, txi);
      NextTop(x[..], i, w, d);
    }
    AccumulatorRange(x[..], m, w, d, 0);
  }

  lemma DigitFacts<T(!new)>(g: Group<T>, x: seq<bv8>, m: nat, p: T, w: nat, d: nat, i: nat)
    requires w <= 7 && i <= d && IsRecoding(x, m, w, d) && Selectable(g, x, p, w, d)
    ensures |x| == d + 1 && Tooth(x[i], 0) == 1 && OnlyTeeth(x[i], w) && Times(g, DigitValue(x[i], w, d), p) != g.zero
  {
    hide Tooth, OnlyTeeth, DigitValue, Times;
  }

  lemma RecodingLength(x: seq<bv8>, m: nat, w: nat, d: nat)
    requires w <= 7 && IsRecoding(x, m, w, d)
    ensures |x| == d + 1
  {
  }

  lemma TopDigit(x: seq<bv8>, w: nat, d: nat)
    requires |x| == d + 1 && w <= 7
    ensures TopValue(x, d, w, d) == DigitSign(x[d]) * DigitValue(x[d], w, d)
  {
    hide DigitSign, DigitValue;
    assert TopValue(x, d + 1, w, d) == 0;
  }

  lemma NextTop(x: seq<bv8>, i: nat, w: nat, d: nat)
    requires i < |x| && w <= 7
    ensures TopValue(x, i, w, d) == 2 * TopValue(x, i + 1, w, d) + DigitSign(x[i]) * DigitValue(x[i], w, d)
  {
    hide DigitSign, DigitValue;
  }

  /** Nor is twice the accumulator zero, n being odd. */
  lemma DoubledNonzero<T(!new)>(g: Group<T>, n: int, p: T, x: seq<bv8>, m: nat, w: nat, d: nat, i: nat)
    requires Abelian(g) && HasOrder(g, n, p) && 1 <= w <= 7 && 0 < i <= d
    requires IsRecoding(x, m, w, d) && m < n && n % 2 == 1
    ensures Times(g, 2 * TopValue(x, i, w, d), p) != g.zero
  {
    hide *;
    RecodingLength(x, m, w, d);
    var k := TopValue(x, i, w, d);
    AccumulatorRange(x, m, w, d, i);
    if 2 * k < n { DivUnique(2 * k, 0, 2 * k, n); } else { DivUnique(2 * k, 1, 2 * k - n, n); }
    ZeroMultiple(g, n, 2 * k, p);
  }

  // ---- ecp_mul_comb -----------------------------------------------------------------------

  /** POLARSSL_ECP_WINDOW_SIZE, whose bounds the source checks when it is compiled. */
  type WindowSize = n: nat | 2 <= n <= 7 witness 6

  const WINDOW_SIZE: WindowSize

  /** The number of teeth that ecp_mul_comb picks. */
  function CombWidth(nbits: nat, pEqG: bool): (w: nat)
    ensures 2 <= w <= 7
  {
    var w := (if nbits >= 384 then 5 else 4) + (if pEqG then 1 else 0);
    var v := if w > WINDOW_SIZE then WINDOW_SIZE else w;
    if v >= nbits then 2 else v
  }

  function CombSpan(nbits: nat, w: nat): nat
    requires w > 0
  {
    (nbits + w - 1) / w
  }

  lemma CombCovers(nbits: nat, w: nat)
    requires w > 0
    ensures nbits <= w * CombSpan(nbits, w)
  {
    DivMod(nbits + w - 1, w);
  }

  /** Whether ecp_mul_comb gets its table, for points of order n with nbits bits: a condition on n
      alone, for G and for other points. */
  ghost predicate CombWorks(n: int, nbits: nat, pEqG: bool)
    requires n > 0
  {
    TableWorks(n, CombWidth(nbits, pEqG), CombSpan(nbits, CombWidth(nbits, pEqG)))
  }

  /** The parts of ecp_group that a multiplication uses.  T, once set, is the table for G. */
  class EcpGroup<P(!new, ==)> {
    const curve: Group<P>
    const G: P
    const N: Mpi
    const nbits: nat
    var T: array?<P>

    constructor (curve: Group<P>, G: P, N: Mpi, nbits: nat)
      ensures this.curve == curve && this.G == G && this.N == N && this.nbits == nbits && T == null
    {
      this.curve, this.G, this.N, this.nbits, T := curve, G, N, nbits, null;
    }

    /** G's curve is a commutative group, N has nbits bits, and a stored table is G's. */
    ghost predicate Valid()
      reads this, N, T
    {
      && Abelian(curve)
      && N.Value() > 0 && nbits == BitLen(N.Abs())
      && (T != null ==>
          && IsTable(curve, T[..], G, CombWidth(nbits, true), CombSpan(nbits, CombWidth(nbits, true)))
          && CombWorks(N.Value(), nbits, true))
    }

    /** The table for p: the stored one for G, or a new one, which is stored if p is G. */
    method CombTable(p: P, w: nat, d: nat) returns (ok: bool, t: array<P>)
      requires Valid() && w == CombWidth(nbits, p == G) && d == CombSpan(nbits, w)
      requires N.Value() > 1 && N.Value() % 2 == 1 && HasOrder(curve, N.Value(), p)
      modifies this`T
      ensures Valid() && (ok <==> CombWorks(N.Value(), nbits, p == G))
      ensures ok ==> IsTable(curve, t[..], p, w, d)
      ensures T == old(T) || (p == G && fresh(T))
    {
      hide Pow, Abelian, IsTable, BitLen, Val, CombSpan, TableWorks, HasOrder;
      if p == G && T != null { return true, T; }
      PowerPositive(w - 1);
      t := new P[Pow(2, w - 1)](_ => curve.zero);
      ok := PrecomputeComb(curve, t, p, w, d, N.Value());
      if ok && p == G { T := t; }
    }

    /** M, the odd one of m and N - m. */
    method OddScalar(m: Mpi) returns (M: Mpi, mIsOdd: bool)
      requires 0 < m.Value() < N.Value() && N.Abs() % 2 == 1
      ensures fresh(M) && M.Abs() % 2 == 1 && M.Abs() < N.Abs()
      ensures mIsOdd == (m.Value() % 2 == 1)
      ensures M.Abs() as int == if mIsOdd then m.Value() else N.Value() - m.Value()
    {
      hide Val, Pow, Shr;
      LowestBit(m.Abs());
      var b := GetBit(m, 0);
      mIsOdd := b == 1;
      M := new Mpi();
      Copy(M, m);
      var mm := new Mpi();
      SubMpi(mm, N, m);
      if !mIsOdd { Copy(M, mm); }
    }

    /** ecp_mul_comb for a point p of order N: an error when N is even; otherwise m * p if the table
        can be had, and a refusal, with the result freed, if it cannot. */
    method MulComb(r0: P, m: Mpi, p: P) returns (status: Status, r: P)
      requires Valid() && 0 < m.Value() < N.Value() && HasOrder(curve, N.Value(), p)
      modifies this`T
      ensures Valid() && (T == old(T) || fresh(T))
      ensures status == if N.Value() % 2 == 0 then BadInputData
                        else if CombWorks(N.Value(), nbits, p == G) then Success else NotAcceptable
      ensures r == if status == Success then Times(curve, m.Value(), p)
                   else if status == BadInputData then r0 else curve.zero
    {
      hide Val, Pow, Shr, Abelian, Times, IsTable, CombWidth, CombSpan, BitLen, IsRecoding, CombRecoding.OnlyTeeth,
           TableWorks, HasOrder, Selectable;
      LowestBit(N.Abs());
      var b := GetBit(N, 0);
      if b != 1 { return BadInputData, r0; }
      var w := CombWidth(nbits, p == G);
      var d := CombSpan(nbits, w);
      var ok, t := CombTable(p, w, d);
      if !ok { return NotAcceptable, curve.zero; }
      var M, mIsOdd := OddScalar(m);
      CombCovers(nbits, w);
      ShorterBelow(M.Abs(), N.Abs());
      BitLenPositive(M.Abs(), w, d);
      var k := new bv8[d + 1];
      CombFixed(k, d, w, M);
      ghost var mv := M.Abs();
      DigitsSelectable(curve, k[..], mv, p, w, d, N.Value());
      r := MulCombCore(curve, r0, t, k, d, mv, p, w, N.Value());
      OrderKills(curve, N.Value(), p);
      TimesComplement(curve, N.Value(), m.Value(), p);
      r := if !mIsOdd then curve.neg(r) else r;
      status := Success;
    }
  }

  lemma OrderKills<T(!new)>(g: Group<T>, n: int, p: T)
    requires HasOrder(g, n, p)
    ensures Times(g, n, p) == g.zero
  {
  }

  /** With a table that works, no digit of an odd m below n selects a zero entry.  A table of two
      entries is not checked; its second entry is zero only if n divides 1 + 2^d, and then m has
      no bits for the second tooth. */
  lemma DigitsSelectable<T(!new)>(g: Group<T>, x: seq<bv8>, m: nat, p: T, w: nat, d: nat, n: int)
    requires Abelian(g) && n > 1 && HasOrder(g, n, p) && 2 <= w <= 7 && TableWorks(n, w, d)
    requires IsRecoding(x, m, w, d) && 0 < m < n && m % 2 == 1 && d > 0
    ensures Selectable(g, x, p, w, d)
  {
    hide Abelian, Times, HasOrder, Tooth, OnlyTeeth, DigitValue, EntryScalar, Pow, EntryIndex, CombValue, ToothSum;
    forall k | 0 <= k < |x| ensures Times(g, DigitValue(x[k], w, d), p) != g.zero {
      EntryOfDigit(x[k], w, d);
      ZeroMultiple(g, n, DigitValue(x[k], w, d), p);
      if w == 2 { SecondToothUnused(x, m, d, n, k); }
    }
  }

  lemma SecondToothUnused(x: seq<bv8>, m: nat, d: nat, n: int, k: nat)
    requires n > 1 && IsRecoding(x, m, 2, d) && 0 < m < n && m % 2 == 1 && k <= d && d > 0
    ensures EntryScalar(EntryIndex(x[k]), d) % n != 0
  {
    hide Tooth, Pow, EntryIndex, EntryScalar, CombValue, ToothSum;
    var v := EntryScalar(EntryIndex(x[k]), d);
    EntryOfDigit(x[k], 2, d);
    PowOne(2);
    if EntryIndex(x[k]) == 0 {
      FirstNonzero(d, n);
    } else {
      SecondEntry(d);
      if v % n == 0 {
        MultipleAtLeast(v, n);
        PowSucc(2, d - 1);
        assert d * 1 == d;
        UnusedTooth(x, m, 2, d, 1, k);
        IndexBits(x[k]);
        NoTeethAbove(x[k], 2, 2);
        assert false;
      }
    }
  }

  lemma SecondEntry(d: nat)
    ensures EntryScalar(1, d) == 1 + Pow(2, d)
  {
    hide Pow;
    SpreadZero(d);
    assert Pow(2, d) * 0 == 0;
    assert Spread(1, d) == 1;
    assert Pow(2, d) * 1 == Pow(2, d);
  }

  lemma MultipleAtLeast(v: nat, n: int)
    requires n > 0 && v > 0 && v % n == 0
    ensures n <= v
  {
    DivMod(v, n);
    if v < n { DivUnique(v, 0, v, n); }
  }

  lemma LowestBit(x: nat)
    ensures BitAt(x, 0) == x % 2
  {
    hide Pow, Shr;
    PowOne(2);
    ShrUnique(x, 0, x, 0);
  }

  lemma ShorterBelow(x: nat, y: nat)
    requires x <= y
    ensures BitLen(x) <= BitLen(y)
  {
    if x > 0 { ShorterBelow(x / 2, y / 2); }
  }

  /** m * p = -((N - m) * p) when N * p = 0. */
  lemma TimesComplement<T(!new)>(g: Group<T>, n: int, m: int, p: T)
    requires Abelian(g) && Times(g, n, p) == g.zero
    ensures g.neg(Times(g, n - m, p)) == Times(g, m, p)
  {
    hide Abelian, Times;
    TimesNeg(g, n - m, p);
    TimesAdd(g, n, m - n, p);
    Groups.AddZero(g, Times(g, m - n, p));
    assert 0 - (n - m) == m - n;
  }

  lemma PowerPositive(n: nat)
    ensures Pow(2, n) > 0
  {
  }

  // ---- When the table works ---------------------------------------------------------------

  lemma {:induction false} EntryBound(i: nat, l: nat, d: nat)
    requires i < Pow(2, l) && d > 0
    ensures 1 <= EntryScalar(i, d) < 2 * Pow(2, d * l)
  {
    hide Pow;
    PowOne(2);
    PowMono(2, 1, d);
    if l == 0 {
      SpreadZero(d);
      assert d * 0 == 0 && Pow(2, d) * 0 == 0;
    } else {
      PowSucc(2, l - 1);
      EntryBound(i / 2, l - 1, d);
      SpreadStep(i % 2, i / 2, d);
      PowAdd(2, d, d * (l - 1));
      assert d + d * (l - 1) == d * l;
      var e, h, s := EntryScalar(i / 2, d), Pow(2, d), Spread(i, d);
      assert s <= e;
      MulNonneg(h, s);
      MulMono(s, e, h);
      MulMono(e, 2 * Pow(2, d * (l - 1)) - 1, h);
      MulDist(2 * Pow(2, d * (l - 1)), 1, h);
      MulAssoc(2, Pow(2, d * (l - 1)), h);
    }
  }

  /** All entries are below n when n has two bits more than the top tooth's place. */
  lemma BelowOrderWorks(n: nat, nbits: nat, w: nat, d: nat)
    requires n > 0 && nbits == BitLen(n) && 1 <= w && d > 0 && d * (w - 1) + 2 <= nbits
    ensures TableWorks(n, w, d)
  {
    hide Pow, EntryScalar;
    BitLenBounds(n);
    PowSucc(2, d * (w - 1));
    PowMono(2, d * (w - 1) + 1, nbits - 1);
    forall i | 0 <= i < Pow(2, w - 1) ensures EntryScalar(i, d) % n != 0 {
      EntryBound(i, w - 1, d);
      DivUnique(EntryScalar(i, d), 0, EntryScalar(i, d), n);
    }
  }

  /** So for every order of 37 bits or more there is a table, for G and for other points. */
  lemma LargeOrderWorks(n: nat, nbits: nat, pEqG: bool)
    requires n > 0 && nbits == BitLen(n) && nbits >= 37
    ensures CombWorks(n, nbits, pEqG)
  {
    hide BitLen, TableWorks;
    var w := CombWidth(nbits, pEqG);
    var d := CombSpan(nbits, w);
    SpanBound(nbits, w, d);
    BelowOrderWorks(n, nbits, w, d);
  }

  lemma SpanBound(nbits: nat, w: nat, d: nat)
    requires 2 <= w <= 6 && nbits >= 37 && d == (nbits + w - 1) / w
    ensures d > 0 && d * (w - 1) + 2 <= nbits
  {
    DivMod(nbits + w - 1, w);
    assert d * w <= nbits + w - 1;
    assert d * (w - 1) == d * w - d;
    if w == 2 {} else if w == 3 {} else if w == 4 {} else if w == 5 {}
  }

  /** The prime 17, of five bits, has no table for points other than G, unless the window is
      configured to two teeth: entry 2 stands for 1 + 2^4. */
  lemma SeventeenRefused()
    requires WINDOW_SIZE >= 3
    ensures BitLen(17) == 5 && !CombWorks(17, 5, false)
  {
    var w := CombWidth(5, false);
    assert w == 3 || w == 4;
    assert CombSpan(5, w) == 2;
    assert Pow(2, w - 1) > 2;
    assert Spread(1, 2) == 1 && Spread(2, 2) == 4 && EntryScalar(2, 2) == 17;
  }
}
