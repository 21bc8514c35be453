/** Group Diffie-Hellman agreement 2: gdh2.c's context, the behaviours of crypto/gdh2_utils.h,
    and why every node of the chain computes the same key. */
module Gdh2 {
  import opened Arith
  import opened Bignum
  import opened Groups
  import opened Symmetric
  import opened CombMul
  import opened Ecp
  import opened Mka

  // ---- The lists that travel along the chain, as points ----------------------------------

  /** What node k >= 2, not the last, makes of the list it received. */
  ghost function NextList<P(!new)>(g: Group<P>, base: P, a: int, k: nat, buf: seq<P>): (s: seq<P>)
    requires k >= 2 && |buf| >= ReadCount(k)
    ensures |s| == k + 1
  {
    if k == 2 then [Times(g, a, buf[0]), buf[0], Times(g, a, base)]
    else [Times(g, a, buf[0]), buf[0]] + seq(k - 1, i requires 0 <= i < k - 1 => Times(g, a, buf[i + 1]))
  }

  /** What the last node n broadcasts. */
  ghost function LastList<P(!new)>(g: Group<P>, base: P, a: int, n: nat, buf: seq<P>): (s: seq<P>)
    requires n >= 2 && |buf| >= ReadCount(n)
    ensures |s| == n - 1
  {
    if n == 2 then [Times(g, a, base)]
    else seq(n - 1, i requires 0 <= i < n - 1 => Times(g, a, buf[i + 1]))
  }

  /** How many points node index reads. */
  function ReadCount(index: nat): nat {
    if index == 2 then 1 else index
  }

  /** The part of the output that the loop has written before round i, from round `from` on. */
  ghost function Written<P(!new)>(g: Group<P>, a: int, buf: seq<P>, from: nat, i: nat): seq<P>
    requires from <= i <= |buf|
  {
    if i == from then []
    else Written(g, a, buf, from, i - 1) + [Times(g, a, buf[i - 1])] + if i == 1 then [buf[0]] else []
  }

  // ---- gdh2_context -----------------------------------------------------------------------

  /** The source's gdh2_context.  The exported key is the X coordinate of the point key. */
  class Gdh2Context<P(!new, ==)> {
    const grp: EcpGroup<P>
    const priv: Mpi
    const N: nat
    var key: P

    ghost predicate Valid()
      reads this, grp, grp.N, grp.T, priv
    {
      && GoodGroup(grp) && priv != grp.N && 1 <= priv.Value() < grp.N.Value()
      && grp.G != grp.curve.zero && N >= 2
    }

    /** gdh2_init, with the private scalar that ecp_gen_privkey draws from [1, N). */
    constructor (grp: EcpGroup<P>, priv: Mpi, N: nat)
      requires GoodGroup(grp) && priv != grp.N && 1 <= priv.Value() < grp.N.Value()
      requires grp.G != grp.curve.zero && N >= 2
      ensures Valid() && this.grp == grp && this.priv == priv && this.N == N
    {
      this.grp, this.priv, this.N, key := grp, priv, N, grp.curve.zero;
    }

    /** gdh2_make_firstval */
    method MakeFirstval() returns (c: Code, out: seq<P>)
      requires Valid()
      modifies grp`T
      ensures Valid() && c == Ok && out == [Times(grp.curve, priv.Value(), grp.G)]
    {
      hide Limbs.Val, GoodGroup, Times;
      var p;
      GoodFacts(grp);
      c, p := EcpMul(grp, grp.curve.zero, priv, grp.G);
      out := [p];
    }

    /** The loop of gdh2_make_val over the rounds i, ..., term - 1. */
    method MultiplyAll(buf: seq<P>, i0: nat, term: nat) returns (c: Code, out: seq<P>)
      requires Valid() && i0 <= term <= |buf|
      modifies grp`T
      ensures Valid()
      ensures c == (if NoneZero(grp.curve, buf[i0..term]) then Ok else BadInput)
      ensures c == Ok ==> out == Written(grp.curve, priv.Value(), buf, i0, term)
    {
      hide Limbs.Val, GoodGroup, Times;
      out := [];
      var i := i0;
      while i < term
        invariant Valid() && i0 <= i <= term && NoneZero(grp.curve, buf[i0..i])
        invariant out == Written(grp.curve, priv.Value(), buf, i0, i)
      {
        var read := buf[i];
        var write;
        GoodFacts(grp);
        c, write := EcpMul(grp, grp.curve.zero, priv, read);
        if c != Ok {
          assert buf[i0..term][i - i0] == grp.curve.zero;
          return BadInput, out;
        }
        assert buf[i0..i + 1] == buf[i0..i] + [read];
        out := out + [write];
        if i == 0 { out := out + [read]; }
        i := i + 1;
      }
      c := Ok;
    }

    /** gdh2_make_val, for the node at place index of the chain. */
    method MakeVal(index: nat, buf: seq<P>) returns (c: Code, out: seq<P>)
      requires Valid() && (2 <= index <= N ==> |buf| >= ReadCount(index))
      modifies this`key, grp`T
      ensures Valid()
      ensures c == if 2 <= index <= N && NoneZero(grp.curve, buf[..ReadCount(index)]) then Ok else BadInput
      ensures c == Ok ==> out == if index == N then LastList(grp.curve, grp.G, priv.Value(), N, buf[..ReadCount(N)])
                                 else NextList(grp.curve, grp.G, priv.Value(), index, buf[..ReadCount(index)])
      ensures c == Ok && index == N ==> key == Times(grp.curve, priv.Value(), buf[0])
      ensures index != N ==> key == old(key)
    {
      hide Limbs.Val, GoodGroup, Times, NoneZero;
      var i := 0;
      out := [];
      if index == N {
        NoneZeroParts(grp.curve, buf[..ReadCount(index)], 1);
        var write;
        GoodFacts(grp);
        c, write := EcpMul(grp, grp.curve.zero, priv, buf[0]);
        if c != Ok { return BadInput, out; }
        key := write;
        i := 1;
      } else if !(index >= 2 && index < N) {
        return BadInput, out;
      }
      var term := if index == 2 then 1 else index;
      assert buf[..term][i..] == buf[i..term];
      NoneZeroParts(grp.curve, buf[..term], i);
      c, out := MultiplyAll(buf, i, term);
      if c != Ok { return; }
      if index == 2 {
        var write;
        GoodFacts(grp);
        c, write := EcpMul(grp, grp.curve.zero, priv, grp.G);
        out := out + [write];
      }
      if index == N {
        WrittenLast(grp.curve, grp.G, priv.Value(), N, buf);
      } else {
        WrittenNext(grp.curve, grp.G, priv.Value(), index, buf);
      }
    }

    /** gdh2_compute_key: the value missing this node's scalar is at place N - index - 1. */
    method ComputeKey(index: nat, buf: seq<P>) returns (c: Code)
      requires Valid() && |buf| >= N - 1
      modifies this`key, grp`T
      ensures Valid()
      ensures c == if 1 <= index < N && buf[N - index - 1] != grp.curve.zero then Ok else BadInput
      ensures key == if c == Ok then Times(grp.curve, priv.Value(), buf[N - index - 1]) else old(key)
    {
      hide Limbs.Val, GoodGroup, Times;
      if index < 1 || index >= N { return BadInput; }
      var tmp;
      GoodFacts(grp);
      c, tmp := EcpMul(grp, grp.curve.zero, priv, buf[N - index - 1]);
      if c != Ok { return BadInput; }
      key := tmp;
    }
  }

  lemma NoneZeroParts<P(!new)>(g: Group<P>, s: seq<P>, i: nat)
    requires i <= |s|
    ensures NoneZero(g, s) <==> NoneZero(g, s[..i]) && NoneZero(g, s[i..])
    ensures i == 1 ==> (NoneZero(g, s[..i]) <==> s[0] != g.zero)
    ensures i == 0 ==> NoneZero(g, s[..i])
  {
    if NoneZero(g, s[..i]) && NoneZero(g, s[i..]) {
      forall x | 0 <= x < |s| ensures s[x] != g.zero {
        if x < i { assert s[..i][x] == s[x]; } else { assert s[i..][x - i] == s[x]; }
      }
    }
  }

  lemma {:induction false} WrittenShape<P(!new)>(g: Group<P>, a: int, buf: seq<P>, from: nat, i: nat)
    requires from <= 1 && from <= i <= |buf|
    ensures var w := Written(g, a, buf, from, i);
      && |w| == i - from + (if from == 0 && i > 0 then 1 else 0)
      && (from == 1 ==> forall x :: 0 <= x < |w| ==> w[x] == Times(g, a, buf[x + 1]))
      && (from == 0 && i > 0 ==> (
            && w[0] == Times(g, a, buf[0]) && w[1] == buf[0]
            && forall x :: 2 <= x < |w| ==> w[x] == Times(g, a, buf[x - 1])))
  {
    hide Times;
    if i > from { WrittenShape(g, a, buf, from, i - 1); }
  }

  lemma WrittenNext<P(!new)>(g: Group<P>, base: P, a: int, k: nat, buf: seq<P>)
    requires k >= 2 && |buf| >= ReadCount(k)
    ensures NextList(g, base, a, k, buf[..ReadCount(k)])
         == Written(g, a, buf, 0, ReadCount(k)) + if k == 2 then [Times(g, a, base)] else []
  {
    hide Times;
    WrittenShape(g, a, buf, 0, ReadCount(k));
    var w := Written(g, a, buf, 0, ReadCount(k));
    if k > 2 { assert w + [] == w; assert NextList(g, base, a, k, buf[..ReadCount(k)]) == w; }
  }

  lemma WrittenLast<P(!new)>(g: Group<P>, base: P, a: int, n: nat, buf: seq<P>)
    requires n >= 2 && |buf| >= ReadCount(n)
    ensures LastList(g, base, a, n, buf[..ReadCount(n)])
         == Written(g, a, buf, 1, ReadCount(n)) + if n == 2 then [Times(g, a, base)] else []
  {
    hide Times;
    WrittenShape(g, a, buf, 1, ReadCount(n));
    var w := Written(g, a, buf, 1, ReadCount(n));
    if n > 2 { assert w + [] == w; assert LastList(g, base, a, n, buf[..ReadCount(n)]) == w; }
  }

  // ---- The lists as multiples of the base point -------------------------------------------

  /** Node k's list: the product of the first k secrets, and, for k > 1, that product without
      the k-th secret, without the one before, and so on to the first. */
  ghost function ScalarList(a: seq<int>, k: nat): (s: seq<int>)
    requires 1 <= k <= |a|
    ensures |s| == if k == 1 then 1 else k + 1
  {
    [Product(a[..k])] + if k == 1 then [] else seq(k, t requires 0 <= t < k => Product(Without(a[..k], k - 1 - t)))
  }

  lemma {:induction false} ProductAppend(s: seq<int>, x: int)
    ensures Product(s + [x]) == Product(s) * x
  {
    if s == [] {
      assert [] + [x] == [x] && [x][1..] == [];
      assert Product([x]) == x;
    } else {
      assert (s + [x])[1..] == s[1..] + [x];
      ProductAppend(s[1..], x);
      MulAssoc(s[0], Product(s[1..]), x);
    }
  }

  /** Appending a secret to a product that misses one. */
  lemma MissingGrows(a: seq<int>, k: nat, i: nat)
    requires i < k < |a|
    ensures Product(Without(a[..k + 1], i)) == Product(Without(a[..k], i)) * a[k]
  {
    assert Without(a[..k + 1], i) == Without(a[..k], i) + [a[k]];
    ProductAppend(Without(a[..k], i), a[k]);
  }

  lemma TimesProduct<P(!new)>(g: Group<P>, base: P, a: int, m: int)
    requires Abelian(g)
    ensures Times(g, a, Times(g, m, base)) == Times(g, m * a, base)
  {
    hide Abelian, Times;
    TimesMul(g, a, m, base);
    assert a * m == m * a;
  }

  /** The last factor of a product. */
  lemma TimesLast<P(!new)>(g: Group<P>, base: P, a: int, m: int, p: int, x: P)
    requires Abelian(g) && x == Times(g, m, base) && (p == m * a || p == a * m)
    ensures Times(g, a, x) == Times(g, p, base)
  {
    hide *;
    assert a * m == m * a;
    TimesProduct(g, base, a, m);
  }

  /** From the list of node k to that of node k + 1. */
  lemma NextListIsRight<P(!new)>(g: Group<P>, base: P, a: seq<int>, k: nat, buf: seq<P>)
    requires Abelian(g) && 1 <= k < |a| && Multiples(g, base, ScalarList(a, k), buf)
    ensures Multiples(g, base, ScalarList(a, k + 1), NextList(g, base, a[k], k + 1, buf))
  {
    hide Abelian, Times, Product;
    var t, next := ScalarList(a, k + 1), NextList(g, base, a[k], k + 1, buf);
    assert a[..k + 1] == a[..k] + [a[k]];
    ProductAppend(a[..k], a[k]);
    TimesProduct(g, base, a[k], Product(a[..k]));
    assert Without(a[..k + 1], k) == a[..k];
    if k == 1 {
      SingleProduct(a[1]);
      assert Without(a[..2], 0) == [a[1]];
    } else {
      forall i | 2 <= i < |t| ensures next[i] == Times(g, t[i], base) {
        MissingGrows(a, k, k + 1 - i);
        TimesProduct(g, base, a[k], Product(Without(a[..k], k + 1 - i)));
        assert buf[i - 1] == Times(g, ScalarList(a, k)[i - 1], base);
      }
    }
  }

  lemma SingleProduct(x: int)
    ensures Product([x]) == x
  {
    assert [x][1..] == [];
    assert Product([x]) == x * Product([]);
  }

  /** In the last node's broadcast, place n - index - 1 holds the product of all secrets but that
      of node index. */
  lemma LastListIsRight<P(!new)>(g: Group<P>, base: P, a: seq<int>, buf: seq<P>, index: nat)
    requires Abelian(g) && 1 <= index < |a| && Multiples(g, base, ScalarList(a, |a| - 1), buf)
    ensures LastList(g, base, a[|a| - 1], |a|, buf)[|a| - index - 1] == Times(g, Product(Without(a, index - 1)), base)
  {
    hide Abelian, Times, Product;
    var n := |a|;
    assert a[..n] == a;
    if n == 2 {
      SingleProduct(a[1]);
      assert Without(a, 0) == [a[1]];
    } else {
      MissingGrows(a, n - 1, index - 1);
      TimesProduct(g, base, a[n - 1], Product(Without(a[..n - 1], index - 1)));
      var i := n - index - 1;
      assert buf[i + 1] == Times(g, ScalarList(a, n - 1)[i + 1], base);
      assert Without(a[..n - 1], n - 2 - i) == Without(a[..n - 1], index - 1);
    }
  }

  /** Node k + 1 passes on what it makes of the list of node k. */
  ghost predicate ChainStep<P(!new)>(g: Group<P>, base: P, a: seq<int>, lists: seq<seq<P>>, k: nat)
    requires 1 <= k < |a| && k < |lists|
  {
    && |lists[k - 1]| >= ReadCount(k + 1)
    && lists[k] == NextList(g, base, a[k], k + 1, lists[k - 1][..ReadCount(k + 1)])
  }

  /** A run of the chain: lists[k - 1] is what node k sends on, and broadcast what the last sends
      to all. */
  ghost predicate IsChain<P(!new)>(g: Group<P>, base: P, a: seq<int>, lists: seq<seq<P>>, broadcast: seq<P>) {
    && |lists| == |a| - 1 && |a| >= 2
    && lists[0] == [Times(g, a[0], base)]
    && (forall k :: 1 <= k < |a| - 1 ==> ChainStep(g, base, a, lists, k))
    && |lists[|a| - 2]| >= ReadCount(|a|)
    && broadcast == LastList(g, base, a[|a| - 1], |a|, lists[|a| - 2][..ReadCount(|a|)])
  }

  /** The key of node index: from the list it received, for the last node, and from the broadcast,
      for the others. */
  ghost function ChainKey<P(!new)>(g: Group<P>, a: seq<int>, lists: seq<seq<P>>, broadcast: seq<P>, index: nat): P
    requires 1 <= index <= |a| && |a| >= 2 && |lists| == |a| - 1 && |lists[|a| - 2]| > 0 && |broadcast| == |a| - 1
  {
    if index == |a| then Times(g, a[index - 1], lists[|a| - 2][0])
    else Times(g, a[index - 1], broadcast[|a| - index - 1])
  }

  /** Every node's list is in order: product first, then missing k, k - 1, ..., 1. */
  lemma {:induction false} ChainLists<P(!new)>(g: Group<P>, base: P, a: seq<int>, lists: seq<seq<P>>,
      broadcast: seq<P>, k: nat)
    requires Abelian(g) && IsChain(g, base, a, lists, broadcast) && 1 <= k < |a|
    ensures Multiples(g, base, ScalarList(a, k), lists[k - 1])
  {
    hide Abelian, Times, NextList, LastList, Product;
    if k == 1 {
      assert a[..1] == [a[0]];
      SingleProduct(a[0]);
    } else {
      ChainLists(g, base, a, lists, broadcast, k - 1);
      assert ChainStep(g, base, a, lists, k - 1);
      assert lists[k - 2][..ReadCount(k)] == lists[k - 2];
      NextListIsRight(g, base, a, k - 1, lists[k - 2]);
    }
  }

  /** Agreement: the key that each node computes is the product of all secrets times the base
      point. */
  lemma ChainAgreement<P(!new)>(g: Group<P>, base: P, a: seq<int>, lists: seq<seq<P>>, broadcast: seq<P>)
    requires Abelian(g) && IsChain(g, base, a, lists, broadcast)
    ensures |broadcast| == |a| - 1
    ensures forall index :: 1 <= index <= |a| ==> ChainKey(g, a, lists, broadcast, index) == Times(g, Product(a), base)
  {
    hide Abelian, Times, NextList, LastList, Product, ScalarList;
    ChainEnd(g, base, a, lists, broadcast);
    forall index | 1 <= index <= |a| ensures ChainKey(g, a, lists, broadcast, index) == Times(g, Product(a), base) {
      if index == |a| {
        LastKey(g, base, a, lists[|a| - 2]);
      } else {
        OtherKey(g, base, a, lists[|a| - 2], index);
      }
    }
  }

  lemma ChainEnd<P(!new)>(g: Group<P>, base: P, a: seq<int>, lists: seq<seq<P>>, broadcast: seq<P>)
    requires Abelian(g) && IsChain(g, base, a, lists, broadcast)
    ensures var buf := lists[|a| - 2];
      && Multiples(g, base, ScalarList(a, |a| - 1), buf) && |buf| == ReadCount(|a|)
      && broadcast == LastList(g, base, a[|a| - 1], |a|, buf)
  {
    hide Abelian, Times, NextList, LastList, Product;
    ChainLists(g, base, a, lists, broadcast, |a| - 1);
    assert lists[|a| - 2][..ReadCount(|a|)] == lists[|a| - 2];
  }

  lemma OtherKey<P(!new)>(g: Group<P>, base: P, a: seq<int>, buf: seq<P>, index: nat)
    requires Abelian(g) && 1 <= index < |a|
    requires Multiples(g, base, ScalarList(a, |a| - 1), buf) && |buf| == ReadCount(|a|)
    ensures Times(g, a[index - 1], LastList(g, base, a[|a| - 1], |a|, buf)[|a| - index - 1])
        == Times(g, Product(a), base)
  {
    hide *;
    LastListIsRight(g, base, a, buf, index);
    ProductSplit(a, index - 1);
    TimesLast(g, base, a[index - 1], Product(Without(a, index - 1)), Product(a),
              LastList(g, base, a[|a| - 1], |a|, buf)[|a| - index - 1]);
  }

  lemma LastKey<P(!new)>(g: Group<P>, base: P, a: seq<int>, buf: seq<P>)
    requires Abelian(g) && |a| >= 2 && Multiples(g, base, ScalarList(a, |a| - 1), buf)
    ensures Times(g, a[|a| - 1], buf[0]) == Times(g, Product(a), base)
  {
    hide *;
    var n := |a|;
    FirstPoint(g, base, a, buf);
    assert a == a[..n - 1] + [a[n - 1]];
    ProductAppend(a[..n - 1], a[n - 1]);
    TimesLast(g, base, a[n - 1], Product(a[..n - 1]), Product(a), buf[0]);
  }

  /** The first point of a list is the product. */
  lemma FirstPoint<P(!new)>(g: Group<P>, base: P, a: seq<int>, buf: seq<P>)
    requires |a| >= 2 && Multiples(g, base, ScalarList(a, |a| - 1), buf)
    ensures |buf| > 0 && buf[0] == Times(g, Product(a[..|a| - 1]), base)
  {
    hide Times, Product, Without;
  }
}
