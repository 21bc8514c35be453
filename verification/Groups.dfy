/** Commutative groups, written additively, and the multiples of an element: the setting in
    which the comb multiplication and the key agreements are stated. */
module Groups {
  import opened Arith

  datatype Group<!T(!new)> = Group(zero: T, add: (T, T) -> T, neg: T -> T)

  ghost predicate Abelian<T(!new)>(g: Group<T>) {
    && (forall x, y :: g.add(x, y) == g.add(y, x))
    && (forall x, y, z :: g.add(g.add(x, y), z) == g.add(x, g.add(y, z)))
    && (forall x :: g.add(x, g.zero) == x)
    && (forall x :: g.add(x, g.neg(x)) == g.zero)
  }

  ghost predicate NoneZero<T(!new)>(g: Group<T>, s: seq<T>) {
    forall i :: 0 <= i < |s| ==> s[i] != g.zero
  }

  lemma AddComm<T(!new)>(g: Group<T>, x: T, y: T)
    requires Abelian(g)
    ensures g.add(x, y) == g.add(y, x)
  {
  }

  lemma AddAssoc<T(!new)>(g: Group<T>, x: T, y: T, z: T)
    requires Abelian(g)
    ensures g.add(g.add(x, y), z) == g.add(x, g.add(y, z))
  {
  }

  lemma AddZero<T(!new)>(g: Group<T>, x: T)
    requires Abelian(g)
    ensures g.add(x, g.zero) == x && g.add(g.zero, x) == x
  {
  }

  lemma AddNeg<T(!new)>(g: Group<T>, x: T)
    requires Abelian(g)
    ensures g.add(x, g.neg(x)) == g.zero && g.add(g.neg(x), x) == g.zero
  {
  }

  /** (a + b) + (c + d) == (a + c) + (b + d) */
  lemma AddFour<T(!new)>(g: Group<T>, a: T, b: T, c: T, d: T)
    requires Abelian(g)
    ensures g.add(g.add(a, b), g.add(c, d)) == g.add(g.add(a, c), g.add(b, d))
  {
    hide Abelian;
    AddAssoc(g, a, b, g.add(c, d));
    AddAssoc(g, b, c, d);
    AddComm(g, b, c);
    AddAssoc(g, c, b, d);
    AddAssoc(g, a, c, g.add(b, d));
  }

  /** The k-fold sum of p; for negative k, of its inverse. */
  function Times<T(!new)>(g: Group<T>, k: int, p: T): T
    decreases if k < 0 then 0 - k else k
  {
    if k == 0 then g.zero
    else if k > 0 then g.add(p, Times(g, k - 1, p))
    else g.add(g.neg(p), Times(g, k + 1, p))
  }

  lemma TimesStep<T(!new)>(g: Group<T>, k: int, p: T)
    requires Abelian(g)
    ensures Times(g, k + 1, p) == g.add(p, Times(g, k, p))
  {
    hide Abelian;
    if k < 0 {
      var r := Times(g, k + 1, p);
      AddAssoc(g, p, g.neg(p), r);
      AddNeg(g, p);
      AddZero(g, r);
    }
  }

  lemma {:induction false} TimesAdd<T(!new)>(g: Group<T>, a: int, b: int, p: T)
    requires Abelian(g)
    ensures Times(g, a + b, p) == g.add(Times(g, a, p), Times(g, b, p))
    decreases if a < 0 then 0 - a else a
  {
    hide Abelian, Times;
    if a == 0 {
      TimesSmall(g, p);
      AddZero(g, Times(g, b, p));
    } else if a > 0 {
      TimesAdd(g, a - 1, b, p);
      TimesStep(g, a - 1, p);
      TimesStep(g, a - 1 + b, p);
      AddAssoc(g, p, Times(g, a - 1, p), Times(g, b, p));
    } else {
      TimesAdd(g, a + 1, b, p);
      TimesStep(g, a, p);
      TimesStep(g, a + b, p);
      AddAssoc(g, p, Times(g, a, p), Times(g, b, p));
      AddCancel(g, p, Times(g, a + b, p), g.add(Times(g, a, p), Times(g, b, p)));
    }
  }

  lemma AddCancel<T(!new)>(g: Group<T>, p: T, x: T, y: T)
    requires Abelian(g) && g.add(p, x) == g.add(p, y)
    ensures x == y
  {
    hide Abelian;
    AddAssoc(g, g.neg(p), p, x);
    AddAssoc(g, g.neg(p), p, y);
    AddNeg(g, p);
    AddZero(g, x);
    AddZero(g, y);
  }

  lemma TimesSmall<T(!new)>(g: Group<T>, p: T)
    requires Abelian(g)
    ensures Times(g, 0, p) == g.zero && Times(g, 1, p) == p
    ensures Times(g, 2, p) == g.add(p, p)
    ensures Times(g, -1, p) == g.neg(p)
  {
    hide Abelian;
    AddZero(g, p);
    AddZero(g, g.neg(p));
    assert Times(g, 1, p) == g.add(p, Times(g, 0, p));
    assert Times(g, 2, p) == g.add(p, Times(g, 1, p));
    assert Times(g, -1, p) == g.add(g.neg(p), Times(g, 0, p));
  }

  lemma {:induction false} TimesSum<T(!new)>(g: Group<T>, k: int, x: T, y: T)
    requires Abelian(g)
    ensures Times(g, k, g.add(x, y)) == g.add(Times(g, k, x), Times(g, k, y))
    decreases if k < 0 then 0 - k else k
  {
    hide Abelian, Times;
    var s := g.add(x, y);
    if k == 0 {
      TimesSmall(g, s); TimesSmall(g, x); TimesSmall(g, y);
      AddZero(g, g.zero);
    } else {
      var l := if k > 0 then k - 1 else k + 1;
      TimesSum(g, l, x, y);
      var n := if k > 0 then l else k;
      TimesStep(g, n, s); TimesStep(g, n, x); TimesStep(g, n, y);
      AddFour(g, x, y, Times(g, n, x), Times(g, n, y));
      if k < 0 { AddCancel(g, s, Times(g, k, s), g.add(Times(g, k, x), Times(g, k, y))); }
    }
  }

  lemma {:induction false} TimesMul<T(!new)>(g: Group<T>, a: int, b: int, p: T)
    requires Abelian(g)
    ensures Times(g, a * b, p) == Times(g, a, Times(g, b, p))
    decreases if a < 0 then 0 - a else a
  {
    hide Abelian, Times;
    var q := Times(g, b, p);
    if a == 0 {
      TimesSmall(g, p);
      TimesSmall(g, q);
    } else if a > 0 {
      TimesMul(g, a - 1, b, p);
      TimesStep(g, a - 1, q);
      assert a * b == b + (a - 1) * b;
      TimesAdd(g, b, (a - 1) * b, p);
    } else {
      TimesMul(g, a + 1, b, p);
      TimesStep(g, a, q);
      assert (a + 1) * b == b + a * b;
      TimesAdd(g, b, a * b, p);
      AddCancel(g, q, Times(g, a * b, p), Times(g, a, q));
    }
  }

  lemma TimesNeg<T(!new)>(g: Group<T>, k: int, p: T)
    requires Abelian(g)
    ensures Times(g, 0 - k, p) == g.neg(Times(g, k, p))
  {
    hide Abelian, Times;
    TimesMul(g, -1, k, p);
    TimesSmall(g, Times(g, k, p));
  }

  /** Scalars count modulo the order of the group. */
  lemma TimesCong<T(!new)>(g: Group<T>, a: int, b: int, n: int, p: T)
    requires Abelian(g) && n > 0 && Cong(a, b, n) && Times(g, n, p) == g.zero
    ensures Times(g, a, p) == Times(g, b, p)
  {
    hide Abelian, Times, Cong;
    var k := CongWitness(a, b, n);
    TimesAdd(g, b, k * n, p);
    TimesMul(g, k, n, p);
    TimesZero(g, k);
    AddZero(g, Times(g, b, p));
  }

  /** p has order n. */
  ghost predicate HasOrder<T(!new)>(g: Group<T>, n: int, p: T) {
    n > 0 && Times(g, n, p) == g.zero && forall k :: 0 < k < n ==> Times(g, k, p) != g.zero
  }

  lemma ZeroMultiple<T(!new)>(g: Group<T>, n: int, k: int, p: T)
    requires Abelian(g) && HasOrder(g, n, p)
    ensures n > 0 && (Times(g, k, p) == g.zero <==> k % n == 0)
  {
    hide Abelian, Times;
    DivMod(k, n);
    ModMultiple(k % n, k / n, n);
    TimesCong(g, k, k % n, n, p);
    TimesSmall(g, p);
  }

  lemma {:induction false} TimesZero<T(!new)>(g: Group<T>, k: int)
    requires Abelian(g)
    ensures Times(g, k, g.zero) == g.zero
    decreases if k < 0 then 0 - k else k
  {
    hide Abelian, Times;
    var z := g.zero;
    if k == 0 {
      TimesSmall(g, z);
    } else {
      var l := if k > 0 then k - 1 else k;
      TimesZero(g, if k > 0 then k - 1 else k + 1);
      TimesStep(g, l, z);
      AddZero(g, Times(g, l, z));
    }
  }
}
