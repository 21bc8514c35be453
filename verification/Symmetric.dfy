/** Elementary symmetric polynomials and sums over sequences, for the key agreements. */
module Symmetric {
  import opened Arith

  /** The sum of all products of k entries at distinct positions of s. */
  ghost function Elementary(s: seq<int>, k: nat): int {
    if k == 0 then 1
    else if s == [] then 0
    else Elementary(s[1..], k) + s[0] * Elementary(s[1..], k - 1)
  }

  ghost function Product(s: seq<int>): int {
    if s == [] then 1 else s[0] * Product(s[1..])
  }

  /** s without its entry i. */
  function Without<T>(s: seq<T>, i: nat): (r: seq<T>)
    requires i < |s|
    ensures |r| == |s| - 1
    ensures forall k :: 0 <= k < |r| ==> r[k] == if k < i then s[k] else s[k + 1]
  {
    s[..i] + s[i + 1..]
  }

  lemma WithoutFirst<T>(s: seq<T>)
    requires s != []
    ensures Without(s, 0) == s[1..]
  {
  }

  lemma WithoutLater<T>(s: seq<T>, i: nat)
    requires 0 < i < |s|
    ensures Without(s, i) == [s[0]] + Without(s[1..], i - 1)
    ensures Without(s, i)[1..] == Without(s[1..], i - 1) && Without(s, i)[0] == s[0]
  {
    assert Without(s, i) == [s[0]] + Without(s[1..], i - 1);
  }

  /** Singling out one entry. */
  lemma {:induction false} ElementarySplit(s: seq<int>, i: nat, k: nat)
    requires i < |s| && k > 0
    ensures Elementary(s, k) == Elementary(Without(s, i), k) + s[i] * Elementary(Without(s, i), k - 1)
    decreases |s|
  {
    if i == 0 {
      WithoutFirst(s);
    } else {
      WithoutLater(s, i);
      ElementarySplit(s[1..], i - 1, k);
      if k > 1 {
        ElementarySplit(s[1..], i - 1, k - 1);
        SplitAlgebra(s[0], s[i], Elementary(Without(s[1..], i - 1), k - 1), Elementary(Without(s[1..], i - 1), k - 2));
      }
    }
  }

  lemma SplitAlgebra(x: int, y: int, e: int, f: int)
    ensures x * (e + y * f) + y * e == x * e + y * (e + x * f)
  {
  }

  /** Entry j times the k-fold products of the others, for each j < n. */
  ghost function Cofactors(s: seq<int>, n: nat, k: nat): int
    requires n <= |s|
  {
    if n == 0 then 0 else Cofactors(s, n - 1, k) + s[n - 1] * Elementary(Without(s, n - 1), k)
  }

  /** Each product of k + 1 entries arises k + 1 times, once for each of its factors. */
  lemma {:induction false} CofactorSum(s: seq<int>, k: nat)
    ensures Cofactors(s, |s|, k) == (k + 1) * Elementary(s, k + 1)
  {
    if s != [] {
      CofactorShift(s, |s|, k);
      CofactorSum(s[1..], k);
      if k > 0 { CofactorSum(s[1..], k - 1); }
      CofactorAlgebra(s[0], Elementary(s[1..], k), Elementary(s[1..], k + 1), k);
    }
  }

  lemma CofactorAlgebra(x: int, e: int, f: int, k: int)
    ensures x * e + (k + 1) * f + x * (k * e) == (k + 1) * (f + x * e)
  {
  }

  lemma {:induction false} CofactorShift(s: seq<int>, n: nat, k: nat)
    requires 0 < n <= |s|
    ensures Cofactors(s, n, k) == s[0] * Elementary(s[1..], k) + Cofactors(s[1..], n - 1, k)
              + (if k == 0 then 0 else s[0] * Cofactors(s[1..], n - 1, k - 1))
    decreases n
  {
    if n == 1 {
      WithoutFirst(s);
      assert Cofactors(s, 0, k) == 0;
      assert k > 0 ==> s[0] * Cofactors(s[1..], 0, k - 1) == 0;
    } else {
      CofactorShift(s, n - 1, k);
      WithoutLater(s, n - 1);
      assert s[1..][n - 2] == s[n - 1];
      var w := Without(s[1..], n - 2);
      if k > 0 {
        ShiftAlgebra(s[0], s[n - 1], Elementary(w, k), Elementary(w, k - 1), Cofactors(s[1..], n - 2, k - 1));
      }
    }
  }

  lemma ShiftAlgebra(x: int, y: int, e: int, f: int, c: int)
    ensures y * (e + x * f) + x * c == y * e + x * (c + y * f)
  {
  }

  /** The longest products. */
  lemma {:induction false} ElementaryTop(s: seq<int>, k: nat)
    requires k >= |s|
    ensures Elementary(s, k) == if k == |s| then Product(s) else 0
  {
    if s != [] {
      ElementaryTop(s[1..], k);
      ElementaryTop(s[1..], k - 1);
    }
  }

  lemma {:induction false} ProductSplit(s: seq<int>, i: nat)
    requires i < |s|
    ensures Product(s) == s[i] * Product(Without(s, i))
  {
    if i == 0 {
      WithoutFirst(s);
    } else {
      WithoutLater(s, i);
      ProductSplit(s[1..], i - 1);
      MulAssoc(s[0], s[i], Product(Without(s[1..], i - 1)));
      MulAssoc(s[i], s[0], Product(Without(s[1..], i - 1)));
      assert s[0] * s[i] == s[i] * s[0];
    }
  }
}
