/** Sums of group elements, which do not depend on the order of the summands. */
module GroupSums {
  import opened Groups
  import opened Symmetric

  function SumPoints<P(!new)>(g: Group<P>, s: seq<P>): P {
    if s == [] then g.zero else g.add(SumPoints(g, s[..|s| - 1]), s[|s| - 1])
  }

  lemma {:induction false} SumWithout<P(!new)>(g: Group<P>, s: seq<P>, i: nat)
    requires Abelian(g) && i < |s|
    ensures SumPoints(g, s) == g.add(SumPoints(g, Without(s, i)), s[i])
    decreases |s|
  {
    hide Abelian;
    var n := |s| - 1;
    if i == n {
      assert Without(s, i) == s[..n];
    } else {
      SumWithout(g, s[..n], i);
      var w := Without(s, i);
      assert w[..|w| - 1] == Without(s[..n], i) && w[|w| - 1] == s[n];
      var r := SumPoints(g, w[..|w| - 1]);
      AddAssoc(g, r, s[i], s[n]);
      AddComm(g, s[i], s[n]);
      AddAssoc(g, r, s[n], s[i]);
    }
  }

  lemma WithoutMultiset<T>(s: seq<T>, i: nat)
    requires i < |s|
    ensures multiset(s) == multiset(Without(s, i)) + multiset{s[i]}
  {
    assert s == s[..i] + [s[i]] + s[i + 1..];
  }

  lemma RemoveSame<T>(a: multiset<T>, b: multiset<T>, c: multiset<T>)
    requires a + c == b + c
    ensures a == b
  {
    assert a == (a + c) - c;
    assert b == (b + c) - c;
  }

  lemma {:induction false} SumPermuted<P(!new)>(g: Group<P>, s: seq<P>, t: seq<P>)
    requires Abelian(g) && multiset(s) == multiset(t)
    ensures SumPoints(g, s) == SumPoints(g, t)
    decreases |s|
  {
    hide Abelian;
    if s == [] {
      assert |multiset(t)| == 0;
    } else {
      var n := |s| - 1;
      assert s[n] in multiset(t);
      var i :| 0 <= i < |t| && t[i] == s[n];
      WithoutMultiset(s, n);
      WithoutMultiset(t, i);
      RemoveSame(multiset(Without(s, n)), multiset(Without(t, i)), multiset{s[n]});
      SumPermuted(g, Without(s, n), Without(t, i));
      SumWithout(g, s, n);
      SumWithout(g, t, i);
    }
  }

  /** The sum of multiples of one point. */
  lemma {:induction false} SumTimes<P(!new)>(g: Group<P>, s: seq<int>, ps: seq<P>, p: P)
    requires Abelian(g) && |s| == |ps| && forall j :: 0 <= j < |s| ==> ps[j] == Times(g, s[j], p)
    ensures SumPoints(g, ps) == Times(g, Total(s), p)
  {
    hide Abelian, Times;
    if s == [] {
      TimesSmall(g, p);
    } else {
      var n := |s| - 1;
      SumTimes(g, s[..n], ps[..n], p);
      TimesAdd(g, Total(s[..n]), s[n], p);
    }
  }

  ghost function Total(s: seq<int>): int {
    if s == [] then 0 else Total(s[..|s| - 1]) + s[|s| - 1]
  }
}
