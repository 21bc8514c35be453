/** Why the Burmester-Desmedt keys are equal: the weighted sum of differences telescopes to the
    cyclic sum of products of neighbouring secrets, which is the same from every node's seat. */
module Bd1Ring {
  import opened Arith
  import opened Groups
  import opened Bd1

  /** The sum of the products of neighbours along s. */
  ghost function PathSum(s: seq<int>): int {
    if |s| < 2 then 0 else s[0] * s[1] + PathSum(s[1..])
  }

  /** The same with the last and the first as neighbours too. */
  ghost function RingSum(s: seq<int>): int
    requires s != []
  {
    PathSum(s) + s[|s| - 1] * s[0]
  }

  /** For two and three nodes. */
  lemma RingSumSmall(a: int, b: int, c: int)
    ensures RingSum([a, b]) == 2 * (a * b)
    ensures RingSum([a, b, c]) == a * b + b * c + c * a
  {
    assert [a, b][1..] == [b] && [a, b, c][1..] == [b, c] && [b, c][1..] == [c];
    assert PathSum([b]) == 0 && PathSum([c]) == 0;
    assert PathSum([b, c]) == b * c;
  }

  lemma {:induction false} PathAppend(s: seq<int>, x: int)
    requires s != []
    ensures PathSum(s + [x]) == PathSum(s) + s[|s| - 1] * x
  {
    if |s| == 1 {
      assert (s + [x])[1..] == [x];
    } else {
      assert (s + [x])[1..] == s[1..] + [x];
      PathAppend(s[1..], x);
    }
  }

  function Rotate<T>(s: seq<T>, k: nat): (r: seq<T>)
    requires k < |s|
    ensures |r| == |s|
    ensures forall i :: 0 <= i < |r| ==> r[i] == s[if i + k < |s| then i + k else i + k - |s|]
  {
    s[k..] + s[..k]
  }

  /** The cyclic sum does not depend on where the ring is entered. */
  lemma {:induction false} RingRotates(s: seq<int>, k: nat)
    requires k < |s|
    ensures RingSum(Rotate(s, k)) == RingSum(s)
  {
    if k == 0 {
      assert Rotate(s, 0) == s;
    } else if |s| > 1 {
      RingRotates(s, k - 1);
      var r := Rotate(s, k - 1);
      var t := r[1..];
      assert Rotate(s, k) == t + [r[0]];
      PathAppend(t, r[0]);
    }
  }

  /** The secret before place t on the ring. */
  function Prior(s: seq<int>, t: nat): int
    requires t < |s|
  {
    s[if t == 0 then |s| - 1 else t - 1]
  }

  /** The value of the node at place t, seen from place 0. */
  ghost function Difference(s: seq<int>, t: nat): int
    requires t + 1 < |s|
  {
    s[t] * (s[t + 1] - Prior(s, t))
  }

  /** weight, weight - 1, ... times the first m of these. */
  ghost function WeightedDifferences(s: seq<int>, m: nat): int
    requires m < |s|
  {
    if m == 0 then 0 else WeightedDifferences(s, m - 1) + (|s| - m) * Difference(s, m - 1)
  }

  lemma {:induction false} PathTake(s: seq<int>, m: nat)
    requires m + 1 < |s|
    ensures PathSum(s[..m + 2]) == PathSum(s[..m + 1]) + s[m] * s[m + 1]
  {
    assert s[..m + 2] == s[..m + 1] + [s[m + 1]];
    PathAppend(s[..m + 1], s[m + 1]);
  }

  /** Summation by parts. */
  lemma {:induction false} Telescope(s: seq<int>, m: nat)
    requires m < |s| && |s| >= 2
    ensures WeightedDifferences(s, m)
         == PathSum(s[..m + 1]) + (|s| - m - 1) * (Prior(s, m) * s[m]) - (|s| - 1) * (s[|s| - 1] * s[0])
  {
    if m == 0 {
      assert PathSum(s[..1]) == 0;
    } else {
      Telescope(s, m - 1);
      PathTake(s, m - 1);
      NextDifference(|s| - m, Prior(s, m - 1), s[m - 1], s[m]);
    }
  }

  lemma NextDifference(w: int, a: int, x: int, y: int)
    ensures w * (a * x) + w * (x * (y - a)) == x * y + (w - 1) * (x * y)
  {
    assert x * (y - a) == x * y - a * x;
    assert w * (a * x) + w * (x * y - a * x) == w * (x * y);
    MulDist(w - 1, 1, x * y);
  }

  /** The key's scalar, from the seat of place 0, is the cyclic sum. */
  lemma KeyScalar(s: seq<int>)
    requires |s| >= 2
    ensures |s| * (s[0] * s[|s| - 1]) + WeightedDifferences(s, |s| - 1) == RingSum(s)
  {
    var n := |s|;
    Telescope(s, n - 1);
    assert s[..n] == s;
    assert 0 * (s[n - 2] * s[n - 1]) == 0;
    assert s[0] * s[n - 1] == s[n - 1] * s[0];
    MulDist(n - 1, 1, s[n - 1] * s[0]);
  }

  // ---- The keys as points -----------------------------------------------------------------

  /** values[t] is the value of the node at place t of the ring s. */
  ghost predicate AreDifferences<P(!new)>(g: Group<P>, base: P, s: seq<int>, values: seq<P>) {
    |values| + 1 == |s| && forall t :: 0 <= t < |values| ==> values[t] == Times(g, Difference(s, t), base)
  }

  lemma {:induction false} CountdownScalar<P(!new)>(g: Group<P>, base: P, s: seq<int>, values: seq<P>, m: nat)
    requires Abelian(g) && AreDifferences(g, base, s, values) && m < |s|
    ensures Countdown(g, |s| - 1, values[..m]) == Times(g, WeightedDifferences(s, m), base)
  {
    hide Abelian, Times, Difference;
    if m == 0 {
      TimesSmall(g, base);
    } else {
      CountdownScalar(g, base, s, values, m - 1);
      assert values[..m][..m - 1] == values[..m - 1];
      TimesMul(g, |s| - m, Difference(s, m - 1), base);
      TimesAdd(g, WeightedDifferences(s, m - 1), (|s| - m) * Difference(s, m - 1), base);
    }
  }

  /** What bd1_compute_key adds up is one countdown over one's own value and those after it. */
  lemma {:induction false} CountdownCons<P(!new)>(g: Group<P>, weight: int, x: P, b: seq<P>)
    requires Abelian(g)
    ensures Countdown(g, weight, [x] + b) == g.add(Times(g, weight, x), Countdown(g, weight - 1, b))
    decreases |b|
  {
    hide Abelian, Times;
    var n := |b| - 1;
    if b == [] {
      assert [x] + b == [x] && [x][..0] == [];
      Groups.AddZero(g, Times(g, weight, x));
    } else {
      CountdownCons(g, weight, x, b[..n]);
      assert ([x] + b)[..|b|] == [x] + b[..n];
      AddAssoc(g, Times(g, weight, x), Countdown(g, weight - 1, b[..n]), Times(g, weight - 1 - n, b[n]));
    }
  }

  /** A node at place 0 of the ring s, whose predecessor's point and own value are right, and
      which has the values of the nodes after it in order, computes the cyclic sum. */
  lemma SeatKey<P(!new)>(g: Group<P>, base: P, s: seq<int>, z: P, X: P, buf: seq<P>)
    requires Abelian(g) && |s| >= 2
    requires z == Times(g, s[|s| - 1], base)
    requires |s| > 2 ==> AreDifferences(g, base, s, [X] + buf)
    ensures KeySum(g, s[0], z, X, buf, |s|) == Times(g, RingSum(s), base)
  {
    hide Abelian, Times, Difference, RingSum;
    var n := |s|;
    TimesMul(g, n * s[0], s[n - 1], base);
    MulAssoc(n, s[0], s[n - 1]);
    var first := n * (s[0] * s[n - 1]);
    KeyScalar(s);
    if n == 2 {
      TwoParties(s);
    } else {
      var values := [X] + buf;
      CountdownScalar(g, base, s, values, n - 1);
      assert values[..n - 1] == values;
      CountdownCons(g, n - 1, X, buf);
      AddAssoc(g, Times(g, first, base), Times(g, n - 1, X), Countdown(g, n - 2, buf));
      TimesAdd(g, first, WeightedDifferences(s, n - 1), base);
    }
  }

  lemma TwoParties(s: seq<int>)
    requires |s| == 2
    ensures 2 * (s[0] * s[1]) == RingSum(s)
  {
    assert PathSum(s[1..]) == 0;
    assert s[0] * s[1] == s[1] * s[0];
  }
}
