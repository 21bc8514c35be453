/** Addition and subtraction of bignum.c: carry and borrow chains over limbs. */
module BignumAdd {
  import opened Arith
  import opened Limbs
  import opened Bignum

  /** One limb of the addition loop: the new limb and carry account for x + o + c. */
  lemma AddStep(p: seq<limb>, i: nat, o: limb, c: limb)
    requires i < |p| && c <= 1
    ensures var y := AddW(p[i], c); var z := AddW(y, o);
            var c' := Bit(y < c) + Bit(z < o);
            c' <= 1 && Val(p[i := z]) + c' * Pow(B, i + 1) == Val(p) + (o + c) * Pow(B, i)
  {
    hide Pow, Val;
    var y := AddW(p[i], c);
    var z := AddW(y, o);
    var c' := Bit(y < c) + Bit(z < o);
    AddCarry(p[i], c);
    AddCarry(y, o);
    ValUpdate(p, i, z);
    BaseFacts();
    CarryWeight(p[i], z, c', o + c, i);
  }

  lemma CarryWeight(x: int, z: int, c: int, t: int, i: nat)
    requires z + B * c == x + t
    ensures (z - x) * Pow(B, i) + c * Pow(B, i + 1) == t * Pow(B, i)
  {
    hide Pow;
    PowSucc(B, i);
    var w := Pow(B, i);
    MulAssoc(c, B, w);
    MulDist(z - x, c * B, w);
  }

  /** One limb of the borrow chain. */
  lemma SubStep(p: seq<limb>, i: nat, o: limb, c: limb)
    requires i < |p| && c <= 1
    ensures var y := SubW(p[i], c); var z := SubW(y, o);
            var c' := Bit(y < o) + Bit(p[i] < c);
            c' <= 1 && Val(p[i := z]) - c' * Pow(B, i + 1) == Val(p) - (o + c) * Pow(B, i)
  {
    hide Pow, Val;
    var y := SubW(p[i], c);
    var z := SubW(y, o);
    var c' := Bit(y < o) + Bit(p[i] < c);
    SubBorrow(p[i], c);
    SubBorrow(y, o);
    ValUpdate(p, i, z);
    BaseFacts();
    CarryWeight(z, p[i], c', o + c, i);
    MulDist(z, p[i], Pow(B, i));
    MulDist(p[i], z, Pow(B, i));
  }

  /** What mpi_add_abs leaves behind when X, A and B are one object: every limb doubles,
      and what it overflows is lost. */
  function DoubledLimbs(p: seq<limb>): (q: seq<limb>)
    ensures |q| == |p| && forall i :: 0 <= i < |p| ==> q[i] == AddW(p[i], p[i])
  {
    seq(|p|, i requires 0 <= i < |p| => AddW(p[i], p[i]))
  }

  /** The first loop of mpi_add_abs; O may be X itself. */
  method AddLimbs(X: Mpi, O: Mpi, j: nat) returns (c: limb)
    requires j <= |X.p| && j <= |O.p|
    modifies X`p
    ensures |X.p| == |old(X.p)| && c <= 1
    ensures X != O ==> Val(X.p) + c * Pow(B, j) == Val(old(X.p)) + Val(O.p[..j])
    ensures X == O ==> c == 0 && (forall k :: j <= k < |X.p| ==> X.p[k] == old(X.p)[k])
    ensures X == O ==> forall k :: 0 <= k < j ==> X.p[k] == AddW(old(X.p)[k], old(X.p)[k])
  {
    hide Pow, Val;
    var i := 0;
    c := 0;
    ValZeros(O.p[..0]);
    while i < j
      invariant 0 <= i <= j && |X.p| == |old(X.p)| && c <= 1
      invariant X != O ==> Val(X.p) + c * Pow(B, i) == Val(old(X.p)) + Val(O.p[..i])
      invariant X == O ==> c == 0 && (forall k :: i <= k < |X.p| ==> X.p[k] == old(X.p)[k])
      invariant X == O ==> forall k :: 0 <= k < i ==> X.p[k] == AddW(old(X.p)[k], old(X.p)[k])
    {
      ghost var q, o, c0 := X.p, O.p, c;
      X.p := X.p[i := AddW(X.p[i], c)];
      c := Bit(X.p[i] < c);
      X.p := X.p[i := AddW(X.p[i], O.p[i])];
      c := c + Bit(X.p[i] < O.p[i]);
      if X != O {
        assert X.p == q[i := X.p[i]];
        AddLimbsStep(q, o, i, c0, X.p[i], c);
      } else {
        AddZero(q[i]);
      }
      i := i + 1;
    }
  }

  lemma AddLimbsStep(q: seq<limb>, o: seq<limb>, i: nat, c: limb, z: limb, c': limb)
    requires i < |q| && i < |o| && c <= 1
    requires z == AddW(AddW(q[i], c), o[i])
    requires c' == Bit(AddW(q[i], c) < c) + Bit(z < o[i])
    ensures c' <= 1
    ensures Val(q[i := z]) + c' * Pow(B, i + 1) - Val(o[..i + 1])
         == Val(q) + c * Pow(B, i) - Val(o[..i])
  {
    hide Pow, Val;
    AddStep(q, i, o[i], c);
    ValPrefix(o, i);
    MulDist(o[i], c, Pow(B, i));
  }

  /** mpi_add_abs: X = |A| + |B|, whichever of A and B the result overwrites -- but not
      when all three are the same object. */
  method AddAbs(X: Mpi, A: Mpi, Bm: Mpi)
    modifies X
    ensures X.s == 1
    ensures !(X == A && X == Bm) ==> X.Abs() == old(A.Abs()) + old(Bm.Abs())
    ensures X == A && X == Bm ==> X.p == DoubledLimbs(old(X.p))
    ensures old(A.p) != [] && old(Bm.p) != [] ==> |X.p| >= |old(X.p)|
  {
    hide Pow, Val;
    var A', B' := A, Bm;
    if X == Bm {
      A', B' := X, A;
    }
    if X != A' {
      Copy(X, A');
    }
    X.s := 1;
    ghost var same := X.p;
    var j := Significant(B'.p);
    SigBounds(B'.p);
    Grow(X, j);
    assert X == B' ==> X.p == same;
    var c := AddLimbs(X, B', j);
    if X == B' {
      DoubledZeros(same, X.p, j);
      return;
    }
    PropagateCarry(X, j, c);
  }

  /** The second loop of mpi_add_abs: the carry runs up and may need one more limb. */
  method PropagateCarry(X: Mpi, j: nat, carry: limb)
    requires carry <= 1 && j <= |X.p|
    modifies X`p
    ensures Val(X.p) == Val(old(X.p)) + carry * Pow(B, j)
    ensures |X.p| >= |old(X.p)|
  {
    hide Pow, Val;
    var i, c: limb := j, carry;
    BaseFacts();
    while c != 0
      invariant c <= 1 && j <= i <= |X.p| && |X.p| >= |old(X.p)|
      invariant Val(X.p) + c * Pow(B, i) == Val(old(X.p)) + carry * Pow(B, j)
      decreases if c == 0 then 0 else 1 + |X.p| - i
    {
      if i >= |X.p| {
        Grow(X, i + 1);
        assert X.p[i] == 0;
        AddZeroLeft(c);
      }
      ghost var q, c0 := X.p, c;
      X.p := X.p[i := AddW(X.p[i], c)];
      c := Bit(X.p[i] < c);
      AddStep(q, i, 0, c0);
      AddZero(X.p[i]);
      i := i + 1;
    }
  }

  lemma AddZeroLeft(x: limb)
    ensures AddW(0, x) == x
  {
    DivUnique(x, 0, x, B);
  }

  lemma AddZero(x: limb)
    ensures AddW(x, 0) == x && Bit(AddW(x, 0) < 0) == 0
  {
    DivUnique(x, 0, x, B);
  }

  lemma DoubledZeros(p: seq<limb>, q: seq<limb>, j: nat)
    requires |p| == |q| && j <= |p|
    requires forall k :: 0 <= k < j ==> q[k] == AddW(p[k], p[k])
    requires forall k :: j <= k < |p| ==> q[k] == p[k] && p[k] == 0
    ensures q == DoubledLimbs(p)
  {
    AddZero(0);
  }

  /** mpi_sub_hlp: subtract the low n limbs of s from D in place.  The borrow chain stops
      inside D because D is the larger number. */
  method SubHlp(n: nat, s: seq<limb>, D: Mpi)
    requires n <= |s| && n <= |D.p| && Val(s[..n]) <= Val(D.p)
    modifies D`p
    ensures |D.p| == |old(D.p)| && Val(D.p) == Val(old(D.p)) - Val(s[..n])
  {
    hide Pow, Val;
    var i, c: limb := 0, 0;
    ValZeros(s[..0]);
    while i < n
      invariant 0 <= i <= n && |D.p| == |old(D.p)| && c <= 1
      invariant Val(D.p) - c * Pow(B, i) == Val(old(D.p)) - Val(s[..i])
    {
      ghost var q, c0 := D.p, c;
      var z := Bit(D.p[i] < c);
      D.p := D.p[i := SubW(D.p[i], c)];
      c := Bit(D.p[i] < s[i]) + z;
      D.p := D.p[i := SubW(D.p[i], s[i])];
      assert D.p == q[i := D.p[i]];
      SubStep(q, i, s[i], c0);
      ValPrefix(s, i);
      MulDist(s[i], c0, Pow(B, i));
      i := i + 1;
    }
    BorrowOut(D, i, c, Val(old(D.p)) - Val(s[..n]));
  }

  /** The second loop of mpi_sub_hlp. */
  method BorrowOut(D: Mpi, n: nat, borrow: limb, ghost target: nat)
    requires n <= |D.p| && borrow <= 1 && Val(D.p) - borrow * Pow(B, n) == target
    modifies D`p
    ensures |D.p| == |old(D.p)| && Val(D.p) == target
  {
    hide Pow, Val;
    var i, c: limb := n, borrow;
    BaseFacts();
    while c != 0
      invariant n <= i <= |D.p| == |old(D.p)| && c <= 1
      invariant Val(D.p) - c * Pow(B, i) == target
      decreases if c == 0 then 0 else 1 + |D.p| - i
    {
      ghost var q, c0 := D.p, c;
      ValBound(D.p);
      assert i < |D.p|;
      var z := Bit(D.p[i] < c);
      D.p := D.p[i := SubW(D.p[i], c)];
      c := z;
      SubStep(q, i, 0, c0);
      SubZero(D.p[i]);
      i := i + 1;
    }
  }

  lemma SubZero(x: limb)
    ensures SubW(x, 0) == x
  {
    DivUnique(x, 0, x, B);
  }

  /** The limbs of a copy of Y's value that make it fit under a larger number. */
  lemma SigFits(p: seq<limb>, q: seq<limb>)
    requires Val(p) <= Val(q)
    ensures Sig(p) <= |q| && Val(p[..Sig(p)]) == Val(p)
  {
    SigBounds(p);
    if Sig(q) < Sig(p) { SigOrder(q, p); }
  }

  /** mpi_sub_abs: X = |A| - |B|, or an error when |A| < |B|. */
  method SubAbs(X: Mpi, A: Mpi, Bm: Mpi) returns (ok: bool)
    modifies X
    ensures ok <==> old(A.Abs()) >= old(Bm.Abs())
    ensures ok ==> X.s == 1 && X.Abs() == old(A.Abs()) - old(Bm.Abs())
    ensures !ok ==> X.s == old(X.s) && X.p == old(X.p)
    ensures ok && X == A ==> |X.p| == |old(X.p)|
    ensures old(A.p) != [] ==> |X.p| >= |old(X.p)|
  {
    hide Pow, Val;
    var r := CmpAbs(A, Bm);
    if r < 0 { return false; }
    var B' := Bm;
    if X == Bm {
      B' := new Mpi();
      Copy(B', Bm);
    }
    if X != A {
      Copy(X, A);
    }
    X.s := 1;
    var n := Significant(B'.p);
    SigFits(B'.p, X.p);
    SubHlp(n, B'.p, X);
    return true;
  }

  /** mpi_add_mpi: X = A + B, with the exception of mpi_add_abs. */
  method AddMpi(X: Mpi, A: Mpi, Bm: Mpi)
    modifies X
    ensures X == A && X == Bm ==> X.s == old(X.s) && X.p == DoubledLimbs(old(X.p))
    ensures !(X == A && X == Bm) ==> X.Value() == old(A.Value()) + old(Bm.Value())
    ensures old(A.p) != [] && old(Bm.p) != [] ==> |X.p| >= |old(X.p)|
  {
    var s := A.s;
    if A.s * Bm.s < 0 {
      var r := CmpAbs(A, Bm);
      if r >= 0 {
        var _ := SubAbs(X, A, Bm);
        X.s := s;
      } else {
        var _ := SubAbs(X, Bm, A);
        X.s := 0 - s;
      }
    } else {
      AddAbs(X, A, Bm);
      X.s := s;
    }
  }

  /** mpi_sub_mpi: X = A - B. */
  method SubMpi(X: Mpi, A: Mpi, Bm: Mpi)
    modifies X
    ensures X.Value() == old(A.Value()) - old(Bm.Value())
    ensures old(A.s) == 1 && old(Bm.s) == 1 && old(A.Abs()) >= old(Bm.Abs()) ==> X.s == 1
    ensures old(A.p) != [] && old(Bm.p) != [] ==> |X.p| >= |old(X.p)|
  {
    var s := A.s;
    if A.s * Bm.s > 0 {
      var r := CmpAbs(A, Bm);
      if r >= 0 {
        var _ := SubAbs(X, A, Bm);
        X.s := s;
      } else {
        var _ := SubAbs(X, Bm, A);
        X.s := 0 - s;
      }
    } else {
      AddAbs(X, A, Bm);
      X.s := s;
    }
  }

  /** When X, A and B are one object the sum is right exactly when no limb overflows
      on doubling. */
  lemma {:induction false} AddAbsAliased(p: seq<limb>)
    ensures Val(DoubledLimbs(p)) == 2 * Val(p) <==> forall i :: 0 <= i < |p| ==> 2 * p[i] < B
    ensures Val(DoubledLimbs(p)) <= 2 * Val(p)
  {
    hide Pow;
    if |p| > 0 {
      var n := |p| - 1;
      AddAbsAliased(p[..n]);
      assert DoubledLimbs(p)[..n] == DoubledLimbs(p[..n]);
      var x, w := p[n], Pow(B, n);
      var d := AddW(x, x);
      if 2 * x < B {
        DivUnique(2 * x, 0, 2 * x, B);
        MulDist(x, x, w);
      } else {
        DivUnique(2 * x, 1, 2 * x - B, B);
        MulStrict(d, 2 * x, w);
        MulDist(x, x, w);
      }
      assert forall i :: 0 <= i < n ==> p[..n][i] == p[i];
    }
  }
}
