/** The signed odd comb recoding of ecp.c (ecp_comb_fixed): an odd scalar becomes d + 1 signed
    digits, each of them odd, digit i collecting the scalar's bits i, i + d, i + 2d, ... */
module CombRecoding {
  import opened Arith
  import opened Bits
  import opened ByteXor
  import opened Bignum
  import opened BignumShift

  /** The byte with just bit j set. */
  function Mask(j: nat): bv8
    requires j < 8
  {
    if j == 0 then 0x01 else if j == 1 then 0x02 else if j == 2 then 0x04 else if j == 3 then 0x08
    else if j == 4 then 0x10 else if j == 5 then 0x20 else if j == 6 then 0x40 else 0x80
  }

  function Has(x: bv8, mask: bv8): (b: nat)
    ensures b <= 1
  {
    if x & mask != 0 then 1 else 0
  }

  /** Bit j of a digit: whether tooth j of the comb is in it. */
  function Tooth(x: bv8, j: nat): (b: nat)
    requires j < 8
    ensures b <= 1
  {
    Has(x, Mask(j))
  }

  /** The sign that bit 7 of a digit encodes. */
  function DigitSign(x: bv8): int {
    1 - 2 * Tooth(x, 7)
  }

  predicate Odd(x: bv8) {
    x & 0x01 != 0
  }

  /** The teeth of one digit, tooth j standing d * j bits up. */
  ghost function DigitValue(x: bv8, w: nat, d: nat): (v: nat)
    requires w <= 7
  {
    if w == 0 then 0 else DigitValue(x, w - 1, d) + Tooth(x, w - 1) * Pow(2, d * (w - 1))
  }

  /** What the first n digits stand for: the sum of sign * 2^i * digit. */
  ghost function CombValue(x: seq<bv8>, n: nat, w: nat, d: nat): int
    requires n <= |x| && w <= 7
  {
    if n == 0 then 0
    else CombValue(x, n - 1, w, d) + Pow(2, n - 1) * (DigitSign(x[n - 1]) * DigitValue(x[n - 1], w, d))
  }

  /** The same sum for one tooth alone. */
  ghost function ToothSum(x: seq<bv8>, n: nat, j: nat): int
    requires n <= |x| && j < 7
  {
    if n == 0 then 0
    else ToothSum(x, n - 1, j) + Pow(2, n - 1) * (DigitSign(x[n - 1]) * Tooth(x[n - 1], j))
  }

  ghost function WeightedTeeth(x: seq<bv8>, n: nat, w: nat, d: nat): int
    requires n <= |x| && w <= 7
  {
    if w == 0 then 0 else WeightedTeeth(x, n, w - 1, d) + ToothSum(x, n, w - 1) * Pow(2, d * (w - 1))
  }

  /** Summing over the teeth first or over the digits first is the same. */
  lemma {:induction false} ExchangeSums(x: seq<bv8>, n: nat, w: nat, d: nat)
    requires n <= |x| && w <= 7
    ensures CombValue(x, n, w, d) == WeightedTeeth(x, n, w, d)
  {
    if n == 0 {
      NoDigits(x, w, d);
    } else {
      ExchangeSums(x, n - 1, w, d);
      OneMoreDigit(x, n, w, d);
    }
  }

  lemma {:induction false} NoDigits(x: seq<bv8>, w: nat, d: nat)
    requires w <= 7
    ensures WeightedTeeth(x, 0, w, d) == 0
  {
    if w > 0 {
      NoDigits(x, w - 1, d);
      assert ToothSum(x, 0, w - 1) == 0;
    }
  }

  lemma {:induction false} OneMoreDigit(x: seq<bv8>, n: nat, w: nat, d: nat)
    requires 0 < n <= |x| && w <= 7
    ensures WeightedTeeth(x, n, w, d)
         == WeightedTeeth(x, n - 1, w, d) + Pow(2, n - 1) * (DigitSign(x[n - 1]) * DigitValue(x[n - 1], w, d))
  {
    hide Pow, DigitSign, Tooth, CombValue;
    var p, s := Pow(2, n - 1), DigitSign(x[n - 1]);
    if w == 0 {
      assert WeightedTeeth(x, n, w, d) == 0 && WeightedTeeth(x, n - 1, w, d) == 0;
      assert DigitValue(x[n - 1], w, d) == 0;
    } else {
      OneMoreDigit(x, n, w - 1, d);
      var t, e := Tooth(x[n - 1], w - 1), Pow(2, d * (w - 1));
      assert ToothSum(x, n, w - 1) == ToothSum(x, n - 1, w - 1) + p * (s * t);
      DigitAlgebra(ToothSum(x, n - 1, w - 1), p, s, t, e, DigitValue(x[n - 1], w - 1, d));
    }
  }

  lemma DigitAlgebra(a: int, p: int, s: int, t: int, e: int, v: int)
    ensures (a + p * (s * t)) * e + p * (s * v) == a * e + p * (s * (v + t * e))
  {
    MulDist(a, p * (s * t), e);
    assert s * (v + t * e) == s * v + s * (t * e);
    MulAssoc(s, t, e);
    assert p * (s * v + (s * t) * e) == p * (s * v) + p * ((s * t) * e);
    MulAssoc(p, s * t, e);
  }

  lemma {:induction false} SameTeeth(x: seq<bv8>, y: seq<bv8>, n: nat, j: nat)
    requires n <= |x| && n <= |y| && j < 7 && x[..n] == y[..n]
    ensures ToothSum(x, n, j) == ToothSum(y, n, j)
  {
    if n > 0 {
      assert x[..n - 1] == x[..n][..n - 1] && y[..n - 1] == y[..n][..n - 1];
      SameTeeth(x, y, n - 1, j);
      assert x[n - 1] == x[..n][n - 1] && y[n - 1] == y[..n][n - 1];
    }
  }

  // ---- One step of the recoding loop ------------------------------------------------------

  /** C's & and | on unsigned char, named so that proofs can go bit by bit. */
  function And(x: bv8, y: bv8): bv8 { x & y }

  function Or8(x: bv8, y: bv8): bv8 { x | y }

  lemma MaskSelects(x: bv8, j: nat)
    requires j < 8
    ensures x & Mask(j) == if Tooth(x, j) == 1 then Mask(j) else 0
  {
  }

  lemma XorTooth(x: bv8, y: bv8, j: nat)
    requires j < 8
    ensures Tooth(Xor(x, y), j) == if Tooth(x, j) == Tooth(y, j) then 0 else 1
  {
    hide Mask;
    assert (x ^ y) & Mask(j) == (x & Mask(j)) ^ (y & Mask(j));
    MaskSelects(x, j);
    MaskSelects(y, j);
  }

  lemma AndTooth(x: bv8, y: bv8, j: nat)
    requires j < 8
    ensures Tooth(And(x, y), j) == Tooth(x, j) * Tooth(y, j)
  {
    hide Mask;
    assert (x & y) & Mask(j) == (x & Mask(j)) & (y & Mask(j));
    MaskSelects(x, j);
    MaskSelects(y, j);
  }

  lemma OrTooth(x: bv8, y: bv8, j: nat)
    requires j < 8
    ensures Tooth(Or8(x, y), j) == Tooth(x, j) + Tooth(y, j) - Tooth(x, j) * Tooth(y, j)
  {
    hide Mask;
    assert (x | y) & Mask(j) == (x & Mask(j)) | (y & Mask(j));
    MaskSelects(x, j);
    MaskSelects(y, j);
  }

  /** Digit and carry of the three-operand addition that a step performs bit by bit. */
  function SumBits(x: bv8, c: bv8, p: bv8): bv8 {
    Xor(Xor(x, c), p)
  }

  function CarryBits(x: bv8, c: bv8, p: bv8): bv8 {
    Or8(And(x, c), And(Xor(x, c), p))
  }

  /** A full adder on each of the eight bits: or-ing the two carries loses nothing. */
  lemma FullAdder(x: bv8, c: bv8, p: bv8, j: nat)
    requires j < 8
    ensures Tooth(SumBits(x, c, p), j) + 2 * Tooth(CarryBits(x, c, p), j)
         == Tooth(x, j) + Tooth(c, j) + Tooth(p, j)
  {
    hide Xor, And, Or8, Tooth;
    XorTooth(x, c, j);
    XorTooth(Xor(x, c), p, j);
    AndTooth(x, c, j);
    AndTooth(Xor(x, c), p, j);
    OrTooth(And(x, c), And(Xor(x, c), p), j);
  }

  /** adjust, the branch-free condition of the source. */
  function Adjust(x: bv8): bv8 {
    1 - (x & 0x01)
  }

  /** The previous digit, if it is to be added. */
  function Scale(p: bv8, adjust: bv8): bv8 {
    p * adjust
  }

  function SignBit(adjust: bv8): bv8 {
    adjust << 7
  }

  lemma AdjustIsBit(x: bv8)
    ensures Adjust(x) == if Odd(x) then 0 else 1
  {
    hide Odd;
    MaskSelects(x, 0);
    OddTooth(x);
  }

  lemma OddTooth(x: bv8)
    ensures Odd(x) <==> Tooth(x, 0) == 1
  {
  }

  lemma AdjustSelects(x: bv8, p: bv8)
    ensures Scale(p, Adjust(x)) == if Odd(x) then 0 else p
    ensures SignBit(Adjust(x)) == if Odd(x) then 0 else 0x80
  {
    hide Adjust, Odd;
    AdjustIsBit(x);
  }

  /** What a step adds besides the carry: the previous digit, when the result would be even. */
  function Addend(prev: bv8, x: bv8, c: bv8): bv8 {
    if Odd(Xor(x, c)) then 0 else prev
  }

  /** The previous digit after the step, with its sign turned if it was added. */
  function Signed(prev: bv8, x: bv8, c: bv8): bv8 {
    Or8(prev, if Odd(Xor(x, c)) then 0 else 0x80)
  }

  /** The digits after the step at i. */
  function Stepped(x: seq<bv8>, i: nat, c: bv8): seq<bv8>
    requires 0 < i < |x|
  {
    x[i := SumBits(x[i], c, Addend(x[i - 1], x[i], c))][i - 1 := Signed(x[i - 1], x[i], c)]
  }

  /** The body of the second loop: add the carry, then the previous digit when the result would
      be even, turning that digit's sign. */
  method RecodeDigit(x: array<bv8>, i: nat, c0: bv8) returns (c: bv8)
    requires 0 < i < x.Length
    modifies x
    ensures x[..] == Stepped(old(x[..]), i, c0)
    ensures c == CarryBits(old(x[i]), c0, Addend(old(x[i - 1]), old(x[i]), c0))
  {
    hide Xor, And, Or8, Odd, Adjust, Scale, SignBit;
    ghost var s := x[..];
    AdjustSelects(Xor(x[i], c0), x[i - 1]);
    var cc := And(x[i], c0);
    x[i] := Xor(x[i], c0);
    c := cc;
    var adjust := Adjust(x[i]);
    c := Or8(c, And(x[i], Scale(x[i - 1], adjust)));
    x[i] := Xor(x[i], Scale(x[i - 1], adjust));
    x[i - 1] := Or8(x[i - 1], SignBit(adjust));
    assert x[..] == Stepped(s, i, c0);
  }

  /** Nothing but the sign above tooth w. */
  ghost predicate OnlyTeeth(x: bv8, w: nat) {
    forall j :: w <= j < 7 ==> Tooth(x, j) == 0
  }

  /** The second loop before digit i: the digits below i are odd and, with the carry, still
      stand for the classical digits y, tooth by tooth. */
  ghost predicate Recoded(x: seq<bv8>, y: seq<bv8>, i: nat, c: bv8, w: nat)
    requires 0 < i <= |x| == |y|
  {
    && (forall k :: 0 <= k < |x| ==> OnlyTeeth(x[k], w))
    && OnlyTeeth(c, w)
    && (forall k :: 0 <= k < i ==> Tooth(x[k], 0) == 1)
    && (forall k :: i - 1 <= k < |x| ==> Tooth(x[k], 7) == 0)
    && Tooth(c, 7) == 0
    && x[i..] == y[i..]
    && (forall j :: 0 <= j < 7 ==> ToothSum(x, i, j) + Pow(2, i) * Tooth(c, j) == ToothSum(y, i, j))
  }

  /** The steps' effect on one digit and on the one before it. */
  lemma StepTeeth(prev: bv8, x: bv8, c: bv8, j: nat)
    requires j < 7
    ensures Tooth(Signed(prev, x, c), j) == Tooth(prev, j)
    ensures Tooth(Addend(prev, x, c), j) == if Tooth(x, 0) == Tooth(c, 0) then Tooth(prev, j) else 0
  {
    hide Xor, And, Or8, Tooth, Odd;
    OrTooth(prev, 0, j);
    OrTooth(prev, 0x80, j);
    ConstantTeeth(j);
    XorTooth(x, c, 0);
    OddTooth(Xor(x, c));
  }

  lemma ConstantTeeth(j: nat)
    requires j < 8
    ensures Tooth(0, j) == 0 && Tooth(0x80, j) == if j == 7 then 1 else 0
  {
    assert 0 & Mask(j) == 0;
  }

  /** Bit 7 is free before the step and holds the sign after it; the new digit is odd. */
  lemma StepSign(prev: bv8, x: bv8, c: bv8)
    requires Tooth(prev, 7) == 0 && Tooth(x, 7) == 0 && Tooth(c, 7) == 0 && Tooth(prev, 0) == 1
    ensures var p := Addend(prev, x, c);
      && Tooth(SumBits(x, c, p), 7) == 0 && Tooth(CarryBits(x, c, p), 7) == 0
      && Tooth(SumBits(x, c, p), 0) == 1
    ensures Tooth(Signed(prev, x, c), 7) == if Tooth(x, 0) == Tooth(c, 0) then 1 else 0
  {
    hide Xor, And, Or8, Tooth, Odd, SumBits, CarryBits;
    var p := Addend(prev, x, c);
    FullAdder(x, c, p, 7);
    FullAdder(x, c, p, 0);
    OrTooth(prev, 0, 7);
    OrTooth(prev, 0x80, 7);
    ConstantTeeth(7);
    StepTeeth(prev, x, c, 0);
    ConstantTeeth(0);
    XorTooth(x, c, 0);
    OddTooth(Xor(x, c));
  }

  lemma RecodeStep(x: seq<bv8>, y: seq<bv8>, i: nat, c: bv8, w: nat)
    requires 0 < i < |x| == |y| && Recoded(x, y, i, c, w)
    ensures Recoded(Stepped(x, i, c), y, i + 1, CarryBits(x[i], c, Addend(x[i - 1], x[i], c)), w)
  {
    hide Pow, ToothSum, Tooth, SumBits, CarryBits, Addend, Signed, OnlyTeeth;
    var p := Addend(x[i - 1], x[i], c);
    var x' := Stepped(x, i, c);
    StepRange(x[i - 1], x[i], c, w);
    StepSign(x[i - 1], x[i], c);
    StepTeeth(x[i - 1], x[i], c, 0);
    assert x[i] == x[i..][0] && y[i] == y[i..][0];
    assert x'[i + 1..] == x[i..][1..] && y[i + 1..] == y[i..][1..];
    forall j: nat | j < 7
      ensures ToothSum(x', i + 1, j) + Pow(2, i + 1) * Tooth(CarryBits(x[i], c, p), j) == ToothSum(y, i + 1, j)
    {
      RecodeTooth(x, y, i, c, j);
    }
  }

  lemma StepRange(prev: bv8, x: bv8, c: bv8, w: nat)
    requires OnlyTeeth(prev, w) && OnlyTeeth(x, w) && OnlyTeeth(c, w)
    ensures var p := Addend(prev, x, c);
      OnlyTeeth(SumBits(x, c, p), w) && OnlyTeeth(CarryBits(x, c, p), w) && OnlyTeeth(Signed(prev, x, c), w)
  {
    hide Tooth, SumBits, CarryBits, Addend, Signed;
    var p := Addend(prev, x, c);
    forall j | w <= j < 7
      ensures Tooth(SumBits(x, c, p), j) == 0 && Tooth(CarryBits(x, c, p), j) == 0 && Tooth(Signed(prev, x, c), j) == 0
    {
      FullAdder(x, c, p, j);
      StepTeeth(prev, x, c, j);
    }
  }

  lemma RecodeTooth(x: seq<bv8>, y: seq<bv8>, i: nat, c: bv8, j: nat)
    requires 0 < i < |x| == |y| && j < 7
    requires y[i] == x[i] && Tooth(x[i - 1], 7) == 0 && Tooth(x[i], 7) == 0 && Tooth(c, 7) == 0
    requires Tooth(x[i - 1], 0) == 1
    requires ToothSum(x, i, j) + Pow(2, i) * Tooth(c, j) == ToothSum(y, i, j)
    ensures ToothSum(Stepped(x, i, c), i + 1, j)
        + Pow(2, i + 1) * Tooth(CarryBits(x[i], c, Addend(x[i - 1], x[i], c)), j)
         == ToothSum(y, i + 1, j)
  {
    hide *;
    var prev, p, x' := x[i - 1], Addend(x[i - 1], x[i], c), Stepped(x, i, c);
    SteppedAt(x, i, c);
    SameTeeth(x, x', i - 1, j);
    FullAdder(x[i], c, p, j);
    StepTeeth(prev, x[i], c, j);
    StepSign(prev, x[i], c);
    LastTooth(x, i, j);
    LastTooth(x', i, j);
    LastTooth(x', i + 1, j);
    LastTooth(y, i + 1, j);
    PowSucc(2, i - 1);
    PowSucc(2, i);
    assert Tooth(x'[i - 1], j) - 2 * (Tooth(x'[i - 1], 7) * Tooth(x'[i - 1], j)) == Tooth(prev, j) - 2 * Tooth(p, j);
    ToothAlgebra(ToothSum(x, i - 1, j), Pow(2, i - 1), Tooth(prev, j), Tooth(p, j), Tooth(x[i], j), Tooth(c, j),
                 Tooth(x'[i], j), Tooth(CarryBits(x[i], c, p), j));
  }

  lemma SteppedAt(x: seq<bv8>, i: nat, c: bv8)
    requires 0 < i < |x|
    ensures var r := Stepped(x, i, c);
      && |r| == |x| && r[i] == SumBits(x[i], c, Addend(x[i - 1], x[i], c))
      && r[i - 1] == Signed(x[i - 1], x[i], c)
      && r[..i - 1] == x[..i - 1] && r[i + 1..] == x[i + 1..]
  {
    hide SumBits, Addend, Signed;
  }

  lemma LastTooth(x: seq<bv8>, n: nat, j: nat)
    requires 0 < n <= |x| && j < 7
    ensures ToothSum(x, n, j)
         == ToothSum(x, n - 1, j) + Pow(2, n - 1) * (Tooth(x[n - 1], j) - 2 * (Tooth(x[n - 1], 7) * Tooth(x[n - 1], j)))
  {
    hide Tooth, Pow;
  }

  lemma ToothAlgebra(s: int, h: int, t: int, tp: int, tx: int, tc: int, tn: int, tc': int)
    requires tn + 2 * tc' == tx + tc + tp
    ensures s + h * (t - 2 * tp) + (2 * h) * tn + (2 * (2 * h)) * tc' == s + h * t + (2 * h) * tc + (2 * h) * tx
  {
    assert h * (t - 2 * tp) == h * t - 2 * (h * tp);
    assert h * tn + 2 * (h * tc') == h * (tn + 2 * tc') == h * (tx + tc + tp) == h * tx + h * tc + h * tp;
  }

  // ---- The classical digits ---------------------------------------------------------------

  /** mpi_get_bit( m, ... ) << j for a bit b. */
  function ShiftedBit(b: nat, j: nat): bv8
    requires b <= 1 && j < 7
  {
    (if b == 1 then 1 as bv8 else 0) << j
  }

  lemma ShiftedBitTooth(b: nat, j: nat, l: nat)
    requires b <= 1 && j < 7 && l < 8
    ensures Tooth(ShiftedBit(b, j), l) == if l == j then b else 0
  {
    hide Tooth, Mask;
    ShiftIsMask(j);
    ConstantTeeth(l);
    MaskTooth(j, l);
    assert (0 as bv8) << j == 0 by { ShiftZero(j); }
  }

  lemma ShiftZero(j: nat)
    requires j < 8
    ensures (0 as bv8) << j == 0
  {
    if j == 0 {} else if j == 1 {} else if j == 2 {} else if j == 3 {}
    else if j == 4 {} else if j == 5 {} else if j == 6 {}
  }

  lemma ShiftIsMask(j: nat)
    requires j < 7
    ensures (1 as bv8) << j == Mask(j)
  {
    if j == 0 {} else if j == 1 {} else if j == 2 {} else if j == 3 {} else if j == 4 {} else if j == 5 {}
  }

  lemma MaskTooth(j: nat, l: nat)
    requires j < 7 && l < 8
    ensures Tooth(Mask(j), l) == if l == j then 1 else 0
  {
  }

  /** Bit j of the classical digit i: bit i + d * j of the scalar, for the w teeth. */
  function ClassicalTooth(m: nat, i: nat, j: nat, w: nat, d: nat): (b: nat)
    ensures b <= 1
  {
    if j < w && i < d then BitAt(m, i + d * j) else 0
  }
  ghost predicate Classical(x: bv8, i: nat, m: nat, w: nat, d: nat) {
    Tooth(x, 7) == 0 && forall j :: 0 <= j < 7 ==> Tooth(x, j) == ClassicalTooth(m, i, j, w, d)
  }

  lemma ClassicalStep(x: bv8, b: nat, j: nat, i: nat, m: nat, d: nat)
    requires j < 7 && i < d && Classical(x, i, m, j, d) && b == BitAt(m, i + d * j)
    ensures Classical(Or8(x, ShiftedBit(b, j)), i, m, j + 1, d)
  {
    hide Tooth, BitAt, Or8, ShiftedBit;
    forall l: nat | l < 8
      ensures Tooth(Or8(x, ShiftedBit(b, j)), l) == if l == j then b else Tooth(x, l)
    {
      OrTooth(x, ShiftedBit(b, j), l);
      ShiftedBitTooth(b, j, l);
    }
  }

  lemma NoClassicalTeeth(i: nat, m: nat, w: nat, d: nat)
    requires w == 0 || i >= d
    ensures Classical(0, i, m, w, d)
  {
    hide Tooth, BitAt;
    forall l: nat | l < 8 ensures Tooth(0, l) == 0 { ConstantTeeth(l); }
  }

  /** The inner loop: digit i of the plain comb. */
  method ClassicalDigit(d: nat, w: nat, m: Mpi, i: nat) returns (x: bv8)
    requires w <= 7 && i < d
    ensures Classical(x, i, m.Abs(), w, d)
  {
    hide *;
    x := 0;
    var j := 0;
    NoClassicalTeeth(i, m.Abs(), 0, d);
    while j < w
      invariant j <= w
      invariant Classical(x, i, m.Abs(), j, d)
    {
      var b := GetBit(m, i + d * j);
      ClassicalStep(x, b, j, i, m.Abs(), d);
      x := Or8(x, ShiftedBit(b, j));
      j := j + 1;
    }
  }

  /** The whole array before the second loop. */
  ghost predicate ClassicalDigits(y: seq<bv8>, m: nat, w: nat, d: nat) {
    |y| == d + 1 && forall i :: 0 <= i <= d ==> Classical(y[i], i, m, w, d)
  }

  /** memset, and the first loop. */
  method ClassicalComb(x: array<bv8>, d: nat, w: nat, m: Mpi)
    requires w <= 7 && x.Length == d + 1
    modifies x
    ensures ClassicalDigits(x[..], m.Abs(), w, d)
  {
    hide Classical;
    forall k | 0 <= k <= d { x[k] := 0; }
    var i := 0;
    while i < d
      invariant i <= d
      invariant forall k :: 0 <= k < i ==> Classical(x[k], k, m.Abs(), w, d)
      invariant x[d] == 0
    {
      x[i] := ClassicalDigit(d, w, m, i);
      i := i + 1;
    }
    NoClassicalTeeth(d, m.Abs(), w, d);
  }

  // ---- What the recoding achieves ---------------------------------------------------------

  lemma LowOneBit(m: nat, n: nat)
    ensures Low(m, n + 1) == Low(m, n) + Pow(2, n) * BitAt(m, n)
  {
    hide Pow, Shr;
    PowOne(2);
    LowSplit(m, n, 1);
  }

  /** One tooth of the classical digits: d consecutive bits of the scalar. */
  lemma {:induction false} ClassicalSum(y: seq<bv8>, m: nat, w: nat, d: nat, n: nat, j: nat)
    requires ClassicalDigits(y, m, w, d) && n <= d && j < w <= 7
    ensures ToothSum(y, n, j) == Low(Shr(m, d * j), n)
  {
    hide Pow, Shr, Low, Tooth;
    if n == 0 {
      PowOne(2);
      ShrUnique(Shr(m, d * j), 0, Shr(m, d * j), 0);
    } else {
      ClassicalSum(y, m, w, d, n - 1, j);
      LowOneBit(Shr(m, d * j), n - 1);
      ShrTwice(m, d * j, n - 1);
      LastTooth(y, n, j);
      assert Classical(y[n - 1], n - 1, m, w, d);
      assert BitAt(m, (n - 1) + d * j) == BitAt(m, d * j + (n - 1));
    }
  }

  lemma {:induction false} ToothSumBound(x: seq<bv8>, n: nat, j: nat)
    requires n <= |x| && j < 7
    ensures 0 - Pow(2, n) < ToothSum(x, n, j) < Pow(2, n)
  {
    hide Tooth, Pow;
    PowOne(2);
    if n > 0 {
      ToothSumBound(x, n - 1, j);
      LastTooth(x, n, j);
      PowSucc(2, n - 1);
      SmallFactor(Pow(2, n - 1), Tooth(x[n - 1], j), Tooth(x[n - 1], 7));
    }
  }

  lemma SmallFactor(h: int, t: int, s: int)
    requires 0 <= t <= 1 && 0 <= s <= 1 && h > 0
    ensures 0 - h <= h * (t - 2 * (s * t)) <= h
  {
  }

  /** The carry out of position d is zero, bit for bit. */
  lemma NoCarryOut(x: seq<bv8>, m: nat, w: nat, d: nat, y: seq<bv8>, c: bv8, j: nat)
    requires |x| == d + 1 && ClassicalDigits(y, m, w, d) && Recoded(x, y, d + 1, c, w) && j < 7
    ensures Tooth(c, j) == 0
    ensures ToothSum(x, d + 1, j) == ToothSum(y, d, j)
  {
    hide Tooth, Pow, ToothSum;
    ToothSumBound(x, d, j);
    ToothSumBound(y, d, j);
    LastTooth(x, d + 1, j);
    LastTooth(y, d + 1, j);
    PowSucc(2, d);
    assert Classical(y[d], d, m, w, d);
    assert Tooth(x[d], 7) == 0;
    var tx, tc := Tooth(x[d], j), Tooth(c, j);
    assert Pow(2, d) * tx >= 0;
    if tc == 1 { assert false; }
    assert Pow(2, d + 1) * tc == 0;
  }

  lemma {:induction false} WeightedIsScalar(x: seq<bv8>, y: seq<bv8>, m: nat, w: nat, v: nat, d: nat, c: bv8)
    requires |x| == d + 1 && ClassicalDigits(y, m, w, d) && Recoded(x, y, d + 1, c, w) && v <= w <= 7
    ensures WeightedTeeth(x, d + 1, v, d) == Low(m, d * v)
  {
    hide Recoded, ClassicalDigits, ToothSum, Pow, Shr, Low;
    if v == 0 {
      PowOne(2);
      assert d * v == 0;
      ShrUnique(m, 0, m, 0);
      assert WeightedTeeth(x, d + 1, v, d) == 0;
    } else {
      WeightedIsScalar(x, y, m, w, v - 1, d, c);
      NoCarryOut(x, m, w, d, y, c, v - 1);
      ClassicalSum(y, m, w, d, d, v - 1);
      LowSplit(m, d * (v - 1), d);
      assert d * (v - 1) + d == d * v;
      assert WeightedTeeth(x, d + 1, v, d)
          == WeightedTeeth(x, d + 1, v - 1, d) + ToothSum(x, d + 1, v - 1) * Pow(2, d * (v - 1));
    }
  }

  /** The recoding of m: d + 1 odd digits below 2^w which, with their signs, sum to m; each tooth
      alone sums to its d bits of m. */
  ghost predicate IsRecoding(x: seq<bv8>, m: nat, w: nat, d: nat)
    requires w <= 7
  {
    && |x| == d + 1
    && (forall k :: 0 <= k <= d ==> Tooth(x[k], 0) == 1 && OnlyTeeth(x[k], w))
    && CombValue(x, d + 1, w, d) == m
    && forall j :: 0 <= j < w ==> ToothSum(x, d + 1, j) == Low(Shr(m, d * j), d)
  }

  lemma RecodingStart(x: seq<bv8>, m: nat, w: nat, d: nat)
    requires ClassicalDigits(x, m, w, d) && m % 2 == 1 && 0 < w <= 7 && d > 0
    ensures Recoded(x, x, 1, 0, w)
  {
    hide Tooth, Pow, ToothSum, Shr;
    assert forall k :: 0 <= k <= d ==> Classical(x[k], k, m, w, d);
    forall j | 0 <= j < 8 ensures Tooth(0, j) == 0 { ConstantTeeth(j); }
    assert d * 0 == 0;
    PowOne(2);
    ShrUnique(m, 0, m, 0);
    assert Tooth(x[0], 0) == ClassicalTooth(m, 0, 0, w, d) == BitAt(m, 0 + d * 0) == 1;
    assert Pow(2, 1) * 0 == 0;
  }

  lemma RecodingEnd(x: seq<bv8>, y: seq<bv8>, m: nat, w: nat, d: nat, c: bv8)
    requires |x| == d + 1 && ClassicalDigits(y, m, w, d) && Recoded(x, y, d + 1, c, w) && w <= 7
    requires BitLen(m) <= w * d
    ensures IsRecoding(x, m, w, d)
  {
    hide Tooth, Pow, ToothSum, Low, Shr, ClassicalDigits;
    WeightedIsScalar(x, y, m, w, w, d, c);
    LowWhole(m, d * w);
    ExchangeSums(x, d + 1, w, d);
    forall j | 0 <= j < w ensures ToothSum(x, d + 1, j) == Low(Shr(m, d * j), d) {
      NoCarryOut(x, m, w, d, y, c, j);
      ClassicalSum(y, m, w, d, d, j);
    }
  }

  // ---- The upper digits -------------------------------------------------------------------

  /** The digits from i on, as the main loop of ecp_mul_comb_core adds them up. */
  ghost function TopValue(x: seq<bv8>, i: nat, w: nat, d: nat): int
    requires i <= |x| && w <= 7
    decreases |x| - i
  {
    if i == |x| then 0 else 2 * TopValue(x, i + 1, w, d) + DigitSign(x[i]) * DigitValue(x[i], w, d)
  }

  /** The same for one tooth alone. */
  ghost function TopTooth(x: seq<bv8>, i: nat, j: nat): int
    requires i <= |x| && j < 7
    decreases |x| - i
  {
    if i == |x| then 0 else 2 * TopTooth(x, i + 1, j) + DigitSign(x[i]) * Tooth(x[i], j)
  }

  ghost function TopWeighted(x: seq<bv8>, i: nat, w: nat, d: nat): int
    requires i <= |x| && w <= 7
  {
    if w == 0 then 0 else TopWeighted(x, i, w - 1, d) + TopTooth(x, i, w - 1) * Pow(2, d * (w - 1))
  }

  lemma {:induction false} TopDigits(x: seq<bv8>, i: nat, w: nat, d: nat)
    requires i <= |x| && w <= 7
    ensures CombValue(x, |x|, w, d) == CombValue(x, i, w, d) + Pow(2, i) * TopValue(x, i, w, d)
    decreases |x| - i
  {
    hide Pow, DigitSign, DigitValue;
    if i < |x| {
      TopDigits(x, i + 1, w, d);
      PowSucc(2, i);
      TopAlgebra(Pow(2, i), TopValue(x, i + 1, w, d), DigitSign(x[i]) * DigitValue(x[i], w, d));
    }
  }

  lemma TopAlgebra(h: int, k: int, e: int)
    ensures h * e + (2 * h) * k == h * (2 * k + e)
  {
  }

  lemma {:induction false} TopTeeth(x: seq<bv8>, i: nat, j: nat)
    requires i <= |x| && j < 7
    ensures ToothSum(x, |x|, j) == ToothSum(x, i, j) + Pow(2, i) * TopTooth(x, i, j)
    decreases |x| - i
  {
    hide Pow, DigitSign, Tooth;
    if i < |x| {
      TopTeeth(x, i + 1, j);
      PowSucc(2, i);
      TopAlgebra(Pow(2, i), TopTooth(x, i + 1, j), DigitSign(x[i]) * Tooth(x[i], j));
    }
  }

  /** A tooth's upper digits stay between zero and the tooth's whole sum. */
  lemma TopToothRange(x: seq<bv8>, i: nat, j: nat)
    requires i <= |x| && j < 7 && ToothSum(x, |x|, j) >= 0
    ensures 0 <= TopTooth(x, i, j) <= ToothSum(x, |x|, j)
  {
    hide *;
    TopTeeth(x, i, j);
    ToothSumBound(x, i, j);
    PowMono(2, 0, i);
    PowOne(2);
    BetweenAlgebra(Pow(2, i), TopTooth(x, i, j), ToothSum(x, |x|, j), ToothSum(x, i, j));
  }

  lemma BetweenAlgebra(h: int, k: int, t: int, s: int)
    requires h >= 1 && t >= 0 && t == s + h * k && -h < s < h
    ensures 0 <= k <= t
  {
    if k < 0 { MulMono(k, -1, h); }
    if k > t {
      MulMono(t + 1, k, h);
      MulMono(1, h, t);
    }
  }

  lemma {:induction false} TopParts(x: seq<bv8>, i: nat, w: nat, d: nat)
    requires i <= |x| && w <= 7
    ensures WeightedTeeth(x, |x|, w, d) == WeightedTeeth(x, i, w, d) + Pow(2, i) * TopWeighted(x, i, w, d)
  {
    hide Pow, ToothSum, TopTooth;
    if w > 0 {
      TopParts(x, i, w - 1, d);
      TopTeeth(x, i, w - 1);
      PartAlgebra(ToothSum(x, i, w - 1), Pow(2, i), TopTooth(x, i, w - 1), Pow(2, d * (w - 1)),
          TopWeighted(x, i, w - 1, d));
    } else {
      assert Pow(2, i) * 0 == 0;
    }
  }

  lemma PartAlgebra(s: int, h: int, k: int, e: int, v: int)
    ensures (s + h * k) * e + h * v == s * e + h * (v + k * e)
  {
    MulDist(s, h * k, e);
    MulAssoc(h, k, e);
  }

  lemma {:induction false} TopWeightedRange(x: seq<bv8>, i: nat, w: nat, d: nat)
    requires i <= |x| && 1 <= w <= 7 && forall j :: 0 <= j < w ==> ToothSum(x, |x|, j) >= 0
    ensures TopTooth(x, i, 0) <= TopWeighted(x, i, w, d) <= WeightedTeeth(x, |x|, w, d)
  {
    hide Pow, ToothSum, TopTooth;
    TopToothRange(x, i, w - 1);
    MulNonneg(TopTooth(x, i, w - 1), Pow(2, d * (w - 1)));
    MulMono(TopTooth(x, i, w - 1), ToothSum(x, |x|, w - 1), Pow(2, d * (w - 1)));
    if w > 1 {
      TopWeightedRange(x, i, w - 1, d);
    } else {
      PowOne(2);
      assert d * 0 == 0;
      assert TopWeighted(x, i, 0, d) == 0 && WeightedTeeth(x, |x|, 0, d) == 0;
    }
  }

  lemma TopToothOdd(x: seq<bv8>, i: nat)
    requires i < |x| && Tooth(x[i], 0) == 1
    ensures TopTooth(x, i, 0) % 2 == 1
  {
    hide Tooth;
    var s := DigitSign(x[i]);
    assert s * 1 == s;
  }

  /** The accumulator of the main loop is never zero and never above the scalar: no digit is too
      large for the scalar, since no tooth is. */
  lemma AccumulatorRange(x: seq<bv8>, m: nat, w: nat, d: nat, i: nat)
    requires 1 <= w <= 7 && i <= d && IsRecoding(x, m, w, d)
    ensures 1 <= TopValue(x, i, w, d) <= m
    ensures TopValue(x, 0, w, d) == m
  {
    hide Tooth, Pow, ToothSum, TopTooth, CombValue, TopValue, WeightedTeeth, TopWeighted, Shr, Low, OnlyTeeth;
    forall j | 0 <= j < w ensures ToothSum(x, |x|, j) >= 0 {
      assert ToothSum(x, |x|, j) == Low(Shr(m, d * j), d);
    }
    AccumulatorIs(x, i, w, d);
    AccumulatorIs(x, 0, w, d);
    TopWeightedRange(x, i, w, d);
    TopToothRange(x, i, 0);
    TopToothOdd(x, i);
    ExchangeSums(x, d + 1, w, d);
    TopDigits(x, 0, w, d);
    PowOne(2);
    NoneSummed(x, w, d);
  }

  lemma NoneSummed(x: seq<bv8>, w: nat, d: nat)
    requires w <= 7
    ensures CombValue(x, 0, w, d) == 0
  {
  }

  lemma AccumulatorIs(x: seq<bv8>, i: nat, w: nat, d: nat)
    requires i <= |x| && w <= 7
    ensures TopValue(x, i, w, d) == TopWeighted(x, i, w, d)
  {
    hide *;
    TopDigits(x, i, w, d);
    TopParts(x, i, w, d);
    ExchangeSums(x, |x|, w, d);
    ExchangeSums(x, i, w, d);
    PowMono(2, 0, i);
    PowOne(2);
    CancelPower(Pow(2, i), TopValue(x, i, w, d), TopWeighted(x, i, w, d));
  }

  lemma CancelPower(h: int, a: int, b: int)
    requires h >= 1 && h * a == h * b
    ensures a == b
  {
  }

  /** A tooth that stands for no bits of the scalar is in no digit. */
  lemma UnusedTooth(x: seq<bv8>, m: nat, w: nat, d: nat, j: nat, i: nat)
    requires j < w <= 7 && i <= d && IsRecoding(x, m, w, d) && m < Pow(2, d * j)
    ensures Tooth(x[i], j) == 0
  {
    hide Tooth, Pow, ToothSum, CombValue, OnlyTeeth, Low, Shr;
    ShrUnique(m, d * j, 0, m);
    PowMono(2, 0, d);
    PowOne(2);
    ShrUnique(0, d, 0, 0);
    TopToothRange(x, i, j);
    TopToothRange(x, i + 1, j);
    assert DigitSign(x[i]) * Tooth(x[i], j) == 0;
  }

  /** ecp_comb_fixed.  x has one byte per digit; m is odd and of at most w * d bits, as the
      comment above the C function requires. */
  method CombFixed(x: array<bv8>, d: nat, w: nat, m: Mpi)
    requires 2 <= w <= 7 && x.Length == d + 1
    requires m.Abs() % 2 == 1 && BitLen(m.Abs()) <= w * d
    modifies x
    ensures IsRecoding(x[..], m.Abs(), w, d)
  {
    hide *;
    assert d > 0 by { BitLenPositive(m.Abs(), w, d); }
    ClassicalComb(x, d, w, m);
    ghost var y := x[..];
    RecodingStart(y, m.Abs(), w, d);
    var c: bv8 := 0;
    var i := 1;
    while i <= d
      invariant 1 <= i <= d + 1
      invariant Recoded(x[..], y, i, c, w)
    {
      RecodeStep(x[..], y, i, c, w);
      c := RecodeDigit(x, i, c);
      i := i + 1;
    }
    RecodingEnd(x[..], y, m.Abs(), w, d, c);
  }

  lemma BitLenPositive(m: nat, w: nat, d: nat)
    requires m % 2 == 1 && BitLen(m) <= w * d
    ensures d > 0
  {
  }
}
