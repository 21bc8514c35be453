/** ecp_modp of ecp.c: the fast reductions, and the few additions or subtractions of the prime
    that bring their result into range. */
module EcpModp {
  import opened Arith
  import opened Bits
  import opened Limbs
  import opened Bignum
  import opened BignumAdd
  import opened BignumShift
  import opened BignumDiv
  import opened FastReduction

  /** The field of a group: its prime, and which fast reduction, if any, grp->modp is. */
  datatype Field = General(P: Mpi) | Nist224(P: Mpi) | Nist256(P: Mpi) | Nist384(P: Mpi)

  function PBits(f: Field): NistBits
    requires !f.General?
  {
    match f case Nist224(_) => 224 case Nist256(_) => 256 case Nist384(_) => 384
  }

  function PrimeOf(f: Field): nat
    requires !f.General?
  {
    match f case Nist224(_) => P224 case Nist256(_) => P256 case Nist384(_) => P384
  }

  ghost predicate ValidField(f: Field)
    reads f.P
  {
    f.P.Value() > 0 && f.P.p != [] && (f.General? || f.P.Value() == PrimeOf(f))
  }

  /** Two to the bit length is between the prime and its double. */
  lemma PrimeSize(f: Field)
    requires !f.General?
    ensures PrimeOf(f) < Pow(2, PBits(f)) < 2 * PrimeOf(f)
  {
    hide Pow;
    Chunks.R32Power();
    PowAdd(2, 32, 32);
    PowAdd(2, 64, 64);
    PowAdd(2, 128, 64);
    PowAdd(2, 128, 128);
    PowAdd(2, 192, 32);
    PowAdd(2, 256, 128);
  }

  /** grp->modp: a number congruent to N, within eleven times 2^pbits of 0. */
  method QuasiModP(N: Mpi, f: Field)
    requires !f.General? && N.Value() >= 0 && N.Abs() < Pow(2, 2 * PBits(f))
    modifies N
    ensures N.p != [] && Cong(N.Value(), old(N.Abs()), PrimeOf(f))
    ensures -11 * Pow(2, PBits(f)) <= N.Value() < 12 * Pow(2, PBits(f))
  {
    hide Pow, Val, Cong, Rest, WellFormed, Columns224, Columns256, Columns384;
    match f {
      case Nist224(_) =>
        Columns224Reduce(N.Abs());
        TableSize(Columns224(), 7);
        QuasiReduce(N, Columns224(), 224);
      case Nist256(_) =>
        Columns256Reduce(N.Abs());
        TableSize(Columns256(), 8);
        QuasiReduce(N, Columns256(), 256);
      case Nist384(_) =>
        Columns384Reduce(N.Abs());
        TableSize(Columns384(), 12);
        QuasiReduce(N, Columns384(), 384);
    }
  }

  lemma TableSize(columns: seq<seq<int>>, n: nat)
    requires WellFormed(columns, n)
    ensures |columns| == n
  {
  }

  lemma CongShift(x: int, y: int, k: int, m: int)
    requires m > 0 && Cong(x, y, m)
    ensures Cong(x + k * m, y, m)
  {
    ModMultiple(x, k, m);
  }

  /** while( N < 0 ) N += P */
  method RaiseByPrime(N: Mpi, P: Mpi)
    requires N != P && P.Value() > 0 && P.p != [] && N.p != []
    modifies N
    ensures N.p != [] && N.Value() >= 0 && Cong(N.Value(), old(N.Value()), P.Value())
    ensures old(N.Value()) >= 0 ==> N.Value() == old(N.Value())
  {
    hide Pow, Val, Cong;
    BaseFacts();
    ghost var v := N.Value();
    CongReflexive(v, P.Value());
    var negative := NegativeTest(N);
    while negative
      invariant N.p != [] && Cong(N.Value(), v, P.Value()) && negative == (N.Value() < 0)
      invariant v >= 0 ==> N.Value() == v
      decreases 0 - N.Value(), negative
    {
      CongShift(N.Value(), v, 1, P.Value());
      AddMpi(N, N, P);
      negative := NegativeTest(N);
    }
  }

  lemma CongReflexive(x: int, m: int)
    requires m > 0
    ensures Cong(x, x, m)
  {
  }

  /** N->s < 0 && mpi_cmp_int( N, 0 ) != 0 */
  method NegativeTest(N: Mpi) returns (b: bool)
    ensures b == (N.Value() < 0)
  {
    hide Val;
    BaseFacts();
    b := false;
    if N.s < 0 {
      var c := CmpInt(N, 0);
      b := c != 0;
    }
  }

  /** while( N >= P ) N -= P */
  method LowerByPrime(N: Mpi, P: Mpi)
    requires N != P && P.Value() > 0 && P.p != [] && N.p != [] && N.Value() >= 0
    modifies N
    ensures N.p != [] && N.Value() == old(N.Value()) % P.Value()
  {
    hide Pow, Val, Cong;
    ghost var v := N.Value();
    CongReflexive(v, P.Value());
    var c := CmpMpi(N, P);
    CompareMeans(N.Value(), P.Value());
    while c >= 0
      invariant N.p != [] && N.Value() >= 0 && Cong(N.Value(), v, P.Value()) && (c >= 0 <==> N.Value() >= P.Value())
      decreases N.Value(), c
    {
      CongShift(N.Value(), v, -1, P.Value());
      PositiveAbs(N);
      PositiveAbs(P);
      var ok := SubAbs(N, N, P);
      PositiveValue(N);
      c := CmpMpi(N, P);
      CompareMeans(N.Value(), P.Value());
    }
    CongRange(N.Value(), v, P.Value());
  }

  lemma CompareMeans(x: int, y: int)
    ensures Compare(x, y) >= 0 <==> x >= y
  {
  }

  lemma PositiveAbs(N: Mpi)
    requires N.Value() >= 0
    ensures N.Abs() == N.Value()
  {
  }

  lemma PositiveValue(N: Mpi)
    requires N.s == 1
    ensures N.Abs() == N.Value()
  {
  }

  /** The range test of ecp_modp. */
  ghost predicate InRange(v: int, f: Field) {
    f.General? || (v >= 0 && BitLen(v) <= 2 * PBits(f))
  }

  lemma InRangeBound(v: nat, bits: nat)
    requires BitLen(v) <= 2 * bits
    ensures v < Pow(2, 2 * bits)
  {
    hide Pow;
    BitLenBounds(v);
    PowMono(2, BitLen(v), 2 * bits);
  }

  /** ecp_modp: N mod P, or an error when N is negative or of more than twice P's bits. */
  method Modp(N: Mpi, f: Field) returns (st: Status)
    requires N != f.P && ValidField(f) && N.p != []
    modifies N
    ensures st == if InRange(old(N.Value()), f) then Success else BadInputData
    ensures N.p != []
    ensures N.Value() == if st == Success then old(N.Value()) % f.P.Value() else old(N.Value())
  {
    hide Pow, Val, Cong, BitLen;
    if f.General? {
      st := ModMpi(N, N, f.P);
      return;
    }
    var negative := NegativeTest(N);
    if negative { return BadInputData; }
    PositiveAbs(N);
    var bits := Msb(N);
    if bits > 2 * PBits(f) { return BadInputData; }
    InRangeBound(N.Abs(), PBits(f));
    ghost var v := N.Value();
    QuasiModP(N, f);
    ghost var u := N.Value();
    RaiseByPrime(N, f.P);
    SameResidue(N.Value(), u, v, f.P.Value());
    LowerByPrime(N, f.P);
    st := Success;
  }

  lemma SameResidue(x: int, u: int, v: int, m: int)
    requires m > 0 && Cong(x, u, m) && Cong(u, v, m)
    ensures x % m == v % m
  {
  }

  /** Products of two residues are never refused. */
  lemma ProductInRange(x: nat, y: nat, f: Field, p: nat)
    requires f.General? || p == PrimeOf(f)
    requires x < p && y < p
    ensures InRange(x * y, f)
  {
    hide Pow, BitLen;
    if !f.General? {
      PrimeSize(f);
      var w := Pow(2, PBits(f));
      PowAdd(2, PBits(f), PBits(f));
      MulNonneg(x, y);
      MulMono(x, w, y);
      MulMono(y, w, w);
      if x * y > 0 {
        BitLenBounds(x * y);
        if BitLen(x * y) > 2 * PBits(f) { PowMono(2, 2 * PBits(f), BitLen(x * y) - 1); MulStrict(y, w, w); }
      } else {
        BitLenUnique(0, 0);
      }
    }
  }
}
