/** The arithmetic of AesBytes is that of the field of section 4.2 of FIPS 197: polynomials over GF(2)
    modulo x^8 + x^4 + x^3 + x + 1; and the S-box of section 5.1.1 is built from its inverses. */
module AesField {
  import opened ByteXor
  import opened AesBytes

  /** Addition of polynomials over GF(2), their coefficients in the bits. */
  function Add(x: bv16, y: bv16): bv16 { x ^ y }

  function Part(y: bv8, mask: bv8, m: bv16): bv16 { if y & mask != 0 then m else 0 }

  /** Their product; m has at most nine coefficients. */
  function Product(y: bv8, m: bv16): bv16 {
    Add(Add(Add(Part(y, 0x01, m), Part(y, 0x02, m << 1)), Add(Part(y, 0x04, m << 2), Part(y, 0x08, m << 3))),
        Add(Add(Part(y, 0x10, m << 4), Part(y, 0x20, m << 5)), Add(Part(y, 0x40, m << 6), Part(y, 0x80, m << 7))))
  }

  /** The byte r is what is left of s modulo 0x11B, with the quotient q. */
  predicate Leaves(s: bv16, q: bv8, r: bv8) {
    s == Add(Product(q, 0x11B), r as bv16)
  }

  // ---- Sums -------------------------------------------------------------------------------

  lemma SumAssoc(x: bv16, y: bv16, z: bv16)
    ensures Add(Add(x, y), z) == Add(x, Add(y, z))
  {
  }

  lemma SumComm(x: bv16, y: bv16)
    ensures Add(x, y) == Add(y, x)
  {
  }

  lemma SumSmall(m: bv16)
    ensures Add(m, m) == 0 && Add(m, 0) == m && Add(0, m) == m
  {
  }

  lemma AddSwap(a: bv16, b: bv16, c: bv16, d: bv16)
    ensures Add(Add(a, b), Add(c, d)) == Add(Add(a, c), Add(b, d))
  {
    hide Add;
    SumAssoc(a, b, Add(c, d));
    SumAssoc(b, c, d);
    SumComm(b, c);
    SumAssoc(c, b, d);
    SumAssoc(a, c, Add(b, d));
  }

  /** A bit of a sum. */
  lemma BitSum(y: bv8, z: bv8, mask: bv8)
    requires mask == 0x01 || mask == 0x02 || mask == 0x04 || mask == 0x08
          || mask == 0x10 || mask == 0x20 || mask == 0x40 || mask == 0x80
    ensures (Xor(y, z) & mask != 0) == ((y & mask != 0) != (z & mask != 0))
  {
  }

  lemma PartSum(y: bv8, z: bv8, mask: bv8, m: bv16)
    requires mask == 0x01 || mask == 0x02 || mask == 0x04 || mask == 0x08
          || mask == 0x10 || mask == 0x20 || mask == 0x40 || mask == 0x80
    ensures Part(Xor(y, z), mask, m) == Add(Part(y, mask, m), Part(z, mask, m))
  {
    hide Add, Xor;
    BitSum(y, z, mask);
    SumSmall(m);
    SumSmall(0);
  }

  lemma ProductSum(y: bv8, z: bv8, m: bv16)
    ensures Product(Xor(y, z), m) == Add(Product(y, m), Product(z, m))
  {
    hide Add, Part, Xor;
    PartSum(y, z, 0x01, m);
    PartSum(y, z, 0x02, m << 1);
    PartSum(y, z, 0x04, m << 2);
    PartSum(y, z, 0x08, m << 3);
    PartSum(y, z, 0x10, m << 4);
    PartSum(y, z, 0x20, m << 5);
    PartSum(y, z, 0x40, m << 6);
    PartSum(y, z, 0x80, m << 7);
    EightSums(Part(y, 0x01, m), Part(y, 0x02, m << 1), Part(y, 0x04, m << 2), Part(y, 0x08, m << 3),
              Part(y, 0x10, m << 4), Part(y, 0x20, m << 5), Part(y, 0x40, m << 6), Part(y, 0x80, m << 7),
              Part(z, 0x01, m), Part(z, 0x02, m << 1), Part(z, 0x04, m << 2), Part(z, 0x08, m << 3),
              Part(z, 0x10, m << 4), Part(z, 0x20, m << 5), Part(z, 0x40, m << 6), Part(z, 0x80, m << 7));
  }

  lemma EightSums(a: bv16, b: bv16, c: bv16, d: bv16, e: bv16, f: bv16, g: bv16, h: bv16,
      a': bv16, b': bv16, c': bv16, d': bv16, e': bv16, f': bv16, g': bv16, h': bv16)
    ensures Add(Add(Add(Add(a, a'), Add(b, b')), Add(Add(c, c'), Add(d, d'))),
                Add(Add(Add(e, e'), Add(f, f')), Add(Add(g, g'), Add(h, h'))))
         == Add(Add(Add(Add(a, b), Add(c, d)), Add(Add(e, f), Add(g, h))),
                Add(Add(Add(a', b'), Add(c', d')), Add(Add(e', f'), Add(g', h'))))
  {
    hide Add;
    AddSwap(a, a', b, b');
    AddSwap(c, c', d, d');
    AddSwap(e, e', f, f');
    AddSwap(g, g', h, h');
    AddSwap(Add(a, b), Add(a', b'), Add(c, d), Add(c', d'));
    AddSwap(Add(e, f), Add(e', f'), Add(g, h), Add(g', h'));
    AddSwap(Add(Add(a, b), Add(c, d)), Add(Add(a', b'), Add(c', d')),
            Add(Add(e, f), Add(g, h)), Add(Add(e', f'), Add(g', h')));
  }

  lemma ByteSum(r: bv8, t: bv8)
    ensures Xor(r, t) as bv16 == Add(r as bv16, t as bv16)
  {
  }

  /** Remainders add up. */
  lemma LeavesSum(s: bv16, q: bv8, r: bv8, s': bv16, q': bv8, r': bv8)
    requires Leaves(s, q, r) && Leaves(s', q', r')
    ensures Leaves(Add(s, s'), Xor(q, q'), Xor(r, r'))
  {
    hide Add, Product, Xor;
    ProductSum(q, q', 0x11B);
    ByteSum(r, r');
    AddSwap(Product(q, 0x11B), r as bv16, Product(q', 0x11B), r' as bv16);
  }

  // ---- Doubling ---------------------------------------------------------------------------

  function TopBit(x: bv8): bv8 { if x & 0x80 != 0 then 1 else 0 }

  /** Doubling a byte: the polynomial times x, less 0x11B when that has nine coefficients. */
  lemma XtimeLeaves(x: bv8)
    ensures Leaves((x as bv16) << 1, TopBit(x), Xtime(x))
  {
  }

  lemma DoubleProduct(q: bv8)
    requires q < 0x80
    ensures Product(q, 0x11B) << 1 == Product(q << 1, 0x11B)
  {
  }

  lemma DoubleSum(x: bv16, y: bv16)
    ensures Add(x, y) << 1 == Add(x << 1, y << 1)
  {
  }

  lemma LeavesDouble(s: bv16, q: bv8, r: bv8)
    requires Leaves(s, q, r) && q < 0x80
    ensures Leaves(s << 1, Xor(q << 1, TopBit(r)), Xtime(r))
  {
    hide Add, Product, Xor, Xtime, TopBit;
    DoubleProduct(q);
    DoubleSum(Product(q, 0x11B), r as bv16);
    XtimeLeaves(r);
    ProductSum(q << 1, TopBit(r), 0x11B);
    SumAssoc(Product(q << 1, 0x11B), Product(TopBit(r), 0x11B), Xtime(r) as bv16);
  }

  lemma QuotientGrows(q: bv8, t: bv8, m: bv8)
    requires q < m <= 0x40 && t <= 1
    ensures Xor(q << 1, t) < m << 1
  {
  }

  // ---- Products ---------------------------------------------------------------------------

  /** Multiply for all factors. */
  function FieldProduct(x: bv8, y: bv8): bv8 {
    var x2 := Xtime(x);
    var x4 := Xtime(x2);
    var x8 := Xtime(x4);
    var x16 := Xtime(x8);
    var x32 := Xtime(x16);
    var x64 := Xtime(x32);
    Xor(Xor4(Gate(y, 1, x), Gate(y, 2, x2), Gate(y, 4, x4), Gate(y, 8, x8)),
        Xor4(Gate(y, 0x10, x16), Gate(y, 0x20, x32), Gate(y, 0x40, x64), Gate(y, 0x80, Xtime(x64))))
  }

  lemma SmallFactor(x: bv8, y: bv8)
    requires y < 32
    ensures FieldProduct(x, y) == Multiply(x, y)
  {
    hide Xtime, Xor;
    HighBits(y);
    var g := Gate(y, 0x10, Xtime(Xtime(Xtime(Xtime(x)))));
    XorSelf(g);
    XorSelf(0);
  }

  lemma HighBits(y: bv8)
    requires y < 32
    ensures y & 0x20 == 0 && y & 0x40 == 0 && y & 0x80 == 0
  {
  }

  lemma LeavesPart(y: bv8, mask: bv8, s: bv16, q: bv8, r: bv8)
    requires Leaves(s, q, r)
    ensures Leaves(Part(y, mask, s), Gate(y, mask, q), Gate(y, mask, r))
  {
    hide Product, Add;
    ZeroLeaves();
  }

  lemma ZeroLeaves()
    ensures Leaves(0, 0, 0)
  {
  }

  /** One more doubling. */
  lemma NextPower(s: bv16, q: bv8, r: bv8, m: bv8) returns (q': bv8)
    requires Leaves(s, q, r) && q < m <= 0x40
    ensures Leaves(s << 1, q', Xtime(r)) && q' < m << 1
  {
    hide Leaves, Xor, Xtime;
    LeavesDouble(s, q, r);
    q' := Xor(q << 1, TopBit(r));
    QuotientGrows(q, TopBit(r), m);
  }

  lemma Shifts(m: bv16)
    ensures (m << 1) << 1 == m << 2 && (m << 2) << 1 == m << 3 && (m << 3) << 1 == m << 4
    ensures (m << 4) << 1 == m << 5 && (m << 5) << 1 == m << 6 && (m << 6) << 1 == m << 7
  {
  }

  lemma ByteLeaves(x: bv8)
    ensures Leaves(x as bv16, 0, x)
  {
  }

  /** The product of bytes is the product of polynomials modulo 0x11B. */
  lemma FieldProductLeaves(x: bv8, y: bv8) returns (q: bv8)
    ensures Leaves(Product(y, x as bv16), q, FieldProduct(x, y))
  {
    hide Leaves, Add, Part, Gate, Xor, Xtime;
    var m := x as bv16;
    Shifts(m);
    ByteLeaves(x);
    var x2 := Xtime(x);
    var x4 := Xtime(x2);
    var x8 := Xtime(x4);
    var x16 := Xtime(x8);
    var x32 := Xtime(x16);
    var x64 := Xtime(x32);
    var q2 := NextPower(m, 0, x, 1);
    var q4 := NextPower(m << 1, q2, x2, 2);
    var q8 := NextPower(m << 2, q4, x4, 4);
    var q16 := NextPower(m << 3, q8, x8, 8);
    var q32 := NextPower(m << 4, q16, x16, 16);
    var q64 := NextPower(m << 5, q32, x32, 32);
    var q128 := NextPower(m << 6, q64, x64, 64);
    var a := FourParts(y, 0x01, 0x02, 0x04, 0x08, m, m << 1, m << 2, m << 3, 0, q2, q4, q8, x, x2, x4, x8);
    var b := FourParts(y, 0x10, 0x20, 0x40, 0x80, m << 4, m << 5, m << 6, m << 7,
                       q16, q32, q64, q128, x16, x32, x64, Xtime(x64));
    q := Xor(a, b);
    LeavesSum(Add(Add(Part(y, 0x01, m), Part(y, 0x02, m << 1)), Add(Part(y, 0x04, m << 2), Part(y, 0x08, m << 3))),
              a, Xor4(Gate(y, 1, x), Gate(y, 2, x2), Gate(y, 4, x4), Gate(y, 8, x8)),
              Add(Add(Part(y, 0x10, m << 4), Part(y, 0x20, m << 5)), Add(Part(y, 0x40, m << 6), Part(y, 0x80, m << 7))),
              b, Xor4(Gate(y, 0x10, x16), Gate(y, 0x20, x32), Gate(y, 0x40, x64), Gate(y, 0x80, Xtime(x64))));
  }

  lemma FourParts(y: bv8, i: bv8, j: bv8, k: bv8, l: bv8, s: bv16, t: bv16, u: bv16, v: bv16,
      a: bv8, b: bv8, c: bv8, d: bv8, e: bv8, f: bv8, g: bv8, h: bv8)
    returns (q: bv8)
    requires Leaves(s, a, e) && Leaves(t, b, f) && Leaves(u, c, g) && Leaves(v, d, h)
    ensures Leaves(Add(Add(Part(y, i, s), Part(y, j, t)), Add(Part(y, k, u), Part(y, l, v))), q,
                   Xor4(Gate(y, i, e), Gate(y, j, f), Gate(y, k, g), Gate(y, l, h)))
  {
    hide Leaves, Add, Part, Gate, Xor;
    LeavesPart(y, i, s, a, e);
    LeavesPart(y, j, t, b, f);
    LeavesPart(y, k, u, c, g);
    LeavesPart(y, l, v, d, h);
    LeavesSum(Part(y, i, s), Gate(y, i, a), Gate(y, i, e), Part(y, j, t), Gate(y, j, b), Gate(y, j, f));
    LeavesSum(Part(y, k, u), Gate(y, k, c), Gate(y, k, g), Part(y, l, v), Gate(y, l, d), Gate(y, l, h));
    q := Xor(Xor(Gate(y, i, a), Gate(y, j, b)), Xor(Gate(y, k, c), Gate(y, l, d)));
    LeavesSum(Add(Part(y, i, s), Part(y, j, t)), Xor(Gate(y, i, a), Gate(y, j, b)), Xor(Gate(y, i, e), Gate(y, j, f)),
              Add(Part(y, k, u), Part(y, l, v)), Xor(Gate(y, k, c), Gate(y, l, d)), Xor(Gate(y, k, g), Gate(y, l, h)));
  }

  /** Multiply of tiny-AES is the product of polynomials modulo x^8 + x^4 + x^3 + x + 1. */
  lemma MultiplyLeaves(x: bv8, y: bv8) returns (q: bv8)
    requires y < 32
    ensures Product(y, x as bv16) == Add(Product(q, 0x11B), Multiply(x, y) as bv16)
  {
    hide FieldProduct, Multiply, Product, Add;
    SmallFactor(x, y);
    q := FieldProductLeaves(x, y);
  }

  /** There is only one such remainder. */
  lemma RemainderUnique(s: bv16, q: bv8, r: bv8, q': bv8, r': bv8)
    requires Leaves(s, q, r) && Leaves(s, q', r')
    ensures r == r'
  {
    hide Leaves, Product, Add, Xor;
    LeavesSum(s, q, r, s, q', r');
    SumSmall(s);
    NoSmallMultiple(Xor(q, q'), Xor(r, r'));
    SameByte(r, r');
  }

  lemma NoSmallMultiple(q: bv8, r: bv8)
    requires Leaves(0, q, r)
    ensures r == 0
  {
  }

  lemma SameByte(r: bv8, t: bv8)
    requires Xor(r, t) == 0
    ensures r == t
  {
  }

  // ---- The S-box --------------------------------------------------------------------------

  /** The affine transformation of section 5.1.1, with its constant. */
  function Affine(z: bv8): bv8 {
    z ^ ((z << 1) | (z >> 7)) ^ ((z << 2) | (z >> 6)) ^ ((z << 3) | (z >> 5)) ^ ((z << 4) | (z >> 4)) ^ 0x63
  }

  function Inverse(x: bv8): bv8 {
    var s := FSb(x);
    ((s << 1) | (s >> 7)) ^ ((s << 3) | (s >> 5)) ^ ((s << 6) | (s >> 2)) ^ 0x05
  }

  lemma AffineInverse(x: bv8)
    ensures FSb(x) == Affine(Inverse(x))
  {
    hide FSb;
  }

  lemma Quarter0Inverse(x: bv8)
    requires x >> 6 == 0 && x != 0
    ensures FieldProduct(x, Inverse(x)) == 1
  {
  }

  lemma Quarter1Inverse(x: bv8)
    requires x >> 6 == 1
    ensures FieldProduct(x, Inverse(x)) == 1
  {
  }

  lemma Quarter2Inverse(x: bv8)
    requires x >> 6 == 2
    ensures FieldProduct(x, Inverse(x)) == 1
  {
  }

  lemma Quarter3Inverse(x: bv8)
    requires x >> 6 == 3
    ensures FieldProduct(x, Inverse(x)) == 1
  {
  }

  lemma ZeroInverse()
    ensures Inverse(0) == 0
  {
  }

  lemma Quarters(x: bv8)
    ensures x >> 6 == 0 || x >> 6 == 1 || x >> 6 == 2 || x >> 6 == 3
  {
  }

  /** The S-box of a byte is the affine image of its inverse in the field; zero stands for its own. */
  lemma SBoxIsInverse(x: bv8) returns (z: bv8, q: bv8)
    ensures FSb(x) ==
      z ^ ((z << 1) | (z >> 7)) ^ ((z << 2) | (z >> 6)) ^ ((z << 3) | (z >> 5)) ^ ((z << 4) | (z >> 4)) ^ 0x63
    ensures if x == 0 then z == 0 else Product(z, x as bv16) == Add(Product(q, 0x11B), 1)
  {
    hide FSb, Inverse, FieldProduct, Product, Add;
    z, q := Inverse(x), 0;
    AffineInverse(x);
    if x == 0 {
      ZeroInverse();
    } else {
      q := FieldProductLeaves(x, z);
      Quarters(x);
      if x >> 6 == 0 {
        Quarter0Inverse(x);
      } else if x >> 6 == 1 {
        Quarter1Inverse(x);
      } else if x >> 6 == 2 {
        Quarter2Inverse(x);
      } else {
        Quarter3Inverse(x);
      }
    }
  }
}
