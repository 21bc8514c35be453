/** Exclusive or of bytes. */
module ByteXor {
  /** C's ^ on unsigned char, named so that proofs can treat it as one step. */
  function Xor(x: bv8, y: bv8): bv8 { x ^ y }

  lemma XorAssoc(a: bv8, b: bv8, c: bv8)
    ensures Xor(Xor(a, b), c) == Xor(a, Xor(b, c))
  {
  }

  lemma XorComm(a: bv8, b: bv8)
    ensures Xor(a, b) == Xor(b, a)
  {
  }

  lemma XorSelf(a: bv8)
    ensures Xor(a, a) == 0 && Xor(a, 0) == a && Xor(0, a) == a
  {
  }

  /** (a + b) + (c + d) == (a + c) + (b + d), for exclusive or. */
  lemma Swap(a: bv8, b: bv8, c: bv8, d: bv8)
    ensures Xor(Xor(a, b), Xor(c, d)) == Xor(Xor(a, c), Xor(b, d))
  {
    hide Xor;
    XorAssoc(a, b, Xor(c, d));
    XorAssoc(b, c, d);
    XorComm(b, c);
    XorAssoc(c, b, d);
    XorAssoc(a, c, Xor(b, d));
  }

  lemma XorTwice(a: bv8, k: bv8)
    ensures Xor(Xor(a, k), k) == a
  {
    hide Xor;
    XorAssoc(a, k, k);
    XorSelf(k);
    XorSelf(a);
  }

  /** (a + k) + (k + b) == a + b */
  lemma Join(a: bv8, k: bv8, b: bv8)
    ensures Xor(Xor(a, k), Xor(k, b)) == Xor(a, b)
  {
    hide Xor;
    XorAssoc(a, k, Xor(k, b));
    XorAssoc(k, k, b);
    XorSelf(k);
    XorSelf(b);
  }

  /** a + (b + c) == (a + c) + b */
  lemma Slide(a: bv8, b: bv8, c: bv8)
    ensures Xor(a, Xor(b, c)) == Xor(Xor(a, c), b)
  {
    hide Xor;
    XorComm(b, c);
    XorAssoc(a, c, b);
  }
}
