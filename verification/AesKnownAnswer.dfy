/** The example of appendix C.3 of FIPS 197: a 256-bit key, a block, and its ciphertext, by the round keys
    and the states after every round. */
module AesKnownAnswer {
  import opened ByteXor
  import opened AesBytes
  import opened AesTiny

  /** Round key r from the two before it. */
  function NextKey(r: nat, a: State, b: State): State {
    var w0 := XorQ(a.c0, KeyTemp(4 * r, b.c3));
    var w1 := XorQ(a.c1, w0);
    var w2 := XorQ(a.c2, w1);
    State(w0, w1, w2, XorQ(a.c3, w2))
  }

  lemma KeyStep(key: seq<bv8>, r: nat)
    requires |key| == 32 && 2 <= r <= 14
    ensures var w := Schedule(key, 60);
      RoundKeyAt(w, r) == NextKey(r, RoundKeyAt(w, r - 2), RoundKeyAt(w, r - 1))
  {
    hide XorQ, KeyTemp, QuadAt;
    NextWord(key, 4 * r);
    NextWord(key, 4 * r + 1);
    NextWord(key, 4 * r + 2);
    NextWord(key, 4 * r + 3);
    PlainWord(4 * r + 1, KeyWord(key, 4 * r));
    PlainWord(4 * r + 2, KeyWord(key, 4 * r + 1));
    PlainWord(4 * r + 3, KeyWord(key, 4 * r + 2));
  }

  lemma NextWord(key: seq<bv8>, i: nat)
    requires |key| == 32 && i >= 8
    ensures KeyWord(key, i) == XorQ(KeyWord(key, i - 8), KeyTemp(i, KeyWord(key, i - 1)))
  {
    hide XorQ, KeyTemp, QuadAt;
  }

  lemma PlainWord(i: nat, prev: Quad)
    requires i % 4 != 0
    ensures KeyTemp(i, prev) == prev
  {
    hide SubQ, XorQ;
  }

  /** A column mixed, without products. */
  function Mixed(a: Quad): Quad {
    var x0, x1, x2, x3 := Xtime(a.b0), Xtime(a.b1), Xtime(a.b2), Xtime(a.b3);
    Quad(Xor4(x0, Xor(a.b1, x1), a.b2, a.b3), Xor4(a.b0, x1, Xor(a.b2, x2), a.b3),
         Xor4(a.b0, a.b1, x2, Xor(a.b3, x3)), Xor4(Xor(a.b0, x0), a.b1, a.b2, x3))
  }

  lemma MixedIs(a: Quad)
    ensures MixQ(a) == Mixed(a)
  {
    hide Multiply, Xtime, Xor, Xor4;
    SmallFactors(a.b0);
    SmallFactors(a.b1);
    SmallFactors(a.b2);
    SmallFactors(a.b3);
  }

  /** One round of the cipher. */
  function Round(s: State, k: State): State {
    Add(Mix(Shift(Sub(s))), k)
  }

  function MixedState(s: State): State {
    State(Mixed(s.c0), Mixed(s.c1), Mixed(s.c2), Mixed(s.c3))
  }

  lemma RoundIs(s: State, k: State)
    ensures Round(s, k) == Add(MixedState(Shift(Sub(s))), k)
  {
    hide Mixed, MixQ, XorQ, SubQ;
    var t := Shift(Sub(s));
    MixedIs(t.c0);
    MixedIs(t.c1);
    MixedIs(t.c2);
    MixedIs(t.c3);
  }

  // ---- The round keys ---------------------------------------------------------------------

  function K0(): State {
    State(Quad(0x00, 0x01, 0x02, 0x03), Quad(0x04, 0x05, 0x06, 0x07),
          Quad(0x08, 0x09, 0x0A, 0x0B), Quad(0x0C, 0x0D, 0x0E, 0x0F))
  }

  function K1(): State {
    State(Quad(0x10, 0x11, 0x12, 0x13), Quad(0x14, 0x15, 0x16, 0x17),
          Quad(0x18, 0x19, 0x1A, 0x1B), Quad(0x1C, 0x1D, 0x1E, 0x1F))
  }

  function K2(): State {
    State(Quad(0xA5, 0x73, 0xC2, 0x9F), Quad(0xA1, 0x76, 0xC4, 0x98),
          Quad(0xA9, 0x7F, 0xCE, 0x93), Quad(0xA5, 0x72, 0xC0, 0x9C))
  }

  function K3(): State {
    State(Quad(0x16, 0x51, 0xA8, 0xCD), Quad(0x02, 0x44, 0xBE, 0xDA),
          Quad(0x1A, 0x5D, 0xA4, 0xC1), Quad(0x06, 0x40, 0xBA, 0xDE))
  }

  function K4(): State {
    State(Quad(0xAE, 0x87, 0xDF, 0xF0), Quad(0x0F, 0xF1, 0x1B, 0x68),
          Quad(0xA6, 0x8E, 0xD5, 0xFB), Quad(0x03, 0xFC, 0x15, 0x67))
  }

  function K5(): State {
    State(Quad(0x6D, 0xE1, 0xF1, 0x48), Quad(0x6F, 0xA5, 0x4F, 0x92),
          Quad(0x75, 0xF8, 0xEB, 0x53), Quad(0x73, 0xB8, 0x51, 0x8D))
  }

  function K6(): State {
    State(Quad(0xC6, 0x56, 0x82, 0x7F), Quad(0xC9, 0xA7, 0x99, 0x17),
          Quad(0x6F, 0x29, 0x4C, 0xEC), Quad(0x6C, 0xD5, 0x59, 0x8B))
  }

  function K7(): State {
    State(Quad(0x3D, 0xE2, 0x3A, 0x75), Quad(0x52, 0x47, 0x75, 0xE7),
          Quad(0x27, 0xBF, 0x9E, 0xB4), Quad(0x54, 0x07, 0xCF, 0x39))
  }

  function K8(): State {
    State(Quad(0x0B, 0xDC, 0x90, 0x5F), Quad(0xC2, 0x7B, 0x09, 0x48),
          Quad(0xAD, 0x52, 0x45, 0xA4), Quad(0xC1, 0x87, 0x1C, 0x2F))
  }

  function K9(): State {
    State(Quad(0x45, 0xF5, 0xA6, 0x60), Quad(0x17, 0xB2, 0xD3, 0x87),
          Quad(0x30, 0x0D, 0x4D, 0x33), Quad(0x64, 0x0A, 0x82, 0x0A))
  }

  function K10(): State {
    State(Quad(0x7C, 0xCF, 0xF7, 0x1C), Quad(0xBE, 0xB4, 0xFE, 0x54),
          Quad(0x13, 0xE6, 0xBB, 0xF0), Quad(0xD2, 0x61, 0xA7, 0xDF))
  }

  function K11(): State {
    State(Quad(0xF0, 0x1A, 0xFA, 0xFE), Quad(0xE7, 0xA8, 0x29, 0x79),
          Quad(0xD7, 0xA5, 0x64, 0x4A), Quad(0xB3, 0xAF, 0xE6, 0x40))
  }

  function K12(): State {
    State(Quad(0x25, 0x41, 0xFE, 0x71), Quad(0x9B, 0xF5, 0x00, 0x25),
          Quad(0x88, 0x13, 0xBB, 0xD5), Quad(0x5A, 0x72, 0x1C, 0x0A))
  }

  function K13(): State {
    State(Quad(0x4E, 0x5A, 0x66, 0x99), Quad(0xA9, 0xF2, 0x4F, 0xE0),
          Quad(0x7E, 0x57, 0x2B, 0xAA), Quad(0xCD, 0xF8, 0xCD, 0xEA))
  }

  function K14(): State {
    State(Quad(0x24, 0xFC, 0x79, 0xCC), Quad(0xBF, 0x09, 0x79, 0xE9),
          Quad(0x37, 0x1A, 0xC2, 0x3C), Quad(0x6D, 0x68, 0xDE, 0x36))
  }

  // ---- The states -------------------------------------------------------------------------

  function S0(): State {
    State(Quad(0x00, 0x10, 0x20, 0x30), Quad(0x40, 0x50, 0x60, 0x70),
          Quad(0x80, 0x90, 0xA0, 0xB0), Quad(0xC0, 0xD0, 0xE0, 0xF0))
  }

  function S1(): State {
    State(Quad(0x4F, 0x63, 0x76, 0x06), Quad(0x43, 0xE0, 0xAA, 0x85),
          Quad(0xEF, 0xA7, 0x21, 0x32), Quad(0x01, 0xA4, 0xE7, 0x05))
  }

  function S2(): State {
    State(Quad(0x18, 0x59, 0xFB, 0xC2), Quad(0x8A, 0x1C, 0x00, 0xA0),
          Quad(0x78, 0xED, 0x8A, 0xAD), Quad(0xC4, 0x2F, 0x61, 0x09))
  }

  function S3(): State {
    State(Quad(0x97, 0x5C, 0x66, 0xC1), Quad(0xCB, 0x9F, 0x3F, 0xA8),
          Quad(0xA9, 0x3A, 0x28, 0xDF), Quad(0x8E, 0xE1, 0x0F, 0x63))
  }

  function S4(): State {
    State(Quad(0x1C, 0x05, 0xF2, 0x71), Quad(0xA4, 0x17, 0xE0, 0x4F),
          Quad(0xF9, 0x21, 0xC5, 0xC1), Quad(0x04, 0x70, 0x15, 0x54))
  }

  function S5(): State {
    State(Quad(0xC3, 0x57, 0xAA, 0xE1), Quad(0x1B, 0x45, 0xB7, 0xB0),
          Quad(0xA2, 0xC7, 0xBD, 0x28), Quad(0xA8, 0xDC, 0x99, 0xFA))
  }

  function S6(): State {
    State(Quad(0x7F, 0x07, 0x41, 0x43), Quad(0xCB, 0x4E, 0x24, 0x3E),
          Quad(0xC1, 0x0C, 0x81, 0x5D), Quad(0x83, 0x75, 0xD5, 0x4C))
  }

  function S7(): State {
    State(Quad(0xD6, 0x53, 0xA4, 0x69), Quad(0x6C, 0xA0, 0xBC, 0x0F),
          Quad(0x5A, 0xCA, 0xAB, 0x5D), Quad(0xB9, 0x6C, 0x5E, 0x7D))
  }

  function S8(): State {
    State(Quad(0x5A, 0xA8, 0x58, 0x39), Quad(0x5F, 0xD2, 0x8D, 0x7D),
          Quad(0x05, 0xE1, 0xA3, 0x88), Quad(0x68, 0xF3, 0xB9, 0xC5))
  }

  function S9(): State {
    State(Quad(0x4A, 0x82, 0x48, 0x51), Quad(0xC5, 0x7E, 0x7E, 0x47),
          Quad(0x64, 0x3D, 0xE5, 0x0C), Quad(0x2A, 0xF3, 0xE8, 0xC9))
  }

  function S10(): State {
    State(Quad(0xC1, 0x49, 0x07, 0xF6), Quad(0xCA, 0x3B, 0x3A, 0xA0),
          Quad(0x70, 0xE9, 0xAA, 0x31), Quad(0x3B, 0x52, 0xB5, 0xEC))
  }

  function S11(): State {
    State(Quad(0x5F, 0x9C, 0x6A, 0xBF), Quad(0xBA, 0xC6, 0x34, 0xAA),
          Quad(0x50, 0x40, 0x9F, 0xA7), Quad(0x66, 0x67, 0x76, 0x53))
  }

  function S12(): State {
    State(Quad(0x51, 0x66, 0x04, 0x95), Quad(0x43, 0x53, 0x95, 0x03),
          Quad(0x14, 0xFB, 0x86, 0xE4), Quad(0x01, 0x92, 0x25, 0x21))
  }

  function S13(): State {
    State(Quad(0x62, 0x7B, 0xCE, 0xB9), Quad(0x99, 0x9D, 0x5A, 0xAA),
          Quad(0xC9, 0x45, 0xEC, 0xF4), Quad(0x23, 0xF5, 0x6D, 0xA5))
  }

  // ---- The steps --------------------------------------------------------------------------

  lemma Temp2()
    ensures KeyTemp(8, Quad(0x1C, 0x1D, 0x1E, 0x1F)) == Quad(0xA5, 0x72, 0xC0, 0x9C)
  {}

  lemma Key2()
    ensures NextKey(2, K0(), K1()) == K2()
  {
    hide KeyTemp;
    Temp2();
  }

  lemma Temp3()
    ensures KeyTemp(12, Quad(0xA5, 0x72, 0xC0, 0x9C)) == Quad(0x06, 0x40, 0xBA, 0xDE)
  {}

  lemma Key3()
    ensures NextKey(3, K1(), K2()) == K3()
  {
    hide KeyTemp;
    Temp3();
  }

  lemma Temp4()
    ensures KeyTemp(16, Quad(0x06, 0x40, 0xBA, 0xDE)) == Quad(0x0B, 0xF4, 0x1D, 0x6F)
  {}

  lemma Key4()
    ensures NextKey(4, K2(), K3()) == K4()
  {
    hide KeyTemp;
    Temp4();
  }

  lemma Temp5()
    ensures KeyTemp(20, Quad(0x03, 0xFC, 0x15, 0x67)) == Quad(0x7B, 0xB0, 0x59, 0x85)
  {}

  lemma Key5()
    ensures NextKey(5, K3(), K4()) == K5()
  {
    hide KeyTemp;
    Temp5();
  }

  lemma Temp6()
    ensures KeyTemp(24, Quad(0x73, 0xB8, 0x51, 0x8D)) == Quad(0x68, 0xD1, 0x5D, 0x8F)
  {}

  lemma Key6()
    ensures NextKey(6, K4(), K5()) == K6()
  {
    hide KeyTemp;
    Temp6();
  }

  lemma Temp7()
    ensures KeyTemp(28, Quad(0x6C, 0xD5, 0x59, 0x8B)) == Quad(0x50, 0x03, 0xCB, 0x3D)
  {}

  lemma Key7()
    ensures NextKey(7, K5(), K6()) == K7()
  {
    hide KeyTemp;
    Temp7();
  }

  lemma Temp8()
    ensures KeyTemp(32, Quad(0x54, 0x07, 0xCF, 0x39)) == Quad(0xCD, 0x8A, 0x12, 0x20)
  {}

  lemma Key8()
    ensures NextKey(8, K6(), K7()) == K8()
  {
    hide KeyTemp;
    Temp8();
  }

  lemma Temp9()
    ensures KeyTemp(36, Quad(0xC1, 0x87, 0x1C, 0x2F)) == Quad(0x78, 0x17, 0x9C, 0x15)
  {}

  lemma Key9()
    ensures NextKey(9, K7(), K8()) == K9()
  {
    hide KeyTemp;
    Temp9();
  }

  lemma Temp10()
    ensures KeyTemp(40, Quad(0x64, 0x0A, 0x82, 0x0A)) == Quad(0x77, 0x13, 0x67, 0x43)
  {}

  lemma Key10()
    ensures NextKey(10, K8(), K9()) == K10()
  {
    hide KeyTemp;
    Temp10();
  }

  lemma Temp11()
    ensures KeyTemp(44, Quad(0xD2, 0x61, 0xA7, 0xDF)) == Quad(0xB5, 0xEF, 0x5C, 0x9E)
  {}

  lemma Key11()
    ensures NextKey(11, K9(), K10()) == K11()
  {
    hide KeyTemp;
    Temp11();
  }

  lemma Temp12()
    ensures KeyTemp(48, Quad(0xB3, 0xAF, 0xE6, 0x40)) == Quad(0x59, 0x8E, 0x09, 0x6D)
  {}

  lemma Key12()
    ensures NextKey(12, K10(), K11()) == K12()
  {
    hide KeyTemp;
    Temp12();
  }

  lemma Temp13()
    ensures KeyTemp(52, Quad(0x5A, 0x72, 0x1C, 0x0A)) == Quad(0xBE, 0x40, 0x9C, 0x67)
  {}

  lemma Key13()
    ensures NextKey(13, K11(), K12()) == K13()
  {
    hide KeyTemp;
    Temp13();
  }

  lemma Temp14()
    ensures KeyTemp(56, Quad(0xCD, 0xF8, 0xCD, 0xEA)) == Quad(0x01, 0xBD, 0x87, 0xBD)
  {}

  lemma Key14()
    ensures NextKey(14, K12(), K13()) == K14()
  {
    hide KeyTemp;
    Temp14();
  }

  lemma Left0()
    ensures SubQ(Quad(0x00, 0x10, 0x20, 0x30)) == Quad(0x63, 0xCA, 0xB7, 0x04)
    ensures SubQ(Quad(0x40, 0x50, 0x60, 0x70)) == Quad(0x09, 0x53, 0xD0, 0x51)
  {}

  lemma Right0()
    ensures SubQ(Quad(0x80, 0x90, 0xA0, 0xB0)) == Quad(0xCD, 0x60, 0xE0, 0xE7)
    ensures SubQ(Quad(0xC0, 0xD0, 0xE0, 0xF0)) == Quad(0xBA, 0x70, 0xE1, 0x8C)
  {}

  lemma Left1()
    ensures SubQ(Quad(0x4F, 0x63, 0x76, 0x06)) == Quad(0x84, 0xFB, 0x38, 0x6F)
    ensures SubQ(Quad(0x43, 0xE0, 0xAA, 0x85)) == Quad(0x1A, 0xE1, 0xAC, 0x97)
  {}

  lemma Right1()
    ensures SubQ(Quad(0xEF, 0xA7, 0x21, 0x32)) == Quad(0xDF, 0x5C, 0xFD, 0x23)
    ensures SubQ(Quad(0x01, 0xA4, 0xE7, 0x05)) == Quad(0x7C, 0x49, 0x94, 0x6B)
  {}

  lemma Left2()
    ensures SubQ(Quad(0x18, 0x59, 0xFB, 0xC2)) == Quad(0xAD, 0xCB, 0x0F, 0x25)
    ensures SubQ(Quad(0x8A, 0x1C, 0x00, 0xA0)) == Quad(0x7E, 0x9C, 0x63, 0xE0)
  {}

  lemma Right2()
    ensures SubQ(Quad(0x78, 0xED, 0x8A, 0xAD)) == Quad(0xBC, 0x55, 0x7E, 0x95)
    ensures SubQ(Quad(0xC4, 0x2F, 0x61, 0x09)) == Quad(0x1C, 0x15, 0xEF, 0x01)
  {}

  lemma Left3()
    ensures SubQ(Quad(0x97, 0x5C, 0x66, 0xC1)) == Quad(0x88, 0x4A, 0x33, 0x78)
    ensures SubQ(Quad(0xCB, 0x9F, 0x3F, 0xA8)) == Quad(0x1F, 0xDB, 0x75, 0xC2)
  {}

  lemma Right3()
    ensures SubQ(Quad(0xA9, 0x3A, 0x28, 0xDF)) == Quad(0xD3, 0x80, 0x34, 0x9E)
    ensures SubQ(Quad(0x8E, 0xE1, 0x0F, 0x63)) == Quad(0x19, 0xF8, 0x76, 0xFB)
  {}

  lemma Left4()
    ensures SubQ(Quad(0x1C, 0x05, 0xF2, 0x71)) == Quad(0x9C, 0x6B, 0x89, 0xA3)
    ensures SubQ(Quad(0xA4, 0x17, 0xE0, 0x4F)) == Quad(0x49, 0xF0, 0xE1, 0x84)
  {}

  lemma Right4()
    ensures SubQ(Quad(0xF9, 0x21, 0xC5, 0xC1)) == Quad(0x99, 0xFD, 0xA6, 0x78)
    ensures SubQ(Quad(0x04, 0x70, 0x15, 0x54)) == Quad(0xF2, 0x51, 0x59, 0x20)
  {}

  lemma Left5()
    ensures SubQ(Quad(0xC3, 0x57, 0xAA, 0xE1)) == Quad(0x2E, 0x5B, 0xAC, 0xF8)
    ensures SubQ(Quad(0x1B, 0x45, 0xB7, 0xB0)) == Quad(0xAF, 0x6E, 0xA9, 0xE7)
  {}

  lemma Right5()
    ensures SubQ(Quad(0xA2, 0xC7, 0xBD, 0x28)) == Quad(0x3A, 0xC6, 0x7A, 0x34)
    ensures SubQ(Quad(0xA8, 0xDC, 0x99, 0xFA)) == Quad(0xC2, 0x86, 0xEE, 0x2D)
  {}

  lemma Left6()
    ensures SubQ(Quad(0x7F, 0x07, 0x41, 0x43)) == Quad(0xD2, 0xC5, 0x83, 0x1A)
    ensures SubQ(Quad(0xCB, 0x4E, 0x24, 0x3E)) == Quad(0x1F, 0x2F, 0x36, 0xB2)
  {}

  lemma Right6()
    ensures SubQ(Quad(0xC1, 0x0C, 0x81, 0x5D)) == Quad(0x78, 0xFE, 0x0C, 0x4C)
    ensures SubQ(Quad(0x83, 0x75, 0xD5, 0x4C)) == Quad(0xEC, 0x9D, 0x03, 0x29)
  {}

  lemma Left7()
    ensures SubQ(Quad(0xD6, 0x53, 0xA4, 0x69)) == Quad(0xF6, 0xED, 0x49, 0xF9)
    ensures SubQ(Quad(0x6C, 0xA0, 0xBC, 0x0F)) == Quad(0x50, 0xE0, 0x65, 0x76)
  {}

  lemma Right7()
    ensures SubQ(Quad(0x5A, 0xCA, 0xAB, 0x5D)) == Quad(0xBE, 0x74, 0x62, 0x4C)
    ensures SubQ(Quad(0xB9, 0x6C, 0x5E, 0x7D)) == Quad(0x56, 0x50, 0x58, 0xFF)
  {}

  lemma Left8()
    ensures SubQ(Quad(0x5A, 0xA8, 0x58, 0x39)) == Quad(0xBE, 0xC2, 0x6A, 0x12)
    ensures SubQ(Quad(0x5F, 0xD2, 0x8D, 0x7D)) == Quad(0xCF, 0xB5, 0x5D, 0xFF)
  {}

  lemma Right8()
    ensures SubQ(Quad(0x05, 0xE1, 0xA3, 0x88)) == Quad(0x6B, 0xF8, 0x0A, 0xC4)
    ensures SubQ(Quad(0x68, 0xF3, 0xB9, 0xC5)) == Quad(0x45, 0x0D, 0x56, 0xA6)
  {}

  lemma Left9()
    ensures SubQ(Quad(0x4A, 0x82, 0x48, 0x51)) == Quad(0xD6, 0x13, 0x52, 0xD1)
    ensures SubQ(Quad(0xC5, 0x7E, 0x7E, 0x47)) == Quad(0xA6, 0xF3, 0xF3, 0xA0)
  {}

  lemma Right9()
    ensures SubQ(Quad(0x64, 0x3D, 0xE5, 0x0C)) == Quad(0x43, 0x27, 0xD9, 0xFE)
    ensures SubQ(Quad(0x2A, 0xF3, 0xE8, 0xC9)) == Quad(0xE5, 0x0D, 0x9B, 0xDD)
  {}

  lemma Left10()
    ensures SubQ(Quad(0xC1, 0x49, 0x07, 0xF6)) == Quad(0x78, 0x3B, 0xC5, 0x42)
    ensures SubQ(Quad(0xCA, 0x3B, 0x3A, 0xA0)) == Quad(0x74, 0xE2, 0x80, 0xE0)
  {}

  lemma Right10()
    ensures SubQ(Quad(0x70, 0xE9, 0xAA, 0x31)) == Quad(0x51, 0x1E, 0xAC, 0xC7)
    ensures SubQ(Quad(0x3B, 0x52, 0xB5, 0xEC)) == Quad(0xE2, 0x00, 0xD5, 0xCE)
  {}

  lemma Left11()
    ensures SubQ(Quad(0x5F, 0x9C, 0x6A, 0xBF)) == Quad(0xCF, 0xDE, 0x02, 0x08)
    ensures SubQ(Quad(0xBA, 0xC6, 0x34, 0xAA)) == Quad(0xF4, 0xB4, 0x18, 0xAC)
  {}

  lemma Right11()
    ensures SubQ(Quad(0x50, 0x40, 0x9F, 0xA7)) == Quad(0x53, 0x09, 0xDB, 0x5C)
    ensures SubQ(Quad(0x66, 0x67, 0x76, 0x53)) == Quad(0x33, 0x85, 0x38, 0xED)
  {}

  lemma Left12()
    ensures SubQ(Quad(0x51, 0x66, 0x04, 0x95)) == Quad(0xD1, 0x33, 0xF2, 0x2A)
    ensures SubQ(Quad(0x43, 0x53, 0x95, 0x03)) == Quad(0x1A, 0xED, 0x2A, 0x7B)
  {}

  lemma Right12()
    ensures SubQ(Quad(0x14, 0xFB, 0x86, 0xE4)) == Quad(0xFA, 0x0F, 0x44, 0x69)
    ensures SubQ(Quad(0x01, 0x92, 0x25, 0x21)) == Quad(0x7C, 0x4F, 0x3F, 0xFD)
  {}

  lemma Left13()
    ensures SubQ(Quad(0x62, 0x7B, 0xCE, 0xB9)) == Quad(0xAA, 0x21, 0x8B, 0x56)
    ensures SubQ(Quad(0x99, 0x9D, 0x5A, 0xAA)) == Quad(0xEE, 0x5E, 0xBE, 0xAC)
  {}

  lemma Right13()
    ensures SubQ(Quad(0xC9, 0x45, 0xEC, 0xF4)) == Quad(0xDD, 0x6E, 0xCE, 0xBF)
    ensures SubQ(Quad(0x23, 0xF5, 0x6D, 0xA5)) == Quad(0x26, 0xE6, 0x3C, 0x06)
  {}

  lemma Round1()
    ensures Round(S0(), K1()) == S1()
  {
    hide SubQ, Round;
    Left0();
    Right0();
    RoundIs(S0(), K1());
  }

  lemma Round2()
    ensures Round(S1(), K2()) == S2()
  {
    hide SubQ, Round;
    Left1();
    Right1();
    RoundIs(S1(), K2());
  }

  lemma Round3()
    ensures Round(S2(), K3()) == S3()
  {
    hide SubQ, Round;
    Left2();
    Right2();
    RoundIs(S2(), K3());
  }

  lemma Round4()
    ensures Round(S3(), K4()) == S4()
  {
    hide SubQ, Round;
    Left3();
    Right3();
    RoundIs(S3(), K4());
  }

  lemma Round5()
    ensures Round(S4(), K5()) == S5()
  {
    hide SubQ, Round;
    Left4();
    Right4();
    RoundIs(S4(), K5());
  }

  lemma Round6()
    ensures Round(S5(), K6()) == S6()
  {
    hide SubQ, Round;
    Left5();
    Right5();
    RoundIs(S5(), K6());
  }

  lemma Round7()
    ensures Round(S6(), K7()) == S7()
  {
    hide SubQ, Round;
    Left6();
    Right6();
    RoundIs(S6(), K7());
  }

  lemma Round8()
    ensures Round(S7(), K8()) == S8()
  {
    hide SubQ, Round;
    Left7();
    Right7();
    RoundIs(S7(), K8());
  }

  lemma Round9()
    ensures Round(S8(), K9()) == S9()
  {
    hide SubQ, Round;
    Left8();
    Right8();
    RoundIs(S8(), K9());
  }

  lemma Round10()
    ensures Round(S9(), K10()) == S10()
  {
    hide SubQ, Round;
    Left9();
    Right9();
    RoundIs(S9(), K10());
  }

  lemma Round11()
    ensures Round(S10(), K11()) == S11()
  {
    hide SubQ, Round;
    Left10();
    Right10();
    RoundIs(S10(), K11());
  }

  lemma Round12()
    ensures Round(S11(), K12()) == S12()
  {
    hide SubQ, Round;
    Left11();
    Right11();
    RoundIs(S11(), K12());
  }

  lemma Round13()
    ensures Round(S12(), K13()) == S13()
  {
    hide SubQ, Round;
    Left12();
    Right12();
    RoundIs(S12(), K13());
  }

  function Key(): (k: seq<bv8>)
    ensures |k| == 32
  {
    [0x00, 0x01, 0x02, 0x03, 0x04, 0x05, 0x06, 0x07, 0x08, 0x09, 0x0A, 0x0B, 0x0C, 0x0D, 0x0E, 0x0F,
     0x10, 0x11, 0x12, 0x13, 0x14, 0x15, 0x16, 0x17, 0x18, 0x19, 0x1A, 0x1B, 0x1C, 0x1D, 0x1E, 0x1F]
  }

  function Block(): (b: seq<bv8>)
    ensures |b| == 16
  {
    [0x00, 0x11, 0x22, 0x33, 0x44, 0x55, 0x66, 0x77, 0x88, 0x99, 0xAA, 0xBB, 0xCC, 0xDD, 0xEE, 0xFF]
  }

  lemma FirstKeys()
    ensures RoundKeyAt(Schedule(Key(), 60), 0) == K0() && RoundKeyAt(Schedule(Key(), 60), 1) == K1()
  {
    hide XorQ, KeyTemp, QuadAt;
    var key := Key();
    FirstWords(key);
    WordBytes(key);
    MoreBytes(key);
  }

  lemma FirstWords(key: seq<bv8>)
    requires |key| == 32
    ensures forall i :: 0 <= i < 8 ==> KeyWord(key, i) == QuadAt(key, i)
  {
  }

  lemma WordBytes(key: seq<bv8>)
    requires key == Key()
    ensures State(QuadAt(key, 0), QuadAt(key, 1), QuadAt(key, 2), QuadAt(key, 3)) == K0()
  {
  }

  lemma MoreBytes(key: seq<bv8>)
    requires key == Key()
    ensures State(QuadAt(key, 4), QuadAt(key, 5), QuadAt(key, 6), QuadAt(key, 7)) == K1()
  {
  }

  lemma FirstState()
    ensures Add(StateOf(Block()), K0()) == S0()
  {
  }

  lemma LastRound()
    ensures Add(Shift(Sub(S13())), K14())
         == StateOf([0x8E, 0xA2, 0xB7, 0xCA, 0x51, 0x67, 0x45, 0xBF, 0xEA, 0xFC, 0x49, 0x90, 0x4B, 0x49, 0x60, 0x89])
  {
    hide SubQ;
    Left13();
    Right13();
  }

  lemma AllKeys()
    ensures |Key()| == 32 && |Schedule(Key(), 60)| == 60
    ensures var w := Schedule(Key(), 60);
      && RoundKeyAt(w, 0) == K0() && RoundKeyAt(w, 1) == K1() && RoundKeyAt(w, 2) == K2()
      && RoundKeyAt(w, 3) == K3() && RoundKeyAt(w, 4) == K4() && RoundKeyAt(w, 5) == K5()
      && RoundKeyAt(w, 6) == K6() && RoundKeyAt(w, 7) == K7() && RoundKeyAt(w, 8) == K8()
      && RoundKeyAt(w, 9) == K9() && RoundKeyAt(w, 10) == K10() && RoundKeyAt(w, 11) == K11()
      && RoundKeyAt(w, 12) == K12() && RoundKeyAt(w, 13) == K13() && RoundKeyAt(w, 14) == K14()
  {
    hide NextKey, RoundKeyAt, Key, K0, K1, K2, K3, K4, K5, K6, K7, K8, K9, K10, K11, K12, K13, K14;
    FirstKeys();
    KeyStep(Key(), 2);
    Key2();
    KeyStep(Key(), 3);
    Key3();
    KeyStep(Key(), 4);
    Key4();
    KeyStep(Key(), 5);
    Key5();
    KeyStep(Key(), 6);
    Key6();
    KeyStep(Key(), 7);
    Key7();
    KeyStep(Key(), 8);
    Key8();
    KeyStep(Key(), 9);
    Key9();
    KeyStep(Key(), 10);
    Key10();
    KeyStep(Key(), 11);
    Key11();
    KeyStep(Key(), 12);
    Key12();
    KeyStep(Key(), 13);
    Key13();
    KeyStep(Key(), 14);
    Key14();
  }

  /** A full round, for a schedule whose round key is known. */
  lemma RoundStep(s: State, w: seq<Quad>, r: nat)
    requires 1 <= r && 4 * r + 4 <= |w|
    ensures AfterRounds(s, w, r) == Round(AfterRounds(s, w, r - 1), RoundKeyAt(w, r))
  {
    hide Add, Mix, Shift, Sub, RoundKeyAt;
  }

  /** The ciphertext of the example. */
  lemma KnownAnswer()
    ensures |Schedule(Key(), 60)| == 60
    ensures CipherOf(StateOf(Block()),
                     Schedule(Key(), 60))
         == StateOf([0x8E, 0xA2, 0xB7, 0xCA, 0x51, 0x67, 0x45, 0xBF, 0xEA, 0xFC, 0x49, 0x90, 0x4B, 0x49, 0x60, 0x89])
  {
    hide Add, Mix, Shift, Sub, RoundKeyAt, Round, AfterRounds, StateOf, Schedule, QuadAt;
    hide K0, K1, K2, K3, K4, K5, K6, K7, K8, K9, K10, K11, K12, K13, K14;
    hide S0, S1, S2, S3, S4, S5, S6, S7, S8, S9, S10, S11, S12, S13;
    var w := Schedule(Key(), 60);
    AllKeys();
    FirstState();
    FirstRound(StateOf(Block()), w);
    RoundStep(StateOf(Block()), w, 1);
    Round1();
    RoundStep(StateOf(Block()), w, 2);
    Round2();
    RoundStep(StateOf(Block()), w, 3);
    Round3();
    RoundStep(StateOf(Block()), w, 4);
    Round4();
    RoundStep(StateOf(Block()), w, 5);
    Round5();
    RoundStep(StateOf(Block()), w, 6);
    Round6();
    RoundStep(StateOf(Block()), w, 7);
    Round7();
    RoundStep(StateOf(Block()), w, 8);
    Round8();
    RoundStep(StateOf(Block()), w, 9);
    Round9();
    RoundStep(StateOf(Block()), w, 10);
    Round10();
    RoundStep(StateOf(Block()), w, 11);
    Round11();
    RoundStep(StateOf(Block()), w, 12);
    Round12();
    RoundStep(StateOf(Block()), w, 13);
    Round13();
    LastRound();
  }

  lemma FirstRound(s: State, w: seq<Quad>)
    requires |w| >= 4
    ensures AfterRounds(s, w, 0) == Add(s, RoundKeyAt(w, 0))
  {
  }
}
