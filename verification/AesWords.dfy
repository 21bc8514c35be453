/** PolarSSL's AES for 256-bit keys (polarssl/src/aes.c): tables of 32-bit words, a key schedule of
    words, and a transformed schedule for decryption; all of it the same function of key and block
    as tiny-AES computes byte by byte. */
module AesWords {
  import opened Arith
  import opened ByteXor
  import opened AesBytes
  import opened AesTiny

  // ---- Words and bytes --------------------------------------------------------------------

  /** GET_UINT32_LE: byte 0 is the least significant. */
  function Word(q: Quad): bv32 {
    (q.b0 as bv32) | ((q.b1 as bv32) << 8) | ((q.b2 as bv32) << 16) | ((q.b3 as bv32) << 24)
  }

  /** ( w >> 8 k ) & 0xFF, for each k. */
  function Byte0(w: bv32): bv8 { (w & 0xFF) as bv8 }

  function Byte1(w: bv32): bv8 { ((w >> 8) & 0xFF) as bv8 }

  function Byte2(w: bv32): bv8 { ((w >> 16) & 0xFF) as bv8 }

  function Byte3(w: bv32): bv8 { ((w >> 24) & 0xFF) as bv8 }

  function Bytes(w: bv32): Quad {
    Quad(Byte0(w), Byte1(w), Byte2(w), Byte3(w))
  }

  function XorW(a: bv32, b: bv32): bv32 { a ^ b }

  /** ROTL8 */
  function Rotl8(w: bv32): bv32 {
    (w << 8) | (w >> 24)
  }

  lemma BytesOfWord(q: Quad)
    ensures Bytes(Word(q)) == q
  {
  }

  lemma BytesOfXor(a: bv32, b: bv32)
    ensures Bytes(XorW(a, b)) == XorQ(Bytes(a), Bytes(b))
  {
  }

  lemma BytesOfRotl8(w: bv32)
    ensures Bytes(Rotl8(w)) == Turn(Bytes(w))
  {
  }

  // ---- The tables -------------------------------------------------------------------------

  function FT0(i: bv8): bv32 {
    var x := FSb(i);
    var y := Xtime(x);
    Word(Quad(y, x, x, Xor(y, x)))
  }

  function FT1(i: bv8): bv32 { Rotl8(FT0(i)) }

  function FT2(i: bv8): bv32 { Rotl8(FT1(i)) }

  function FT3(i: bv8): bv32 { Rotl8(FT2(i)) }

  function RT0(i: bv8): bv32 {
    var x := RSb(i);
    Word(Quad(Multiply(x, 0x0E), Multiply(x, 0x09), Multiply(x, 0x0D), Multiply(x, 0x0B)))
  }

  function RT1(i: bv8): bv32 { Rotl8(RT0(i)) }

  function RT2(i: bv8): bv32 { Rotl8(RT1(i)) }

  function RT3(i: bv8): bv32 { Rotl8(RT2(i)) }

  /** Entry 0 of the tables: S-box and mixing of a single byte. */
  lemma TableF(i: bv8)
    ensures Bytes(FT0(i)) == MixQ(Quad(FSb(i), 0, 0, 0))
  {
    hide FSb, Xtime, Multiply, Word, Bytes, MixQ;
    var x := FSb(i);
    BytesOfWord(Quad(Xtime(x), x, x, Xor(Xtime(x), x)));
    Column(x);
    SmallFactors(x);
    XorComm(x, Xtime(x));
  }

  lemma TableR(i: bv8)
    ensures Bytes(RT0(i)) == InvMixQ(Quad(RSb(i), 0, 0, 0))
  {
    hide RSb, Multiply, Word, Bytes, InvMixQ;
    var x := RSb(i);
    BytesOfWord(Quad(Multiply(x, 0x0E), Multiply(x, 0x09), Multiply(x, 0x0D), Multiply(x, 0x0B)));
    InvColumn(x);
  }

  lemma InvColumn(x: bv8)
    ensures InvMixQ(Quad(x, 0, 0, 0))
         == Quad(Multiply(x, 0x0E), Multiply(x, 0x09), Multiply(x, 0x0D), Multiply(x, 0x0B))
  {
    hide Multiply, Xor;
    ZeroFactor(0x0E);
    ZeroFactor(0x0B);
    ZeroFactor(0x0D);
    ZeroFactor(0x09);
    XorSelf(0);
    XorSelf(Multiply(x, 0x0E));
    XorSelf(Multiply(x, 0x09));
    XorSelf(Multiply(x, 0x0D));
    XorSelf(Multiply(x, 0x0B));
  }

  lemma ZeroFactor(k: bv8)
    ensures Multiply(0, k) == 0
  {
  }

  lemma TablesF(q: Quad)
    ensures Bytes(FT0(q.b0)) == MixQ(Quad(FSb(q.b0), 0, 0, 0))
    ensures Bytes(FT1(q.b1)) == MixQ(Quad(0, FSb(q.b1), 0, 0))
    ensures Bytes(FT2(q.b2)) == MixQ(Quad(0, 0, FSb(q.b2), 0))
    ensures Bytes(FT3(q.b3)) == MixQ(Quad(0, 0, 0, FSb(q.b3)))
  {
    hide FSb, FT0, Bytes, MixQ, Rotl8;
    TableF(q.b0);
    TableF(q.b1);
    TableF(q.b2);
    TableF(q.b3);
    BytesOfRotl8(FT0(q.b1));
    BytesOfRotl8(FT0(q.b2));
    BytesOfRotl8(FT1(q.b2));
    BytesOfRotl8(FT0(q.b3));
    BytesOfRotl8(FT1(q.b3));
    BytesOfRotl8(FT2(q.b3));
    TurnMix(Quad(FSb(q.b1), 0, 0, 0));
    TurnMix(Quad(FSb(q.b2), 0, 0, 0));
    TurnMix(Quad(0, FSb(q.b2), 0, 0));
    TurnMix(Quad(FSb(q.b3), 0, 0, 0));
    TurnMix(Quad(0, FSb(q.b3), 0, 0));
    TurnMix(Quad(0, 0, FSb(q.b3), 0));
  }

  lemma TablesR(q: Quad)
    ensures Bytes(RT0(q.b0)) == InvMixQ(Quad(RSb(q.b0), 0, 0, 0))
    ensures Bytes(RT1(q.b1)) == InvMixQ(Quad(0, RSb(q.b1), 0, 0))
    ensures Bytes(RT2(q.b2)) == InvMixQ(Quad(0, 0, RSb(q.b2), 0))
    ensures Bytes(RT3(q.b3)) == InvMixQ(Quad(0, 0, 0, RSb(q.b3)))
  {
    hide RSb, RT0, Bytes, InvMixQ, Rotl8;
    TableR(q.b0);
    TableR(q.b1);
    TableR(q.b2);
    TableR(q.b3);
    BytesOfRotl8(RT0(q.b1));
    BytesOfRotl8(RT0(q.b2));
    BytesOfRotl8(RT1(q.b2));
    BytesOfRotl8(RT0(q.b3));
    BytesOfRotl8(RT1(q.b3));
    BytesOfRotl8(RT2(q.b3));
    TurnMix(Quad(RSb(q.b1), 0, 0, 0));
    TurnMix(Quad(RSb(q.b2), 0, 0, 0));
    TurnMix(Quad(0, RSb(q.b2), 0, 0));
    TurnMix(Quad(RSb(q.b3), 0, 0, 0));
    TurnMix(Quad(0, RSb(q.b3), 0, 0));
    TurnMix(Quad(0, 0, RSb(q.b3), 0));
  }

  // ---- One word of a round ----------------------------------------------------------------

  lemma XorQAssoc(a: Quad, b: Quad, c: Quad)
    ensures XorQ(XorQ(a, b), c) == XorQ(a, XorQ(b, c))
  {
    hide Xor;
    XorAssoc(a.b0, b.b0, c.b0);
    XorAssoc(a.b1, b.b1, c.b1);
    XorAssoc(a.b2, b.b2, c.b2);
    XorAssoc(a.b3, b.b3, c.b3);
  }

  lemma XorQComm(a: Quad, b: Quad)
    ensures XorQ(a, b) == XorQ(b, a)
  {
    hide Xor;
    XorComm(a.b0, b.b0);
    XorComm(a.b1, b.b1);
    XorComm(a.b2, b.b2);
    XorComm(a.b3, b.b3);
  }

  /** rk ^ a ^ b ^ c ^ d */
  function Xor5W(rk: bv32, a: bv32, b: bv32, c: bv32, d: bv32): bv32 {
    XorW(XorW(XorW(XorW(rk, a), b), c), d)
  }

  lemma BytesOfXor5(rk: bv32, a: bv32, b: bv32, c: bv32, d: bv32)
    ensures Bytes(Xor5W(rk, a, b, c, d))
         == XorQ(XorQ(XorQ(Bytes(a), Bytes(b)), XorQ(Bytes(c), Bytes(d))), Bytes(rk))
  {
    hide Bytes, XorW, XorQ;
    BytesOfXor(rk, a);
    BytesOfXor(XorW(rk, a), b);
    BytesOfXor(XorW(XorW(rk, a), b), c);
    BytesOfXor(XorW(XorW(XorW(rk, a), b), c), d);
    var k, p, q, r, s := Bytes(rk), Bytes(a), Bytes(b), Bytes(c), Bytes(d);
    XorQAssoc(k, p, q);
    XorQAssoc(k, XorQ(p, q), r);
    XorQAssoc(k, XorQ(XorQ(p, q), r), s);
    XorQAssoc(XorQ(p, q), r, s);
    XorQComm(k, XorQ(XorQ(p, q), XorQ(r, s)));
  }

  /** A line of AES_FROUND: y0 .. y3 are the words that the four bytes come from. */
  function ForwardWord(rk: bv32, y0: bv32, y1: bv32, y2: bv32, y3: bv32): bv32 {
    Xor5W(rk, FT0(Byte0(y0)), FT1(Byte1(y1)), FT2(Byte2(y2)), FT3(Byte3(y3)))
  }

  lemma ForwardWordIs(rk: bv32, y0: bv32, y1: bv32, y2: bv32, y3: bv32)
    ensures Bytes(ForwardWord(rk, y0, y1, y2, y3))
         == XorQ(MixQ(SubQ(Diagonal(Bytes(y0), Bytes(y1), Bytes(y2), Bytes(y3)))), Bytes(rk))
  {
    hide FT0, FT1, FT2, FT3, FSb, Byte0, Byte1, Byte2, Byte3, MixQ, XorQ, Xor5W;
    var d := Diagonal(Bytes(y0), Bytes(y1), Bytes(y2), Bytes(y3));
    BytesOfXor5(rk, FT0(d.b0), FT1(d.b1), FT2(d.b2), FT3(d.b3));
    TablesF(d);
    MixBytes(SubQ(d));
  }

  lemma MixBytes(a: Quad)
    ensures MixQ(a) == XorQ(XorQ(MixQ(Quad(a.b0, 0, 0, 0)), MixQ(Quad(0, a.b1, 0, 0))),
                            XorQ(MixQ(Quad(0, 0, a.b2, 0)), MixQ(Quad(0, 0, 0, a.b3))))
    ensures InvMixQ(a) == XorQ(XorQ(InvMixQ(Quad(a.b0, 0, 0, 0)), InvMixQ(Quad(0, a.b1, 0, 0))),
                               XorQ(InvMixQ(Quad(0, 0, a.b2, 0)), InvMixQ(Quad(0, 0, 0, a.b3))))
  {
    hide MixQ, InvMixQ, XorQ;
    var p, q, r, s := Quad(a.b0, 0, 0, 0), Quad(0, a.b1, 0, 0), Quad(0, 0, a.b2, 0), Quad(0, 0, 0, a.b3);
    ByteByByte(a);
    MixLinear(p, q);
    MixLinear(r, s);
    MixLinear(XorQ(p, q), XorQ(r, s));
    InvMixLinear(p, q);
    InvMixLinear(r, s);
    InvMixLinear(XorQ(p, q), XorQ(r, s));
  }

  /** A line of AES_RROUND. */
  function BackwardWord(rk: bv32, y0: bv32, y1: bv32, y2: bv32, y3: bv32): bv32 {
    Xor5W(rk, RT0(Byte0(y0)), RT1(Byte1(y1)), RT2(Byte2(y2)), RT3(Byte3(y3)))
  }

  lemma BackwardWordIs(rk: bv32, y0: bv32, y1: bv32, y2: bv32, y3: bv32)
    ensures Bytes(BackwardWord(rk, y0, y1, y2, y3))
         == XorQ(InvMixQ(InvSubQ(Diagonal(Bytes(y0), Bytes(y1), Bytes(y2), Bytes(y3)))), Bytes(rk))
  {
    hide RT0, RT1, RT2, RT3, RSb, Byte0, Byte1, Byte2, Byte3, InvMixQ, XorQ, Xor5W;
    var d := Diagonal(Bytes(y0), Bytes(y1), Bytes(y2), Bytes(y3));
    BytesOfXor5(rk, RT0(d.b0), RT1(d.b1), RT2(d.b2), RT3(d.b3));
    TablesR(d);
    MixBytes(InvSubQ(d));
  }

  /** A line of the last round: the S-box alone, byte by byte. */
  function LastForward(rk: bv32, y0: bv32, y1: bv32, y2: bv32, y3: bv32): bv32 {
    XorW(rk, Word(Quad(FSb(Byte0(y0)), FSb(Byte1(y1)), FSb(Byte2(y2)), FSb(Byte3(y3)))))
  }

  function LastBackward(rk: bv32, y0: bv32, y1: bv32, y2: bv32, y3: bv32): bv32 {
    XorW(rk, Word(Quad(RSb(Byte0(y0)), RSb(Byte1(y1)), RSb(Byte2(y2)), RSb(Byte3(y3)))))
  }

  lemma LastWordIs(rk: bv32, y0: bv32, y1: bv32, y2: bv32, y3: bv32)
    ensures Bytes(LastForward(rk, y0, y1, y2, y3))
         == XorQ(SubQ(Diagonal(Bytes(y0), Bytes(y1), Bytes(y2), Bytes(y3))), Bytes(rk))
    ensures Bytes(LastBackward(rk, y0, y1, y2, y3))
         == XorQ(InvSubQ(Diagonal(Bytes(y0), Bytes(y1), Bytes(y2), Bytes(y3))), Bytes(rk))
  {
    hide FSb, RSb, Byte0, Byte1, Byte2, Byte3, XorQ, XorW, Word;
    var d := Diagonal(Bytes(y0), Bytes(y1), Bytes(y2), Bytes(y3));
    BytesOfXor(rk, Word(SubQ(d)));
    BytesOfXor(rk, Word(InvSubQ(d)));
    BytesOfWord(SubQ(d));
    BytesOfWord(InvSubQ(d));
    XorQComm(Bytes(rk), SubQ(d));
    XorQComm(Bytes(rk), InvSubQ(d));
  }

  // ---- The key schedules ------------------------------------------------------------------

  /** The S-box on the bytes of w, each moved to the next lower place. */
  function SubRotWord(w: bv32): bv32 {
    Word(Quad(FSb(Byte1(w)), FSb(Byte2(w)), FSb(Byte3(w)), FSb(Byte0(w))))
  }

  function SubWord(w: bv32): bv32 {
    Word(Quad(FSb(Byte0(w)), FSb(Byte1(w)), FSb(Byte2(w)), FSb(Byte3(w))))
  }

  /** RCON[i] */
  function RconWord(i: nat): bv32 {
    Word(Quad(Rcon(i + 1), 0, 0, 0))
  }

  /** The first n words are those of the schedule. */
  ghost predicate Scheduled(rk: seq<bv32>, key: seq<bv8>, n: nat)
    requires |key| == 32
  {
    |rk| == 68 && n <= 68 && forall k :: 0 <= k < n ==> Bytes(rk[k]) == KeyWord(key, k)
  }

  /** The word that RK[8] becomes. */
  lemma FirstOfEight(key: seq<bv8>, i: nat, w0: bv32, w7: bv32)
    requires |key| == 32 && Bytes(w0) == KeyWord(key, 8 * i) && Bytes(w7) == KeyWord(key, 8 * i + 7)
    ensures Bytes(XorW(XorW(w0, RconWord(i)), SubRotWord(w7))) == KeyWord(key, 8 * i + 8)
  {
    hide XorW, XorQ, Word, Byte0, Byte1, Byte2, Byte3, FSb;
    var rc, sub := Quad(Rcon(i + 1), 0, 0, 0), SubQ(RotQ(Bytes(w7)));
    BytesOfXor(w0, RconWord(i));
    BytesOfXor(XorW(w0, RconWord(i)), SubRotWord(w7));
    BytesOfWord(rc);
    BytesOfWord(sub);
    XorQAssoc(Bytes(w0), rc, sub);
    XorQComm(rc, sub);
    assert (8 * i + 8) % Nk == 0 && (8 * i + 8) / Nk == i + 1;
  }

  /** The word that RK[12] becomes. */
  lemma FifthOfEight(key: seq<bv8>, i: nat, w4: bv32, w11: bv32)
    requires |key| == 32 && Bytes(w4) == KeyWord(key, 8 * i + 4) && Bytes(w11) == KeyWord(key, 8 * i + 11)
    ensures Bytes(XorW(w4, SubWord(w11))) == KeyWord(key, 8 * i + 12)
  {
    hide XorW, XorQ, Word, Byte0, Byte1, Byte2, Byte3, FSb;
    BytesOfXor(w4, SubWord(w11));
    BytesOfWord(SubQ(Bytes(w11)));
    assert (8 * i + 12) % Nk == 4;
  }

  /** The other words. */
  lemma PlainWord(key: seq<bv8>, k: nat, w: bv32, prev: bv32)
    requires |key| == 32 && k >= Nk && k % 4 != 0
    requires Bytes(w) == KeyWord(key, k - 8) && Bytes(prev) == KeyWord(key, k - 1)
    ensures Bytes(XorW(w, prev)) == KeyWord(key, k)
  {
    hide *;
    BytesOfXor(w, prev);
    PlainKeyWord(key, k);
  }

  lemma PlainKeyWord(key: seq<bv8>, k: nat)
    requires |key| == 32 && k >= Nk && k % 4 != 0
    ensures KeyWord(key, k) == XorQ(KeyWord(key, k - 8), KeyWord(key, k - 1))
  {
    hide XorQ, SubQ;
    OffMultiples(k);
  }

  lemma OffMultiples(k: nat)
    requires k % 4 != 0
    ensures k % 8 != 0 && k % 8 != 4
  {
    DivMod(k, 8);
    if k % 8 == 0 { DivUnique(k, 2 * (k / 8), 0, 4); }
    if k % 8 == 4 { DivUnique(k, 2 * (k / 8) + 1, 0, 4); }
  }

  /** One pass of the loop for 14 rounds: eight more words. */
  method ExpandEight(rk: array<bv32>, i: nat, ghost key: seq<bv8>)
    requires |key| == 32 && i < 7 && Scheduled(rk[..], key, 8 * i + 8)
    modifies rk
    ensures Scheduled(rk[..], key, 8 * i + 16)
  {
    hide KeyWord, XorW, Bytes, SubRotWord, SubWord, RconWord;
    var b := 8 * i;
    FirstOfEight(key, i, rk[b], rk[b + 7]);
    rk[b + 8] := XorW(XorW(rk[b], RconWord(i)), SubRotWord(rk[b + 7]));
    NextWord(rk, b + 9, key);
    NextWord(rk, b + 10, key);
    NextWord(rk, b + 11, key);
    FifthOfEight(key, i, rk[b + 4], rk[b + 11]);
    rk[b + 12] := XorW(rk[b + 4], SubWord(rk[b + 11]));
    NextWord(rk, b + 13, key);
    NextWord(rk, b + 14, key);
    NextWord(rk, b + 15, key);
  }

  /** RK[k] = RK[k - 8] ^ RK[k - 1] */
  method NextWord(rk: array<bv32>, k: nat, ghost key: seq<bv8>)
    requires |key| == 32 && 8 <= k < 68 && k % 4 != 0 && Scheduled(rk[..], key, k)
    modifies rk
    ensures Scheduled(rk[..], key, k + 1)
  {
    hide KeyWord, XorW, Bytes;
    PlainWord(key, k, rk[k - 8], rk[k - 1]);
    rk[k] := XorW(rk[k - 8], rk[k - 1]);
  }

  /** aes_setkey_enc for a key of 256 bits; ctx->nr is then Nr. */
  method SetkeyEnc(rk: array<bv32>, key: seq<bv8>)
    requires rk.Length == 68 && |key| == 32
    modifies rk
    ensures Scheduled(rk[..], key, 64)
  {
    hide KeyWord, Word, Bytes;
    var i := 0;
    while i < 8
      invariant 0 <= i <= 8 && Scheduled(rk[..], key, i)
    {
      BytesOfWord(QuadAt(key, i));
      KeyIsFirst(key, i);
      rk[i] := Word(QuadAt(key, i));
      i := i + 1;
    }
    i := 0;
    while i < 7
      invariant 0 <= i <= 7 && Scheduled(rk[..], key, 8 * i + 8)
    {
      ExpandEight(rk, i, key);
      i := i + 1;
    }
  }

  lemma KeyIsFirst(key: seq<bv8>, i: nat)
    requires |key| == 32 && i < Nk
    ensures KeyWord(key, i) == QuadAt(key, i)
  {
  }

  /** Word k of the decryption schedule: the rounds in reverse, all but the first and the last
      passed through InvMixColumns (section 5.3.5 of FIPS 197). */
  function DecryptWord(key: seq<bv8>, k: nat): Quad
    requires |key| == 32 && k < 60
  {
    var w := KeyWord(key, 4 * (Nr - k / 4) + k % 4);
    if k / 4 == 0 || k / 4 == Nr then w else InvMixQ(w)
  }

  ghost predicate DecryptScheduled(rk: seq<bv32>, key: seq<bv8>, n: nat)
    requires |key| == 32
  {
    |rk| == 68 && n <= 60 && forall k :: 0 <= k < n ==> Bytes(rk[k]) == DecryptWord(key, k)
  }

  /** RT0[ FSb[ ... ] ] ^ ... : the tables undo the S-box, so that only InvMixColumns is left. */
  function InvMixWord(w: bv32): bv32 {
    XorW(XorW(XorW(RT0(FSb(Byte0(w))), RT1(FSb(Byte1(w)))), RT2(FSb(Byte2(w)))), RT3(FSb(Byte3(w))))
  }

  lemma InvMixWordIs(w: bv32)
    ensures Bytes(InvMixWord(w)) == InvMixQ(Bytes(w))
  {
    hide RT0, RT1, RT2, RT3, FSb, RSb, Byte0, Byte1, Byte2, Byte3, InvMixQ, XorQ, XorW;
    var a := Bytes(w);
    var d := SubQ(a);
    TablesR(d);
    BoxesInverse(a.b0);
    BoxesInverse(a.b1);
    BoxesInverse(a.b2);
    BoxesInverse(a.b3);
    MixBytes(a);
    BytesOfXor(RT0(d.b0), RT1(d.b1));
    BytesOfXor(XorW(RT0(d.b0), RT1(d.b1)), RT2(d.b2));
    BytesOfXor(XorW(XorW(RT0(d.b0), RT1(d.b1)), RT2(d.b2)), RT3(d.b3));
    XorQAssoc(XorQ(Bytes(RT0(d.b0)), Bytes(RT1(d.b1))), Bytes(RT2(d.b2)), Bytes(RT3(d.b3)));
  }

  /** Copying the four words of one round, as they are or through InvMixColumns. */
  method CopyRound(rk: array<bv32>, sk: array<bv32>, q: nat, mixed: bool, ghost key: seq<bv8>)
    requires |key| == 32 && q <= Nr && mixed == (q != 0 && q != Nr) && rk != sk
    requires Scheduled(sk[..], key, 64) && DecryptScheduled(rk[..], key, 4 * q)
    modifies rk
    ensures DecryptScheduled(rk[..], key, 4 * q + 4)
  {
    hide KeyWord, InvMixWord, Bytes, InvMixQ;
    var j := 0;
    while j < 4
      invariant 0 <= j <= 4 && DecryptScheduled(rk[..], key, 4 * q + j)
    {
      var w := sk[4 * (Nr - q) + j];
      InvMixWordIs(w);
      InFour(q, j);
      rk[4 * q + j] := if mixed then InvMixWord(w) else w;
      j := j + 1;
    }
  }

  lemma InFour(q: nat, j: nat)
    requires j < 4
    ensures (4 * q + j) / 4 == q && (4 * q + j) % 4 == j
  {
  }

  /** aes_setkey_dec for a key of 256 bits. */
  method SetkeyDec(rk: array<bv32>, key: seq<bv8>)
    requires rk.Length == 68 && |key| == 32
    modifies rk
    ensures DecryptScheduled(rk[..], key, 60)
  {
    hide KeyWord, Bytes, InvMixQ;
    var cty := new bv32[68];
    SetkeyEnc(cty, key);
    CopyRound(rk, cty, 0, false, key);
    var i := Nr - 1;
    while i > 0
      invariant 0 <= i <= Nr - 1 && Scheduled(cty[..], key, 64)
      invariant DecryptScheduled(rk[..], key, 4 * (Nr - i))
    {
      CopyRound(rk, cty, Nr - i, true, key);
      i := i - 1;
    }
    CopyRound(rk, cty, Nr, false, key);
  }

  // ---- aes_crypt_ecb ----------------------------------------------------------------------

  /** The state that four words hold. */
  function WordState(x0: bv32, x1: bv32, x2: bv32, x3: bv32): State {
    State(Bytes(x0), Bytes(x1), Bytes(x2), Bytes(x3))
  }

  /** AES_FROUND with the round keys from RK on. */
  method FRound(rk: array<bv32>, r: nat, y0: bv32, y1: bv32, y2: bv32, y3: bv32)
    returns (x0: bv32, x1: bv32, x2: bv32, x3: bv32)
    requires r + 4 <= rk.Length
    ensures WordState(x0, x1, x2, x3)
         == Add(Mix(Shift(Sub(WordState(y0, y1, y2, y3)))), WordState(rk[r], rk[r + 1], rk[r + 2], rk[r + 3]))
  {
    hide Bytes, ForwardWord, MixQ, XorQ, SubQ, Diagonal;
    SubDiagonals(WordState(y0, y1, y2, y3));
    ForwardWordIs(rk[r], y0, y1, y2, y3);
    ForwardWordIs(rk[r + 1], y1, y2, y3, y0);
    ForwardWordIs(rk[r + 2], y2, y3, y0, y1);
    ForwardWordIs(rk[r + 3], y3, y0, y1, y2);
    x0 := ForwardWord(rk[r], y0, y1, y2, y3);
    x1 := ForwardWord(rk[r + 1], y1, y2, y3, y0);
    x2 := ForwardWord(rk[r + 2], y2, y3, y0, y1);
    x3 := ForwardWord(rk[r + 3], y3, y0, y1, y2);
  }

  /** SubBytes and ShiftRows in either order. */
  lemma SubDiagonals(s: State)
    ensures Shift(Sub(s)) == Sub(Shift(s)) && InvSub(InvShift(s)) == InvShift(InvSub(s))
  {
    hide FSb, RSb;
  }

  /** AES_RROUND */
  method RRound(rk: array<bv32>, r: nat, y0: bv32, y1: bv32, y2: bv32, y3: bv32)
    returns (x0: bv32, x1: bv32, x2: bv32, x3: bv32)
    requires r + 4 <= rk.Length
    ensures WordState(x0, x1, x2, x3)
         == Add(InvMix(InvSub(InvShift(WordState(y0, y1, y2, y3)))), WordState(rk[r], rk[r + 1], rk[r + 2], rk[r + 3]))
  {
    hide Bytes, BackwardWord, InvMixQ, XorQ, InvSubQ, Diagonal;
    BackwardWordIs(rk[r], y0, y3, y2, y1);
    BackwardWordIs(rk[r + 1], y1, y0, y3, y2);
    BackwardWordIs(rk[r + 2], y2, y1, y0, y3);
    BackwardWordIs(rk[r + 3], y3, y2, y1, y0);
    x0 := BackwardWord(rk[r], y0, y3, y2, y1);
    x1 := BackwardWord(rk[r + 1], y1, y0, y3, y2);
    x2 := BackwardWord(rk[r + 2], y2, y1, y0, y3);
    x3 := BackwardWord(rk[r + 3], y3, y2, y1, y0);
  }

  /** The last round, by the S-box alone. */
  method LastRound(rk: array<bv32>, decrypt: bool, y0: bv32, y1: bv32, y2: bv32, y3: bv32)
    returns (x0: bv32, x1: bv32, x2: bv32, x3: bv32)
    requires rk.Length == 68
    ensures var k := WordState(rk[56], rk[57], rk[58], rk[59]);
      WordState(x0, x1, x2, x3) == if decrypt then Add(InvSub(InvShift(WordState(y0, y1, y2, y3))), k)
                                   else Add(Shift(Sub(WordState(y0, y1, y2, y3))), k)
  {
    hide Bytes, LastForward, LastBackward, XorQ, SubQ, InvSubQ, Diagonal;
    SubDiagonals(WordState(y0, y1, y2, y3));
    if decrypt {
      LastWordIs(rk[56], y0, y3, y2, y1);
      LastWordIs(rk[57], y1, y0, y3, y2);
      LastWordIs(rk[58], y2, y1, y0, y3);
      LastWordIs(rk[59], y3, y2, y1, y0);
      x0 := LastBackward(rk[56], y0, y3, y2, y1);
      x1 := LastBackward(rk[57], y1, y0, y3, y2);
      x2 := LastBackward(rk[58], y2, y1, y0, y3);
      x3 := LastBackward(rk[59], y3, y2, y1, y0);
    } else {
      LastWordIs(rk[56], y0, y1, y2, y3);
      LastWordIs(rk[57], y1, y2, y3, y0);
      LastWordIs(rk[58], y2, y3, y0, y1);
      LastWordIs(rk[59], y3, y0, y1, y2);
      x0 := LastForward(rk[56], y0, y1, y2, y3);
      x1 := LastForward(rk[57], y1, y2, y3, y0);
      x2 := LastForward(rk[58], y2, y3, y0, y1);
      x3 := LastForward(rk[59], y3, y0, y1, y2);
    }
  }

  /** GET_UINT32_LE and the first key addition, for all four words. */
  method LoadBlock(rk: array<bv32>, input: seq<bv8>) returns (x0: bv32, x1: bv32, x2: bv32, x3: bv32)
    requires rk.Length == 68 && |input| == 16
    ensures WordState(x0, x1, x2, x3) == Add(StateOf(input), WordState(rk[0], rk[1], rk[2], rk[3]))
  {
    hide Bytes, Word, XorW, XorQ, QuadAt;
    BytesOfWord(QuadAt(input, 0));
    BytesOfWord(QuadAt(input, 1));
    BytesOfWord(QuadAt(input, 2));
    BytesOfWord(QuadAt(input, 3));
    BytesOfXor(Word(QuadAt(input, 0)), rk[0]);
    BytesOfXor(Word(QuadAt(input, 1)), rk[1]);
    BytesOfXor(Word(QuadAt(input, 2)), rk[2]);
    BytesOfXor(Word(QuadAt(input, 3)), rk[3]);
    x0 := XorW(Word(QuadAt(input, 0)), rk[0]);
    x1 := XorW(Word(QuadAt(input, 1)), rk[1]);
    x2 := XorW(Word(QuadAt(input, 2)), rk[2]);
    x3 := XorW(Word(QuadAt(input, 3)), rk[3]);
  }

  /** PUT_UINT32_LE */
  method PutWord(output: array<bv8>, i: nat, w: bv32)
    requires 4 * i + 4 <= output.Length
    modifies output
    ensures QuadAt(output[..], i) == Bytes(w)
    ensures forall j: nat :: j != i && 4 * j + 4 <= output.Length ==>
          QuadAt(output[..], j) == QuadAt(old(output[..]), j)
  {
    hide Byte0, Byte1, Byte2, Byte3;
    output[4 * i] := Byte0(w);
    output[4 * i + 1] := Byte1(w);
    output[4 * i + 2] := Byte2(w);
    output[4 * i + 3] := Byte3(w);
  }

  method StoreBlock(output: array<bv8>, x0: bv32, x1: bv32, x2: bv32, x3: bv32)
    requires output.Length == 16
    modifies output
    ensures StateOf(output[..]) == WordState(x0, x1, x2, x3)
  {
    hide Bytes, QuadAt;
    PutWord(output, 0, x0);
    PutWord(output, 1, x1);
    PutWord(output, 2, x2);
    PutWord(output, 3, x3);
  }

  lemma EncryptKeys(rk: seq<bv32>, key: seq<bv8>, r: nat)
    requires |key| == 32 && Scheduled(rk, key, 64) && r <= Nr
    ensures WordState(rk[4 * r], rk[4 * r + 1], rk[4 * r + 2], rk[4 * r + 3]) == RoundKeyAt(Schedule(key, 60), r)
  {
    hide Bytes, KeyWord;
  }

  /** aes_crypt_ecb, encrypting: two rounds at a time, then one, then the last. */
  method Encrypt(rk: array<bv32>, input: seq<bv8>, output: array<bv8>, ghost key: seq<bv8>)
    requires |key| == 32 && |input| == 16 && output.Length == 16 && Scheduled(rk[..], key, 64)
    modifies output
    ensures StateOf(output[..]) == CipherOf(StateOf(input), Schedule(key, 60))
  {
    hide Bytes, KeyWord, Add, Mix, Shift, Sub, RoundKeyAt, WordState, StateOf, Scheduled;
    ghost var s, w := StateOf(input), Schedule(key, 60);
    ScheduledSize(rk[..], key);
    EncryptKeys(rk[..], key, 0);
    var x0, x1, x2, x3 := LoadBlock(rk, input);
    var i, r := 6, 4;
    var y0, y1, y2, y3;
    while i > 0
      invariant 0 <= i <= 6 && r == 4 * (13 - 2 * i)
      invariant WordState(x0, x1, x2, x3) == AfterRounds(s, w, 12 - 2 * i)
    {
      EncryptKeys(rk[..], key, 13 - 2 * i);
      EncryptKeys(rk[..], key, 14 - 2 * i);
      y0, y1, y2, y3 := FRound(rk, r, x0, x1, x2, x3);
      x0, x1, x2, x3 := FRound(rk, r + 4, y0, y1, y2, y3);
      r := r + 8;
      i := i - 1;
    }
    EncryptKeys(rk[..], key, 13);
    EncryptKeys(rk[..], key, 14);
    y0, y1, y2, y3 := FRound(rk, r, x0, x1, x2, x3);
    x0, x1, x2, x3 := LastRound(rk, false, y0, y1, y2, y3);
    StoreBlock(output, x0, x1, x2, x3);
  }

  lemma ScheduledSize(rk: seq<bv32>, key: seq<bv8>)
    requires |key| == 32 && (Scheduled(rk, key, 64) || DecryptScheduled(rk, key, 60))
    ensures |rk| == 68
  {
  }

  /** A round of the equivalent inverse cipher is a round of the inverse cipher, InvMixColumns
      having gone through the key addition. */
  lemma EquivalentRound(s: State, w: seq<Quad>, r: nat)
    requires r < Nr - 1 && |w| >= 4 * (Nr + 1)
    ensures BeforeRound(s, w, r)
         == Add(InvMix(InvSub(InvShift(BeforeRound(s, w, r + 1)))), InvMix(RoundKeyAt(w, r + 1)))
  {
    hide InvSub, InvShift, InvMixQ, XorQ, RoundKeyAt;
    var t, k := InvSub(InvShift(BeforeRound(s, w, r + 1))), RoundKeyAt(w, r + 1);
    InvMixLinear(t.c0, k.c0);
    InvMixLinear(t.c1, k.c1);
    InvMixLinear(t.c2, k.c2);
    InvMixLinear(t.c3, k.c3);
  }

  /** The words that round r = Nr - q of decryption adds. */
  lemma DecryptKeys(rk: seq<bv32>, key: seq<bv8>, q: nat)
    requires |key| == 32 && DecryptScheduled(rk, key, 60) && q <= Nr
    ensures var k := RoundKeyAt(Schedule(key, 60), Nr - q);
      WordState(rk[4 * q], rk[4 * q + 1], rk[4 * q + 2], rk[4 * q + 3]) == if q == 0 || q == Nr then k else InvMix(k)
  {
    hide Bytes, KeyWord, InvMixQ;
    InFour(q, 0);
    InFour(q, 1);
    InFour(q, 2);
    InFour(q, 3);
  }

  /** aes_crypt_ecb, decrypting, with the transformed schedule. */
  method Decrypt(rk: array<bv32>, input: seq<bv8>, output: array<bv8>, ghost key: seq<bv8>)
    requires |key| == 32 && |input| == 16 && output.Length == 16 && DecryptScheduled(rk[..], key, 60)
    modifies output
    ensures StateOf(output[..]) == InvCipherOf(StateOf(input), Schedule(key, 60))
  {
    hide Bytes, KeyWord, Add, InvMix, InvShift, InvSub, RoundKeyAt, WordState, StateOf, DecryptScheduled, BeforeRound;
    ghost var s, w := StateOf(input), Schedule(key, 60);
    ScheduledSize(rk[..], key);
    DecryptKeys(rk[..], key, 0);
    FirstBefore(s, w);
    var x0, x1, x2, x3 := LoadBlock(rk, input);
    var i, r := 6, 4;
    var y0, y1, y2, y3;
    while i > 0
      invariant 0 <= i <= 6 && r == 4 * (13 - 2 * i)
      invariant WordState(x0, x1, x2, x3) == BeforeRound(s, w, 1 + 2 * i)
    {
      DecryptKeys(rk[..], key, 13 - 2 * i);
      DecryptKeys(rk[..], key, 14 - 2 * i);
      EquivalentRound(s, w, 2 * i);
      EquivalentRound(s, w, 2 * i - 1);
      y0, y1, y2, y3 := RRound(rk, r, x0, x1, x2, x3);
      x0, x1, x2, x3 := RRound(rk, r + 4, y0, y1, y2, y3);
      r := r + 8;
      i := i - 1;
    }
    DecryptKeys(rk[..], key, 13);
    DecryptKeys(rk[..], key, 14);
    EquivalentRound(s, w, 0);
    y0, y1, y2, y3 := RRound(rk, r, x0, x1, x2, x3);
    x0, x1, x2, x3 := LastRound(rk, true, y0, y1, y2, y3);
    StoreBlock(output, x0, x1, x2, x3);
  }

  lemma FirstBefore(s: State, w: seq<Quad>)
    requires |w| >= 4 * (Nr + 1)
    ensures BeforeRound(s, w, Nr - 1) == Add(s, RoundKeyAt(w, Nr))
  {
  }

  // ---- What the two implementations have in common ----------------------------------------

  lemma SameBytes(a: seq<bv8>, b: seq<bv8>)
    requires |a| == |b| == 16 && StateOf(a) == StateOf(b)
    ensures a == b
  {
    forall k | 0 <= k < 16 ensures a[k] == b[k] {
      if k < 4 {} else if k < 8 {} else if k < 12 {}
    }
  }

  /** For every 256-bit key and block, PolarSSL encrypts as tiny-AES does, and its decryption
      gives the block back. */
  method BothImplementations(key: seq<bv8>, block: seq<bv8>)
      returns (words: array<bv8>, bytes: array<bv8>, back: array<bv8>)
    requires |key| == 32 && |block| == 16
    ensures words.Length == bytes.Length == back.Length == 16
    ensures words[..] == bytes[..] && back[..] == block
    ensures StateOf(words[..]) == CipherOf(StateOf(block), Schedule(key, 60))
  {
    hide CipherOf, InvCipherOf, StateOf, KeyWord, QuadAt, Bytes;
    ghost var w := Schedule(key, 60);
    var roundKey := new bv8[240];
    KeyExpansion(roundKey, key);
    assert Holds(roundKey[..], w);
    bytes := new bv8[16](i requires 0 <= i < 16 => block[i]);
    assert bytes[..] == block;
    Cipher(bytes, roundKey, w);
    var rk := new bv32[68];
    SetkeyEnc(rk, key);
    words := new bv8[16];
    Encrypt(rk, block, words, key);
    SameBytes(words[..], bytes[..]);
    var dk := new bv32[68];
    SetkeyDec(dk, key);
    back := new bv8[16];
    Decrypt(dk, words[..], back, key);
    InvCipherInverts(StateOf(block), w);
    SameBytes(back[..], block);
  }
}
