/** tiny-AES-c for 256-bit keys: the key expansion, the cipher and the inverse cipher on a state of
    bytes, in place (tiny-AES-c-master/aes.c). */
module AesTiny {
  import opened ByteXor
  import opened AesBytes

  const Nk := 8
  const Nr := 14

  /** The sixteen bytes of a block, as four columns. */
  datatype State = State(c0: Quad, c1: Quad, c2: Quad, c3: Quad)

  // ---- The rounds as functions ------------------------------------------------------------

  function QuadAt(b: seq<bv8>, i: nat): Quad
    requires 4 * i + 4 <= |b|
  {
    Quad(b[4 * i], b[4 * i + 1], b[4 * i + 2], b[4 * i + 3])
  }

  function StateOf(b: seq<bv8>): State
    requires |b| == 16
  {
    State(QuadAt(b, 0), QuadAt(b, 1), QuadAt(b, 2), QuadAt(b, 3))
  }

  function Sub(s: State): State {
    State(SubQ(s.c0), SubQ(s.c1), SubQ(s.c2), SubQ(s.c3))
  }

  function InvSub(s: State): State {
    State(InvSubQ(s.c0), InvSubQ(s.c1), InvSubQ(s.c2), InvSubQ(s.c3))
  }

  /** Column a after its rows 1, 2 and 3 have come from columns b, c and d. */
  function Diagonal(a: Quad, b: Quad, c: Quad, d: Quad): Quad {
    Quad(a.b0, b.b1, c.b2, d.b3)
  }

  function Shift(s: State): State {
    State(Diagonal(s.c0, s.c1, s.c2, s.c3), Diagonal(s.c1, s.c2, s.c3, s.c0),
          Diagonal(s.c2, s.c3, s.c0, s.c1), Diagonal(s.c3, s.c0, s.c1, s.c2))
  }

  function InvShift(s: State): State {
    State(Diagonal(s.c0, s.c3, s.c2, s.c1), Diagonal(s.c1, s.c0, s.c3, s.c2),
          Diagonal(s.c2, s.c1, s.c0, s.c3), Diagonal(s.c3, s.c2, s.c1, s.c0))
  }

  function Mix(s: State): State {
    State(MixQ(s.c0), MixQ(s.c1), MixQ(s.c2), MixQ(s.c3))
  }

  function InvMix(s: State): State {
    State(InvMixQ(s.c0), InvMixQ(s.c1), InvMixQ(s.c2), InvMixQ(s.c3))
  }

  function Add(s: State, k: State): State {
    State(XorQ(s.c0, k.c0), XorQ(s.c1, k.c1), XorQ(s.c2, k.c2), XorQ(s.c3, k.c3))
  }

  /** The words of a key schedule that round r adds. */
  function RoundKeyAt(w: seq<Quad>, r: nat): State
    requires 4 * r + 4 <= |w|
  {
    State(w[4 * r], w[4 * r + 1], w[4 * r + 2], w[4 * r + 3])
  }

  /** The state after the first addition and r full rounds. */
  function AfterRounds(s: State, w: seq<Quad>, r: nat): State
    requires 4 * r + 4 <= |w|
  {
    if r == 0 then Add(s, RoundKeyAt(w, 0))
    else Add(Mix(Shift(Sub(AfterRounds(s, w, r - 1)))), RoundKeyAt(w, r))
  }

  /** The cipher of section 5.1 of FIPS 197. */
  function CipherOf(s: State, w: seq<Quad>): State
    requires |w| >= 4 * (Nr + 1)
  {
    Add(Shift(Sub(AfterRounds(s, w, Nr - 1))), RoundKeyAt(w, Nr))
  }

  /** The inverse cipher of section 5.3 before round r. */
  function BeforeRound(s: State, w: seq<Quad>, r: nat): State
    requires r < Nr && |w| >= 4 * (Nr + 1)
    decreases Nr - r
  {
    if r == Nr - 1 then Add(s, RoundKeyAt(w, Nr))
    else InvMix(Add(InvSub(InvShift(BeforeRound(s, w, r + 1))), RoundKeyAt(w, r + 1)))
  }

  function InvCipherOf(s: State, w: seq<Quad>): State
    requires |w| >= 4 * (Nr + 1)
  {
    Add(InvSub(InvShift(BeforeRound(s, w, 0))), RoundKeyAt(w, 0))
  }

  // ---- The inverse cipher inverts the cipher ----------------------------------------------

  lemma SubInverse(a: Quad)
    ensures InvSubQ(SubQ(a)) == a
  {
    hide FSb, RSb;
    BoxesInverse(a.b0);
    BoxesInverse(a.b1);
    BoxesInverse(a.b2);
    BoxesInverse(a.b3);
  }

  lemma AddTwiceQ(a: Quad, k: Quad)
    ensures XorQ(XorQ(a, k), k) == a
  {
    hide Xor;
    XorTwice(a.b0, k.b0);
    XorTwice(a.b1, k.b1);
    XorTwice(a.b2, k.b2);
    XorTwice(a.b3, k.b3);
  }

  lemma AddTwice(s: State, k: State)
    ensures Add(Add(s, k), k) == s
  {
    hide XorQ;
    AddTwiceQ(s.c0, k.c0);
    AddTwiceQ(s.c1, k.c1);
    AddTwiceQ(s.c2, k.c2);
    AddTwiceQ(s.c3, k.c3);
  }

  lemma UndoShiftSub(s: State)
    ensures InvSub(InvShift(Shift(Sub(s)))) == s
  {
    hide SubQ, InvSubQ;
    var t := Sub(s);
    assert InvShift(Shift(t)) == t;
    SubInverse(s.c0);
    SubInverse(s.c1);
    SubInverse(s.c2);
    SubInverse(s.c3);
  }

  lemma UndoMix(s: State)
    ensures InvMix(Mix(s)) == s
  {
    hide MixQ, InvMixQ;
    InvMixMix(s.c0);
    InvMixMix(s.c1);
    InvMixMix(s.c2);
    InvMixMix(s.c3);
  }

  /** Going back, the inverse cipher meets the states of the cipher, after SubBytes and
      ShiftRows. */
  lemma {:induction false} MeetsRound(s: State, w: seq<Quad>, r: nat)
    requires r < Nr && |w| >= 4 * (Nr + 1)
    ensures BeforeRound(CipherOf(s, w), w, r) == Shift(Sub(AfterRounds(s, w, r)))
    decreases Nr - r
  {
    hide Add, Shift, InvShift, Sub, InvSub, Mix, InvMix, RoundKeyAt;
    if r == Nr - 1 {
      AddTwice(Shift(Sub(AfterRounds(s, w, r))), RoundKeyAt(w, Nr));
    } else {
      MeetsRound(s, w, r + 1);
      var m := Mix(Shift(Sub(AfterRounds(s, w, r))));
      UndoShiftSub(AfterRounds(s, w, r + 1));
      assert AfterRounds(s, w, r + 1) == Add(m, RoundKeyAt(w, r + 1));
      AddTwice(m, RoundKeyAt(w, r + 1));
      UndoMix(Shift(Sub(AfterRounds(s, w, r))));
    }
  }

  /** Decryption undoes encryption, for every key schedule. */
  lemma InvCipherInverts(s: State, w: seq<Quad>)
    requires |w| >= 4 * (Nr + 1)
    ensures InvCipherOf(CipherOf(s, w), w) == s
  {
    hide Add, Shift, InvShift, Sub, InvSub, Mix, InvMix, RoundKeyAt, CipherOf;
    MeetsRound(s, w, 0);
    UndoShiftSub(AfterRounds(s, w, 0));
    AddTwice(s, RoundKeyAt(w, 0));
  }

  // ---- The key expansion ------------------------------------------------------------------

  /** Rcon[i], for the i that 256-bit keys use. */
  function Rcon(i: nat): bv8 {
    if i == 1 then 0x01 else if i == 2 then 0x02 else if i == 3 then 0x04 else if i == 4 then 0x08
    else if i == 5 then 0x10 else if i == 6 then 0x20 else if i == 7 then 0x40 else if i == 8 then 0x80
    else if i == 9 then 0x1B else if i == 10 then 0x36 else 0x8D
  }

  function RotQ(a: Quad): Quad {
    Quad(a.b1, a.b2, a.b3, a.b0)
  }

  /** What is added to word i - 8 to make word i, from word i - 1. */
  function KeyTemp(i: nat, prev: Quad): Quad {
    if i % Nk == 0 then XorQ(SubQ(RotQ(prev)), Quad(Rcon(i / Nk), 0, 0, 0))
    else if i % Nk == 4 then SubQ(prev)
    else prev
  }

  /** Word i of the schedule of section 5.2 of FIPS 197. */
  function KeyWord(key: seq<bv8>, i: nat): Quad
    requires |key| == 32
  {
    if i < Nk then QuadAt(key, i)
    else XorQ(KeyWord(key, i - Nk), KeyTemp(i, KeyWord(key, i - 1)))
  }

  /** The whole schedule. */
  function Schedule(key: seq<bv8>, n: nat): (w: seq<Quad>)
    requires |key| == 32
    ensures |w| == n && forall i :: 0 <= i < n ==> w[i] == KeyWord(key, i)
  {
    seq(n, i requires 0 <= i < n => KeyWord(key, i))
  }

  method RotateBytes(tempa: array<bv8>)
    requires tempa.Length == 4
    modifies tempa
    ensures tempa[..] == old([tempa[1], tempa[2], tempa[3], tempa[0]])
  {
    var u8tmp := tempa[0];
    tempa[0] := tempa[1];
    tempa[1] := tempa[2];
    tempa[2] := tempa[3];
    tempa[3] := u8tmp;
  }

  method SubstituteBytes(tempa: array<bv8>)
    requires tempa.Length == 4
    modifies tempa
    ensures tempa[..] == old([FSb(tempa[0]), FSb(tempa[1]), FSb(tempa[2]), FSb(tempa[3])])
  {
    hide FSb;
    tempa[0] := FSb(tempa[0]);
    tempa[1] := FSb(tempa[1]);
    tempa[2] := FSb(tempa[2]);
    tempa[3] := FSb(tempa[3]);
  }

  /** tempa of KeyExpansion, from the bytes of the word before. */
  method ExpansionTemp(i: nat, prev: Quad) returns (t: Quad)
    ensures t == KeyTemp(i, prev)
  {
    hide Xor, FSb;
    XorSelf(FSb(prev.b2));
    XorSelf(FSb(prev.b3));
    XorSelf(FSb(prev.b0));
    var tempa := new bv8[4];
    tempa[0], tempa[1], tempa[2], tempa[3] := prev.b0, prev.b1, prev.b2, prev.b3;
    if i % Nk == 0 {
      RotateBytes(tempa);
      SubstituteBytes(tempa);
      tempa[0] := Xor(tempa[0], Rcon(i / Nk));
    }
    if i % Nk == 4 {
      SubstituteBytes(tempa);
    }
    t := Quad(tempa[0], tempa[1], tempa[2], tempa[3]);
  }

  /** Storing word i of the schedule. */
  method StoreWord(a: array<bv8>, i: nat, q: Quad)
    requires 4 * i + 4 <= a.Length
    modifies a
    ensures QuadAt(a[..], i) == q
    ensures forall j: nat :: j != i && 4 * j + 4 <= a.Length ==> QuadAt(a[..], j) == QuadAt(old(a[..]), j)
  {
    a[4 * i] := q.b0;
    a[4 * i + 1] := q.b1;
    a[4 * i + 2] := q.b2;
    a[4 * i + 3] := q.b3;
  }

  /** KeyExpansion. */
  method KeyExpansion(roundKey: array<bv8>, key: seq<bv8>)
    requires roundKey.Length == 240 && |key| == 32
    modifies roundKey
    ensures forall i: nat :: i < 60 ==> QuadAt(roundKey[..], i) == KeyWord(key, i)
  {
    hide XorQ, KeyTemp, QuadAt;
    var i := 0;
    while i < Nk
      invariant i <= Nk && forall j: nat :: j < i ==> QuadAt(roundKey[..], j) == KeyWord(key, j)
    {
      StoreWord(roundKey, i, QuadAt(key, i));
      i := i + 1;
    }
    while i < 60
      invariant Nk <= i <= 60 && forall j: nat :: j < i ==> QuadAt(roundKey[..], j) == KeyWord(key, j)
    {
      var tempa := ExpansionTemp(i, QuadAt(roundKey[..], i - 1));
      StoreWord(roundKey, i, XorQ(QuadAt(roundKey[..], i - Nk), tempa));
      i := i + 1;
    }
  }

  // ---- The round functions, in place ------------------------------------------------------

  /** AddRoundKey */
  method AddRoundKey(round: nat, state: array<bv8>, roundKey: array<bv8>)
    requires state.Length == 16 && 16 * round + 16 <= roundKey.Length && state != roundKey
    modifies state
    ensures StateOf(state[..]) == Add(old(StateOf(state[..])), KeyState(roundKey[..], round))
  {
    hide Xor, StateOf, Add, KeyState;
    ghost var s := state[..];
    var i := 0;
    while i < 4
      invariant 0 <= i <= 4
      invariant forall k :: 0 <= k < 4 * i ==> state[k] == Xor(old(state[k]), roundKey[16 * round + k])
      invariant forall k :: 4 * i <= k < 16 ==> state[k] == old(state[k])
    {
      var j := 0;
      while j < 4
        invariant 0 <= j <= 4
        invariant forall k :: 0 <= k < 4 * i + j ==> state[k] == Xor(old(state[k]), roundKey[16 * round + k])
        invariant forall k :: 4 * i + j <= k < 16 ==> state[k] == old(state[k])
      {
        state[4 * i + j] := Xor(state[4 * i + j], roundKey[16 * round + 4 * i + j]);
        j := j + 1;
      }
      i := i + 1;
    }
    Added(s, state[..], roundKey[..], round);
  }

  lemma Added(s: seq<bv8>, t: seq<bv8>, b: seq<bv8>, round: nat)
    requires |s| == |t| == 16 && 16 * round + 16 <= |b|
    requires forall k :: 0 <= k < 16 ==> t[k] == Xor(s[k], b[16 * round + k])
    ensures StateOf(t) == Add(StateOf(s), KeyState(b, round))
  {
    hide Xor;
  }

  /** The bytes that AddRoundKey adds. */
  function KeyState(b: seq<bv8>, round: nat): State
    requires 16 * round + 16 <= |b|
  {
    State(QuadAt(b, 4 * round), QuadAt(b, 4 * round + 1), QuadAt(b, 4 * round + 2), QuadAt(b, 4 * round + 3))
  }

  /** SubBytes, row by row. */
  method SubBytes(state: array<bv8>)
    requires state.Length == 16
    modifies state
    ensures StateOf(state[..]) == Sub(old(StateOf(state[..])))
  {
    hide FSb;
    var i := 0;
    while i < 4
      invariant 0 <= i <= 4
      invariant forall k :: 0 <= k < 16 ==> state[k] == if k % 4 < i then FSb(old(state[k])) else old(state[k])
    {
      var j := 0;
      while j < 4
        invariant 0 <= j <= 4
        invariant forall k :: 0 <= k < 16 ==>
          state[k] == if k % 4 < i || (k % 4 == i && k / 4 < j) then FSb(old(state[k])) else old(state[k])
      {
        state[4 * j + i] := FSb(state[4 * j + i]);
        j := j + 1;
      }
      i := i + 1;
    }
  }

  /** InvSubBytes */
  method InvSubBytes(state: array<bv8>)
    requires state.Length == 16
    modifies state
    ensures StateOf(state[..]) == InvSub(old(StateOf(state[..])))
  {
    hide RSb;
    var i := 0;
    while i < 4
      invariant 0 <= i <= 4
      invariant forall k :: 0 <= k < 16 ==> state[k] == if k % 4 < i then RSb(old(state[k])) else old(state[k])
    {
      var j := 0;
      while j < 4
        invariant 0 <= j <= 4
        invariant forall k :: 0 <= k < 16 ==>
          state[k] == if k % 4 < i || (k % 4 == i && k / 4 < j) then RSb(old(state[k])) else old(state[k])
      {
        state[4 * j + i] := RSb(state[4 * j + i]);
        j := j + 1;
      }
      i := i + 1;
    }
  }

  /** ShiftRows; entry (i, j) of the source's state is byte 4 i + j. */
  method ShiftRows(state: array<bv8>)
    requires state.Length == 16
    modifies state
    ensures StateOf(state[..]) == Shift(old(StateOf(state[..])))
  {
    var temp := state[1];
    state[1] := state[5];
    state[5] := state[9];
    state[9] := state[13];
    state[13] := temp;
    temp := state[2];
    state[2] := state[10];
    state[10] := temp;
    temp := state[6];
    state[6] := state[14];
    state[14] := temp;
    temp := state[3];
    state[3] := state[15];
    state[15] := state[11];
    state[11] := state[7];
    state[7] := temp;
  }

  /** InvShiftRows */
  method InvShiftRows(state: array<bv8>)
    requires state.Length == 16
    modifies state
    ensures StateOf(state[..]) == InvShift(old(StateOf(state[..])))
  {
    var temp := state[13];
    state[13] := state[9];
    state[9] := state[5];
    state[5] := state[1];
    state[1] := temp;
    temp := state[2];
    state[2] := state[10];
    state[10] := temp;
    temp := state[6];
    state[6] := state[14];
    state[14] := temp;
    temp := state[3];
    state[3] := state[7];
    state[7] := state[11];
    state[11] := state[15];
    state[15] := temp;
  }

  /** What MixColumns adds to each byte of a column in turn. */
  lemma MixTerm(a: bv8, b: bv8, c: bv8, d: bv8)
    ensures Xor(a, Xor(Xtime(Xor(a, b)), Xor4(a, b, c, d))) == Row(Quad(a, b, c, d), 2, 3, 1, 1)
  {
    hide Xor, Xtime, Multiply;
    var p, q, xa, xb := Xor(a, b), Xor(c, d), Xtime(a), Xtime(b);
    var x := Xor(xa, xb);
    SmallFactors(a);
    SmallFactors(b);
    SmallFactors(c);
    SmallFactors(d);
    XtimeLinear(a, b);
    XorAssoc(x, p, q);
    XorAssoc(a, Xor(x, p), q);
    XorComm(x, p);
    XorAssoc(a, p, x);
    XorAssoc(a, a, b);
    XorSelf(a);
    XorSelf(b);
    XorAssoc(xa, b, xb);
    XorComm(xa, b);
    XorAssoc(b, xa, xb);
  }

  lemma SmallFactors(x: bv8)
    ensures Multiply(x, 1) == x && Multiply(x, 2) == Xtime(x) && Multiply(x, 3) == Xor(x, Xtime(x))
  {
    hide Xor, Xtime;
    XorSelf(x);
    XorSelf(Xtime(x));
    XorSelf(Xor(x, Xtime(x)));
    XorSelf(0);
  }

  lemma XorTurn(a: bv8, b: bv8, c: bv8, d: bv8)
    ensures Xor4(a, b, c, d) == Xor4(b, c, d, a)
  {
    hide Xor;
    XorAssoc(a, b, Xor(c, d));
    XorAssoc(b, c, d);
    XorComm(a, Xor(b, Xor(c, d)));
    XorAssoc(Xor(b, c), d, a);
  }

  lemma MixTerms(a: bv8, b: bv8, c: bv8, d: bv8)
    ensures var t := Xor4(a, b, c, d);
      MixQ(Quad(a, b, c, d)) == Quad(Xor(a, Xor(Xtime(Xor(a, b)), t)), Xor(b, Xor(Xtime(Xor(b, c)), t)),
                                     Xor(c, Xor(Xtime(Xor(c, d)), t)), Xor(d, Xor(Xtime(Xor(d, a)), t)))
  {
    hide Xor, Xor4, Xtime, Row;
    MixTerm(a, b, c, d);
    MixTerm(b, c, d, a);
    MixTerm(c, d, a, b);
    MixTerm(d, a, b, c);
    XorTurn(a, b, c, d);
    XorTurn(b, c, d, a);
    XorTurn(c, d, a, b);
    TurnRow(Quad(b, c, d, a), 1, 2, 3, 1);
    TurnRow(Quad(b, c, d, a), 1, 1, 2, 3);
    TurnRow(Quad(c, d, a, b), 1, 2, 3, 1);
    TurnRow(Quad(b, c, d, a), 3, 1, 1, 2);
    TurnRow(Quad(c, d, a, b), 1, 1, 2, 3);
    TurnRow(Quad(d, a, b, c), 1, 2, 3, 1);
  }

  /** The body of MixColumns on column i. */
  method MixColumn(state: array<bv8>, i: nat)
    requires state.Length == 16 && i < 4
    modifies state
    ensures QuadAt(state[..], i) == MixQ(old(QuadAt(state[..], i)))
    ensures forall j: nat :: j < 4 && j != i ==> QuadAt(state[..], j) == old(QuadAt(state[..], j))
  {
    hide Xor, Xor4, Xtime, MixQ;
    MixTerms(state[4 * i], state[4 * i + 1], state[4 * i + 2], state[4 * i + 3]);
    var t := state[4 * i];
    var tmp := Xor4(state[4 * i], state[4 * i + 1], state[4 * i + 2], state[4 * i + 3]);
    var tm := Xor(state[4 * i], state[4 * i + 1]);
    tm := Xtime(tm);
    state[4 * i] := Xor(state[4 * i], Xor(tm, tmp));
    tm := Xor(state[4 * i + 1], state[4 * i + 2]);
    tm := Xtime(tm);
    state[4 * i + 1] := Xor(state[4 * i + 1], Xor(tm, tmp));
    tm := Xor(state[4 * i + 2], state[4 * i + 3]);
    tm := Xtime(tm);
    state[4 * i + 2] := Xor(state[4 * i + 2], Xor(tm, tmp));
    tm := Xor(state[4 * i + 3], t);
    tm := Xtime(tm);
    state[4 * i + 3] := Xor(state[4 * i + 3], Xor(tm, tmp));
  }

  /** MixColumns */
  method MixColumns(state: array<bv8>)
    requires state.Length == 16
    modifies state
    ensures StateOf(state[..]) == Mix(old(StateOf(state[..])))
  {
    hide MixQ, QuadAt;
    var i := 0;
    while i < 4
      invariant 0 <= i <= 4
      invariant forall j: nat :: j < 4 ==>
            QuadAt(state[..], j) == if j < i then MixQ(old(QuadAt(state[..], j))) else old(QuadAt(state[..], j))
    {
      MixColumn(state, i);
      i := i + 1;
    }
  }

  /** The body of InvMixColumns on column i. */
  method InvMixColumn(state: array<bv8>, i: nat)
    requires state.Length == 16 && i < 4
    modifies state
    ensures QuadAt(state[..], i) == InvMixQ(old(QuadAt(state[..], i)))
    ensures forall j: nat :: j < 4 && j != i ==> QuadAt(state[..], j) == old(QuadAt(state[..], j))
  {
    hide Xor, Multiply;
    var a, b, c, d := state[4 * i], state[4 * i + 1], state[4 * i + 2], state[4 * i + 3];
    state[4 * i] := Xor4(Multiply(a, 0x0E), Multiply(b, 0x0B), Multiply(c, 0x0D), Multiply(d, 0x09));
    state[4 * i + 1] := Xor4(Multiply(a, 0x09), Multiply(b, 0x0E), Multiply(c, 0x0B), Multiply(d, 0x0D));
    state[4 * i + 2] := Xor4(Multiply(a, 0x0D), Multiply(b, 0x09), Multiply(c, 0x0E), Multiply(d, 0x0B));
    state[4 * i + 3] := Xor4(Multiply(a, 0x0B), Multiply(b, 0x0D), Multiply(c, 0x09), Multiply(d, 0x0E));
  }

  /** InvMixColumns */
  method InvMixColumns(state: array<bv8>)
    requires state.Length == 16
    modifies state
    ensures StateOf(state[..]) == InvMix(old(StateOf(state[..])))
  {
    hide InvMixQ, QuadAt;
    var i := 0;
    while i < 4
      invariant 0 <= i <= 4
      invariant forall j: nat :: j < 4 ==>
            QuadAt(state[..], j) == if j < i then InvMixQ(old(QuadAt(state[..], j))) else old(QuadAt(state[..], j))
    {
      InvMixColumn(state, i);
      i := i + 1;
    }
  }

  // ---- The ciphers, in place --------------------------------------------------------------

  /** The bytes of the round keys are the words w. */
  predicate Holds(b: seq<bv8>, w: seq<Quad>) {
    |b| == 240 && |w| == 60 && forall i: nat :: i < 60 ==> QuadAt(b, i) == w[i]
  }

  lemma HoldsRound(b: seq<bv8>, w: seq<Quad>, round: nat)
    requires Holds(b, w) && round <= Nr
    ensures KeyState(b, round) == RoundKeyAt(w, round)
  {
    hide QuadAt;
  }

  /** Cipher */
  method Cipher(state: array<bv8>, roundKey: array<bv8>, ghost w: seq<Quad>)
    requires state.Length == 16 && state != roundKey && Holds(roundKey[..], w)
    modifies state
    ensures StateOf(state[..]) == CipherOf(old(StateOf(state[..])), w)
  {
    hide Add, Shift, Sub, Mix, StateOf, Holds, KeyState, RoundKeyAt, QuadAt;
    ghost var s, k := StateOf(state[..]), roundKey[..];
    HoldsSize(k, w);
    HoldsRound(k, w, 0);
    AddRoundKey(0, state, roundKey);
    var round := 1;
    while round < Nr
      invariant 1 <= round <= Nr && roundKey[..] == k
      invariant StateOf(state[..]) == AfterRounds(s, w, round - 1)
    {
      SubBytes(state);
      ShiftRows(state);
      MixColumns(state);
      HoldsRound(k, w, round);
      AddRoundKey(round, state, roundKey);
      round := round + 1;
    }
    SubBytes(state);
    ShiftRows(state);
    HoldsRound(k, w, Nr);
    AddRoundKey(Nr, state, roundKey);
  }

  lemma HoldsSize(b: seq<bv8>, w: seq<Quad>)
    requires Holds(b, w)
    ensures |b| == 240 && |w| == 60
  {
  }

  /** InvCipher */
  method InvCipher(state: array<bv8>, roundKey: array<bv8>, ghost w: seq<Quad>)
    requires state.Length == 16 && state != roundKey && Holds(roundKey[..], w)
    modifies state
    ensures StateOf(state[..]) == InvCipherOf(old(StateOf(state[..])), w)
  {
    hide Add, InvShift, InvSub, InvMix, StateOf, Holds, KeyState, RoundKeyAt, QuadAt;
    ghost var s, k := StateOf(state[..]), roundKey[..];
    HoldsSize(k, w);
    HoldsRound(k, w, Nr);
    AddRoundKey(Nr, state, roundKey);
    var round := Nr - 1;
    while round > 0
      invariant 0 <= round <= Nr - 1 && roundKey[..] == k
      invariant StateOf(state[..]) == BeforeRound(s, w, round)
    {
      InvShiftRows(state);
      InvSubBytes(state);
      HoldsRound(k, w, round);
      AddRoundKey(round, state, roundKey);
      InvMixColumns(state);
      round := round - 1;
    }
    InvShiftRows(state);
    InvSubBytes(state);
    HoldsRound(k, w, 0);
    AddRoundKey(0, state, roundKey);
  }
}
