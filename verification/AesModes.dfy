/** The streaming modes over any block function: counter mode (section 6.5 of NIST SP 800-38A) and
    128-bit cipher feedback of PolarSSL, and counter mode of tiny-AES. */
module AesModes {
  import opened Arith
  import opened ByteXor

  type Block = b: seq<bv8> | |b| == 16 witness seq(16, _ => 0)

  // ---- The counter ------------------------------------------------------------------------

  /** Adding one to a big-endian number, wrapping around. */
  function Increment(c: seq<bv8>): (r: seq<bv8>)
    ensures |r| == |c|
  {
    if c == [] then []
    else
      var n := |c| - 1;
      if c[n] == 0xFF then Increment(c[..n]) + [0] else c[..n] + [c[n] + 1]
  }

  ghost function BigEndian(c: seq<bv8>): nat {
    if c == [] then 0 else 256 * BigEndian(c[..|c| - 1]) + c[|c| - 1] as nat
  }

  lemma {:induction false} BigEndianBound(c: seq<bv8>)
    ensures BigEndian(c) < Pow(256, |c|)
  {
    hide Pow;
    PowOne(256);
    if c != [] {
      BigEndianBound(c[..|c| - 1]);
      PowSucc(256, |c| - 1);
    }
  }

  lemma NextByte(x: bv8)
    ensures x != 0xFF ==> (x + 1) as nat == x as nat + 1
    ensures x == 0xFF ==> x as nat == 255 && x + 1 == 0
    ensures x as nat < 256
  {
  }

  lemma BigEndianLast(c: seq<bv8>)
    requires c != []
    ensures BigEndian(c) == 256 * BigEndian(c[..|c| - 1]) + c[|c| - 1] as nat
  {
  }

  /** Increment adds one modulo 256 to the number of bytes. */
  lemma {:induction false} IncrementAdds(c: seq<bv8>)
    ensures BigEndian(Increment(c)) == (BigEndian(c) + 1) % Pow(256, |c|)
  {
    hide Pow, BigEndian;
    PowOne(256);
    if c == [] {
      EmptyNumber();
      DivUnique(1, 1, 0, 1);
    } else {
      var n := |c| - 1;
      var r, p := Increment(c), Pow(256, n);
      NextByte(c[n]);
      PowSucc(256, n);
      BigEndianLast(c);
      BigEndianLast(r);
      if c[n] == 0xFF {
        IncrementAdds(c[..n]);
        assert r[..n] == Increment(c[..n]) && r[n] == 0;
        CarryOut(BigEndian(c[..n]) + 1, p);
      } else {
        assert r[..n] == c[..n] && r[n] == c[n] + 1;
        BigEndianBound(r);
        DivUnique(BigEndian(c) + 1, 0, BigEndian(c) + 1, Pow(256, |c|));
      }
    }
  }

  lemma EmptyNumber()
    ensures BigEndian([]) == 0
  {
  }

  lemma CarryOut(x: nat, p: nat)
    requires p > 0
    ensures 256 * (x % p) == (256 * x) % (256 * p)
  {
    DivMod(x, p);
    var q, r := x / p, x % p;
    assert 256 * x == q * (256 * p) + 256 * r by { MulDist(q * p, r, 256); MulSwap(q, p, 256); MulAssoc(q, p, 256); }
    DivUnique(256 * x, q, 256 * r, 256 * p);
  }

  /** The counter after j increments. */
  function CounterAt(c: Block, j: nat): Block {
    if j == 0 then c else Increment(CounterAt(c, j - 1))
  }

  lemma {:induction false} CounterValue(c: Block, j: nat)
    ensures BigEndian(CounterAt(c, j)) == (BigEndian(c) + j) % Pow(256, 16)
  {
    hide Pow, BigEndian;
    PowMono(256, 0, 16);
    PowOne(256);
    var m := Pow(256, 16);
    if j == 0 {
      BigEndianBound(c);
      DivUnique(BigEndian(c), 0, BigEndian(c), m);
    } else {
      CounterValue(c, j - 1);
      IncrementAdds(CounterAt(c, j - 1));
      AddAfterMod(BigEndian(c) + j - 1, m);
    }
  }

  lemma AddAfterMod(x: nat, m: nat)
    requires m > 0
    ensures (x % m + 1) % m == (x + 1) % m
  {
    DivMod(x, m);
    ModMultiple(x % m + 1, x / m, m);
  }

  lemma {:induction false} CounterShift(c: Block, j: nat)
    ensures CounterAt(Increment(c), j) == CounterAt(c, j + 1)
  {
    if j > 0 { CounterShift(c, j - 1); }
  }

  // ---- Counter mode -----------------------------------------------------------------------

  /** nc_off, nonce_counter and stream_block. */
  datatype Ctr = Ctr(n: nat, counter: Block, stream: Block)

  /** The state in which a byte is processed: a new keystream block every sixteen bytes. */
  function Refresh(E: Block -> Block, s: Ctr): Ctr {
    if s.n == 0 then Ctr(0, Increment(s.counter), E(s.counter)) else s
  }

  function Advance(E: Block -> Block, s: Ctr): Ctr {
    var t := Refresh(E, s);
    t.(n := (t.n + 1) % 16)
  }

  /** The state after a number of bytes, which does not depend on what they are. */
  function CtrAfter(E: Block -> Block, s: Ctr, k: nat): (t: Ctr)
    requires s.n < 16
    ensures t.n < 16
  {
    if k == 0 then s else Advance(E, CtrAfter(E, s, k - 1))
  }

  /** Byte k of the keystream. */
  function KeyByte(E: Block -> Block, s: Ctr, k: nat): bv8
    requires s.n < 16
  {
    var t := Refresh(E, CtrAfter(E, s, k));
    t.stream[t.n]
  }

  /** The output for an input. */
  function CtrOutput(E: Block -> Block, s: Ctr, input: seq<bv8>): (o: seq<bv8>)
    requires s.n < 16
    ensures |o| == |input| && forall k :: 0 <= k < |o| ==> o[k] == Xor(input[k], KeyByte(E, s, k))
  {
    seq(|input|, k requires 0 <= k < |input| => Xor(input[k], KeyByte(E, s, k)))
  }

  /** The bytes from i on were 255 and are now 0. */
  ghost predicate Carried(s: seq<bv8>, i: nat, c: seq<bv8>) {
    i <= |s| && c == s[..i] + seq(|s| - i, _ => 0) && Increment(s) == Increment(s[..i]) + seq(|s| - i, _ => 0)
  }

  lemma CarriedStart(s: seq<bv8>)
    ensures Carried(s, |s|, s)
  {
    assert s[..|s|] == s;
  }

  lemma CarriedByte(s: seq<bv8>, i: nat, c: seq<bv8>)
    requires 0 < i && Carried(s, i, c)
    ensures |c| == |s| && c[i - 1] == s[i - 1] && (s[i - 1] + 1 == 0 <==> s[i - 1] == 0xFF)
  {
  }

  lemma CarriedOut(s: seq<bv8>, c: seq<bv8>)
    requires Carried(s, 0, c)
    ensures c == Increment(s)
  {
  }

  lemma CarryFurther(s: seq<bv8>, i: nat, c: seq<bv8>)
    requires 0 < i && |c| == |s| && Carried(s, i, c) && s[i - 1] == 0xFF
    ensures Carried(s, i - 1, c[i - 1 := 0])
  {
    assert s[..i][..i - 1] == s[..i - 1];
    assert [0] + seq(|s| - i, _ => 0) == seq(|s| - i + 1, _ => 0 as bv8);
    assert c[i - 1 := 0] == s[..i - 1] + ([0] + seq(|s| - i, _ => 0));
  }

  lemma CarryStops(s: seq<bv8>, i: nat, c: seq<bv8>)
    requires 0 < i && |c| == |s| && Carried(s, i, c) && s[i - 1] != 0xFF
    ensures c[i - 1 := s[i - 1] + 1] == Increment(s)
  {
    assert s[..i][..i - 1] == s[..i - 1];
  }

  /** PolarSSL's loop: for( i = 16; i > 0; i-- ) if( ++nonce_counter[i - 1] != 0 ) break. */
  method IncrementInPlace(c: array<bv8>)
    modifies c
    ensures c[..] == Increment(old(c[..]))
  {
    hide *;
    ghost var s := c[..];
    CarriedStart(s);
    var i := c.Length;
    while i > 0
      invariant 0 <= i <= c.Length && Carried(s, i, c[..])
    {
      ghost var before := c[..];
      CarriedByte(s, i, before);
      c[i - 1] := c[i - 1] + 1;
      assert c[..] == before[i - 1 := s[i - 1] + 1];
      if c[i - 1] != 0 {
        CarryStops(s, i, before);
        return;
      }
      CarryFurther(s, i, before);
      i := i - 1;
    }
    CarriedOut(s, c[..]);
  }

  /** tiny-AES's loop: a byte 255 becomes 0 and the carry goes on, another byte takes it. */
  method IncrementIv(iv: array<bv8>)
    requires iv.Length == 16
    modifies iv
    ensures iv[..] == Increment(old(iv[..]))
  {
    hide *;
    ghost var s := iv[..];
    CarriedStart(s);
    var bi := 15;
    while bi >= 0
      invariant -1 <= bi <= 15 && Carried(s, bi + 1, iv[..])
    {
      ghost var before := iv[..];
      CarriedByte(s, bi + 1, before);
      if iv[bi] == 0xFF {
        iv[bi] := 0;
        assert iv[..] == before[bi := 0];
        CarryFurther(s, bi + 1, before);
        bi := bi - 1;
      } else {
        iv[bi] := iv[bi] + 1;
        assert iv[..] == before[bi := s[bi] + 1];
        CarryStops(s, bi + 1, before);
        return;
      }
    }
    CarriedOut(s, iv[..]);
  }

  /** memcpy of sixteen bytes. */
  method CopyBlock(block: Block, a: array<bv8>)
    requires a.Length == 16
    modifies a
    ensures a[..] == block
  {
    forall k | 0 <= k < 16 { a[k] := block[k]; }
  }

  /** The block taken when nc_off is 0. */
  method RefreshInPlace(E: Block -> Block, n: nat, nonceCounter: array<bv8>, streamBlock: array<bv8>)
    requires nonceCounter.Length == 16 && streamBlock.Length == 16 && nonceCounter != streamBlock
    modifies nonceCounter, streamBlock
    ensures Ctr(n, nonceCounter[..], streamBlock[..]) == Refresh(E, Ctr(n, old(nonceCounter[..]), old(streamBlock[..])))
  {
    hide Increment;
    if n == 0 {
      ghost var c := nonceCounter[..];
      CopyBlock(E(nonceCounter[..]), streamBlock);
      assert nonceCounter[..] == c;
      IncrementInPlace(nonceCounter);
      assert streamBlock[..] == E(c);
    }
  }

  /** aes_crypt_ctr: nonce_counter and stream_block are updated in place, nc_off is returned. */
  method CryptCtr(E: Block -> Block, off: nat, nonceCounter: array<bv8>, streamBlock: array<bv8>, input: seq<bv8>)
    returns (off': nat, output: seq<bv8>)
    requires off < 16 && nonceCounter.Length == 16 && streamBlock.Length == 16 && nonceCounter != streamBlock
    modifies nonceCounter, streamBlock
    ensures output == CtrOutput(E, Ctr(off, old(nonceCounter[..]), old(streamBlock[..])), input)
    ensures Ctr(off', nonceCounter[..], streamBlock[..])
         == CtrAfter(E, Ctr(off, old(nonceCounter[..]), old(streamBlock[..])), |input|)
  {
    hide Xor, Increment, Refresh;
    ghost var s := Ctr(off, nonceCounter[..], streamBlock[..]);
    var n: nat := off;
    output := [];
    while |output| < |input|
      invariant |output| <= |input| && n < 16
      invariant Ctr(n, nonceCounter[..], streamBlock[..]) == CtrAfter(E, s, |output|)
      invariant forall k :: 0 <= k < |output| ==> output[k] == Xor(input[k], KeyByte(E, s, k))
    {
      RefreshInPlace(E, n, nonceCounter, streamBlock);
      RefreshKeepsOffset(E, CtrAfter(E, s, |output|));
      output := output + [Xor(input[|output|], streamBlock[n])];
      n := (n + 1) % 16;
    }
    off' := n;
  }

  lemma RefreshKeepsOffset(E: Block -> Block, s: Ctr)
    ensures Refresh(E, s).n == s.n
  {
  }

  lemma {:induction false} CtrAfterSum(E: Block -> Block, s: Ctr, j: nat, k: nat)
    requires s.n < 16
    ensures CtrAfter(E, CtrAfter(E, s, j), k) == CtrAfter(E, s, j + k)
  {
    if k > 0 { CtrAfterSum(E, s, j, k - 1); }
  }

  /** Splitting a buffer: the same output, and the same state at the end. */
  lemma CtrSplit(E: Block -> Block, s: Ctr, a: seq<bv8>, b: seq<bv8>)
    requires s.n < 16
    ensures CtrOutput(E, s, a + b) == CtrOutput(E, s, a) + CtrOutput(E, CtrAfter(E, s, |a|), b)
    ensures CtrAfter(E, s, |a + b|) == CtrAfter(E, CtrAfter(E, s, |a|), |b|)
  {
    hide *;
    CtrAfterSplit(E, s, a, b);
    CtrOutputSplit(E, s, CtrAfter(E, s, |a|), a, b);
  }

  lemma CtrAfterSplit(E: Block -> Block, s: Ctr, a: seq<bv8>, b: seq<bv8>)
    requires s.n < 16
    ensures CtrAfter(E, s, |a + b|) == CtrAfter(E, CtrAfter(E, s, |a|), |b|)
  {
    hide *;
    CtrAfterSum(E, s, |a|, |b|);
  }

  lemma CtrOutputSplit(E: Block -> Block, s: Ctr, t: Ctr, a: seq<bv8>, b: seq<bv8>)
    requires s.n < 16 && t == CtrAfter(E, s, |a|)
    ensures CtrOutput(E, s, a + b) == CtrOutput(E, s, a) + CtrOutput(E, t, b)
  {
    hide *;
    var w, l, r := CtrOutput(E, s, a + b), CtrOutput(E, s, a), CtrOutput(E, t, b);
    forall k: nat | k < |w| ensures w[k] == if k < |l| then l[k] else r[k - |l|] {
      CtrSplitAt(E, s, a, b, k);
    }
    Concatenated(w, l, r);
  }

  lemma CtrSplitAt(E: Block -> Block, s: Ctr, a: seq<bv8>, b: seq<bv8>, k: nat)
    requires s.n < 16 && k < |a| + |b|
    ensures CtrOutput(E, s, a + b)[k]
         == if k < |a| then CtrOutput(E, s, a)[k] else CtrOutput(E, CtrAfter(E, s, |a|), b)[k - |a|]
  {
    hide *;
    if k >= |a| { KeyByteShift(E, s, |a|, k - |a|); }
  }

  lemma Concatenated<T>(w: seq<T>, l: seq<T>, r: seq<T>)
    requires |w| == |l| + |r|
    requires forall k: nat :: k < |w| ==> w[k] == if k < |l| then l[k] else r[k - |l|]
    ensures w == l + r
  {
  }

  lemma KeyByteShift(E: Block -> Block, s: Ctr, j: nat, k: nat)
    requires s.n < 16
    ensures KeyByte(E, CtrAfter(E, s, j), k) == KeyByte(E, s, j + k)
  {
    hide Refresh, CtrAfter;
    CtrAfterSum(E, s, j, k);
  }

  /** Decryption is encryption from the same state. */
  lemma CtrInverts(E: Block -> Block, s: Ctr, input: seq<bv8>)
    requires s.n < 16
    ensures CtrOutput(E, s, CtrOutput(E, s, input)) == input
  {
    hide Xor, KeyByte;
    forall k | 0 <= k < |input| ensures Xor(Xor(input[k], KeyByte(E, s, k)), KeyByte(E, s, k)) == input[k] {
      XorTwice(input[k], KeyByte(E, s, k));
    }
  }

  /** The state at a block boundary and within a block. */
  lemma {:induction false} CtrAfterForm(E: Block -> Block, s: Ctr, k: nat)
    requires s.n == 0
    ensures var t := CtrAfter(E, s, k);
      && t.n == k % 16 && t.counter == CounterAt(s.counter, (k + 15) / 16)
      && (k % 16 != 0 ==> t.stream == E(CounterAt(s.counter, k / 16)))
  {
    hide Increment;
    if k > 0 {
      CtrAfterForm(E, s, k - 1);
      WithinBlock(k - 1);
    }
  }

  /** The keystream from a block boundary is E(counter), E(counter + 1), ... */
  lemma Keystream(E: Block -> Block, s: Ctr, k: nat)
    requires s.n == 0
    ensures KeyByte(E, s, k) == E(CounterAt(s.counter, k / 16))[k % 16]
    ensures BigEndian(CounterAt(s.counter, k / 16)) == (BigEndian(s.counter) + k / 16) % Pow(256, 16)
  {
    hide Increment, CtrAfter, BigEndian, Pow;
    CtrAfterForm(E, s, k);
    CounterValue(s.counter, k / 16);
    if k % 16 == 0 { assert (k + 15) / 16 == k / 16; }
  }

  // ---- Counter mode of tiny-AES -----------------------------------------------------------

  /** A new keystream block in buffer, and the next counter in Iv. */
  method Regenerate(E: Block -> Block, iv: array<bv8>, buffer: array<bv8>, ghost c: Block, ghost j: nat)
    requires iv.Length == 16 && buffer.Length == 16 && iv != buffer && iv[..] == CounterAt(c, j)
    modifies iv, buffer
    ensures iv[..] == CounterAt(c, j + 1) && buffer[..] == E(CounterAt(c, j))
  {
    hide Increment;
    CopyBlock(E(iv[..]), buffer);
    assert iv[..] == CounterAt(c, j);
    IncrementIv(iv);
    assert buffer[..] == E(CounterAt(c, j));
  }

  /** The bytes that the blocks from counter c on give. */
  function BlockByte(E: Block -> Block, c: Block, k: nat): bv8 {
    E(CounterAt(c, k / 16))[k % 16]
  }

  /** AES_CTR_xcrypt_buffer: the keystream buffer is local, so every call starts a block. */
  method XcryptBuffer(E: Block -> Block, iv: array<bv8>, buf: array<bv8>)
    requires iv.Length == 16 && iv != buf
    modifies iv, buf
    ensures iv[..] == CounterAt(old(iv[..]), (buf.Length + 15) / 16)
    ensures forall k :: 0 <= k < buf.Length ==> buf[k] == Xor(old(buf[k]), BlockByte(E, old(iv[..]), k))
  {
    hide Xor, CounterAt;
    ghost var c: Block, b := iv[..], buf[..];
    CounterStart(c);
    var buffer := new bv8[16](_ => 0);
    var i, bi := 0, 16;
    while i < buf.Length
      invariant 0 <= i <= buf.Length && 0 <= bi <= 16
      invariant if i % 16 == 0 then bi == 16 else bi == i % 16
      invariant iv[..] == CounterAt(c, (i + 15) / 16)
      invariant i % 16 != 0 ==> buffer[..] == E(CounterAt(c, i / 16))
      invariant forall k :: 0 <= k < i ==> buf[k] == Xor(b[k], BlockByte(E, c, k))
      invariant forall k :: i <= k < buf.Length ==> buf[k] == b[k]
    {
      WithinBlock(i);
      if bi == 16 {
        Regenerate(E, iv, buffer, c, i / 16);
        bi := 0;
      }
      assert buffer[bi] == BlockByte(E, c, i);
      buf[i] := Xor(buf[i], buffer[bi]);
      i, bi := i + 1, bi + 1;
    }
  }

  lemma CounterStart(c: Block)
    ensures CounterAt(c, 0) == c
  {
  }

  /** For any stream_block, PolarSSL's counter mode from offset 0 does the same: the same bytes, and
      the same counter after. */
  lemma SameCounterMode(E: Block -> Block, c: Block, stream: Block, input: seq<bv8>)
    ensures forall k :: 0 <= k < |input| ==>
              CtrOutput(E, Ctr(0, c, stream), input)[k] == Xor(input[k], BlockByte(E, c, k))
    ensures CtrAfter(E, Ctr(0, c, stream), |input|).counter == CounterAt(c, (|input| + 15) / 16)
  {
    hide Xor, CounterAt, CtrAfter, KeyByte;
    var s := Ctr(0, c, stream);
    forall k | 0 <= k < |input| ensures CtrOutput(E, s, input)[k] == Xor(input[k], BlockByte(E, c, k)) {
      Keystream(E, s, k);
    }
    CtrAfterForm(E, s, |input|);
  }

  lemma WithinBlock(i: nat)
    ensures (i + 1 + 15) / 16 == i / 16 + 1
    ensures (i + 15) / 16 == if i % 16 == 0 then i / 16 else i / 16 + 1
    ensures (i + 1) % 16 != 0 ==> (i + 1) / 16 == i / 16
    ensures (i + 1) % 16 == if i % 16 == 15 then 0 else i % 16 + 1
  {
  }

  /** Calls compose when the earlier ones end at block boundaries: then the counter alone carries
      the state. */
  lemma CallsCompose(E: Block -> Block, c: Block, s0: Block, s1: Block, a: seq<bv8>, b: seq<bv8>)
    requires |a| % 16 == 0
    ensures CtrOutput(E, Ctr(0, c, s0), a + b)
         == CtrOutput(E, Ctr(0, c, s0), a) + CtrOutput(E, Ctr(0, CtrAfter(E, Ctr(0, c, s0), |a|).counter, s1), b)
  {
    hide Xor, CtrAfter;
    var s := Ctr(0, c, s0);
    var t := CtrAfter(E, s, |a|);
    CtrSplit(E, s, a, b);
    CtrAfterForm(E, s, |a|);
    forall k | 0 <= k < |b| ensures KeyByte(E, t, k) == KeyByte(E, Ctr(0, t.counter, s1), k) {
      Keystream(E, t, k);
      Keystream(E, Ctr(0, t.counter, s1), k);
    }
    assert CtrOutput(E, t, b) == CtrOutput(E, Ctr(0, t.counter, s1), b);
  }

  /** Byte by byte, from a block boundary: the input, xor a byte of E of the counter that is k / 16 ahead. */
  lemma CtrEquation(E: Block -> Block, s: Ctr, input: seq<bv8>, k: nat) returns (c: Block)
    requires s.n == 0 && k < |input|
    ensures BigEndian(c) == (BigEndian(s.counter) + k / 16) % Pow(256, 16)
    ensures CtrOutput(E, s, input)[k] == input[k] ^ E(c)[k % 16]
  {
    hide BigEndian, CounterAt, KeyByte;
    Keystream(E, s, k);
    c := CounterAt(s.counter, k / 16);
  }
}
