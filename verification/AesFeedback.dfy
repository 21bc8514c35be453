/** 128-bit cipher feedback of PolarSSL (section 6.3 of NIST SP 800-38A) over any block function. */
module AesFeedback {
  import opened ByteXor
  import opened AesModes
  import opened AesChaining

  /** iv_off and iv. */
  datatype Cfb = Cfb(n: nat, iv: Block)

  /** The state in which a byte is processed. */
  function Fresh(E: Block -> Block, s: Cfb): (t: Cfb)
    ensures t.n == s.n
  {
    if s.n == 0 then Cfb(0, E(s.iv)) else s
  }

  /** A ciphertext byte replaces the byte of iv that masked it. */
  function TakeIn(E: Block -> Block, s: Cfb, c: bv8): (t: Cfb)
    requires s.n < 16
    ensures t.n < 16
  {
    Cfb((s.n + 1) % 16, Fresh(E, s).iv[s.n := c])
  }

  function MaskByte(E: Block -> Block, s: Cfb): bv8
    requires s.n < 16
  {
    Fresh(E, s).iv[s.n]
  }

  /** The state after ciphertext bytes. */
  function CfbAfter(E: Block -> Block, s: Cfb, c: seq<bv8>): (t: Cfb)
    requires s.n < 16
    ensures t.n < 16
  {
    if c == [] then s else TakeIn(E, CfbAfter(E, s, c[..|c| - 1]), c[|c| - 1])
  }

  function CfbEncrypt(E: Block -> Block, s: Cfb, p: seq<bv8>): (c: seq<bv8>)
    requires s.n < 16
    ensures |c| == |p|
  {
    if p == [] then []
    else
      var c := CfbEncrypt(E, s, p[..|p| - 1]);
      c + [Xor(p[|p| - 1], MaskByte(E, CfbAfter(E, s, c)))]
  }

  function CfbDecrypt(E: Block -> Block, s: Cfb, c: seq<bv8>): (p: seq<bv8>)
    requires s.n < 16
    ensures |p| == |c|
  {
    if c == [] then []
    else CfbDecrypt(E, s, c[..|c| - 1]) + [Xor(c[|c| - 1], MaskByte(E, CfbAfter(E, s, c[..|c| - 1])))]
  }

  // ---- The two loops ----------------------------------------------------------------------

  method FreshInPlace(E: Block -> Block, n: nat, iv: array<bv8>)
    requires iv.Length == 16
    modifies iv
    ensures iv[..] == Fresh(E, Cfb(n, old(iv[..]))).iv
  {
    if n == 0 { CopyBlock(E(iv[..]), iv); }
  }

  method StoreByte(iv: array<bv8>, n: nat, c: bv8)
    requires n < iv.Length
    modifies iv
    ensures iv[..] == old(iv[..])[n := c]
  {
    iv[n] := c;
  }

  /** aes_crypt_cfb128 in mode AES_ENCRYPT. */
  method EncryptCfb128(E: Block -> Block, off: nat, iv: array<bv8>, input: seq<bv8>)
    returns (off': nat, output: seq<bv8>)
    requires off < 16 && iv.Length == 16
    modifies iv
    ensures output == CfbEncrypt(E, Cfb(off, old(iv[..])), input)
    ensures Cfb(off', iv[..]) == CfbAfter(E, Cfb(off, old(iv[..])), output)
  {
    hide *;
    ghost var s := Cfb(off, iv[..]);
    var n: nat := off;
    output := [];
    CfbStart(E, s);
    Prefixes(input, 0);
    while |output| < |input|
      invariant |output| <= |input| && n < 16
      invariant output == CfbEncrypt(E, s, input[..|output|])
      invariant Cfb(n, iv[..]) == CfbAfter(E, s, output)
    {
      var k := |output|;
      FreshInPlace(E, n, iv);
      var c := Xor(iv[n], input[k]);
      StoreByte(iv, n, c);
      EncryptOne(E, s, input, k, output);
      n := (n + 1) % 16;
      output := output + [c];
    }
    Prefixes(input, |input|);
    off' := n;
  }

  /** aes_crypt_cfb128 in mode AES_DECRYPT. */
  method DecryptCfb128(E: Block -> Block, off: nat, iv: array<bv8>, input: seq<bv8>)
    returns (off': nat, output: seq<bv8>)
    requires off < 16 && iv.Length == 16
    modifies iv
    ensures output == CfbDecrypt(E, Cfb(off, old(iv[..])), input)
    ensures Cfb(off', iv[..]) == CfbAfter(E, Cfb(off, old(iv[..])), input)
  {
    hide *;
    ghost var s := Cfb(off, iv[..]);
    var n: nat := off;
    output := [];
    CfbStart(E, s);
    Prefixes(input, 0);
    while |output| < |input|
      invariant |output| <= |input| && n < 16
      invariant output == CfbDecrypt(E, s, input[..|output|])
      invariant Cfb(n, iv[..]) == CfbAfter(E, s, input[..|output|])
    {
      var k := |output|;
      FreshInPlace(E, n, iv);
      var c := input[k];
      var p := Xor(c, iv[n]);
      StoreByte(iv, n, c);
      DecryptOne(E, s, input, k);
      n := (n + 1) % 16;
      output := output + [p];
    }
    Prefixes(input, |input|);
    off' := n;
  }

  lemma CfbStart(E: Block -> Block, s: Cfb)
    requires s.n < 16
    ensures CfbAfter(E, s, []) == s && CfbEncrypt(E, s, []) == [] && CfbDecrypt(E, s, []) == []
  {
  }

  lemma Prefixes(s: seq<bv8>, k: nat)
    requires k <= |s|
    ensures s[..0] == [] && s[..|s|] == s
    ensures k < |s| ==> s[..k + 1][..k] == s[..k] && s[..k + 1][k] == s[k]
  {
  }

  lemma TakenIn(E: Block -> Block, s: Cfb, c: seq<bv8>, x: bv8)
    requires s.n < 16
    ensures CfbAfter(E, s, c + [x]) == TakeIn(E, CfbAfter(E, s, c), x)
  {
    assert (c + [x])[..|c|] == c;
  }

  /** One step, from the state u before it. */
  lemma EncryptOne(E: Block -> Block, s: Cfb, input: seq<bv8>, k: nat, c: seq<bv8>)
    requires s.n < 16 && k < |input| && c == CfbEncrypt(E, s, input[..k])
    ensures var u := CfbAfter(E, s, c);
      var x := Xor(Fresh(E, u).iv[u.n], input[k]);
      CfbEncrypt(E, s, input[..k + 1]) == c + [x]
      && CfbAfter(E, s, c + [x]) == Cfb((u.n + 1) % 16, Fresh(E, u).iv[u.n := x])
  {
    hide Xor, Fresh, CfbAfter;
    Prefixes(input, k);
    var u := CfbAfter(E, s, c);
    XorComm(Fresh(E, u).iv[u.n], input[k]);
    TakenIn(E, s, c, Xor(Fresh(E, u).iv[u.n], input[k]));
  }

  lemma DecryptOne(E: Block -> Block, s: Cfb, input: seq<bv8>, k: nat)
    requires s.n < 16 && k < |input|
    ensures var u := CfbAfter(E, s, input[..k]);
      CfbDecrypt(E, s, input[..k + 1]) == CfbDecrypt(E, s, input[..k]) + [Xor(input[k], Fresh(E, u).iv[u.n])]
      && CfbAfter(E, s, input[..k + 1]) == Cfb((u.n + 1) % 16, Fresh(E, u).iv[u.n := input[k]])
  {
    hide Xor, Fresh;
    Prefixes(input, k);
  }

  // ---- What the mode promises -------------------------------------------------------------

  /** Decryption, from the state in which encryption started, gives the input back.  Both end in
      the state that the ciphertext determines. */
  lemma {:induction false} CfbInverts(E: Block -> Block, s: Cfb, p: seq<bv8>)
    requires s.n < 16
    ensures CfbDecrypt(E, s, CfbEncrypt(E, s, p)) == p
  {
    hide Xor, CfbAfter, MaskByte;
    if p != [] {
      var k := |p| - 1;
      CfbInverts(E, s, p[..k]);
      var c := CfbEncrypt(E, s, p);
      assert c[..k] == CfbEncrypt(E, s, p[..k]);
      XorTwice(p[k], MaskByte(E, CfbAfter(E, s, c[..k])));
    }
  }

  lemma {:induction false} CfbAfterSum(E: Block -> Block, s: Cfb, a: seq<bv8>, b: seq<bv8>)
    requires s.n < 16
    ensures CfbAfter(E, s, a + b) == CfbAfter(E, CfbAfter(E, s, a), b)
  {
    hide TakeIn;
    if b == [] {
      assert a + b == a;
    } else {
      var k := |b| - 1;
      CfbAfterSum(E, s, a, b[..k]);
      assert (a + b)[..|a| + k] == a + b[..k];
    }
  }

  /** Splitting a buffer: the same output for both directions.  CfbAfterSum is the state. */
  lemma {:induction false} CfbEncryptSplit(E: Block -> Block, s: Cfb, a: seq<bv8>, b: seq<bv8>)
    requires s.n < 16
    ensures CfbEncrypt(E, s, a + b)
         == CfbEncrypt(E, s, a) + CfbEncrypt(E, CfbAfter(E, s, CfbEncrypt(E, s, a)), b)
  {
    hide Xor, CfbAfter, MaskByte;
    if b == [] {
      assert a + b == a;
    } else {
      var k := |b| - 1;
      CfbEncryptSplit(E, s, a, b[..k]);
      assert (a + b)[..|a| + k] == a + b[..k];
      var x := CfbEncrypt(E, s, a);
      var t := CfbAfter(E, s, x);
      CfbAfterSum(E, s, x, CfbEncrypt(E, t, b[..k]));
    }
  }

  lemma {:induction false} CfbDecryptSplit(E: Block -> Block, s: Cfb, a: seq<bv8>, b: seq<bv8>)
    requires s.n < 16
    ensures CfbDecrypt(E, s, a + b) == CfbDecrypt(E, s, a) + CfbDecrypt(E, CfbAfter(E, s, a), b)
  {
    hide Xor, CfbAfter, MaskByte;
    if b == [] {
      assert a + b == a;
    } else {
      var k := |b| - 1;
      CfbDecryptSplit(E, s, a, b[..k]);
      assert (a + b)[..|a| + k] == a + b[..k];
      CfbAfterSum(E, s, a, b[..k]);
    }
  }

  // ---- Cipher feedback by whole blocks ----------------------------------------------------

  /** C_1 = P_1 xor E(IV), C_j = P_j xor E(C_(j-1)). */
  ghost function Feedback(E: Block -> Block, iv: Block, p: seq<bv8>): seq<bv8>
    requires |p| % 16 == 0
    decreases |p|
  {
    if p == [] then []
    else
      var c := Masked(p[..16], E(iv));
      c + Feedback(E, c, p[16..])
  }

  /** Within a block: c are the bytes so far, and iv is c followed by the masks not used yet. */
  ghost predicate Partial(m: Block, p: seq<bv8>, c: seq<bv8>, t: Cfb) {
    && |c| == |p| <= 16 && t.n == |p| % 16
    && (forall k :: 0 <= k < |p| ==> c[k] == Xor(p[k], m[k]))
    && (p != [] ==> t.iv == c + m[|p|..])
  }

  lemma PartialStep(E: Block -> Block, iv: Block, p: seq<bv8>, k: nat, c: seq<bv8>, u: Cfb, x: bv8)
    requires k < |p| <= 16 && Partial(E(iv), p[..k], c, u) && (k == 0 ==> u == Cfb(0, iv))
    requires x == Xor(p[k], E(iv)[k])
    ensures Fresh(E, u).iv[u.n] == E(iv)[k]
    ensures Partial(E(iv), p[..k + 1], c + [x], Cfb((u.n + 1) % 16, Fresh(E, u).iv[u.n := x]))
  {
    hide Xor;
    var m: Block := E(iv);
    assert Fresh(E, u).iv == c + m[k..];
    assert (c + m[k..])[k := x] == c + [x] + m[k + 1..];
    assert p[..k + 1] == p[..k] + [p[k]];
  }

  lemma {:induction false} WithinABlock(E: Block -> Block, iv: Block, p: seq<bv8>, k: nat)
    requires k <= |p| <= 16
    ensures var c := CfbEncrypt(E, Cfb(0, iv), p[..k]);
      Partial(E(iv), p[..k], c, CfbAfter(E, Cfb(0, iv), c))
  {
    hide Xor, Fresh, CfbAfter, CfbEncrypt, Partial;
    var s := Cfb(0, iv);
    CfbStart(E, s);
    Prefixes(p, 0);
    if k == 0 {
      PartialStart(E(iv), s);
    } else {
      WithinABlock(E, iv, p, k - 1);
      var c := CfbEncrypt(E, s, p[..k - 1]);
      var u := CfbAfter(E, s, c);
      PartialZero(E, s, c, p, k - 1);
      PartialStep(E, iv, p, k - 1, c, u, Xor(p[k - 1], E(iv)[k - 1]));
      XorComm(E(iv)[k - 1], p[k - 1]);
      EncryptOne(E, s, p, k - 1, c);
    }
  }

  lemma PartialStart(m: Block, s: Cfb)
    requires s.n == 0
    ensures Partial(m, [], [], s)
  {
  }

  lemma PartialZero(E: Block -> Block, s: Cfb, c: seq<bv8>, p: seq<bv8>, k: nat)
    requires s.n < 16 && k <= |p| && c == CfbEncrypt(E, s, p[..k])
    ensures k == 0 ==> CfbAfter(E, s, c) == s
  {
  }

  lemma WholeBlock(E: Block -> Block, iv: Block, p: Block)
    ensures CfbEncrypt(E, Cfb(0, iv), p) == Masked(p, E(iv))
    ensures CfbAfter(E, Cfb(0, iv), Masked(p, E(iv))) == Cfb(0, Masked(p, E(iv)))
  {
    hide Xor, CfbAfter, CfbEncrypt;
    WithinABlock(E, iv, p, 16);
    Prefixes(p, 16);
    var c := CfbEncrypt(E, Cfb(0, iv), p);
    assert c == Masked(p, E(iv));
  }

  /** From a block boundary the byte loop is cipher feedback by blocks. */
  lemma {:induction false} CfbIsFeedback(E: Block -> Block, iv: Block, p: seq<bv8>)
    requires |p| % 16 == 0
    ensures CfbEncrypt(E, Cfb(0, iv), p) == Feedback(E, iv, p)
    decreases |p|
  {
    hide Xor, CfbAfter, CfbEncrypt;
    CfbStart(E, Cfb(0, iv));
    if p != [] {
      var s := Cfb(0, iv);
      assert p == p[..16] + p[16..];
      CfbEncryptSplit(E, s, p[..16], p[16..]);
      WholeBlock(E, iv, p[..16]);
      var c := Masked(p[..16], E(iv));
      CfbIsFeedback(E, c, p[16..]);
    }
  }

  /** Byte by byte: C_j is P_j xor E(C_(j-1)), and C_(-1) is the initialisation vector. */
  lemma {:induction false} CfbEquation(E: Block -> Block, iv: Block, p: seq<bv8>, j: nat, k: nat)
    requires |p| % 16 == 0 && 16 * j + 16 <= |p| && k < 16
    ensures var c := CfbEncrypt(E, Cfb(0, iv), p);
      c[16 * j + k] == p[16 * j + k] ^ E(if j == 0 then iv else c[16 * j - 16..16 * j])[k]
  {
    hide CfbEncrypt;
    CfbIsFeedback(E, iv, p);
    FeedbackAt(E, iv, p, j, k);
  }

  lemma {:induction false} FeedbackAt(E: Block -> Block, iv: Block, p: seq<bv8>, j: nat, k: nat)
    requires |p| % 16 == 0 && 16 * j + 16 <= |p| && k < 16
    ensures |Feedback(E, iv, p)| == |p|
    ensures var c := Feedback(E, iv, p);
      c[16 * j + k] == p[16 * j + k] ^ E(if j == 0 then iv else c[16 * j - 16..16 * j])[k]
    decreases |p|
  {
    FeedbackLength(E, iv, p);
    var c := Masked(p[..16], E(iv));
    FeedbackLength(E, c, p[16..]);
    if j > 0 {
      FeedbackAt(E, c, p[16..], j - 1, k);
      var d, f := Feedback(E, iv, p), Feedback(E, c, p[16..]);
      assert d[16 * j + k] == f[16 * (j - 1) + k];
      if j > 1 { assert d[16 * j - 16..16 * j] == f[16 * j - 32..16 * j - 16]; } else { assert d[0..16] == c; }
    }
  }

  lemma {:induction false} FeedbackLength(E: Block -> Block, iv: Block, p: seq<bv8>)
    requires |p| % 16 == 0
    ensures |Feedback(E, iv, p)| == |p|
    decreases |p|
  {
    if p != [] { FeedbackLength(E, Masked(p[..16], E(iv)), p[16..]); }
  }
}
