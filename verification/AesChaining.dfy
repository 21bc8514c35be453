/** Cipher block chaining of tiny-AES (section 6.2 of NIST SP 800-38A) over any block function and
    its inverse.  The buffer is rewritten in place. */
module AesChaining {
  import opened ByteXor
  import opened AesModes

  function Masked(p: Block, m: Block): (c: Block)
    ensures forall k :: 0 <= k < 16 ==> c[k] == Xor(p[k], m[k])
  {
    seq(16, k requires 0 <= k < 16 => Xor(p[k], m[k]))
  }

  /** The block that masks the one after c. */
  function Link(iv: Block, c: seq<bv8>): Block {
    if |c| < 16 then iv else c[|c| - 16..]
  }

  function CbcEncrypt(E: Block -> Block, iv: Block, p: seq<bv8>): (c: seq<bv8>)
    requires |p| % 16 == 0
    ensures |c| == |p|
  {
    if p == [] then []
    else
      var k := |p| - 16;
      var c := CbcEncrypt(E, iv, p[..k]);
      c + E(Masked(p[k..], Link(iv, c)))
  }

  function CbcDecrypt(D: Block -> Block, iv: Block, c: seq<bv8>): (p: seq<bv8>)
    requires |c| % 16 == 0
    ensures |p| == |c|
  {
    if c == [] then []
    else
      var k := |c| - 16;
      CbcDecrypt(D, iv, c[..k]) + Masked(D(c[k..]), Link(iv, c[..k]))
  }

  // ---- The two loops ----------------------------------------------------------------------

  method StoreBlockAt(buf: array<bv8>, i: nat, block: Block)
    requires i + 16 <= buf.Length
    modifies buf
    ensures buf[..] == old(buf[..i]) + block + old(buf[i + 16..])
  {
    forall k | 0 <= k < 16 { buf[i + k] := block[k]; }
  }

  /** AES_CBC_encrypt_buffer: the mask of a block is read from the buffer, where the block before
      it is already encrypted. */
  method CbcEncryptBuffer(E: Block -> Block, iv: array<bv8>, buf: array<bv8>)
    requires iv.Length == 16 && iv != buf && buf.Length % 16 == 0
    modifies iv, buf
    ensures buf[..] == CbcEncrypt(E, old(iv[..]), old(buf[..]))
    ensures iv[..] == Link(old(iv[..]), buf[..])
  {
    hide *;
    ghost var v: Block, b := iv[..], buf[..];
    Start(E, v, b);
    var i: nat := 0;
    while i < buf.Length
      invariant i <= buf.Length && i % 16 == 0 && iv[..] == v
      invariant buf[..] == CbcEncrypt(E, v, b[..i]) + b[i..]
    {
      BlockFits(i, buf.Length);
      NextBlock(E, v, b, i, buf[..]);
      var mask: Block := if i == 0 then iv[..] else buf[i - 16..i];
      StoreBlockAt(buf, i, E(Masked(buf[i..i + 16], mask)));
      i := i + 16;
    }
    AllBlocks(E, v, b, buf[..], i);
    CopyBlock(if i == 0 then iv[..] else buf[i - 16..i], iv);
  }

  /** AES_CBC_decrypt_buffer: the ciphertext block is kept in ctx->Iv before it is overwritten. */
  method CbcDecryptBuffer(D: Block -> Block, iv: array<bv8>, buf: array<bv8>)
    requires iv.Length == 16 && iv != buf && buf.Length % 16 == 0
    modifies iv, buf
    ensures buf[..] == CbcDecrypt(D, old(iv[..]), old(buf[..]))
    ensures iv[..] == Link(old(iv[..]), old(buf[..]))
  {
    hide *;
    ghost var v: Block, b := iv[..], buf[..];
    StartBack(D, v, b);
    var i: nat := 0;
    while i < buf.Length
      invariant i <= buf.Length && i % 16 == 0 && iv[..] == Link(v, b[..i])
      invariant buf[..] == CbcDecrypt(D, v, b[..i]) + b[i..]
    {
      BlockFits(i, buf.Length);
      BlockBack(D, v, b, i, buf[..]);
      var storeNextIv: Block := buf[i..i + 16];
      StoreBlockAt(buf, i, Masked(D(storeNextIv), iv[..]));
      CopyBlock(storeNextIv, iv);
      i := i + 16;
    }
    AllBlocksBack(b, i);
  }

  lemma Start(E: Block -> Block, v: Block, b: seq<bv8>)
    ensures b == CbcEncrypt(E, v, b[..0]) + b[0..]
  {
  }

  lemma StartBack(D: Block -> Block, v: Block, b: seq<bv8>)
    ensures b == CbcDecrypt(D, v, b[..0]) + b[0..] && Link(v, b[..0]) == v
  {
  }

  lemma BlockFits(i: nat, n: nat)
    requires i < n && i % 16 == 0 && n % 16 == 0
    ensures i + 16 <= n && (i + 16) % 16 == 0
  {
  }

  lemma NextBlock(E: Block -> Block, v: Block, b: seq<bv8>, i: nat, buf: seq<bv8>)
    requires i % 16 == 0 && i + 16 <= |b|
    requires buf == CbcEncrypt(E, v, b[..i]) + b[i..]
    ensures i > 0 ==> i >= 16
    ensures |buf| == |b|
    ensures var mask := if i == 0 then v else buf[i - 16..i];
      buf[..i] + E(Masked(buf[i..i + 16], mask)) + buf[i + 16..] == CbcEncrypt(E, v, b[..i + 16]) + b[i + 16..]
  {
    var c := CbcEncrypt(E, v, b[..i]);
    assert buf[..i] == c && buf[i..i + 16] == b[i..i + 16] && buf[i + 16..] == b[i + 16..];
    assert b[..i + 16][..i] == b[..i] && b[..i + 16][i..] == b[i..i + 16];
    if i > 0 { assert buf[i - 16..i] == c[i - 16..]; }
  }

  lemma BlockBack(D: Block -> Block, v: Block, b: seq<bv8>, i: nat, buf: seq<bv8>)
    requires i % 16 == 0 && i + 16 <= |b|
    requires buf == CbcDecrypt(D, v, b[..i]) + b[i..]
    ensures |buf| == |b| && buf[i..i + 16] == b[i..i + 16] == Link(v, b[..i + 16])
    ensures buf[..i] + Masked(D(b[i..i + 16]), Link(v, b[..i])) + buf[i + 16..]
         == CbcDecrypt(D, v, b[..i + 16]) + b[i + 16..]
  {
    var p := CbcDecrypt(D, v, b[..i]);
    assert buf[..i] == p && buf[i..i + 16] == b[i..i + 16] && buf[i + 16..] == b[i + 16..];
    assert b[..i + 16][..i] == b[..i] && b[..i + 16][i..] == b[i..i + 16];
  }

  lemma AllBlocks(E: Block -> Block, v: Block, b: seq<bv8>, buf: seq<bv8>, i: nat)
    requires i == |b| && |b| % 16 == 0 && buf == CbcEncrypt(E, v, b[..i]) + b[i..]
    ensures buf == CbcEncrypt(E, v, b) && |buf| == i && (i > 0 ==> i >= 16)
    ensures Link(v, buf) == if i == 0 then v else buf[i - 16..i]
  {
    assert b[..i] == b && b[i..] == [];
  }

  lemma AllBlocksBack(b: seq<bv8>, i: nat)
    requires i == |b|
    ensures b[..i] == b && b[i..] == []
  {
  }

  // ---- What the mode promises -------------------------------------------------------------

  lemma MaskedTwice(p: Block, m: Block)
    ensures Masked(Masked(p, m), m) == p
  {
    hide Xor;
    forall k | 0 <= k < 16 ensures Xor(Xor(p[k], m[k]), m[k]) == p[k] { XorTwice(p[k], m[k]); }
  }

  /** Decryption with an inverse block function gives the plaintext back. */
  lemma {:induction false} CbcInverts(E: Block -> Block, D: Block -> Block, iv: Block, p: seq<bv8>)
    requires |p| % 16 == 0
    requires forall b: Block :: D(E(b)) == b
    ensures CbcDecrypt(D, iv, CbcEncrypt(E, iv, p)) == p
  {
    hide Masked, Link, CbcEncrypt, CbcDecrypt;
    NoBlocks(E, iv);
    NoPlain(D, iv);
    if p != [] {
      var k := |p| - 16;
      CbcInverts(E, D, iv, p[..k]);
      var h := CbcEncrypt(E, iv, p[..k]);
      var c := CbcEncrypt(E, iv, p);
      LastBlock(E, iv, p[..k], p[k..]);
      assert p == p[..k] + p[k..];
      assert c[..k] == h && c[k..] == E(Masked(p[k..], Link(iv, h)));
      LastPlain(D, iv, c);
      MaskedTwice(p[k..], Link(iv, h));
    }
  }

  lemma NoPlain(D: Block -> Block, iv: Block)
    ensures CbcDecrypt(D, iv, []) == []
  {
  }

  /** A message in two calls: the context keeps the last ciphertext block. */
  lemma {:induction false} CbcSplit(E: Block -> Block, iv: Block, a: seq<bv8>, b: seq<bv8>)
    requires |a| % 16 == 0 && |b| % 16 == 0
    ensures CbcEncrypt(E, iv, a + b) == CbcEncrypt(E, iv, a) + CbcEncrypt(E, Link(iv, CbcEncrypt(E, iv, a)), b)
  {
    hide Masked, Link, CbcEncrypt;
    if b == [] {
      assert a + b == a;
      NoBlocks(E, Link(iv, CbcEncrypt(E, iv, a)));
    } else {
      var k := |b| - 16;
      var x := CbcEncrypt(E, iv, a);
      CbcSplit(E, iv, a, b[..k]);
      assert a + b == (a + b[..k]) + b[k..] && b == b[..k] + b[k..];
      LastBlock(E, iv, a + b[..k], b[k..]);
      LastBlock(E, Link(iv, x), b[..k], b[k..]);
      LinkSplit(iv, x, CbcEncrypt(E, Link(iv, x), b[..k]));
    }
  }

  lemma NoBlocks(E: Block -> Block, iv: Block)
    ensures CbcEncrypt(E, iv, []) == []
  {
  }

  lemma LastBlock(E: Block -> Block, iv: Block, q: seq<bv8>, p: Block)
    requires |q| % 16 == 0
    ensures var c := CbcEncrypt(E, iv, q); CbcEncrypt(E, iv, q + p) == c + E(Masked(p, Link(iv, c)))
  {
    assert (q + p)[..|q|] == q && (q + p)[|q|..] == p;
  }

  lemma LinkSplit(iv: Block, x: seq<bv8>, y: seq<bv8>)
    requires |x| % 16 == 0 && |y| % 16 == 0
    ensures Link(iv, x + y) == Link(Link(iv, x), y)
  {
  }

  // ---- The equations of chaining ----------------------------------------------------------

  /** Block j of the ciphertext is E(P_j xor C_(j-1)), and C_(-1) is the initialisation vector. */
  lemma {:induction false} CbcIsChaining(E: Block -> Block, iv: Block, p: seq<bv8>, j: nat, x: Block)
    requires |p| % 16 == 0 && 16 * j + 16 <= |p|
    requires var c := CbcEncrypt(E, iv, p);
      forall k :: 0 <= k < 16 ==> x[k] == p[16 * j + k] ^ (if j == 0 then iv[k] else c[16 * j - 16 + k])
    ensures CbcEncrypt(E, iv, p)[16 * j..16 * j + 16] == E(x)
    decreases |p|
  {
    hide CbcEncrypt;
    var n := |p| - 16;
    var d := CbcEncrypt(E, iv, p[..n]);
    assert p == p[..n] + p[n..];
    LastBlock(E, iv, p[..n], p[n..]);
    if 16 * j < n {
      CbcIsChaining(E, iv, p[..n], j, x);
    } else {
      assert x == Masked(p[n..], Link(iv, d));
    }
  }

  /** And block j of the plaintext is D(C_j) xor C_(j-1). */
  lemma CbcIsUnchaining(D: Block -> Block, iv: Block, c: seq<bv8>, j: nat, k: nat)
    requires |c| % 16 == 0 && 16 * j + 16 <= |c| && k < 16
    ensures CbcDecrypt(D, iv, c)[16 * j + k]
         == D(c[16 * j..16 * j + 16])[k] ^ (if j == 0 then iv[k] else c[16 * j - 16 + k])
  {
    hide CbcDecrypt, Link;
    var m := 16 * j + 16;
    PlainPrefix(D, iv, c, m);
    LastPlain(D, iv, c[..m]);
    LinkAt(iv, c[..m][..m - 16], k);
    assert c[..m][m - 16..] == c[16 * j..m] && c[..m][..m - 16] == c[..16 * j];
  }

  lemma {:induction false} PlainPrefix(D: Block -> Block, iv: Block, c: seq<bv8>, m: nat)
    requires |c| % 16 == 0 && m % 16 == 0 && m <= |c|
    ensures CbcDecrypt(D, iv, c)[..m] == CbcDecrypt(D, iv, c[..m])
    decreases |c|
  {
    hide CbcDecrypt, Masked, Link;
    if m < |c| {
      LastPlain(D, iv, c);
      PlainPrefix(D, iv, c[..|c| - 16], m);
      assert c[..|c| - 16][..m] == c[..m];
    } else {
      assert c[..m] == c;
    }
  }

  lemma LastPlain(D: Block -> Block, iv: Block, c: seq<bv8>)
    requires |c| % 16 == 0 && c != []
    ensures var n := |c| - 16; CbcDecrypt(D, iv, c) == CbcDecrypt(D, iv, c[..n]) + Masked(D(c[n..]), Link(iv, c[..n]))
  {
  }

  lemma LinkAt(iv: Block, c: seq<bv8>, k: nat)
    requires |c| % 16 == 0 && k < 16
    ensures Link(iv, c)[k] == if c == [] then iv[k] else c[|c| - 16 + k]
  {
  }
}
