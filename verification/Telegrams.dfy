/** KNX telegrams: six header bytes, at most fifteen body bytes and a checksum. */
module Telegrams {
  import opened ByteXor

  type u16 = n: int | 0 <= n < 65536

  /** The 22 bytes of a telegram object; only the first ones are used. */
  type Raw = t: seq<bv8> | |t| == 22 witness seq(22, _ => 0)

  datatype Level = System | High | Alarm | Normal

  datatype Config = Config(dest: u16, priority: Level, group: bool, routing: bv8)

  function HighByte(n: u16): bv8 { (n / 256) as bv8 }

  function LowByte(n: u16): bv8 { (n % 256) as bv8 }

  function FromBigEndian(high: bv8, low: bv8): u16 { 256 * high as int + low as int }

  lemma ByteValue(x: nat)
    requires x < 256
    ensures (x as bv8) as int == x
  {
    if x < 32 {} else if x < 64 {} else if x < 96 {} else if x < 128 {}
    else if x < 160 {} else if x < 192 {} else if x < 224 {}
  }

  lemma BigEndian16(n: u16)
    ensures FromBigEndian(HighByte(n), LowByte(n)) == n
  {
    ByteValue(n / 256);
    ByteValue(n % 256);
  }

  // ---- Reading a telegram -----------------------------------------------------------------

  function BodySize(t: seq<bv8>): (n: nat)
    requires |t| >= 6
    ensures n < 16
  {
    (t[5] & 0x0F) as nat
  }

  function Size(t: seq<bv8>): (n: nat)
    requires |t| >= 6
    ensures 7 <= n <= 22
  {
    7 + BodySize(t)
  }

  function Source(t: seq<bv8>): u16
    requires |t| >= 6
  {
    FromBigEndian(t[1], t[2])
  }

  function Dest(t: seq<bv8>): u16
    requires |t| >= 6
  {
    FromBigEndian(t[3], t[4])
  }

  /** The bytes that are sent. */
  function Wire(t: Raw): (w: seq<bv8>)
    ensures |w| == Size(t) && w[..6] == t[..6]
  {
    t[..Size(t)]
  }

  /** Bytes of the length that they announce. */
  predicate IsWire(w: seq<bv8>) {
    |w| >= 6 && |w| == Size(w)
  }

  function Body(w: seq<bv8>): (b: seq<bv8>)
    requires IsWire(w)
    ensures |b| == BodySize(w)
  {
    w[6..6 + BodySize(w)]
  }

  ghost function XorOf(s: seq<bv8>): bv8 {
    if s == [] then 0 else Xor(XorOf(s[..|s| - 1]), s[|s| - 1])
  }

  function Not(x: bv8): bv8 { !x }

  /** The control byte announces a standard telegram, and the checksum is right. */
  ghost predicate Checks(w: seq<bv8>)
    requires IsWire(w)
  {
    w[0] & 0xD3 == 0x90 && Not(XorOf(w[..|w| - 1])) == w[|w| - 1]
  }

  // ---- The checksum as parity -------------------------------------------------------------

  /** How many of the bytes have the bit. */
  function HowMany(s: seq<bv8>, bit: bv8): nat {
    if s == [] then 0 else HowMany(s[..|s| - 1], bit) + if s[|s| - 1] & bit != 0 then 1 else 0
  }

  /** Each of the eight bits is set in an odd number of the bytes. */
  predicate OddParity(s: seq<bv8>) {
    && HowMany(s, 0x01) % 2 == 1 && HowMany(s, 0x02) % 2 == 1 && HowMany(s, 0x04) % 2 == 1
    && HowMany(s, 0x08) % 2 == 1 && HowMany(s, 0x10) % 2 == 1 && HowMany(s, 0x20) % 2 == 1
    && HowMany(s, 0x40) % 2 == 1 && HowMany(s, 0x80) % 2 == 1
  }

  predicate OneBit(bit: bv8) {
    bit == 0x01 || bit == 0x02 || bit == 0x04 || bit == 0x08 || bit == 0x10 || bit == 0x20 || bit == 0x40 || bit == 0x80
  }

  lemma BitOfXor(x: bv8, y: bv8, bit: bv8)
    requires OneBit(bit)
    ensures (Xor(x, y) & bit != 0) == ((x & bit != 0) != (y & bit != 0))
  {
  }

  lemma {:induction false} XorCounts(s: seq<bv8>, bit: bv8)
    requires OneBit(bit)
    ensures XorOf(s) & bit != 0 <==> HowMany(s, bit) % 2 == 1
  {
    hide Xor;
    if s != [] {
      XorCounts(s[..|s| - 1], bit);
      BitOfXor(XorOf(s[..|s| - 1]), s[|s| - 1], bit);
    }
  }

  lemma SumBit(s: seq<bv8>, sum: bv8, bit: bv8)
    requires OneBit(bit)
    ensures HowMany(s + [sum], bit) % 2 == 1 <==> (sum & bit != 0) != (XorOf(s) & bit != 0)
  {
    hide XorOf;
    XorCounts(s, bit);
    assert (s + [sum])[..|s|] == s;
  }

  lemma ComplementBits(x: bv8, y: bv8)
    ensures Not(x) == y <==>
      && (y & 0x01 != 0) != (x & 0x01 != 0) && (y & 0x02 != 0) != (x & 0x02 != 0)
      && (y & 0x04 != 0) != (x & 0x04 != 0) && (y & 0x08 != 0) != (x & 0x08 != 0)
      && (y & 0x10 != 0) != (x & 0x10 != 0) && (y & 0x20 != 0) != (x & 0x20 != 0)
      && (y & 0x40 != 0) != (x & 0x40 != 0) && (y & 0x80 != 0) != (x & 0x80 != 0)
  {
  }

  /** A byte is the checksum of others exactly when it makes the parity of every bit odd. */
  lemma ChecksumParity(s: seq<bv8>, sum: bv8)
    ensures Not(XorOf(s)) == sum <==> OddParity(s + [sum])
  {
    hide XorOf, Not, HowMany;
    SumBit(s, sum, 0x01);
    SumBit(s, sum, 0x02);
    SumBit(s, sum, 0x04);
    SumBit(s, sum, 0x08);
    SumBit(s, sum, 0x10);
    SumBit(s, sum, 0x20);
    SumBit(s, sum, 0x40);
    SumBit(s, sum, 0x80);
    ComplementBits(XorOf(s), sum);
  }

  /** So the check is one of the control byte and of the parity. */
  lemma ChecksParity(w: seq<bv8>)
    requires IsWire(w)
    ensures Checks(w) <==> w[0] & 0xD3 == 0x90 && OddParity(w)
  {
    hide XorOf, Not, OddParity;
    ChecksumParity(w[..|w| - 1], w[|w| - 1]);
    assert w[..|w| - 1] + [w[|w| - 1]] == w;
  }

  // ---- Writing a telegram -----------------------------------------------------------------

  function LevelCode(l: Level): bv8 {
    match l case System => 0 case High => 1 case Alarm => 2 case Normal => 3
  }

  function Ctrl(l: Level): bv8 { 0xB0 | (LevelCode(l) << 2) }

  /** The bit fields size, routing and group. */
  function Fields(size: bv8, routing: bv8, group: bool): bv8 {
    size | ((routing & 7) << 4) | (if group then 0x80 else 0)
  }

  function SizeField(fields: bv8, size: bv8): bv8 {
    (fields & 0xF0) | size
  }

  /** The header before the size is known: the upper half of the last byte is set. */
  ghost predicate Heads(t: seq<bv8>, own: u16, c: Config) {
    && |t| >= 6
    && t[0] == Ctrl(c.priority) && t[1] == HighByte(own) && t[2] == LowByte(own)
    && t[3] == HighByte(c.dest) && t[4] == LowByte(c.dest)
    && t[5] & 0xF0 == Fields(0, c.routing, c.group)
  }

  ghost function Header(own: u16, c: Config, size: nat): (h: seq<bv8>)
    requires size <= 15
    ensures |h| == 6
  {
    [Ctrl(c.priority), HighByte(own), LowByte(own), HighByte(c.dest), LowByte(c.dest),
        Fields(size as bv8, c.routing, c.group)]
  }

  /** The telegram for a body. */
  ghost function Encoded(own: u16, c: Config, body: seq<bv8>): (w: seq<bv8>)
    requires |body| <= 15
    ensures |w| == 7 + |body|
  {
    var h := Header(own, c, |body|) + body;
    h + [Not(XorOf(h))]
  }

  lemma FieldsSize(size: bv8, routing: bv8, group: bool)
    requires size < 16
    ensures Fields(size, routing, group) & 0x0F == size
    ensures Fields(size, routing, group) & 0xF0 == Fields(0, routing, group)
  {
  }

  lemma SizeSet(f: bv8, size: bv8, routing: bv8, group: bool)
    requires size < 16 && f & 0xF0 == Fields(0, routing, group)
    ensures SizeField(f, size) == Fields(size, routing, group)
  {
  }

  lemma CtrlMask(l: Level)
    ensures Ctrl(l) & 0xD3 == 0x90
  {
  }

  /** A telegram as written says what it was written with, and passes the check of the receiver. */
  lemma EncodedReads(own: u16, c: Config, body: seq<bv8>)
    requires |body| <= 15
    ensures var w := Encoded(own, c, body);
      IsWire(w) && Source(w) == own && Dest(w) == c.dest && Body(w) == body && Checks(w)
  {
    hide XorOf, Ctrl, Fields, HighByte, LowByte, FromBigEndian, Not;
    BigEndian16(own);
    BigEndian16(c.dest);
    CtrlMask(c.priority);
    SmallSize(|body|);
    FieldsSize(|body| as bv8, c.routing, c.group);
    var h := Header(own, c, |body|) + body;
    var w := Encoded(own, c, body);
    assert w[..6] == Header(own, c, |body|);
    assert w[5] == Fields(|body| as bv8, c.routing, c.group);
    assert w[..|w| - 1] == h && w[6..6 + |body|] == body;
  }

  lemma EncodedParity(own: u16, c: Config, body: seq<bv8>)
    requires |body| <= 15
    ensures OddParity(Encoded(own, c, body))
  {
    hide OddParity, Checks;
    EncodedReads(own, c, body);
    ChecksParity(Encoded(own, c, body));
  }

  /** The bytes of a written telegram. */
  lemma EncodedLayout(own: u16, c: Config, body: seq<bv8>)
    requires |body| <= 15
    ensures var w := Encoded(own, c, body);
      && |w| == 7 + |body| && w[6..6 + |body|] == body && OddParity(w)
      && w[0] == (match c.priority case System => 0xB0 case High => 0xB4 case Alarm => 0xB8 case Normal => 0xBC)
      && 256 * (w[1] as int) + w[2] as int == own && 256 * (w[3] as int) + w[4] as int == c.dest
      && w[5] as int == |body| + 16 * ((c.routing & 7) as int) + if c.group then 128 else 0
  {
    hide XorOf, HighByte, LowByte, Not, OddParity, Fields, Checks;
    EncodedReads(own, c, body);
    EncodedParity(own, c, body);
    var w := Encoded(own, c, body);
    BigEndian16(own);
    BigEndian16(c.dest);
    SmallSize(|body|);
    FieldsValue(|body| as bv8, c.routing, c.group);
    assert w[..6] == Header(own, c, |body|);
    assert w[0] == w[..6][0] && w[1] == w[..6][1] && w[2] == w[..6][2] && w[3] == w[..6][3] && w[4] == w[..6][4];
  }

  lemma FieldsValue(size: bv8, routing: bv8, group: bool)
    requires size < 16
    ensures Fields(size, routing, group) as int == size as int + 16 * ((routing & 7) as int) + if group then 128 else 0
  {
  }

  lemma SmallSize(n: nat)
    requires n <= 15
    ensures (n as bv8) as nat == n && n as bv8 < 16
  {
  }

  /** No telegram passes the check after one byte of it changed, as long as the size it announces is
      the same. */
  lemma OneByteChanged(w: seq<bv8>, i: nat, x: bv8)
    requires IsWire(w) && Checks(w) && i < |w| && x != w[i] && BodySize(w[i := x]) == BodySize(w)
    ensures IsWire(w[i := x]) && !Checks(w[i := x])
  {
    hide XorOf, Xor, Not;
    var n := |w| - 1;
    if i < n {
      XorOfChanged(w[..n], i, x);
      assert w[i := x][..n] == w[..n][i := x];
      NotInjective(XorOf(w[..n]), XorOf(w[..n][i := x]));
    } else {
      assert w[i := x][..n] == w[..n];
    }
  }

  lemma NotInjective(x: bv8, y: bv8)
    requires x != y
    ensures Not(x) != Not(y)
  {
  }

  lemma {:induction false} XorOfChanged(s: seq<bv8>, i: nat, x: bv8)
    requires i < |s| && x != s[i]
    ensures XorOf(s[i := x]) != XorOf(s)
  {
    hide Xor;
    var n := |s| - 1;
    var t := s[i := x];
    if i < n {
      XorOfChanged(s[..n], i, x);
      assert t[..n] == s[..n][i := x];
      XorCancel(XorOf(t[..n]), XorOf(s[..n]), s[n]);
    } else {
      assert t[..n] == s[..n];
      XorComm(XorOf(s[..n]), x);
      XorComm(XorOf(s[..n]), s[n]);
      XorCancel(x, s[n], XorOf(s[..n]));
    }
  }

  lemma XorCancel(a: bv8, b: bv8, k: bv8)
    requires a != b
    ensures Xor(a, k) != Xor(b, k)
  {
    hide Xor;
    XorTwice(a, k);
    XorTwice(b, k);
  }

  // ---- The object -------------------------------------------------------------------------

  class Telegram {
    const raw: array<bv8>

    predicate Valid() {
      raw.Length == 22
    }

    /** telegram(config): a header without a size yet. */
    constructor Configured(own: u16, c: Config)
      ensures Valid() && fresh(raw) && Heads(raw[..], own, c)
    {
      raw := new bv8[22];
      new;
      hide HighByte, LowByte, Ctrl, Fields;
      raw[0] := Ctrl(c.priority);
      raw[1], raw[2] := HighByte(own), LowByte(own);
      raw[3], raw[4] := HighByte(c.dest), LowByte(c.dest);
      var any := raw[5] & 0x0F;
      UpperHalf(any, c.routing, c.group);
      raw[5] := Fields(any, c.routing, c.group);
    }

    /** telegram(), to be overwritten. */
    constructor (own: u16)
      ensures Valid() && fresh(raw)
    {
      raw := new bv8[22];
      new;
      raw[1], raw[2] := HighByte(own), LowByte(own);
    }

    method Checksum() returns (sum: bv8)
      requires Valid()
      ensures sum == Not(XorOf(raw[..Size(raw[..]) - 1]))
      ensures OddParity(raw[..Size(raw[..]) - 1] + [sum])
    {
      hide Xor, Not, OddParity;
      var n := Size(raw[..]) - 1;
      sum := 0;
      var i := 0;
      while i < n
        invariant i <= n && sum == XorOf(raw[..i])
      {
        assert raw[..i + 1][..i] == raw[..i];
        sum := Xor(sum, raw[i]);
        i := i + 1;
      }
      sum := Not(sum);
      ChecksumParity(raw[..n], sum);
    }

    method Check() returns (r: bool)
      requires Valid()
      ensures r == Checks(Wire(raw[..]))
      ensures r == (raw[0] & 0xD3 == 0x90 && OddParity(raw[..7 + (raw[5] & 0x0F) as nat]))
    {
      hide OddParity;
      ChecksParity(Wire(raw[..]));
      var sum := Checksum();
      assert Wire(raw[..])[..Size(raw[..]) - 1] == raw[..Size(raw[..]) - 1];
      r := raw[0] & 0xD3 == 0x90 && sum == raw[6 + BodySize(raw[..])];
    }

    /** The body, its size and the checksum. */
    method Write(data: seq<bv8>, ghost own: u16, ghost c: Config) returns (ok: bool)
      requires Valid() && |data| < 256 && Heads(raw[..], own, c)
      modifies raw
      ensures ok == (|data| <= 15)
      ensures ok ==> Wire(raw[..]) == Encoded(own, c, data)
      ensures ok ==> OddParity(Wire(raw[..]))
      ensures !ok ==> raw[..] == old(raw[..])
    {
      if |data| > 15 { return false; }
      hide *;
      ghost var t := raw[..];
      forall k | 0 <= k < |data| { raw[6 + k] := data[k]; }
      raw[5] := SizeField(raw[5], |data| as bv8);
      Headed(t, raw[..], own, c, data);
      ghost var h := Header(own, c, |data|) + data;
      var sum := Checksum();
      raw[6 + |data|] := sum;
      assert raw[..6 + |data|] == h;
      WireIs(raw[..], h, sum);
      EncodedIs(own, c, data);
      EncodedParity(own, c, data);
      return true;
    }

    /** Bytes read from a stream over the front of the object. */
    method Overwrite(data: seq<bv8>)
      requires Valid() && |data| <= 22
      modifies raw
      ensures raw[..|data|] == data
    {
      forall k | 0 <= k < |data| { raw[k] := data[k]; }
    }

    method Read(size: nat) returns (ok: bool, data: seq<bv8>)
      requires Valid()
      ensures ok == (BodySize(raw[..]) <= size)
      ensures ok ==> data == Body(Wire(raw[..]))
    {
      if size < BodySize(raw[..]) { return false, []; }
      return true, raw[6..6 + BodySize(raw[..])];
    }
  }

  lemma UpperHalf(any: bv8, routing: bv8, group: bool)
    requires any & 0xF0 == 0
    ensures Fields(any, routing, group) & 0xF0 == Fields(0, routing, group)
  {
  }

  lemma Headed(t: Raw, u: Raw, own: u16, c: Config, data: seq<bv8>)
    requires Heads(t, own, c) && |data| <= 15
    requires u[..5] == t[..5] && u[5] == SizeField(t[5], |data| as bv8) && u[6..6 + |data|] == data
    ensures Size(u) == 7 + |data| && u[..6 + |data|] == Header(own, c, |data|) + data
  {
    hide HighByte, LowByte, Ctrl, Fields, SizeField;
    HeaderBytes(t, own, c, data);
    SmallSize(|data|);
    SizeSet(t[5], |data| as bv8, c.routing, c.group);
    FieldsSize(|data| as bv8, c.routing, c.group);
    assert u[..6] == u[..5] + [u[5]] && u[..6 + |data|] == u[..6] + u[6..6 + |data|];
  }

  lemma HeaderBytes(t: Raw, own: u16, c: Config, data: seq<bv8>)
    requires Heads(t, own, c) && |data| <= 15
    ensures Header(own, c, |data|) == t[..5] + [Fields(|data| as bv8, c.routing, c.group)]
  {
    hide HighByte, LowByte, Ctrl, Fields;
  }

  lemma EncodedIs(own: u16, c: Config, data: seq<bv8>)
    requires |data| <= 15
    ensures Encoded(own, c, data) == Header(own, c, |data|) + data + [Not(XorOf(Header(own, c, |data|) + data))]
  {
  }

  lemma WireIs(t: Raw, w: seq<bv8>, sum: bv8)
    requires 6 <= |w| <= 21 && Size(t) == |w| + 1 && t[..|w|] == w && t[|w|] == sum
    ensures Wire(t) == w + [sum]
  {
  }
}
