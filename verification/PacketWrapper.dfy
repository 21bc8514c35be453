/** Packets of any length over telegrams: cut into bodies of fifteen bytes when written, and put
    together per source when received. */
module PacketWrapper {
  import opened RingBuffers
  import opened Telegrams
  import opened RingSlots
  import opened TcpBackend

  datatype Packet = Packet(cmd: bv8, src: u16, dest: u16, data: seq<bv8>)

  // ---- Sending ----------------------------------------------------------------------------

  /** The bytes of a packet: command, length, data. */
  function Frame(cmd: bv8, data: seq<bv8>): (b: seq<bv8>)
    requires |data| < 65536
    ensures |b| == |data| + 3
  {
    [cmd, HighByte(|data|), LowByte(|data|)] + data
  }

  /** Group telegrams for broadcasts, individual ones for a single node. */
  function ConfigFor(dest: u16): Config {
    Config(dest, Normal, dest == 0, 0)
  }

  function Pieces(b: seq<bv8>): nat { (|b| + 14) / 15 }

  function Smaller(x: nat, y: nat): nat { if x < y then x else y }

  function Piece(b: seq<bv8>, i: nat): (p: seq<bv8>)
    requires i < Pieces(b)
    ensures 0 < |p| <= 15
  {
    b[15 * i..Smaller(15 * i + 15, |b|)]
  }

  /** The first n telegrams for the bytes of a packet. */
  ghost function Packetized(own: u16, dest: u16, b: seq<bv8>, n: nat): (ws: seq<seq<bv8>>)
    requires n <= Pieces(b)
    ensures |ws| == n && forall i :: 0 <= i < n ==> ws[i] == Encoded(own, ConfigFor(dest), Piece(b, i))
  {
    seq(n, i requires 0 <= i < n => Encoded(own, ConfigFor(dest), Piece(b, i)))
  }

  // ---- Receiving --------------------------------------------------------------------------

  /** The packets at the front of a source's bytes, and the bytes after them. */
  ghost function Drain(src: u16, dest: u16, b: seq<bv8>): (r: (seq<Packet>, seq<bv8>))
    decreases |b|
  {
    if |b| < 3 || |b| < Announced(b) then ([], b)
    else
      var r := Drain(src, dest, b[Announced(b)..]);
      ([Packet(b[0], src, dest, b[3..Announced(b)])] + r.0, r.1)
  }

  /** The number of bytes of the packet in front. */
  function Announced(b: seq<bv8>): (n: nat)
    requires |b| >= 3
    ensures n >= 3
  {
    3 + FromBigEndian(b[1], b[2])
  }

  /** A ring of 1024 bytes takes a body or refuses it. */
  function Appended(b: seq<bv8>, body: seq<bv8>): seq<bv8> {
    if |b| + |body| <= 1024 then b + body else b
  }

  /** The bytes waiting per source, and the packets completed. */
  datatype Inbox = Inbox(held: map<u16, seq<bv8>>, packets: seq<Packet>)

  ghost predicate Addressed(own: u16, w: seq<bv8>)
    requires IsWire(w)
  {
    Dest(w) == 0 || Dest(w) == own
  }

  /** Own telegrams, bad ones, and those for which there is no ring are dropped. */
  ghost predicate Dropped(own: u16, maxRings: nat, held: map<u16, seq<bv8>>, w: seq<bv8>)
    requires IsWire(w)
  {
    Source(w) == own || !Checks(w) || |held.Keys - {Source(w)}| >= maxRings
  }

  /** What a telegram does. */
  ghost function Recomposed(own: u16, maxRings: nat, s: Inbox, w: seq<bv8>): Inbox
    requires IsWire(w)
  {
    if Dropped(own, maxRings, s.held, w) then s
    else
      var d := Drain(Source(w), Dest(w), Appended(Buffered(s.held, Source(w)), Body(w)));
      Inbox(Stored(s.held, Source(w), d.1), s.packets + d.0)
  }

  ghost function Received(own: u16, maxRings: nat, s: Inbox, ws: seq<seq<bv8>>): Inbox
    requires forall i :: 0 <= i < |ws| ==> IsWire(ws[i])
  {
    if ws == [] then s
    else
      var t := Received(own, maxRings, s, ws[..|ws| - 1]);
      var w := ws[|ws| - 1];
      if Addressed(own, w) then Recomposed(own, maxRings, t, w) else t
  }

  // ---- The bytes of a packet --------------------------------------------------------------

  /** The bodies of telegrams, joined: a telegram has six bytes before its body and one after it. */
  ghost function Joined(ws: seq<seq<bv8>>): seq<bv8> {
    if ws == [] then []
    else
      var w := ws[|ws| - 1];
      Joined(ws[..|ws| - 1]) + if |w| < 7 then [] else w[6..|w| - 1]
  }

  /** A command, the number of data bytes with the high byte first, and the data. */
  ghost predicate Carries(b: seq<bv8>, cmd: bv8, data: seq<bv8>) {
    |b| == 3 + |data| && b[0] == cmd && 256 * (b[1] as int) + b[2] as int == |data| && b[3..] == data
  }

  lemma {:induction false} JoinedPieces(own: u16, dest: u16, b: seq<bv8>, n: nat)
    requires n <= Pieces(b)
    ensures Joined(Packetized(own, dest, b, n)) == b[..Smaller(15 * n, |b|)]
  {
    hide Encoded, Joined, Packetized;
    if n == 0 {
      NoTelegrams(own, dest, b);
      NothingJoined();
    } else {
      JoinedPieces(own, dest, b, n - 1);
      NextTelegram(own, dest, b, n - 1);
      var p := Piece(b, n - 1);
      JoinedNext(Packetized(own, dest, b, n - 1), own, ConfigFor(dest), p);
      assert b[..15 * (n - 1)] + p == b[..Smaller(15 * n, |b|)];
    }
  }

  lemma NothingJoined()
    ensures Joined([]) == []
  {
  }

  lemma JoinedNext(ws: seq<seq<bv8>>, own: u16, c: Config, body: seq<bv8>)
    requires |body| <= 15
    ensures Joined(ws + [Encoded(own, c, body)]) == Joined(ws) + body
  {
    hide XorOf, Not, Header;
    var h := Header(own, c, |body|) + body;
    var w := Encoded(own, c, body);
    assert w[6..|w| - 1] == body;
    assert (ws + [w])[..|ws|] == ws;
  }

  /** The bytes of telegram i of a packet: normal priority, a group address for broadcasts only, at most
      fifteen bytes of the packet. */
  lemma PacketizedBytes(own: u16, dest: u16, b: seq<bv8>, n: nat, i: nat)
    requires i < n <= Pieces(b)
    ensures var w, k := Packetized(own, dest, b, n)[i], Smaller(15, |b| - 15 * i);
      && 0 < k && |w| == 7 + k && w[0] == 0xBC && OddParity(w)
      && 256 * (w[1] as int) + w[2] as int == own && 256 * (w[3] as int) + w[4] as int == dest
      && w[5] as int == k + (if dest == 0 then 128 else 0) && w[6..6 + k] == b[15 * i..15 * i + k]
  {
    hide Encoded, OddParity;
    EncodedLayout(own, ConfigFor(dest), Piece(b, i));
  }

  lemma FrameCarries(cmd: bv8, data: seq<bv8>)
    requires |data| < 65536
    ensures Carries(Frame(cmd, data), cmd, data)
  {
    hide HighByte, LowByte;
    BigEndian16(|data|);
  }

  /** The telegrams of a packet carry it. */
  lemma PacketizedCarry(own: u16, dest: u16, cmd: bv8, data: seq<bv8>)
    requires |data| < 65536
    ensures var b := Frame(cmd, data); Carries(Joined(Packetized(own, dest, b, Pieces(b))), cmd, data)
  {
    hide Joined, Packetized;
    var b := Frame(cmd, data);
    FrameCarries(cmd, data);
    JoinedPieces(own, dest, b, Pieces(b));
    assert b[..Smaller(15 * Pieces(b), |b|)] == b;
  }

  /** For example: what node 0x1101 sends to broadcast command 0x27 without data. */
  lemma KnownTelegram()
    ensures Encoded(0x1101, ConfigFor(0), Frame(0x27, []))
         == [0xBC, 0x11, 0x01, 0x00, 0x00, 0x83, 0x27, 0x00, 0x00, 0xF7]
  {
    hide XorOf;
    var h: seq<bv8> := [0xBC, 0x11, 0x01, 0x00, 0x00, 0x83, 0x27, 0x00, 0x00];
    assert Frame(0x27, []) == [0x27, 0x00, 0x00];
    assert Header(0x1101, ConfigFor(0), 3) == [0xBC, 0x11, 0x01, 0x00, 0x00, 0x83];
    assert Header(0x1101, ConfigFor(0), 3) + [0x27, 0x00, 0x00] == h;
    KnownSum(h);
  }

  lemma KnownSum(h: seq<bv8>)
    requires h == [0xBC, 0x11, 0x01, 0x00, 0x00, 0x83, 0x27, 0x00, 0x00]
    ensures Not(XorOf(h)) == 0xF7
  {
    hide XorOf;
    XorNone();
    assert h[..0] == [] && h[..9] == h;
    XorNext(h, 0);
    XorNext(h, 1);
    XorNext(h, 2);
    XorNext(h, 3);
    XorNext(h, 4);
    XorNext(h, 5);
    XorNext(h, 6);
    XorNext(h, 7);
    XorNext(h, 8);
  }

  lemma XorNone()
    ensures XorOf([]) == 0
  {
  }

  lemma XorNext(s: seq<bv8>, k: nat)
    requires k < |s|
    ensures XorOf(s[..k + 1]) == XorOf(s[..k]) ^ s[k]
  {
    assert s[..k + 1][..k] == s[..k];
  }

  /** What comes out of a ring with the bytes b, as far as it can be said without looking past the first
      packet: nothing until its last byte is there, and the packet when it is. */
  lemma DrainExplicit(src: u16, dest: u16, b: seq<bv8>)
    ensures |b| < 3 || |b| < 3 + (256 * (b[1] as int) + b[2] as int) ==> Drain(src, dest, b) == ([], b)
    ensures |b| >= 3 && |b| == 3 + (256 * (b[1] as int) + b[2] as int) ==>
              Drain(src, dest, b) == ([Packet(b[0], src, dest, b[3..])], [])
  {
    if |b| >= 3 && |b| == 3 + (256 * (b[1] as int) + b[2] as int) {
      assert Announced(b) == |b|;
      assert b[|b|..] == [] && b[3..|b|] == b[3..];
      DrainNone(src, dest, []);
      DrainOne(src, dest, b);
      NoMore([Packet(b[0], src, dest, b[3..])]);
    }
  }

  lemma NoMore(ps: seq<Packet>)
    ensures ps + [] == ps
  {
  }

  /** What a ring and a list of packets become by one body after the other. */
  ghost function Fed(src: u16, dest: u16, bodies: seq<seq<bv8>>): (seq<Packet>, seq<bv8>) {
    if bodies == [] then ([], [])
    else
      var t := Fed(src, dest, bodies[..|bodies| - 1]);
      var d := Drain(src, dest, Appended(t.1, bodies[|bodies| - 1]));
      (t.0 + d.0, d.1)
  }

  lemma {:induction false} ConcatLast(bs: seq<seq<bv8>>)
    requires bs != []
    ensures Concat(bs) == Concat(bs[..|bs| - 1]) + bs[|bs| - 1]
  {
    if |bs| > 1 {
      ConcatLast(bs[1..]);
      assert bs[1..][..|bs| - 2] == bs[..|bs| - 1][1..];
    }
  }

  /** Bodies that join to the bytes of a packet yield exactly that packet, in an empty ring. */
  lemma {:induction false} PiecesYield(src: u16, dest: u16, bodies: seq<seq<bv8>>, b: seq<bv8>, cmd: bv8,
      data: seq<bv8>)
    requires Carries(b, cmd, data) && |data| <= 1021 && Concat(bodies) <= b
    requires forall i :: 0 <= i < |bodies| ==> bodies[i] != []
    ensures Fed(src, dest, bodies) == if Concat(bodies) == b then ([Packet(cmd, src, dest, data)], [])
                                      else ([], Concat(bodies))
  {
    hide Drain, Appended;
    if bodies == [] {
      assert Concat(bodies) == [];
    } else {
      var n := |bodies| - 1;
      var u := Concat(bodies[..n]);
      ConcatLast(bodies);
      PiecesYield(src, dest, bodies[..n], b, cmd, data);
      WasAppended(u, bodies[n]);
      var c := u + bodies[n];
      assert u != b && c <= b && |b| <= 1024;
      DrainExplicit(src, dest, c);
      if |c| >= 3 { assert c[0] == b[0] && c[1] == b[1] && c[2] == b[2]; }
      NoneBefore(Drain(src, dest, c).0);
      assert c == b <==> |c| == |b|;
    }
  }

  lemma NoneBefore(ps: seq<Packet>)
    ensures [] + ps == ps
  {
  }

  // ---- The object -------------------------------------------------------------------------

  class PktWrapper {
    const own: u16
    const backend: LinuxTcp
    const buffers: MultiRings
    var out: seq<Raw>
    var inbox: seq<Packet>

    ghost predicate Valid()
      reads backend.pktbuffer, backend.pktbuffer.buf,
            buffers, buffers.slots, buffers.rings, set r | r in buffers.rings :: r.buf
    {
      backend.Valid() && buffers.Valid() && Separate()
    }

    /** The backend shares nothing with the rings of the sources. */
    ghost predicate Separate()
      reads buffers
    {
      && backend.pktbuffer !in buffers.rings
      && (forall r :: r in buffers.rings ==> r.buf != backend.pktbuffer.buf)
      && backend.pktbuffer.buf as object != buffers.slots
    }

    ghost function State(): Inbox
      reads this`inbox, buffers, buffers.slots, buffers.rings, set r | r in buffers.rings :: r.buf
      requires buffers.Valid()
    {
      Inbox(buffers.Held(), inbox)
    }

    constructor (own: u16, maxClients: nat, backend: LinuxTcp)
      requires backend.Valid()
      ensures Valid() && this.own == own && this.backend == backend && buffers.slots.Length == maxClients
      ensures fresh(buffers) && fresh(buffers.slots) && buffers.rings == {}
      ensures out == [] && State() == Inbox(map[], [])
    {
      this.own, this.backend := own, backend;
      buffers := new MultiRings(maxClients);
      out, inbox := [], [];
    }

    /** The telegrams of a packet are queued. */
    method Write(dest: u16, cmd: bv8, data: seq<bv8>) returns (ok: bool)
      requires |data| < 65536
      modifies this`out
      ensures ok
      ensures Wires(out) == Wires(old(out)) + Packetized(own, dest, Frame(cmd, data), Pieces(Frame(cmd, data)))
      ensures |Wires(out)| >= |Wires(old(out))| && Carries(Joined(Wires(out)[|Wires(old(out))|..]), cmd, data)
    {
      hide Joined, Carries, Packetized, Wires;
      PacketizedCarry(own, dest, cmd, data);
      var raw := [cmd] + [HighByte(|data|), LowByte(|data|)] + data;
      assert raw == Frame(cmd, data);
      Packetize(dest, raw);
      ok := true;
    }

    method Packetize(dest: u16, buf: seq<bv8>)
      modifies this`out
      ensures Wires(out) == Wires(old(out)) + Packetized(own, dest, buf, Pieces(buf))
    {
      hide Wires, Encoded, Packetized;
      var count := |buf| / 15 + (if |buf| % 15 > 0 then 1 else 0);
      PieceCount(buf);
      ghost var queued := Wires(out);
      NoTelegrams(own, dest, buf);
      var i := 0;
      while i < count
        invariant i <= count && Wires(out) == queued + Packetized(own, dest, buf, i)
      {
        var pkt := new Telegram.Configured(own, ConfigFor(dest));
        var sz := 15;
        if |buf| - sz * i < sz { sz := |buf| - 15 * i; }
        PieceSize(buf, i);
        var _ := pkt.Write(buf[i * 15..i * 15 + sz], own, ConfigFor(dest));
        NextTelegram(own, dest, buf, i);
        WiresAppend(out, pkt.raw[..]);
        out := out + [pkt.raw[..]];
        i := i + 1;
      }
    }

    method Read() returns (ok: bool, p: Packet)
      modifies this`inbox
      ensures ok == (old(inbox) != [])
      ensures ok ==> [p] + inbox == old(inbox)
      ensures !ok ==> inbox == old(inbox)
    {
      if inbox == [] { return false, Packet(0, 0, 0, []); }
      ok, p := true, inbox[0];
      inbox := inbox[1..];
    }

    /** The body goes into the ring, and complete packets come out of it. */
    method FeedRing(ring: RingBuffer, src: u16, dest: u16, body: seq<bv8>)
      requires ring.Valid() && ring.buf.Length == 1024
      modifies this`inbox, ring, ring.buf
      ensures ring.Valid()
      ensures var d := Drain(src, dest, Appended(old(ring.Contents()), body));
        inbox == old(inbox) + d.0 && ring.Contents() == d.1
      ensures var c := old(ring.Contents()) + body;
        |c| <= 1024 ==>
          && (|c| < 3 || |c| < 3 + (256 * (c[1] as int) + c[2] as int) ==> inbox == old(inbox) && ring.Contents() == c)
          && (|c| >= 3 && |c| == 3 + (256 * (c[1] as int) + c[2] as int) ==>
                inbox == old(inbox) + [Packet(c[0], src, dest, c[3..])] && ring.Contents() == [])
    {
      hide *;
      DrainExplicit(src, dest, ring.Contents() + body);
      var _ := ring.Write(body);
      WasAppended(old(ring.Contents()), body);
      ghost var b := ring.Contents();
      ghost var done: seq<Packet> := [];
      var more := true;
      while more
        invariant ring.Valid() && inbox == old(inbox) + done
        invariant Drain(src, dest, b).0 == done + Drain(src, dest, ring.Contents()).0
        invariant Drain(src, dest, b).1 == Drain(src, dest, ring.Contents()).1
        invariant !more ==> Drain(src, dest, ring.Contents()) == ([], ring.Contents())
        decreases ring.Size(), more
      {
        more := TakePacket(ring, src, dest);
        if more { done := done + [inbox[|inbox| - 1]]; }
      }
    }

    /** One round of the loop in _recompose; false if the packet in front is not complete. */
    method TakePacket(ring: RingBuffer, src: u16, dest: u16) returns (more: bool)
      requires ring.Valid()
      modifies this`inbox, ring
      ensures ring.Valid()
      ensures !more ==> Drain(src, dest, ring.Contents()) == ([], ring.Contents())
      ensures !more ==> inbox == old(inbox) && ring.Contents() == old(ring.Contents())
      ensures more ==> |inbox| == |old(inbox)| + 1 && inbox[..|old(inbox)|] == old(inbox)
      ensures more ==> ring.Size() < old(ring.Size())
      ensures more ==> var d := Drain(src, dest, ring.Contents());
        Drain(src, dest, old(ring.Contents())) == ([inbox[|inbox| - 1]] + d.0, d.1)
    {
      hide Drain, Unrolled, FromBigEndian, RingBuffer.Contents;
      ghost var c := ring.Contents();
      if ring.Size() < 3 {
        DrainNone(src, dest, c);
        return false;
      }
      var _, hdr := ring.Peek(3);
      var dsize: nat := FromBigEndian(hdr[1], hdr[2]);
      assert hdr[0] == c[0] && hdr[1] == c[1] && hdr[2] == c[2];
      if ring.Size() < dsize + 3 {
        DrainNone(src, dest, c);
        return false;
      }
      DrainOne(src, dest, c);
      var _ := ring.Remove(3);
      var _, data := ring.Read(dsize);
      assert data == c[3..3 + dsize] && c[3..][dsize..] == c[3 + dsize..];
      inbox := inbox + [Packet(hdr[0], src, dest, data)];
      more := true;
    }

    method Recompose(pkt: Telegram)
      requires buffers.Valid() && pkt.Valid()
      modifies this`inbox, buffers, buffers.slots, buffers.rings, set r | r in buffers.rings :: r.buf
      ensures buffers.Valid() && buffers.rings >= old(buffers.rings)
      ensures forall r :: r in buffers.rings - old(buffers.rings) ==> fresh(r) && fresh(r.buf)
      ensures State() == Recomposed(own, buffers.slots.Length, old(State()), old(Wire(pkt.raw[..])))
      ensures old(256 * (pkt.raw[1] as int) + pkt.raw[2] as int) == own ==> State() == old(State())
      ensures !old(pkt.raw[0] & 0xD3 == 0x90 && OddParity(pkt.raw[..7 + (pkt.raw[5] & 0x0F) as nat])) ==>
                State() == old(State())
    {
      hide OddParity, HeldIn, FreeCount, Wire, RingBuffer.Contents, Drain, Checks, BodySize, FromBigEndian;
      ghost var w := Wire(pkt.raw[..]);
      WireReads(pkt.raw[..]);
      var src, dest := Source(pkt.raw[..]), Dest(pkt.raw[..]);
      SourceBytes(pkt.raw[..]);
      if src == own { return; }
      var good := pkt.Check();
      if !good { return; }
      var body := pkt.raw[6..6 + BodySize(pkt.raw[..])];
      var ring, at := buffers.Get(src);
      if ring == null { return; }
      buffers.HeldAt(at);
      ghost var held := buffers.Held();
      label fed:
      FeedRing(ring, src, dest, body);
      buffers.RingChanged@fed(at);
    }

    method SendAll()
      modifies this`out, backend`sent
      ensures out == [] && backend.sent == old(backend.sent) + Concat(Wires(old(out)))
    {
      hide *;
      NothingToSend();
      while out != []
        invariant backend.sent + Concat(Wires(out)) == old(backend.sent) + Concat(Wires(old(out)))
        decreases |out|
      {
        FirstWire(out);
        backend.Broadcast(out[0]);
        out := out[1..];
      }
    }

    method ReceiveAll()
      requires Valid()
      modifies this`inbox, backend`pkts, buffers, buffers.slots, buffers.rings, set r | r in buffers.rings :: r.buf
      ensures Valid() && backend.pkts == [] && backend.pktbuffer.Contents() == old(backend.pktbuffer.Contents())
      ensures State() == Received(own, buffers.slots.Length, old(State()), Wires(old(backend.pkts)))
    {
      hide HeldIn, RingBuffer.Contents, RingBuffer.Valid, Wires, Wire, Received, Recomposed, FromBigEndian,
          MultiRings.Valid, MultiRings.Held, Incomplete;
      ghost var ts, s0, n := backend.pkts, State(), 0;
      NothingReceived(own, buffers.slots.Length, s0, ts);
      while backend.pkts != []
        invariant Valid() && n <= |ts| && backend.pkts == ts[n..]
        invariant fresh(buffers.rings - old(buffers.rings))
        invariant forall r :: r in buffers.rings - old(buffers.rings) ==> fresh(r.buf)
        invariant backend.pktbuffer.Contents() == old(backend.pktbuffer.Contents())
        invariant State() == Received(own, buffers.slots.Length, s0, Wires(ts[..n]))
        decreases |backend.pkts|
      {
        OneMore(own, buffers.slots.Length, s0, ts, n);
        ReceiveNext();
        n := n + 1;
      }
      assert ts[..n] == ts;
    }

    method ReceiveNext()
      requires Valid() && backend.pkts != []
      modifies this`inbox, backend`pkts, buffers, buffers.slots, buffers.rings, set r | r in buffers.rings :: r.buf
      ensures Valid() && backend.pkts == old(backend.pkts)[1..]
      ensures backend.pktbuffer.Contents() == old(backend.pktbuffer.Contents())
      ensures fresh(buffers.rings - old(buffers.rings))
      ensures forall r :: r in buffers.rings - old(buffers.rings) ==> fresh(r.buf)
      ensures var t := old(backend.pkts)[0];
        State() ==
            if Dest(t) == 0 || Dest(t) == own
            then Recomposed(own, buffers.slots.Length, old(State()), Wire(t))
            else old(State())
    {
      hide HeldIn, FreeCount, RingBuffer.Contents, Wire, Recomposed, FromBigEndian, MultiRings.Valid, MultiRings.Held,
          Incomplete;
      var pkt := new Telegram(own);
      var _, t := backend.Read();
      pkt.Overwrite(t);
      assert pkt.raw[..] == t;
      if Dest(t) == 0 || Dest(t) == own { Recompose(pkt); }
    }

    /** One chunk from the network: everything queued is sent, and what the chunk completes is
        received. */
    method Update(chunk: seq<bv8>)
      requires Valid() && |chunk| <= 128
      modifies this`out, this`inbox, backend, backend.pktbuffer, backend.pktbuffer.buf,
               buffers, buffers.slots, buffers.rings, set r | r in buffers.rings :: r.buf
      ensures Valid() && out == [] && backend.pkts == []
      ensures backend.sent == old(backend.sent) + Concat(Wires(old(out)))
      ensures var c := Cut(old(backend.pktbuffer.Contents()) + chunk);
        && backend.pktbuffer.Contents() == c.1
        && State() == Received(own, buffers.slots.Length, old(State()), Wires(old(backend.pkts)) + c.0)
    {
      hide HeldIn, FreeCount, RingBuffer.Contents, Wires, Wire, Cut, Received;
      backend.ProcessPacket(chunk);
      SendAll();
      ReceiveAll();
    }
  }

  lemma NothingReceived(own: u16, maxRings: nat, s: Inbox, ts: seq<Raw>)
    ensures Received(own, maxRings, s, Wires(ts[..0])) == s
  {
  }

  lemma OneMore(own: u16, maxRings: nat, s: Inbox, ts: seq<Raw>, n: nat)
    requires n < |ts|
    ensures var u := Received(own, maxRings, s, Wires(ts[..n]));
      var t := ts[n];
      Received(own, maxRings, s, Wires(ts[..n + 1]))
      == if Dest(t) == 0 || Dest(t) == own then Recomposed(own, maxRings, u, Wire(t)) else u
  {
    hide Recomposed, Wire;
    assert Wires(ts[..n + 1])[..n] == Wires(ts[..n]);
    WireReads(ts[n]);
  }

  lemma NothingToSend()
    ensures Concat(Wires([])) == []
  {
  }

  lemma FirstWire(ts: seq<Raw>)
    requires ts != []
    ensures Concat(Wires(ts)) == Wire(ts[0]) + Concat(Wires(ts[1..]))
  {
    assert Wires(ts)[1..] == Wires(ts[1..]);
  }

  lemma WasAppended(b: seq<bv8>, body: seq<bv8>)
    ensures Appended(b, body) == if |b| + |body| <= 1024 then b + body else b
  {
  }

  lemma WireReads(t: Raw)
    ensures var w := Wire(t);
      IsWire(w) && Source(w) == Source(t) && Dest(w) == Dest(t) && Body(w) == t[6..6 + BodySize(t)]
  {
    hide Source, Dest, BodySize;
    var w, n := Wire(t), BodySize(t);
    SameHeader(w, t);
    assert w == t[..7 + n];
    SliceOfPrefix(t, 7 + n, 6, 6 + n);
  }

  lemma SourceBytes(t: Raw)
    ensures Source(t) == 256 * (t[1] as int) + t[2] as int
  {
  }

  lemma SameHeader(w: seq<bv8>, t: seq<bv8>)
    requires |w| >= 6 && |t| >= 6 && w[..6] == t[..6]
    ensures Source(w) == Source(t) && Dest(w) == Dest(t) && BodySize(w) == BodySize(t)
  {
    assert forall i :: 0 <= i < 6 ==> w[..6][i] == w[i] && t[..6][i] == t[i];
  }

  lemma SliceOfPrefix(t: seq<bv8>, m: nat, i: nat, j: nat)
    requires i <= j <= m <= |t|
    ensures t[..m][i..j] == t[i..j]
  {
  }

  lemma PieceCount(b: seq<bv8>)
    ensures Pieces(b) == |b| / 15 + (if |b| % 15 > 0 then 1 else 0)
  {
  }

  lemma PieceSize(b: seq<bv8>, i: nat)
    requires i < Pieces(b)
    ensures 15 * i < |b|
    ensures var sz := if |b| - 15 * i < 15 then |b| - 15 * i else 15;
      Piece(b, i) == b[i * 15..i * 15 + sz]
  {
  }

  lemma NoTelegrams(own: u16, dest: u16, b: seq<bv8>)
    ensures Packetized(own, dest, b, 0) == []
  {
  }

  lemma NextTelegram(own: u16, dest: u16, b: seq<bv8>, n: nat)
    requires n < Pieces(b)
    ensures Packetized(own, dest, b, n + 1)
         == Packetized(own, dest, b, n) + [Encoded(own, ConfigFor(dest), Piece(b, n))]
  {
    hide Encoded;
  }

  lemma DrainOne(src: u16, dest: u16, b: seq<bv8>)
    requires |b| >= 3 && |b| >= Announced(b)
    ensures var r := Drain(src, dest, b[Announced(b)..]);
      Drain(src, dest, b) == ([Packet(b[0], src, dest, b[3..Announced(b)])] + r.0, r.1)
  {
  }

  lemma DrainNone(src: u16, dest: u16, b: seq<bv8>)
    requires |b| < 3 || |b| < Announced(b)
    ensures Drain(src, dest, b) == ([], b)
  {
  }
}
