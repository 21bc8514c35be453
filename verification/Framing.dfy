/** From packets to packets: packets of several sources, cut into telegrams, interleaved, sent as one
    byte stream that is received in chunks of any size, and put together again. */
module Framing {
  import opened Telegrams
  import opened RingSlots
  import opened TcpBackend
  import opened PacketWrapper

  type Wire = w: seq<bv8> | IsWire(w) witness [0, 0, 0, 0, 0, 0, 0]

  datatype Message = Message(dest: u16, cmd: bv8, data: seq<bv8>)

  ghost predicate Fits(ms: seq<Message>) {
    forall i :: 0 <= i < |ms| ==> |ms[i].data| <= 1021
  }

  ghost predicate ForUs(own: u16, dest: u16) {
    dest == 0 || dest == own
  }

  /** The telegrams of one packet. */
  ghost function SentOne(src: u16, m: Message): seq<seq<bv8>>
    requires |m.data| < 65536
  {
    Packetized(src, m.dest, Frame(m.cmd, m.data), Pieces(Frame(m.cmd, m.data)))
  }

  /** What a source sends. */
  ghost function Sent(src: u16, ms: seq<Message>): seq<seq<bv8>>
    requires Fits(ms)
  {
    if ms == [] then [] else Sent(src, ms[..|ms| - 1]) + SentOne(src, ms[|ms| - 1])
  }

  /** The packets of a source that are for this node or for all. */
  ghost function Delivered(own: u16, src: u16, ms: seq<Message>): seq<Packet> {
    if ms == [] then []
    else
      var d, m := Delivered(own, src, ms[..|ms| - 1]), ms[|ms| - 1];
      if ForUs(own, m.dest) then d + [Packet(m.cmd, src, m.dest, m.data)] else d
  }

  /** The telegrams of one source in a stream. */
  ghost function From(ws: seq<Wire>, id: u16): seq<Wire> {
    if ws == [] then []
    else
      var f, w := From(ws[..|ws| - 1], id), ws[|ws| - 1];
      if Source(w) == id then f + [w] else f
  }

  ghost function PacketsFrom(ps: seq<Packet>, id: u16): seq<Packet> {
    if ps == [] then []
    else
      var f, p := PacketsFrom(ps[..|ps| - 1], id), ps[|ps| - 1];
      if p.src == id then f + [p] else f
  }

  // ---- One source -------------------------------------------------------------------------

  ghost function SoloStep(own: u16, t: (seq<Packet>, seq<bv8>), w: Wire): (seq<Packet>, seq<bv8>) {
    if !Addressed(own, w) || !Checks(w) then t
    else
      var d := Drain(Source(w), Dest(w), Appended(t.1, Body(w)));
      (t.0 + d.0, d.1)
  }

  /** A receiver with a ring of its own for the source of ws. */
  ghost function Solo(own: u16, b: seq<bv8>, ws: seq<Wire>): (seq<Packet>, seq<bv8>) {
    if ws == [] then ([], b) else SoloStep(own, Solo(own, b, ws[..|ws| - 1]), ws[|ws| - 1])
  }

  lemma {:induction false} SoloAppend(own: u16, b: seq<bv8>, v: seq<Wire>, w: seq<Wire>)
    ensures Solo(own, b, v + w)
         == (Solo(own, b, v).0 + Solo(own, Solo(own, b, v).1, w).0, Solo(own, Solo(own, b, v).1, w).1)
  {
    hide SoloStep;
    var x := Solo(own, b, v);
    if w == [] {
      assert v + w == v && x.0 + [] == x.0;
    } else {
      var n := |w| - 1;
      assert (v + w)[..|v| + n] == v + w[..n] && (v + w)[|v| + n] == w[n];
      SoloAppend(own, b, v, w[..n]);
      StepAppend(own, x.0, Solo(own, x.1, w[..n]), w[n]);
    }
  }

  lemma StepAppend(own: u16, ps: seq<Packet>, t: (seq<Packet>, seq<bv8>), w: Wire)
    ensures SoloStep(own, (ps + t.0, t.1), w) == (ps + SoloStep(own, t, w).0, SoloStep(own, t, w).1)
  {
    hide Drain, Checks, Addressed, Body, Appended;
    if Addressed(own, w) && Checks(w) {
      var d := Drain(Source(w), Dest(w), Appended(t.1, Body(w)));
      assert (ps + t.0) + d.0 == ps + (t.0 + d.0);
    }
  }

  lemma DrainPrefix(src: u16, dest: u16, cmd: bv8, data: seq<bv8>, k: nat)
    requires |data| < 65536 && k < |data| + 3
    ensures var b := Frame(cmd, data)[..k]; Drain(src, dest, b) == ([], b)
  {
    hide FromBigEndian, HighByte, LowByte;
    BigEndian16(|data|);
  }

  lemma DrainWhole(src: u16, dest: u16, cmd: bv8, data: seq<bv8>)
    requires |data| < 65536
    ensures Drain(src, dest, Frame(cmd, data)) == ([Packet(cmd, src, dest, data)], [])
  {
    hide FromBigEndian, HighByte, LowByte;
    BigEndian16(|data|);
    var b := Frame(cmd, data);
    assert Announced(b) == |b| && b[3..|b|] == data && b[|b|..] == [];
    DrainNone(src, dest, []);
    DrainOne(src, dest, b);
    assert [Packet(cmd, src, dest, data)] + [] == [Packet(cmd, src, dest, data)];
  }

  /** The first n telegrams of a packet leave its first bytes in the ring; the last one completes
      it. */
  lemma {:induction false} SoloPacket(own: u16, src: u16, m: Message, n: nat)
    requires |m.data| <= 1021 && n <= Pieces(Frame(m.cmd, m.data)) && ForUs(own, m.dest)
    ensures var f := Frame(m.cmd, m.data);
      var ws := Packetized(src, m.dest, f, n);
      && (forall i :: 0 <= i < n ==> IsWire(ws[i]))
      && Solo(own, [], ws) == if n < Pieces(f) then ([], f[..15 * n]) else ([Packet(m.cmd, src, m.dest, m.data)], [])
  {
    hide Encoded, Frame, Checks, Drain, SoloStep, Pieces;
    var f := Frame(m.cmd, m.data);
    var ws := Packetized(src, m.dest, f, n);
    forall i | 0 <= i < n ensures IsWire(ws[i]) { EncodedReads(src, ConfigFor(m.dest), Piece(f, i)); }
    if n == 0 {
      NotEmpty(f);
      assert f[..15 * n] == [];
    } else {
      SoloPacket(own, src, m, n - 1);
      assert ws[..n - 1] == Packetized(src, m.dest, f, n - 1);
      PacketStep(own, src, m, n);
    }
  }

  lemma NotEmpty(f: seq<bv8>)
    requires f != []
    ensures Pieces(f) > 0
  {
  }

  lemma PacketStep(own: u16, src: u16, m: Message, n: nat)
    requires |m.data| <= 1021 && 0 < n <= Pieces(Frame(m.cmd, m.data)) && ForUs(own, m.dest)
    ensures var f := Frame(m.cmd, m.data);
      var w := Encoded(src, ConfigFor(m.dest), Piece(f, n - 1));
      && IsWire(w) && 15 * (n - 1) <= |f| && (n < Pieces(f) ==> 15 * n < |f|)
      && SoloStep(own, ([], f[..15 * (n - 1)]), w)
         == if n < Pieces(f) then ([], f[..15 * n]) else ([Packet(m.cmd, src, m.dest, m.data)], [])
  {
    hide Encoded, Frame, Checks, Drain, Pieces, Piece, Appended;
    var f := Frame(m.cmd, m.data);
    EncodedReads(src, ConfigFor(m.dest), Piece(f, n - 1));
    PieceJoins(f, n);
    if n < Pieces(f) {
      DrainPrefix(src, m.dest, m.cmd, m.data, 15 * n);
      var none: seq<Packet> := [];
      assert none + none == none;
    } else {
      DrainWhole(src, m.dest, m.cmd, m.data);
      assert [] + [Packet(m.cmd, src, m.dest, m.data)] == [Packet(m.cmd, src, m.dest, m.data)];
    }
  }

  lemma PieceJoins(f: seq<bv8>, n: nat)
    requires 0 < n <= Pieces(f) && |f| <= 1024
    ensures 15 * (n - 1) <= |f|
    ensures n < Pieces(f) ==> 15 * n < |f|
    ensures Appended(f[..15 * (n - 1)], Piece(f, n - 1)) == if n < Pieces(f) then f[..15 * n] else f
  {
  }

  /** Telegrams for other nodes change nothing. */
  lemma {:induction false} SoloOthers(own: u16, ws: seq<Wire>)
    requires forall i :: 0 <= i < |ws| ==> !Addressed(own, ws[i])
    ensures Solo(own, [], ws) == ([], [])
  {
    if ws != [] { SoloOthers(own, ws[..|ws| - 1]); }
  }

  lemma SoloOne(own: u16, src: u16, m: Message)
    requires |m.data| <= 1021
    ensures forall i :: 0 <= i < |SentOne(src, m)| ==> IsWire(SentOne(src, m)[i])
    ensures Solo(own, [], SentOne(src, m))
         == (if ForUs(own, m.dest) then [Packet(m.cmd, src, m.dest, m.data)] else [], [])
  {
    hide Encoded, Frame, Checks, Drain, Solo;
    var f := Frame(m.cmd, m.data);
    var ws := SentOne(src, m);
    forall i | 0 <= i < |ws| ensures IsWire(ws[i]) && Dest(ws[i]) == m.dest {
      EncodedReads(src, ConfigFor(m.dest), Piece(f, i));
    }
    if ForUs(own, m.dest) { SoloPacket(own, src, m, Pieces(f)); } else { SoloOthers(own, ws); }
  }

  /** Everything that a source sends to this node arrives, in order, and nothing stays behind. */
  lemma {:induction false} SoloSent(own: u16, src: u16, ms: seq<Message>)
    requires Fits(ms)
    ensures forall i :: 0 <= i < |Sent(src, ms)| ==> IsWire(Sent(src, ms)[i])
    ensures Solo(own, [], Sent(src, ms)) == (Delivered(own, src, ms), [])
  {
    hide SentOne, Solo;
    if ms == [] {
      SoloOthers(own, []);
    } else {
      var n := |ms| - 1;
      SoloSent(own, src, ms[..n]);
      SoloOne(own, src, ms[n]);
      var v: seq<Wire>, w: seq<Wire> := Sent(src, ms[..n]), SentOne(src, ms[n]);
      SoloAppend(own, [], v, w);
      assert Delivered(own, src, ms[..n]) + [] == Delivered(own, src, ms[..n]);
    }
  }

  // ---- Several sources --------------------------------------------------------------------

  /** At every telegram, fewer other sources than there are rings are in the middle of a packet. */
  ghost predicate Room(own: u16, maxRings: nat, s: Inbox, ws: seq<Wire>) {
    ws != [] ==>
      var w := ws[|ws| - 1];
      && Room(own, maxRings, s, ws[..|ws| - 1])
      && (Addressed(own, w) && Source(w) != own && Checks(w) ==>
            |Received(own, maxRings, s, ws[..|ws| - 1]).held.Keys - {Source(w)}| < maxRings)
  }

  lemma PacketsAppend(ps: seq<Packet>, qs: seq<Packet>, id: u16)
    ensures PacketsFrom(ps + qs, id) == PacketsFrom(ps, id) + PacketsFrom(qs, id)
  {
    if qs == [] {
      assert ps + qs == ps;
    } else {
      assert (ps + qs)[..|ps| + |qs| - 1] == ps + qs[..|qs| - 1];
      PacketsAppend(ps, qs[..|qs| - 1], id);
    }
  }

  lemma {:induction false} DrainSource(src: u16, dest: u16, b: seq<bv8>, id: u16)
    ensures PacketsFrom(Drain(src, dest, b).0, id) == if src == id then Drain(src, dest, b).0 else []
    decreases |b|
  {
    hide FromBigEndian, Drain;
    if |b| < 3 || |b| < Announced(b) {
      DrainNone(src, dest, b);
    } else {
      DrainOne(src, dest, b);
      var rest := Drain(src, dest, b[Announced(b)..]).0;
      DrainSource(src, dest, b[Announced(b)..], id);
      var p := Packet(b[0], src, dest, b[3..Announced(b)]);
      PacketsAppend([p], rest, id);
      assert [p][..0] == [];
    }
  }

  /** One telegram, as seen from one source. */
  lemma ProjectStep(own: u16, maxRings: nat, s: Inbox, w: Wire, id: u16, ps: seq<Packet>, t: (seq<Packet>, seq<bv8>))
    requires id != own
    requires Addressed(own, w) && Source(w) != own && Checks(w) ==> |s.held.Keys - {Source(w)}| < maxRings
    requires t.1 == Buffered(s.held, id) && PacketsFrom(s.packets, id) == ps + t.0
    ensures var u := if Addressed(own, w) then Recomposed(own, maxRings, s, w) else s;
      var v := if Source(w) == id then SoloStep(own, t, w) else t;
      v.1 == Buffered(u.held, id) && PacketsFrom(u.packets, id) == ps + v.0
  {
    hide Drain, Checks, Body, Appended, Addressed, Source, Dest, PacketsFrom, FromBigEndian;
    if Addressed(own, w) && Source(w) != own && Checks(w) {
      var d := Drain(Source(w), Dest(w), Appended(Buffered(s.held, Source(w)), Body(w)));
      DrainSource(Source(w), Dest(w), Appended(Buffered(s.held, Source(w)), Body(w)), id);
      PacketsAppend(s.packets, d.0, id);
      if Source(w) == id {
        assert (ps + t.0) + d.0 == ps + (t.0 + d.0);
      } else {
        assert (ps + t.0) + [] == ps + t.0;
      }
    }
  }

  /** Sources do not disturb each other: each one gets what it would get with a receiver of its
      own. */
  lemma {:induction false} Project(own: u16, maxRings: nat, s: Inbox, ws: seq<Wire>, id: u16)
    requires id != own && Room(own, maxRings, s, ws)
    ensures var r := Received(own, maxRings, s, ws);
      var t := Solo(own, Buffered(s.held, id), From(ws, id));
      t.1 == Buffered(r.held, id) && PacketsFrom(r.packets, id) == PacketsFrom(s.packets, id) + t.0
  {
    hide SoloStep, Recomposed, Addressed, Checks, Source, PacketsFrom;
    var b := Buffered(s.held, id);
    if ws == [] {
      assert PacketsFrom(s.packets, id) + [] == PacketsFrom(s.packets, id);
    } else {
      var n := |ws| - 1;
      Project(own, maxRings, s, ws[..n], id);
      ProjectStep(own, maxRings, Received(own, maxRings, s, ws[..n]), ws[n], id,
        PacketsFrom(s.packets, id), Solo(own, b, From(ws[..n], id)));
      SoloLast(own, b, From(ws[..n], id), ws[n]);
    }
  }

  lemma SoloLast(own: u16, b: seq<bv8>, ws: seq<Wire>, w: Wire)
    ensures Solo(own, b, ws + [w]) == SoloStep(own, Solo(own, b, ws), w)
  {
    assert (ws + [w])[..|ws|] == ws;
  }

  lemma Fewer(h: set<u16>, srcs: set<u16>, id: u16)
    requires h <= srcs && id in srcs
    ensures |h - {id}| < |srcs|
  {
    Subset(h - {id}, srcs - {id});
  }

  lemma {:induction false} Subset(a: set<u16>, b: set<u16>)
    requires a <= b
    ensures |a| <= |b|
    decreases a
  {
    if a != {} {
      var x :| x in a;
      Subset(a - {x}, b - {x});
    }
  }

  /** No more sources than rings: then there is always room, and only these sources are waiting. */
  lemma {:induction false} FewSources(own: u16, maxRings: nat, s: Inbox, ws: seq<Wire>, srcs: set<u16>)
    requires s.held.Keys <= srcs && |srcs| <= maxRings
    requires forall i :: 0 <= i < |ws| ==> Source(ws[i]) == own || Source(ws[i]) in srcs
    ensures Room(own, maxRings, s, ws) && Received(own, maxRings, s, ws).held.Keys <= srcs
  {
    hide Addressed, Checks, Source, Drain, Body, Appended;
    if ws != [] {
      var n := |ws| - 1;
      FewSources(own, maxRings, s, ws[..n], srcs);
      if Source(ws[n]) in srcs {
        Fewer(Received(own, maxRings, s, ws[..n]).held.Keys, srcs, Source(ws[n]));
      }
    }
  }

  lemma {:induction false} InFrom(ws: seq<Wire>, i: nat)
    requires i < |ws|
    ensures From(ws, Source(ws[i])) != []
  {
    hide Source;
    if i < |ws| - 1 {
      InFrom(ws[..|ws| - 1], i);
      assert ws[..|ws| - 1][i] == ws[i];
    }
  }

  // ---- From end to end --------------------------------------------------------------------

  /** A stream in which each source's telegrams appear in order, between those of the others. */
  ghost predicate Merges(ws: seq<Wire>, msgs: map<u16, seq<Message>>) {
    && (forall id :: id in msgs ==> Fits(msgs[id]))
    && forall id: u16 :: From(ws, id) == if id in msgs then Sent(id, msgs[id]) else []
  }

  ghost predicate AllWires(ws: seq<seq<bv8>>) {
    forall i :: 0 <= i < |ws| ==> IsWire(ws[i])
  }

  /** The updates of a receiver, one chunk each. */
  ghost function Session(own: u16, maxRings: nat, s: Inbox, rest: seq<bv8>, cs: seq<seq<bv8>>): Inbox
    decreases |cs|
  {
    if cs == [] then s
    else
      var c := Cut(rest + cs[0]);
      Session(own, maxRings, Received(own, maxRings, s, c.0), c.1, cs[1..])
  }

  lemma {:induction false} ReceivedAppend(own: u16, maxRings: nat, s: Inbox, v: seq<Wire>, w: seq<Wire>)
    ensures Received(own, maxRings, s, v + w) == Received(own, maxRings, Received(own, maxRings, s, v), w)
  {
    hide Addressed, Recomposed;
    if w == [] {
      assert v + w == v;
    } else {
      var n := |w| - 1;
      assert (v + w)[..|v| + n] == v + w[..n] && (v + w)[|v| + n] == w[n];
      ReceivedAppend(own, maxRings, s, v, w[..n]);
    }
  }

  lemma {:induction false} ChunksAreWires(rest: seq<bv8>, cs: seq<seq<bv8>>)
    ensures AllWires(Chunks(rest, cs).0)
    decreases |cs|
  {
    if cs != [] { ChunksAreWires(Cut(rest + cs[0]).1, cs[1..]); }
  }

  lemma {:induction false} SessionIsReceived(own: u16, maxRings: nat, s: Inbox, rest: seq<bv8>, cs: seq<seq<bv8>>)
    ensures AllWires(Chunks(rest, cs).0)
    ensures Session(own, maxRings, s, rest, cs) == Received(own, maxRings, s, Chunks(rest, cs).0)
    decreases |cs|
  {
    hide Cut;
    ChunksAreWires(rest, cs);
    if cs != [] {
      var c := Cut(rest + cs[0]);
      ChunksAreWires(c.1, cs[1..]);
      SessionIsReceived(own, maxRings, Received(own, maxRings, s, c.0), c.1, cs[1..]);
      ReceivedAppend(own, maxRings, s, c.0, Chunks(c.1, cs[1..]).0);
    }
  }

  /** As long as there is room, merging the telegrams of any number of sources in any way and
      receiving them in any chunks gives, from every source, exactly the packets for this node, in
      order; and no bytes stay in any ring. */
  lemma RoundTripWithRoom(own: u16, maxRings: nat, msgs: map<u16, seq<Message>>, ws: seq<Wire>, cs: seq<seq<bv8>>,
      id: u16)
    requires Merges(ws, msgs) && Concat(cs) == Concat(ws)
    requires Room(own, maxRings, Inbox(map[], []), ws)
    ensures var r := Session(own, maxRings, Inbox(map[], []), [], cs);
      && PacketsFrom(r.packets, id) == (if id in msgs && id != own then Delivered(own, id, msgs[id]) else [])
      && Buffered(r.held, id) == []
  {
    hide Cut, Source, Received, Room, Sent, Delivered, PacketsFrom;
    var s := Inbox(map[], []);
    AnyChunks(ws, cs);
    SessionIsReceived(own, maxRings, s, [], cs);
    NoPackets(id);
    if id == own {
      NoneOwn(own, maxRings, s, ws);
    } else {
      Project(own, maxRings, s, ws, id);
      if id in msgs { SoloSent(own, id, msgs[id]); } else { SoloOthers(own, []); }
    }
  }

  /** Packets of at most 1021 data bytes, of at most maxRings sources: there is always room. */
  lemma RoundTrip(own: u16, maxRings: nat, msgs: map<u16, seq<Message>>, ws: seq<Wire>, cs: seq<seq<bv8>>, id: u16)
    requires Merges(ws, msgs) && |msgs.Keys - {own}| <= maxRings
    requires Concat(cs) == Concat(ws)
    ensures var r := Session(own, maxRings, Inbox(map[], []), [], cs);
      && PacketsFrom(r.packets, id) == (if id in msgs && id != own then Delivered(own, id, msgs[id]) else [])
      && Buffered(r.held, id) == []
  {
    hide *;
    RoomForMerge(own, maxRings, ws, msgs);
    RoundTripWithRoom(own, maxRings, msgs, ws, cs, id);
  }

  /** At any earlier moment, what was received from a source is the beginning of that. */
  lemma AtAnyTime(own: u16, maxRings: nat, msgs: map<u16, seq<Message>>, ws: seq<Wire>,
                  cs: seq<seq<bv8>>, later: seq<seq<bv8>>, id: u16)
    requires Merges(ws, msgs) && |msgs.Keys - {own}| <= maxRings
    requires Concat(cs + later) == Concat(ws)
    ensures var r := Session(own, maxRings, Inbox(map[], []), [], cs);
      PacketsFrom(r.packets, id) <= if id in msgs && id != own then Delivered(own, id, msgs[id]) else []
  {
    hide Cut, Received, Merges, Sent, Delivered, PacketsFrom, Session;
    var s := Inbox(map[], []);
    RoundTrip(own, maxRings, msgs, ws, cs + later, id);
    var rest := SessionSplit(own, maxRings, s, [], cs, later);
    SessionGrows(own, maxRings, Session(own, maxRings, s, [], cs), rest, later, id);
  }

  /** A session goes on from what the bytes so far left in the backend. */
  lemma {:induction false} SessionSplit(own: u16, maxRings: nat, s: Inbox, rest: seq<bv8>, cs: seq<seq<bv8>>,
      later: seq<seq<bv8>>)
    returns (rest': seq<bv8>)
    ensures Session(own, maxRings, s, rest, cs + later)
         == Session(own, maxRings, Session(own, maxRings, s, rest, cs), rest', later)
    decreases |cs|
  {
    hide Cut, Received;
    if cs == [] {
      assert cs + later == later;
      rest' := rest;
    } else {
      assert (cs + later)[1..] == cs[1..] + later;
      var c := Cut(rest + cs[0]);
      rest' := SessionSplit(own, maxRings, Received(own, maxRings, s, c.0), c.1, cs[1..], later);
    }
  }

  lemma {:induction false} SessionGrows(own: u16, maxRings: nat, s: Inbox, rest: seq<bv8>, cs: seq<seq<bv8>>, id: u16)
    ensures PacketsFrom(s.packets, id) <= PacketsFrom(Session(own, maxRings, s, rest, cs).packets, id)
    decreases |cs|
  {
    hide Cut, Received, PacketsFrom;
    if cs != [] {
      var c := Cut(rest + cs[0]);
      ReceivedGrows(own, maxRings, s, c.0, id);
      SessionGrows(own, maxRings, Received(own, maxRings, s, c.0), c.1, cs[1..], id);
    }
  }

  lemma {:induction false} ReceivedGrows(own: u16, maxRings: nat, s: Inbox, ws: seq<Wire>, id: u16)
    ensures PacketsFrom(s.packets, id) <= PacketsFrom(Received(own, maxRings, s, ws).packets, id)
  {
    hide Addressed, Dropped, Drain, Body, Appended, Source, Dest, PacketsFrom;
    if ws != [] {
      var n := |ws| - 1;
      ReceivedGrows(own, maxRings, s, ws[..n], id);
      var t, w := Received(own, maxRings, s, ws[..n]), ws[n];
      if Addressed(own, w) && !Dropped(own, maxRings, t.held, w) {
        var b := Appended(Buffered(t.held, Source(w)), Body(w));
        PacketsAppend(t.packets, Drain(Source(w), Dest(w), b).0, id);
      }
    }
  }

  // ---- The limit of 1021 data bytes -------------------------------------------------------

  /** The packet in front is longer than the ring. */
  ghost predicate Stuck(b: seq<bv8>) {
    3 <= |b| <= 1024 && Announced(b) > 1024
  }

  lemma {:induction false} StuckForever(own: u16, b: seq<bv8>, ws: seq<Wire>)
    requires Stuck(b)
    ensures Solo(own, b, ws).0 == [] && Stuck(Solo(own, b, ws).1)
  {
    hide Addressed, Checks, FromBigEndian, Drain, Body;
    if ws != [] {
      var n := |ws| - 1;
      StuckForever(own, b, ws[..n]);
      var c := Appended(Solo(own, b, ws[..n]).1, Body(ws[n]));
      DrainNone(Source(ws[n]), Dest(ws[n]), c);
    }
  }

  /** A packet of more than 1021 data bytes is never delivered, and nothing after it is. */
  lemma OversizeBlocks(own: u16, src: u16, m: Message, later: seq<Wire>)
    requires 1021 < |m.data| < 65536 && ForUs(own, m.dest)
    ensures forall i :: 0 <= i < |SentOne(src, m)| ==> IsWire(SentOne(src, m)[i])
    ensures Solo(own, [], SentOne(src, m) + later).0 == []
  {
    hide Encoded, Checks, Drain, FromBigEndian, HighByte, LowByte, Solo;
    var f, ws := Frame(m.cmd, m.data), SentOne(src, m);
    forall i | 0 <= i < |ws| ensures IsWire(ws[i]) { EncodedReads(src, ConfigFor(m.dest), Piece(f, i)); }
    EncodedReads(src, ConfigFor(m.dest), Piece(f, 0));
    var first: seq<Wire>, others: seq<Wire> := ws[..1], ws[1..] + later;
    assert ws + later == first + others;
    BigEndian16(|m.data|);
    DrainPrefix(src, m.dest, m.cmd, m.data, 15);
    FirstTelegram(own, ws[0]);
    assert Appended([], Piece(f, 0)) == f[..15] && first == [ws[0]];
    assert Body(ws[0]) == Piece(f, 0) && Dest(ws[0]) == m.dest && Addressed(own, ws[0]) && Source(ws[0]) == src;
    var d := Drain(src, m.dest, f[..15]);
    assert d == ([], f[..15]);
    assert SoloStep(own, ([], []), ws[0]) == ([] + d.0, d.1);
    assert [] + d.0 == [];
    SoloAppend(own, [], first, others);
    StuckForever(own, f[..15], others);
  }

  lemma FirstTelegram(own: u16, w: Wire)
    ensures Solo(own, [], [w]) == SoloStep(own, ([], []), w)
  {
    assert [w] == [] + [w];
    SoloLast(own, [], [], w);
  }

  /** So a packet for this node is delivered exactly when it has at most 1021 data bytes. */
  lemma DeliveredIff(own: u16, src: u16, m: Message)
    requires |m.data| < 65536 && ForUs(own, m.dest)
    ensures forall i :: 0 <= i < |SentOne(src, m)| ==> IsWire(SentOne(src, m)[i])
    ensures Solo(own, [], SentOne(src, m)).0 == [Packet(m.cmd, src, m.dest, m.data)] <==> |m.data| <= 1021
  {
    hide Solo, SentOne;
    if |m.data| <= 1021 {
      SoloOne(own, src, m);
    } else {
      OversizeBlocks(own, src, m, []);
      assert SentOne(src, m) + [] == SentOne(src, m);
    }
  }

  lemma RoomForMerge(own: u16, maxRings: nat, ws: seq<Wire>, msgs: map<u16, seq<Message>>)
    requires Merges(ws, msgs) && |msgs.Keys - {own}| <= maxRings
    ensures Room(own, maxRings, Inbox(map[], []), ws)
  {
    hide Source, Received, Room, Sent;
    forall i | 0 <= i < |ws| ensures Source(ws[i]) == own || Source(ws[i]) in msgs.Keys - {own} {
      InFrom(ws, i);
    }
    FewSources(own, maxRings, Inbox(map[], []), ws, msgs.Keys - {own});
  }

  lemma NoPackets(id: u16)
    ensures PacketsFrom([], id) == []
  {
  }

  /** Own telegrams leave nothing behind. */
  lemma {:induction false} NoneOwn(own: u16, maxRings: nat, s: Inbox, ws: seq<Wire>)
    requires own !in s.held && PacketsFrom(s.packets, own) == []
    ensures var r := Received(own, maxRings, s, ws); own !in r.held && PacketsFrom(r.packets, own) == []
  {
    hide Addressed, Checks, Drain, Body, Appended, Source, Dest, PacketsFrom;
    if ws != [] {
      var n := |ws| - 1;
      NoneOwn(own, maxRings, s, ws[..n]);
      var t, w := Received(own, maxRings, s, ws[..n]), ws[n];
      if Addressed(own, w) && !Dropped(own, maxRings, t.held, w) {
        var b := Appended(Buffered(t.held, Source(w)), Body(w));
        DrainSource(Source(w), Dest(w), b, own);
        PacketsAppend(t.packets, Drain(Source(w), Dest(w), b).0, own);
      }
    }
  }
}
