/** The TCP backend: a byte stream, received in chunks of any size up to 128, is cut into telegrams. */
module TcpBackend {
  import opened RingBuffers
  import opened Telegrams

  /** The telegrams at the front of a stream, and the bytes after them. */
  ghost function Cut(b: seq<bv8>): (r: (seq<seq<bv8>>, seq<bv8>))
    ensures forall i :: 0 <= i < |r.0| ==> IsWire(r.0[i])
    decreases |b|
  {
    if |b| < 7 || |b| < Size(b) then ([], b)
    else
      var r := Cut(b[Size(b)..]);
      ([b[..Size(b)]] + r.0, r.1)
  }

  /** Nothing left to cut. */
  ghost predicate Incomplete(b: seq<bv8>) {
    |b| < 7 || |b| < Size(b)
  }

  ghost function Concat(bs: seq<seq<bv8>>): seq<bv8> {
    if bs == [] then [] else bs[0] + Concat(bs[1..])
  }

  function Wires(pkts: seq<Raw>): (ws: seq<seq<bv8>>)
    ensures |ws| == |pkts| && forall i :: 0 <= i < |ws| ==> ws[i] == Wire(pkts[i]) && IsWire(ws[i])
  {
    seq(|pkts|, i requires 0 <= i < |pkts| => Wire(pkts[i]))
  }

  lemma {:induction false} CutParts(b: seq<bv8>)
    ensures Incomplete(Cut(b).1) && |Cut(b).1| < 22
    ensures forall w :: w in Cut(b).0 ==> IsWire(w)
    ensures b == Concat(Cut(b).0) + Cut(b).1
    decreases |b|
  {
    if !Incomplete(b) {
      CutParts(b[Size(b)..]);
      var r := Cut(b[Size(b)..]);
      assert Cut(b).0[1..] == r.0;
      assert b == b[..Size(b)] + b[Size(b)..];
    }
  }

  lemma CutRest(b: seq<bv8>)
    requires Incomplete(b)
    ensures Cut(b) == ([], b) && |b| < 22
  {
  }

  lemma CutFirst(w: seq<bv8>, b: seq<bv8>)
    requires IsWire(w)
    ensures Cut(w + b) == ([w] + Cut(b).0, Cut(b).1)
  {
    assert (w + b)[..|w|] == w && (w + b)[|w|..] == b;
  }

  /** A stream in two parts: what the first one left over comes before the second. */
  lemma {:induction false} CutAppend(a: seq<bv8>, b: seq<bv8>)
    ensures Cut(a + b) == (Cut(a).0 + Cut(Cut(a).1 + b).0, Cut(Cut(a).1 + b).1)
    decreases |a|
  {
    hide Cut;
    if Incomplete(a) {
      CutRest(a);
      assert [] + Cut(a + b).0 == Cut(a + b).0;
    } else {
      var w, c := a[..Size(a)], a[Size(a)..];
      assert a == w + c;
      assert a + b == w + (c + b);
      CutFirst(w, c);
      CutFirst(w, c + b);
      CutAppend(c, b);
      assert [w] + (Cut(c).0 + Cut(Cut(c).1 + b).0) == ([w] + Cut(c).0) + Cut(Cut(c).1 + b).0;
    }
  }

  /** Cutting the concatenation of telegrams gives these telegrams. */
  lemma {:induction false} CutConcat(ws: seq<seq<bv8>>)
    requires forall w :: w in ws ==> IsWire(w)
    ensures Cut(Concat(ws)) == (ws, [])
  {
    hide Cut;
    if ws == [] {
      CutRest([]);
    } else {
      CutConcat(ws[1..]);
      CutFirst(ws[0], Concat(ws[1..]));
      assert [ws[0]] + ws[1..] == ws;
    }
  }

  class LinuxTcp {
    const pktbuffer: RingBuffer
    var pkts: seq<Raw>
    /** The bytes handed to send(). */
    var sent: seq<bv8>

    ghost predicate Valid()
      reads pktbuffer, pktbuffer.buf
    {
      pktbuffer.Valid() && pktbuffer.buf.Length == 256 && Incomplete(pktbuffer.Contents())
    }

    constructor ()
      ensures Valid() && fresh(pktbuffer) && fresh(pktbuffer.buf)
      ensures pkts == [] && sent == [] && pktbuffer.Contents() == []
    {
      pktbuffer := new RingBuffer(256);
      pkts, sent := [], [];
    }

    /** The telegrams that a chunk completes are queued, in order; the ring never refuses it. */
    method ProcessPacket(chunk: seq<bv8>)
      requires Valid() && |chunk| <= 128
      modifies this, pktbuffer, pktbuffer.buf
      ensures Valid() && sent == old(sent)
      ensures Wires(pkts) == Wires(old(pkts)) + Cut(old(pktbuffer.Contents()) + chunk).0
      ensures pktbuffer.Contents() == Cut(old(pktbuffer.Contents()) + chunk).1
    {
      hide Cut, Unrolled, Wire, IsWire, Size, RingBuffer.Contents;
      ghost var rest, queued := pktbuffer.Contents(), Wires(pkts);
      CutRest(rest);
      if chunk == [] {
        assert rest + chunk == rest;
        return;
      }
      var ok := pktbuffer.Write(chunk);
      assert ok;
      ghost var b := rest + chunk;
      ghost var done: seq<seq<bv8>> := [];
      while pktbuffer.Size() >= 7
        invariant pktbuffer.Valid() && sent == old(sent)
        invariant Wires(pkts) == queued + done
        invariant Cut(b).0 == done + Cut(pktbuffer.Contents()).0 && Cut(b).1 == Cut(pktbuffer.Contents()).1
        decreases pktbuffer.Size()
      {
        ghost var c := pktbuffer.Contents();
        var _, hdr := pktbuffer.Peek(6);
        var dsize := Size(hdr);
        SizeOfHeader(c);
        if dsize > pktbuffer.Size() { break; }
        CutOne(c);
        var _, data := pktbuffer.Read(dsize);
        var pkt := new Telegram(0);
        pkt.Overwrite(data);
        WireOf(pkt.raw[..], data);
        WiresAppend(pkts, pkt.raw[..]);
        pkts := pkts + [pkt.raw[..]];
        done := done + [data];
      }
      Finished(pktbuffer.Contents());
      CutRest(pktbuffer.Contents());
    }

    method Broadcast(t: Raw)
      modifies this`sent
      ensures sent == old(sent) + Wire(t)
    {
      sent := sent + Wire(t);
    }

    method Read() returns (ok: bool, t: Raw)
      modifies this`pkts
      ensures ok == (old(pkts) != [])
      ensures ok ==> [t] + pkts == old(pkts)
      ensures !ok ==> pkts == old(pkts)
    {
      if pkts == [] { return false, seq(22, _ => 0); }
      ok, t := true, pkts[0];
      pkts := pkts[1..];
    }
  }

  lemma SizeOfHeader(c: seq<bv8>)
    requires |c| >= 6
    ensures Size(c[..6]) == Size(c)
  {
  }

  lemma Finished(c: seq<bv8>)
    requires |c| < 7 || Size(c) > |c|
    ensures Incomplete(c)
  {
  }

  lemma CutOne(c: seq<bv8>)
    requires |c| >= 7 && Size(c) <= |c|
    ensures Cut(c) == ([c[..Size(c)]] + Cut(c[Size(c)..]).0, Cut(c[Size(c)..]).1)
    ensures IsWire(c[..Size(c)]) && 7 <= Size(c) <= 22
  {
  }

  lemma WireOf(t: Raw, data: seq<bv8>)
    requires |data| <= 22 && IsWire(data) && t[..|data|] == data
    ensures Wire(t) == data
  {
    assert t[5] == t[..|data|][5];
  }

  lemma WiresAppend(ts: seq<Raw>, t: Raw)
    ensures Wires(ts + [t]) == Wires(ts) + [Wire(t)]
  {
  }

  // ---- The stream as a whole --------------------------------------------------------------

  /** What the backend makes of chunks, one call of ProcessPacket after the other. */
  ghost function Chunks(rest: seq<bv8>, cs: seq<seq<bv8>>): (seq<seq<bv8>>, seq<bv8>)
    decreases |cs|
  {
    if cs == [] then ([], rest)
    else
      var c := Cut(rest + cs[0]);
      var r := Chunks(c.1, cs[1..]);
      (c.0 + r.0, r.1)
  }

  lemma {:induction false} ChunksAreOne(rest: seq<bv8>, cs: seq<seq<bv8>>)
    requires Incomplete(rest)
    ensures Chunks(rest, cs) == Cut(rest + Concat(cs))
    decreases |cs|
  {
    hide Cut;
    if cs == [] {
      CutRest(rest);
      assert rest + [] == rest;
    } else {
      var c := Cut(rest + cs[0]);
      CutParts(rest + cs[0]);
      ChunksAreOne(c.1, cs[1..]);
      CutAppend(rest + cs[0], Concat(cs[1..]));
      assert rest + (cs[0] + Concat(cs[1..])) == (rest + cs[0]) + Concat(cs[1..]);
    }
  }

  /** However a stream of telegrams is cut into chunks, exactly these telegrams come out. */
  lemma AnyChunks(ws: seq<seq<bv8>>, cs: seq<seq<bv8>>)
    requires forall w :: w in ws ==> IsWire(w)
    requires Concat(cs) == Concat(ws)
    ensures Chunks([], cs) == (ws, [])
  {
    ChunksAreOne([], cs);
    CutConcat(ws);
    assert [] + Concat(cs) == Concat(cs);
  }
}
