/** The circular byte buffer. */
module RingBuffers {

  /** The bytes held: len of them from start on, continuing at the front of the array. */
  function Unrolled(b: seq<bv8>, start: nat, len: nat): (s: seq<bv8>)
    requires start <= |b| && len <= |b|
    ensures |s| == len
    ensures forall k :: 0 <= k < len ==> s[k] == b[if start + k < |b| then start + k else start + k - |b|]
  {
    (b + b)[start..start + len]
  }

  class RingBuffer {
    const buf: array<bv8>
    var pstart: nat
    var plen: nat

    predicate Valid()
      reads this
    {
      pstart < buf.Length && plen <= buf.Length
    }

    function Contents(): (s: seq<bv8>)
      requires Valid()
      reads this, buf
      ensures |s| == plen
    {
      Unrolled(buf[..], pstart, plen)
    }

    constructor (size: nat)
      requires size > 0
      ensures Valid() && Contents() == [] && buf.Length == size && fresh(buf)
    {
      buf := new bv8[size];
      pstart, plen := 0, 0;
    }

    function Size(): (n: nat)
      requires Valid()
      reads this, buf
      ensures n == |Contents()|
    {
      plen
    }

    /** memcpy into the array. */
    method Memcpy(at: nat, data: seq<bv8>)
      requires at + |data| <= buf.Length
      modifies buf
      ensures buf[..] == old(buf[..at]) + data + old(buf[at + |data|..])
    {
      forall k | 0 <= k < |data| { buf[at + k] := data[k]; }
    }

    /** All the bytes are taken, or none of them if they do not fit. */
    method Write(data: seq<bv8>) returns (ok: bool)
      requires Valid()
      modifies this, buf
      ensures Valid() && ok == (|old(Contents())| + |data| <= buf.Length)
      ensures Contents() == if ok then old(Contents()) + data else old(Contents())
    {
      hide Unrolled;
      if plen + |data| > buf.Length { return false; }
      ghost var b := buf[..];
      var x := (pstart + plen) % buf.Length;
      WritePlace(pstart, plen, buf.Length);
      if x + |data| < buf.Length {
        Memcpy(x, data);
        OnePass(b, pstart, plen, x, data);
      } else {
        var delta := buf.Length - x;
        Memcpy(x, data[..delta]);
        Memcpy(0, data[delta..]);
        TwoPass(b, pstart, plen, x, data, buf[..]);
      }
      plen := plen + |data|;
      return true;
    }

    /** The first len bytes, which stay. */
    method Peek(len: nat) returns (ok: bool, data: seq<bv8>)
      requires Valid()
      ensures ok == (len <= |Contents()|)
      ensures ok ==> data == Contents()[..len]
    {
      if len > plen { return false, []; }
      if pstart + len < buf.Length {
        data := buf[pstart..pstart + len];
      } else {
        var delta := buf.Length - pstart;
        data := buf[pstart..] + buf[..len - delta];
      }
      PeekIs(buf[..], pstart, plen, len);
      return true, data;
    }

    method Remove(len: nat) returns (ok: bool)
      requires Valid()
      modifies this
      ensures Valid() && ok == (len <= |old(Contents())|)
      ensures Contents() == if ok then old(Contents())[len..] else old(Contents())
    {
      if len > plen { return false; }
      WritePlace(pstart, len, buf.Length);
      RemoveIs(buf[..], pstart, plen, len);
      pstart := (pstart + len) % buf.Length;
      plen := plen - len;
      return true;
    }

    /** Peek, then remove. */
    method Read(len: nat) returns (ok: bool, data: seq<bv8>)
      requires Valid()
      modifies this
      ensures Valid() && ok == (len <= |old(Contents())|)
      ensures ok ==> data == old(Contents())[..len]
      ensures Contents() == if ok then old(Contents())[len..] else old(Contents())
    {
      ok, data := Peek(len);
      if ok { ok := Remove(len); }
    }
  }

  lemma WritePlace(start: nat, len: nat, n: nat)
    requires start < n && len <= n
    ensures (start + len) % n == if start + len < n then start + len else start + len - n
  {
    if start + len >= n { assert start + len == n + (start + len - n); }
  }

  lemma OnePass(b: seq<bv8>, start: nat, len: nat, x: nat, data: seq<bv8>)
    requires start < |b| && len + |data| <= |b| && x + |data| < |b|
    requires x == if start + len < |b| then start + len else start + len - |b|
    ensures Unrolled(b[..x] + data + b[x + |data|..], start, len + |data|) == Unrolled(b, start, len) + data
  {
  }

  lemma TwoPass(b: seq<bv8>, start: nat, len: nat, x: nat, data: seq<bv8>, c: seq<bv8>)
    requires start < |b| && len + |data| <= |b| && |b| <= x + |data| && x < |b|
    requires x == if start + len < |b| then start + len else start + len - |b|
    requires var delta := |b| - x;
      var d := b[..x] + data[..delta] + b[|b|..];
      c == d[..0] + data[delta..] + d[|data| - delta..]
    ensures |c| == |b| && Unrolled(c, start, len + |data|) == Unrolled(b, start, len) + data
  {
  }

  lemma PeekIs(b: seq<bv8>, start: nat, len: nat, k: nat)
    requires start < |b| && k <= len <= |b|
    ensures Unrolled(b, start, len)[..k] ==
      if start + k < |b| then b[start..start + k] else b[start..] + b[..k - (|b| - start)]
  {
  }

  lemma RemoveIs(b: seq<bv8>, start: nat, len: nat, k: nat)
    requires start < |b| && k <= len <= |b|
    ensures Unrolled(b, start, len)[k..] == Unrolled(b, if start + k < |b| then start + k else start + k - |b|, len - k)
  {
  }
}
