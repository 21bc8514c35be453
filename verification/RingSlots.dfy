/** One ring buffer per source, out of a fixed number of slots. */
module RingSlots {
  import opened RingBuffers
  import opened Telegrams

  // ---- The slots as values ----------------------------------------------------------------

  datatype Entry = Free | Live(id: u16, bytes: seq<bv8>)

  predicate Busy(e: Entry) {
    e.Live? && e.bytes != []
  }

  predicate IsFor(e: Entry, id: u16) {
    e.Live? && e.id == id
  }

  ghost predicate Distinct(v: seq<Entry>) {
    forall i, j :: 0 <= i < j < |v| && v[i].Live? && v[j].Live? ==> v[i].id != v[j].id
  }

  /** The sources with bytes waiting. */
  ghost function HeldIn(v: seq<Entry>): map<u16, seq<bv8>> {
    if v == [] then map[]
    else
      var h, e := HeldIn(v[..|v| - 1]), v[|v| - 1];
      if Busy(e) then h[e.id := e.bytes] else h
  }

  function Buffered(held: map<u16, seq<bv8>>, id: u16): seq<bv8> {
    if id in held then held[id] else []
  }

  function Stored(held: map<u16, seq<bv8>>, id: u16, b: seq<bv8>): map<u16, seq<bv8>> {
    if b == [] then held - {id} else held[id := b]
  }

  function FreeCount(v: seq<Entry>): nat {
    if v == [] then 0 else FreeCount(v[..|v| - 1]) + if v[|v| - 1].Free? then 1 else 0
  }

  lemma {:induction false} HeldEntries(v: seq<Entry>, id: u16)
    requires Distinct(v)
    ensures id in HeldIn(v) ==> exists i :: 0 <= i < |v| && v[i] == Live(id, HeldIn(v)[id]) && HeldIn(v)[id] != []
    ensures forall i :: 0 <= i < |v| && IsFor(v[i], id) ==> Buffered(HeldIn(v), id) == v[i].bytes
  {
    if v != [] {
      var n := |v| - 1;
      HeldEntries(v[..n], id);
      if id in HeldIn(v[..n]) {
        var i :| 0 <= i < n && v[..n][i] == Live(id, HeldIn(v[..n])[id]);
        assert v[i] == Live(id, HeldIn(v[..n])[id]);
      }
      forall i | 0 <= i < |v| && IsFor(v[i], id) ensures Buffered(HeldIn(v), id) == v[i].bytes {
        if i < n { assert v[..n][i] == v[i]; }
      }
    }
  }

  /** Entries without bytes do not matter. */
  lemma {:induction false} SameBusy(v: seq<Entry>, u: seq<Entry>)
    requires |v| == |u|
    requires forall i :: 0 <= i < |v| && (Busy(v[i]) || Busy(u[i])) ==> v[i] == u[i]
    ensures HeldIn(v) == HeldIn(u)
  {
    if v != [] {
      var n := |v| - 1;
      SameBusy(v[..n], u[..n]);
    }
  }

  /** New bytes in one ring. */
  lemma {:induction false} HeldStored(v: seq<Entry>, j: nat, b: seq<bv8>)
    requires Distinct(v) && j < |v| && v[j].Live?
    ensures Distinct(v[j := Live(v[j].id, b)])
    ensures HeldIn(v[j := Live(v[j].id, b)]) == Stored(HeldIn(v), v[j].id, b)
  {
    var id, n := v[j].id, |v| - 1;
    var u := v[j := Live(id, b)];
    if j < n {
      HeldStored(v[..n], j, b);
      assert u[..n] == v[..n][j := Live(id, b)] && u[n] == v[n];
    } else {
      assert u[..n] == v[..n];
      if id in HeldIn(v[..n]) {
        HeldEntries(v[..n], id);
        assert false;
      }
    }
  }

  /** Some slot is for id or holds no bytes. */
  ghost predicate Spare(v: seq<Entry>, id: u16) {
    exists i :: 0 <= i < |v| && (IsFor(v[i], id) || !Busy(v[i]))
  }

  lemma SpareStep(v: seq<Entry>, id: u16)
    requires v != []
    ensures Spare(v, id) <==> Spare(v[..|v| - 1], id) || IsFor(v[|v| - 1], id) || !Busy(v[|v| - 1])
  {
    hide IsFor, Busy;
    var n := |v| - 1;
    if Spare(v[..n], id) {
      var i :| 0 <= i < n && (IsFor(v[..n][i], id) || !Busy(v[..n][i]));
      assert v[..n][i] == v[i];
    }
    if Spare(v, id) {
      var i :| 0 <= i < |v| && (IsFor(v[i], id) || !Busy(v[i]));
      if i < n { assert v[..n][i] == v[i]; }
    }
  }

  lemma HeldStep(v: seq<Entry>, id: u16)
    requires v != [] && Distinct(v)
    ensures var e := v[|v| - 1];
      |HeldIn(v).Keys - {id}| == |HeldIn(v[..|v| - 1]).Keys - {id}| + (if Busy(e) && e.id != id then 1 else 0)
  {
    var n := |v| - 1;
    var e, h := v[n], HeldIn(v[..n]).Keys;
    if Busy(e) {
      if e.id in h {
        HeldEntries(v[..n], e.id);
        assert false;
      }
      assert HeldIn(v).Keys - {id} == if e.id != id then (h - {id}) + {e.id} else h - {id};
    }
  }

  /** Fewer sources other than id have bytes waiting than there are slots, exactly when some slot
      is for id or holds no bytes. */
  lemma {:induction false} HeldCount(v: seq<Entry>, id: u16)
    requires Distinct(v)
    ensures |HeldIn(v).Keys - {id}| <= |v|
    ensures |HeldIn(v).Keys - {id}| < |v| <==> Spare(v, id)
  {
    if v != [] {
      hide HeldIn, Spare;
      var n := |v| - 1;
      HeldCount(v[..n], id);
      HeldStep(v, id);
      SpareStep(v, id);
    }
  }

  lemma {:induction false} FreeCountIs(v: seq<Entry>, i: nat, e: Entry)
    requires i < |v|
    ensures FreeCount(v[i := e]) == FreeCount(v) - (if v[i].Free? then 1 else 0) + (if e.Free? then 1 else 0)
  {
    var n := |v| - 1;
    if i < n {
      FreeCountIs(v[..n], i, e);
      assert v[i := e][..n] == v[..n][i := e];
    } else {
      assert v[i := e][..n] == v[..n];
    }
  }

  lemma {:induction false} NoneFree(v: seq<Entry>)
    ensures FreeCount(v) <= |v|
    ensures FreeCount(v) == 0 <==> forall i :: 0 <= i < |v| ==> v[i].Live?
    ensures FreeCount(v) == |v| <==> forall i :: 0 <= i < |v| ==> v[i].Free?
  {
    if v != [] {
      var n := |v| - 1;
      NoneFree(v[..n]);
      if FreeCount(v[..n]) == 0 && v[n].Live? {
        forall i | 0 <= i < |v| ensures v[i].Live? { if i < n { assert v[..n][i] == v[i]; } }
      }
      if FreeCount(v[..n]) == n && v[n].Free? {
        forall i | 0 <= i < |v| ensures v[i].Free? { if i < n { assert v[..n][i] == v[i]; } }
      }
      if forall i :: 0 <= i < |v| ==> v[i].Live? {
        forall i | 0 <= i < n ensures v[..n][i].Live? { assert v[i].Live?; }
      }
      if forall i :: 0 <= i < |v| ==> v[i].Free? {
        forall i | 0 <= i < n ensures v[..n][i].Free? { assert v[i].Free?; }
      }
    }
  }

  // ---- The slots --------------------------------------------------------------------------

  datatype Slot = Slot(free: bool, id: u16, buf: RingBuffer?)

  class MultiRings {
    const slots: array<Slot>
    var numFree: nat
    ghost var rings: set<RingBuffer>

    ghost predicate LiveSlot(i: nat)
      reads this`rings, slots, rings, set r | r in rings :: r.buf
      requires i < slots.Length
    {
      var s := slots[i];
      !s.free ==>
        && s.buf != null && s.buf in rings && s.buf.Valid() && s.buf.buf.Length == 1024
        && s.buf.buf as object != slots
    }

    ghost predicate Apart(i: nat, j: nat)
      reads slots
      requires i < slots.Length && j < slots.Length
    {
      var s, t := slots[i], slots[j];
      !s.free && !t.free && s.buf != null && t.buf != null ==> s.id != t.id && s.buf != t.buf && s.buf.buf != t.buf.buf
    }

    ghost predicate Wellformed()
      reads this`rings, slots, rings, set r | r in rings :: r.buf
    {
      && (forall i: nat :: i < slots.Length ==> LiveSlot(i))
      && (forall i: nat, j: nat :: i < j < slots.Length ==> Apart(i, j))
    }

    ghost function EntryAt(i: nat): Entry
      reads this`rings, slots, rings, set r | r in rings :: r.buf
      requires i < slots.Length && LiveSlot(i)
    {
      if slots[i].free then Free else Live(slots[i].id, slots[i].buf.Contents())
    }

    ghost function ViewTo(n: nat): (v: seq<Entry>)
      reads this`rings, slots, rings, set r | r in rings :: r.buf
      requires n <= slots.Length && Wellformed()
      ensures |v| == n && forall i: nat :: i < n ==> v[i] == EntryAt(i)
    {
      if n == 0 then [] else ViewTo(n - 1) + [EntryAt(n - 1)]
    }

    ghost function View(): (v: seq<Entry>)
      reads this`rings, slots, rings, set r | r in rings :: r.buf
      requires Wellformed()
      ensures |v| == slots.Length && forall i: nat :: i < |v| ==> v[i] == EntryAt(i)
    {
      ViewTo(slots.Length)
    }

    lemma ViewDistinct()
      requires Wellformed()
      ensures Distinct(View())
    {
      var v := View();
      forall i, j | 0 <= i < j < |v| && v[i].Live? && v[j].Live? ensures v[i].id != v[j].id {
        assert LiveSlot(i) && LiveSlot(j) && Apart(i, j);
        assert v[i] == EntryAt(i) && v[j] == EntryAt(j);
      }
    }

    ghost predicate Valid()
      reads this, slots, rings, set r | r in rings :: r.buf
    {
      Wellformed() && numFree == FreeCount(View())
    }

    ghost function Held(): map<u16, seq<bv8>>
      reads this, slots, rings, set r | r in rings :: r.buf
      requires Valid()
    {
      HeldIn(View())
    }

    constructor (maxRings: nat)
      ensures Valid() && slots.Length == maxRings && Held() == map[] && fresh(slots) && rings == {}
    {
      slots := new Slot[maxRings](_ => Slot(true, 0, null));
      numFree := maxRings;
      rings := {};
      new;
      NoneFree(View());
      AllFree(View());
    }

    method Release(i: nat)
      requires Wellformed() && i < slots.Length
      modifies slots
      ensures Wellformed() && View() == old(View())[i := Free]
    {
      slots[i] := Slot(true, 0, null);
      forall j: nat | j < slots.Length ensures LiveSlot(j) { assert old(LiveSlot(j)); }
      forall j: nat, k: nat | j < k < slots.Length ensures Apart(j, k) { assert old(Apart(j, k)); }
      forall j: nat | j < slots.Length ensures View()[j] == old(View())[i := Free][j] {
        assert old(LiveSlot(j)) && slots[j] == if j == i then Slot(true, 0, null) else old(slots[j]);
        assert j != i && !slots[j].free ==> slots[j].buf.Contents() == old(slots[j].buf.Contents());
      }
    }

    /** A new ring for id. */
    method Occupy(i: nat, id: u16) returns (ring: RingBuffer)
      requires Wellformed() && i < slots.Length && View()[i] == Free
      requires forall j: nat :: j < slots.Length ==> !IsFor(View()[j], id)
      modifies this`rings, slots
      ensures Wellformed() && View() == old(View())[i := Live(id, [])]
      ensures slots[i] == Slot(false, id, ring)
      ensures fresh(ring) && fresh(ring.buf) && rings == old(rings) + {ring}
    {
      ring := new RingBuffer(1024);
      assert forall j: nat :: j < slots.Length ==> LiveSlot(j) && EntryAt(j) == View()[j];
      slots[i] := Slot(false, id, ring);
      rings := rings + {ring};
      forall j: nat | j < slots.Length ensures LiveSlot(j) { assert old(LiveSlot(j)); }
      forall j: nat, k: nat | j < k < slots.Length ensures Apart(j, k) {
        assert old(LiveSlot(j)) && old(LiveSlot(k)) && old(Apart(j, k));
        assert old(View())[j] == old(EntryAt(j)) && old(View())[k] == old(EntryAt(k));
      }
      forall j: nat | j < slots.Length ensures View()[j] == old(View())[i := Live(id, [])][j] {
        assert old(LiveSlot(j)) && slots[j] == if j == i then Slot(false, id, ring) else old(slots[j]);
        assert j != i && !slots[j].free ==> slots[j].buf.Contents() == old(slots[j].buf.Contents());
      }
    }

    /** A slot whose ring is empty becomes free. */
    method Deallocate(i: nat)
      requires Valid()
      modifies this`numFree, slots
      ensures Valid() && Held() == old(Held())
      ensures View() == if i < slots.Length && !Busy(old(View())[i]) then old(View())[i := Free] else old(View())
    {
      hide HeldIn, FreeCount, RingBuffer.Contents, Distinct, Wellformed, Apart;
      if i >= slots.Length { return; }
      ghost var v := View();
      SlotIs(i);
      if !slots[i].free && slots[i].buf.Size() == 0 {
        Release(i);
        numFree := numFree + 1;
        FreeCountIs(v, i, Free);
        SameBusy(v, v[i := Free]);
        assert View() == v[i := Free];
      } else if slots[i].free {
        assert v[i := Free] == v;
      }
    }

    method CollectSlot(i: nat)
      requires Valid() && Wellformed() && i < slots.Length
      modifies this`numFree, slots
      ensures Valid() && Wellformed() && Held() == old(Held())
      ensures View() == if Busy(old(View())[i]) then old(View()) else old(View())[i := Free]
    {
      hide HeldIn, FreeCount, RingBuffer.Contents, Distinct, Busy, Wellformed;
      ghost var u := View();
      EntryOf(i, 0);
      if !slots[i].free {
        Deallocate(i);
      } else {
        assert u[i := Free] == u;
      }
    }

    /** Every empty ring is given up, and no other. */
    method GarbageCollect()
      requires Valid()
      modifies this`numFree, slots
      ensures Valid() && Held() == old(Held()) && View() == Collected(old(View()))
    {
      hide *;
      SpareIff(0);
      ghost var v := View();
      if numFree == slots.Length {
        NothingToCollect(v);
        return;
      }
      CollectedEnds(v);
      var i: nat := 0;
      while i < slots.Length
        invariant i <= slots.Length && Valid() && Held() == old(Held()) && Wellformed()
        invariant View() == CollectedTo(v, i)
      {
        CollectNext(v, i);
        CollectSlot(i);
        i := i + 1;
      }
    }

    lemma SlotIs(i: nat)
      requires Wellformed() && i < slots.Length
      ensures !slots[i].free ==> slots[i].buf != null && slots[i].buf.Valid()
      ensures View()[i] == if slots[i].free then Free else Live(slots[i].id, slots[i].buf.Contents())
    {
      assert LiveSlot(i) && View()[i] == EntryAt(i);
    }

    /** The search of get: the slot of id if there is one, otherwise the first free slot, or -1. */
    method Find(id: u16) returns (firstFree: int, rightBuf: int)
      requires Wellformed()
      ensures rightBuf != -1 ==> 0 <= rightBuf < slots.Length && IsFor(View()[rightBuf], id)
      ensures rightBuf == -1 ==> forall j: nat :: j < slots.Length ==> !IsFor(View()[j], id)
      ensures rightBuf == -1 && firstFree == -1 ==> forall j: nat :: j < slots.Length ==> View()[j].Live?
      ensures rightBuf == -1 && firstFree != -1 ==> 0 <= firstFree < slots.Length && View()[firstFree] == Free
    {
      hide *;
      ghost var v := View();
      firstFree, rightBuf := -1, -1;
      var i := 0;
      while i < slots.Length
        invariant 0 <= i <= slots.Length && rightBuf == -1
        invariant forall j: nat :: j < i ==> !IsFor(v[j], id)
        invariant if firstFree == -1
          then forall j: nat :: j < i ==> v[j].Live?
          else 0 <= firstFree < i && v[firstFree] == Free
      {
        EntryOf(i, id);
        if slots[i].free && firstFree == -1 { firstFree := i; }
        if !slots[i].free && slots[i].id == id {
          return firstFree, i;
        }
        i := i + 1;
      }
    }

    lemma SpareIff(id: u16)
      requires Valid()
      ensures Wellformed() && (|Held().Keys - {id}| < slots.Length <==> Spare(View(), id))
      ensures numFree == 0 <==> forall j: nat :: j < slots.Length ==> View()[j] != Free
      ensures numFree == slots.Length <==> forall j: nat :: j < slots.Length ==> View()[j] == Free
    {
      hide HeldIn, FreeCount, Distinct, Busy, IsFor, Spare, Wellformed;
      ViewDistinct();
      HeldCount(View(), id);
      NoneFree(View());
    }

    method NewSlot(i: nat, id: u16) returns (ring: RingBuffer)
      requires Valid() && i < slots.Length && View()[i] == Free
      requires forall j: nat :: j < slots.Length ==> !IsFor(View()[j], id)
      modifies this`numFree, this`rings, slots
      ensures Valid() && Held() == old(Held()) && slots[i] == Slot(false, id, ring)
      ensures fresh(ring) && fresh(ring.buf) && rings == old(rings) + {ring}
    {
      hide HeldIn, FreeCount, Distinct, Busy, IsFor, Wellformed, RingBuffer.Contents, RingBuffer.Valid, Apart, LiveSlot;
      ghost var v := View();
      NewRing(v, i, id);
      ring := Occupy(i, id);
      numFree := numFree - 1;
    }

    /** The ring of a source, a new one if it has none.  It fails exactly when every slot holds
        bytes of some other source.  No bytes are lost. */
    method Get(id: u16) returns (ring: RingBuffer?, ghost at: nat)
      requires Valid()
      modifies this`numFree, this`rings, slots
      ensures Valid() && Held() == old(Held())
      ensures fresh(rings - old(rings)) && rings >= old(rings)
      ensures forall r :: r in rings - old(rings) ==> fresh(r.buf)
      ensures ring == null <==> |Held().Keys - {id}| >= slots.Length
      ensures ring != null ==> at < slots.Length && slots[at] == Slot(false, id, ring)
      decreases if numFree == 0 then 1 else 0
    {
      hide *;
      SpareIff(id);
      ghost var v := View();
      var firstFree, rightBuf := Find(id);
      if rightBuf != -1 {
        EntryOf(rightBuf, id);
        ring, at := slots[rightBuf].buf, rightBuf;
        HasSpare(v, id, rightBuf);
        return;
      }
      if firstFree == -1 {
        GarbageCollect();
        NoSpare(v, id);
        SpareIff(id);
        if numFree == 0 { return null, 0; }
        ring, at := Get(id);
        return;
      }
      HasSpare(v, id, firstFree);
      ring := NewSlot(firstFree, id);
      at := firstFree;
    }

    lemma EntryOf(i: nat, id: u16)
      requires Wellformed() && i < slots.Length
      ensures slots[i].free <==> View()[i] == Free
      ensures !slots[i].free && slots[i].id == id <==> IsFor(View()[i], id)
      ensures !slots[i].free ==> slots[i].buf != null
    {
      hide RingBuffer.Contents;
      assert LiveSlot(i) && View()[i] == EntryAt(i);
    }

    /** The ring in a slot holds what its source is waiting with. */
    lemma HeldAt(at: nat)
      requires Valid() && at < slots.Length && !slots[at].free
      ensures LiveSlot(at) && slots[at].buf.Contents() == Buffered(Held(), slots[at].id)
    {
      hide HeldIn, FreeCount, Distinct, RingBuffer.Contents;
      ViewDistinct();
      SlotIs(at);
      HeldEntries(View(), slots[at].id);
      assert IsFor(View()[at], slots[at].id);
    }

    /** Afterwards, the caller reads and writes that ring. */
    twostate lemma RingChanged(at: nat)
      requires old(Valid()) && at < slots.Length && !old(slots[at].free)
      requires unchanged(this, slots)
      requires old(LiveSlot(at)) && slots[at].buf.Valid()
      requires forall r :: r in rings && r != slots[at].buf ==> unchanged(r)
      requires forall r :: r in rings && r.buf != slots[at].buf.buf ==> unchanged(r.buf)
      ensures Valid()
      ensures Held() == Stored(old(Held()), slots[at].id, slots[at].buf.Contents())
    {
      hide HeldIn, FreeCount, Distinct, RingBuffer.Contents;
      OtherRings(at);
      var v: seq<Entry>, id, b := old(View()), slots[at].id, slots[at].buf.Contents();
      assert View() == v[at := Live(id, b)];
      ViewDistinct();
      HeldStored(View(), at, v[at].bytes);
      assert View()[at := v[at]] == v;
      HeldStored(v, at, b);
      FreeCountIs(v, at, Live(id, b));
    }

    twostate lemma OtherRings(at: nat)
      requires old(Wellformed()) && at < slots.Length && !old(slots[at].free)
      requires unchanged(this, slots)
      requires old(LiveSlot(at)) && slots[at].buf.Valid()
      requires forall r :: r in rings && r != slots[at].buf ==> unchanged(r)
      requires forall r :: r in rings && r.buf != slots[at].buf.buf ==> unchanged(r.buf)
      ensures Wellformed()
      ensures old(View())[at] == Live(slots[at].id, old(slots[at].buf.Contents()))
      ensures View() == old(View())[at := Live(slots[at].id, slots[at].buf.Contents())]
    {
      hide RingBuffer.Contents;
      forall j: nat | j < slots.Length
        ensures LiveSlot(j) && old(LiveSlot(j)) && (j != at ==> EntryAt(j) == old(EntryAt(j)))
      {
        assert old(LiveSlot(j));
        if j < at { assert old(Apart(j, at)); } else if j > at { assert old(Apart(at, j)); }
        if j != at && !slots[j].free {
          assert slots[j].buf in rings && slots[j].buf != slots[at].buf && slots[j].buf.buf != slots[at].buf.buf;
          assert slots[j].buf.Contents() == old(slots[j].buf.Contents());
        }
      }
      forall j: nat, k: nat | j < k < slots.Length ensures Apart(j, k) { assert old(Apart(j, k)); }
      assert old(View())[at] == old(EntryAt(at));
      var u := old(View())[at := Live(slots[at].id, slots[at].buf.Contents())];
      forall j: nat | j < slots.Length ensures View()[j] == u[j] {
        assert View()[j] == EntryAt(j) && old(View())[j] == old(EntryAt(j));
      }
    }
  }

  function Collected(v: seq<Entry>): (u: seq<Entry>)
    ensures |u| == |v| && forall i :: 0 <= i < |v| ==> u[i] == if Busy(v[i]) then v[i] else Free
  {
    seq(|v|, i requires 0 <= i < |v| => if Busy(v[i]) then v[i] else Free)
  }

  lemma NothingToCollect(v: seq<Entry>)
    requires forall i: nat :: i < |v| ==> v[i] == Free
    ensures Collected(v) == v
  {
  }

  /** The slots below i are collected. */
  function CollectedTo(v: seq<Entry>, i: nat): seq<Entry>
    requires i <= |v|
  {
    Collected(v[..i]) + v[i..]
  }

  lemma CollectedEnds(v: seq<Entry>)
    ensures CollectedTo(v, 0) == v && CollectedTo(v, |v|) == Collected(v)
  {
    assert v[..|v|] == v && v[|v|..] == [];
  }

  lemma CollectNext(v: seq<Entry>, i: nat)
    requires i < |v|
    ensures var u := CollectedTo(v, i);
      |u| == |v| && CollectedTo(v, i + 1) == if Busy(u[i]) then u else u[i := Free]
  {
    hide Busy;
    assert v[..i + 1][..i] == v[..i];
  }

  lemma HasSpare(v: seq<Entry>, id: u16, i: nat)
    requires i < |v| && (v[i] == Free || IsFor(v[i], id))
    ensures Spare(v, id)
  {
  }

  /** Without a slot for id, there is a spare one exactly when collecting frees one. */
  lemma NoSpare(v: seq<Entry>, id: u16)
    requires forall j: nat :: j < |v| ==> !IsFor(v[j], id)
    ensures Spare(v, id) <==> exists i: nat :: i < |v| && Collected(v)[i] == Free
  {
    hide IsFor;
    if Spare(v, id) {
      var i :| 0 <= i < |v| && (IsFor(v[i], id) || !Busy(v[i]));
      assert Collected(v)[i] == Free;
    }
  }

  lemma NewRing(v: seq<Entry>, i: nat, id: u16)
    requires i < |v| && v[i] == Free
    ensures FreeCount(v[i := Live(id, [])]) == FreeCount(v) - 1
    ensures HeldIn(v[i := Live(id, [])]) == HeldIn(v)
  {
    hide HeldIn, FreeCount;
    FreeCountIs(v, i, Live(id, []));
    SameBusy(v, v[i := Live(id, [])]);
  }

  lemma {:induction false} AllFree(v: seq<Entry>)
    requires forall i: nat :: i < |v| ==> v[i] == Free
    ensures HeldIn(v) == map[]
  {
    if v != [] { AllFree(v[..|v| - 1]); }
  }
}
