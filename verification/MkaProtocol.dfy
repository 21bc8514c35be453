/** The step machine of crypto/mka.h as a function on the state of one node: what one received
    value does to it.  The imperative class is in MkaExchange, networks of nodes in MkaNetwork. */
module MkaProtocol {
  import opened Arith
  import opened Groups
  import opened GroupSums
  import opened Symmetric
  import opened Primes
  import opened Ecp
  import opened Mka

  datatype Option<+T> = None | Some(value: T)

  datatype ExchangeStatus = Offline | Error | Running | Completed

  /** mka_step_t: a broadcast value and the step it is for. */
  datatype StepValue<+P> = StepValue(step: nat, key: P)

  /** An entry of _next_step_values: a value that came one step early, and its sender. */
  datatype Deferred<+P> = Deferred(src: nat, value: StepValue<P>)

  /** What the replay loop copies for a deferred entry: the entry's own value, which is what the
      protocol needs, or the value of the packet that triggered the replay, which is what
      mka.h copies. */
  datatype Copy<+P> = OwnValue | TriggerValue(trigger: P)

  /** One node.  users and slots are _remote_users and the filled part of _remote_keys, in
      order of arrival; k and r belong to its mka_context; sent is all it has broadcast. */
  datatype Node<+P> = Node(status: ExchangeStatus, step: nat, users: seq<nat>, slots: seq<P>,
                           deferred: seq<Deferred<P>>, k: P, r: nat, key: P, sent: seq<StepValue<P>>)

  /** The group, its base point, and the participants' secrets. */
  datatype Config<!P(!new)> = Config(g: Group<P>, q: int, base: P, secrets: seq<int>)

  ghost predicate GoodConfig<P(!new)>(c: Config<P>) {
    && PrimeGroup(c.g, c.q) && c.q > 1
    && 2 <= |c.secrets| <= 255 && |c.secrets| < c.q
  }

  // ---- The context's operations as functions ----------------------------------------------

  lemma InverseExists(q: int, m: int)
    requires Prime(q) && 0 < m < q
    ensures exists e :: Cong(m * e, 1, q)
  {
    var e := InverseModPrime(q, m);
  }

  ghost function InverseOf(q: int, m: int): (e: int)
    requires Prime(q) && 0 < m < q
    ensures Cong(m * e, 1, q)
  {
    InverseExists(q, m);
    var e :| Cong(m * e, 1, q);
    e
  }

  /** mka_acc_broadval in round r. */
  ghost function Accumulate<P(!new)>(g: Group<P>, q: int, k: P, r: nat, n: nat, buf: seq<P>): Option<P>
    requires Prime(q) && n <= q
  {
    if r + 2 > n || (r > 0 && k == g.zero) then None
    else
      var d := g.add(SumPoints(g, buf), g.neg(Times(g, r, k)));
      if d == g.zero then None else Some(Times(g, InverseOf(q, r + 1), d))
  }

  /** mka_make_broadval in round r. */
  ghost function Broadcast<P(!new)>(g: Group<P>, a: int, k: P, r: nat, n: nat): Option<P> {
    if r + 2 > n then None
    else if r == 0 then Some(k)
    else if k == g.zero then None
    else Some(Times(g, a, k))
  }

  lemma AccumulateMeaning<P(!new)>(g: Group<P>, q: int, k: P, r: nat, n: nat, buf: seq<P>)
    requires PrimeGroup(g, q) && Prime(q) && q > 1 && n <= q && Accumulate(g, q, k, r, n, buf).Some?
    ensures Accumulated(g, r, k, buf, Accumulate(g, q, k, r, n, buf).value)
  {
    hide Times, SumPoints, PrimeGroup, Prime, Cong;
    var d := g.add(SumPoints(g, buf), g.neg(Times(g, r, k)));
    UndoInverse(g, q, r + 1, InverseOf(q, r + 1), d);
  }

  // ---- One node ---------------------------------------------------------------------------

  /** Storing a value of the current step, unless its sender's is already stored. */
  function Accept<P>(node: Node<P>, src: nat, key: P): Node<P> {
    if src in node.users then node
    else node.(users := node.users + [src], slots := node.slots + [key])
  }

  function CopiedKey<P>(e: Deferred<P>, copy: Copy<P>): P {
    if copy.OwnValue? then e.value.key else copy.trigger
  }

  /** The replay loop over the deferred entries. */
  function Replay<P>(node: Node<P>, entries: seq<Deferred<P>>, copy: Copy<P>): Node<P>
    decreases |entries|
  {
    if entries == [] then node
    else
      var e := entries[0];
      Replay(if e.value.step == node.step then Accept(node, e.src, CopiedKey(e, copy)) else node, entries[1..], copy)
  }

  /** The values of all peers are there: accumulate, go to the next step, broadcast, replay. */
  ghost function Advance<P(!new)>(g: Group<P>, q: int, a: int, n: nat, node: Node<P>, copy: Copy<P>): Node<P>
    requires Prime(q) && 2 <= n <= q
  {
    match Accumulate(g, q, node.k, node.r, n, node.slots)
    case None => node.(status := Error)
    case Some(k) =>
      var next := node.(k := k, r := Min(node.r + 1, n - 2), users := [], slots := [], step := node.step + 1);
      if next.step == n - 1 then next
      else
        match Broadcast(g, a, next.k, next.r, n)
        case None => next.(status := Error)
        case Some(v) =>
          Replay(next.(k := v, sent := next.sent + [StepValue(next.step, v)], deferred := []), node.deferred, copy)
  }

  /** A value of the current step is stored, one of the next step deferred. */
  function Receive<P>(node: Node<P>, src: nat, v: StepValue<P>): Node<P> {
    if v.step == node.step then Accept(node, src, v.key)
    else if v.step == node.step + 1 then node.(deferred := node.deferred + [Deferred(src, v)])
    else node
  }

  /** _crypto_update on a value that came from src, with the intended copy in the replay. */
  ghost function Process<P(!new)>(g: Group<P>, q: int, a: int, n: nat, node: Node<P>, src: nat,
      v: StepValue<P>): Node<P>
    requires Prime(q) && 2 <= n <= q
  {
    var m := Receive(node, src, v);
    if |m.users| == n - 1 then Advance(g, q, a, n, m, OwnValue) else m
  }

  /** The same with the copy that mka.h makes. */
  ghost function ProcessAsWritten<P(!new)>(g: Group<P>, q: int, a: int, n: nat, node: Node<P>, src: nat,
      v: StepValue<P>): Node<P>
    requires Prime(q) && 2 <= n <= q
  {
    var m := Receive(node, src, v);
    if |m.users| == n - 1 then Advance(g, q, a, n, m, TriggerValue(v.key)) else m
  }

  /** A node that still waits for a value of its step takes no notice of values of other steps than this
      and the next, nor of a second value of this step from the same sender. */
  lemma OtherValues<P(!new)>(g: Group<P>, q: int, a: int, n: nat, node: Node<P>, src: nat, v: StepValue<P>)
    requires Prime(q) && 2 <= n <= q && |node.users| < n - 1
    requires (v.step != node.step && v.step != node.step + 1) || (v.step == node.step && src in node.users)
    ensures Process(g, q, a, n, node, src, v) == node && ProcessAsWritten(g, q, a, n, node, src, v) == node
  {
    hide Prime, Advance;
  }

  /** Deferred values of other steps are not replayed. */
  lemma {:induction false} OtherEntries<P>(node: Node<P>, entries: seq<Deferred<P>>, copy: Copy<P>)
    requires forall x :: 0 <= x < |entries| ==> entries[x].value.step != node.step
    ensures Replay(node, entries, copy) == node
    decreases |entries|
  {
    if entries != [] { OtherEntries(node, entries[1..], copy); }
  }

  /** The end of update(): mka_compute_key once the last step is done. */
  ghost function Finish<P(!new)>(g: Group<P>, a: int, node: Node<P>): Node<P> {
    if node.k == g.zero then node.(status := Error)
    else node.(status := Completed, key := Times(g, a, node.k))
  }

  // ---- The invariant of one node ----------------------------------------------------------

  /** What participant i broadcasts in step t. */
  ghost function Value<P(!new)>(c: Config<P>, i: nat, t: nat): P {
    if i < |c.secrets| then Times(c.g, Share(c.secrets, i, t), c.base) else c.g.zero
  }

  predicate Peer(j: nat, i: nat, n: nat) {
    i < n && i != j
  }

  predicate NoRepeats<T(==)>(s: seq<T>) {
    forall x, y :: 0 <= x < y < |s| ==> s[x] != s[y]
  }

  function Sources<P>(entries: seq<Deferred<P>>): (s: seq<nat>)
    ensures |s| == |entries| && forall x :: 0 <= x < |s| ==> s[x] == entries[x].src
  {
    seq(|entries|, x requires 0 <= x < |entries| => entries[x].src)
  }

  /** The broadcasts of participant j: one for each step, in order. */
  ghost predicate History<P(!new)>(c: Config<P>, j: nat, sent: seq<StepValue<P>>)
    requires j < |c.secrets|
  {
    |sent| < |c.secrets| && forall t :: 0 <= t < |sent| ==> sent[t] == StepValue(t, Value(c, j, t))
  }

  /** What node j holds against how many broadcasts of each peer it has taken in: from a peer one
      broadcast behind nothing, from the others the value of this step, and from those one ahead
      also the value of the next step. */
  ghost predicate Holds<P(!new)>(c: Config<P>, j: nat, node: Node<P>, row: seq<nat>)
    requires j < |c.secrets|
  {
    var n, s := |c.secrets|, node.step;
    && |row| == n
    && (forall i: nat :: Peer(j, i, n) ==> s <= row[i] <= s + 2)
    && NoRepeats(node.users)
    && (forall i: nat :: i in node.users <==> Peer(j, i, n) && row[i] > s)
    && |node.slots| == |node.users|
    && (forall x :: 0 <= x < |node.users| ==> node.slots[x] == Value(c, node.users[x], s))
    && NoRepeats(Sources(node.deferred))
    && (forall i: nat :: i in Sources(node.deferred) <==> Peer(j, i, n) && row[i] == s + 2)
    && (forall x :: 0 <= x < |node.deferred| ==>
          node.deferred[x].value == StepValue(s + 1, Value(c, node.deferred[x].src, s + 1)))
  }

  /** A node at work, between two packets. */
  ghost predicate AtWork<P(!new)>(c: Config<P>, j: nat, node: Node<P>, row: seq<nat>)
    requires j < |c.secrets|
  {
    && node.status == Running && node.step + 1 < |c.secrets|
    && Holds(c, j, node, row)
    && node.k == Value(c, j, node.step) && node.r == node.step
    && History(c, j, node.sent) && |node.sent| == node.step + 1
  }

  /** A node that has done all its steps. */
  ghost predicate Done<P(!new)>(c: Config<P>, j: nat, node: Node<P>, row: seq<nat>)
    requires j < |c.secrets|
  {
    var n := |c.secrets|;
    && (node.status == Running || node.status == Completed) && node.step == n - 1
    && |row| == n && (forall i: nat :: Peer(j, i, n) ==> row[i] >= n - 1)
    && node.k == Times(c.g, Elementary(Without(c.secrets, j), n - 1), c.base)
    && History(c, j, node.sent) && |node.sent| == n - 1
    && (node.status == Completed ==> node.key == Times(c.g, Product(c.secrets), c.base))
  }

  /** A node stopped by a failing call. */
  ghost predicate Stopped<P(!new)>(c: Config<P>, j: nat, node: Node<P>, row: seq<nat>)
    requires j < |c.secrets|
  {
    var n := |c.secrets|;
    && node.status == Error && node.step < n
    && |row| == n && (forall i: nat :: Peer(j, i, n) ==> row[i] >= node.step)
    && History(c, j, node.sent) && |node.sent| <= node.step + 1
  }

  ghost predicate NodeInv<P(!new)>(c: Config<P>, j: nat, node: Node<P>, row: seq<nat>)
    requires j < |c.secrets|
  {
    || (AtWork(c, j, node, row) && |node.users| < |c.secrets| - 1)
    || Done(c, j, node, row)
    || Stopped(c, j, node, row)
  }

  // ---- Receiving --------------------------------------------------------------------------

  lemma AppendNoRepeats<T>(s: seq<T>, x: T)
    requires NoRepeats(s) && x !in s
    ensures NoRepeats(s + [x])
  {
  }

  lemma SourcesAppend<P>(entries: seq<Deferred<P>>, e: Deferred<P>)
    ensures Sources(entries + [e]) == Sources(entries) + [e.src]
  {
  }

  /** The next broadcast of peer i, if it is at most one step ahead, is stored or deferred. */
  lemma ReceiveHolds<P(!new)>(c: Config<P>, j: nat, node: Node<P>, row: seq<nat>, i: nat)
    requires j < |c.secrets| && Holds(c, j, node, row) && Peer(j, i, |c.secrets|)
    requires row[i] <= node.step + 1
    ensures var v := StepValue(row[i], Value(c, i, row[i]));
      Holds(c, j, Receive(node, i, v), row[i := row[i] + 1])
  {
    hide Value, NoRepeats, Sources;
    var v := StepValue(row[i], Value(c, i, row[i]));
    if row[i] == node.step {
      assert i !in node.users;
      AppendNoRepeats(node.users, i);
    } else {
      assert i !in Sources(node.deferred);
      SourcesAppend(node.deferred, Deferred(i, v));
      AppendNoRepeats(Sources(node.deferred), i);
    }
  }

  // ---- Counting peers ---------------------------------------------------------------------

  ghost function Elements(s: seq<nat>): set<nat> {
    set x | x in s
  }

  ghost function PeerSet(j: nat, n: nat): set<nat> {
    Below(n) - {j}
  }

  lemma {:induction false} NoRepeatsCount(s: seq<nat>)
    requires NoRepeats(s)
    ensures |Elements(s)| == |s|
  {
    if s != [] {
      var t, l := s[..|s| - 1], s[|s| - 1];
      NoRepeatsCount(t);
      assert s == t + [l];
      assert Elements(s) == Elements(t) + {l};
      assert l !in t;
    }
  }

  ghost function Below(n: nat): (r: set<nat>)
    ensures |r| == n && forall i: nat :: i in r <==> i < n
  {
    if n == 0 then {} else Below(n - 1) + {n - 1}
  }

  lemma PeerCount(j: nat, n: nat)
    requires j < n
    ensures |PeerSet(j, n)| == n - 1
  {
    assert Below(n) == PeerSet(j, n) + {j};
  }

  /** At most n - 1 peers, and when there are that many, they are all the peers. */
  lemma CountedPeers(j: nat, n: nat, users: seq<nat>)
    requires j < n && NoRepeats(users) && forall i :: i in users ==> Peer(j, i, n)
    ensures |users| <= n - 1
    ensures |users| == n - 1 ==> forall i: nat :: Peer(j, i, n) ==> i in users
  {
    hide NoRepeats;
    var us, ps := Elements(users), PeerSet(j, n);
    NoRepeatsCount(users);
    PeerCount(j, n);
    assert us <= ps;
    SubsetCount(us, ps);
    forall i: nat | us == ps && Peer(j, i, n) ensures i in users { assert i in ps; }
  }

  lemma SubsetCount<T>(a: set<T>, b: set<T>)
    requires a <= b
    ensures |a| <= |b| && (|a| == |b| ==> a == b)
  {
    assert b == a + (b - a);
  }

  lemma {:induction false} NoRepeatsMultiset<T>(s: seq<T>, x: T)
    requires NoRepeats(s)
    ensures multiset(s)[x] == if x in s then 1 else 0
  {
    if s != [] {
      var t, l := s[..|s| - 1], s[|s| - 1];
      NoRepeatsMultiset(t, x);
      assert s == t + [l];
    }
  }

  lemma SameElements<T>(s: seq<T>, t: seq<T>)
    requires NoRepeats(s) && NoRepeats(t) && forall x :: x in s <==> x in t
    ensures multiset(s) == multiset(t)
  {
    hide NoRepeats;
    forall x ensures multiset(s)[x] == multiset(t)[x] {
      NoRepeatsMultiset(s, x);
      NoRepeatsMultiset(t, x);
    }
  }

  /** Values looked up under the same names, in different orders. */
  lemma {:induction false} MapPermuted<P>(s: seq<nat>, t: seq<nat>, ps: seq<P>, qs: seq<P>, v: nat -> P)
    requires multiset(s) == multiset(t) && |ps| == |s| && |qs| == |t|
    requires (forall x :: 0 <= x < |s| ==> ps[x] == v(s[x])) && (forall x :: 0 <= x < |t| ==> qs[x] == v(t[x]))
    ensures multiset(ps) == multiset(qs)
    decreases |s|
  {
    if s == [] {
      assert |multiset(t)| == 0;
    } else {
      var n := |s| - 1;
      assert s[n] in multiset(t);
      var i :| 0 <= i < |t| && t[i] == s[n];
      WithoutMultiset(s, n);
      WithoutMultiset(t, i);
      RemoveSame(multiset(Without(s, n)), multiset(Without(t, i)), multiset{s[n]});
      MapPermuted(Without(s, n), Without(t, i), Without(ps, n), Without(qs, i), v);
      WithoutMultiset(ps, n);
      WithoutMultiset(qs, i);
    }
  }

  // ---- Completing a step ------------------------------------------------------------------

  ghost function Values<P(!new)>(c: Config<P>, t: nat): (vs: seq<P>)
    ensures |vs| == |c.secrets| && forall i :: 0 <= i < |vs| ==> vs[i] == Value(c, i, t)
  {
    seq(|c.secrets|, i requires 0 <= i < |c.secrets| => Value(c, i, t))
  }

  /** A full step holds exactly one value of the step from every peer. */
  lemma FullStep<P(!new)>(c: Config<P>, j: nat, node: Node<P>, row: seq<nat>)
    requires j < |c.secrets| && Holds(c, j, node, row) && |node.users| == |c.secrets| - 1
    ensures forall i: nat :: Peer(j, i, |c.secrets|) ==> i in node.users && row[i] > node.step
    ensures multiset(node.slots) == multiset(Without(Values(c, node.step), j))
  {
    hide Value, NoRepeats, Sources, Values;
    var n := |c.secrets|;
    CountedPeers(j, n, node.users);
    var ids: seq<nat> := seq(n, i requires 0 <= i < n => i);
    assert NoRepeats(Without(ids, j)) by { PeerNamesDistinct(ids, j); }
    forall x: nat ensures x in node.users <==> x in Without(ids, j) {
      PeerNames(ids, j, n, x);
    }
    SameElements(node.users, Without(ids, j));
    MapPermuted(node.users, Without(ids, j), node.slots, Without(Values(c, node.step), j), i => Value(c, i, node.step));
  }

  lemma PeerNamesDistinct(ids: seq<nat>, j: nat)
    requires j < |ids| && forall i :: 0 <= i < |ids| ==> ids[i] == i
    ensures NoRepeats(Without(ids, j))
  {
  }

  lemma PeerNames(ids: seq<nat>, j: nat, n: nat, x: nat)
    requires j < |ids| == n && forall i :: 0 <= i < |ids| ==> ids[i] == i
    ensures x in Without(ids, j) <==> Peer(j, x, n)
  {
    var w := Without(ids, j);
    if Peer(j, x, n) {
      if x < j { assert w[x] == x; } else { assert w[x - 1] == x; }
    }
  }

  /** The accumulation of a full step yields the next elementary symmetric polynomial. */
  lemma FullStepPoint<P(!new)>(c: Config<P>, j: nat, node: Node<P>)
    requires GoodConfig(c) && Prime(c.q) && j < |c.secrets| && node.step + 1 < |c.secrets|
    requires multiset(node.slots) == multiset(Without(Values(c, node.step), j))
    requires node.k == Value(c, j, node.step) && node.r == node.step
    ensures var p := Accumulate(c.g, c.q, node.k, node.r, |c.secrets|, node.slots);
      p.Some? ==> p.value == Times(c.g, Elementary(Without(c.secrets, j), node.step + 1), c.base)
  {
    hide *;
    ConfigFacts(c);
    var p := Accumulate(c.g, c.q, node.k, node.r, |c.secrets|, node.slots);
    var vs := Values(c, node.step);
    if p.Some? {
      AccumulateMeaning(c.g, c.q, node.k, node.r, |c.secrets|, node.slots);
      ValuesAreMultiples(c, node.step);
      RoundStep(c.g, c.q, c.base, c.secrets, j, node.step, vs, node.slots, p.value);
    }
  }

  lemma ConfigFacts<P(!new)>(c: Config<P>)
    requires GoodConfig(c)
    ensures PrimeGroup(c.g, c.q) && Abelian(c.g) && Prime(c.q) && c.q > 1 && 2 <= |c.secrets| < c.q
  {
  }

  lemma ValuesAreMultiples<P(!new)>(c: Config<P>, t: nat)
    ensures Multiples(c.g, c.base, Shares(c.secrets, |c.secrets|, t), Values(c, t))
  {
    hide Times, Share;
  }

  /** Replaying deferred values, each for the present step and from a different sender. */
  lemma {:induction false} ReplayAll<P>(node: Node<P>, entries: seq<Deferred<P>>)
    requires forall x :: 0 <= x < |entries| ==> entries[x].value.step == node.step && entries[x].src !in node.users
    requires NoRepeats(Sources(entries))
    ensures var r := Replay(node, entries, OwnValue);
      && r == node.(users := r.users, slots := r.slots)
      && r.users == node.users + Sources(entries)
      && r.slots == node.slots + Keys(entries)
    decreases |entries|
  {
    hide NoRepeats, Sources, Keys, Replay;
    if entries == [] {
      ReplayNone(node);
      assert Sources(entries) == [] && Keys(entries) == [];
      assert node.users + Sources(entries) == node.users && node.slots + Keys(entries) == node.slots;
    } else {
      var e := entries[0];
      TailEntries(entries);
      OtherSources(entries);
      var m := node.(users := node.users + [e.src], slots := node.slots + [e.value.key]);
      ReplayFirst(node, entries);
      forall x | 0 <= x < |entries[1..]|
        ensures entries[1..][x].value.step == m.step && entries[1..][x].src !in m.users
      {
        assert entries[1..][x] == entries[x + 1];
      }
      ReplayAll(m, entries[1..]);
      assert node.users + Sources(entries) == (node.users + [e.src]) + Sources(entries[1..]);
      assert node.slots + Keys(entries) == (node.slots + [e.value.key]) + Keys(entries[1..]);
    }
  }

  lemma ReplayNone<P>(node: Node<P>)
    ensures Replay(node, [], OwnValue) == node
  {
  }

  lemma ReplayFirst<P>(node: Node<P>, entries: seq<Deferred<P>>)
    requires entries != [] && entries[0].value.step == node.step && entries[0].src !in node.users
    ensures Replay(node, entries, OwnValue)
         == Replay(node.(users := node.users + [entries[0].src], slots := node.slots + [entries[0].value.key]),
             entries[1..], OwnValue)
  {
  }

  lemma TailEntries<P>(entries: seq<Deferred<P>>)
    requires entries != [] && NoRepeats(Sources(entries))
    ensures Sources(entries) == [entries[0].src] + Sources(entries[1..])
    ensures Keys(entries) == [entries[0].value.key] + Keys(entries[1..])
    ensures NoRepeats(Sources(entries[1..]))
  {
    hide NoRepeats;
    assert Sources(entries[1..]) == Sources(entries)[1..];
    TailNoRepeats(Sources(entries));
  }

  lemma TailNoRepeats<T>(s: seq<T>)
    requires s != [] && NoRepeats(s)
    ensures NoRepeats(s[1..])
  {
  }

  lemma OtherSources<P>(entries: seq<Deferred<P>>)
    requires entries != [] && NoRepeats(Sources(entries))
    ensures forall x :: 1 <= x < |entries| ==> entries[x].src != entries[0].src
  {
    forall x | 1 <= x < |entries| ensures entries[x].src != entries[0].src {
      assert Sources(entries)[0] != Sources(entries)[x];
    }
  }

  function Keys<P>(entries: seq<Deferred<P>>): (s: seq<P>)
    ensures |s| == |entries| && forall x :: 0 <= x < |s| ==> s[x] == entries[x].value.key
  {
    seq(|entries|, x requires 0 <= x < |entries| => entries[x].value.key)
  }

  /** The state after the replay: the deferred values have become values of the new step, and
      that step is not full, since the sender of the value that triggered it is one behind. */
  lemma ReplayHolds<P(!new)>(c: Config<P>, j: nat, node: Node<P>, row: seq<nat>, i: nat, begun: Node<P>)
    requires j < |c.secrets| && Holds(c, j, node, row) && |node.users| == |c.secrets| - 1
    requires Peer(j, i, |c.secrets|) && row[i] == node.step + 1
    requires begun.step == node.step + 1 && begun.users == [] && begun.slots == [] && begun.deferred == []
    ensures var r := Replay(begun, node.deferred, OwnValue);
      && r == begun.(users := r.users, slots := r.slots)
      && Holds(c, j, r, row) && |r.users| < |c.secrets| - 1 && i !in r.users
  {
    hide Value, NoRepeats, Sources, Keys, Replay, Holds;
    DeferredNext(c, j, node, row);
    ReplayAll(begun, node.deferred);
    var r := Replay(begun, node.deferred, OwnValue);
    assert r.users == Sources(node.deferred) && r.slots == Keys(node.deferred);
    ReplayedHolds(c, j, node, row, r);
    NotFull(c, j, r, row, i);
  }

  lemma DeferredNext<P(!new)>(c: Config<P>, j: nat, node: Node<P>, row: seq<nat>)
    requires j < |c.secrets| && Holds(c, j, node, row)
    ensures forall x :: 0 <= x < |node.deferred| ==> node.deferred[x].value.step == node.step + 1
    ensures NoRepeats(Sources(node.deferred))
  {
  }

  lemma ReplayedHolds<P(!new)>(c: Config<P>, j: nat, node: Node<P>, row: seq<nat>, r: Node<P>)
    requires j < |c.secrets| && Holds(c, j, node, row) && |node.users| == |c.secrets| - 1
    requires r.step == node.step + 1 && r.deferred == []
    requires r.users == Sources(node.deferred) && r.slots == Keys(node.deferred)
    ensures Holds(c, j, r, row)
  {
    hide Value, NoRepeats, Sources, Keys;
    FullStep(c, j, node, row);
    EmptySources<P>();
  }

  /** The peer that is one behind keeps the step open. */
  lemma NotFull<P(!new)>(c: Config<P>, j: nat, r: Node<P>, row: seq<nat>, i: nat)
    requires j < |c.secrets| && Holds(c, j, r, row) && Peer(j, i, |c.secrets|) && row[i] == r.step
    ensures |r.users| < |c.secrets| - 1 && i !in r.users
  {
    hide Value, NoRepeats, Sources;
    CountedPeers(j, |c.secrets|, r.users);
  }

  lemma EmptySources<P>()
    ensures var none: seq<Deferred<P>> := []; Sources(none) == [] && NoRepeats(Sources(none))
  {
  }

  /** Completing a step keeps the invariant. */
  lemma AdvanceInv<P(!new)>(c: Config<P>, j: nat, node: Node<P>, row: seq<nat>, i: nat)
    requires GoodConfig(c) && Prime(c.q) && j < |c.secrets| && AtWork(c, j, node, row)
    requires |node.users| == |c.secrets| - 1 && Peer(j, i, |c.secrets|) && row[i] == node.step + 1
    ensures NodeInv(c, j, Advance(c.g, c.q, c.secrets[j], |c.secrets|, node, OwnValue), row)
  {
    hide Value, NoRepeats, Sources, Keys, Replay, Times, Elementary, Accumulate, Prime, PrimeGroup, Product;
    var n := |c.secrets|;
    FullStep(c, j, node, row);
    FullStepPoint(c, j, node);
    var p := Accumulate(c.g, c.q, node.k, node.r, n, node.slots);
    if p.Some? && node.step + 1 < n - 1 && p.value != c.g.zero {
      var v := Times(c.g, c.secrets[j], p.value);
      assert v == Value(c, j, node.step + 1) by {
        ConfigFacts(c);
        ShareBroadcast(c, j, node.step + 1, p.value);
      }
      var begun := node.(k := v, r := node.r + 1, users := [], slots := [], step := node.step + 1,
                         sent := node.sent + [StepValue(node.step + 1, v)], deferred := []);
      ReplayHolds(c, j, node, row, i, begun);
    }
  }

  lemma ShareBroadcast<P(!new)>(c: Config<P>, j: nat, t: nat, k: P)
    requires Abelian(c.g) && j < |c.secrets|
    requires k == Times(c.g, Elementary(Without(c.secrets, j), t), c.base)
    ensures Times(c.g, c.secrets[j], k) == Value(c, j, t)
  {
    hide Abelian, Times, Elementary, Share;
    NextShare(c.g, c.base, c.secrets, j, t, k);
  }
}
