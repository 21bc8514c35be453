/** The replay loop of crypto/mka.h copies the key of the packet that completed the step, not of
    the deferred entry.  When that matters; MkaAsWrittenExample has a run in which it does. */
module MkaAsWritten {
  import opened Arith
  import opened Primes
  import opened MkaProtocol

  function Repeat<P>(n: nat, v: P): (s: seq<P>)
    ensures |s| == n && forall x :: 0 <= x < n ==> s[x] == v
  {
    seq(n, _ => v)
  }

  /** What the replay as written stores: the right senders, each with the trigger's value. */
  lemma {:induction false} ReplayTrigger<P>(node: Node<P>, entries: seq<Deferred<P>>, v: P)
    requires forall x :: 0 <= x < |entries| ==> entries[x].value.step == node.step && entries[x].src !in node.users
    requires NoRepeats(Sources(entries))
    ensures var r := Replay(node, entries, TriggerValue(v));
      && r == node.(users := r.users, slots := r.slots)
      && r.users == node.users + Sources(entries)
      && r.slots == node.slots + Repeat(|entries|, v)
    decreases |entries|
  {
    hide NoRepeats, Sources, Keys, Replay;
    if entries == [] {
      TriggerNone(node, v);
      assert Sources(entries) == [] && Repeat(0, v) == [];
      assert node.users + Sources(entries) == node.users && node.slots + Repeat(0, v) == node.slots;
    } else {
      var e := entries[0];
      TailEntries(entries);
      OtherSources(entries);
      var m := node.(users := node.users + [e.src], slots := node.slots + [v]);
      TriggerFirst(node, entries, v);
      forall x | 0 <= x < |entries[1..]|
        ensures entries[1..][x].value.step == m.step && entries[1..][x].src !in m.users
      {
        assert entries[1..][x] == entries[x + 1];
      }
      ReplayTrigger(m, entries[1..], v);
      assert node.users + Sources(entries) == (node.users + [e.src]) + Sources(entries[1..]);
      assert node.slots + Repeat(|entries|, v) == (node.slots + [v]) + Repeat(|entries| - 1, v);
    }
  }

  lemma TriggerNone<P>(node: Node<P>, v: P)
    ensures Replay(node, [], TriggerValue(v)) == node
  {
  }

  lemma TriggerFirst<P>(node: Node<P>, entries: seq<Deferred<P>>, v: P)
    requires entries != [] && entries[0].value.step == node.step && entries[0].src !in node.users
    ensures Replay(node, entries, TriggerValue(v))
         == Replay(node.(users := node.users + [entries[0].src], slots := node.slots + [v]), entries[1..],
             TriggerValue(v))
  {
  }

  /** The replay as written does what the protocol needs exactly when every deferred value
      happens to be the trigger's value, in particular when none was deferred. */
  lemma ReplaysAgree<P(!new)>(node: Node<P>, entries: seq<Deferred<P>>, v: P)
    requires forall x :: 0 <= x < |entries| ==> entries[x].value.step == node.step && entries[x].src !in node.users
    requires NoRepeats(Sources(entries))
    ensures Replay(node, entries, TriggerValue(v)) == Replay(node, entries, OwnValue)
       <==> forall x :: 0 <= x < |entries| ==> entries[x].value.key == v
  {
    hide Replay, NoRepeats, Sources;
    ReplayTrigger(node, entries, v);
    ReplayAll(node, entries);
    AppendCancel(node.slots, Repeat(|entries|, v), Keys(entries));
    RepeatIsKeys(entries, v);
  }

  lemma AppendCancel<T>(s: seq<T>, t: seq<T>, u: seq<T>)
    ensures s + t == s + u <==> t == u
  {
    assert (s + t)[|s|..] == t && (s + u)[|s|..] == u;
  }

  lemma RepeatIsKeys<P>(entries: seq<Deferred<P>>, v: P)
    ensures Repeat(|entries|, v) == Keys(entries) <==> forall x :: 0 <= x < |entries| ==> entries[x].value.key == v
  {
    var t, o := Repeat(|entries|, v), Keys(entries);
    if t == o {
      forall x | 0 <= x < |entries| ensures entries[x].value.key == v { assert o[x] == t[x]; }
    }
  }

  /** For a node of a run: processing the packet that completes a step as mka.h does it leads to
      the state that the protocol needs if and only if the step was the last one, or a call
      failed, or every value deferred before equals the packet's. */
  lemma AsWrittenExact<P(!new)>(c: Config<P>, j: nat, node: Node<P>, row: seq<nat>, v: P)
    requires GoodConfig(c) && Prime(c.q) && j < |c.secrets| && AtWork(c, j, node, row)
    ensures var n, a := |c.secrets|, c.secrets[j];
      var p := Accumulate(c.g, c.q, node.k, node.r, n, node.slots);
      (Advance(c.g, c.q, a, n, node, TriggerValue(v)) == Advance(c.g, c.q, a, n, node, OwnValue))
        <==> (p.None? || node.step + 1 == n - 1 || Broadcast(c.g, a, p.value, Min(node.r + 1, n - 2), n).None?
              || forall x :: 0 <= x < |node.deferred| ==> node.deferred[x].value.key == v)
  {
    hide Accumulate, Broadcast, Replay, Value, Holds, History, NoRepeats, Sources, Prime, GoodConfig;
    ConfigFacts(c);
    var n, a := |c.secrets|, c.secrets[j];
    var p := Accumulate(c.g, c.q, node.k, node.r, n, node.slots);
    DeferredNext(c, j, node, row);
    if p.Some? && node.step + 1 != n - 1 {
      var b := Broadcast(c.g, a, p.value, Min(node.r + 1, n - 2), n);
      if b.Some? {
        var begun := node.(k := b.value, r := Min(node.r + 1, n - 2), users := [], slots := [], step := node.step + 1,
                           sent := node.sent + [StepValue(node.step + 1, b.value)], deferred := []);
        ReplaysAgree(begun, node.deferred, v);
      }
    }
  }
}
