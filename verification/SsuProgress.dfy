/**
 What an SSU receiver owes its peer over whole runs: every message it completes
 is acknowledged and handed on, and what it forgets it forgets for a reason.
 */
module SsuProgress {
  import opened Bytes
  import opened SsuData
  import opened SsuRuns

  // ---------------------------------------------------------------- handed on

  /**
   Since state r0, an id that was completed, and one that is remembered, has been handed on or was remembered from the
   beginning.
   */
  ghost predicate Kept(r0: Receiver, r: Receiver, id: nat) {
    && r.established && r0.handed <= r.handed && CountOf(r.completed, id) >= CountOf(r0.completed, id)
    && CountOf(r.handed, id) >= CountOf(r0.handed, id)
    && (CountOf(r.completed, id) > CountOf(r0.completed, id) || id in r.received ==>
          id in r0.received || CountOf(r.handed, id) > CountOf(r0.handed, id))
  }

  lemma CompletedKept(r0: Receiver, r: Receiver, x: nat, content: seq<byte>, t: Receiver, id: nat)
    requires Kept(r0, r, id) && Completed(r, x, content, t)
    ensures Kept(r0, t, id)
  {
    CountSnoc(r.completed, (x, content), id);
    CountSnoc(r.handed, (x, content), id);
    assert r.handed + [] == r.handed;
  }

  lemma FragmentKept(r0: Receiver, r: Receiver, i: Incoming, now: nat, id: nat)
    requires Kept(r0, r, id) && Ordered(r)
    ensures Kept(r0, HandleFragment(r, i, now), id) && Ordered(HandleFragment(r, i, now))
  {
    var t := HandleFragment(r, i, now);
    FragmentExactly(r, i, now);
    var m', done := ProcessedAs(r, i, now, t);
    if done {
      CompletedKept(r0, r, i.msgID, m'.content, t, id);
    }
  }

  lemma {:induction false} PacketKept(r0: Receiver, r: Receiver, batch: seq<Incoming>, now: nat, id: nat)
    requires Kept(r0, r, id) && Ordered(r)
    ensures Kept(r0, HandleFragments(r, batch, now), id) && Ordered(HandleFragments(r, batch, now))
    decreases |batch|
  {
    if batch == [] {
    } else {
      FragmentKept(r0, r, batch[0], now, id);
      PacketKept(r0, HandleFragment(r, batch[0], now), batch[1..], now, id);
    }
  }

  lemma EventKept(t: Traffic, r0: Receiver, r: Receiver, e: Event, id: nat)
    requires Possible(t, e) && Kept(r0, r, id) && Ordered(r)
    ensures Kept(r0, Apply(t, r, e), id) && Ordered(Apply(t, r, e))
  {
    if e.Arrive? {
      PacketKept(r0, r, Received(Packet(Incoming(e.msgID, t[e.msgID][e.num])) + e.padding), e.now, id);
    }
  }

  lemma {:induction false} RunKept(t: Traffic, r0: Receiver, r: Receiver, es: seq<Event>, id: nat)
    requires AllPossible(t, es) && Kept(r0, r, id) && Ordered(r)
    ensures Kept(r0, Exec(t, r, es), id)
    decreases |es|
  {
    if es == [] {
    } else {
      EventKept(t, r0, r, es[0], id);
      RunKept(t, r0, Apply(t, r, es[0]), Tail(t, es), id);
    }
  }

  /**
   In the established state every message that is completed is handed on, whatever came before it, unless its id was
   remembered from the beginning.
   */
  lemma CompletedIsHanded(t: Traffic, r: Receiver, es: seq<Event>, id: nat)
    requires AllPossible(t, es) && r.established && Ordered(r)
    requires id !in r.received && Completions(Exec(t, r, es), id) > Completions(r, id)
    ensures r.handed <= Exec(t, r, es).handed
    ensures CountOf(Exec(t, r, es).handed, id) > CountOf(r.handed, id)
  {
    RunKept(t, r, r, es, id);
  }

  /** An id that is counted more often in a longer log is found in what has been added. */
  lemma {:induction false} CountedLater(short: seq<(nat, seq<byte>)>, long: seq<(nat, seq<byte>)>, id: nat) returns (k: nat)
    requires short <= long && CountOf(long, id) > CountOf(short, id)
    ensures |short| <= k < |long| && long[k].0 == id
    decreases |long|
  {
    var n := |long| - 1;
    assert |short| == |long| ==> short == long;
    if long[n].0 == id {
      k := n;
    } else {
      k := CountedLater(short, long[..n], id);
    }
  }

  lemma SoundOrdered(t: Traffic, r: Receiver)
    requires Sound(t, r)
    ensures Ordered(r)
  {
    forall id | id in r.incomplete ensures SortedFragments(r.incomplete[id].saved) {
      assert Rebuilding(t[id], r.incomplete[id]);
    }
  }

  /**
   The whole way: once the packets of all fragments of a message have arrived at an established receiver that does not
   remember its id, in any order, however repeated and interleaved with other messages and decays, and without a clean-up
   in between, the message has been handed on as it was sent.
   */
  lemma ArrivedIsHanded(t: Traffic, r: Receiver, es: seq<Event>, id: nat)
    requires Genuine(t) && AllPossible(t, es) && Sound(t, r) && id in t && r.established && id !in r.received
    requires forall i :: 0 <= i < |es| ==> !es[i].CleanupTimer?
    requires forall n: nat :: n < |t[id]| ==> n in Seen(es, id)
    ensures r.handed <= Exec(t, r, es).handed
    ensures exists k :: |r.handed| <= k < |Exec(t, r, es).handed| && Exec(t, r, es).handed[k] == (id, Join(t[id]))
  {
    SoundOrdered(t, r);
    Completes(t, r, es, id);
    CompletedIsHanded(t, r, es, id);
    ReassemblySafe(t, r, es);
    var k := CountedLater(r.handed, Exec(t, r, es).handed, id);
  }

  // ---------------------------------------------------------------- acknowledged

  /** The ids for which a whole message was acknowledged. */
  ghost function AckedIds(acks: seq<Ack>): seq<nat> {
    if acks == [] then [] else
      var n := |acks| - 1;
      AckedIds(acks[..n]) + if acks[n].MessageAck? then [acks[n].msgID] else []
  }

  ghost function Ids(log: seq<(nat, seq<byte>)>): seq<nat> { seq(|log|, i requires 0 <= i < |log| => log[i].0) }

  ghost predicate AckedAsCompleted(r: Receiver) { AckedIds(r.acks) == Ids(r.completed) }

  lemma AckedSnoc(acks: seq<Ack>, a: Ack)
    ensures AckedIds(acks + [a]) == AckedIds(acks) + if a.MessageAck? then [a.msgID] else []
  {
    assert (acks + [a])[..|acks|] == acks;
  }

  lemma CompletedAcked(acks: seq<Ack>, log: seq<(nat, seq<byte>)>, id: nat, content: seq<byte>)
    requires AckedIds(acks) == Ids(log)
    ensures AckedIds(acks + [MessageAck(id)]) == Ids(log + [(id, content)])
  {
    AckedSnoc(acks, MessageAck(id));
    assert Ids(log + [(id, content)]) == Ids(log) + [id];
  }

  lemma FragmentAcked(r: Receiver, i: Incoming, now: nat)
    requires AckedAsCompleted(r) && Ordered(r)
    ensures AckedAsCompleted(HandleFragment(r, i, now)) && Ordered(HandleFragment(r, i, now))
  {
    var t := HandleFragment(r, i, now);
    FragmentExactly(r, i, now);
    var m', done := ProcessedAs(r, i, now, t);
    if done {
      CompletedAcked(r.acks, r.completed, i.msgID, m'.content);
    } else if i.fragment.num <= 64 {
      AckedSnoc(r.acks, FragmentAck(i.msgID, i.fragment.num));
      assert AckedIds(r.acks) + [] == AckedIds(r.acks);
    } else {
      assert r.acks + [] == r.acks;
    }
  }

  /** What became of the message the fragment belongs to. */
  lemma ProcessedAs(r: Receiver, i: Incoming, now: nat, t: Receiver) returns (m': Incomplete, done: bool)
    requires Processed(r, i, now, t)
    ensures if done then Completed(r, i.msgID, m'.content, t)
            else t == r.(incomplete := r.incomplete[i.msgID := m'],
                         acks := r.acks + if i.fragment.num <= 64 then [FragmentAck(i.msgID, i.fragment.num)] else [])
  {
    m', done :| Taken(Collected(r, i.msgID), i.fragment, now, m', done) &&
      if done then Completed(r, i.msgID, m'.content, t)
      else t == r.(incomplete := r.incomplete[i.msgID := m'],
                   acks := r.acks + if i.fragment.num <= 64 then [FragmentAck(i.msgID, i.fragment.num)] else []);
  }

  lemma {:induction false} PacketAcked(r: Receiver, batch: seq<Incoming>, now: nat)
    requires AckedAsCompleted(r) && Ordered(r)
    ensures AckedAsCompleted(HandleFragments(r, batch, now)) && Ordered(HandleFragments(r, batch, now))
    decreases |batch|
  {
    if batch == [] {
    } else {
      FragmentAcked(r, batch[0], now);
      PacketAcked(HandleFragment(r, batch[0], now), batch[1..], now);
    }
  }

  /** In every run exactly the completed messages are acknowledged as a whole, in the order they were completed. */
  lemma {:induction false} AcksExactly(t: Traffic, r: Receiver, es: seq<Event>)
    requires AllPossible(t, es) && AckedAsCompleted(r) && Ordered(r)
    ensures AckedAsCompleted(Exec(t, r, es))
    decreases |es|
  {
    if es == [] {
    } else {
      var e := es[0];
      if e.Arrive? {
        PacketAcked(r, Received(Packet(Incoming(e.msgID, t[e.msgID][e.num])) + e.padding), e.now);
      }
      AcksExactly(t, Apply(t, r, e), Tail(t, es));
    }
  }

  // ---------------------------------------------------------------- before the session is established

  ghost function Stores(log: seq<(nat, seq<byte>)>): seq<(nat, seq<byte>)> {
    if log == [] then [] else
      var n := |log| - 1;
      Stores(log[..n]) + if TypeOf(log[n].1) == DATABASE_STORE then [log[n]] else []
  }

  ghost predicate HasStatus(log: seq<(nat, seq<byte>)>) { exists i :: 0 <= i < |log| && TypeOf(log[i].1) == DELIVERY_STATUS }

  /** A DeliveryStatus has established the session, or there was none and exactly the stores have been handed on. */
  ghost predicate Waiting(r: Receiver) {
    if r.established then HasStatus(r.completed) else !HasStatus(r.completed) && r.handed == Stores(r.completed)
  }

  lemma StatusSnoc(log: seq<(nat, seq<byte>)>, x: (nat, seq<byte>))
    ensures HasStatus(log + [x]) <==> HasStatus(log) || TypeOf(x.1) == DELIVERY_STATUS
    ensures Stores(log + [x]) == Stores(log) + if TypeOf(x.1) == DATABASE_STORE then [x] else []
  {
    var all := log + [x];
    assert all[..|log|] == log && all[|log|] == x;
    if HasStatus(log) {
      var i :| 0 <= i < |log| && TypeOf(log[i].1) == DELIVERY_STATUS;
      assert all[i] == log[i];
    }
  }

  lemma FragmentWaiting(r: Receiver, i: Incoming, now: nat)
    requires Waiting(r)
    ensures Waiting(HandleFragment(r, i, now))
  {
    var (m', done) := Take(Collected(r, i.msgID), i.fragment, now);
    if done {
      StatusSnoc(r.completed, (i.msgID, m'.content));
    }
  }

  lemma {:induction false} PacketWaiting(r: Receiver, batch: seq<Incoming>, now: nat)
    requires Waiting(r)
    ensures Waiting(HandleFragments(r, batch, now))
    decreases |batch|
  {
    if batch == [] {
    } else {
      FragmentWaiting(r, batch[0], now);
      PacketWaiting(HandleFragment(r, batch[0], now), batch[1..], now);
    }
  }

  /**
   A new session is established in a run if and only if a DeliveryStatus message was completed, and until then exactly the
   database stores are handed on.
   */
  lemma {:induction false} EstablishedExactly(t: Traffic, r: Receiver, es: seq<Event>)
    requires AllPossible(t, es) && Waiting(r)
    ensures Waiting(Exec(t, r, es))
    decreases |es|
  {
    if es == [] {
    } else {
      var e := es[0];
      if e.Arrive? {
        PacketWaiting(r, Received(Packet(Incoming(e.msgID, t[e.msgID][e.num])) + e.padding), e.now);
      }
      EstablishedExactly(t, Apply(t, r, e), Tail(t, es));
    }
  }

  // ---------------------------------------------------------------- forgotten

  /** The event brings a fragment of the message that is saved ahead of missing ones. */
  ghost predicate Ahead(r: Receiver, e: Event, id: nat) {
    && e.Arrive? && e.msgID == id
    && Collected(r, id).next < e.num && !HasNumber(Collected(r, id).saved, e.num)
  }

  /** When the last fragment that is still there was saved ahead of missing ones; 0 if none was. */
  ghost function LastAhead(t: Traffic, r: Receiver, es: seq<Event>, id: nat, since: nat): nat
    requires AllPossible(t, es)
    decreases |es|
  {
    if es == [] then since else
      assert Possible(t, es[0]);
      var r' := Apply(t, r, es[0]);
      LastAhead(t, r', Tail(t, es), id,
                if Ahead(r, es[0], id) then es[0].now else if id in r'.incomplete then since else 0)
  }

  lemma EventStamps(t: Traffic, r: Receiver, e: Event, id: nat)
    requires Genuine(t) && Possible(t, e) && Sound(t, r)
    ensures var r' := Apply(t, r, e);
            Collected(r', id).insertTime ==
            if Ahead(r, e, id) then e.now else if id in r'.incomplete then Collected(r, id).insertTime else 0
  {
    if e.Arrive? {
      GenuineArrival(t, r, e);
      SoundOrdered(t, r);
      var i := Incoming(e.msgID, t[e.msgID][e.num]);
      TakeExactly(Collected(r, e.msgID), i.fragment, e.now);
      HandleChanges(r, i, e.now);
      assert i.fragment.num == e.num;
    }
  }

  lemma {:induction false} RunStamps(t: Traffic, r: Receiver, es: seq<Event>, id: nat)
    requires Genuine(t) && AllPossible(t, es) && Sound(t, r)
    ensures Collected(Exec(t, r, es), id).insertTime == LastAhead(t, r, es, id, Collected(r, id).insertTime)
    decreases |es|
  {
    if es == [] {
    } else {
      EventStamps(t, r, es[0], id);
      EventSound(t, r, es[0]);
      RunStamps(t, Apply(t, r, es[0]), Tail(t, es), id);
    }
  }

  /**
   An unfinished message survives a clean-up if and only if at most 30 seconds have passed since one of its fragments was
   saved ahead of missing ones.  Fragments that arrive in order do not count.
   */
  lemma ForgottenExactly(t: Traffic, r: Receiver, es: seq<Event>, id: nat, ts: nat)
    requires Genuine(t) && AllPossible(t, es) && Sound(t, r) && r.incomplete == map[]
    requires id in Exec(t, r, es).incomplete
    ensures id in Cleanup(Exec(t, r, es), ts).incomplete <==> ts <= LastAhead(t, r, es, id, 0) + CLEANUP_TIMEOUT
  {
    RunStamps(t, r, es, id);
  }

  /** So the first fragment of a longer message is forgotten in the very second it arrives. */
  lemma FirstForgotten(t: Traffic, r: Receiver, id: nat, now: nat)
    requires Genuine(t) && Sound(t, r) && r.incomplete == map[] && id in t && |t[id]| > 1 && now > CLEANUP_TIMEOUT
    ensures var es := [Arrive(id, 0, [], now)];
            && AllPossible(t, es) && id in Exec(t, r, es).incomplete
            && id !in Cleanup(Exec(t, r, es), now).incomplete
  {
    var es := [Arrive(id, 0, [], now)];
    assert AllPossible(t, es) && Tail(t, es) == [];
    GenuineArrival(t, r, es[0]);
    assert Exec(t, r, es) == Apply(t, r, es[0]);
    assert Take(NOTHING, t[id][0], now) == (SsuData.Attach(NOTHING, t[id][0]), false);
    ForgottenExactly(t, r, es, id, now);
    assert LastAhead(t, r, es, id, 0) == LastAhead(t, Apply(t, r, es[0]), [], id, 0);
  }
}
