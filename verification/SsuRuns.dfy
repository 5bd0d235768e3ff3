/**
 Runs of the SSU receiver: packets with the fragments of a fixed collection of
 messages arrive in any order and number, interleaved with clean-up and decay at
 any time.
 */
module SsuRuns {
  import opened Bytes
  import opened SsuData
  import I2NP

  type Traffic = map<nat, seq<Fragment>>

  /** Every message's fragments as Send numbers them, small enough for their packets and few enough for their numbers. */
  ghost predicate Genuine(t: Traffic) {
    forall id :: id in t ==> Plan(t[id]) && Fits(id, t[id]) && |t[id]| <= MAX_FRAGMENTS
  }

  ghost predicate Fits(id: nat, fs: seq<Fragment>) {
    id < Pow256(4) && forall i :: 0 <= i < |fs| ==> |fs[i].data| < SSU_V4_MAX_PACKET_SIZE
  }

  /** Fragment num of a message arrives in its packet, with some padding. */
  datatype Event = Arrive(msgID: nat, num: nat, padding: seq<byte>, now: nat) | CleanupTimer(ts: nat) | DecayTimer

  ghost predicate Possible(t: Traffic, e: Event) { e.Arrive? ==> e.msgID in t && e.num < |t[e.msgID]| }

  ghost predicate AllPossible(t: Traffic, es: seq<Event>) { forall i :: 0 <= i < |es| ==> Possible(t, es[i]) }

  ghost function Apply(t: Traffic, r: Receiver, e: Event): Receiver
    requires Possible(t, e)
  {
    match e
    case Arrive(id, num, padding, now) => HandleFragments(r, Received(Packet(Incoming(id, t[id][num])) + padding), now)
    case CleanupTimer(ts) => Cleanup(r, ts)
    case DecayTimer => Decay(r)
  }

  ghost function Exec(t: Traffic, r: Receiver, es: seq<Event>): Receiver
    requires AllPossible(t, es)
    decreases |es|
  {
    if es == [] then r else
      assert Possible(t, es[0]);
      Exec(t, Apply(t, r, es[0]), Tail(t, es))
  }

  ghost function Tail(t: Traffic, es: seq<Event>): (r: seq<Event>)
    requires es != [] && AllPossible(t, es)
    ensures r == es[1..] && AllPossible(t, r)
  {
    TailPossible(t, es);
    es[1..]
  }

  lemma TailPossible(t: Traffic, es: seq<Event>)
    requires es != [] && AllPossible(t, es)
    ensures AllPossible(t, es[1..])
  {
    forall i | 0 <= i < |es[1..]| ensures Possible(t, es[1..][i]) {
      assert es[1..][i] == es[i + 1];
    }
  }

  lemma HandleOne(r: Receiver, i: Incoming, now: nat)
    ensures HandleFragments(r, [i], now) == HandleFragment(r, i, now)
  {
    HandleNext(r, i, [], now);
    assert [i] + [] == [i];
  }

  /** What the receiver makes of an arriving packet. */
  lemma Arrival(t: Traffic, r: Receiver, e: Event)
    requires Possible(t, e) && e.Arrive? && Fits(e.msgID, t[e.msgID])
    ensures Apply(t, r, e) == HandleFragment(r, Incoming(e.msgID, OnWire(t[e.msgID][e.num])), e.now)
  {
    var i := Incoming(e.msgID, t[e.msgID][e.num]);
    PacketOnWire(i, e.padding);
    HandleOne(r, i.(fragment := OnWire(i.fragment)), e.now);
  }

  /** With few enough fragments the packet brings the fragment itself. */
  lemma GenuineArrival(t: Traffic, r: Receiver, e: Event)
    requires Genuine(t) && Possible(t, e) && e.Arrive?
    ensures Apply(t, r, e) == HandleFragment(r, Incoming(e.msgID, t[e.msgID][e.num]), e.now)
  {
    Arrival(t, r, e);
    assert t[e.msgID][e.num].num == e.num;
  }

  // ---------------------------------------------------------------- the reassembly invariant

  /** Every saved fragment is the plan's own and lies above n. */
  ghost predicate SavedFrom(plan: seq<Fragment>, fs: seq<Fragment>, n: int) {
    forall f :: f in fs ==> n < f.num < |plan| && f == plan[f.num]
  }

  /** m holds exactly the first m.next fragments, and strictly later ones in reserve. */
  ghost predicate Rebuilding(plan: seq<Fragment>, m: Incomplete) {
    && m.next < |plan|
    && m.content == Join(plan[..m.next])
    && SortedFragments(m.saved) && SavedFrom(plan, m.saved, m.next)
  }

  ghost predicate Sound(t: Traffic, r: Receiver) {
    && (forall id :: id in r.incomplete ==> id in t && Rebuilding(t[id], r.incomplete[id]))
    && (forall i :: 0 <= i < |r.completed| ==> r.completed[i].0 in t && r.completed[i].1 == Join(t[r.completed[i].0]))
    && (forall i :: 0 <= i < |r.handed| ==> r.handed[i].0 in t && r.handed[i].1 == Join(t[r.handed[i].0]))
  }

  lemma JoinNext(plan: seq<Fragment>, n: nat)
    requires n < |plan|
    ensures Join(plan[..n + 1]) == Join(plan[..n]) + plan[n].data
  {
    assert plan[..n + 1] == plan[..n] + [plan[n]];
    JoinConcat(plan[..n], [plan[n]]);
    assert Data([plan[n]]) == [plan[n].data];
    assert Flatten([plan[n].data]) == plan[n].data;
  }

  /**
   The loop over saved fragments: from a message whose saved fragments lie at or above next, it either completes the
   message or stops with all saved fragments strictly above next.
   */
  lemma {:induction false} TrySavedOk(plan: seq<Fragment>, m: Incomplete, isLast: bool)
    requires Plan(plan) && 0 < m.next <= |plan| && m.content == Join(plan[..m.next])
    requires SortedFragments(m.saved) && SavedFrom(plan, m.saved, m.next - 1)
    requires isLast <==> m.next == |plan|
    ensures var (m', done) := TrySaved(m, isLast);
            && m.next <= m'.next
            && (if done then m'.content == Join(plan) else Rebuilding(plan, m'))
    decreases |m.saved|
  {
    if m.saved != [] && m.saved[0].num == m.next {
      var f := m.saved[0];
      assert f in m.saved;
      JoinNext(plan, m.next);
      var m1 := Attach(m, f).(saved := m.saved[1..]);
      forall g | g in m1.saved ensures m1.next - 1 < g.num < |plan| && g == plan[g.num] {
        assert g in m.saved;
        var i :| 0 <= i < |m1.saved| && m1.saved[i] == g;
        assert m.saved[0].num < m.saved[i + 1].num;
      }
      TrySavedOk(plan, m1, f.isLast);
    } else if m.next == |plan| {
      assert plan[..m.next] == plan;
    } else {
      forall g | g in m.saved ensures m.next < g.num {
        var i :| 0 <= i < |m.saved| && m.saved[i] == g;
        assert m.saved[0] in m.saved;
      }
    }
  }

  /** One genuine fragment keeps a message's invariant, or completes it with the bytes that were sent. */
  lemma TakeOk(plan: seq<Fragment>, m: Incomplete, num: nat, now: nat)
    requires Plan(plan) && Rebuilding(plan, m) && num < |plan|
    ensures var (m', done) := Take(m, plan[num], now);
            && m.next <= m'.next
            && (if done then m'.content == Join(plan) else Rebuilding(plan, m'))
  {
    var f := plan[num];
    if num == m.next {
      JoinNext(plan, num);
      if f.isLast {
        assert plan[..num + 1] == plan;
      } else {
        TrySavedOk(plan, Attach(m, f), false);
      }
    } else if num > m.next {
      InsertMembers(m.saved, f);
      InsertSorted(m.saved, f);
    }
  }

  lemma NothingRebuilds(plan: seq<Fragment>)
    requires Plan(plan)
    ensures Rebuilding(plan, NOTHING)
  {
    assert plan[..0] == [];
    assert Data([]) == [];
  }

  /** Handing on a completed message keeps the invariant. */
  lemma DispatchSound(t: Traffic, r: Receiver, id: nat, content: seq<byte>)
    requires Sound(t, r) && id in t && content == Join(t[id])
    ensures Sound(t, Dispatch(r, id, content))
  {
  }

  lemma ArriveSound(t: Traffic, r: Receiver, id: nat, num: nat, now: nat)
    requires Genuine(t) && id in t && num < |t[id]| && Sound(t, r)
    ensures Sound(t, HandleFragment(r, Incoming(id, t[id][num]), now))
  {
    var m := if id in r.incomplete then r.incomplete[id] else NOTHING;
    var (m', done) := Take(m, t[id][num], now);
    NothingRebuilds(t[id]);
    TakeOk(t[id], m, num, now);
    if done {
      var r1 := r.(incomplete := r.incomplete - {id}, acks := r.acks + [MessageAck(id)],
                   completed := r.completed + [(id, m'.content)]);
      assert Sound(t, r1);
      DispatchSound(t, r1, id, m'.content);
    }
  }

  /** Every event keeps the invariant. */
  lemma EventSound(t: Traffic, r: Receiver, e: Event)
    requires Genuine(t) && Possible(t, e) && Sound(t, r)
    ensures Sound(t, Apply(t, r, e))
  {
    if e.Arrive? {
      GenuineArrival(t, r, e);
      ArriveSound(t, r, e.msgID, e.num, e.now);
    }
  }

  /**
   Reassembly safety: after any arrivals, clean-ups and decays, every unfinished message is exactly a prefix of what
   was sent with later fragments in reserve, and every message completed or handed on equals the one sent.
   */
  lemma {:induction false} ReassemblySafe(t: Traffic, r: Receiver, es: seq<Event>)
    requires Genuine(t) && AllPossible(t, es) && Sound(t, r)
    ensures Sound(t, Exec(t, r, es))
    decreases |es|
  {
    if es == [] {
    } else {
      EventSound(t, r, es[0]);
      ReassemblySafe(t, Apply(t, r, es[0]), Tail(t, es));
    }
  }

  // ---------------------------------------------------------------- completion

  ghost predicate Has(m: Incomplete, n: nat) { n < m.next || exists f :: f in m.saved && f.num == n }

  lemma {:induction false} TrySavedHas(m: Incomplete, isLast: bool, n: nat)
    requires Has(m, n)
    ensures Has(TrySaved(m, isLast).0, n)
    decreases |m.saved|
  {
    if m.saved != [] && m.saved[0].num == m.next {
      var m1 := Attach(m, m.saved[0]).(saved := m.saved[1..]);
      if n >= m1.next {
        var f :| f in m.saved && f.num == n;
        var i :| 0 <= i < |m.saved| && m.saved[i] == f;
        assert m1.saved[i - 1] == f;
      }
      TrySavedHas(m1, m.saved[0].isLast, n);
    }
  }

  /** A fragment taken in is there afterwards, and none is forgotten. */
  lemma TakeHas(m: Incomplete, f: Fragment, now: nat, n: nat)
    requires SortedFragments(m.saved) && (Has(m, n) || n == f.num)
    ensures Has(Take(m, f, now).0, n)
  {
    if f.num == m.next {
      var m1 := Attach(m, f);
      if n > f.num {
        var g :| g in m.saved && g.num == n;
        assert g in m1.saved;
      }
      assert Has(m1, n);
      if !f.isLast {
        TrySavedHas(m1, false, n);
      }
    } else if f.num > m.next {
      InsertMembers(m.saved, f);
      InsertHas(m.saved, f);
    }
  }

  /** How often message id was completed. */
  ghost function Completions(r: Receiver, id: nat): nat { CountOf(r.completed, id) }

  ghost function CountOf(log: seq<(nat, seq<byte>)>, id: nat): nat {
    if log == [] then 0 else CountOf(log[..|log| - 1], id) + if log[|log| - 1].0 == id then 1 else 0
  }

  /** Message id has been completed since it had been completed c times, or has all fragments in seen. */
  ghost predicate Progress(r: Receiver, id: nat, c: nat, seen: set<nat>) {
    || Completions(r, id) > c
    || (Completions(r, id) == c && forall n :: n in seen ==> id in r.incomplete && Has(r.incomplete[id], n))
  }

  ghost function Seen(es: seq<Event>, id: nat): set<nat> {
    set i | 0 <= i < |es| && es[i].Arrive? && es[i].msgID == id :: es[i].num
  }

  lemma CountSnoc(log: seq<(nat, seq<byte>)>, x: (nat, seq<byte>), id: nat)
    ensures CountOf(log + [x], id) == CountOf(log, id) + if x.0 == id then 1 else 0
  {
    assert (log + [x])[..|log|] == log;
  }

  /** A completed message is counted, and the others are left alone. */
  lemma HandedProgress(r: Receiver, r': Receiver, x: nat, num: nat, content: seq<byte>, id: nat, c: nat, seen: set<nat>)
    requires r'.completed == r.completed + [(x, content)] && r'.incomplete == r.incomplete - {x}
    requires Progress(r, id, c, seen)
    ensures Progress(r', id, c, if x == id then seen + {num} else seen)
  {
    CountSnoc(r.completed, (x, content), id);
  }

  /** An incomplete message has its new fragment and those it had, and the others are left alone. */
  lemma KeptProgress(r: Receiver, r': Receiver, x: nat, num: nat, m': Incomplete, id: nat, c: nat, seen: set<nat>)
    requires r'.completed == r.completed && r'.incomplete == r.incomplete[x := m']
    requires forall n | Has(Collected(r, x), n) || n == num :: Has(m', n)
    requires Progress(r, id, c, seen)
    ensures Progress(r', id, c, if x == id then seen + {num} else seen)
  {
  }

  lemma HandleChanges(r: Receiver, i: Incoming, now: nat)
    ensures var (m', done) := Take(Collected(r, i.msgID), i.fragment, now);
            var r' := HandleFragment(r, i, now);
            && r'.completed == r.completed + (if done then [(i.msgID, m'.content)] else [])
            && r'.incomplete == if done then r.incomplete - {i.msgID} else r.incomplete[i.msgID := m']
  {
  }

  lemma FragmentProgress(t: Traffic, r: Receiver, other: nat, num: nat, now: nat, id: nat, c: nat, seen: set<nat>)
    requires Genuine(t) && other in t && num < |t[other]| && Sound(t, r) && Progress(r, id, c, seen)
    ensures var r' := HandleFragment(r, Incoming(other, t[other][num]), now);
            Progress(r', id, c, if other == id then seen + {num} else seen)
  {
    var f, m := t[other][num], Collected(r, other);
    var r' := HandleFragment(r, Incoming(other, f), now);
    var (m', done) := Take(m, f, now);
    HandleChanges(r, Incoming(other, f), now);
    if done {
      HandedProgress(r, r', other, num, m'.content, id, c, seen);
    } else {
      NothingRebuilds(t[other]);
      forall n | Has(m, n) || n == num ensures Has(m', n) {
        TakeHas(m, f, now, n);
      }
      KeptProgress(r, r', other, num, m', id, c, seen);
    }
  }

  lemma ArriveProgress(t: Traffic, r: Receiver, e: Event, id: nat, c: nat, seen: set<nat>)
    requires Genuine(t) && Possible(t, e) && e.Arrive? && Sound(t, r) && Progress(r, id, c, seen)
    ensures Progress(Apply(t, r, e), id, c, if e.msgID == id then seen + {e.num} else seen)
  {
    GenuineArrival(t, r, e);
    FragmentProgress(t, r, e.msgID, e.num, e.now, id, c, seen);
  }

  lemma {:induction false} RunProgress(t: Traffic, r: Receiver, es: seq<Event>, id: nat, c: nat, seen: set<nat>)
    requires Genuine(t) && AllPossible(t, es) && Sound(t, r) && Progress(r, id, c, seen)
    requires forall i :: 0 <= i < |es| ==> !es[i].CleanupTimer?
    ensures Sound(t, Exec(t, r, es)) && Progress(Exec(t, r, es), id, c, seen + Seen(es, id))
    decreases |es|
  {
    if es == [] {
      assert seen + Seen(es, id) == seen;
    } else {
      var e, rest := es[0], Tail(t, es);
      EventSound(t, r, e);
      var now := if e.Arrive? && e.msgID == id then seen + {e.num} else seen;
      if e.Arrive? {
        ArriveProgress(t, r, e, id, c, seen);
      }
      RunProgress(t, Apply(t, r, e), rest, id, c, now);
      SeenCons(e, rest, id);
      assert es == [e] + rest;
      assert now + Seen(rest, id) == seen + Seen(es, id);
    }
  }

  lemma SeenCons(e: Event, es: seq<Event>, id: nat)
    ensures Seen([e] + es, id) == Seen(es, id) + (if e.Arrive? && e.msgID == id then {e.num} else {})
  {
    var all := [e] + es;
    forall n | n in Seen(es, id) ensures n in Seen(all, id) {
      var i :| 0 <= i < |es| && es[i].Arrive? && es[i].msgID == id && es[i].num == n;
      assert all[i + 1] == es[i];
    }
    if e.Arrive? && e.msgID == id {
      assert all[0] == e;
    }
  }

  /**
   Completion: once every fragment of a message has arrived, in whatever order and however interleaved with others,
   and no clean-up came in between, the message has been completed.
   */
  lemma Completes(t: Traffic, r: Receiver, es: seq<Event>, id: nat)
    requires Genuine(t) && AllPossible(t, es) && Sound(t, r) && id in t
    requires forall i :: 0 <= i < |es| ==> !es[i].CleanupTimer?
    requires forall n: nat :: n < |t[id]| ==> n in Seen(es, id)
    ensures Completions(Exec(t, r, es), id) > Completions(r, id)
  {
    RunProgress(t, r, es, id, Completions(r, id), {});
    var r' := Exec(t, r, es);
    assert t[id] != [] && 0 in Seen(es, id);
    if Completions(r', id) == Completions(r, id) {
      NextIsMissing(t[id], r'.incomplete[id]);
    }
  }

  lemma NextIsMissing(plan: seq<Fragment>, m: Incomplete)
    requires Rebuilding(plan, m)
    ensures m.next < |plan| && !Has(m, m.next)
  {
  }

  // ---------------------------------------------------------------- handed on once

  ghost predicate NoRepeats(ids: seq<nat>) { forall i, j :: 0 <= i < j < |ids| ==> ids[i] != ids[j] }

  ghost predicate Once(r: Receiver) {
    NoRepeats(r.recent) && forall id :: id in r.recent ==> id in r.received
  }

  lemma FragmentOnce(r: Receiver, i: Incoming, now: nat)
    requires Once(r)
    ensures Once(HandleFragment(r, i, now))
  {
    var m := if i.msgID in r.incomplete then r.incomplete[i.msgID] else NOTHING;
    var (m', done) := Take(m, i.fragment, now);
  }

  lemma {:induction false} PacketOnce(r: Receiver, batch: seq<Incoming>, now: nat)
    requires Once(r)
    ensures Once(HandleFragments(r, batch, now))
    decreases |batch|
  {
    if batch == [] {
    } else {
      FragmentOnce(r, batch[0], now);
      PacketOnce(HandleFragment(r, batch[0], now), batch[1..], now);
    }
  }

  lemma EventOnce(t: Traffic, r: Receiver, e: Event)
    requires Possible(t, e) && Once(r)
    ensures Once(Apply(t, r, e))
  {
    if e.Arrive? {
      PacketOnce(r, Received(Packet(Incoming(e.msgID, t[e.msgID][e.num])) + e.padding), e.now);
    }
  }

  /** In the established state an id is handed on at most once between two clearings of the received set. */
  lemma {:induction false} HandedOnce(t: Traffic, r: Receiver, es: seq<Event>)
    requires AllPossible(t, es) && Once(r)
    ensures Once(Exec(t, r, es))
    decreases |es|
  {
    if es == [] {
    } else {
      EventOnce(t, r, es[0]);
      HandedOnce(t, Apply(t, r, es[0]), Tail(t, es));
    }
  }

  // ---------------------------------------------------------------- end to end

  ghost predicate Empty(r: Receiver) { r.incomplete == map[] && r.completed == [] && r.handed == [] }

  /** Behind the header and the bytes before it, a message has this much room in the largest buffer. */
  const ROOM: nat := I2NP.MAX_MESSAGE_SIZE - 2 - I2NP.SSU_OFFSET

  /** What a packet has room for at most. */
  const MAX_PAYLOAD_SIZE: nat := SSU_V4_MAX_PACKET_SIZE - OVERHEAD

  /** A message under its own id that fits into a buffer, and its seconds into 32 bits. */
  ghost predicate Wellformed(id: nat, m: I2NP.Message) {
    && m.msgID == id < Pow256(4) && m.expiration / 1000 < Pow256(4)
    && |I2NP.SsuBytes(m)| <= ROOM
  }

  /** A message, and the room in a packet when it is sent; the packet size may change from message to message. */
  datatype Outgoing = Outgoing(msg: I2NP.Message, payloadSize: Size)

  type Size = n: nat | n > 0 witness 1

  /** It fits into a buffer, its seconds into 32 bits, and its fragments into packets and seven bits. */
  ghost predicate Sendable(id: nat, o: Outgoing) {
    && Wellformed(id, o.msg) && o.payloadSize <= MAX_PAYLOAD_SIZE
    && |I2NP.SsuBytes(o.msg)| <= MAX_FRAGMENTS * o.payloadSize
  }

  /** The traffic that sending the given messages causes. */
  ghost function Sending(ms: map<nat, Outgoing>): Traffic {
    map id | id in ms :: Split(I2NP.SsuBytes(ms[id].msg), ms[id].payloadSize, 0)
  }

  lemma SplitFits(id: nat, bytes: seq<byte>, payloadSize: nat)
    requires id < Pow256(4) && 0 < payloadSize <= MAX_PAYLOAD_SIZE && bytes != []
    ensures var plan := Split(bytes, payloadSize, 0);
            && Plan(plan) && Fits(id, plan) && Join(plan) == bytes
            && (|plan| <= MAX_FRAGMENTS <==> |bytes| <= MAX_FRAGMENTS * payloadSize)
  {
    var plan := Split(bytes, payloadSize, 0);
    SplitOk(bytes, payloadSize, 0);
    SplitCount(bytes, payloadSize, 0);
    if |plan| <= MAX_FRAGMENTS {
      TimesGrows(|plan|, MAX_FRAGMENTS, payloadSize);
    } else {
      TimesGrows(MAX_FRAGMENTS, |plan| - 1, payloadSize);
    }
  }

  lemma TimesGrows(a: nat, b: nat, k: nat)
    requires a <= b
    ensures a * k <= b * k
  {
  }

  /**
   SSU end to end: a message of at most 128 fragments handed on after ToSSU, fragmentation into packets, each message's of
   its own size, any run of the receiver and FromSSU has the type, id and payload of the one sent under that id, and its
   expiration rounded down to whole seconds.
   */
  lemma EndToEnd(ms: map<nat, Outgoing>, r: Receiver, es: seq<Event>, k: nat)
    requires Empty(r) && forall id :: id in ms ==> Sendable(id, ms[id])
    requires AllPossible(Sending(ms), es) && k < |Exec(Sending(ms), r, es).handed|
    ensures var (id, content) := Exec(Sending(ms), r, es).handed[k];
            && id in ms && |content| >= I2NP.SHORT_HEADER_SIZE
            && I2NP.FromSsuBytes(id, content) == ms[id].msg.(expiration := ms[id].msg.expiration / 1000 * 1000)
  {
    var t := Sending(ms);
    forall id | id in t
      ensures Plan(t[id]) && Fits(id, t[id]) && |t[id]| <= MAX_FRAGMENTS && Join(t[id]) == I2NP.SsuBytes(ms[id].msg)
    {
      I2NP.SsuRoundTrip(ms[id].msg);
      assert Sendable(id, ms[id]);
      SplitFits(id, I2NP.SsuBytes(ms[id].msg), ms[id].payloadSize);
    }
    ReassemblySafe(t, r, es);
    var (id, content) := Exec(t, r, es).handed[k];
    assert Exec(t, r, es).handed[k] == (id, content);
    I2NP.SsuRoundTrip(ms[id].msg);
  }
}
