/**
 Two stream ends joined by a network that may drop, reorder and repeat packets:
 whatever one end put on the wire may be delivered to the other at any later
 time, any number of times, or never.
 */
module StreamRuns {
  import opened Bytes
  import opened Streaming
  import opened StreamInvariants

  datatype System = System(a: StreamState, b: StreamState)

  datatype Event =
    | AppWrite(buf: seq<byte>)
    | AppRead(len: nat)
    | AppClose
    | RunSendBuffer(ts: nat)
    | RunPosted
    | Deliver(k: nat, ts: nat)
    | ResendTimer(ts: nat)
    | AckTimer

  datatype Move = Move(atA: bool, event: Event)

  /** A stream just created. */
  predicate Untouched(s: StreamState) { s == Initial(s.recvStreamID, s.synCapacity) }

  /**
   StreamingDestination::HandleNextPacket: a packet goes to the stream it names.  One that names none goes to a new stream
   if it is a SYN, and otherwise to the stream whose peer it comes from.
   */
  predicate Routed(own: StreamState, p: Packet) {
    if p.sendStreamID != 0 then p.sendStreamID == own.recvStreamID
    else if p.syn && p.seqn == 0 then Untouched(own)
    else own.sendStreamID == p.receiveStreamID
  }

  /** The event hands own the k-th packet its peer ever sent. */
  predicate Hands(own: StreamState, peer: StreamState, e: Event) {
    e.Deliver? && e.k < |peer.h.wire| && !own.deleted && Routed(own, peer.h.wire[e.k])
  }

  /** One event at an end. */
  function After(own: StreamState, peer: StreamState, e: Event): StreamState {
    match e
    case AppWrite(buf) => Write(own, buf)
    case AppRead(len) => ReadSome(own, len).1
    case AppClose => Close(own)
    case RunSendBuffer(ts) => SendBuffer(own, ts)
    case RunPosted => SendPosted(own)
    case Deliver(k, ts) => if Hands(own, peer, e) then HandleNextPacket(own, peer.h.wire[k], ts) else own
    case ResendTimer(ts) => HandleResendTimer(own, ts)
    case AckTimer => HandleAckSendTimer(own)
  }

  function Apply(s: System, m: Move): System {
    if m.atA then s.(a := After(s.a, s.b, m.event)) else s.(b := After(s.b, s.a, m.event))
  }

  function Exec(s: System, moves: seq<Move>): System
    decreases |moves|
  {
    if moves == [] then s else Exec(Apply(s, moves[0]), moves[1..])
  }

  datatype Setup = Setup(idA: nat, capacityA: nat, idB: nat, capacityB: nat)

  function Start(u: Setup): System {
    System(Initial(u.idA, u.capacityA), Initial(u.idB, u.capacityB))
  }

  /** The guard of the one branch that goes wrong: a SYN is handed only to an end that has processed nothing yet. */
  predicate Fresh(own: StreamState, peer: StreamState, e: Event) {
    Hands(own, peer, e) && peer.h.wire[e.k].syn ==> own.last < 0
  }

  predicate FreshMove(s: System, m: Move) {
    if m.atA then Fresh(s.a, s.b, m.event) else Fresh(s.b, s.a, m.event)
  }

  ghost predicate SynOnce(s: System, moves: seq<Move>)
    decreases |moves|
  {
    moves == [] || (FreshMove(s, moves[0]) && SynOnce(Apply(s, moves[0]), moves[1..]))
  }

  // ---------------------------------------------------------------- what connects the ends

  ghost predicate FromLog(log: seq<seq<byte>>, p: Packet) { p.seqn < |log| && p.payload == log[p.seqn] }

  /** The receiving side of an end against the payloads its peer numbered. */
  ghost predicate Delivery(log: seq<seq<byte>>, s: StreamState) {
    && s.last + 1 <= |log|
    && s.h.accepted == Range(0, s.last + 1)
    && Flatten(log[..s.last + 1]) == s.h.delivered + Flatten(s.receiveQueue)
    && (forall p :: p in s.saved ==> FromLog(log, p))
  }

  ghost predicate Good(log: seq<seq<byte>>, s: StreamState) { AcksOk(s) && Delivery(log, s) }

  /** No number of x is lost: received by y, or still in x's books. */
  ghost predicate Covered(x: StreamState, y: StreamState) {
    forall n: nat :: Accounted(x, n) || Received(y, n)
  }

  ghost predicate MoreReceived(s: StreamState, t: StreamState) {
    forall n: nat :: Received(s, n) ==> Received(t, n)
  }

  lemma {:induction false} RangeSnoc(lo: nat, hi: nat)
    requires lo <= hi
    ensures Range(lo, hi + 1) == Range(lo, hi) + [hi]
    decreases hi - lo
  {
    if lo < hi {
      RangeSnoc(lo + 1, hi);
      assert [lo] + (Range(lo + 1, hi) + [hi]) == [lo] + Range(lo + 1, hi) + [hi];
    } else {
      assert Range(hi + 1, hi + 1) == [];
    }
  }

  /** Processing the next number keeps the delivery invariant. */
  lemma ProcessDelivers(log: seq<seq<byte>>, s: StreamState, p: Packet)
    requires SenderOk(s) && Delivery(log, s) && FromLog(log, p) && p.seqn == s.last + 1
    ensures Delivery(log, ProcessPacket(s, p))
  {
    ProcessPacketOk(s, p);
    ProcessPacketContent(s, p);
    RangeSnoc(0, s.last + 1);
    assert log[..p.seqn + 1] == log[..p.seqn] + [log[p.seqn]];
    FlattenSnoc(log[..p.seqn], log[p.seqn]);
  }

  /** The step from s to t on the receiving side, with the peer's log at hand. */
  ghost predicate TakeStep(log: seq<seq<byte>>, s: StreamState, t: StreamState) {
    && SenderOk(t) && SenderStep(s, t) && MoreReceived(s, t) && t.h.cut == s.h.cut && s.last <= t.last
    && (Good(log, s) ==> Good(log, t))
  }

  lemma TakeTrans(log: seq<seq<byte>>, s: StreamState, t: StreamState, u: StreamState)
    requires TakeStep(log, s, t) && TakeStep(log, t, u)
    ensures TakeStep(log, s, u)
  {
    SenderStepTrans(s, t, u);
  }

  lemma {:induction false} DrainOk(log: seq<seq<byte>>, s: StreamState)
    requires SenderOk(s) && Sorted(s.saved) && Above(s.saved, s.last)
    ensures TakeStep(log, s, Drain(s)) && ReceiverOk(Drain(s))
    decreases |s.saved|
  {
    if s.saved != [] && s.saved[0].seqn == s.last + 1 {
      DrainOneOk(log, s);
      var s2 := ProcessPacket(s.(saved := s.saved[1..]), s.saved[0]);
      DrainOk(log, s2);
      TakeTrans(log, s, s2, Drain(s2));
    } else {
      forall p | p in s.saved ensures s.last + 1 < p.seqn {
        var i :| 0 <= i < |s.saved| && s.saved[i] == p;
        assert s.saved[0] in s.saved;
      }
    }
  }

  lemma DrainOneOk(log: seq<seq<byte>>, s: StreamState)
    requires SenderOk(s) && Sorted(s.saved) && Above(s.saved, s.last)
    requires s.saved != [] && s.saved[0].seqn == s.last + 1
    ensures var t := ProcessPacket(s.(saved := s.saved[1..]), s.saved[0]);
            TakeStep(log, s, t) && Sorted(t.saved) && Above(t.saved, t.last) && t.saved == s.saved[1..]
  {
    var p, s1 := s.saved[0], s.(saved := s.saved[1..]);
    var t := ProcessPacket(s1, p);
    HeadRemoved(log, s);
    ProcessPacketOk(s1, p);
    ProcessPacketContent(s1, p);
    assert MoreReceived(s, t) by {
      assert s.saved == [p] + s1.saved;
      SeqnsCons(p, s1.saved);
    }
    if Good(log, s) {
      AcceptedAcks(s, t);
      ProcessDelivers(log, s1, p);
    }
    SenderStepTrans(s, s1, t);
  }

  /** Taking the first saved packet out, which is about to be processed. */
  lemma HeadRemoved(log: seq<seq<byte>>, s: StreamState)
    requires SenderOk(s) && Sorted(s.saved) && Above(s.saved, s.last) && s.saved != [] && s.saved[0].seqn == s.last + 1
    ensures var p, s1 := s.saved[0], s.(saved := s.saved[1..]);
            && SenderOk(s1) && SenderStep(s, s1) && Sorted(s1.saved) && Above(s1.saved, p.seqn)
            && (Delivery(log, s) ==> Delivery(log, s1) && FromLog(log, p))
  {
    var p, s1 := s.saved[0], s.(saved := s.saved[1..]);
    OwnGrows(s, s1, s.h.wire);
    OwnGrows(s, s1, s.posted);
    OwnGrows(s, s1, s.sent);
    forall q | q in s1.saved ensures p.seqn < q.seqn && !q.syn && q in s.saved {
      var i :| 0 <= i < |s1.saved| && s1.saved[i] == q;
      assert s.saved[i + 1] == q;
    }
    assert p in s.saved;
  }

  /** Acknowledgements stay sound when the receiving side moves on. */
  lemma AcceptedAcks(s: StreamState, t: StreamState)
    requires s.saved != [] && s.saved[0].seqn == s.last + 1
    requires t == ProcessPacket(s.(saved := s.saved[1..]), s.saved[0])
    requires SenderOk(s) && AcksOk(s) && MoreReceived(s, t)
    ensures AcksOk(t)
  {
    // process the packet first and forget the saved copy afterwards
    var p := s.saved[0];
    var u := ProcessPacket(s, p);
    ProcessPacketOk(s, p);
    ProcessPacketContent(s, p);
    ProcessCommutes(s, p, s.saved[1..]);
    assert t == u.(saved := s.saved[1..]);
    assert MoreReceived(u, t) by {
      assert s.saved == [p] + s.saved[1..];
      SeqnsCons(p, s.saved[1..]);
    }
    AcksGrow(u, t);
  }

  lemma ProcessCommutes(s: StreamState, p: Packet, saved: seq<Packet>)
    ensures ProcessPacket(s.(saved := saved), p) == ProcessPacket(s, p).(saved := saved)
  {
    CloseCommutes(s, saved);
    var s1 := if p.badSignature then Close(s) else s;
    var s2 := s1.(receiveQueue := if p.payload == [] then s1.receiveQueue else s1.receiveQueue + [p.payload],
                  last := p.seqn, h := s1.h.(accepted := s1.h.accepted + [p.seqn]), status := Reset);
    CloseCommutes(s2, saved);
  }

  lemma SendCloseCommutes(s: StreamState, saved: seq<Packet>)
    ensures SendClose(s.(saved := saved)) == SendClose(s).(saved := saved)
  {
  }

  lemma CloseCommutes(s: StreamState, saved: seq<Packet>)
    ensures Close(s.(saved := saved)) == Close(s).(saved := saved)
    decreases s.status.Open?
  {
    match s.status
    case Open => CloseCommutes(s.(status := Closing), saved);
    case Reset => SendCloseCommutes(s, saved);
    case Closing => SendCloseCommutes(s.(status := Closed), saved);
    case Closed =>
    case New =>
  }

  // ---------------------------------------------------------------- NACK lists never overflow

  ghost function Interval(lo: nat, hi: nat): (r: set<nat>)
    ensures forall n: nat :: n in r <==> lo <= n < hi
    ensures |r| == if lo <= hi then hi - lo else 0 as int
    decreases hi - lo
  {
    if lo >= hi then {} else {lo} + Interval(lo + 1, hi)
  }

  ghost function GapSet(saved: seq<Packet>, next: nat): set<nat> {
    if saved == [] then {} else Interval(next, saved[0].seqn) + GapSet(saved[1..], saved[0].seqn + 1)
  }

  lemma {:induction false} GapSetMembers(saved: seq<Packet>, next: nat)
    requires Sorted(saved) && AtLeast(saved, next)
    ensures forall n: nat :: n in GapSet(saved, next) <==> Lacks(saved, next, n)
    decreases |saved|
  {
    if saved == [] {
    } else {
      TailAbove(saved);
      LacksCons(saved, next);
      GapSetMembers(saved[1..], saved[0].seqn + 1);
    }
  }

  lemma {:induction false} GapSetSize(saved: seq<Packet>, next: nat)
    requires Sorted(saved) && AtLeast(saved, next)
    ensures |GapSet(saved, next)| == Gaps(saved, next)
    decreases |saved|
  {
    if saved == [] {
      assert GapSet(saved, next) == {};
    } else {
      TailAbove(saved);
      GapSetSize(saved[1..], saved[0].seqn + 1);
      GapsCons(saved, next);
      GapSetStep(saved, next);
    }
  }

  lemma GapSetDisjoint(saved: seq<Packet>, next: nat)
    requires Sorted(saved) && saved != [] && saved[0].seqn >= next
    ensures Interval(next, saved[0].seqn) !! GapSet(saved[1..], saved[0].seqn + 1)
  {
    TailAbove(saved);
    GapSetMembers(saved[1..], saved[0].seqn + 1);
  }

  lemma GapSetStep(saved: seq<Packet>, next: nat)
    requires Sorted(saved) && saved != [] && saved[0].seqn >= next
    ensures |GapSet(saved, next)| == saved[0].seqn - next + |GapSet(saved[1..], saved[0].seqn + 1)|
  {
    GapSetDisjoint(saved, next);
    DisjointSize(Interval(next, saved[0].seqn), GapSet(saved[1..], saved[0].seqn + 1));
  }

  lemma DisjointSize(a: set<nat>, b: set<nat>)
    requires a !! b
    ensures |a + b| == |a| + |b|
  {
  }

  lemma {:induction false} SeqnsSize(ps: seq<Packet>)
    ensures |Seqns(ps)| <= |ps|
  {
    if ps == [] {
    } else {
      SeqnsSize(ps[1..]);
      assert ps == [ps[0]] + ps[1..];
      SeqnsCons(ps[0], ps[1..]);
    }
  }

  lemma SubsetSize(a: set<nat>, b: set<nat>)
    requires a <= b
    ensures |a| <= |b|
  {
    assert b == a + (b - a);
  }

  lemma SavedAbove(y: StreamState)
    requires ReceiverOk(y)
    ensures AtLeast(y.saved, y.last + 1)
  {
    forall i | 0 <= i < |y.saved| ensures y.saved[i].seqn >= y.last + 1 {
      assert y.saved[i] in y.saved;
    }
  }

  /** Every missing number sits in the peer's window of at most 128 packets, so at most 128 are missing. */
  lemma MissingBounded(x: StreamState, y: StreamState)
    requires WindowOk(x) && x.h.fins == {} && |x.h.log| == x.sequenceNumber && Covered(x, y) && ReceiverOk(y)
    requires forall p :: p in y.saved ==> FromLog(x.h.log, p)
    ensures Missing(y) <= MAX_WINDOW_SIZE < MAX_NACKS
  {
    if HighestReceived(y) > y.last {
      var gaps := GapSet(y.saved, y.last + 1);
      GapsAreSent(x, y);
      assert |gaps| == Missing(y) by {
        SavedAbove(y);
        GapSetSize(y.saved, y.last + 1);
      }
      SubsetSize(gaps, Seqns(x.sent));
      SeqnsSize(x.sent);
    }
  }

  lemma GapsAreSent(x: StreamState, y: StreamState)
    requires x.h.fins == {} && |x.h.log| == x.sequenceNumber && Covered(x, y) && ReceiverOk(y)
    requires forall p :: p in y.saved ==> FromLog(x.h.log, p)
    ensures GapSet(y.saved, y.last + 1) <= Seqns(x.sent)
  {
    SavedAbove(y);
    GapSetMembers(y.saved, y.last + 1);
    forall n | n in GapSet(y.saved, y.last + 1) ensures n in Seqns(x.sent) {
      MissingIsSent(x, y, n);
    }
  }

  lemma MissingIsSent(x: StreamState, y: StreamState, n: nat)
    requires x.h.fins == {} && |x.h.log| == x.sequenceNumber && Covered(x, y)
    requires forall p :: p in y.saved ==> FromLog(x.h.log, p)
    requires Lacks(y.saved, y.last + 1, n)
    ensures n in Seqns(x.sent)
  {
    assert !Received(y, n);
    assert y.saved[|y.saved| - 1] in y.saved;
    assert Accounted(x, n);
  }

  // ---------------------------------------------------------------- delivering a packet

  /** What a step at one end does, seen from its peer's log; guarded says the SYN guard held. */
  ghost predicate EndStep(log: seq<seq<byte>>, s: StreamState, t: StreamState, guarded: bool) {
    && SenderOk(t) && ReceiverOk(t) && Advances(s, t)
    && (guarded && Good(log, s) ==> Good(log, t) && MoreReceived(s, t))
  }

  lemma QuietEnd(log: seq<seq<byte>>, s: StreamState, t: StreamState, guarded: bool)
    requires ReceiverOk(s) && QuietStep(s, t)
    ensures EndStep(log, s, t, guarded)
  {
  }

  /** A packet that is next in sequence, or a SYN, is processed and the saved ones after it drained. */
  lemma NextOk(log: seq<seq<byte>>, s: StreamState, p: Packet)
    requires SenderOk(s) && ReceiverOk(s)
    requires p.syn || p.seqn == s.last + 1
    requires p.syn ==> p.seqn == 0
    requires FromLog(log, p)
    ensures var t := Drain(ProcessPacket(s, p));
            && EndStep(log, s, t, p.syn ==> s.last < 0) && SenderStep(s, t)
            && t.h.cut == s.h.cut
  {
    ProcessPacketOk(s, p);
    ProcessPacketContent(s, p);
    var s1 := ProcessPacket(s, p);
    if p.syn && s.last >= 0 {
      assert Above(s1.saved, s1.last);
    } else {
      if Good(log, s) {
        ProcessDelivers(log, s, p);
      }
      assert MoreReceived(s, s1);
    }
    DrainOk(log, s1);
    SenderStepTrans(s, s1, Drain(s1));
  }

  /** A saved packet leaves the sending side alone. */
  lemma SaveSender(s: StreamState, p: Packet, scheduled: bool)
    requires SenderOk(s) && ReceiverOk(s) && !p.syn && p.seqn > s.last + 1
    ensures var t := s.(saved := Insert(s.saved, p), ackScheduled := scheduled);
            SenderOk(t) && ReceiverOk(t) && SenderStep(s, t) && MoreReceived(s, t)
  {
    var t := s.(saved := Insert(s.saved, p), ackScheduled := scheduled);
    InsertOk(s.saved, p);
    OwnGrows(s, t, s.h.wire);
    OwnGrows(s, t, s.posted);
    OwnGrows(s, t, s.sent);
  }

  lemma SaveOk(log: seq<seq<byte>>, s: StreamState, p: Packet, scheduled: bool)
    requires SenderOk(s) && ReceiverOk(s) && !p.syn && p.seqn > s.last + 1 && FromLog(log, p)
    ensures var t := s.(saved := Insert(s.saved, p), ackScheduled := scheduled);
            && EndStep(log, s, t, true) && SenderStep(s, t) && MoreReceived(s, t)
            && t.h.cut == s.h.cut
            && (Delivery(log, s) ==> Delivery(log, t))
  {
    var t := s.(saved := Insert(s.saved, p), ackScheduled := scheduled);
    SaveSender(s, p, scheduled);
    InsertOk(s.saved, p);
    if AcksOk(s) {
      AcksGrow(s, t);
    }
  }

  /** The receiving half of HandleNextPacket, for a packet the peer x sent. */
  lemma ReceiveOk(x: StreamState, s: StreamState, p: Packet, ts: nat)
    requires SenderOk(x) && SenderOk(s) && ReceiverOk(s) && OwnPacket(x, p)
    ensures var t := Receive(s, p, ts);
            && EndStep(x.h.log, s, t, p.syn ==> s.last < 0) && SenderStep(s, t)
            && (Covered(x, s) && x.h.fins == {} && Delivery(x.h.log, s) ==> t.h.cut == s.h.cut)
  {
    if p.seqn == 0 && !p.syn {
    } else if p.syn || p.seqn == s.last + 1 {
      ReceiveNextOk(x, s, p, ts);
    } else if p.seqn <= s.last {
      QuickAckStep(x, s);
    } else {
      ReceiveLaterOk(x, s, p, ts);
    }
  }

  lemma ReceiveNextOk(x: StreamState, s: StreamState, p: Packet, ts: nat)
    requires SenderOk(x) && SenderOk(s) && ReceiverOk(s) && OwnPacket(x, p)
    requires p.syn || (p.seqn == s.last + 1 && p.seqn > 0)
    ensures var t := Receive(s, p, ts);
            && EndStep(x.h.log, s, t, p.syn ==> s.last < 0) && SenderStep(s, t)
            && t.h.cut == s.h.cut
  {
    var log := x.h.log;
    NextOk(log, s, p);
    var s1 := Drain(ProcessPacket(s, p));
    if s1.status.Open? {
      ScheduleOk(s1, true);
      QuietEnd(log, s1, s1.(ackScheduled := true), true);
    } else if p.syn {
      SendBufferOk(s1, ts);
      SendBufferKeepsCut(s1, ts);
      QuietEnd(log, s1, SendBuffer(s1, ts), true);
      SenderStepTrans(s, s1, SendBuffer(s1, ts));
    }
  }

  lemma ReceiveLaterOk(x: StreamState, s: StreamState, p: Packet, ts: nat)
    requires SenderOk(x) && SenderOk(s) && ReceiverOk(s) && OwnPacket(x, p)
    requires !p.syn && p.seqn > s.last + 1
    ensures var t := Receive(s, p, ts);
            && EndStep(x.h.log, s, t, true) && SenderStep(s, t)
            && (Covered(x, s) && x.h.fins == {} && Delivery(x.h.log, s) ==> t.h.cut == s.h.cut)
  {
    var scheduled := s.last < 0;
    SaveOk(x.h.log, s, p, scheduled);
    var s1 := s.(saved := Insert(s.saved, p), ackScheduled := scheduled);
    if s.last >= 0 {
      QuickAckStep(x, s1);
      SenderStepTrans(s, s1, SendQuickAck(s1));
    }
  }

  lemma QuickAckStep(x: StreamState, s: StreamState)
    requires SenderOk(x) && SenderOk(s) && ReceiverOk(s)
    ensures var t := SendQuickAck(s);
            && QuietStep(s, t) && EndStep(x.h.log, s, t, true)
            && (Covered(x, s) && x.h.fins == {} && Delivery(x.h.log, s) ==> t.h.cut == s.h.cut)
  {
    SendQuickAckOk(s);
    QuietEnd(x.h.log, s, SendQuickAck(s), true);
    if Covered(x, s) && x.h.fins == {} && Delivery(x.h.log, s) {
      MissingBounded(x, s);
    }
  }

  lemma SendBufferKeepsCut(s: StreamState, ts: nat)
    ensures SendBuffer(s, ts).h.cut == s.h.cut
  {
    SegmentKeepsCut(s, s.control.window - |s.sent|, s.last < 0, ts, []);
  }

  lemma {:induction false} SegmentKeepsCut(s: StreamState, n: int, isNoAck: bool, ts: nat, packets: seq<Packet>)
    ensures Segment(s, n, isNoAck, ts, packets).0.h.cut == s.h.cut
    decreases s.status.New?, if n > 0 then n else 0
  {
    if MoreToSegment(s, n) {
      var (s', p) := NextSegment(s, isNoAck, ts);
      SegmentKeepsCut(s', n - 1, isNoAck, ts, packets + [p]);
    }
  }

  lemma ProcessAckKeepsCut(s: StreamState, p: Packet, ts: nat)
    ensures ProcessAck(s, p, ts).h.cut == s.h.cut
  {
    var r := AckScan([], s.sent, p, ts, s.control, false);
    var s1 := s.(sent := r.sent, control := r.control);
    SendBufferKeepsCut(s1.(resendAttempts := 0), ts);
    CloseKeepsReceiver(if r.acknowledged then SendBuffer(s1.(resendAttempts := 0), ts) else s1);
  }

  /** own became s1 by processing the acknowledgement in p; now the packet itself is received. */
  lemma AckedThenReceived(own: StreamState, s1: StreamState, peer: StreamState, p: Packet, ts: nat)
    requires SenderOk(s1) && ReceiverOk(own) && SenderOk(peer) && OwnPacket(peer, p)
    requires Advances(own, s1) && SameReceiver(own, s1) && s1.h.cut == own.h.cut
    requires AcksOk(own) ==> AcksOk(s1)
    requires forall n: nat :: Accounted(own, n) ==> Accounted(s1, n) || Drops(own, p, n)
    ensures var t := Receive(s1, p, ts);
            && EndStep(peer.h.log, own, t, p.syn ==> own.last < 0)
            && (forall n: nat :: Accounted(own, n) ==> Accounted(t, n) || Drops(own, p, n))
            && (Covered(peer, own) && peer.h.fins == {} && Delivery(peer.h.log, own) ==> t.h.cut == own.h.cut)
  {
    assert ReceiverOk(s1);
    ReceiveOk(peer, s1, p, ts);
    assert MoreReceived(own, s1);
    assert Covered(peer, own) ==> Covered(peer, s1);
    assert Delivery(peer.h.log, own) ==> Delivery(peer.h.log, s1);
  }

  /** HandleNextPacket at own, for a packet its peer sent: the books of both directions. */
  lemma HandleOk(own: StreamState, peer: StreamState, p: Packet, ts: nat)
    requires SenderOk(own) && ReceiverOk(own) && SenderOk(peer) && OwnPacket(peer, p)
    ensures var t := HandleNextPacket(own, p, ts);
            && EndStep(peer.h.log, own, t, p.syn ==> own.last < 0)
            && (forall n: nat :: Accounted(own, n) ==> Accounted(t, n) || Drops(own, p, n))
            && (Covered(peer, own) && peer.h.fins == {} && Delivery(peer.h.log, own) ==> t.h.cut == own.h.cut)
  {
    var s0 := if own.sendStreamID == 0 then own.(sendStreamID := p.receiveStreamID) else own;
    IdOk(own, p.receiveStreamID);
    if p.noAck {
      AckedThenReceived(own, s0, peer, p, ts);
    } else {
      ProcessAckOk(s0, p, ts);
      ProcessAckKeepsCut(s0, p, ts);
      AckedThenReceived(own, ProcessAck(s0, p, ts), peer, p, ts);
    }
  }

  lemma IdOk(s: StreamState, id: nat)
    requires SenderOk(s)
    ensures var t := s.(sendStreamID := id); SenderOk(t) && SenderStep(s, t) && (AcksOk(s) ==> AcksOk(t))
  {
    var t := s.(sendStreamID := id);
    OwnGrows(s, t, s.h.wire);
    OwnGrows(s, t, s.posted);
    OwnGrows(s, t, s.sent);
    if AcksOk(s) {
      AcksGrow(s, t);
    }
  }

  // ---------------------------------------------------------------- one event

  /** The event delivers a packet that makes own forget number n. */
  ghost predicate AckedBy(own: StreamState, peer: StreamState, e: Event, n: nat) {
    Hands(own, peer, e) && Drops(own, peer.h.wire[e.k], n)
  }

  ghost predicate EventStep(own: StreamState, peer: StreamState, e: Event, t: StreamState) {
    && EndStep(peer.h.log, own, t, Fresh(own, peer, e))
    && (forall n: nat :: Accounted(own, n) ==> Accounted(t, n) || AckedBy(own, peer, e, n))
    && (Covered(peer, own) && peer.h.fins == {} && Delivery(peer.h.log, own) ==> t.h.cut == own.h.cut)
  }

  lemma QuietEvent(own: StreamState, peer: StreamState, e: Event, t: StreamState)
    requires ReceiverOk(own) && QuietStep(own, t) && t.h.cut == own.h.cut
    ensures EventStep(own, peer, e, t)
  {
    QuietEnd(peer.h.log, own, t, Fresh(own, peer, e));
  }

  lemma EventOk(own: StreamState, peer: StreamState, e: Event)
    requires SenderOk(own) && ReceiverOk(own) && SenderOk(peer)
    ensures EventStep(own, peer, e, After(own, peer, e))
  {
    var t := After(own, peer, e);
    match e
    case AppWrite(buf) =>
      WriteOk(own, buf);
      QuietEvent(own, peer, e, t);
    case AppRead(len) =>
      ReadSomeOk(own, len);
    case AppClose =>
      CloseOk(own);
      CloseKeepsReceiver(own);
      QuietEvent(own, peer, e, t);
    case RunSendBuffer(ts) =>
      SendBufferOk(own, ts);
      SendBufferKeepsCut(own, ts);
      QuietEvent(own, peer, e, t);
    case RunPosted =>
      SendPostedOk(own);
      QuietEvent(own, peer, e, t);
    case Deliver(k, ts) =>
      DeliverOk(own, peer, k, ts);
    case ResendTimer(ts) =>
      ResendOk(own, ts);
      QuietEvent(own, peer, e, t);
    case AckTimer =>
      AckTimerEvent(own, peer);
  }

  lemma DeliverOk(own: StreamState, peer: StreamState, k: nat, ts: nat)
    requires SenderOk(own) && ReceiverOk(own) && SenderOk(peer)
    ensures EventStep(own, peer, Deliver(k, ts), After(own, peer, Deliver(k, ts)))
  {
    if k < |peer.h.wire| && !own.deleted {
      assert peer.h.wire[k] in peer.h.wire;
      HandleOk(own, peer, peer.h.wire[k], ts);
    }
  }

  lemma AckTimerEvent(own: StreamState, peer: StreamState)
    requires SenderOk(own) && ReceiverOk(own) && SenderOk(peer)
    ensures EventStep(own, peer, AckTimer, HandleAckSendTimer(own))
  {
    var t := HandleAckSendTimer(own);
    AckTimerOk(own);
    AckTimerCut(own);
    QuietEnd(peer.h.log, own, t, true);
    if Covered(peer, own) && peer.h.fins == {} && Delivery(peer.h.log, own) {
      MissingBounded(peer, own);
    }
  }

  lemma AckTimerCut(s: StreamState)
    ensures s.h.cut ==> HandleAckSendTimer(s).h.cut
  {
    CloseKeepsReceiver(s.(status := Reset));
  }

  // ---------------------------------------------------------------- whole runs

  ghost predicate Base(s: System) {
    SenderOk(s.a) && SenderOk(s.b) && ReceiverOk(s.a) && ReceiverOk(s.b)
  }

  /** What holds of direction x to y in every run that keeps the SYN guard. */
  ghost predicate Direction(x: StreamState, y: StreamState) {
    && Good(x.h.log, y)
    && (!y.h.blind && !y.h.cut ==> Covered(x, y))
    && (!y.h.blind && x.h.fins == {} ==> !y.h.cut)
  }

  /** The sender of a direction moves. */
  lemma SenderMoves(x: StreamState, y: StreamState, e: Event)
    requires SenderOk(x) && ReceiverOk(x) && SenderOk(y) && Direction(x, y)
    ensures Direction(After(x, y, e), y)
  {
    var x' := After(x, y, e);
    EventOk(x, y, e);
    assert x'.h.log[..y.last + 1] == x.h.log[..y.last + 1];
    if !y.h.blind && !y.h.cut {
      forall n: nat ensures Accounted(x', n) || Received(y, n) {
        assert Accounted(x, n) || Received(y, n);
        if AckedBy(x, y, e, n) {
          assert y.h.wire[e.k] in y.h.wire && AckOk(y, y.h.wire[e.k]);
        }
      }
    }
  }

  /** The receiver of a direction moves. */
  lemma ReceiverMoves(x: StreamState, y: StreamState, e: Event)
    requires SenderOk(x) && SenderOk(y) && ReceiverOk(y) && Direction(x, y) && Fresh(y, x, e)
    ensures Direction(x, After(y, x, e))
  {
    EventOk(y, x, e);
  }

  lemma MoveOk(s: System, m: Move)
    requires Base(s)
    ensures Base(Apply(s, m))
    ensures FreshMove(s, m) && Direction(s.a, s.b) && Direction(s.b, s.a)
        ==> Direction(Apply(s, m).a, Apply(s, m).b) && Direction(Apply(s, m).b, Apply(s, m).a)
  {
    var own, peer := if m.atA then s.a else s.b, if m.atA then s.b else s.a;
    EventOk(own, peer, m.event);
    if FreshMove(s, m) && Direction(s.a, s.b) && Direction(s.b, s.a) {
      SenderMoves(own, peer, m.event);
      ReceiverMoves(peer, own, m.event);
    }
  }

  lemma StartOk(u: Setup)
    ensures Base(Start(u)) && Direction(Start(u).a, Start(u).b) && Direction(Start(u).b, Start(u).a)
  {
  }

  lemma {:induction false} RunBase(s: System, moves: seq<Move>)
    requires Base(s)
    ensures Base(Exec(s, moves))
    decreases |moves|
  {
    if moves == [] {
    } else {
      MoveOk(s, moves[0]);
      RunBase(Apply(s, moves[0]), moves[1..]);
    }
  }

  lemma {:induction false} RunDirections(s: System, moves: seq<Move>)
    requires Base(s) && Direction(s.a, s.b) && Direction(s.b, s.a) && SynOnce(s, moves)
    ensures var t := Exec(s, moves); Base(t) && Direction(t.a, t.b) && Direction(t.b, t.a)
    decreases |moves|
  {
    if moves == [] {
    } else {
      MoveOk(s, moves[0]);
      RunDirections(Apply(s, moves[0]), moves[1..]);
    }
  }

  /** The window bounds, in every reachable state, without any assumption on the network. */
  lemma WindowBounds(u: Setup, moves: seq<Move>)
    ensures var s := Exec(Start(u), moves); WindowOk(s.a) && WindowOk(s.b)
  {
    StartOk(u);
    RunBase(Start(u), moves);
  }

  lemma DeliveredPrefix(x: StreamState, y: StreamState)
    requires SenderOk(x) && Delivery(x.h.log, y)
    ensures y.h.delivered <= x.h.submitted && y.h.accepted == Range(0, y.last + 1)
  {
    FlattenPrefix(x.h.log, y.last + 1);
    var got := Flatten(x.h.log[..y.last + 1]);
    assert got <= Flatten(x.h.log) <= x.h.submitted;
    assert y.h.delivered <= got;
  }

  /** The application behind y has read a prefix of what the one behind x wrote; every number up to last came once, in order. */
  ghost predicate InOrder(x: StreamState, y: StreamState) {
    y.h.delivered <= x.h.submitted && y.h.accepted == Range(0, y.last + 1)
  }

  lemma SystemInOrder(s: System)
    requires Base(s) && Direction(s.a, s.b) && Direction(s.b, s.a)
    ensures InOrder(s.a, s.b) && InOrder(s.b, s.a)
  {
    DeliveredPrefix(s.a, s.b);
    DeliveredPrefix(s.b, s.a);
  }

  /**
   Two-party safety: however packets are dropped, reordered and repeated, as long as no end is handed a second SYN,
   either application has read a prefix of what the other one wrote.
   */
  lemma PrefixDelivery(u: Setup, moves: seq<Move>)
    requires SynOnce(Start(u), moves)
    ensures var s := Exec(Start(u), moves); InOrder(s.a, s.b) && InOrder(s.b, s.a)
  {
    StartOk(u);
    RunDirections(Start(u), moves);
    SystemInOrder(Exec(Start(u), moves));
  }

  /** Every number x assigned was received by y, is still kept for resending, or belongs to a closing packet. */
  ghost predicate NoneLost(x: StreamState, y: StreamState) {
    forall n: nat :: n < x.sequenceNumber ==> Received(y, n) || n in Seqns(x.sent) || n in x.h.fins
  }

  lemma CoveredLosesNone(x: StreamState, y: StreamState)
    requires Covered(x, y)
    ensures NoneLost(x, y)
  {
    forall n: nat | n < x.sequenceNumber ensures Received(y, n) || n in Seqns(x.sent) || n in x.h.fins {
      assert Accounted(x, n) || Received(y, n);
    }
  }

  /** No number is lost, unless the receiving end acknowledged blindly or had a NACK list cut. */
  lemma NothingLost(u: Setup, moves: seq<Move>)
    requires SynOnce(Start(u), moves)
    ensures var s := Exec(Start(u), moves);
            && (!s.b.h.blind && !s.b.h.cut ==> NoneLost(s.a, s.b))
            && (!s.a.h.blind && !s.a.h.cut ==> NoneLost(s.b, s.a))
  {
    StartOk(u);
    RunDirections(Start(u), moves);
    SystemLosesNone(Exec(Start(u), moves));
  }

  lemma SystemLosesNone(s: System)
    requires Direction(s.a, s.b) && Direction(s.b, s.a)
    ensures !s.b.h.blind && !s.b.h.cut ==> NoneLost(s.a, s.b)
    ensures !s.a.h.blind && !s.a.h.cut ==> NoneLost(s.b, s.a)
  {
    if !s.b.h.blind && !s.b.h.cut {
      CoveredLosesNone(s.a, s.b);
    }
    if !s.a.h.blind && !s.a.h.cut {
      CoveredLosesNone(s.b, s.a);
    }
  }

  /** Until the peer closes, an end that never acknowledged blindly never cuts a NACK list. */
  lemma NackListFits(u: Setup, moves: seq<Move>)
    requires SynOnce(Start(u), moves)
    ensures var s := Exec(Start(u), moves);
            && (!s.b.h.blind && s.a.h.fins == {} ==> !s.b.h.cut)
            && (!s.a.h.blind && s.b.h.fins == {} ==> !s.a.h.cut)
  {
    StartOk(u);
    RunDirections(Start(u), moves);
  }
}
