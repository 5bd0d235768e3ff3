/**
 What every operation of one stream end keeps: segmentation loses no byte,
 every number is accounted for, the window stays bounded, and every packet
 put on the wire acknowledges only what was received.
 */
module StreamInvariants {
  import opened Bytes
  import opened Streaming

  // ---------------------------------------------------------------- vocabulary

  /** p says about its sequence number what the stream recorded for it. */
  ghost predicate OwnPacket(s: StreamState, p: Packet) {
    && (p.syn ==> p.seqn == 0)
    && (p.syn || p.seqn > 0 ==> p.seqn < |s.h.log| && p.payload == s.h.log[p.seqn])
    && !p.badSignature
  }

  ghost predicate AllOwn(s: StreamState, ps: seq<Packet>) {
    forall p :: p in ps ==> OwnPacket(s, p)
  }

  ghost predicate SenderOk(s: StreamState) {
    && |s.h.log| == s.sequenceNumber
    && (s.buffer.eof ==> s.buffer.pending == [])
    && Flatten(s.h.log) + s.buffer.pending == s.h.submitted
    && (s.status.New? ==> s.sequenceNumber == 0)
    && (s.posted != [] || s.h.fins != {} ==> !s.status.New? && !s.status.Open?)
    && WindowOk(s)
    && AllOwn(s, s.h.wire) && AllOwn(s, s.posted) && AllOwn(s, s.sent)
  }

  ghost predicate WindowOk(s: StreamState) {
    && MIN_WINDOW_SIZE <= s.control.window <= MAX_WINDOW_SIZE
    && |s.sent| <= MAX_WINDOW_SIZE
    && Sorted(s.sent)
    && Below(s.sent, s.sequenceNumber)
  }

  ghost predicate Below(ps: seq<Packet>, n: nat) { forall p :: p in ps ==> p.seqn < n }

  ghost predicate AtLeast(ps: seq<Packet>, n: nat) { forall i :: 0 <= i < |ps| ==> ps[i].seqn >= n }

  ghost predicate Above(ps: seq<Packet>, n: int) { forall p :: p in ps ==> n < p.seqn && !p.syn }

  ghost predicate ReceiverOk(s: StreamState) {
    Sorted(s.saved) && Above(s.saved, s.last + 1)
  }

  ghost predicate Received(s: StreamState, n: nat) { n <= s.last || n in Seqns(s.saved) }

  /** Packet ack says that number n arrived. */
  ghost predicate Acknowledges(ack: Packet, n: nat) { !ack.noAck && n <= ack.ackThrough && n !in ack.nacks }

  /** Number n is kept for resending, and ack makes the stream forget it. */
  ghost predicate Drops(s: StreamState, ack: Packet, n: nat) { n in Seqns(s.sent) && Acknowledges(ack, n) }

  ghost predicate AckOk(s: StreamState, ack: Packet) {
    forall n :: Acknowledges(ack, n) ==> Received(s, n)
  }

  /** Unless a packet was built blind or with a cut NACK list, no packet claims more than was received. */
  ghost predicate AcksOk(s: StreamState) {
    !s.h.blind && !s.h.cut ==> forall p :: p in s.h.wire || p in s.posted || p in s.sent ==> AckOk(s, p)
  }

  /** Number n is not lost on the sending side: unassigned, still kept for resending, or a closing packet's. */
  ghost predicate Accounted(s: StreamState, n: nat) {
    n >= s.sequenceNumber || n in Seqns(s.sent) || n in s.h.fins
  }

  /** What no operation takes back. */
  ghost predicate Advances(s: StreamState, t: StreamState) {
    && s.h.log <= t.h.log && s.h.wire <= t.h.wire && s.h.submitted <= t.h.submitted
    && s.sequenceNumber <= t.sequenceNumber
    && s.h.fins <= t.h.fins && (s.h.blind ==> t.h.blind) && (s.h.cut ==> t.h.cut)
  }

  /** A step of the sending side: history grows, and no number is lost. */
  ghost predicate SenderStep(s: StreamState, t: StreamState) {
    && Advances(s, t)
    && (forall n :: Accounted(s, n) ==> Accounted(t, n))
  }

  /** A step that leaves the receiving side alone, apart from an acknowledgement it may send. */
  ghost predicate QuietStep(s: StreamState, t: StreamState) {
    && SenderOk(t) && SenderStep(s, t) && SameReceiver(s, t) && (AcksOk(s) ==> AcksOk(t))
  }

  lemma QuietTrans(s: StreamState, t: StreamState, u: StreamState)
    requires QuietStep(s, t) && QuietStep(t, u)
    ensures QuietStep(s, u)
  {
  }

  // ---------------------------------------------------------------- ordered packet sets

  lemma SeqnsCons(p: Packet, ps: seq<Packet>)
    ensures Seqns([p] + ps) == {p.seqn} + Seqns(ps)
  {
    var all := [p] + ps;
    forall n | n in Seqns(ps) ensures n in Seqns(all) {
      var i :| 0 <= i < |ps| && ps[i].seqn == n;
      assert all[i + 1] == ps[i];
    }
    assert all[0] == p;
  }

  lemma {:induction false} InsertMembers(ps: seq<Packet>, p: Packet)
    ensures var r := Insert(ps, p);
            && |r| <= |ps| + 1
            && (forall q :: q in r ==> q in ps || q == p)
            && (forall q :: q in ps ==> q in r)
  {
    if ps == [] || p.seqn <= ps[0].seqn {
    } else {
      InsertMembers(ps[1..], p);
      assert ps == [ps[0]] + ps[1..];
    }
  }

  lemma {:induction false} InsertSeqns(ps: seq<Packet>, p: Packet)
    ensures Seqns(Insert(ps, p)) == Seqns(ps) + {p.seqn}
  {
    if ps == [] || p.seqn < ps[0].seqn {
      SeqnsCons(p, ps);
      assert ps == [] ==> [p] + ps == [p];
    } else if p.seqn == ps[0].seqn {
    } else {
      InsertSeqns(ps[1..], p);
      assert ps == [ps[0]] + ps[1..];
      SeqnsCons(ps[0], Insert(ps[1..], p));
      SeqnsCons(ps[0], ps[1..]);
    }
  }

  lemma {:induction false} InsertSorted(ps: seq<Packet>, p: Packet)
    requires Sorted(ps)
    ensures Sorted(Insert(ps, p))
  {
    if ps == [] || p.seqn <= ps[0].seqn {
    } else {
      assert Sorted(ps[1..]);
      InsertSorted(ps[1..], p);
      InsertMembers(ps[1..], p);
      var rest := Insert(ps[1..], p);
      forall i | 0 <= i < |rest| ensures ps[0].seqn < rest[i].seqn {
        assert rest[i] in rest;
      }
    }
  }

  lemma InsertOk(ps: seq<Packet>, p: Packet)
    requires Sorted(ps)
    ensures var r := Insert(ps, p);
            && Sorted(r) && |r| <= |ps| + 1
            && (forall q :: q in r ==> q in ps || q == p)
            && (forall q :: q in ps ==> q in r)
            && Seqns(r) == Seqns(ps) + {p.seqn}
  {
    InsertSorted(ps, p);
    InsertMembers(ps, p);
    InsertSeqns(ps, p);
  }

  lemma SeqnsIn(ps: seq<Packet>, n: nat)
    ensures n in Seqns(ps) <==> exists p :: p in ps && p.seqn == n
  {
    if p :| p in ps && p.seqn == n {
      var i :| 0 <= i < |ps| && ps[i] == p;
    }
    if n in Seqns(ps) {
      var i :| 0 <= i < |ps| && ps[i].seqn == n;
      assert ps[i] in ps;
    }
  }

  lemma {:induction false} InsertAllOk(ps: seq<Packet>, qs: seq<Packet>)
    requires Sorted(ps)
    ensures var r := InsertAll(ps, qs);
            Sorted(r) && |r| <= |ps| + |qs| && Seqns(r) == Seqns(ps) + Seqns(qs)
    decreases |qs|
  {
    if qs == [] {
    } else {
      var first, rest := qs[0], qs[1..];
      InsertOk(ps, first);
      InsertAllOk(Insert(ps, first), rest);
      assert qs == [first] + rest;
      SeqnsCons(first, rest);
      UnionAssociates(Seqns(ps), {first.seqn}, Seqns(rest));
    }
  }

  lemma UnionAssociates(a: set<nat>, b: set<nat>, c: set<nat>)
    ensures a + b + c == a + (b + c)
  {
  }

  lemma {:induction false} InsertAllMembers(ps: seq<Packet>, qs: seq<Packet>)
    requires Sorted(ps)
    ensures forall q :: q in InsertAll(ps, qs) ==> q in ps || q in qs
    decreases |qs|
  {
    if qs == [] {
    } else {
      InsertOk(ps, qs[0]);
      InsertAllMembers(Insert(ps, qs[0]), qs[1..]);
    }
  }

  // ---------------------------------------------------------------- growing history

  lemma OwnGrows(s: StreamState, t: StreamState, ps: seq<Packet>)
    requires AllOwn(s, ps) && s.h.log <= t.h.log
    ensures AllOwn(t, ps)
  {
    forall p | p in ps ensures OwnPacket(t, p) {
      assert OwnPacket(s, p);
    }
  }

  lemma AcksGrow(s: StreamState, t: StreamState)
    requires AcksOk(s) && (s.h.blind ==> t.h.blind) && (s.h.cut ==> t.h.cut)
    requires forall n :: Received(s, n) ==> Received(t, n)
    requires forall p :: p in t.h.wire || p in t.posted || p in t.sent ==>
               p in s.h.wire || p in s.posted || p in s.sent || t.h.blind || t.h.cut || AckOk(t, p)
    ensures AcksOk(t)
  {
    if !t.h.blind && !t.h.cut {
      forall p | p in t.h.wire || p in t.posted || p in t.sent ensures AckOk(t, p) {
        if p in s.h.wire || p in s.posted || p in s.sent {
          assert AckOk(s, p);
        }
      }
    }
  }

  lemma SenderStepTrans(s: StreamState, t: StreamState, u: StreamState)
    requires SenderStep(s, t) && SenderStep(t, u)
    ensures SenderStep(s, u)
  {
  }

  // ---------------------------------------------------------------- segmentation

  /** The invariant of the segmentation loop that began in state s0 with n0 free window slots; n are left. */
  ghost predicate Segmenting(s0: StreamState, n0: int, s: StreamState, n: int, packets: seq<Packet>) {
    && (s.status.New? ==> n >= 1)
    && |packets| + (if n > 0 then n else 0) <= n0
    && Segmented(s0, s, packets)
  }

  ghost predicate Segmented(s0: StreamState, s: StreamState, packets: seq<Packet>) {
    && SenderOk(s) && SenderSame(s0, s)
    && Advances(s0, s)
    && s.h.submitted == s0.h.submitted && s.h.wire == s0.h.wire && s.h.fins == s0.h.fins && s.h.cut == s0.h.cut
    && AllOwn(s, packets) && Below(packets, s.sequenceNumber)
    && (forall k :: s0.sequenceNumber <= k < s.sequenceNumber ==> k in Seqns(packets))
    && (forall p :: p in packets ==> s.h.blind || AckOk(s0, p))
  }

  /** The segmentation loop leaves alone everything but numbering, buffer, log and status. */
  ghost predicate SenderSame(s: StreamState, t: StreamState) {
    && t.sent == s.sent && t.posted == s.posted && t.control == s.control && SameReceiver(s, t)
    && (t.status == s.status || (s.status.New? && t.status.Open?))
    && t.sendStreamID == s.sendStreamID
  }

  lemma NextSegmentOk(s0: StreamState, n0: int, s: StreamState, n: int, isNoAck: bool, ts: nat, packets: seq<Packet>)
    requires Segmenting(s0, n0, s, n, packets) && MoreToSegment(s, n)
    requires isNoAck == (s0.last < 0)
    ensures var (t, p) := NextSegment(s, isNoAck, ts); Segmenting(s0, n0, t, n - 1, packets + [p])
  {
    var (t, p) := NextSegment(s, isNoAck, ts);
    var all := packets + [p];
    FlattenSnoc(s.h.log, p.payload);
    var (payload, rest) := ReadBuffer(s.buffer, if s.status.New? then s.synCapacity else FOLLOW_ON_CAPACITY);
    assert payload + rest.pending == s.buffer.pending;
    assert Flatten(t.h.log) + t.buffer.pending == Flatten(s.h.log) + (payload + rest.pending);
    OwnGrows(s, t, s.h.wire);
    OwnGrows(s, t, s.posted);
    OwnGrows(s, t, s.sent);
    OwnGrows(s, t, packets);
    forall k | s0.sequenceNumber <= k < t.sequenceNumber ensures k in Seqns(all) {
      if k < s.sequenceNumber {
        assert k in Seqns(packets);
        var i :| 0 <= i < |packets| && packets[i].seqn == k;
        assert all[i] == packets[i];
      } else {
        assert all[|packets|] == p;
      }
    }
    if !t.h.blind && !p.noAck {
      assert s0.last >= 0;
      forall m | Acknowledges(p, m) ensures Received(s0, m) {
      }
    }
  }

  lemma {:induction false} SegmentOk(s0: StreamState, n0: int, s: StreamState, n: int, isNoAck: bool, ts: nat,
                                     packets: seq<Packet>)
    requires Segmenting(s0, n0, s, n, packets)
    requires isNoAck == (s0.last < 0)
    ensures var (t, all) := Segment(s, n, isNoAck, ts, packets);
            Segmented(s0, t, all) && |all| <= n0
    decreases s.status.New?, if n > 0 then n else 0
  {
    if MoreToSegment(s, n) {
      var (s', p) := NextSegment(s, isNoAck, ts);
      NextSegmentOk(s0, n0, s, n, isNoAck, ts, packets);
      SegmentOk(s0, n0, s', n - 1, isNoAck, ts, packets + [p]);
    }
  }

  // ---------------------------------------------------------------- sending operations

  lemma SendCloseOk(s: StreamState)
    requires SenderOk(s) && !s.status.New? && !s.status.Open?
    ensures var t := SendClose(s);
            QuietStep(s, t) && t.status == s.status
  {
    var t := SendClose(s);
    FlattenSnoc(s.h.log, []);
    OwnGrows(s, t, s.h.wire);
    OwnGrows(s, t, s.posted);
    OwnGrows(s, t, s.sent);
    if AcksOk(s) {
      if s.last >= 0 {
        assert AckOk(t, t.posted[|s.posted|]);
      }
      AcksGrow(s, t);
    }
  }

  /** The packets of one segmentation, remembered and put on the wire. */
  ghost function SegmentsOut(s1: StreamState, packets: seq<Packet>): StreamState {
    Emit(s1.(ackScheduled := false, sent := InsertAll(s1.sent, packets)), packets)
  }

  lemma SegmentsOwn(s1: StreamState, packets: seq<Packet>)
    requires SenderOk(s1) && AllOwn(s1, packets)
    ensures var t := SegmentsOut(s1, packets); AllOwn(t, t.h.wire) && AllOwn(t, t.sent) && AllOwn(t, t.posted)
  {
    var t := SegmentsOut(s1, packets);
    InsertAllMembers(s1.sent, packets);
    OwnGrows(s1, t, s1.h.wire);
    OwnGrows(s1, t, packets);
    OwnGrows(s1, t, s1.sent);
    OwnGrows(s1, t, s1.posted);
  }

  lemma SegmentsAcks(s: StreamState, s1: StreamState, packets: seq<Packet>)
    requires Segmented(s, s1, packets)
    ensures AcksOk(s) ==> AcksOk(SegmentsOut(s1, packets))
  {
    var t := SegmentsOut(s1, packets);
    InsertAllMembers(s1.sent, packets);
    if AcksOk(s) {
      forall p | p in packets && !t.h.blind ensures AckOk(t, p) {
        assert AckOk(s, p);
      }
      AcksGrow(s, t);
    }
  }

  lemma SegmentsSender(s: StreamState, s1: StreamState, packets: seq<Packet>)
    requires Segmented(s, s1, packets) && |packets| <= s.control.window - |s.sent|
    ensures SenderOk(SegmentsOut(s1, packets))
  {
    InsertAllOk(s1.sent, packets);
    InsertAllMembers(s1.sent, packets);
    SegmentsOwn(s1, packets);
  }

  lemma SegmentsAccounted(s: StreamState, s1: StreamState, packets: seq<Packet>)
    requires SenderOk(s) && Segmented(s, s1, packets)
    ensures forall n :: Accounted(s, n) ==> Accounted(SegmentsOut(s1, packets), n)
  {
    InsertAllOk(s1.sent, packets);
    var t := SegmentsOut(s1, packets);
    assert Seqns(t.sent) == Seqns(s.sent) + Seqns(packets);
    forall n: nat | Accounted(s, n) ensures Accounted(t, n) {
      if s.sequenceNumber <= n < t.sequenceNumber {
        assert n in Seqns(packets);
      }
    }
  }

  lemma SegmentsSent(s: StreamState, s1: StreamState, packets: seq<Packet>)
    requires SenderOk(s) && Segmented(s, s1, packets) && |packets| <= s.control.window - |s.sent|
    ensures QuietStep(s, SegmentsOut(s1, packets))
  {
    SegmentsSender(s, s1, packets);
    SegmentsAccounted(s, s1, packets);
    SegmentsAcks(s, s1, packets);
  }

  lemma NothingSegmented(s: StreamState, s1: StreamState)
    requires Segmented(s, s1, [])
    ensures QuietStep(s, s1)
  {
    assert s.sequenceNumber < s1.sequenceNumber ==> s.sequenceNumber in Seqns([]);
    if AcksOk(s) {
      AcksGrow(s, s1);
    }
  }

  lemma ClosedBehind(s: StreamState, s2: StreamState)
    requires QuietStep(s, s2) && !s2.status.New? && !s2.status.Open?
    ensures QuietStep(s, SendClose(s2))
  {
    SendCloseOk(s2);
    QuietTrans(s, s2, SendClose(s2));
  }

  lemma SendBufferOk(s: StreamState, ts: nat)
    requires SenderOk(s)
    ensures QuietStep(s, SendBuffer(s, ts))
  {
    var n := s.control.window - |s.sent|;
    if n > 0 {
      assert Segmenting(s, n, s, n, []);
      SegmentOk(s, n, s, n, s.last < 0, ts, []);
      var (s1, packets) := Segment(s, n, s.last < 0, ts, []);
      if packets != [] {
        SegmentsSent(s, s1, packets);
        var s2 := SegmentsOut(s1, packets);
        if s2.status.Closing? && s2.buffer.eof {
          ClosedBehind(s, s2);
        }
      } else {
        NothingSegmented(s, s1);
      }
    }
  }

  lemma SendPostedOk(s: StreamState)
    requires SenderOk(s)
    ensures var t := SendPosted(s);
            QuietStep(s, t)
  {
    if s.posted != [] {
      var t := SendPosted(s);
      if AcksOk(s) {
        AcksGrow(s, t);
      }
    }
  }

  /** Leaving the open states, or taking the stream out of the destination's table, touches nothing else. */
  lemma StatusOk(s: StreamState, status: Status, deleted: bool)
    requires SenderOk(s) && (status == s.status || (!status.New? && !status.Open?))
    ensures var t := s.(status := status, deleted := deleted);
            QuietStep(s, t)
  {
    var t := s.(status := status, deleted := deleted);
    OwnGrows(s, t, s.h.wire);
    OwnGrows(s, t, s.posted);
    OwnGrows(s, t, s.sent);
    if AcksOk(s) {
      AcksGrow(s, t);
    }
  }

  /** SendClose in the given final status. */
  lemma FinishOk(s: StreamState, status: Status)
    requires SenderOk(s) && !status.New? && !status.Open?
    ensures var t := SendClose(s.(status := status)).(deleted := true);
            QuietStep(s, t)
  {
    var s1 := s.(status := status);
    StatusOk(s, status, s.deleted);
    SendCloseOk(s1);
    var s2 := SendClose(s1);
    StatusOk(s2, s2.status, true);
    QuietTrans(s, s1, s2);
    QuietTrans(s, s2, s2.(deleted := true));
  }

  lemma CloseOk(s: StreamState)
    requires SenderOk(s)
    ensures var t := Close(s);
            QuietStep(s, t)
    decreases s.status.Open?
  {
    match s.status
    case Open =>
      StatusOk(s, Closing, s.deleted);
      CloseOk(s.(status := Closing));
      QuietTrans(s, s.(status := Closing), Close(s.(status := Closing)));
    case Reset =>
      assert s.(status := Reset) == s;
      FinishOk(s, Reset);
    case Closing =>
      if s.sent == [] && s.buffer.eof {
        FinishOk(s, Closed);
      }
    case Closed =>
      StatusOk(s, Closed, true);
      assert s.(status := Closed, deleted := true) == s.(deleted := true);
    case New =>
  }

  lemma WriteOwn(s: StreamState, buf: seq<byte>)
    requires SenderOk(s)
    ensures var t := Write(s, buf); AllOwn(t, t.h.wire) && AllOwn(t, t.posted) && AllOwn(t, t.sent)
  {
    var t := Write(s, buf);
    OwnGrows(s, t, s.h.wire);
    OwnGrows(s, t, s.posted);
    OwnGrows(s, t, s.sent);
  }

  lemma WriteSender(s: StreamState, buf: seq<byte>)
    requires SenderOk(s)
    ensures SenderOk(Write(s, buf))
  {
    Append(Flatten(s.h.log), s.buffer.pending, buf);
    WriteOwn(s, buf);
  }

  lemma WriteOk(s: StreamState, buf: seq<byte>)
    requires SenderOk(s)
    ensures var t := Write(s, buf);
            QuietStep(s, t) && t.h.submitted == s.h.submitted + buf
  {
    var t := Write(s, buf);
    WriteSender(s, buf);
    if AcksOk(s) {
      AcksGrow(s, t);
    }
  }

  // ---------------------------------------------------------------- processing an acknowledgement

  lemma AckOneOk(c: Control, p: Packet, ts: nat)
    requires MIN_WINDOW_SIZE <= c.window <= MAX_WINDOW_SIZE
    ensures MIN_WINDOW_SIZE <= AckOne(c, p, ts).window <= MAX_WINDOW_SIZE
  {
  }

  /** Only acknowledged packets leave the list, and the order of the others stays. */
  lemma {:induction false} AckScanOk(kept: seq<Packet>, rest: seq<Packet>, ack: Packet, ts: nat, c: Control,
                                     acknowledged: bool)
    requires Sorted(kept + rest) && MIN_WINDOW_SIZE <= c.window <= MAX_WINDOW_SIZE
    requires !ack.noAck
    ensures var r := AckScan(kept, rest, ack, ts, c, acknowledged);
            && Sorted(r.sent) && |r.sent| <= |kept + rest|
            && MIN_WINDOW_SIZE <= r.control.window <= MAX_WINDOW_SIZE
            && (forall p :: p in r.sent ==> p in kept + rest)
            && (forall p :: p in kept + rest ==> p in r.sent || Acknowledges(ack, p.seqn))
    decreases |rest|
  {
    if rest == [] || rest[0].seqn > ack.ackThrough {
    } else if rest[0].seqn in ack.nacks {
      assert kept + [rest[0]] + rest[1..] == kept + rest;
      AckScanOk(kept + [rest[0]], rest[1..], ack, ts, c, acknowledged);
    } else {
      AckOneOk(c, rest[0], ts);
      var all, less := kept + rest, kept + rest[1..];
      forall i, j | 0 <= i < j < |less| ensures less[i].seqn < less[j].seqn {
        assert less[i] == all[if i < |kept| then i else i + 1] && less[j] == all[if j < |kept| then j else j + 1];
      }
      AckScanOk(kept, rest[1..], ack, ts, AckOne(c, rest[0], ts), true);
      forall p | p in all ensures p == rest[0] || p in less {
        var i :| 0 <= i < |all| && all[i] == p;
        if i > |kept| {
          assert less[i - 1] == p;
        } else if i < |kept| {
          assert less[i] == p;
        }
      }
    }
  }

  lemma EraseOk(s: StreamState, ack: Packet, ts: nat, attempts: nat)
    requires SenderOk(s) && !ack.noAck
    ensures var r := AckScan([], s.sent, ack, ts, s.control, false);
            var t := s.(sent := r.sent, control := r.control, resendAttempts := attempts);
            && SenderOk(t) && (AcksOk(s) ==> AcksOk(t))
            && (forall n :: Accounted(s, n) ==> Accounted(t, n) || Drops(s, ack, n))
  {
    assert [] + s.sent == s.sent;
    AckScanOk([], s.sent, ack, ts, s.control, false);
    var r := AckScan([], s.sent, ack, ts, s.control, false);
    var t := s.(sent := r.sent, control := r.control, resendAttempts := attempts);
    OwnGrows(s, t, s.h.wire);
    OwnGrows(s, t, s.posted);
    OwnGrows(s, t, s.sent);
    if AcksOk(s) {
      AcksGrow(s, t);
    }
    forall n | Accounted(s, n) ensures Accounted(t, n) || Drops(s, ack, n) {
      SeqnsIn(s.sent, n);
      SeqnsIn(t.sent, n);
    }
  }

  /** A step in which numbers disappear from the books only because the packet being processed acknowledges them. */
  ghost predicate AckStep(s: StreamState, ack: Packet, t: StreamState) {
    && SenderOk(t) && Advances(s, t) && SameReceiver(s, t)
    && (AcksOk(s) ==> AcksOk(t))
    && (forall n :: Accounted(s, n) ==> Accounted(t, n) || Drops(s, ack, n))
  }

  lemma AckThenQuiet(s: StreamState, ack: Packet, t: StreamState, u: StreamState)
    requires AckStep(s, ack, t) && QuietStep(t, u)
    ensures AckStep(s, ack, u)
  {
  }

  /** A number disappears from the books only when the packet being processed acknowledges it. */
  lemma ProcessAckOk(s: StreamState, ack: Packet, ts: nat)
    requires SenderOk(s) && !ack.noAck
    ensures AckStep(s, ack, ProcessAck(s, ack, ts))
  {
    var r := AckScan([], s.sent, ack, ts, s.control, false);
    var attempts := if r.acknowledged then 0 else s.resendAttempts;
    var s1 := s.(sent := r.sent, control := r.control, resendAttempts := attempts);
    EraseOk(s, ack, ts, attempts);
    if r.acknowledged {
      SendBufferOk(s1, ts);
      AckThenQuiet(s, ack, s1, SendBuffer(s1, ts));
    }
    var s2 := if r.acknowledged then SendBuffer(s1, ts) else s1;
    CloseOk(s2);
    AckThenQuiet(s, ack, s2, Close(s2));
  }

  // ---------------------------------------------------------------- building an acknowledgement

  lemma {:induction false} RangeMembers(lo: nat, hi: nat)
    ensures forall n :: n in Range(lo, hi) <==> lo <= n < hi
    ensures |Range(lo, hi)| == if lo <= hi then hi - lo else 0 as int
    decreases hi - lo
  {
    if lo < hi {
      RangeMembers(lo + 1, hi);
    }
  }

  /** Numbers from next up to the highest saved one that are not saved. */
  ghost function Gaps(saved: seq<Packet>, next: nat): int {
    if saved == [] then 0 else saved[|saved| - 1].seqn + 1 - next - |saved|
  }

  lemma {:induction false} GapsNonNegative(saved: seq<Packet>, next: nat)
    requires Sorted(saved) && AtLeast(saved, next)
    ensures Gaps(saved, next) >= 0
  {
    if |saved| > 1 {
      forall i | 0 <= i < |saved[1..]| ensures saved[1..][i].seqn >= next + 1 {
        assert saved[0].seqn < saved[i + 1].seqn;
      }
      GapsNonNegative(saved[1..], next + 1);
    }
  }

  lemma GapsCons(saved: seq<Packet>, next: nat)
    requires saved != []
    ensures Gaps(saved, next) == saved[0].seqn - next + Gaps(saved[1..], saved[0].seqn + 1)
  {
  }

  /** n lies between next and the highest saved number, and is not saved. */
  ghost predicate Lacks(saved: seq<Packet>, next: nat, n: nat) {
    saved != [] && next <= n <= saved[|saved| - 1].seqn && n !in Seqns(saved)
  }

  lemma LacksCons(saved: seq<Packet>, next: nat)
    requires Sorted(saved) && saved != [] && saved[0].seqn >= next
    ensures forall n: nat :: Lacks(saved, next, n) <==>
              next <= n < saved[0].seqn || Lacks(saved[1..], saved[0].seqn + 1, n)
  {
    assert saved == [saved[0]] + saved[1..];
    SeqnsCons(saved[0], saved[1..]);
    forall n: nat | next <= n < saved[0].seqn ensures n !in Seqns(saved[1..]) {
    }
    if |saved| > 1 {
      assert saved[0].seqn < saved[|saved| - 1].seqn;
    }
  }

  lemma TailAbove(saved: seq<Packet>)
    requires Sorted(saved) && saved != []
    ensures Sorted(saved[1..]) && AtLeast(saved[1..], saved[0].seqn + 1)
  {
    forall i | 0 <= i < |saved[1..]| ensures saved[1..][i].seqn >= saved[0].seqn + 1 {
      assert saved[0].seqn < saved[i + 1].seqn;
    }
  }

  /** The NACK loop is cut short exactly if the list would exceed 255 entries. */
  lemma {:induction false} FillNacksCut(saved: seq<Packet>, next: nat, nacks: seq<nat>)
    requires Sorted(saved) && AtLeast(saved, next)
    requires |nacks| < MAX_NACKS
    ensures FillNacks(saved, next, nacks).cut <==> |nacks| + Gaps(saved, next) >= MAX_NACKS
    decreases |saved|
  {
    if saved == [] {
    } else {
      var seqn, rest := saved[0].seqn, saved[1..];
      TailAbove(saved);
      GapsNonNegative(rest, seqn + 1);
      GapsCons(saved, next);
      if |nacks| + (seqn - next) < MAX_NACKS {
        RangeMembers(next, seqn);
        FillNacksCut(rest, seqn + 1, nacks + Range(next, seqn));
      }
    }
  }

  /** Uncut, the list holds exactly the missing numbers; cut, the number it stops at is missing and not listed. */
  lemma {:induction false} FillNacksOk(saved: seq<Packet>, next: nat, nacks: seq<nat>)
    requires Sorted(saved) && AtLeast(saved, next)
    requires |nacks| < MAX_NACKS && (forall n :: n in nacks ==> n < next)
    ensures var r := FillNacks(saved, next, nacks);
            && (r.cut ==> Lacks(saved, next, r.next) && r.next !in r.nacks)
            && (!r.cut ==> forall n: nat :: n in r.nacks <==> n in nacks || Lacks(saved, next, n))
    decreases |saved|
  {
    if saved == [] {
    } else {
      var seqn, rest := saved[0].seqn, saved[1..];
      TailAbove(saved);
      LacksCons(saved, next);
      if |nacks| + (seqn - next) < MAX_NACKS {
        RangeMembers(next, seqn);
        FillNacksOk(rest, seqn + 1, nacks + Range(next, seqn));
      }
    }
  }

  /** The ack claims about every number up to its ackThrough exactly what is the case. */
  ghost predicate ExactAck(s: StreamState, ack: Packet) {
    forall n: nat :: n <= ack.ackThrough ==> (Acknowledges(ack, n) <==> Received(s, n))
  }

  /** How many numbers below the highest received one are missing. */
  ghost function Missing(s: StreamState): int {
    if HighestReceived(s) > s.last then Gaps(s.saved, s.last + 1) else 0
  }

  /**
   SendQuickAck decodes to exactly the received numbers if and only if at most 255 are missing, which is exactly when
   its NACK list is not cut; and then it reaches up to the highest received number.
   */
  lemma QuickAckExact(s: StreamState)
    requires ReceiverOk(s) && HighestReceived(s) >= 0
    ensures var (p, isCut) := QuickAck(s);
            && (isCut <==> Missing(s) >= MAX_NACKS)
            && (ExactAck(s, p) <==> Missing(s) < MAX_NACKS)
            && (!isCut ==> p.ackThrough == HighestReceived(s) && AckOk(s, p))
  {
    var (p, isCut) := QuickAck(s);
    forall i | 0 <= i < |s.saved| ensures s.saved[i].seqn >= s.last + 1 {
      assert s.saved[i] in s.saved;
    }
    FillNacksOk(s.saved, s.last + 1, []);
    FillNacksCut(s.saved, s.last + 1, []);
    if HighestReceived(s) > s.last {
      if isCut {
        assert Acknowledges(p, p.ackThrough) && !Received(s, p.ackThrough);
      }
    } else {
      assert forall n :: Acknowledges(p, n) ==> Received(s, n);
    }
  }

  lemma SendQuickAckOk(s: StreamState)
    requires SenderOk(s) && ReceiverOk(s)
    ensures var t := SendQuickAck(s);
            QuietStep(s, t) && (t.h.cut <==> s.h.cut || Missing(s) >= MAX_NACKS)
  {
    var t := SendQuickAck(s);
    if HighestReceived(s) >= 0 {
      QuickAckExact(s);
      var (p, isCut) := QuickAck(s);
      OwnGrows(s, t, s.h.wire);
      assert AllOwn(t, t.h.wire);
      if AcksOk(s) {
        if !isCut {
          forall n | Acknowledges(p, n) ensures Received(t, n) {
            assert Received(s, n);
          }
          assert AckOk(t, p);
        }
        AcksGrow(s, t);
      }
    }
  }

  // ---------------------------------------------------------------- receiving

  /** The payload and number of a packet enter the receiving side. */
  lemma AcceptOk(s: StreamState, p: Packet)
    requires SenderOk(s)
    ensures var t := s.(receiveQueue := if p.payload == [] then s.receiveQueue else s.receiveQueue + [p.payload],
                        last := p.seqn, h := s.h.(accepted := s.h.accepted + [p.seqn]));
            && SenderOk(t) && SenderStep(s, t) && Flatten(t.receiveQueue) == Flatten(s.receiveQueue) + p.payload
            && (AcksOk(s) && p.seqn >= s.last ==> AcksOk(t))
  {
    var t := s.(receiveQueue := if p.payload == [] then s.receiveQueue else s.receiveQueue + [p.payload],
                last := p.seqn, h := s.h.(accepted := s.h.accepted + [p.seqn]));
    FlattenSnoc(s.receiveQueue, p.payload);
    OwnGrows(s, t, s.h.wire);
    OwnGrows(s, t, s.posted);
    OwnGrows(s, t, s.sent);
    if AcksOk(s) && p.seqn >= s.last {
      AcksGrow(s, t);
    }
  }

  /** What one packet leaves in the receive queue and in the history of the receiving side. */
  lemma ProcessPacketContent(s: StreamState, p: Packet)
    ensures var t := ProcessPacket(s, p);
            && t.h.cut == s.h.cut && t.saved == s.saved && t.last == p.seqn
            && t.h.accepted == s.h.accepted + [p.seqn] && t.h.delivered == s.h.delivered
            && Flatten(t.receiveQueue) == Flatten(s.receiveQueue) + p.payload
  {
    FlattenSnoc(s.receiveQueue, p.payload);
    CloseKeepsReceiver(s);
    var s1 := if p.badSignature then Close(s) else s;
    CloseKeepsReceiver(s1.(receiveQueue := if p.payload == [] then s1.receiveQueue else s1.receiveQueue + [p.payload],
                     last := p.seqn, h := s1.h.(accepted := s1.h.accepted + [p.seqn]), status := Reset));
  }

  /** One packet enters the receive queue. */
  lemma ProcessPacketOk(s: StreamState, p: Packet)
    requires SenderOk(s)
    ensures var t := ProcessPacket(s, p);
            SenderOk(t) && SenderStep(s, t) && (AcksOk(s) && p.seqn >= s.last ==> AcksOk(t))
  {
    var s1 := if p.badSignature then Close(s) else s;
    CloseOk(s);
    AcceptOk(s1, p);
    var s2 := s1.(receiveQueue := if p.payload == [] then s1.receiveQueue else s1.receiveQueue + [p.payload],
                  last := p.seqn, h := s1.h.(accepted := s1.h.accepted + [p.seqn]));
    SenderStepTrans(s, s1, s2);
    if p.close || p.reset || p.badSignature {
      ResetOk(s2);
      SenderStepTrans(s, s2, Close(s2.(status := Reset)));
    }
  }

  /** The way out of a stream: status Reset, then Close. */
  lemma ResetOk(s: StreamState)
    requires SenderOk(s)
    ensures var t := Close(s.(status := Reset));
            QuietStep(s, t) && t.h.cut == s.h.cut
  {
    FinishOk(s, Reset);
    CloseKeepsReceiver(s.(status := Reset));
  }

  // ---------------------------------------------------------------- timers and reading

  lemma {:induction false} RenewedOk(sent: seq<Packet>, ts: nat, rto: int)
    ensures var r := Renewed(sent, ts, rto);
            forall i :: 0 <= i < |sent| ==> r[i] == sent[i] || r[i] == sent[i].(sendTime := ts)
    ensures forall p :: p in ToResend(sent, ts, rto) ==> exists q :: q in sent && p == q.(sendTime := ts)
  {
    if sent == [] {
    } else {
      var n := |sent| - 1;
      RenewedOk(sent[..n], ts, rto);
      forall p | p in ToResend(sent, ts, rto) ensures exists q :: q in sent && p == q.(sendTime := ts) {
        if p in ToResend(sent[..n], ts, rto) {
          var q :| q in sent[..n] && p == q.(sendTime := ts);
          assert q in sent;
        } else {
          assert sent[n] in sent && p == sent[n].(sendTime := ts);
        }
      }
    }
  }

  lemma ResendOk(s: StreamState, ts: nat)
    requires SenderOk(s)
    ensures var t := HandleResendTimer(s, ts);
            QuietStep(s, t) && t.h.cut == s.h.cut
  {
    if s.resendAttempts >= MAX_NUM_RESEND_ATTEMPTS {
      ResetOk(s);
    } else {
      var packets := ToResend(s.sent, ts, s.control.rto);
      if packets != [] {
        RenewedSentOk(s, ts);
      }
    }
  }

  /** The remembered packet behind a resent one. */
  ghost function Original(s: StreamState, ts: nat, p: Packet): (q: Packet)
    requires p in Renewed(s.sent, ts, s.control.rto) || p in ToResend(s.sent, ts, s.control.rto)
    ensures q in s.sent && (p == q || p == q.(sendTime := ts))
  {
    RenewedOk(s.sent, ts, s.control.rto);
    var q :| q in s.sent && (p == q || p == q.(sendTime := ts));
    q
  }

  function Resent(s: StreamState, ts: nat): StreamState {
    Emit(s.(sent := Renewed(s.sent, ts, s.control.rto), resendAttempts := s.resendAttempts + 1,
            control := BackOff(s.control, s.resendAttempts + 1)),
         ToResend(s.sent, ts, s.control.rto))
  }

  lemma ResentWindow(s: StreamState, ts: nat)
    requires SenderOk(s)
    ensures WindowOk(Resent(s, ts)) && Seqns(Resent(s, ts).sent) == Seqns(s.sent)
  {
    var sent' := Renewed(s.sent, ts, s.control.rto);
    RenewedOk(s.sent, ts, s.control.rto);
    forall n | n in Seqns(s.sent) ensures n in Seqns(sent') {
      var i :| 0 <= i < |s.sent| && s.sent[i].seqn == n;
      assert sent'[i].seqn == n;
    }
    forall p | p in sent' ensures p.seqn < s.sequenceNumber {
      var q := Original(s, ts, p);
    }
  }

  lemma ResentOwn(s: StreamState, ts: nat)
    requires SenderOk(s)
    ensures var t := Resent(s, ts); AllOwn(t, t.h.wire) && AllOwn(t, t.posted) && AllOwn(t, t.sent)
  {
    var t := Resent(s, ts);
    OwnGrows(s, t, s.posted);
    OwnGrows(s, t, s.h.wire);
    forall p | p in Renewed(s.sent, ts, s.control.rto) || p in ToResend(s.sent, ts, s.control.rto) ensures OwnPacket(t, p) {
      assert OwnPacket(s, Original(s, ts, p));
    }
  }

  lemma ResentAcks(s: StreamState, ts: nat)
    requires AcksOk(s)
    ensures AcksOk(Resent(s, ts))
  {
    var t := Resent(s, ts);
    if !t.h.blind && !t.h.cut {
      forall p | p in Renewed(s.sent, ts, s.control.rto) || p in ToResend(s.sent, ts, s.control.rto) ensures AckOk(t, p) {
        var q := Original(s, ts, p);
        assert AckOk(s, q);
        forall n | Acknowledges(p, n) ensures Received(t, n) {
          assert Acknowledges(q, n);
        }
      }
    }
    AcksGrow(s, t);
  }

  lemma RenewedSentOk(s: StreamState, ts: nat)
    requires SenderOk(s)
    ensures QuietStep(s, Resent(s, ts))
  {
    ResentWindow(s, ts);
    ResentOwn(s, ts);
    if AcksOk(s) {
      ResentAcks(s, ts);
    }
  }

  lemma AckTimerOk(s: StreamState)
    requires SenderOk(s) && ReceiverOk(s)
    ensures var t := HandleAckSendTimer(s);
            QuietStep(s, t) && (t.h.cut ==> s.h.cut || Missing(s) >= MAX_NACKS)
  {
    if s.ackScheduled {
      if s.last < 0 {
        ResetOk(s);
      } else {
        SendQuickAckOk(s);
        var s1 := if s.status.Open? then SendQuickAck(s) else s;
        ScheduleOk(s1, false);
      }
    }
  }

  lemma ScheduleOk(s: StreamState, scheduled: bool)
    requires SenderOk(s)
    ensures var t := s.(ackScheduled := scheduled);
            QuietStep(s, t)
  {
    var t := s.(ackScheduled := scheduled);
    OwnGrows(s, t, s.h.wire);
    OwnGrows(s, t, s.posted);
    OwnGrows(s, t, s.sent);
    if AcksOk(s) {
      AcksGrow(s, t);
    }
  }

  /** ConcatenatePackets hands out the queued bytes in order, and stops early only for lack of room or of bytes. */
  lemma {:induction false} ConcatenateOk(queue: seq<seq<byte>>, len: nat, out: seq<byte>)
    requires |out| <= len
    ensures var (r, rest) := Concatenate(queue, len, out);
            && r + Flatten(rest) == out + Flatten(queue)
            && |r| <= len && (|r| == len || rest == [])
    decreases |queue|
  {
    if |out| == len || queue == [] {
    } else {
      var l := if |queue[0]| <= len - |out| then |queue[0]| else len - |out|;
      assert queue[0] == queue[0][..l] + queue[0][l..];
      if l == |queue[0]| {
        ConcatenateOk(queue[1..], len, out + queue[0]);
      } else {
        var rest := [queue[0][l..]] + queue[1..];
        assert rest[1..] == queue[1..];
        assert out + queue[0][..l] + (queue[0][l..] + Flatten(queue[1..])) == out + (queue[0] + Flatten(queue[1..]));
      }
    }
  }

  lemma ReadSomeOk(s: StreamState, len: nat)
    requires SenderOk(s)
    ensures var (out, t) := ReadSome(s, len);
            && SenderOk(t) && SenderStep(s, t) && t.h.cut == s.h.cut
            && t.last == s.last && t.saved == s.saved && t.h.accepted == s.h.accepted
            && t.h.delivered + Flatten(t.receiveQueue) == s.h.delivered + Flatten(s.receiveQueue)
            && (AcksOk(s) ==> AcksOk(t))
  {
    var (out, t) := ReadSome(s, len);
    ConcatenateOk(s.receiveQueue, len, []);
    assert s.h.delivered + out + Flatten(t.receiveQueue) == s.h.delivered + (out + Flatten(t.receiveQueue));
    OwnGrows(s, t, s.h.wire);
    OwnGrows(s, t, s.posted);
    OwnGrows(s, t, s.sent);
    if AcksOk(s) {
      AcksGrow(s, t);
    }
  }
}
