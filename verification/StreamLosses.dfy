/**
 Exactly when a run of two stream ends keeps its promises: numbers stay in
 order as long as no end is handed a stale SYN, and no number is lost as long as
 no end is handed an acknowledgement of something its peer does not have.
 */
module StreamLosses {
  import opened Bytes
  import opened Streaming
  import opened StreamInvariants
  import opened StreamRuns
  import opened StreamLimits

  // ---------------------------------------------------------------- order

  /** Both ends have processed the numbers up to the last one in order, each once. */
  ghost predicate Numbered(s: System) {
    s.a.h.accepted == Range(0, s.a.last + 1) && s.b.h.accepted == Range(0, s.b.last + 1)
  }

  ghost predicate AlwaysNumbered(s: System, moves: seq<Move>)
    decreases |moves|
  {
    Numbered(s) && (moves != [] ==> AlwaysNumbered(Apply(s, moves[0]), moves[1..]))
  }

  /** A SYN handed to an end that has processed something spoils the order. */
  lemma StaleSyn(own: StreamState, peer: StreamState, e: Event)
    requires SenderOk(own) && ReceiverOk(own) && SenderOk(peer) && !Fresh(own, peer, e)
    requires own.h.accepted == Range(0, own.last + 1)
    ensures var t := After(own, peer, e); t.h.accepted != Range(0, t.last + 1)
  {
    var p, ts := peer.h.wire[e.k], e.ts;
    assert p in peer.h.wire && OwnPacket(peer, p);
    var s0 := if own.sendStreamID == 0 then own.(sendStreamID := p.receiveStreamID) else own;
    IdOk(own, p.receiveStreamID);
    if !p.noAck {
      ProcessAckOk(s0, p, ts);
    }
    RepeatedSyn(if p.noAck then s0 else ProcessAck(s0, p, ts), p, ts);
    RangeLength(own.last + 1);
    RangeLength(1);
  }

  lemma {:induction false} NumberedExactly(s: System, moves: seq<Move>)
    requires Base(s) && Direction(s.a, s.b) && Direction(s.b, s.a)
    ensures AlwaysNumbered(s, moves) <==> SynOnce(s, moves)
    decreases |moves|
  {
    if moves == [] {
    } else {
      MoveOk(s, moves[0]);
      if FreshMove(s, moves[0]) {
        NumberedExactly(Apply(s, moves[0]), moves[1..]);
      } else {
        var own, peer := if moves[0].atA then s.a else s.b, if moves[0].atA then s.b else s.a;
        StaleSyn(own, peer, moves[0].event);
      }
    }
  }

  /**
   In every state of a run both ends have processed numbers in order, each once, if and only if no end is handed a SYN
   after it has processed something.
   */
  lemma InOrderExactly(u: Setup, moves: seq<Move>)
    ensures AlwaysNumbered(Start(u), moves) <==> SynOnce(Start(u), moves)
  {
    StartOk(u);
    NumberedExactly(Start(u), moves);
  }

  // ---------------------------------------------------------------- forgotten numbers

  /** Number n was assigned and is in none of the sender's books. */
  ghost predicate Gone(s: StreamState, n: nat) { n < s.sequenceNumber && n !in Seqns(s.sent) && n !in s.h.fins }

  lemma {:induction false} InsertAllSeqns(ps: seq<Packet>, qs: seq<Packet>)
    ensures Seqns(InsertAll(ps, qs)) <= Seqns(ps) + Seqns(qs)
    decreases |qs|
  {
    if qs == [] {
    } else {
      InsertSeqns(ps, qs[0]);
      InsertAllSeqns(Insert(ps, qs[0]), qs[1..]);
      SeqnsCons(qs[0], qs[1..]);
      assert qs == [qs[0]] + qs[1..];
    }
  }

  /** The segmentation loop numbers its packets upwards from the next number. */
  lemma {:induction false} SegmentNumbers(s: StreamState, n: int, isNoAck: bool, ts: nat, packets: seq<Packet>, k: nat)
    requires k < s.sequenceNumber && k !in Seqns(packets)
    ensures var (t, all) := Segment(s, n, isNoAck, ts, packets);
            t.sent == s.sent && t.h.fins == s.h.fins && k < t.sequenceNumber && k !in Seqns(all)
    decreases s.status.New?, if n > 0 then n else 0
  {
    if MoreToSegment(s, n) {
      var (s', p) := NextSegment(s, isNoAck, ts);
      forall i | 0 <= i < |packets + [p]| ensures (packets + [p])[i].seqn != k {
      }
      SegmentNumbers(s', n - 1, isNoAck, ts, packets + [p], k);
    }
  }

  lemma SendBufferGone(s: StreamState, ts: nat, k: nat)
    requires Gone(s, k)
    ensures Gone(SendBuffer(s, ts), k)
  {
    var n := s.control.window - |s.sent|;
    if n > 0 {
      SegmentNumbers(s, n, s.last < 0, ts, [], k);
      var (s1, packets) := Segment(s, n, s.last < 0, ts, []);
      InsertAllSeqns(s1.sent, packets);
    }
  }

  lemma CloseGone(s: StreamState, k: nat)
    requires Gone(s, k)
    ensures Gone(Close(s), k)
    decreases s.status.Open?
  {
    if s.status.Open? {
      CloseGone(s.(status := Closing), k);
    }
  }

  lemma ProcessPacketGone(s: StreamState, p: Packet, k: nat)
    requires Gone(s, k)
    ensures Gone(ProcessPacket(s, p), k)
  {
    CloseGone(s, k);
    var s1 := if p.badSignature then Close(s) else s;
    CloseGone(s1.(receiveQueue := if p.payload == [] then s1.receiveQueue else s1.receiveQueue + [p.payload],
                  last := p.seqn, h := s1.h.(accepted := s1.h.accepted + [p.seqn]), status := Reset), k);
  }

  lemma {:induction false} DrainGone(s: StreamState, k: nat)
    requires Gone(s, k)
    ensures Gone(Drain(s), k)
    decreases |s.saved|
  {
    if s.saved != [] && s.saved[0].seqn == s.last + 1 {
      var s1 := s.(saved := s.saved[1..]);
      ProcessPacketGone(s1, s.saved[0], k);
      ProcessPacketKeepsSaved(s1, s.saved[0]);
      DrainGone(ProcessPacket(s1, s.saved[0]), k);
    }
  }

  lemma ReceiveGone(s: StreamState, p: Packet, ts: nat, k: nat)
    requires Gone(s, k)
    ensures Gone(Receive(s, p, ts), k)
  {
    ProcessPacketGone(s, p, k);
    DrainGone(ProcessPacket(s, p), k);
    SendBufferGone(Drain(ProcessPacket(s, p)), ts, k);
  }

  /** The erasing loop erases every acknowledged packet. */
  lemma {:induction false} AckScanErases(kept: seq<Packet>, rest: seq<Packet>, ack: Packet, ts: nat, c: Control,
                                         any: bool, k: nat)
    requires Sorted(rest) && k !in Seqns(kept) && Acknowledges(ack, k)
    ensures k !in Seqns(AckScan(kept, rest, ack, ts, c, any).sent)
    decreases |rest|
  {
    if rest == [] || rest[0].seqn > ack.ackThrough {
      forall i | 0 <= i < |kept + rest| ensures (kept + rest)[i].seqn != k {
        if i > |kept| {
          assert rest[0].seqn < rest[i - |kept|].seqn;
        }
      }
    } else if rest[0].seqn in ack.nacks {
      forall i | 0 <= i < |kept + [rest[0]]| ensures (kept + [rest[0]])[i].seqn != k {
      }
      AckScanErases(kept + [rest[0]], rest[1..], ack, ts, c, any, k);
    } else {
      AckScanErases(kept, rest[1..], ack, ts, AckOne(c, rest[0], ts), true, k);
    }
  }

  lemma ProcessAckForgets(s: StreamState, ack: Packet, ts: nat, k: nat)
    requires WindowOk(s) && Drops(s, ack, k) && k !in s.h.fins
    ensures Gone(ProcessAck(s, ack, ts), k)
  {
    AckScanErases([], s.sent, ack, ts, s.control, false, k);
    var r := AckScan([], s.sent, ack, ts, s.control, false);
    var s1 := s.(sent := r.sent, control := r.control);
    SeqnsIn(s.sent, k);
    SendBufferGone(s1.(resendAttempts := 0), ts, k);
    CloseGone(if r.acknowledged then SendBuffer(s1.(resendAttempts := 0), ts) else s1, k);
  }

  /** A packet that makes its receiver forget a number makes it forget that number for good. */
  lemma HandleForgets(s: StreamState, p: Packet, ts: nat, k: nat)
    requires SenderOk(s) && Drops(s, p, k) && k !in s.h.fins
    ensures Gone(HandleNextPacket(s, p, ts), k)
  {
    var s0 := if s.sendStreamID == 0 then s.(sendStreamID := p.receiveStreamID) else s;
    ProcessAckForgets(s0, p, ts, k);
    ReceiveGone(ProcessAck(s0, p, ts), p, ts, k);
  }

  // ---------------------------------------------------------------- losses

  /** The guard: every kept number the delivered packet acknowledges has been received by its sender, or closes. */
  ghost predicate Truthful(own: StreamState, peer: StreamState, e: Event) {
    forall n: nat :: AckedBy(own, peer, e, n) ==> Received(peer, n) || n in own.h.fins
  }

  ghost predicate TruthfulMove(s: System, m: Move) {
    if m.atA then Truthful(s.a, s.b, m.event) else Truthful(s.b, s.a, m.event)
  }

  ghost predicate AcksTrue(s: System, moves: seq<Move>)
    decreases |moves|
  {
    moves == [] || (TruthfulMove(s, moves[0]) && AcksTrue(Apply(s, moves[0]), moves[1..]))
  }

  ghost predicate AllKept(s: System) { NoneLost(s.a, s.b) && NoneLost(s.b, s.a) }

  ghost predicate AlwaysKept(s: System, moves: seq<Move>)
    decreases |moves|
  {
    AllKept(s) && (moves != [] ==> AlwaysKept(Apply(s, moves[0]), moves[1..]))
  }

  lemma TruthKeeps(x: StreamState, y: StreamState, e: Event)
    requires SenderOk(x) && ReceiverOk(x) && SenderOk(y) && NoneLost(x, y) && Truthful(x, y, e)
    ensures NoneLost(After(x, y, e), y)
  {
    var x' := After(x, y, e);
    EventOk(x, y, e);
    forall n: nat | n < x'.sequenceNumber ensures Received(y, n) || n in Seqns(x'.sent) || n in x'.h.fins {
      if !Received(y, n) {
        assert Accounted(x, n);
      }
    }
  }

  lemma LieLoses(x: StreamState, y: StreamState, e: Event)
    requires SenderOk(x) && !Truthful(x, y, e)
    ensures !NoneLost(After(x, y, e), y)
  {
    var n: nat :| AckedBy(x, y, e, n) && !Received(y, n) && n !in x.h.fins;
    HandleForgets(x, y.h.wire[e.k], e.ts, n);
    assert Gone(After(x, y, e), n);
  }

  /** A move keeps all numbers if and only if it hands over no untrue acknowledgement. */
  lemma MoveKeepsExactly(s: System, m: Move)
    requires Base(s) && Direction(s.a, s.b) && Direction(s.b, s.a) && FreshMove(s, m) && AllKept(s)
    ensures AllKept(Apply(s, m)) <==> TruthfulMove(s, m)
  {
    var own, peer := if m.atA then s.a else s.b, if m.atA then s.b else s.a;
    EventOk(own, peer, m.event);
    var own' := After(own, peer, m.event);
    assert NoneLost(peer, own') by {
      forall n: nat | n < peer.sequenceNumber
        ensures Received(own', n) || n in Seqns(peer.sent) || n in peer.h.fins
      {
        assert Received(own, n) ==> Received(own', n);
      }
    }
    if TruthfulMove(s, m) {
      TruthKeeps(own, peer, m.event);
    } else {
      LieLoses(own, peer, m.event);
    }
  }

  lemma {:induction false} KeptExactly(s: System, moves: seq<Move>)
    requires Base(s) && Direction(s.a, s.b) && Direction(s.b, s.a) && SynOnce(s, moves) && AllKept(s)
    ensures AlwaysKept(s, moves) <==> AcksTrue(s, moves)
    decreases |moves|
  {
    if moves == [] {
    } else {
      MoveOk(s, moves[0]);
      MoveKeepsExactly(s, moves[0]);
      if TruthfulMove(s, moves[0]) {
        KeptExactly(Apply(s, moves[0]), moves[1..]);
      } else {
        assert !AllKept(Apply(s, moves[0]));
      }
    }
  }

  /**
   In every state of a run every number ever assigned has been received by the peer, is still kept for resending, or
   belongs to a closing packet, if and only if no end is handed an acknowledgement of a kept number its peer has not
   received.
   */
  lemma NothingLostExactly(u: Setup, moves: seq<Move>)
    requires SynOnce(Start(u), moves)
    ensures AlwaysKept(Start(u), moves) <==> AcksTrue(Start(u), moves)
  {
    StartOk(u);
    KeptExactly(Start(u), moves);
  }
}
