/**
 The branches of a stream that depart from the intent, with the exact
 conditions under which they do.
 */
module StreamLimits {
  import opened Bytes
  import opened Streaming
  import opened StreamInvariants
  import opened StreamRuns

  lemma RangeLength(n: nat)
    ensures |Range(0, n)| == n
  {
    RangeMembers(0, n);
  }

  lemma RepeatedSyn(s: StreamState, p: Packet, ts: nat)
    requires SenderOk(s) && ReceiverOk(s) && s.h.accepted == Range(0, s.last + 1)
    requires p.syn && p.seqn == 0 && s.last >= 0
    ensures var t := Receive(s, p, ts); t.last == 0 && t.h.accepted == Range(0, s.last + 1) + [0]
  {
    var s1 := ProcessPacket(s, p);
    ProcessPacketOk(s, p);
    ProcessPacketContent(s, p);
    assert s1.saved != [] ==> s1.saved[0] in s.saved;
    assert Drain(s1) == s1;
    SendBufferOk(s1, ts);
  }

  lemma FirstSyn(s: StreamState, p: Packet, ts: nat)
    requires SenderOk(s) && ReceiverOk(s) && s.h.accepted == Range(0, s.last + 1)
    requires p.syn && p.seqn == 0 && s.last < 0
    ensures var t := Receive(s, p, ts); t.h.accepted == Range(0, t.last + 1)
  {
    var s1 := ProcessPacket(s, p);
    ProcessPacketOk(s, p);
    ProcessPacketContent(s, p);
    RangeSnoc(0, 0);
    assert Range(0, 0) == [];
    DrainInOrder(s1);
    assert Above(s1.saved, s1.last) by {
      assert Above(s.saved, s.last + 1);
    }
    DrainOk([], s1);
    SendBufferOk(Drain(s1), ts);
  }

  /**
   A SYN keeps the numbers processed so far in order, each once, if and only if nothing had been processed before: a
   repeated SYN is processed again and moves the last received number back to 0.
   */
  lemma SynExactlyOnce(s: StreamState, p: Packet, ts: nat)
    requires SenderOk(s) && ReceiverOk(s) && s.h.accepted == Range(0, s.last + 1)
    requires p.syn && p.seqn == 0
    ensures var t := Receive(s, p, ts); t.h.accepted == Range(0, t.last + 1) <==> s.last < 0
  {
    if s.last >= 0 {
      RepeatedSyn(s, p, ts);
      RangeLength(s.last + 1);
      RangeLength(1);
    } else {
      FirstSyn(s, p, ts);
    }
  }

  lemma {:induction false} DrainInOrder(s: StreamState)
    requires s.h.accepted == Range(0, s.last + 1)
    ensures var t := Drain(s); t.h.accepted == Range(0, t.last + 1)
    decreases |s.saved|
  {
    if s.saved != [] && s.saved[0].seqn == s.last + 1 {
      var s1 := s.(saved := s.saved[1..]);
      ProcessPacketContent(s1, s.saved[0]);
      RangeSnoc(0, s.last + 1);
      DrainInOrder(ProcessPacket(s1, s.saved[0]));
    }
  }

  /** SendBuffer has a follow-on packet to build: the guard of the branch without NO_ACK flag. */
  predicate SendsFollowOn(s: StreamState) {
    var slots := s.control.window - |s.sent|;
    s.sendStreamID != 0 &&
    if s.status.New? then slots > 1 && !ReadBuffer(s.buffer, s.synCapacity).1.eof
    else slots > 0 && !s.buffer.eof
  }

  ghost predicate AllTrue(s: StreamState, ps: seq<Packet>) { forall p :: p in ps ==> AckOk(s, p) }

  /** What a step from s to t put on the wire or posted. */
  ghost function Added(s: StreamState, t: StreamState): seq<Packet>
    requires s.h.wire <= t.h.wire && s.posted <= t.posted
  {
    t.h.wire[|s.h.wire|..] + t.posted[|s.posted|..]
  }

  /** The 32-bit pattern of -1 without NO_ACK flag claims number 0, which nobody has before the SYN was processed. */
  lemma BlindIsUntrue(s: StreamState, p: Packet)
    requires ReceiverOk(s) && s.last < 0 && p.ackThrough == NO_SEQN && p.nacks == [] && !p.noAck
    ensures !AckOk(s, p)
  {
    assert Acknowledges(p, 0) && !Received(s, 0);
  }

  lemma SegmentTrue(s: StreamState, isNoAck: bool, ts: nat)
    requires ReceiverOk(s) && isNoAck == (s.last < 0)
    ensures AckOk(s, NextSegment(s, isNoAck, ts).1) <==> s.status.New? || !isNoAck
  {
    var p := NextSegment(s, isNoAck, ts).1;
    if !s.status.New? && isNoAck {
      BlindIsUntrue(s, p);
    }
  }

  lemma AllTrueSnoc(s: StreamState, ps: seq<Packet>, p: Packet)
    ensures AllTrue(s, ps + [p]) <==> AllTrue(s, ps) && AckOk(s, p)
  {
    if AllTrue(s, ps + [p]) {
      forall q | q in ps ensures AckOk(s, q) {
        assert q in ps + [p];
      }
      assert p in ps + [p];
    }
  }

  /** After the initial packet, the loop stays truthful exactly if it has nothing to add or a SYN was processed. */
  lemma {:induction false} SegmentsTrue(s0: StreamState, s: StreamState, n: int, isNoAck: bool, ts: nat,
                                        packets: seq<Packet>)
    requires ReceiverOk(s0) && SameReceiver(s0, s) && !s.status.New? && isNoAck == (s0.last < 0)
    ensures var (t, all) := Segment(s, n, isNoAck, ts, packets);
            && (AllTrue(s0, all) <==> AllTrue(s0, packets) && (isNoAck ==> !MoreToSegment(s, n)))
            && (packets != [] ==> all != []) && SameReceiver(s0, t) && t.status == s.status && t.posted == s.posted
            && t.h.wire == s.h.wire
            && (all == [] ==> !MoreToSegment(s, n))
    decreases if n > 0 then n else 0
  {
    if MoreToSegment(s, n) {
      var (s', p) := NextSegment(s, isNoAck, ts);
      SegmentTrue(s, isNoAck, ts);
      assert AckOk(s0, p) <==> AckOk(s, p);
      AllTrueSnoc(s0, packets, p);
      SegmentsTrue(s0, s', n - 1, isNoAck, ts, packets + [p]);
    }
  }

  /** The whole loop. */
  lemma BufferTrue(s: StreamState, ts: nat)
    requires ReceiverOk(s) && s.control.window > |s.sent|
    ensures var (t, all) := Segment(s, s.control.window - |s.sent|, s.last < 0, ts, []);
            && (AllTrue(s, all) <==> !(s.last < 0 && SendsFollowOn(s)))
            && SameReceiver(s, t) && t.posted == s.posted && t.h.wire == s.h.wire
            && (all == [] || s.status.New? || t.status == s.status)
            && (all != [] && !s.status.New? ==> SendsFollowOn(s))
            && (s.status.New? ==> t.status.Open?)
  {
    var n, isNoAck := s.control.window - |s.sent|, s.last < 0;
    if s.status.New? {
      var (s', p) := NextSegment(s, isNoAck, ts);
      SegmentTrue(s, isNoAck, ts);
      assert [] + [p] == [p];
      SegmentsTrue(s, s', n - 1, isNoAck, ts, [p]);
    } else {
      SegmentsTrue(s, s, n, isNoAck, ts, []);
    }
  }

  /**
   Everything SendBuffer sends or posts acknowledges only what was received, except exactly if it builds a follow-on
   packet before the peer's SYN has been processed.
   */
  lemma BlindExactly(s: StreamState, ts: nat)
    requires ReceiverOk(s)
    ensures var t := SendBuffer(s, ts);
            && s.h.wire <= t.h.wire && s.posted <= t.posted
            && (AllTrue(s, Added(s, t)) <==> !(s.last < 0 && SendsFollowOn(s)))
  {
    var t := SendBuffer(s, ts);
    if s.control.window > |s.sent| {
      BufferTrue(s, ts);
      var (s1, packets) := Segment(s, s.control.window - |s.sent|, s.last < 0, ts, []);
      if packets != [] {
        var s2 := Emit(s1.(ackScheduled := false, sent := InsertAll(s1.sent, packets)), packets);
        assert s2.h.wire[|s.h.wire|..] == packets;
        if s2.status.Closing? && s2.buffer.eof {
          ClosesTrue(s2);
          var p := SendClose(s2).posted[|s.posted|];
          assert Added(s, t) == packets + [p];
          AllTrueSnoc(s, packets, p);
          assert AckOk(s, p) <==> AckOk(s2, p);
        } else {
          assert Added(s, t) == packets;
        }
      } else {
        assert Added(s, t) == packets;
      }
    } else {
      assert Added(s, t) == [];
    }
  }

  /** The closing packet acknowledges only what was received if and only if the peer's SYN has been processed. */
  lemma ClosesTrue(s: StreamState)
    requires ReceiverOk(s)
    ensures var t := SendClose(s);
            && |t.posted| == |s.posted| + 1 && t.posted[..|s.posted|] == s.posted
            && (AckOk(s, t.posted[|s.posted|]) <==> s.last >= 0)
  {
    var p := SendClose(s).posted[|s.posted|];
    if s.last < 0 {
      BlindIsUntrue(s, p);
    }
  }

  /** What a blind acknowledgement does to its receiver: every remembered packet is taken for acknowledged. */
  lemma {:induction false} BlindAckErasesAll(sent: seq<Packet>, ack: Packet, ts: nat, c: Control, any: bool)
    requires ack.ackThrough == NO_SEQN && ack.nacks == []
    requires forall p :: p in sent ==> p.seqn <= NO_SEQN
    ensures AckScan([], sent, ack, ts, c, any).sent == []
    decreases |sent|
  {
    if sent == [] {
    } else {
      BlindAckErasesAll(sent[1..], ack, ts, AckOne(c, sent[0], ts), true);
    }
  }

  /** An end that has processed its peer's SYN and then received packet 300. */
  function FarAhead(): StreamState {
    Initial(1, 100).(last := 0, saved := [Packet(1, 2, 300, 0, [], false, false, false, false, false, [7], 0)])
  }

  /** Its acknowledgement is cut and claims number 1, the first missing one. */
  lemma CutAckIsUntrue()
    ensures var s := FarAhead();
            && SenderOk(s) && ReceiverOk(s) && HighestReceived(s) == 300 && Missing(s) == 299
            && QuickAck(s).1 && QuickAck(s).0.ackThrough == 1 && !AckOk(s, QuickAck(s).0)
  {
    var s := FarAhead();
    assert Flatten(s.h.log) == [];
    QuickAckExact(s);
    assert FillNacks(s.saved, 1, []) == Nacks([], true, 1);
    assert Acknowledges(QuickAck(s).0, 1) && !Received(s, 1);
  }
}
