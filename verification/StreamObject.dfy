/**
 The Stream object: its methods update the fields step by step, and each is
 proved to do what the function of the same name in Streaming says.
 */
module StreamObject {
  import opened Bytes
  import S = Streaming
  import I = StreamInvariants
  import Steps = StreamSteps

  class Stream {
    const recvStreamID: nat
    /** Payload room of the initial packet: what its identity and signature leave of STREAMING_MTU. */
    const synCapacity: nat
    var sendStreamID: nat
    var sequenceNumber: nat
    var lastReceivedSequenceNumber: S.LastSeqn
    var status: S.Status
    var isAckSendScheduled: bool
    var receiveQueue: seq<seq<byte>>
    var savedPackets: seq<S.Packet>
    var sentPackets: seq<S.Packet>
    var sendBuffer: S.Buffer
    var control: S.Control
    var numResendAttempts: nat
    var posted: seq<S.Packet>
    var deleted: bool
    ghost var history: S.History

    ghost function State(): S.StreamState
      reads this
    {
      S.StreamState(recvStreamID, synCapacity, sendStreamID, sequenceNumber, lastReceivedSequenceNumber, status,
                    isAckSendScheduled, receiveQueue, savedPackets, sentPackets, sendBuffer, control,
                    numResendAttempts, posted, deleted, history)
    }

    constructor (recvStreamID: nat, synCapacity: nat)
      ensures State() == S.Initial(recvStreamID, synCapacity)
    {
      this.recvStreamID, this.synCapacity := recvStreamID, synCapacity;
      sendStreamID, sequenceNumber, lastReceivedSequenceNumber := 0, 0, -1;
      status, isAckSendScheduled := S.New, false;
      receiveQueue, savedPackets, sentPackets := [], [], [];
      sendBuffer := S.Buffer([], false);
      control := S.Control(S.MIN_WINDOW_SIZE, S.INITIAL_RTT, S.INITIAL_RTO, 0);
      numResendAttempts, posted, deleted := 0, [], false;
      history := S.History([], [], [], [], [], {}, false, false);
    }

    method SendPackets(packets: seq<S.Packet>)
      modifies this`history
      ensures State() == S.Emit(old(State()), packets)
    {
      history := history.(wire := history.wire + packets);
    }

    /** std::set::insert into m_SentPackets. */
    method InsertSent(p: S.Packet)
      modifies this`sentPackets
      ensures sentPackets == S.Insert(old(sentPackets), p)
    {
      sentPackets := S.Insert(sentPackets, p);
    }

    method SavePacket(p: S.Packet)
      modifies this`savedPackets
      ensures State() == old(State()).(saved := S.Insert(old(savedPackets), p))
    {
      savedPackets := S.Insert(savedPackets, p);
    }

    /** The body of the segmentation loop. */
    method CreateSegment(isNoAck: bool, ts: nat) returns (p: S.Packet)
      modifies this
      ensures (State(), p) == S.NextSegment(old(State()), isNoAck, ts)
    {
      var seqn := sequenceNumber;
      sequenceNumber := sequenceNumber + 1;
      var ackThrough := if isNoAck then S.NO_SEQN else 0;
      if status.New? {
        status := S.Open;
        var (payload, rest) := S.ReadBuffer(sendBuffer, synCapacity);
        sendBuffer := rest;
        p := S.Packet(sendStreamID, recvStreamID, seqn, ackThrough, [], true, isNoAck, false, false, false, payload, ts);
      } else {
        var (payload, rest) := S.ReadBuffer(sendBuffer, S.FOLLOW_ON_CAPACITY);
        sendBuffer := rest;
        history := history.(blind := history.blind || isNoAck);
        p := S.Packet(sendStreamID, recvStreamID, seqn, ackThrough, [], false, false, false, false, false, payload, ts);
      }
      history := history.(log := history.log + [p.payload]);
    }

    method SegmentBuffer(numMsgs: int, isNoAck: bool, ts: nat) returns (packets: seq<S.Packet>)
      modifies this
      ensures (State(), packets) == S.Segment(old(State()), numMsgs, isNoAck, ts, [])
    {
      packets := [];
      var left := numMsgs;
      while status.New? || (sendStreamID != 0 && !sendBuffer.eof && left > 0)
        invariant S.Segment(State(), left, isNoAck, ts, packets) == S.Segment(old(State()), numMsgs, isNoAck, ts, [])
        decreases status.New?, if left > 0 then left else 0
      {
        var p := CreateSegment(isNoAck, ts);
        packets := packets + [p];
        left := left - 1;
      }
    }

    method SendClose()
      modifies this
      ensures State() == S.SendClose(old(State()))
    {
      var ackThrough := if lastReceivedSequenceNumber < 0 then S.NO_SEQN else lastReceivedSequenceNumber;
      var p := S.Packet(sendStreamID, recvStreamID, sequenceNumber, ackThrough, [], false, false, true, false, false, [], 0);
      posted := posted + [p];
      history := history.(log := history.log + [[]], fins := history.fins + {sequenceNumber},
                          blind := history.blind || lastReceivedSequenceNumber < 0);
      sequenceNumber := sequenceNumber + 1;
    }

    method InsertAllSent(packets: seq<S.Packet>)
      modifies this`sentPackets
      ensures sentPackets == S.InsertAll(old(sentPackets), packets)
    {
      var i := 0;
      while i < |packets|
        invariant 0 <= i <= |packets|
        invariant S.InsertAll(sentPackets, packets[i..]) == S.InsertAll(old(sentPackets), packets)
      {
        InsertSent(packets[i]);
        i := i + 1;
      }
    }

    method SendBuffer(ts: nat)
      modifies this
      ensures State() == S.SendBuffer(old(State()), ts)
    {
      var numMsgs := control.window - |sentPackets|;
      if numMsgs <= 0 {
        return;
      }
      var isNoAck := lastReceivedSequenceNumber < 0;
      var packets := SegmentBuffer(numMsgs, isNoAck, ts);
      if |packets| > 0 {
        isAckSendScheduled := false;
        InsertAllSent(packets);
        SendPackets(packets);
        if status.Closing? && sendBuffer.eof {
          SendClose();
        }
      }
    }

    /** Stream::SendPacket for the packet at the head of the service queue. */
    method SendPacket()
      requires posted != []
      modifies this
      ensures State() == S.SendPosted(old(State()))
      ensures S.Sorted(old(sentPackets)) ==> Steps.PostedGoes(old(State()), State())
    {
      if S.Sorted(sentPackets) {
        Steps.PostedExactly(State());
      }
      var packet := posted[0];
      posted := posted[1..];
      isAckSendScheduled := false;
      SendPackets([packet]);
      if status.Open? {
        InsertSent(packet);
      }
    }

    method Close()
      modifies this
      ensures State() == S.Close(old(State()))
      decreases status.Open?
    {
      match status
      case Open =>
        status := S.Closing;
        Close();
      case Reset =>
        SendClose();
        deleted := true;
      case Closing =>
        if sentPackets == [] && sendBuffer.eof {
          status := S.Closed;
          SendClose();
          deleted := true;
        }
      case Closed =>
        deleted := true;
      case New =>
    }

    method Write(buf: seq<byte>)
      modifies this
      ensures State() == S.Write(old(State()), buf)
    {
      if |buf| > 0 {
        sendBuffer := S.Buffer(sendBuffer.pending + buf, false);
        history := history.(submitted := history.submitted + buf);
      }
    }

    /** The loop of ProcessAck: walk the sent packets in order and erase the acknowledged ones. */
    method EraseAcknowledged(ack: S.Packet, ts: nat) returns (acknowledged: bool)
      modifies this`sentPackets, this`control
      ensures S.Scan(sentPackets, control, acknowledged)
           == S.AckScan([], old(sentPackets), ack, ts, old(control), false)
    {
      acknowledged := false;
      var i := 0;
      while i < |sentPackets| && sentPackets[i].seqn <= ack.ackThrough
        invariant 0 <= i <= |sentPackets|
        invariant S.AckScan(sentPackets[..i], sentPackets[i..], ack, ts, control, acknowledged)
               == S.AckScan([], old(sentPackets), ack, ts, old(control), false)
        decreases |sentPackets| - i
      {
        var p := sentPackets[i];
        if p.seqn in ack.nacks {
          assert sentPackets[..i + 1] == sentPackets[..i] + [p];
          i := i + 1;
        } else {
          control := S.AckOne(control, p, ts);
          assert (sentPackets[..i] + sentPackets[i + 1..])[..i] == sentPackets[..i];
          assert (sentPackets[..i] + sentPackets[i + 1..])[i..] == sentPackets[i..][1..];
          sentPackets := sentPackets[..i] + sentPackets[i + 1..];
          acknowledged := true;
        }
      }
      assert sentPackets[..i] + sentPackets[i..] == sentPackets;
    }

    method ProcessAck(ack: S.Packet, ts: nat)
      modifies this
      ensures State() == S.ProcessAck(old(State()), ack, ts)
    {
      var acknowledged := EraseAcknowledged(ack, ts);
      if acknowledged {
        numResendAttempts := 0;
        SendBuffer(ts);
      }
      if status.Closing? {
        Close();
      }
    }

    method CollectNacks() returns (nacks: seq<nat>, isCut: bool, nextSeqn: nat)
      ensures S.Nacks(nacks, isCut, nextSeqn) == S.FillNacks(savedPackets, lastReceivedSequenceNumber + 1, [])
    {
      nacks, isCut, nextSeqn := [], false, lastReceivedSequenceNumber + 1;
      var i := 0;
      while i < |savedPackets|
        invariant 0 <= i <= |savedPackets|
        invariant S.FillNacks(savedPackets[i..], nextSeqn, nacks)
               == S.FillNacks(savedPackets, lastReceivedSequenceNumber + 1, [])
      {
        var seqn := savedPackets[i].seqn;
        var gap := if seqn >= nextSeqn then seqn - nextSeqn else S.TWO_32 + seqn - nextSeqn;
        if |nacks| + gap >= S.MAX_NACKS {
          isCut := true;
          return;
        }
        ghost var before := nacks;
        var n := nextSeqn;
        while n < seqn
          invariant nextSeqn <= n <= seqn || n == nextSeqn > seqn
          invariant nacks + S.Range(n, seqn) == before + S.Range(nextSeqn, seqn)
        {
          assert nacks + S.Range(n, seqn) == nacks + [n] + S.Range(n + 1, seqn);
          nacks := nacks + [n];
          n := n + 1;
        }
        assert nacks + S.Range(n, seqn) == nacks;
        nextSeqn := seqn + 1;
        assert savedPackets[i..][1..] == savedPackets[i + 1..];
        i := i + 1;
      }
    }

    method SendQuickAck()
      modifies this
      ensures State() == S.SendQuickAck(old(State()))
    {
      var lastReceivedSeqn := lastReceivedSequenceNumber;
      if |savedPackets| > 0 {
        var seqn := savedPackets[|savedPackets| - 1].seqn;
        if seqn > lastReceivedSeqn {
          lastReceivedSeqn := seqn;
        }
      }
      if lastReceivedSeqn < 0 {
        return;
      }
      var ackThrough := lastReceivedSeqn;
      var nacks := [];
      if lastReceivedSeqn > lastReceivedSequenceNumber {
        var isCut, nextSeqn;
        nacks, isCut, nextSeqn := CollectNacks();
        if isCut {
          ackThrough := nextSeqn;
          history := history.(cut := true);
        }
      }
      SendPackets([S.Packet(sendStreamID, recvStreamID, 0, ackThrough, nacks, false, false, false, false, false, [], 0)]);
    }

    method AcceptPayload(packet: S.Packet)
      modifies this`receiveQueue, this`lastReceivedSequenceNumber, this`history
      ensures receiveQueue == if packet.payload == [] then old(receiveQueue) else old(receiveQueue) + [packet.payload]
      ensures lastReceivedSequenceNumber == packet.seqn
      ensures history == old(history).(accepted := old(history).accepted + [packet.seqn])
    {
      if |packet.payload| > 0 {
        receiveQueue := receiveQueue + [packet.payload];
      }
      lastReceivedSequenceNumber := packet.seqn;
      history := history.(accepted := history.accepted + [packet.seqn]);
    }

    method ProcessPacket(packet: S.Packet)
      modifies this
      ensures State() == S.ProcessPacket(old(State()), packet)
    {
      var closing := packet.close || packet.reset;
      if packet.badSignature {
        Close();
        closing := true;
      }
      AcceptPayload(packet);
      if closing {
        status := S.Reset;
        Close();
      }
    }

    /** The loop that processes saved packets while they are next in sequence. */
    method DrainSaved()
      modifies this
      ensures State() == S.Drain(old(State()))
    {
      while |savedPackets| > 0 && savedPackets[0].seqn == lastReceivedSequenceNumber + 1
        invariant S.Drain(State()) == S.Drain(old(State()))
        decreases |savedPackets|
      {
        var savedPacket := savedPackets[0];
        savedPackets := savedPackets[1..];
        S.ProcessPacketKeepsSaved(State(), savedPacket);
        ProcessPacket(savedPacket);
      }
    }

    method HandleNextPacket(packet: S.Packet, ts: nat)
      modifies this
      ensures State() == S.HandleNextPacket(old(State()), packet, ts)
      ensures I.SenderOk(old(State())) && I.ReceiverOk(old(State())) ==> Steps.Handles(old(State()), packet, ts, State())
    {
      if I.SenderOk(State()) && I.ReceiverOk(State()) {
        Steps.HandleExactly(State(), packet, ts);
      }
      if sendStreamID == 0 {
        sendStreamID := packet.receiveStreamID;
      }
      if !packet.noAck {
        ProcessAck(packet, ts);
      }
      ReceivePacket(packet, ts);
    }

    method ReceivePacket(packet: S.Packet, ts: nat)
      modifies this
      ensures State() == S.Receive(old(State()), packet, ts)
    {
      if packet.seqn == 0 && !packet.syn {
        return;
      }
      if packet.syn || packet.seqn == lastReceivedSequenceNumber + 1 {
        ProcessPacket(packet);
        DrainSaved();
        if status.Open? {
          isAckSendScheduled := true;
        } else if packet.syn {
          SendBuffer(ts);
        }
      } else if packet.seqn <= lastReceivedSequenceNumber {
        SendQuickAck();
      } else {
        SavePacket(packet);
        if lastReceivedSequenceNumber >= 0 {
          isAckSendScheduled := false;
          SendQuickAck();
        } else {
          isAckSendScheduled := true;
        }
      }
    }

    method ConcatenatePackets(len: nat) returns (buf: seq<byte>)
      modifies this
      ensures (buf, State()) == S.ReadSome(old(State()), len)
    {
      buf := [];
      while |buf| < len && |receiveQueue| > 0
        invariant S.Concatenate(receiveQueue, len, buf) == S.Concatenate(old(receiveQueue), len, [])
        invariant State() == old(State()).(receiveQueue := receiveQueue)
        decreases len - |buf|, |receiveQueue|
      {
        var packet := receiveQueue[0];
        var l := if |packet| <= len - |buf| then |packet| else len - |buf|;
        buf := buf + packet[..l];
        if l == |packet| {
          assert packet[..l] == packet;
          receiveQueue := receiveQueue[1..];
        } else {
          receiveQueue := [packet[l..]] + receiveQueue[1..];
        }
      }
      history := history.(delivered := history.delivered + buf);
    }

    method CollectDue(ts: nat) returns (packets: seq<S.Packet>, sent: seq<S.Packet>)
      ensures packets == S.ToResend(sentPackets, ts, control.rto)
      ensures sent == S.Renewed(sentPackets, ts, control.rto)
    {
      packets, sent := [], [];
      var i := 0;
      while i < |sentPackets|
        invariant 0 <= i <= |sentPackets|
        invariant packets == S.ToResend(sentPackets[..i], ts, control.rto)
        invariant sent == S.Renewed(sentPackets[..i], ts, control.rto)
      {
        var p := sentPackets[i];
        assert sentPackets[..i + 1][..i] == sentPackets[..i];
        if ts >= p.sendTime + control.rto {
          p := p.(sendTime := ts);
          packets := packets + [p];
        }
        sent := sent + [p];
        i := i + 1;
      }
      assert sentPackets[..i] == sentPackets;
    }

    method HandleResendTimer(ts: nat)
      modifies this
      ensures State() == S.HandleResendTimer(old(State()), ts)
      ensures Steps.Resends(old(State()), ts, State())
    {
      Steps.ResendExactly(State(), ts);
      ResendDue(ts);
    }

    method ResendDue(ts: nat)
      modifies this
      ensures State() == S.HandleResendTimer(old(State()), ts)
    {
      if numResendAttempts >= S.MAX_NUM_RESEND_ATTEMPTS {
        status := S.Reset;
        Close();
        return;
      }
      var packets, sent := CollectDue(ts);
      if |packets| > 0 {
        sentPackets := sent;
        numResendAttempts := numResendAttempts + 1;
        control := S.BackOff(control, numResendAttempts);
        SendPackets(packets);
      }
    }

    method HandleAckSendTimer()
      modifies this
      ensures State() == S.HandleAckSendTimer(old(State()))
      ensures I.ReceiverOk(old(State())) ==> Steps.AckTimes(old(State()), State())
    {
      if I.ReceiverOk(State()) {
        Steps.AckTimerExactly(State());
      }
      if isAckSendScheduled {
        if lastReceivedSequenceNumber < 0 {
          status := S.Reset;
          Close();
          return;
        }
        if status.Open? {
          SendQuickAck();
        }
        isAckSendScheduled := false;
      }
    }
  }
}
