/**
 One end of a reliable stream: segmentation, reorder buffer, acknowledgements,
 sliding window and resend, as functions on the state of a stream.  StreamObject.dfy
 holds the object whose methods update that state in place; StreamRuns.dfy joins
 two ends by a network.
 */
module Streaming {
  import opened Bytes

  const STREAMING_MTU: nat := 1730
  const HEADER_SIZE: nat := 22
  const FOLLOW_ON_CAPACITY: nat := STREAMING_MTU - HEADER_SIZE
  const MAX_NUM_RESEND_ATTEMPTS: nat := 6
  const WINDOW_SIZE: int := 6
  const MIN_WINDOW_SIZE: int := 1
  const MAX_WINDOW_SIZE: int := 128
  const INITIAL_RTT: int := 8000
  const INITIAL_RTO: int := 9000
  const MAX_NACKS: nat := 256
  const TWO_32: nat := 0x1_0000_0000
  /** The 32-bit pattern of sequence number -1. */
  const NO_SEQN: nat := 0xFFFF_FFFF

  /** badSignature says that the packet has a signature option which does not verify. */
  datatype Packet = Packet(
    sendStreamID: nat, receiveStreamID: nat, seqn: nat, ackThrough: nat, nacks: seq<nat>,
    syn: bool, noAck: bool, close: bool, reset: bool, badSignature: bool,
    payload: seq<byte>, sendTime: nat)

  datatype Status = New | Open | Reset | Closing | Closed

  /** The send buffer, a stringstream: unread bytes, and whether a read has hit the end. */
  datatype Buffer = Buffer(pending: seq<byte>, eof: bool)

  /** The congestion state that acknowledgements update. */
  datatype Control = Control(window: int, rtt: int, rto: int, lastIncrease: int)

  /**
   What a stream did so far; no decision depends on it: everything handed to the network, the payload behind each
   sequence number, the bytes accepted from and handed to the application, the sequence numbers processed, the
   numbers spent on closing packets, and two marks: blind is set when a packet claims an acknowledgement although
   nothing was received yet, cut when a NACK list did not fit.
   */
  datatype History = History(
    wire: seq<Packet>, log: seq<seq<byte>>, submitted: seq<byte>, delivered: seq<byte>,
    accepted: seq<nat>, fins: set<nat>, blind: bool, cut: bool)

  /** m_LastReceivedSequenceNumber: -1 until the first packet was processed. */
  type LastSeqn = x: int | x >= -1 witness -1

  /** The fields of a stream. */
  datatype StreamState = StreamState(
    recvStreamID: nat, synCapacity: nat,
    sendStreamID: nat, sequenceNumber: nat, last: LastSeqn, status: Status, ackScheduled: bool,
    receiveQueue: seq<seq<byte>>, saved: seq<Packet>, sent: seq<Packet>, buffer: Buffer,
    control: Control, resendAttempts: nat, posted: seq<Packet>, deleted: bool,
    h: History)

  function Initial(recvStreamID: nat, synCapacity: nat): StreamState {
    StreamState(recvStreamID, synCapacity, 0, 0, -1, New, false, [], [], [], Buffer([], false),
                Control(MIN_WINDOW_SIZE, INITIAL_RTT, INITIAL_RTO, 0), 0, [], false,
                History([], [], [], [], [], {}, false, false))
  }

  // ---------------------------------------------------------------- ordered packet sets

  /** Strictly increasing sequence numbers: how std::set with PacketCmp is iterated. */
  predicate Sorted(ps: seq<Packet>) {
    forall i, j :: 0 <= i < j < |ps| ==> ps[i].seqn < ps[j].seqn
  }

  /** std::set::insert: keep the order, and keep the old packet if the number is taken. */
  function Insert(ps: seq<Packet>, p: Packet): (r: seq<Packet>) {
    if ps == [] then [p]
    else if p.seqn < ps[0].seqn then [p] + ps
    else if p.seqn == ps[0].seqn then ps
    else [ps[0]] + Insert(ps[1..], p)
  }

  function InsertAll(ps: seq<Packet>, qs: seq<Packet>): (r: seq<Packet>)
    decreases |qs|
  {
    if qs == [] then ps else InsertAll(Insert(ps, qs[0]), qs[1..])
  }

  function Seqns(ps: seq<Packet>): set<nat> { set i | 0 <= i < |ps| :: ps[i].seqn }

  // ---------------------------------------------------------------- sending

  /** stringstream::read of n bytes. */
  function ReadBuffer(b: Buffer, n: nat): (r: (seq<byte>, Buffer)) {
    if b.eof then ([], b)
    else if |b.pending| < n then (b.pending, Buffer([], true))
    else (b.pending[..n], Buffer(b.pending[n..], false))
  }

  /** SendPackets. */
  function Emit(s: StreamState, ps: seq<Packet>): StreamState {
    s.(h := s.h.(wire := s.h.wire + ps))
  }

  /** One pass of the segmentation loop: the initial packet of a new stream, or a follow-on packet. */
  function NextSegment(s: StreamState, isNoAck: bool, ts: nat): (r: (StreamState, Packet)) {
    var first := s.status.New?;
    var (payload, rest) := ReadBuffer(s.buffer, if first then s.synCapacity else FOLLOW_ON_CAPACITY);
    var p := Packet(s.sendStreamID, s.recvStreamID, s.sequenceNumber, if isNoAck then NO_SEQN else 0, [],
                    first, first && isNoAck, false, false, false, payload, ts);
    (s.(sequenceNumber := s.sequenceNumber + 1, buffer := rest, status := if first then Open else s.status,
        h := s.h.(log := s.h.log + [payload], blind := s.h.blind || (isNoAck && !first))),
     p)
  }

  predicate MoreToSegment(s: StreamState, numMsgs: int) {
    s.status.New? || (s.sendStreamID != 0 && !s.buffer.eof && numMsgs > 0)
  }

  function Segment(s: StreamState, numMsgs: int, isNoAck: bool, ts: nat, packets: seq<Packet>)
    : (r: (StreamState, seq<Packet>))
    decreases s.status.New?, if numMsgs > 0 then numMsgs else 0
  {
    if MoreToSegment(s, numMsgs) then
      var (s', p) := NextSegment(s, isNoAck, ts);
      Segment(s', numMsgs - 1, isNoAck, ts, packets + [p])
    else (s, packets)
  }

  function SendClose(s: StreamState): StreamState {
    var p := Packet(s.sendStreamID, s.recvStreamID, s.sequenceNumber, if s.last < 0 then NO_SEQN else s.last, [],
                    false, false, true, false, false, [], 0);
    s.(sequenceNumber := s.sequenceNumber + 1, posted := s.posted + [p],
       h := s.h.(log := s.h.log + [[]], fins := s.h.fins + {s.sequenceNumber}, blind := s.h.blind || s.last < 0))
  }

  function SendBuffer(s: StreamState, ts: nat): StreamState {
    var numMsgs := s.control.window - |s.sent|;
    if numMsgs <= 0 then s else
      var (s1, packets) := Segment(s, numMsgs, s.last < 0, ts, []);
      if packets == [] then s1 else
        var s2 := Emit(s1.(ackScheduled := false, sent := InsertAll(s1.sent, packets)), packets);
        if s2.status.Closing? && s2.buffer.eof then SendClose(s2) else s2
  }

  /** SendPacket, run later from the service queue; only SendClose posts it. */
  function SendPosted(s: StreamState): StreamState {
    if s.posted == [] then s else
      var p := s.posted[0];
      var s1 := Emit(s.(posted := s.posted[1..], ackScheduled := false), [p]);
      if s1.status.Open? then s1.(sent := Insert(s1.sent, p)) else s1
  }

  function Close(s: StreamState): StreamState
    decreases s.status.Open?
  {
    match s.status
    case Open => Close(s.(status := Closing))
    case Reset => SendClose(s).(deleted := true)
    case Closing =>
      if s.sent == [] && s.buffer.eof
      then SendClose(s.(status := Closed)).(deleted := true)
      else s
    case Closed => s.(deleted := true)
    case New => s
  }

  /** Stream::Send up to posting SendBuffer. */
  function Write(s: StreamState, buf: seq<byte>): StreamState {
    if buf == [] then s else
      s.(buffer := Buffer(s.buffer.pending + buf, false), h := s.h.(submitted := s.h.submitted + buf))
  }

  // ---------------------------------------------------------------- acknowledgements

  /** The difference of two clock readings in unsigned 64-bit arithmetic. */
  function Elapsed(ts: nat, since: nat): nat {
    if ts >= since then ts - since else (ts - since) % 0x1_0000_0000_0000_0000
  }

  function AckOne(c: Control, p: Packet, ts: nat): Control {
    var rtt := (c.rtt * p.seqn + Elapsed(ts, p.sendTime)) / (p.seqn + 1);
    var c1 := c.(rtt := rtt, rto := rtt * 3 / 2);
    if c1.window < WINDOW_SIZE then c1.(window := c1.window + 1)
    else if ts > c1.lastIncrease + rtt then
      c1.(window := if c1.window + 1 > MAX_WINDOW_SIZE then MAX_WINDOW_SIZE else c1.window + 1, lastIncrease := ts)
    else c1
  }

  datatype Scan = Scan(sent: seq<Packet>, control: Control, acknowledged: bool)

  /** The loop of ProcessAck: kept has been passed over, rest is still to be looked at. */
  function AckScan(kept: seq<Packet>, rest: seq<Packet>, ack: Packet, ts: nat, c: Control, acknowledged: bool): Scan
    decreases |rest|
  {
    if rest == [] || rest[0].seqn > ack.ackThrough then Scan(kept + rest, c, acknowledged)
    else if rest[0].seqn in ack.nacks then AckScan(kept + [rest[0]], rest[1..], ack, ts, c, acknowledged)
    else AckScan(kept, rest[1..], ack, ts, AckOne(c, rest[0], ts), true)
  }

  function ProcessAck(s: StreamState, ack: Packet, ts: nat): StreamState {
    var r := AckScan([], s.sent, ack, ts, s.control, false);
    var s1 := s.(sent := r.sent, control := r.control);
    var s2 := if r.acknowledged then SendBuffer(s1.(resendAttempts := 0), ts) else s1;
    if s2.status.Closing? then Close(s2) else s2
  }

  function Range(lo: nat, hi: nat): (r: seq<nat>)
    decreases hi - lo
  {
    if lo >= hi then [] else [lo] + Range(lo + 1, hi)
  }

  datatype Nacks = Nacks(nacks: seq<nat>, cut: bool, next: nat)

  /** The NACK loop of SendQuickAck over the saved packets. */
  function FillNacks(saved: seq<Packet>, next: nat, nacks: seq<nat>): Nacks
    decreases |saved|
  {
    if saved == [] then Nacks(nacks, false, next) else
      var seqn := saved[0].seqn;
      var gap := if seqn >= next then seqn - next else TWO_32 + seqn - next;
      if |nacks| + gap >= MAX_NACKS then Nacks(nacks, true, next)
      else FillNacks(saved[1..], seqn + 1, nacks + Range(next, seqn))
  }

  function HighestReceived(s: StreamState): LastSeqn {
    if s.saved != [] && s.saved[|s.saved| - 1].seqn > s.last then s.saved[|s.saved| - 1].seqn else s.last
  }

  /** The plain ack packet SendQuickAck builds, and whether its NACK list was cut short. */
  function QuickAck(s: StreamState): (r: (Packet, bool))
    requires HighestReceived(s) >= 0
  {
    var high := HighestReceived(s);
    var f := if high > s.last then FillNacks(s.saved, s.last + 1, []) else Nacks([], false, 0);
    (Packet(s.sendStreamID, s.recvStreamID, 0, if f.cut then f.next else high, f.nacks, false, false, false, false, false, [], 0),
     f.cut)
  }

  function SendQuickAck(s: StreamState): StreamState
  {
    if HighestReceived(s) < 0 then s else
      var (p, isCut) := QuickAck(s);
      Emit(s.(h := s.h.(cut := s.h.cut || isCut)), [p])
  }

  // ---------------------------------------------------------------- receiving

  function ProcessPacket(s: StreamState, p: Packet): StreamState {
    var s1 := if p.badSignature then Close(s) else s;
    var s2 := s1.(receiveQueue := if p.payload == [] then s1.receiveQueue else s1.receiveQueue + [p.payload],
                  last := p.seqn, h := s1.h.(accepted := s1.h.accepted + [p.seqn]));
    if p.close || p.reset || p.badSignature then Close(s2.(status := Reset)) else s2
  }

  /** The loop over saved packets after a packet was processed. */
  function Drain(s: StreamState): StreamState
    decreases |s.saved|
  {
    if s.saved != [] && s.saved[0].seqn == s.last + 1 then
      var s1 := s.(saved := s.saved[1..]);
      ProcessPacketKeepsSaved(s1, s.saved[0]);
      Drain(ProcessPacket(s1, s.saved[0]))
    else s
  }

  /** Nothing on the receiving side changed. */
  predicate SameReceiver(s: StreamState, t: StreamState) {
    && t.last == s.last && t.saved == s.saved && t.receiveQueue == s.receiveQueue
    && t.h.accepted == s.h.accepted && t.h.delivered == s.h.delivered
  }

  lemma CloseKeepsReceiver(s: StreamState)
    ensures SameReceiver(s, Close(s)) && Close(s).h.submitted == s.h.submitted && Close(s).h.cut == s.h.cut
    decreases s.status.Open?
  {
  }

  lemma ProcessPacketKeepsSaved(s: StreamState, p: Packet)
    ensures ProcessPacket(s, p).saved == s.saved
    ensures ProcessPacket(s, p).last == p.seqn
  {
    var s1 := if p.badSignature then Close(s) else s;
    CloseKeepsReceiver(s);
    CloseKeepsReceiver(s1.(receiveQueue := if p.payload == [] then s1.receiveQueue else s1.receiveQueue + [p.payload],
                           last := p.seqn, h := s1.h.(accepted := s1.h.accepted + [p.seqn]), status := Reset));
  }

  /** The part of HandleNextPacket after stream id and acknowledgement have been dealt with. */
  function Receive(s: StreamState, p: Packet, ts: nat): StreamState
  {
    if p.seqn == 0 && !p.syn then s  // plain ack
    else if p.syn || p.seqn == s.last + 1 then
      var s1 := Drain(ProcessPacket(s, p));
      if s1.status.Open? then s1.(ackScheduled := true)
      else if p.syn then SendBuffer(s1, ts)
      else s1
    else if p.seqn <= s.last then SendQuickAck(s)
    else
      var s1 := s.(saved := Insert(s.saved, p));
      if s.last >= 0 then SendQuickAck(s1.(ackScheduled := false)) else s1.(ackScheduled := true)
  }

  function HandleNextPacket(s: StreamState, p: Packet, ts: nat): StreamState
  {
    var s0 := if s.sendStreamID == 0 then s.(sendStreamID := p.receiveStreamID) else s;
    Receive(if p.noAck then s0 else ProcessAck(s0, p, ts), p, ts)
  }

  // ---------------------------------------------------------------- reading and timers

  /** The loop of ConcatenatePackets: what is handed out after out, and what stays queued. */
  function Concatenate(queue: seq<seq<byte>>, len: nat, out: seq<byte>): (r: (seq<byte>, seq<seq<byte>>))
    decreases |queue|
  {
    if |out| >= len || queue == [] then (out, queue) else
      var l := if |queue[0]| <= len - |out| then |queue[0]| else len - |out|;
      if l == |queue[0]| then Concatenate(queue[1..], len, out + queue[0])
      else (out + queue[0][..l], [queue[0][l..]] + queue[1..])
  }

  function ReadSome(s: StreamState, len: nat): (r: (seq<byte>, StreamState)) {
    var (out, queue) := Concatenate(s.receiveQueue, len, []);
    (out, s.(receiveQueue := queue, h := s.h.(delivered := s.h.delivered + out)))
  }

  predicate Due(p: Packet, ts: nat, rto: int) { ts >= p.sendTime + rto }

  /** The sent packets with the send time of every due one renewed. */
  function Renewed(sent: seq<Packet>, ts: nat, rto: int): (r: seq<Packet>)
    ensures |r| == |sent|
  {
    if sent == [] then [] else
      var n := |sent| - 1;
      Renewed(sent[..n], ts, rto) + [if Due(sent[n], ts, rto) then sent[n].(sendTime := ts) else sent[n]]
  }

  function ToResend(sent: seq<Packet>, ts: nat, rto: int): seq<Packet> {
    if sent == [] then [] else
      var n := |sent| - 1;
      ToResend(sent[..n], ts, rto) + if Due(sent[n], ts, rto) then [sent[n].(sendTime := ts)] else []
  }

  function BackOff(c: Control, attempts: nat): Control {
    var c1 := c.(rto := c.rto * 2);
    if attempts == 1 then c1.(window := if c.window / 2 < MIN_WINDOW_SIZE then MIN_WINDOW_SIZE else c.window / 2)
    else if attempts == 2 then c1.(rto := INITIAL_RTO)
    else c1
  }

  function HandleResendTimer(s: StreamState, ts: nat): StreamState {
    if s.resendAttempts >= MAX_NUM_RESEND_ATTEMPTS then Close(s.(status := Reset)) else
      var packets := ToResend(s.sent, ts, s.control.rto);
      if packets == [] then s else
        Emit(s.(sent := Renewed(s.sent, ts, s.control.rto), resendAttempts := s.resendAttempts + 1,
                control := BackOff(s.control, s.resendAttempts + 1)),
             packets)
  }

  function HandleAckSendTimer(s: StreamState): StreamState
  {
    if !s.ackScheduled then s
    else if s.last < 0 then Close(s.(status := Reset))
    else (if s.status.Open? then SendQuickAck(s) else s).(ackScheduled := false)
  }
}
