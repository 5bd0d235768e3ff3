/**
 Two runs of an opening and an accepting stream end: in one the opener's reader
 gets a byte twice, in the other a packet that never arrived is forgotten.
 */
module StreamWitnesses {
  import opened Bytes
  import opened Streaming
  import opened StreamInvariants
  import opened StreamRuns
  import opened StreamLimits
  import opened StreamLosses

  // ---------------------------------------------------------------- a run with a repeated SYN

  /** A SYN with one byte, not answering any, and one that answers the peer's. */
  function OpeningSyn(id: nat, b: byte): Packet { Packet(0, id, 0, NO_SEQN, [], true, true, false, false, false, [b], 0) }

  function ReplySyn(to: nat, id: nat): Packet { Packet(to, id, 0, 0, [], true, false, false, false, false, [], 0) }

  function PlainAck(to: nat, id: nat): Packet { Packet(to, id, 0, 0, [], false, false, false, false, false, [], 0) }

  function NextPacket(to: nat, id: nat, b: byte): Packet { Packet(to, id, 1, 0, [], false, false, false, false, false, [b], 0) }

  /** An end that has sent its SYN with one byte. */
  function Opening(id: nat, b: byte): StreamState {
    Initial(id, 100).(sequenceNumber := 1, status := Open, sent := [OpeningSyn(id, b)], buffer := Buffer([], true),
                      h := History([OpeningSyn(id, b)], [[b]], [b], [], [], {}, false, false))
  }

  lemma Opens(id: nat, b: byte)
    ensures SendBuffer(Write(Initial(id, 100), [b]), 0) == Opening(id, b)
  {
    var s, p := Write(Initial(id, 100), [b]), OpeningSyn(id, b);
    var (s1, q) := NextSegment(s, true, 0);
    assert q == p && s1.buffer == Buffer([], true) && [] + [p] == [p];
    assert Segment(s, 1, true, 0, []) == Segment(s1, 0, true, 0, [p]) == (s1, [p]);
    assert InsertAll([], [p]) == InsertAll([p], []) == [p];
  }

  /** A new stream that has got that SYN and answered it. */
  function Accepted(): StreamState {
    Initial(2, 100).(sendStreamID := 1, sequenceNumber := 1, last := 0, status := Open, receiveQueue := [[7]],
                     sent := [ReplySyn(1, 2)], buffer := Buffer([], true),
                     h := History([ReplySyn(1, 2)], [[]], [], [], [0], {}, false, false))
  }

  lemma Accepts()
    ensures Routed(Initial(2, 100), OpeningSyn(1, 7))
    ensures HandleNextPacket(Initial(2, 100), OpeningSyn(1, 7), 0) == Accepted()
  {
    var s, p := Initial(2, 100), ReplySyn(1, 2);
    var s1 := s.(sendStreamID := 1, receiveQueue := [[7]], last := 0, h := s.h.(accepted := [0]));
    assert [] + [[7]] == [[7]] && [] + [0] == [0];
    assert Drain(ProcessPacket(s.(sendStreamID := 1), OpeningSyn(1, 7))) == s1;
    var (s2, q) := NextSegment(s1, false, 0);
    assert q == p && s2.buffer == Buffer([], true) && [] + [p] == [p];
    assert Segment(s1, 1, false, 0, []) == Segment(s2, 0, false, 0, [p]) == (s2, [p]);
    assert InsertAll([], [p]) == InsertAll([p], []) == [p];
    assert SendBuffer(s1, 0) == Accepted();
  }

  /** An established end with nothing to acknowledge and nothing saved takes the packet in without any further effect. */
  lemma TakesIn(s: StreamState, p: Packet)
    requires s.sent == [] && s.saved == [] && s.status == Open && s.sendStreamID != 0
    requires p.syn || p.seqn == s.last + 1 > 0
    requires !p.noAck && !p.close && !p.reset && !p.badSignature
    ensures HandleNextPacket(s, p, 0)
         == s.(receiveQueue := if p.payload == [] then s.receiveQueue else s.receiveQueue + [p.payload],
               last := p.seqn, ackScheduled := true, h := s.h.(accepted := s.h.accepted + [p.seqn]))
  {
    assert AckScan([], [], p, 0, s.control, false) == Scan([], s.control, false);
    assert ProcessAck(s, p, 0) == s;
  }

  /** The opener gets the answer, which acknowledges its own SYN. */
  lemma Answered()
    ensures var t := HandleNextPacket(Opening(1, 7), ReplySyn(1, 2), 0);
            && t.sent == [] && t.saved == [] && t.status == Open && t.sendStreamID == 2 && t.last == 0 && t.ackScheduled
            && t.receiveQueue == [] && !t.deleted && t.h.wire == [OpeningSyn(1, 7)] && t.h.delivered == []
            && t.recvStreamID == 1
  {
    var s, p := Opening(1, 7).(sendStreamID := 2), OpeningSyn(1, 7);
    var c := AckOne(s.control, p, 0);
    var ack := ReplySyn(1, 2);
    assert AckScan([], [p], ack, 0, s.control, false) == AckScan([], [], ack, 0, c, true) == Scan([], c, true);
    var s1 := s.(sent := [], control := c, resendAttempts := 0);
    assert Segment(s1, c.window, true, 0, []) == (s1, []);
    assert ProcessAck(s, ReplySyn(1, 2), 0) == s1;
  }

  lemma AnswerAcknowledged(s: StreamState)
    requires s.last == 0 && s.saved == [] && s.status == Open && s.ackScheduled && s.sendStreamID == 2 && s.recvStreamID == 1
    ensures HandleAckSendTimer(s) == s.(ackScheduled := false, h := s.h.(wire := s.h.wire + [PlainAck(2, 1)]))
  {
    assert QuickAck(s) == (PlainAck(2, 1), false);
  }

  /** The acceptor, with a byte written, gets that acknowledgement and sends on. */
  lemma SendsNext()
    ensures var t := HandleNextPacket(Write(Accepted(), [8]), PlainAck(2, 1), 0);
            t.h.wire == [ReplySyn(1, 2), NextPacket(1, 2, 8)] && t.h.submitted == [8]
  {
    var s, ack, p := Write(Accepted(), [8]), PlainAck(2, 1), ReplySyn(1, 2);
    var c := AckOne(s.control, p, 0);
    assert AckScan([], [p], ack, 0, s.control, false) == AckScan([], [], ack, 0, c, true) == Scan([], c, true);
    var s1 := s.(sent := [], control := c, resendAttempts := 0);
    assert c.window == 2 && s.buffer == Buffer([8], false);
    var (s2, q) := NextSegment(s1, false, 0);
    assert q == NextPacket(1, 2, 8) && s2.buffer == Buffer([], true) && [] + [q] == [q];
    assert Segment(s1, 2, false, 0, []) == Segment(s2, 1, false, 0, [q]) == (s2, [q]);
    assert SendBuffer(s1, 0).h.wire == s1.h.wire + [q];
    assert ProcessAck(s, ack, 0) == SendBuffer(s1, 0);
  }

  lemma ReadBoth(s: StreamState)
    requires s.receiveQueue == [[8], [8]] && s.h.delivered == []
    ensures ReadSome(s, 2).1.h.delivered == [8, 8]
  {
    var q: seq<seq<byte>> := s.receiveQueue;
    assert q[1..] == [[8]] && |q[1..][1..]| == 0;
    assert [] + q[0] == [8];
    assert Concatenate(q, 2, []) == Concatenate(q[1..], 2, [8]);
    assert [8] + q[1..][0] == [8, 8];
    assert Concatenate(q[1..], 2, [8]) == Concatenate(q[1..][1..], 2, [8, 8]);
  }

  /** From state s at the i-th move the run goes on as from state t at the j-th. */
  ghost predicate Leads(m: seq<Move>, s: System, i: nat, t: System, j: nat)
    requires i <= |m| && j <= |m|
  {
    Exec(s, m[i..]) == Exec(t, m[j..]) && (SynOnce(s, m[i..]) <==> SynOnce(t, m[j..]))
  }

  lemma LeadsOn(m: seq<Move>, s: System, i: nat, t: System, j: nat, u: System, k: nat)
    requires i <= |m| && j <= |m| && k <= |m| && Leads(m, s, i, t, j) && Leads(m, t, j, u, k)
    ensures Leads(m, s, i, u, k)
  {
  }

  /** One move of a run that hands no stale SYN, with what it leads to. */
  lemma Moves(s: System, m: seq<Move>, i: nat, t: System)
    requires i < |m| && t == Apply(s, m[i]) && FreshMove(s, m[i])
    ensures Leads(m, s, i, t, i + 1)
  {
    assert m[i..][1..] == m[i + 1..] && m[i..][0] == m[i];
  }

  /** One move of any kind. */
  lemma Runs(s: System, m: seq<Move>, i: nat, t: System)
    requires i < |m| && t == Apply(s, m[i])
    ensures Exec(s, m[i..]) == Exec(t, m[i + 1..])
  {
    assert m[i..][1..] == m[i + 1..] && m[i..][0] == m[i];
  }

  /**
   The opener gets the answering SYN, then packet 1 with a byte, and then, as the network repeats them, the same SYN, which
   takes it back to number 0, and packet 1 again.
   */
  function DoubleSyn(): seq<Move> {
    [Move(true, AppWrite([7])), Move(true, RunSendBuffer(0)), Move(false, Deliver(0, 0)), Move(false, AppWrite([8])),
     Move(true, Deliver(0, 0)), Move(true, AckTimer), Move(false, Deliver(1, 0)),
     Move(true, Deliver(1, 0)), Move(true, Deliver(0, 0)), Move(true, Deliver(1, 0)), Move(true, AppRead(2))]
  }

  lemma FirstWrites(m: seq<Move>, s: System)
    requires |m| > 0 && m[0] == Move(true, AppWrite([7])) && s == System(Initial(1, 100), Initial(2, 100))
    ensures Leads(m, s, 0, System(Write(Initial(1, 100), [7]), s.b), 1)
  {
    Moves(s, m, 0, System(Write(Initial(1, 100), [7]), s.b));
  }

  lemma FirstOpens(m: seq<Move>, s: System)
    requires |m| > 1 && m[1] == Move(true, RunSendBuffer(0)) && s.a == Write(Initial(1, 100), [7])
    ensures Leads(m, s, 1, System(Opening(1, 7), s.b), 2)
  {
    Opens(1, 7);
    Moves(s, m, 1, System(Opening(1, 7), s.b));
  }

  lemma SecondAccepts(m: seq<Move>, s: System)
    requires |m| > 2 && m[2] == Move(false, Deliver(0, 0)) && s == System(Opening(1, 7), Initial(2, 100))
    ensures Leads(m, s, 2, System(s.a, Accepted()), 3)
  {
    Accepts();
    Moves(s, m, 2, System(s.a, Accepted()));
  }

  lemma Connects(m: seq<Move>, s: System)
    requires |m| >= 3 && s == System(Initial(1, 100), Initial(2, 100))
    requires m[0] == Move(true, AppWrite([7])) && m[1] == Move(true, RunSendBuffer(0))
    requires m[2] == Move(false, Deliver(0, 0))
    ensures Leads(m, s, 0, System(Opening(1, 7), Accepted()), 3)
  {
    var s1, s2 := System(Write(Initial(1, 100), [7]), s.b), System(Opening(1, 7), s.b);
    FirstWrites(m, s);
    FirstOpens(m, s1);
    LeadsOn(m, s, 0, s1, 1, s2, 2);
    SecondAccepts(m, s2);
    LeadsOn(m, s, 0, s2, 2, System(Opening(1, 7), Accepted()), 3);
  }

  /** An established opener with nothing outstanding, nothing received but the SYN and nothing read. */
  ghost predicate Established(a: StreamState) {
    && a.sent == [] && a.saved == [] && a.status == Open && a.sendStreamID == 2 && a.recvStreamID == 1 && a.last == 0
    && a.receiveQueue == [] && a.h.delivered == [] && !a.deleted
  }

  lemma OpenerAnswered(m: seq<Move>, s: System) returns (a: StreamState)
    requires |m| > 4 && m[4] == Move(true, Deliver(0, 0)) && s.a == Opening(1, 7)
    requires |s.b.h.wire| > 0 && s.b.h.wire[0] == ReplySyn(1, 2)
    ensures Exec(s, m[4..]) == Exec(System(a, s.b), m[5..])
    ensures Established(a) && a.ackScheduled && a.h.wire == [OpeningSyn(1, 7)]
  {
    Answered();
    a := HandleNextPacket(Opening(1, 7), ReplySyn(1, 2), 0);
    Runs(s, m, 4, System(a, s.b));
  }

  lemma OpenerAcknowledges(m: seq<Move>, s: System) returns (a: StreamState)
    requires |m| > 5 && m[5] == Move(true, AckTimer)
    requires Established(s.a) && s.a.ackScheduled && s.a.h.wire == [OpeningSyn(1, 7)]
    ensures Exec(s, m[5..]) == Exec(System(a, s.b), m[6..])
    ensures Established(a) && a.h.wire == [OpeningSyn(1, 7), PlainAck(2, 1)]
  {
    AnswerAcknowledged(s.a);
    a := HandleAckSendTimer(s.a);
    Runs(s, m, 5, System(a, s.b));
  }

  lemma AcceptorSends(m: seq<Move>, s: System) returns (b: StreamState)
    requires |m| > 6 && m[6] == Move(false, Deliver(1, 0)) && s.b == Write(Accepted(), [8])
    requires |s.a.h.wire| == 2 && s.a.h.wire[1] == PlainAck(2, 1)
    ensures Exec(s, m[6..]) == Exec(System(s.a, b), m[7..])
    ensures b.h.wire == [ReplySyn(1, 2), NextPacket(1, 2, 8)] && b.h.submitted == [8]
  {
    SendsNext();
    b := HandleNextPacket(s.b, PlainAck(2, 1), 0);
    Runs(s, m, 6, System(s.a, b));
  }

  /** The opener acknowledges the answer, and the acceptor sends on. */
  lemma Exchanges(m: seq<Move>) returns (a: StreamState, b: StreamState)
    requires m == DoubleSyn()
    ensures Exec(System(Opening(1, 7), Accepted()), m[3..]) == Exec(System(a, b), m[7..])
    ensures Established(a) && b.h.wire == [ReplySyn(1, 2), NextPacket(1, 2, 8)] && b.h.submitted == [8]
  {
    var b4 := Write(Accepted(), [8]);
    Runs(System(Opening(1, 7), Accepted()), m, 3, System(Opening(1, 7), b4));
    var a5 := OpenerAnswered(m, System(Opening(1, 7), b4));
    a := OpenerAcknowledges(m, System(a5, b4));
    b := AcceptorSends(m, System(a, b4));
  }

  /** The opener takes in what the acceptor sent, as it is handed over once more. */
  lemma TakesInMove(m: seq<Move>, s: System, i: nat, k: nat) returns (a: StreamState)
    requires i < |m| && m[i] == Move(true, Deliver(k, 0)) && k < |s.b.h.wire|
    requires s.a.sent == [] && s.a.saved == [] && s.a.status == Open && !s.a.deleted
    requires s.a.sendStreamID == 2 && s.a.recvStreamID == 1
    requires var p := s.b.h.wire[k];
             (p == ReplySyn(1, 2) || p == NextPacket(1, 2, 8)) && (p.syn || p.seqn == s.a.last + 1)
    ensures Exec(s, m[i..]) == Exec(System(a, s.b), m[i + 1..])
    ensures var p := s.b.h.wire[k];
            a == s.a.(receiveQueue := if p.payload == [] then s.a.receiveQueue else s.a.receiveQueue + [p.payload],
                      last := p.seqn, ackScheduled := true, h := s.a.h.(accepted := s.a.h.accepted + [p.seqn]))
  {
    TakesIn(s.a, s.b.h.wire[k]);
    a := HandleNextPacket(s.a, s.b.h.wire[k], 0);
    Runs(s, m, i, System(a, s.b));
  }

  lemma LastMoves(a: StreamState, b: StreamState, m: seq<Move>)
    requires m == DoubleSyn() && b.h.wire == [ReplySyn(1, 2), NextPacket(1, 2, 8)] && Established(a)
    ensures var t := Exec(System(a, b), m[7..]); t.b == b && t.a.h.delivered == [8, 8]
  {
    var a8 := TakesInMove(m, System(a, b), 7, 1);
    var a9 := TakesInMove(m, System(a8, b), 8, 0);
    var a10 := TakesInMove(m, System(a9, b), 9, 1);
    assert a10.receiveQueue == [[8], [8]];
    ReadBoth(a10);
    Runs(System(a10, b), m, 10, System(ReadSome(a10, 2).1, b));
    assert m[11..] == [];
  }

  /** The opener's reader gets the byte twice that the acceptor's application wrote once. */
  lemma RepeatedSynDuplicates(u: Setup, m: seq<Move>)
    requires u == Setup(1, 100, 2, 100) && m == DoubleSyn()
    ensures var s := Exec(Start(u), m);
            s.b.h.submitted == [8] && s.a.h.delivered == [8, 8] && !(s.a.h.delivered <= s.b.h.submitted)
  {
    Connects(m, Start(u));
    var a, b := Exchanges(m);
    LastMoves(a, b, m);
    assert m[0..] == m;
  }

  // ---------------------------------------------------------------- a run that loses a packet

  /**
   The opener's SYN is accepted, but the answer never arrives.  After six attempts the opener gives up, and its closing
   packet, which claims to acknowledge everything, makes the acceptor forget the answer.
   */
  function LostSyn(): seq<Move> {
    [Move(true, AppWrite([7])), Move(true, RunSendBuffer(0)), Move(false, Deliver(0, 0)),
     Move(true, ResendTimer(1000000)), Move(true, ResendTimer(2000000)), Move(true, ResendTimer(3000000)),
     Move(true, ResendTimer(4000000)), Move(true, ResendTimer(5000000)), Move(true, ResendTimer(6000000)),
     Move(true, ResendTimer(7000000)), Move(true, RunPosted), Move(false, Deliver(7, 0))]
  }

  function ClosingPacket(id: nat): Packet { Packet(0, id, 1, NO_SEQN, [], false, false, true, false, false, [], 0) }

  /** The opener after n attempts without an answer; every attempt comes before the timeout has doubled up to the next. */
  ghost predicate Unanswered(s: StreamState, n: nat) {
    && s.recvStreamID == 1 && s.sendStreamID == 0 && s.last == -1 && s.saved == [] && s.status == Open && !s.deleted
    && s.sequenceNumber == 1 && s.posted == [] && |s.sent| == 1 && s.sent[0].sendTime == n * 1000000
    && s.resendAttempts == n <= 6 && |s.h.wire| == n + 1
    && 0 < s.control.rto && s.control.rto * Pow2(6 - n) <= 576000
  }

  lemma TriesAgain(s: StreamState, n: nat)
    requires Unanswered(s, n) && n < 6
    ensures Unanswered(HandleResendTimer(s, (n + 1) * 1000000), n + 1)
  {
    var ts, p := (n + 1) * 1000000, s.sent[0];
    assert Pow2(6 - n) == 2 * Pow2(5 - n);
    assert s.control.rto <= s.control.rto * Pow2(6 - n);
    assert s.sent == [p] && s.sent[..0] == [];
    assert [] + [p.(sendTime := ts)] == [p.(sendTime := ts)];
    assert ToResend([], ts, s.control.rto) == [] == Renewed([], ts, s.control.rto);
    assert ToResend(s.sent, ts, s.control.rto) == [p.(sendTime := ts)];
    assert Renewed(s.sent, ts, s.control.rto) == [p.(sendTime := ts)];
    if n == 1 {
      assert 9000 * Pow2(4) <= 576000;
    } else {
      assert (s.control.rto * 2) * Pow2(5 - n) == s.control.rto * Pow2(6 - n);
    }
  }

  lemma GivesUp(s: StreamState)
    requires Unanswered(s, 6)
    ensures var t := SendPosted(HandleResendTimer(s, 7000000));
            && |t.h.wire| == 8 && t.h.wire[7] == ClosingPacket(1) && t.last == -1 && t.saved == []
  {
  }

  /** That packet names no stream, and goes to the one whose peer it comes from. */
  lemma Forgets()
    ensures Routed(Accepted(), ClosingPacket(1))
    ensures var t := HandleNextPacket(Accepted(), ClosingPacket(1), 0);
            t.sequenceNumber >= 1 && 0 !in Seqns(t.sent) && 0 !in t.h.fins
  {
    var s, p := Accepted(), ClosingPacket(1);
    assert s.sent[0].seqn == 0;
    assert Drops(s, p, 0);
    assert WindowOk(s);
    ProcessAckForgets(s, p, 0, 0);
    ReceiveGone(ProcessAck(s, p, 0), p, 0, 0);
  }

  lemma TriesOnce(a: StreamState, b: StreamState, m: seq<Move>, n: nat)
    requires n < 6 && 3 + n < |m| && m[3 + n] == Move(true, ResendTimer((n + 1) * 1000000)) && Unanswered(a, n)
    ensures Leads(m, System(a, b), 3 + n, System(HandleResendTimer(a, (n + 1) * 1000000), b), 4 + n)
  {
    Moves(System(a, b), m, 3 + n, System(HandleResendTimer(a, (n + 1) * 1000000), b));
  }

  lemma {:induction false} TriesOn(a: StreamState, b: StreamState, m: seq<Move>, n: nat) returns (a': StreamState)
    requires |m| == 12 && (forall j :: 3 + n <= j < 9 ==> m[j] == Move(true, ResendTimer((j - 2) * 1000000)))
    requires Unanswered(a, n)
    ensures Unanswered(a', 6) && Leads(m, System(a, b), 3 + n, System(a', b), 9)
    decreases 6 - n
  {
    if n == 6 {
      a' := a;
    } else {
      var a1 := HandleResendTimer(a, (n + 1) * 1000000);
      TriesAgain(a, n);
      TriesOnce(a, b, m, n);
      a' := TriesOn(a1, b, m, n + 1);
      LeadsOn(m, System(a, b), 3 + n, System(a1, b), 4 + n, System(a', b), 9);
    }
  }

  /** The opener resets the stream and sends its closing packet. */
  lemma OpenerCloses(a: StreamState, b: StreamState, m: seq<Move>) returns (a': StreamState)
    requires |m| == 12 && m[9] == Move(true, ResendTimer(7000000)) && m[10] == Move(true, RunPosted) && Unanswered(a, 6)
    ensures Leads(m, System(a, b), 9, System(a', b), 11)
    ensures |a'.h.wire| == 8 && a'.h.wire[7] == ClosingPacket(1) && a'.last == -1 && a'.saved == []
  {
    GivesUp(a);
    var a1 := HandleResendTimer(a, 7000000);
    a' := SendPosted(a1);
    Moves(System(a, b), m, 9, System(a1, b));
    Moves(System(a1, b), m, 10, System(a', b));
    LeadsOn(m, System(a, b), 9, System(a1, b), 10, System(a', b), 11);
  }

  lemma AcceptorForgets(a: StreamState, m: seq<Move>)
    requires |m| == 12 && m[11] == Move(false, Deliver(7, 0))
    requires |a.h.wire| == 8 && a.h.wire[7] == ClosingPacket(1) && a.last == -1 && a.saved == []
    ensures var s, t := System(a, Accepted()), Exec(System(a, Accepted()), m[11..]);
            SynOnce(s, m[11..]) && !NoneLost(t.b, t.a)
  {
    Forgets();
    var b := HandleNextPacket(Accepted(), ClosingPacket(1), 0);
    DeliversTo(m, 11, System(a, Accepted()), 7, ClosingPacket(1), b);
    assert m[12..] == [];
    ForgottenLost(a, b);
  }

  /** The k-th packet is handed to the acceptor. */
  lemma DeliversTo(m: seq<Move>, i: nat, s: System, k: nat, p: Packet, b: StreamState)
    requires i < |m| && m[i] == Move(false, Deliver(k, 0)) && k < |s.a.h.wire| && s.a.h.wire[k] == p && !p.syn
    requires !s.b.deleted && Routed(s.b, p) && b == HandleNextPacket(s.b, p, 0)
    ensures Leads(m, s, i, System(s.a, b), i + 1)
  {
    Moves(s, m, i, System(s.a, b));
  }

  lemma ForgottenLost(a: StreamState, b: StreamState)
    requires b.sequenceNumber >= 1 && 0 !in Seqns(b.sent) && 0 !in b.h.fins && a.last == -1 && a.saved == []
    ensures !NoneLost(b, a)
  {
    assert !Received(a, 0);
  }

  lemma LostSynMoves(m: seq<Move>)
    requires m == LostSyn()
    ensures |m| == 12 && m[0] == Move(true, AppWrite([7])) && m[1] == Move(true, RunSendBuffer(0))
    ensures m[2] == Move(false, Deliver(0, 0)) && m[9] == Move(true, ResendTimer(7000000))
    ensures m[10] == Move(true, RunPosted) && m[11] == Move(false, Deliver(7, 0))
    ensures forall j :: 3 <= j < 9 ==> m[j] == Move(true, ResendTimer((j - 2) * 1000000))
  {
  }

  /** Without any repeated SYN, the acceptor's first number is lost: it was not received and is kept nowhere. */
  lemma BlindAckLosesSyn(u: Setup, m: seq<Move>)
    requires u == Setup(1, 100, 2, 100) && m == LostSyn()
    ensures SynOnce(Start(u), m) && !NoneLost(Exec(Start(u), m).b, Exec(Start(u), m).a)
  {
    LostSynMoves(m);
    LosesSyn(Start(u), m);
    assert m[0..] == m;
  }

  lemma StartsUnanswered()
    ensures Unanswered(Opening(1, 7), 0)
  {
    assert Pow2(6) == 64;
  }

  lemma LosesSyn(s: System, m: seq<Move>)
    requires s == System(Initial(1, 100), Initial(2, 100)) && |m| == 12
    requires m[0] == Move(true, AppWrite([7])) && m[1] == Move(true, RunSendBuffer(0))
    requires m[2] == Move(false, Deliver(0, 0))
    requires forall j :: 3 <= j < 9 ==> m[j] == Move(true, ResendTimer((j - 2) * 1000000))
    requires m[9] == Move(true, ResendTimer(7000000)) && m[10] == Move(true, RunPosted)
    requires m[11] == Move(false, Deliver(7, 0))
    ensures SynOnce(s, m[0..]) && !NoneLost(Exec(s, m[0..]).b, Exec(s, m[0..]).a)
  {
    Connects(m, s);
    StartsUnanswered();
    var a9 := TriesOn(Opening(1, 7), Accepted(), m, 0);
    var a11 := OpenerCloses(a9, Accepted(), m);
    AcceptorForgets(a11, m);
  }
}
