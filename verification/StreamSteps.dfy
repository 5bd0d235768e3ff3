/**
 What every operation of a stream end amounts to, said outright: which packets
 go out and which are forgotten, what the window does, what is received and how it
 is answered, and when the stream closes.
 */
module StreamSteps {
  import opened Bytes
  import opened Streaming
  import opened StreamInvariants

  // ---------------------------------------------------------------- closing

  /** A closing packet with the next number is to be sent. */
  ghost predicate ClosingPosted(s: StreamState, t: StreamState) {
    && t.sequenceNumber == s.sequenceNumber + 1
    && t.posted == s.posted + [Packet(s.sendStreamID, s.recvStreamID, s.sequenceNumber, if s.last < 0 then NO_SEQN else s.last,
                                      [], false, false, true, false, false, [], 0)]
    && t.h.log == s.h.log + [[]] && t.h.fins == s.h.fins + {s.sequenceNumber} && (t.h.blind <==> s.h.blind || s.last < 0)
  }

  /** Apart from closing packets and the status, nothing changes. */
  ghost predicate OnlyCloses(s: StreamState, t: StreamState) {
    t == s.(sequenceNumber := t.sequenceNumber, posted := t.posted, status := t.status, deleted := t.deleted,
            h := s.h.(log := t.h.log, fins := t.h.fins, blind := t.h.blind))
  }

  /** Everything has been sent and acknowledged. */
  predicate Finished(s: StreamState) { s.sent == [] && s.buffer.eof }

  /**
   Close: an open stream closes as soon as everything has been sent and acknowledged, and waits otherwise; one that is reset
   closes at once; one that has not sent anything is left alone.
   */
  ghost predicate Closes(s: StreamState, t: StreamState) {
    && OnlyCloses(s, t)
    && match s.status
       case New => t == s
       case Closed => t == s.(deleted := true)
       case Reset => ClosingPosted(s, t) && t.deleted && t.status.Reset?
       case _ =>
         if Finished(s) then ClosingPosted(s, t) && t.deleted && t.status.Closed? else t == s.(status := Closing)
  }

  lemma CloseExactly(s: StreamState)
    ensures Closes(s, Close(s))
    decreases s.status.Open?
  {
    if s.status.Open? {
      CloseExactly(s.(status := Closing));
    }
  }

  // ---------------------------------------------------------------- resending

  function DueAt(ts: nat, rto: int): Packet -> bool { (p: Packet) => ts >= p.sendTime + rto }

  /** The first unanswered resend halves the window, the second starts the timeout afresh, and otherwise it doubles. */
  ghost predicate BackedOff(c: Control, attempt: nat, d: Control) {
    && d.rtt == c.rtt && d.lastIncrease == c.lastIncrease
    && (if attempt != 1 then d.window == c.window
        else if c.window < 2 then d.window == 1
        else 2 * d.window <= c.window < 2 * d.window + 2)
    && d.rto == if attempt == 2 then 9000 else 2 * c.rto
  }

  /** The packets at the places ks are sent again, in their order, and remembered with the new time like all others without. */
  ghost predicate SentAgain(s: StreamState, ts: nat, ks: seq<nat>, t: StreamState) {
    && |t.h.wire| == |s.h.wire| + |ks| && s.h.wire <= t.h.wire
    && (forall i :: 0 <= i < |ks| ==> ks[i] < |s.sent| && t.h.wire[|s.h.wire| + i] == s.sent[ks[i]].(sendTime := ts))
    && |t.sent| == |s.sent|
    && (forall k :: 0 <= k < |s.sent| ==> t.sent[k] == if k in ks then s.sent[k].(sendTime := ts) else s.sent[k])
  }

  /**
   The resend timer: exactly the due packets are sent again, and if and only if there are any this counts as an attempt and
   the stream backs off.  After six attempts without an answer it resets.
   */
  ghost predicate Resends(s: StreamState, ts: nat, t: StreamState) {
    if s.resendAttempts >= 6 then
      Closes(s.(status := Reset), t)
    else
      exists ks :: Places(s.sent, DueAt(ts, s.control.rto), ks) && SentAgain(s, ts, ks, t)
        && (if ks == [] then t == s else
              && t.resendAttempts == s.resendAttempts + 1 && BackedOff(s.control, t.resendAttempts, t.control)
              && t == s.(sent := t.sent, control := t.control, resendAttempts := t.resendAttempts,
                         h := s.h.(wire := t.h.wire)))
  }

  /** Which packets ToResend and Renewed pick. */
  ghost predicate Picked(sent: seq<Packet>, ts: nat, ks: seq<nat>, again: seq<Packet>, renewed: seq<Packet>) {
    && |again| == |ks| && (forall i :: 0 <= i < |ks| ==> ks[i] < |sent| && again[i] == sent[ks[i]].(sendTime := ts))
    && |renewed| == |sent|
    && (forall k :: 0 <= k < |sent| ==> renewed[k] == if k in ks then sent[k].(sendTime := ts) else sent[k])
  }

  lemma PickedSnoc(sent: seq<Packet>, ts: nat, ks: seq<nat>, again: seq<Packet>, renewed: seq<Packet>, p: Packet)
    requires Picked(sent, ts, ks, again, renewed)
    ensures Picked(sent + [p], ts, ks, again, renewed + [p])
    ensures Picked(sent + [p], ts, ks + [|sent|], again + [p.(sendTime := ts)], renewed + [p.(sendTime := ts)])
  {
    forall i | 0 <= i < |ks| ensures ks[i] in ks && ks[i] < |sent| && again[i] == (sent + [p])[ks[i]].(sendTime := ts) {
    }
    assert |sent| !in ks;
    assert forall k :: k in ks + [|sent|] <==> k in ks || k == |sent|;
  }

  lemma {:induction false} DueOnes(sent: seq<Packet>, ts: nat, rto: int) returns (ks: seq<nat>)
    ensures Places(sent, DueAt(ts, rto), ks)
    ensures Picked(sent, ts, ks, ToResend(sent, ts, rto), Renewed(sent, ts, rto))
  {
    if sent == [] {
      ks := [];
    } else {
      var n := |sent| - 1;
      ks := DueOnes(sent[..n], ts, rto);
      assert sent == sent[..n] + [sent[n]];
      PlacesSnoc(sent[..n], DueAt(ts, rto), ks, sent[n]);
      PickedSnoc(sent[..n], ts, ks, ToResend(sent[..n], ts, rto), Renewed(sent[..n], ts, rto), sent[n]);
      if Due(sent[n], ts, rto) {
        ks := ks + [n];
      }
    }
  }

  lemma ResendExactly(s: StreamState, ts: nat)
    ensures Resends(s, ts, HandleResendTimer(s, ts))
  {
    if s.resendAttempts >= MAX_NUM_RESEND_ATTEMPTS {
      CloseExactly(s.(status := Reset));
    } else {
      var ks := DueOnes(s.sent, ts, s.control.rto);
      var t := HandleResendTimer(s, ts);
      if ks == [] {
        assert t.sent == s.sent;
      }
      assert SentAgain(s, ts, ks, t);
    }
  }

  // ---------------------------------------------------------------- sending

  function Payloads(ps: seq<Packet>): (r: seq<seq<byte>>)
    ensures |r| == |ps|
  {
    seq(|ps|, i requires 0 <= i < |ps| => ps[i].payload)
  }

  /** The i-th packet cut from a stream's buffer: only the first one of a new stream is a SYN. */
  function SegmentOf(s: StreamState, ts: nat, i: nat, payload: seq<byte>): Packet {
    var syn := s.status.New? && i == 0;
    Packet(s.sendStreamID, s.recvStreamID, s.sequenceNumber + i, if s.last < 0 then NO_SEQN else 0, [],
           syn, syn && s.last < 0, false, false, false, payload, ts)
  }

  function CapacityOf(s: StreamState, i: nat): nat { if s.status.New? && i == 0 then s.synCapacity else 1730 - 22 }

  /** The i-th packet is full, or it is the last one and has emptied the buffer. */
  ghost predicate CutWell(s: StreamState, ts: nat, packets: seq<Packet>, eof: bool, i: nat)
    requires i < |packets|
  {
    var p := packets[i];
    && p == SegmentOf(s, ts, i, p.payload) && |p.payload| <= CapacityOf(s, i)
    && (|p.payload| == CapacityOf(s, i) || (i == |packets| - 1 && eof))
  }

  /** The packets have been cut from the front of s's buffer, one behind the other; t is what is left. */
  ghost predicate Cut(s: StreamState, ts: nat, packets: seq<Packet>, t: StreamState) {
    && (forall i :: 0 <= i < |packets| ==> CutWell(s, ts, packets, t.buffer.eof, i))
    && Flatten(Payloads(packets)) + t.buffer.pending == s.buffer.pending
    && (t.h.blind <==> s.h.blind || (s.last < 0 && |packets| > if s.status.New? then 1 else 0))
    && t == s.(sequenceNumber := s.sequenceNumber + |packets|, buffer := t.buffer,
               status := if s.status.New? && packets != [] then Open else s.status,
               h := s.h.(log := s.h.log + Payloads(packets), blind := t.h.blind))
  }

  lemma PayloadsSnoc(ps: seq<Packet>, p: Packet)
    ensures Payloads(ps + [p]) == Payloads(ps) + [p.payload]
    ensures Flatten(Payloads(ps + [p])) == Flatten(Payloads(ps)) + p.payload
  {
    assert Payloads(ps + [p]) == Payloads(ps) + [p.payload];
    FlattenSnoc(Payloads(ps), p.payload);
  }

  lemma CutNext(s: StreamState, ts: nat, packets: seq<Packet>, t: StreamState, n: int)
    requires Cut(s, ts, packets, t) && MoreToSegment(t, n)
    ensures var (u, p) := NextSegment(t, s.last < 0, ts); Cut(s, ts, packets + [p], u)
  {
    var (u, p) := NextSegment(t, s.last < 0, ts);
    var all := packets + [p];
    PayloadsSnoc(packets, p);
    assert t.status.New? ==> packets == [];
    var (payload, rest) := ReadBuffer(t.buffer, CapacityOf(s, |packets|));
    assert payload + rest.pending == t.buffer.pending;
    Append(Flatten(Payloads(packets)), payload, rest.pending);
    Append(s.h.log, Payloads(packets), [p.payload]);
    forall i | 0 <= i < |all| ensures CutWell(s, ts, all, u.buffer.eof, i) {
      if i < |packets| {
        assert CutWell(s, ts, packets, t.buffer.eof, i);
      }
    }
  }

  /** As many packets as there is room for, unless the buffer ran empty or the peer's stream is not known yet. */
  ghost predicate Enough(s: StreamState, slots: int, packets: seq<Packet>, t: StreamState) {
    && |packets| <= slots && (s.status.New? ==> packets != [])
    && (|packets| == slots || t.buffer.eof || s.sendStreamID == 0)
  }

  lemma {:induction false} SegmentCuts(s: StreamState, ts: nat, slots: int, packets: seq<Packet>, t: StreamState, n: int)
    requires Cut(s, ts, packets, t) && n == slots - |packets| >= 0 && (t.status.New? ==> n > 0)
    ensures var (u, all) := Segment(t, n, s.last < 0, ts, packets); Cut(s, ts, all, u) && Enough(s, slots, all, u)
    decreases t.status.New?, n
  {
    if MoreToSegment(t, n) {
      var (u, p) := NextSegment(t, s.last < 0, ts);
      CutNext(s, ts, packets, t, n);
      SegmentCuts(s, ts, slots, packets + [p], u, n - 1);
    }
  }

  /** Sent packets have increasing numbers, all of them assigned. */
  ghost predicate SentInOrder(s: StreamState) { Sorted(s.sent) && Below(s.sent, s.sequenceNumber) }

  lemma {:induction false} InsertLast(ps: seq<Packet>, q: Packet)
    requires forall i :: 0 <= i < |ps| ==> ps[i].seqn < q.seqn
    ensures Insert(ps, q) == ps + [q]
  {
    if ps != [] {
      InsertLast(ps[1..], q);
      assert ps == [ps[0]] + ps[1..];
    }
  }

  lemma {:induction false} InsertBehind(ps: seq<Packet>, qs: seq<Packet>)
    requires Sorted(ps + qs)
    ensures InsertAll(ps, qs) == ps + qs
    decreases |qs|
  {
    if qs == [] {
      assert ps + qs == ps;
    } else {
      var all := ps + qs;
      forall i | 0 <= i < |ps| ensures ps[i].seqn < qs[0].seqn {
        assert all[i] == ps[i] && all[|ps|] == qs[0];
      }
      InsertLast(ps, qs[0]);
      assert ps + [qs[0]] + qs[1..] == all;
      InsertBehind(ps + [qs[0]], qs[1..]);
    }
  }

  lemma CutSorted(s: StreamState, ts: nat, packets: seq<Packet>, t: StreamState)
    requires Cut(s, ts, packets, t) && SentInOrder(s)
    ensures Sorted(s.sent + packets)
  {
    var all, n := s.sent + packets, |s.sent|;
    forall i | 0 <= i < |packets| ensures packets[i].seqn == s.sequenceNumber + i {
      assert CutWell(s, ts, packets, t.buffer.eof, i);
    }
    forall i, j | 0 <= i < j < |all| ensures all[i].seqn < all[j].seqn {
      if i < n {
        assert s.sent[i] in s.sent;
      }
    }
  }

  /** The packets go out and are remembered; behind the last byte of a closing stream goes a closing packet. */
  ghost predicate Goes(u: StreamState, packets: seq<Packet>, t: StreamState) {
    if packets == [] then t == u else
      var v := u.(ackScheduled := false, sent := u.sent + packets, h := u.h.(wire := u.h.wire + packets));
      if u.status.Closing? && u.buffer.eof then ClosingPosted(v, t) && OnlyCloses(v, t) && (t.status, t.deleted) == (v.status, v.deleted)
      else t == v
  }

  /**
   SendBuffer: the free part of the window is filled with packets cut from the buffer, without a gap and as large as they
   may be.
   */
  ghost predicate Sends(s: StreamState, ts: nat, t: StreamState) {
    var slots := s.control.window - |s.sent|;
    if slots <= 0 then t == s
    else exists packets, u :: Cut(s, ts, packets, u) && Enough(s, slots, packets, u) && Goes(u, packets, t)
  }

  lemma SendExactly(s: StreamState, ts: nat)
    requires SentInOrder(s)
    ensures Sends(s, ts, SendBuffer(s, ts))
  {
    var slots := s.control.window - |s.sent|;
    if slots > 0 {
      CutNothing(s, ts);
      SegmentCuts(s, ts, slots, [], s, slots);
      var (u, packets) := Segment(s, slots, s.last < 0, ts, []);
      CutSorted(s, ts, packets, u);
      InsertBehind(u.sent, packets);
      CutGoes(s, ts, u, packets);
    }
  }

  lemma CutNothing(s: StreamState, ts: nat)
    ensures Cut(s, ts, [], s)
  {
    assert Payloads([]) == [] && s.h.log + [] == s.h.log;
  }

  lemma CutGoes(s: StreamState, ts: nat, u: StreamState, packets: seq<Packet>)
    requires s.control.window > |s.sent| && (u, packets) == Segment(s, s.control.window - |s.sent|, s.last < 0, ts, [])
    requires InsertAll(u.sent, packets) == u.sent + packets
    ensures Goes(u, packets, SendBuffer(s, ts))
  {
  }

  /** The first posted packet goes out; an open stream remembers it. */
  ghost predicate PostedGoes(s: StreamState, t: StreamState) {
    && s.posted != []
    && t == s.(posted := s.posted[1..], ackScheduled := false, sent := t.sent, h := s.h.(wire := s.h.wire + [s.posted[0]]))
    && if s.status.Open? then SavedWith(s.sent, s.posted[0], t.sent) else t.sent == s.sent
  }

  lemma PostedExactly(s: StreamState)
    requires Sorted(s.sent) && s.posted != []
    ensures PostedGoes(s, SendPosted(s))
  {
    InsertSaves(s.sent, s.posted[0]);
  }

  // ---------------------------------------------------------------- acknowledgements

  /** The packet with this number is acknowledged by ack. */
  function ClaimedBy(ack: Packet): Packet -> bool { (p: Packet) => p.seqn <= ack.ackThrough && p.seqn !in ack.nacks }

  function KeptBy(ack: Packet): Packet -> bool { (p: Packet) => !(p.seqn <= ack.ackThrough && p.seqn !in ack.nacks) }

  /**
   One acknowledged packet: the round trip time is averaged over as many packets as its number says, the timeout is one and
   a half times as long, and the window grows by one, up to 6 at every acknowledgement and from there to 128 once in a round
   trip time.
   */
  ghost predicate Measured(c: Control, p: Packet, ts: nat, d: Control) {
    var sum := c.rtt * p.seqn + Elapsed(ts, p.sendTime);
    var grows := c.window < 6 || ts > c.lastIncrease + d.rtt;
    && (p.seqn + 1) * d.rtt <= sum < (p.seqn + 1) * (d.rtt + 1)
    && 2 * d.rto <= 3 * d.rtt < 2 * d.rto + 2
    && d.window == (if !grows then c.window else if c.window >= 128 then 128 else c.window + 1)
    && d.lastIncrease == (if grows && c.window >= 6 then ts else c.lastIncrease)
  }

  lemma Quotient(a: int, n: nat)
    requires n > 0
    ensures n * (a / n) <= a < n * (a / n + 1)
  {
  }

  lemma AckOneExactly(c: Control, p: Packet, ts: nat)
    ensures Measured(c, p, ts, AckOne(c, p, ts))
  {
    Quotient(c.rtt * p.seqn + Elapsed(ts, p.sendTime), p.seqn + 1);
  }

  /** The packets, one after the other, take the control state from c to d. */
  ghost predicate MeasuredAll(c: Control, ps: seq<Packet>, ts: nat, d: Control)
    decreases |ps|, 1
  {
    if ps == [] then d == c else exists c1 :: MeasuredLast(c, ps, ts, c1, d)
  }

  ghost predicate MeasuredLast(c: Control, ps: seq<Packet>, ts: nat, c1: Control, d: Control)
    requires ps != []
    decreases |ps|, 0
  {
    MeasuredAll(c, ps[..|ps| - 1], ts, c1) && Measured(c1, ps[|ps| - 1], ts, d)
  }

  function PacketsAt(ps: seq<Packet>, ks: seq<nat>): (r: seq<Packet>)
    requires forall k :: k in ks ==> k < |ps|
    ensures |r| == |ks|
  {
    seq(|ks|, i requires 0 <= i < |ks| => assert ks[i] in ks; ps[ks[i]])
  }

  /** Exactly the packets that ack acknowledges are forgotten, and each of them is measured. */
  ghost predicate Erased(sent: seq<Packet>, ack: Packet, ts: nat, c: Control, left: seq<Packet>, d: Control, any: bool) {
    exists ks, gone ::
      && Places(sent, KeptBy(ack), ks) && Places(sent, ClaimedBy(ack), gone)
      && left == PacketsAt(sent, ks) && MeasuredAll(c, PacketsAt(sent, gone), ts, d) && (any <==> gone != [])
  }

  lemma MeasuredSnoc(c: Control, ps: seq<Packet>, ts: nat, c1: Control, p: Packet)
    requires MeasuredAll(c, ps, ts, c1)
    ensures MeasuredAll(c, ps + [p], ts, AckOne(c1, p, ts))
  {
    AckOneExactly(c1, p, ts);
    assert (ps + [p])[..|ps|] == ps;
    assert MeasuredLast(c, ps + [p], ts, c1, AckOne(c1, p, ts));
  }

  lemma AtSnoc(done: seq<Packet>, ks: seq<nat>, p: Packet)
    requires forall k :: k in ks ==> k < |done|
    ensures forall k :: k in ks + [|done|] ==> k < |done + [p]|
    ensures PacketsAt(done + [p], ks) == PacketsAt(done, ks) && PacketsAt(done + [p], ks + [|done|]) == PacketsAt(done, ks) + [p]
  {
    forall k | k in ks + [|done|] ensures k < |done + [p]| {
      assert k in ks || k == |done|;
    }
    forall i | 0 <= i < |ks| ensures ks[i] in ks && ks[i] in ks + [|done|] {
      assert (ks + [|done|])[i] == ks[i];
    }
    assert (ks + [|done|])[|ks|] == |done|;
  }

  /** Where the erasing loop is: the packets done are sorted out, kept are those of them that stay. */
  ghost predicate Erasing(done: seq<Packet>, ks: seq<nat>, gone: seq<nat>, ack: Packet, ts: nat, c0: Control,
                          kept: seq<Packet>, c: Control, any: bool) {
    && Places(done, KeptBy(ack), ks) && Places(done, ClaimedBy(ack), gone)
    && kept == PacketsAt(done, ks) && MeasuredAll(c0, PacketsAt(done, gone), ts, c) && (any <==> gone != [])
  }

  lemma KeepsNext(done: seq<Packet>, ks: seq<nat>, gone: seq<nat>, ack: Packet, ts: nat, c0: Control, kept: seq<Packet>,
                  c: Control, any: bool, p: Packet)
    requires Erasing(done, ks, gone, ack, ts, c0, kept, c, any) && KeptBy(ack)(p)
    ensures Erasing(done + [p], ks + [|done|], gone, ack, ts, c0, kept + [p], c, any)
  {
    PlacesSnoc(done, KeptBy(ack), ks, p);
    PlacesSnoc(done, ClaimedBy(ack), gone, p);
    AtSnoc(done, ks, p);
    AtSnoc(done, gone, p);
  }

  lemma ErasesNext(done: seq<Packet>, ks: seq<nat>, gone: seq<nat>, ack: Packet, ts: nat, c0: Control, kept: seq<Packet>,
                   c: Control, any: bool, p: Packet)
    requires Erasing(done, ks, gone, ack, ts, c0, kept, c, any) && ClaimedBy(ack)(p)
    ensures Erasing(done + [p], ks, gone + [|done|], ack, ts, c0, kept, AckOne(c, p, ts), true)
  {
    PlacesSnoc(done, KeptBy(ack), ks, p);
    PlacesSnoc(done, ClaimedBy(ack), gone, p);
    AtSnoc(done, ks, p);
    AtSnoc(done, gone, p);
    MeasuredSnoc(c0, PacketsAt(done, gone), ts, c, p);
  }

  lemma {:induction false} KeepsRest(done: seq<Packet>, ks: seq<nat>, gone: seq<nat>, ack: Packet, ts: nat, c0: Control,
                                     kept: seq<Packet>, c: Control, any: bool, rest: seq<Packet>)
    requires Erasing(done, ks, gone, ack, ts, c0, kept, c, any)
    requires forall i :: 0 <= i < |rest| ==> rest[i].seqn > ack.ackThrough
    ensures Erased(done + rest, ack, ts, c0, kept + rest, c, any)
    decreases |rest|
  {
    if rest == [] {
      assert done + rest == done && kept + rest == kept;
    } else {
      KeepsNext(done, ks, gone, ack, ts, c0, kept, c, any, rest[0]);
      KeepsRest(done + [rest[0]], ks + [|done|], gone, ack, ts, c0, kept + [rest[0]], c, any, rest[1..]);
      assert done + [rest[0]] + rest[1..] == done + rest && kept + [rest[0]] + rest[1..] == kept + rest;
    }
  }

  lemma {:induction false} ScanErases(done: seq<Packet>, ks: seq<nat>, gone: seq<nat>, ack: Packet, ts: nat, c0: Control,
                                      kept: seq<Packet>, c: Control, any: bool, rest: seq<Packet>)
    requires Erasing(done, ks, gone, ack, ts, c0, kept, c, any) && Sorted(rest)
    ensures var r := AckScan(kept, rest, ack, ts, c, any);
            Erased(done + rest, ack, ts, c0, r.sent, r.control, r.acknowledged)
    decreases |rest|
  {
    if rest == [] || rest[0].seqn > ack.ackThrough {
      KeepsRest(done, ks, gone, ack, ts, c0, kept, c, any, rest);
    } else {
      assert done + [rest[0]] + rest[1..] == done + rest;
      if rest[0].seqn in ack.nacks {
        KeepsNext(done, ks, gone, ack, ts, c0, kept, c, any, rest[0]);
        ScanErases(done + [rest[0]], ks + [|done|], gone, ack, ts, c0, kept + [rest[0]], c, any, rest[1..]);
      } else {
        ErasesNext(done, ks, gone, ack, ts, c0, kept, c, any, rest[0]);
        ScanErases(done + [rest[0]], ks, gone + [|done|], ack, ts, c0, kept, AckOne(c, rest[0], ts), true, rest[1..]);
      }
    }
  }

  lemma EraseExactly(sent: seq<Packet>, ack: Packet, ts: nat, c: Control)
    requires Sorted(sent)
    ensures var r := AckScan([], sent, ack, ts, c, false); Erased(sent, ack, ts, c, r.sent, r.control, r.acknowledged)
  {
    assert Erasing([], [], [], ack, ts, c, [], c, false);
    ScanErases([], [], [], ack, ts, c, [], c, false, sent);
    assert [] + sent == sent;
  }

  /** What is acknowledged is forgotten, and if that is anything, sending goes on in the window as it is now. */
  ghost predicate Resumed(s: StreamState, ack: Packet, ts: nat, left: seq<Packet>, c: Control, any: bool, u: StreamState) {
    && Erased(s.sent, ack, ts, s.control, left, c, any)
    && if any then Sends(s.(sent := left, control := c, resendAttempts := 0), ts, u) else u == s.(sent := left, control := c)
  }

  /** ProcessAck: after that, a closing stream closes if everything has been sent and acknowledged. */
  ghost predicate Acknowledged(s: StreamState, ack: Packet, ts: nat, t: StreamState) {
    exists left, c, any, u ::
      Resumed(s, ack, ts, left, c, any, u) && if u.status.Closing? then Closes(u, t) else t == u
  }

  lemma ErasedInOrder(s: StreamState, ack: Packet, ts: nat, left: seq<Packet>, c: Control, any: bool)
    requires SentInOrder(s) && Erased(s.sent, ack, ts, s.control, left, c, any)
    ensures SentInOrder(s.(sent := left, control := c, resendAttempts := 0))
  {
    var ks, gone :| Places(s.sent, KeptBy(ack), ks) && Places(s.sent, ClaimedBy(ack), gone) && left == PacketsAt(s.sent, ks);
    assert forall i :: 0 <= i < |ks| ==> ks[i] in ks;
    assert forall i :: 0 <= i < |left| ==> left[i] == s.sent[ks[i]] && left[i] in s.sent;
  }

  lemma AckResumes(s: StreamState, ack: Packet, ts: nat, r: Scan, s1: StreamState, u: StreamState)
    requires SentInOrder(s) && r == AckScan([], s.sent, ack, ts, s.control, false)
    requires s1 == s.(sent := r.sent, control := r.control, resendAttempts := 0)
    requires u == if r.acknowledged then SendBuffer(s1, ts) else s.(sent := r.sent, control := r.control)
    ensures Resumed(s, ack, ts, r.sent, r.control, r.acknowledged, u)
  {
    EraseExactly(s.sent, ack, ts, s.control);
    ErasedInOrder(s, ack, ts, r.sent, r.control, r.acknowledged);
    SendExactly(s1, ts);
  }

  lemma AckExactly(s: StreamState, ack: Packet, ts: nat)
    requires SentInOrder(s)
    ensures Acknowledged(s, ack, ts, ProcessAck(s, ack, ts))
  {
    var r := AckScan([], s.sent, ack, ts, s.control, false);
    var s1 := s.(sent := r.sent, control := r.control, resendAttempts := 0);
    var u := if r.acknowledged then SendBuffer(s1, ts) else s.(sent := r.sent, control := r.control);
    AckResumes(s, ack, ts, r, s1, u);
    CloseExactly(u);
  }

  // ---------------------------------------------------------------- receiving

  /** The packet ends the stream. */
  predicate Ends(p: Packet) { p.close || p.reset || p.badSignature }

  function NonEmpty(parts: seq<seq<byte>>): seq<seq<byte>> {
    if parts == [] then [] else
      var n := |parts| - 1;
      NonEmpty(parts[..n]) + if parts[n] == [] then [] else [parts[n]]
  }

  function Numbers(ps: seq<Packet>): (r: seq<nat>)
    ensures |r| == |ps|
  {
    seq(|ps|, i requires 0 <= i < |ps| => ps[i].seqn)
  }

  /** All that has been posted in between are closing packets, numbered on. */
  ghost predicate OnlyClosings(s: StreamState, t: StreamState) {
    && s.posted <= t.posted && t.sequenceNumber == s.sequenceNumber + (|t.posted| - |s.posted|)
    && forall i :: |s.posted| <= i < |t.posted| ==>
         t.posted[i].close && t.posted[i].payload == [] && t.posted[i].seqn == s.sequenceNumber + (i - |s.posted|)
  }

  /**
   The packets have been processed in this order: their payloads wait for the reader, and if one of them ends the stream it
   has been reset, answered by closing packets and taken off the table; otherwise nothing else has changed.
   */
  ghost predicate TookIn(s: StreamState, ps: seq<Packet>, t: StreamState) {
    && (ps != [] ==> t.last == ps[|ps| - 1].seqn)
    && t.receiveQueue == s.receiveQueue + NonEmpty(Payloads(ps)) && t.h.accepted == s.h.accepted + Numbers(ps)
    && t == s.(saved := t.saved, receiveQueue := t.receiveQueue, last := t.last, status := t.status, deleted := t.deleted,
               posted := t.posted, sequenceNumber := t.sequenceNumber,
               h := s.h.(accepted := t.h.accepted, log := t.h.log, fins := t.h.fins, blind := t.h.blind))
    && OnlyClosings(s, t)
    && (if exists p :: p in ps && Ends(p) then t.status.Reset? && t.deleted && |t.posted| > |s.posted|
        else t == s.(saved := t.saved, receiveQueue := t.receiveQueue, last := t.last, h := s.h.(accepted := t.h.accepted)))
  }

  lemma TakenParts(ps: seq<Packet>, p: Packet)
    ensures NonEmpty(Payloads(ps + [p])) == NonEmpty(Payloads(ps)) + if p.payload == [] then [] else [p.payload]
    ensures Numbers(ps + [p]) == Numbers(ps) + [p.seqn]
    ensures (exists q :: q in ps + [p] && Ends(q)) <==> (exists q :: q in ps && Ends(q)) || Ends(p)
  {
    PayloadsSnoc(ps, p);
    assert p in ps + [p];
    if q :| q in ps && Ends(q) {
      assert q in ps + [p];
    }
  }

  lemma ClosesOnly(s: StreamState, t: StreamState)
    requires Closes(s, t)
    ensures OnlyCloses(s, t) && OnlyClosings(s, t)
  {
  }

  /** Closing, if the signature is bad, then taking the packet in, then closing again, if it ends the stream. */
  lemma ProcessTakes(s: StreamState, p: Packet)
    ensures TookIn(s, [p], ProcessPacket(s, p)) && ProcessPacket(s, p).saved == s.saved
  {
    TakenParts([], p);
    assert [] + [p] == [p];
    ProcessPacketKeepsSaved(s, p);
    var s1 := if p.badSignature then Close(s) else s;
    CloseExactly(s);
    if p.badSignature {
      ClosesOnly(s, s1);
    }
    var s2 := s1.(receiveQueue := if p.payload == [] then s1.receiveQueue else s1.receiveQueue + [p.payload],
                  last := p.seqn, h := s1.h.(accepted := s1.h.accepted + [p.seqn]));
    if Ends(p) {
      CloseExactly(s2.(status := Reset));
      ClosesOnly(s2.(status := Reset), ProcessPacket(s, p));
    }
  }

  lemma TookMore(s: StreamState, ps: seq<Packet>, t: StreamState, t': StreamState, p: Packet, u: StreamState)
    requires TookIn(s, ps, t) && t' == t.(saved := t'.saved) && TookIn(t', [p], u)
    ensures TookIn(s, ps + [p], u)
  {
    TakenParts(ps, p);
    TakenParts([], p);
    assert [] + [p] == [p];
    Append(s.receiveQueue, NonEmpty(Payloads(ps)), NonEmpty(Payloads([p])));
    Append(s.h.accepted, Numbers(ps), Numbers([p]));
  }

  /** The first k saved packets follow number n without a gap, and the next one does not. */
  ghost predicate FollowOn(saved: seq<Packet>, n: nat, k: nat) {
    && k <= |saved| && (forall i :: 0 <= i < k ==> saved[i].seqn == n + 1 + i)
    && (k < |saved| ==> saved[k].seqn != n + 1 + k)
  }

  /** A packet and the saved ones behind it have been processed. */
  ghost predicate TookDue(s: StreamState, p: Packet, k: nat, t: StreamState) {
    && FollowOn(s.saved, p.seqn, k) && TookIn(s, [p] + s.saved[..k], t) && t.saved == s.saved[k..]
  }

  lemma {:induction false} DrainTakes(s: StreamState, p: Packet, k: nat, t: StreamState) returns (k': nat)
    requires k <= |s.saved| && forall i :: 0 <= i < k ==> s.saved[i].seqn == p.seqn + 1 + i
    requires TookIn(s, [p] + s.saved[..k], t) && t.saved == s.saved[k..]
    ensures TookDue(s, p, k', Drain(t))
    decreases |s.saved| - k
  {
    DrainedSoFar(s, p, k, t);
    if t.saved != [] && t.saved[0].seqn == t.last + 1 {
      var u := DrainOne(s, p, k, t);
      k' := DrainTakes(s, p, k + 1, u);
    } else {
      k' := k;
    }
  }

  lemma DrainedSoFar(s: StreamState, p: Packet, k: nat, t: StreamState)
    requires k <= |s.saved| && forall i :: 0 <= i < k ==> s.saved[i].seqn == p.seqn + 1 + i
    requires TookIn(s, [p] + s.saved[..k], t)
    ensures t.last == p.seqn + k
  {
    var ps := [p] + s.saved[..k];
    assert ps[|ps| - 1] == if k == 0 then p else s.saved[k - 1];
  }

  lemma DrainOne(s: StreamState, p: Packet, k: nat, t: StreamState) returns (u: StreamState)
    requires k < |s.saved| && TookIn(s, [p] + s.saved[..k], t) && t.saved == s.saved[k..]
    ensures u == ProcessPacket(t.(saved := t.saved[1..]), t.saved[0])
    ensures TookIn(s, [p] + s.saved[..k + 1], u) && u.saved == s.saved[k + 1..]
  {
    var ps, q, t' := [p] + s.saved[..k], s.saved[k], t.(saved := t.saved[1..]);
    assert s.saved[..k + 1] == s.saved[..k] + [q] && [p] + (s.saved[..k] + [q]) == ps + [q];
    u := ProcessPacket(t', q);
    ProcessTakes(t', q);
    TookMore(s, ps, t, t', q, u);
  }

  lemma ProcessDrainTakes(s: StreamState, p: Packet) returns (k: nat)
    ensures TookDue(s, p, k, Drain(ProcessPacket(s, p)))
  {
    ProcessTakes(s, p);
    assert [p] + s.saved[..0] == [p] && s.saved[0..] == s.saved;
    k := DrainTakes(s, p, 0, ProcessPacket(s, p));
  }

  /** A plain acknowledgement goes out: exact up to the highest received number, unless more than 255 numbers are missing. */
  ghost predicate Acks(s: StreamState, t: StreamState) {
    if HighestReceived(s) < 0 then t == s else
      exists p ::
        && t == s.(h := s.h.(wire := s.h.wire + [p], cut := t.h.cut)) && (t.h.cut <==> s.h.cut || Missing(s) >= MAX_NACKS)
        && p == Packet(s.sendStreamID, s.recvStreamID, 0, p.ackThrough, p.nacks, false, false, false, false, false, [], 0)
        && (ExactAck(s, p) <==> Missing(s) < MAX_NACKS)
        && (Missing(s) < MAX_NACKS ==> p.ackThrough == HighestReceived(s))
  }

  lemma QuickAckActs(s: StreamState)
    requires ReceiverOk(s)
    ensures Acks(s, SendQuickAck(s))
  {
    if HighestReceived(s) >= 0 {
      QuickAckExact(s);
      var p := QuickAck(s).0;
      assert SendQuickAck(s).h.wire == s.h.wire + [p];
    }
  }

  /** An early packet is put with the saved ones, unless there is one with its number. */
  ghost predicate SavedWith(saved: seq<Packet>, p: Packet, r: seq<Packet>) {
    && Sorted(r) && Seqns(r) == Seqns(saved) + {p.seqn} && (p.seqn in Seqns(saved) ==> r == saved)
    && (p.seqn !in Seqns(saved) ==> forall q :: q in r <==> q in saved || q == p)
  }

  lemma {:induction false} InsertTaken(ps: seq<Packet>, p: Packet)
    requires Sorted(ps) && p.seqn in Seqns(ps)
    ensures Insert(ps, p) == ps
  {
    assert ps == [ps[0]] + ps[1..];
    SeqnsCons(ps[0], ps[1..]);
    if p.seqn > ps[0].seqn {
      InsertTaken(ps[1..], p);
    }
  }

  lemma {:induction false} InsertNew(ps: seq<Packet>, p: Packet)
    requires p.seqn !in Seqns(ps)
    ensures p in Insert(ps, p)
  {
    if ps != [] && p.seqn > ps[0].seqn {
      assert ps == [ps[0]] + ps[1..];
      SeqnsCons(ps[0], ps[1..]);
      InsertNew(ps[1..], p);
    } else {
      assert Insert(ps, p)[0] == p;
    }
  }

  lemma InsertSaves(ps: seq<Packet>, p: Packet)
    requires Sorted(ps)
    ensures SavedWith(ps, p, Insert(ps, p))
  {
    InsertOk(ps, p);
    if p.seqn in Seqns(ps) {
      InsertTaken(ps, p);
    } else {
      InsertNew(ps, p);
    }
  }

  /**
   The receiving half: a packet that is due is processed with the saved ones behind it and acknowledged later, a SYN that
   starts a stream is answered; a repeated or early one is acknowledged at once, the early one being saved.  Before the
   first packet nothing can be acknowledged yet.
   */
  ghost predicate Receives(s: StreamState, p: Packet, ts: nat, t: StreamState) {
    if p.seqn == 0 && !p.syn then t == s
    else if p.syn || p.seqn == s.last + 1 then exists k, u :: TookDue(s, p, k, u) && Answers(u, p, ts, t)
    else if p.seqn <= s.last then Acks(s, t)
    else exists saved ::
      SavedWith(s.saved, p, saved) &&
      if s.last >= 0 then Acks(s.(saved := saved, ackScheduled := false), t) else t == s.(saved := saved, ackScheduled := true)
  }

  ghost predicate Answers(u: StreamState, p: Packet, ts: nat, t: StreamState) {
    if u.status.Open? then t == u.(ackScheduled := true) else if p.syn then Sends(u, ts, t) else t == u
  }

  lemma SavedReceiver(s: StreamState, p: Packet, scheduled: bool)
    requires ReceiverOk(s) && p.seqn > s.last + 1 && !p.syn
    ensures ReceiverOk(s.(saved := Insert(s.saved, p), ackScheduled := scheduled))
  {
    InsertOk(s.saved, p);
  }

  lemma TookSentInOrder(s: StreamState, ps: seq<Packet>, u: StreamState)
    requires TookIn(s, ps, u) && SentInOrder(s)
    ensures SentInOrder(u)
  {
  }

  lemma ReceiveExactly(s: StreamState, p: Packet, ts: nat)
    requires SentInOrder(s) && ReceiverOk(s)
    ensures Receives(s, p, ts, Receive(s, p, ts))
  {
    if p.seqn == 0 && !p.syn {
    } else if p.syn || p.seqn == s.last + 1 {
      var k := ProcessDrainTakes(s, p);
      var u := Drain(ProcessPacket(s, p));
      TookSentInOrder(s, [p] + s.saved[..k], u);
      SendExactly(u, ts);
      assert Answers(u, p, ts, Receive(s, p, ts));
    } else if p.seqn <= s.last {
      QuickAckActs(s);
    } else {
      InsertSaves(s.saved, p);
      SavedReceiver(s, p, false);
      QuickAckActs(s.(saved := Insert(s.saved, p), ackScheduled := false));
    }
  }

  /** A packet arrives: the peer's stream id is that of the first one, and its acknowledgement comes before the packet itself. */
  ghost predicate Handles(s: StreamState, p: Packet, ts: nat, t: StreamState) {
    exists u :: Receives(u, p, ts, t) && HeardAck(s.(sendStreamID := if s.sendStreamID == 0 then p.receiveStreamID else s.sendStreamID), p, ts, u)
  }

  ghost predicate HeardAck(s: StreamState, p: Packet, ts: nat, u: StreamState) {
    if p.noAck then u == s else Acknowledged(s, p, ts, u)
  }

  lemma HandleExactly(s: StreamState, p: Packet, ts: nat)
    requires SenderOk(s) && ReceiverOk(s)
    ensures Handles(s, p, ts, HandleNextPacket(s, p, ts))
  {
    var s0 := s.(sendStreamID := if s.sendStreamID == 0 then p.receiveStreamID else s.sendStreamID);
    var u := if p.noAck then s0 else ProcessAck(s0, p, ts);
    OwnGrows(s, s0, s.h.wire);
    OwnGrows(s, s0, s.posted);
    OwnGrows(s, s0, s.sent);
    if !p.noAck {
      ProcessAckOk(s0, p, ts);
      AckExactly(s0, p, ts);
    }
    ReceiveExactly(u, p, ts);
    assert HeardAck(s0, p, ts, u);
  }

  /** The acknowledgement timer: what is scheduled is sent while the stream is open, and without anything received it resets. */
  ghost predicate AckTimes(s: StreamState, t: StreamState) {
    if !s.ackScheduled then t == s
    else if s.last < 0 then Closes(s.(status := Reset), t)
    else if s.status.Open? then exists u :: Acks(s, u) && t == u.(ackScheduled := false)
    else t == s.(ackScheduled := false)
  }

  lemma AckTimerExactly(s: StreamState)
    requires ReceiverOk(s)
    ensures AckTimes(s, HandleAckSendTimer(s))
  {
    CloseExactly(s.(status := Reset));
    QuickAckActs(s);
  }

  // ---------------------------------------------------------------- what has been received

  /** The numbers of the saved packets processed along with one. */
  lemma DrainedNumbers(saved: seq<Packet>, n: nat, k: nat, m: nat)
    requires Sorted(saved) && FollowOn(saved, n, k)
    ensures m in Seqns(saved) <==> n < m <= n + k || m in Seqns(saved[k..])
  {
    if m in Seqns(saved) {
      var i :| 0 <= i < |saved| && saved[i].seqn == m;
      if i >= k {
        assert saved[k..][i - k] == saved[i];
      }
    }
    if n < m <= n + k {
      assert saved[m - n - 1].seqn == m;
    }
    if m in Seqns(saved[k..]) {
      var i :| 0 <= i < |saved[k..]| && saved[k..][i].seqn == m;
      assert saved[k + i].seqn == m;
    }
  }

  /**
   A packet other than a plain acknowledgement or a stale SYN makes exactly its own number received in addition, at once or
   by being saved.
   */
  lemma ReceivedExactly(s: StreamState, p: Packet, ts: nat, t: StreamState, m: nat)
    requires SenderOk(s) && ReceiverOk(s) && t == HandleNextPacket(s, p, ts)
    requires p.syn ==> p.seqn == 0 && s.last < 0
    ensures Received(t, m) <==> Received(s, m) || (m == p.seqn && (p.seqn > 0 || p.syn))
  {
    var s0 := s.(sendStreamID := if s.sendStreamID == 0 then p.receiveStreamID else s.sendStreamID);
    var u := if p.noAck then s0 else ProcessAck(s0, p, ts);
    OwnGrows(s, s0, s.h.wire);
    OwnGrows(s, s0, s.posted);
    OwnGrows(s, s0, s.sent);
    if !p.noAck {
      ProcessAckOk(s0, p, ts);
    }
    ReceivedHere(u, p, ts, m);
  }

  lemma ReceivedHere(s: StreamState, p: Packet, ts: nat, m: nat)
    requires SenderOk(s) && ReceiverOk(s) && (p.syn ==> p.seqn == 0 && s.last < 0)
    ensures Received(Receive(s, p, ts), m) <==> Received(s, m) || (m == p.seqn && (p.seqn > 0 || p.syn))
  {
    if p.seqn == 0 && !p.syn {
    } else if p.syn || p.seqn == s.last + 1 {
      DrainedHere(s, p, m);
      ReceivedDue(s, p, ts, m);
    } else if p.seqn > s.last {
      ReceivedEarly(s, p, ts, m);
    }
  }

  lemma ReceivedDue(s: StreamState, p: Packet, ts: nat, m: nat)
    requires p.seqn == s.last + 1 && (p.seqn > 0 || p.syn)
    ensures Received(Receive(s, p, ts), m) <==> Received(Drain(ProcessPacket(s, p)), m)
  {
    SendKeepsReceiver(Drain(ProcessPacket(s, p)), ts);
  }

  lemma ReceivedEarly(s: StreamState, p: Packet, ts: nat, m: nat)
    requires !p.syn && p.seqn > s.last + 1
    ensures Received(Receive(s, p, ts), m) <==> Received(s, m) || m == p.seqn
  {
    InsertSeqns(s.saved, p);
    QuickAckKeepsReceiver(s.(saved := Insert(s.saved, p), ackScheduled := false));
  }

  lemma QuickAckKeepsReceiver(s: StreamState)
    ensures SameReceiver(s, SendQuickAck(s))
  {
  }

  lemma DrainedHere(s: StreamState, p: Packet, m: nat)
    requires ReceiverOk(s) && p.seqn == s.last + 1
    ensures Received(Drain(ProcessPacket(s, p)), m) <==> Received(s, m) || m == p.seqn
  {
    var k := ProcessDrainTakes(s, p);
    DrainedNumbers(s.saved, p.seqn, k, m);
    DrainedSoFar(s, p, k, Drain(ProcessPacket(s, p)));
  }

  lemma SendKeepsReceiver(s: StreamState, ts: nat)
    ensures SameReceiver(s, SendBuffer(s, ts))
  {
    SegmentKeepsReceiver(s, s.control.window - |s.sent|, s.last < 0, ts, []);
  }

  lemma {:induction false} SegmentKeepsReceiver(s: StreamState, n: int, isNoAck: bool, ts: nat, packets: seq<Packet>)
    ensures SameReceiver(s, Segment(s, n, isNoAck, ts, packets).0)
    decreases s.status.New?, if n > 0 then n else 0
  {
    if MoreToSegment(s, n) {
      var (s', p) := NextSegment(s, isNoAck, ts);
      SegmentKeepsReceiver(s', n - 1, isNoAck, ts, packets + [p]);
    }
  }
}
