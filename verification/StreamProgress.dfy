/**
 What a stream end owes its reader over whole runs: exactly the packets it is
 handed are received, and once all numbers have been handed over, all bytes
 can be read.
 */
module StreamProgress {
  import opened Bytes
  import opened Streaming
  import opened StreamInvariants
  import opened StreamRuns
  import opened StreamSteps

  /** The number that an event hands to own, unless it brings a plain acknowledgement. */
  ghost predicate Brings(own: StreamState, peer: StreamState, e: Event, n: nat) {
    Hands(own, peer, e) && var p := peer.h.wire[e.k]; p.seqn == n && (n > 0 || p.syn)
  }

  /** Some packet with number n was handed to the end at A, or to the other one. */
  ghost predicate WasHanded(s: System, moves: seq<Move>, atA: bool, n: nat)
    decreases |moves|
  {
    moves != [] &&
    var m := moves[0];
    || (m.atA == atA && if atA then Brings(s.a, s.b, m.event, n) else Brings(s.b, s.a, m.event, n))
    || WasHanded(Apply(s, m), moves[1..], atA, n)
  }

  /** An event makes received what it brings, and nothing else. */
  lemma EventReceives(own: StreamState, peer: StreamState, e: Event, n: nat)
    requires SenderOk(own) && ReceiverOk(own) && SenderOk(peer) && Fresh(own, peer, e)
    ensures Received(After(own, peer, e), n) <==> Received(own, n) || Brings(own, peer, e, n)
  {
    match e
    case AppWrite(buf) => WriteOk(own, buf);
    case AppRead(len) => ReadSomeOk(own, len);
    case AppClose => CloseOk(own);
    case RunSendBuffer(ts) => SendBufferOk(own, ts);
    case RunPosted => SendPostedOk(own);
    case Deliver(k, ts) =>
      if Hands(own, peer, e) {
        var p := peer.h.wire[k];
        assert p in peer.h.wire && OwnPacket(peer, p);
        ReceivedExactly(own, p, ts, HandleNextPacket(own, p, ts), n);
      }
    case ResendTimer(ts) => ResendOk(own, ts);
    case AckTimer => AckTimerOk(own);
  }

  lemma MoveReceives(s: System, m: Move, atA: bool, n: nat)
    requires Base(s) && FreshMove(s, m)
    ensures var t := Apply(s, m);
            && (Received(t.a, n) <==> Received(s.a, n) || (m.atA && Brings(s.a, s.b, m.event, n)))
            && (Received(t.b, n) <==> Received(s.b, n) || (!m.atA && Brings(s.b, s.a, m.event, n)))
  {
    if m.atA {
      EventReceives(s.a, s.b, m.event, n);
    } else {
      EventReceives(s.b, s.a, m.event, n);
    }
  }

  ghost function EndOf(s: System, atA: bool): StreamState { if atA then s.a else s.b }

  /** In a run without a stale SYN, an end has received exactly the numbers it was handed. */
  lemma {:induction false} ReceivedIsHanded(s: System, moves: seq<Move>, atA: bool, n: nat)
    requires Base(s) && SynOnce(s, moves)
    ensures Received(EndOf(Exec(s, moves), atA), n) <==> Received(EndOf(s, atA), n) || WasHanded(s, moves, atA, n)
    decreases |moves|
  {
    if moves == [] {
    } else {
      MoveOk(s, moves[0]);
      MoveReceives(s, moves[0], atA, n);
      ReceivedIsHanded(Apply(s, moves[0]), moves[1..], atA, n);
    }
  }

  /** The first n payloads of x have been or can be read by the reader behind y, in their order. */
  ghost predicate Readable(x: StreamState, y: StreamState, n: nat) {
    n <= |x.h.log| && Flatten(x.h.log[..n]) <= y.h.delivered + Flatten(y.receiveQueue)
  }

  lemma AllBelowReceived(x: StreamState, y: StreamState, n: nat)
    requires SenderOk(x) && ReceiverOk(y) && Delivery(x.h.log, y) && forall m: nat :: m < n ==> Received(y, m)
    ensures Readable(x, y, n)
    ensures n == x.sequenceNumber && x.buffer.pending == [] ==> y.h.delivered + Flatten(y.receiveQueue) == x.h.submitted
  {
    var got := y.last + 1;
    if got < n {
      assert Received(y, got);
      assert got in Seqns(y.saved);
      SeqnsIn(y.saved, got);
      assert false;
    }
    assert x.h.log[..got][..n] == x.h.log[..n];
    FlattenPrefix(x.h.log[..got], n);
    if n == x.sequenceNumber && x.buffer.pending == [] {
      assert x.h.log[..got] == x.h.log;
      assert Flatten(x.h.log) + [] == Flatten(x.h.log);
    }
  }

  /**
   However packets are dropped, repeated and reordered: once every number below n has been handed to an end, its reader
   can read the first n payloads of its peer; and once all numbers have been, and the peer's buffer is empty, everything the
   peer wrote.
   */
  lemma HandedIsReadable(u: Setup, moves: seq<Move>, atA: bool, n: nat)
    requires SynOnce(Start(u), moves) && forall m: nat :: m < n ==> WasHanded(Start(u), moves, atA, m)
    ensures var t := Exec(Start(u), moves);
            var x, y := EndOf(t, !atA), EndOf(t, atA);
            && Readable(x, y, n)
            && (n == x.sequenceNumber && x.buffer.pending == [] ==> y.h.delivered + Flatten(y.receiveQueue) == x.h.submitted)
  {
    var s := Start(u);
    StartOk(u);
    RunDirections(s, moves);
    var t := Exec(s, moves);
    if atA {
      AllHanded(s, moves, t.a, atA, n);
      AllBelowReceived(t.b, t.a, n);
    } else {
      AllHanded(s, moves, t.b, atA, n);
      AllBelowReceived(t.a, t.b, n);
    }
  }

  lemma AllHanded(s: System, moves: seq<Move>, y: StreamState, atA: bool, n: nat)
    requires Base(s) && SynOnce(s, moves) && y == EndOf(Exec(s, moves), atA)
    requires forall m: nat :: m < n ==> WasHanded(s, moves, atA, m)
    ensures forall m: nat :: m < n ==> Received(y, m)
  {
    forall m: nat | m < n ensures Received(y, m) {
      ReceivedIsHanded(s, moves, atA, m);
    }
  }
}
