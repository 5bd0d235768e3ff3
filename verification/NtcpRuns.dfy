/**
 Every run of an NTCP sender: order, what termination and write errors do to
 it, and delivery at the other end, for message objects posted once or again.
 */
module NtcpRuns {
  import opened Bytes
  import opened Cbc
  import opened Ntcp
  import opened NtcpBuffers
  import opened NtcpRepeats
  import opened NtcpSend

  datatype Event<T> = PostEvent(msgs: seq<T>) | SentEvent(error: bool) | TerminateEvent

  function Apply<T>(c: Control<T>, e: Event<T>): Control<T> {
    match e
    case PostEvent(msgs) => Posted(c, msgs)
    case SentEvent(error) => if c.outstanding > 0 then Finished(c, error) else c
    case TerminateEvent => Terminated(c)
  }

  function Exec<T>(c: Control<T>, es: seq<Event<T>>): Control<T>
    decreases |es|
  {
    if es == [] then c else Exec(Apply(c, es[0]), es[1..])
  }

  // ---------------------------------------------------------------- order

  /**
   At most one write is under way, nothing waits unless one is, and what was written and what waits are the first of what
   was posted, in order.
   */
  ghost predicate InOrder<T>(c: Control<T>) {
    && c.outstanding == (if c.isSending then 1 else 0)
    && (!c.isSending || c.isTerminated ==> c.queue == [])
    && Written(c) + c.queue <= c.posted
  }

  /** Nothing that was posted is missing. */
  ghost predicate Whole<T>(c: Control<T>) { Written(c) + c.queue == c.posted }

  ghost predicate Ordered<T>(c: Control<T>) { InOrder(c) && Whole(c) }

  /** A session that is not terminated misses nothing. */
  ghost predicate Sound<T>(c: Control<T>) { InOrder(c) && (!c.isTerminated ==> Whole(c)) }

  lemma WrittenMore<T>(c: Control<T>, msgs: seq<T>)
    ensures Flatten(c.writes + [msgs]) == Written(c) + msgs
  {
    FlattenSnoc(c.writes, msgs);
  }

  lemma ConnectedOrdered<T>(info: T)
    ensures Ordered(Opened(Initial(), info))
  {
    assert [] + [info] == [info];
  }

  lemma PostOrdered<T>(c: Control<T>, msgs: seq<T>)
    requires Sound(c)
    ensures Sound(Posted(c, msgs))
    ensures Whole(Posted(c, msgs)) <==> Whole(c)
  {
    if !c.isTerminated {
      if c.isSending {
        Append(Written(c), c.queue, msgs);
      } else {
        WrittenMore(c, msgs);
        assert Written(c) + [] == Written(c) && Written(c) + msgs + [] == Written(c) + msgs;
      }
    }
  }

  /**
   A finished write keeps the order; so does a failed one if nothing is queued.  After a successful one nothing waits any
   more: all that did is in one further write.
   */
  lemma FinishedOrdered<T>(c: Control<T>, error: bool)
    requires Sound(c) && c.outstanding > 0 && (error ==> c.queue == [])
    ensures Sound(Finished(c, error))
    ensures Whole(Finished(c, error)) <==> Whole(c)
    ensures Finished(c, error).queue == []
    ensures Finished(c, error).writes == if c.queue == [] then c.writes else c.writes + [c.queue]
  {
    WrittenMore(c, c.queue);
    assert Written(c) + c.queue + [] == Written(c) + c.queue;
  }

  /** A terminated session writes and accepts nothing any more, whatever happens to it. */
  lemma {:induction false} TerminatedForGood<T>(c: Control<T>, es: seq<Event<T>>)
    requires c.isTerminated && c.queue == []
    ensures var d := Exec(c, es); d.isTerminated && d.queue == [] && d.writes == c.writes && d.posted == c.posted
    decreases |es|
  {
    if es == [] {
    } else {
      TerminatedForGood(Apply(c, es[0]), es[1..]);
    }
  }

  /** The event terminates a session with messages in its queue. */
  predicate DropsQueue<T>(c: Control<T>, e: Event<T>) { e.TerminateEvent? && !c.isTerminated && |c.queue| > 0 }

  /** Termination keeps everything accounted for if and only if nothing was queued. */
  lemma TerminatedOrdered<T>(c: Control<T>)
    requires Sound(c)
    ensures Sound(Terminated(c))
    ensures Whole(Terminated(c)) <==> Whole(c) && !DropsQueue(c, TerminateEvent)
  {
    assert Written(c) + [] == Written(c);
    if !c.isTerminated {
      assert |c.posted| == |Written(c)| + |c.queue|;
    }
  }

  /** The event reports a failed write while messages are queued. */
  predicate LeavesQueue<T>(c: Control<T>, e: Event<T>) { e.SentEvent? && e.error && c.outstanding > 0 && |c.queue| > 0 }

  lemma EventOrdered<T>(c: Control<T>, e: Event<T>)
    requires Sound(c) && !LeavesQueue(c, e)
    ensures Sound(Apply(c, e))
    ensures Whole(Apply(c, e)) <==> Whole(c) && !DropsQueue(c, e)
  {
    match e
    case PostEvent(msgs) => PostOrdered(c, msgs);
    case SentEvent(error) => if c.outstanding > 0 { FinishedOrdered(c, error); }
    case TerminateEvent => TerminatedOrdered(c);
  }

  /** No write fails while messages are queued. */
  predicate NeverLeaves<T>(c: Control<T>, es: seq<Event<T>>)
    decreases |es|
  {
    |es| == 0 || (!LeavesQueue(c, es[0]) && NeverLeaves(Apply(c, es[0]), es[1..]))
  }

  /** At no point of the run a session with messages in its queue is terminated. */
  predicate NeverDrops<T>(c: Control<T>, es: seq<Event<T>>)
    decreases |es|
  {
    |es| == 0 || (!DropsQueue(c, es[0]) && NeverDrops(Apply(c, es[0]), es[1..]))
  }

  /**
   As long as no write fails with messages queued, every run after Connected keeps the order, and what was written and
   what waits are all that was posted if and only if no termination met a non-empty queue.
   */
  lemma {:induction false} RunOrdered<T>(c: Control<T>, es: seq<Event<T>>)
    requires Sound(c) && NeverLeaves(c, es)
    ensures Sound(Exec(c, es))
    ensures Whole(Exec(c, es)) <==> Whole(c) && NeverDrops(c, es)
    decreases |es|
  {
    if es == [] {
    } else {
      EventOrdered(c, es[0]);
      RunOrdered(Apply(c, es[0]), es[1..]);
    }
  }

  /** Whenever no write is under way in such a run of a session that is not terminated, all that was posted has been written. */
  lemma IdleAllWritten<T>(info: T, es: seq<Event<T>>)
    requires NeverLeaves(Opened(Initial(), info), es)
    ensures var c := Exec(Opened(Initial(), info), es);
            !c.isSending && !c.isTerminated ==> Written(c) == c.posted
  {
    ConnectedOrdered(info);
    RunOrdered(Opened(Initial(), info), es);
    var c := Exec(Opened(Initial(), info), es);
    assert Written(c) + [] == Written(c);
  }

  /** A write error keeps the order if and only if nothing was queued: a non-empty queue is left behind. */
  lemma ErrorOrdered<T>(c: Control<T>)
    requires Ordered(c) && c.isSending
    ensures Ordered(Finished(c, true)) <==> c.queue == []
  {
  }

  /** Right after Connected a write error is such a case: the router info waits behind the time. */
  lemma ErrorAfterConnected<T>(info: T)
    ensures var c := Finished(Opened(Initial(), info), true);
            !Ordered(c) && !c.isSending && c.queue == [info] && c.outstanding == 0
  {
    ConnectedOrdered(info);
    ErrorOrdered(Opened(Initial(), info));
  }

  /** And the next message posted after it overtakes the queue, unless the two commute. */
  lemma ErrorOvertakes<T>(c: Control<T>, msgs: seq<T>)
    requires Ordered(c) && c.isSending && !c.isTerminated
    ensures var d := Posted(Finished(c, true), msgs);
            Written(d) + d.queue == d.posted <==> msgs + c.queue == c.queue + msgs
  {
    var w := Written(c);
    WrittenMore(c, msgs);
    assert w + c.queue + msgs == w + (c.queue + msgs);
    assert w + msgs + c.queue == w + (msgs + c.queue);
    assert (w + (c.queue + msgs))[|w|..] == c.queue + msgs;
    assert (w + (msgs + c.queue))[|w|..] == msgs + c.queue;
  }

  // ---------------------------------------------------------------- delivery

  /** The line right after Connected: the time's frame is on the wire. */
  function Start<T(==)>(v: Env, iv: Block, mem: Memory<T>, time: Item): Line<T> {
    TimeSent(v, Line(mem, iv, []), time)
  }

  ghost predicate SizesOk<T>(mem: Memory<T>, ms: seq<T>) {
    forall i :: 0 <= i < |ms| ==> 1 <= At(mem, ms[i]).len <= NTCP_MAX_MESSAGE_SIZE
  }

  lemma SizesParts<T>(mem: Memory<T>, a: seq<T>, b: seq<T>)
    requires SizesOk(mem, a + b)
    ensures SizesOk(mem, a) && SizesOk(mem, b)
  {
    forall i | 0 <= i < |a| ensures 1 <= At(mem, a[i]).len <= NTCP_MAX_MESSAGE_SIZE {
      assert (a + b)[i] == a[i];
    }
    forall i | 0 <= i < |b| ensures 1 <= At(mem, b[i]).len <= NTCP_MAX_MESSAGE_SIZE {
      assert (a + b)[|a| + i] == b[i];
    }
  }

  lemma {:induction false} FramedOk<T>(v: Env, l: Line<T>, writes: seq<seq<T>>)
    requires SizesOk(l.memory, Flatten(writes))
    ensures ItemsOk(Framed(v, l, writes))
    decreases |writes|
  {
    if writes == [] {
    } else {
      var before, ms := writes[..|writes| - 1], writes[|writes| - 1];
      FlattenLast(writes);
      SizesParts(l.memory, Flatten(before), ms);
      FramedOk(v, l, before);
      forall i | 0 <= i < |ms| ensures 1 <= At(PutAll(v, l, before).memory, ms[i]).len <= NTCP_MAX_MESSAGE_SIZE {
        WritesLength(v, l, before, ms[i]);
      }
    }
  }

  /** The time's frame and those of the messages form one chain. */
  lemma WireIsFrames<T>(v: Env, iv: Block, mem: Memory<T>, time: Item, writes: seq<seq<T>>)
    requires EachDistinct(writes)
    ensures var l := Start(v, iv, mem, time);
            PutAll(v, l, writes).wire == Frames(v, iv, [time] + Framed(v, l, writes))
  {
    var l := Start(v, iv, mem, time);
    var e := Ciphertext(v, iv, time);
    SentAsFramed(v, l, writes);
    FramesCons(v, iv, time, Framed(v, l, writes));
    assert [] + e == e;
  }

  /**
   As long as no write refers to an object twice, any part of what is on the wire, in any chunks, delivers what the
   buffers held when their frames were made.
   */
  lemma ReceivedAsFramed<T>(v: Env, iv: Block, mem: Memory<T>, time: Item, writes: seq<seq<T>>, chunks: seq<seq<byte>>)
    requires EachDistinct(writes) && ItemOk(time) && SizesOk(mem, Flatten(writes))
    requires Flatten(chunks) <= Unblock(PutAll(v, Start(v, iv, mem, time), writes).wire)
    ensures var r := FeedAll(v.cipher, v.key, v.adler, Conn(Rx([], [], false), iv, []), chunks);
            var items := [time] + Framed(v, Start(v, iv, mem, time), writes);
            !r.rx.failed && r.rx.delivered == Arrived(v.adler, items, |Flatten(chunks)| / 16)
  {
    WireIsFrames(v, iv, mem, time, writes);
    FramedOk(v, Start(v, iv, mem, time), writes);
    FramingRoundTrip(v.cipher, v.key, iv, v.adler, [time] + Framed(v, Start(v, iv, mem, time), writes), chunks);
  }

  lemma WrittenParts<T>(mem: Memory<T>, c: Control<T>)
    requires Written(c) <= c.posted && Distinct(c.posted) && SizesOk(mem, c.posted)
    ensures Distinct(Written(c)) && SizesOk(mem, Written(c))
  {
    var rest := c.posted[|Written(c)|..];
    assert c.posted == Written(c) + rest;
    DistinctParts(Written(c), rest);
    SizesParts(mem, Written(c), rest);
  }

  /**
   Sending and receiving together: in a run in which no write fails with messages queued and no message object is posted
   twice, any amount of what was written, cut into any chunks, is delivered as the messages whose frames are complete, in
   the order they were posted.
   */
  lemma SentIsReceived<T>(v: Env, iv: Block, mem: Memory<T>, time: Item, info: T, es: seq<Event<T>>,
                          chunks: seq<seq<byte>>)
    requires NeverLeaves(Opened(Initial(), info), es) && ItemOk(time)
    requires var c := Exec(Opened(Initial(), info), es);
             && Distinct(c.posted) && SizesOk(mem, c.posted)
             && Flatten(chunks) <= Unblock(PutAll(v, Start(v, iv, mem, time), c.writes).wire)
    ensures var c := Exec(Opened(Initial(), info), es);
            var r := FeedAll(v.cipher, v.key, v.adler, Conn(Rx([], [], false), iv, []), chunks);
            && Written(c) <= c.posted && !r.rx.failed
            && r.rx.delivered == Arrived(v.adler, [time] + Items(mem, Written(c)), |Flatten(chunks)| / 16)
  {
    ConnectedOrdered(info);
    RunOrdered(Opened(Initial(), info), es);
    var c := Exec(Opened(Initial(), info), es);
    assert Written(c) <= Written(c) + c.queue;
    WrittenParts(mem, c);
    PartsDistinct(c.writes);
    FramedAtFirst(v, Start(v, iv, mem, time), c.writes);
    ReceivedAsFramed(v, iv, mem, time, c.writes, chunks);
  }

  // ---------------------------------------------------------------- the same object twice

  /**
   In the run the wire carries the posted messages for every cipher, checksum, chaining value and content if and only if
   no object was written twice, whatever lengths the messages have.
   */
  lemma RunRightExactly<T(!new)>(lens: T -> nat, info: T, es: seq<Event<T>>)
    requires NeverLeaves(Opened(Initial(), info), es)
    requires var c := Exec(Opened(Initial(), info), es); forall x :: x in c.posted ==> lens(x) > 0
    ensures var c := Exec(Opened(Initial(), info), es);
            (forall v: Env, l: Line<T> | Sized(l, lens, Written(c)) :: Right(v, l, c.writes)) <==> Distinct(Written(c))
  {
    ConnectedOrdered(info);
    RunOrdered(Opened(Initial(), info), es);
    var c := Exec(Opened(Initial(), info), es);
    assert Written(c) <= Written(c) + c.queue;
    RightExactly(lens, c.writes);
  }

  /**
   Written a second time on its own, a message arrives as the ciphertext of its first frame, which is right if and only if
   that is the message.
   */
  lemma SecondDelivery<T>(v: Env, l: Line<T>, x: T)
    requires x in l.memory
    ensures var s, e := l.memory[x], Unblock(Ciphertext(v, l.chain, Content(l.memory[x])));
            && |e| >= 2 + s.len
            && Messages(Framed(v, l, [[x], [x]])) == [Content(s).msg, e[2..2 + s.len]]
            && (Messages(Framed(v, l, [[x], [x]])) == [Content(s).msg, Content(s).msg]
                <==> e[2..2 + s.len] == Content(s).msg)
  {
    var s := l.memory[x];
    var c := Ciphertext(v, l.chain, Content(s));
    CiphertextLength(v, l.chain, s);
    BlocksOfUnblock(c);
    TwiceFramed(v, l, x);
    var second := Content(Encrypted(v, l.chain, s));
    assert second.msg == Unblock(c)[2..2 + s.len];
    MessagesOfTwo(Content(s), second);
  }

  lemma TwiceFramed<T>(v: Env, l: Line<T>, x: T)
    requires x in l.memory
    ensures Framed(v, l, [[x], [x]]) == [Content(l.memory[x]), Content(Encrypted(v, l.chain, l.memory[x]))]
  {
    var one := [[x]];
    assert [[x], [x]][..1] == one && one[..0] == [];
    var mem := l.memory[x := Encrypted(v, l.chain, l.memory[x])];
    var chain := Chain(l.chain, Ciphertext(v, l.chain, Content(l.memory[x])));
    assert CreateAll(v, l.memory, l.chain, [x]).0 == CreateAll(v, mem, chain, []).0 by {
      assert [x][1..] == [];
    }
    assert PutAll(v, l, one) == Put(v, l, [x]);
    assert Framed(v, l, one) == [Content(l.memory[x])] by {
      assert Framed(v, l, []) + Items(l.memory, [x]) == [Content(l.memory[x])];
    }
    assert Items(mem, [x]) == [Content(mem[x])];
  }

  /** A buffer and the last block after CreateMsgBuffer. */
  function Prepare(v: Env, chain: Block, s: Slot): (Slot, Block) {
    (Encrypted(v, chain, s), Chain(chain, Ciphertext(v, chain, Content(s))))
  }

  lemma Prepared<T>(v: Env, mem: Memory<T>, chain: Block, x: T, ms: seq<T>, s': Slot, chain': Block)
    requires ms != [] && ms[0] == x && x in mem && (s', chain') == Prepare(v, chain, mem[x])
    ensures CreateAll(v, mem, chain, ms) == CreateAll(v, mem[x := s'], chain', ms[1..])
  {
  }

  lemma WriteOnce<T>(v: Env, l: Line<T>, x: T, s1: Slot, c1: Block)
    requires x in l.memory && (s1, c1) == Prepare(v, l.chain, l.memory[x])
    ensures Put(v, l, [x]) == Line(l.memory[x := s1], c1, l.wire + Range(s1))
  {
    Prepared(v, l.memory, l.chain, x, [x], s1, c1);
    GatherOne(l.memory[x := s1], x);
  }

  lemma GatherOne<T>(mem: Memory<T>, x: T)
    requires x in mem
    ensures Gather(mem, [x]) == Range(mem[x]) && Gather(mem, [x, x]) == Range(mem[x]) + Range(mem[x])
  {
    assert [x][1..] == [] && [x, x][1..] == [x];
  }

  /** A write that refers twice to a buffer sends twice what the second encryption left there. */
  lemma WriteTwice<T>(v: Env, l: Line<T>, x: T, s2: Slot, c2: Block, s3: Slot, c3: Block)
    requires x in l.memory && (s2, c2) == Prepare(v, l.chain, l.memory[x]) && (s3, c3) == Prepare(v, c2, s2)
    ensures Put(v, l, [x, x]) == Line(l.memory[x := s3], c3, l.wire + (Range(s3) + Range(s3)))
  {
    var mem2 := l.memory[x := s2];
    assert [x, x][1..] == [x] && [x][1..] == [];
    Prepared(v, l.memory, l.chain, x, [x, x], s2, c2);
    Prepared(v, mem2, c2, x, [x], s3, c3);
    assert mem2[x := s3] == l.memory[x := s3];
    GatherOne(l.memory[x := s3], x);
  }

  /** What three posts of one object send, the last two of them while the first is being written. */
  lemma FloodSends<T>(v: Env, l: Line<T>, x: T, s1: Slot, c1: Block, s2: Slot, c2: Block, s3: Slot, c3: Block)
    requires x in l.memory && (s1, c1) == Prepare(v, l.chain, l.memory[x])
    requires (s2, c2) == Prepare(v, c1, s1) && (s3, c3) == Prepare(v, c2, s2)
    ensures PutAll(v, l, [[x], [x, x]]).wire == l.wire + Range(s1) + (Range(s3) + Range(s3))
  {
    var none: seq<seq<T>> := [];
    WriteOnce(v, l, x, s1, c1);
    WriteTwice(v, Put(v, l, [x]), x, s2, c2, s3, c3);
    PutAllSnoc(v, l, none, [x]);
    PutAllSnoc(v, l, none + [[x]], [x, x]);
    assert none + [[x]] + [[x, x]] == [[x], [x, x]];
  }

  lemma MessagesOfTwo(a: Item, b: Item)
    requires a.Data? && b.Data?
    ensures Messages([a, b]) == [a.msg, b.msg]
  {
    assert [a, b][1..] == [b] && [b][1..] == [];
    assert Messages([b]) == [b.msg] + Messages([]);
  }
}
