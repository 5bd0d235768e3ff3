/**
 The routing session fills a buffer with cloves, and the destination reads them
 back: the imperative side of GarlicCodec.
 */
module GarlicBuffers {
  import opened Bytes
  import opened Cbc
  import opened GarlicTags
  import opened GarlicCodec
  import I2NP

  const LEASET_CONFIRMATION_TIMEOUT: nat := 4000

  datatype UpdateStatus = UpToDate | Updated | Submitted | DoNotSend

  /** Whether the peer knows our LeaseSet, the message that told it, and when. */
  datatype LeaseSetUpdate = LeaseSetUpdate(status: UpdateStatus, msgID: nat, submitted: nat)

  /**
   What a payload is made from besides the session: the time in milliseconds, the random ids, the next inbound tunnel if
   there is one, the wrapped DeliveryStatus message, the message with our LeaseSet.
   */
  datatype Draws = Draws(now: nat, msgID: nat, statusID: nat, leaseSetID: nat, cloveID: nat,
                         tunnel: Option<(Word32, nat)>, status: seq<byte>, leaseSet: seq<byte>)

  /** An unconfirmed LeaseSet is sent again after the timeout. */
  function Resubmit(u: LeaseSetUpdate, now: nat): LeaseSetUpdate {
    if u.status.Submitted? && now > u.submitted + LEASET_CONFIRMATION_TIMEOUT then u.(status := Updated) else u
  }

  function UpdateAfter(owned: bool, u: LeaseSetUpdate, d: Draws): LeaseSetUpdate {
    if owned then
      var u1 := Resubmit(u, d.now);
      if u1.status.Updated? then LeaseSetUpdate(Submitted, d.msgID, d.now) else u1
    else u
  }

  function StatusClove(d: Draws): Clove
    requires d.tunnel.Some?
  {
    Clove(ToTunnel(d.tunnel.value.0, d.tunnel.value.1), d.status, d.statusID, d.now + 5000)
  }

  function StatusCloves(owned: bool, u: LeaseSetUpdate, newTags: bool, d: Draws): seq<Clove> {
    if owned && (newTags || Resubmit(u, d.now).status.Updated?) && d.tunnel.Some?
    then [StatusClove(d)] else []
  }

  function LeaseSetCloves(owned: bool, u: LeaseSetUpdate, d: Draws): seq<Clove> {
    if owned && Resubmit(u, d.now).status.Updated?
    then [Clove(Local, d.leaseSet, d.leaseSetID, d.now + 5000)] else []
  }

  function OwnCloves(owned: bool, u: LeaseSetUpdate, newTags: bool, d: Draws): seq<Clove> {
    StatusCloves(owned, u, newTags, d) + LeaseSetCloves(owned, u, d)
  }

  function MessageCloves(destination: Option<Word32>, msg: Option<seq<byte>>, d: Draws): seq<Clove> {
    match msg
    case Some(m) =>
      [Clove(if destination.Some? then ToDestination(destination.value) else Local, m, d.cloveID, d.now + 5000)]
    case None => []
  }

  /** The status clove comes first, then the LeaseSet, then the message itself. */
  function PayloadOf(owned: bool, destination: Option<Word32>, u: LeaseSetUpdate, newTags: bool,
                     msg: Option<seq<byte>>, d: Draws): (p: Payload)
    ensures |p.cloves| <= 3
  {
    Payload(OwnCloves(owned, u, newTags, d) + MessageCloves(destination, msg, d), d.msgID, d.now + 5000)
  }

  lemma ClovesConcat(a: seq<Clove>, b: seq<Clove>)
    ensures ClovesBytes(a + b) == ClovesBytes(a) + ClovesBytes(b)
  {
    ConcatMapAppend(CloveBytes, a, b);
  }

  /** A counted list of cloves. */
  ghost function Counted(cs: seq<Clove>): seq<byte>
    requires |cs| < 256
  {
    [|cs|] + ClovesBytes(cs)
  }

  lemma SingleClove(c: Clove)
    ensures ClovesBytes([c]) == CloveBytes(c)
  {
    ConcatMapCons(CloveBytes, c, []);
    assert [c] + [] == [c];
  }

  // ---------------------------------------------------------------- writing

  /** The buffer after the bytes have been stored one by one from the position on. */
  ghost function Store(was: seq<byte>, at: nat, bytes: seq<byte>): (b: seq<byte>)
    requires at + |bytes| <= |was|
    ensures |b| == |was|
    decreases |bytes|
  {
    if bytes == [] then was else Store(was[at := bytes[0]], at + 1, bytes[1..])
  }

  /** The bytes are at the position now, and everything else is as it was. */
  lemma {:induction false} StoreIs(was: seq<byte>, at: nat, bytes: seq<byte>)
    requires at + |bytes| <= |was|
    ensures Store(was, at, bytes) == was[..at] + bytes + was[at + |bytes|..]
    decreases |bytes|
  {
    if bytes == [] {
      assert was[..at] + was[at..] == was;
    } else {
      var next := was[at := bytes[0]];
      StoreIs(next, at + 1, bytes[1..]);
      assert next[..at + 1] == was[..at] + [bytes[0]];
      assert next[at + |bytes|..] == was[at + |bytes|..];
      assert [bytes[0]] + bytes[1..] == bytes;
      Append(was[..at], [bytes[0]], bytes[1..]);
    }
  }

  ghost predicate Written(b: seq<byte>, was: seq<byte>, at: nat, bytes: seq<byte>) {
    at + |bytes| <= |was| && b == Store(was, at, bytes)
  }

  lemma WrittenEach(b: seq<byte>, was: seq<byte>, at: nat, bytes: seq<byte>)
    ensures Written(b, was, at, bytes) <==>
              && |b| == |was| && at + |bytes| <= |b|
              && (forall i :: 0 <= i < |bytes| ==> b[at + i] == bytes[i])
              && (forall i :: 0 <= i < at ==> b[i] == was[i])
              && (forall i :: at + |bytes| <= i < |b| ==> b[i] == was[i])
  {
    if |b| == |was| && at + |bytes| <= |b| {
      StoreIs(was, at, bytes);
      var r := was[..at] + bytes + was[at + |bytes|..];
      assert forall i :: 0 <= i < |bytes| ==> r[at + i] == bytes[i];
      if (forall i :: 0 <= i < |bytes| ==> b[at + i] == bytes[i])
         && (forall i :: 0 <= i < at ==> b[i] == was[i])
         && (forall i :: at + |bytes| <= i < |b| ==> b[i] == was[i]) {
        forall i | 0 <= i < |b| ensures b[i] == r[i] {
          if at <= i < at + |bytes| {
            assert b[at + (i - at)] == bytes[i - at];
          }
        }
      }
    }
  }

  lemma WrittenAt(b: seq<byte>, was: seq<byte>, at: nat, bytes: seq<byte>)
    requires Written(b, was, at, bytes)
    ensures Lies(b, at, bytes)
  {
    StoreIs(was, at, bytes);
  }

  /** Writing on, behind what has been written. */
  lemma WrittenOn(was: seq<byte>, b1: seq<byte>, b2: seq<byte>, at: nat, x: seq<byte>, y: seq<byte>)
    requires Written(b1, was, at, x) && Written(b2, b1, at + |x|, y)
    ensures Written(b2, was, at, x + y)
  {
    WrittenEach(b1, was, at, x);
    WrittenEach(b2, b1, at + |x|, y);
    forall i | 0 <= i < |x + y| ensures b2[at + i] == (x + y)[i] {
      if i >= |x| {
        assert b2[at + |x| + (i - |x|)] == y[i - |x|];
      }
    }
    WrittenEach(b2, was, at, x + y);
  }

  /** Filling in what goes before something that has been written. */
  lemma WrittenBefore(was: seq<byte>, b1: seq<byte>, b2: seq<byte>, at: nat, x: seq<byte>, y: seq<byte>)
    requires Written(b1, was, at + |x|, y) && Written(b2, b1, at, x)
    ensures Written(b2, was, at, x + y)
  {
    WrittenEach(b1, was, at + |x|, y);
    WrittenEach(b2, b1, at, x);
    forall i | 0 <= i < |x + y| ensures b2[at + i] == (x + y)[i] {
      if i >= |x| {
        assert b1[at + |x| + (i - |x|)] == y[i - |x|];
      }
    }
    WrittenEach(b2, was, at, x + y);
  }

  /** Counting the clove behind the others. */
  lemma CountChanged(b: seq<byte>, was: seq<byte>, at: nat, x: byte, y: byte, rest: seq<byte>)
    requires Written(b, was, at, [x] + rest)
    ensures b[at] == x && Written(b[at := y], was, at, [y] + rest)
  {
    WrittenEach(b, was, at, [x] + rest);
    assert b[at + 0] == x;
    forall i | 0 <= i < |[y] + rest| ensures b[at := y][at + i] == ([y] + rest)[i] {
      if i > 0 {
        assert b[at + i] == ([x] + rest)[i];
      }
    }
    WrittenEach(b[at := y], was, at, [y] + rest);
  }

  /** memcpy into a buffer. */
  method Copy(buf: array<byte>, at: nat, bytes: seq<byte>)
    requires at + |bytes| <= buf.Length
    modifies buf
    ensures Written(buf[..], old(buf[..]), at, bytes)
  {
    ghost var was := buf[..];
    forall i | 0 <= i < |bytes| {
      buf[at + i] := bytes[i];
    }
    WrittenEach(buf[..], was, at, bytes);
  }

  /** Two pieces in a row. */
  method CopyBoth(buf: array<byte>, at: nat, x: seq<byte>, y: seq<byte>)
    requires at + |x| + |y| <= buf.Length
    modifies buf
    ensures Written(buf[..], old(buf[..]), at, x + y)
  {
    ghost var was := buf[..];
    Copy(buf, at, x);
    ghost var b1 := buf[..];
    Copy(buf, at + |x|, y);
    WrittenOn(was, b1, buf[..], at, x, y);
  }

  /** Three pieces in a row. */
  method CopyThree(buf: array<byte>, at: nat, x: seq<byte>, y: seq<byte>, z: seq<byte>)
    requires at + |x| + |y| + |z| <= buf.Length
    modifies buf
    ensures Written(buf[..], old(buf[..]), at, x + y + z)
  {
    ghost var was := buf[..];
    CopyBoth(buf, at, x, y);
    ghost var b1 := buf[..];
    Copy(buf, at + |x| + |y|, z);
    WrittenOn(was, b1, buf[..], at, x + y, z);
  }

  /** The session's buffer work; destination is the hash of a client destination, if the peer is one. */
  class CloveWriter {
    const sha256: Digest
    const owned: bool
    const destination: Option<Word32>
    var update: LeaseSetUpdate

    constructor (sha256: Digest, owned: bool, destination: Option<Word32>, attachLeaseSet: bool)
      ensures this.sha256 == sha256 && this.owned == owned && this.destination == destination
      ensures update == LeaseSetUpdate(if attachLeaseSet then Updated else DoNotSend, 0, 0)
    {
      this.sha256, this.owned, this.destination := sha256, owned, destination;
      update := LeaseSetUpdate(if attachLeaseSet then Updated else DoNotSend, 0, 0);
    }

    /** The clove for a message; only a client destination is named in it. */
    function CloveFor(msg: seq<byte>, isDestination: bool, cloveID: nat, ts: nat): Clove {
      Clove(if isDestination && destination.Some? then ToDestination(destination.value) else Local, msg, cloveID, ts)
    }

    method CreateGarlicClove(buf: array<byte>, at: nat, msg: seq<byte>, isDestination: bool, cloveID: nat, ts: nat)
      returns (size: nat)
      requires at + |CloveBytes(CloveFor(msg, isDestination, cloveID, ts))| <= buf.Length
      modifies buf
      ensures size == |CloveBytes(CloveFor(msg, isDestination, cloveID, ts))|
      ensures Written(buf[..], old(buf[..]), at, CloveBytes(CloveFor(msg, isDestination, cloveID, ts)))
    {
      size := PutInstructions(buf, at, isDestination, CloveFor(msg, isDestination, cloveID, ts).delivery);
      size := FinishClove(buf, at, size, CloveFor(msg, isDestination, cloveID, ts), old(buf[..]));
    }

    /** Delivery instructions for a destination or for the receiver itself. */
    method PutInstructions(buf: array<byte>, at: nat, isDestination: bool, ghost delivery: Delivery) returns (size: nat)
      requires delivery == CloveFor([], isDestination, 0, 0).delivery && at + |Instructions(delivery)| <= buf.Length
      modifies buf
      ensures size == |Instructions(delivery)|
      ensures Written(buf[..], old(buf[..]), at, Instructions(delivery))
    {
      if isDestination && destination.Some? {
        CopyBoth(buf, at, [0x20], destination.value);
        size := 33;
      } else {
        Copy(buf, at, [0]);
        size := 1;
      }
    }

    /** The message and the id, expiration and certificate that end a clove. */
    method FinishClove(buf: array<byte>, at: nat, size0: nat, c: Clove, ghost was: seq<byte>) returns (size: nat)
      requires size0 == |Instructions(c.delivery)| && at + |CloveBytes(c)| <= buf.Length
      requires Written(buf[..], was, at, Instructions(c.delivery))
      modifies buf
      ensures size == |CloveBytes(c)|
      ensures Written(buf[..], was, at, CloveBytes(c))
    {
      ghost var head, b1 := Instructions(c.delivery), buf[..];
      size := size0;
      Copy(buf, at + size, c.msg);
      WrittenOn(was, b1, buf[..], at, head, c.msg);
      size := size + |c.msg|;
      ghost var b2 := buf[..];
      CopyThree(buf, at + size, ToBE(c.cloveID, 4), ToBE(c.expiration, 8), CERTIFICATE);
      WrittenOn(was, b2, buf[..], at, head + c.msg, CloveEnd(c));
      size := size + 4 + 8 + 3;
    }

    /** Without an inbound tunnel nothing is written. */
    method CreateDeliveryStatusClove(buf: array<byte>, at: nat, d: Draws) returns (size: nat)
      requires at + (if d.tunnel.Some? then |CloveBytes(StatusClove(d))| else 0) <= buf.Length
      modifies buf
      ensures size == if d.tunnel.Some? then |CloveBytes(StatusClove(d))| else 0
      ensures size > 0 <==> d.tunnel.Some?
      ensures if d.tunnel.Some? then Written(buf[..], old(buf[..]), at, CloveBytes(StatusClove(d)))
              else buf[..] == old(buf[..])
    {
      size := 0;
      if d.tunnel.Some? {
        var (gateway, tunnelID) := d.tunnel.value;
        CopyThree(buf, at, [0x60], gateway, ToBE(tunnelID, 4));
        size := 37;
        size := FinishClove(buf, at, size, StatusClove(d), old(buf[..]));
      }
    }

    /** A clove behind the others is counted. */
    method CountUp(buf: array<byte>, at: nat, ghost was: seq<byte>, ghost b1: seq<byte>, ghost cs: seq<Clove>,
                   ghost c: Clove)
      requires |cs| < 255 && Written(b1, was, at, Counted(cs))
      requires Written(buf[..], b1, at + |Counted(cs)|, CloveBytes(c))
      modifies buf
      ensures Written(buf[..], was, at, Counted(cs + [c]))
    {
      ghost var b2, n: byte := buf[..], |cs| + 1;
      WrittenOn(was, b1, b2, at, Counted(cs), CloveBytes(c));
      Append([|cs|], ClovesBytes(cs), CloveBytes(c));
      CountChanged(b2, was, at, |cs|, n, ClovesBytes(cs) + CloveBytes(c));
      ClovesConcat(cs, [c]);
      SingleClove(c);
      buf[at] := buf[at] + 1;
      assert buf[..] == b2[at := n];
    }

    /** A clove behind the others, which is then counted. */
    method AddClove(buf: array<byte>, at: nat, size0: nat, msg: seq<byte>, isDestination: bool, cloveID: nat, ts: nat,
                    ghost was: seq<byte>, ghost cs: seq<Clove>, ghost c: Clove)
      returns (size: nat)
      requires c == CloveFor(msg, isDestination, cloveID, ts)
      requires |cs| < 255 && Written(buf[..], was, at, Counted(cs)) && size0 == |Counted(cs)|
      requires at + size0 + |CloveBytes(c)| <= buf.Length
      modifies buf
      ensures size == |Counted(cs + [c])| && Written(buf[..], was, at, Counted(cs + [c]))
    {
      ghost var b1 := buf[..];
      var n := CreateGarlicClove(buf, at + size0, msg, isDestination, cloveID, ts);
      size := size0 + n;
      CountedSnoc(cs, c);
      CountUp(buf, at, was, b1, cs, c);
    }

    lemma CountedSnoc(cs: seq<Clove>, c: Clove)
      requires |cs| < 255
      ensures |Counted(cs + [c])| == |Counted(cs)| + |CloveBytes(c)|
    {
      ClovesConcat(cs, [c]);
      SingleClove(c);
    }

    /** The DeliveryStatus clove, if it is needed and can be sent. */
    method AttachStatus(buf: array<byte>, at: nat, newTags: bool, d: Draws, ghost was: seq<byte>,
                        ghost u: LeaseSetUpdate)
      returns (size: nat)
      requires owned && update == Resubmit(u, d.now)
      requires at + |Counted(StatusCloves(owned, u, newTags, d))| <= buf.Length
      requires Written(buf[..], was, at, Counted([]))
      modifies buf
      ensures size == |Counted(StatusCloves(owned, u, newTags, d))|
      ensures Written(buf[..], was, at, Counted(StatusCloves(owned, u, newTags, d)))
    {
      size := 1;
      if newTags || update.status.Updated? {
        if d.tunnel.Some? {
          CountedSnoc([], StatusClove(d));
          assert [] + [StatusClove(d)] == StatusCloves(owned, u, newTags, d);
        }
        ghost var b1 := buf[..];
        var cloveSize := CreateDeliveryStatusClove(buf, at + size, d);
        if cloveSize > 0 {
          size := size + cloveSize;
          CountUp(buf, at, was, b1, [], StatusClove(d));
        }
      }
    }

    /** Our LeaseSet, if the peer has to be told. */
    method AttachLeaseSet(buf: array<byte>, at: nat, size0: nat, d: Draws, ghost was: seq<byte>, ghost cs: seq<Clove>,
                          ghost u: LeaseSetUpdate)
      returns (size: nat)
      requires owned && update == Resubmit(u, d.now)
      requires |cs| < 255 && Written(buf[..], was, at, Counted(cs)) && size0 == |Counted(cs)|
      requires at + |Counted(cs + LeaseSetCloves(owned, u, d))| <= buf.Length
      modifies this`update, buf
      ensures |LeaseSetCloves(owned, u, d)| <= 1
      ensures size == |Counted(cs + LeaseSetCloves(owned, u, d))|
      ensures Written(buf[..], was, at, Counted(cs + LeaseSetCloves(owned, u, d)))
      ensures update == UpdateAfter(owned, u, d)
    {
      size := size0;
      if update.status.Updated? {
        ghost var c := CloveFor(d.leaseSet, false, d.leaseSetID, d.now + 5000);
        CountedSnoc(cs, c);
        update := LeaseSetUpdate(Submitted, d.msgID, d.now);
        size := AddClove(buf, at, size, d.leaseSet, false, d.leaseSetID, d.now + 5000, was, cs, c);
      } else {
        assert cs + LeaseSetCloves(owned, u, d) == cs;
      }
    }

    /** The clove with the message itself, if there is one. */
    method AttachMessage(buf: array<byte>, at: nat, size0: nat, msg: Option<seq<byte>>, d: Draws,
                         ghost was: seq<byte>, ghost cs: seq<Clove>)
      returns (size: nat)
      requires |cs| < 255 && Written(buf[..], was, at, Counted(cs)) && size0 == |Counted(cs)|
      requires at + |Counted(cs + MessageCloves(destination, msg, d))| <= buf.Length
      modifies buf
      ensures |MessageCloves(destination, msg, d)| <= 1
      ensures size == |Counted(cs + MessageCloves(destination, msg, d))|
      ensures Written(buf[..], was, at, Counted(cs + MessageCloves(destination, msg, d)))
    {
      size := size0;
      if msg.Some? {
        ghost var c := CloveFor(msg.value, destination.Some?, d.cloveID, d.now + 5000);
        CountedSnoc(cs, c);
        size := AddClove(buf, at, size, msg.value, destination.Some?, d.cloveID, d.now + 5000, was, cs, c);
      } else {
        assert cs + MessageCloves(destination, msg, d) == cs;
      }
    }

    method CheckConfirmation(now: nat)
      modifies this`update
      ensures update == Resubmit(old(update), now)
    {
      if update.status.Submitted? && now > update.submitted + LEASET_CONFIRMATION_TIMEOUT {
        update := update.(status := Updated);
      }
    }

    /** The cloves a session with an owner adds of its own accord. */
    method AttachOwn(buf: array<byte>, at: nat, newTags: bool, d: Draws, ghost was: seq<byte>) returns (size: nat)
      requires owned && Written(buf[..], was, at, Counted([]))
      requires at + |Counted(OwnCloves(owned, update, newTags, d))| <= buf.Length
      modifies this`update, buf
      ensures size == |Counted(OwnCloves(owned, old(update), newTags, d))|
      ensures Written(buf[..], was, at, Counted(OwnCloves(owned, old(update), newTags, d)))
      ensures update == UpdateAfter(owned, old(update), d)
    {
      ghost var u := update;
      ghost var a := StatusCloves(owned, u, newTags, d);
      ClovesConcat(a, LeaseSetCloves(owned, u, d));
      CheckConfirmation(d.now);
      size := AttachStatus(buf, at, newTags, d, was, u);
      size := AttachLeaseSet(buf, at, size, d, was, a, u);
    }

    /** The count is filled in clove by clove. */
    method PutCloves(buf: array<byte>, at: nat, msg: Option<seq<byte>>, newTags: bool, d: Draws, ghost cs: seq<Clove>)
      returns (size: nat)
      requires cs == PayloadOf(owned, destination, update, newTags, msg, d).cloves
      requires at + |Counted(cs)| <= buf.Length
      modifies this`update, buf
      ensures size == |Counted(cs)| && Written(buf[..], old(buf[..]), at, Counted(cs))
      ensures update == UpdateAfter(owned, old(update), d)
    {
      ghost var was, own := buf[..], OwnCloves(owned, update, newTags, d);
      ClovesConcat(own, MessageCloves(destination, msg, d));
      Copy(buf, at, [0]);
      size := 1;
      assert Counted([]) == [0];
      if owned {
        size := AttachOwn(buf, at, newTags, d, was);
      }
      size := AttachMessage(buf, at, size, msg, d, was, own);
    }

    method CreateGarlicPayload(buf: array<byte>, at: nat, msg: Option<seq<byte>>, newTags: bool, d: Draws,
                               ghost p: Payload)
      returns (size: nat)
      requires p == PayloadOf(owned, destination, update, newTags, msg, d)
      requires at + |PayloadBytes(p)| <= buf.Length
      modifies this`update, buf
      ensures size == |PayloadBytes(p)|
      ensures Written(buf[..], old(buf[..]), at, PayloadBytes(p))
      ensures update == UpdateAfter(owned, old(update), d)
    {
      ghost var was := buf[..];
      size := PutCloves(buf, at, msg, newTags, d, p.cloves);
      ghost var b1 := buf[..];
      CopyThree(buf, at + size, CERTIFICATE, ToBE(d.msgID, 4), ToBE(d.now + 5000, 8));
      size := size + 3 + 4 + 8;
      WrittenOn(was, b1, buf[..], at, Counted(p.cloves), PayloadEnd(p.msgID, p.expiration));
    }

    /** The tag count and the tags. */
    method PutTags(buf: array<byte>, at: nat, tags: seq<Word32>) returns (size: nat)
      requires at + |BlockStart(tags)| <= buf.Length
      modifies buf
      ensures size == |BlockStart(tags)|
      ensures Written(buf[..], old(buf[..]), at, BlockStart(tags))
    {
      ghost var was := buf[..];
      TagAt(tags, 0);
      Copy(buf, at, ToBE(|tags|, 2));
      size := 2;
      var i := 0;
      assert ToBE(|tags|, 2) + Flatten(tags[..0]) == ToBE(|tags|, 2);
      while i < |tags|
        invariant 0 <= i <= |tags| && size == 2 + 32 * i && |Flatten(tags[..i])| == 32 * i
        invariant Written(buf[..], was, at, ToBE(|tags|, 2) + Flatten(tags[..i]))
      {
        TagsSnoc(tags, i);
        ghost var b1 := buf[..];
        Copy(buf, at + size, tags[i]);
        WrittenOn(was, b1, buf[..], at, ToBE(|tags|, 2) + Flatten(tags[..i]), tags[i]);
        size := size + 32;
        i := i + 1;
      }
      assert tags[..i] == tags;
    }

    lemma TagsSnoc(tags: seq<Word32>, i: nat)
      requires i < |tags|
      ensures ToBE(|tags|, 2) + Flatten(tags[..i]) + tags[i] == ToBE(|tags|, 2) + Flatten(tags[..i + 1])
      ensures |Flatten(tags[..i + 1])| == |Flatten(tags[..i])| + 32
    {
      assert tags[..i + 1] == tags[..i] + [tags[i]];
      FlattenSnoc(tags[..i], tags[i]);
      Append(ToBE(|tags|, 2), Flatten(tags[..i]), tags[i]);
    }

    /** The payload, and then before it its size and hash. */
    method PutPayload(buf: array<byte>, at: nat, newTags: bool, msg: Option<seq<byte>>, d: Draws,
                      ghost payload: seq<byte>)
      returns (size: nat)
      requires payload == PayloadBytes(PayloadOf(owned, destination, update, newTags, msg, d))
      requires at + 37 + |payload| <= buf.Length
      modifies this`update, buf
      ensures size == 37 + |payload|
      ensures Written(buf[..], old(buf[..]), at, PayloadPart(sha256, payload))
      ensures update == UpdateAfter(owned, old(update), d)
    {
      ghost var was := buf[..];
      Copy(buf, at + 36, [0]);
      ghost var b1 := buf[..];
      var len := CreateGarlicPayload(buf, at + 37, msg, newTags, d,
                                     PayloadOf(owned, destination, update, newTags, msg, d));
      WrittenOn(was, b1, buf[..], at + 36, [0], payload);
      FillSizeAndHash(buf, at, len, payload, was);
      size := 37 + len;
    }

    /** Size and hash of the payload go before it, once it is there. */
    method FillSizeAndHash(buf: array<byte>, at: nat, len: nat, ghost payload: seq<byte>, ghost was: seq<byte>)
      requires |payload| == len && Written(buf[..], was, at + 36, [0] + payload)
      modifies buf
      ensures Written(buf[..], was, at, PayloadPart(sha256, payload))
    {
      ghost var b1 := buf[..];
      WrittenAt(b1, was, at + 36, [0] + payload);
      LiesParts(b1, at + 36, [0], payload);
      var hash: Word32 := sha256(buf[at + 37..at + 37 + len]);
      CopyBoth(buf, at, ToBE(len, 4), hash);
      WrittenBefore(was, b1, buf[..], at, ToBE(len, 4) + hash, [0] + payload);
      Append(ToBE(len, 4) + hash, [0], payload);
    }

    /** The block without its encryption; the padding is whatever the buffer holds. */
    method CreateAESBlock(buf: array<byte>, at: nat, newTags: Option<seq<Word32>>, msg: Option<seq<byte>>, d: Draws)
      returns (blockSize: nat)
      requires at + |Block(update, newTags, msg, d)| + 15 <= buf.Length
      modifies this`update, buf
      ensures blockSize % 16 == 0
      ensures |Block(old(update), newTags, msg, d)| <= blockSize < |Block(old(update), newTags, msg, d)| + 16
      ensures at + blockSize <= buf.Length
      ensures Written(buf[..], old(buf[..]), at, Block(old(update), newTags, msg, d))
      ensures update == UpdateAfter(owned, old(update), d)
    {
      var tags := if newTags.Some? then newTags.value else [];
      ghost var was, payload := buf[..], PayloadBytes(PayloadOf(owned, destination, update, newTags.Some?, msg, d));
      blockSize := PutTags(buf, at, tags);
      ghost var b1 := buf[..];
      var size := PutPayload(buf, at + blockSize, newTags.Some?, msg, d, payload);
      blockSize := blockSize + size;
      WrittenOn(was, b1, buf[..], at, BlockStart(tags), PayloadPart(sha256, payload));
      var rem := blockSize % 16;
      if rem != 0 {
        blockSize := blockSize + (16 - rem);
      }
    }

    ghost function Block(u: LeaseSetUpdate, newTags: Option<seq<Word32>>, msg: Option<seq<byte>>, d: Draws): seq<byte> {
      BlockBytes(sha256, if newTags.Some? then newTags.value else [],
                 PayloadBytes(PayloadOf(owned, destination, u, newTags.Some?, msg, d)))
    }
  }

  // ---------------------------------------------------------------- reading

  /** One turn of HandleGarlicPayload's loop, with the clove at position at. */
  method HandleClove(b: seq<byte>, at: nat, tunnel: bool) returns (r: Option<(seq<Action>, nat)>)
    ensures r == Cloves(b, tunnel)(at)
  {
    var p := at;
    if p >= |b| {
      return None;
    }
    var flag := b[p];
    p := p + 1;
    if flag >= 0x80 {
      p := p + 32;
    }
    var kind := flag / 32 % 4;
    var where := p;
    p := p + if kind == 0 then 0 else if kind == 3 then 32 + 4 else 32;
    if p + I2NP.CHKS_OFFSET > |b| {
      return None;
    }
    var n := b[p + I2NP.SIZE_OFFSET] * 256 + b[p + I2NP.SIZE_OFFSET + 1] + I2NP.HEADER_SIZE;
    var actions := [];
    if kind != 2 && (kind != 3 || tunnel) {
      if p + n > |b| {
        return None;
      }
      if kind == 3 {
        actions := [Forwarded(b[where..where + 32], FromBE(b[where + 32..where + 36]), b[p..p + n])];
      } else {
        actions := [Handled(b[p..p + n])];
      }
    }
    return Some((actions, p + n + 4 + 8 + 3));
  }

  /** With n cloves to go, from position at on, the actions so far and those to come make up the total. */
  ghost predicate Underway(step: Step, len: nat, at: nat, n: nat, done: seq<Action>, total: seq<Action>) {
    total == done + Repeat(step, len, at, n)
  }

  lemma RepeatTurn(step: Step, len: nat, at: nat, n: nat, rest: nat, done: seq<Action>, total: seq<Action>)
    requires n == rest + 1 && Underway(step, len, at, n, done, total)
    ensures step(at).None? ==> total == done
    ensures step(at).Some? ==>
              var (more, next) := step(at).value;
              if next > len then total == done + more else Underway(step, len, next, rest, done + more, total)
  {
    if step(at).Some? {
      var (more, next) := step(at).value;
      Append(done, more, if next > len then [] else Repeat(step, len, next, rest));
    }
  }

  /** b is the payload with whatever follows it in the buffer. */
  method HandleGarlicPayload(b: seq<byte>, len: nat, tunnel: bool) returns (actions: seq<Action>)
    ensures actions == ReadPayload(b, len, tunnel)
  {
    actions := [];
    if |b| == 0 {
      return;
    }
    ghost var step := Cloves(b, tunnel);
    ghost var total := ReadPayload(b, len, tunnel);
    var numCloves := b[0];
    ghost var left: nat := numCloves;
    var at: nat, i: nat := 1, 0;
    while i < numCloves
      invariant 0 <= i <= numCloves
      invariant left == numCloves - i && Underway(step, len, at, left, actions, total)
    {
      ghost var rest := left - 1;
      RepeatTurn(step, len, at, left, rest, actions, total);
      var r := HandleClove(b, at, tunnel);
      if r.None? {
        return;
      }
      actions := actions + r.value.0;
      at := r.value.1;
      if at > len {
        return;
      }
      left := rest;
      i := i + 1;
    }
  }

  /** What is done for a payload at a position, if there is one. */
  function PayloadActions(b: seq<byte>, where: Option<(nat, nat)>, tunnel: bool): seq<Action> {
    match where
    case None => []
    case Some((at, size)) => if at <= |b| then ReadPayload(b[at..], size, tunnel) else []
  }

  /** HandleAESBlock on a decrypted block; key is the one it was decrypted with. */
  method HandleAESBlock(receiver: GarlicDestination, sha256: Digest, b: seq<byte>, len: nat, key: SessionKey, ts: nat,
                        tunnel: bool) returns (actions: seq<Action>)
    modifies receiver`tags
    ensures receiver.tags == AddTags(old(receiver.tags), OpenBlock(sha256, b, len).tags, key, ts)
    ensures actions == PayloadActions(b, OpenBlock(sha256, b, len).payload, tunnel)
  {
    actions := [];
    var head := ReadTagCount(b, len);
    if head.Some? {
      var (tagCount, left) := head.value;
      var at := 2 + tagCount * 32;
      ghost var o := OpenBlock(sha256, b, len);
      assert o.tags == TagsAt(b, tagCount) && o.payload == OpenPayload(sha256, b, at, left);
      receiver.StoreTags(TagsAt(b, tagCount), key, ts);
      actions := HandlePayload(sha256, b, at, left, tunnel);
    }
  }

  method ReadTagCount(b: seq<byte>, len: nat) returns (r: Option<(nat, nat)>)
    ensures r == TagCount(b, len)
  {
    if |b| < 2 {
      return None;
    }
    var tagCount := FromBE(b[..2]);
    var left := (len - 2) % SIZE_T;
    if tagCount * 32 > left || 2 + tagCount * 32 > |b| {
      return None;
    }
    return Some((tagCount, left - tagCount * 32));
  }

  /** The part of HandleAESBlock behind the tags. */
  method HandlePayload(sha256: Digest, b: seq<byte>, at: nat, left: nat, tunnel: bool) returns (actions: seq<Action>)
    ensures actions == PayloadActions(b, OpenPayload(sha256, b, at, left), tunnel)
  {
    actions := [];
    if at + 37 > |b| {
      return;
    }
    var payloadSize := FromBE(b[at..at + 4]);
    if payloadSize > left {
      return;
    }
    var payloadHash := b[at + 4..at + 36];
    var payload := at + 36;
    if b[payload] != 0 {
      payload := payload + 32;
    }
    payload := payload + 1;
    if payload + payloadSize > |b| {
      return;
    }
    if sha256(b[payload..payload + payloadSize]) != payloadHash {
      return;
    }
    actions := HandleGarlicPayload(b[payload..], payloadSize, tunnel);
  }

  // ---------------------------------------------------------------- from the session to the destination

  /** The messages of a payload are well sized and its tunnel ids are 32 bits wide. */
  ghost predicate Sendable(cs: seq<Clove>) {
    forall c :: c in cs ==> CloveOk(c)
  }

  lemma PayloadSendable(owned: bool, destination: Option<Word32>, u: LeaseSetUpdate, newTags: bool,
                        msg: Option<seq<byte>>, d: Draws)
    requires WellSized(d.status) && WellSized(d.leaseSet) && (msg.Some? ==> WellSized(msg.value))
    requires d.tunnel.Some? ==> d.tunnel.value.1 < Pow256(4)
    ensures Sendable(PayloadOf(owned, destination, u, newTags, msg, d).cloves)
  {
  }

  /** The peer has not been told our present LeaseSet, or has not confirmed it for too long. */
  predicate LeaseSetDue(u: LeaseSetUpdate, now: nat) {
    u.status.Updated? || (u.status.Submitted? && now - u.submitted > LEASET_CONFIRMATION_TIMEOUT)
  }

  /**
   What the destination does with a payload: it sends the DeliveryStatus to our tunnel, if there is something to confirm and
   it has a tunnel itself, handles the LeaseSet, if that is due, and then the message.
   */
  function ToDo(owned: bool, u: LeaseSetUpdate, newTags: bool, msg: Option<seq<byte>>, d: Draws, tunnel: bool): seq<Action> {
    var due := owned && LeaseSetDue(u, d.now);
    (match d.tunnel
     case Some((gateway, tunnelID)) =>
       if tunnel && (due || (owned && newTags)) then [Forwarded(gateway, tunnelID, d.status)] else []
     case None => [])
    + (if due then [Handled(d.leaseSet)] else [])
    + (match msg case Some(m) => [Handled(m)] case None => [])
  }

  lemma {:induction false} AllActionsConcat(a: seq<Clove>, b: seq<Clove>, tunnel: bool)
    ensures AllActions(a + b, tunnel) == AllActions(a, tunnel) + AllActions(b, tunnel)
  {
    if a == [] {
      assert a + b == b;
    } else {
      assert (a + b)[1..] == a[1..] + b;
      AllActionsConcat(a[1..], b, tunnel);
    }
  }

  lemma OneAction(c: Clove, tunnel: bool)
    ensures AllActions([c], tunnel) == ActionsOf(c, tunnel)
  {
    assert [c][1..] == [] && AllActions([], tunnel) == [];
  }

  lemma PayloadDoes(owned: bool, destination: Option<Word32>, u: LeaseSetUpdate, newTags: bool, msg: Option<seq<byte>>,
                    d: Draws, tunnel: bool)
    ensures AllActions(PayloadOf(owned, destination, u, newTags, msg, d).cloves, tunnel) == ToDo(owned, u, newTags, msg, d, tunnel)
  {
    var a, b, c := StatusCloves(owned, u, newTags, d), LeaseSetCloves(owned, u, d), MessageCloves(destination, msg, d);
    AllActionsConcat(a + b, c, tunnel);
    AllActionsConcat(a, b, tunnel);
    if a != [] {
      OneAction(a[0], tunnel);
    }
    if b != [] {
      OneAction(b[0], tunnel);
    }
    if c != [] {
      OneAction(c[0], tunnel);
    }
  }

  /** What the destination sees of a block at a position of the buffer, with what follows it as padding. */
  lemma BlockCarried(c: BlockCipher, k: Key, iv: Block, sha256: Digest, tags: seq<Word32>, p: Payload,
                     b: seq<byte>, was: seq<byte>, at: nat, size: nat, tunnel: bool)
    requires |tags| < Pow256(2) && |p.cloves| < 256 && |PayloadBytes(p)| < Pow256(4) && Sendable(p.cloves)
    requires var block := BlockBytes(sha256, tags, PayloadBytes(p)); Written(b, was, at, block) && |block| <= size
    requires size % 16 == 0 && at + size <= |b| < SIZE_T
    ensures var sent := Unblock(CbcEncrypt(c, k, iv, Blocks(b[at..at + size])));
            var got := Unblock(CbcDecrypt(c, k, iv, Blocks(sent)));
            var o := OpenBlock(sha256, got, |sent|);
            o.tags == tags && PayloadActions(got, o.payload, tunnel) == AllActions(p.cloves, tunnel)
  {
    var block := BlockBytes(sha256, tags, PayloadBytes(p));
    WrittenAt(b, was, at, block);
    var padding := b[at + |block|..at + size];
    assert b[at..at + size] == block + padding;
    EncryptedRoundTrip(c, k, iv, sha256, tags, p, padding, tunnel);
  }

  lemma UpdateIs(owned: bool, u: LeaseSetUpdate, d: Draws)
    ensures UpdateAfter(owned, u, d)
         == if owned && LeaseSetDue(u, d.now) then LeaseSetUpdate(Submitted, d.msgID, d.now) else u
  {
  }

  /** A block is made, encrypted, decrypted and handled. */
  method CarryPayload(writer: CloveWriter, receiver: GarlicDestination, c: BlockCipher, k: Key, iv: Block,
                      buf: array<byte>, at: nat, newTags: Option<seq<Word32>>, msg: Option<seq<byte>>, d: Draws,
                      key: SessionKey, ts: nat, tunnel: bool, ghost tags: seq<Word32>, ghost p: Payload)
    returns (actions: seq<Action>)
    requires p == PayloadOf(writer.owned, writer.destination, writer.update, newTags.Some?, msg, d)
    requires tags == if newTags.Some? then newTags.value else []
    requires |tags| < Pow256(2) && |PayloadBytes(p)| < Pow256(4) && Sendable(p.cloves)
    requires at + |writer.Block(writer.update, newTags, msg, d)| + 15 <= buf.Length < SIZE_T
    modifies writer`update, receiver`tags, buf
    ensures receiver.tags == AddTags(old(receiver.tags), tags, key, ts)
    ensures actions == AllActions(p.cloves, tunnel)
    ensures writer.update == UpdateAfter(writer.owned, old(writer.update), d)
  {
    ghost var was := buf[..];
    var size := writer.CreateAESBlock(buf, at, newTags, msg, d);
    BlockCarried(c, k, iv, writer.sha256, tags, p, buf[..], was, at, size, tunnel);
    var block := buf[..][at..at + size];
    var sent := Unblock(CbcEncrypt(c, k, iv, Blocks(block)));
    var got := Unblock(CbcDecrypt(c, k, iv, Blocks(sent)));
    actions := HandleAESBlock(receiver, writer.sha256, got, |sent|, key, ts, tunnel);
  }

  /**
   The block a session leaves in its buffer, encrypted by the session and decrypted by the destination: the destination
   stores exactly the new tags, those it has keeping their age, and does what there is to do.
   */
  method CarryBlock(writer: CloveWriter, receiver: GarlicDestination, c: BlockCipher, k: Key, iv: Block,
                    buf: array<byte>, at: nat, newTags: Option<seq<Word32>>, msg: Option<seq<byte>>, d: Draws,
                    key: SessionKey, ts: nat, tunnel: bool) returns (actions: seq<Action>)
    requires at + |writer.Block(writer.update, newTags, msg, d)| + 15 <= buf.Length < SIZE_T
    requires newTags.Some? ==> |newTags.value| < Pow256(2)
    requires WellSized(d.status) && WellSized(d.leaseSet) && (msg.Some? ==> WellSized(msg.value))
    requires d.tunnel.Some? ==> d.tunnel.value.1 < Pow256(4)
    requires var p := PayloadOf(writer.owned, writer.destination, writer.update, newTags.Some?, msg, d);
             |PayloadBytes(p)| < Pow256(4)
    modifies writer`update, receiver`tags, buf
    ensures Stored(old(receiver.tags), if newTags.Some? then newTags.value else [], key, ts, receiver.tags)
    ensures actions == ToDo(writer.owned, old(writer.update), newTags.Some?, msg, d, tunnel)
    ensures writer.update == if writer.owned && LeaseSetDue(old(writer.update), d.now)
                             then LeaseSetUpdate(Submitted, d.msgID, d.now) else old(writer.update)
  {
    ghost var u := writer.update;
    ghost var p := PayloadOf(writer.owned, writer.destination, u, newTags.Some?, msg, d);
    ghost var tags: seq<Word32> := if newTags.Some? then newTags.value else [];
    PayloadSendable(writer.owned, writer.destination, u, newTags.Some?, msg, d);
    AddTagsExactly(receiver.tags, tags, key, ts);
    PayloadDoes(writer.owned, writer.destination, u, newTags.Some?, msg, d, tunnel);
    UpdateIs(writer.owned, u, d);
    actions := CarryPayload(writer, receiver, c, k, iv, buf, at, newTags, msg, d, key, ts, tunnel, tags, p);
  }
}
