/**
 The sending half of an NTCP session: one write at a time, later messages
 queued, and every frame encrypted in its message's own buffer.
 */
module NtcpSend {
  import opened Bytes
  import opened Cbc
  import opened Ntcp
  import opened NtcpBuffers
  import I2NP

  /**
   isSending, isTerminated and queue are the session's fields.  History: outstanding counts writes not yet reported, writes
   lists the messages given to the socket, write by write, posted those accepted for sending before the session was
   terminated.
   */
  datatype Control<T> = Control(
    isSending: bool, isTerminated: bool, queue: seq<T>, outstanding: nat, writes: seq<seq<T>>, posted: seq<T>)

  function Written<T>(c: Control<T>): seq<T> { Flatten(c.writes) }

  /** Send: one write of all the given messages' buffers. */
  function Sent<T>(c: Control<T>, msgs: seq<T>): Control<T> {
    c.(isSending := true, outstanding := c.outstanding + 1, writes := c.writes + [msgs])
  }

  function Initial<T>(): Control<T> { Control(false, false, [], 0, [], []) }

  /** Connected: the time goes out at once, our own router info waits behind it. */
  function Opened<T>(c: Control<T>, info: T): Control<T> {
    c.(isSending := true, outstanding := c.outstanding + 1, queue := c.queue + [info], posted := c.posted + [info])
  }

  function Posted<T>(c: Control<T>, msgs: seq<T>): Control<T> {
    if c.isTerminated then c else
      var c1 := c.(posted := c.posted + msgs);
      if c.isSending then c1.(queue := c.queue + msgs) else Sent(c1, msgs)
  }

  function Finished<T>(c: Control<T>, error: bool): Control<T>
    requires c.outstanding > 0
  {
    var c1 := c.(isSending := false, outstanding := c.outstanding - 1);
    if !error && c.queue != [] then Sent(c1, c.queue).(queue := []) else c1
  }

  /** Terminate: what is queued is thrown away. */
  function Terminated<T>(c: Control<T>): Control<T> {
    if c.isTerminated then c else c.(isTerminated := true, queue := [])
  }

  /** The time's frame goes out. */
  function TimeSent<T(==)>(v: Env, l: Line<T>, item: Item): Line<T> {
    var e := Ciphertext(v, l.chain, item);
    Line(l.memory, Chain(l.chain, e), l.wire + e)
  }

  // ---------------------------------------------------------------- the session object

  /** There are two bytes before the message, and room for padding and checksum behind it. */
  ghost predicate Sendable(m: I2NP.I2NPMessage)
    reads m
  {
    2 <= m.offset <= m.len && m.offset - 2 + FrameLength(m.len - m.offset) <= m.buf.Length
  }

  ghost function SlotOf(m: I2NP.I2NPMessage): (s: Slot)
    requires Sendable(m)
    reads m, m.buf
  {
    Buffer(m.len - m.offset, m.buf[m.offset - 2..])
  }

  type Objects = Memory<I2NP.I2NPMessage>

  /** The buffers of the message objects hold what mem says, and each has a buffer of its own. */
  ghost predicate Holds(mem: Objects)
    reads mem.Keys, set m | m in mem :: m.buf
  {
    && (forall m :: m in mem ==> Sendable(m) && SlotOf(m) == mem[m])
    && (forall m, n :: m in mem && n in mem && m != n ==> m.buf != n.buf)
  }

  /** With the length in its first two bytes the buffer starts with the frame. */
  lemma BodyInPlace(s: Slot, now: seq<byte>)
    requires |now| == |s.bytes| && now[..2] == ToBE(s.len, 2) && now[2..] == s.bytes[2..]
    ensures now[0..s.len + PaddingSize(s.len) + 2] == Body(Content(s))
  {
    var n := s.len + PaddingSize(s.len) + 2;
    var i, rest := Content(s), s.bytes[2..];
    assert now[0..n] == now[..2] + now[2..][..n - 2];
    assert i.msg + i.padding == rest[..n - 2];
    Append(ToBE(s.len, 2), i.msg, i.padding);
  }

  /** With the time behind it the session's own buffer starts with the frame. */
  lemma TimeInPlace(was: seq<byte>, now: seq<byte>, time: Quad)
    requires |was| == |now| == 16 && now[..2] == ToBE(0, 2) && now[2..6] == time && now[6..] == was[6..]
    ensures now[..12] == Body(TimeSync(time, was[6..12]))
  {
    assert now[6..12] == now[6..][..6] == was[6..][..6] == was[6..12];
    assert now[..12] == now[..2] + now[2..6] + now[6..12];
  }

  class NTCPSender {
    const cipher: BlockCipher
    const key: Key
    const adler: Checksum
    const timeSyncBuffer: array<byte>
    var lastBlock: Block
    var isSending: bool
    var isTerminated: bool
    var sendQueue: seq<I2NP.I2NPMessage>
    ghost var outstanding: nat
    ghost var writes: seq<seq<I2NP.I2NPMessage>>
    ghost var posted: seq<I2NP.I2NPMessage>

    ghost function Environment(): Env { Env(cipher, key, adler) }

    ghost function State(): Control<I2NP.I2NPMessage>
      reads this
    {
      Control(isSending, isTerminated, sendQueue, outstanding, writes, posted)
    }

    /** The session's messages are among the line's objects. */
    ghost predicate Valid(l: Line<I2NP.I2NPMessage>)
      reads this, l.memory.Keys, set m | m in l.memory :: m.buf
    {
      Holds(l.memory) && l.chain == lastBlock && forall m :: m in sendQueue ==> m in l.memory
    }

    constructor (cipher: BlockCipher, key: Key, iv: Block, adler: Checksum)
      ensures State() == Initial() && lastBlock == iv
      ensures this.cipher == cipher && this.key == key && this.adler == adler
      ensures fresh(timeSyncBuffer) && timeSyncBuffer.Length == 16
    {
      this.cipher, this.key, this.adler := cipher, key, adler;
      timeSyncBuffer := new byte[16](_ => 0);
      lastBlock, isSending, isTerminated, sendQueue := iv, false, false, [];
      outstanding, writes, posted := 0, [], [];
    }

    /** The common end of CreateMsgBuffer: checksum behind the padded frame, and encryption over it. */
    method Finish(buf: array<byte>, start: nat, l: nat, ghost item: Item)
      requires l >= 4 && l % 16 == 0 && start + l <= buf.Length
      requires buf[start..start + l - 4] == Body(item)
      modifies this`lastBlock, buf
      ensures lastBlock == Chain(old(lastBlock), Ciphertext(Environment(), old(lastBlock), item))
      ensures 16 * |Ciphertext(Environment(), old(lastBlock), item)| == l
      ensures buf[start..start + l] == Unblock(Ciphertext(Environment(), old(lastBlock), item))
      ensures buf[..start] == old(buf[..start]) && buf[start + l..] == old(buf[start + l..])
    {
      var digest := adler(buf[start..start + l - 4]);
      PutBytes(buf, start + l - 4, digest);
      assert buf[start..start + l] == Frame(adler, item) by {
        assert buf[start..start + l] == buf[start..start + l - 4] + buf[start + l - 4..start + l];
      }
      EncryptRange(buf, start, l);
    }

    method PutBytes(buf: array<byte>, at: nat, bytes: seq<byte>)
      requires at + |bytes| <= buf.Length
      modifies buf
      ensures buf[at..at + |bytes|] == bytes
      ensures buf[..at] == old(buf[..at]) && buf[at + |bytes|..] == old(buf[at + |bytes|..])
    {
      forall i | 0 <= i < |bytes| {
        buf[at + i] := bytes[i];
      }
    }

    /** m_Encryption.Encrypt, which keeps the last block. */
    method EncryptBlocks(blocks: seq<Block>) returns (e: seq<Block>)
      modifies this`lastBlock
      ensures e == CbcEncrypt(cipher, key, old(lastBlock), blocks) && lastBlock == Chain(old(lastBlock), e)
    {
      var buffer := new Block[|blocks|](i requires 0 <= i < |blocks| => blocks[i]);
      var encryption := new CBCEncryption(cipher);
      encryption.SetKey(key);
      encryption.SetIV(lastBlock);
      assert buffer[0..|blocks|] == blocks;
      encryption.Encrypt(|blocks|, buffer, 0, buffer, 0);
      lastBlock := encryption.lastBlock;
      e := buffer[..];
      assert e == buffer[0..0 + |blocks|];
    }

    /** Its use on a range of bytes, in place. */
    method EncryptRange(buf: array<byte>, start: nat, l: nat)
      requires l % 16 == 0 && start + l <= buf.Length
      modifies this`lastBlock, buf
      ensures var e := CbcEncrypt(cipher, key, old(lastBlock), Blocks(old(buf[start..start + l])));
              buf[start..start + l] == Unblock(e) && 16 * |e| == l && lastBlock == Chain(old(lastBlock), e)
      ensures buf[..start] == old(buf[..start]) && buf[start + l..] == old(buf[start + l..])
    {
      var e := EncryptBlocks(Blocks(buf[start..start + l]));
      BlocksOfUnblock(e);
      PutBytes(buf, start, Unblock(e));
    }

    /** The length goes before the message; what is behind it becomes the padding. */
    method PutLength(buf: array<byte>, start: nat, len: nat, ghost s: Slot)
      requires start <= buf.Length && buf[start..] == s.bytes && len == s.len
      modifies buf
      ensures buf[start..start + FrameLength(len) - 4] == Body(Content(s))
      ensures buf[start + FrameLength(len)..] == s.bytes[FrameLength(len)..] && buf[..start] == old(buf[..start])
    {
      ghost var l := FrameLength(len);
      PutBytes(buf, start, ToBE(len, 2));
      ghost var now := buf[start..];
      assert now[..2] == ToBE(len, 2) && now[2..] == s.bytes[2..];
      BodyInPlace(s, now);
      assert buf[start..start + l - 4] == now[0..l - 4];
      assert buf[start + l..] == now[l..] == now[2..][l - 2..];
      assert s.bytes[2..][l - 2..] == s.bytes[l..];
    }

    /** The frame of what is in the buffer, made and encrypted in place. */
    method FrameInPlace(buf: array<byte>, start: nat, len: nat, l: nat, ghost s: Slot)
      requires start <= buf.Length && buf[start..] == s.bytes && len == s.len && l == FrameLength(len)
      modifies this`lastBlock, buf
      ensures buf[start..] == Encrypted(Environment(), old(lastBlock), s).bytes && buf[..start] == old(buf[..start])
      ensures lastBlock == Chain(old(lastBlock), Ciphertext(Environment(), old(lastBlock), Content(s)))
    {
      ghost var chain := lastBlock;
      PutLength(buf, start, len, s);
      Finish(buf, start, l, Content(s));
      EncryptedIs(Environment(), chain, s, buf[..], start, l);
    }

    /** CreateMsgBuffer for a message: length before it, checksum behind the padding, and encryption in place. */
    method CreateMsgBuffer(msg: I2NP.I2NPMessage, ghost s: Slot)
      requires Sendable(msg) && s == SlotOf(msg)
      modifies this`lastBlock, msg.buf
      ensures SlotOf(msg) == Encrypted(Environment(), old(lastBlock), s)
      ensures lastBlock == Chain(old(lastBlock), Ciphertext(Environment(), old(lastBlock), Content(s)))
      ensures msg.buf[..msg.offset - 2] == old(msg.buf[..msg.offset - 2])
    {
      var sendBuffer, len := msg.offset - 2, msg.len - msg.offset;
      var rem := (len + 6) % 16;
      var padding := if rem > 0 then 16 - rem else 0;
      var l := len + padding + 6;
      FrameInPlace(msg.buf, sendBuffer, len, l, s);
    }

    /** CreateMsgBuffer without a message: the time, in a buffer of the session's own. */
    method CreateTimeBuffer(time: Quad) returns (ghost item: Item)
      requires timeSyncBuffer.Length == 16
      modifies this`lastBlock, timeSyncBuffer
      ensures item == TimeSync(time, old(timeSyncBuffer[6..12]))
      ensures lastBlock == Chain(old(lastBlock), Ciphertext(Environment(), old(lastBlock), item))
      ensures timeSyncBuffer[..] == Unblock(Ciphertext(Environment(), old(lastBlock), item))
    {
      ghost var was := timeSyncBuffer[..];
      item := TimeSync(time, timeSyncBuffer[6..12]);
      PutBytes(timeSyncBuffer, 0, ToBE(0, 2));
      assert timeSyncBuffer[6..] == timeSyncBuffer[2..][4..] == was[2..][4..] == was[6..];
      PutBytes(timeSyncBuffer, 2, time);
      TimeInPlace(was, timeSyncBuffer[..], time);
      assert timeSyncBuffer[0..0 + 16 - 4] == timeSyncBuffer[..][..12];
      Finish(timeSyncBuffer, 0, 16, item);
      assert timeSyncBuffer[..] == timeSyncBuffer[0..0 + 16];
    }

    /** One more buffer is prepared; the other buffers stay as they are. */
    method CreateNext(msg: I2NP.I2NPMessage, ghost mem: Objects) returns (ghost mem': Objects)
      requires Holds(mem) && msg in mem
      modifies this`lastBlock, msg.buf
      ensures mem' == mem[msg := Encrypted(Environment(), old(lastBlock), mem[msg])]
      ensures Holds(mem') && mem'.Keys == mem.Keys
      ensures lastBlock == Chain(old(lastBlock), Ciphertext(Environment(), old(lastBlock), Content(mem[msg])))
    {
      mem' := mem[msg := Encrypted(Environment(), lastBlock, mem[msg])];
      CreateMsgBuffer(msg, mem[msg]);
    }

    /** Every buffer is prepared. */
    method CreateBuffers(msgs: seq<I2NP.I2NPMessage>, ghost mem: Objects) returns (ghost mem': Objects)
      requires Holds(mem) && forall m :: m in msgs ==> m in mem
      modifies this`lastBlock, set m | m in mem :: m.buf
      ensures Holds(mem') && mem'.Keys == mem.Keys
      ensures (mem', lastBlock) == CreateAll(Environment(), mem, old(lastBlock), msgs)
    {
      mem' := mem;
      var i := 0;
      ghost var v, made := Environment(), CreateAll(Environment(), mem, lastBlock, msgs);
      assert msgs[0..] == msgs;
      while i < |msgs|
        invariant 0 <= i <= |msgs| && Holds(mem') && mem'.Keys == mem.Keys
        invariant CreateAll(v, mem', lastBlock, msgs[i..]) == made
      {
        ghost var msg := msgs[i];
        CreateStep(v, mem', lastBlock, msgs, i);
        mem' := CreateNext(msgs[i], mem');
        i := i + 1;
      }
      assert msgs[i..] == [];
    }

    /** The write is begun. */
    method BeginWrite(ghost msgs: seq<I2NP.I2NPMessage>)
      modifies this`isSending, this`outstanding, this`writes
      ensures State() == Sent(old(State()), msgs)
    {
      isSending := true;
      outstanding := outstanding + 1;
      writes := writes + [msgs];
    }

    /** Send for messages: one write refers to all the buffers. */
    method Send(msgs: seq<I2NP.I2NPMessage>, ghost l: Line<I2NP.I2NPMessage>) returns (ghost l': Line<I2NP.I2NPMessage>)
      requires Valid(l) && forall m :: m in msgs ==> m in l.memory
      modifies this, set m | m in l.memory :: m.buf
      ensures Valid(l') && l' == Put(Environment(), l, msgs) && State() == Sent(old(State()), msgs)
    {
      BeginWrite(msgs);
      ghost var mem := CreateBuffers(msgs, l.memory);
      l' := Line(mem, lastBlock, l.wire + Gather(mem, msgs));
    }

    method SendTimeSyncMessage(time: Quad) returns (ghost item: Item)
      requires timeSyncBuffer.Length == 16
      modifies this, timeSyncBuffer
      ensures item == TimeSync(time, old(timeSyncBuffer[6..12]))
      ensures State() == old(State()).(isSending := true, outstanding := old(outstanding) + 1)
      ensures lastBlock == Chain(old(lastBlock), Ciphertext(Environment(), old(lastBlock), item))
      ensures timeSyncBuffer[..] == Unblock(Ciphertext(Environment(), old(lastBlock), item))
    {
      isSending := true;
      outstanding := outstanding + 1;
      item := CreateTimeBuffer(time);
    }

    method Connected(time: Quad, info: I2NP.I2NPMessage, ghost l: Line<I2NP.I2NPMessage>)
      returns (ghost item: Item, ghost l': Line<I2NP.I2NPMessage>)
      requires Valid(l) && info in l.memory
      requires timeSyncBuffer.Length == 16 && forall m :: m in l.memory ==> m.buf != timeSyncBuffer
      modifies this, timeSyncBuffer
      ensures Valid(l') && State() == Opened(old(State()), info)
      ensures item == TimeSync(time, old(timeSyncBuffer[6..12])) && l' == TimeSent(Environment(), l, item)
      ensures timeSyncBuffer[..] == Unblock(Ciphertext(Environment(), l.chain, item))
    {
      sendQueue := sendQueue + [info];
      posted := posted + [info];
      item := SendTimeSyncMessage(time);
      l' := TimeSent(Environment(), l, item);
    }

    method PostI2NPMessages(msgs: seq<I2NP.I2NPMessage>, ghost l: Line<I2NP.I2NPMessage>)
      returns (ghost l': Line<I2NP.I2NPMessage>)
      requires Valid(l) && forall m :: m in msgs ==> m in l.memory
      modifies this, set m | m in l.memory :: m.buf
      ensures Valid(l') && State() == Posted(old(State()), msgs)
      ensures l' == if old(isTerminated) || old(isSending) then l else Put(Environment(), l, msgs)
    {
      l' := l;
      if isTerminated {
        return;
      }
      posted := posted + msgs;
      if isSending {
        sendQueue := sendQueue + msgs;
      } else {
        l' := Send(msgs, l);
      }
    }

    /** The write is reported. */
    method WriteDone()
      requires outstanding > 0
      modifies this`isSending, this`outstanding
      ensures State() == old(State()).(isSending := false, outstanding := old(outstanding) - 1)
    {
      isSending := false;
      outstanding := outstanding - 1;
    }

    /** One write of everything queued, which then is no longer. */
    method SendQueue(ghost queue: seq<I2NP.I2NPMessage>, ghost l: Line<I2NP.I2NPMessage>)
      returns (ghost l': Line<I2NP.I2NPMessage>)
      requires Valid(l) && queue == sendQueue
      modifies this, set m | m in l.memory :: m.buf
      ensures Valid(l') && l' == Put(Environment(), l, queue)
      ensures State() == Sent(old(State()), queue).(queue := [])
    {
      l' := Send(sendQueue, l);
      sendQueue := [];
    }

    method HandleSent(error: bool, ghost l: Line<I2NP.I2NPMessage>) returns (ghost l': Line<I2NP.I2NPMessage>)
      requires Valid(l) && outstanding > 0
      modifies this, set m | m in l.memory :: m.buf
      ensures Valid(l') && State() == Finished(old(State()), error)
      ensures error || old(sendQueue) == [] ==> l' == l
      ensures !error && old(sendQueue) != [] ==> l' == Put(Environment(), l, old(sendQueue))
    {
      WriteDone();
      if !error && |sendQueue| > 0 {
        l' := SendQueue(sendQueue, l);
      } else {
        l' := l;
      }
    }

    method Terminate()
      modifies this
      ensures State() == Terminated(old(State())) && lastBlock == old(lastBlock)
    {
      if !isTerminated {
        isTerminated := true;
        sendQueue := [];
      }
    }
  }
}
