/**
 The message buffer: a 16-byte header and its payload, the in-place conversion
 to and from the 5-byte SSU header that overlaps it, and growing a buffer.
 */
module I2NP {
  import opened Bytes

  const HEADER_SIZE: nat := 16
  const SHORT_HEADER_SIZE: nat := 5
  const MSGID_OFFSET: nat := 1
  const EXPIRATION_OFFSET: nat := 5
  const SIZE_OFFSET: nat := 13
  const CHKS_OFFSET: nat := 15
  const SSU_OFFSET: nat := HEADER_SIZE - SHORT_HEADER_SIZE
  const MAX_MESSAGE_SIZE: nat := 32768

  /** What a message says. */
  datatype Message = Message(typeID: byte, msgID: nat, expiration: nat, payload: seq<byte>)

  /** The message a full header at the start of h describes. */
  function Decode(h: seq<byte>): Message
    requires |h| >= HEADER_SIZE
    requires |h| >= HEADER_SIZE + FromBE(h[SIZE_OFFSET..CHKS_OFFSET])
  {
    Message(h[0], FromBE(h[MSGID_OFFSET..EXPIRATION_OFFSET]), FromBE(h[EXPIRATION_OFFSET..SIZE_OFFSET]),
            h[HEADER_SIZE..HEADER_SIZE + FromBE(h[SIZE_OFFSET..CHKS_OFFSET])])
  }

  /** The full header: type, id, expiration, size and checksum. */
  function Header(m: Message, chks: byte): (h: seq<byte>)
    ensures |h| == HEADER_SIZE
  {
    [m.typeID] + ToBE(m.msgID, 4) + ToBE(m.expiration, 8) + ToBE(|m.payload|, 2) + [chks]
  }

  /** Whatever follows it in the buffer, a message is read back from its header and payload. */
  lemma HeaderRoundTrip(m: Message, chks: byte, rest: seq<byte>)
    requires m.msgID < Pow256(4) && m.expiration < Pow256(8) && |m.payload| < Pow256(2)
    ensures var h := Header(m, chks) + m.payload + rest;
            && FromBE(h[SIZE_OFFSET..CHKS_OFFSET]) == |m.payload|
            && Decode(h) == m
  {
    var h := Header(m, chks) + m.payload + rest;
    assert h[MSGID_OFFSET..EXPIRATION_OFFSET] == ToBE(m.msgID, 4);
    assert h[EXPIRATION_OFFSET..SIZE_OFFSET] == ToBE(m.expiration, 8);
    assert h[SIZE_OFFSET..CHKS_OFFSET] == ToBE(|m.payload|, 2);
    BERoundTrip(m.msgID, 4);
    BERoundTrip(m.expiration, 8);
    BERoundTrip(|m.payload|, 2);
    assert h[HEADER_SIZE..HEADER_SIZE + |m.payload|] == m.payload;
  }

  /** The bytes SSU transmits for a message: type, expiration in seconds, payload. */
  function SsuBytes(m: Message): seq<byte> {
    [m.typeID] + ToBE(m.expiration / 1000, 4) + m.payload
  }

  /** The message SSU bytes and a message id stand for. */
  function FromSsuBytes(msgID: nat, b: seq<byte>): Message
    requires |b| >= SHORT_HEADER_SIZE
  {
    Message(b[0], msgID, FromBE(b[1..SHORT_HEADER_SIZE]) * 1000, b[SHORT_HEADER_SIZE..])
  }

  /**
   Type, id and payload survive SSU; the expiration is rounded down to whole seconds if and only if those fit into 32
   bits, and otherwise loses its high bits.
   */
  lemma SsuRoundTrip(m: Message)
    ensures |SsuBytes(m)| >= SHORT_HEADER_SIZE
    ensures var r := FromSsuBytes(m.msgID, SsuBytes(m));
            && r.typeID == m.typeID && r.msgID == m.msgID && r.payload == m.payload
            && r.expiration == m.expiration / 1000 % Pow256(4) * 1000
            && (r.expiration == m.expiration / 1000 * 1000 <==> m.expiration / 1000 < Pow256(4))
  {
    var b := SsuBytes(m);
    assert b[1..5] == ToBE(m.expiration / 1000, 4);
    assert b[5..] == m.payload;
    BERoundTrip(m.expiration / 1000, 4);
    var q, p := m.expiration / 1000, Pow256(4);
    assert q % p < p;
    if q < p {
      assert q % p == q;
    }
  }

  /** b with the k-byte big-endian form of value at position at. */
  function Put(b: seq<byte>, at: nat, value: nat, k: nat): (r: seq<byte>)
    requires at + k <= |b|
    ensures |r| == |b|
  {
    b[..at] + ToBE(value, k) + b[at + k..]
  }

  lemma PutKeeps(b: seq<byte>, at: nat, value: nat, k: nat)
    requires at + k <= |b|
    ensures Put(b, at, value, k)[at..at + k] == ToBE(value, k)
    ensures forall i :: 0 <= i < at || at + k <= i < |b| ==> Put(b, at, value, k)[i] == b[i]
  {
  }

  /** The in-place steps of ToSSU on the bytes from the header on. */
  function ShortHeader(h: seq<byte>): (r: seq<byte>)
    requires |h| >= HEADER_SIZE
    ensures |r| == |h|
  {
    Put(h[SSU_OFFSET := h[0]], SSU_OFFSET + 1, FromBE(h[EXPIRATION_OFFSET..SIZE_OFFSET]) / 1000, 4)
  }

  lemma ShortHeaderOk(h: seq<byte>)
    requires |h| >= HEADER_SIZE && |h| >= HEADER_SIZE + FromBE(h[SIZE_OFFSET..CHKS_OFFSET])
    ensures var size := FromBE(h[SIZE_OFFSET..CHKS_OFFSET]);
            ShortHeader(h)[SSU_OFFSET..HEADER_SIZE + size] == SsuBytes(Decode(h))
  {
  }

  /** The in-place steps of FromSSU on the bytes from the header on. */
  function FullHeader(h: seq<byte>, msgID: nat, size: nat): (r: seq<byte>)
    requires |h| >= HEADER_SIZE
    ensures |r| == |h|
  {
    var seconds := FromBE(h[SSU_OFFSET + 1..HEADER_SIZE]);
    var h1 := Put(h[0 := h[SSU_OFFSET]], MSGID_OFFSET, msgID, 4);
    var h2 := Put(h1, EXPIRATION_OFFSET, seconds * 1000, 8);
    Put(h2, SIZE_OFFSET, size, 2)[CHKS_OFFSET := 0]
  }

  lemma FullHeaderFields(h: seq<byte>, msgID: nat, size: nat)
    requires |h| >= HEADER_SIZE
    ensures var r := FullHeader(h, msgID, size);
            && r[0] == h[SSU_OFFSET]
            && r[MSGID_OFFSET..EXPIRATION_OFFSET] == ToBE(msgID, 4)
            && r[EXPIRATION_OFFSET..SIZE_OFFSET] == ToBE(FromBE(h[SSU_OFFSET + 1..HEADER_SIZE]) * 1000, 8)
            && r[SIZE_OFFSET..CHKS_OFFSET] == ToBE(size, 2)
            && r[HEADER_SIZE..] == h[HEADER_SIZE..]
  {
    var h0, n := h[0 := h[SSU_OFFSET]], |h|;
    var h1 := Put(h0, MSGID_OFFSET, msgID, 4);
    var h2 := Put(h1, EXPIRATION_OFFSET, FromBE(h[SSU_OFFSET + 1..HEADER_SIZE]) * 1000, 8);
    var h3 := Put(h2, SIZE_OFFSET, size, 2);
    PutKeeps(h0, MSGID_OFFSET, msgID, 4);
    PutKeeps(h1, EXPIRATION_OFFSET, FromBE(h[SSU_OFFSET + 1..HEADER_SIZE]) * 1000, 8);
    PutKeeps(h2, SIZE_OFFSET, size, 2);
    forall i | HEADER_SIZE <= i < n ensures h3[CHKS_OFFSET := 0][i] == h[i] {
      assert h3[i] == h2[i] && h2[i] == h1[i] && h1[i] == h0[i];
    }
  }

  lemma FullHeaderOk(h: seq<byte>, msgID: nat, size: nat)
    requires |h| >= HEADER_SIZE + size && msgID < Pow256(4) && size < Pow256(2)
    ensures FromBE(FullHeader(h, msgID, size)[SIZE_OFFSET..CHKS_OFFSET]) == size
    ensures Decode(FullHeader(h, msgID, size)) == FromSsuBytes(msgID, h[SSU_OFFSET..HEADER_SIZE + size])
  {
    var r := FullHeader(h, msgID, size);
    var seconds := FromBE(h[SSU_OFFSET + 1..HEADER_SIZE]);
    FullHeaderFields(h, msgID, size);
    SliceOfSlice(r, HEADER_SIZE, |r|, 0, size);
    SliceOfSlice(h, HEADER_SIZE, |h|, 0, size);
    assert r[HEADER_SIZE..|r|] == r[HEADER_SIZE..] && h[HEADER_SIZE..|h|] == h[HEADER_SIZE..];
    assert r[HEADER_SIZE..HEADER_SIZE + size] == h[HEADER_SIZE..HEADER_SIZE + size];
    SliceOfSlice(h, SSU_OFFSET, HEADER_SIZE + size, 1, SHORT_HEADER_SIZE);
    SliceOfSlice(h, SSU_OFFSET, HEADER_SIZE + size, SHORT_HEADER_SIZE, SHORT_HEADER_SIZE + size);
    BERoundTrip(msgID, 4);
    BERoundTrip(size, 2);
    SecondsFit(seconds);
    BERoundTrip(seconds * 1000, 8);
    assert h[SSU_OFFSET..HEADER_SIZE + size][SHORT_HEADER_SIZE..] == h[HEADER_SIZE..HEADER_SIZE + size];
  }

  class I2NPMessage {
    const buf: array<byte>
    var len: nat
    var offset: nat
    var maxLen: nat

    /** A new message with a buffer of the given nominal size; 2 bytes are reserved for the NTCP length. */
    constructor (size: nat)
      requires size >= HEADER_SIZE + 2
      ensures fresh(buf) && buf.Length == size + 16 && maxLen == size
      ensures len == HEADER_SIZE + 2 && offset == 2
      ensures forall i :: 0 <= i < buf.Length ==> buf[i] == 0
    {
      buf := new byte[size + 16](_ => 0);
      len, offset, maxLen := HEADER_SIZE + 2, 2, size;
    }

    ghost predicate Valid()
      reads this
    {
      offset + HEADER_SIZE <= len <= buf.Length
    }

    /** Everything from the header on. */
    ghost function Rest(): seq<byte>
      requires offset <= buf.Length
      reads this, buf
    {
      buf[offset..]
    }

    /** htobeNNbuf into the buffer. */
    method PutBE(at: nat, value: nat, k: nat)
      requires at + k <= buf.Length
      modifies buf
      ensures buf[..] == Put(old(buf[..]), at, value, k)
    {
      var bytes := ToBE(value, k);
      forall i | 0 <= i < k {
        buf[at + i] := bytes[i];
      }
    }

    /**
     ToSSU: the short header overwrites bytes 11 to 15 of the full one, which therefore has to be copied first.
     */
    method ToSSU() returns (msgID: nat)
      requires Valid()
      requires offset + HEADER_SIZE + FromBE(Rest()[SIZE_OFFSET..CHKS_OFFSET]) <= buf.Length
      modifies this`len, buf
      ensures msgID == Decode(old(Rest())).msgID
      ensures len == offset + |SsuBytes(Decode(old(Rest())))|
      ensures buf[offset + SSU_OFFSET..len + SSU_OFFSET] == SsuBytes(Decode(old(Rest())))
    {
      ghost var h := Rest();
      ShortHeaderOk(h);
      var header := buf[offset..offset + HEADER_SIZE];
      assert header == h[..HEADER_SIZE];
      assert header[MSGID_OFFSET..EXPIRATION_OFFSET] == h[MSGID_OFFSET..EXPIRATION_OFFSET];
      assert header[EXPIRATION_OFFSET..SIZE_OFFSET] == h[EXPIRATION_OFFSET..SIZE_OFFSET];
      assert header[SIZE_OFFSET..CHKS_OFFSET] == h[SIZE_OFFSET..CHKS_OFFSET];
      var ssu := offset + SSU_OFFSET;
      buf[ssu] := header[0];
      assert Rest() == h[SSU_OFFSET := h[0]];
      PutField(SSU_OFFSET + 1, FromBE(header[EXPIRATION_OFFSET..SIZE_OFFSET]) / 1000, 4);
      assert Rest() == ShortHeader(h);
      len := offset + SHORT_HEADER_SIZE + FromBE(header[SIZE_OFFSET..CHKS_OFFSET]);
      msgID := FromBE(header[MSGID_OFFSET..EXPIRATION_OFFSET]);
      assert buf[offset + SSU_OFFSET..len + SSU_OFFSET] == Rest()[SSU_OFFSET..len + SSU_OFFSET - offset];
    }

    /** FromSSU: the full header is written over the short one, whose fields are read before they are overwritten. */
    method FromSSU(msgID: nat)
      requires Valid() && len - offset - HEADER_SIZE < Pow256(2) && msgID < Pow256(4)
      modifies buf
      ensures FromBE(Rest()[SIZE_OFFSET..CHKS_OFFSET]) == len - offset - HEADER_SIZE
      ensures Decode(Rest()) == FromSsuBytes(msgID, old(buf[offset + SSU_OFFSET..len]))
    {
      ghost var h, size := Rest(), len - offset - HEADER_SIZE;
      FullHeaderOk(h, msgID, size);
      assert buf[offset + SSU_OFFSET..len] == h[SSU_OFFSET..HEADER_SIZE + size];
      var ssu := offset + SSU_OFFSET;
      var seconds := FromBE(buf[ssu + 1..ssu + 5]);
      assert buf[ssu + 1..ssu + 5] == h[SSU_OFFSET + 1..HEADER_SIZE];
      buf[offset] := buf[ssu];
      assert Rest() == h[0 := h[SSU_OFFSET]];
      PutField(MSGID_OFFSET, msgID, 4);
      PutField(EXPIRATION_OFFSET, seconds * 1000, 8);
      PutField(SIZE_OFFSET, len - offset - HEADER_SIZE, 2);
      ghost var r := Rest();
      buf[offset + CHKS_OFFSET] := 0;
      assert Rest() == r[CHKS_OFFSET := 0];
    }

    /** SetMsgID, SetExpiration and SetSize: one header field. */
    method PutField(field: nat, value: nat, k: nat)
      requires offset + field + k <= buf.Length
      modifies buf
      ensures Rest() == Put(old(Rest()), field, value, k)
    {
      PutBE(offset + field, value, k);
    }

    /** operator=, which also takes over the other buffer's nominal size. */
    method Assign(other: I2NPMessage)
      requires other.offset <= other.len <= other.buf.Length && buf != other.buf && this != other
      requires offset + (other.len - other.offset) <= buf.Length
      modifies this`len, this`maxLen, buf
      ensures len == offset + (other.len - other.offset) && maxLen == other.maxLen
      ensures buf[offset..len] == other.buf[other.offset..other.len]
    {
      var n := other.len - other.offset;
      forall i | 0 <= i < n {
        buf[offset + i] := other.buf[other.offset + i];
      }
      len := offset + n;
      maxLen := other.maxLen;
    }
  }

  lemma SecondsFit(seconds: nat)
    requires seconds < Pow256(4)
    ensures seconds * 1000 < Pow256(8)
  {
    assert Pow256(8) == 256 * (256 * (256 * (256 * Pow256(4))));
  }

  /**
   AttachNextFragment's buffer work: append, after moving to a large buffer if the nominal size is exceeded.  The
   nominal size of the new buffer is the old, small one, so that every later fragment moves the message again; no byte
   is lost by that.
   */
  method Attach(msg: I2NPMessage, fragment: seq<byte>) returns (r: I2NPMessage)
    requires msg.offset <= msg.len && msg.maxLen <= msg.buf.Length
    requires msg.offset == 2 && msg.len + |fragment| <= MAX_MESSAGE_SIZE
    requires msg.len <= msg.buf.Length
    modifies msg, msg.buf
    ensures r.offset == 2 && r.len == old(msg.len) + |fragment| <= r.buf.Length
    ensures r.buf[2..r.len] == old(msg.buf[2..msg.len]) + fragment
    ensures r.maxLen == old(msg.maxLen) <= r.buf.Length
    ensures old(msg.len) + |fragment| > old(msg.maxLen) ==> fresh(r) && fresh(r.buf) && r.buf.Length == MAX_MESSAGE_SIZE + 16
    ensures old(msg.len) + |fragment| <= old(msg.maxLen) ==> r == msg
  {
    ghost var content := msg.buf[2..msg.len];
    r := msg;
    if msg.len + |fragment| > msg.maxLen {
      var newMsg := new I2NPMessage(MAX_MESSAGE_SIZE);
      newMsg.Assign(msg);
      r := newMsg;
    }
    assert r.buf[2..r.len] == content;
    ghost var n := r.len;
    forall i | 0 <= i < |fragment| {
      r.buf[r.len + i] := fragment[i];
    }
    r.len := r.len + |fragment|;
    assert r.buf[2..n] == content && r.buf[n..r.len] == fragment;
    assert r.buf[2..r.len] == r.buf[2..n] + r.buf[n..r.len];
  }
}
