/**
 What is inside a garlic message: an AES block with session tags and a payload
 of cloves.  The printer is the routing session's, the parser the destination's.
 */
module GarlicCodec {
  import opened Bytes
  import opened Cbc
  import opened GarlicTags
  import I2NP

  /** A router or destination hash, a session tag, a SHA-256 digest. */
  type Word32 = w: seq<byte> | |w| == 32 witness seq(32, _ => 0)

  /** SHA-256. */
  type Digest = seq<byte> -> Word32

  datatype Delivery = Local | ToDestination(hash: Word32) | ToTunnel(gateway: Word32, tunnelID: nat)

  /** Delivery instructions, an I2NP message with its full header, an id and an expiration. */
  datatype Clove = Clove(delivery: Delivery, msg: seq<byte>, cloveID: nat, expiration: nat)

  datatype Payload = Payload(cloves: seq<Clove>, msgID: nat, expiration: nat)

  /** What a destination does with a clove: handle the message itself, or send it to a tunnel gateway. */
  datatype Action = Handled(msg: seq<byte>) | Forwarded(gateway: seq<byte>, tunnelID: nat, msg: seq<byte>)

  // ---------------------------------------------------------------- the bytes of a block

  const CERTIFICATE: seq<byte> := [0, 0, 0]

  function Instructions(d: Delivery): seq<byte> {
    match d
    case Local => [0]
    case ToDestination(hash) => [0x20] + hash
    case ToTunnel(gateway, tunnelID) => [0x60] + gateway + ToBE(tunnelID, 4)
  }

  function CloveEnd(c: Clove): (r: seq<byte>)
    ensures |r| == 15
  {
    ToBE(c.cloveID, 4) + ToBE(c.expiration, 8) + CERTIFICATE
  }

  function CloveBytes(c: Clove): seq<byte> { Instructions(c.delivery) + c.msg + CloveEnd(c) }

  function ClovesBytes(cs: seq<Clove>): seq<byte> { ConcatMap(CloveBytes, cs) }

  function PayloadEnd(msgID: nat, expiration: nat): (r: seq<byte>)
    ensures |r| == 15
  {
    CERTIFICATE + ToBE(msgID, 4) + ToBE(expiration, 8)
  }

  function PayloadBytes(p: Payload): seq<byte>
    requires |p.cloves| < 256
  {
    [|p.cloves|] + ClovesBytes(p.cloves) + PayloadEnd(p.msgID, p.expiration)
  }

  function BlockStart(tags: seq<Word32>): seq<byte> { ToBE(|tags|, 2) + Flatten(tags) }

  /** Size, hash, the flag that no new session key follows, and the payload itself. */
  function PayloadPart(sha256: Digest, payload: seq<byte>): (r: seq<byte>)
    ensures |r| == 37 + |payload|
  {
    ToBE(|payload|, 4) + sha256(payload) + [0] + payload
  }

  /** The AES block without its padding. */
  function BlockBytes(sha256: Digest, tags: seq<Word32>, payload: seq<byte>): seq<byte> {
    BlockStart(tags) + PayloadPart(sha256, payload)
  }

  // ---------------------------------------------------------------- reading a block

  /** The bytes of a message say how long it is. */
  predicate WellSized(msg: seq<byte>) {
    |msg| >= I2NP.HEADER_SIZE && |msg| == MessageLength(msg, 0)
  }

  /** GetI2NPMessageLength. */
  function MessageLength(b: seq<byte>, at: nat): nat
    requires at + I2NP.CHKS_OFFSET <= |b|
  {
    b[at + I2NP.SIZE_OFFSET] * 256 + b[at + I2NP.SIZE_OFFSET + 1] + I2NP.HEADER_SIZE
  }

  /** Where the delivery instructions proper start: an encrypted clove's flag is followed by 32 bytes to skip. */
  function AfterFlag(flag: byte, at: nat): nat { at + 1 + if flag >= 0x80 then 32 else 0 }

  function InstructionSize(kind: nat): nat { if kind == 0 then 0 else if kind == 3 then 36 else 32 }

  /**
   One turn of HandleGarlicPayload's loop: what is done, and where the next clove starts.  None stands for reading
   beyond the end of the buffer.  A clove for a router is skipped, and so is one for a tunnel if there is no outbound
   tunnel to send it through.
   */
  function CloveAt(b: seq<byte>, at: nat, tunnel: bool): (r: Option<(seq<Action>, nat)>)
    ensures r.Some? ==> r.value.1 > at
  {
    if at >= |b| then None else
      var kind := b[at] / 32 % 4;
      var where := AfterFlag(b[at], at);
      var start := where + InstructionSize(kind);
      if start + I2NP.CHKS_OFFSET > |b| then None else
        var n := MessageLength(b, start);
        if kind == 2 || (kind == 3 && !tunnel) then Some(([], start + n + 15))
        else if start + n > |b| then None
        else if kind == 3
        then Some(([Forwarded(b[where..where + 32], FromBE(b[where + 32..where + 36]), b[start..start + n])],
                   start + n + 15))
        else Some(([Handled(b[start..start + n])], start + n + 15))
  }

  /** What a position in the payload leads to: actions, and the position after the clove. */
  type Step = nat -> Option<(seq<Action>, nat)>

  /** What is done for n cloves from position at on; a clove that ends beyond len is the last one. */
  function Repeat(step: Step, len: nat, at: nat, n: nat): seq<Action>
    decreases n
  {
    if n == 0 then [] else
      match step(at)
      case None => []
      case Some((actions, next)) => actions + if next > len then [] else Repeat(step, len, next, n - 1)
  }

  function Cloves(b: seq<byte>, tunnel: bool): Step { (at: nat) => CloveAt(b, at, tunnel) }

  function ReadPayload(b: seq<byte>, len: nat, tunnel: bool): seq<Action> {
    if b == [] then [] else Repeat(Cloves(b, tunnel), len, 1, b[0])
  }

  /** The tags HandleAESBlock stores, and the payload if it is accepted. */
  datatype Opened = Opened(tags: seq<TagValue>, payload: Option<(nat, nat)>)

  const SIZE_T: nat := 0x1_0000_0000_0000_0000

  function TagsAt(b: seq<byte>, n: nat): (r: seq<TagValue>)
    requires 2 + n * 32 <= |b|
    ensures |r| == n
  {
    seq(n, i requires 0 <= i < n => b[2 + i * 32..2 + i * 32 + 32])
  }

  /** The tag count, and how many bytes are left behind the tags, if there is room for them. */
  function TagCount(b: seq<byte>, len: nat): (r: Option<(nat, nat)>)
    ensures r.Some? ==> 2 + r.value.0 * 32 <= |b|
  {
    if |b| < 2 then None else
      var n := FromBE(b[..2]);
      var left := (len - 2) % SIZE_T;
      if n * 32 > left || 2 + n * 32 > |b| then None else Some((n, left - n * 32))
  }

  /**
   HandleAESBlock up to the call of HandleGarlicPayload: payload gives its position and size.  The tags are stored even if
   the payload is not accepted.
   */
  function OpenBlock(sha256: Digest, b: seq<byte>, len: nat): Opened {
    match TagCount(b, len)
    case None => Opened([], None)
    case Some((n, left)) => Opened(TagsAt(b, n), OpenPayload(sha256, b, 2 + n * 32, left))
  }

  function OpenPayload(sha256: Digest, b: seq<byte>, at: nat, left: nat): Option<(nat, nat)> {
    if at + 37 > |b| then None else
      var size := FromBE(b[at..at + 4]);
      var start := at + 37 + if b[at + 36] != 0 then 32 else 0;
      if size > left || start + size > |b| || sha256(b[start..start + size]) != b[at + 4..at + 36] then None
      else Some((start, size))
  }

  // ---------------------------------------------------------------- the parser undoes the printer

  function ActionsOf(c: Clove, tunnel: bool): seq<Action> {
    match c.delivery
    case ToTunnel(gateway, tunnelID) => if tunnel then [Forwarded(gateway, tunnelID, c.msg)] else []
    case _ => [Handled(c.msg)]
  }

  function AllActions(cs: seq<Clove>, tunnel: bool): seq<Action> {
    if cs == [] then [] else ActionsOf(cs[0], tunnel) + AllActions(cs[1..], tunnel)
  }

  ghost predicate CloveOk(c: Clove) {
    WellSized(c.msg) && (c.delivery.ToTunnel? ==> c.delivery.tunnelID < Pow256(4))
  }

  lemma InstructionsRead(b: seq<byte>, at: nat, d: Delivery)
    requires Lies(b, at, Instructions(d)) && (d.ToTunnel? ==> d.tunnelID < Pow256(4))
    ensures |Instructions(d)| >= 1
    ensures var where := AfterFlag(b[at], at);
            && where + InstructionSize(b[at] / 32 % 4) == at + |Instructions(d)|
            && b[at] / 32 % 4 == (match d case Local => 0 case ToDestination(_) => 1 case ToTunnel(_, _) => 3)
            && (d.ToTunnel? ==> b[where..where + 32] == d.gateway && FromBE(b[where + 32..where + 36]) == d.tunnelID)
  {
    match d
    case Local => assert b[at] == b[at..at + 1][0];
    case ToDestination(hash) =>
      LiesParts(b, at, [0x20], hash);
      assert b[at] == b[at..at + 1][0];
    case ToTunnel(gateway, tunnelID) =>
      assert Instructions(d) == [0x60] + (gateway + ToBE(tunnelID, 4));
      LiesParts(b, at, [0x60], gateway + ToBE(tunnelID, 4));
      LiesParts(b, at + 1, gateway, ToBE(tunnelID, 4));
      assert b[at] == b[at..at + 1][0];
      BERoundTrip(tunnelID, 4);
  }

  /**
   A printed clove is read back with its message and instructions, and the next clove is looked for right behind it, if
   its message is well sized; if it is not, the parser goes astray.
   */
  lemma CloveRead(b: seq<byte>, at: nat, c: Clove, tunnel: bool)
    requires Lies(b, at, CloveBytes(c)) && |c.msg| >= I2NP.HEADER_SIZE
    requires c.delivery.ToTunnel? ==> c.delivery.tunnelID < Pow256(4)
    ensures var r := CloveAt(b, at, tunnel);
            && (WellSized(c.msg) ==> r == Some((ActionsOf(c, tunnel), at + |CloveBytes(c)|)))
            && (WellSized(c.msg) <==> r.Some? && r.value.1 == at + |CloveBytes(c)|)
  {
    var head := Instructions(c.delivery);
    LiesParts(b, at, head + c.msg, CloveEnd(c));
    LiesParts(b, at, head, c.msg);
    InstructionsRead(b, at, c.delivery);
    var start := at + |head|;
    SliceOfSlice(b, start, start + |c.msg|, I2NP.SIZE_OFFSET, I2NP.CHKS_OFFSET);
    assert MessageLength(b, start) == MessageLength(c.msg, 0);
  }

  lemma CloveStep(step: Step, b: seq<byte>, at: nat, c: Clove, tunnel: bool)
    requires step == Cloves(b, tunnel) && Lies(b, at, CloveBytes(c)) && CloveOk(c)
    ensures step(at) == Some((ActionsOf(c, tunnel), at + |CloveBytes(c)|))
  {
    CloveRead(b, at, c, tunnel);
  }

  /** From position at on, step by step, the cloves are read one behind the other. */
  ghost predicate StepsOver(step: Step, at: nat, cs: seq<Clove>, tunnel: bool)
    decreases |cs|
  {
    cs != [] ==>
      && step(at) == Some((ActionsOf(cs[0], tunnel), at + |CloveBytes(cs[0])|))
      && StepsOver(step, at + |CloveBytes(cs[0])|, cs[1..], tunnel)
  }

  lemma {:induction false} RepeatSteps(step: Step, len: nat, at: nat, cs: seq<Clove>, tunnel: bool)
    requires StepsOver(step, at, cs, tunnel) && at + |ClovesBytes(cs)| <= len
    ensures Repeat(step, len, at, |cs|) == AllActions(cs, tunnel)
    decreases |cs|
  {
    if cs == [] {
    } else {
      RepeatSteps(step, len, at + |CloveBytes(cs[0])|, cs[1..], tunnel);
    }
  }

  lemma ConcatParts<T>(f: T -> seq<byte>, b: seq<byte>, at: nat, xs: seq<T>)
    requires xs != [] && Lies(b, at, ConcatMap(f, xs))
    ensures Lies(b, at, f(xs[0])) && Lies(b, at + |f(xs[0])|, ConcatMap(f, xs[1..]))
  {
    LiesParts(b, at, f(xs[0]), ConcatMap(f, xs[1..]));
  }

  lemma ClovesParts(b: seq<byte>, at: nat, cs: seq<Clove>) returns (next: nat)
    requires cs != [] && Lies(b, at, ClovesBytes(cs))
    ensures next == at + |CloveBytes(cs[0])| && Lies(b, at, CloveBytes(cs[0])) && Lies(b, next, ClovesBytes(cs[1..]))
  {
    ConcatParts(CloveBytes, b, at, cs);
    next := at + |CloveBytes(cs[0])|;
  }

  /** The first of several cloves is read, and the others lie right behind it. */
  lemma FirstRead(step: Step, b: seq<byte>, at: nat, cs: seq<Clove>, tunnel: bool) returns (next: nat)
    requires step == Cloves(b, tunnel) && cs != [] && Lies(b, at, ClovesBytes(cs)) && CloveOk(cs[0])
    ensures next == at + |CloveBytes(cs[0])| && step(at) == Some((ActionsOf(cs[0], tunnel), next))
    ensures Lies(b, next, ClovesBytes(cs[1..]))
  {
    var c := cs[0];
    next := ClovesParts(b, at, cs);
    CloveStep(step, b, at, c, tunnel);
  }

  lemma StepsCons(step: Step, at: nat, cs: seq<Clove>, tunnel: bool, next: nat)
    requires cs != [] && next == at + |CloveBytes(cs[0])| && step(at) == Some((ActionsOf(cs[0], tunnel), next))
    requires StepsOver(step, next, cs[1..], tunnel)
    ensures StepsOver(step, at, cs, tunnel)
  {
  }

  lemma {:induction false} ClovesRead(step: Step, b: seq<byte>, at: nat, cs: seq<Clove>, tunnel: bool)
    requires step == Cloves(b, tunnel) && Lies(b, at, ClovesBytes(cs)) && forall c :: c in cs ==> CloveOk(c)
    ensures StepsOver(step, at, cs, tunnel)
    decreases |cs|
  {
    if cs == [] {
    } else {
      assert CloveOk(cs[0]);
      var next := FirstRead(step, b, at, cs, tunnel);
      ClovesRead(step, b, next, cs[1..], tunnel);
      StepsCons(step, at, cs, tunnel, next);
    }
  }

  lemma PayloadRead(b: seq<byte>, p: Payload, tunnel: bool)
    requires |p.cloves| < 256 && Lies(b, 0, PayloadBytes(p))
    requires forall c :: c in p.cloves ==> CloveOk(c)
    ensures ReadPayload(b, |PayloadBytes(p)|, tunnel) == AllActions(p.cloves, tunnel)
  {
    var end := PayloadEnd(p.msgID, p.expiration);
    LiesParts(b, 0, [|p.cloves|] + ClovesBytes(p.cloves), end);
    LiesParts(b, 0, [|p.cloves|], ClovesBytes(p.cloves));
    assert b[0] == b[0..1][0] == |p.cloves|;
    ClovesRead(Cloves(b, tunnel), b, 1, p.cloves, tunnel);
    RepeatSteps(Cloves(b, tunnel), |PayloadBytes(p)|, 1, p.cloves, tunnel);
  }

  lemma {:induction false} TagAt(tags: seq<Word32>, i: nat)
    ensures |Flatten(tags)| == 32 * |tags|
    ensures i < |tags| ==> Flatten(tags)[i * 32..i * 32 + 32] == tags[i]
    decreases |tags|
  {
    if tags == [] {
    } else {
      TagAt(tags[1..], if i == 0 then 0 else i - 1);
      var first: seq<byte>, rest: seq<byte> := tags[0], Flatten(tags[1..]);
      if 0 < i < |tags| {
        var j := i - 1;
        assert (first + rest)[i * 32..i * 32 + 32] == rest[j * 32..j * 32 + 32];
      }
    }
  }

  lemma TagsRead(b: seq<byte>, tags: seq<Word32>)
    requires |tags| < Pow256(2) && Lies(b, 0, BlockStart(tags))
    ensures FromBE(b[..2]) == |tags| && |BlockStart(tags)| == 2 + |tags| * 32
    ensures TagsAt(b, |tags|) == tags
  {
    BERoundTrip(|tags|, 2);
    TagAt(tags, 0);
    LiesParts(b, 0, ToBE(|tags|, 2), Flatten(tags));
    assert b[..2] == b[0..2];
    var flat := Flatten(tags);
    forall i | 0 <= i < |tags| ensures b[2 + i * 32..2 + i * 32 + 32] == tags[i] {
      TagAt(tags, i);
      SliceOfSlice(b, 2, 2 + |flat|, i * 32, i * 32 + 32);
    }
  }

  /** Where the payload of a block with these tags starts. */
  function PayloadAt(tags: seq<Word32>): nat { |tags| * 32 + 39 }

  lemma PayloadOpens(sha256: Digest, payload: seq<byte>, b: seq<byte>, at: nat, left: nat)
    requires Lies(b, at, PayloadPart(sha256, payload)) && |payload| < Pow256(4) && |payload| <= left
    ensures OpenPayload(sha256, b, at, left) == Some((at + 37, |payload|))
    ensures Lies(b, at + 37, payload)
  {
    var size, hash: seq<byte> := ToBE(|payload|, 4), sha256(payload);
    LiesParts(b, at, size + hash + [0], payload);
    LiesParts(b, at, size + hash, [0]);
    LiesParts(b, at, size, hash);
    BERoundTrip(|payload|, 4);
    assert b[at + 36] == b[at + 36..at + 37][0];
  }

  lemma TagCountRead(b: seq<byte>, tags: seq<Word32>, len: nat, left: nat)
    requires |tags| < Pow256(2) && Lies(b, 0, BlockStart(tags)) && len < SIZE_T && len == 2 + |tags| * 32 + left
    ensures TagCount(b, len) == Some((|tags|, left))
  {
    TagsRead(b, tags);
  }

  /** A printed block, padded, opens to its tags and to where its payload lies. */
  lemma BlockOpens(sha256: Digest, tags: seq<Word32>, payload: seq<byte>, b: seq<byte>, len: nat)
    requires |tags| < Pow256(2) && |payload| < Pow256(4)
    requires Lies(b, 0, BlockBytes(sha256, tags, payload)) && |BlockBytes(sha256, tags, payload)| <= len < SIZE_T
    ensures OpenBlock(sha256, b, len) == Opened(tags, Some((PayloadAt(tags), |payload|)))
    ensures Lies(b, PayloadAt(tags), payload)
  {
    var at := 2 + |tags| * 32;
    LiesParts(b, 0, BlockStart(tags), PayloadPart(sha256, payload));
    TagsRead(b, tags);
    var left: nat := len - at;
    TagCountRead(b, tags, len, left);
    PayloadOpens(sha256, payload, b, at, left);
    assert at + 37 == PayloadAt(tags);
  }

  lemma LiesDrop(b: seq<byte>, at: nat, bytes: seq<byte>)
    requires Lies(b, at, bytes)
    ensures Lies(b[at..], 0, bytes)
  {
    assert b[at..][0..|bytes|] == b[at..at + |bytes|];
  }

  /**
   The codec round trip: whatever follows it in the buffer, a printed block gives the destination exactly the tags and,
   clove by clove, the messages with their delivery instructions.
   */
  lemma BlockRoundTrip(sha256: Digest, tags: seq<Word32>, p: Payload, b: seq<byte>, len: nat, tunnel: bool)
    requires |tags| < Pow256(2) && |p.cloves| < 256 && |PayloadBytes(p)| < Pow256(4)
    requires forall c :: c in p.cloves ==> CloveOk(c)
    requires Lies(b, 0, BlockBytes(sha256, tags, PayloadBytes(p)))
    requires |BlockBytes(sha256, tags, PayloadBytes(p))| <= len < SIZE_T
    ensures PayloadAt(tags) <= |b|
    ensures OpenBlock(sha256, b, len) == Opened(tags, Some((PayloadAt(tags), |PayloadBytes(p)|)))
    ensures ReadPayload(b[PayloadAt(tags)..], |PayloadBytes(p)|, tunnel) == AllActions(p.cloves, tunnel)
  {
    var payload := PayloadBytes(p);
    BlockOpens(sha256, tags, payload, b, len);
    LiesDrop(b, PayloadAt(tags), payload);
    PayloadRead(b[PayloadAt(tags)..], p, tunnel);
  }

  /** The same through CBC encryption by the session and decryption by the destination. */
  lemma EncryptedRoundTrip(c: BlockCipher, k: Key, iv: Block, sha256: Digest, tags: seq<Word32>, p: Payload,
                           padding: seq<byte>, tunnel: bool)
    requires |tags| < Pow256(2) && |p.cloves| < 256 && |PayloadBytes(p)| < Pow256(4)
    requires forall c :: c in p.cloves ==> CloveOk(c)
    requires var n := |BlockBytes(sha256, tags, PayloadBytes(p)) + padding|; n % 16 == 0 && n < SIZE_T
    ensures var plain := BlockBytes(sha256, tags, PayloadBytes(p)) + padding;
            var sent := Unblock(CbcEncrypt(c, k, iv, Blocks(plain)));
            var b := Unblock(CbcDecrypt(c, k, iv, Blocks(sent)));
            && OpenBlock(sha256, b, |sent|) == Opened(tags, Some((PayloadAt(tags), |PayloadBytes(p)|)))
            && PayloadAt(tags) <= |b|
            && ReadPayload(b[PayloadAt(tags)..], |PayloadBytes(p)|, tunnel) == AllActions(p.cloves, tunnel)
  {
    var block := BlockBytes(sha256, tags, PayloadBytes(p));
    var plain := block + padding;
    BytesCarried(c, k, iv, plain);
    assert plain[0..|block|] == block;
    BlockRoundTrip(sha256, tags, p, plain, |plain|, tunnel);
  }
}
