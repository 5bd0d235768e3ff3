/**
 Garlic blocks that are not of our own making: cloves of every delivery type,
 encrypted ones, new session keys, wrong hashes and counts, and payloads that end
 too early.
 */
module GarlicReceive {
  import opened Bytes
  import opened GarlicTags
  import opened GarlicCodec
  import I2NP

  /** A clove as it may arrive: what its flag says, what belongs to that, a message and 15 bytes that end it. */
  datatype AnyClove = AnyClove(flag: byte, sessionKey: seq<byte>, words: seq<byte>, msg: seq<byte>, end: seq<byte>)

  datatype Kind = LocalKind | DestinationKind | RouterKind | TunnelKind

  /** Bits 6 and 5 of the flag. */
  function KindOf(flag: byte): Kind {
    if Bit(flag, 6) then (if Bit(flag, 5) then TunnelKind else RouterKind)
    else if Bit(flag, 5) then DestinationKind else LocalKind
  }

  function WordsSize(k: Kind): nat {
    match k
    case LocalKind => 0
    case DestinationKind => 32
    case RouterKind => 32
    case TunnelKind => 36
  }

  ghost predicate AnyOk(c: AnyClove) {
    && |c.sessionKey| == (if Bit(c.flag, 7) then 32 else 0)
    && |c.words| == WordsSize(KindOf(c.flag)) && WellSized(c.msg) && |c.end| == 15
  }

  function AnyBytes(c: AnyClove): seq<byte> { [c.flag] + c.sessionKey + c.words + c.msg + c.end }

  /** What is to be done: nothing for a router, nothing for a tunnel without one to send through. */
  function AnyActions(c: AnyClove, tunnel: bool): seq<Action>
    requires |c.words| == WordsSize(KindOf(c.flag))
  {
    match KindOf(c.flag)
    case LocalKind => [Handled(c.msg)]
    case DestinationKind => [Handled(c.msg)]
    case RouterKind => []
    case TunnelKind => if tunnel then [Forwarded(c.words[..32], FromBE(c.words[32..]), c.msg)] else []
  }

  lemma FlagBits(flag: byte)
    ensures Bit(flag, 7) <==> flag >= 0x80
    ensures KindOf(flag) == match flag / 32 % 4 case 0 => LocalKind case 1 => DestinationKind case 2 => RouterKind case _ => TunnelKind
  {
    var a5 := flag / 2 / 2 / 2 / 2 / 2;
    assert Bit(flag, 5) == Bit(flag / 2, 4) == Bit(flag / 2 / 2, 3) == Bit(flag / 2 / 2 / 2, 2) == Bit(flag / 2 / 2 / 2 / 2, 1)
        == Bit(a5, 0);
    assert Bit(flag, 6) == Bit(flag / 2, 5) == Bit(flag / 2 / 2, 4) == Bit(flag / 2 / 2 / 2, 3) == Bit(flag / 2 / 2 / 2 / 2, 2)
        == Bit(a5, 1) == Bit(a5 / 2, 0);
    assert Bit(flag, 7) == Bit(flag / 2, 6) == Bit(flag / 2 / 2, 5) == Bit(flag / 2 / 2 / 2, 4) == Bit(flag / 2 / 2 / 2 / 2, 3)
        == Bit(a5, 2) == Bit(a5 / 2, 1) == Bit(a5 / 2 / 2, 0);
    assert a5 == flag / 32;
  }

  lemma AnyParts(b: seq<byte>, at: nat, c: AnyClove)
    requires Lies(b, at, AnyBytes(c)) && AnyOk(c)
    ensures var where := AfterFlag(b[at], at);
            && b[at] == c.flag && where == at + 1 + |c.sessionKey|
            && Lies(b, where, c.words) && Lies(b, where + |c.words|, c.msg)
  {
    var head: seq<byte> := [c.flag];
    LiesParts(b, at, head + c.sessionKey + c.words + c.msg, c.end);
    LiesParts(b, at, head + c.sessionKey + c.words, c.msg);
    LiesParts(b, at, head + c.sessionKey, c.words);
    LiesParts(b, at, head, c.sessionKey);
    assert b[at] == b[at..at + 1][0];
    FlagBits(c.flag);
  }

  lemma AnyLength(b: seq<byte>, start: nat, msg: seq<byte>)
    requires Lies(b, start, msg) && WellSized(msg)
    ensures MessageLength(b, start) == |msg|
  {
    SliceOfSlice(b, start, start + |msg|, I2NP.SIZE_OFFSET, I2NP.CHKS_OFFSET);
  }

  lemma TunnelWords(b: seq<byte>, where: nat, words: seq<byte>)
    requires Lies(b, where, words) && |words| == 36
    ensures b[where..where + 32] == words[..32] && b[where + 32..where + 36] == words[32..]
  {
    SliceOfSlice(b, where, where + 36, 0, 32);
    SliceOfSlice(b, where, where + 36, 32, 36);
    assert words[0..32] == words[..32] && words[32..36] == words[32..];
  }

  /** Whatever its flag says, a clove with a well sized message is read, and the next one is looked for right behind it. */
  lemma AnyCloveRead(b: seq<byte>, at: nat, c: AnyClove, tunnel: bool)
    requires Lies(b, at, AnyBytes(c)) && AnyOk(c)
    ensures CloveAt(b, at, tunnel) == Some((AnyActions(c, tunnel), at + |AnyBytes(c)|))
  {
    var where := AfterFlag(b[at], at);
    AnyParts(b, at, c);
    FlagBits(c.flag);
    AnyLength(b, where + |c.words|, c.msg);
    if KindOf(c.flag).TunnelKind? {
      TunnelWords(b, where, c.words);
    }
  }

  // ---------------------------------------------------------------- the payload

  function AllBytes(cs: seq<AnyClove>): seq<byte> { ConcatMap(AnyBytes, cs) }

  ghost predicate AllOk(cs: seq<AnyClove>) { forall c :: c in cs ==> AnyOk(c) }

  ghost function AllToDo(cs: seq<AnyClove>, tunnel: bool): seq<Action>
    requires AllOk(cs)
  {
    if cs == [] then [] else
      assert cs[0] in cs;
      AnyActions(cs[0], tunnel) + AllToDo(cs[1..], tunnel)
  }

  /** One turn of the loop. */
  lemma Turn(step: Step, len: nat, at: nat, n: nat, actions: seq<Action>, next: nat, left: nat)
    requires n == left + 1 && step(at) == Some((actions, next))
    ensures Repeat(step, len, at, n) == actions + if next > len then [] else Repeat(step, len, next, left)
  {
  }

  lemma FirstClove(step: Step, b: seq<byte>, at: nat, cs: seq<AnyClove>, tunnel: bool)
    requires step == Cloves(b, tunnel) && cs != [] && AllOk(cs) && Lies(b, at, AllBytes(cs))
    ensures AnyOk(cs[0]) && AllOk(cs[1..])
    ensures step(at) == Some((AnyActions(cs[0], tunnel), at + |AnyBytes(cs[0])|))
    ensures Lies(b, at + |AnyBytes(cs[0])|, AllBytes(cs[1..]))
    ensures |AllBytes(cs)| == |AnyBytes(cs[0])| + |AllBytes(cs[1..])|
  {
    ConcatParts(AnyBytes, b, at, cs);
    assert cs[0] in cs;
    AnyCloveRead(b, at, cs[0], tunnel);
  }

  lemma {:induction false} ClovesWorkedOff(step: Step, b: seq<byte>, len: nat, at: nat, n: nat, cs: seq<AnyClove>,
                                           tunnel: bool, end: nat)
    requires step == Cloves(b, tunnel) && AllOk(cs) && Lies(b, at, AllBytes(cs)) && n == |cs|
    requires end == at + |AllBytes(cs)| <= len
    ensures Repeat(step, len, at, n) == AllToDo(cs, tunnel)
    decreases |cs|
  {
    if cs == [] {
    } else {
      var next, left := at + |AnyBytes(cs[0])|, n - 1;
      FirstClove(step, b, at, cs, tunnel);
      Turn(step, len, at, n, AnyActions(cs[0], tunnel), next, left);
      ClovesWorkedOff(step, b, len, next, left, cs[1..], tunnel, end);
    }
  }

  lemma {:induction false} StopsBehind(step: Step, b: seq<byte>, len: nat, at: nat, n: nat, cs: seq<AnyClove>,
                                       last: AnyClove, tunnel: bool, end: nat)
    requires step == Cloves(b, tunnel) && AllOk(cs) && AnyOk(last) && n > |cs|
    requires end == at + |AllBytes(cs)| && Lies(b, at, AllBytes(cs)) && Lies(b, end, AnyBytes(last))
    requires end <= len < end + |AnyBytes(last)|
    ensures Repeat(step, len, at, n) == AllToDo(cs, tunnel) + AnyActions(last, tunnel)
    decreases |cs|
  {
    var left := n - 1;
    if cs == [] {
      AnyCloveRead(b, at, last, tunnel);
      Turn(step, len, at, n, AnyActions(last, tunnel), end + |AnyBytes(last)|, left);
      assert [] + AnyActions(last, tunnel) == AnyActions(last, tunnel) + [];
    } else {
      var next := at + |AnyBytes(cs[0])|;
      FirstClove(step, b, at, cs, tunnel);
      Turn(step, len, at, n, AnyActions(cs[0], tunnel), next, left);
      StopsBehind(step, b, len, next, left, cs[1..], last, tunnel, end);
      Append(AnyActions(cs[0], tunnel), AllToDo(cs[1..], tunnel), AnyActions(last, tunnel));
    }
  }

  /** A payload of any cloves does what they say, in their order. */
  lemma AnyPayloadRead(b: seq<byte>, cs: seq<AnyClove>, end: seq<byte>, len: nat, tunnel: bool)
    requires |cs| < 256 && AllOk(cs) && b == [|cs|] + AllBytes(cs) + end && 1 + |AllBytes(cs)| <= len
    ensures ReadPayload(b, len, tunnel) == AllToDo(cs, tunnel)
  {
    assert Lies(b, 1, AllBytes(cs));
    ClovesWorkedOff(Cloves(b, tunnel), b, len, 1, |cs|, cs, tunnel, 1 + |AllBytes(cs)|);
  }

  /** The first clove that ends beyond the payload's length is still worked off, and nothing behind it. */
  lemma LongCloveEnds(b: seq<byte>, n: byte, cs: seq<AnyClove>, last: AnyClove, rest: seq<byte>, len: nat, tunnel: bool)
    requires |cs| < n && AllOk(cs) && AnyOk(last) && b == [n] + AllBytes(cs) + AnyBytes(last) + rest
    requires 1 + |AllBytes(cs)| <= len < 1 + |AllBytes(cs)| + |AnyBytes(last)|
    ensures ReadPayload(b, len, tunnel) == AllToDo(cs, tunnel) + AnyActions(last, tunnel)
  {
    assert Lies(b, 1, AllBytes(cs)) && Lies(b, 1 + |AllBytes(cs)|, AnyBytes(last));
    StopsBehind(Cloves(b, tunnel), b, len, 1, n, cs, last, tunnel, 1 + |AllBytes(cs)|);
  }

  // ---------------------------------------------------------------- the block

  /** Size, hash, flag and perhaps a new session key. */
  lemma PartRead(b: seq<byte>, at: nat, size: nat, hash: Word32, flag: byte, newKey: seq<byte>, payload: seq<byte>)
    requires Lies(b, at, ToBE(size, 4) + hash + [flag] + newKey + payload) && size < Pow256(4)
    ensures at + 37 <= |b| && FromBE(b[at..at + 4]) == size && b[at + 4..at + 36] == hash && b[at + 36] == flag
    ensures Lies(b, at + 37 + |newKey|, payload)
  {
    var s, h: seq<byte>, f: seq<byte> := ToBE(size, 4), hash, [flag];
    LiesParts(b, at, s + h + f + newKey, payload);
    LiesParts(b, at, s + h + f, newKey);
    LiesParts(b, at, s + h, f);
    LiesParts(b, at, s, h);
    BERoundTrip(size, 4);
    assert b[at + 36] == b[at + 36..at + 37][0];
  }

  /**
   A payload is accepted if and only if it is not longer than what is left of the block and has the hash before it; a new
   session key is skipped.
   */
  lemma AcceptedExactly(sha256: Digest, b: seq<byte>, at: nat, left: nat, hash: Word32, flag: byte, newKey: seq<byte>,
                        payload: seq<byte>)
    requires Lies(b, at, ToBE(|payload|, 4) + hash + [flag] + newKey + payload) && |payload| < Pow256(4)
    requires |newKey| == if flag != 0 then 32 else 0
    ensures OpenPayload(sha256, b, at, left)
         == if |payload| <= left && sha256(payload) == hash then Some((at + 37 + |newKey|, |payload|)) else None
  {
    PartRead(b, at, |payload|, hash, flag, newKey, payload);
  }

  /** Tags are stored if and only if the block has room for as many as it says, and then exactly those. */
  lemma TagsExactly(sha256: Digest, b: seq<byte>, n: nat, rest: seq<byte>, len: nat)
    requires n < Pow256(2) && b == ToBE(n, 2) + rest && 2 <= len <= |b| && len < SIZE_T
    ensures var o := OpenBlock(sha256, b, len);
            && (32 * n <= len - 2 ==> |o.tags| == n && forall i :: 0 <= i < n ==> o.tags[i] == rest[32 * i..32 * i + 32])
            && (32 * n > len - 2 ==> o == Opened([], None))
  {
    BERoundTrip(n, 2);
    assert b[..2] == ToBE(n, 2);
    if 32 * n <= len - 2 {
      forall i | 0 <= i < n ensures b[2 + i * 32..2 + i * 32 + 32] == rest[32 * i..32 * i + 32] {
      }
    }
  }
}
