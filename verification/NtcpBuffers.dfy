/**
 Message buffers of an NTCP session: a frame is made and encrypted in the
 message's own buffer, and a write refers to buffers, not to copies.
 */
module NtcpBuffers {
  import opened Bytes
  import opened Cbc
  import opened Ntcp

  datatype Env = Env(cipher: BlockCipher, key: Key, adler: Checksum)

  function FrameLength(len: nat): (n: nat)
    ensures n % 16 == 0
  {
    len + 6 + PaddingSize(len)
  }

  /** A message's length, and its buffer from the two bytes reserved before the message to the end. */
  datatype Buffer = Buffer(len: nat, bytes: seq<byte>)

  type Slot = b: Buffer | FrameLength(b.len) <= |b.bytes| witness Buffer(0, seq(16, _ => 0))

  /** What the buffers of message objects hold; objects not listed hold an empty message. */
  type Memory<T(==)> = map<T, Slot>

  function At<T(==)>(mem: Memory<T>, m: T): Slot { if m in mem then mem[m] else Buffer(0, seq(16, _ => 0)) }

  /** The message in a buffer, with the bytes behind it that become the padding. */
  function Content(s: Slot): (i: Item)
    ensures i.Data? && |i.msg| == s.len && |i.padding| == PaddingSize(s.len)
  {
    Data(s.bytes[2..2 + s.len], s.bytes[2 + s.len..2 + s.len + PaddingSize(s.len)])
  }

  function Ciphertext(v: Env, chain: Block, i: Item): seq<Block> {
    CbcEncrypt(v.cipher, v.key, chain, Blocks(Frame(v.adler, i)))
  }

  lemma CiphertextLength(v: Env, chain: Block, s: Slot)
    ensures 16 * |Ciphertext(v, chain, Content(s))| == FrameLength(s.len) == |Frame(v.adler, Content(s))|
  {
  }

  /** The buffer after CreateMsgBuffer: the message has been overwritten by its encrypted frame. */
  function Encrypted(v: Env, chain: Block, s: Slot): (r: Slot)
    ensures r.len == s.len
  {
    var e := Ciphertext(v, chain, Content(s));
    CiphertextLength(v, chain, s);
    BlocksOfUnblock(e);
    Buffer(s.len, Unblock(e) + s.bytes[FrameLength(s.len)..])
  }

  /** The encrypted frame within a larger buffer, with the rest of the slot unchanged behind it. */
  lemma EncryptedIs(v: Env, chain: Block, s: Slot, b: seq<byte>, start: nat, l: nat)
    requires l == FrameLength(s.len) && |b| == start + |s.bytes| && b[start + l..] == s.bytes[l..]
    requires b[start..start + l] == Unblock(Ciphertext(v, chain, Content(s)))
    ensures b[start..] == Encrypted(v, chain, s).bytes
  {
    assert b[start..] == b[start..start + l] + b[start + l..];
  }

  /** The part of a buffer a write refers to. */
  function Range(s: Slot): seq<Block> { Blocks(s.bytes[..FrameLength(s.len)]) }

  lemma RangeEncrypted(v: Env, chain: Block, s: Slot)
    ensures Range(Encrypted(v, chain, s)) == Ciphertext(v, chain, Content(s))
  {
    var e := Ciphertext(v, chain, Content(s));
    CiphertextLength(v, chain, s);
    BlocksOfUnblock(e);
    assert Encrypted(v, chain, s).bytes[..FrameLength(s.len)] == Unblock(e);
  }

  /** The buffers, the encryption's last block, and everything given to the socket. */
  datatype Line<T(==)> = Line(memory: Memory<T>, chain: Block, wire: seq<Block>)

  /** CreateMsgBuffer for one message after the other. */
  function CreateAll<T(==)>(v: Env, mem: Memory<T>, chain: Block, ms: seq<T>): (Memory<T>, Block)
    decreases |ms|
  {
    if ms == [] then (mem, chain) else
      var s := At(mem, ms[0]);
      CreateAll(v, mem[ms[0] := Encrypted(v, chain, s)], Chain(chain, Ciphertext(v, chain, Content(s))), ms[1..])
  }

  lemma CreateStep<T>(v: Env, mem: Memory<T>, chain: Block, ms: seq<T>, i: nat)
    requires i < |ms| && ms[i] in mem
    ensures CreateAll(v, mem, chain, ms[i..])
         == CreateAll(v, mem[ms[i] := Encrypted(v, chain, mem[ms[i]])],
                      Chain(chain, Ciphertext(v, chain, Content(mem[ms[i]]))), ms[i + 1..])
  {
    assert ms[i..][1..] == ms[i + 1..] && ms[i..][0] == ms[i];
  }

  /** What a write of the messages' buffers sends. */
  function Gather<T(==)>(mem: Memory<T>, ms: seq<T>): seq<Block>
    decreases |ms|
  {
    if ms == [] then [] else Range(At(mem, ms[0])) + Gather(mem, ms[1..])
  }

  /** One write: all buffers are prepared before any of them is read. */
  function Put<T(==)>(v: Env, l: Line<T>, ms: seq<T>): Line<T> {
    var (mem, chain) := CreateAll(v, l.memory, l.chain, ms);
    Line(mem, chain, l.wire + Gather(mem, ms))
  }

  function PutAll<T(==)>(v: Env, l: Line<T>, writes: seq<seq<T>>): Line<T>
    decreases |writes|
  {
    if writes == [] then l else
      var n := |writes| - 1;
      Put(v, PutAll(v, l, writes[..n]), writes[n])
  }

  lemma PutAllSnoc<T>(v: Env, l: Line<T>, writes: seq<seq<T>>, ms: seq<T>)
    ensures PutAll(v, l, writes + [ms]) == Put(v, PutAll(v, l, writes), ms)
  {
    assert (writes + [ms])[..|writes|] == writes;
  }

  function Items<T(==)>(mem: Memory<T>, ms: seq<T>): (r: seq<Item>)
    ensures |r| == |ms|
  {
    seq(|ms|, i requires 0 <= i < |ms| => Content(At(mem, ms[i])))
  }

  lemma ItemsConcat<T>(mem: Memory<T>, a: seq<T>, b: seq<T>)
    ensures Items(mem, a + b) == Items(mem, a) + Items(mem, b)
  {
  }

  /** The encrypted frames of the given items, in one chain. */
  function Frames(v: Env, chain: Block, items: seq<Item>): seq<Block> {
    SendAll(v.cipher, v.key, chain, v.adler, items)
  }

  lemma FramesCons(v: Env, chain: Block, i: Item, items: seq<Item>)
    ensures var e := Ciphertext(v, chain, i);
            Frames(v, chain, [i] + items) == e + Frames(v, Chain(chain, e), items)
  {
    assert ([i] + items)[1..] == items;
  }

  lemma {:induction false} FramesConcat(v: Env, chain: Block, a: seq<Item>, b: seq<Item>)
    ensures var fa := Frames(v, chain, a);
            Frames(v, chain, a + b) == fa + Frames(v, Chain(chain, fa), b)
    decreases |a|
  {
    if a == [] {
      assert a + b == b;
      var fb := Frames(v, chain, b);
      assert [] + fb == fb;
    } else {
      var e := Ciphertext(v, chain, a[0]);
      assert (a + b)[1..] == a[1..] + b;
      FramesConcat(v, Chain(chain, e), a[1..], b);
      var fa := Frames(v, Chain(chain, e), a[1..]);
      ChainConcat(chain, e, fa);
      Append(e, fa, Frames(v, Chain(chain, e + fa), b));
    }
  }

  // ---------------------------------------------------------------- different objects

  lemma {:induction false} CreateOthers<T>(v: Env, mem: Memory<T>, chain: Block, ms: seq<T>, x: T)
    requires x !in ms
    ensures At(CreateAll(v, mem, chain, ms).0, x) == At(mem, x)
    decreases |ms|
  {
    if ms == [] {
    } else {
      var s := At(mem, ms[0]);
      CreateOthers(v, mem[ms[0] := Encrypted(v, chain, s)], Chain(chain, Ciphertext(v, chain, Content(s))), ms[1..], x);
    }
  }

  lemma ItemsElsewhere<T>(mem: Memory<T>, mem': Memory<T>, ms: seq<T>)
    requires forall i :: 0 <= i < |ms| ==> At(mem', ms[i]) == At(mem, ms[i])
    ensures Items(mem', ms) == Items(mem, ms)
  {
  }

  /** The first object's buffer stays as it was encrypted. */
  lemma FirstKept<T>(v: Env, mem: Memory<T>, chain: Block, ms: seq<T>, s: Slot, e: seq<Block>, mem1: Memory<T>)
    requires ms != [] && Distinct(ms) && s == At(mem, ms[0]) && e == Ciphertext(v, chain, Content(s))
    requires mem1 == mem[ms[0] := Encrypted(v, chain, s)]
    ensures Distinct(ms[1..]) && Items(mem1, ms[1..]) == Items(mem, ms[1..])
    ensures Range(At(CreateAll(v, mem1, Chain(chain, e), ms[1..]).0, ms[0])) == e
  {
    assert ms[0] !in ms[1..];
    ItemsElsewhere(mem, mem1, ms[1..]);
    CreateOthers(v, mem1, Chain(chain, e), ms[1..], ms[0]);
    RangeEncrypted(v, chain, s);
  }

  lemma ItemsCons<T>(mem: Memory<T>, ms: seq<T>)
    requires ms != []
    ensures Items(mem, ms) == [Content(At(mem, ms[0]))] + Items(mem, ms[1..])
  {
  }

  /** A write of different objects sends the frames of what they hold. */
  lemma {:induction false} DistinctWrite<T>(v: Env, mem: Memory<T>, chain: Block, ms: seq<T>)
    requires Distinct(ms)
    ensures var (mem', chain') := CreateAll(v, mem, chain, ms);
            var out := Frames(v, chain, Items(mem, ms));
            Gather(mem', ms) == out && chain' == Chain(chain, out)
    decreases |ms|
  {
    if ms == [] {
    } else {
      var s := At(mem, ms[0]);
      var e := Ciphertext(v, chain, Content(s));
      var mem1, items := mem[ms[0] := Encrypted(v, chain, s)], Items(mem, ms[1..]);
      FirstKept(v, mem, chain, ms, s, e, mem1);
      DistinctWrite(v, mem1, Chain(chain, e), ms[1..]);
      ItemsCons(mem, ms);
      FramesCons(v, chain, Content(s), items);
      ChainConcat(chain, e, Frames(v, Chain(chain, e), items));
    }
  }

  /** What the buffers hold when their frames are made. */
  function Framed<T(==)>(v: Env, l: Line<T>, writes: seq<seq<T>>): seq<Item>
    decreases |writes|
  {
    if writes == [] then [] else
      var n := |writes| - 1;
      Framed(v, l, writes[..n]) + Items(PutAll(v, l, writes[..n]).memory, writes[n])
  }

  ghost predicate EachDistinct<T>(writes: seq<seq<T>>) { forall i :: 0 <= i < |writes| ==> Distinct(writes[i]) }

  /** As long as no write refers to an object twice, one chain of frames is sent, of what the buffers hold then. */
  lemma {:induction false} SentAsFramed<T>(v: Env, l: Line<T>, writes: seq<seq<T>>)
    requires EachDistinct(writes)
    ensures var l', out := PutAll(v, l, writes), Frames(v, l.chain, Framed(v, l, writes));
            l'.wire == l.wire + out && l'.chain == Chain(l.chain, out)
    decreases |writes|
  {
    if writes == [] {
      assert l.wire + [] == l.wire;
    } else {
      var n := |writes| - 1;
      SentAsFramed(v, l, writes[..n]);
      var l1 := PutAll(v, l, writes[..n]);
      var out, items := Frames(v, l.chain, Framed(v, l, writes[..n])), Items(l1.memory, writes[n]);
      DistinctWrite(v, l1.memory, l1.chain, writes[n]);
      FramesConcat(v, l.chain, Framed(v, l, writes[..n]), items);
      var more := Frames(v, l1.chain, items);
      ChainConcat(l.chain, out, more);
      Append(l.wire, out, more);
    }
  }

  lemma {:induction false} WritesOthers<T>(v: Env, l: Line<T>, writes: seq<seq<T>>, x: T)
    requires x !in Flatten(writes)
    ensures At(PutAll(v, l, writes).memory, x) == At(l.memory, x)
    decreases |writes|
  {
    if writes == [] {
    } else {
      var n := |writes| - 1;
      FlattenLast(writes);
      WritesOthers(v, l, writes[..n], x);
      var l1 := PutAll(v, l, writes[..n]);
      CreateOthers(v, l1.memory, l1.chain, writes[n], x);
    }
  }

  lemma FlattenLast<T>(writes: seq<seq<T>>)
    requires writes != []
    ensures Flatten(writes) == Flatten(writes[..|writes| - 1]) + writes[|writes| - 1]
  {
    var n := |writes| - 1;
    assert writes == writes[..n] + [writes[n]];
    FlattenSnoc(writes[..n], writes[n]);
  }

  lemma DistinctParts<T>(a: seq<T>, b: seq<T>)
    ensures Distinct(a + b) ==> Distinct(a) && Distinct(b) && forall i :: 0 <= i < |b| ==> b[i] !in a
  {
    if Distinct(a + b) {
      forall i, j | 0 <= i < j < |a| ensures a[i] != a[j] {
        assert (a + b)[i] != (a + b)[j];
      }
      forall i, j | 0 <= i < j < |b| ensures b[i] != b[j] {
        assert (a + b)[|a| + i] != (a + b)[|a| + j];
      }
      forall i | 0 <= i < |b| ensures b[i] !in a {
        forall j | 0 <= j < |a| ensures a[j] != b[i] {
          assert (a + b)[j] != (a + b)[|a| + i];
        }
      }
    }
  }

  lemma {:induction false} PartsDistinct<T>(writes: seq<seq<T>>)
    requires Distinct(Flatten(writes))
    ensures EachDistinct(writes)
    decreases |writes|
  {
    if writes == [] {
    } else {
      var n := |writes| - 1;
      FlattenLast(writes);
      DistinctParts(Flatten(writes[..n]), writes[n]);
      PartsDistinct(writes[..n]);
      forall i | 0 <= i < n ensures Distinct(writes[i]) {
        assert writes[i] == writes[..n][i];
      }
    }
  }

  /** If no object is written twice, every frame is made from what its object held at first. */
  lemma {:induction false} FramedAtFirst<T>(v: Env, l: Line<T>, writes: seq<seq<T>>)
    requires Distinct(Flatten(writes))
    ensures Framed(v, l, writes) == Items(l.memory, Flatten(writes))
    decreases |writes|
  {
    if writes == [] {
    } else {
      var before, ms := writes[..|writes| - 1], writes[|writes| - 1];
      FlattenLast(writes);
      DistinctParts(Flatten(before), ms);
      FramedAtFirst(v, l, before);
      LastUntouched(v, l, before, ms);
      ItemsConcat(l.memory, Flatten(before), ms);
    }
  }

  lemma LastUntouched<T>(v: Env, l: Line<T>, before: seq<seq<T>>, ms: seq<T>)
    requires forall i :: 0 <= i < |ms| ==> ms[i] !in Flatten(before)
    ensures Items(PutAll(v, l, before).memory, ms) == Items(l.memory, ms)
  {
    var mem' := PutAll(v, l, before).memory;
    forall i | 0 <= i < |ms| ensures At(mem', ms[i]) == At(l.memory, ms[i]) {
      WritesOthers(v, l, before, ms[i]);
    }
    ItemsElsewhere(l.memory, mem', ms);
  }

  /** What is on the wire is the one chain of the frames of what the written objects held at first. */
  ghost predicate Right<T>(v: Env, l: Line<T>, writes: seq<seq<T>>) {
    PutAll(v, l, writes).wire == l.wire + Frames(v, l.chain, Items(l.memory, Flatten(writes)))
  }

  lemma DistinctRight<T>(v: Env, l: Line<T>, writes: seq<seq<T>>)
    requires Distinct(Flatten(writes))
    ensures Right(v, l, writes)
  {
    PartsDistinct(writes);
    FramedAtFirst(v, l, writes);
    SentAsFramed(v, l, writes);
  }
}
