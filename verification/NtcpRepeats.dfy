/**
 A message object written twice: its second frame is made from the ciphertext
 of the first, and within one write both frames are the last one.  So the wire
 is right for every cipher and content exactly if no object is written twice.
 */
module NtcpRepeats {
  import opened Bytes
  import opened Cbc
  import opened Ntcp
  import opened NtcpBuffers

  // ---------------------------------------------------------------- lengths do not change

  ghost predicate SameLengths<T>(mem: Memory<T>, mem': Memory<T>, ms: seq<T>) {
    forall i :: 0 <= i < |ms| ==> At(mem', ms[i]).len == At(mem, ms[i]).len
  }

  lemma {:induction false} CreateLength<T>(v: Env, mem: Memory<T>, chain: Block, ms: seq<T>, x: T)
    ensures At(CreateAll(v, mem, chain, ms).0, x).len == At(mem, x).len
    decreases |ms|
  {
    if ms == [] {
    } else {
      var s := At(mem, ms[0]);
      CreateLength(v, mem[ms[0] := Encrypted(v, chain, s)], Chain(chain, Ciphertext(v, chain, Content(s))), ms[1..], x);
    }
  }

  lemma {:induction false} WritesLength<T>(v: Env, l: Line<T>, writes: seq<seq<T>>, x: T)
    ensures At(PutAll(v, l, writes).memory, x).len == At(l.memory, x).len
    decreases |writes|
  {
    if writes == [] {
    } else {
      var n := |writes| - 1;
      var l1 := PutAll(v, l, writes[..n]);
      WritesLength(v, l, writes[..n], x);
      CreateLength(v, l1.memory, l1.chain, writes[n], x);
    }
  }

  lemma RangeLength(s: Slot)
    ensures |Range(s)| == FrameLength(s.len) / 16
  {
  }

  lemma {:induction false} GatherLength<T>(v: Env, chain: Block, mem: Memory<T>, mem': Memory<T>, ms: seq<T>)
    requires SameLengths(mem, mem', ms)
    ensures |Gather(mem', ms)| == |Frames(v, chain, Items(mem, ms))|
    decreases |ms|
  {
    if ms == [] {
    } else {
      var s := At(mem, ms[0]);
      var e := Ciphertext(v, chain, Content(s));
      GatherLength(v, Chain(chain, e), mem, mem', ms[1..]);
      ItemsCons(mem, ms);
      FramesCons(v, chain, Content(s), Items(mem, ms[1..]));
      CiphertextLength(v, chain, s);
      RangeLength(At(mem', ms[0]));
    }
  }

  /** What one write sends is as long as the frames of what its objects held at first. */
  lemma WriteLength<T>(v: Env, l: Line<T>, before: seq<seq<T>>, ms: seq<T>, chain: Block)
    ensures var l1 := PutAll(v, l, before);
            |Gather(CreateAll(v, l1.memory, l1.chain, ms).0, ms)| == |Frames(v, chain, Items(l.memory, ms))|
  {
    var l1 := PutAll(v, l, before);
    var mem' := CreateAll(v, l1.memory, l1.chain, ms).0;
    forall i | 0 <= i < |ms| ensures At(mem', ms[i]).len == At(l.memory, ms[i]).len {
      WritesLength(v, l, before, ms[i]);
      CreateLength(v, l1.memory, l1.chain, ms, ms[i]);
    }
    GatherLength(v, chain, l.memory, mem', ms);
  }

  lemma {:induction false} WireLength<T>(v: Env, l: Line<T>, writes: seq<seq<T>>)
    ensures |PutAll(v, l, writes).wire| == |l.wire| + |Frames(v, l.chain, Items(l.memory, Flatten(writes)))|
    decreases |writes|
  {
    if writes == [] {
    } else {
      var before, ms := writes[..|writes| - 1], writes[|writes| - 1];
      WireLength(v, l, before);
      FlattenLast(writes);
      ItemsConcat(l.memory, Flatten(before), ms);
      FramesConcat(v, l.chain, Items(l.memory, Flatten(before)), Items(l.memory, ms));
      WriteLength(v, l, before, ms, Chain(l.chain, Frames(v, l.chain, Items(l.memory, Flatten(before)))));
    }
  }

  lemma SamePrefix<T>(a: seq<T>, x: seq<T>, b: seq<T>, y: seq<T>)
    requires |a| == |b| && a + x == b + y
    ensures a == b && x == y
  {
    assert a == (a + x)[..|a|] && b == (b + y)[..|b|];
    assert x == (a + x)[|a|..] && y == (b + y)[|b|..];
  }

  /** If the wire is right, it was before the last write, and the last write sent the frames of the messages. */
  lemma RightParts<T>(v: Env, l: Line<T>, before: seq<seq<T>>, ms: seq<T>)
    requires Right(v, l, before + [ms])
    ensures Right(v, l, before)
    ensures var l1, fs := PutAll(v, l, before), Frames(v, l.chain, Items(l.memory, Flatten(before)));
            Gather(CreateAll(v, l1.memory, l1.chain, ms).0, ms) == Frames(v, Chain(l.chain, fs), Items(l.memory, ms))
  {
    var l1, items := PutAll(v, l, before), Items(l.memory, Flatten(before));
    var fs := Frames(v, l.chain, items);
    var more := Frames(v, Chain(l.chain, fs), Items(l.memory, ms));
    var sent := Gather(CreateAll(v, l1.memory, l1.chain, ms).0, ms);
    PutAllSnoc(v, l, before, ms);
    FlattenSnoc(before, ms);
    ItemsConcat(l.memory, Flatten(before), ms);
    FramesConcat(v, l.chain, items, Items(l.memory, ms));
    Append(l.wire, fs, more);
    WireLength(v, l, before);
    SamePrefix(l1.wire, sent, l.wire + fs, more);
  }

  // ---------------------------------------------------------------- a cipher that shows it

  /** No encryption at all, and no checksum: chaining alone is enough for the difference to show. */
  function PlainCipher(): BlockCipher { CipherPair((k, b) => b, (k, b) => b) }

  function Plain(): Env { Env(PlainCipher(), [], _ => [0, 0, 0, 0]) }

  lemma {:induction false} XorBitsZero(a: nat, n: nat)
    requires a < Pow2(n)
    ensures XorBits(a, 0, n) == a
  {
    if n == 0 {
    } else {
      XorBitsZero(a / 2, n - 1);
    }
  }

  lemma XorZero(a: byte)
    ensures XorByte(a, 0) == a == XorByte(0, a)
  {
    assert Pow2(8) == 256;
    XorBitsZero(a, 8);
    XorByteInvolutive(a, 0);
  }

  lemma XorOneDiffers(a: byte)
    ensures XorByte(a, 1) != a
  {
    if XorByte(a, 1) == a {
      XorZero(a);
      XorByteInvolutive(0, a);
      XorByteInvolutive(1, a);
    }
  }

  /** Buffers full of zeros, but for the first byte of one message. */
  function MarkedSlot(len: nat, mark: byte): (s: Slot)
    ensures s.len == len
  {
    Buffer(len, seq(FrameLength(len), i => if i == 2 then mark else 0))
  }

  /** The third byte of every block: the mark in the first block of a marked message, and zero otherwise. */
  lemma MarkedColumn(len: nat, mark: byte)
    requires len > 0
    ensures var bs := Blocks(Frame(Plain().adler, Content(MarkedSlot(len, mark))));
            && |bs| > 0 && bs[0][2] == mark
            && forall j :: 0 < j < |bs| ==> bs[j][2] == 0
  {
    var s := MarkedSlot(len, mark);
    var i := Content(s);
    var f := Frame(Plain().adler, i);
    var bs := Blocks(f);
    CiphertextLength(Plain(), ZERO_BLOCK, s);
    forall j | 0 <= j < |bs| ensures bs[j][2] == if j == 0 then mark else 0 {
      assert bs[j][2] == f[j * 16 + 2];
      assert f[j * 16 + 2] == (i.msg + i.padding)[j * 16];
      assert (i.msg + i.padding)[j * 16] == s.bytes[j * 16 + 2];
    }
  }

  lemma {:induction false} ColumnStays(chain: Block, bs: seq<Block>)
    requires forall j :: 0 <= j < |bs| ==> bs[j][2] == 0
    ensures var e := CbcEncrypt(PlainCipher(), [], chain, bs);
            && (forall j :: 0 <= j < |e| ==> e[j][2] == chain[2])
            && Chain(chain, e)[2] == chain[2]
    decreases |bs|
  {
    if bs == [] {
    } else {
      XorZero(chain[2]);
      var e := XorBlock(chain, bs[0]);
      ColumnStays(e, bs[1..]);
    }
  }

  /** Encrypting a marked message changes the column by its mark, for good. */
  lemma MarkedCiphertext(chain: Block, len: nat, mark: byte)
    requires len > 0
    ensures var e := Ciphertext(Plain(), chain, Content(MarkedSlot(len, mark)));
            && |e| > 0 && e[0][2] == XorByte(chain[2], mark) == Chain(chain, e)[2]
  {
    MarkedColumn(len, mark);
    var bs := Blocks(Frame(Plain().adler, Content(MarkedSlot(len, mark))));
    ColumnStays(XorBlock(chain, bs[0]), bs[1..]);
  }

  // ---------------------------------------------------------------- twice in different writes

  /** All buffers hold messages of zeros, of the given lengths. */
  ghost predicate Marked<T>(mem: Memory<T>, lens: T -> nat, mark: T -> byte, ms: seq<T>) {
    forall i :: 0 <= i < |ms| ==> At(mem, ms[i]) == MarkedSlot(lens(ms[i]), mark(ms[i])) && lens(ms[i]) > 0
  }

  lemma EncryptedColumn(chain: Block, len: nat)
    requires len > 0 && chain[2] == 1
    ensures Encrypted(Plain(), chain, MarkedSlot(len, 0)).bytes[2] == 1
    ensures Chain(chain, Ciphertext(Plain(), chain, Content(MarkedSlot(len, 0))))[2] == 1
  {
    var e := Ciphertext(Plain(), chain, Content(MarkedSlot(len, 0)));
    MarkedCiphertext(chain, len, 0);
    XorZero(1);
    BlocksOfUnblock(e);
    assert Unblock(e)[0..16] == Blocks(Unblock(e))[0] == e[0];
    assert Unblock(e)[2] == Unblock(e)[0..16][2];
  }

  /** After a write of new objects, with the column at one, their buffers have a one where the messages had a zero. */
  lemma {:induction false} CreateOnes<T>(mem: Memory<T>, chain: Block, ms: seq<T>, lens: T -> nat)
    requires Distinct(ms) && Marked(mem, lens, _ => 0, ms) && chain[2] == 1
    ensures var (mem', chain') := CreateAll(Plain(), mem, chain, ms);
            chain'[2] == 1 && forall i :: 0 <= i < |ms| ==> At(mem', ms[i]).bytes[2] == 1
    decreases |ms|
  {
    if ms == [] {
    } else {
      var s := At(mem, ms[0]);
      var e := Ciphertext(Plain(), chain, Content(s));
      var mem1 := mem[ms[0] := Encrypted(Plain(), chain, s)];
      assert s == MarkedSlot(lens(ms[0]), 0);
      EncryptedColumn(chain, lens(ms[0]));
      assert Marked(mem1, lens, _ => 0, ms[1..]) by {
        forall i | 0 <= i < |ms[1..]|
          ensures At(mem1, ms[1..][i]) == MarkedSlot(lens(ms[1..][i]), 0) && lens(ms[1..][i]) > 0
        {
          assert ms[1..][i] == ms[i + 1];
        }
      }
      CreateOnes(mem1, Chain(chain, e), ms[1..], lens);
      CreateOthers(Plain(), mem1, Chain(chain, e), ms[1..], ms[0]);
    }
  }

  lemma {:induction false} WritesOnes<T>(l: Line<T>, writes: seq<seq<T>>, lens: T -> nat)
    requires Distinct(Flatten(writes)) && Marked(l.memory, lens, _ => 0, Flatten(writes)) && l.chain[2] == 1
    ensures var l' := PutAll(Plain(), l, writes);
            l'.chain[2] == 1 && forall x :: x in Flatten(writes) ==> At(l'.memory, x).bytes[2] == 1
    decreases |writes|
  {
    if writes == [] {
    } else {
      var before, ms := writes[..|writes| - 1], writes[|writes| - 1];
      var all := Flatten(before);
      FlattenLast(writes);
      DistinctParts(all, ms);
      MarkedParts(l.memory, lens, _ => 0, all, ms);
      WritesOnes(l, before, lens);
      var l1 := PutAll(Plain(), l, before);
      forall i | 0 <= i < |ms| ensures At(l1.memory, ms[i]) == At(l.memory, ms[i]) {
        WritesOthers(Plain(), l, before, ms[i]);
      }
      CreateOnes(l1.memory, l1.chain, ms, lens);
      forall x | x in Flatten(writes) ensures At(PutAll(Plain(), l, writes).memory, x).bytes[2] == 1 {
        if x !in ms {
          CreateOthers(Plain(), l1.memory, l1.chain, ms, x);
        }
      }
    }
  }

  lemma MarkedParts<T>(mem: Memory<T>, lens: T -> nat, mark: T -> byte, a: seq<T>, b: seq<T>)
    requires Marked(mem, lens, mark, a + b)
    ensures Marked(mem, lens, mark, a) && Marked(mem, lens, mark, b)
  {
    forall i | 0 <= i < |a| ensures At(mem, a[i]) == MarkedSlot(lens(a[i]), mark(a[i])) && lens(a[i]) > 0 {
      assert (a + b)[i] == a[i];
    }
    forall i | 0 <= i < |b| ensures At(mem, b[i]) == MarkedSlot(lens(b[i]), mark(b[i])) && lens(b[i]) > 0 {
      assert (a + b)[|a| + i] == b[i];
    }
  }

  /** The encrypted frames determine the frames. */
  lemma {:induction false} FramesInjective(v: Env, chain: Block, a: seq<Item>, b: seq<Item>, k: nat)
    requires |a| == |b| && k < |a| && Frames(v, chain, a) == Frames(v, chain, b)
    requires forall i :: 0 <= i < |a| ==>
               |Frame(v.adler, a[i])| == |Frame(v.adler, b[i])| && |Frame(v.adler, a[i])| % 16 == 0
    ensures Frame(v.adler, a[k]) == Frame(v.adler, b[k])
    decreases |a|
  {
    var ea, eb := Ciphertext(v, chain, a[0]), Ciphertext(v, chain, b[0]);
    SamePrefix(ea, Frames(v, Chain(chain, ea), a[1..]), eb, Frames(v, Chain(chain, eb), b[1..]));
    if k == 0 {
      CiphertextInjective(v, chain, a[0], b[0]);
    } else {
      FramesInjective(v, Chain(chain, ea), a[1..], b[1..], k - 1);
    }
  }

  lemma CiphertextInjective(v: Env, chain: Block, a: Item, b: Item)
    requires Ciphertext(v, chain, a) == Ciphertext(v, chain, b)
    requires |Frame(v.adler, a)| == |Frame(v.adler, b)| && |Frame(v.adler, a)| % 16 == 0
    ensures Frame(v.adler, a) == Frame(v.adler, b)
  {
    var fa, fb := Frame(v.adler, a), Frame(v.adler, b);
    DecryptEncrypt(v.cipher, v.key, chain, Blocks(fa));
    DecryptEncrypt(v.cipher, v.key, chain, Blocks(fb));
    WholeBlocks(fa);
    WholeBlocks(fb);
  }

  lemma WholeBlocks(f: seq<byte>)
    requires |f| % 16 == 0
    ensures Unblock(Blocks(f)) == f
  {
    UnblockPrefix(f, |f| / 16);
    assert Blocks(f)[..|f| / 16] == Blocks(f) && f[..|f| / 16 * 16] == f;
  }

  /** What a write of different objects sends determines the bytes its buffers held. */
  lemma WriteDetermines<T>(v: Env, chain: Block, mem: Memory<T>, mem': Memory<T>, ms: seq<T>, k: nat)
    requires SameLengths(mem, mem', ms) && k < |ms| && At(mem, ms[k]).len > 0
    requires Frames(v, chain, Items(mem, ms)) == Frames(v, chain, Items(mem', ms))
    ensures At(mem, ms[k]).bytes[2] == At(mem', ms[k]).bytes[2]
  {
    forall i | 0 <= i < |ms|
      ensures |Frame(v.adler, Items(mem, ms)[i])| == |Frame(v.adler, Items(mem', ms)[i])|
           == FrameLength(At(mem, ms[i]).len)
    {
      CiphertextLength(v, chain, At(mem, ms[i]));
      CiphertextLength(v, chain, At(mem', ms[i]));
    }
    FramesInjective(v, chain, Items(mem, ms), Items(mem', ms), k);
    FrameByte(v, At(mem, ms[k]));
    FrameByte(v, At(mem', ms[k]));
  }

  lemma FrameByte(v: Env, s: Slot)
    requires s.len > 0
    ensures |Frame(v.adler, Content(s))| > 2 && Frame(v.adler, Content(s))[2] == s.bytes[2]
  {
  }

  lemma WrongAcross<T>(l: Line<T>, before: seq<seq<T>>, ms: seq<T>, lens: T -> nat, k: nat)
    requires Distinct(Flatten(before)) && Distinct(ms) && k < |ms| && ms[k] in Flatten(before)
    requires Marked(l.memory, lens, _ => 0, Flatten(before + [ms])) && l.chain[2] == 1
    ensures !Right(Plain(), l, before + [ms])
  {
    if Right(Plain(), l, before + [ms]) {
      FlattenSnoc(before, ms);
      MarkedParts(l.memory, lens, _ => 0, Flatten(before), ms);
      RightParts(Plain(), l, before, ms);
      WritesOnes(l, before, lens);
      var l1 := PutAll(Plain(), l, before);
      PartsDistinct(before);
      FramedAtFirst(Plain(), l, before);
      SentAsFramed(Plain(), l, before);
      DistinctWrite(Plain(), l1.memory, l1.chain, ms);
      forall i | 0 <= i < |ms| ensures At(l1.memory, ms[i]).len == At(l.memory, ms[i]).len {
        WritesLength(Plain(), l, before, ms[i]);
      }
      WriteDetermines(Plain(), l1.chain, l.memory, l1.memory, ms, k);
    }
  }

  // ---------------------------------------------------------------- twice in one write

  /** The column after the frames of different messages, of which only x is marked. */
  lemma {:induction false} ColumnAfter<T>(mem: Memory<T>, chain: Block, ms: seq<T>, lens: T -> nat, x: T)
    requires Distinct(ms) && Marked(mem, lens, y => if y == x then 1 else 0, ms)
    ensures Chain(chain, Frames(Plain(), chain, Items(mem, ms)))[2]
         == if x in ms then XorByte(chain[2], 1) else chain[2]
    decreases |ms|
  {
    if ms == [] {
    } else {
      var s := At(mem, ms[0]);
      var e := Ciphertext(Plain(), chain, Content(s));
      var mark := y => if y == x then 1 else 0;
      assert s == MarkedSlot(lens(ms[0]), mark(ms[0]));
      MarkedCiphertext(chain, lens(ms[0]), mark(ms[0]));
      XorZero(chain[2]);
      assert ms == [ms[0]] + ms[1..];
      MarkedParts(mem, lens, mark, [ms[0]], ms[1..]);
      ColumnAfter(mem, Chain(chain, e), ms[1..], lens, x);
      ItemsCons(mem, ms);
      FramesCons(Plain(), chain, Content(s), Items(mem, ms[1..]));
      ChainConcat(chain, e, Frames(Plain(), Chain(chain, e), Items(mem, ms[1..])));
    }
  }

  lemma {:induction false} GatherConcat<T>(mem: Memory<T>, a: seq<T>, b: seq<T>)
    ensures Gather(mem, a + b) == Gather(mem, a) + Gather(mem, b)
    decreases |a|
  {
    if a == [] {
      assert a + b == b;
    } else {
      assert (a + b)[1..] == a[1..] + b;
      GatherConcat(mem, a[1..], b);
      Append(Range(At(mem, a[0])), Gather(mem, a[1..]), Gather(mem, b));
    }
  }

  lemma SplitAt<T>(ms: seq<T>, k: nat)
    requires k < |ms|
    ensures ms == ms[..k] + ([ms[k]] + ms[k + 1..])
  {
  }

  lemma GatherCons<T>(mem: Memory<T>, x: T, ms: seq<T>)
    ensures Gather(mem, [x] + ms) == Range(At(mem, x)) + Gather(mem, ms)
  {
    assert ([x] + ms)[1..] == ms;
  }

  /** The k-th buffer's part of a write. */
  lemma GatherAt<T>(mem: Memory<T>, ms: seq<T>, k: nat)
    requires k < |ms|
    ensures Gather(mem, ms) == Gather(mem, ms[..k]) + (Range(At(mem, ms[k])) + Gather(mem, ms[k + 1..]))
  {
    SplitAt(ms, k);
    GatherConcat(mem, ms[..k], [ms[k]] + ms[k + 1..]);
    GatherCons(mem, ms[k], ms[k + 1..]);
  }

  /** And the k-th frame's part in the frames of the messages. */
  lemma FramesAt<T>(v: Env, chain: Block, mem: Memory<T>, ms: seq<T>, k: nat, fs: seq<Block>, e: seq<Block>)
    requires k < |ms| && fs == Frames(v, chain, Items(mem, ms[..k]))
    requires e == Ciphertext(v, Chain(chain, fs), Content(At(mem, ms[k])))
    ensures Frames(v, chain, Items(mem, ms))
         == fs + (e + Frames(v, Chain(Chain(chain, fs), e), Items(mem, ms[k + 1..])))
  {
    var a, b := ms[..k], [ms[k]] + ms[k + 1..];
    SplitAt(ms, k);
    ItemsConcat(mem, a, b);
    FramesConcat(v, chain, Items(mem, a), Items(mem, b));
    assert Items(mem, b) == [Content(At(mem, ms[k]))] + Items(mem, ms[k + 1..]);
    FramesCons(v, Chain(chain, fs), Content(At(mem, ms[k])), Items(mem, ms[k + 1..]));
  }

  /** A right write sends, for its k-th buffer, the k-th frame. */
  lemma FrameSent<T>(v: Env, chain: Block, mem: Memory<T>, mem': Memory<T>, ms: seq<T>, k: nat)
    requires SameLengths(mem, mem', ms) && k < |ms| && Gather(mem', ms) == Frames(v, chain, Items(mem, ms))
    ensures Range(At(mem', ms[k]))
         == Ciphertext(v, Chain(chain, Frames(v, chain, Items(mem, ms[..k]))), Content(At(mem, ms[k])))
  {
    var fs := Frames(v, chain, Items(mem, ms[..k]));
    var e, r := Ciphertext(v, Chain(chain, fs), Content(At(mem, ms[k]))), Range(At(mem', ms[k]));
    var g, g' := Gather(mem', ms[..k]), Gather(mem', ms[k + 1..]);
    var f' := Frames(v, Chain(Chain(chain, fs), e), Items(mem, ms[k + 1..]));
    GatherAt(mem', ms, k);
    FramesAt(v, chain, mem, ms, k, fs, e);
    GatherLength(v, chain, mem, mem', ms[..k]);
    SamePrefix(g, r + g', fs, e + f');
    RangeLength(At(mem', ms[k]));
    CiphertextLength(v, Chain(chain, fs), At(mem, ms[k]));
    SamePrefix(r, g', e, f');
  }

  lemma WrongWithin<T>(l: Line<T>, before: seq<seq<T>>, ms: seq<T>, lens: T -> nat, i: nat, j: nat)
    requires i < j < |ms| && ms[i] == ms[j] && Distinct(ms[..j])
    requires Marked(l.memory, lens, y => if y == ms[j] then 1 else 0, Flatten(before + [ms]))
    ensures !Right(Plain(), l, before + [ms])
  {
    if Right(Plain(), l, before + [ms]) {
      var x, v := ms[j], Plain();
      var mark := y => if y == x then 1 else 0;
      FlattenSnoc(before, ms);
      MarkedParts(l.memory, lens, mark, Flatten(before), ms);
      RightParts(v, l, before, ms);
      var l1 := PutAll(v, l, before);
      var chain := Chain(l.chain, Frames(v, l.chain, Items(l.memory, Flatten(before))));
      var mem' := CreateAll(v, l1.memory, l1.chain, ms).0;
      forall k | 0 <= k < |ms| ensures At(mem', ms[k]).len == At(l.memory, ms[k]).len {
        WritesLength(v, l, before, ms[k]);
        CreateLength(v, l1.memory, l1.chain, ms, ms[k]);
      }
      FrameSent(v, chain, l.memory, mem', ms, i);
      FrameSent(v, chain, l.memory, mem', ms, j);
      TwoFramesDiffer(l.memory, chain, ms, lens, i, j);
    }
  }

  /** The two frames of x differ, since the first one changes the chain. */
  lemma TwoFramesDiffer<T>(mem: Memory<T>, chain: Block, ms: seq<T>, lens: T -> nat, i: nat, j: nat)
    requires i < j < |ms| && ms[i] == ms[j] && Distinct(ms[..j])
    requires Marked(mem, lens, y => if y == ms[j] then 1 else 0, ms)
    ensures Ciphertext(Plain(), Chain(chain, Frames(Plain(), chain, Items(mem, ms[..i]))), Content(At(mem, ms[j])))
         != Ciphertext(Plain(), Chain(chain, Frames(Plain(), chain, Items(mem, ms[..j]))), Content(At(mem, ms[j])))
  {
    var x := ms[j];
    var mark := y => if y == x then 1 else 0;
    var ci := Chain(chain, Frames(Plain(), chain, Items(mem, ms[..i])));
    var cj := Chain(chain, Frames(Plain(), chain, Items(mem, ms[..j])));
    assert ms == ms[..i] + ms[i..] && ms == ms[..j] + ms[j..];
    MarkedParts(mem, lens, mark, ms[..i], ms[i..]);
    MarkedParts(mem, lens, mark, ms[..j], ms[j..]);
    assert x !in ms[..i] by {
      forall k | 0 <= k < i ensures ms[k] != x {
        assert ms[..j][k] != ms[..j][i];
      }
    }
    assert Distinct(ms[..i]) by {
      forall a, b | 0 <= a < b < i ensures ms[..i][a] != ms[..i][b] {
        assert ms[..j][a] != ms[..j][b];
      }
    }
    assert ms[..j][i] == x;
    ColumnAfter(mem, chain, ms[..i], lens, x);
    ColumnAfter(mem, chain, ms[..j], lens, x);
    assert At(mem, ms[j]) == MarkedSlot(lens(x), mark(x));
    MarkedCiphertext(ci, lens(x), 1);
    MarkedCiphertext(cj, lens(x), 1);
    XorOneDiffers(cj[2]);
    assert cj[2] == XorByte(ci[2], 1);
  }

  // ---------------------------------------------------------------- exactly

  function MarkedMemory<T(==)>(lens: T -> nat, mark: T -> byte, ms: seq<T>): Memory<T> {
    map m | m in ms :: MarkedSlot(lens(m), mark(m))
  }

  /** The first element that repeats an earlier one. */
  lemma {:induction false} FirstRepeat<T>(ms: seq<T>) returns (i: nat, j: nat)
    requires !Distinct(ms)
    ensures i < j < |ms| && ms[i] == ms[j] && Distinct(ms[..j])
    decreases |ms|
  {
    var n := |ms| - 1;
    if Distinct(ms[..n]) {
      j := n;
      if ms[n] !in ms[..n] {
        forall a, b | 0 <= a < b < |ms| ensures ms[a] != ms[b] {
          assert b < n ==> ms[..n][a] != ms[..n][b];
          assert ms[..n][a] == ms[a];
        }
      }
      i :| 0 <= i < n && ms[..n][i] == ms[n];
    } else {
      i, j := FirstRepeat(ms[..n]);
      assert ms[..n][..j] == ms[..j];
    }
  }

  /** Any write of an object that has been written before goes wrong, for some content and chaining value. */
  lemma {:induction false} SomeWrong<T>(lens: T -> nat, all: seq<T>, writes: seq<seq<T>>) returns (l: Line<T>)
    requires !Distinct(Flatten(writes)) && forall x :: x in Flatten(writes) ==> x in all && lens(x) > 0
    ensures !Right(Plain(), l, writes)
    ensures forall x :: x in all ==> At(l.memory, x).len == lens(x)
    decreases |writes|
  {
    var before, ms := writes[..|writes| - 1], writes[|writes| - 1];
    assert writes == before + [ms];
    FlattenLast(writes);
    if !Distinct(Flatten(before)) {
      l := SomeWrong(lens, all, before);
      if Right(Plain(), l, writes) {
        RightParts(Plain(), l, before, ms);
      }
    } else if !Distinct(ms) {
      var i, j := FirstRepeat(ms);
      l := Line(MarkedMemory(lens, y => if y == ms[j] then 1 else 0, all), ZERO_BLOCK, []);
      WrongWithin(l, before, ms, lens, i, j);
    } else {
      var k := WrittenBefore(Flatten(before), ms);
      l := Line(MarkedMemory(lens, _ => 0, all), ZERO_BLOCK[2 := 1], []);
      WrongAcross(l, before, ms, lens, k);
    }
  }

  lemma WrittenBefore<T>(a: seq<T>, b: seq<T>) returns (k: nat)
    requires Distinct(a) && Distinct(b) && !Distinct(a + b)
    ensures k < |b| && b[k] in a
  {
    if forall i :: 0 <= i < |b| ==> b[i] !in a {
      forall i, j | 0 <= i < j < |a + b| ensures (a + b)[i] != (a + b)[j] {
        if i < |a| <= j {
          assert b[j - |a|] !in a;
        }
      }
    }
    k :| 0 <= k < |b| && b[k] in a;
  }

  /** All messages to be written have the given lengths. */
  ghost predicate Sized<T>(l: Line<T>, lens: T -> nat, ms: seq<T>) {
    forall i :: 0 <= i < |ms| ==> At(l.memory, ms[i]).len == lens(ms[i])
  }

  /**
   Whatever lengths the messages have, the wire carries their frames, in order and in one chain, for every cipher,
   checksum, chaining value and content if and only if no object is written twice.
   */
  lemma RightExactly<T(!new)>(lens: T -> nat, writes: seq<seq<T>>)
    requires forall x :: x in Flatten(writes) ==> lens(x) > 0
    ensures (forall v: Env, l: Line<T> | Sized(l, lens, Flatten(writes)) :: Right(v, l, writes))
        <==> Distinct(Flatten(writes))
  {
    if Distinct(Flatten(writes)) {
      forall v: Env, l: Line<T> | Sized(l, lens, Flatten(writes)) ensures Right(v, l, writes) {
        DistinctRight(v, l, writes);
      }
    } else {
      var l := SomeWrong(lens, Flatten(writes), writes);
      assert Sized(l, lens, Flatten(writes)) && !Right(Plain(), l, writes);
    }
  }
}
