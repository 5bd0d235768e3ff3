/**
 NTCP data transfer: length-prefixed, padded, checksummed frames in one running
 CBC stream, decoded 16 bytes at a time from whatever chunks TCP delivers.
 */
module Ntcp {
  import opened Bytes
  import opened Cbc

  const NTCP_MAX_MESSAGE_SIZE: nat := 16384
  const NTCP_BUFFER_SIZE: nat := 4160

  type Quad = q: seq<byte> | |q| == 4 witness [0, 0, 0, 0]

  /** Adler-32. */
  type Checksum = seq<byte> -> Quad

  /** What goes into a frame: an I2NP message, or the time; and the bytes that happen to be the padding. */
  datatype Item = Data(msg: seq<byte>, padding: seq<byte>) | TimeSync(time: Quad, padding: seq<byte>)

  function PaddingSize(len: nat): nat {
    var rem := (len + 6) % 16;
    if rem > 0 then 16 - rem else 0
  }

  predicate ItemOk(i: Item) {
    match i
    case Data(msg, padding) => 1 <= |msg| <= NTCP_MAX_MESSAGE_SIZE && |padding| == PaddingSize(|msg|)
    case TimeSync(time, padding) => |padding| == PaddingSize(4)
  }

  /** The frame without its checksum. */
  function Body(i: Item): seq<byte> {
    match i
    case Data(msg, padding) => ToBE(|msg|, 2) + msg + padding
    case TimeSync(time, padding) => ToBE(0, 2) + time + padding
  }

  function Frame(adler: Checksum, i: Item): seq<byte> { Body(i) + adler(Body(i)) }

  lemma FrameSize(adler: Checksum, i: Item)
    requires ItemOk(i)
    ensures |Frame(adler, i)| % 16 == 0
    ensures i.Data? ==> |i.msg| + 6 <= |Frame(adler, i)| < |i.msg| + 6 + 16
    ensures i.TimeSync? ==> |Frame(adler, i)| == 16
  {
  }

  // ---------------------------------------------------------------- receiving, on decrypted blocks

  /** The message being received so far, the messages passed on, and whether a bad size ended the session. */
  datatype Rx = Rx(next: seq<byte>, delivered: seq<seq<byte>>, failed: bool)

  /** A full I2NP buffer is passed on if its checksum is right, and forgotten in any case. */
  function Finish(adler: Checksum, rx: Rx, buf: seq<byte>): Rx
    requires |buf| >= 16
  {
    var size := FromBE(buf[..2]);
    if |buf| >= size + 2 + 4 then
      if adler(buf[..|buf| - 4]) == buf[|buf| - 4..]
      then Rx([], rx.delivered + [buf[2..size + 2]], false)
      else rx.(next := [])
    else rx.(next := buf)
  }

  /** DecryptNextBlock after decryption. */
  function TakeBlock(adler: Checksum, rx: Rx, b: Block): Rx {
    if rx.failed then rx
    else if rx.next == [] then
      var dataSize := FromBE(b[..2]);
      if dataSize == 0 then rx
      else if dataSize > NTCP_MAX_MESSAGE_SIZE then rx.(failed := true)
      else Finish(adler, rx, b)
    else Finish(adler, rx, rx.next + b)
  }

  function TakeBlocks(adler: Checksum, rx: Rx, bs: seq<Block>): Rx
    decreases |bs|
  {
    if bs == [] then rx else TakeBlocks(adler, TakeBlock(adler, rx, bs[0]), bs[1..])
  }

  lemma {:induction false} TakeBlocksConcat(adler: Checksum, rx: Rx, a: seq<Block>, b: seq<Block>)
    ensures TakeBlocks(adler, rx, a + b) == TakeBlocks(adler, TakeBlocks(adler, rx, a), b)
    decreases |a|
  {
    if a == [] {
      assert a + b == b;
    } else {
      assert (a + b)[1..] == a[1..] + b;
      TakeBlocksConcat(adler, TakeBlock(adler, rx, a[0]), a[1..], b);
    }
  }

  /**
   What one decrypted block does, whatever its bytes are.  A header of size 0 is skipped and one above the largest size
   ends the session.  Otherwise the block joins the message at hand; if that makes it complete, it is delivered if and only
   if its last four bytes are the checksum of all bytes before them, and in any case a header is expected next.
   */
  ghost predicate Taken(adler: Checksum, rx: Rx, b: Block, r: Rx) {
    var buf := rx.next + b;
    var size := FromBE(buf[..2]);
    if rx.next == [] && size == 0 then r == rx
    else if rx.next == [] && size > NTCP_MAX_MESSAGE_SIZE then r == rx.(failed := true)
    else if |buf| < 2 + size + 4 then r == rx.(next := buf)
    else
      && r.next == [] && !r.failed
      && (Intact(adler, buf) ==> r.delivered == rx.delivered + [buf[2..size + 2]])
      && (!Intact(adler, buf) ==> r.delivered == rx.delivered)
  }

  /** The last four bytes are the checksum of the others. */
  predicate Intact(adler: Checksum, f: seq<byte>) {
    |f| >= 4 && f[|f| - 4..] == adler(f[..|f| - 4])
  }

  lemma TakenExactly(adler: Checksum, rx: Rx, b: Block)
    requires !rx.failed
    ensures Taken(adler, rx, b, TakeBlock(adler, rx, b))
  {
    assert [] + b == b;
  }

  // ---------------------------------------------------------------- one frame

  /** As many blocks as the size in the first two bytes asks for. */
  predicate Shaped(f: seq<byte>) {
    |f| >= 16 &&
    var size := FromBE(f[..2]);
    1 <= size <= NTCP_MAX_MESSAGE_SIZE && |f| == size + 6 + PaddingSize(size)
  }

  lemma ShapedBlocks(f: seq<byte>, n: nat)
    requires Shaped(f) && n < |f| / 16
    ensures |f| % 16 == 0
    ensures f[..n * 16] + Blocks(f)[n] == f[..(n + 1) * 16]
    ensures FromBE(f[..(n + 1) * 16][..2]) == FromBE(f[..2])
    ensures n + 1 < |f| / 16 <==> (n + 1) * 16 < 2 + FromBE(f[..2]) + 4
  {
    assert f[..(n + 1) * 16][..2] == f[..2];
  }

  lemma TakeLast(adler: Checksum, rx: Rx, bs: seq<Block>, n: nat)
    requires n < |bs|
    ensures TakeBlocks(adler, rx, bs[..n + 1]) == TakeBlock(adler, TakeBlocks(adler, rx, bs[..n]), bs[n])
  {
    assert bs[..n + 1] == bs[..n] + [bs[n]];
    TakeBlocksConcat(adler, rx, bs[..n], [bs[n]]);
  }

  /** Within a frame nothing is delivered, and exactly its bytes so far are kept. */
  lemma {:induction false} InsideShaped(adler: Checksum, rx: Rx, f: seq<byte>, n: nat)
    requires Shaped(f) && rx.next == [] && !rx.failed && n < |f| / 16
    ensures TakeBlocks(adler, rx, Blocks(f)[..n]) == rx.(next := f[..n * 16])
  {
    if n == 0 {
      assert f[..0] == [];
    } else {
      InsideShaped(adler, rx, f, n - 1);
      ShapedBlocks(f, n - 1);
      TakeLast(adler, rx, Blocks(f), n - 1);
      TakenExactly(adler, rx.(next := f[..(n - 1) * 16]), Blocks(f)[n - 1]);
    }
  }

  /** A frame with any bytes delivers its message if its checksum is right and nothing if not; then comes a header. */
  lemma ShapedFrame(adler: Checksum, rx: Rx, f: seq<byte>)
    requires Shaped(f) && rx.next == [] && !rx.failed
    ensures TakeBlocks(adler, rx, Blocks(f))
         == rx.(delivered := rx.delivered + if Intact(adler, f) then [f[2..FromBE(f[..2]) + 2]] else [])
  {
    var n := |f| / 16 - 1;
    InsideShaped(adler, rx, f, n);
    ShapedBlocks(f, n);
    TakeLast(adler, rx, Blocks(f), n);
    assert Blocks(f)[..n + 1] == Blocks(f) && f[..(n + 1) * 16] == f;
    LastOfFrame(adler, rx.(next := f[..n * 16]), f, Blocks(f)[n]);
  }

  lemma LastOfFrame(adler: Checksum, rx: Rx, f: seq<byte>, b: Block)
    requires Shaped(f) && f == rx.next + b && !rx.failed
    ensures TakeBlock(adler, rx, b)
         == rx.(next := [], delivered := rx.delivered + if Intact(adler, f) then [f[2..FromBE(f[..2]) + 2]] else [])
  {
    TakenExactly(adler, rx, b);
    assert rx.delivered + [] == rx.delivered;
  }

  /** The messages of the frames whose checksum is right. */
  function IntactOnes(adler: Checksum, fs: seq<seq<byte>>): seq<seq<byte>>
    requires forall f :: f in fs ==> Shaped(f)
    decreases |fs|
  {
    if fs == [] then [] else
      assert Shaped(fs[0]);
      (if Intact(adler, fs[0]) then [fs[0][2..FromBE(fs[0][..2]) + 2]] else []) + IntactOnes(adler, fs[1..])
  }

  /** Garbled frames, as long as their sizes are not, cost no other frame its delivery. */
  lemma {:induction false} GarbledDropped(adler: Checksum, rx: Rx, fs: seq<seq<byte>>)
    requires rx.next == [] && !rx.failed && forall f :: f in fs ==> Shaped(f)
    ensures TakeBlocks(adler, rx, Blocks(Flatten(fs))) == rx.(delivered := rx.delivered + IntactOnes(adler, fs))
    decreases |fs|
  {
    if fs == [] {
      assert rx.delivered + [] == rx.delivered;
    } else {
      var f, rest := fs[0], Flatten(fs[1..]);
      ShapedFrame(adler, rx, f);
      ShapedBlocks(f, 0);
      BlocksConcat(f, rest);
      TakeBlocksConcat(adler, rx, Blocks(f), Blocks(rest));
      var got := if Intact(adler, f) then [f[2..FromBE(f[..2]) + 2]] else [];
      GarbledDropped(adler, rx.(delivered := rx.delivered + got), fs[1..]);
      Append(rx.delivered, got, IntactOnes(adler, fs[1..]));
    }
  }

  /** The frame of a message is such a frame, with the right checksum. */
  lemma DataFrame(adler: Checksum, i: Item)
    requires ItemOk(i) && i.Data?
    ensures var f := Frame(adler, i);
            Shaped(f) && Intact(adler, f) && FromBE(f[..2]) == |i.msg| && f[2..|i.msg| + 2] == i.msg
  {
    var f := Frame(adler, i);
    FrameSize(adler, i);
    assert f[..2] == ToBE(|i.msg|, 2);
    BERoundTrip(|i.msg|, 2);
    assert Pow256(2) == 65536;
    assert f[..|f| - 4] == Body(i) && f[|f| - 4..] == adler(Body(i));
  }

  /** Within a message frame nothing is delivered, and exactly the frame's bytes so far are kept. */
  lemma InsideFrame(adler: Checksum, rx: Rx, i: Item, n: nat)
    requires ItemOk(i) && i.Data? && rx.next == [] && !rx.failed
    requires n < |Frame(adler, i)| / 16
    ensures TakeBlocks(adler, rx, Blocks(Frame(adler, i))[..n]) == rx.(next := Frame(adler, i)[..n * 16])
  {
    DataFrame(adler, i);
    InsideShaped(adler, rx, Frame(adler, i), n);
  }

  /** The message an item delivers, if any. */
  function First(i: Item): seq<seq<byte>> { if i.Data? then [i.msg] else [] }

  /** A whole frame: its message is delivered, a time frame is skipped, and the receiver expects a header again. */
  lemma WholeFrame(adler: Checksum, rx: Rx, i: Item)
    requires ItemOk(i) && rx.next == [] && !rx.failed
    ensures TakeBlocks(adler, rx, Blocks(Frame(adler, i)))
         == rx.(delivered := rx.delivered + First(i))
  {
    if i.Data? {
      DataFrame(adler, i);
      ShapedFrame(adler, rx, Frame(adler, i));
    } else {
      TimeFrame(adler, rx, i);
      assert rx.delivered + [] == rx.delivered;
    }
  }

  lemma TimeFrame(adler: Checksum, rx: Rx, i: Item)
    requires ItemOk(i) && i.TimeSync? && rx.next == [] && !rx.failed
    ensures TakeBlocks(adler, rx, Blocks(Frame(adler, i))) == rx
  {
    var f := Frame(adler, i);
    FrameSize(adler, i);
    assert f[0..16][..2] == f[..2] == ToBE(0, 2);
    BERoundTrip(0, 2);
    TakeLast(adler, rx, Blocks(f), 0);
    assert Blocks(f)[..0] == [] && Blocks(f)[..1] == Blocks(f);
    TakenExactly(adler, rx, Blocks(f)[0]);
  }

  // ---------------------------------------------------------------- a stream of frames

  function Stream(adler: Checksum, items: seq<Item>): seq<byte>
    decreases |items|
  {
    if items == [] then [] else Frame(adler, items[0]) + Stream(adler, items[1..])
  }

  ghost predicate ItemsOk(items: seq<Item>) { forall i :: 0 <= i < |items| ==> ItemOk(items[i]) }

  /** The messages whose frames lie completely within the first n blocks. */
  function Arrived(adler: Checksum, items: seq<Item>, n: nat): (r: seq<seq<byte>>)
    decreases |items|
  {
    if items == [] then [] else
      var size := |Frame(adler, items[0])| / 16;
      if n < size then [] else
        First(items[0]) + Arrived(adler, items[1..], n - size)
  }

  function Messages(items: seq<Item>): seq<seq<byte>>
    decreases |items|
  {
    if items == [] then [] else First(items[0]) + Messages(items[1..])
  }

  lemma AlignedSum(a: nat, b: nat)
    requires a % 16 == 0 && b % 16 == 0
    ensures (a + b) % 16 == 0 && (a + b) / 16 == a / 16 + b / 16
  {
  }

  lemma {:induction false} StreamAligned(adler: Checksum, items: seq<Item>)
    requires ItemsOk(items)
    ensures |Stream(adler, items)| % 16 == 0
    decreases |items|
  {
    if items == [] {
    } else {
      FrameSize(adler, items[0]);
      StreamAligned(adler, items[1..]);
      AlignedSum(|Frame(adler, items[0])|, |Stream(adler, items[1..])|);
    }
  }

  lemma {:induction false} AllArrived(adler: Checksum, items: seq<Item>, n: nat)
    requires ItemsOk(items) && 16 * n == |Stream(adler, items)|
    ensures Arrived(adler, items, n) == Messages(items)
    decreases |items|
  {
    if items == [] {
    } else {
      StreamAligned(adler, items[1..]);
      StreamLength(adler, items, n);
      ArrivedCons(adler, items, n);
      AllArrived(adler, items[1..], n - |Frame(adler, items[0])| / 16);
    }
  }

  /** The blocks of a stream before and after the end of its first frame. */
  lemma StreamBlocks(adler: Checksum, items: seq<Item>, n: nat)
    requires ItemsOk(items) && items != [] && n <= |Stream(adler, items)| / 16
    ensures var f, s := Frame(adler, items[0]), Stream(adler, items[1..]);
            && |Stream(adler, items)| / 16 == |f| / 16 + |s| / 16
            && (n < |f| / 16 ==> Blocks(Stream(adler, items))[..n] == Blocks(f)[..n])
            && (n >= |f| / 16 ==>
                  Blocks(Stream(adler, items))[..n] == Blocks(f) + Blocks(s)[..n - |f| / 16])
  {
    FrameSize(adler, items[0]);
    BlocksConcat(Frame(adler, items[0]), Stream(adler, items[1..]));
  }

  lemma PartFrame(adler: Checksum, rx: Rx, i: Item, n: nat)
    requires ItemOk(i) && rx.next == [] && !rx.failed && n < |Frame(adler, i)| / 16
    ensures var r := TakeBlocks(adler, rx, Blocks(Frame(adler, i))[..n]); r.delivered == rx.delivered && !r.failed
  {
    FrameSize(adler, i);
    if i.Data? {
      InsideFrame(adler, rx, i, n);
    } else {
      assert Blocks(Frame(adler, i))[..n] == [];
    }
  }

  /** bs, the first n blocks of the stream, delivers exactly the messages whose frames are complete. */
  ghost predicate Delivers(adler: Checksum, rx: Rx, bs: seq<Block>, items: seq<Item>, n: nat) {
    var r := TakeBlocks(adler, rx, bs);
    && r.delivered == rx.delivered + Arrived(adler, items, n) && !r.failed
    && (16 * n == |Stream(adler, items)| ==> r.next == [])
  }

  lemma DeliversPart(adler: Checksum, rx: Rx, items: seq<Item>, n: nat)
    requires ItemsOk(items) && rx.next == [] && !rx.failed
    requires items != [] && n < |Frame(adler, items[0])| / 16
    ensures Delivers(adler, rx, Blocks(Frame(adler, items[0]))[..n], items, n)
  {
    PartFrame(adler, rx, items[0], n);
    assert rx.delivered + [] == rx.delivered;
  }

  lemma ArrivedCons(adler: Checksum, items: seq<Item>, n: nat)
    requires items != [] && n >= |Frame(adler, items[0])| / 16
    ensures Arrived(adler, items, n) == First(items[0]) + Arrived(adler, items[1..], n - |Frame(adler, items[0])| / 16)
  {
  }

  lemma StreamLength(adler: Checksum, items: seq<Item>, n: nat)
    requires ItemsOk(items) && items != [] && 16 * n == |Stream(adler, items)|
    ensures 16 * (n - |Frame(adler, items[0])| / 16) == |Stream(adler, items[1..])|
  {
    FrameSize(adler, items[0]);
  }

  lemma DeliversStep(adler: Checksum, rx: Rx, items: seq<Item>, n: nat, later: seq<Block>)
    requires ItemsOk(items) && rx.next == [] && !rx.failed
    requires items != [] && n >= |Frame(adler, items[0])| / 16
    requires Delivers(adler, rx.(delivered := rx.delivered + First(items[0])), later,
                      items[1..], n - |Frame(adler, items[0])| / 16)
    ensures Delivers(adler, rx, Blocks(Frame(adler, items[0])) + later, items, n)
  {
    var m := n - |Frame(adler, items[0])| / 16;
    var r := TakeBlocks(adler, rx, Blocks(Frame(adler, items[0])) + later);
    FrameThenBlocks(adler, rx, items[0], later);
    assert !r.failed;
    assert r.delivered == rx.delivered + Arrived(adler, items, n) by {
      Append(rx.delivered, First(items[0]), Arrived(adler, items[1..], m));
      ArrivedCons(adler, items, n);
    }
    if 16 * n == |Stream(adler, items)| {
      StreamLength(adler, items, n);
    }
  }

  lemma {:induction false} StreamDelivers(adler: Checksum, rx: Rx, items: seq<Item>, n: nat)
    requires ItemsOk(items) && rx.next == [] && !rx.failed && n <= |Stream(adler, items)| / 16
    ensures Delivers(adler, rx, Blocks(Stream(adler, items))[..n], items, n)
    decreases |items|
  {
    if items == [] {
      assert rx.delivered + [] == rx.delivered;
    } else {
      StreamBlocks(adler, items, n);
      var size := |Frame(adler, items[0])| / 16;
      if n < size {
        DeliversPart(adler, rx, items, n);
      } else {
        StreamDelivers(adler, rx.(delivered := rx.delivered + First(items[0])), items[1..], n - size);
        DeliversStep(adler, rx, items, n, Blocks(Stream(adler, items[1..]))[..n - size]);
      }
    }
  }

  lemma FrameThenBlocks(adler: Checksum, rx: Rx, i: Item, bs: seq<Block>)
    requires ItemOk(i) && rx.next == [] && !rx.failed
    ensures TakeBlocks(adler, rx, Blocks(Frame(adler, i)) + bs)
         == TakeBlocks(adler, rx.(delivered := rx.delivered + First(i)), bs)
  {
    TakeBlocksConcat(adler, rx, Blocks(Frame(adler, i)), bs);
    WholeFrame(adler, rx, i);
  }

  // ---------------------------------------------------------------- encryption and chunks

  /** What the sender writes: each frame encrypted by a call of its own, continuing the chain of the one before. */
  function SendAll(c: BlockCipher, k: Key, iv: Block, adler: Checksum, items: seq<Item>): seq<Block>
    decreases |items|
  {
    if items == [] then [] else
      var e := CbcEncrypt(c, k, iv, Blocks(Frame(adler, items[0])));
      e + SendAll(c, k, Chain(iv, e), adler, items[1..])
  }

  lemma {:induction false} SendAllIsOneStream(c: BlockCipher, k: Key, iv: Block, adler: Checksum, items: seq<Item>)
    requires ItemsOk(items)
    ensures SendAll(c, k, iv, adler, items) == CbcEncrypt(c, k, iv, Blocks(Stream(adler, items)))
    decreases |items|
  {
    if items == [] {
    } else {
      var f, s := Frame(adler, items[0]), Stream(adler, items[1..]);
      FrameSize(adler, items[0]);
      BlocksConcat(f, s);
      EncryptSplit(c, k, iv, Blocks(f), Blocks(s));
      SendAllIsOneStream(c, k, Chain(iv, CbcEncrypt(c, k, iv, Blocks(f))), adler, items[1..]);
    }
  }

  /** The receiving end: decoder, chaining value and the bytes not yet forming a block. */
  datatype Conn = Conn(rx: Rx, iv: Block, rest: seq<byte>)

  /** More bytes arrive. */
  function Feed(c: BlockCipher, k: Key, adler: Checksum, conn: Conn, bytes: seq<byte>): Conn {
    var all := conn.rest + bytes;
    var bs := Blocks(all);
    Conn(TakeBlocks(adler, conn.rx, CbcDecrypt(c, k, conn.iv, bs)), Chain(conn.iv, bs), all[|bs| * 16..])
  }

  function FeedAll(c: BlockCipher, k: Key, adler: Checksum, conn: Conn, chunks: seq<seq<byte>>): Conn
    decreases |chunks|
  {
    if chunks == [] then conn else FeedAll(c, k, adler, Feed(c, k, adler, conn, chunks[0]), chunks[1..])
  }

  lemma BlocksSplit(a: seq<byte>, b: seq<byte>)
    ensures var n := |a| / 16;
            Blocks(a + b) == Blocks(a) + Blocks(a[n * 16..] + b)
  {
    var n := |a| / 16;
    var lo, hi := a[..n * 16], a[n * 16..];
    assert a + b == lo + (hi + b);
    BlocksConcat(lo, hi + b);
    assert a == lo + hi;
    BlocksConcat(lo, hi);
    assert Blocks(hi) == [];
  }

  /** Where the bytes are cut makes no difference. */
  lemma FeedSplit(c: BlockCipher, k: Key, adler: Checksum, conn: Conn, a: seq<byte>, b: seq<byte>)
    ensures Feed(c, k, adler, Feed(c, k, adler, conn, a), b) == Feed(c, k, adler, conn, a + b)
  {
    var ra := conn.rest + a;
    var n := |ra| / 16;
    assert conn.rest + (a + b) == ra + b;
    BlocksSplit(ra, b);
    var bs, bs' := Blocks(ra), Blocks(ra[n * 16..] + b);
    DecryptSplit(c, k, conn.iv, bs, bs');
    TakeBlocksConcat(adler, conn.rx, CbcDecrypt(c, k, conn.iv, bs), CbcDecrypt(c, k, Chain(conn.iv, bs), bs'));
    assert (ra + b)[(|bs| + |bs'|) * 16..] == (ra[n * 16..] + b)[|bs'| * 16..];
  }

  lemma {:induction false} FeedAllIsFeed(c: BlockCipher, k: Key, adler: Checksum, conn: Conn, chunks: seq<seq<byte>>)
    requires |conn.rest| < 16
    ensures FeedAll(c, k, adler, conn, chunks) == Feed(c, k, adler, conn, Flatten(chunks))
    decreases |chunks|
  {
    if chunks == [] {
      assert conn.rest + [] == conn.rest;
    } else {
      FeedAllIsFeed(c, k, adler, Feed(c, k, adler, conn, chunks[0]), chunks[1..]);
      FeedSplit(c, k, adler, conn, chunks[0], Flatten(chunks[1..]));
    }
  }

  lemma BlocksOfPrefix(bytes: seq<byte>, n: nat)
    requires n <= |bytes|
    ensures Blocks(bytes[..n]) == Blocks(bytes)[..n / 16]
  {
    forall i | 0 <= i < n / 16 ensures bytes[..n][i * 16..i * 16 + 16] == bytes[i * 16..i * 16 + 16] {
    }
  }

  /** The decrypted form of the first n blocks sent is the first n blocks of the plain stream. */
  lemma DecryptedPrefix(c: BlockCipher, k: Key, iv: Block, plain: seq<Block>, n: nat)
    requires n <= |plain|
    ensures CbcDecrypt(c, k, iv, CbcEncrypt(c, k, iv, plain)[..n]) == plain[..n]
  {
    var sent := CbcEncrypt(c, k, iv, plain);
    DecryptEncrypt(c, k, iv, plain);
    assert sent == sent[..n] + sent[n..];
    DecryptSplit(c, k, iv, sent[..n], sent[n..]);
  }

  lemma ReceivedBlocks(c: BlockCipher, k: Key, iv: Block, adler: Checksum, items: seq<Item>, bytes: seq<byte>)
    requires ItemsOk(items) && bytes <= Unblock(SendAll(c, k, iv, adler, items))
    ensures var plain := Blocks(Stream(adler, items));
            && |bytes| / 16 <= |plain|
            && CbcDecrypt(c, k, iv, Blocks(bytes)) == plain[..|bytes| / 16]
            && (bytes == Unblock(SendAll(c, k, iv, adler, items)) <==> |bytes| == 16 * |plain|)
  {
    var sent := SendAll(c, k, iv, adler, items);
    SendAllIsOneStream(c, k, iv, adler, items);
    BlocksOfUnblock(sent);
    BlocksOfPrefix(Unblock(sent), |bytes|);
    assert bytes == Unblock(sent)[..|bytes|];
    DecryptedPrefix(c, k, iv, Blocks(Stream(adler, items)), |bytes| / 16);
  }

  /**
   NTCP framing: for any messages of 1 to 16384 bytes and time frames, any amount of the encrypted stream having
   arrived, cut into chunks in any way, the receiver has delivered exactly the messages whose frames are complete, in
   order; when all has arrived, all of them.
   */
  lemma FramingRoundTrip(c: BlockCipher, k: Key, iv: Block, adler: Checksum, items: seq<Item>, chunks: seq<seq<byte>>)
    requires ItemsOk(items)
    requires Flatten(chunks) <= Unblock(SendAll(c, k, iv, adler, items))
    ensures var r := FeedAll(c, k, adler, Conn(Rx([], [], false), iv, []), chunks);
            && !r.rx.failed
            && r.rx.delivered == Arrived(adler, items, |Flatten(chunks)| / 16)
            && (Flatten(chunks) == Unblock(SendAll(c, k, iv, adler, items)) ==>
                  r.rx.delivered == Messages(items) && r.rx.next == [] && r.rest == [])
  {
    var conn := Conn(Rx([], [], false), iv, []);
    var bytes := Flatten(chunks);
    FeedAllIsFeed(c, k, adler, conn, chunks);
    assert conn.rest + bytes == bytes;
    FedPrefix(c, k, iv, adler, items, bytes);
  }

  lemma FedPrefix(c: BlockCipher, k: Key, iv: Block, adler: Checksum, items: seq<Item>, bytes: seq<byte>)
    requires ItemsOk(items) && bytes <= Unblock(SendAll(c, k, iv, adler, items))
    ensures var r := Feed(c, k, adler, Conn(Rx([], [], false), iv, []), bytes);
            && !r.rx.failed && r.rx.delivered == Arrived(adler, items, |bytes| / 16)
            && (bytes == Unblock(SendAll(c, k, iv, adler, items)) ==>
                  r.rx.delivered == Messages(items) && r.rx.next == [] && r.rest == [])
  {
    var rx, n := Rx([], [], false), |bytes| / 16;
    assert [] + bytes == bytes;
    ReceivedBlocks(c, k, iv, adler, items, bytes);
    StreamAligned(adler, items);
    StreamDelivers(adler, rx, items, n);
    assert [] + Arrived(adler, items, n) == Arrived(adler, items, n);
    if bytes == Unblock(SendAll(c, k, iv, adler, items)) {
      AllArrived(adler, items, n);
    }
  }

  // ---------------------------------------------------------------- the session object

  /** One more block of everything seen. */
  lemma FeedBlock(c: BlockCipher, k: Key, adler: Checksum, conn: Conn, seen: seq<byte>, n: nat)
    requires n < |seen| / 16
    ensures var b, bs := Blocks(seen)[n], Blocks(seen)[..n];
            && b == seen[n * 16..n * 16 + 16]
            && TakeBlocks(adler, conn.rx, CbcDecrypt(c, k, conn.iv, Blocks(seen)[..n + 1]))
            == TakeBlock(adler, TakeBlocks(adler, conn.rx, CbcDecrypt(c, k, conn.iv, bs)),
                         XorBlock(c.dec(k, b), Chain(conn.iv, bs)))
            && Chain(conn.iv, Blocks(seen)[..n + 1]) == b
  {
    var b, bs := Blocks(seen)[n], Blocks(seen)[..n];
    assert Blocks(seen)[..n + 1] == bs + [b];
    DecryptSplit(c, k, conn.iv, bs, [b]);
    var plain := XorBlock(c.dec(k, b), Chain(conn.iv, bs));
    assert CbcDecrypt(c, k, Chain(conn.iv, bs), [b]) == [plain];
    TakeBlocksConcat(adler, conn.rx, CbcDecrypt(c, k, conn.iv, bs), [plain]);
  }

  lemma SeenBlock(seen: seq<byte>, n: nat, block: Block)
    requires n < |seen| / 16 && forall i :: 0 <= i < 16 ==> block[i] == seen[16 * n + i]
    ensures block == seen[n * 16..n * 16 + 16] == Blocks(seen)[n]
  {
  }

  /** Once a session has failed it stays so. */
  lemma {:induction false} FailedStays(adler: Checksum, rx: Rx, bs: seq<Block>)
    requires rx.failed
    ensures TakeBlocks(adler, rx, bs) == rx
    decreases |bs|
  {
    if bs != [] {
      FailedStays(adler, rx, bs[1..]);
    }
  }

  class NTCPSession {
    const cipher: BlockCipher
    const key: Key
    const adler: Checksum
    var decryptionIV: Block
    const receiveBuffer: array<byte>
    var receiveBufferOffset: nat
    /** The buffer of m_NextMessage up to m_NextMessageOffset; empty for a null pointer. */
    var nextMessage: seq<byte>
    var isTerminated: bool
    ghost var delivered: seq<seq<byte>>

    ghost predicate Valid()
      reads this
    {
      receiveBuffer.Length == NTCP_BUFFER_SIZE + 16 && receiveBufferOffset <= NTCP_BUFFER_SIZE
    }

    ghost function State(): Conn
      requires Valid()
      reads this, receiveBuffer
    {
      Conn(Rx(nextMessage, delivered, isTerminated), decryptionIV, receiveBuffer[..receiveBufferOffset])
    }

    constructor (cipher: BlockCipher, key: Key, iv: Block, adler: Checksum)
      ensures Valid() && State() == Conn(Rx([], [], false), iv, [])
      ensures fresh(receiveBuffer)
    {
      this.cipher, this.key, this.adler := cipher, key, adler;
      decryptionIV := iv;
      receiveBuffer := new byte[NTCP_BUFFER_SIZE + 16](_ => 0);
      receiveBufferOffset := 0;
      nextMessage, isTerminated, delivered := [], false, [];
    }

    method DecryptNextBlock(encrypted: Block) returns (ok: bool)
      modifies this`decryptionIV, this`nextMessage, this`delivered
      ensures decryptionIV == encrypted
      ensures Rx(nextMessage, delivered, !ok)
           == TakeBlock(adler, Rx(old(nextMessage), old(delivered), false),
                        XorBlock(cipher.dec(key, encrypted), old(decryptionIV)))
      ensures Taken(adler, Rx(old(nextMessage), old(delivered), false),
                    XorBlock(cipher.dec(key, encrypted), old(decryptionIV)), Rx(nextMessage, delivered, !ok))
    {
      var buf := XorBlock(cipher.dec(key, encrypted), decryptionIV);
      decryptionIV := encrypted;
      TakenExactly(adler, Rx(nextMessage, delivered, false), buf);
      ok := NextBlock(buf);
    }

    /** DecryptNextBlock after decryption. */
    method NextBlock(buf: Block) returns (ok: bool)
      modifies this`nextMessage, this`delivered
      ensures Rx(nextMessage, delivered, !ok) == TakeBlock(adler, Rx(old(nextMessage), old(delivered), false), buf)
    {
      if nextMessage == [] {
        var dataSize := FromBE(buf[..2]);
        if dataSize == 0 {
          return true;
        }
        if dataSize > NTCP_MAX_MESSAGE_SIZE {
          return false;
        }
        nextMessage := buf;
      } else {
        nextMessage := nextMessage + buf;
      }
      var size := FromBE(nextMessage[..2]);
      if |nextMessage| >= size + 2 + 4 {
        if adler(nextMessage[..|nextMessage| - 4]) == nextMessage[|nextMessage| - 4..] {
          delivered := delivered + [nextMessage[2..size + 2]];
        }
        nextMessage := [];
      }
      return true;
    }

    /** The next block of everything seen. */
    method DecryptBlock(block: Block, ghost conn: Conn, ghost seen: seq<byte>, ghost n: nat) returns (ok: bool)
      requires n < |seen| / 16 && block == Blocks(seen)[n]
      requires Rx(nextMessage, delivered, false)
            == TakeBlocks(adler, conn.rx, CbcDecrypt(cipher, key, conn.iv, Blocks(seen)[..n]))
      requires decryptionIV == Chain(conn.iv, Blocks(seen)[..n])
      modifies this`decryptionIV, this`nextMessage, this`delivered
      ensures Rx(nextMessage, delivered, !ok)
           == TakeBlocks(adler, conn.rx, CbcDecrypt(cipher, key, conn.iv, Blocks(seen)[..n + 1]))
      ensures decryptionIV == Chain(conn.iv, Blocks(seen)[..n + 1])
    {
      FeedBlock(cipher, key, adler, conn, seen, n);
      ok := DecryptNextBlock(block);
    }

    /** The inner loop: every complete block in the buffer is decrypted. */
    method DecryptBlocks(ghost conn: Conn, ghost seen: seq<byte>) returns (nextBlock: nat)
      requires Valid() && !isTerminated && State() == conn && seen == receiveBuffer[..receiveBufferOffset]
      modifies this
      ensures Valid()
      ensures Rx(nextMessage, delivered, isTerminated)
           == TakeBlocks(adler, conn.rx, CbcDecrypt(cipher, key, conn.iv, Blocks(seen)))
      ensures !isTerminated ==> decryptionIV == Chain(conn.iv, Blocks(seen))
      ensures !isTerminated ==> nextBlock == |seen| / 16 * 16 && receiveBufferOffset == |seen| % 16
    {
      ghost var n := 0;
      nextBlock := 0;
      while receiveBufferOffset >= 16
        invariant Valid() && !isTerminated
        invariant nextBlock == 16 * n && n <= |seen| / 16
        invariant nextBlock + receiveBufferOffset == |seen|
        invariant Rx(nextMessage, delivered, false)
               == TakeBlocks(adler, conn.rx, CbcDecrypt(cipher, key, conn.iv, Blocks(seen)[..n]))
        invariant decryptionIV == Chain(conn.iv, Blocks(seen)[..n])
        decreases receiveBufferOffset
      {
        var block := receiveBuffer[nextBlock..nextBlock + 16];
        SeenBlock(seen, n, block);
        var ok := DecryptBlock(block, conn, seen, n);
        if !ok {
          FailedRest(cipher, key, adler, conn, seen, n + 1);
          isTerminated := true;
          return;
        }
        nextBlock := nextBlock + 16;
        receiveBufferOffset := receiveBufferOffset - 16;
        n := n + 1;
      }
      assert Blocks(seen)[..n] == Blocks(seen);
    }

    /** Every complete block in the buffer, then the rest moved to its front. */
    method ProcessBuffer()
      requires Valid() && !isTerminated
      modifies this, receiveBuffer
      ensures Valid()
      ensures State().rx == old(Feed(cipher, key, adler, State(), [])).rx
      ensures !isTerminated ==> State() == old(Feed(cipher, key, adler, State(), [])) && receiveBufferOffset < 16
    {
      ghost var conn, seen := State(), receiveBuffer[..receiveBufferOffset];
      assert conn.rest + [] == seen;
      var nextBlock := DecryptBlocks(conn, seen);
      if !isTerminated {
        assert receiveBuffer[nextBlock..nextBlock + receiveBufferOffset] == seen[nextBlock..];
        MoveRest(nextBlock);
      }
    }

    /** The bytes of the unfinished block go to the front of the buffer. */
    method MoveRest(nextBlock: nat)
      requires nextBlock + receiveBufferOffset <= receiveBuffer.Length
      modifies receiveBuffer
      ensures receiveBuffer[..receiveBufferOffset] == old(receiveBuffer[nextBlock..nextBlock + receiveBufferOffset])
    {
      forall i | 0 <= i < receiveBufferOffset {
        receiveBuffer[i] := receiveBuffer[nextBlock + i];
      }
    }

    /** Bytes read from the socket behind those already in the buffer. */
    method Append(data: seq<byte>)
      requires Valid() && receiveBufferOffset + |data| <= NTCP_BUFFER_SIZE
      modifies this`receiveBufferOffset, receiveBuffer
      ensures Valid() && State() == old(State()).(rest := old(State()).rest + data)
      ensures receiveBufferOffset == old(receiveBufferOffset) + |data|
    {
      ghost var rest := receiveBuffer[..receiveBufferOffset];
      forall i | 0 <= i < |data| {
        receiveBuffer[receiveBufferOffset + i] := data[i];
      }
      receiveBufferOffset := receiveBufferOffset + |data|;
      assert receiveBuffer[..receiveBufferOffset] == rest + data;
    }

    /** Working off the buffer gets to where feeding the bytes to conn gets. */
    ghost predicate HeadedFor(conn: Conn, bytes: seq<byte>)
      requires Valid()
      reads this, receiveBuffer
    {
      Feed(cipher, key, adler, State(), []) == Feed(cipher, key, adler, conn, bytes)
    }

    ghost predicate ArrivedAt(conn: Conn, bytes: seq<byte>)
      requires Valid()
      reads this, receiveBuffer
    {
      State() == Feed(cipher, key, adler, conn, bytes) && receiveBufferOffset < 16
    }

    ghost predicate FailedIn(conn: Conn, bytes: seq<byte>)
      requires Valid()
      reads this, receiveBuffer
    {
      isTerminated && State().rx == Feed(cipher, key, adler, conn, bytes).rx
    }

    /** A further read takes what is available, but no more than there is room for. */
    method ReadMore(available: seq<byte>, ghost total: nat)
      requires Valid() && receiveBufferOffset == total % 16
      modifies this`receiveBufferOffset, receiveBuffer
      ensures Valid() && State() == old(State()).(rest := old(State()).rest + Read(total, available))
      ensures receiveBufferOffset == old(receiveBufferOffset) + |Read(total, available)|
    {
      var moreBytes := |available|;
      if moreBytes > NTCP_BUFFER_SIZE - receiveBufferOffset {
        moreBytes := NTCP_BUFFER_SIZE - receiveBufferOffset;
      }
      assert available[..moreBytes] == Read(total, available);
      Append(available[..moreBytes]);
    }

    /** One pass of the do-while loop: work off the buffer, then read more. */
    method Pass(ghost conn: Conn, ghost bytes: seq<byte>, available: seq<byte>, ghost total: nat,
                ghost after: seq<byte>)
      requires Valid() && !isTerminated && HeadedFor(conn, bytes)
      requires total == |conn.rest| + |bytes| && after == bytes + Read(total, available)
      modifies this, receiveBuffer
      ensures Valid() && (if isTerminated then FailedIn(conn, bytes) else HeadedFor(conn, after))
      ensures !isTerminated ==> receiveBufferOffset == total % 16 + |Read(total, available)|
    {
      ProcessBuffer();
      if !isTerminated {
        ghost var mid := State();
        RestLength(cipher, key, adler, conn, bytes);
        assert receiveBufferOffset == |mid.rest|;
        ReadMore(available, total);
        FedLater(cipher, key, adler, mid, Read(total, available));
        FeedSplit(cipher, key, adler, conn, bytes, Read(total, available));
      }
    }

    method Begin(data: seq<byte>)
      requires Valid() && !isTerminated && receiveBufferOffset + |data| <= NTCP_BUFFER_SIZE
      modifies this, receiveBuffer
      ensures Valid() && !isTerminated && HeadedFor(old(State()), data)
      ensures receiveBufferOffset == old(receiveBufferOffset) + |data|
    {
      FedLater(cipher, key, adler, State(), data);
      Append(data);
    }

    ghost predicate Underway(conn: Conn, bytes: seq<byte>)
      requires Valid()
      reads this, receiveBuffer
    {
      if isTerminated then FailedIn(conn, bytes) else HeadedFor(conn, bytes)
    }

    ghost predicate Done(conn: Conn, bytes: seq<byte>)
      requires Valid()
      reads this, receiveBuffer
    {
      if isTerminated then FailedIn(conn, bytes) else ArrivedAt(conn, bytes)
    }

    ghost method Settle(conn: Conn, bytes: seq<byte>)
      requires Valid() && Underway(conn, bytes) && (receiveBufferOffset < 16 || isTerminated)
      ensures Done(conn, bytes)
    {
      if !isTerminated {
        FedAlready(cipher, key, adler, State());
      }
    }

    /** One pass of the loop with what reload holds for it. */
    method PassWith(ghost conn: Conn, ghost data: seq<byte>, reload: seq<seq<byte>>, used: nat) returns (used': nat)
      requires Valid() && !isTerminated && used <= |reload| && HeadedFor(conn, Input(|conn.rest|, data, reload, used))
      modifies this, receiveBuffer
      ensures Valid() && used <= used' <= |reload|
      ensures Underway(conn, Input(|conn.rest|, data, reload, used'))
      ensures !isTerminated ==> used < used' || receiveBufferOffset < 16
      ensures isTerminated || receiveBufferOffset >= 16 || used' == |reload| || Short(|conn.rest|, data, reload, used')
    {
      ghost var before := Input(|conn.rest|, data, reload, used);
      if used < |reload| {
        used' := PassMore(conn, data, reload, used, before);
      } else {
        used' := used;
        ghost var total := |conn.rest| + |before|;
        assert before + Read(total, []) == before;
        Pass(conn, before, [], total, before);
      }
    }

    /** One pass with a further read. */
    method PassMore(ghost conn: Conn, ghost data: seq<byte>, reload: seq<seq<byte>>, used: nat, ghost before: seq<byte>)
      returns (used': nat)
      requires Valid() && !isTerminated && used < |reload|
      requires before == Input(|conn.rest|, data, reload, used) && HeadedFor(conn, before)
      modifies this, receiveBuffer
      ensures Valid() && used' == if isTerminated then used else used + 1
      ensures Underway(conn, Input(|conn.rest|, data, reload, used'))
      ensures isTerminated || receiveBufferOffset >= 16 || Short(|conn.rest|, data, reload, used')
    {
      ghost var total, after := InputNext(|conn.rest|, data, reload, used, before);
      Pass(conn, before, reload[used], total, after);
      used' := if isTerminated then used else used + 1;
    }

    /** The do-while loop. */
    method DecryptAndReload(ghost conn: Conn, ghost data: seq<byte>, reload: seq<seq<byte>>) returns (used: nat)
      requires Valid() && !isTerminated && Underway(conn, Input(|conn.rest|, data, reload, 0))
      requires receiveBufferOffset == |conn.rest| + |data|
      modifies this, receiveBuffer
      ensures Valid() && used <= |reload| && Underway(conn, Input(|conn.rest|, data, reload, used))
      ensures receiveBufferOffset < 16 || isTerminated
      ensures isTerminated || used == |reload| || Short(|conn.rest|, data, reload, used)
    {
      used := 0;
      while receiveBufferOffset >= 16 && !isTerminated
        invariant Valid() && used <= |reload|
        invariant Underway(conn, Input(|conn.rest|, data, reload, used))
        invariant receiveBufferOffset >= 16 || isTerminated || used == |reload| || Short(|conn.rest|, data, reload, used)
        decreases !isTerminated, |reload| - used, receiveBufferOffset
      {
        used := PassWith(conn, data, reload, used);
      }
    }

    /**
     HandleReceived: data arrived, and up to five more reads find available what reload lists, until one of them does not make
     up a whole block.
     */
    method HandleReceived(data: seq<byte>, reload: seq<seq<byte>>) returns (used: nat)
      requires Valid() && !isTerminated
      requires receiveBufferOffset + |data| <= NTCP_BUFFER_SIZE
      requires |reload| <= 5
      modifies this, receiveBuffer
      ensures Valid() && used <= |reload|
      ensures Done(old(State()), Input(old(|State().rest|), data, reload, used))
      ensures isTerminated || used == |reload| || Short(old(|State().rest|), data, reload, used)
    {
      ghost var conn := State();
      assert Input(|conn.rest|, data, reload, 0) == data;
      Begin(data);
      used := DecryptAndReload(conn, data, reload);
      Settle(conn, Input(|conn.rest|, data, reload, used));
    }
  }

  /** What one more read takes of the available bytes, after total bytes of which the unfinished block is left. */
  function Read(total: nat, available: seq<byte>): (r: seq<byte>)
    ensures r <= available && total % 16 + |r| <= NTCP_BUFFER_SIZE
    ensures r == available || total % 16 + |r| == NTCP_BUFFER_SIZE
  {
    var room := NTCP_BUFFER_SIZE - total % 16;
    if |available| > room then available[..room] else available
  }

  /** Everything a call of HandleReceived read: the data it was called for and what the used reloads brought. */
  ghost function Input(rest: nat, data: seq<byte>, reload: seq<seq<byte>>, used: nat): seq<byte>
    requires used <= |reload|
  {
    if used == 0 then data else
      var before := Input(rest, data, reload, used - 1);
      before + Read(rest + |before|, reload[used - 1])
  }

  /** The last of these reads left less than a block in the buffer. */
  ghost predicate Short(rest: nat, data: seq<byte>, reload: seq<seq<byte>>, used: nat)
    requires used <= |reload|
  {
    if used == 0 then rest + |data| < 16 else
      var total := rest + |Input(rest, data, reload, used - 1)|;
      total % 16 + |Read(total, reload[used - 1])| < 16
  }

  lemma InputNext(rest: nat, data: seq<byte>, reload: seq<seq<byte>>, used: nat, before: seq<byte>)
    returns (total: nat, after: seq<byte>)
    requires used < |reload| && before == Input(rest, data, reload, used)
    ensures total == rest + |before|
    ensures after == Input(rest, data, reload, used + 1) == before + Read(total, reload[used])
    ensures Short(rest, data, reload, used + 1) <==> total % 16 + |Read(total, reload[used])| < 16
  {
    total, after := rest + |before|, Input(rest, data, reload, used + 1);
  }

  /** What is left over is less than a block. */
  lemma RestLength(c: BlockCipher, k: Key, adler: Checksum, conn: Conn, bytes: seq<byte>)
    ensures |Feed(c, k, adler, conn, bytes).rest| == (|conn.rest| + |bytes|) % 16
  {
  }

  lemma FedLater(c: BlockCipher, k: Key, adler: Checksum, conn: Conn, data: seq<byte>)
    ensures Feed(c, k, adler, conn.(rest := conn.rest + data), []) == Feed(c, k, adler, conn, data)
  {
    assert conn.rest + data + [] == conn.rest + data;
  }

  lemma FedAlready(c: BlockCipher, k: Key, adler: Checksum, conn: Conn)
    requires |conn.rest| < 16
    ensures Feed(c, k, adler, conn, []) == conn
  {
    assert conn.rest + [] == conn.rest;
  }

  lemma FailedRest(c: BlockCipher, k: Key, adler: Checksum, conn: Conn, seen: seq<byte>, n: nat)
    requires n <= |seen| / 16
    requires TakeBlocks(adler, conn.rx, CbcDecrypt(c, k, conn.iv, Blocks(seen)[..n])).failed
    ensures TakeBlocks(adler, conn.rx, CbcDecrypt(c, k, conn.iv, Blocks(seen)))
         == TakeBlocks(adler, conn.rx, CbcDecrypt(c, k, conn.iv, Blocks(seen)[..n]))
  {
    var a, b := Blocks(seen)[..n], Blocks(seen)[n..];
    assert Blocks(seen) == a + b;
    DecryptSplit(c, k, conn.iv, a, b);
    TakeBlocksConcat(adler, conn.rx, CbcDecrypt(c, k, conn.iv, a), CbcDecrypt(c, k, Chain(conn.iv, a), b));
    FailedStays(adler, TakeBlocks(adler, conn.rx, CbcDecrypt(c, k, conn.iv, a)), CbcDecrypt(c, k, Chain(conn.iv, a), b));
  }
}
