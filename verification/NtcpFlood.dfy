/**
 One message object posted three times in a row, as a flooding router does:
 what the receiver gets from it, for a cipher simple enough to follow by hand.
 */
module NtcpFlood {
  import opened Bytes
  import opened Cbc
  import opened Ntcp
  import opened NtcpBuffers
  import opened NtcpRepeats
  import opened NtcpSend
  import opened NtcpRuns

  /** Our router info is object 0, the flooded message object 1; posts 2 and 3 come while the first is being written. */
  function Flood(): seq<Event<nat>> {
    [SentEvent(false), SentEvent(false), PostEvent([1]), PostEvent([1]), PostEvent([1]), SentEvent(false)]
  }

  lemma FloodWrites()
    ensures var c := Exec(Opened(Initial(), 0), Flood());
            && c.writes == [[0], [1], [1, 1]] && c.posted == [0, 1, 1, 1] && c.queue == []
            && NeverLeaves(Opened(Initial(), 0), Flood())
  {
    var es := Flood();
    var c0: Control<nat> := Opened(Initial(), 0);
    assert [] + [0] == [0];
    var c1 := Control(true, false, [], 1, [[0]], [0]);
    var c2 := c1.(isSending := false, outstanding := 0);
    var c3 := Control(true, false, [], 1, [[0], [1]], [0, 1]);
    var c4 := c3.(queue := [1], posted := [0, 1, 1]);
    var c5 := c3.(queue := [1, 1], posted := [0, 1, 1, 1]);
    var c6 := Control(true, false, [], 1, [[0], [1], [1, 1]], [0, 1, 1, 1]);
    Step(c0, es, 0, c1);
    Step(c1, es, 1, c2);
    Step(c2, es, 2, c3);
    Step(c3, es, 3, c4);
    Step(c4, es, 4, c5);
    Step(c5, es, 5, c6);
    assert es[6..] == [] && es[0..] == es;
  }

  lemma Step<T>(c: Control<T>, es: seq<Event<T>>, i: nat, d: Control<T>)
    requires i < |es| && d == Apply(c, es[i]) && !LeavesQueue(c, es[i])
    ensures Exec(c, es[i..]) == Exec(d, es[i + 1..])
    ensures NeverLeaves(c, es[i..]) <==> NeverLeaves(d, es[i + 1..])
  {
    assert es[i..][1..] == es[i + 1..] && es[i..][0] == es[i];
  }

  // ---------------------------------------------------------------- a cipher to calculate with

  function Next(x: byte): byte { if x == 255 then 0 else x + 1 }

  function Previous(x: byte): byte { if x == 0 then 255 else x - 1 }

  function Up(b: Block): Block { seq(16, i requires 0 <= i < 16 => Next(b[i])) }

  function Down(b: Block): Block { seq(16, i requires 0 <= i < 16 => Previous(b[i])) }

  lemma UpDown(b: Block)
    ensures Down(Up(b)) == b && Up(Down(b)) == b
  {
  }

  /** Every byte is counted up. */
  function CountCipher(): (c: BlockCipher)
    ensures forall k, b :: c.enc(k, b) == Up(b) && c.dec(k, b) == Down(b)
  {
    assert forall b :: Down(Up(b)) == b && Up(Down(b)) == b by {
      forall b ensures Down(Up(b)) == b && Up(Down(b)) == b {
        UpDown(b);
      }
    }
    CipherPair((k, b) => Up(b), (k, b) => Down(b))
  }

  function Counting(): Env { Env(CountCipher(), [], _ => [0, 0, 0, 0]) }

  /** A block with the size, a message byte, nine bytes of padding and a checksum. */
  function Five(a: byte, b: byte, c: byte, d: byte, e: byte): Block { [a, b, c] + seq(9, _ => d) + [e, e, e, e] }

  function Zeros(): Block { Five(0, 0, 0, 0, 0) }

  lemma UpFive(a: byte, b: byte, c: byte, d: byte, e: byte)
    ensures Up(Five(a, b, c, d, e)) == Five(Next(a), Next(b), Next(c), Next(d), Next(e))
  {
  }

  lemma XorFive(a: byte, b: byte, c: byte, d: byte, e: byte, a': byte, b': byte, c': byte, d': byte, e': byte,
                r: byte, s: byte, t: byte, u: byte, w: byte)
    requires XorByte(a, a') == r && XorByte(b, b') == s && XorByte(c, c') == t
    requires XorByte(d, d') == u && XorByte(e, e') == w
    ensures XorBlock(Five(a, b, c, d, e), Five(a', b', c', d', e')) == Five(r, s, t, u, w)
  {
  }

  lemma DownFive(a: byte, b: byte, c: byte, d: byte, e: byte)
    ensures Down(Five(a, b, c, d, e)) == Five(Previous(a), Previous(b), Previous(c), Previous(d), Previous(e))
  {
  }

  lemma XorSame(a: byte)
    ensures XorByte(a, a) == 0
  {
    XorZero(a);
    XorByteInvolutive(0, a);
  }

  lemma XorOne(a: byte)
    requires a == 2 || a == 4
    ensures XorByte(a, 1) == a + 1 == XorByte(1, a)
  {
    assert XorBits(2, 1, 8) == 3 && XorBits(4, 1, 8) == 5;
    XorByteInvolutive(a, 1);
  }

  lemma OneByteFrame(s: Slot, c: byte, d: byte)
    requires s.len == 1 && |s.bytes| == 16 && s.bytes[2] == c && forall i :: 3 <= i < 12 ==> s.bytes[i] == d
    ensures Content(s).msg == [c] && Frame(Counting().adler, Content(s)) == Five(0, 1, c, d, 0)
  {
    var i := Content(s);
    assert i.msg == [c] && i.padding == seq(9, _ => d);
    assert ToBE(1, 2) == [0, 1];
    assert Body(i) == [0, 1] + [c] + seq(9, _ => d);
  }

  lemma BlockItself(f: Block)
    ensures Blocks(f) == [f]
  {
    assert f[0..16] == f;
  }

  /** The frame of a one-byte message, encrypted in its buffer. */
  lemma OneByte(chain: Block, s: Slot, c: byte, d: byte)
    requires s.len == 1 && |s.bytes| == 16 && s.bytes[2] == c && forall i :: 3 <= i < 12 ==> s.bytes[i] == d
    ensures var e := Up(XorBlock(chain, Five(0, 1, c, d, 0)));
            Ciphertext(Counting(), chain, Content(s)) == [e] && Encrypted(Counting(), chain, s) == Buffer(1, e)
  {
    var f := Five(0, 1, c, d, 0);
    OneByteFrame(s, c, d);
    BlockItself(f);
    OneBlock(chain, f);
    var e := Up(XorBlock(chain, f));
    assert s.bytes[16..] == [] && e + [] == e;
  }

  lemma OneBlock(chain: Block, f: Block)
    ensures var e := Up(XorBlock(chain, f));
            CbcEncrypt(CountCipher(), [], chain, [f]) == [e] && Unblock([e]) == e && Blocks(e) == [e]
  {
    var fs, es := [f], [Up(XorBlock(chain, f))];
    assert fs[1..] == [] && es[1..] == [];
    assert CbcEncrypt(CountCipher(), [], chain, fs) == es + CbcEncrypt(CountCipher(), [], es[0], fs[1..]);
    assert Flatten(es) == es[0] + Flatten(es[1..]);
    assert es[0][0..16] == es[0];
  }

  // ---------------------------------------------------------------- what is sent

  /** The flooded message is one byte, 7. */
  function FloodLine(): Line<nat> { Line(Held(Five(0, 0, 7, 0, 0)), Zeros(), []) }

  function FirstBlock(): Block { Five(1, 2, 8, 1, 1) }
  function SecondBlock(): Block { Five(2, 4, 1, 1, 2) }
  function ThirdBlock(): Block { Five(3, 6, 1, 1, 3) }

  /** A block of the chain, from the one before it and what the buffer holds. */
  ghost predicate Follows(chain: Block, was: Block, e: Block) {
    && (forall i :: 3 <= i < 12 ==> was[i] == was[3])
    && e == Up(XorBlock(chain, Five(0, 1, was[2], was[3], 0)))
  }

  function Held(b: Block): Memory<nat> { map[1 := Buffer(1, b)] }

  lemma FollowsPrepared(chain: Block, was: Block, e: Block)
    requires Follows(chain, was, e)
    ensures Prepare(Counting(), chain, Buffer(1, was)) == (Buffer(1, e), e) && Range(Buffer(1, e)) == [e]
  {
    OneByte(chain, Buffer(1, was), was[2], was[3]);
    OneBlock(chain, e);
    assert e[..16] == e;
  }

  lemma FirstFollows()
    ensures Follows(Zeros(), Five(0, 0, 7, 0, 0), FirstBlock())
  {
    XorZero(0);
    XorZero(1);
    XorZero(7);
    XorFive(0, 0, 0, 0, 0, 0, 1, 7, 0, 0, 0, 1, 7, 0, 0);
    UpFive(0, 1, 7, 0, 0);
  }

  lemma SecondXor()
    ensures XorBlock(FirstBlock(), Five(0, 1, 8, 1, 0)) == Five(1, 3, 0, 0, 1)
  {
    XorZero(1);
    XorOne(2);
    XorSame(8);
    XorSame(1);
    XorFive(1, 2, 8, 1, 1, 0, 1, 8, 1, 0, 1, 3, 0, 0, 1);
  }

  lemma SecondFollows()
    ensures Follows(FirstBlock(), FirstBlock(), SecondBlock())
  {
    SecondXor();
    UpFive(1, 3, 0, 0, 1);
    var was: Block := FirstBlock();
    assert was[2] == 8 && was[3] == 1;
  }

  lemma ThirdFollows()
    ensures Follows(SecondBlock(), SecondBlock(), ThirdBlock())
  {
    XorZero(2);
    XorOne(4);
    XorSame(1);
    XorFive(2, 4, 1, 1, 2, 0, 1, 1, 1, 0, 2, 5, 0, 0, 2);
    UpFive(2, 5, 0, 0, 2);
  }

  /** Preparing a buffer that holds one block leaves the block e, which is then the last. */
  ghost predicate Makes(v: Env, chain: Block, was: Block, e: Block) {
    Prepare(v, chain, Buffer(1, was)) == (Buffer(1, e), e) && Range(Buffer(1, e)) == [e]
  }

  lemma MadeSent(v: Env, l: Line<nat>, was: Block, e1: Block, e2: Block, e3: Block)
    requires 1 in l.memory && l.memory[1] == Buffer(1, was) && l.wire == []
    requires Makes(v, l.chain, was, e1) && Makes(v, e1, e1, e2) && Makes(v, e2, e2, e3)
    ensures PutAll(v, l, [[1], [1, 1]]).wire == [e1, e3, e3]
  {
    FloodSends(v, l, 1, Buffer(1, e1), e1, Buffer(1, e2), e2, Buffer(1, e3), e3);
    assert [] + [e1] + ([e3] + [e3]) == [e1, e3, e3];
  }

  lemma FirstMade()
    ensures Makes(Counting(), Zeros(), Five(0, 0, 7, 0, 0), FirstBlock())
  {
    FirstFollows();
    FollowsPrepared(Zeros(), Five(0, 0, 7, 0, 0), FirstBlock());
  }

  lemma SecondMade()
    ensures Makes(Counting(), FirstBlock(), FirstBlock(), SecondBlock())
  {
    SecondFollows();
    FollowsPrepared(FirstBlock(), FirstBlock(), SecondBlock());
  }

  lemma ThirdMade()
    ensures Makes(Counting(), SecondBlock(), SecondBlock(), ThirdBlock())
  {
    ThirdFollows();
    FollowsPrepared(SecondBlock(), SecondBlock(), ThirdBlock());
  }

  /** The second write refers twice to what the third encryption left. */
  lemma FloodSent()
    ensures PutAll(Counting(), FloodLine(), [[1], [1, 1]]).wire == [FirstBlock(), ThirdBlock(), ThirdBlock()]
  {
    FirstMade();
    SecondMade();
    ThirdMade();
    MadeSent(Counting(), FloodLine(), Five(0, 0, 7, 0, 0), FirstBlock(), SecondBlock(), ThirdBlock());
  }

  /** Posted twice, the second time after the first write has finished, the message 7 arrives as 7 and as 8. */
  lemma PostedTwice()
    ensures Messages(Framed(Counting(), FloodLine(), [[1], [1]])) == [[7], [8]]
  {
    FirstFollows();
    var s: Slot := Buffer(1, Five(0, 0, 7, 0, 0));
    OneByte(Zeros(), s, 7, 0);
    OneBlock(Zeros(), Five(0, 1, 7, 0, 0));
    OneByteFrame(s, 7, 0);
    SecondDelivery(Counting(), FloodLine(), 1);
    assert FirstBlock()[2..3] == [8];
  }

  // ---------------------------------------------------------------- what is received

  /** What the receiver decrypts the two later frames to. */
  function Garbled(): (Block, Block) { (Five(3, 7, 8, 1, 3), Five(1, 3, 1, 1, 1)) }

  lemma FirstUndone()
    ensures XorBlock(Down(FirstBlock()), Zeros()) == Five(0, 1, 7, 0, 0)
  {
    DownFive(1, 2, 8, 1, 1);
    XorZero(0);
    XorZero(1);
    XorZero(7);
    XorFive(0, 1, 7, 0, 0, 0, 0, 0, 0, 0, 0, 1, 7, 0, 0);
  }

  lemma SecondGarbled()
    ensures XorBlock(Down(ThirdBlock()), FirstBlock()) == Garbled().0
  {
    DownFive(3, 6, 1, 1, 3);
    XorOne(2);
    XorHigher();
    XorZero(8);
    XorZero(1);
    XorFive(2, 5, 0, 0, 2, 1, 2, 8, 1, 1, 3, 7, 8, 1, 3);
  }

  lemma ThirdGarbled()
    ensures XorBlock(Down(ThirdBlock()), ThirdBlock()) == Garbled().1
  {
    DownFive(3, 6, 1, 1, 3);
    XorHigher();
    XorZero(1);
    XorFive(2, 5, 0, 0, 2, 3, 6, 1, 1, 3, 1, 3, 1, 1, 1);
  }

  lemma XorHigher()
    ensures XorByte(5, 2) == 7 && XorByte(5, 6) == 3 && XorByte(2, 3) == 1
  {
    assert XorBits(5, 2, 8) == 7;
    assert XorBits(5, 6, 8) == 3;
    assert XorBits(2, 3, 8) == 1;
  }

  lemma ThreeDecrypted()
    ensures CbcDecrypt(CountCipher(), [], Zeros(), [FirstBlock(), ThirdBlock(), ThirdBlock()])
         == [Five(0, 1, 7, 0, 0), Garbled().0, Garbled().1]
  {
    FirstUndone();
    SecondGarbled();
    ThirdGarbled();
    var a, b := FirstBlock(), ThirdBlock();
    var one, two, three: seq<Block> := [b], [b, b], [a, b, b];
    assert one[1..] == [] && two[1..] == one && three[1..] == two;
    assert CbcDecrypt(CountCipher(), [], b, one) == [Garbled().1];
    assert CbcDecrypt(CountCipher(), [], a, two) == [Garbled().0] + [Garbled().1];
  }

  /** The message, once; then a size of 775 is read, and the receiver waits for bytes that are not sent. */
  lemma ThreeTaken()
    ensures TakeBlocks(Counting().adler, Rx([], [], false), [Five(0, 1, 7, 0, 0), Garbled().0, Garbled().1])
         == Rx(Garbled().0 + Garbled().1, [[7]], false)
  {
    var adler := Counting().adler;
    var g: seq<byte>, h: seq<byte> := Garbled().0, Garbled().1;
    var f := Five(0, 1, 7, 0, 0);
    var rx1 := Rx([], [[7]], false);
    assert TakeBlock(adler, Rx([], [], false), f) == rx1 by {
      TwoBytes(f, 0, 1);
      assert f[2..3] == [7] && f[12..] == [0, 0, 0, 0];
      assert [] + [[7 as byte]] == [[7 as byte]];
    }
    TwoBytes(g, 3, 7);
    TwoBytes(g + h, 3, 7);
    var one: seq<Block>, two: seq<Block>, three: seq<Block> := [h], [g, h], [f, g, h];
    assert one[1..] == [] && two[1..] == one && three[1..] == two;
    assert TakeBlock(adler, rx1, g) == Rx(g, [[7]], false);
    assert TakeBlock(adler, Rx(g, [[7]], false), h) == Rx(g + h, [[7]], false);
  }

  lemma TwoBytes(b: seq<byte>, hi: byte, lo: byte)
    requires |b| >= 2 && b[0] == hi && b[1] == lo
    ensures FromBE(b[..2]) == 256 * hi + lo
  {
    assert b[..2][..1] == [hi] && [hi][..0] == [];
    assert FromBE([hi]) == hi;
  }

  lemma ThreeMessages(i: Item)
    requires i.Data?
    ensures Messages([i, i, i]) == [i.msg, i.msg, i.msg]
  {
    assert [i, i, i][1..] == [i, i];
    MessagesOfTwo(i, i);
  }

  lemma Fed(sent: seq<Block>)
    ensures Feed(CountCipher(), [], Counting().adler, Conn(Rx([], [], false), Zeros(), []), Unblock(sent)).rx
         == TakeBlocks(Counting().adler, Rx([], [], false), CbcDecrypt(CountCipher(), [], Zeros(), sent))
  {
    BlocksOfUnblock(sent);
    assert [] + Unblock(sent) == Unblock(sent);
  }

  lemma FloodedMessages()
    ensures Messages(Items(FloodLine().memory, [1, 1, 1])) == [[7], [7], [7]]
  {
    var i := Content(Buffer(1, Five(0, 0, 7, 0, 0)));
    assert i.msg == [7];
    assert Items(FloodLine().memory, [1, 1, 1]) == [i, i, i];
    ThreeMessages(i);
  }

  /** The message is posted three times and delivered once. */
  lemma FloodedThrice()
    ensures var l := PutAll(Counting(), FloodLine(), [[1], [1, 1]]);
            var r := Feed(CountCipher(), [], Counting().adler, Conn(Rx([], [], false), Zeros(), []), Unblock(l.wire));
            && r.rx.delivered == [[7]] && !r.rx.failed
            && Messages(Items(FloodLine().memory, [1, 1, 1])) == [[7], [7], [7]]
  {
    FloodSent();
    Fed(PutAll(Counting(), FloodLine(), [[1], [1, 1]]).wire);
    ThreeDecrypted();
    ThreeTaken();
    FloodedMessages();
  }
}
