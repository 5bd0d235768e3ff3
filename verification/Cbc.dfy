/**
 AES in cipher block chaining mode, as the routers use it (NIST SP 800-38A,
 section 6.2).  The block cipher itself is a parameter: any pair of functions
 that undo each other under every key.
 */
module Cbc {
  import opened Bytes

  type Block = b: seq<byte> | |b| == 16 witness seq(16, _ => 0)

  type Key = seq<byte>

  const ZERO_BLOCK: Block := seq(16, _ => 0)

  datatype CipherPair = CipherPair(enc: (Key, Block) -> Block, dec: (Key, Block) -> Block) {
    ghost predicate Inverse() {
      && (forall k, b :: dec(k, enc(k, b)) == b)
      && (forall k, b :: enc(k, dec(k, b)) == b)
    }
  }

  type BlockCipher = c: CipherPair | c.Inverse() witness CipherPair((k, b) => b, (k, b) => b)

  function XorBlock(a: Block, b: Block): Block { Xor(a, b) }

  function CbcEncrypt(c: BlockCipher, k: Key, iv: Block, bs: seq<Block>): (r: seq<Block>)
    ensures |r| == |bs|
    decreases |bs|
  {
    if bs == [] then [] else
      var e := c.enc(k, XorBlock(iv, bs[0]));
      [e] + CbcEncrypt(c, k, e, bs[1..])
  }

  function CbcDecrypt(c: BlockCipher, k: Key, iv: Block, bs: seq<Block>): (r: seq<Block>)
    ensures |r| == |bs|
    decreases |bs|
  {
    if bs == [] then [] else
      [XorBlock(c.dec(k, bs[0]), iv)] + CbcDecrypt(c, k, bs[0], bs[1..])
  }

  /** The complete 16-byte blocks at the front of the bytes. */
  function Blocks(bytes: seq<byte>): (r: seq<Block>)
    ensures |r| == |bytes| / 16
  {
    seq<Block>(|bytes| / 16, i requires 0 <= i < |bytes| / 16 => bytes[i * 16..i * 16 + 16])
  }

  function Unblock(bs: seq<Block>): seq<byte> { Flatten(bs) }

  /** The chaining value after the given ciphertext: its last block, or the old value if there is none. */
  function Chain(iv: Block, ciphertext: seq<Block>): Block {
    if ciphertext == [] then iv else ciphertext[|ciphertext| - 1]
  }

  lemma ChainConcat(iv: Block, a: seq<Block>, b: seq<Block>)
    ensures Chain(iv, a + b) == Chain(Chain(iv, a), b)
  {
    if b == [] {
      assert a + b == a;
    }
  }

  /** Decryption inverts encryption, for any number of blocks. */
  lemma {:induction false} DecryptEncrypt(c: BlockCipher, k: Key, iv: Block, bs: seq<Block>)
    ensures CbcDecrypt(c, k, iv, CbcEncrypt(c, k, iv, bs)) == bs
    decreases |bs|
  {
    if bs == [] {
    } else {
      var x := XorBlock(iv, bs[0]);
      var e := c.enc(k, x);
      DecryptEncrypt(c, k, e, bs[1..]);
      XorInvolutive(bs[0], iv);
      assert CbcEncrypt(c, k, iv, bs)[1..] == CbcEncrypt(c, k, e, bs[1..]);
      assert c.dec(k, e) == x;
      assert [bs[0]] + bs[1..] == bs;
    }
  }

  /** Encryption inverts decryption, which is what the layered tunnel transforms rely on. */
  lemma {:induction false} EncryptDecrypt(c: BlockCipher, k: Key, iv: Block, bs: seq<Block>)
    ensures CbcEncrypt(c, k, iv, CbcDecrypt(c, k, iv, bs)) == bs
    decreases |bs|
  {
    if bs == [] {
    } else {
      var d := CbcDecrypt(c, k, iv, bs);
      EncryptDecrypt(c, k, bs[0], bs[1..]);
      XorInvolutive(c.dec(k, bs[0]), iv);
      XorInvolutive(iv, d[0]);
      assert XorBlock(iv, d[0]) == c.dec(k, bs[0]);
      assert c.enc(k, XorBlock(iv, d[0])) == bs[0];
      assert d[1..] == CbcDecrypt(c, k, bs[0], bs[1..]);
      assert [bs[0]] + bs[1..] == bs;
    }
  }

  /** Splitting the blocks over consecutive calls changes neither the output nor the final chaining value. */
  lemma {:induction false} EncryptSplit(c: BlockCipher, k: Key, iv: Block, a: seq<Block>, b: seq<Block>)
    ensures var ea := CbcEncrypt(c, k, iv, a);
            var eb := CbcEncrypt(c, k, Chain(iv, ea), b);
            && CbcEncrypt(c, k, iv, a + b) == ea + eb
            && Chain(iv, ea + eb) == Chain(Chain(iv, ea), eb)
    decreases |a|
  {
    var ea := CbcEncrypt(c, k, iv, a);
    ChainConcat(iv, ea, CbcEncrypt(c, k, Chain(iv, ea), b));
    if a == [] {
      assert a + b == b;
      assert [] + CbcEncrypt(c, k, iv, b) == CbcEncrypt(c, k, iv, b);
    } else {
      var e := c.enc(k, XorBlock(iv, a[0]));
      assert (a + b)[1..] == a[1..] + b;
      EncryptSplit(c, k, e, a[1..], b);
      var rest := CbcEncrypt(c, k, e, a[1..]);
      ChainConcat(iv, [e], rest);
      assert Chain(iv, [e]) == e;
      Append([e], rest, CbcEncrypt(c, k, Chain(iv, ea), b));
    }
  }

  lemma {:induction false} DecryptSplit(c: BlockCipher, k: Key, iv: Block, a: seq<Block>, b: seq<Block>)
    ensures CbcDecrypt(c, k, iv, a + b) == CbcDecrypt(c, k, iv, a) + CbcDecrypt(c, k, Chain(iv, a), b)
    ensures Chain(iv, a + b) == Chain(Chain(iv, a), b)
    decreases |a|
  {
    if a == [] {
      assert a + b == b;
      assert [] + CbcDecrypt(c, k, iv, b) == CbcDecrypt(c, k, iv, b);
    } else {
      assert (a + b)[1..] == a[1..] + b;
      DecryptSplit(c, k, a[0], a[1..], b);
    }
  }

  lemma {:induction false} EncryptAt(c: BlockCipher, k: Key, iv: Block, bs: seq<Block>, j: nat)
    requires j < |bs|
    ensures var e := CbcEncrypt(c, k, iv, bs); e[j] == c.enc(k, XorBlock(Chain(iv, e[..j]), bs[j]))
    decreases |bs|
  {
    if j > 0 {
      EncryptAt(c, k, c.enc(k, XorBlock(iv, bs[0])), bs[1..], j - 1);
    }
  }

  lemma {:induction false} DecryptAt(c: BlockCipher, k: Key, iv: Block, bs: seq<Block>, j: nat)
    requires j < |bs|
    ensures CbcDecrypt(c, k, iv, bs)[j] == XorBlock(c.dec(k, bs[j]), Chain(iv, bs[..j]))
    decreases |bs|
  {
    if j > 0 {
      DecryptAt(c, k, bs[0], bs[1..], j - 1);
    }
  }

  /** The input and output ranges of one call: separate arrays, the very same range, or ranges that do not meet. */
  predicate Placed(inb: array<Block>, inOff: nat, out: array<Block>, outOff: nat, n: nat) {
    && inOff + n <= inb.Length
    && outOff + n <= out.Length
    && (inb == out ==> inOff == outOff || inOff + n <= outOff || outOff + n <= inOff)
  }

  /** The blocks with some of them overwritten from position off on. */
  function Overwrite(s: seq<Block>, off: nat, bs: seq<Block>): (r: seq<Block>)
    requires off + |bs| <= |s|
    ensures |r| == |s|
  {
    s[..off] + bs + s[off + |bs|..]
  }

  lemma OverwriteParts(s: seq<Block>, off: nat, bs: seq<Block>)
    requires off + |bs| <= |s|
    ensures var r := Overwrite(s, off, bs);
            r[..off] == s[..off] && r[off..off + |bs|] == bs && r[off + |bs|..] == s[off + |bs|..]
  {
  }

  lemma OverwriteNext(s: seq<Block>, off: nat, bs: seq<Block>, b: Block)
    requires off + |bs| < |s|
    ensures Overwrite(s, off, bs)[off + |bs| := b] == Overwrite(s, off, bs + [b])
  {
  }

  lemma TakeNext(s: seq<Block>, i: nat)
    requires i < |s|
    ensures s[..i + 1] == s[..i] + [s[i]]
  {
  }

  /**
   A loop over the blocks has made the first i blocks of done and stopped with the
   chaining value at the end of chain.
   */
  predicate Reached(before: seq<Block>, off: nat, iv: Block, done: seq<Block>, chain: seq<Block>, i: nat,
                    now: seq<Block>, last: Block) {
    && i <= |done| == |chain|
    && off + |done| <= |before|
    && now == Overwrite(before, off, done[..i])
    && last == Chain(iv, chain[..i])
  }

  lemma ReachedNext(before: seq<Block>, off: nat, iv: Block, done: seq<Block>, chain: seq<Block>, i: nat,
                    now: seq<Block>, last: Block)
    requires i < |done| && Reached(before, off, iv, done, chain, i, now, last)
    ensures off + i < |now|
    ensures Reached(before, off, iv, done, chain, i + 1, now[off + i := done[i]], chain[i])
  {
    TakeNext(done, i);
    TakeNext(chain, i);
    OverwriteNext(before, off, done[..i], done[i]);
  }

  lemma ReachedStart(before: seq<Block>, off: nat, iv: Block, done: seq<Block>, chain: seq<Block>)
    requires |done| == |chain| && off + |done| <= |before|
    ensures Reached(before, off, iv, done, chain, 0, before, iv)
  {
  }

  lemma ReachedEnd(before: seq<Block>, off: nat, iv: Block, done: seq<Block>, chain: seq<Block>,
                   now: seq<Block>, last: Block)
    requires Reached(before, off, iv, done, chain, |done|, now, last)
    ensures |now| == |before| && now[off..off + |done|] == done && last == Chain(iv, chain)
    ensures now[..off] == before[..off] && now[off + |done|..] == before[off + |done|..]
  {
    assert done[..|done|] == done && chain[..|done|] == chain;
    OverwriteParts(before, off, done);
  }

  /** From the i-th on, the blocks to read are still the ones that were there. */
  ghost predicate Waiting(inb: array<Block>, inOff: nat, src: seq<Block>, i: nat)
    requires inOff + |src| <= inb.Length
    reads inb
  {
    forall j :: i <= j < |src| ==> inb[inOff + j] == src[j]
  }

  // ---------------------------------------------------------------- bytes and blocks

  lemma {:induction false} UnblockPrefix(bytes: seq<byte>, n: nat)
    requires n <= |bytes| / 16
    ensures Unblock(Blocks(bytes)[..n]) == bytes[..n * 16]
  {
    if n == 0 {
    } else {
      UnblockPrefix(bytes, n - 1);
      var bs := Blocks(bytes);
      assert bs[..n] == bs[..n - 1] + [bs[n - 1]];
      FlattenSnoc(bs[..n - 1], bs[n - 1]);
      assert bytes[..n * 16] == bytes[..(n - 1) * 16] + bytes[(n - 1) * 16..n * 16];
    }
  }

  lemma BlocksConcat(a: seq<byte>, b: seq<byte>)
    requires |a| % 16 == 0
    ensures Blocks(a + b) == Blocks(a) + Blocks(b)
  {
    var n := |a| / 16;
    forall i | 0 <= i < |Blocks(a + b)|
      ensures Blocks(a + b)[i] == (Blocks(a) + Blocks(b))[i]
    {
      if i < n {
        assert (a + b)[i * 16..i * 16 + 16] == a[i * 16..i * 16 + 16];
      } else {
        var j := i - n;
        assert i * 16 == |a| + j * 16;
        assert (a + b)[|a| + j * 16..|a| + j * 16 + 16] == b[j * 16..j * 16 + 16];
      }
    }
  }

  lemma {:induction false} BlocksOfUnblock(bs: seq<Block>)
    ensures |Unblock(bs)| == 16 * |bs| && Blocks(Unblock(bs)) == bs
  {
    if bs == [] {
    } else {
      BlocksOfUnblock(bs[1..]);
      BlocksConcat(bs[0], Unblock(bs[1..]));
      assert bs[0][0..16] == bs[0];
      assert Blocks(bs[0]) == [bs[0]];
    }
  }

  /** Whole blocks of bytes, encrypted and decrypted, come back. */
  lemma BytesCarried(c: BlockCipher, k: Key, iv: Block, plain: seq<byte>)
    requires |plain| % 16 == 0
    ensures var sent := Unblock(CbcEncrypt(c, k, iv, Blocks(plain)));
            |sent| == |plain| && Unblock(CbcDecrypt(c, k, iv, Blocks(sent))) == plain
  {
    BlocksOfUnblock(CbcEncrypt(c, k, iv, Blocks(plain)));
    DecryptEncrypt(c, k, iv, Blocks(plain));
    UnblockPrefix(plain, |plain| / 16);
    assert Blocks(plain)[..|plain| / 16] == Blocks(plain) && plain[..|plain| / 16 * 16] == plain;
  }

  class CBCEncryption {
    const cipher: BlockCipher
    var key: Key
    var lastBlock: Block

    constructor (cipher: BlockCipher)
      ensures this.cipher == cipher && lastBlock == ZERO_BLOCK
    {
      this.cipher := cipher;
      key := [];
      lastBlock := ZERO_BLOCK;
    }

    method SetKey(key: Key)
      modifies this`key
      ensures this.key == key
    {
      this.key := key;
    }

    method SetIV(iv: Block)
      modifies this`lastBlock
      ensures lastBlock == iv
    {
      lastBlock := iv;
    }

    method Encrypt(numBlocks: nat, inb: array<Block>, inOff: nat, out: array<Block>, outOff: nat)
      requires Placed(inb, inOff, out, outOff, numBlocks)
      modifies this`lastBlock, out
      ensures out[outOff..outOff + numBlocks]
           == CbcEncrypt(cipher, key, old(lastBlock), old(inb[inOff..inOff + numBlocks]))
      ensures lastBlock == Chain(old(lastBlock), out[outOff..outOff + numBlocks])
      ensures out[..outOff] == old(out[..outOff]) && out[outOff + numBlocks..] == old(out[outOff + numBlocks..])
    {
      ghost var src, iv0, before := inb[inOff..inOff + numBlocks], lastBlock, out[..];
      ghost var r := CbcEncrypt(cipher, key, iv0, src);
      EncryptBlocks(numBlocks, inb, inOff, out, outOff, before, iv0, src);
      ReachedEnd(before, outOff, iv0, r, r, out[..], lastBlock);
    }

    /** The block loop. */
    method EncryptBlocks(numBlocks: nat, inb: array<Block>, inOff: nat, out: array<Block>, outOff: nat,
                  ghost before: seq<Block>, ghost iv0: Block, ghost src: seq<Block>)
      requires Placed(inb, inOff, out, outOff, numBlocks)
      requires src == inb[inOff..inOff + numBlocks] && before == out[..] && iv0 == lastBlock
      modifies this`lastBlock, out
      ensures var r := CbcEncrypt(cipher, key, iv0, src);
              Reached(before, outOff, iv0, r, r, numBlocks, out[..], lastBlock)
    {
      ghost var r := CbcEncrypt(cipher, key, iv0, src);
      ReachedStart(before, outOff, iv0, r, r);
      var i := 0;
      while i < numBlocks
        invariant 0 <= i <= numBlocks
        invariant Reached(before, outOff, iv0, r, r, i, out[..], lastBlock)
        invariant Waiting(inb, inOff, src, i)
      {
        EncryptBlock(inb, inOff, out, outOff, i, before, iv0, src, r);
        i := i + 1;
      }
    }

    /** One pass of the loop. */
    method EncryptBlock(inb: array<Block>, inOff: nat, out: array<Block>, outOff: nat, i: nat,
                 ghost before: seq<Block>, ghost iv0: Block, ghost src: seq<Block>, ghost r: seq<Block>)
      requires i < |src| && Placed(inb, inOff, out, outOff, |src|) && |before| == out.Length
      requires Waiting(inb, inOff, src, i) && r == CbcEncrypt(cipher, key, iv0, src)
      requires Reached(before, outOff, iv0, r, r, i, out[..], lastBlock)
      modifies this`lastBlock, out
      ensures Reached(before, outOff, iv0, r, r, i + 1, out[..], lastBlock)
      ensures Waiting(inb, inOff, src, i + 1)
    {
      ghost var now, last := out[..], lastBlock;
      EncryptAt(cipher, key, iv0, src, i);
      lastBlock := XorBlock(lastBlock, inb[inOff + i]);
      lastBlock := cipher.enc(key, lastBlock);
      out[outOff + i] := lastBlock;
      ReachedNext(before, outOff, iv0, r, r, i, now, last);
      assert out[..] == now[outOff + i := r[i]];
    }
  }

  class CBCDecryption {
    const cipher: BlockCipher
    var key: Key
    var iv: Block

    constructor (cipher: BlockCipher)
      ensures this.cipher == cipher && iv == ZERO_BLOCK
    {
      this.cipher := cipher;
      key := [];
      iv := ZERO_BLOCK;
    }

    method SetKey(key: Key)
      modifies this`key
      ensures this.key == key
    {
      this.key := key;
    }

    method SetIV(iv: Block)
      modifies this`iv
      ensures this.iv == iv
    {
      this.iv := iv;
    }

    method Decrypt(numBlocks: nat, inb: array<Block>, inOff: nat, out: array<Block>, outOff: nat)
      requires Placed(inb, inOff, out, outOff, numBlocks)
      modifies this`iv, out
      ensures out[outOff..outOff + numBlocks]
           == CbcDecrypt(cipher, key, old(iv), old(inb[inOff..inOff + numBlocks]))
      ensures iv == Chain(old(iv), old(inb[inOff..inOff + numBlocks]))
      ensures out[..outOff] == old(out[..outOff]) && out[outOff + numBlocks..] == old(out[outOff + numBlocks..])
    {
      ghost var src, iv0, before := inb[inOff..inOff + numBlocks], iv, out[..];
      ghost var r := CbcDecrypt(cipher, key, iv0, src);
      DecryptBlocks(numBlocks, inb, inOff, out, outOff, before, iv0, src);
      ReachedEnd(before, outOff, iv0, r, src, out[..], iv);
    }

    /** The block loop. */
    method DecryptBlocks(numBlocks: nat, inb: array<Block>, inOff: nat, out: array<Block>, outOff: nat,
                  ghost before: seq<Block>, ghost iv0: Block, ghost src: seq<Block>)
      requires Placed(inb, inOff, out, outOff, numBlocks)
      requires src == inb[inOff..inOff + numBlocks] && before == out[..] && iv0 == iv
      modifies this`iv, out
      ensures var r := CbcDecrypt(cipher, key, iv0, src);
              Reached(before, outOff, iv0, r, src, numBlocks, out[..], iv)
    {
      ghost var r := CbcDecrypt(cipher, key, iv0, src);
      ReachedStart(before, outOff, iv0, r, src);
      var i := 0;
      while i < numBlocks
        invariant 0 <= i <= numBlocks
        invariant Reached(before, outOff, iv0, r, src, i, out[..], iv)
        invariant Waiting(inb, inOff, src, i)
      {
        DecryptBlock(inb, inOff, out, outOff, i, before, iv0, src, r);
        i := i + 1;
      }
    }

    /** One pass of the loop: the ciphertext block is kept before it may be overwritten. */
    method DecryptBlock(inb: array<Block>, inOff: nat, out: array<Block>, outOff: nat, i: nat,
                 ghost before: seq<Block>, ghost iv0: Block, ghost src: seq<Block>, ghost r: seq<Block>)
      requires i < |src| && Placed(inb, inOff, out, outOff, |src|) && |before| == out.Length
      requires Waiting(inb, inOff, src, i) && r == CbcDecrypt(cipher, key, iv0, src)
      requires Reached(before, outOff, iv0, r, src, i, out[..], iv)
      modifies this`iv, out
      ensures Reached(before, outOff, iv0, r, src, i + 1, out[..], iv)
      ensures Waiting(inb, inOff, src, i + 1)
    {
      ghost var now, last := out[..], iv;
      DecryptAt(cipher, key, iv0, src, i);
      var tmp := inb[inOff + i];
      out[outOff + i] := XorBlock(cipher.dec(key, inb[inOff + i]), iv);
      iv := tmp;
      ReachedNext(before, outOff, iv0, r, src, i, now, last);
      assert out[..] == now[outOff + i := r[i]];
    }
  }
}
