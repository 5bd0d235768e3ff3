/**
 The layered encryption of tunnel data: every hop adds a layer, the tunnel's
 owner strips or pre-strips all of them.  A message body is 64 blocks: one IV
 block and 63 blocks (1008 bytes) of data.
 */
module TunnelCrypto {
  import opened Bytes
  import opened Cbc

  const DATA_BLOCKS: nat := 63

  datatype LayerKeys = LayerKeys(layerKey: Key, ivKey: Key)

  type Body = m: seq<Block> | |m| == DATA_BLOCKS + 1 witness seq<Block>(DATA_BLOCKS + 1, _ => ZERO_BLOCK)

  function LayerEncrypt(c: BlockCipher, k: LayerKeys, m: Body): (r: Body) {
    var iv := c.enc(k.ivKey, m[0]);
    [c.enc(k.ivKey, iv)] + CbcEncrypt(c, k.layerKey, iv, m[1..])
  }

  function LayerDecrypt(c: BlockCipher, k: LayerKeys, m: Body): (r: Body) {
    var iv := c.dec(k.ivKey, m[0]);
    [c.dec(k.ivKey, iv)] + CbcDecrypt(c, k.layerKey, iv, m[1..])
  }

  /** One layer and its inverse, including the double pass over the IV, in both orders. */
  lemma LayersCancel(c: BlockCipher, k: LayerKeys, m: Body)
    ensures LayerDecrypt(c, k, LayerEncrypt(c, k, m)) == m
    ensures LayerEncrypt(c, k, LayerDecrypt(c, k, m)) == m
  {
    var e, d := LayerEncrypt(c, k, m), LayerDecrypt(c, k, m);
    var eiv, div := c.enc(k.ivKey, m[0]), c.dec(k.ivKey, m[0]);
    DecryptEncrypt(c, k.layerKey, eiv, m[1..]);
    EncryptDecrypt(c, k.layerKey, div, m[1..]);
    assert e[1..] == CbcEncrypt(c, k.layerKey, eiv, m[1..]);
    assert d[1..] == CbcDecrypt(c, k.layerKey, div, m[1..]);
    assert c.dec(k.ivKey, e[0]) == eiv && c.enc(k.ivKey, d[0]) == div;
    assert [m[0]] + m[1..] == m;
  }

  /** Block by block: the IV goes through the cipher twice, and its first form starts the chain of the data. */
  ghost predicate Layered(c: BlockCipher, k: LayerKeys, m: Body, r: Body) {
    && r[0] == c.enc(k.ivKey, c.enc(k.ivKey, m[0]))
    && forall j :: 1 <= j <= DATA_BLOCKS ==>
         r[j] == c.enc(k.layerKey, XorBlock(if j == 1 then c.enc(k.ivKey, m[0]) else r[j - 1], m[j]))
  }

  /** The inverse: the chain of the data is that of the incoming blocks. */
  ghost predicate Peeled(c: BlockCipher, k: LayerKeys, m: Body, r: Body) {
    && r[0] == c.dec(k.ivKey, c.dec(k.ivKey, m[0]))
    && forall j :: 1 <= j <= DATA_BLOCKS ==>
         r[j] == XorBlock(c.dec(k.layerKey, m[j]), if j == 1 then c.dec(k.ivKey, m[0]) else m[j - 1])
  }

  lemma LayerEncryptBlocks(c: BlockCipher, k: LayerKeys, m: Body)
    ensures Layered(c, k, m, LayerEncrypt(c, k, m))
  {
    var r, iv := LayerEncrypt(c, k, m), c.enc(k.ivKey, m[0]);
    var e := CbcEncrypt(c, k.layerKey, iv, m[1..]);
    forall j | 1 <= j <= DATA_BLOCKS
      ensures r[j] == c.enc(k.layerKey, XorBlock(if j == 1 then iv else r[j - 1], m[j]))
    {
      EncryptAt(c, k.layerKey, iv, m[1..], j - 1);
      assert r[j] == e[j - 1] && m[1..][j - 1] == m[j] && (j > 1 ==> r[j - 1] == e[j - 2]);
    }
  }

  lemma LayerDecryptBlocks(c: BlockCipher, k: LayerKeys, m: Body)
    ensures Peeled(c, k, m, LayerDecrypt(c, k, m))
  {
    var r, iv := LayerDecrypt(c, k, m), c.dec(k.ivKey, m[0]);
    var d := CbcDecrypt(c, k.layerKey, iv, m[1..]);
    forall j | 1 <= j <= DATA_BLOCKS
      ensures r[j] == XorBlock(c.dec(k.layerKey, m[j]), if j == 1 then iv else m[j - 1])
    {
      DecryptAt(c, k.layerKey, iv, m[1..], j - 1);
      assert r[j] == d[j - 1] && m[1..][j - 1] == m[j] && (j > 1 ==> m[1..][j - 2] == m[j - 1]);
    }
  }

  /** TunnelEncryption::Encrypt on the two buffers' payloads. */
  method Encrypt(c: BlockCipher, k: LayerKeys, inb: array<Block>, out: array<Block>)
    requires inb.Length == DATA_BLOCKS + 1 && out.Length == DATA_BLOCKS + 1
    modifies out
    ensures out[..] == LayerEncrypt(c, k, old(inb[..]))
    ensures Layered(c, k, old(inb[..]), out[..])
  {
    var layer := new CBCEncryption(c);
    layer.SetKey(k.layerKey);
    ghost var src := inb[..];
    out[0] := c.enc(k.ivKey, inb[0]);
    layer.SetIV(out[0]);
    assert inb[1..1 + DATA_BLOCKS] == src[1..];
    layer.Encrypt(DATA_BLOCKS, inb, 1, out, 1);
    assert out[..1] == [c.enc(k.ivKey, src[0])];
    ghost var data := out[1..1 + DATA_BLOCKS];
    out[0] := c.enc(k.ivKey, out[0]);
    assert out[..] == [out[0]] + data;
    LayerEncryptBlocks(c, k, src);
  }

  /** TunnelDecryption::Decrypt on the two buffers' payloads. */
  method Decrypt(c: BlockCipher, k: LayerKeys, inb: array<Block>, out: array<Block>)
    requires inb.Length == DATA_BLOCKS + 1 && out.Length == DATA_BLOCKS + 1
    modifies out
    ensures out[..] == LayerDecrypt(c, k, old(inb[..]))
    ensures Peeled(c, k, old(inb[..]), out[..])
  {
    var layer := new CBCDecryption(c);
    layer.SetKey(k.layerKey);
    ghost var src := inb[..];
    out[0] := c.dec(k.ivKey, inb[0]);
    layer.SetIV(out[0]);
    assert inb[1..1 + DATA_BLOCKS] == src[1..];
    layer.Decrypt(DATA_BLOCKS, inb, 1, out, 1);
    assert out[..1] == [c.dec(k.ivKey, src[0])];
    ghost var data := out[1..1 + DATA_BLOCKS];
    out[0] := c.dec(k.ivKey, out[0]);
    assert out[..] == [out[0]] + data;
    LayerDecryptBlocks(c, k, src);
  }

  /** What Tunnel::EncryptTunnelMsg computes: every hop's layer taken off, the last hop's first. */
  function Peel(c: BlockCipher, hops: seq<LayerKeys>, m: Body): (r: Body)
    decreases |hops|
  {
    if hops == [] then m else LayerDecrypt(c, hops[0], Peel(c, hops[1..], m))
  }

  /** A message after it passed all hops in tunnel order. */
  function Transit(c: BlockCipher, hops: seq<LayerKeys>, m: Body): (r: Body)
    decreases |hops|
  {
    if hops == [] then m else Transit(c, hops[1..], LayerEncrypt(c, hops[0], m))
  }

  /** The message on its way: each hop, in tunnel order, makes the next form of it. */
  ghost predicate PassesHops(c: BlockCipher, hops: seq<LayerKeys>, ms: seq<Body>) {
    |ms| == |hops| + 1 && forall i :: 0 <= i < |hops| ==> Layered(c, hops[i], ms[i], ms[i + 1])
  }

  /** The same for the layers being taken off, from the last hop back to the first. */
  ghost predicate PeelsHops(c: BlockCipher, hops: seq<LayerKeys>, ms: seq<Body>) {
    |ms| == |hops| + 1 && forall i :: 0 <= i < |hops| ==> Peeled(c, hops[i], ms[i + 1], ms[i])
  }

  lemma {:induction false} TransitPasses(c: BlockCipher, hops: seq<LayerKeys>, m: Body) returns (ms: seq<Body>)
    ensures PassesHops(c, hops, ms) && ms[0] == m && ms[|hops|] == Transit(c, hops, m)
    decreases |hops|
  {
    if hops == [] {
      ms := [m];
    } else {
      var m1 := LayerEncrypt(c, hops[0], m);
      LayerEncryptBlocks(c, hops[0], m);
      var rest := TransitPasses(c, hops[1..], m1);
      ms := [m] + rest;
      forall i | 0 <= i < |hops| ensures Layered(c, hops[i], ms[i], ms[i + 1]) {
        if i > 0 {
          assert Layered(c, hops[1..][i - 1], rest[i - 1], rest[i]);
        }
      }
    }
  }

  lemma {:induction false} PeelPasses(c: BlockCipher, hops: seq<LayerKeys>, m: Body) returns (ms: seq<Body>)
    ensures PeelsHops(c, hops, ms) && ms[|hops|] == m && ms[0] == Peel(c, hops, m)
    decreases |hops|
  {
    if hops == [] {
      ms := [m];
    } else {
      var rest := PeelPasses(c, hops[1..], m);
      LayerDecryptBlocks(c, hops[0], rest[0]);
      ms := [Peel(c, hops, m)] + rest;
      forall i | 0 <= i < |hops| ensures Peeled(c, hops[i], ms[i + 1], ms[i]) {
        if i > 0 {
          assert Peeled(c, hops[1..][i - 1], rest[i], rest[i - 1]);
        }
      }
    }
  }

  /** Outbound: the hops' encryptions undo what the creator did, for any hop list. */
  lemma {:induction false} OutboundOnion(c: BlockCipher, hops: seq<LayerKeys>, m: Body)
    ensures Transit(c, hops, Peel(c, hops, m)) == m
    decreases |hops|
  {
    if hops == [] {
    } else {
      LayersCancel(c, hops[0], Peel(c, hops[1..], m));
      OutboundOnion(c, hops[1..], m);
    }
  }

  /** Inbound: the creator undoes what the hops did, for any hop list. */
  lemma {:induction false} InboundOnion(c: BlockCipher, hops: seq<LayerKeys>, m: Body)
    ensures Peel(c, hops, Transit(c, hops, m)) == m
    decreases |hops|
  {
    if hops == [] {
    } else {
      InboundOnion(c, hops[1..], LayerEncrypt(c, hops[0], m));
      LayersCancel(c, hops[0], m);
    }
  }

  lemma {:induction false} PeelSplit(c: BlockCipher, a: seq<LayerKeys>, b: seq<LayerKeys>, m: Body)
    ensures Peel(c, a + b, m) == Peel(c, a, Peel(c, b, m))
    decreases |a|
  {
    if a == [] {
      assert a + b == b;
    } else {
      assert (a + b)[1..] == a[1..] + b;
      PeelSplit(c, a[1..], b, m);
    }
  }

  /**
   Tunnel::EncryptTunnelMsg: the first pass reads the incoming message, all
   later ones work in place on the outgoing one (which may be the same buffer).
   Without hops nothing is written.
   */
  method EncryptTunnelMsg(c: BlockCipher, hops: seq<LayerKeys>, inb: array<Block>, out: array<Block>)
    requires inb.Length == DATA_BLOCKS + 1 && out.Length == DATA_BLOCKS + 1
    modifies out
    ensures out[..] == if hops == [] then old(out[..]) else Peel(c, hops, old(inb[..]))
    ensures hops != [] ==>
              exists ms: seq<Body> :: PeelsHops(c, hops, ms) && ms[|hops|] == old(inb[..]) && ms[0] == out[..]
  {
    ghost var src := inb[..];
    ghost var ms := PeelPasses(c, hops, src);
    var inPayload := inb;
    var hop := |hops|;
    while hop > 0
      invariant 0 <= hop <= |hops|
      invariant inPayload[..] == Peel(c, hops[hop..], src)
      invariant inPayload == if hop == |hops| then inb else out
      invariant hop == |hops| ==> out[..] == old(out[..])
    {
      PeelSplit(c, [hops[hop - 1]], hops[hop..], src);
      assert [hops[hop - 1]] + hops[hop..] == hops[hop - 1..];
      Decrypt(c, hops[hop - 1], inPayload, out);
      hop := hop - 1;
      inPayload := out;
    }
    assert hops[0..] == hops;
  }
}
