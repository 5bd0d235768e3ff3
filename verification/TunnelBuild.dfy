/**
 Building a tunnel: the creator pre-decrypts the request records so that every
 hop finds its own in the clear, and undoes all hops' reply encryption on the
 way back.  Records are 33 blocks (528 bytes) in one buffer.
 */
module TunnelBuild {
  import opened Bytes
  import opened Cbc

  const RECORD_BLOCKS: nat := 33
  const STANDARD_NUM_RECORDS: nat := 5
  const REJECT_BANDWIDTH: byte := 30

  type Record = r: seq<Block> | |r| == RECORD_BLOCKS witness seq<Block>(RECORD_BLOCKS, _ => ZERO_BLOCK)

  datatype Hop = Hop(ident: Block, replyKey: Key, replyIV: Block, recordIndex: nat)

  datatype TunnelState = Pending | BuildReplyReceived | BuildFailed | Established

  function Enc(c: BlockCipher, h: Hop, r: Record): Record { CbcEncrypt(c, h.replyKey, h.replyIV, r) }

  function Dec(c: BlockCipher, h: Hop, r: Record): Record { CbcDecrypt(c, h.replyKey, h.replyIV, r) }

  /** The records held by the first 33 * num blocks of a buffer. */
  function Records(mem: seq<Block>, num: nat): (rs: seq<Record>)
    requires |mem| >= num * RECORD_BLOCKS
    ensures |rs| == num
  {
    seq(num, i requires 0 <= i < num => mem[i * RECORD_BLOCKS..(i + 1) * RECORD_BLOCKS])
  }

  ghost predicate IndicesValid(hops: seq<Hop>, num: nat) {
    && (forall i :: 0 <= i < |hops| ==> hops[i].recordIndex < num)
    && (forall i, j :: 0 <= i < j < |hops| ==> hops[i].recordIndex != hops[j].recordIndex)
  }

  predicate InRange(hops: seq<Hop>, num: nat) {
    forall i :: 0 <= i < |hops| ==> hops[i].recordIndex < num
  }

  // ---------------------------------------------------------------- buffers

  /** Overwriting one record of the buffer leaves the other records as they were. */
  lemma RecordWritten(before: seq<Block>, after: seq<Block>, num: nat, i: nat, r: Record)
    requires i < num && |before| == |after| >= num * RECORD_BLOCKS
    requires after[0..i * RECORD_BLOCKS] == before[0..i * RECORD_BLOCKS]
    requires after[(i + 1) * RECORD_BLOCKS..|after|] == before[(i + 1) * RECORD_BLOCKS..|after|]
    requires after[i * RECORD_BLOCKS..(i + 1) * RECORD_BLOCKS] == r
    ensures Records(after, num) == Records(before, num)[i := r]
  {
    var lo, hi := i * RECORD_BLOCKS, (i + 1) * RECORD_BLOCKS;
    forall j | 0 <= j < num && j != i
      ensures Records(after, num)[j] == Records(before, num)[j]
    {
      var a, b := j * RECORD_BLOCKS, (j + 1) * RECORD_BLOCKS;
      if j < i {
        SameSlice(after, before, 0, lo, a, b);
      } else {
        SameSlice(after, before, hi, |after|, a, b);
      }
    }
  }

  method DecryptRecord(dec: CBCDecryption, records: array<Block>, num: nat, i: nat)
    requires records.Length >= num * RECORD_BLOCKS && i < num
    modifies dec`iv, records
    ensures Records(records[..], num)
         == old(Records(records[..], num)[i := CbcDecrypt(dec.cipher, dec.key, dec.iv, Records(records[..], num)[i])])
  {
    ghost var before := records[..];
    var off := i * RECORD_BLOCKS;
    dec.Decrypt(RECORD_BLOCKS, records, off, records, off);
    assert records[..][..off] == before[..off];
    assert records[..][off + RECORD_BLOCKS..] == before[off + RECORD_BLOCKS..];
    assert records[..][off..off + RECORD_BLOCKS] == records[off..off + RECORD_BLOCKS];
    RecordWritten(before, records[..], num, i, records[off..off + RECORD_BLOCKS]);
  }

  /** One pass of the reply loop: set key and IV, then encrypt record i in place. */
  method EncryptRecord(enc: CBCEncryption, key: Key, iv: Block, records: array<Block>, num: nat, i: nat)
    requires records.Length >= num * RECORD_BLOCKS && i < num
    modifies enc, records
    ensures Records(records[..], num)
         == old(Records(records[..], num)[i := CbcEncrypt(enc.cipher, key, iv, Records(records[..], num)[i])])
  {
    ghost var before := records[..];
    var off := i * RECORD_BLOCKS;
    enc.SetKey(key);
    enc.SetIV(iv);
    enc.Encrypt(RECORD_BLOCKS, records, off, records, off);
    assert records[..][..off] == before[..off];
    assert records[..][off + RECORD_BLOCKS..] == before[off + RECORD_BLOCKS..];
    assert records[..][off..off + RECORD_BLOCKS] == records[off..off + RECORD_BLOCKS];
    RecordWritten(before, records[..], num, i, records[off..off + RECORD_BLOCKS]);
  }

  // ---------------------------------------------------------------- creator, request

  /** One hop's key taken off the records of the hops after it. */
  function DecryptFor(c: BlockCipher, h: Hop, rest: seq<Hop>, rs: seq<Record>): (r: seq<Record>)
    requires InRange(rest, |rs|)
    ensures |r| == |rs|
    decreases |rest|
  {
    if rest == [] then rs else
      var i := rest[0].recordIndex;
      DecryptFor(c, h, rest[1..], rs[i := Dec(c, h, rs[i])])
  }

  /** What Tunnel::Build's decrypt loops compute: the second to last hop's key first, the first hop's key last. */
  function PreDecrypt(c: BlockCipher, hops: seq<Hop>, rs: seq<Record>): (r: seq<Record>)
    requires InRange(hops, |rs|)
    ensures |r| == |rs|
    decreases |hops|
  {
    if hops == [] then rs else DecryptFor(c, hops[0], hops[1..], PreDecrypt(c, hops[1..], rs))
  }

  lemma {:induction false} DecryptForSnoc(c: BlockCipher, h: Hop, rest: seq<Hop>, last: Hop, rs: seq<Record>)
    requires InRange(rest + [last], |rs|)
    ensures InRange(rest, |rs|)
    ensures last.recordIndex < |rs|
    ensures var d := DecryptFor(c, h, rest, rs);
            DecryptFor(c, h, rest + [last], rs) == d[last.recordIndex := Dec(c, h, d[last.recordIndex])]
    decreases |rest|
  {
    assert (rest + [last])[|rest|] == last;
    forall i | 0 <= i < |rest|
      ensures rest[i].recordIndex < |rs|
    {
      assert (rest + [last])[i] == rest[i];
    }
    if rest == [] {
      assert rest + [last] == [last];
      assert [last][1..] == [];
    } else {
      var i := rest[0].recordIndex;
      assert (rest + [last])[1..] == rest[1..] + [last];
      assert InRange(rest[1..] + [last], |rs|) by {
        forall j | 0 <= j < |rest[1..] + [last]|
          ensures (rest[1..] + [last])[j].recordIndex < |rs|
        {
          assert (rest[1..] + [last])[j] == (rest + [last])[j + 1];
        }
      }
      DecryptForSnoc(c, h, rest[1..], last, rs[i := Dec(c, h, rs[i])]);
    }
  }

  /** The inner decrypt loop of Tunnel::Build: the key of one hop taken off the records of the hops after it. */
  method DecryptAfter(decryption: CBCDecryption, hops: seq<Hop>, hop: nat, records: array<Block>, num: nat)
    requires records.Length >= num * RECORD_BLOCKS
    requires hop < |hops| && InRange(hops[hop + 1..], num) && decryption.key == hops[hop].replyKey
    modifies decryption`iv, records
    ensures Records(records[..], num)
         == DecryptFor(decryption.cipher, hops[hop], hops[hop + 1..], old(Records(records[..], num)))
  {
    ghost var start, rest := Records(records[..], num), hops[hop + 1..];
    var hop1 := hop + 1;
    ghost var done := 0;
    assert rest[..0] == [];
    while hop1 < |hops|
      invariant done == hop1 - hop - 1 <= |rest| && InRange(rest[..done], num)
      invariant Records(records[..], num) == DecryptFor(decryption.cipher, hops[hop], rest[..done], start)
    {
      assert rest[..done + 1] == rest[..done] + [hops[hop1]];
      DecryptForSnoc(decryption.cipher, hops[hop], rest[..done], hops[hop1], start);
      decryption.SetIV(hops[hop].replyIV);
      DecryptRecord(decryption, records, num, hops[hop1].recordIndex);
      hop1, done := hop1 + 1, done + 1;
    }
    assert rest[..done] == rest;
  }

  /** The decrypt loops of Tunnel::Build, on the message buffer. */
  method DecryptRealRecords(c: BlockCipher, hops: seq<Hop>, records: array<Block>, num: nat)
    requires records.Length >= num * RECORD_BLOCKS
    requires hops != [] && InRange(hops, num)
    modifies records
    ensures Records(records[..], num) == PreDecrypt(c, hops, old(Records(records[..], num)))
  {
    ghost var rs := Records(records[..], num);
    var decryption := new CBCDecryption(c);
    var hop := |hops| - 1;
    assert hops[hop..] == [hops[hop]];
    assert DecryptFor(c, hops[hop], [], rs) == rs && PreDecrypt(c, [], rs) == rs;
    while hop > 0
      invariant 0 <= hop < |hops| && InRange(hops[hop..], num)
      invariant Records(records[..], num) == PreDecrypt(c, hops[hop..], rs)
      invariant decryption.cipher == c && fresh(decryption)
    {
      hop := hop - 1;
      decryption.SetKey(hops[hop].replyKey);
      assert hops[hop..][1..] == hops[hop + 1..];
      DecryptAfter(decryption, hops, hop, records, num);
    }
    assert hops[0..] == hops;
  }

  function NumRecords(numHops: nat): nat {
    if numHops <= STANDARD_NUM_RECORDS then STANDARD_NUM_RECORDS else numHops
  }

  ghost predicate Shuffle(indices: seq<nat>, num: nat) {
    && |indices| == num
    && (forall i :: 0 <= i < num ==> indices[i] < num)
    && (forall i, j :: 0 <= i < j < num ==> indices[i] != indices[j])
  }

  /** The records in shuffled order, and the hops with their places. */
  method LayOut(config: seq<Hop>, indices: seq<nat>, all: seq<Record>, records: array<Block>) returns (hops: seq<Hop>)
    requires Shuffle(indices, |all|) && |config| <= |all| && records.Length == |all| * RECORD_BLOCKS
    modifies records
    ensures |hops| == |config|
    ensures forall i :: 0 <= i < |hops| ==> hops[i] == config[i].(recordIndex := indices[i])
    ensures forall i :: 0 <= i < |all| ==> Records(records[..], |all|)[indices[i]] == all[i]
  {
    hops := [];
    var i := 0;
    while i < |all|
      invariant 0 <= i <= |all|
      invariant |hops| == if i <= |config| then i else |config|
      invariant forall j :: 0 <= j < |hops| ==> hops[j] == config[j].(recordIndex := indices[j])
      invariant forall j :: 0 <= j < i ==> Records(records[..], |all|)[indices[j]] == all[j]
    {
      if i < |config| {
        hops := hops + [config[i].(recordIndex := indices[i])];
      }
      WriteRecord(records, |all|, indices[i], all[i]);
      i := i + 1;
    }
  }

  lemma HopsPlaced(config: seq<Hop>, indices: seq<nat>, hops: seq<Hop>, num: nat)
    requires Shuffle(indices, num) && |hops| == |config| <= num
    requires forall i :: 0 <= i < |hops| ==> hops[i] == config[i].(recordIndex := indices[i])
    ensures IndicesValid(hops, num)
  {
    forall i | 0 <= i < |hops| ensures hops[i].recordIndex == indices[i] {
    }
  }

  /**
   Tunnel::Build up to sending: created[i] is what CreateBuildRequestRecord produced for hop i, fakes are the random
   fill, indices is the shuffle.  The records laid out before pre-decryption are the ghost result orig.
   */
  method Build(c: BlockCipher, config: seq<Hop>, indices: seq<nat>, created: seq<Record>, fakes: seq<Record>)
    returns (records: array<Block>, hops: seq<Hop>, ghost orig: seq<Record>)
    requires config != [] && Shuffle(indices, NumRecords(|config|))
    requires |created| == |config| && |created| + |fakes| == NumRecords(|config|)
    ensures records.Length == NumRecords(|config|) * RECORD_BLOCKS && |orig| == NumRecords(|config|)
    ensures |hops| == |config| && IndicesValid(hops, |orig|)
    ensures forall i :: 0 <= i < |hops| ==> hops[i] == config[i].(recordIndex := indices[i])
    ensures forall i :: 0 <= i < |hops| ==> orig[hops[i].recordIndex] == created[i]
    ensures forall i :: |config| <= i < |orig| ==> orig[indices[i]] == fakes[i - |config|]
    ensures Records(records[..], |orig|) == PreDecrypt(c, hops, orig)
  {
    var num := NumRecords(|config|);
    records := new Block[num * RECORD_BLOCKS](_ => ZERO_BLOCK);
    hops := LayOut(config, indices, created + fakes, records);
    orig := Records(records[..], num);
    HopsPlaced(config, indices, hops, num);
    forall j | 0 <= j < |hops|
      ensures orig[hops[j].recordIndex] == created[j]
    {
      assert orig[indices[j]] == (created + fakes)[j];
    }
    DecryptRealRecords(c, hops, records, num);
  }

  /** The first k hops' layers on the record of hop k, outermost first. */
  function Wrap(c: BlockCipher, hops: seq<Hop>, k: nat, r: Record): Record
    requires k <= |hops|
  {
    if k == 0 then r else Dec(c, hops[0], Wrap(c, hops[1..], k - 1, r))
  }

  /** DecryptFor touches exactly the records of the hops it is given, once each. */
  lemma {:induction false} DecryptForAt(c: BlockCipher, h: Hop, rest: seq<Hop>, rs: seq<Record>, i: nat)
    requires IndicesValid(rest, |rs|) && i < |rs|
    ensures (exists j :: 0 <= j < |rest| && rest[j].recordIndex == i)
        ==> DecryptFor(c, h, rest, rs)[i] == Dec(c, h, rs[i])
    ensures (forall j :: 0 <= j < |rest| ==> rest[j].recordIndex != i) ==> DecryptFor(c, h, rest, rs)[i] == rs[i]
    decreases |rest|
  {
    if rest == [] {
    } else {
      var i0 := rest[0].recordIndex;
      DecryptForAt(c, h, rest[1..], rs[i0 := Dec(c, h, rs[i0])], i);
      if j :| 0 <= j < |rest| && rest[j].recordIndex == i {
        if j > 0 {
          assert rest[1..][j - 1] == rest[j];
        }
      }
    }
  }

  lemma {:induction false} PreDecryptAt(c: BlockCipher, hops: seq<Hop>, rs: seq<Record>, k: nat)
    requires IndicesValid(hops, |rs|) && k < |hops|
    ensures PreDecrypt(c, hops, rs)[hops[k].recordIndex] == Wrap(c, hops, k, rs[hops[k].recordIndex])
    decreases |hops|
  {
    var i, rest := hops[k].recordIndex, hops[1..];
    var inner := PreDecrypt(c, rest, rs);
    DecryptForAt(c, hops[0], rest, inner, i);
    if k == 0 {
      PreDecryptElsewhere(c, rest, rs, i);
    } else {
      PreDecryptAt(c, rest, rs, k - 1);
      assert rest[k - 1] == hops[k];
    }
  }

  lemma {:induction false} PreDecryptElsewhere(c: BlockCipher, hops: seq<Hop>, rs: seq<Record>, i: nat)
    requires IndicesValid(hops, |rs|) && i < |rs|
    requires forall j :: 0 <= j < |hops| ==> hops[j].recordIndex != i
    ensures PreDecrypt(c, hops, rs)[i] == rs[i]
    decreases |hops|
  {
    if hops == [] {
    } else {
      PreDecryptElsewhere(c, hops[1..], rs, i);
      DecryptForAt(c, hops[0], hops[1..], PreDecrypt(c, hops[1..], rs), i);
    }
  }

  // ---------------------------------------------------------------- one hop

  /** What a router sees of the others: how it opens its record, and SHA-256. */
  datatype Router = Router(open: Record -> (Key, Block), sha: seq<byte> -> (Block, Block))

  function SetRet(r: Record, ret: byte): Record {
    r[RECORD_BLOCKS - 1 := r[RECORD_BLOCKS - 1][15 := ret]]
  }

  function RetCode(r: Record): byte { r[RECORD_BLOCKS - 1][15] }

  /** a replies to r: the code, the digest of everything behind the digest, and otherwise what is in r. */
  ghost predicate IsReply(w: Router, r: Record, ret: byte, a: Record) {
    var last := RECORD_BLOCKS - 1;
    && RetCode(a) == ret && (a[0], a[1]) == w.sha(Flatten(a[2..]))
    && a[2..last] == r[2..last] && a[last][..15] == r[last][..15]
  }

  /** The reply written over a request record: return code in the last byte, digest of bytes 32..528 in the first 32. */
  function Reply(w: Router, r: Record, ret: byte): (a: Record)
    ensures IsReply(w, r, ret, a)
  {
    var s := SetRet(r, ret);
    var (h0, h1) := w.sha(Flatten(s[2..]));
    s[0 := h0][1 := h1]
  }

  function RetFor(accepts: bool): byte { if accepts then 0 else REJECT_BANDWIDTH }

  function EncryptAll(c: BlockCipher, k: Key, iv: Block, rs: seq<Record>): (r: seq<Record>)
    ensures |r| == |rs|
    ensures forall i :: 0 <= i < |rs| ==> r[i] == CbcEncrypt(c, k, iv, rs[i])
  {
    seq<Record>(|rs|, i requires 0 <= i < |rs| => CbcEncrypt(c, k, iv, rs[i]))
  }

  /** The position of the first record addressed to ident, or |rs|. */
  function FirstMatch(rs: seq<Record>, ident: Block): (i: nat)
    ensures i <= |rs|
    ensures i < |rs| ==> rs[i][0] == ident
    ensures forall j :: 0 <= j < i ==> rs[j][0] != ident
  {
    if rs == [] then 0 else if rs[0][0] == ident then 0 else 1 + FirstMatch(rs[1..], ident)
  }

  /** The records after a router handled a build message. */
  function HopStep(c: BlockCipher, w: Router, ident: Block, accepts: bool, rs: seq<Record>): (r: seq<Record>)
    ensures |r| == |rs|
  {
    var i := FirstMatch(rs, ident);
    if i == |rs| then rs else
      var (k, iv) := w.open(rs[i]);
      EncryptAll(c, k, iv, rs[i := Reply(w, rs[i], RetFor(accepts))])
  }

  lemma {:induction false} FirstMatchUnique(rs: seq<Record>, ident: Block, i: nat)
    requires i <= |rs| && (i < |rs| ==> rs[i][0] == ident)
    requires forall j :: 0 <= j < i ==> rs[j][0] != ident
    ensures FirstMatch(rs, ident) == i
  {
    if rs == [] || rs[0][0] == ident {
    } else {
      FirstMatchUnique(rs[1..], ident, i - 1);
    }
  }

  /** The first record addressed to ident. */
  ghost predicate IsFirst(rs: seq<Record>, ident: Block, i: nat) {
    i < |rs| && rs[i][0] == ident && forall j :: 0 <= j < i ==> rs[j][0] != ident
  }

  /**
   A router that finds no record of its own changes nothing.  Otherwise all records are encrypted under what its first one
   opens to, and that one is a reply by then.
   */
  ghost predicate Answered(c: BlockCipher, w: Router, ident: Block, accepts: bool, rs: seq<Record>, rs': seq<Record>) {
    && |rs'| == |rs|
    && ((forall i :: 0 <= i < |rs| ==> rs[i][0] != ident) ==> rs' == rs)
    && forall i: nat :: IsFirst(rs, ident, i) ==> AnsweredAt(c, w, accepts, rs, i, rs')
  }

  ghost predicate AnsweredAt(c: BlockCipher, w: Router, accepts: bool, rs: seq<Record>, i: nat, rs': seq<Record>)
    requires i < |rs| == |rs'|
  {
    var (k, iv) := w.open(rs[i]);
    && (forall j :: 0 <= j < |rs| && j != i ==> rs'[j] == CbcEncrypt(c, k, iv, rs[j]))
    && exists a: Record :: IsReply(w, rs[i], if accepts then 0 else 30, a) && rs'[i] == CbcEncrypt(c, k, iv, a)
  }

  lemma HopAnswers(c: BlockCipher, w: Router, ident: Block, accepts: bool, rs: seq<Record>)
    ensures Answered(c, w, ident, accepts, rs, HopStep(c, w, ident, accepts, rs))
  {
    var rs' := HopStep(c, w, ident, accepts, rs);
    forall i: nat | IsFirst(rs, ident, i) ensures AnsweredAt(c, w, accepts, rs, i, rs') {
      FirstMatchUnique(rs, ident, i);
      var (k, iv) := w.open(rs[i]);
      var a := Reply(w, rs[i], RetFor(accepts));
      assert rs' == EncryptAll(c, k, iv, rs[i := a]);
      assert IsReply(w, rs[i], if accepts then 0 else 30, a) && rs'[i] == CbcEncrypt(c, k, iv, a);
    }
  }

  method WriteRecord(records: array<Block>, num: nat, i: nat, r: Record)
    requires records.Length >= num * RECORD_BLOCKS && i < num
    modifies records
    ensures Records(records[..], num) == old(Records(records[..], num))[i := r]
  {
    ghost var before := records[..];
    var off := i * RECORD_BLOCKS;
    forall j | 0 <= j < RECORD_BLOCKS {
      records[off + j] := r[j];
    }
    assert records[..][off..off + RECORD_BLOCKS] == r;
    RecordWritten(before, records[..], num, i, r);
  }

  method EncryptRecords(c: BlockCipher, key: Key, iv: Block, num: nat, records: array<Block>)
    requires records.Length >= num * RECORD_BLOCKS
    modifies records
    ensures Records(records[..], num) == EncryptAll(c, key, iv, old(Records(records[..], num)))
  {
    var encryption := new CBCEncryption(c);
    ghost var start := Records(records[..], num);
    var j := 0;
    while j < num
      invariant 0 <= j <= num
      invariant Records(records[..], num) == EncryptFirst(c, key, iv, start, j)
      invariant encryption.cipher == c && fresh(encryption)
    {
      EncryptRecord(encryption, key, iv, records, num, j);
      j := j + 1;
    }
    EncryptFirstAll(c, key, iv, start);
  }

  /** The first j records encrypted one after the other. */
  function EncryptFirst(c: BlockCipher, key: Key, iv: Block, rs: seq<Record>, j: nat): (r: seq<Record>)
    requires j <= |rs|
    ensures |r| == |rs|
  {
    if j == 0 then rs else
      var p := EncryptFirst(c, key, iv, rs, j - 1);
      p[j - 1 := CbcEncrypt(c, key, iv, p[j - 1])]
  }

  lemma {:induction false} EncryptFirstAt(c: BlockCipher, key: Key, iv: Block, rs: seq<Record>, j: nat, i: nat)
    requires j <= |rs| && i < |rs|
    ensures EncryptFirst(c, key, iv, rs, j)[i] == if i < j then CbcEncrypt(c, key, iv, rs[i]) else rs[i]
  {
    if j == 0 {
    } else {
      EncryptFirstAt(c, key, iv, rs, j - 1, i);
    }
  }

  lemma EncryptFirstAll(c: BlockCipher, key: Key, iv: Block, rs: seq<Record>)
    ensures EncryptFirst(c, key, iv, rs, |rs|) == EncryptAll(c, key, iv, rs)
  {
    forall i | 0 <= i < |rs|
      ensures EncryptFirst(c, key, iv, rs, |rs|)[i] == CbcEncrypt(c, key, iv, rs[i])
    {
      EncryptFirstAt(c, key, iv, rs, |rs|, i);
    }
  }

  /** Return code and digest into our record, then all records encrypted. */
  method AnswerRecord(c: BlockCipher, w: Router, accepts: bool, num: nat, i: nat, records: array<Block>,
                      ghost rs: seq<Record>)
    requires records.Length >= num * RECORD_BLOCKS && i < num && rs == Records(records[..], num)
    modifies records
    ensures var (k, iv) := w.open(rs[i]);
            Records(records[..], num) == EncryptAll(c, k, iv, rs[i := Reply(w, rs[i], RetFor(accepts))])
  {
    var off := i * RECORD_BLOCKS;
    assert rs[i] == records[off..off + RECORD_BLOCKS];
    var record: Record := records[off..off + RECORD_BLOCKS];
    var (key, iv) := w.open(record);
    WriteRecord(records, num, i, Reply(w, record, RetFor(accepts)));
    EncryptRecords(c, key, iv, num, records);
  }

  /** HandleBuildRequestRecords: find our record, turn it into a reply, encrypt every record with the reply key. */
  method HandleBuildRequestRecords(c: BlockCipher, w: Router, ident: Block, accepts: bool, num: nat,
                                   records: array<Block>)
    returns (found: bool)
    requires records.Length >= num * RECORD_BLOCKS
    modifies records
    ensures found <==> exists i :: 0 <= i < num && old(Records(records[..], num))[i][0] == ident
    ensures Records(records[..], num) == HopStep(c, w, ident, accepts, old(Records(records[..], num)))
    ensures Answered(c, w, ident, accepts, old(Records(records[..], num)), Records(records[..], num))
  {
    ghost var rs := Records(records[..], num);
    HopAnswers(c, w, ident, accepts, rs);
    var i := 0;
    while i < num
      invariant 0 <= i <= num
      invariant forall j :: 0 <= j < i ==> rs[j][0] != ident
      invariant Records(records[..], num) == rs
    {
      var off := i * RECORD_BLOCKS;
      assert rs[i] == records[off..off + RECORD_BLOCKS];
      if records[off] == ident {
        FirstMatchUnique(rs, ident, i);
        AnswerRecord(c, w, accepts, num, i, records, rs);
        return true;
      }
      i := i + 1;
    }
    FirstMatchUnique(rs, ident, num);
    return false;
  }

  // ---------------------------------------------------------------- the whole trip

  /** What hop h makes of the records when it takes the one at its own index. */
  function HopAt(c: BlockCipher, w: Router, h: Hop, accepts: bool, rs: seq<Record>): (r: seq<Record>)
    requires h.recordIndex < |rs|
    ensures |r| == |rs|
  {
    var i := h.recordIndex;
    EncryptAll(c, h.replyKey, h.replyIV, rs[i := Reply(w, rs[i], RetFor(accepts))])
  }

  /** The records after all given hops handled the message one after the other. */
  function Travel(c: BlockCipher, w: Router, hops: seq<Hop>, accepts: seq<bool>, rs: seq<Record>): (r: seq<Record>)
    requires |accepts| == |hops|
    ensures |r| == |rs|
    decreases |hops|
  {
    if hops == [] then rs else
      Travel(c, w, hops[1..], accepts[1..], HopStep(c, w, hops[0].ident, accepts[0], rs))
  }

  /**
   What the creator wrote for the hops: every record is addressed to its hop and opens to that hop's reply key
   and IV; and no other record looks addressed to a hop when that hop searches the message.
   */
  ghost predicate Addressed(c: BlockCipher, w: Router, hops: seq<Hop>, accepts: seq<bool>, orig: seq<Record>,
                            rs: seq<Record>)
    requires |accepts| == |hops| && |orig| == |rs| && InRange(hops, |rs|)
    decreases |hops|
  {
    hops == [] ||
    (var i := hops[0].recordIndex;
     && orig[i][0] == hops[0].ident
     && w.open(orig[i]) == (hops[0].replyKey, hops[0].replyIV)
     && (forall j :: 0 <= j < i ==> rs[j][0] != hops[0].ident)
     && Addressed(c, w, hops[1..], accepts[1..], orig, HopStep(c, w, hops[0].ident, accepts[0], rs)))
  }

  /** Every remaining hop's record carries exactly the layers of the hops still ahead of it. */
  ghost predicate Layered(c: BlockCipher, hops: seq<Hop>, orig: seq<Record>, rs: seq<Record>)
    requires |orig| == |rs| && InRange(hops, |rs|)
  {
    forall k :: 0 <= k < |hops| ==> rs[hops[k].recordIndex] == Wrap(c, hops, k, orig[hops[k].recordIndex])
  }

  /** One hop finds its record as the creator wrote it, and takes one layer off every later record. */
  lemma HopPeels(c: BlockCipher, w: Router, hops: seq<Hop>, accepts: seq<bool>, orig: seq<Record>, rs: seq<Record>)
    requires |accepts| == |hops| > 0 && |orig| == |rs| && IndicesValid(hops, |rs|)
    requires Layered(c, hops, orig, rs) && Addressed(c, w, hops, accepts, orig, rs)
    ensures rs[hops[0].recordIndex] == orig[hops[0].recordIndex]
    ensures HopStep(c, w, hops[0].ident, accepts[0], rs) == HopAt(c, w, hops[0], accepts[0], rs)
    ensures Layered(c, hops[1..], orig, HopAt(c, w, hops[0], accepts[0], rs))
  {
    var i, rest := hops[0].recordIndex, hops[1..];
    var rs' := HopAt(c, w, hops[0], accepts[0], rs);
    assert rs[i] == Wrap(c, hops, 0, orig[i]);
    FirstMatchUnique(rs, hops[0].ident, i);
    forall k | 0 <= k < |rest|
      ensures rs'[rest[k].recordIndex] == Wrap(c, rest, k, orig[rest[k].recordIndex])
    {
      var n := rest[k].recordIndex;
      assert rest[k] == hops[k + 1] && n != i;
      assert rs[n] == Wrap(c, hops, k + 1, orig[n]);
      EncryptDecrypt(c, hops[0].replyKey, hops[0].replyIV, Wrap(c, rest, k, orig[n]));
    }
  }

  /** Travel by position: the meeting point of what the hops do and what the creator expects. */
  function Route(c: BlockCipher, w: Router, hops: seq<Hop>, accepts: seq<bool>, rs: seq<Record>): (r: seq<Record>)
    requires |accepts| == |hops| && InRange(hops, |rs|)
    ensures |r| == |rs|
    decreases |hops|
  {
    if hops == [] then rs else Route(c, w, hops[1..], accepts[1..], HopAt(c, w, hops[0], accepts[0], rs))
  }

  lemma {:induction false} TravelIsRoute(c: BlockCipher, w: Router, hops: seq<Hop>, accepts: seq<bool>,
                                         orig: seq<Record>, rs: seq<Record>)
    requires |accepts| == |hops| && |orig| == |rs| && IndicesValid(hops, |rs|)
    requires Layered(c, hops, orig, rs) && Addressed(c, w, hops, accepts, orig, rs)
    ensures Travel(c, w, hops, accepts, rs) == Route(c, w, hops, accepts, rs)
    decreases |hops|
  {
    if hops == [] {
    } else {
      HopPeels(c, w, hops, accepts, orig, rs);
      TravelIsRoute(c, w, hops[1..], accepts[1..], orig, HopAt(c, w, hops[0], accepts[0], rs));
    }
  }

  /**
   The build request: whatever the shuffle and however many hops, when hop k receives the message, the record at
   its index is exactly the one the creator wrote for it before pre-decryption.
   */
  lemma RequestReachesHop(c: BlockCipher, w: Router, hops: seq<Hop>, accepts: seq<bool>, orig: seq<Record>, k: nat)
    requires |accepts| == |hops| && IndicesValid(hops, |orig|) && k < |hops|
    requires Addressed(c, w, hops, accepts, orig, PreDecrypt(c, hops, orig))
    ensures Travel(c, w, hops[..k], accepts[..k], PreDecrypt(c, hops, orig))[hops[k].recordIndex]
         == orig[hops[k].recordIndex]
  {
    PreDecryptLayered(c, hops, orig);
    LayeredReaches(c, w, hops, accepts, orig, PreDecrypt(c, hops, orig), k);
  }

  lemma PreDecryptLayered(c: BlockCipher, hops: seq<Hop>, orig: seq<Record>)
    requires IndicesValid(hops, |orig|)
    ensures Layered(c, hops, orig, PreDecrypt(c, hops, orig))
  {
    forall k | 0 <= k < |hops|
      ensures PreDecrypt(c, hops, orig)[hops[k].recordIndex] == Wrap(c, hops, k, orig[hops[k].recordIndex])
    {
      PreDecryptAt(c, hops, orig, k);
    }
  }

  lemma {:induction false} LayeredReaches(c: BlockCipher, w: Router, hops: seq<Hop>, accepts: seq<bool>,
                                          orig: seq<Record>, rs: seq<Record>, k: nat)
    requires |accepts| == |hops| && |orig| == |rs| && IndicesValid(hops, |rs|) && k < |hops|
    requires Layered(c, hops, orig, rs) && Addressed(c, w, hops, accepts, orig, rs)
    ensures Travel(c, w, hops[..k], accepts[..k], rs)[hops[k].recordIndex] == orig[hops[k].recordIndex]
    decreases |hops|
  {
    HopPeels(c, w, hops, accepts, orig, rs);
    if k == 0 {
    } else {
      LayeredReaches(c, w, hops[1..], accepts[1..], orig, HopAt(c, w, hops[0], accepts[0], rs), k - 1);
      assert hops[..k][1..] == hops[1..][..k - 1] && accepts[..k][1..] == accepts[1..][..k - 1];
    }
  }

  // ---------------------------------------------------------------- creator, response

  /** One hop's reply key taken off the records of that hop and all earlier ones, skipping indices beyond count. */
  function DecryptBack(c: BlockCipher, h: Hop, upTo: seq<Hop>, count: nat, rs: seq<Record>): (r: seq<Record>)
    requires InRange(upTo, |rs|)
    ensures |r| == |rs|
    decreases |upTo|
  {
    if upTo == [] then rs else
      var n := |upTo| - 1;
      var i := upTo[n].recordIndex;
      DecryptBack(c, h, upTo[..n], count, if i < count then rs[i := Dec(c, h, rs[i])] else rs)
  }

  /** What the decrypt loops of Tunnel::HandleTunnelBuildResponse compute: the last hop's key first. */
  function Unwrap(c: BlockCipher, hops: seq<Hop>, count: nat, rs: seq<Record>): (r: seq<Record>)
    requires InRange(hops, |rs|)
    ensures |r| == |rs|
    decreases |hops|
  {
    if hops == [] then rs else
      var n := |hops| - 1;
      Unwrap(c, hops[..n], count, DecryptBack(c, hops[n], hops, count, rs))
  }

  ghost predicate AllAccepted(hops: seq<Hop>, rs: seq<Record>)
    requires InRange(hops, |rs|)
  {
    forall i :: 0 <= i < |hops| ==> RetCode(rs[hops[i].recordIndex]) == 0
  }

  class Tunnel {
    const cipher: BlockCipher
    const hops: seq<Hop>
    var state: TunnelState

    constructor (cipher: BlockCipher, hops: seq<Hop>)
      ensures this.cipher == cipher && this.hops == hops && state == Pending
    {
      this.cipher, this.hops := cipher, hops;
      state := Pending;
    }

    /** The nested loops that take one hop's key off its own and all earlier records. */
    method DecryptWith(h: nat, count: nat, records: array<Block>, num: nat)
      requires records.Length >= num * RECORD_BLOCKS && InRange(hops, num) && h < |hops|
      modifies records
      ensures Records(records[..], num)
           == DecryptBack(cipher, hops[h], hops[..h + 1], count, old(Records(records[..], num)))
    {
      ghost var start := Records(records[..], num);
      var decryption := new CBCDecryption(cipher);
      decryption.SetKey(hops[h].replyKey);
      var hop1 := h + 1;
      while hop1 > 0
        invariant 0 <= hop1 <= h + 1
        invariant DecryptBack(cipher, hops[h], hops[..hop1], count, Records(records[..], num))
               == DecryptBack(cipher, hops[h], hops[..h + 1], count, start)
        invariant decryption.cipher == cipher && decryption.key == hops[h].replyKey && fresh(decryption)
      {
        hop1 := hop1 - 1;
        assert hops[..hop1 + 1][..hop1] == hops[..hop1];
        if hops[hop1].recordIndex < count {
          decryption.SetIV(hops[h].replyIV);
          DecryptRecord(decryption, records, num, hops[hop1].recordIndex);
        }
      }
    }

    method DecryptReplies(count: nat, records: array<Block>, num: nat)
      requires records.Length >= num * RECORD_BLOCKS && InRange(hops, num)
      modifies records
      ensures Records(records[..], num) == Unwrap(cipher, hops, count, old(Records(records[..], num)))
    {
      ghost var start := Records(records[..], num);
      assert hops[..|hops|] == hops;
      var hop := |hops|;
      while hop > 0
        invariant 0 <= hop <= |hops|
        invariant Unwrap(cipher, hops[..hop], count, Records(records[..], num)) == Unwrap(cipher, hops, count, start)
      {
        hop := hop - 1;
        assert hops[..hop + 1][..hop] == hops[..hop];
        DecryptWith(hop, count, records, num);
      }
    }

    method CheckReplies(records: array<Block>, num: nat) returns (established: bool)
      requires records.Length >= num * RECORD_BLOCKS && InRange(hops, num)
      ensures established <==> AllAccepted(hops, Records(records[..], num))
    {
      established := true;
      ghost var rs := Records(records[..], num);
      var hop := 0;
      while hop < |hops|
        invariant 0 <= hop <= |hops|
        invariant established <==> forall i :: 0 <= i < hop ==> RetCode(rs[hops[i].recordIndex]) == 0
      {
        var off := hops[hop].recordIndex * RECORD_BLOCKS;
        assert rs[hops[hop].recordIndex] == records[..][off..off + RECORD_BLOCKS];
        var ret := records[off + RECORD_BLOCKS - 1][15];
        if ret != 0 {
          established := false;
        }
        hop := hop + 1;
      }
    }

    /** Tunnel::HandleTunnelBuildResponse; count is the record count the message claims. */
    method HandleTunnelBuildResponse(count: nat, records: array<Block>, num: nat) returns (established: bool)
      requires records.Length >= num * RECORD_BLOCKS && InRange(hops, num)
      modifies this`state, records
      ensures Records(records[..], num) == Unwrap(cipher, hops, count, old(Records(records[..], num)))
      ensures established <==> AllAccepted(hops, Records(records[..], num))
      ensures state == if established then Established else old(state)
    {
      DecryptReplies(count, records, num);
      established := CheckReplies(records, num);
      if established {
        state := Established;
      }
    }
  }

  // ---------------------------------------------------------------- the reply comes back

  /** The reply of hop k after hops k..n-1 encrypted it, innermost layer first. */
  function Sealed(c: BlockCipher, hops: seq<Hop>, r: Record): Record
    decreases |hops|
  {
    if hops == [] then r else Sealed(c, hops[1..], Enc(c, hops[0], r))
  }

  lemma {:induction false} SealedSnoc(c: BlockCipher, hops: seq<Hop>, last: Hop, r: Record)
    ensures Sealed(c, hops + [last], r) == Enc(c, last, Sealed(c, hops, r))
    decreases |hops|
  {
    if hops == [] {
      assert hops + [last] == [last] && [last][1..] == [];
    } else {
      assert (hops + [last])[1..] == hops[1..] + [last];
      SealedSnoc(c, hops[1..], last, Enc(c, hops[0], r));
    }
  }

  lemma {:induction false} RouteElsewhere(c: BlockCipher, w: Router, hops: seq<Hop>, accepts: seq<bool>,
                                          rs: seq<Record>, i: nat)
    requires |accepts| == |hops| && InRange(hops, |rs|) && i < |rs|
    requires forall j :: 0 <= j < |hops| ==> hops[j].recordIndex != i
    ensures Route(c, w, hops, accepts, rs)[i] == Sealed(c, hops, rs[i])
    decreases |hops|
  {
    if hops == [] {
    } else {
      RouteElsewhere(c, w, hops[1..], accepts[1..], HopAt(c, w, hops[0], accepts[0], rs), i);
    }
  }

  lemma {:induction false} RouteAt(c: BlockCipher, w: Router, hops: seq<Hop>, accepts: seq<bool>, orig: seq<Record>,
                                   rs: seq<Record>, k: nat)
    requires |accepts| == |hops| && |orig| == |rs| && IndicesValid(hops, |rs|) && k < |hops|
    requires Layered(c, hops, orig, rs) && Addressed(c, w, hops, accepts, orig, rs)
    ensures var i := hops[k].recordIndex;
            Route(c, w, hops, accepts, rs)[i] == Sealed(c, hops[k..], Reply(w, orig[i], RetFor(accepts[k])))
    decreases |hops|
  {
    HopPeels(c, w, hops, accepts, orig, rs);
    var rs', rest := HopAt(c, w, hops[0], accepts[0], rs), hops[1..];
    if k == 0 {
      RouteElsewhere(c, w, rest, accepts[1..], rs', hops[0].recordIndex);
      assert hops[0..] == hops;
    } else {
      RouteAt(c, w, rest, accepts[1..], orig, rs', k - 1);
      assert rest[k - 1..] == hops[k..];
    }
  }

  lemma {:induction false} DecryptBackAt(c: BlockCipher, h: Hop, upTo: seq<Hop>, count: nat, rs: seq<Record>, i: nat)
    requires IndicesValid(upTo, |rs|) && i < |rs|
    ensures (exists j :: 0 <= j < |upTo| && upTo[j].recordIndex == i) && i < count
        ==> DecryptBack(c, h, upTo, count, rs)[i] == Dec(c, h, rs[i])
    ensures (forall j :: 0 <= j < |upTo| ==> upTo[j].recordIndex != i) ==> DecryptBack(c, h, upTo, count, rs)[i] == rs[i]
    decreases |upTo|
  {
    if upTo == [] {
    } else {
      var n := |upTo| - 1;
      var i0 := upTo[n].recordIndex;
      DecryptBackAt(c, h, upTo[..n], count, if i0 < count then rs[i0 := Dec(c, h, rs[i0])] else rs, i);
      if j :| 0 <= j < |upTo| && upTo[j].recordIndex == i {
        if j < n {
          assert upTo[..n][j] == upTo[j];
        }
      }
    }
  }

  lemma {:induction false} DecryptBackBeyond(c: BlockCipher, h: Hop, upTo: seq<Hop>, count: nat, rs: seq<Record>, i: nat)
    requires InRange(upTo, |rs|) && count <= i < |rs|
    ensures DecryptBack(c, h, upTo, count, rs)[i] == rs[i]
    decreases |upTo|
  {
    if upTo == [] {
    } else {
      var n := |upTo| - 1;
      var i0 := upTo[n].recordIndex;
      DecryptBackBeyond(c, h, upTo[..n], count, if i0 < count then rs[i0 := Dec(c, h, rs[i0])] else rs, i);
    }
  }

  /** Records beyond the count the message claims are left alone. */
  lemma {:induction false} UnwrapBeyond(c: BlockCipher, hops: seq<Hop>, count: nat, rs: seq<Record>, i: nat)
    requires InRange(hops, |rs|) && count <= i < |rs|
    ensures Unwrap(c, hops, count, rs)[i] == rs[i]
    decreases |hops|
  {
    if hops == [] {
    } else {
      var n := |hops| - 1;
      DecryptBackBeyond(c, hops[n], hops, count, rs, i);
      UnwrapBeyond(c, hops[..n], count, DecryptBack(c, hops[n], hops, count, rs), i);
    }
  }

  lemma {:induction false} UnwrapElsewhere(c: BlockCipher, hops: seq<Hop>, count: nat, rs: seq<Record>, i: nat)
    requires IndicesValid(hops, |rs|) && i < |rs|
    requires forall j :: 0 <= j < |hops| ==> hops[j].recordIndex != i
    ensures Unwrap(c, hops, count, rs)[i] == rs[i]
    decreases |hops|
  {
    if hops == [] {
    } else {
      var n := |hops| - 1;
      DecryptBackAt(c, hops[n], hops, count, rs, i);
      UnwrapElsewhere(c, hops[..n], count, DecryptBack(c, hops[n], hops, count, rs), i);
    }
  }

  /** The last hop's key takes the last hop's layer off. */
  lemma UnsealOne(c: BlockCipher, hops: seq<Hop>, count: nat, rs: seq<Record>, k: nat, r: Record)
    requires IndicesValid(hops, |rs|) && k < |hops| && hops[k].recordIndex < count
    requires rs[hops[k].recordIndex] == Sealed(c, hops[k..], r)
    ensures var n := |hops| - 1;
            DecryptBack(c, hops[n], hops, count, rs)[hops[k].recordIndex] == Sealed(c, hops[k..n], r)
  {
    var n, i := |hops| - 1, hops[k].recordIndex;
    DecryptBackAt(c, hops[n], hops, count, rs, i);
    assert hops[k..] == hops[k..n] + [hops[n]];
    SealedSnoc(c, hops[k..n], hops[n], r);
    DecryptEncrypt(c, hops[n].replyKey, hops[n].replyIV, Sealed(c, hops[k..n], r));
  }

  /** Unwrapping a sealed reply of hop k gives the reply. */
  lemma {:induction false} UnwrapAt(c: BlockCipher, hops: seq<Hop>, count: nat, rs: seq<Record>, k: nat, r: Record)
    requires IndicesValid(hops, |rs|) && k < |hops| && hops[k].recordIndex < count
    requires rs[hops[k].recordIndex] == Sealed(c, hops[k..], r)
    ensures Unwrap(c, hops, count, rs)[hops[k].recordIndex] == r
    decreases |hops|
  {
    var n, i := |hops| - 1, hops[k].recordIndex;
    var rs' := DecryptBack(c, hops[n], hops, count, rs);
    UnsealOne(c, hops, count, rs, k, r);
    if k == n {
      assert hops[k..n] == [];
      UnwrapElsewhere(c, hops[..n], count, rs', i);
    } else {
      assert hops[..n][k..] == hops[k..n];
      UnwrapAt(c, hops[..n], count, rs', k, r);
    }
  }

  /**
   The build reply: after the request travelled all hops and came back, the creator's nested loops recover every
   hop's reply, and the tunnel is established exactly if every hop accepted.
   */
  lemma ReplyRecovered(c: BlockCipher, w: Router, hops: seq<Hop>, accepts: seq<bool>, orig: seq<Record>)
    requires |accepts| == |hops| && IndicesValid(hops, |orig|)
    requires Addressed(c, w, hops, accepts, orig, PreDecrypt(c, hops, orig))
    ensures var back := Unwrap(c, hops, |orig|, Travel(c, w, hops, accepts, PreDecrypt(c, hops, orig)));
            && (forall k :: 0 <= k < |hops| ==>
                  back[hops[k].recordIndex] == Reply(w, orig[hops[k].recordIndex], RetFor(accepts[k])))
            && (AllAccepted(hops, back) <==> forall k :: 0 <= k < |hops| ==> accepts[k])
  {
    var pre := PreDecrypt(c, hops, orig);
    PreDecryptLayered(c, hops, orig);
    TravelIsRoute(c, w, hops, accepts, orig, pre);
    var far := Route(c, w, hops, accepts, pre);
    var back := Unwrap(c, hops, |orig|, far);
    forall k | 0 <= k < |hops|
      ensures back[hops[k].recordIndex] == Reply(w, orig[hops[k].recordIndex], RetFor(accepts[k]))
      ensures RetCode(back[hops[k].recordIndex]) == RetFor(accepts[k])
    {
      RouteAt(c, w, hops, accepts, orig, pre, k);
      UnwrapAt(c, hops, |orig|, far, k, Reply(w, orig[hops[k].recordIndex], RetFor(accepts[k])));
    }
    assert forall k :: 0 <= k < |hops| ==> (RetCode(back[hops[k].recordIndex]) == 0 <==> accepts[k]);
    if AllAccepted(hops, back) {
      forall k | 0 <= k < |hops| ensures accepts[k] {
        assert RetCode(back[hops[k].recordIndex]) == 0;
      }
    }
  }
}
