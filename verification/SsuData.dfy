/**
 SSU data: a message is cut into numbered fragments, each sent in a packet of
 its own; the receiver rebuilds many interleaved messages from fragments that
 arrive in any order, any number of times.
 */
module SsuData {
  import opened Bytes
  import I2NP

  const SSU_V4_MAX_PACKET_SIZE: nat := 1456
  /** SSU header (37), flag, fragment count, message id and fragment info. */
  const OVERHEAD: nat := 37 + 9
  const MAX_NUM_RECEIVED_MESSAGES: nat := 1000
  const CLEANUP_TIMEOUT: nat := 30
  const DATABASE_STORE: byte := 1
  const DELIVERY_STATUS: byte := 10
  /** Fragment numbers have seven bits. */
  const MAX_FRAGMENTS: nat := 128
  const DATA_FLAG_WANT_REPLY: byte := 4

  datatype Fragment = Fragment(num: nat, isLast: bool, data: seq<byte>)

  datatype Incoming = Incoming(msgID: nat, fragment: Fragment)

  /** A message being rebuilt; saved holds later fragments by number, insertTime when one was last put there. */
  datatype Incomplete = Incomplete(content: seq<byte>, next: nat, insertTime: nat, saved: seq<Fragment>)

  datatype Ack = MessageAck(msgID: nat) | FragmentAck(msgID: nat, num: nat)

  /**
   The receiving state of SSUData.  completed and handed are history: the messages rebuilt, and those passed on to the
   I2NP handler; recent are the ids handed on in the established state since received was last cleared.
   */
  datatype Receiver = Receiver(
    incomplete: map<nat, Incomplete>, received: set<nat>, established: bool, acks: seq<Ack>,
    completed: seq<(nat, seq<byte>)>, handed: seq<(nat, seq<byte>)>, recent: seq<nat>)

  // ---------------------------------------------------------------- sending

  /** The fragments Send cuts the bytes into, numbered from num on. */
  function Split(bytes: seq<byte>, payloadSize: nat, num: nat): (r: seq<Fragment>)
    requires payloadSize > 0
    decreases |bytes|
  {
    if bytes == [] then []
    else if |bytes| <= payloadSize then [Fragment(num, true, bytes)]
    else [Fragment(num, false, bytes[..payloadSize])] + Split(bytes[payloadSize..], payloadSize, num + 1)
  }

  function Data(fs: seq<Fragment>): (r: seq<seq<byte>>)
    ensures |r| == |fs|
  {
    seq(|fs|, i requires 0 <= i < |fs| => fs[i].data)
  }

  /** The bytes of the fragments, in order. */
  function Join(fs: seq<Fragment>): seq<byte> { Flatten(Data(fs)) }

  /** Consecutive numbers, the last flag on the last fragment and nowhere else. */
  ghost predicate Plan(fs: seq<Fragment>) {
    && fs != []
    && forall i :: 0 <= i < |fs| ==> fs[i].num == i && (fs[i].isLast <==> i == |fs| - 1)
  }

  lemma JoinConcat(a: seq<Fragment>, b: seq<Fragment>)
    ensures Join(a + b) == Join(a) + Join(b)
  {
    assert Data(a + b) == Data(a) + Data(b);
    FlattenConcat(Data(a), Data(b));
  }

  lemma {:induction false} SplitOk(bytes: seq<byte>, payloadSize: nat, num: nat)
    requires payloadSize > 0 && bytes != []
    ensures var fs := Split(bytes, payloadSize, num);
            && fs != [] && Join(fs) == bytes
            && (forall i :: 0 <= i < |fs| ==>
                  && fs[i].num == num + i && (fs[i].isLast <==> i == |fs| - 1)
                  && 0 < |fs[i].data| <= payloadSize && (i < |fs| - 1 ==> |fs[i].data| == payloadSize))
    decreases |bytes|
  {
    var fs := Split(bytes, payloadSize, num);
    if |bytes| <= payloadSize {
      assert Data(fs) == [bytes];
      assert Flatten([bytes]) == bytes;
    } else {
      var rest := Split(bytes[payloadSize..], payloadSize, num + 1);
      SplitOk(bytes[payloadSize..], payloadSize, num + 1);
      JoinConcat([fs[0]], rest);
      assert Data([fs[0]]) == [bytes[..payloadSize]];
      assert Flatten([bytes[..payloadSize]]) == bytes[..payloadSize];
      assert bytes == bytes[..payloadSize] + bytes[payloadSize..];
      assert fs == [fs[0]] + rest;
    }
  }

  /** How many fragments there are. */
  lemma {:induction false} SplitCount(bytes: seq<byte>, payloadSize: nat, num: nat)
    requires payloadSize > 0 && bytes != []
    ensures var n := |Split(bytes, payloadSize, num)|; (n - 1) * payloadSize < |bytes| <= n * payloadSize
    decreases |bytes|
  {
    if |bytes| > payloadSize {
      SplitCount(bytes[payloadSize..], payloadSize, num + 1);
      var n := |Split(bytes[payloadSize..], payloadSize, num + 1)|;
      TimesSucc(n - 1, payloadSize);
      TimesSucc(n, payloadSize);
    }
  }

  lemma TimesSucc(n: int, k: nat)
    ensures (n + 1) * k == n * k + k
  {
  }

  // ---------------------------------------------------------------- wire format

  /** Number in bits 23 to 17, last flag in bit 16, size in the low bits; what lies above bit 23 is not sent. */
  function Info(f: Fragment): nat {
    f.num * 0x2_0000 + (if f.isLast then 0x1_0000 else 0) + |f.data|
  }

  function EncodeFragment(i: Incoming): seq<byte> {
    ToBE(i.msgID, 4) + ToBE(Info(i.fragment), 3) + i.fragment.data
  }

  /** The fragment part of a packet: always one fragment. */
  function Packet(i: Incoming): seq<byte> { [1] + EncodeFragment(i) }

  function Packets(msgID: nat, fs: seq<Fragment>): (r: seq<seq<byte>>)
    ensures |r| == |fs|
  {
    seq(|fs|, i requires 0 <= i < |fs| => [DATA_FLAG_WANT_REPLY] + Packet(Incoming(msgID, fs[i])))
  }

  lemma PacketsSnoc(msgID: nat, fs: seq<Fragment>, f: Fragment)
    ensures Packets(msgID, fs + [f]) == Packets(msgID, fs) + [[DATA_FLAG_WANT_REPLY] + Packet(Incoming(msgID, f))]
  {
  }

  /** The fragments of what is left, from position pos on. */
  ghost function Left(bytes: seq<byte>, pos: nat, len: nat, payloadSize: nat, num: nat): seq<Fragment>
    requires payloadSize > 0 && (len > 0 ==> pos + len == |bytes|)
  {
    if len > 0 then Split(bytes[pos..], payloadSize, num) else []
  }

  lemma LeftNext(bytes: seq<byte>, pos: nat, len: nat, payloadSize: nat, num: nat, f: Fragment)
    requires payloadSize > 0 && 0 < len && pos + len == |bytes|
    requires f == if len <= payloadSize then Fragment(num, true, bytes[pos..])
                  else Fragment(num, false, bytes[pos..pos + payloadSize])
    ensures Left(bytes, pos, len, payloadSize, num)
         == [f] + if len <= payloadSize then [] else Left(bytes, pos + payloadSize, len - payloadSize, payloadSize, num + 1)
  {
    var rest := bytes[pos..];
    if len > payloadSize {
      assert rest[..payloadSize] == bytes[pos..pos + payloadSize] && rest[payloadSize..] == bytes[pos + payloadSize..];
    }
  }

  /** The loop of SSUData::Send: the packets behind their headers and without their padding. */
  method SplitMessage(msgID: nat, bytes: seq<byte>, packetSize: nat) returns (packets: seq<seq<byte>>)
    requires packetSize > OVERHEAD
    ensures packets == Packets(msgID, Split(bytes, packetSize - OVERHEAD, 0))
  {
    var payloadSize := packetSize - OVERHEAD;
    var len: nat, pos: nat, fragmentNum: nat := |bytes|, 0, 0;
    ghost var fragments: seq<Fragment>, all := [], Split(bytes, payloadSize, 0);
    packets := [];
    assert bytes[0..] == bytes;
    while len > 0
      invariant len > 0 ==> pos + len == |bytes|
      invariant fragments + Left(bytes, pos, len, payloadSize, fragmentNum) == all
      invariant packets == Packets(msgID, fragments)
      decreases len
    {
      var isLast := len <= payloadSize;
      var size := if isLast then len else payloadSize;
      var info := fragmentNum * 0x2_0000 + (if isLast then 0x1_0000 else 0) + size;
      var packet := [DATA_FLAG_WANT_REPLY, 1] + ToBE(msgID, 4) + ToBE(info, 3) + bytes[pos..pos + size];
      ghost var fragment := Fragment(fragmentNum, isLast, bytes[pos..pos + size]);
      assert packet == [DATA_FLAG_WANT_REPLY] + Packet(Incoming(msgID, fragment));
      LeftNext(bytes, pos, len, payloadSize, fragmentNum, fragment);
      PacketsSnoc(msgID, fragments, fragment);
      if isLast {
        len := 0;
      } else {
        len := len - payloadSize;
        pos := pos + payloadSize;
      }
      packets := packets + [packet];
      fragmentNum := fragmentNum + 1;
      Append(fragments, [fragment], Left(bytes, pos, len, payloadSize, fragmentNum));
      fragments := fragments + [fragment];
    }
    assert fragments + [] == fragments;
  }

  /** The three fields ProcessFragments takes out of a fragment info. */
  function InfoNum(info: nat): nat { info / 0x2_0000 }
  function InfoLast(info: nat): bool { info / 0x1_0000 % 2 == 1 }
  function InfoSize(info: nat): nat { info % 0x2000 }

  /** The fragment a receiver sees: its number has lost everything above seven bits. */
  function OnWire(f: Fragment): Fragment { f.(num := f.num % MAX_FRAGMENTS) }

  lemma InfoOnWire(f: Fragment)
    requires |f.data| < 0x2000
    ensures var info := Info(f) % Pow256(3);
            InfoNum(info) == f.num % MAX_FRAGMENTS && InfoLast(info) == f.isLast && InfoSize(info) == |f.data|
  {
    assert Pow256(3) == 0x100_0000;
    var q, low := f.num / MAX_FRAGMENTS, (if f.isLast then 0x1_0000 else 0) + |f.data|;
    assert Info(f) == q * 0x100_0000 + (f.num % MAX_FRAGMENTS * 0x2_0000 + low);
  }

  /** The fragment at a position and what follows it, unless it is oversized or not all there. */
  function FragmentAt(buf: seq<byte>, pos: nat): (r: Option<(Incoming, nat)>)
    ensures r.Some? ==> pos < r.value.1 <= |buf|
  {
    if pos + 7 > |buf| then None else
      var info := FromBE(buf[pos + 4..pos + 7]);
      var end := pos + 7 + InfoSize(info);
      if InfoSize(info) >= SSU_V4_MAX_PACKET_SIZE || end > |buf| then None else
        Some((Incoming(FromBE(buf[pos..pos + 4]), Fragment(InfoNum(info), InfoLast(info), buf[pos + 7..end])), end))
  }

  /** The fragments a packet delivers: reading stops at the first oversized one, and at the end of the packet. */
  function ParseFragments(buf: seq<byte>, pos: nat, n: nat): (r: seq<Incoming>)
    decreases n
  {
    if n == 0 then [] else
      match FragmentAt(buf, pos)
      case None => []
      case Some((i, end)) => [i] + ParseFragments(buf, end, n - 1)
  }

  function Received(packet: seq<byte>): seq<Incoming> {
    if packet == [] then [] else ParseFragments(packet, 1, packet[0])
  }

  ghost predicate Fitting(i: Incoming) { i.msgID < Pow256(4) && |i.fragment.data| < SSU_V4_MAX_PACKET_SIZE }

  /** A fragment somewhere in a packet is read, but for the high bits of its number, if it is not oversized. */
  lemma FragmentRead(b: seq<byte>, pos: nat, i: Incoming)
    requires Lies(b, pos, EncodeFragment(i)) && i.msgID < Pow256(4) && |i.fragment.data| < 0x2000
    ensures FragmentAt(b, pos)
         == if Fitting(i) then Some((i.(fragment := OnWire(i.fragment)), pos + |EncodeFragment(i)|)) else None
  {
    var f := i.fragment;
    LiesParts(b, pos, ToBE(i.msgID, 4) + ToBE(Info(f), 3), f.data);
    LiesParts(b, pos, ToBE(i.msgID, 4), ToBE(Info(f), 3));
    InfoOnWire(f);
    BERoundTrip(i.msgID, 4);
    BERoundTrip(Info(f), 3);
  }

  function Encoded(all: seq<Incoming>): seq<byte> { ConcatMap(EncodeFragment, all) }

  function AllOnWire(all: seq<Incoming>): (r: seq<Incoming>)
    ensures |r| == |all|
  {
    seq(|all|, j requires 0 <= j < |all| => all[j].(fragment := OnWire(all[j].fragment)))
  }

  lemma ParseNext(b: seq<byte>, pos: nat, n: nat, i: Incoming, end: nat, left: nat)
    requires n == left + 1 && FragmentAt(b, pos) == Some((i, end))
    ensures ParseFragments(b, pos, n) == [i] + ParseFragments(b, end, left)
  {
  }

  lemma {:induction false} FragmentsRead(b: seq<byte>, pos: nat, all: seq<Incoming>, n: nat, end: nat, left: nat)
    requires Lies(b, pos, Encoded(all)) && forall i :: i in all ==> Fitting(i)
    requires n == |all| + left && end == pos + |Encoded(all)|
    ensures ParseFragments(b, pos, n) == AllOnWire(all) + ParseFragments(b, end, left)
    decreases |all|
  {
    if all == [] {
      assert AllOnWire(all) == [];
    } else {
      var first, rest := all[0], all[1..];
      var first', next, n' := first.(fragment := OnWire(first.fragment)), pos + |EncodeFragment(first)|, n - 1;
      LiesParts(b, pos, EncodeFragment(first), Encoded(rest));
      assert first in all;
      FragmentRead(b, pos, first);
      ParseNext(b, pos, n, first', next, n');
      FragmentsRead(b, next, rest, n', end, left);
      FirstOnWire(all);
      Append([first'], AllOnWire(rest), ParseFragments(b, end, left));
    }
  }

  lemma FirstOnWire(all: seq<Incoming>)
    requires all != []
    ensures AllOnWire(all) == [all[0].(fragment := OnWire(all[0].fragment))] + AllOnWire(all[1..])
  {
  }

  /** All fragments of a packet are taken out of it in order, but for the high bits of their numbers. */
  lemma ManyOnWire(all: seq<Incoming>, padding: seq<byte>)
    requires |all| < 256 && forall i :: i in all ==> Fitting(i)
    ensures Received([|all|] + Encoded(all) + padding) == AllOnWire(all)
  {
    var b := [|all|] + Encoded(all) + padding;
    assert Lies(b, 1, Encoded(all));
    FragmentsRead(b, 1, all, |all|, 1 + |Encoded(all)|, 0);
  }

  /** An oversized fragment ends the reading of its packet. */
  lemma OversizedEnds(all: seq<Incoming>, bad: Incoming, n: byte, rest: seq<byte>)
    requires |all| < n && forall i :: i in all ==> Fitting(i)
    requires bad.msgID < Pow256(4) && SSU_V4_MAX_PACKET_SIZE <= |bad.fragment.data| < 0x2000
    ensures Received([n] + Encoded(all) + EncodeFragment(bad) + rest) == AllOnWire(all)
  {
    var b := [n] + Encoded(all) + EncodeFragment(bad) + rest;
    var at := 1 + |Encoded(all)|;
    assert Lies(b, 1, Encoded(all)) && Lies(b, at, EncodeFragment(bad));
    FragmentsRead(b, 1, all, n, at, n - |all|);
    FragmentRead(b, at, bad);
  }

  /** What Send puts into one packet is what ProcessFragments takes out of it, but for the high bits of the number. */
  lemma PacketOnWire(i: Incoming, padding: seq<byte>)
    requires Fitting(i)
    ensures Received(Packet(i) + padding) == [i.(fragment := OnWire(i.fragment))]
  {
    ManyOnWire([i], padding);
    ConcatMapCons(EncodeFragment, i, []);
    assert [i] + [] == [i] && EncodeFragment(i) + [] == EncodeFragment(i);
  }

  /** So a fragment survives its packet, whatever padding follows, if and only if its number has seven bits. */
  lemma PacketRoundTrip(i: Incoming, padding: seq<byte>)
    requires Fitting(i)
    ensures Received(Packet(i) + padding) == [i] <==> i.fragment.num < MAX_FRAGMENTS
  {
    PacketOnWire(i, padding);
  }

  // ---------------------------------------------------------------- receiving

  /** std::set::insert with FragmentCmp. */
  function Insert(fs: seq<Fragment>, f: Fragment): (r: seq<Fragment>) {
    if fs == [] then [f]
    else if f.num < fs[0].num then [f] + fs
    else if f.num == fs[0].num then fs
    else [fs[0]] + Insert(fs[1..], f)
  }

  ghost predicate SortedFragments(fs: seq<Fragment>) { forall i, j :: 0 <= i < j < |fs| ==> fs[i].num < fs[j].num }

  lemma {:induction false} InsertMembers(fs: seq<Fragment>, f: Fragment)
    ensures var r := Insert(fs, f);
            && (forall g :: g in r ==> g in fs || g == f)
            && (forall g :: g in fs ==> g in r)
            && |r| >= |fs| && (|r| == |fs| ==> r == fs)
  {
    if fs == [] || f.num <= fs[0].num {
    } else {
      InsertMembers(fs[1..], f);
      assert fs == [fs[0]] + fs[1..];
    }
  }

  lemma {:induction false} InsertHas(fs: seq<Fragment>, f: Fragment)
    ensures exists g :: g in Insert(fs, f) && g.num == f.num
  {
    if fs == [] || f.num < fs[0].num {
      assert Insert(fs, f)[0] == f;
    } else if f.num == fs[0].num {
      assert fs[0] in fs;
    } else {
      InsertHas(fs[1..], f);
      var g :| g in Insert(fs[1..], f) && g.num == f.num;
      assert g in Insert(fs, f);
    }
  }

  lemma {:induction false} InsertSorted(fs: seq<Fragment>, f: Fragment)
    requires SortedFragments(fs)
    ensures SortedFragments(Insert(fs, f))
  {
    if fs == [] || f.num <= fs[0].num {
    } else {
      var rest := Insert(fs[1..], f);
      InsertSorted(fs[1..], f);
      InsertMembers(fs[1..], f);
      forall i | 0 <= i < |rest| ensures fs[0].num < rest[i].num {
        assert rest[i] in rest;
      }
    }
  }

  /** AttachNextFragment. */
  function Attach(m: Incomplete, f: Fragment): Incomplete {
    m.(content := m.content + f.data, next := m.next + 1)
  }

  /** The loop over saved fragments after an expected one was attached; the flag is that of the last one attached. */
  function TrySaved(m: Incomplete, isLast: bool): (r: (Incomplete, bool))
    decreases |m.saved|
  {
    if m.saved != [] && m.saved[0].num == m.next
    then TrySaved(Attach(m, m.saved[0]).(saved := m.saved[1..]), m.saved[0].isLast)
    else (m, isLast)
  }

  /** One fragment for the message m: the message afterwards, and whether it is complete. */
  function Take(m: Incomplete, f: Fragment, now: nat): (r: (Incomplete, bool)) {
    if f.num == m.next then
      if f.isLast then (Attach(m, f), true) else TrySaved(Attach(m, f), false)
    else if f.num < m.next then (m, false)
    else
      var saved := Insert(m.saved, f);
      (if |saved| > |m.saved| then m.(saved := saved, insertTime := now) else m, false)
  }

  /** An expected fragment is attached, and behind it the first k saved ones, which follow it without a gap. */
  ghost predicate Attached(m: Incomplete, f: Fragment, k: nat, m': Incomplete, done: bool) {
    && k <= |m.saved| && (forall j :: 0 <= j < k ==> m.saved[j].num == f.num + 1 + j)
    && m'.content == m.content + f.data + Join(m.saved[..k]) && m'.next == f.num + 1 + k
    && m'.saved == m.saved[k..] && m'.insertTime == m.insertTime
    && (if f.isLast then k == 0 else k < |m.saved| ==> m.saved[k].num != m'.next)
    && (done <==> if k == 0 then f.isLast else m.saved[k - 1].isLast)
  }

  ghost predicate HasNumber(fs: seq<Fragment>, num: nat) { exists g :: g in fs && g.num == num }

  /** An early fragment is put with the saved ones, unless there is one with its number. */
  ghost predicate Saved(m: Incomplete, f: Fragment, now: nat, m': Incomplete) {
    if HasNumber(m.saved, f.num) then m' == m else
      && (m'.content, m'.next, m'.insertTime) == (m.content, m.next, now)
      && |m'.saved| == |m.saved| + 1 && SortedFragments(m'.saved)
      && forall g :: g in m'.saved <==> g in m.saved || g == f
  }

  /** What one fragment does to a message: repeated, expected or early. */
  ghost predicate Taken(m: Incomplete, f: Fragment, now: nat, m': Incomplete, done: bool) {
    if f.num < m.next then m' == m && !done
    else if f.num == m.next then exists k :: Attached(m, f, k, m', done)
    else Saved(m, f, now, m') && !done
  }

  /** From m on, with j saved fragments attached so far. */
  lemma {:induction false} TrySavedAttaches(m0: Incomplete, f: Fragment, j: nat, m: Incomplete, isLast: bool)
    requires f.num == m0.next && !f.isLast && j <= |m0.saved|
    requires forall i :: 0 <= i < j ==> m0.saved[i].num == f.num + 1 + i
    requires m == Incomplete(m0.content + f.data + Join(m0.saved[..j]), f.num + 1 + j, m0.insertTime, m0.saved[j..])
    requires isLast == if j == 0 then false else m0.saved[j - 1].isLast
    ensures exists k :: Attached(m0, f, k, TrySaved(m, isLast).0, TrySaved(m, isLast).1)
    decreases |m.saved|
  {
    if m.saved != [] && m.saved[0].num == m.next {
      var g := m.saved[0];
      assert m0.saved[..j + 1] == m0.saved[..j] + [g];
      JoinConcat(m0.saved[..j], [g]);
      assert Data([g]) == [g.data] && Flatten([g.data]) == g.data;
      Append(m0.content + f.data, Join(m0.saved[..j]), g.data);
      var m1 := Attach(m, g).(saved := m.saved[1..]);
      assert m1.saved == m0.saved[j + 1..];
      TrySavedAttaches(m0, f, j + 1, m1, g.isLast);
      assert TrySaved(m, isLast) == TrySaved(m1, g.isLast);
    } else {
      assert TrySaved(m, isLast) == (m, isLast);
      assert j < |m0.saved| ==> m.saved[0] == m0.saved[j];
      assert Attached(m0, f, j, m, isLast);
    }
  }

  lemma NothingAttached(m: Incomplete, f: Fragment)
    ensures m.saved[..0] == [] && Join(m.saved[..0]) == [] && m.content + f.data + [] == m.content + f.data
    ensures m.saved[0..] == m.saved
  {
    assert Data([]) == [];
  }

  lemma HasCons(fs: seq<Fragment>, num: nat)
    requires fs != []
    ensures HasNumber(fs, num) <==> fs[0].num == num || HasNumber(fs[1..], num)
  {
    assert fs == [fs[0]] + fs[1..];
  }

  lemma NoneBelow(fs: seq<Fragment>, num: nat)
    requires SortedFragments(fs) && (fs != [] ==> num < fs[0].num)
    ensures !HasNumber(fs, num)
  {
    forall g | g in fs ensures g.num != num {
      var i :| 0 <= i < |fs| && fs[i] == g;
    }
  }

  lemma {:induction false} InsertKeeps(fs: seq<Fragment>, f: Fragment)
    requires SortedFragments(fs)
    ensures HasNumber(fs, f.num) ==> Insert(fs, f) == fs
    ensures !HasNumber(fs, f.num) ==> |Insert(fs, f)| == |fs| + 1 && f in Insert(fs, f)
  {
    if fs == [] {
    } else if f.num < fs[0].num {
      NoneBelow(fs, f.num);
      assert ([f] + fs)[0] == f;
    } else {
      HasCons(fs, f.num);
      if f.num > fs[0].num {
        InsertKeeps(fs[1..], f);
      }
    }
  }

  lemma TakeExactly(m: Incomplete, f: Fragment, now: nat)
    requires SortedFragments(m.saved)
    ensures Taken(m, f, now, Take(m, f, now).0, Take(m, f, now).1) && SortedFragments(Take(m, f, now).0.saved)
  {
    if f.num == m.next {
      NothingAttached(m, f);
      if f.isLast {
        assert Attached(m, f, 0, Attach(m, f), true);
      } else {
        TrySavedAttaches(m, f, 0, Attach(m, f), false);
      }
    } else if f.num > m.next {
      InsertMembers(m.saved, f);
      InsertSorted(m.saved, f);
      InsertKeeps(m.saved, f);
    }
  }

  /** A rebuilt message's type byte (its buffer is zeroed when it is created). */
  function TypeOf(content: seq<byte>): byte { if content == [] then 0 else content[0] }

  /** What happens to a complete message. */
  function Dispatch(r: Receiver, msgID: nat, content: seq<byte>): Receiver {
    if r.established then
      if msgID in r.received then r else
        var clear := |r.received| > MAX_NUM_RECEIVED_MESSAGES;
        r.(received := (if clear then {} else r.received) + {msgID}, handed := r.handed + [(msgID, content)],
           recent := (if clear then [] else r.recent) + [msgID])
    else if TypeOf(content) == DELIVERY_STATUS then r.(established := true)
    else if TypeOf(content) == DATABASE_STORE then
      r.(received := r.received + {msgID}, handed := r.handed + [(msgID, content)])
    else r
  }

  /**
   Which complete messages are handed on: in the established state those whose ids are not remembered, before that only
   database stores.
   */
  predicate HandsOn(r: Receiver, msgID: nat, content: seq<byte>) {
    if r.established then msgID !in r.received else TypeOf(content) == DATABASE_STORE
  }

  /** Their ids are remembered; in the established state all others are forgotten once there are more than 1000. */
  ghost predicate Passed(r: Receiver, msgID: nat, content: seq<byte>, t: Receiver) {
    && t.handed == r.handed + (if HandsOn(r, msgID, content) then [(msgID, content)] else [])
    && (t.established <==> r.established || TypeOf(content) == DELIVERY_STATUS)
    && (forall id :: id in t.received <==>
          || (id == msgID && HandsOn(r, msgID, content))
          || (id in r.received && !(r.established && HandsOn(r, msgID, content) && |r.received| > MAX_NUM_RECEIVED_MESSAGES)))
    && t.incomplete == r.incomplete && t.acks == r.acks && t.completed == r.completed
  }

  lemma DispatchExactly(r: Receiver, msgID: nat, content: seq<byte>)
    ensures Passed(r, msgID, content, Dispatch(r, msgID, content))
  {
    assert r.handed + [] == r.handed;
  }

  const NOTHING: Incomplete := Incomplete([], 0, 0, [])

  function HandleFragment(r: Receiver, i: Incoming, now: nat): Receiver {
    var m := if i.msgID in r.incomplete then r.incomplete[i.msgID] else NOTHING;
    var (m', isComplete) := Take(m, i.fragment, now);
    if isComplete then
      Dispatch(r.(incomplete := r.incomplete - {i.msgID}, acks := r.acks + [MessageAck(i.msgID)],
                  completed := r.completed + [(i.msgID, m'.content)]),
               i.msgID, m'.content)
    else
      r.(incomplete := r.incomplete[i.msgID := m'],
         acks := r.acks + if i.fragment.num > 64 then [] else [FragmentAck(i.msgID, i.fragment.num)])
  }

  ghost function Collected(r: Receiver, id: nat): Incomplete {
    if id in r.incomplete then r.incomplete[id] else NOTHING
  }

  /** The message is complete now: it is acknowledged, no longer collected, and perhaps handed on. */
  ghost predicate Completed(r: Receiver, id: nat, content: seq<byte>, t: Receiver) {
    Passed(r.(incomplete := r.incomplete - {id}, acks := r.acks + [MessageAck(id)],
              completed := r.completed + [(id, content)]), id, content, t)
  }

  /** What one fragment does to a receiver; a fragment with a number above 64 is not acknowledged. */
  ghost predicate Processed(r: Receiver, i: Incoming, now: nat, t: Receiver) {
    exists m', done :: Taken(Collected(r, i.msgID), i.fragment, now, m', done) &&
      if done then Completed(r, i.msgID, m'.content, t)
      else t == r.(incomplete := r.incomplete[i.msgID := m'],
                   acks := r.acks + if i.fragment.num <= 64 then [FragmentAck(i.msgID, i.fragment.num)] else [])
  }

  /** Saved fragments are in the order of their numbers, each number once, as in a std::set. */
  ghost predicate Ordered(r: Receiver) { forall id :: id in r.incomplete ==> SortedFragments(r.incomplete[id].saved) }

  lemma FragmentExactly(r: Receiver, i: Incoming, now: nat)
    requires Ordered(r)
    ensures Processed(r, i, now, HandleFragment(r, i, now)) && Ordered(HandleFragment(r, i, now))
  {
    var m := Collected(r, i.msgID);
    var (m', done) := Take(m, i.fragment, now);
    TakeExactly(m, i.fragment, now);
    if done {
      DispatchExactly(r.(incomplete := r.incomplete - {i.msgID}, acks := r.acks + [MessageAck(i.msgID)],
                         completed := r.completed + [(i.msgID, m'.content)]), i.msgID, m'.content);
    }
  }

  function HandleFragments(r: Receiver, batch: seq<Incoming>, now: nat): Receiver
    decreases |batch|
  {
    if batch == [] then r else HandleFragments(HandleFragment(r, batch[0], now), batch[1..], now)
  }

  lemma HandleNext(r: Receiver, i: Incoming, rest: seq<Incoming>, now: nat)
    ensures HandleFragments(r, [i] + rest, now) == HandleFragments(HandleFragment(r, i, now), rest, now)
  {
    assert ([i] + rest)[1..] == rest;
  }

  predicate Stale(m: Incomplete, ts: nat) { ts > m.insertTime + CLEANUP_TIMEOUT }

  function Cleanup(r: Receiver, ts: nat): Receiver {
    r.(incomplete := map id | id in r.incomplete && !Stale(r.incomplete[id], ts) :: r.incomplete[id])
  }

  function Decay(r: Receiver): Receiver { r.(received := {}, recent := []) }

  class SSUData {
    var incompleteMessages: map<nat, Incomplete>
    var receivedMessages: set<nat>
    var established: bool
    ghost var acks: seq<Ack>
    ghost var completed: seq<(nat, seq<byte>)>
    ghost var handed: seq<(nat, seq<byte>)>
    ghost var recent: seq<nat>

    ghost function State(): Receiver
      reads this
    {
      Receiver(incompleteMessages, receivedMessages, established, acks, completed, handed, recent)
    }

    constructor (established: bool)
      ensures State() == Receiver(map[], {}, established, [], [], [], [])
    {
      incompleteMessages, receivedMessages, this.established := map[], {}, established;
      acks, completed, handed, recent := [], [], [], [];
    }

    /** The branch for an expected fragment. */
    method AttachExpected(m: Incomplete, f: Fragment) returns (m': Incomplete, isLast: bool)
      requires f.num == m.next
      ensures forall now :: (m', isLast) == Take(m, f, now)
    {
      m', isLast := Attach(m, f), f.isLast;
      if !isLast && |m'.saved| > 0 {
        while |m'.saved| > 0 && m'.saved[0].num == m'.next
          invariant TrySaved(m', isLast) == TrySaved(Attach(m, f), false)
          decreases |m'.saved|
        {
          var savedFragment := m'.saved[0];
          m' := Attach(m', savedFragment).(saved := m'.saved[1..]);
          isLast := savedFragment.isLast;
        }
      }
    }

    method HandOn(msgID: nat, content: seq<byte>)
      modifies this
      ensures State() == Dispatch(old(State()), msgID, content)
      ensures Passed(old(State()), msgID, content, State())
    {
      DispatchExactly(State(), msgID, content);
      if established {
        if msgID !in receivedMessages {
          if |receivedMessages| > MAX_NUM_RECEIVED_MESSAGES {
            receivedMessages, recent := {}, [];
          }
          receivedMessages := receivedMessages + {msgID};
          handed, recent := handed + [(msgID, content)], recent + [msgID];
        }
      } else if TypeOf(content) == DELIVERY_STATUS {
        established := true;
      } else if TypeOf(content) == DATABASE_STORE {
        receivedMessages := receivedMessages + {msgID};
        handed := handed + [(msgID, content)];
      }
    }

    /** The body of the loop of ProcessFragments. */
    method ProcessFragment(i: Incoming, now: nat)
      modifies this
      ensures State() == HandleFragment(old(State()), i, now)
      ensures Ordered(old(State())) ==> Processed(old(State()), i, now, State()) && Ordered(State())
    {
      if Ordered(State()) {
        FragmentExactly(State(), i, now);
      }
      var m := NOTHING;
      if i.msgID in incompleteMessages {
        m := incompleteMessages[i.msgID];
      }
      var isLast := false;
      if i.fragment.num == m.next {
        m, isLast := AttachExpected(m, i.fragment);
      } else if i.fragment.num > m.next {
        var saved := Insert(m.saved, i.fragment);
        if |saved| > |m.saved| {
          m := m.(saved := saved, insertTime := now);
        }
      }
      if isLast {
        incompleteMessages := incompleteMessages - {i.msgID};
        acks := acks + [MessageAck(i.msgID)];
        completed := completed + [(i.msgID, m.content)];
        HandOn(i.msgID, m.content);
      } else {
        incompleteMessages := incompleteMessages[i.msgID := m];
        if i.fragment.num <= 64 {
          acks := acks + [FragmentAck(i.msgID, i.fragment.num)];
        }
      }
    }

    /** One fragment's fields. */
    method ReadFragment(buf: seq<byte>, pos: nat) returns (r: Option<(Incoming, nat)>)
      ensures r == FragmentAt(buf, pos)
    {
      if pos + 7 > |buf| {
        return None;
      }
      var msgID := FromBE(buf[pos..pos + 4]);
      var fragmentInfo := FromBE(buf[pos + 4..pos + 7]);
      var fragmentSize := InfoSize(fragmentInfo);
      if fragmentSize >= SSU_V4_MAX_PACKET_SIZE {
        return None;
      }
      var at := pos + 7;
      if at + fragmentSize > |buf| {
        return None;
      }
      var fragment := Fragment(InfoNum(fragmentInfo), InfoLast(fragmentInfo), buf[at..at + fragmentSize]);
      return Some((Incoming(msgID, fragment), at + fragmentSize));
    }

    method ProcessFragments(buf: seq<byte>, now: nat)
      modifies this
      ensures State() == HandleFragments(old(State()), Received(buf), now)
    {
      if |buf| == 0 {
        return;
      }
      var left: nat, pos: nat := buf[0], 1;
      while left > 0
        invariant HandleFragments(State(), ParseFragments(buf, pos, left), now)
               == HandleFragments(old(State()), Received(buf), now)
      {
        var r := ReadFragment(buf, pos);
        if r.None? {
          return;
        }
        HandleNext(State(), r.value.0, ParseFragments(buf, r.value.1, left - 1), now);
        ProcessFragment(r.value.0, now);
        pos := r.value.1;
        left := left - 1;
      }
    }

    method HandleIncompleteMessagesCleanupTimer(ts: nat)
      modifies this`incompleteMessages
      ensures State() == Cleanup(old(State()), ts)
      ensures forall id :: id in incompleteMessages <==>
                id in old(incompleteMessages) && ts <= old(incompleteMessages)[id].insertTime + CLEANUP_TIMEOUT
      ensures forall id :: id in incompleteMessages ==> incompleteMessages[id] == old(incompleteMessages)[id]
    {
      var left := incompleteMessages.Keys;
      while left != {}
        invariant left <= old(incompleteMessages.Keys)
        invariant incompleteMessages
               == map id | id in old(incompleteMessages) && (id in left || !Stale(old(incompleteMessages)[id], ts))
                      :: old(incompleteMessages)[id]
        decreases |left|
      {
        var id :| id in left;
        left := left - {id};
        if Stale(incompleteMessages[id], ts) {
          incompleteMessages := incompleteMessages - {id};
        }
      }
    }

    method HandleDecayTimer()
      modifies this`receivedMessages, this`recent
      ensures State() == Decay(old(State())) && receivedMessages == {}
    {
      receivedMessages, recent := {}, [];
    }
  }
}
