/**
 Fragment numbers have seven bits on the wire, and nothing keeps a sender from
 cutting a message into more fragments: exactly then it is lost or mistaken.
 */
module SsuLimits {
  import opened Bytes
  import opened SsuData
  import opened SsuRuns
  import I2NP

  lemma {:induction false} ExecSnoc(t: Traffic, r: Receiver, es: seq<Event>, e: Event)
    requires AllPossible(t, es + [e])
    ensures AllPossible(t, es) && Possible(t, e)
    ensures Exec(t, r, es + [e]) == Apply(t, Exec(t, r, es), e)
    decreases |es|
  {
    var all := es + [e];
    forall i | 0 <= i < |es| ensures Possible(t, es[i]) {
      assert Possible(t, all[i]) && all[i] == es[i];
    }
    assert Possible(t, all[|es|]);
    if es == [] {
      assert all == [e] && Tail(t, all) == [];
    } else {
      assert all[1..] == es[1..] + [e];
      assert Tail(t, all) == Tail(t, es) + [e];
      ExecSnoc(t, Apply(t, r, es[0]), Tail(t, es), e);
    }
  }

  /** The first n fragments of a message arrive once each and in order. */
  function InOrder(id: nat, n: nat): (es: seq<Event>)
    ensures |es| == n
  {
    seq(n, i requires 0 <= i < n => Arrive(id, i, [], 0))
  }

  /** An established receiver that has seen nothing. */
  ghost predicate Ready(r: Receiver) { Empty(r) && r.established && r.received == {} }

  /** The receiver holds exactly the first n fragments, and has handed on nothing. */
  ghost predicate Building(r: Receiver, id: nat, plan: seq<Fragment>, n: nat) {
    && n <= |plan|
    && r.completed == [] && r.handed == [] && r.established && r.received == {}
    && Collected(r, id).next == n && Collected(r, id).saved == [] && Collected(r, id).content == Join(plan[..n])
  }

  function Least(a: nat, b: nat): nat { if a < b then a else b }

  /** A fragment in order: kept as long as its number fits, and taken for a repeated one afterwards. */
  lemma BuildStep(t: Traffic, r: Receiver, id: nat, n: nat)
    requires id in t && Plan(t[id]) && Fits(id, t[id]) && n < |t[id]| && (n + 1 < |t[id]| || n >= MAX_FRAGMENTS)
    requires Building(r, id, t[id], Least(n, MAX_FRAGMENTS))
    ensures Building(Apply(t, r, Arrive(id, n, [], 0)), id, t[id], Least(n + 1, MAX_FRAGMENTS))
  {
    var plan := t[id];
    Arrival(t, r, Arrive(id, n, [], 0));
    assert plan[n].num == n;
    if n < MAX_FRAGMENTS {
      JoinNext(plan, n);
    }
  }

  lemma {:induction false} BuildsInOrder(t: Traffic, r: Receiver, id: nat, n: nat)
    requires Ready(r) && id in t && Plan(t[id]) && Fits(id, t[id])
    requires n < |t[id]| || (n == |t[id]| && n > MAX_FRAGMENTS)
    ensures AllPossible(t, InOrder(id, n))
    ensures Building(Exec(t, r, InOrder(id, n)), id, t[id], Least(n, MAX_FRAGMENTS))
    decreases n
  {
    if n == 0 {
      assert t[id][..0] == [] && Data([]) == [];
    } else {
      var e := Arrive(id, n - 1, [], 0);
      assert InOrder(id, n) == InOrder(id, n - 1) + [e];
      BuildsInOrder(t, r, id, n - 1);
      ExecSnoc(t, r, InOrder(id, n - 1), e);
      BuildStep(t, Exec(t, r, InOrder(id, n - 1)), id, n - 1);
    }
  }

  /** Fragments in order, then the last one, whose number on the wire is the next expected. */
  function Shortcut(id: nat, n: nat): (es: seq<Event>)
    requires n > 0
  {
    InOrder(id, (n - 1) % MAX_FRAGMENTS) + [Arrive(id, n - 1, [], 0)]
  }

  /** The message that comes out when the last fragment's number has wrapped around. */
  function Mistaken(plan: seq<Fragment>): seq<byte>
    requires plan != []
  {
    var n := |plan| - 1;
    Join(plan[..n % MAX_FRAGMENTS]) + plan[n].data
  }

  lemma LastHands(r: Receiver, id: nat, plan: seq<Fragment>, n: nat, f: Fragment)
    requires Building(r, id, plan, n) && f.num == n && f.isLast
    ensures HandleFragment(r, Incoming(id, f), 0).handed == [(id, Join(plan[..n]) + f.data)]
  {
    assert Take(Collected(r, id), f, 0) == (SsuData.Attach(Collected(r, id), f), true);
  }

  /** The last fragment's packet after j fragments in order, where j is what is left of its number. */
  lemma LastArrives(t: Traffic, r: Receiver, id: nat, j: nat)
    requires id in t && Plan(t[id]) && Fits(id, t[id]) && j == (|t[id]| - 1) % MAX_FRAGMENTS
    requires Building(r, id, t[id], j)
    ensures Apply(t, r, Arrive(id, |t[id]| - 1, [], 0)).handed == [(id, Mistaken(t[id]))]
  {
    var n := |t[id]| - 1;
    Arrival(t, r, Arrive(id, n, [], 0));
    assert t[id][n].num == n && t[id][n].isLast;
    LastHands(r, id, t[id], j, OnWire(t[id][n]));
  }

  lemma ShortcutHands(t: Traffic, r: Receiver, id: nat)
    requires Ready(r) && id in t && Plan(t[id]) && Fits(id, t[id]) && |t[id]| > MAX_FRAGMENTS
    ensures AllPossible(t, Shortcut(id, |t[id]|))
    ensures Exec(t, r, Shortcut(id, |t[id]|)).handed == [(id, Mistaken(t[id]))]
  {
    var n := |t[id]| - 1;
    var j, e := n % MAX_FRAGMENTS, Arrive(id, n, [], 0);
    BuildsInOrder(t, r, id, j);
    ExecSnoc(t, r, InOrder(id, j), e);
    LastArrives(t, Exec(t, r, InOrder(id, j)), id, j);
  }

  lemma JoinLength(plan: seq<Fragment>, j: nat, n: nat)
    requires j <= n <= |plan| && forall i :: 0 <= i < |plan| ==> 0 < |plan[i].data|
    ensures |Join(plan[..j])| + (n - j) <= |Join(plan[..n])|
    decreases n - j
  {
    if j < n {
      JoinLength(plan, j, n - 1);
      JoinNext(plan, n - 1);
    }
  }

  lemma MistakenIsShorter(bytes: seq<byte>, payloadSize: nat)
    requires payloadSize > 0 && bytes != [] && |Split(bytes, payloadSize, 0)| > MAX_FRAGMENTS
    ensures |Mistaken(Split(bytes, payloadSize, 0))| < |bytes|
  {
    var plan := Split(bytes, payloadSize, 0);
    var n := |plan| - 1;
    SplitOk(bytes, payloadSize, 0);
    JoinLength(plan, n % MAX_FRAGMENTS, n);
    JoinNext(plan, n);
    assert plan[..n + 1] == plan;
  }

  /** Everything handed on after the run is the message's bytes. */
  ghost predicate HandsRight(t: Traffic, r: Receiver, es: seq<Event>, bytes: seq<byte>)
    requires AllPossible(t, es)
  {
    forall k :: 0 <= k < |Exec(t, r, es).handed| ==> Exec(t, r, es).handed[k].1 == bytes
  }

  /** Whatever happens to its packets, the message is never handed on as anything but itself. */
  ghost predicate Survives(t: Traffic, bytes: seq<byte>) {
    forall r: Receiver, es: seq<Event> | Empty(r) && AllPossible(t, es) :: HandsRight(t, r, es, bytes)
  }

  ghost predicate CompletedInOrder(t: Traffic, id: nat, n: nat) {
    forall r: Receiver | Ready(r) && AllPossible(t, InOrder(id, n)) ::
      Completions(Exec(t, r, InOrder(id, n)), id) > 0
  }

  const READY: Receiver := Receiver(map[], {}, true, [], [], [], [])

  ghost function Alone(id: nat, m: I2NP.Message, payloadSize: nat): Traffic
    requires payloadSize > 0
  {
    map[id := Split(I2NP.SsuBytes(m), payloadSize, 0)]
  }

  /** A message survives every run of the receiver if and only if it has at most 128 fragments. */
  lemma SurvivesExactly(id: nat, m: I2NP.Message, payloadSize: nat)
    requires Wellformed(id, m) && 0 < payloadSize <= MAX_PAYLOAD_SIZE
    ensures Survives(Alone(id, m, payloadSize), I2NP.SsuBytes(m))
        <==> |I2NP.SsuBytes(m)| <= MAX_FRAGMENTS * payloadSize
  {
    var t, bytes := Alone(id, m, payloadSize), I2NP.SsuBytes(m);
    SplitFits(id, bytes, payloadSize);
    if |t[id]| <= MAX_FRAGMENTS {
      forall r: Receiver, es: seq<Event> | Empty(r) && AllPossible(t, es) ensures HandsRight(t, r, es, bytes) {
        ReassemblySafe(t, r, es);
      }
    } else {
      ShortcutHands(t, READY, id);
      MistakenIsShorter(bytes, payloadSize);
      assert !HandsRight(t, READY, Shortcut(id, |t[id]|), bytes) by {
        assert Exec(t, READY, Shortcut(id, |t[id]|)).handed[0].1 == Mistaken(t[id]);
      }
    }
  }

  /** Without any loss and in order, it is completed if and only if it has at most 128 fragments. */
  lemma CompletesExactly(id: nat, m: I2NP.Message, payloadSize: nat)
    requires Wellformed(id, m) && 0 < payloadSize <= MAX_PAYLOAD_SIZE
    ensures var t := Alone(id, m, payloadSize);
            CompletedInOrder(t, id, |t[id]|) <==> |I2NP.SsuBytes(m)| <= MAX_FRAGMENTS * payloadSize
  {
    var t, n := Alone(id, m, payloadSize), |Alone(id, m, payloadSize)[id]|;
    var es := InOrder(id, n);
    SplitFits(id, I2NP.SsuBytes(m), payloadSize);
    if n <= MAX_FRAGMENTS {
      forall r: Receiver | Ready(r) && AllPossible(t, es) ensures Completions(Exec(t, r, es), id) > 0 {
        forall k: nat | k < n ensures k in Seen(es, id) {
          assert es[k].Arrive? && es[k].msgID == id && es[k].num == k;
        }
        Completes(t, r, es, id);
      }
    } else {
      BuildsInOrder(t, READY, id, n);
      assert Ready(READY) && Completions(Exec(t, READY, es), id) == 0;
    }
  }

  lemma OneMore(bytes: seq<byte>, payloadSize: nat)
    requires payloadSize > 0 && MAX_FRAGMENTS * payloadSize < |bytes| <= (MAX_FRAGMENTS + 1) * payloadSize
    ensures var plan := Split(bytes, payloadSize, 0);
            |plan| == MAX_FRAGMENTS + 1 && |plan[MAX_FRAGMENTS].data| <= payloadSize
  {
    var plan := Split(bytes, payloadSize, 0);
    SplitOk(bytes, payloadSize, 0);
    SplitCount(bytes, payloadSize, 0);
    if |plan| > MAX_FRAGMENTS + 1 {
      TimesGrows(MAX_FRAGMENTS + 1, |plan| - 1, payloadSize);
    } else if |plan| <= MAX_FRAGMENTS {
      TimesGrows(|plan|, MAX_FRAGMENTS, payloadSize);
    }
  }

  /** With nothing in order before it, only the last fragment is left. */
  lemma MistakenAlone(plan: seq<Fragment>)
    requires |plan| == MAX_FRAGMENTS + 1
    ensures Mistaken(plan) == plan[MAX_FRAGMENTS].data
  {
    assert plan[..0] == [] && Data([]) == [];
  }

  /** Of 129 fragments the last one alone is taken for the whole message. */
  lemma OneTooMany(id: nat, m: I2NP.Message, payloadSize: nat)
    requires Wellformed(id, m) && 0 < payloadSize <= MAX_PAYLOAD_SIZE
    requires MAX_FRAGMENTS * payloadSize < |I2NP.SsuBytes(m)| <= (MAX_FRAGMENTS + 1) * payloadSize
    ensures var t := Alone(id, m, payloadSize);
            && |t[id]| == MAX_FRAGMENTS + 1 && AllPossible(t, [Arrive(id, MAX_FRAGMENTS, [], 0)])
            && Exec(t, READY, [Arrive(id, MAX_FRAGMENTS, [], 0)]).handed == [(id, t[id][MAX_FRAGMENTS].data)]
            && |t[id][MAX_FRAGMENTS].data| <= payloadSize
  {
    var t, bytes := Alone(id, m, payloadSize), I2NP.SsuBytes(m);
    SplitFits(id, bytes, payloadSize);
    OneMore(bytes, payloadSize);
    MistakenAlone(t[id]);
    ShortcutHands(t, READY, id);
    assert Shortcut(id, |t[id]|) == [Arrive(id, MAX_FRAGMENTS, [], 0)];
  }

  /** A message of 2300 bytes for a router that announces an MTU of 92, which leaves 18 bytes to a fragment. */
  function LongMessage(): I2NP.Message { I2NP.Message(20, 7, 0, seq(2300, _ => 1)) }

  lemma LongMessageSize()
    ensures |I2NP.SsuBytes(LongMessage())| == 2305 && Wellformed(7, LongMessage())
  {
  }

  lemma LongMessageMistaken()
    ensures var t, es := Alone(7, LongMessage(), 18), [Arrive(7, 128, [], 0)];
            AllPossible(t, es) && !HandsRight(t, READY, es, I2NP.SsuBytes(LongMessage()))
  {
    LongMessageSize();
    OneTooMany(7, LongMessage(), 18);
    var t, es := Alone(7, LongMessage(), 18), [Arrive(7, 128, [], 0)];
    assert |Exec(t, READY, es).handed[0].1| <= 18;
  }
}
