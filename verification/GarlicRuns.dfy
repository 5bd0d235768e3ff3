/**
 Many routing sessions and one destination on a common clock: whenever a
 message carrying a confirmed tag first arrives within 241 seconds, the
 destination still knows the tag, bound to that session's key.
 */
module GarlicRuns {
  import opened Bytes
  import opened GarlicTags

  const MAX_TRANSIT: nat := INCOMING_TAGS_EXPIRATION_TIMEOUT - OUTGOING_TAGS_EXPIRATION_TIMEOUT + 1

  datatype Sent = Sent(garlic: Garlic, session: nat, time: nat)

  /** Which session created a tag, in which message, and when. */
  datatype Origin = Origin(session: nat, msgID: nat, born: nat)

  /**
   net lists every message ever sent, arrived the positions of those that arrived at least once; receipts are the ids
   whose DeliveryStatus clove the destination has processed; origin describes every tag ever created.
   */
  datatype World = World(
    now: nat, sessions: seq<Session>, net: seq<Sent>, arrived: set<nat>, dest: Destination,
    receipts: set<nat>, origin: map<TagValue, Origin>)

  datatype Event =
    | Tick(seconds: nat)
    | WrapMessage(session: nat, generated: seq<TagValue>, msgID: nat, at: Situation)
    | Arrive(k: nat)
    | Confirm(session: nat, msgID: nat)
    | Cleanup(session: nat)

  /** Random tags and ids are new; only messages that were sent arrive; only processed messages are confirmed. */
  ghost predicate Possible(w: World, e: Event) {
    match e
    case Tick(_) => true
    case WrapMessage(s, generated, msgID, _) =>
      && s < |w.sessions| && w.sessions[s].owned && |generated| == w.sessions[s].numTags
      && Distinct(generated) && (forall v :: v in generated ==> v !in w.origin)
      && (forall k :: 0 <= k < |w.net| ==> w.net[k].garlic.msgID != msgID)
    case Arrive(k) => k < |w.net|
    case Confirm(s, msgID) => s < |w.sessions| && msgID in w.receipts
    case Cleanup(s) => s < |w.sessions|
  }

  ghost function Born(w: World, newTags: seq<TagValue>, session: nat, msgID: nat): map<TagValue, Origin> {
    w.origin + map v | v in newTags :: Origin(session, msgID, w.now)
  }

  ghost function Apply(w: World, e: Event): World
    requires Possible(w, e)
  {
    match e
    case Tick(n) => w.(now := w.now + n)
    case WrapMessage(s, generated, msgID, at) =>
      var (t, m) := Wrap(w.sessions[s], w.now, generated, msgID, at);
      w.(sessions := w.sessions[s := t], net := w.net + [Sent(m, s, w.now)],
         origin := Born(w, m.newTags, s, msgID))
    case Arrive(k) =>
      var m := w.net[k].garlic;
      w.(arrived := w.arrived + {k}, dest := Handle(w.dest, m, w.now),
         receipts := if Understood(w.dest, m) && m.clove then w.receipts + {m.msgID} else w.receipts)
    case Confirm(s, msgID) => w.(sessions := w.sessions[s := ConfirmTags(w.sessions[s], msgID, w.now)])
    case Cleanup(s) => w.(sessions := w.sessions[s := DropExpired(w.sessions[s], w.now)])
  }

  // ---------------------------------------------------------------- invariants

  ghost predicate Carries(m: Sent, v: TagValue) { m.garlic.tag == Some(v) }

  ghost predicate Unused(w: World, v: TagValue) { forall k :: 0 <= k < |w.net| ==> !Carries(w.net[k], v) }

  /** A message carrying v has arrived. */
  ghost predicate Consumed(w: World, v: TagValue) { exists k :: k in w.arrived && k < |w.net| && Carries(w.net[k], v) }

  ghost predicate DistinctValues(ts: seq<SessionTag>) {
    forall i, j :: 0 <= i < j < |ts| ==> ts[i].value != ts[j].value
  }

  /** The tags a session may use: its own, each once, confirmed by the destination, never sent before. */
  ghost predicate ConfirmedOk(w: World, s: nat)
    requires s < |w.sessions|
  {
    var ts := w.sessions[s].sessionTags;
    && DistinctValues(ts)
    && (forall i :: 0 <= i < |ts| ==>
          && ts[i].value in w.origin
          && w.origin[ts[i].value].session == s && w.origin[ts[i].value].born == ts[i].creationTime
          && w.origin[ts[i].value].msgID in w.receipts
          && w.origin[ts[i].value].msgID !in w.sessions[s].unconfirmed
          && Unused(w, ts[i].value))
  }

  ghost predicate UnconfirmedOk(w: World, s: nat)
    requires s < |w.sessions|
  {
    var us := w.sessions[s].unconfirmed;
    forall id :: id in us ==>
      && OnNet(w, id)
      && Distinct(us[id].tags)
      && (forall v :: v in us[id].tags ==>
            v in w.origin && w.origin[v] == Origin(s, id, us[id].creationTime) && Unused(w, v))
  }

  /** What every message on the net says about its tag and its new tags. */
  ghost predicate SentOk(w: World, m: Sent) {
    && m.session < |w.sessions| && m.garlic.key == w.sessions[m.session].key
    && (m.garlic.tag.Some? ==>
          && m.garlic.tag.value in w.origin && w.origin[m.garlic.tag.value].session == m.session
          && w.origin[m.garlic.tag.value].msgID in w.receipts
          && m.time < w.origin[m.garlic.tag.value].born + OUTGOING_TAGS_EXPIRATION_TIMEOUT)
    && (forall v :: v in m.garlic.newTags ==>
          v in w.origin && w.origin[v] == Origin(m.session, m.garlic.msgID, m.time))
    && m.time <= w.now
  }

  ghost predicate NetOk(w: World) {
    && (forall k :: 0 <= k < |w.net| ==> SentOk(w, w.net[k]))
    && (forall i, j :: 0 <= i < j < |w.net| && w.net[i].garlic.tag.Some? ==> w.net[i].garlic.tag != w.net[j].garlic.tag)
    && (forall i, j :: 0 <= i < j < |w.net| ==> w.net[i].garlic.msgID != w.net[j].garlic.msgID)
    && (forall k :: k in w.arrived ==> k < |w.net|)
    && (forall id :: id in w.receipts ==> OnNet(w, id))
  }

  ghost predicate OnNet(w: World, msgID: nat) { exists k :: 0 <= k < |w.net| && w.net[k].garlic.msgID == msgID }

  /** The message that brings tag v along is on the net. */
  ghost predicate Brought(w: World, v: TagValue, msgID: nat) {
    exists k :: 0 <= k < |w.net| && v in w.net[k].garlic.newTags && w.net[k].garlic.msgID == msgID
  }

  /** Every tag was created in a message on the net that holds it. */
  ghost predicate OriginsOk(w: World) {
    forall v :: v in w.origin ==>
      w.origin[v].session < |w.sessions| && Brought(w, v, w.origin[v].msgID)
  }

  ghost predicate DestOk(w: World) {
    forall v :: v in w.dest.tags ==>
      && v in w.origin && w.origin[v].session < |w.sessions|
      && w.dest.tags[v].key == w.sessions[w.origin[v].session].key
      && w.origin[v].born <= w.dest.tags[v].creationTime
  }

  /** A tag whose message was processed is known to the destination, used up, or too old. */
  ghost predicate Granted(w: World, v: TagValue) {
    || v in w.dest.tags
    || Consumed(w, v)
    || w.now > (if v in w.origin then w.origin[v].born else 0) + INCOMING_TAGS_EXPIRATION_TIMEOUT
  }

  ghost predicate GrantsOk(w: World) {
    forall v :: v in w.origin && w.origin[v].msgID in w.receipts ==> Granted(w, v)
  }

  ghost predicate Agreement(w: World) {
    && OriginsOk(w) && NetOk(w) && DestOk(w) && GrantsOk(w)
    && (forall s :: 0 <= s < |w.sessions| ==> ConfirmedOk(w, s) && UnconfirmedOk(w, s))
  }

  ghost predicate Begin(w: World) {
    && w.net == [] && w.arrived == {} && w.receipts == {} && w.origin == map[] && w.dest.tags == map[]
    && forall s :: 0 <= s < |w.sessions| ==> w.sessions[s].sessionTags == [] && w.sessions[s].unconfirmed == map[]
  }

  // ---------------------------------------------------------------- wrapping a message

  /** What one wrapped message changes: one more message, one session, and new origins. */
  ghost predicate WrapStep(w: World, s: nat, generated: seq<TagValue>, msgID: nat, at: Situation, w': World) {
    && Possible(w, WrapMessage(s, generated, msgID, at))
    && w' == Apply(w, WrapMessage(s, generated, msgID, at))
  }

  ghost function Message(w: World, s: nat, generated: seq<TagValue>, msgID: nat, at: Situation): Garlic
    requires s < |w.sessions|
  {
    Wrap(w.sessions[s], w.now, generated, msgID, at).1
  }

  /** The tag a wrapped message carries was a confirmed, usable tag of its session. */
  lemma MessageTag(w: World, s: nat, generated: seq<TagValue>, msgID: nat, at: Situation)
    requires Agreement(w) && s < |w.sessions|
    ensures var m := Message(w, s, generated, msgID, at);
            m.tag.Some? ==>
              && m.tag.value in w.origin && w.origin[m.tag.value].session == s
              && w.origin[m.tag.value].msgID in w.receipts
              && w.origin[m.tag.value].msgID !in w.sessions[s].unconfirmed
              && w.now < w.origin[m.tag.value].born + OUTGOING_TAGS_EXPIRATION_TIMEOUT
              && Unused(w, m.tag.value)
  {
    PickTagOk(w.sessions[s].sessionTags, w.now);
    assert ConfirmedOk(w, s);
  }

  lemma WrapKeeps(w: World, s: nat, generated: seq<TagValue>, msgID: nat, at: Situation, w': World)
    requires WrapStep(w, s, generated, msgID, at, w')
    ensures w'.net == w.net + [Sent(Message(w, s, generated, msgID, at), s, w.now)]
    ensures |w'.sessions| == |w.sessions|
    ensures forall r :: 0 <= r < |w.sessions| ==> w'.sessions[r].key == w.sessions[r].key
    ensures forall v :: v in w.origin ==> v in w'.origin && w'.origin[v] == w.origin[v]
    ensures forall id :: OnNet(w, id) ==> OnNet(w', id)
    ensures OnNet(w', msgID)
    ensures forall v :: Consumed(w, v) ==> Consumed(w', v)
  {
    forall id | OnNet(w, id) ensures OnNet(w', id) {
      var k :| 0 <= k < |w.net| && w.net[k].garlic.msgID == id;
      assert w'.net[k].garlic.msgID == id;
    }
    assert w'.net[|w.net|].garlic.msgID == msgID;
    forall v | Consumed(w, v) ensures Consumed(w', v) {
      var k :| k in w.arrived && k < |w.net| && Carries(w.net[k], v);
      assert Carries(w'.net[k], v);
    }
  }

  lemma WrapTagNew(w: World, s: nat, generated: seq<TagValue>, msgID: nat, at: Situation, w': World)
    requires Agreement(w) && WrapStep(w, s, generated, msgID, at, w')
    ensures forall i, j :: 0 <= i < j < |w'.net| && w'.net[i].garlic.tag.Some? ==>
              w'.net[i].garlic.tag != w'.net[j].garlic.tag
  {
    var m := Message(w, s, generated, msgID, at);
    MessageTag(w, s, generated, msgID, at);
    assert w'.net == w.net + [Sent(m, s, w.now)];
    forall i, j | 0 <= i < j < |w'.net| && w'.net[i].garlic.tag.Some?
      ensures w'.net[i].garlic.tag != w'.net[j].garlic.tag
    {
      if j == |w.net| && m.tag.Some? {
        assert !Carries(w.net[i], m.tag.value);
      }
    }
  }

  lemma WrapNet(w: World, s: nat, generated: seq<TagValue>, msgID: nat, at: Situation, w': World)
    requires Agreement(w) && WrapStep(w, s, generated, msgID, at, w')
    ensures NetOk(w')
  {
    var m := Message(w, s, generated, msgID, at);
    WrapKeeps(w, s, generated, msgID, at, w');
    MessageTag(w, s, generated, msgID, at);
    forall k | 0 <= k < |w'.net| ensures SentOk(w', w'.net[k]) {
      if k < |w.net| {
        assert SentOk(w, w.net[k]);
      }
    }
    WrapTagNew(w, s, generated, msgID, at, w');
  }

  lemma WrapOrigins(w: World, s: nat, generated: seq<TagValue>, msgID: nat, at: Situation, w': World)
    requires Agreement(w) && WrapStep(w, s, generated, msgID, at, w')
    ensures OriginsOk(w')
  {
    var m := Message(w, s, generated, msgID, at);
    WrapKeeps(w, s, generated, msgID, at, w');
    forall v | v in w'.origin
      ensures w'.origin[v].session < |w'.sessions| && Brought(w', v, w'.origin[v].msgID)
    {
      if v in w.origin {
        assert Brought(w, v, w.origin[v].msgID);
        var k :| 0 <= k < |w.net| && v in w.net[k].garlic.newTags && w.net[k].garlic.msgID == w.origin[v].msgID;
        assert w'.net[k] == w.net[k];
      } else {
        assert v in m.newTags && w'.net[|w.net|].garlic == m;
      }
    }
  }

  lemma WrapGrants(w: World, s: nat, generated: seq<TagValue>, msgID: nat, at: Situation, w': World)
    requires Agreement(w) && WrapStep(w, s, generated, msgID, at, w')
    ensures DestOk(w') && GrantsOk(w')
  {
    WrapKeeps(w, s, generated, msgID, at, w');
    NewIdNotReceipted(w, msgID);
    forall v | v in w'.origin && w'.origin[v].msgID in w'.receipts ensures Granted(w', v) {
      if v in w.origin {
        assert Granted(w, v);
      }
    }
  }

  lemma NewIdNotReceipted(w: World, msgID: nat)
    requires NetOk(w) && forall k :: 0 <= k < |w.net| ==> w.net[k].garlic.msgID != msgID
    ensures msgID !in w.receipts
  {
    assert !OnNet(w, msgID);
  }

  /** The tag of the new message is none of another session's, and none that still waits for confirmation. */
  lemma WrapSession(w: World, s: nat, generated: seq<TagValue>, msgID: nat, at: Situation, w': World, r: nat)
    requires Agreement(w) && WrapStep(w, s, generated, msgID, at, w') && r < |w.sessions|
    ensures ConfirmedOk(w', r) && UnconfirmedOk(w', r)
  {
    WrapKeeps(w, s, generated, msgID, at, w');
    assert ConfirmedOk(w, r) && UnconfirmedOk(w, r);
    WrapConfirmed(w, s, generated, msgID, at, w', r);
    WrapUnconfirmed(w, s, generated, msgID, at, w', r);
  }

  lemma UnusedStays(w: World, s: nat, generated: seq<TagValue>, msgID: nat, at: Situation, w': World, v: TagValue)
    requires WrapStep(w, s, generated, msgID, at, w') && Unused(w, v)
    requires Message(w, s, generated, msgID, at).tag != Some(v)
    ensures Unused(w', v)
  {
    WrapKeeps(w, s, generated, msgID, at, w');
    forall k | 0 <= k < |w'.net| ensures !Carries(w'.net[k], v) {
      if k < |w.net| {
        assert !Carries(w.net[k], v);
      }
    }
  }

  /** The tags a session is left with are a tail of those it had, which does not contain the one just sent. */
  lemma WrapTags(w: World, s: nat, generated: seq<TagValue>, msgID: nat, at: Situation, w': World, r: nat)
    returns (n: nat)
    requires Agreement(w) && WrapStep(w, s, generated, msgID, at, w') && r < |w.sessions|
    ensures n <= |w.sessions[r].sessionTags| && w'.sessions[r].sessionTags == w.sessions[r].sessionTags[n..]
    ensures forall i :: n <= i < |w.sessions[r].sessionTags| ==>
              Message(w, s, generated, msgID, at).tag != Some(w.sessions[r].sessionTags[i].value)
  {
    MessageTag(w, s, generated, msgID, at);
    assert ConfirmedOk(w, r);
    var ts := w.sessions[r].sessionTags;
    if r == s {
      n := Picked(w.sessions[s], w.now);
      assert w'.sessions[s].sessionTags == ts[n..];
    } else {
      n := 0;
    }
  }

  lemma WrapConfirmed(w: World, s: nat, generated: seq<TagValue>, msgID: nat, at: Situation, w': World, r: nat)
    requires Agreement(w) && WrapStep(w, s, generated, msgID, at, w') && r < |w.sessions|
    ensures ConfirmedOk(w', r)
  {
    WrapKeeps(w, s, generated, msgID, at, w');
    assert ConfirmedOk(w, r);
    var ts, ts' := w.sessions[r].sessionTags, w'.sessions[r].sessionTags;
    var n := WrapTags(w, s, generated, msgID, at, w', r);
    forall i | 0 <= i < |ts'|
      ensures ts'[i] == ts[n + i] && ts'[i].value in w'.origin && w'.origin[ts'[i].value] == w.origin[ts'[i].value]
      ensures w.origin[ts'[i].value].msgID !in w'.sessions[r].unconfirmed
      ensures Unused(w', ts'[i].value)
    {
      assert ts'[i] == ts[n + i];
      assert w.origin[ts[n + i].value].msgID in w.receipts;
      assert OnNet(w, w.origin[ts[n + i].value].msgID);
      UnusedStays(w, s, generated, msgID, at, w', ts[n + i].value);
    }
  }

  /** How many tags FindTag takes off the front of a session's list. */
  ghost function Picked(s: Session, ts: nat): (n: nat)
    ensures n <= |s.sessionTags|
    ensures (if s.numTags > 0 then PickTag(s.sessionTags, ts).1 else s.sessionTags) == s.sessionTags[n..]
    ensures s.numTags > 0 && PickTag(s.sessionTags, ts).0.Some?
         ==> n > 0 && PickTag(s.sessionTags, ts).0.value == s.sessionTags[n - 1]
  {
    PickTagOk(s.sessionTags, ts);
    if s.numTags > 0 then
      var (tag, rest) := PickTag(s.sessionTags, ts);
      if tag.None? then |s.sessionTags| else
        var n :| 0 <= n < |s.sessionTags| && s.sessionTags[n] == tag.value && rest == s.sessionTags[n + 1..];
        n + 1
    else 0
  }

  lemma WrapUnconfirmed(w: World, s: nat, generated: seq<TagValue>, msgID: nat, at: Situation, w': World, r: nat)
    requires Agreement(w) && WrapStep(w, s, generated, msgID, at, w') && r < |w.sessions|
    ensures UnconfirmedOk(w', r)
  {
    var m := Message(w, s, generated, msgID, at);
    WrapKeeps(w, s, generated, msgID, at, w');
    MessageTag(w, s, generated, msgID, at);
    assert UnconfirmedOk(w, r);
    var us' := w'.sessions[r].unconfirmed;
    forall id | id in us'
      ensures OnNet(w', id) && Distinct(us'[id].tags)
      ensures forall v :: v in us'[id].tags ==>
                v in w'.origin && w'.origin[v] == Origin(r, id, us'[id].creationTime) && Unused(w', v)
    {
      forall v | v in us'[id].tags
        ensures v in w'.origin && w'.origin[v] == Origin(r, id, us'[id].creationTime) && Unused(w', v)
      {
        if id == msgID && v !in w.origin {
          NewTagUnused(w, v);
        } else {
          assert id in w.sessions[r].unconfirmed ==> OnNet(w, id);
        }
        UnusedStays(w, s, generated, msgID, at, w', v);
      }
    }
  }

  lemma NewTagUnused(w: World, v: TagValue)
    requires NetOk(w) && v !in w.origin
    ensures Unused(w, v)
  {
    forall k | 0 <= k < |w.net| ensures !Carries(w.net[k], v) {
      assert SentOk(w, w.net[k]);
    }
  }

  lemma WrapAgrees(w: World, s: nat, generated: seq<TagValue>, msgID: nat, at: Situation)
    requires Agreement(w) && Possible(w, WrapMessage(s, generated, msgID, at))
    ensures Agreement(Apply(w, WrapMessage(s, generated, msgID, at)))
  {
    var w' := Apply(w, WrapMessage(s, generated, msgID, at));
    WrapNet(w, s, generated, msgID, at, w');
    WrapOrigins(w, s, generated, msgID, at, w');
    WrapGrants(w, s, generated, msgID, at, w');
    forall r | 0 <= r < |w'.sessions| ensures ConfirmedOk(w', r) && UnconfirmedOk(w', r) {
      WrapSession(w, s, generated, msgID, at, w', r);
    }
  }

  // ---------------------------------------------------------------- a message arrives

  /** Storing tags adds exactly them; those already there keep their age. */
  lemma {:induction false} AddTagsOk(tags: map<TagValue, Entry>, ts: seq<TagValue>, key: SessionKey, now: nat)
    ensures var r := AddTags(tags, ts, key, now);
            && (forall v :: v in r <==> v in tags || v in ts)
            && (forall v :: v in r ==> r[v].key == (if v in ts then key else tags[v].key))
            && (forall v :: v in r ==> r[v].creationTime == (if v in tags then tags[v].creationTime else now))
    decreases |ts|
  {
    if ts == [] {
    } else {
      AddTagsOk(AddTag(tags, ts[0], key, now), ts[1..], key, now);
      assert ts == [ts[0]] + ts[1..];
    }
  }

  /** The destination's table after a message, tag by tag. */
  lemma HandleTags(d: Destination, m: Garlic, now: nat, v: TagValue)
    ensures var t := Handle(d, m, now).tags;
            var added := Understood(d, m) && v in m.newTags;
            && (v in t ==>
                  && (v in d.tags || added) && m.tag != Some(v)
                  && t[v].key == (if added then m.key else d.tags[v].key)
                  && t[v].creationTime == (if v in d.tags then d.tags[v].creationTime else now))
            && (v !in t && (v in d.tags || added) && m.tag != Some(v) ==>
                  now > (if v in d.tags then d.tags[v].creationTime else now) + INCOMING_TAGS_EXPIRATION_TIMEOUT)
  {
    AddTagsOk(d.tags, m.newTags, m.key, now);
  }

  lemma ArriveDest(w: World, k: nat)
    requires Agreement(w) && k < |w.net|
    ensures DestOk(Apply(w, Arrive(k)))
  {
    var w', m := Apply(w, Arrive(k)), w.net[k].garlic;
    assert SentOk(w, w.net[k]);
    forall v | v in w'.dest.tags
      ensures v in w'.origin && w'.origin[v].session < |w'.sessions|
      ensures w'.dest.tags[v].key == w'.sessions[w'.origin[v].session].key
      ensures w'.origin[v].born <= w'.dest.tags[v].creationTime
    {
      HandleTags(w.dest, m, w.now, v);
    }
  }

  lemma ArriveGrants(w: World, k: nat)
    requires Agreement(w) && k < |w.net|
    ensures GrantsOk(Apply(w, Arrive(k)))
  {
    var w', m := Apply(w, Arrive(k)), w.net[k].garlic;
    forall v | v in w'.origin && w'.origin[v].msgID in w'.receipts ensures Granted(w', v) {
      if Consumed(w, v) {
        var i :| i in w.arrived && i < |w.net| && Carries(w.net[i], v);
        assert i in w'.arrived && Carries(w'.net[i], v);
      } else if m.tag == Some(v) {
        assert k in w'.arrived && Carries(w'.net[k], v);
      } else {
        HandleTags(w.dest, m, w.now, v);
        if w.origin[v].msgID in w.receipts {
          assert Granted(w, v);
        } else {
          BroughtByThis(w, k, v);
        }
      }
    }
  }

  /** If message k's id is the one that brought tag v, message k holds v. */
  lemma BroughtByThis(w: World, k: nat, v: TagValue)
    requires OriginsOk(w) && NetOk(w) && k < |w.net| && v in w.origin && w.origin[v].msgID == w.net[k].garlic.msgID
    ensures v in w.net[k].garlic.newTags
  {
    assert Brought(w, v, w.origin[v].msgID);
    var i :| 0 <= i < |w.net| && v in w.net[i].garlic.newTags && w.net[i].garlic.msgID == w.origin[v].msgID;
    assert i == k;
  }

  lemma ArriveAgrees(w: World, k: nat)
    requires Agreement(w) && k < |w.net|
    ensures Agreement(Apply(w, Arrive(k)))
  {
    var w' := Apply(w, Arrive(k));
    ArriveDest(w, k);
    ArriveGrants(w, k);
    assert OriginsOk(w') by {
      forall v | v in w'.origin ensures Brought(w', v, w'.origin[v].msgID) {
        assert Brought(w, v, w.origin[v].msgID);
      }
    }
    assert NetOk(w') by {
      forall i | 0 <= i < |w'.net| ensures SentOk(w', w'.net[i]) {
        assert SentOk(w, w.net[i]);
      }
      forall id | id in w'.receipts ensures OnNet(w', id) {
        if id in w.receipts {
          assert OnNet(w, id);
        }
      }
    }
    SessionsStay(w, w');
  }

  lemma SameUnused(w: World, w': World)
    requires w'.net == w.net
    ensures forall v :: Unused(w, v) ==> Unused(w', v)
  {
  }

  lemma SessionStays(w: World, w': World, r: nat)
    requires r < |w.sessions| && r < |w'.sessions| && w'.sessions[r] == w.sessions[r]
    requires w'.net == w.net && w'.origin == w.origin && w.receipts <= w'.receipts
    requires ConfirmedOk(w, r) && UnconfirmedOk(w, r)
    ensures ConfirmedOk(w', r) && UnconfirmedOk(w', r)
  {
    SameUnused(w, w');
    forall id | id in w'.sessions[r].unconfirmed ensures OnNet(w', id) {
      assert OnNet(w, id);
    }
  }

  /** Steps that leave sessions, messages and origins alone keep what is said about sessions. */
  lemma SessionsStay(w: World, w': World)
    requires w'.sessions == w.sessions && w'.net == w.net && w'.origin == w.origin && w.receipts <= w'.receipts
    requires forall s :: 0 <= s < |w.sessions| ==> ConfirmedOk(w, s) && UnconfirmedOk(w, s)
    ensures forall s :: 0 <= s < |w'.sessions| ==> ConfirmedOk(w', s) && UnconfirmedOk(w', s)
  {
    forall s | 0 <= s < |w'.sessions| ensures ConfirmedOk(w', s) && UnconfirmedOk(w', s) {
      SessionStays(w, w', s);
    }
  }

  // ---------------------------------------------------------------- confirmation and clean-up

  /** A session changed, and nothing else; its lists are well-formed. */
  lemma SessionChanged(w: World, w': World, s: nat)
    requires Agreement(w) && s < |w.sessions| && w' == w.(sessions := w'.sessions)
    requires |w'.sessions| == |w.sessions| && w'.sessions[s].key == w.sessions[s].key
    requires forall r :: 0 <= r < |w.sessions| && r != s ==> w'.sessions[r] == w.sessions[r]
    requires ConfirmedOk(w', s) && UnconfirmedOk(w', s)
    ensures Agreement(w')
  {
    forall i | 0 <= i < |w'.net| ensures SentOk(w', w'.net[i]) {
      assert SentOk(w, w.net[i]);
    }
    forall id | id in w'.receipts ensures OnNet(w', id) {
      assert OnNet(w, id);
    }
    forall v | v in w'.origin ensures Brought(w', v, w'.origin[v].msgID) {
      assert Brought(w, v, w.origin[v].msgID);
    }
    forall v | v in w'.origin && w'.origin[v].msgID in w'.receipts ensures Granted(w', v) {
      assert Granted(w, v);
    }
    forall r | 0 <= r < |w'.sessions| ensures ConfirmedOk(w', r) && UnconfirmedOk(w', r) {
      if r != s {
        SessionStays(w, w', r);
      }
    }
  }

  lemma ConfirmAgrees(w: World, s: nat, msgID: nat)
    requires Agreement(w) && Possible(w, Confirm(s, msgID))
    ensures Agreement(Apply(w, Confirm(s, msgID)))
  {
    var w' := Apply(w, Confirm(s, msgID));
    assert ConfirmedOk(w, s) && UnconfirmedOk(w, s);
    SameUnused(w, w');
    assert UnconfirmedOk(w', s) by {
      forall id | id in w'.sessions[s].unconfirmed ensures OnNet(w', id) {
        assert OnNet(w, id);
      }
    }
    ConfirmedTags(w, s, msgID);
    SessionChanged(w, w', s);
  }

  /** Where a tag of the session's list after a confirmation comes from. */
  lemma ConfirmedTag(w: World, s: nat, msgID: nat, i: nat)
    requires s < |w.sessions| && ConfirmedOk(w, s) && UnconfirmedOk(w, s)
    requires msgID in w.receipts && msgID in w.sessions[s].unconfirmed
    requires i < |ConfirmTags(w.sessions[s], msgID, w.now).sessionTags|
    ensures var t, ts := ConfirmTags(w.sessions[s], msgID, w.now).sessionTags[i], w.sessions[s].sessionTags;
            && t.value in w.origin && w.origin[t.value] == Origin(s, w.origin[t.value].msgID, t.creationTime)
            && w.origin[t.value].msgID in w.receipts && Unused(w, t.value)
            && if i < |ts| then t == ts[i] && w.origin[t.value].msgID !in w.sessions[s].unconfirmed
               else i - |ts| < |w.sessions[s].unconfirmed[msgID].tags|
                    && t.value == w.sessions[s].unconfirmed[msgID].tags[i - |ts|] && w.origin[t.value].msgID == msgID
  {
    var u := w.sessions[s].unconfirmed[msgID];
    if i >= |w.sessions[s].sessionTags| {
      assert u.tags[i - |w.sessions[s].sessionTags|] in u.tags;
    }
  }

  /** The confirmed tags join the list behind those already there, which come from other messages. */
  lemma ConfirmedTags(w: World, s: nat, msgID: nat)
    requires Agreement(w) && Possible(w, Confirm(s, msgID))
    ensures ConfirmedOk(Apply(w, Confirm(s, msgID)), s)
  {
    var w' := Apply(w, Confirm(s, msgID));
    assert ConfirmedOk(w, s) && UnconfirmedOk(w, s);
    SameUnused(w, w');
    if msgID in w.sessions[s].unconfirmed {
      var ts' := w'.sessions[s].sessionTags;
      forall i | 0 <= i < |ts'|
        ensures ts'[i].value in w.origin
        ensures w.origin[ts'[i].value].session == s && w.origin[ts'[i].value].born == ts'[i].creationTime
        ensures w.origin[ts'[i].value].msgID in w.receipts && Unused(w, ts'[i].value)
        ensures w.origin[ts'[i].value].msgID !in w'.sessions[s].unconfirmed
      {
        ConfirmedTag(w, s, msgID, i);
      }
      ConfirmedDistinct(w, s, msgID);
    }
  }

  lemma ConfirmedDistinct(w: World, s: nat, msgID: nat)
    requires s < |w.sessions| && ConfirmedOk(w, s) && UnconfirmedOk(w, s)
    requires msgID in w.receipts && msgID in w.sessions[s].unconfirmed
    ensures DistinctValues(ConfirmTags(w.sessions[s], msgID, w.now).sessionTags)
  {
    var ts' := ConfirmTags(w.sessions[s], msgID, w.now).sessionTags;
    forall i, j | 0 <= i < j < |ts'| ensures ts'[i].value != ts'[j].value {
      ConfirmedTag(w, s, msgID, i);
      ConfirmedTag(w, s, msgID, j);
    }
  }

  /** Erasing expired tags keeps different tags different. */
  lemma {:induction false} UnexpiredDistinct(tags: seq<SessionTag>, ts: nat)
    requires DistinctValues(tags)
    ensures DistinctValues(Unexpired(tags, ts))
  {
    if tags == [] {
    } else {
      var n := |tags| - 1;
      UnexpiredMembers(tags[..n], ts);
      UnexpiredDistinct(tags[..n], ts);
      var r := Unexpired(tags[..n], ts);
      forall i | 0 <= i < |r| ensures r[i].value != tags[n].value {
        assert r[i] in r;
      }
    }
  }

  lemma CleanupConfirmed(w: World, s: nat)
    requires Agreement(w) && s < |w.sessions|
    ensures ConfirmedOk(Apply(w, Cleanup(s)), s)
  {
    var w' := Apply(w, Cleanup(s));
    assert ConfirmedOk(w, s);
    SameUnused(w, w');
    UnexpiredMembers(w.sessions[s].sessionTags, w.now);
    UnexpiredDistinct(w.sessions[s].sessionTags, w.now);
    var ts, ts' := w.sessions[s].sessionTags, w'.sessions[s].sessionTags;
    forall i | 0 <= i < |ts'| ensures ts'[i] in ts {
      assert ts'[i] in ts';
    }
  }

  lemma CleanupAgrees(w: World, s: nat)
    requires Agreement(w) && s < |w.sessions|
    ensures Agreement(Apply(w, Cleanup(s)))
  {
    var w' := Apply(w, Cleanup(s));
    assert UnconfirmedOk(w, s);
    SameUnused(w, w');
    CleanupConfirmed(w, s);
    forall id | id in w'.sessions[s].unconfirmed ensures OnNet(w', id) {
      assert OnNet(w, id);
    }
    SessionChanged(w, w', s);
  }

  lemma TickAgrees(w: World, n: nat)
    requires Agreement(w)
    ensures Agreement(Apply(w, Tick(n)))
  {
    var w' := Apply(w, Tick(n));
    forall i | 0 <= i < |w'.net| ensures SentOk(w', w'.net[i]) {
      assert SentOk(w, w.net[i]);
    }
    forall id | id in w'.receipts ensures OnNet(w', id) {
      assert OnNet(w, id);
    }
    forall v | v in w'.origin ensures Brought(w', v, w'.origin[v].msgID) {
      assert Brought(w, v, w.origin[v].msgID);
    }
    forall v | v in w'.origin && w'.origin[v].msgID in w'.receipts ensures Granted(w', v) {
      assert Granted(w, v);
    }
    SessionsStay(w, w');
  }

  lemma BeginAgrees(w: World)
    requires Begin(w)
    ensures Agreement(w)
  {
    forall s | 0 <= s < |w.sessions| ensures ConfirmedOk(w, s) && UnconfirmedOk(w, s) {
      assert w.sessions[s].sessionTags == [];
    }
  }

  lemma EventAgrees(w: World, e: Event)
    requires Agreement(w) && Possible(w, e)
    ensures Agreement(Apply(w, e))
  {
    match e
    case Tick(n) => TickAgrees(w, n);
    case WrapMessage(s, generated, msgID, at) => WrapAgrees(w, s, generated, msgID, at);
    case Arrive(k) => ArriveAgrees(w, k);
    case Confirm(s, msgID) => ConfirmAgrees(w, s, msgID);
    case Cleanup(s) => CleanupAgrees(w, s);
  }

  // ---------------------------------------------------------------- every run

  ghost predicate ReachableFrom(w0: World, es: seq<Event>, w: World)
    decreases |es|
  {
    if es == [] then w == w0 else Possible(w0, es[0]) && ReachableFrom(Apply(w0, es[0]), es[1..], w)
  }

  lemma {:induction false} RunAgrees(w0: World, es: seq<Event>, w: World)
    requires Agreement(w0) && ReachableFrom(w0, es, w)
    ensures Agreement(w)
    decreases |es|
  {
    if es == [] {
    } else {
      EventAgrees(w0, es[0]);
      RunAgrees(Apply(w0, es[0]), es[1..], w);
    }
  }

  ghost predicate Reachable(w: World) { exists w0, es :: Begin(w0) && ReachableFrom(w0, es, w) }

  lemma ReachableAgrees(w: World)
    requires Reachable(w)
    ensures Agreement(w)
  {
    var w0, es :| Begin(w0) && ReachableFrom(w0, es, w);
    BeginAgrees(w0);
    RunAgrees(w0, es, w);
  }

  /**
   Tag agreement: in every run, if a message carrying a tag has not arrived before and was sent at most 241 seconds
   ago, the destination knows the tag, bound to the key of the session that sent the message, and so understands it.
   */
  lemma FirstArrivalUnderstood(w: World, k: nat)
    requires Reachable(w) && k < |w.net| && k !in w.arrived && w.now <= w.net[k].time + MAX_TRANSIT
    ensures w.net[k].session < |w.sessions| && Understood(w.dest, w.net[k].garlic)
    ensures w.net[k].garlic.tag.Some? ==>
              var v := w.net[k].garlic.tag.value;
              v in w.dest.tags && w.dest.tags[v].key == w.sessions[w.net[k].session].key
  {
    ReachableAgrees(w);
    TagKnown(w, k);
  }

  lemma TagKnown(w: World, k: nat)
    requires Agreement(w) && k < |w.net| && k !in w.arrived && w.now <= w.net[k].time + MAX_TRANSIT
    ensures w.net[k].session < |w.sessions| && Understood(w.dest, w.net[k].garlic)
    ensures w.net[k].garlic.tag.Some? ==>
              var v := w.net[k].garlic.tag.value;
              v in w.dest.tags && w.dest.tags[v].key == w.sessions[w.net[k].session].key
  {
    assert SentOk(w, w.net[k]);
    if w.net[k].garlic.tag.Some? {
      var v := w.net[k].garlic.tag.value;
      assert Granted(w, v);
      if Consumed(w, v) {
        OnlyOneCarries(w, k, v);
      }
    }
  }

  lemma OnlyOneCarries(w: World, k: nat, v: TagValue)
    requires NetOk(w) && k < |w.net| && Carries(w.net[k], v) && Consumed(w, v)
    ensures k in w.arrived
  {
    var i :| i in w.arrived && i < |w.net| && Carries(w.net[i], v);
    assert i == k;
  }

  /** No tag is ever sent twice, by any session. */
  lemma TagsUsedOnce(w: World, i: nat, j: nat)
    requires Reachable(w) && i < j < |w.net| && w.net[i].garlic.tag.Some?
    ensures w.net[i].garlic.tag != w.net[j].garlic.tag
  {
    ReachableAgrees(w);
  }

  /** However often and late a message arrives, it is never decrypted with a key it was not encrypted with. */
  lemma NeverWrongKey(w: World, k: nat)
    requires Reachable(w) && k < |w.net|
    ensures DecryptsWith(w.dest, w.net[k].garlic).Some? ==> Understood(w.dest, w.net[k].garlic)
  {
    ReachableAgrees(w);
    assert SentOk(w, w.net[k]);
  }

  // ---------------------------------------------------------------- the bound on transit is exact

  lemma {:induction false} RunExtends(w0: World, es: seq<Event>, w: World, e: Event)
    requires ReachableFrom(w0, es, w) && Possible(w, e)
    ensures ReachableFrom(w0, es + [e], Apply(w, e))
    decreases |es|
  {
    if es == [] {
      assert (es + [e])[1..] == [];
    } else {
      RunExtends(Apply(w0, es[0]), es[1..], w, e);
      assert (es + [e])[1..] == es[1..] + [e];
    }
  }

  lemma ReachableStep(w: World, e: Event)
    requires Reachable(w) && Possible(w, e)
    ensures Reachable(Apply(w, e))
  {
    var w0, es :| Begin(w0) && ReachableFrom(w0, es, w);
    RunExtends(w0, es, w, e);
  }

  const K: SessionKey := [1]
  const A: TagValue := [2]
  const B: TagValue := [3]

  /** Tag A was created and received at second 10 and has been confirmed. */
  ghost function Granting(now: nat): World {
    World(now, [Session(K, 1, true, [SessionTag(A, 10)], map[])], [Sent(Garlic(None, K, [A], 7, true), 0, 10)], {0},
          Destination(map[A := Entry(K, 10)], 1), {7}, map[A := Origin(0, 7, 10)])
  }

  /** Before that message was made, on its way, and processed but not confirmed. */
  ghost function Unstarted(): World {
    World(10, [Session(K, 1, true, [], map[])], [], {}, Destination(map[], 1), {}, map[])
  }

  ghost function UnderWay(): World {
    World(10, [Session(K, 1, true, [], map[7 := UnconfirmedTags([A], 10)])],
          [Sent(Garlic(None, K, [A], 7, true), 0, 10)], {}, Destination(map[], 1), {}, map[A := Origin(0, 7, 10)])
  }

  ghost function Processed(): World {
    UnderWay().(arrived := {0}, dest := Destination(map[A := Entry(K, 10)], 1), receipts := {7})
  }

  lemma FirstWrapped()
    ensures var e := WrapMessage(0, [A], 7, Situation(true, false));
            Possible(Unstarted(), e) && Apply(Unstarted(), e) == UnderWay()
  {
    var w := Apply(Unstarted(), WrapMessage(0, [A], 7, Situation(true, false)));
    assert w.sessions == UnderWay().sessions;
    assert w.origin == UnderWay().origin;
  }

  lemma FirstProcessed()
    ensures Possible(UnderWay(), Arrive(0)) && Apply(UnderWay(), Arrive(0)) == Processed()
  {
    assert AddTags(map[], [A], K, 10) == AddTags(AddTag(map[], A, K, 10), [], K, 10);
    assert Apply(UnderWay(), Arrive(0)).dest == Processed().dest;
  }

  lemma FirstConfirmed()
    ensures Possible(Processed(), Confirm(0, 7)) && Apply(Processed(), Confirm(0, 7)) == Granting(10)
  {
    assert Dated([A], 10) == [SessionTag(A, 10)];
    var t := ConfirmTags(Processed().sessions[0], 7, 10);
    assert t.sessionTags == [SessionTag(A, 10)] && t.unconfirmed == map[];
    assert Apply(Processed(), Confirm(0, 7)).sessions == [t];
  }

  lemma GrantingReachable()
    ensures Reachable(Granting(10))
  {
    assert ReachableFrom(Unstarted(), [], Unstarted());
    FirstWrapped();
    ReachableStep(Unstarted(), WrapMessage(0, [A], 7, Situation(true, false)));
    FirstProcessed();
    ReachableStep(UnderWay(), Arrive(0));
    FirstConfirmed();
    ReachableStep(Processed(), Confirm(0, 7));
  }

  /** The tag is used in its last second, and a duplicate of the first message arrives before the tag does. */
  lemma LateTagExpired(transit: nat) returns (w: World)
    requires transit > MAX_TRANSIT
    ensures Reachable(w) && |w.net| == 2 && w.arrived == {0} && w.now == w.net[1].time + transit
    ensures w.net[1].garlic.tag == Some(A) && A !in w.dest.tags
  {
    GrantingReachable();
    ReachableStep(Granting(10), Tick(719));
    assert Apply(Granting(10), Tick(719)) == Granting(729);
    var e := WrapMessage(0, [B], 8, Situation(true, false));
    ReachableStep(Granting(729), e);
    var w5 := Apply(Granting(729), e);
    var m := w5.net[1].garlic;
    assert m.tag == Some(A);
    ReachableStep(w5, Tick(transit));
    var w6 := Apply(w5, Tick(transit));
    assert w6.dest == Destination(map[A := Entry(K, 10)], 1) && w6.now == 729 + transit;
    ReachableStep(w6, Arrive(0));
    w := Apply(w6, Arrive(0));
    HandleTags(w6.dest, w6.net[0].garlic, w6.now, A);
    assert w.arrived == {0};
  }

  /** Message k could arrive for the first time now, that long after it was sent. */
  ghost predicate ArrivesAfter(w: World, k: nat, transit: nat) {
    Reachable(w) && k < |w.net| && k !in w.arrived && w.now == w.net[k].time + transit
  }

  /** 241 seconds is the exact bound: beyond it a run exists in which a first arrival is not understood. */
  lemma TransitBoundIsExact(transit: nat)
    ensures transit <= MAX_TRANSIT <==>
              forall w: World, k: nat | ArrivesAfter(w, k, transit) :: Understood(w.dest, w.net[k].garlic)
  {
    if transit <= MAX_TRANSIT {
      forall w: World, k: nat | ArrivesAfter(w, k, transit)
        ensures Understood(w.dest, w.net[k].garlic)
      {
        FirstArrivalUnderstood(w, k);
      }
    } else {
      var w := LateTagExpired(transit);
      assert ArrivesAfter(w, 1, transit) && !Understood(w.dest, w.net[1].garlic);
    }
  }
}
