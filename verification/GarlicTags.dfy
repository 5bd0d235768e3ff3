/**
 One-time session tags: a routing session hands out tags inside its messages
 and uses them once their delivery has been confirmed; the destination keeps the
 tags it was given until they are used or expire.
 */
module GarlicTags {
  import opened Bytes

  const INCOMING_TAGS_EXPIRATION_TIMEOUT: nat := 960
  const OUTGOING_TAGS_EXPIRATION_TIMEOUT: nat := 720

  /** The 32 bytes of a tag, and an AES session key. */
  type TagValue = seq<byte>
  type SessionKey = seq<byte>

  datatype SessionTag = SessionTag(value: TagValue, creationTime: nat)

  datatype UnconfirmedTags = UnconfirmedTags(tags: seq<TagValue>, creationTime: nat)

  /** A routing session's own state; numTags is 0 if it must not create tags, owned says it has an owner. */
  datatype Session = Session(
    key: SessionKey, numTags: nat, owned: bool,
    sessionTags: seq<SessionTag>, unconfirmed: map<nat, UnconfirmedTags>)

  /**
   A garlic message: the tag it starts with, or none for an ElGamal block with the session key; the tags inside; and
   whether a DeliveryStatus clove with msgID travels along.
   */
  datatype Garlic = Garlic(tag: Option<TagValue>, key: SessionKey, newTags: seq<TagValue>, msgID: nat, clove: bool)

  // ---------------------------------------------------------------- sending

  predicate Usable(t: SessionTag, ts: nat) { ts < t.creationTime + OUTGOING_TAGS_EXPIRATION_TIMEOUT }

  /** The loop that finds a tag: expired ones at the front are thrown away. */
  function PickTag(tags: seq<SessionTag>, ts: nat): (r: (Option<SessionTag>, seq<SessionTag>)) {
    if tags == [] then (None, [])
    else if Usable(tags[0], ts) then (Some(tags[0]), tags[1..])
    else PickTag(tags[1..], ts)
  }

  /** The first usable tag of was is taken: unusable ones before it are gone, all behind it are left. */
  ghost predicate FirstUsable(was: seq<SessionTag>, ts: nat, tag: Option<SessionTag>, left: seq<SessionTag>) {
    match tag
    case Some(t) =>
      exists n :: 0 <= n < |was| && was[n] == t && Usable(t, ts)
                  && (forall i :: 0 <= i < n ==> !Usable(was[i], ts)) && left == was[n + 1..]
    case None => left == [] && forall i :: 0 <= i < |was| ==> !Usable(was[i], ts)
  }

  lemma {:induction false} PickTagOk(tags: seq<SessionTag>, ts: nat)
    ensures FirstUsable(tags, ts, PickTag(tags, ts).0, PickTag(tags, ts).1)
  {
    if tags == [] {
    } else if Usable(tags[0], ts) {
      assert tags[0 + 1..] == tags[1..];
    } else {
      PickTagOk(tags[1..], ts);
      var (tag, left) := PickTag(tags[1..], ts);
      if tag.Some? {
        var n :| 0 <= n < |tags[1..]| && tags[1..][n] == tag.value && Usable(tag.value, ts)
                 && (forall i :: 0 <= i < n ==> !Usable(tags[1..][i], ts)) && left == tags[1..][n + 1..];
        assert tags[n + 1] == tag.value && left == tags[n + 1 + 1..];
        forall i | 0 <= i < n + 1 ensures !Usable(tags[i], ts) {
          assert i > 0 ==> tags[1..][i - 1] == tags[i];
        }
      } else {
        forall i | 0 <= i < |tags| ensures !Usable(tags[i], ts) {
          assert i > 0 ==> tags[1..][i - 1] == tags[i];
        }
      }
    }
  }

  predicate CreatesTags(s: Session) {
    s.owned && s.numTags > 0 && |s.sessionTags| <= s.numTags * 2 / 3
  }

  /** Whether an inbound tunnel is there for the DeliveryStatus, and whether the peer has to be told our LeaseSet. */
  datatype Situation = Situation(tunnel: bool, leaseSet: bool)

  /**
   WrapSingleMessage at time ts: generated are the tags the random generator would produce, msgID the message id drawn.
   New tags or a LeaseSet to be told bring the DeliveryStatus clove along; only new tags wait for it.
   */
  function Wrap(s: Session, ts: nat, generated: seq<TagValue>, msgID: nat, at: Situation): (r: (Session, Garlic)) {
    var (tag, rest) := if s.numTags > 0 then PickTag(s.sessionTags, ts) else (None, s.sessionTags);
    var s1 := s.(sessionTags := rest);
    var newTags := if CreatesTags(s1) then generated else [];
    var clove := s.owned && (CreatesTags(s1) || at.leaseSet) && at.tunnel;
    var s2 := if CreatesTags(s1) && clove
              then s1.(unconfirmed := s1.unconfirmed[msgID := UnconfirmedTags(newTags, ts)]) else s1;
    (s2, Garlic(if tag.Some? then Some(tag.value.value) else None, s.key, newTags, msgID, clove))
  }

  /** At most two thirds of the tags it may have are left. */
  predicate RunsLow(numTags: nat, left: seq<SessionTag>) { numTags > 0 && 3 * |left| <= 2 * numTags }

  /**
   What wrapping a message amounts to: it uses the first usable tag, brings new tags if the session runs low, asks for a
   confirmation if there is anything to confirm and a tunnel for it, and waits for that of the tags.
   */
  ghost predicate Wrapped(s: Session, ts: nat, generated: seq<TagValue>, msgID: nat, at: Situation, t: Session, m: Garlic) {
    var refill := s.owned && RunsLow(s.numTags, t.sessionTags);
    && (t.key, t.numTags, t.owned) == (s.key, s.numTags, s.owned) && m.key == s.key && m.msgID == msgID
    && (exists tag :: FirstUsableIf(s.numTags > 0, s.sessionTags, ts, tag, t.sessionTags)
                      && m.tag == if tag.Some? then Some(tag.value.value) else None)
    && m.newTags == (if refill then generated else [])
    && (m.clove <==> s.owned && at.tunnel && (refill || at.leaseSet))
    && t.unconfirmed.Keys == s.unconfirmed.Keys + (if refill && at.tunnel then {msgID} else {})
    && (refill && at.tunnel ==> t.unconfirmed[msgID] == UnconfirmedTags(generated, ts))
    && (forall id :: id in s.unconfirmed && !(refill && at.tunnel && id == msgID) ==> t.unconfirmed[id] == s.unconfirmed[id])
  }

  /** A session that must not have tags does not look for one. */
  ghost predicate FirstUsableIf(may: bool, was: seq<SessionTag>, ts: nat, tag: Option<SessionTag>, left: seq<SessionTag>) {
    if may then FirstUsable(was, ts, tag, left) else tag == None && left == was
  }

  lemma WrapExactly(s: Session, ts: nat, generated: seq<TagValue>, msgID: nat, at: Situation)
    ensures Wrapped(s, ts, generated, msgID, at, Wrap(s, ts, generated, msgID, at).0, Wrap(s, ts, generated, msgID, at).1)
  {
    PickTagOk(s.sessionTags, ts);
    var (tag, left) := if s.numTags > 0 then PickTag(s.sessionTags, ts) else (None, s.sessionTags);
    assert FirstUsableIf(s.numTags > 0, s.sessionTags, ts, tag, left);
  }

  /** The given tags with their common creation time, in order. */
  function Dated(tags: seq<TagValue>, creationTime: nat): (r: seq<SessionTag>)
    ensures |r| == |tags|
  {
    seq(|tags|, i requires 0 <= i < |tags| => SessionTag(tags[i], creationTime))
  }

  function ConfirmTags(s: Session, msgID: nat, ts: nat): Session {
    if msgID !in s.unconfirmed then s else
      var u := s.unconfirmed[msgID];
      s.(sessionTags := if ts < u.creationTime + OUTGOING_TAGS_EXPIRATION_TIMEOUT
                        then s.sessionTags + Dated(u.tags, u.creationTime) else s.sessionTags,
         unconfirmed := s.unconfirmed - {msgID})
  }

  /**
   The confirmed tags of a message follow those there, in their order and with their creation time, unless they are too
   old; the session waits for that message no longer, and for the others as before.
   */
  ghost predicate Confirmed(s: Session, msgID: nat, ts: nat, t: Session) {
    var n := |s.sessionTags|;
    && (t.key, t.numTags, t.owned) == (s.key, s.numTags, s.owned)
    && t.unconfirmed.Keys == s.unconfirmed.Keys - {msgID}
    && (forall id :: id in t.unconfirmed ==> t.unconfirmed[id] == s.unconfirmed[id])
    && n <= |t.sessionTags| && t.sessionTags[..n] == s.sessionTags
    && if msgID in s.unconfirmed && ts < s.unconfirmed[msgID].creationTime + OUTGOING_TAGS_EXPIRATION_TIMEOUT then
         var u := s.unconfirmed[msgID];
         && |t.sessionTags| == n + |u.tags|
         && forall i :: 0 <= i < |u.tags| ==> t.sessionTags[n + i] == SessionTag(u.tags[i], u.creationTime)
       else |t.sessionTags| == n
  }

  function Unexpired(tags: seq<SessionTag>, ts: nat): seq<SessionTag> {
    if tags == [] then [] else
      var n := |tags| - 1;
      Unexpired(tags[..n], ts) + if Usable(tags[n], ts) then [tags[n]] else []
  }

  function DropExpired(s: Session, ts: nat): Session {
    s.(sessionTags := Unexpired(s.sessionTags, ts),
       unconfirmed := map id | id in s.unconfirmed
                               && ts < s.unconfirmed[id].creationTime + OUTGOING_TAGS_EXPIRATION_TIMEOUT
                           :: s.unconfirmed[id])
  }

  /** Exactly the usable tags are left, in their order, and exactly the entries not yet expired. */
  ghost predicate Cleaned(s: Session, ts: nat, t: Session) {
    && (t.key, t.numTags, t.owned) == (s.key, s.numTags, s.owned)
    && (exists ks :: Places(s.sessionTags, tag => Usable(tag, ts), ks) && Chosen(s.sessionTags, ks, t.sessionTags))
    && (forall id :: id in t.unconfirmed <==>
          id in s.unconfirmed && ts < s.unconfirmed[id].creationTime + OUTGOING_TAGS_EXPIRATION_TIMEOUT)
    && (forall id :: id in t.unconfirmed ==> t.unconfirmed[id] == s.unconfirmed[id])
  }

  ghost predicate Chosen(all: seq<SessionTag>, ks: seq<nat>, r: seq<SessionTag>) {
    |r| == |ks| && forall i :: 0 <= i < |ks| ==> ks[i] < |all| && r[i] == all[ks[i]]
  }

  lemma {:induction false} UnexpiredChosen(tags: seq<SessionTag>, ts: nat, keep: SessionTag -> bool) returns (ks: seq<nat>)
    requires forall tag :: keep(tag) == Usable(tag, ts)
    ensures Places(tags, keep, ks) && Chosen(tags, ks, Unexpired(tags, ts))
  {
    if tags == [] {
      ks := [];
    } else {
      var n := |tags| - 1;
      ks := UnexpiredChosen(tags[..n], ts, keep);
      assert tags == tags[..n] + [tags[n]];
      PlacesSnoc(tags[..n], keep, ks, tags[n]);
      ks := if keep(tags[n]) then ks + [n] else ks;
    }
  }

  lemma CleanupExactly(s: Session, ts: nat)
    ensures Cleaned(s, ts, DropExpired(s, ts))
  {
    var ks := UnexpiredChosen(s.sessionTags, ts, tag => Usable(tag, ts));
  }

  /** What CleanupExpiredTags returns for what it leaves. */
  predicate CleanupResult(s: Session) { |s.sessionTags| > 0 || s.unconfirmed == map[] }

  predicate SomethingLeft(s: Session) { |s.sessionTags| > 0 || s.unconfirmed != map[] }

  /** The result is right if and only if a session tag is left. */
  lemma LeftExactly(s: Session, ts: nat)
    ensures var t := DropExpired(s, ts);
            CleanupResult(t) == SomethingLeft(t) <==> exists tag :: tag in s.sessionTags && Usable(tag, ts)
  {
    UnexpiredMembers(s.sessionTags, ts);
    var left := Unexpired(s.sessionTags, ts);
    if |left| > 0 {
      assert left[0] in left;
    }
  }

  lemma {:induction false} UnexpiredMembers(tags: seq<SessionTag>, ts: nat)
    ensures forall t :: t in Unexpired(tags, ts) <==> t in tags && Usable(t, ts)
  {
    if tags == [] {
    } else {
      var n := |tags| - 1;
      UnexpiredMembers(tags[..n], ts);
      assert tags == tags[..n] + [tags[n]];
    }
  }

  /** A session that waits for its first tags to be confirmed is reported empty, and an empty one is not. */
  lemma OnlyUnconfirmedLeft(key: SessionKey, tag: TagValue)
    ensures var t := DropExpired(Session(key, 1, true, [], map[7 := UnconfirmedTags([tag], 10)]), 10);
            SomethingLeft(t) && !CleanupResult(t)
    ensures var t := DropExpired(Session(key, 1, true, [], map[]), 10); !SomethingLeft(t) && CleanupResult(t)
  {
    var u := DropExpired(Session(key, 1, true, [], map[7 := UnconfirmedTags([tag], 10)]), 10);
    assert 7 in u.unconfirmed;
  }

  class GarlicRoutingSession {
    const key: SessionKey
    const numTags: nat
    const owned: bool
    var sessionTags: seq<SessionTag>
    var unconfirmedTagsMsgs: map<nat, UnconfirmedTags>

    ghost function State(): Session
      reads this
    {
      Session(key, numTags, owned, sessionTags, unconfirmedTagsMsgs)
    }

    constructor (key: SessionKey, numTags: nat)
      ensures State() == Session(key, numTags, true, [], map[])
    {
      this.key, this.numTags, owned := key, numTags, true;
      sessionTags, unconfirmedTagsMsgs := [], map[];
    }

    /** One time encryption with a key and tag the other side already knows. */
    constructor OneTime(key: SessionKey, tag: TagValue, ts: nat)
      ensures State() == Session(key, 1, false, [SessionTag(tag, ts)], map[])
    {
      this.key, numTags, owned := key, 1, false;
      sessionTags, unconfirmedTagsMsgs := [SessionTag(tag, ts)], map[];
    }

    method FindTag(ts: nat) returns (tag: Option<SessionTag>)
      modifies this`sessionTags
      ensures (tag, sessionTags) == PickTag(old(sessionTags), ts)
      ensures FirstUsable(old(sessionTags), ts, tag, sessionTags)
    {
      PickTagOk(sessionTags, ts);
      tag := None;
      while |sessionTags| > 0
        invariant tag == None && PickTag(sessionTags, ts) == PickTag(old(sessionTags), ts)
        decreases |sessionTags|
      {
        var front := sessionTags[0];
        sessionTags := sessionTags[1..];
        if Usable(front, ts) {
          return Some(front);
        }
      }
    }

    /** Without an owner there is no destination to encrypt an ElGamal block for, so then a tag is needed. */
    method WrapSingleMessage(ts: nat, generated: seq<TagValue>, msgID: nat, at: Situation) returns (m: Option<Garlic>)
      modifies this
      ensures State() == Wrap(old(State()), ts, generated, msgID, at).0
      ensures var garlic := Wrap(old(State()), ts, generated, msgID, at).1;
              m == if owned || garlic.tag.Some? then Some(garlic) else None
      ensures m.Some? ==> Wrapped(old(State()), ts, generated, msgID, at, State(), m.value)
      ensures m.None? <==> !owned && (numTags == 0 || forall t :: t in old(sessionTags) ==> !Usable(t, ts))
    {
      ghost var s := State();
      WrapExactly(s, ts, generated, msgID, at);
      var tag := None;
      if numTags > 0 {
        tag := FindTag(ts);
      }
      if tag.None? && !owned {
        return None;
      }
      var newTags, clove := [], false;
      var createNewTags := owned && numTags > 0 && |sessionTags| <= numTags * 2 / 3;
      if createNewTags {
        newTags := generated;
      }
      if owned && (createNewTags || at.leaseSet) && at.tunnel {
        clove := true;
        if createNewTags {
          unconfirmedTagsMsgs := unconfirmedTagsMsgs[msgID := UnconfirmedTags(newTags, ts)];
        }
      }
      m := Some(Garlic(if tag.Some? then Some(tag.value.value) else None, key, newTags, msgID, clove));
    }

    method TagsConfirmed(msgID: nat, ts: nat)
      modifies this
      ensures State() == ConfirmTags(old(State()), msgID, ts)
      ensures Confirmed(old(State()), msgID, ts, State())
    {
      if msgID in unconfirmedTagsMsgs {
        var tags := unconfirmedTagsMsgs[msgID];
        if ts < tags.creationTime + OUTGOING_TAGS_EXPIRATION_TIMEOUT {
          ghost var before := sessionTags;
          var i := 0;
          while i < |tags.tags|
            invariant 0 <= i <= |tags.tags|
            invariant sessionTags == before + Dated(tags.tags, tags.creationTime)[..i]
            invariant unchanged(this`unconfirmedTagsMsgs)
          {
            sessionTags := sessionTags + [SessionTag(tags.tags[i], tags.creationTime)];
            i := i + 1;
          }
        }
        unconfirmedTagsMsgs := unconfirmedTagsMsgs - {msgID};
      }
    }

    /** The result is meant to say that something is left, but see LeftExactly. */
    method CleanupExpiredTags(ts: nat) returns (result: bool)
      modifies this
      ensures State() == DropExpired(old(State()), ts) && result == CleanupResult(State())
      ensures Cleaned(old(State()), ts, State())
    {
      CleanupExactly(State(), ts);
      var kept := [];
      var i := 0;
      while i < |sessionTags|
        invariant 0 <= i <= |sessionTags|
        invariant kept == Unexpired(sessionTags[..i], ts)
      {
        assert sessionTags[..i + 1][..i] == sessionTags[..i];
        if Usable(sessionTags[i], ts) {
          kept := kept + [sessionTags[i]];
        }
        i := i + 1;
      }
      assert sessionTags[..i] == sessionTags;
      sessionTags := kept;
      unconfirmedTagsMsgs := map id | id in unconfirmedTagsMsgs
          && ts < unconfirmedTagsMsgs[id].creationTime + OUTGOING_TAGS_EXPIRATION_TIMEOUT :: unconfirmedTagsMsgs[id];
      result := |sessionTags| > 0 || unconfirmedTagsMsgs == map[];
    }
  }

  // ---------------------------------------------------------------- receiving

  /** The key a tag decrypts with, and when the tag was first put into the table. */
  datatype Entry = Entry(key: SessionKey, creationTime: nat)

  datatype Destination = Destination(tags: map<TagValue, Entry>, lastCleanup: nat)

  /** m_Tags[tag] = decryption: a tag already there keeps its old creation time, which is part of the map's key. */
  function AddTag(tags: map<TagValue, Entry>, t: TagValue, key: SessionKey, ts: nat): map<TagValue, Entry> {
    tags[t := Entry(key, if t in tags then tags[t].creationTime else ts)]
  }

  function AddTags(tags: map<TagValue, Entry>, ts: seq<TagValue>, key: SessionKey, now: nat): map<TagValue, Entry>
    decreases |ts|
  {
    if ts == [] then tags else AddTags(AddTag(tags, ts[0], key, now), ts[1..], key, now)
  }

  /** The key a message is decrypted with, if any. */
  function DecryptsWith(d: Destination, m: Garlic): Option<SessionKey> {
    match m.tag
    case Some(t) => if t in d.tags then Some(d.tags[t].key) else None
    case None => Some(m.key)
  }

  /** The message is understood: the AES block is decrypted with the key it was encrypted with. */
  predicate Understood(d: Destination, m: Garlic) { DecryptsWith(d, m) == Some(m.key) }

  function ExpireTags(d: Destination, ts: nat): Destination {
    if ts > d.lastCleanup + INCOMING_TAGS_EXPIRATION_TIMEOUT then
      Destination(
        if d.lastCleanup != 0
        then map t | t in d.tags && ts <= d.tags[t].creationTime + INCOMING_TAGS_EXPIRATION_TIMEOUT :: d.tags[t]
        else d.tags,
        ts)
    else d
  }

  /** HandleGarlicMessage at time ts; a block decrypted with a wrong key is taken to change no tag. */
  function Handle(d: Destination, m: Garlic, ts: nat): Destination {
    var tags1 := if Understood(d, m) then AddTags(d.tags, m.newTags, m.key, ts) else d.tags;
    var tags2 := if m.tag.Some? then tags1 - {m.tag.value} else tags1;
    ExpireTags(d.(tags := tags2), ts)
  }

  /** After storing, the table has the old and the new tags; those there before keep their age. */
  ghost predicate Stored(was: map<TagValue, Entry>, ts: seq<TagValue>, key: SessionKey, now: nat, r: map<TagValue, Entry>) {
    forall t :: (t in r <==> t in was || t in ts)
      && (t in r ==> r[t] == Entry(if t in ts then key else was[t].key, if t in was then was[t].creationTime else now))
  }

  lemma {:induction false} AddTagsExactly(was: map<TagValue, Entry>, ts: seq<TagValue>, key: SessionKey, now: nat)
    ensures Stored(was, ts, key, now, AddTags(was, ts, key, now))
    decreases |ts|
  {
    if ts == [] {
    } else {
      AddTagsExactly(AddTag(was, ts[0], key, now), ts[1..], key, now);
      assert ts == [ts[0]] + ts[1..];
    }
  }

  /**
   What an arriving message does to the table: it uses its own tag up and, if it was understood, adds the tags it brings;
   and when a clean-up is due, the tags past their time go.  The very first one only sets the time.
   */
  ghost predicate TakenIn(d: Destination, m: Garlic, ts: nat, r: Destination) {
    var known := m.tag.Some? ==> m.tag.value in d.tags && d.tags[m.tag.value].key == m.key;
    var due := ts > d.lastCleanup + INCOMING_TAGS_EXPIRATION_TIMEOUT;
    && r.lastCleanup == (if due then ts else d.lastCleanup)
    && forall t ::
         var born := if t in d.tags then d.tags[t].creationTime else ts;
         && (t in r.tags <==>
               && (t in d.tags || (known && t in m.newTags)) && m.tag != Some(t)
               && !(due && d.lastCleanup != 0 && ts > born + INCOMING_TAGS_EXPIRATION_TIMEOUT))
         && (t in r.tags ==> r.tags[t] == Entry(if known && t in m.newTags then m.key else d.tags[t].key, born))
  }

  lemma HandleExactly(d: Destination, m: Garlic, ts: nat)
    ensures TakenIn(d, m, ts, Handle(d, m, ts))
  {
    AddTagsExactly(d.tags, m.newTags, m.key, ts);
  }

  class GarlicDestination {
    var tags: map<TagValue, Entry>
    var lastTagsCleanupTime: nat

    ghost function State(): Destination
      reads this
    {
      Destination(tags, lastTagsCleanupTime)
    }

    constructor ()
      ensures State() == Destination(map[], 0)
    {
      tags, lastTagsCleanupTime := map[], 0;
    }

    /** The tag loop of HandleAESBlock. */
    method StoreTags(newTags: seq<TagValue>, key: SessionKey, ts: nat)
      modifies this`tags
      ensures tags == AddTags(old(tags), newTags, key, ts)
      ensures Stored(old(tags), newTags, key, ts, tags)
    {
      AddTagsExactly(tags, newTags, key, ts);
      var i := 0;
      while i < |newTags|
        invariant 0 <= i <= |newTags|
        invariant AddTags(tags, newTags[i..], key, ts) == AddTags(old(tags), newTags, key, ts)
      {
        assert newTags[i..][1..] == newTags[i + 1..];
        tags := AddTag(tags, newTags[i], key, ts);
        i := i + 1;
      }
    }

    method HandleGarlicMessage(m: Garlic, ts: nat)
      modifies this
      ensures State() == Handle(old(State()), m, ts)
      ensures TakenIn(old(State()), m, ts, State())
    {
      HandleExactly(State(), m, ts);
      match m.tag {
        case Some(tag) =>
          if tag in tags {
            if tags[tag].key == m.key {
              StoreTags(m.newTags, m.key, ts);
            }
            tags := tags - {tag};
          } else {
            // ElGamal decryption of a block that starts with a tag fails
            assert tags - {tag} == tags;
          }
        case None =>
          StoreTags(m.newTags, m.key, ts);
      }
      if ts > lastTagsCleanupTime + INCOMING_TAGS_EXPIRATION_TIMEOUT {
        if lastTagsCleanupTime != 0 {
          tags := map t | t in tags && ts <= tags[t].creationTime + INCOMING_TAGS_EXPIRATION_TIMEOUT :: tags[t];
        }
        lastTagsCleanupTime := ts;
      }
    }
  }
}
