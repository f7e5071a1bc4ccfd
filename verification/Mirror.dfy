/** The frontend's copy says what the backend's tables say, in every state of every run. */
module Mirror {
  import opened Wrappers
  import opened Derivation
  import opened DerivationInvariant
  import Inventory
  import F = Frontend

  // ---------------------------------------------------------------- the relation

  /** One inbox of the frontend against the rows of that inbox. */
  ghost predicate BoxMirrors(mail: Mail, s: State, id: InboxId, box: F.Box, readKeys: set<Key>) {
    && F.Tidy(box)
    && MessagesMirror(s, id, box.messages)
    && (forall m :: m in box.messages ==> EntryMirrors(mail, s, Key(m, id), box.messages[m], readKeys))
    && box.expirationTime == (if id in s.inboxExpiration then Some(s.inboxExpiration[id]) else None)
  }

  /** The same messages, saved or not as the table says. */
  ghost predicate MessagesMirror(s: State, id: InboxId, messages: map<Id, F.Message>) {
    && (forall m :: m in messages <==> HasMessage(s, Key(m, id)))
    && (forall row :: row in s.messages && row.key.inbox == id ==>
                        row.key.id in messages && messages[row.key.id].saved == row.saved)
  }

  /** What is shown of a message: its parent, whether it was read, and the latest expiration among the
      inventory items that hold it, if any still do. */
  ghost predicate EntryMirrors(mail: Mail, s: State, key: Key, message: F.Message, readKeys: set<Key>) {
    && mail.parse(key.id.plaintext) == Some(Parsed(message.inReplyTo))
    && (message.read <==> key in readKeys)
    && (HasRow(s, key) ==> message.expirationTime.Some? && IsLatest(s.derivations, key, message.expirationTime.value))
  }

  ghost predicate Mirrors(mail: Mail, s: State, v: F.View) {
    && (forall id :: id in v.boxes <==> HasInbox(s, id))
    && (forall id :: id in v.boxes ==> BoxMirrors(mail, s, id, v.boxes[id], v.readKeys))
    && (forall id :: id in s.inboxExpiration ==> HasInbox(s, id))
  }

  /** What the backend sent between two states. */
  function News(s: State, t: State): seq<Event> {
    if |s.events| <= |t.events| then t.events[|s.events|..] else []
  }

  /** The frontend after it has handled all that. */
  function Told(v: F.View, s: State, t: State): F.View {
    F.HandledAll(v, News(s, t))
  }

  lemma {:induction false} HandledInTurn(v: F.View, first: seq<Event>, second: seq<Event>)
    ensures F.HandledAll(v, first + second) == F.HandledAll(F.HandledAll(v, first), second)
  {
    if second == [] {
      assert first + second == first;
    } else {
      var before := second[..|second| - 1];
      assert (first + second)[..|first + second| - 1] == first + before;
      HandledInTurn(v, first, before);
    }
  }

  lemma ToldInTurn(v: F.View, s: State, u: State, t: State)
    requires s.events <= u.events <= t.events
    ensures Told(v, s, t) == Told(Told(v, s, u), u, t)
  {
    assert News(s, t) == News(s, u) + News(u, t);
    HandledInTurn(v, News(s, u), News(u, t));
  }

  lemma ToldOne(v: F.View, s: State, t: State)
    ensures t.events == s.events ==> Told(v, s, t) == v
    ensures forall event :: t.events == s.events + [event] ==> Told(v, s, t) == F.Handled(v, event)
  {
    forall event | t.events == s.events + [event] ensures Told(v, s, t) == F.Handled(v, event) {
      assert News(s, t) == [event];
      assert [event][..0] == [];
      assert F.HandledAll(v, []) == v;
    }
  }

  /** Nothing of inbox `id` differs between the two states. */
  ghost predicate SameInbox(s: State, t: State, id: InboxId) {
    && (forall m :: m in s.messages && m.key.inbox == id <==> m in t.messages && m.key.inbox == id)
    && (forall r :: r in s.derivations && r.key.inbox == id <==> r in t.derivations && r.key.inbox == id)
    && (id in s.inboxExpiration <==> id in t.inboxExpiration)
    && (id in s.inboxExpiration ==> s.inboxExpiration[id] == t.inboxExpiration[id])
  }

  lemma SameKeys(s: State, t: State, key: Key)
    requires SameInbox(s, t, key.inbox)
    ensures HasMessage(s, key) <==> HasMessage(t, key)
    ensures HasRow(s, key) <==> HasRow(t, key)
    ensures forall time :: IsLatest(s.derivations, key, time) <==> IsLatest(t.derivations, key, time)
  {
    if HasMessage(s, key) {
      var m :| m in s.messages && m.key == key;
      assert m in t.messages;
    }
    if HasMessage(t, key) {
      var m :| m in t.messages && m.key == key;
      assert m in s.messages;
    }
    assert forall r :: r in s.derivations && r.key == key <==> r in t.derivations && r.key == key;
  }

  lemma UntouchedBoxMirrors(mail: Mail, s: State, t: State, id: InboxId, box: F.Box, readKeys: set<Key>)
    requires BoxMirrors(mail, s, id, box, readKeys) && SameInbox(s, t, id)
    ensures BoxMirrors(mail, t, id, box, readKeys)
  {
    forall m: Id
      ensures HasMessage(s, Key(m, id)) <==> HasMessage(t, Key(m, id))
      ensures HasRow(s, Key(m, id)) <==> HasRow(t, Key(m, id))
      ensures forall time :: IsLatest(s.derivations, Key(m, id), time) <==> IsLatest(t.derivations, Key(m, id), time)
    {
      SameKeys(s, t, Key(m, id));
    }
    hide HasMessage, HasRow, IsLatest, F.Tidy;
  }

  /** It is enough to look at the one inbox that a change is about. */
  lemma OneBoxChanges(mail: Mail, s: State, t: State, v: F.View, u: F.View, id: InboxId)
    requires Mirrors(mail, s, v) && t.inboxes == s.inboxes
    requires OthersSame(s, t, v, u, id) && MirrorsThere(mail, t, u, id)
    ensures Mirrors(mail, t, u)
  {
    assert forall other :: HasInbox(t, other) <==> HasInbox(s, other);
    forall other | other in u.boxes ensures BoxMirrors(mail, t, other, u.boxes[other], u.readKeys) {
      if other != id {
        UntouchedBoxMirrors(mail, s, t, other, v.boxes[other], v.readKeys);
      }
    }
    forall other | other in t.inboxExpiration ensures HasInbox(t, other) {
      if other != id {
        assert SameInbox(s, t, other);
      }
    }
  }

  // ---------------------------------------------------------------- arrivals

  lemma SeenMirrors(mail: Mail, s: State, t: State, id: InboxId, box: F.Box, readKeys: set<Key>, time: int)
    requires BoxMirrors(mail, s, id, box, readKeys)
    requires t.messages == s.messages && t.derivations == s.derivations
    requires t.inboxExpiration == s.inboxExpiration[
        id := if id in s.inboxExpiration && s.inboxExpiration[id] > time then s.inboxExpiration[id] else time]
    ensures BoxMirrors(mail, t, id, F.Seen(box, time), readKeys)
  {
  }

  /** One more row for a message that has one already. */
  lemma HeldMirrors(
    mail: Mail, s: State, t: State, box: F.Box, u: F.Box, readKeys: set<Key>, row: Row, stored: int)
    requires BoxMirrors(mail, s, row.key.inbox, box, readKeys)
    requires HasMessage(s, row.key) && HasRow(s, row.key) && IsLatest(s.derivations, row.key, stored)
    requires t.messages == s.messages && t.derivations == s.derivations + [row]
    requires t.inboxExpiration == s.inboxExpiration
    requires u == if row.from.expirationTime > stored then F.Extended(box, row.key.id, row.from.expirationTime) else box
    ensures BoxMirrors(mail, t, row.key.inbox, u, readKeys)
  {
    var id := row.key.inbox;
    assert forall key :: HasMessage(s, key) <==> HasMessage(t, key);
    assert forall r :: r in t.derivations <==> r in s.derivations || r == row;
    forall m | m in u.messages ensures EntryMirrors(mail, t, Key(m, id), u.messages[m], readKeys) {
      HeldEntryMirrors(mail, s, t, row, stored, Key(m, id), box.messages[m], u.messages[m], readKeys);
    }
    hide EntryMirrors, IsLatest, HasMessage, HasRow, F.Tidy, MessagesMirror;
    if u != box {
      F.TouchKeepsTidy(box, row.key.id, u.messages[row.key.id]);
    }
  }

  lemma HeldEntryMirrors(
    mail: Mail, s: State, t: State, row: Row, stored: int, key: Key, was: F.Message, shown: F.Message,
    readKeys: set<Key>)
    requires HasRow(s, row.key) && IsLatest(s.derivations, row.key, stored)
    requires t.derivations == s.derivations + [row]
    requires EntryMirrors(mail, s, key, was, readKeys)
    requires shown == if key == row.key && row.from.expirationTime > stored
                    then was.(expirationTime := Some(row.from.expirationTime)) else was
    ensures EntryMirrors(mail, t, key, shown, readKeys)
  {
    assert forall r :: r in t.derivations <==> r in s.derivations || r == row;
    LatestWith(s.derivations, row, Some(stored));
    if key == row.key {
      SameLatest(s.derivations, row.key, stored, was.expirationTime.value);
    }
  }

  /** A new message with its first row. */
  lemma NewMessageMirrors(
    mail: Mail, s: State, t: State, box: F.Box, readKeys: set<Key>, row: Row, saved: bool, inReplyTo: Option<Id>)
    requires BoxMirrors(mail, s, row.key.inbox, box, readKeys)
    requires !HasMessage(s, row.key) && !HasRow(s, row.key)
    requires mail.parse(row.key.id.plaintext) == Some(Parsed(inReplyTo))
    requires t.messages == s.messages + [MessageRow(row.key, saved)] && t.derivations == s.derivations + [row]
    requires t.inboxExpiration == s.inboxExpiration
    ensures var message := F.Message(inReplyTo, Some(row.from.expirationTime), saved, row.key in readKeys);
            BoxMirrors(mail, t, row.key.inbox, F.Inserted(box, row.key.id, message), readKeys)
  {
    var id := row.key.inbox;
    var message := F.Message(inReplyTo, Some(row.from.expirationTime), saved, row.key in readKeys);
    var u := F.Inserted(box, row.key.id, message);
    assert row.key.id !in box.messages;
    hide F.Tidy, MessagesMirror, HasMessage, HasRow, EntryMirrors;
    F.InsertKeepsTidyExactly(box, row.key.id, message);
    NewMessageIsListed(s, t, row.key, box.messages, message);
    forall m | m in u.messages ensures EntryMirrors(mail, t, Key(m, id), u.messages[m], readKeys) {
      if m == row.key.id {
        NewEntryMirrors(mail, s, t, row, row.key, message, readKeys);
      } else {
        NewEntryMirrors(mail, s, t, row, Key(m, id), box.messages[m], readKeys);
      }
    }
  }

  lemma NewMessageIsListed(s: State, t: State, key: Key, messages: map<Id, F.Message>, message: F.Message)
    requires MessagesMirror(s, key.inbox, messages) && !HasMessage(s, key)
    requires t.messages == s.messages + [MessageRow(key, message.saved)]
    ensures MessagesMirror(t, key.inbox, messages[key.id := message])
  {
    assert forall m :: m in t.messages <==> m in s.messages || m == MessageRow(key, message.saved);
    forall k: Key ensures HasMessage(t, k) <==> HasMessage(s, k) || k == key {
      assert MessageRow(key, message.saved) in t.messages;
    }
  }

  lemma NewEntryMirrors(
    mail: Mail, s: State, t: State, row: Row, key: Key, message: F.Message, readKeys: set<Key>)
    requires !HasRow(s, row.key) && t.derivations == s.derivations + [row]
    requires if key == row.key then
               && mail.parse(key.id.plaintext) == Some(Parsed(message.inReplyTo))
               && (message.read <==> key in readKeys)
               && message.expirationTime == Some(row.from.expirationTime)
             else
               EntryMirrors(mail, s, key, message, readKeys)
    ensures EntryMirrors(mail, t, key, message, readKeys)
  {
  }

  /** What an arrival at one inbox leaves alone, in both places. */
  lemma ArriveAtTouchesOne(mail: Mail, s: State, v: F.View, live: set<Hash>, hash: Hash, inbox: Inbox)
    requires inbox.id in v.boxes
    ensures var t := ArriveAt(mail, s, live, hash, inbox);
            OthersSame(s, t, v, Told(v, s, t), inbox.id)
  {
    var t := ArriveAt(mail, s, live, hash, inbox);
    ToldOne(v, s, t);
    hide Told, StoredExpiration, F.HandledIn, SameInbox;
    forall other | other != inbox.id ensures SameInbox(s, t, other) {
      ArriveAtSpares(mail, s, live, hash, inbox, other);
    }
  }

  lemma ArriveAtSpares(mail: Mail, s: State, live: set<Hash>, hash: Hash, inbox: Inbox, other: InboxId)
    requires other != inbox.id
    ensures SameInbox(s, ArriveAt(mail, s, live, hash, inbox), other)
  {
  }

  ghost predicate OthersSame(s: State, t: State, v: F.View, u: F.View, id: InboxId) {
    && u.readKeys == v.readKeys && u.boxes.Keys == v.boxes.Keys
    && (forall other :: other in v.boxes && other != id ==> u.boxes[other] == v.boxes[other])
    && (forall other :: other != id ==> SameInbox(s, t, other))
  }

  /** Every row is of an item that is there and of a message that is there; rows may be there twice. */
  ghost predicate Rooted(s: State, live: set<Hash>) {
    forall r :: r in s.derivations ==> r.from in live && HasMessage(s, r.key)
  }

  lemma ArriveAtKeepsRooted(mail: Mail, s: State, live: set<Hash>, hash: Hash, inbox: Inbox)
    requires Rooted(s, live) && hash in live
    ensures Rooted(ArriveAt(mail, s, live, hash, inbox), live)
  {
    var t := ArriveAt(mail, s, live, hash, inbox);
    if t.derivations != s.derivations {
      var key := Key(Id(mail.open(hash.payload, inbox.id).plaintext), inbox.id);
      hide HasMessage, HasRow, IsLatest, Rooted, StoredExpiration;
      HeldIsThere(s, live, key);
      OneMoreRooted(s, t, live, Row(hash, key));
    }
  }

  lemma OneMoreRooted(s: State, t: State, live: set<Hash>, row: Row)
    requires Rooted(s, live) && row.from in live && t.derivations == s.derivations + [row] && s.messages <= t.messages
    requires HasMessage(s, row.key) || (|t.messages| > |s.messages| && t.messages[|s.messages|].key == row.key)
    ensures Rooted(t, live)
  {
    assert forall m :: m in s.messages ==> m in t.messages;
    forall r | r in t.derivations ensures r.from in live && HasMessage(t, r.key) {
      if r !in s.derivations {
        assert r == row;
      }
    }
  }

  /** An item arrives at one inbox, and the frontend hears of it. */
  lemma ArriveAtMirrors(mail: Mail, s: State, v: F.View, live: set<Hash>, hash: Hash, inbox: Inbox)
    requires Mirrors(mail, s, v) && Rooted(s, live) && hash in live && inbox in s.inboxes
    requires !Redelivers(mail, s, hash, inbox.id)
    ensures var t := ArriveAt(mail, s, live, hash, inbox);
            s.events <= t.events && Mirrors(mail, t, Told(v, s, t))
  {
    hide ArriveAt, Told, BoxMirrors, Rooted, Redelivers, OthersSame;
    var t := ArriveAt(mail, s, live, hash, inbox);
    assert HasInbox(s, inbox.id);
    ArriveAtMirrorsThere(mail, s, v, live, hash, inbox);
    ArriveAtTouchesOne(mail, s, v, live, hash, inbox);
    OneBoxChanges(mail, s, t, v, Told(v, s, t), inbox.id);
  }

  ghost predicate MirrorsThere(mail: Mail, t: State, u: F.View, id: InboxId) {
    id in u.boxes && BoxMirrors(mail, t, id, u.boxes[id], u.readKeys)
  }

  lemma ArriveAtMirrorsThere(mail: Mail, s: State, v: F.View, live: set<Hash>, hash: Hash, inbox: Inbox)
    requires Rooted(s, live) && hash in live && !Redelivers(mail, s, hash, inbox.id)
    requires MirrorsThere(mail, s, v, inbox.id)
    ensures var t := ArriveAt(mail, s, live, hash, inbox); MirrorsThere(mail, t, Told(v, s, t), inbox.id)
  {
    hide BoxMirrors, Told, Rooted, HasRow, HasMessage, StoredExpiration;
    var t := ArriveAt(mail, s, live, hash, inbox);
    match mail.open(hash.payload, inbox.id) {
      case Opaque =>
        ToldOne(v, s, t);
      case OwnEntry =>
        ToldOne(v, s, t);
        SeenMirrors(mail, s, t, inbox.id, v.boxes[inbox.id], v.readKeys, hash.expirationTime);
      case Sealed(plaintext) =>
        SealedMirrorsThere(mail, s, v, live, hash, inbox, plaintext);
    }
  }

  lemma HeldIsThere(s: State, live: set<Hash>, key: Key)
    requires Rooted(s, live)
    ensures StoredExpiration(s, live, key).Some? <==> HasRow(s, key)
    ensures HasRow(s, key) ==> HasMessage(s, key) && IsLatest(s.derivations, key, StoredExpiration(s, live, key).value)
  {
    HeldExactlyWhenStored(s, live, key);
  }

  lemma SealedMirrorsThere(
    mail: Mail, s: State, v: F.View, live: set<Hash>, hash: Hash, inbox: Inbox, plaintext: Bytes)
    requires Rooted(s, live) && hash in live && !Redelivers(mail, s, hash, inbox.id)
    requires MirrorsThere(mail, s, v, inbox.id) && mail.open(hash.payload, inbox.id) == Sealed(plaintext)
    ensures var t := ArriveAt(mail, s, live, hash, inbox); MirrorsThere(mail, t, Told(v, s, t), inbox.id)
  {
    hide MirrorsThere, HasRow, HasMessage, IsLatest, Told, Rooted, StoredExpiration;
    var t := ArriveAt(mail, s, live, hash, inbox);
    var row := Row(hash, Key(Id(plaintext), inbox.id));
    HeldIsThere(s, live, row.key);
    if HasRow(s, row.key) {
      HeldMirrorsThere(mail, s, t, v, row, StoredExpiration(s, live, row.key).value);
    } else if mail.parse(plaintext).Some? {
      NewMirrorsThere(mail, s, t, v, row, inbox.autosave, mail.parse(plaintext).value.inReplyTo);
    } else {
      ToldOne(v, s, t);
    }
  }

  lemma HeldMirrorsThere(mail: Mail, s: State, t: State, v: F.View, row: Row, stored: int)
    requires MirrorsThere(mail, s, v, row.key.inbox)
    requires HasMessage(s, row.key) && HasRow(s, row.key) && IsLatest(s.derivations, row.key, stored)
    requires t.messages == s.messages && t.derivations == s.derivations + [row]
    requires t.inboxExpiration == s.inboxExpiration
    requires t.events == if row.from.expirationTime > stored
                         then s.events + [ExpirationExtended(row.key, row.from.expirationTime)] else s.events
    ensures MirrorsThere(mail, t, Told(v, s, t), row.key.inbox)
  {
    var box := v.boxes[row.key.inbox];
    ToldOne(v, s, t);
    hide BoxMirrors, HasMessage, HasRow, IsLatest, Told;
    HeldMirrors(
      mail, s, t, box,
      if row.from.expirationTime > stored then F.Extended(box, row.key.id, row.from.expirationTime) else box,
      v.readKeys, row, stored);
  }

  lemma NewMirrorsThere(
    mail: Mail, s: State, t: State, v: F.View, row: Row, saved: bool, inReplyTo: Option<Id>)
    requires MirrorsThere(mail, s, v, row.key.inbox)
    requires !HasMessage(s, row.key) && !HasRow(s, row.key)
    requires mail.parse(row.key.id.plaintext) == Some(Parsed(inReplyTo))
    requires t.messages == s.messages + [MessageRow(row.key, saved)] && t.derivations == s.derivations + [row]
    requires t.inboxExpiration == s.inboxExpiration
    requires t.events == s.events + [MessageArrived(row.key, saved, inReplyTo, row.from.expirationTime)]
    ensures MirrorsThere(mail, t, Told(v, s, t), row.key.inbox)
  {
    ToldOne(v, s, t);
    hide BoxMirrors, HasMessage, HasRow, Told;
    NewMessageMirrors(mail, s, t, v.boxes[row.key.inbox], v.readKeys, row, saved, inReplyTo);
  }

  /** Inboxes the item has not come to yet get nothing back, as before. */
  lemma {:induction false} ArriveLeavesLater(mail: Mail, s: State, live: set<Hash>, hash: Hash, n: nat)
    requires n <= |s.inboxes| && Distinct(s.inboxes) && Rooted(s, live) && hash in live
    ensures Rooted(Arrive(mail, s, live, hash, n), live)
    ensures forall i :: n <= i < |s.inboxes| ==>
                          (Redelivers(mail, Arrive(mail, s, live, hash, n), hash, s.inboxes[i].id) <==>
                           Redelivers(mail, s, hash, s.inboxes[i].id))
  {
    hide ArriveAt, Redelivers, Rooted;
    if n > 0 {
      var u := Arrive(mail, s, live, hash, n - 1);
      ArriveLeavesLater(mail, s, live, hash, n - 1);
      ArriveAtKeepsRooted(mail, u, live, hash, s.inboxes[n - 1]);
      forall i | n <= i < |s.inboxes|
        ensures Redelivers(mail, Arrive(mail, s, live, hash, n), hash, s.inboxes[i].id) <==>
                Redelivers(mail, s, hash, s.inboxes[i].id)
      {
        ArriveAtTouchesOneInbox(mail, u, live, hash, s.inboxes[n - 1], s.inboxes[i].id);
      }
    }
  }

  /** ... at all of them, also if rows of the item are there already. */
  lemma {:induction false} ArriveMirrors(
    mail: Mail, s: State, v: F.View, live: set<Hash>, hash: Hash, n: nat)
    requires n <= |s.inboxes| && Mirrors(mail, s, v)
    requires Distinct(s.inboxes) && Rooted(s, live) && hash in live
    requires RedeliversNothing(mail, s, hash)
    ensures var t := Arrive(mail, s, live, hash, n);
            s.events <= t.events && Mirrors(mail, t, Told(v, s, t))
  {
    hide ArriveAt, Rooted, Mirrors, Redelivers, Told, Distinct;
    if n == 0 {
      ToldOne(v, s, s);
    } else {
      var u := Arrive(mail, s, live, hash, n - 1);
      ArriveMirrors(mail, s, v, live, hash, n - 1);
      ArriveLeavesLater(mail, s, live, hash, n - 1);
      ArriveAtMirrors(mail, u, Told(v, s, u), live, hash, s.inboxes[n - 1]);
      ToldInTurn(v, s, u, ArriveAt(mail, u, live, hash, s.inboxes[n - 1]));
    }
  }

  // ---------------------------------------------------------------- departures

  lemma DropRowSpares(s: State, v: F.View, row: Row)
    requires row.key.inbox in v.boxes
    ensures OthersSame(s, DropRow(s, row), v, Told(v, s, DropRow(s, row)), row.key.inbox)
  {
    DropRowListing(s, row);
    DropRowChanges(s, row);
    ToldOne(v, s, DropRow(s, row));
    hide Told, DropRow, F.HandledIn;
  }

  /** A message that is left keeps the latest expiration of what still holds it. */
  lemma EntryOutlivesRow(
    mail: Mail, s: State, t: State, row: Row, key: Key, message: F.Message, readKeys: set<Key>)
    requires ExpiresFirst(s, row) && EntryMirrors(mail, s, key, message, readKeys)
    requires forall r :: r in t.derivations <==> r in s.derivations && r != row
    ensures EntryMirrors(mail, t, key, message, readKeys)
  {
    if HasRow(t, key) {
      assert HasRow(s, key);
      LatestWithoutFirst(s, t, row, key, message.expirationTime.value);
    }
  }

  lemma ExpiredIsUnlisted(s: State, t: State, key: Key, messages: map<Id, F.Message>)
    requires MessagesMirror(s, key.inbox, messages)
    requires forall m :: m in t.messages <==> m in s.messages && m.key != key
    ensures MessagesMirror(t, key.inbox, messages - {key.id})
  {
    forall k: Key ensures HasMessage(t, k) <==> HasMessage(s, k) && k != key {
      if HasMessage(s, k) && k != key {
        var m :| m in s.messages && m.key == k;
        assert m in t.messages;
      }
    }
  }

  lemma ExpiredMirrors(mail: Mail, s: State, t: State, key: Key, box: F.Box, readKeys: set<Key>)
    requires BoxMirrors(mail, s, key.inbox, box, readKeys)
    requires forall m :: m in t.messages <==> m in s.messages && m.key != key
    requires t.inboxExpiration == s.inboxExpiration
    requires forall m :: m in box.messages && EntryMirrors(mail, s, Key(m, key.inbox), box.messages[m], readKeys) ==>
                           EntryMirrors(mail, t, Key(m, key.inbox), box.messages[m], readKeys)
    ensures BoxMirrors(mail, t, key.inbox, F.Expired(box, key.id), readKeys)
  {
    F.ExpireKeepsTidy(box, key.id);
    ExpiredIsUnlisted(s, t, key, box.messages);
    hide F.Tidy, MessagesMirror, EntryMirrors;
  }

  lemma DropRowMirrorsThere(mail: Mail, s: State, v: F.View, row: Row)
    requires MirrorsThere(mail, s, v, row.key.inbox) && ExpiresFirst(s, row)
    ensures var t := DropRow(s, row); MirrorsThere(mail, t, Told(v, s, t), row.key.inbox)
  {
    hide DropRow, BoxMirrors, Told, ExpiresFirst, F.Expired;
    var t := DropRow(s, row);
    ToldOne(v, s, t);
    DropRowChanges(s, row);
    DropRowListing(s, row);
    if t.events == s.events {
      OutlivedMirrors(mail, s, t, v.boxes[row.key.inbox], row, v.readKeys);
    } else {
      EntriesOutliveRow(mail, s, t, row, v.boxes[row.key.inbox], v.readKeys);
      ExpiredMirrors(mail, s, t, row.key, v.boxes[row.key.inbox], v.readKeys);
    }
  }

  lemma DropRowListing(s: State, row: Row)
    ensures var t := DropRow(s, row);
            if t.events == s.events then
              t.messages == s.messages
            else
              && t.events == s.events + [MessageExpired(row.key)]
              && forall m :: m in t.messages <==> m in s.messages && m.key != row.key
  {
  }

  lemma EntriesOutliveRow(mail: Mail, s: State, t: State, row: Row, box: F.Box, readKeys: set<Key>)
    requires ExpiresFirst(s, row) && forall r :: r in t.derivations <==> r in s.derivations && r != row
    ensures forall m :: m in box.messages && EntryMirrors(mail, s, Key(m, row.key.inbox), box.messages[m], readKeys) ==>
                          EntryMirrors(mail, t, Key(m, row.key.inbox), box.messages[m], readKeys)
  {
    forall m | m in box.messages && EntryMirrors(mail, s, Key(m, row.key.inbox), box.messages[m], readKeys)
      ensures EntryMirrors(mail, t, Key(m, row.key.inbox), box.messages[m], readKeys)
    {
      EntryOutlivesRow(mail, s, t, row, Key(m, row.key.inbox), box.messages[m], readKeys);
    }
  }

  lemma OutlivedMirrors(mail: Mail, s: State, t: State, box: F.Box, row: Row, readKeys: set<Key>)
    requires BoxMirrors(mail, s, row.key.inbox, box, readKeys) && ExpiresFirst(s, row)
    requires forall r :: r in t.derivations <==> r in s.derivations && r != row
    requires t.messages == s.messages && t.inboxExpiration == s.inboxExpiration
    ensures BoxMirrors(mail, t, row.key.inbox, box, readKeys)
  {
  }

  lemma DropRowMirrors(mail: Mail, s: State, v: F.View, row: Row)
    requires Mirrors(mail, s, v) && ExpiresFirst(s, row) && HasInbox(s, row.key.inbox)
    ensures var t := DropRow(s, row);
            s.events <= t.events && Mirrors(mail, t, Told(v, s, t))
  {
    hide DropRow, Told, BoxMirrors, ExpiresFirst, OthersSame, HasInbox;
    var t := DropRow(s, row);
    DropRowMirrorsThere(mail, s, v, row);
    DropRowSpares(s, v, row);
    OneBoxChanges(mail, s, t, v, Told(v, s, t), row.key.inbox);
  }

  lemma {:induction false} DropRowsMirrors(mail: Mail, s: State, v: F.View, live: set<Hash>, rows: seq<Row>)
    requires Mirrors(mail, s, v) && Holds(s, live) && NoDuplicates(rows)
    requires forall r :: r in rows ==> r in s.derivations && ExpiresFirst(s, r)
    ensures var t := DropRows(s, rows);
            s.events <= t.events && Mirrors(mail, t, Told(v, s, t))
  {
    if rows == [] {
      ToldOne(v, s, s);
    } else {
      var before, row := rows[..|rows| - 1], rows[|rows| - 1];
      var u := DropRows(s, before);
      DropRowsMirrors(mail, s, v, live, before);
      DropRowsKeeps(s, live, before);
      assert row in s.derivations && row !in before;
      RowHasInbox(s, live, row);
      assert HasInbox(u, row.key.inbox);
      hide Holds, Mirrors, Told, HasInbox, DropRow;
      DropRowMirrors(mail, u, Told(v, s, u), row);
      ToldInTurn(v, s, u, DropRow(u, row));
    }
  }

  lemma RowHasInbox(s: State, live: set<Hash>, row: Row)
    requires Sound(s, live) && row in s.derivations
    ensures HasInbox(s, row.key.inbox)
  {
  }

  // ---------------------------------------------------------------- what the handlers may rely on

  /** The event is about an inbox the frontend has; an extension or expiry, about a message it shows; an
      arrival, about one it does not. */
  ghost predicate Addressed(v: F.View, event: Event) {
    && F.InboxOf(event) in v.boxes
    && (event.ExpirationExtended? || event.MessageExpired? ==> F.Has(v, event.key))
    && (event.MessageArrived? ==> !F.Has(v, event.key))
  }

  lemma ShownExactly(mail: Mail, s: State, v: F.View, key: Key)
    requires Mirrors(mail, s, v) && HasInbox(s, key.inbox)
    ensures key.inbox in v.boxes && (F.Has(v, key) <==> HasMessage(s, key))
  {
  }

  /** What an arrival at an inbox may say. */
  ghost predicate Says(mail: Mail, s: State, live: set<Hash>, hash: Hash, inbox: Inbox, event: Event) {
    || event == InboxSeen(inbox.id, hash.expirationTime)
    || exists plaintext :: mail.open(hash.payload, inbox.id) == Sealed(plaintext) &&
                           SaysOf(mail, s, live, Key(Id(plaintext), inbox.id), event)
  }

  ghost predicate SaysOf(mail: Mail, s: State, live: set<Hash>, key: Key, event: Event) {
    || (event.ExpirationExtended? && event.key == key && StoredExpiration(s, live, key).Some?)
    || (event.MessageArrived? && event.key == key && StoredExpiration(s, live, key).None?
        && mail.parse(key.id.plaintext).Some?)
  }

  lemma ArrivalSays(mail: Mail, s: State, live: set<Hash>, hash: Hash, inbox: Inbox)
    requires hash in live
    ensures var t := ArriveAt(mail, s, live, hash, inbox);
            || t.events == s.events
            || (|t.events| == |s.events| + 1 && Says(mail, s, live, hash, inbox, t.events[|s.events|]))
  {
    hide StoredExpiration, SaysOf;
    match mail.open(hash.payload, inbox.id) {
      case Opaque =>
      case OwnEntry =>
      case Sealed(plaintext) =>
        SealedArrivalSays(mail, s, live, hash, inbox, plaintext);
    }
  }

  lemma SealedArrivalSays(mail: Mail, s: State, live: set<Hash>, hash: Hash, inbox: Inbox, plaintext: Bytes)
    requires hash in live && mail.open(hash.payload, inbox.id) == Sealed(plaintext)
    ensures var t := ArriveAt(mail, s, live, hash, inbox);
            || t.events == s.events
            || (|t.events| == |s.events| + 1
                && SaysOf(mail, s, live, Key(Id(plaintext), inbox.id), t.events[|s.events|]))
  {
  }

  /** The branches for unknown inboxes and messages are dead code: nothing is sent that would take them. */
  lemma ArrivalIsAddressed(mail: Mail, s: State, v: F.View, live: set<Hash>, hash: Hash, inbox: Inbox)
    requires Mirrors(mail, s, v) && Rooted(s, live) && hash in live && inbox in s.inboxes
    requires !Redelivers(mail, s, hash, inbox.id)
    ensures var t := ArriveAt(mail, s, live, hash, inbox);
            t.events == s.events || (|t.events| == |s.events| + 1 && Addressed(v, t.events[|s.events|]))
  {
    hide ArriveAt, Says, Mirrors, Addressed, Redelivers, Rooted;
    var t := ArriveAt(mail, s, live, hash, inbox);
    ArrivalSays(mail, s, live, hash, inbox);
    if t.events != s.events {
      SaidIsAddressed(mail, s, v, live, hash, inbox, t.events[|s.events|]);
    }
  }

  lemma SaidIsAddressed(
    mail: Mail, s: State, v: F.View, live: set<Hash>, hash: Hash, inbox: Inbox, event: Event)
    requires Mirrors(mail, s, v) && Rooted(s, live) && inbox in s.inboxes
    requires !Redelivers(mail, s, hash, inbox.id) && Says(mail, s, live, hash, inbox, event)
    ensures Addressed(v, event)
  {
    assert HasInbox(s, inbox.id);
    hide Mirrors, HasInbox, HasRow, HasMessage, F.Has, StoredExpiration, Rooted;
    if event.InboxSeen? {
      ShownExactly(mail, s, v, Key(Id([]), inbox.id));
    } else {
      ShownExactly(mail, s, v, event.key);
      HeldIsThere(s, live, event.key);
    }
  }

  lemma ExpiryIsAddressed(mail: Mail, s: State, v: F.View, live: set<Hash>, row: Row)
    requires Mirrors(mail, s, v) && Sound(s, live) && row in s.derivations
    ensures var t := DropRow(s, row);
            t.events == s.events || (|t.events| == |s.events| + 1 && Addressed(v, t.events[|s.events|]))
  {
    hide DropRow, Mirrors, HasMessage, HasInbox, F.Has, NoDuplicates, Distinct;
    RowHasInbox(s, live, row);
    DropRowSays(s, row);
    ShownExactly(mail, s, v, row.key);
  }

  lemma DropRowSays(s: State, row: Row)
    ensures var t := DropRow(s, row);
            t.events == s.events || t.events == s.events + [MessageExpired(row.key)]
  {
  }

  /** What a redelivery does to the frontend: a message that was still unread is counted a second time. */
  lemma RedeliveryMiscounts(mail: Mail, s: State, v: F.View, live: set<Hash>, hash: Hash, inbox: Inbox)
    requires Mirrors(mail, s, v) && Rooted(s, live) && hash in live && inbox in s.inboxes
    requires Redelivers(mail, s, hash, inbox.id)
    ensures var key := Key(Id(mail.open(hash.payload, inbox.id).plaintext), inbox.id);
            var t := ArriveAt(mail, s, live, hash, inbox);
            inbox.id in Told(v, s, t).boxes && (F.Tidy(Told(v, s, t).boxes[inbox.id]) <==> key in v.readKeys)
  {
    var key := Key(Id(mail.open(hash.payload, inbox.id).plaintext), inbox.id);
    var t := ArriveAt(mail, s, live, hash, inbox);
    assert HasInbox(s, inbox.id);
    var box := v.boxes[inbox.id];
    ToldOne(v, s, t);
    HeldExactlyWhenStored(s, live, key);
    assert EntryMirrors(mail, s, key, box.messages[key.id], v.readKeys);
    var message := F.Message(
      mail.parse(key.id.plaintext).value.inReplyTo, Some(hash.expirationTime), inbox.autosave, key in v.readKeys);
    F.InsertKeepsTidyExactly(box, key.id, message);
    hide F.Tidy, EntryMirrors, HasRow, HasMessage, Rooted;
  }
}
