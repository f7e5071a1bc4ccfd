/** A frontend that starts late: it loads the tables once and follows events from there on. */
module StateDump {
  import opened Wrappers
  import opened Derivation
  import opened DerivationInvariant
  import opened DerivationRuns
  import opened Mirror
  import MirrorRuns
  import F = Frontend

  function Entry(mail: Mail, s: State, live: set<Hash>, readKeys: set<Key>, row: MessageRow): F.Message
    requires mail.parse(row.key.id.plaintext).Some?
  {
    F.Message(
      mail.parse(row.key.id.plaintext).value.inReplyTo, StoredExpiration(s, live, row.key),
      row.saved, row.key in readKeys)
  }

  function Inserting(v: F.View, key: Key, message: F.Message): (u: F.View)
    ensures u.readKeys == v.readKeys
  {
    if key.inbox in v.boxes then
      v.(boxes := v.boxes[key.inbox := F.Inserted(v.boxes[key.inbox], key.id, message)])
    else
      v
  }

  /** All inboxes, and the first `n` messages. */
  function Loaded(mail: Mail, s: State, live: set<Hash>, readKeys: set<Key>, n: nat): (v: F.View)
    requires n <= |s.messages| && Parsable(mail, s)
    ensures v.readKeys == readKeys
  {
    if n == 0 then
      F.View(map i | i in s.inboxes :: i.id := F.EMPTY_BOX, readKeys)
    else
      var row := s.messages[n - 1];
      Inserting(Loaded(mail, s, live, readKeys, n - 1), row.key, Entry(mail, s, live, readKeys, row))
  }

  /** ... and last the expirations of the inboxes. */
  function Dump(mail: Mail, s: State, live: set<Hash>, readKeys: set<Key>): F.View
    requires Parsable(mail, s)
  {
    var v := Loaded(mail, s, live, readKeys, |s.messages|);
    v.(boxes := map id | id in v.boxes ::
      if id in s.inboxExpiration then F.Seen(v.boxes[id], s.inboxExpiration[id]) else v.boxes[id])
  }

  /** The backend, had it only the first `n` messages and no inbox expirations. */
  function Upto(s: State, n: nat): State
    requires n <= |s.messages|
  {
    s.(messages := s.messages[..n], inboxExpiration := map[])
  }

  lemma LoadedEntryMirrors(mail: Mail, s: State, t: State, live: set<Hash>, readKeys: set<Key>, row: MessageRow)
    requires Sound(s, live) && t.derivations == s.derivations
    requires mail.parse(row.key.id.plaintext).Some?
    ensures EntryMirrors(mail, t, row.key, Entry(mail, s, live, readKeys, row), readKeys)
  {
  }

  lemma LoadedThere(
    mail: Mail, s: State, t: State, box: F.Box, readKeys: set<Key>, row: MessageRow, message: F.Message)
    requires BoxMirrors(mail, s, row.key.inbox, box, readKeys) && !HasMessage(s, row.key)
    requires message.saved == row.saved && EntryMirrors(mail, t, row.key, message, readKeys)
    requires t == s.(messages := s.messages + [row])
    ensures BoxMirrors(mail, t, row.key.inbox, F.Inserted(box, row.key.id, message), readKeys)
  {
    F.InsertKeepsTidyExactly(box, row.key.id, message);
    NewMessageIsListed(s, t, row.key, box.messages, message);
    assert forall key :: HasRow(s, key) <==> HasRow(t, key);
    hide F.Tidy, MessagesMirror, HasRow, IsLatest;
  }

  lemma LoadingOneMore(
    mail: Mail, s: State, t: State, v: F.View, row: MessageRow, message: F.Message)
    requires Mirrors(mail, s, v) && HasInbox(s, row.key.inbox) && !HasMessage(s, row.key)
    requires message.saved == row.saved && EntryMirrors(mail, t, row.key, message, v.readKeys)
    requires t == s.(messages := s.messages + [row])
    ensures Mirrors(mail, t, Inserting(v, row.key, message))
  {
    LoadedThere(mail, s, t, v.boxes[row.key.inbox], v.readKeys, row, message);
    LoadingSpares(s, t, v, row, message);
    hide EntryMirrors, BoxMirrors, HasMessage, OthersSame, F.Inserted;
    OneBoxChanges(mail, s, t, v, Inserting(v, row.key, message), row.key.inbox);
  }

  lemma LoadingSpares(s: State, t: State, v: F.View, row: MessageRow, message: F.Message)
    requires row.key.inbox in v.boxes && t == s.(messages := s.messages + [row])
    ensures OthersSame(s, t, v, Inserting(v, row.key, message), row.key.inbox)
  {
  }

  lemma NotYetLoaded(s: State, live: set<Hash>, n: nat)
    requires 0 < n <= |s.messages| && Sound(s, live) && Unique(s.messages)
    ensures !HasMessage(Upto(s, n - 1), s.messages[n - 1].key)
    ensures HasInbox(Upto(s, n - 1), s.messages[n - 1].key.inbox)
    ensures Upto(s, n) == Upto(s, n - 1).(messages := Upto(s, n - 1).messages + [s.messages[n - 1]])
  {
  }

  lemma NothingLoaded(mail: Mail, s: State, live: set<Hash>, readKeys: set<Key>)
    requires Sound(s, live) && Parsable(mail, s)
    ensures Mirrors(mail, Upto(s, 0), Loaded(mail, s, live, readKeys, 0))
  {
    var t, v := Upto(s, 0), Loaded(mail, s, live, readKeys, 0);
    assert F.Unread(map[]) == {};
    assert forall id :: id in v.boxes ==> v.boxes[id] == F.EMPTY_BOX;
  }

  lemma {:induction false} LoadedMirrors(mail: Mail, s: State, live: set<Hash>, readKeys: set<Key>, n: nat)
    requires n <= |s.messages| && Sound(s, live) && Unique(s.messages) && Parsable(mail, s)
    ensures Mirrors(mail, Upto(s, n), Loaded(mail, s, live, readKeys, n))
  {
    hide Mirrors, Sound, Unique, EntryMirrors, HasMessage, HasInbox, Inserting;
    if n == 0 {
      NothingLoaded(mail, s, live, readKeys);
    } else {
      var row := s.messages[n - 1];
      LoadedMirrors(mail, s, live, readKeys, n - 1);
      NotYetLoaded(s, live, n);
      LoadedEntryMirrors(mail, s, Upto(s, n), live, readKeys, row);
      LoadingOneMore(
        mail, Upto(s, n - 1), Upto(s, n), Loaded(mail, s, live, readKeys, n - 1), row,
        Entry(mail, s, live, readKeys, row));
    }
  }

  /** Whoever loads the tables sees what the backend has. */
  lemma DumpMirrors(mail: Mail, s: State, live: set<Hash>, readKeys: set<Key>)
    requires Holds(s, live) && Parsable(mail, s) && Dated(s)
    ensures Mirrors(mail, s, Dump(mail, s, live, readKeys))
  {
    hide Loaded, HasInbox, BoxMirrors, Sound, Unique, Truthful, Parsable, Dated, Mirrors;
    var n := |s.messages|;
    assert s.messages[..n] == s.messages;
    LoadedMirrors(mail, s, live, readKeys, n);
    DatedMirrors(mail, Upto(s, n), s, Loaded(mail, s, live, readKeys, n), Dump(mail, s, live, readKeys));
  }

  lemma DatedMirrors(mail: Mail, s: State, t: State, v: F.View, u: F.View)
    requires Mirrors(mail, s, v) && s.inboxExpiration == map[]
    requires t.messages == s.messages && t.derivations == s.derivations && t.inboxes == s.inboxes
    requires Dated(t)
    requires u.readKeys == v.readKeys && u.boxes.Keys == v.boxes.Keys
    requires forall id :: id in v.boxes ==>
                            u.boxes[id] == if id in t.inboxExpiration then F.Seen(v.boxes[id], t.inboxExpiration[id])
                                           else v.boxes[id]
    ensures Mirrors(mail, t, u)
  {
    hide BoxMirrors, F.Seen;
    forall id | id in u.boxes ensures BoxMirrors(mail, t, id, u.boxes[id], u.readKeys) {
      DatedBoxMirrors(mail, s, t, id, v.boxes[id], v.readKeys);
    }
    assert forall id :: HasInbox(t, id) <==> HasInbox(s, id);
  }

  lemma DatedBoxMirrors(mail: Mail, s: State, t: State, id: InboxId, box: F.Box, readKeys: set<Key>)
    requires BoxMirrors(mail, s, id, box, readKeys)
    requires t.messages == s.messages && t.derivations == s.derivations && id !in s.inboxExpiration
    ensures BoxMirrors(
              mail, t, id, if id in t.inboxExpiration then F.Seen(box, t.inboxExpiration[id]) else box, readKeys)
  {
  }

  /** Loading the tables at any point of a run puts a frontend in step, whatever messages the user had read. */
  lemma LateFrontendIsInStep(mail: Mail, w: World, readKeys: set<Key>)
    requires Invariant(mail, w)
    ensures var v := Dump(mail, w.state, w.live, readKeys);
            MirrorRuns.InStep(mail, MirrorRuns.Joint(w, v)) && v.readKeys == readKeys
  {
    hide Holds, Derived, BoxMirrors, Mirrors, Loaded;
    DumpMirrors(mail, w.state, w.live, readKeys);
  }

  // ---------------------------------------------------------------- expirations that are not known

  lemma InsertingShows(v: F.View, key: Key, message: F.Message, other: Key)
    requires key.inbox in v.boxes
    ensures var u := Inserting(v, key, message);
            && F.Has(u, key) && F.Entry(u, key) == message
            && (other != key && F.Has(v, other) ==> F.Has(u, other) && F.Entry(u, other) == F.Entry(v, other))
            && u.boxes.Keys == v.boxes.Keys
  {
  }

  lemma OneRowPerKey(messages: seq<MessageRow>, n: nat, row: MessageRow)
    requires Unique(messages) && 0 < n <= |messages| && row in messages[..n] && row != messages[n - 1]
    ensures row.key != messages[n - 1].key
  {
  }

  lemma {:induction false} LoadedShows(
    mail: Mail, s: State, live: set<Hash>, readKeys: set<Key>, n: nat, row: MessageRow)
    requires n <= |s.messages| && Parsable(mail, s) && Unique(s.messages) && row in s.messages[..n]
    requires forall m :: m in s.messages ==> HasInbox(s, m.key.inbox)
    ensures var v := Loaded(mail, s, live, readKeys, n);
            F.Has(v, row.key) && F.Entry(v, row.key) == Entry(mail, s, live, readKeys, row)
  {
    hide Inserting, F.Has, F.Entry, Unique, Entry, HasInbox;
    var last := s.messages[n - 1];
    LoadedInboxes(mail, s, live, readKeys, n - 1);
    InsertingShows(
      Loaded(mail, s, live, readKeys, n - 1), last.key, Entry(mail, s, live, readKeys, last), row.key);
    assert s.messages[..n] == s.messages[..n - 1] + [last];
    if row != last {
      OneRowPerKey(s.messages, n, row);
      LoadedShows(mail, s, live, readKeys, n - 1, row);
    }
  }

  lemma {:induction false} LoadedInboxes(mail: Mail, s: State, live: set<Hash>, readKeys: set<Key>, n: nat)
    requires n <= |s.messages| && Parsable(mail, s)
    ensures forall id :: id in Loaded(mail, s, live, readKeys, n).boxes <==> HasInbox(s, id)
  {
    if n > 0 {
      LoadedInboxes(mail, s, live, readKeys, n - 1);
      var v, row := Loaded(mail, s, live, readKeys, n - 1), s.messages[n - 1];
      assert Inserting(v, row.key, Entry(mail, s, live, readKeys, row)).boxes.Keys == v.boxes.Keys;
      hide Inserting;
    }
  }

  /** A late frontend knows an expiration time for a message exactly if some live item holds it, and then the latest
      of theirs. */
  lemma DumpKnowsExpirations(mail: Mail, w: World, readKeys: set<Key>, key: Key)
    requires Invariant(mail, w) && HasMessage(w.state, key)
    ensures var v := Dump(mail, w.state, w.live, readKeys);
            && F.Has(v, key)
            && (F.Entry(v, key).expirationTime.Some? <==> HasRow(w.state, key))
            && (HasRow(w.state, key) ==> IsLatest(w.state.derivations, key, F.Entry(v, key).expirationTime.value))
  {
    var s := w.state;
    var row :| row in s.messages && row.key == key;
    assert s.messages[..|s.messages|] == s.messages;
    LoadedShows(mail, s, w.live, readKeys, |s.messages|, row);
    HeldExactlyWhenStored(s, w.live, key);
    hide Loaded, Invariant, IsLatest, HasRow;
  }

  // ---------------------------------------------------------------- early and late frontends agree

  /** The same but for the expiration of messages that nothing holds any more. */
  ghost predicate Agree(s: State, key: Key, a: F.Message, b: F.Message) {
    && a.inReplyTo == b.inReplyTo && a.saved == b.saved && a.read == b.read
    && (HasRow(s, key) ==> a.expirationTime == b.expirationTime)
  }

  /** The tables and the read marks leave no room for two different frontends: a late one shows the same
      inboxes, messages, unread counts and reply indexes as one that followed every event. */
  lemma MirrorsAgree(mail: Mail, s: State, v: F.View, u: F.View, id: InboxId)
    requires Mirrors(mail, s, v) && Mirrors(mail, s, u) && v.readKeys == u.readKeys
    requires id in v.boxes
    ensures id in u.boxes
    ensures var a, b := v.boxes[id], u.boxes[id];
            && a.messages.Keys == b.messages.Keys
            && (forall m :: m in a.messages ==> Agree(s, Key(m, id), a.messages[m], b.messages[m]))
            && a.unreadCount == b.unreadCount && a.children == b.children
            && a.expirationTime == b.expirationTime
  {
    var a, b := v.boxes[id], u.boxes[id];
    forall m | m in a.messages ensures m in b.messages && Agree(s, Key(m, id), a.messages[m], b.messages[m]) {
      EntriesAgree(mail, s, id, a, b, v.readKeys, m);
    }
    assert a.messages.Keys == b.messages.Keys;
    hide HasRow, HasMessage, MessagesMirror, EntryMirrors;
    DerivedFieldsAgree(a, b);
  }

  lemma EntriesAgree(mail: Mail, s: State, id: InboxId, a: F.Box, b: F.Box, readKeys: set<Key>, m: Id)
    requires BoxMirrors(mail, s, id, a, readKeys) && BoxMirrors(mail, s, id, b, readKeys) && m in a.messages
    ensures m in b.messages && Agree(s, Key(m, id), a.messages[m], b.messages[m])
  {
    var key := Key(m, id);
    var row :| row in s.messages && row.key == key;
    assert EntryMirrors(mail, s, key, a.messages[m], readKeys) && EntryMirrors(mail, s, key, b.messages[m], readKeys);
    if HasRow(s, key) {
      SameLatest(s.derivations, key, a.messages[m].expirationTime.value, b.messages[m].expirationTime.value);
    }
  }

  lemma DerivedFieldsAgree(a: F.Box, b: F.Box)
    requires F.Tidy(a) && F.Tidy(b) && a.messages.Keys == b.messages.Keys
    requires forall m :: m in a.messages ==>
                           && a.messages[m].inReplyTo == b.messages[m].inReplyTo
                           && a.messages[m].read == b.messages[m].read
    ensures a.unreadCount == b.unreadCount && a.children == b.children
  {
    assert F.Unread(a.messages) == F.Unread(b.messages);
    forall parent ensures F.ChildrenOf(a.children, parent) == F.ChildrenOf(b.children, parent) {
      assert forall child :: F.RepliesTo(a.messages, child, parent) <==> F.RepliesTo(b.messages, child, parent);
    }
    forall parent
      ensures parent in a.children <==> parent in b.children
      ensures parent in a.children ==> a.children[parent] == b.children[parent]
    {
      assert F.ChildrenOf(a.children, parent) == F.ChildrenOf(b.children, parent);
    }
  }
}
