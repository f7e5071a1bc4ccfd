/** What each mutation and command does to the tables, exactly: which rows and messages are there afterwards, in
    terms of those that were there before. */
module DerivationEffects {
  import opened Wrappers
  import opened Derivation
  import opened DerivationInvariant
  import opened DerivationRuns
  import Inventory

  // ---------------------------------------------------------------- one row goes

  lemma {:induction false} MessageOfExactly(messages: seq<MessageRow>, m: MessageRow)
    requires Unique(messages) && m in messages
    ensures MessageOf(messages, m.key) == Some(m)
    ensures forall other :: other in messages && other.key == m.key ==> other == m
  {
    MessageOfIsTheMessage(messages, m);
  }

  /** The removal of a row takes the message along exactly if it is not saved and the row was the only one counted
      for it, and says so; nothing else changes. */
  lemma DropRowTakesExactly(s: State, row: Row)
    requires Unique(s.messages)
    ensures var t := DropRow(s, row);
            && (forall r :: r in t.derivations <==> r in s.derivations && r != row)
            && (forall m :: m in t.messages <==>
                            && m in s.messages
                            && (m.key != row.key || m.saved || |RowsFor(s.derivations, row.key)| > 1))
            && t == s.(derivations := t.derivations, messages := t.messages, events := t.events)
            && t.events == s.events +
               (if exists m :: m in s.messages && m !in t.messages then [MessageExpired(row.key)] else [])
  {
    var t := DropRow(s, row);
    var message := MessageOf(s.messages, row.key);
    forall m | m in s.messages && m.key == row.key ensures message == Some(m) {
      MessageOfExactly(s.messages, m);
    }
    hide Unique, RowsFor, MessageOf, WithoutRow, WithoutMessage;
    if message.Some? && !message.value.saved && |RowsFor(s.derivations, row.key)| <= 1 {
      assert message.value in s.messages && message.value !in t.messages;
    }
  }

  // ---------------------------------------------------------------- purges

  /** Whatever rows go, in whatever order and however often, saved messages stay and none of them is reported. */
  ghost predicate SparesSaved(s: State, t: State) {
    && Unique(t.messages)
    && s.events <= t.events
    && (forall m :: m in t.messages ==> m in s.messages)
    && (forall m :: m in s.messages && m.saved ==>
                      m in t.messages && MessageExpired(m.key) !in t.events[|s.events|..])
  }

  lemma SparingAdvances(s: State, u: State, row: Row)
    requires Unique(s.messages) && SparesSaved(s, u)
    ensures SparesSaved(s, DropRow(u, row))
  {
    var t := DropRow(u, row);
    DropRowTakesExactly(u, row);
    forall m | m in s.messages && m.saved ensures MessageExpired(m.key) !in t.events[|s.events|..] {
      assert m in u.messages;
      MessageOfExactly(u.messages, m);
      if t.events != u.events {
        assert t.events[|s.events|..] == u.events[|s.events|..] + [MessageExpired(row.key)];
      }
    }
    DropRowKeepsUnique(u, row);
    hide DropRow, Unique, RowsFor;
  }

  lemma DropRowKeepsUnique(s: State, row: Row)
    requires Unique(s.messages)
    ensures Unique(DropRow(s, row).messages)
  {
  }

  lemma {:induction false} PurgeSparesSaved(s: State, cursor: seq<Row>)
    requires Unique(s.messages)
    ensures SparesSaved(s, DropRows(s, cursor))
  {
    if cursor != [] {
      PurgeSparesSaved(s, cursor[..|cursor| - 1]);
      hide SparesSaved, Unique, DropRow;
      SparingAdvances(s, DropRows(s, cursor[..|cursor| - 1]), cursor[|cursor| - 1]);
    }
  }

  /** From `s` to `t` the rows in `gone` went, and the unsaved messages that only they held. */
  ghost predicate Released(s: State, t: State, live: set<Hash>, gone: seq<Row>) {
    && Sound(t, live) && Unique(t.messages)
    && t == s.(derivations := t.derivations, messages := t.messages, events := t.events)
    && (forall r :: r in t.derivations <==> r in s.derivations && r !in gone)
    && (forall m :: m in t.messages <==> m in s.messages && (m.saved || HasRow(t, m.key)))
  }

  lemma ReleasingAdvances(s: State, u: State, live: set<Hash>, before: seq<Row>, row: Row)
    requires Released(s, u, live, before) && row in u.derivations
    ensures Released(s, DropRow(u, row), live, before + [row])
  {
    var t := DropRow(u, row);
    DropRowTakesExactly(u, row);
    DropRowKeepsSound(u, live, row);
    CountIsExact(u.derivations, row);
    hide DropRow, Sound, Unique, RowsFor;
    forall m | m in s.messages ensures m in t.messages <==> m.saved || HasRow(t, m.key) {
      if HasRow(t, m.key) {
        var r :| r in t.derivations && r.key == m.key;
        assert r in u.derivations;
      } else if HasRow(u, m.key) {
        var r :| r in u.derivations && r.key == m.key;
        assert r == row;
      }
    }
  }

  lemma {:induction false} ReleasingRows(s: State, live: set<Hash>, rows: seq<Row>)
    requires Sound(s, live) && Unique(s.messages) && NoDuplicates(rows)
    requires forall r :: r in rows ==> r in s.derivations
    ensures Released(s, DropRows(s, rows), live, rows)
  {
    if rows == [] {
      assert forall m :: m in s.messages && !m.saved ==> HasRow(s, m.key);
    } else {
      var before, row := rows[..|rows| - 1], rows[|rows| - 1];
      ReleasingRows(s, live, before);
      assert rows == before + [row] && row !in before;
      ReleasingAdvances(s, DropRows(s, before), live, before, row);
      hide DropRow, Released, Sound;
    }
  }

  /** A purge, in whatever order its cursor yields the rows: a message stays if and only if it is saved or another
      item still holds it, and exactly the rows of the item go. */
  lemma DepartureSparesExactly(s: State, live: set<Hash>, hash: Hash, cursor: seq<Row>)
    requires Sound(s, live) && Unique(s.messages) && Yields(s.derivations, hash, cursor)
    ensures var t := DropRows(s, cursor);
            && (forall r :: r in t.derivations <==> r in s.derivations && r.from != hash)
            && (forall m :: m in t.messages <==>
                            && m in s.messages
                            && (m.saved || exists r :: r in s.derivations && r.key == m.key && r.from != hash))
            && t == s.(derivations := t.derivations, messages := t.messages, events := t.events)
  {
    var t := DropRows(s, cursor);
    CursorIsDistinct(s.derivations, hash, cursor);
    ReleasingRows(s, live, cursor);
    hide DropRows, Sound, Unique, NoDuplicates;
    assert forall r :: r in t.derivations <==> r in s.derivations && r.from != hash;
  }

  // ---------------------------------------------------------------- commands

  lemma InFlagged(messages: seq<MessageRow>, key: Key, saved: bool, m: MessageRow)
    ensures m in Flagged(messages, key, saved) <==>
            if m.key == key
            then m.saved == saved && exists earlier :: earlier in messages && earlier.key == key
            else m in messages
  {
    var flagged := Flagged(messages, key, saved);
    if before :| before in messages && before.key == key {
      var i :| 0 <= i < |messages| && messages[i] == before;
      assert flagged[i] == MessageRow(key, saved);
    }
    if m in messages && m.key != key {
      var i :| 0 <= i < |messages| && messages[i] == m;
      assert flagged[i] == m;
    }
  }

  /** Saving and unsaving change the flag of that message alone; unsaving one that nothing holds deletes it and
      reports it expired. */
  lemma SavingFlagsExactly(s: State, key: Key)
    ensures var t := Saved(s, key);
            && t == s.(messages := t.messages)
            && forall m :: m in t.messages <==> if m.key == key then m.saved && HasMessage(s, key) else m in s.messages
  {
    forall m ensures m in Saved(s, key).messages <==>
                     if m.key == key then m.saved && HasMessage(s, key) else m in s.messages
    {
      InFlagged(s.messages, key, true, m);
    }
  }

  lemma UnsavingFlagsExactly(s: State, key: Key)
    ensures var t := Unsaved(s, key);
            && t == s.(messages := t.messages, events := t.events)
            && t.events == s.events + (if HasRow(s, key) then [] else [MessageExpired(key)])
            && forall m :: m in t.messages <==>
                           if m.key == key
                           then !m.saved && HasMessage(s, key) && HasRow(s, key)
                           else m in s.messages
  {
    HasRowExactly(s, key);
    forall m ensures m in Unsaved(s, key).messages <==>
                     if m.key == key
                     then !m.saved && HasMessage(s, key) && HasRow(s, key)
                     else m in s.messages
    {
      InFlagged(s.messages, key, false, m);
    }
  }

  lemma HasRowExactly(s: State, key: Key)
    ensures HasRow(s, key) <==> RowsFor(s.derivations, key) != []
  {
    if r :| r in s.derivations && r.key == key {
      assert r in RowsFor(s.derivations, key);
    }
    if RowsFor(s.derivations, key) != [] {
      assert RowsFor(s.derivations, key)[0] in RowsFor(s.derivations, key);
    }
  }

  /** A new inbox saves what it gets until told otherwise; a preference is set for its inbox alone. */
  lemma PreferencesExactly(s: State, inbox: InboxId, autosave: bool)
    ensures var t := InboxAdded(s, inbox);
            && t == s.(inboxes := t.inboxes)
            && forall i :: i in t.inboxes <==> i in s.inboxes || i == Inbox(inbox, true)
    ensures var t := AutosaveSet(s, inbox, autosave);
            && t == s.(inboxes := t.inboxes)
            && forall i :: i in t.inboxes <==>
                           if i.id == inbox then i.autosave == autosave && HasInbox(s, inbox) else i in s.inboxes
  {
    var t := AutosaveSet(s, inbox, autosave);
    forall i ensures i in t.inboxes <==>
                     if i.id == inbox then i.autosave == autosave && HasInbox(s, inbox) else i in s.inboxes
    {
      forall k | 0 <= k < |s.inboxes|
        ensures t.inboxes[k] == if s.inboxes[k].id == inbox then Inbox(inbox, autosave) else s.inboxes[k]
      {
      }
      if i.id != inbox && i in s.inboxes {
        var k :| 0 <= k < |s.inboxes| && s.inboxes[k] == i;
        assert t.inboxes[k] == i;
      }
      if i == Inbox(inbox, autosave) && HasInbox(s, inbox) {
        var before :| before in s.inboxes && before.id == inbox;
        var k :| 0 <= k < |s.inboxes| && s.inboxes[k] == before;
        assert t.inboxes[k] == i;
      }
    }
  }

  /** What was in the inbox goes with it, and nothing else. */
  lemma DeletingTakesExactly(s: State, inbox: InboxId)
    ensures var t := InboxDeleted(s, inbox);
            && (forall r :: r in t.derivations <==> r in s.derivations && r.key.inbox != inbox)
            && (forall m :: m in t.messages <==> m in s.messages && m.key.inbox != inbox)
            && (forall i :: i in t.inboxes <==> i in s.inboxes && i.id != inbox)
            && (forall id :: id in t.inboxExpiration <==> id in s.inboxExpiration && id != inbox)
            && (forall id :: id in t.inboxExpiration ==> t.inboxExpiration[id] == s.inboxExpiration[id])
            && t.events == s.events
  {
  }

  // ---------------------------------------------------------------- arrivals

  /** A live item holds the message. */
  ghost predicate Held(s: State, live: set<Hash>, key: Key) {
    exists r :: r in s.derivations && r.key == key && r.from in live
  }

  /** The item is a box with the given message that the inbox can open. */
  ghost predicate Carries(mail: Mail, hash: Hash, inbox: Inbox, key: Key) {
    key.inbox == inbox.id && mail.open(hash.payload, inbox.id) == Sealed(key.id.plaintext)
  }

  /** ... and it will hold that message: one that is held already, or one that can be parsed. */
  ghost predicate Files(mail: Mail, s: State, live: set<Hash>, hash: Hash, inbox: Inbox, key: Key) {
    Carries(mail, hash, inbox, key) && (Held(s, live, key) || mail.parse(key.id.plaintext).Some?)
  }

  /** ... as a new message. */
  ghost predicate Adds(mail: Mail, s: State, live: set<Hash>, hash: Hash, inbox: Inbox, key: Key) {
    Files(mail, s, live, hash, inbox, key) && !Held(s, live, key)
  }

  /** The item expires after every live item that holds the message. */
  ghost predicate Outlives(s: State, live: set<Hash>, hash: Hash, key: Key) {
    forall r :: r in s.derivations && r.key == key && r.from in live ==> r.from.expirationTime < hash.expirationTime
  }

  lemma HeldExactly(s: State, live: set<Hash>, hash: Hash, key: Key)
    ensures StoredExpiration(s, live, key).Some? <==> Held(s, live, key)
    ensures StoredExpiration(s, live, key).Some? ==>
              (StoredExpiration(s, live, key).value < hash.expirationTime <==> Outlives(s, live, hash, key))
  {
  }

  /** The item is what the inbox publishes about itself. */
  ghost predicate Owns(mail: Mail, hash: Hash, inbox: Inbox, id: InboxId) {
    id == inbox.id && mail.open(hash.payload, inbox.id) == OwnEntry
  }

  /** An arrival at one inbox: one row more if the item is for it, one message more, saved as the inbox prefers, if
      no live item holds it yet; and one event, which says what is new. */
  lemma ArriveAtFilesExactly(mail: Mail, s: State, live: set<Hash>, hash: Hash, inbox: Inbox)
    requires hash in live
    ensures var t := ArriveAt(mail, s, live, hash, inbox);
            && (forall r :: r in t.derivations <==>
                            r in s.derivations || (r.from == hash && Files(mail, s, live, hash, inbox, r.key)))
            && (forall m :: m in t.messages <==>
                            || m in s.messages
                            || (m.saved == inbox.autosave && Adds(mail, s, live, hash, inbox, m.key)))
            && (forall id :: id in t.inboxExpiration <==> id in s.inboxExpiration || Owns(mail, hash, inbox, id))
            && (forall id :: id in t.inboxExpiration ==>
                               && (id in s.inboxExpiration ==> s.inboxExpiration[id] <= t.inboxExpiration[id])
                               && (Owns(mail, hash, inbox, id) ==> hash.expirationTime <= t.inboxExpiration[id])
                               && (|| (id in s.inboxExpiration && t.inboxExpiration[id] == s.inboxExpiration[id])
                                   || (Owns(mail, hash, inbox, id) && t.inboxExpiration[id] == hash.expirationTime)))
  {
    match mail.open(hash.payload, inbox.id) {
      case Opaque =>
      case OwnEntry =>
      case Sealed(plaintext) =>
        HeldExactly(s, live, hash, Key(Id(plaintext), inbox.id));
        hide StoredExpiration, Held, Outlives;
    }
  }

  lemma ArriveAtSaysExactly(mail: Mail, s: State, live: set<Hash>, hash: Hash, inbox: Inbox)
    requires hash in live
    ensures var t := ArriveAt(mail, s, live, hash, inbox);
            && (mail.open(hash.payload, inbox.id) == OwnEntry ==>
                  t.events == s.events + [InboxSeen(inbox.id, hash.expirationTime)])
            && (mail.open(hash.payload, inbox.id) == Opaque ==> t == s)
            && forall key :: Carries(mail, hash, inbox, key) ==>
                               t.events == s.events +
                               (if Adds(mail, s, live, hash, inbox, key) then
                                  [MessageArrived(key, inbox.autosave,
                                                  mail.parse(key.id.plaintext).value.inReplyTo, hash.expirationTime)]
                                else if Held(s, live, key) && Outlives(s, live, hash, key) then
                                  [ExpirationExtended(key, hash.expirationTime)]
                                else
                                  [])
  {
    match mail.open(hash.payload, inbox.id) {
      case Opaque =>
      case OwnEntry =>
      case Sealed(plaintext) =>
        var key := Key(Id(plaintext), inbox.id);
        HeldExactly(s, live, hash, key);
        hide StoredExpiration, Held, Outlives;
    }
  }

  /** What the first `n` inboxes have made of an item. */
  ghost predicate Filed(mail: Mail, s: State, t: State, live: set<Hash>, hash: Hash, n: nat)
    requires n <= |s.inboxes|
  {
    && t.inboxes == s.inboxes
    && (forall r :: r in t.derivations <==>
                    || r in s.derivations
                    || (r.from == hash && exists i :: 0 <= i < n && Files(mail, s, live, hash, s.inboxes[i], r.key)))
    && (forall m :: m in t.messages <==>
                    || m in s.messages
                    || (exists i :: 0 <= i < n && m.saved == s.inboxes[i].autosave
                                    && Adds(mail, s, live, hash, s.inboxes[i], m.key)))
  }

  /** What other inboxes made of it changes nothing for this one. */
  lemma LaterInboxUntouched(mail: Mail, s: State, u: State, live: set<Hash>, hash: Hash, n: nat, key: Key)
    requires n < |s.inboxes| && Distinct(s.inboxes) && Filed(mail, s, u, live, hash, n)
    requires key.inbox == s.inboxes[n].id
    ensures Held(u, live, key) <==> Held(s, live, key)
  {
    hide Adds;
  }

  lemma FilingAdvances(mail: Mail, s: State, u: State, live: set<Hash>, hash: Hash, n: nat)
    requires hash in live && n < |s.inboxes| && Distinct(s.inboxes) && Filed(mail, s, u, live, hash, n)
    ensures Filed(mail, s, ArriveAt(mail, u, live, hash, s.inboxes[n]), live, hash, n + 1)
  {
    var inbox := s.inboxes[n];
    var t := ArriveAt(mail, u, live, hash, inbox);
    ArriveAtFilesExactly(mail, u, live, hash, inbox);
    forall key ensures Files(mail, u, live, hash, inbox, key) <==> Files(mail, s, live, hash, inbox, key) {
      if key.inbox == inbox.id {
        LaterInboxUntouched(mail, s, u, live, hash, n, key);
      }
    }
    forall key ensures Adds(mail, u, live, hash, inbox, key) <==> Adds(mail, s, live, hash, inbox, key) {
      if key.inbox == inbox.id {
        LaterInboxUntouched(mail, s, u, live, hash, n, key);
      }
    }
    hide ArriveAt, Files, Adds, Distinct;
  }

  lemma {:induction false} ArrivingFiles(mail: Mail, s: State, live: set<Hash>, hash: Hash, n: nat)
    requires hash in live && n <= |s.inboxes| && Distinct(s.inboxes)
    ensures Filed(mail, s, Arrive(mail, s, live, hash, n), live, hash, n)
  {
    hide ArriveAt, Filed, Distinct;
    if n == 0 {
      NothingFiled(mail, s, live, hash);
    } else {
      ArrivingFiles(mail, s, live, hash, n - 1);
      FilingAdvances(mail, s, Arrive(mail, s, live, hash, n - 1), live, hash, n - 1);
    }
  }

  lemma NothingFiled(mail: Mail, s: State, live: set<Hash>, hash: Hash)
    ensures Filed(mail, s, s, live, hash, 0)
  {
  }

  /** An arrival, for any tables and any inventory: a row for each inbox that the item is for, and a message, saved as
      the inbox prefers, in each where no live item held it; nothing if the item is no longer there. */
  lemma ArrivalFilesExactly(mail: Mail, s: State, live: set<Hash>, hash: Hash)
    requires Distinct(s.inboxes)
    ensures var t := Consumed(mail, s, live, hash);
            && t.inboxes == s.inboxes
            && (forall r :: r in t.derivations <==>
                            || r in s.derivations
                            || (&& hash in live && r.from == hash
                                && exists i :: i in s.inboxes && Files(mail, s, live, hash, i, r.key)))
            && (forall m :: m in t.messages <==>
                            || m in s.messages
                            || (&& hash in live
                                && exists i :: i in s.inboxes && m.saved == i.autosave
                                               && Adds(mail, s, live, hash, i, m.key)))
  {
    if hash in live {
      ArrivingFiles(mail, s, live, hash, |s.inboxes|);
    }
    hide Arrive, Files, Adds, Distinct;
  }

  // ---------------------------------------------------------------- any action

  /** After any mutation or command a message is there, with its flag, if and only if one of these brought it or
      left it. */
  lemma MessageAfterExactly(mail: Mail, w: World, action: Action, m: MessageRow)
    requires Invariant(mail, w) && Local(w.state, action)
    ensures var s, t := w.state, Act(mail, w, action).state;
            m in t.messages <==>
            match action
            case Arrival(hash) =>
              || m in s.messages
              || exists i :: i in s.inboxes && m.saved == i.autosave && Adds(mail, s, w.live + {hash}, hash, i, m.key)
            case Departure(hash, _) =>
              m in s.messages && (m.saved || exists r :: r in s.derivations && r.key == m.key && r.from != hash)
            case DeleteInbox(inbox) => m in s.messages && m.key.inbox != inbox
            case SaveMessage(key) => if m.key == key then m.saved && HasMessage(s, key) else m in s.messages
            case UnsaveMessage(key) =>
              if m.key == key then !m.saved && HasMessage(s, key) && HasRow(s, key) else m in s.messages
            case NewInbox(_) => m in s.messages
            case SetAutosave(_, _) => m in s.messages
  {
    var s := w.state;
    match action {
      case Arrival(hash) => ArrivalFilesExactly(mail, s, w.live + {hash}, hash);
      case Departure(hash, cursor) => DepartureSparesExactly(s, w.live, hash, cursor);
      case DeleteInbox(inbox) =>
      case SaveMessage(key) => SavingFlagsExactly(s, key);
      case UnsaveMessage(key) => UnsavingFlagsExactly(s, key);
      case _ =>
    }
    hide Invariant, Arrive, DropRows, Adds, Saved, Unsaved;
  }

  /** ... and so is a row. */
  lemma RowAfterExactly(mail: Mail, w: World, action: Action, r: Row)
    requires Invariant(mail, w) && Local(w.state, action)
    ensures var s, t := w.state, Act(mail, w, action).state;
            r in t.derivations <==>
            match action
            case Arrival(hash) =>
              || r in s.derivations
              || (r.from == hash && exists i :: i in s.inboxes && Files(mail, s, w.live + {hash}, hash, i, r.key))
            case Departure(hash, _) => r in s.derivations && r.from != hash
            case DeleteInbox(inbox) => r in s.derivations && r.key.inbox != inbox
            case _ => r in s.derivations
  {
    var s := w.state;
    match action {
      case Arrival(hash) => ArrivalFilesExactly(mail, s, w.live + {hash}, hash);
      case Departure(hash, cursor) => DepartureSparesExactly(s, w.live, hash, cursor);
      case SaveMessage(key) => SavingFlagsExactly(s, key);
      case UnsaveMessage(key) => UnsavingFlagsExactly(s, key);
      case _ =>
    }
    hide Invariant, Arrive, DropRows, Files, Saved, Unsaved;
  }

  /** ... and an inbox, with its preference, and a live hash. */
  lemma InboxAfterExactly(mail: Mail, w: World, action: Action, i: Inbox)
    requires Local(w.state, action)
    ensures var s, t := w.state, Act(mail, w, action).state;
            i in t.inboxes <==>
            match action
            case NewInbox(inbox) => i in s.inboxes || i == Inbox(inbox, true)
            case SetAutosave(inbox, autosave) =>
              if i.id == inbox then i.autosave == autosave && HasInbox(s, inbox) else i in s.inboxes
            case DeleteInbox(inbox) => i in s.inboxes && i.id != inbox
            case _ => i in s.inboxes
    ensures forall h :: h in Act(mail, w, action).live <==>
                        || action == Arrival(h)
                        || (h in w.live && !(action.Departure? && action.hash == h))
  {
    var s := w.state;
    match action {
      case Departure(_, cursor) => DroppingKeepsInboxes(s, cursor);
      case NewInbox(inbox) => PreferencesExactly(s, inbox, true);
      case SetAutosave(inbox, autosave) => PreferencesExactly(s, inbox, autosave);
      case _ =>
    }
    hide Arrive, DropRows, AutosaveSet;
  }

  lemma {:induction false} DroppingKeepsInboxes(s: State, rows: seq<Row>)
    ensures DropRows(s, rows).inboxes == s.inboxes
  {
    hide DropRow;
    if rows != [] {
      DroppingKeepsInboxes(s, rows[..|rows| - 1]);
    }
  }
}
