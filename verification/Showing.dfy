/** What the frontend shows, apart from whether the tables are sound: the same inboxes and messages, right parents,
    read marks, counters and reply indexes, and the known expirations of the inboxes. It is kept exactly as long
    as no message event repeats a message that is shown and unread: whatever rows the tables repeat or have lost,
    whatever inventory an arrival is consumed against, and in whatever order rows are purged. */
module Showing {
  import opened Wrappers
  import opened Derivation
  import opened DerivationInvariant
  import opened DerivationRuns
  import opened Mirror
  import opened MirrorRuns
  import F = Frontend

  // ---------------------------------------------------------------- the relation

  ghost predicate EntryShows(mail: Mail, key: Key, message: F.Message, readKeys: set<Key>) {
    mail.parse(key.id.plaintext) == Some(Parsed(message.inReplyTo)) && (message.read <==> key in readKeys)
  }

  ghost predicate BoxShows(mail: Mail, s: State, id: InboxId, box: F.Box, readKeys: set<Key>) {
    && F.Tidy(box)
    && (forall m :: m in box.messages <==> HasMessage(s, Key(m, id)))
    && (forall m :: m in box.messages ==> EntryShows(mail, Key(m, id), box.messages[m], readKeys))
    && box.expirationTime == (if id in s.inboxExpiration then Some(s.inboxExpiration[id]) else None)
  }

  /** Every message and every known expiration is of an inbox that is there; no inbox is there twice. */
  ghost predicate Housed(s: State) {
    && Distinct(s.inboxes)
    && (forall id :: id in s.inboxExpiration ==> HasInbox(s, id))
    && (forall key :: HasMessage(s, key) ==> HasInbox(s, key.inbox))
  }

  ghost predicate Shows(mail: Mail, s: State, v: F.View) {
    && Housed(s)
    && (forall id :: id in v.boxes <==> HasInbox(s, id))
    && (forall id :: id in v.boxes ==> BoxShows(mail, s, id, v.boxes[id], v.readKeys))
  }

  /** The full relation says all of this, and more. */
  lemma InStepShows(mail: Mail, j: Joint)
    requires InStep(mail, j)
    ensures Shows(mail, j.world.state, j.view)
  {
    var s, v := j.world.state, j.view;
    forall id | id in v.boxes ensures BoxShows(mail, s, id, v.boxes[id], v.readKeys) {
      assert BoxMirrors(mail, s, id, v.boxes[id], v.readKeys);
      hide F.Tidy, HasRow, IsLatest;
    }
    hide BoxMirrors, BoxShows, Truthful, Derived, Unique;
  }

  // ---------------------------------------------------------------- one event

  /** A message event for a message that is shown and unread. */
  ghost predicate Recounts(v: F.View, event: Event) {
    && event.MessageArrived? && F.Has(v, event.key)
    && !v.boxes[event.key.inbox].messages[event.key.id].read
  }

  /** The event tells what changed in the tables between `s` and `t`. */
  ghost predicate Tells(mail: Mail, s: State, t: State, event: Event) {
    && t.inboxes == s.inboxes && HasInbox(s, F.InboxOf(event))
    && match event
       case InboxSeen(id, time) =>
         && t.messages == s.messages
         && t.inboxExpiration == s.inboxExpiration[
             id := if id in s.inboxExpiration && s.inboxExpiration[id] > time then s.inboxExpiration[id] else time]
       case MessageArrived(key, saved, inReplyTo, _) =>
         && t.messages == s.messages + [MessageRow(key, saved)] && t.inboxExpiration == s.inboxExpiration
         && mail.parse(key.id.plaintext) == Some(Parsed(inReplyTo))
       case ExpirationExtended(_, _) =>
         t.messages == s.messages && t.inboxExpiration == s.inboxExpiration
       case MessageExpired(key) =>
         && (forall m :: m in t.messages <==> m in s.messages && m.key != key)
         && t.inboxExpiration == s.inboxExpiration
  }

  /** Which messages are there afterwards. */
  ghost predicate Listed(s: State, t: State, event: Event) {
    forall key :: HasMessage(t, key) <==>
                    if event.MessageArrived? && key == event.key then true
                    else HasMessage(s, key) && !(event.MessageExpired? && key == event.key)
  }

  lemma TellsLists(mail: Mail, s: State, t: State, event: Event)
    requires Tells(mail, s, t, event)
    ensures Listed(s, t, event)
  {
    forall key
      ensures HasMessage(t, key) <==>
              if event.MessageArrived? && key == event.key then true
              else HasMessage(s, key) && !(event.MessageExpired? && key == event.key)
    {
      if event.MessageArrived? {
        assert forall m :: m in t.messages <==> m in s.messages || m == MessageRow(event.key, event.saved);
        assert MessageRow(event.key, event.saved).key == event.key;
      } else if HasMessage(s, key) && !(event.MessageExpired? && key == event.key) {
        var m :| m in s.messages && m.key == key;
        assert m in t.messages;
      }
    }
  }

  lemma ArrivedShows(mail: Mail, s: State, t: State, event: Event, box: F.Box, readKeys: set<Key>)
    requires event.MessageArrived? && Tells(mail, s, t, event) && Listed(s, t, event)
    requires BoxShows(mail, s, event.key.inbox, box, readKeys)
    ensures BoxShows(mail, t, event.key.inbox, F.HandledIn(box, readKeys, event), readKeys) <==>
            !(event.key.id in box.messages && !box.messages[event.key.id].read)
  {
    var key := event.key;
    var message := F.Message(event.inReplyTo, Some(event.expirationTime), event.saved, key in readKeys);
    if key.id in box.messages {
      assert EntryShows(mail, key, box.messages[key.id], readKeys);
    }
    F.InsertKeepsTidyExactly(box, key.id, message);
    hide F.Tidy, HasMessage;
  }

  lemma OthersShow(mail: Mail, s: State, t: State, event: Event, box: F.Box, readKeys: set<Key>)
    requires !event.MessageArrived? && Tells(mail, s, t, event) && Listed(s, t, event)
    requires BoxShows(mail, s, F.InboxOf(event), box, readKeys)
    ensures BoxShows(mail, t, F.InboxOf(event), F.HandledIn(box, readKeys, event), readKeys)
  {
    hide HasMessage;
    match event {
      case InboxSeen(_, _) =>
      case ExpirationExtended(key, time) =>
        if key.id in box.messages {
          assert EntryShows(mail, key, box.messages[key.id], readKeys);
          F.TouchKeepsTidy(box, key.id, box.messages[key.id].(expirationTime := Some(time)));
        }
        hide F.Tidy;
      case MessageExpired(key) =>
        F.ExpireKeepsTidy(box, key.id);
        hide F.Tidy;
    }
  }

  lemma HandledThere(mail: Mail, s: State, t: State, event: Event, box: F.Box, readKeys: set<Key>)
    requires Tells(mail, s, t, event) && BoxShows(mail, s, F.InboxOf(event), box, readKeys)
    ensures BoxShows(mail, t, F.InboxOf(event), F.HandledIn(box, readKeys, event), readKeys) <==>
            !(event.MessageArrived? && event.key.id in box.messages && !box.messages[event.key.id].read)
  {
    TellsLists(mail, s, t, event);
    hide Tells, Listed, BoxShows, F.HandledIn;
    if event.MessageArrived? {
      ArrivedShows(mail, s, t, event, box, readKeys);
    } else {
      OthersShow(mail, s, t, event, box, readKeys);
    }
  }

  lemma UnheardShows(mail: Mail, s: State, t: State, event: Event, id: InboxId, box: F.Box, readKeys: set<Key>)
    requires Tells(mail, s, t, event) && id != F.InboxOf(event) && BoxShows(mail, s, id, box, readKeys)
    ensures BoxShows(mail, t, id, box, readKeys)
  {
    TellsLists(mail, s, t, event);
    hide HasMessage, F.Tidy, EntryShows;
  }

  lemma TellsHouses(mail: Mail, s: State, t: State, event: Event)
    requires Housed(s) && Tells(mail, s, t, event)
    ensures Housed(t) && forall id :: HasInbox(t, id) <==> HasInbox(s, id)
  {
    TellsLists(mail, s, t, event);
    assert forall id :: HasInbox(t, id) <==> HasInbox(s, id);
    hide HasMessage, HasInbox, Distinct;
  }

  ghost predicate Untidy(v: F.View, id: InboxId) {
    id in v.boxes && !F.Tidy(v.boxes[id])
  }

  lemma RecountingIsUntidy(mail: Mail, s: State, v: F.View, event: Event)
    requires Recounts(v, event) && BoxShows(mail, s, event.key.inbox, v.boxes[event.key.inbox], v.readKeys)
    requires mail.parse(event.key.id.plaintext) == Some(Parsed(event.inReplyTo))
    ensures Untidy(F.Handled(v, event), event.key.inbox)
  {
    var key := event.key;
    var box := v.boxes[key.inbox];
    assert EntryShows(mail, key, box.messages[key.id], v.readKeys);
    F.InsertKeepsTidyExactly(
      box, key.id, F.Message(event.inReplyTo, Some(event.expirationTime), event.saved, key in v.readKeys));
    hide F.Tidy, HasMessage;
  }

  lemma OtherBoxesShow(mail: Mail, s: State, t: State, v: F.View, event: Event)
    requires Shows(mail, s, v) && Tells(mail, s, t, event)
    ensures forall id :: id in v.boxes && id != F.InboxOf(event) ==> BoxShows(mail, t, id, v.boxes[id], v.readKeys)
  {
    hide BoxShows, Tells, Housed;
    forall id | id in v.boxes && id != F.InboxOf(event) ensures BoxShows(mail, t, id, v.boxes[id], v.readKeys) {
      UnheardShows(mail, s, t, event, id, v.boxes[id], v.readKeys);
    }
  }

  lemma UntidyIsNotShowing(mail: Mail, s: State, v: F.View, id: InboxId)
    requires Untidy(v, id)
    ensures !Shows(mail, s, v)
  {
    assert id in v.boxes ==> !BoxShows(mail, s, id, v.boxes[id], v.readKeys);
    hide F.Tidy, Housed;
  }

  lemma CleanEventShows(mail: Mail, s: State, t: State, v: F.View, event: Event)
    requires Shows(mail, s, v) && Tells(mail, s, t, event) && !Recounts(v, event)
    ensures Shows(mail, t, F.Handled(v, event))
  {
    hide BoxShows, Housed, HasInbox, F.HandledIn, HasMessage;
    var id := F.InboxOf(event);
    assert HasInbox(s, id);
    hide Tells;
    TellsHouses(mail, s, t, event);
    HandledThere(mail, s, t, event, v.boxes[id], v.readKeys);
    OtherBoxesShow(mail, s, t, v, event);
  }

  /** What handling one event keeps, exactly. */
  lemma EventShows(mail: Mail, s: State, t: State, v: F.View, event: Event)
    requires Shows(mail, s, v) && Tells(mail, s, t, event)
    ensures F.InboxOf(event) in v.boxes
    ensures Shows(mail, t, F.Handled(v, event)) <==> !Recounts(v, event)
    ensures Recounts(v, event) ==> Untidy(F.Handled(v, event), F.InboxOf(event))
  {
    hide BoxShows, Housed, HasInbox, F.Handled;
    if Recounts(v, event) {
      RecountingIsUntidy(mail, s, v, event);
      UntidyIsNotShowing(mail, t, F.Handled(v, event), F.InboxOf(event));
    } else {
      CleanEventShows(mail, s, t, v, event);
    }
  }

  /** Nothing that is shown changed. */
  lemma QuietShows(mail: Mail, s: State, t: State, v: F.View)
    requires Shows(mail, s, v) && Distinct(t.inboxes)
    requires forall key :: HasMessage(t, key) <==> HasMessage(s, key)
    requires forall id :: HasInbox(t, id) <==> HasInbox(s, id)
    requires t.inboxExpiration == s.inboxExpiration
    ensures Shows(mail, t, v)
  {
    hide F.Tidy, HasMessage, HasInbox, Distinct, EntryShows;
  }

  // ---------------------------------------------------------------- batches of events

  /** Handling the events in turn never meets a message event for a message that is shown and unread. */
  ghost predicate Clean(v: F.View, events: seq<Event>) {
    forall i :: 0 <= i < |events| ==> !Recounts(F.HandledAll(v, events[..i]), events[i])
  }

  lemma CleanSnoc(v: F.View, events: seq<Event>, event: Event)
    ensures Clean(v, events + [event]) <==> Clean(v, events) && !Recounts(F.HandledAll(v, events), event)
  {
    var longer := events + [event];
    hide Recounts;
    assert longer[..|events|] == events;
    assert forall i :: 0 <= i < |events| ==> longer[..i] == events[..i] && longer[i] == events[i];
    if Clean(v, longer) {
      assert !Recounts(F.HandledAll(v, longer[..|events|]), longer[|events|]);
      forall i | 0 <= i < |events| ensures !Recounts(F.HandledAll(v, events[..i]), events[i]) {
        assert !Recounts(F.HandledAll(v, longer[..i]), longer[i]);
      }
    }
  }

  /** One more step of the backend, which tells one event or changes nothing that is shown. */
  ghost predicate OneMore(mail: Mail, s: State, t: State) {
    || (t.events == s.events && t.messages == s.messages && t.inboxes == s.inboxes
        && t.inboxExpiration == s.inboxExpiration)
    || (|t.events| == |s.events| + 1 && s.events <= t.events && Tells(mail, s, t, t.events[|s.events|]))
  }

  /** From `s` on, the frontend either met nothing repeated and shows the tables, or met something and is untidy at
      one of the first `n` inboxes. */
  ghost predicate Heard(mail: Mail, s: State, t: State, v: F.View, n: nat)
    requires n <= |s.inboxes|
  {
    && s.events <= t.events && t.inboxes == s.inboxes && Told(v, s, t).boxes.Keys == v.boxes.Keys
    && (Clean(v, News(s, t)) ==> Shows(mail, t, Told(v, s, t)))
    && (!Clean(v, News(s, t)) ==> exists i :: 0 <= i < n && Untidy(Told(v, s, t), s.inboxes[i].id))
  }

  lemma ToldOneMore(v: F.View, s: State, u: State, t: State)
    requires s.events <= u.events <= t.events
    ensures t.events == u.events ==> Told(v, s, t) == Told(v, s, u) && News(s, t) == News(s, u)
    ensures |t.events| == |u.events| + 1 ==>
              && News(s, t) == News(s, u) + [t.events[|u.events|]]
              && Told(v, s, t) == F.Handled(Told(v, s, u), t.events[|u.events|])
              && (Clean(v, News(s, t)) <==>
                  Clean(v, News(s, u)) && !Recounts(Told(v, s, u), t.events[|u.events|]))
  {
    if |t.events| == |u.events| + 1 {
      var event := t.events[|u.events|];
      assert News(s, t) == News(s, u) + [event];
      CleanSnoc(v, News(s, u), event);
      assert (News(s, u) + [event])[..|News(s, u)|] == News(s, u);
    }
    hide Recounts, Clean;
  }

  lemma HandlingKeepsInboxes(v: F.View, event: Event)
    ensures F.Handled(v, event).boxes.Keys == v.boxes.Keys
    ensures forall id :: id != F.InboxOf(event) && Untidy(v, id) ==> Untidy(F.Handled(v, event), id)
  {
    hide F.HandledIn, F.Tidy;
  }

  // ---------------------------------------------------------------- arrivals

  lemma ArriveAtTells(mail: Mail, s: State, live: set<Hash>, hash: Hash, inbox: Inbox)
    requires inbox in s.inboxes
    ensures var t := ArriveAt(mail, s, live, hash, inbox);
            OneMore(mail, s, t) && (t.events != s.events ==> F.InboxOf(t.events[|s.events|]) == inbox.id)
  {
    assert HasInbox(s, inbox.id);
    hide StoredExpiration, HasInbox;
  }

  lemma HeardMore(mail: Mail, s: State, u: State, t: State, v: F.View, n: nat)
    requires Shows(mail, s, v) && n < |s.inboxes| && Heard(mail, s, u, v, n) && OneMore(mail, u, t)
    requires t.inboxes == u.inboxes && u.events <= t.events
    requires t.events != u.events ==> F.InboxOf(t.events[|u.events|]) == s.inboxes[n].id
    ensures Heard(mail, s, t, v, n + 1)
  {
    hide Clean, Shows, Told, News, Untidy, Tells, Recounts, F.Handled;
    ToldOneMore(v, s, u, t);
    if t.events != u.events {
      HeardEvent(mail, s, u, t, v, n, t.events[|u.events|]);
    } else if Clean(v, News(s, u)) {
      SameTablesShow(mail, u, t, Told(v, s, u));
    }
  }

  lemma HeardEvent(mail: Mail, s: State, u: State, t: State, v: F.View, n: nat, event: Event)
    requires Shows(mail, s, v) && n < |s.inboxes| && Heard(mail, s, u, v, n) && Tells(mail, u, t, event)
    requires F.InboxOf(event) == s.inboxes[n].id
    ensures var w := F.Handled(Told(v, s, u), event);
            && w.boxes.Keys == v.boxes.Keys
            && (Clean(v, News(s, u)) && !Recounts(Told(v, s, u), event) ==> Shows(mail, t, w))
            && (!(Clean(v, News(s, u)) && !Recounts(Told(v, s, u), event)) ==>
                  exists i :: 0 <= i < n + 1 && Untidy(w, s.inboxes[i].id))
  {
    assert forall i :: 0 <= i < n ==> s.inboxes[i].id != s.inboxes[n].id;
    hide Shows, Tells, Clean, Told, News, Recounts, Untidy, F.Handled;
    HandlingKeepsInboxes(Told(v, s, u), event);
    if Clean(v, News(s, u)) {
      EventShows(mail, u, t, Told(v, s, u), event);
    } else {
      var i :| 0 <= i < n && Untidy(Told(v, s, u), s.inboxes[i].id);
      assert Untidy(F.Handled(Told(v, s, u), event), s.inboxes[i].id);
    }
  }

  lemma NothingHeard(mail: Mail, s: State, v: F.View)
    requires Shows(mail, s, v)
    ensures Heard(mail, s, s, v, 0) && Clean(v, News(s, s)) && Told(v, s, s) == v
  {
    ToldOne(v, s, s);
    hide Shows, Told;
  }

  lemma {:induction false} ArriveHeard(
    mail: Mail, s: State, v: F.View, live: set<Hash>, hash: Hash, n: nat)
    requires n <= |s.inboxes| && Shows(mail, s, v)
    ensures Heard(mail, s, Arrive(mail, s, live, hash, n), v, n)
  {
    hide ArriveAt, Shows, Heard, OneMore;
    if n == 0 {
      NothingHeard(mail, s, v);
    } else {
      var u := Arrive(mail, s, live, hash, n - 1);
      ArriveHeard(mail, s, v, live, hash, n - 1);
      ArriveAtTells(mail, u, live, hash, s.inboxes[n - 1]);
      HeardMore(mail, s, u, ArriveAt(mail, u, live, hash, s.inboxes[n - 1]), v, n - 1);
    }
  }

  /** An arrival at all inboxes, consumed against any inventory whatever and for any tables whatever, leaves the
      frontend right exactly when none of the events it causes repeats a message that is shown and unread. */
  lemma ConsumedShows(mail: Mail, s: State, v: F.View, live: set<Hash>, hash: Hash)
    requires Shows(mail, s, v)
    ensures var t := Consumed(mail, s, live, hash);
            Shows(mail, t, Told(v, s, t)) <==> Clean(v, News(s, t))
  {
    hide Arrive, Shows, Clean, Told, News, Untidy;
    if hash in live {
      ArriveHeard(mail, s, v, live, hash, |s.inboxes|);
      var t := Arrive(mail, s, live, hash, |s.inboxes|);
      if i :| 0 <= i < |s.inboxes| && Untidy(Told(v, s, t), s.inboxes[i].id) {
        UntidyIsNotShowing(mail, t, Told(v, s, t), s.inboxes[i].id);
      }
    } else {
      NothingHeard(mail, s, v);
    }
  }

  // ---------------------------------------------------------------- purges

  lemma DropRowTells(mail: Mail, s: State, row: Row)
    requires Housed(s)
    ensures var t := DropRow(s, row);
            OneMore(mail, s, t) && (t.events != s.events ==> t.events[|s.events|].MessageExpired?)
  {
    var found := MessageOf(s.messages, row.key);
    if found.Some? {
      assert HasMessage(s, row.key);
    }
    hide MessageOf, RowsFor, WithoutRow, HasInbox;
  }

  /** Whatever rows a cursor yields, in whatever order and however often, the frontend stays right. */
  lemma {:induction false} DropRowsShow(mail: Mail, s: State, v: F.View, rows: seq<Row>)
    requires Shows(mail, s, v)
    ensures var t := DropRows(s, rows);
            && s.events <= t.events && t.inboxes == s.inboxes
            && Clean(v, News(s, t)) && Shows(mail, t, Told(v, s, t))
  {
    if rows == [] {
      NothingHeard(mail, s, v);
    } else {
      var u := DropRows(s, rows[..|rows| - 1]);
      DropRowsShow(mail, s, v, rows[..|rows| - 1]);
      hide DropRow, Clean, Told, News, BoxShows;
      DroppedShows(mail, s, u, v, rows[|rows| - 1]);
    }
  }

  lemma DroppedShows(mail: Mail, s: State, u: State, v: F.View, row: Row)
    requires s.events <= u.events && Clean(v, News(s, u)) && Shows(mail, u, Told(v, s, u))
    ensures var t := DropRow(u, row); Clean(v, News(s, t)) && Shows(mail, t, Told(v, s, t))
  {
    hide DropRow, Clean, Told, News, BoxShows, Housed;
    var t := DropRow(u, row);
    DropRowTells(mail, u, row);
    ToldOneMore(v, s, u, t);
    if t.events == u.events {
      SameTablesShow(mail, u, t, Told(v, s, u));
    } else {
      hide Tells;
      EventShows(mail, u, t, Told(v, s, u), t.events[|u.events|]);
    }
  }

  lemma SameTablesShow(mail: Mail, s: State, t: State, v: F.View)
    requires Shows(mail, s, v)
    requires t.messages == s.messages && t.inboxes == s.inboxes && t.inboxExpiration == s.inboxExpiration
    ensures Shows(mail, t, v)
  {
    assert forall key :: HasMessage(t, key) <==> HasMessage(s, key);
    assert forall id :: HasInbox(t, id) <==> HasInbox(s, id);
    hide BoxShows, HasMessage, HasInbox;
    QuietShows(mail, s, t, v);
  }

  // ---------------------------------------------------------------- commands

  lemma MarkedBoxShows(mail: Mail, s: State, id: InboxId, box: F.Box, readKeys: set<Key>, m: Id, saved: bool)
    requires BoxShows(mail, s, id, box, readKeys)
    ensures BoxShows(mail, s, id, F.Marked(box, m, saved), readKeys)
  {
    if m in box.messages {
      assert EntryShows(mail, Key(m, id), box.messages[m], readKeys);
      F.TouchKeepsTidy(box, m, box.messages[m].(saved := saved));
    }
    hide F.Tidy, HasMessage;
  }

  lemma MarkedShows(mail: Mail, s: State, v: F.View, key: Key, saved: bool)
    requires Shows(mail, s, v)
    ensures Shows(mail, s, F.MarkedIn(v, key, saved))
  {
    hide Housed, BoxShows, F.Marked, HasInbox;
    if key.inbox in v.boxes {
      MarkedBoxShows(mail, s, key.inbox, v.boxes[key.inbox], v.readKeys, key.id, saved);
    }
  }

  lemma ReadMarkShows(mail: Mail, s: State, box: F.Box, readKeys: set<Key>, key: Key)
    requires BoxShows(mail, s, key.inbox, box, readKeys)
    ensures BoxShows(mail, s, key.inbox, F.MarkedRead(box, key.id), readKeys + {key})
  {
    hide F.Tidy, F.Unread, HasMessage;
    F.MarkReadKeepsTidy(box, key.id);
    var u := F.MarkedRead(box, key.id);
    forall m | m in u.messages ensures EntryShows(mail, Key(m, key.inbox), u.messages[m], readKeys + {key}) {
      assert EntryShows(mail, Key(m, key.inbox), box.messages[m], readKeys);
    }
    hide EntryShows;
  }

  lemma OtherReadMarkShows(mail: Mail, s: State, id: InboxId, box: F.Box, readKeys: set<Key>, key: Key)
    requires BoxShows(mail, s, id, box, readKeys) && id != key.inbox
    ensures BoxShows(mail, s, id, box, readKeys + {key})
  {
    hide F.Tidy, HasMessage;
  }

  lemma ReadingShows(mail: Mail, s: State, v: F.View, key: Key)
    requires Shows(mail, s, v)
    ensures Shows(mail, s, F.MarkedReadIn(v, key))
  {
    hide BoxShows, Housed, F.MarkedRead;
    var u := F.MarkedReadIn(v, key);
    if F.Has(v, key) {
      forall id | id in u.boxes ensures BoxShows(mail, s, id, u.boxes[id], u.readKeys) {
        if id == key.inbox {
          ReadMarkShows(mail, s, v.boxes[id], v.readKeys, key);
        } else {
          OtherReadMarkShows(mail, s, id, v.boxes[id], v.readKeys, key);
        }
      }
    }
  }

  lemma SameListingShows(mail: Mail, s: State, t: State, id: InboxId, box: F.Box, readKeys: set<Key>)
    requires BoxShows(mail, s, id, box, readKeys)
    requires forall key :: HasMessage(t, key) <==> HasMessage(s, key)
    requires t.inboxExpiration == s.inboxExpiration
    ensures BoxShows(mail, t, id, box, readKeys)
  {
    hide F.Tidy, HasMessage;
  }

  lemma EmptyShows(mail: Mail, s: State, inbox: InboxId, readKeys: set<Key>)
    requires inbox !in s.inboxExpiration && forall key :: HasMessage(s, key) ==> key.inbox != inbox
    ensures BoxShows(mail, s, inbox, F.EMPTY_BOX, readKeys)
  {
    assert F.Unread(map[]) == {};
    hide HasMessage;
  }

  lemma AddedShows(mail: Mail, s: State, v: F.View, inbox: InboxId)
    requires Shows(mail, s, v) && !HasInbox(s, inbox)
    ensures Shows(mail, InboxAdded(s, inbox), F.InboxAdded(v, inbox))
  {
    var t, u := InboxAdded(s, inbox), F.InboxAdded(v, inbox);
    AddedIsHoused(s, inbox);
    hide InboxAdded, HasInbox, HasMessage, BoxShows;
    EmptyShows(mail, t, inbox, u.readKeys);
    forall id | id in v.boxes ensures BoxShows(mail, t, id, v.boxes[id], v.readKeys) {
      SameListingShows(mail, s, t, id, v.boxes[id], v.readKeys);
    }
    hide Housed;
  }

  lemma AddedIsHoused(s: State, inbox: InboxId)
    requires Housed(s) && !HasInbox(s, inbox)
    ensures var t := InboxAdded(s, inbox);
            && Housed(t) && t.inboxExpiration == s.inboxExpiration
            && (forall key :: HasMessage(t, key) <==> HasMessage(s, key))
            && (forall id :: HasInbox(t, id) <==> HasInbox(s, id) || id == inbox)
  {
    var t := InboxAdded(s, inbox);
    InboxesWith(s, inbox);
    assert Distinct(t.inboxes);
    assert forall key :: HasMessage(t, key) <==> HasMessage(s, key);
    hide InboxAdded, HasInbox, HasMessage, Distinct;
  }

  lemma DeletedLists(s: State, inbox: InboxId)
    ensures var t := InboxDeleted(s, inbox);
            && (forall key :: HasMessage(t, key) <==> HasMessage(s, key) && key.inbox != inbox)
            && (forall id :: HasInbox(t, id) <==> HasInbox(s, id) && id != inbox)
            && (Distinct(s.inboxes) ==> Distinct(t.inboxes))
            && t.inboxExpiration == s.inboxExpiration - {inbox}
  {
    var t := InboxDeleted(s, inbox);
    hide Distinct, WithoutInboxMessages, WithoutInbox, WithoutInboxRows;
    forall key ensures HasMessage(t, key) <==> HasMessage(s, key) && key.inbox != inbox {
      assert forall m :: m in s.messages && m.key.inbox != inbox ==> m in t.messages;
    }
    forall id ensures HasInbox(t, id) <==> HasInbox(s, id) && id != inbox {
      assert forall i :: i in s.inboxes && i.id != inbox ==> i in t.inboxes;
    }
  }

  lemma DeletedShows(mail: Mail, s: State, v: F.View, inbox: InboxId)
    requires Shows(mail, s, v)
    ensures Shows(mail, InboxDeleted(s, inbox), F.InboxDeleted(v, inbox))
  {
    DeletedLists(s, inbox);
    hide InboxDeleted, HasInbox, HasMessage, Distinct, F.Tidy;
  }

  lemma FlaggedLists(s: State, key: Key, saved: bool)
    ensures forall k :: HasMessage(s.(messages := Flagged(s.messages, key, saved)), k) <==> HasMessage(s, k)
  {
    var t := s.(messages := Flagged(s.messages, key, saved));
    forall k ensures HasMessage(t, k) <==> HasMessage(s, k) {
      if HasMessage(s, k) {
        var i :| 0 <= i < |s.messages| && s.messages[i].key == k;
        assert t.messages[i] in t.messages;
      }
    }
  }

  lemma FlaggedShows(mail: Mail, s: State, v: F.View, key: Key, saved: bool)
    requires Shows(mail, s, v)
    ensures Shows(mail, s.(messages := Flagged(s.messages, key, saved)), F.MarkedIn(v, key, saved))
  {
    var t := s.(messages := Flagged(s.messages, key, saved));
    FlaggedLists(s, key, saved);
    assert forall id :: HasInbox(t, id) <==> HasInbox(s, id);
    MarkedShows(mail, s, v, key, saved);
    hide Flagged, BoxShows, HasInbox, HasMessage, F.MarkedIn;
    QuietShows(mail, s, t, F.MarkedIn(v, key, saved));
  }

  lemma AutosaveShows(mail: Mail, s: State, v: F.View, inbox: InboxId, autosave: bool)
    requires Shows(mail, s, v)
    ensures Shows(mail, AutosaveSet(s, inbox, autosave), v)
  {
    var t := AutosaveSet(s, inbox, autosave);
    assert Distinct(t.inboxes);
    forall id ensures HasInbox(t, id) <==> HasInbox(s, id) {
      if HasInbox(s, id) {
        var n :| 0 <= n < |s.inboxes| && s.inboxes[n].id == id;
        assert t.inboxes[n] in t.inboxes;
      }
    }
    assert forall key :: HasMessage(t, key) <==> HasMessage(s, key);
    hide AutosaveSet, BoxShows, HasInbox, HasMessage, Distinct;
    QuietShows(mail, s, t, v);
  }

  lemma UnsavedTells(mail: Mail, s: State, key: Key)
    requires HasInbox(s, key.inbox)
    ensures var t := Unsaved(s, key);
            if RowsFor(s.derivations, key) != [] then t == s.(messages := Flagged(s.messages, key, false))
            else t.events == s.events + [MessageExpired(key)] && Tells(mail, s, t, MessageExpired(key))
  {
    hide HasInbox, Flagged;
  }

  lemma UnsavedShows(mail: Mail, s: State, v: F.View, key: Key)
    requires Shows(mail, s, v) && F.Has(v, key)
    ensures var t, shown := Unsaved(s, key), F.MarkedIn(v, key, false);
            Clean(shown, News(s, t)) && Shows(mail, t, Told(shown, s, t))
  {
    var t, shown := Unsaved(s, key), F.MarkedIn(v, key, false);
    assert HasInbox(s, key.inbox);
    hide Shows, Told, News, Clean, F.MarkedIn, HasInbox, Tells, Unsaved, F.Handled;
    UnsavedTells(mail, s, key);
    MarkedShows(mail, s, v, key, false);
    FlaggedShows(mail, s, v, key, false);
    NothingHeard(mail, s, shown);
    ToldOneMore(shown, s, s, t);
    if RowsFor(s.derivations, key) == [] {
      EventShows(mail, s, t, shown, MessageExpired(key));
    }
  }

  // ---------------------------------------------------------------- whole runs

  datatype Turn =
    | Consume(live: set<Hash>, hash: Hash)
    | Release(rows: seq<Row>)
    | Obey(command: Action)
    | Read(key: Key)

  datatype Pair = Pair(state: State, view: F.View)

  /** Insertions are consumed against any inventory and purges with any cursor, so neither is among the commands;
      the table of inboxes refuses an id it has. */
  ghost predicate Possible(p: Pair, turn: Turn) {
    turn.Obey? ==> !turn.command.Arrival? && !turn.command.Departure? && Local(p.state, turn.command)
  }

  function Backend(mail: Mail, p: Pair, turn: Turn): State {
    match turn
    case Consume(live, hash) => Consumed(mail, p.state, live, hash)
    case Release(rows) => DropRows(p.state, rows)
    case Obey(command) => if Sent(p.view, command) then Act(mail, World(p.state, {}), command).state else p.state
    case Read(_) => p.state
  }

  /** What the frontend has changed by itself when the backend gets to it. */
  function Before(p: Pair, turn: Turn): F.View {
    match turn
    case Obey(command) => if Sent(p.view, command) then Issued(p.view, command) else p.view
    case Read(key) => F.MarkedReadIn(p.view, key)
    case _ => p.view
  }

  function After(mail: Mail, p: Pair, turn: Turn): Pair {
    Pair(Backend(mail, p, turn), Told(Before(p, turn), p.state, Backend(mail, p, turn)))
  }

  /** No message event of the turn repeats a message that is shown and unread. */
  ghost predicate RepeatsNoMessage(mail: Mail, p: Pair, turn: Turn) {
    Clean(Before(p, turn), News(p.state, Backend(mail, p, turn)))
  }

  lemma QuietTurn(mail: Mail, s: State, t: State, v: F.View)
    requires t.events == s.events && Shows(mail, t, v)
    ensures Clean(v, News(s, t)) && Told(v, s, t) == v
  {
    ToldOne(v, s, t);
    hide Shows, Told;
  }

  lemma CommandShows(mail: Mail, p: Pair, command: Action)
    requires Shows(mail, p.state, p.view) && Possible(p, Obey(command)) && Sent(p.view, command)
    ensures RepeatsNoMessage(mail, p, Obey(command))
    ensures Shows(mail, After(mail, p, Obey(command)).state, After(mail, p, Obey(command)).view)
  {
    hide Shows, Told, News, Clean, HasInbox;
    var s, v := p.state, p.view;
    match command {
      case NewInbox(inbox) =>
        AddedShows(mail, s, v, inbox);
        QuietTurn(mail, s, InboxAdded(s, inbox), F.InboxAdded(v, inbox));
      case SetAutosave(inbox, autosave) =>
        AutosaveShows(mail, s, v, inbox, autosave);
        QuietTurn(mail, s, AutosaveSet(s, inbox, autosave), v);
      case DeleteInbox(inbox) =>
        DeletedShows(mail, s, v, inbox);
        QuietTurn(mail, s, InboxDeleted(s, inbox), F.InboxDeleted(v, inbox));
      case SaveMessage(key) =>
        FlaggedShows(mail, s, v, key, true);
        QuietTurn(mail, s, Saved(s, key), F.MarkedIn(v, key, true));
      case UnsaveMessage(key) =>
        UnsavedShows(mail, s, v, key);
    }
  }

  /** One turn of either side, exactly. */
  lemma TurnShows(mail: Mail, p: Pair, turn: Turn)
    requires Shows(mail, p.state, p.view) && Possible(p, turn)
    ensures Shows(mail, After(mail, p, turn).state, After(mail, p, turn).view) <==> RepeatsNoMessage(mail, p, turn)
  {
    hide Shows, Told, News, Clean, Possible, Act, Issued, DropRows, Consumed;
    match turn {
      case Consume(live, hash) => ConsumedShows(mail, p.state, p.view, live, hash);
      case Release(rows) => DropRowsShow(mail, p.state, p.view, rows);
      case Obey(command) =>
        if Sent(p.view, command) {
          CommandShows(mail, p, command);
        } else {
          QuietTurn(mail, p.state, p.state, p.view);
        }
      case Read(key) =>
        ReadingShows(mail, p.state, p.view, key);
        QuietTurn(mail, p.state, p.state, F.MarkedReadIn(p.view, key));
    }
  }

  ghost predicate PossibleRun(mail: Mail, p: Pair, turns: seq<Turn>)
    decreases |turns|
  {
    turns != [] ==> Possible(p, turns[0]) && PossibleRun(mail, After(mail, p, turns[0]), turns[1..])
  }

  ghost predicate RepeatsNoMessageThroughout(mail: Mail, p: Pair, turns: seq<Turn>)
    decreases |turns|
  {
    turns != [] ==>
      RepeatsNoMessage(mail, p, turns[0]) && RepeatsNoMessageThroughout(mail, After(mail, p, turns[0]), turns[1..])
  }

  ghost predicate ShowsThroughout(mail: Mail, p: Pair, turns: seq<Turn>)
    decreases |turns|
  {
    && Shows(mail, p.state, p.view)
    && (turns != [] ==> ShowsThroughout(mail, After(mail, p, turns[0]), turns[1..]))
  }

  /** Over every run, the frontend shows the backend's inboxes and messages, right parents and read marks, the
      known expirations of the inboxes, and has a right unread count and reply index, all the way through, exactly
      when no message event repeats a message that is shown and unread. Nothing is asked of the tables, of the
      inventories that arrivals are consumed against, or of the order of purges. */
  lemma {:induction false} ShowsThroughoutRun(mail: Mail, p: Pair, turns: seq<Turn>)
    requires Shows(mail, p.state, p.view) && PossibleRun(mail, p, turns)
    ensures ShowsThroughout(mail, p, turns) <==> RepeatsNoMessageThroughout(mail, p, turns)
    decreases |turns|
  {
    hide Shows, After, RepeatsNoMessage, Possible;
    if turns != [] {
      var next := After(mail, p, turns[0]);
      TurnShows(mail, p, turns[0]);
      if RepeatsNoMessage(mail, p, turns[0]) {
        ShowsThroughoutRun(mail, next, turns[1..]);
      } else {
        assert !ShowsThroughout(mail, next, turns[1..]);
      }
    }
  }

  lemma NothingShows(mail: Mail, readKeys: set<Key>)
    ensures Shows(mail, EMPTY, F.View(map[], readKeys))
  {
  }
}
