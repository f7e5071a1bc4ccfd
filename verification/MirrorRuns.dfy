/** What the user does on the frontend, the commands it sends, and whole runs of both sides together. */
module MirrorRuns {
  import opened Wrappers
  import opened Derivation
  import opened DerivationInvariant
  import opened DerivationRuns
  import opened Mirror
  import Inventory
  import F = Frontend

  // ---------------------------------------------------------------- reading and flagging

  lemma ReadKeysElsewhere(mail: Mail, s: State, id: InboxId, box: F.Box, before: set<Key>, after: set<Key>)
    requires BoxMirrors(mail, s, id, box, before)
    requires forall m :: m in box.messages ==> (Key(m, id) in before <==> Key(m, id) in after)
    ensures BoxMirrors(mail, s, id, box, after)
  {
  }

  /** Changing one message of the box, without moving it in the reply index or the unread count. */
  lemma TouchedEntriesMirror(
    mail: Mail, s: State, t: State, key: Key, box: F.Box, u: F.Box, before: set<Key>, after: set<Key>)
    requires BoxMirrors(mail, s, key.inbox, box, before) && key.id in box.messages && F.Tidy(u)
    requires t.derivations == s.derivations && t.inboxExpiration == s.inboxExpiration
    requires key.id in u.messages && EntryMirrors(mail, t, key, u.messages[key.id], after)
    requires u.messages == box.messages[key.id := u.messages[key.id]] && u.expirationTime == box.expirationTime
    requires forall k :: k != key ==> (k in before <==> k in after)
    requires MessagesMirror(t, key.inbox, u.messages)
    ensures BoxMirrors(mail, t, key.inbox, u, after)
  {
    assert forall k :: HasRow(s, k) <==> HasRow(t, k);
    hide F.Tidy, MessagesMirror, HasRow, IsLatest;
  }

  lemma MarkReadMirrorsThere(mail: Mail, s: State, key: Key, box: F.Box, readKeys: set<Key>)
    requires BoxMirrors(mail, s, key.inbox, box, readKeys) && key.id in box.messages
    ensures BoxMirrors(mail, s, key.inbox, F.MarkedRead(box, key.id), readKeys + {key})
  {
    var u := F.MarkedRead(box, key.id);
    F.MarkReadKeepsTidy(box, key.id);
    assert EntryMirrors(mail, s, key, box.messages[key.id], readKeys);
    hide F.Tidy, HasMessage, HasRow, IsLatest;
    TouchedEntriesMirror(mail, s, s, key, box, u, readKeys, readKeys + {key});
  }

  lemma MarkReadMirrors(mail: Mail, s: State, v: F.View, key: Key)
    requires Mirrors(mail, s, v)
    ensures Mirrors(mail, s, F.MarkedReadIn(v, key))
  {
    if F.Has(v, key) {
      MarkReadMirrorsThere(mail, s, key, v.boxes[key.inbox], v.readKeys);
      MarkReadSpares(mail, s, v, key);
      hide BoxMirrors, F.MarkedRead;
    }
  }

  lemma MarkReadSpares(mail: Mail, s: State, v: F.View, key: Key)
    requires Mirrors(mail, s, v)
    ensures forall id :: id in v.boxes && id != key.inbox ==> BoxMirrors(mail, s, id, v.boxes[id], v.readKeys + {key})
  {
    forall id | id in v.boxes && id != key.inbox ensures BoxMirrors(mail, s, id, v.boxes[id], v.readKeys + {key}) {
      ReadKeysElsewhere(mail, s, id, v.boxes[id], v.readKeys, v.readKeys + {key});
    }
  }

  lemma FlaggedIsListed(s: State, t: State, key: Key, messages: map<Id, F.Message>, saved: bool)
    requires MessagesMirror(s, key.inbox, messages) && key.id in messages
    requires t.messages == Flagged(s.messages, key, saved)
    ensures MessagesMirror(t, key.inbox, messages[key.id := messages[key.id].(saved := saved)])
  {
    forall k ensures HasMessage(t, k) <==> HasMessage(s, k) {
      if HasMessage(s, k) {
        var i :| 0 <= i < |s.messages| && s.messages[i].key == k;
        assert t.messages[i] in t.messages;
      }
    }
  }

  lemma FlaggedSpares(s: State, t: State, key: Key, saved: bool, other: InboxId)
    requires t == s.(messages := Flagged(s.messages, key, saved)) && other != key.inbox
    ensures SameInbox(s, t, other)
  {
    forall m | m in s.messages && m.key.inbox == other ensures m in t.messages {
      var i :| 0 <= i < |s.messages| && s.messages[i] == m;
      assert t.messages[i] == m;
    }
  }

  lemma FlaggedMirrorsThere(mail: Mail, s: State, t: State, box: F.Box, readKeys: set<Key>, key: Key, saved: bool)
    requires BoxMirrors(mail, s, key.inbox, box, readKeys) && key.id in box.messages
    requires t == s.(messages := Flagged(s.messages, key, saved))
    ensures BoxMirrors(mail, t, key.inbox, F.Marked(box, key.id, saved), readKeys)
  {
    var u := F.Marked(box, key.id, saved);
    FlaggedIsListed(s, t, key, box.messages, saved);
    F.TouchKeepsTidy(box, key.id, u.messages[key.id]);
    assert EntryMirrors(mail, s, key, box.messages[key.id], readKeys);
    hide F.Tidy, HasMessage, IsLatest, MessagesMirror;
    TouchedEntriesMirror(mail, s, t, key, box, u, readKeys, readKeys);
  }

  /** Saving or unsaving a message that the frontend shows. */
  lemma FlaggedMirrors(mail: Mail, s: State, v: F.View, key: Key, saved: bool)
    requires Mirrors(mail, s, v) && F.Has(v, key)
    ensures Mirrors(mail, s.(messages := Flagged(s.messages, key, saved)), F.MarkedIn(v, key, saved))
  {
    hide BoxMirrors, SameInbox, Flagged, F.Marked;
    var t := s.(messages := Flagged(s.messages, key, saved));
    FlaggedMirrorsThere(mail, s, t, v.boxes[key.inbox], v.readKeys, key, saved);
    forall other | other != key.inbox ensures SameInbox(s, t, other) {
      FlaggedSpares(s, t, key, saved, other);
    }
    OneBoxChanges(mail, s, t, v, F.MarkedIn(v, key, saved), key.inbox);
  }

  /** Unsaving what nothing holds: flagged on one side, deleted on the other, and then reported expired. */
  lemma AbandonedMirrors(mail: Mail, s: State, v: F.View, key: Key)
    requires Mirrors(mail, s, v) && F.Has(v, key)
    requires RowsFor(s.derivations, key) == []
    ensures Mirrors(mail, Unsaved(s, key), Told(F.MarkedIn(v, key, false), s, Unsaved(s, key)))
  {
    hide Mirrors, Told, Flagged, WithoutMessage, F.Handled, F.Marked;
    var flagged := s.(messages := Flagged(s.messages, key, false));
    var shown := F.MarkedIn(v, key, false);
    var t := Unsaved(s, key);
    FlaggedMirrors(mail, s, v, key, false);
    AbandonedTables(s, flagged, t, key);
    ToldOne(shown, s, t);
    ExpiryMirrors(mail, flagged, t, shown, key);
  }

  lemma ExpiryMirrors(mail: Mail, s: State, t: State, v: F.View, key: Key)
    requires Mirrors(mail, s, v) && key.inbox in v.boxes
    requires forall m :: m in t.messages <==> m in s.messages && m.key != key
    requires t.derivations == s.derivations && t.inboxExpiration == s.inboxExpiration && t.inboxes == s.inboxes
    ensures Mirrors(mail, t, F.Handled(v, MessageExpired(key)))
  {
    var u := F.Handled(v, MessageExpired(key));
    AbandonedSpares(s, t, v, u, key);
    AbandonedEntries(mail, s, t, key, v.boxes[key.inbox], v.readKeys);
    ExpiredMirrors(mail, s, t, key, v.boxes[key.inbox], v.readKeys);
    hide BoxMirrors, OthersSame, EntryMirrors, F.Expired;
    OneBoxChanges(mail, s, t, v, u, key.inbox);
  }

  lemma AbandonedTables(s: State, flagged: State, t: State, key: Key)
    requires flagged == s.(messages := Flagged(s.messages, key, false))
    requires t == s.(messages := WithoutMessage(s.messages, key)).Emitting(MessageExpired(key))
    ensures forall m :: m in t.messages <==> m in flagged.messages && m.key != key
  {
    forall m | m in s.messages && m.key != key ensures m in flagged.messages {
      var i :| 0 <= i < |s.messages| && s.messages[i] == m;
      assert flagged.messages[i] == m;
    }
  }

  lemma AbandonedSpares(s: State, t: State, v: F.View, u: F.View, key: Key)
    requires u == F.Handled(v, MessageExpired(key))
    requires forall m :: m in t.messages <==> m in s.messages && m.key != key
    requires t.derivations == s.derivations && t.inboxExpiration == s.inboxExpiration
    ensures OthersSame(s, t, v, u, key.inbox)
  {
  }

  lemma AbandonedEntries(mail: Mail, s: State, t: State, key: Key, box: F.Box, readKeys: set<Key>)
    requires t.derivations == s.derivations
    ensures forall m :: m in box.messages && EntryMirrors(mail, s, Key(m, key.inbox), box.messages[m], readKeys) ==>
                          EntryMirrors(mail, t, Key(m, key.inbox), box.messages[m], readKeys)
  {
  }

  // ---------------------------------------------------------------- inboxes

  lemma InboxAddedMirrors(mail: Mail, s: State, v: F.View, live: set<Hash>, inbox: InboxId)
    requires Mirrors(mail, s, v) && Holds(s, live) && !HasInbox(s, inbox)
    ensures Mirrors(mail, InboxAdded(s, inbox), F.InboxAdded(v, inbox))
  {
    hide BoxMirrors, Holds, HasInbox;
    var t, u := InboxAdded(s, inbox), F.InboxAdded(v, inbox);
    InboxesWith(s, inbox);
    EmptyBoxMirrors(mail, s, t, live, inbox, u.readKeys);
    forall id | id in u.boxes ensures BoxMirrors(mail, t, id, u.boxes[id], u.readKeys) {
      if id != inbox {
        UntouchedBoxMirrors(mail, s, t, id, v.boxes[id], v.readKeys);
      }
    }
  }

  lemma InboxesWith(s: State, inbox: InboxId)
    ensures forall id :: HasInbox(InboxAdded(s, inbox), id) <==> HasInbox(s, id) || id == inbox
  {
    var t := InboxAdded(s, inbox);
    assert forall i :: i in t.inboxes <==> i in s.inboxes || i == Inbox(inbox, true);
    forall id ensures HasInbox(t, id) <==> HasInbox(s, id) || id == inbox {
      assert Inbox(inbox, true) in t.inboxes;
    }
  }

  lemma EmptyBoxMirrors(mail: Mail, s: State, t: State, live: set<Hash>, inbox: InboxId, readKeys: set<Key>)
    requires Holds(s, live) && !HasInbox(s, inbox) && inbox !in t.inboxExpiration
    requires t.messages == s.messages
    ensures BoxMirrors(mail, t, inbox, F.EMPTY_BOX, readKeys)
  {
  }

  lemma InboxDeletedMirrors(mail: Mail, s: State, v: F.View, live: set<Hash>, inbox: InboxId)
    requires Mirrors(mail, s, v) && Holds(s, live)
    ensures Mirrors(mail, InboxDeleted(s, inbox), F.InboxDeleted(v, inbox))
  {
    hide BoxMirrors, Holds, HasInbox, InboxDeleted;
    InboxesLeft(s, live, inbox);
    OtherBoxesMirror(mail, s, v, inbox);
  }

  lemma InboxesLeft(s: State, live: set<Hash>, inbox: InboxId)
    requires Holds(s, live)
    ensures forall id :: HasInbox(InboxDeleted(s, inbox), id) <==> HasInbox(s, id) && id != inbox
    ensures InboxDeleted(s, inbox).inboxExpiration == s.inboxExpiration - {inbox}
  {
  }

  lemma OtherBoxesMirror(mail: Mail, s: State, v: F.View, inbox: InboxId)
    requires Mirrors(mail, s, v)
    ensures var t, u := InboxDeleted(s, inbox), F.InboxDeleted(v, inbox);
            forall id :: id in u.boxes ==> BoxMirrors(mail, t, id, u.boxes[id], u.readKeys)
  {
    hide BoxMirrors, InboxDeleted, HasInbox;
    var t, u := InboxDeleted(s, inbox), F.InboxDeleted(v, inbox);
    forall id | id in u.boxes ensures BoxMirrors(mail, t, id, u.boxes[id], u.readKeys) {
      OtherBoxMirrors(mail, s, inbox, id, v.boxes[id], v.readKeys, u.readKeys);
    }
  }

  lemma OtherBoxMirrors(
    mail: Mail, s: State, inbox: InboxId, id: InboxId, box: F.Box, before: set<Key>, after: set<Key>)
    requires id != inbox && BoxMirrors(mail, s, id, box, before)
    requires after == set key | key in before && key.inbox != inbox
    ensures BoxMirrors(mail, InboxDeleted(s, inbox), id, box, after)
  {
    InboxDeletedSpares(s, inbox, id);
    UntouchedBoxMirrors(mail, s, InboxDeleted(s, inbox), id, box, before);
    hide BoxMirrors, InboxDeleted;
    ReadKeysElsewhere(mail, InboxDeleted(s, inbox), id, box, before, after);
  }

  lemma InboxDeletedSpares(s: State, inbox: InboxId, other: InboxId)
    requires other != inbox
    ensures SameInbox(s, InboxDeleted(s, inbox), other)
  {
  }

  lemma AutosaveSetMirrors(mail: Mail, s: State, v: F.View, live: set<Hash>, inbox: InboxId, autosave: bool)
    requires Mirrors(mail, s, v) && Holds(s, live)
    ensures Mirrors(mail, AutosaveSet(s, inbox, autosave), v)
  {
    hide BoxMirrors, Holds, HasInbox;
    var t := AutosaveSet(s, inbox, autosave);
    AutosaveSetKeeps(s, live, inbox, autosave);
    hide AutosaveSet;
    SameRowsMirror(mail, s, t, v);
  }

  lemma SameRowsMirror(mail: Mail, s: State, t: State, v: F.View)
    requires Mirrors(mail, s, v)
    requires forall id :: HasInbox(t, id) <==> HasInbox(s, id)
    requires t.messages == s.messages && t.derivations == s.derivations && t.inboxExpiration == s.inboxExpiration
    ensures Mirrors(mail, t, v)
  {
    hide BoxMirrors, HasInbox;
    forall id | id in v.boxes ensures BoxMirrors(mail, t, id, v.boxes[id], v.readKeys) {
      UntouchedBoxMirrors(mail, s, t, id, v.boxes[id], v.readKeys);
    }
  }

  // ---------------------------------------------------------------- both sides together

  datatype Move =
    | Do(action: Action)
    | MarkRead(key: Key)

  datatype Joint = Joint(world: World, view: F.View)

  /** What the frontend changes by itself when it issues a command. */
  function Issued(v: F.View, action: Action): F.View {
    match action
    case Arrival(_) => v
    case Departure(_, _) => v
    case NewInbox(inbox) => F.InboxAdded(v, inbox)
    case SetAutosave(_, _) => v
    case DeleteInbox(inbox) => F.InboxDeleted(v, inbox)
    case SaveMessage(key) => F.MarkedIn(v, key, true)
    case UnsaveMessage(key) => F.MarkedIn(v, key, false)
  }

  /** Commands about a message are not sent unless the frontend has it. */
  predicate Sent(v: F.View, action: Action) {
    action.SaveMessage? || action.UnsaveMessage? ==> F.Has(v, action.key)
  }

  /** The backend handles the action, and the frontend everything the backend says about it. */
  function Step(mail: Mail, j: Joint, move: Move): Joint {
    match move
    case MarkRead(key) => j.(view := F.MarkedReadIn(j.view, key))
    case Do(action) =>
      if !Sent(j.view, action) then
        j
      else
        var next := Act(mail, j.world, action);
        Joint(next, Told(Issued(j.view, action), j.world.state, next.state))
  }

  ghost predicate InStep(mail: Mail, j: Joint) {
    Invariant(mail, j.world) && Mirrors(mail, j.world.state, j.view)
  }

  lemma QuietActions(v: F.View, s: State, t: State)
    requires t.events == s.events
    ensures Told(v, s, t) == v
  {
  }

  lemma ArrivalMirrors(mail: Mail, w: World, v: F.View, hash: Hash)
    requires Holds(w.state, w.live) && Mirrors(mail, w.state, v) && !ActionRedelivers(mail, w, Arrival(hash))
    ensures var t := Act(mail, w, Arrival(hash)).state; Mirrors(mail, t, Told(v, w.state, t))
  {
    SoundIsRooted(w.state, w.live, hash);
    hide Mirrors, Sound, Truthful, Arrive, Rooted;
    ArriveMirrors(mail, w.state, v, w.live + {hash}, hash, |w.state.inboxes|);
  }

  lemma SoundIsRooted(s: State, live: set<Hash>, hash: Hash)
    requires Sound(s, live)
    ensures Rooted(s, live + {hash}) && Distinct(s.inboxes)
  {
  }

  lemma DepartureMirrors(mail: Mail, w: World, v: F.View, hash: Hash, cursor: seq<Row>)
    requires Holds(w.state, w.live) && Mirrors(mail, w.state, v) && Expected(w, Departure(hash, cursor))
    ensures var t := Act(mail, w, Departure(hash, cursor)).state; Mirrors(mail, t, Told(v, w.state, t))
  {
    DepartingExpireFirst(w.state, w.live, hash, cursor);
    hide Mirrors, Holds, DropRows, ExpiresFirst, Yields;
    DropRowsMirrors(mail, w.state, v, w.live, cursor);
  }

  lemma UnsaveMirrors(mail: Mail, s: State, v: F.View, key: Key)
    requires Mirrors(mail, s, v) && F.Has(v, key)
    ensures Mirrors(mail, Unsaved(s, key), Told(F.MarkedIn(v, key, false), s, Unsaved(s, key)))
  {
    if RowsFor(s.derivations, key) == [] {
      AbandonedMirrors(mail, s, v, key);
    } else {
      FlaggedMirrors(mail, s, v, key, false);
      QuietActions(F.MarkedIn(v, key, false), s, Unsaved(s, key));
    }
  }

  lemma ActMirrors(mail: Mail, w: World, v: F.View, action: Action)
    requires Holds(w.state, w.live) && Mirrors(mail, w.state, v)
    requires Expected(w, action) && !ActionRedelivers(mail, w, action) && Sent(v, action)
    ensures var t := Act(mail, w, action).state; Mirrors(mail, t, Told(Issued(v, action), w.state, t))
  {
    hide Mirrors, Holds, Told, Inventory.InOrder, Yields, ActionRedelivers, Sound, Truthful, Unique;
    var s := w.state;
    var t := Act(mail, w, action).state;
    if !action.Arrival? && !action.Departure? && !action.UnsaveMessage? {
      QuietActions(Issued(v, action), s, t);
    }
    match action {
      case Arrival(hash) => ArrivalMirrors(mail, w, v, hash);
      case Departure(hash, cursor) => DepartureMirrors(mail, w, v, hash, cursor);
      case NewInbox(inbox) => InboxAddedMirrors(mail, s, v, w.live, inbox);
      case SetAutosave(inbox, autosave) => AutosaveSetMirrors(mail, s, v, w.live, inbox, autosave);
      case DeleteInbox(inbox) => InboxDeletedMirrors(mail, s, v, w.live, inbox);
      case SaveMessage(key) => FlaggedMirrors(mail, s, v, key, true);
      case UnsaveMessage(key) => UnsaveMirrors(mail, s, v, key);
    }
  }

  ghost predicate MoveExpected(j: Joint, move: Move) {
    move.Do? ==> Expected(j.world, move.action)
  }

  ghost predicate MoveRedelivers(mail: Mail, j: Joint, move: Move) {
    move.Do? && ActionRedelivers(mail, j.world, move.action)
  }

  ghost predicate MoveSpoils(mail: Mail, j: Joint, move: Move) {
    move.Do? && Spoils(mail, j.world, move.action)
  }

  /** One move of either side, from sound tables: the frontend mirrors them afterwards, flags and latest
      expirations included, if the move brings no abandoned message back, also if it repeats a row. */
  lemma StepKeepsMirror(mail: Mail, j: Joint, move: Move)
    requires InStep(mail, j) && MoveExpected(j, move) && !MoveRedelivers(mail, j, move)
    ensures Mirrors(mail, Step(mail, j, move).world.state, Step(mail, j, move).view)
  {
    hide Holds, Derived, Mirrors, Act, Told, ActionRedelivers;
    match move {
      case MarkRead(key) => MarkReadMirrors(mail, j.world.state, j.view, key);
      case Do(action) =>
        if Sent(j.view, action) {
          ActMirrors(mail, j.world, j.view, action);
        }
    }
  }

  /** ... and the tables stay sound as well if it repeats no row. */
  lemma StepKeepsInStep(mail: Mail, j: Joint, move: Move)
    requires InStep(mail, j) && MoveExpected(j, move) && !MoveSpoils(mail, j, move)
    ensures InStep(mail, Step(mail, j, move))
  {
    hide Invariant, Mirrors, Act, Told, ActionRedelivers, ActionRepeats;
    StepKeepsMirror(mail, j, move);
    if move.Do? && Sent(j.view, move.action) {
      ActKeepsInvariant(mail, j.world, move.action);
    }
  }

  ghost predicate MovesExpected(mail: Mail, j: Joint, moves: seq<Move>)
    decreases |moves|
  {
    moves != [] ==> MoveExpected(j, moves[0]) && MovesExpected(mail, Step(mail, j, moves[0]), moves[1..])
  }

  ghost predicate NoMoveSpoils(mail: Mail, j: Joint, moves: seq<Move>)
    decreases |moves|
  {
    moves != [] ==> !MoveSpoils(mail, j, moves[0]) && NoMoveSpoils(mail, Step(mail, j, moves[0]), moves[1..])
  }

  ghost predicate InStepThroughout(mail: Mail, j: Joint, moves: seq<Move>)
    decreases |moves|
  {
    && InStep(mail, j)
    && (moves != [] ==> InStepThroughout(mail, Step(mail, j, moves[0]), moves[1..]))
  }

  /** Over every run of mutations, commands and readings that brings no abandoned message back and repeats no row,
      the tables stay sound and the frontend mirrors them all the way through: messages, flags, latest expirations,
      unread count and reply index. What the frontend shows without any of these conditions is told in
      `Showing`. */
  lemma {:induction false} InStepThroughoutRun(mail: Mail, j: Joint, moves: seq<Move>)
    requires InStep(mail, j) && MovesExpected(mail, j, moves) && NoMoveSpoils(mail, j, moves)
    ensures InStepThroughout(mail, j, moves)
    decreases |moves|
  {
    hide InStep, Step, MoveExpected, MoveSpoils;
    if moves != [] {
      StepKeepsInStep(mail, j, moves[0]);
      InStepThroughoutRun(mail, Step(mail, j, moves[0]), moves[1..]);
    }
  }

  lemma StartsInStep(mail: Mail, readKeys: set<Key>)
    ensures InStep(mail, Joint(World(EMPTY, {}), F.View(map[], readKeys)))
  {
  }

  /** In step, a command about a message reaches the backend if and only if the backend has the message; every other
      one does, and so does every mutation. */
  lemma ReachesExactly(mail: Mail, j: Joint, action: Action)
    requires InStep(mail, j)
    ensures Step(mail, j, Do(action)).world ==
            if (action.SaveMessage? || action.UnsaveMessage?) && !HasMessage(j.world.state, action.key)
            then j.world
            else Act(mail, j.world, action)
    ensures forall key :: Step(mail, j, MarkRead(key)).world == j.world
  {
    if action.SaveMessage? || action.UnsaveMessage? {
      var key := action.key;
      if HasMessage(j.world.state, key) {
        assert HasInbox(j.world.state, key.inbox);
      }
      if HasInbox(j.world.state, key.inbox) {
        ShownExactly(mail, j.world.state, j.view, key);
      }
    }
    hide Invariant, Act, Told, Issued;
  }
}
