/** Whole runs of mutations and commands: exactly when the derivation tables stay sound all the way. */
module DerivationRuns {
  import opened Wrappers
  import opened Derivation
  import opened DerivationInvariant
  import Inventory

  /** `cursor` is what the database yields while the rows of the purged item are deleted. */
  datatype Action =
    | Arrival(hash: Hash)
    | Departure(hash: Hash, cursor: seq<Row>)
    | NewInbox(inbox: InboxId)
    | SetAutosave(inbox: InboxId, autosave: bool)
    | DeleteInbox(inbox: InboxId)
    | SaveMessage(key: Key)
    | UnsaveMessage(key: Key)

  /** The derivation state together with the inventory it is consumed against. */
  datatype World = World(state: State, live: set<Hash>)

  const NOTHING := World(EMPTY, {})

  function Act(mail: Mail, w: World, action: Action): World {
    match action
    case Arrival(hash) => World(Arrive(mail, w.state, w.live + {hash}, hash, |w.state.inboxes|), w.live + {hash})
    case Departure(hash, cursor) => World(DropRows(w.state, cursor), w.live - {hash})
    case NewInbox(inbox) => w.(state := InboxAdded(w.state, inbox))
    case SetAutosave(inbox, autosave) => w.(state := AutosaveSet(w.state, inbox, autosave))
    case DeleteInbox(inbox) => w.(state := InboxDeleted(w.state, inbox))
    case SaveMessage(key) => w.(state := Saved(w.state, key))
    case UnsaveMessage(key) => w.(state := Unsaved(w.state, key))
  }

  /** The table of inboxes refuses an id it has, and a cursor yields the rows it was opened for. */
  ghost predicate Local(s: State, action: Action) {
    match action
    case Departure(hash, cursor) => Yields(s.derivations, hash, cursor)
    case NewInbox(inbox) => !HasInbox(s, inbox)
    case _ => true
  }

  /** Purges come in order of expiry, as the inventory emits them. Insertions may be of anything. */
  ghost predicate Expected(w: World, action: Action) {
    Local(w.state, action) && (action.Departure? ==> Inventory.InOrder(w.live, Inventory.Purge(action.hash)))
  }

  ghost predicate Invariant(mail: Mail, w: World) {
    Holds(w.state, w.live) && Derived(mail, w.state) && Parsable(mail, w.state) && Dated(w.state)
  }

  lemma NothingHolds(mail: Mail)
    ensures Invariant(mail, NOTHING)
  {
  }

  ghost predicate ActionRedelivers(mail: Mail, w: World, action: Action) {
    action.Arrival? && !RedeliversNothing(mail, w.state, action.hash)
  }

  ghost predicate ActionRepeats(w: World, action: Action) {
    action.Arrival? && Repeats(w.state, action.hash)
  }

  /** The item brings back a message that was saved and outlived everything it was derived from, or some row
      was derived from it before. */
  ghost predicate Spoils(mail: Mail, w: World, action: Action) {
    ActionRedelivers(mail, w, action) || ActionRepeats(w, action)
  }

  // ---------------------------------------------------------------- one action

  lemma ArrivalKeepsExactly(mail: Mail, w: World, hash: Hash)
    requires Invariant(mail, w)
    ensures Invariant(mail, Act(mail, w, Arrival(hash))) <==> !Spoils(mail, w, Arrival(hash))
    ensures ActionRepeats(w, Arrival(hash)) ==>
              !NoDuplicates(Act(mail, w, Arrival(hash)).state.derivations)
    ensures ActionRedelivers(mail, w, Arrival(hash)) && !ActionRepeats(w, Arrival(hash)) ==>
              !Unique(Act(mail, w, Arrival(hash)).state.messages)
  {
    if Repeats(w.state, hash) {
      RepeatedArrivalRepeatsRow(mail, w.state, w.live, hash);
    } else {
      ArrivalKeepsInvariant(mail, w.state, w.live, hash);
      ArrivalKeepsDerived(mail, w.state, w.live + {hash}, hash, |w.state.inboxes|);
      ArrivalKeepsLegible(mail, w.state, w.live + {hash}, hash, |w.state.inboxes|);
    }
    hide Arrive, Derived, Parsable, Dated, NoDuplicates, Unique, Truthful, RedeliversNothing, Repeats;
  }

  lemma OtherActionsKeep(mail: Mail, w: World, action: Action)
    requires Holds(w.state, w.live) && Expected(w, action) && !action.Arrival?
    ensures Holds(Act(mail, w, action).state, Act(mail, w, action).live)
  {
    hide Holds, DropRows, Yields, HasInbox;
    match action {
      case Departure(hash, cursor) => DepartureKeepsInvariant(w.state, w.live, hash, cursor);
      case NewInbox(inbox) => InboxAddedKeeps(w.state, w.live, inbox);
      case SetAutosave(inbox, autosave) => AutosaveSetKeeps(w.state, w.live, inbox, autosave);
      case DeleteInbox(inbox) => InboxDeletedKeeps(w.state, w.live, inbox);
      case SaveMessage(key) => SavedKeeps(w.state, w.live, key);
      case UnsaveMessage(key) => UnsavedKeeps(w.state, w.live, key);
    }
  }

  lemma {:induction false} DropRowsOnlyRemoves(s: State, rows: seq<Row>)
    ensures forall r :: r in DropRows(s, rows).derivations ==> r in s.derivations
  {
    if rows != [] {
      DropRowsOnlyRemoves(s, rows[..|rows| - 1]);
      DropRowChanges(DropRows(s, rows[..|rows| - 1]), rows[|rows| - 1]);
      hide DropRow;
    }
  }

  lemma OtherActionsKeepDerived(mail: Mail, w: World, action: Action)
    requires Derived(mail, w.state) && !action.Arrival?
    ensures Derived(mail, Act(mail, w, action).state)
  {
    if action.Departure? {
      DropRowsOnlyRemoves(w.state, action.cursor);
    }
    hide DropRows;
  }

  /** What is stored can be read again, and expirations are of inboxes that are there, after every action
      whatever. */
  lemma ActKeepsLegible(mail: Mail, w: World, action: Action)
    requires Parsable(mail, w.state) && Dated(w.state)
    ensures Parsable(mail, Act(mail, w, action).state) && Dated(Act(mail, w, action).state)
  {
    match action {
      case Arrival(hash) =>
        ArrivalKeepsLegible(mail, w.state, w.live + {hash}, hash, |w.state.inboxes|);
        hide Arrive, Parsable, Dated;
      case Departure(_, cursor) =>
        DropRowsKeepsLegible(mail, w.state, cursor);
        hide DropRows, Parsable, Dated;
      case NewInbox(inbox) =>
        assert forall i :: i in w.state.inboxes ==> i in InboxAdded(w.state, inbox).inboxes;
      case SetAutosave(inbox, autosave) =>
        SettingKeepsInboxes(w.state, inbox, autosave);
        hide HasInbox, AutosaveSet;
      case DeleteInbox(inbox) =>
        assert forall i :: i in w.state.inboxes && i.id != inbox ==> i in InboxDeleted(w.state, inbox).inboxes;
      case SaveMessage(key) => FlaggingKeepsLegible(mail, w.state, key, true);
      case UnsaveMessage(key) => FlaggingKeepsLegible(mail, w.state, key, false);
    }
  }

  lemma SettingKeepsInboxes(s: State, inbox: InboxId, autosave: bool)
    ensures AutosaveSet(s, inbox, autosave).messages == s.messages
    ensures AutosaveSet(s, inbox, autosave).inboxExpiration == s.inboxExpiration
    ensures forall id :: HasInbox(s, id) ==> HasInbox(AutosaveSet(s, inbox, autosave), id)
  {
    var t := AutosaveSet(s, inbox, autosave);
    forall id | HasInbox(s, id) ensures HasInbox(t, id) {
      var n :| 0 <= n < |s.inboxes| && s.inboxes[n].id == id;
      assert t.inboxes[n] in t.inboxes;
    }
  }

  lemma FlaggingKeepsLegible(mail: Mail, s: State, key: Key, saved: bool)
    requires Parsable(mail, s) && Dated(s)
    ensures forall m :: m in Flagged(s.messages, key, saved) ==> mail.parse(m.key.id.plaintext).Some?
    ensures forall t: State :: t.inboxes == s.inboxes && t.inboxExpiration == s.inboxExpiration ==> Dated(t)
  {
    forall m | m in Flagged(s.messages, key, saved) ensures mail.parse(m.key.id.plaintext).Some? {
      var i :| 0 <= i < |s.messages| && Flagged(s.messages, key, saved)[i] == m;
      assert s.messages[i] in s.messages;
    }
    forall t: State | t.inboxes == s.inboxes && t.inboxExpiration == s.inboxExpiration ensures Dated(t) {
      assert forall id :: HasInbox(t, id) <==> HasInbox(s, id);
    }
  }

  /** Any one action keeps the invariant exactly when it is not the arrival of an item that brings an abandoned
      message back or repeats a row. */
  lemma ActKeepsInvariant(mail: Mail, w: World, action: Action)
    requires Invariant(mail, w) && Expected(w, action)
    ensures Invariant(mail, Act(mail, w, action)) <==> !Spoils(mail, w, action)
  {
    if action.Arrival? {
      ArrivalKeepsExactly(mail, w, action.hash);
    } else {
      OtherActionsKeep(mail, w, action);
      OtherActionsKeepDerived(mail, w, action);
      ActKeepsLegible(mail, w, action);
    }
    hide Act, Holds, Derived, Parsable, Dated, Expected;
  }

  // ---------------------------------------------------------------- whole runs

  function Run(mail: Mail, w: World, actions: seq<Action>): World
    decreases |actions|
  {
    if actions == [] then w else Run(mail, Act(mail, w, actions[0]), actions[1..])
  }

  ghost predicate ExpectedRun(mail: Mail, w: World, actions: seq<Action>)
    decreases |actions|
  {
    actions != [] ==> Expected(w, actions[0]) && ExpectedRun(mail, Act(mail, w, actions[0]), actions[1..])
  }

  ghost predicate NeverSpoils(mail: Mail, w: World, actions: seq<Action>)
    decreases |actions|
  {
    actions != [] ==> !Spoils(mail, w, actions[0]) && NeverSpoils(mail, Act(mail, w, actions[0]), actions[1..])
  }

  ghost predicate HoldsThroughout(mail: Mail, w: World, actions: seq<Action>)
    decreases |actions|
  {
    && Invariant(mail, w)
    && (actions != [] ==> HoldsThroughout(mail, Act(mail, w, actions[0]), actions[1..]))
  }

  /** Over every run of mutations and commands, hashes inserted again while they live included: messages stay
      unique, rows distinct and leading to messages, unsaved messages held and every announced expiration the
      latest one, all the way through, exactly when the run brings no abandoned message back and repeats no
      row. */
  lemma {:induction false} InvariantThroughoutRun(mail: Mail, w: World, actions: seq<Action>)
    requires Invariant(mail, w) && ExpectedRun(mail, w, actions)
    ensures HoldsThroughout(mail, w, actions) <==> NeverSpoils(mail, w, actions)
    decreases |actions|
  {
    hide Invariant, Act, Spoils, Expected;
    if actions != [] {
      var next := Act(mail, w, actions[0]);
      ActKeepsInvariant(mail, w, actions[0]);
      if !Spoils(mail, w, actions[0]) {
        InvariantThroughoutRun(mail, next, actions[1..]);
      } else {
        assert !HoldsThroughout(mail, next, actions[1..]);
      }
    }
  }

  // ---------------------------------------------------------------- consuming the inventory's log

  function MutationsOf(action: Action): seq<Inventory.Mutation> {
    match action
    case Arrival(hash) => [Inventory.Insert(hash)]
    case Departure(hash, _) => [Inventory.Purge(hash)]
    case _ => []
  }

  function Mutations(actions: seq<Action>): seq<Inventory.Mutation> {
    if actions == [] then [] else MutationsOf(actions[0]) + Mutations(actions[1..])
  }

  ghost predicate LocalRun(mail: Mail, w: World, actions: seq<Action>)
    decreases |actions|
  {
    actions != [] ==> Local(w.state, actions[0]) && LocalRun(mail, Act(mail, w, actions[0]), actions[1..])
  }

  /** One action consumes the next mutation of the log, or none. */
  lemma ActReplays(mail: Mail, w: World, action: Action, log: seq<Inventory.Mutation>, rest: seq<Inventory.Mutation>)
    requires w.live == Inventory.Replay(log) && Inventory.Orderly(log + MutationsOf(action) + rest)
    requires Local(w.state, action)
    ensures Expected(w, action) && Act(mail, w, action).live == Inventory.Replay(log + MutationsOf(action))
  {
    hide Inventory.Orderly, Inventory.Replay, Inventory.InOrder, Arrive, DropRows, Local;
    match action {
      case Arrival(hash) =>
        Inventory.ReplaySnoc(log, Inventory.Insert(hash));
      case Departure(hash, _) =>
        Inventory.ReplaySnoc(log, Inventory.Purge(hash));
        NextIsInOrder(log, Inventory.Purge(hash), rest);
      case _ =>
        assert log + MutationsOf(action) == log;
        hide InboxAdded, AutosaveSet, InboxDeleted, Saved, Unsaved;
    }
  }

  lemma NextIsInOrder(log: seq<Inventory.Mutation>, mutation: Inventory.Mutation, rest: seq<Inventory.Mutation>)
    requires Inventory.Orderly(log + [mutation] + rest)
    ensures Inventory.InOrder(Inventory.Replay(log), mutation)
  {
    var all := log + [mutation] + rest;
    hide Inventory.InOrder, Inventory.Replay;
    assert all[..|log|] == log && all[|log|] == mutation;
  }

  /** Whoever consumes an orderly log, with any commands in between, sees an expected run. */
  lemma {:induction false} OrderlyLogIsExpected(
    mail: Mail, w: World, actions: seq<Action>, log: seq<Inventory.Mutation>)
    requires w.live == Inventory.Replay(log) && Inventory.Orderly(log + Mutations(actions))
    requires LocalRun(mail, w, actions)
    ensures ExpectedRun(mail, w, actions)
    ensures Run(mail, w, actions).live == Inventory.Replay(log + Mutations(actions))
    decreases |actions|
  {
    hide Act, Local, Expected, Inventory.Orderly, Inventory.Replay, MutationsOf;
    if actions == [] {
      assert log + [] == log;
    } else {
      var next := log + MutationsOf(actions[0]);
      assert log + Mutations(actions) == next + Mutations(actions[1..]);
      ActReplays(mail, w, actions[0], log, Mutations(actions[1..]));
      OrderlyLogIsExpected(mail, Act(mail, w, actions[0]), actions[1..], next);
    }
  }

  ghost predicate NeverRedelivers(mail: Mail, w: World, actions: seq<Action>)
    decreases |actions|
  {
    actions != [] ==>
      !ActionRedelivers(mail, w, actions[0]) && NeverRedelivers(mail, Act(mail, w, actions[0]), actions[1..])
  }

  /** What is not live has no row. */
  lemma FreshActionRepeatsNothing(
    mail: Mail, w: World, action: Action, log: seq<Inventory.Mutation>, rest: seq<Inventory.Mutation>)
    requires Invariant(mail, w) && w.live == Inventory.Replay(log)
    requires Inventory.FreshLog(log + MutationsOf(action) + rest)
    ensures !ActionRepeats(w, action)
  {
    if action.Arrival? {
      var longer := log + MutationsOf(action) + rest;
      assert longer[..|log|] == log && longer[|log|] == Inventory.Insert(action.hash);
    }
    hide Inventory.Replay;
  }

  /** Consuming an orderly log that inserts nothing twice, the tables stay sound all the way exactly when no
      abandoned message is brought back. */
  lemma {:induction false} FreshLogHoldsThroughout(
    mail: Mail, w: World, actions: seq<Action>, log: seq<Inventory.Mutation>)
    requires Invariant(mail, w) && w.live == Inventory.Replay(log)
    requires Inventory.Orderly(log + Mutations(actions)) && Inventory.FreshLog(log + Mutations(actions))
    requires LocalRun(mail, w, actions)
    ensures HoldsThroughout(mail, w, actions) <==> NeverRedelivers(mail, w, actions)
    decreases |actions|
  {
    hide Invariant, Act, Local, Expected, ActionRedelivers, ActionRepeats;
    hide Inventory.Orderly, Inventory.Replay, Inventory.FreshLog, MutationsOf;
    if actions != [] {
      var rest := Mutations(actions[1..]);
      assert log + Mutations(actions) == log + MutationsOf(actions[0]) + rest;
      ActReplays(mail, w, actions[0], log, rest);
      FreshActionRepeatsNothing(mail, w, actions[0], log, rest);
      ActKeepsInvariant(mail, w, actions[0]);
      var next := Act(mail, w, actions[0]);
      if !ActionRedelivers(mail, w, actions[0]) {
        FreshLogHoldsThroughout(mail, next, actions[1..], log + MutationsOf(actions[0]));
      } else {
        assert !HoldsThroughout(mail, next, actions[1..]);
      }
    }
  }

  /** Both halves of the backend. Whatever commands the inventory runs and in whatever order its sweeps purge,
      consuming what it logs, with any commands of the frontend in between, is an expected run that ends with the
      inventory's live set; and when every insertion was fresh, the tables stay sound all the way exactly when no
      abandoned message is brought back. */
  lemma InventoryFeedsDerivation(
    mail: Mail, w: World, actions: seq<Action>,
    s: Inventory.State, commands: seq<Inventory.Command>, log: seq<Inventory.Mutation>)
    requires Inventory.Consistent(s) && Inventory.Orderly(log) && Inventory.FreshLog(log)
    requires w.live == Inventory.Replay(log) == s.Live()
    requires Inventory.Logs(s, commands, log, log + Mutations(actions)) && LocalRun(mail, w, actions)
    ensures ExpectedRun(mail, w, actions)
    ensures Run(mail, w, actions).live == Inventory.Run(s, commands).Live()
    ensures Invariant(mail, w) && Inventory.FreshRun(s.Live(), commands) ==>
              (HoldsThroughout(mail, w, actions) <==> NeverRedelivers(mail, w, actions))
  {
    hide Inventory.Consistent, Inventory.Orderly, Inventory.FreshLog, Inventory.Replay, Invariant;
    Inventory.RunLogs(s, commands, log, log + Mutations(actions));
    OrderlyLogIsExpected(mail, w, actions, log);
    if Invariant(mail, w) && Inventory.FreshRun(s.Live(), commands) {
      FreshLogHoldsThroughout(mail, w, actions, log);
    }
  }
}
