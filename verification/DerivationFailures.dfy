/** Where the derivation tables lose their soundness: an item consumed twice, a consumer that lags behind the
    inventory, a message that comes back after everything that held it expired. */
module DerivationFailures {
  import opened Wrappers
  import opened Derivation
  import opened DerivationInvariant
  import opened DerivationRuns
  import Inventory

  // ---------------------------------------------------------------- repeated rows at the count

  lemma {:induction false} RowsForSkips(rows: seq<Row>, row: Row, key: Key)
    requires row.key != key
    ensures RowsFor(WithoutRow(rows, row), key) == RowsFor(rows, key)
  {
    if rows != [] {
      RowsForSkips(rows[1..], row, key);
    }
  }

  lemma {:induction false} RowsForDrops(rows: seq<Row>, row: Row)
    ensures RowsFor(WithoutRow(rows, row), row.key) == WithoutRow(RowsFor(rows, row.key), row)
  {
    if rows != [] {
      RowsForDrops(rows[1..], row);
    }
  }

  lemma {:induction false} NothingToDrop(rows: seq<Row>, row: Row)
    requires row !in rows
    ensures WithoutRow(rows, row) == rows
  {
    if rows != [] {
      NothingToDrop(rows[1..], row);
    }
  }

  /** The rows of `row`'s message that are not copies of it. */
  function OtherRows(s: State, row: Row): seq<Row> {
    RowsFor(WithoutRow(s.derivations, row), row.key)
  }

  /** The message's fate after the cursor yielded the row `times` times, of `all` rows that held the message
      and `others` that are not copies. */
  predicate Deleted(all: nat, others: nat, times: nat) {
    (times >= 1 && all <= 1) || (times >= 2 && others <= 1)
  }

  ghost predicate Fate(s: State, t: State, m: MessageRow, row: Row, times: nat) {
    && Unique(t.messages)
    && RowsFor(t.derivations, row.key) == (if times == 0 then RowsFor(s.derivations, row.key) else OtherRows(s, row))
    && (if Deleted(|RowsFor(s.derivations, row.key)|, |OtherRows(s, row)|, times) then !HasMessage(t, row.key)
        else m in t.messages)
  }

  /** The next row is of another message. */
  lemma FateOfBystander(s: State, u: State, m: MessageRow, row: Row, times: nat, next: Row)
    requires Fate(s, u, m, row, times) && next.key != row.key && m.key == row.key
    ensures Fate(s, DropRow(u, next), m, row, times)
  {
    RowsForSkips(u.derivations, next, row.key);
    var t := DropRow(u, next);
    assert forall n :: n in t.messages && n.key == row.key <==> n in u.messages && n.key == row.key;
    assert HasMessage(t, row.key) <==> HasMessage(u, row.key);
    hide RowsFor, MessageOf, OtherRows, WithoutRow;
  }

  /** The next row is a copy of the row. */
  lemma FateOfNextCopy(s: State, u: State, m: MessageRow, row: Row, times: nat)
    requires Fate(s, u, m, row, times) && m.key == row.key && !m.saved
    ensures Fate(s, DropRow(u, row), m, row, times + 1)
  {
    RowsForDrops(u.derivations, row);
    RowsForDrops(s.derivations, row);
    if times > 0 {
      NothingToDrop(OtherRows(s, row), row);
    }
    if m in u.messages {
      MessageOfIsTheMessage(u.messages, m);
    }
    hide RowsFor, MessageOf, WithoutRow;
  }

  lemma FateBefore(s: State, m: MessageRow, row: Row)
    requires Unique(s.messages) && m in s.messages
    ensures Fate(s, s, m, row, 0)
  {
  }

  lemma {:induction false} FateAfter(s: State, m: MessageRow, row: Row, rows: seq<Row>)
    requires Unique(s.messages) && m in s.messages && !m.saved && m.key == row.key
    requires forall r :: r in rows ==> r.from == row.from
    ensures Fate(s, DropRows(s, rows), m, row, multiset(rows)[row])
  {
    hide Fate, DropRow, Unique;
    if rows == [] {
      FateBefore(s, m, row);
    } else {
      var before, last := rows[..|rows| - 1], rows[|rows| - 1];
      FateAfter(s, m, row, before);
      assert rows == before + [last];
      if last == row {
        FateOfNextCopy(s, DropRows(s, before), m, row, multiset(before)[row]);
      } else {
        FateOfBystander(s, DropRows(s, before), m, row, multiset(before)[row], last);
      }
    }
  }

  /** What repeated rows cost. A purge should delete an unsaved message exactly when nothing else holds it. With
      the rows counted before they are deleted it does so, whatever the cursor yields, exactly when: the last
      row had no copy, or a deleted copy came up again; one other row is left, and no deleted copy came up
      again; or more than one other row is left. Otherwise it strands a message that nothing holds, or deletes
      one that is still held. */
  lemma RepeatedRowCosts(s: State, hash: Hash, cursor: seq<Row>, m: MessageRow)
    requires Unique(s.messages) && m in s.messages && !m.saved
    requires Row(hash, m.key) in s.derivations && Yields(s.derivations, hash, cursor)
    ensures var t, row := DropRows(s, cursor), Row(hash, m.key);
            var all, others := |RowsFor(s.derivations, m.key)|, |OtherRows(s, row)|;
            var again := multiset(cursor)[row] > 1;
            && (HasRow(t, m.key) <==> others > 0)
            && ((HasMessage(t, m.key) <==> HasRow(t, m.key)) <==>
                if others == 0 then all == 1 || again else others > 1 || !again)
  {
    hide DropRows, Unique, RowsFor, WithoutRow;
    var row := Row(hash, m.key);
    FateAfter(s, m, row, cursor);
    HeldByRows(DropRows(s, cursor), m.key);
    RowsForDrops(s.derivations, row);
    DroppingShortens(RowsFor(s.derivations, m.key), row);
    assert row in cursor;
  }

  lemma HeldByRows(s: State, key: Key)
    ensures HasRow(s, key) <==> |RowsFor(s.derivations, key)| > 0
  {
    var rows := RowsFor(s.derivations, key);
    hide RowsFor;
    if |rows| > 0 {
      assert rows[0] in rows;
    }
  }

  lemma {:induction false} DroppingShortens(rows: seq<Row>, row: Row)
    ensures |WithoutRow(rows, row)| <= |rows| && (row in rows ==> |WithoutRow(rows, row)| < |rows|)
  {
    if rows != [] {
      DroppingShortens(rows[1..], row);
    }
  }

  // ---------------------------------------------------------------- concrete runs

  const PLAIN := Mail((payload, inbox) => Sealed(payload), plaintext => Some(Parsed(None)))

  /** A state in which one inbox has one message. */
  function OneMessage(key: Key, saved: bool, rows: seq<Row>, events: seq<Event>): State {
    State([Inbox(key.inbox, saved)], [MessageRow(key, saved)], rows, map[], events)
  }

  lemma RunCons(mail: Mail, w: World, action: Action, rest: seq<Action>)
    requires Expected(w, action) && ExpectedRun(mail, Act(mail, w, action), rest)
    ensures ExpectedRun(mail, w, [action] + rest)
    ensures Run(mail, w, [action] + rest) == Run(mail, Act(mail, w, action), rest)
  {
    assert ([action] + rest)[1..] == rest;
  }

  /** The first arrival of a payload at the one inbox. */
  lemma FirstArrives(hash: Hash, inbox: InboxId, autosave: bool)
    ensures var key := Key(Id(hash.payload), inbox);
            Act(PLAIN, World(EMPTY.(inboxes := [Inbox(inbox, autosave)]), {}), Arrival(hash)) ==
            World(OneMessage(key, autosave, [Row(hash, key)],
                             [MessageArrived(key, autosave, None, hash.expirationTime)]), {hash})
  {
    var s := EMPTY.(inboxes := [Inbox(inbox, autosave)]);
    assert {} + {hash} == {hash};
    assert Arrive(PLAIN, s, {hash}, hash, 0) == s;
    assert Arrive(PLAIN, s, {hash}, hash, 1) == ArriveAt(PLAIN, s, {hash}, hash, s.inboxes[0]);
  }

  /** Another arrival of the same message. */
  lemma NextArrives(w: World, hash: Hash, key: Key, saved: bool, r: Row)
    requires |w.state.derivations| > 0 && w.state.derivations[0] == r
    requires r.key == key && r.from in w.live && key.id == Id(hash.payload)
    requires w.state.inboxes == [Inbox(key.inbox, saved)]
    ensures var t := Act(PLAIN, w, Arrival(hash)).state;
            && t.messages == w.state.messages && t.inboxes == w.state.inboxes
            && t.derivations == w.state.derivations + [Row(hash, key)]
  {
    var live := w.live + {hash};
    assert Arrive(PLAIN, w.state, live, hash, 0) == w.state;
    assert Arrive(PLAIN, w.state, live, hash, 1) == ArriveAt(PLAIN, w.state, live, hash, w.state.inboxes[0]);
    assert r in RowsFor(w.state.derivations, key);
    assert StoredExpiration(w.state, live, key).Some?;
    hide StoredExpiration;
  }

  /** A message that nothing holds, not saved, and not deleted. */
  ghost predicate Strands(s: State, key: Key) {
    MessageRow(key, false) in s.messages && !HasRow(s, key)
  }

  /** A row of a message that is not there. */
  ghost predicate Dangles(s: State, key: Key) {
    HasRow(s, key) && !HasMessage(s, key)
  }

  lemma EmptyInbox(inbox: InboxId)
    ensures var w := World(InboxAdded(EMPTY, inbox), {});
            && Act(PLAIN, NOTHING, NewInbox(inbox)) == w
            && Act(PLAIN, w, SetAutosave(inbox, false)) == World(EMPTY.(inboxes := [Inbox(inbox, false)]), {})
    ensures InboxAdded(EMPTY, inbox) == EMPTY.(inboxes := [Inbox(inbox, true)])
  {
  }

  /** An item inserted twice, for an inbox that saves nothing by itself, and what follows. */
  function InsertedTwice(hash: Hash, inbox: InboxId, rest: seq<Action>): seq<Action> {
    [NewInbox(inbox)] + ([SetAutosave(inbox, false)] + ([Arrival(hash)] + ([Arrival(hash)] + rest)))
  }

  function AfterTwo(hash: Hash, inbox: InboxId): World {
    var w := Act(PLAIN, Act(PLAIN, NOTHING, NewInbox(inbox)), SetAutosave(inbox, false));
    Act(PLAIN, Act(PLAIN, w, Arrival(hash)), Arrival(hash))
  }

  lemma RowIsThereTwice(hash: Hash, inbox: InboxId)
    ensures var key, w := Key(Id(hash.payload), inbox), AfterTwo(hash, inbox);
            && w.state.derivations == [Row(hash, key), Row(hash, key)]
            && w.state.messages == [MessageRow(key, false)]
            && w.state.inboxes == [Inbox(inbox, false)] && w.live == {hash}
  {
    var key := Key(Id(hash.payload), inbox);
    EmptyInbox(inbox);
    FirstArrives(hash, inbox, false);
    var w := Act(PLAIN, World(EMPTY.(inboxes := [Inbox(inbox, false)]), {}), Arrival(hash));
    assert w.live + {hash} == {hash};
    NextArrives(w, hash, key, false, Row(hash, key));
    hide Arrive, AutosaveSet, InboxAdded;
  }

  lemma TwoAreExpected(hash: Hash, inbox: InboxId, rest: seq<Action>)
    requires ExpectedRun(PLAIN, AfterTwo(hash, inbox), rest)
    ensures ExpectedRun(PLAIN, NOTHING, InsertedTwice(hash, inbox, rest))
    ensures Run(PLAIN, NOTHING, InsertedTwice(hash, inbox, rest)) == Run(PLAIN, AfterTwo(hash, inbox), rest)
  {
    var w1 := Act(PLAIN, NOTHING, NewInbox(inbox));
    var w2 := Act(PLAIN, w1, SetAutosave(inbox, false));
    var w3 := Act(PLAIN, w2, Arrival(hash));
    assert Expected(NOTHING, NewInbox(inbox)) && Expected(w1, SetAutosave(inbox, false));
    assert Expected(w2, Arrival(hash)) && Expected(w3, Arrival(hash));
    hide Act, Expected;
    RunCons(PLAIN, w3, Arrival(hash), rest);
    RunCons(PLAIN, w2, Arrival(hash), [Arrival(hash)] + rest);
    RunCons(PLAIN, w1, SetAutosave(inbox, false), [Arrival(hash)] + ([Arrival(hash)] + rest));
    RunCons(PLAIN, NOTHING, NewInbox(inbox),
            [SetAutosave(inbox, false)] + ([Arrival(hash)] + ([Arrival(hash)] + rest)));
  }

  /** Purged once, with a cursor that skips the copy. */
  lemma RepetitionStrands(hash: Hash, inbox: InboxId)
    ensures var key := Key(Id(hash.payload), inbox);
            var run := InsertedTwice(hash, inbox, [Departure(hash, [Row(hash, key)])]);
            ExpectedRun(PLAIN, NOTHING, run) && Strands(Run(PLAIN, NOTHING, run).state, key)
  {
    var key := Key(Id(hash.payload), inbox);
    var row := Row(hash, key);
    var w := AfterTwo(hash, inbox);
    RowIsThereTwice(hash, inbox);
    hide Arrive, DropRows, AfterTwo, InsertedTwice, Strands, Yields;
    PurgeOfCopies(w.state, hash, MessageRow(key, false));
    RunCons(PLAIN, w, Departure(hash, [row]), []);
    assert [Departure(hash, [row])] + [] == [Departure(hash, [row])];
    TwoAreExpected(hash, inbox, [Departure(hash, [row])]);
  }

  lemma PurgeOfCopies(s: State, hash: Hash, m: MessageRow)
    requires s.derivations == [Row(hash, m.key), Row(hash, m.key)] && s.messages == [m] && !m.saved
    ensures Yields(s.derivations, hash, [Row(hash, m.key)])
    ensures Strands(DropRows(s, [Row(hash, m.key)]), m.key)
  {
    var row := Row(hash, m.key);
    FateAfter(s, m, row, [row]);
    RepeatedRowCosts(s, hash, [row], m);
    assert OtherRows(s, row) == [];
    hide DropRows;
  }

  /** Held by another item too and purged once, with a cursor that returns the copy. */
  lemma RepetitionDangles(hash: Hash, other: Hash, inbox: InboxId)
    requires hash.payload == other.payload && hash.expirationTime < other.expirationTime
    ensures var key := Key(Id(hash.payload), inbox);
            var run := InsertedTwice(
              hash, inbox, [Arrival(other)] + [Departure(hash, [Row(hash, key), Row(hash, key)])]);
            ExpectedRun(PLAIN, NOTHING, run) && Dangles(Run(PLAIN, NOTHING, run).state, key)
  {
    var key := Key(Id(hash.payload), inbox);
    var row := Row(hash, key);
    var purge := Departure(hash, [row, row]);
    var w := AfterTwo(hash, inbox);
    var u := Act(PLAIN, w, Arrival(other));
    ThirdIsThere(hash, other, inbox);
    hide Act, AfterTwo, InsertedTwice, Dangles;
    RunCons(PLAIN, u, purge, []);
    assert [purge] + [] == [purge];
    RunCons(PLAIN, w, Arrival(other), [purge]);
    TwoAreExpected(hash, inbox, [Arrival(other)] + [purge]);
  }

  lemma ThirdIsThere(hash: Hash, other: Hash, inbox: InboxId)
    requires hash.payload == other.payload && hash.expirationTime < other.expirationTime
    ensures var key, w := Key(Id(hash.payload), inbox), AfterTwo(hash, inbox);
            var u, purge := Act(PLAIN, w, Arrival(other)), Departure(hash, [Row(hash, key), Row(hash, key)]);
            && Expected(w, Arrival(other)) && Expected(u, purge)
            && Dangles(Act(PLAIN, u, purge).state, key)
  {
    var key, w := Key(Id(hash.payload), inbox), AfterTwo(hash, inbox);
    RowIsThereTwice(hash, inbox);
    hide AfterTwo;
    NextArrives(w, other, key, false, Row(hash, key));
    hide Arrive, Yields, Dangles;
    PurgeOfThree(Act(PLAIN, w, Arrival(other)), hash, other, key);
  }

  lemma PurgeOfThree(u: World, hash: Hash, other: Hash, key: Key)
    requires hash.expirationTime < other.expirationTime && u.live == {hash} + {other}
    requires u.state.messages == [MessageRow(key, false)]
    requires u.state.derivations == [Row(hash, key), Row(hash, key)] + [Row(other, key)]
    ensures var purge := Departure(hash, [Row(hash, key), Row(hash, key)]);
            Expected(u, purge) && Dangles(Act(PLAIN, u, purge).state, key)
  {
    assert [Row(hash, key), Row(hash, key)] + [Row(other, key)] == [Row(hash, key), Row(hash, key), Row(other, key)];
    hide DropRows, Dangles, Yields;
    PurgeOfCopiesAndAnother(u.state, hash, other, MessageRow(key, false));
  }

  lemma PurgeOfCopiesAndAnother(s: State, hash: Hash, other: Hash, m: MessageRow)
    requires s.derivations == [Row(hash, m.key), Row(hash, m.key), Row(other, m.key)] && s.messages == [m] && !m.saved
    requires hash != other
    ensures Yields(s.derivations, hash, [Row(hash, m.key), Row(hash, m.key)])
    ensures Dangles(DropRows(s, [Row(hash, m.key), Row(hash, m.key)]), m.key)
  {
    var row, last := Row(hash, m.key), Row(other, m.key);
    CopiesMayReturn(row, last);
    OneOther(s, row, last);
    hide DropRows, RowsFor, OtherRows, Yields;
    RepeatedRowCosts(s, hash, [row, row], m);
    assert multiset([row, row])[row] == 2;
  }

  lemma CopiesMayReturn(row: Row, last: Row)
    requires row.from != last.from
    ensures Yields([row, row, last], row.from, [row, row])
  {
    assert [row, row, last] == [row, row] + [last];
    assert multiset([row, row, last]) == multiset([row, row]) + multiset([last]);
  }

  lemma OneOther(s: State, row: Row, last: Row)
    requires s.derivations == [row, row, last] && row != last && row.key == last.key
    ensures OtherRows(s, row) == [last]
  {
    DroppingCopies(row, last);
    hide WithoutRow;
    assert [last][1..] == [] && RowsFor([], row.key) == [];
    assert RowsFor([last], row.key) == [last];
  }

  lemma DroppingCopies(row: Row, other: Row)
    requires row != other
    ensures WithoutRow([row, row, other], row) == [other]
  {
    assert [other][1..] == [];
    assert WithoutRow([other], row) == [other];
    assert [row, other][1..] == [other];
    assert WithoutRow([row, other], row) == [other];
    assert [row, row, other][1..] == [row, other];
  }

  /** Autosaved, expired, posted again with a later expiration. */
  function Reposting(hash: Hash, later: Hash, key: Key): seq<Action> {
    [NewInbox(key.inbox)] + ([Arrival(hash)] + ([Departure(hash, [Row(hash, key)])] + ([Arrival(later)] + [])))
  }

  /** Nothing is inserted twice, everything is purged in order, and still one message is there twice. */
  lemma RedeliveryHappens(hash: Hash, later: Hash, inbox: InboxId)
    requires hash.payload == later.payload
    ensures var key := Key(Id(hash.payload), inbox);
            && ExpectedRun(PLAIN, NOTHING, Reposting(hash, later, key))
            && !Unique(Run(PLAIN, NOTHING, Reposting(hash, later, key)).state.messages)
  {
    var key := Key(Id(hash.payload), inbox);
    var row := Row(hash, key);
    var w1 := Act(PLAIN, NOTHING, NewInbox(inbox));
    var w2 := Act(PLAIN, w1, Arrival(hash));
    var w3 := Act(PLAIN, w2, Departure(hash, [row]));
    EmptyInbox(inbox);
    FirstArrives(hash, inbox, true);
    SavedOutlives(w2.state, hash, key);
    assert w2.live - {hash} == {};
    AbandonedReturns(w3, later, key);
    hide Arrive, DropRows, AutosaveSet, InboxAdded, Yields, Unique;
    RunCons(PLAIN, w3, Arrival(later), []);
    RunCons(PLAIN, w2, Departure(hash, [row]), [Arrival(later)] + []);
    RunCons(PLAIN, w1, Arrival(hash), [Departure(hash, [row])] + ([Arrival(later)] + []));
    RunCons(PLAIN, NOTHING, NewInbox(inbox), [Arrival(hash)] + ([Departure(hash, [row])] + ([Arrival(later)] + [])));
  }

  lemma SavedOutlives(s: State, hash: Hash, key: Key)
    requires s.messages == [MessageRow(key, true)] && s.derivations == [Row(hash, key)]
    ensures Yields(s.derivations, hash, [Row(hash, key)])
    ensures var t := DropRows(s, [Row(hash, key)]);
            t.messages == s.messages && t.derivations == [] && t.inboxes == s.inboxes
  {
    var row := Row(hash, key);
    assert DropRows(s, [row][..0]) == s;
    assert DropRows(s, [row]) == DropRow(s, row);
    assert MessageOf(s.messages, key) == Some(MessageRow(key, true));
    assert WithoutRow(s.derivations, row) == [];
  }

  lemma AbandonedReturns(w: World, hash: Hash, key: Key)
    requires w.state.messages == [MessageRow(key, true)] && w.state.derivations == [] && w.live == {}
    requires w.state.inboxes == [Inbox(key.inbox, true)] && key.id == Id(hash.payload)
    ensures !Unique(Act(PLAIN, w, Arrival(hash)).state.messages)
  {
    var live := w.live + {hash};
    assert Arrive(PLAIN, w.state, live, hash, 0) == w.state;
    var t := Arrive(PLAIN, w.state, live, hash, 1);
    assert t == ArriveAt(PLAIN, w.state, live, hash, w.state.inboxes[0]);
    assert t.messages[0].key == t.messages[1].key;
  }

  // ---------------------------------------------------------------- a consumer that lags behind

  /** The item opens to a message that the inbox has, and none of the rows that hold the message is of an item
      that the inventory still has. */
  ghost predicate Forgotten(mail: Mail, s: State, live: set<Hash>, hash: Hash, inbox: InboxId) {
    match mail.open(hash.payload, inbox)
    case Sealed(plaintext) =>
      var key := Key(Id(plaintext), inbox);
      && mail.parse(plaintext).Some? && HasMessage(s, key)
      && forall r :: r in s.derivations && r.key == key ==> r.from !in live
    case _ => false
  }

  lemma ForgottenElsewhere(mail: Mail, s: State, live: set<Hash>, hash: Hash, inbox: Inbox, other: InboxId)
    requires other != inbox.id
    ensures Forgotten(mail, ArriveAt(mail, s, live, hash, inbox), live, hash, other) <==>
            Forgotten(mail, s, live, hash, other)
  {
    var t := ArriveAt(mail, s, live, hash, inbox);
    assert forall m :: m in t.messages && m.key.inbox == other <==> m in s.messages && m.key.inbox == other;
    assert forall r :: r in t.derivations && r.key.inbox == other <==> r in s.derivations && r.key.inbox == other;
    hide ArriveAt;
  }

  lemma ArriveAtDuplicatesExactly(mail: Mail, s: State, live: set<Hash>, hash: Hash, inbox: Inbox)
    requires hash in live
    ensures Unique(ArriveAt(mail, s, live, hash, inbox).messages) <==>
            Unique(s.messages) && !Forgotten(mail, s, live, hash, inbox.id)
  {
    if mail.open(hash.payload, inbox.id).Sealed? {
      var key := Key(Id(mail.open(hash.payload, inbox.id).plaintext), inbox.id);
      assert forall r :: r in RowsFor(s.derivations, key) <==> r in s.derivations && r.key == key;
      UniqueSnoc(s.messages, MessageRow(key, inbox.autosave));
      hide RowsFor, LatestAmong, Unique;
    }
  }

  ghost predicate ForgottenUpTo(mail: Mail, s: State, live: set<Hash>, hash: Hash, n: nat)
    requires n <= |s.inboxes|
  {
    exists i :: 0 <= i < n && Forgotten(mail, s, live, hash, s.inboxes[i].id)
  }

  lemma {:induction false} ArriveDuplicatesExactly(mail: Mail, s: State, live: set<Hash>, hash: Hash, n: nat)
    requires n <= |s.inboxes| && Distinct(s.inboxes) && hash in live
    ensures Unique(Arrive(mail, s, live, hash, n).messages) <==>
            Unique(s.messages) && !ForgottenUpTo(mail, s, live, hash, n)
    ensures forall i :: n <= i < |s.inboxes| ==>
                          (Forgotten(mail, Arrive(mail, s, live, hash, n), live, hash, s.inboxes[i].id) <==>
                           Forgotten(mail, s, live, hash, s.inboxes[i].id))
  {
    hide ArriveAt, Forgotten, Unique;
    if n > 0 {
      var u := Arrive(mail, s, live, hash, n - 1);
      ArriveDuplicatesExactly(mail, s, live, hash, n - 1);
      ArriveAtDuplicatesExactly(mail, u, live, hash, s.inboxes[n - 1]);
      forall i | n <= i < |s.inboxes|
        ensures Forgotten(mail, Arrive(mail, s, live, hash, n), live, hash, s.inboxes[i].id) <==>
                Forgotten(mail, s, live, hash, s.inboxes[i].id)
      {
        ForgottenElsewhere(mail, u, live, hash, s.inboxes[n - 1], s.inboxes[i].id);
      }
    }
  }

  /** Consumed against any inventory, however much newer than the mutation, an item stores a message again
      exactly when the inventory still has the item and has lost all that held the message, for some inbox. */
  lemma LaggingArrivalDuplicatesExactly(mail: Mail, s: State, live: set<Hash>, hash: Hash)
    requires Unique(s.messages) && Distinct(s.inboxes)
    ensures Unique(Consumed(mail, s, live, hash).messages) <==>
            hash !in live || !exists i :: i in s.inboxes && Forgotten(mail, s, live, hash, i.id)
  {
    hide Arrive, Forgotten, Unique, Distinct;
    if hash in live {
      ArriveDuplicatesExactly(mail, s, live, hash, |s.inboxes|);
      assert ForgottenUpTo(mail, s, live, hash, |s.inboxes|) <==>
             exists i :: i in s.inboxes && Forgotten(mail, s, live, hash, i.id);
    }
  }

  /** The item is there when its row is read and gone when its expiration is asked for: then it also stores a
      message again that is there and still held. */
  lemma SplitReadDuplicatesExactly(mail: Mail, s: State, live: set<Hash>, hash: Hash, inbox: Inbox)
    requires Unique(s.messages) && hash !in live
    ensures Unique(ArriveAt(mail, s, live, hash, inbox).messages) <==>
            !(mail.open(hash.payload, inbox.id).Sealed?
              && mail.parse(mail.open(hash.payload, inbox.id).plaintext).Some?
              && HasMessage(s, Key(Id(mail.open(hash.payload, inbox.id).plaintext), inbox.id)))
  {
    if mail.open(hash.payload, inbox.id).Sealed? {
      var key := Key(Id(mail.open(hash.payload, inbox.id).plaintext), inbox.id);
      UniqueSnoc(s.messages, MessageRow(key, inbox.autosave));
    }
    hide StoredExpiration;
  }

  /** The inventory runs ahead: what it emits waits in `pending`. */
  datatype Lag = Lag(state: State, live: set<Hash>, pending: seq<Inventory.Mutation>)

  function Emitted(l: Lag, mutation: Inventory.Mutation): Lag {
    l.(live := Inventory.Step(l.live, mutation), pending := l.pending + [mutation])
  }

  /** The consumer handles the oldest mutation with the inventory as it is by now. */
  function Taken(mail: Mail, l: Lag): Lag
    requires l.pending != []
  {
    match l.pending[0]
    case Insert(hash) => l.(state := Consumed(mail, l.state, l.live, hash), pending := l.pending[1..])
    case Purge(hash) => l.(state := DropRows(l.state, RowsFrom(l.state.derivations, hash)), pending := l.pending[1..])
  }

  /** One payload posted with two expirations; the first is purged before the second is consumed. */
  lemma LagDuplicates(first: Hash, second: Hash, inbox: InboxId)
    requires first.payload == second.payload && first.expirationTime < second.expirationTime
    ensures var log := [Inventory.Insert(first), Inventory.Insert(second), Inventory.Purge(first)];
            var l1 := Taken(PLAIN, Emitted(Lag(InboxAdded(EMPTY, inbox), {}, []), log[0]));
            var l2 := Taken(PLAIN, Emitted(Emitted(l1, log[1]), log[2]));
            && Inventory.Orderly(log) && Inventory.FreshLog(log)
            && l2.live == Inventory.Replay(log)
            && !Unique(l2.state.messages)
  {
    var log := [Inventory.Insert(first), Inventory.Insert(second), Inventory.Purge(first)];
    var key := Key(Id(first.payload), inbox);
    EmptyInbox(inbox);
    FirstArrives(first, inbox, true);
    LogOfThree(first, second);
    var l0 := Emitted(Lag(InboxAdded(EMPTY, inbox), {}, []), log[0]);
    var l1 := Taken(PLAIN, l0);
    assert l0.live == {first} && l1.pending == [];
    var s := l1.state;
    assert s.messages == [MessageRow(key, true)] && s.derivations == [Row(first, key)];
    var live := Emitted(Emitted(l1, log[1]), log[2]).live;
    assert live == {second};
    hide Arrive, Unique;
    LaggingArrivalDuplicatesExactly(PLAIN, s, live, second);
    assert s.inboxes[0] in s.inboxes && s.messages[0].key == key;
    assert Forgotten(PLAIN, s, live, second, s.inboxes[0].id);
  }

  lemma LogOfThree(first: Hash, second: Hash)
    requires first.expirationTime < second.expirationTime
    ensures var log := [Inventory.Insert(first), Inventory.Insert(second), Inventory.Purge(first)];
            Inventory.Orderly(log) && Inventory.FreshLog(log) && Inventory.Replay(log) == {second}
  {
    var a, b, c := Inventory.Insert(first), Inventory.Insert(second), Inventory.Purge(first);
    Inventory.ReplaySnoc([], a);
    Inventory.ReplaySnoc([a], b);
    Inventory.ReplaySnoc([a, b], c);
    Inventory.FreshLogSnoc([], a);
    Inventory.FreshLogSnoc([a], b);
    Inventory.FreshLogSnoc([a, b], c);
    assert [] + [a] == [a] && [a] + [b] == [a, b] && [a, b] + [c] == [a, b, c];
    hide Inventory.Orderly, Inventory.FreshLog;
  }
}
