/** What the derivation tables keep through every mutation and command, and when they do not. */
module DerivationInvariant {
  import opened Wrappers
  import opened Derivation
  import Inventory

  ghost predicate HasMessage(s: State, key: Key) {
    exists m :: m in s.messages && m.key == key
  }

  ghost predicate HasRow(s: State, key: Key) {
    exists r :: r in s.derivations && r.key == key
  }

  ghost predicate HasInbox(s: State, inbox: InboxId) {
    exists i :: i in s.inboxes && i.id == inbox
  }

  /** Rows are not repeated, lead from live items to existing messages, and hold up every unsaved message. */
  ghost predicate Sound(s: State, live: set<Hash>) {
    && NoDuplicates(s.derivations)
    && (forall r :: r in s.derivations ==> r.from in live && HasMessage(s, r.key))
    && (forall m :: m in s.messages && !m.saved ==> HasRow(s, m.key))
    && (forall m :: m in s.messages ==> HasInbox(s, m.key.inbox))
    && Distinct(s.inboxes)
  }

  /** The expiration time last announced for a message, unless it has been reported expired since. */
  function Announced(events: seq<Event>, key: Key): Option<int> {
    if events == [] then
      None
    else
      match events[|events| - 1]
      case MessageArrived(k, _, _, time) => if k == key then Some(time) else Announced(events[..|events| - 1], key)
      case ExpirationExtended(k, time) => if k == key then Some(time) else Announced(events[..|events| - 1], key)
      case MessageExpired(k) => if k == key then None else Announced(events[..|events| - 1], key)
      case InboxSeen(_, _) => Announced(events[..|events| - 1], key)
  }

  ghost predicate IsLatest(rows: seq<Row>, key: Key, time: int) {
    && (exists r :: r in rows && r.key == key && r.from.expirationTime == time)
    && (forall r :: r in rows && r.key == key ==> r.from.expirationTime <= time)
  }

  /** What was last announced for a message is the latest expiration among the items that hold it. */
  ghost predicate Truthful(s: State) {
    forall key :: HasRow(s, key) ==>
                    Announced(s.events, key).Some? && IsLatest(s.derivations, key, Announced(s.events, key).value)
  }

  lemma AnnouncedAfter(events: seq<Event>, event: Event, key: Key)
    ensures Announced(events + [event], key) ==
            match event
            case MessageArrived(k, _, _, time) => if k == key then Some(time) else Announced(events, key)
            case ExpirationExtended(k, time) => if k == key then Some(time) else Announced(events, key)
            case MessageExpired(k) => if k == key then None else Announced(events, key)
            case InboxSeen(_, _) => Announced(events, key)
  {
  }

  // ---------------------------------------------------------------- arrivals

  /** The item opens to a message that the inbox still has, but that nothing holds: it was saved, and
      everything it was derived from has expired. */
  ghost predicate Redelivers(mail: Mail, s: State, hash: Hash, inbox: InboxId) {
    match mail.open(hash.payload, inbox)
    case Sealed(plaintext) =>
      var key := Key(Id(plaintext), inbox);
      mail.parse(plaintext).Some? && HasMessage(s, key) && !HasRow(s, key)
    case _ => false
  }

  lemma HeldExactlyWhenStored(s: State, live: set<Hash>, key: Key)
    requires forall r :: r in s.derivations ==> r.from in live
    ensures StoredExpiration(s, live, key).Some? <==> HasRow(s, key)
    ensures HasRow(s, key) ==> IsLatest(s.derivations, key, StoredExpiration(s, live, key).value)
  {
    var rows := RowsFor(s.derivations, key);
    if HasRow(s, key) {
      var r :| r in s.derivations && r.key == key;
      assert r in rows;
    }
  }

  lemma UniqueSnoc(messages: seq<MessageRow>, m: MessageRow)
    ensures Unique(messages + [m]) <==> Unique(messages) && forall n :: n in messages ==> n.key != m.key
  {
    var longer := messages + [m];
    if Unique(longer) {
      forall i, j | 0 <= i < j < |messages| ensures messages[i].key != messages[j].key {
        assert longer[i].key != longer[j].key;
      }
      forall n | n in messages ensures n.key != m.key {
        var i :| 0 <= i < |messages| && messages[i] == n;
        assert longer[i].key != longer[|messages|].key;
      }
    }
  }

  lemma ArriveAtKeepsSound(mail: Mail, s: State, live: set<Hash>, hash: Hash, inbox: Inbox)
    requires Sound(s, live) && hash in live && inbox in s.inboxes
    requires forall r :: r in s.derivations && r.from == hash ==> r.key.inbox != inbox.id
    ensures Sound(ArriveAt(mail, s, live, hash, inbox), live)
    ensures Unique(ArriveAt(mail, s, live, hash, inbox).messages)
            <==> Unique(s.messages) && !Redelivers(mail, s, hash, inbox.id)
  {
    var t := ArriveAt(mail, s, live, hash, inbox);
    if mail.open(hash.payload, inbox.id).Sealed? {
      var plaintext := mail.open(hash.payload, inbox.id).plaintext;
      var key := Key(Id(plaintext), inbox.id);
      HeldExactlyWhenStored(s, live, key);
      if t.derivations != s.derivations {
        AddingRowKeepsSound(s, t, live, Row(hash, key));
        if t.messages != s.messages {
          UniqueSnoc(s.messages, MessageRow(key, inbox.autosave));
        }
      }
    }
  }

  /** A row for a message that is there, or comes with it. */
  lemma AddingRowKeepsSound(s: State, t: State, live: set<Hash>, row: Row)
    requires Sound(s, live) && row.from in live && row !in s.derivations
    requires t.derivations == s.derivations + [row] && t.inboxes == s.inboxes
    requires || (t.messages == s.messages && HasMessage(s, row.key))
             || exists saved :: t.messages == s.messages + [MessageRow(row.key, saved)]
    requires HasInbox(s, row.key.inbox)
    ensures Sound(t, live)
  {
    assert forall r :: r in t.derivations <==> r in s.derivations || r == row;
    assert forall m :: m in s.messages ==> m in t.messages;
    assert HasRow(t, row.key) by {
      assert row in t.derivations;
    }
    forall r | r in t.derivations ensures HasMessage(t, r.key) {
      if r == row && t.messages != s.messages {
        assert t.messages[|s.messages|].key == row.key;
      }
    }
    forall m | m in t.messages && !m.saved ensures HasRow(t, m.key) {
      if m in s.messages {
        var r :| r in s.derivations && r.key == m.key;
        assert r in t.derivations;
      }
    }
  }

  lemma AddingRowKeepsTruthful(s: State, t: State, row: Row, time: int)
    requires Truthful(s)
    requires t.derivations == s.derivations + [row]
    requires Announced(t.events, row.key) == Some(time) && IsLatest(t.derivations, row.key, time)
    requires forall key :: key != row.key ==> Announced(t.events, key) == Announced(s.events, key)
    ensures Truthful(t)
  {
    assert forall r :: r in t.derivations <==> r in s.derivations || r == row;
    forall key | HasRow(t, key)
      ensures Announced(t.events, key).Some? && IsLatest(t.derivations, key, Announced(t.events, key).value)
    {
      if key != row.key {
        assert HasRow(s, key);
      }
    }
  }

  lemma LatestWith(rows: seq<Row>, row: Row, stored: Option<int>)
    requires stored.Some? ==> IsLatest(rows, row.key, stored.value)
    requires stored.None? ==> forall r :: r in rows ==> r.key != row.key
    ensures IsLatest(rows + [row], row.key,
                     if stored.Some? && stored.value >= row.from.expirationTime
                     then stored.value else row.from.expirationTime)
  {
  }

  lemma ArriveAtKeepsTruthful(mail: Mail, s: State, live: set<Hash>, hash: Hash, inbox: Inbox)
    requires Sound(s, live) && Truthful(s) && hash in live
    ensures Truthful(ArriveAt(mail, s, live, hash, inbox))
  {
    var t := ArriveAt(mail, s, live, hash, inbox);
    match mail.open(hash.payload, inbox.id) {
      case Opaque =>
      case OwnEntry =>
        forall key ensures Announced(t.events, key) == Announced(s.events, key) {
          AnnouncedAfter(s.events, InboxSeen(inbox.id, hash.expirationTime), key);
        }
        assert forall key :: HasRow(t, key) ==> HasRow(s, key);
      case Sealed(plaintext) =>
        var row := Row(hash, Key(Id(plaintext), inbox.id));
        var stored := StoredExpiration(s, live, row.key);
        HeldExactlyWhenStored(s, live, row.key);
        if t.derivations != s.derivations {
          LatestWith(s.derivations, row, stored);
          var time := if stored.Some? && stored.value >= hash.expirationTime then stored.value else hash.expirationTime;
          forall key
            ensures Announced(t.events, key) == if key == row.key then Some(time) else Announced(s.events, key)
          {
            if t.events != s.events {
              AnnouncedAfter(s.events, t.events[|s.events|], key);
            } else {
              SameLatest(s.derivations, row.key, stored.value, Announced(s.events, row.key).value);
            }
          }
          AddingRowKeepsTruthful(s, t, row, time);
        }
    }
  }

  lemma SameLatest(rows: seq<Row>, key: Key, time1: int, time2: int)
    requires IsLatest(rows, key, time1) && IsLatest(rows, key, time2)
    ensures time1 == time2
  {
  }

  // ---------------------------------------------------------------- an arrival at all inboxes

  /** What an arrival at one inbox leaves alone. */
  lemma ArriveAtTouchesOneInbox(mail: Mail, s: State, live: set<Hash>, hash: Hash, inbox: Inbox, other: InboxId)
    requires other != inbox.id
    ensures Redelivers(mail, ArriveAt(mail, s, live, hash, inbox), hash, other) <==> Redelivers(mail, s, hash, other)
  {
    var t := ArriveAt(mail, s, live, hash, inbox);
    forall key: Key | key.inbox == other
      ensures HasMessage(t, key) <==> HasMessage(s, key)
      ensures HasRow(t, key) <==> HasRow(s, key)
    {
      assert forall m :: m in s.messages ==> m in t.messages;
      assert forall r :: r in s.derivations ==> r in t.derivations;
    }
  }

  lemma ArriveAtAddsRowsHere(mail: Mail, s: State, live: set<Hash>, hash: Hash, inbox: Inbox)
    ensures forall r :: r in ArriveAt(mail, s, live, hash, inbox).derivations ==>
                          r in s.derivations || (r.from == hash && r.key.inbox == inbox.id)
  {
  }

  /** `t` is `s` after the item arrived at the first `n` inboxes: the tables are sound, announcements are true,
      rows of the new item are only in those inboxes, and messages are unique exactly when none of those
      inboxes got one back. */
  ghost predicate Arrived(mail: Mail, s: State, t: State, live: set<Hash>, hash: Hash, n: nat)
    requires n <= |s.inboxes|
  {
    && t.inboxes == s.inboxes
    && Sound(t, live) && Truthful(t)
    && (forall r :: r in t.derivations && r.from == hash ==>
                      exists i :: 0 <= i < n && s.inboxes[i].id == r.key.inbox)
    && (Unique(t.messages) <==> Unique(s.messages) && RedeliversNothingUpTo(mail, s, hash, n))
    && (forall i :: n <= i < |s.inboxes| ==>
                      (Redelivers(mail, t, hash, s.inboxes[i].id) <==> Redelivers(mail, s, hash, s.inboxes[i].id)))
  }

  ghost predicate RedeliversNothingUpTo(mail: Mail, s: State, hash: Hash, n: nat)
    requires n <= |s.inboxes|
  {
    forall i :: 0 <= i < n ==> !Redelivers(mail, s, hash, s.inboxes[i].id)
  }

  lemma RowsOfNewItemStayBehind(mail: Mail, s: State, u: State, live: set<Hash>, hash: Hash, n: nat)
    requires n < |s.inboxes| && Arrived(mail, s, u, live, hash, n)
    ensures forall r :: r in u.derivations && r.from == hash ==> r.key.inbox != s.inboxes[n].id
    ensures forall r :: r in ArriveAt(mail, u, live, hash, s.inboxes[n]).derivations && r.from == hash ==>
                          exists i :: 0 <= i < n + 1 && s.inboxes[i].id == r.key.inbox
  {
    ArriveAtAddsRowsHere(mail, u, live, hash, s.inboxes[n]);
    hide ArriveAt, Truthful, Unique, Redelivers, RedeliversNothingUpTo;
  }

  lemma LaterInboxesWait(mail: Mail, s: State, u: State, live: set<Hash>, hash: Hash, n: nat)
    requires n < |s.inboxes| && Arrived(mail, s, u, live, hash, n)
    ensures var t := ArriveAt(mail, u, live, hash, s.inboxes[n]);
            forall i :: n + 1 <= i < |s.inboxes| ==>
                          (Redelivers(mail, t, hash, s.inboxes[i].id) <==> Redelivers(mail, s, hash, s.inboxes[i].id))
  {
    forall i | n + 1 <= i < |s.inboxes|
      ensures Redelivers(mail, ArriveAt(mail, u, live, hash, s.inboxes[n]), hash, s.inboxes[i].id) <==>
              Redelivers(mail, s, hash, s.inboxes[i].id)
    {
      assert s.inboxes[n].id != s.inboxes[i].id;
      ArriveAtTouchesOneInbox(mail, u, live, hash, s.inboxes[n], s.inboxes[i].id);
    }
  }

  lemma ArrivedAdvances(mail: Mail, s: State, u: State, live: set<Hash>, hash: Hash, n: nat)
    requires n < |s.inboxes| && hash in live && Arrived(mail, s, u, live, hash, n)
    ensures Arrived(mail, s, ArriveAt(mail, u, live, hash, s.inboxes[n]), live, hash, n + 1)
  {
    hide ArriveAt, Redelivers, Sound, Truthful, Unique;
    RowsOfNewItemStayBehind(mail, s, u, live, hash, n);
    LaterInboxesWait(mail, s, u, live, hash, n);
    ArriveAtKeepsSound(mail, u, live, hash, s.inboxes[n]);
    ArriveAtKeepsTruthful(mail, u, live, hash, s.inboxes[n]);
  }

  lemma {:induction false} ArriveKeeps(mail: Mail, s: State, live: set<Hash>, hash: Hash, n: nat)
    requires n <= |s.inboxes| && hash in live
    requires Sound(s, live) && Truthful(s)
    requires forall r :: r in s.derivations ==> r.from != hash
    ensures Arrived(mail, s, Arrive(mail, s, live, hash, n), live, hash, n)
  {
    hide Arrived, ArriveAt, Sound, Truthful;
    if n == 0 {
      ArrivedStarts(mail, s, live, hash);
    } else {
      ArriveKeeps(mail, s, live, hash, n - 1);
      ArrivedAdvances(mail, s, Arrive(mail, s, live, hash, n - 1), live, hash, n - 1);
    }
  }

  lemma ArrivedStarts(mail: Mail, s: State, live: set<Hash>, hash: Hash)
    requires Sound(s, live) && Truthful(s)
    requires forall r :: r in s.derivations ==> r.from != hash
    ensures Arrived(mail, s, s, live, hash, 0)
  {
  }

  ghost predicate RedeliversNothing(mail: Mail, s: State, hash: Hash) {
    RedeliversNothingUpTo(mail, s, hash, |s.inboxes|)
  }

  /** What the arrival of an item keeps that no row was derived from so far, live already or not; the message
      table keeps its rows distinct exactly when the arrival brings no message back that the table still has but
      that nothing holds. */
  lemma ArrivalKeepsInvariant(mail: Mail, s: State, live: set<Hash>, hash: Hash)
    requires Sound(s, live) && Truthful(s) && !Repeats(s, hash)
    ensures var t := Arrive(mail, s, live + {hash}, hash, |s.inboxes|);
            && Sound(t, live + {hash}) && Truthful(t)
            && (Unique(t.messages) <==> Unique(s.messages) && RedeliversNothing(mail, s, hash))
  {
    ArriveKeeps(mail, s, live + {hash}, hash, |s.inboxes|);
  }

  /** Some row was derived from the item before. */
  ghost predicate Repeats(s: State, hash: Hash) {
    exists r :: r in s.derivations && r.from == hash
  }

  /** Every row says what its inbox reads in its item. */
  ghost predicate Derived(mail: Mail, s: State) {
    forall r :: r in s.derivations ==> mail.open(r.from.payload, r.key.inbox) == Sealed(r.key.id.plaintext)
  }

  lemma {:induction false} ArrivalKeepsDerived(mail: Mail, s: State, live: set<Hash>, hash: Hash, n: nat)
    requires n <= |s.inboxes| && Derived(mail, s)
    ensures Derived(mail, Arrive(mail, s, live, hash, n))
  {
    hide ArriveAt, Derived;
    if n > 0 {
      ArrivalKeepsDerived(mail, s, live, hash, n - 1);
      ArriveAtKeepsDerived(mail, Arrive(mail, s, live, hash, n - 1), live, hash, s.inboxes[n - 1]);
    }
  }

  lemma ArriveAtKeepsDerived(mail: Mail, s: State, live: set<Hash>, hash: Hash, inbox: Inbox)
    requires Derived(mail, s)
    ensures Derived(mail, ArriveAt(mail, s, live, hash, inbox))
  {
    hide StoredExpiration;
  }

  /** An item that is consumed again while a row of it is there derives that row again. */
  lemma RepeatedArrivalRepeatsRow(mail: Mail, s: State, live: set<Hash>, hash: Hash)
    requires Sound(s, live) && Derived(mail, s) && Repeats(s, hash)
    ensures !NoDuplicates(Arrive(mail, s, live + {hash}, hash, |s.inboxes|).derivations)
  {
    var r :| r in s.derivations && r.from == hash;
    var i := InboxOfRow(s, live, r);
    assert live + {hash} == live;
    assert mail.open(r.from.payload, r.key.inbox) == Sealed(r.key.id.plaintext);
    hide Sound, ArriveAt, Derived, NoDuplicates, Arrive;
    RepeatedAt(mail, s, live, r, i);
    ArrivalOnlyAdds(mail, s, live, hash, i + 1, |s.inboxes|);
    PrefixRepeats(Arrive(mail, s, live, hash, i + 1).derivations, Arrive(mail, s, live, hash, |s.inboxes|).derivations);
  }

  lemma InboxOfRow(s: State, live: set<Hash>, r: Row) returns (i: nat)
    requires Sound(s, live) && r in s.derivations
    ensures i < |s.inboxes| && s.inboxes[i].id == r.key.inbox && r.from in live
  {
    var m :| m in s.messages && m.key == r.key;
    var inbox :| inbox in s.inboxes && inbox.id == r.key.inbox;
    i :| 0 <= i < |s.inboxes| && s.inboxes[i] == inbox;
  }

  lemma PrefixRepeats(rows: seq<Row>, longer: seq<Row>)
    requires !NoDuplicates(rows) && rows <= longer
    ensures !NoDuplicates(longer)
  {
    var i, j :| 0 <= i < j < |rows| && rows[i] == rows[j];
    assert longer[i] == longer[j];
  }

  lemma RepeatedAt(mail: Mail, s: State, live: set<Hash>, r: Row, i: nat)
    requires i < |s.inboxes| && s.inboxes[i].id == r.key.inbox && r.from in live
    requires r in s.derivations && mail.open(r.from.payload, r.key.inbox) == Sealed(r.key.id.plaintext)
    ensures !NoDuplicates(Arrive(mail, s, live, r.from, i + 1).derivations)
  {
    hide ArriveAt, NoDuplicates;
    var u := Arrive(mail, s, live, r.from, i);
    var k :| 0 <= k < |s.derivations| && s.derivations[k] == r;
    assert u.derivations[k] == r;
    RepeatedRow(mail, u, live, r, s.inboxes[i]);
  }

  lemma RepeatedRow(mail: Mail, u: State, live: set<Hash>, r: Row, inbox: Inbox)
    requires r in u.derivations && r.from in live && inbox.id == r.key.inbox
    requires mail.open(r.from.payload, inbox.id) == Sealed(r.key.id.plaintext)
    ensures !NoDuplicates(ArriveAt(mail, u, live, r.from, inbox).derivations)
  {
    var t := ArriveAt(mail, u, live, r.from, inbox);
    assert r in RowsFor(u.derivations, r.key);
    var i :| 0 <= i < |u.derivations| && u.derivations[i] == r;
    assert t.derivations[i] == t.derivations[|u.derivations|];
  }

  lemma {:induction false} ArrivalOnlyAdds(mail: Mail, s: State, live: set<Hash>, hash: Hash, m: nat, n: nat)
    requires m <= n <= |s.inboxes|
    ensures Arrive(mail, s, live, hash, m).derivations <= Arrive(mail, s, live, hash, n).derivations
  {
    hide ArriveAt;
    if m < n {
      ArrivalOnlyAdds(mail, s, live, hash, m, n - 1);
    }
  }

  // ---------------------------------------------------------------- departures

  /** The row is the only one that holds its message exactly when the count taken before its removal is one. */
  lemma {:induction false} CountIsExact(rows: seq<Row>, row: Row)
    requires NoDuplicates(rows) && row in rows
    ensures |RowsFor(rows, row.key)| <= 1 <==> forall r :: r in rows && r.key == row.key ==> r == row
  {
    var kept := RowsFor(rows, row.key);
    var i :| 0 <= i < |kept| && kept[i] == row;
    if |kept| > 1 {
      var other := kept[if i == 0 then 1 else 0];
      assert other in kept && other != row;
    } else {
      assert forall r :: r in kept ==> r == row;
    }
  }

  /** What is kept between any two removals. */
  ghost predicate Holds(s: State, live: set<Hash>) {
    Sound(s, live) && Unique(s.messages) && Truthful(s)
  }

  ghost predicate ExpiresFirst(s: State, row: Row) {
    forall r :: r in s.derivations ==> row.from.expirationTime <= r.from.expirationTime
  }

  lemma MessageOfIsTheMessage(messages: seq<MessageRow>, m: MessageRow)
    requires Unique(messages) && m in messages
    ensures MessageOf(messages, m.key) == Some(m)
  {
  }

  lemma DroppingOneOfSeveral(s: State, t: State, live: set<Hash>, row: Row)
    requires Sound(s, live)
    requires t.derivations == WithoutRow(s.derivations, row) && t.messages == s.messages && t.inboxes == s.inboxes
    requires forall m :: m in s.messages && m.key == row.key && !m.saved ==>
                           exists r :: r in s.derivations && r.key == row.key && r != row
    ensures Sound(t, live)
  {
    hide WithoutRow;
    forall m | m in t.messages && !m.saved ensures HasRow(t, m.key) {
      assert HasRow(s, m.key);
      var r :| r in s.derivations && r.key == m.key && r != row;
      assert r in t.derivations;
    }
  }

  lemma DroppingTheLast(s: State, t: State, live: set<Hash>, row: Row)
    requires Sound(s, live)
    requires t.derivations == WithoutRow(s.derivations, row) && t.inboxes == s.inboxes
    requires t.messages == WithoutMessage(s.messages, row.key)
    requires forall r :: r in s.derivations && r.key == row.key ==> r == row
    ensures Sound(t, live)
  {
    hide WithoutRow, WithoutMessage, Unique;
    forall r | r in t.derivations ensures HasMessage(t, r.key) {
      var m :| m in s.messages && m.key == r.key;
      assert m in t.messages;
    }
    forall m | m in t.messages && !m.saved ensures HasRow(t, m.key) {
      var r :| r in s.derivations && r.key == m.key;
      assert r in t.derivations;
    }
  }

  lemma DropRowKeepsSound(s: State, live: set<Hash>, row: Row)
    requires Sound(s, live) && Unique(s.messages) && row in s.derivations
    ensures Sound(DropRow(s, row), live) && Unique(DropRow(s, row).messages)
  {
    var t := DropRow(s, row);
    CountIsExact(s.derivations, row);
    var held :| held in s.messages && held.key == row.key;
    MessageOfIsTheMessage(s.messages, held);
    if t.messages != s.messages {
      hide Sound, Unique, MessageOf, RowsFor;
      DroppingTheLast(s, t, live, row);
    } else {
      forall m | m in s.messages && m.key == row.key && !m.saved
        ensures exists r :: r in s.derivations && r.key == row.key && r != row
      {
        MessageOfIsTheMessage(s.messages, m);
        StillThere(s, row, m);
      }
      hide Sound, Unique, MessageOf, RowsFor;
      DroppingOneOfSeveral(s, t, live, row);
    }
  }

  /** An unsaved message survives the removal of one of its rows only if it has another. */
  lemma StillThere(s: State, row: Row, m: MessageRow)
    requires MessageOf(s.messages, row.key) == Some(m) && !m.saved
    requires NoDuplicates(s.derivations) && row in s.derivations
    requires DropRow(s, row).messages == s.messages
    ensures exists r :: r in s.derivations && r.key == row.key && r != row
  {
    CountIsExact(s.derivations, row);
    assert m in s.messages && m !in WithoutMessage(s.messages, row.key);
  }

  /** The row that expires first is not what makes an expiration the latest, unless all expire with it. */
  lemma LatestWithoutFirst(s: State, t: State, row: Row, key: Key, time: int)
    requires ExpiresFirst(s, row) && IsLatest(s.derivations, key, time)
    requires forall r :: r in t.derivations <==> r in s.derivations && r != row
    requires HasRow(t, key)
    ensures IsLatest(t.derivations, key, time)
  {
  }

  lemma DropRowAnnounces(s: State, row: Row, key: Key)
    requires NoDuplicates(s.derivations) && row in s.derivations && HasRow(DropRow(s, row), key)
    ensures Announced(DropRow(s, row).events, key) == Announced(s.events, key)
  {
    var r :| r in DropRow(s, row).derivations && r.key == key;
    CountIsExact(s.derivations, row);
    AnnouncedAfter(s.events, MessageExpired(row.key), key);
    hide MessageOf, RowsFor, NoDuplicates, WithoutRow, WithoutMessage;
  }

  lemma DropRowKeepsTruthful(s: State, row: Row)
    requires NoDuplicates(s.derivations) && Truthful(s) && row in s.derivations && ExpiresFirst(s, row)
    ensures Truthful(DropRow(s, row))
  {
    var t := DropRow(s, row);
    DropRowChanges(s, row);
    forall key | HasRow(t, key)
      ensures Announced(t.events, key).Some? && IsLatest(t.derivations, key, Announced(t.events, key).value)
    {
      assert HasRow(s, key);
      DropRowAnnounces(s, row, key);
      LatestWithoutFirst(s, t, row, key, Announced(s.events, key).value);
    }
    hide DropRow, NoDuplicates, ExpiresFirst, HasRow, IsLatest;
  }

  /** `t` is `s` without the given rows. */
  ghost predicate Dropped(s: State, t: State, live: set<Hash>, rows: seq<Row>) {
    && Holds(t, live)
    && t.inboxes == s.inboxes && t.inboxExpiration == s.inboxExpiration
    && (forall r :: r in t.derivations <==> r in s.derivations && r !in rows)
    && (forall m :: m in t.messages ==> m in s.messages)
  }

  lemma DropRowChanges(s: State, row: Row)
    ensures var t := DropRow(s, row);
            && (forall r :: r in t.derivations <==> r in s.derivations && r != row)
            && (forall m :: m in t.messages ==> m in s.messages)
  {
  }

  lemma {:induction false} DropRowsKeeps(s: State, live: set<Hash>, rows: seq<Row>)
    requires Holds(s, live) && NoDuplicates(rows)
    requires forall r :: r in rows ==> r in s.derivations && ExpiresFirst(s, r)
    ensures Dropped(s, DropRows(s, rows), live, rows)
  {
    if rows != [] {
      var before, row := rows[..|rows| - 1], rows[|rows| - 1];
      DropRowsKeeps(s, live, before);
      assert forall r :: r in rows <==> r in before || r == row;
      assert row !in before;
      DroppingAdvances(s, DropRows(s, before), live, before, rows, row);
      hide DropRow, Dropped, Holds;
    }
  }

  lemma DroppingAdvances(s: State, u: State, live: set<Hash>, before: seq<Row>, rows: seq<Row>, row: Row)
    requires Dropped(s, u, live, before)
    requires row in s.derivations && row !in before && ExpiresFirst(s, row)
    requires forall r :: r in rows <==> r in before || r == row
    ensures Dropped(s, DropRow(u, row), live, rows)
  {
    DropRowKeepsSound(u, live, row);
    DropRowKeepsTruthful(u, row);
    DropRowChanges(u, row);
    hide DropRow, Sound, Truthful, Unique;
  }

  lemma {:induction false} DistinctCounts(rows: seq<Row>)
    ensures NoDuplicates(rows) <==> forall r :: multiset(rows)[r] <= 1
  {
    if rows != [] {
      var before, last := rows[..|rows| - 1], rows[|rows| - 1];
      DistinctCounts(before);
      assert rows == before + [last];
      assert multiset(rows) == multiset(before) + multiset{last};
      if NoDuplicates(rows) {
        assert last !in before;
      } else if NoDuplicates(before) {
        var i, j :| 0 <= i < j < |rows| && rows[i] == rows[j];
        assert last in before;
        assert multiset(rows)[last] == multiset(before)[last] + 1;
      } else {
        var r :| multiset(before)[r] > 1;
        assert multiset(rows)[r] > 1;
      }
    }
  }

  /** Over distinct rows a cursor repeats none. */
  lemma CursorIsDistinct(rows: seq<Row>, hash: Hash, cursor: seq<Row>)
    requires NoDuplicates(rows) && Yields(rows, hash, cursor)
    ensures NoDuplicates(cursor)
  {
    DistinctCounts(rows);
    DistinctCounts(cursor);
    assert forall r :: multiset(cursor)[r] <= multiset(rows)[r];
  }

  lemma DepartingExpireFirst(s: State, live: set<Hash>, hash: Hash, cursor: seq<Row>)
    requires Sound(s, live) && Inventory.InOrder(live, Inventory.Purge(hash)) && Yields(s.derivations, hash, cursor)
    ensures NoDuplicates(cursor)
    ensures forall r :: r in cursor ==> r in s.derivations && ExpiresFirst(s, r)
  {
    CursorIsDistinct(s.derivations, hash, cursor);
    hide NoDuplicates;
  }

  /** A purge in order of expiry, whatever the order of its cursor, takes the item's rows away, with every
      unsaved message that nothing else holds, and leaves what was announced about the others true. */
  lemma DepartureKeepsInvariant(s: State, live: set<Hash>, hash: Hash, cursor: seq<Row>)
    requires Holds(s, live) && Inventory.InOrder(live, Inventory.Purge(hash)) && Yields(s.derivations, hash, cursor)
    ensures Holds(DropRows(s, cursor), live - {hash})
    ensures forall r :: r in DropRows(s, cursor).derivations <==> r in s.derivations && r.from != hash
  {
    DepartingExpireFirst(s, live, hash, cursor);
    DropRowsKeeps(s, live, cursor);
  }

  // ---------------------------------------------------------------- commands

  lemma SavedKeeps(s: State, live: set<Hash>, key: Key)
    requires Holds(s, live)
    ensures Holds(Saved(s, key), live)
  {
  }

  lemma FlaggedKeeps(s: State, live: set<Hash>, key: Key, saved: bool)
    requires Holds(s, live) && (saved || HasRow(s, key))
    ensures Holds(s.(messages := Flagged(s.messages, key, saved)), live)
  {
    var t := s.(messages := Flagged(s.messages, key, saved));
    forall k ensures HasMessage(t, k) <==> HasMessage(s, k) {
      if HasMessage(s, k) {
        var i :| 0 <= i < |s.messages| && s.messages[i].key == k;
        assert t.messages[i] in t.messages;
      }
    }
    assert forall k :: HasRow(t, k) <==> HasRow(s, k);
  }

  lemma UnsavedKeeps(s: State, live: set<Hash>, key: Key)
    requires Holds(s, live)
    ensures Holds(Unsaved(s, key), live)
    ensures !HasRow(s, key) ==> !HasMessage(Unsaved(s, key), key)
  {
    hide RowsFor, WithoutMessage;
    var t := Unsaved(s, key);
    if RowsFor(s.derivations, key) != [] {
      assert RowsFor(s.derivations, key)[0] in RowsFor(s.derivations, key);
      FlaggedKeeps(s, live, key, false);
    } else {
      assert forall r :: r in s.derivations ==> r.key != key by {
        assert forall r :: r in s.derivations && r.key == key ==> r in RowsFor(s.derivations, key);
      }
      forall r | r in t.derivations ensures HasMessage(t, r.key) {
        var m :| m in s.messages && m.key == r.key;
        assert m in t.messages;
      }
      forall k | HasRow(t, k)
        ensures Announced(t.events, k).Some? && IsLatest(t.derivations, k, Announced(t.events, k).value)
      {
        assert HasRow(s, k);
        AnnouncedAfter(s.events, MessageExpired(key), k);
      }
    }
  }

  lemma SameTablesKeep(s: State, t: State, live: set<Hash>)
    requires Holds(s, live)
    requires t.messages == s.messages && t.derivations == s.derivations && t.events == s.events
    requires Distinct(t.inboxes) && forall i :: i in s.inboxes ==> HasInbox(t, i.id)
    ensures Holds(t, live)
  {
  }

  lemma InboxAddedKeeps(s: State, live: set<Hash>, inbox: InboxId)
    requires Holds(s, live) && !HasInbox(s, inbox)
    ensures Holds(InboxAdded(s, inbox), live)
  {
  }

  lemma AutosaveSetKeeps(s: State, live: set<Hash>, inbox: InboxId, autosave: bool)
    requires Holds(s, live)
    ensures Holds(AutosaveSet(s, inbox, autosave), live)
    ensures forall id :: HasInbox(AutosaveSet(s, inbox, autosave), id) <==> HasInbox(s, id)
    ensures forall i :: i in AutosaveSet(s, inbox, autosave).inboxes ==>
                          if i.id == inbox then i.autosave == autosave else i in s.inboxes
  {
    var t := AutosaveSet(s, inbox, autosave);
    forall i | i in s.inboxes ensures HasInbox(t, i.id) {
      var n :| 0 <= n < |s.inboxes| && s.inboxes[n] == i;
      assert t.inboxes[n] in t.inboxes;
    }
    SameTablesKeep(s, t, live);
  }

  /** Rows of other inboxes, and only those, survive the deletion of an inbox. */
  lemma InboxDeletedKeeps(s: State, live: set<Hash>, inbox: InboxId)
    requires Holds(s, live)
    ensures Holds(InboxDeleted(s, inbox), live)
    ensures forall key: Key :: HasMessage(InboxDeleted(s, inbox), key) <==> HasMessage(s, key) && key.inbox != inbox
    ensures forall key: Key :: HasRow(InboxDeleted(s, inbox), key) <==> HasRow(s, key) && key.inbox != inbox
    ensures forall id :: HasInbox(InboxDeleted(s, inbox), id) <==> HasInbox(s, id) && id != inbox
  {
    var t := InboxDeleted(s, inbox);
    forall key: Key ensures HasMessage(t, key) <==> HasMessage(s, key) && key.inbox != inbox {
      assert forall m :: m in s.messages && m.key.inbox != inbox ==> m in t.messages;
    }
    forall key: Key ensures HasRow(t, key) <==> HasRow(s, key) && key.inbox != inbox {
      assert forall r :: r in s.derivations && r.key.inbox != inbox ==> r in t.derivations;
    }
    forall id ensures HasInbox(t, id) <==> HasInbox(s, id) && id != inbox {
      assert forall i :: i in s.inboxes && i.id != inbox ==> i in t.inboxes;
    }
    InboxDeletedTables(s, t, live, inbox);
  }

  lemma InboxDeletedTables(s: State, t: State, live: set<Hash>, inbox: InboxId)
    requires Holds(s, live) && t == InboxDeleted(s, inbox)
    requires forall key: Key :: HasMessage(t, key) <==> HasMessage(s, key) && key.inbox != inbox
    requires forall key: Key :: HasRow(t, key) <==> HasRow(s, key) && key.inbox != inbox
    requires forall id :: HasInbox(t, id) <==> HasInbox(s, id) && id != inbox
    ensures Holds(t, live)
  {
    forall key | HasRow(t, key)
      ensures Announced(t.events, key).Some? && IsLatest(t.derivations, key, Announced(t.events, key).value)
    {
      assert forall r :: r in s.derivations && r.key == key <==> r in t.derivations && r.key == key;
    }
  }

  // ---------------------------------------------------------------- what a dump relies on

  /** Every stored plaintext is one that was parsed when it arrived. */
  ghost predicate Parsable(mail: Mail, s: State) {
    forall m :: m in s.messages ==> mail.parse(m.key.id.plaintext).Some?
  }

  /** Expirations are known only of inboxes that are there. */
  ghost predicate Dated(s: State) {
    forall id :: id in s.inboxExpiration ==> HasInbox(s, id)
  }

  lemma ArriveAtKeepsLegible(mail: Mail, s: State, live: set<Hash>, hash: Hash, inbox: Inbox)
    requires Parsable(mail, s) && Dated(s) && inbox in s.inboxes
    ensures Parsable(mail, ArriveAt(mail, s, live, hash, inbox)) && Dated(ArriveAt(mail, s, live, hash, inbox))
  {
    assert HasInbox(s, inbox.id);
    hide StoredExpiration;
  }

  lemma {:induction false} ArrivalKeepsLegible(mail: Mail, s: State, live: set<Hash>, hash: Hash, n: nat)
    requires n <= |s.inboxes| && Parsable(mail, s) && Dated(s)
    ensures Parsable(mail, Arrive(mail, s, live, hash, n)) && Dated(Arrive(mail, s, live, hash, n))
  {
    hide ArriveAt, Parsable, Dated;
    if n > 0 {
      ArrivalKeepsLegible(mail, s, live, hash, n - 1);
      ArriveAtKeepsLegible(mail, Arrive(mail, s, live, hash, n - 1), live, hash, s.inboxes[n - 1]);
    }
  }

  lemma {:induction false} DropRowsKeepsLegible(mail: Mail, s: State, rows: seq<Row>)
    requires Parsable(mail, s) && Dated(s)
    ensures Parsable(mail, DropRows(s, rows)) && Dated(DropRows(s, rows))
  {
    if rows != [] {
      var u := DropRows(s, rows[..|rows| - 1]);
      DropRowsKeepsLegible(mail, s, rows[..|rows| - 1]);
      DropRowChanges(u, rows[|rows| - 1]);
      assert forall id :: HasInbox(DropRow(u, rows[|rows| - 1]), id) <==> HasInbox(u, id);
      hide DropRow, HasInbox;
    }
  }
}
