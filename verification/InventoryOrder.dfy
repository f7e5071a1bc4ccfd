/** The inventory as the ordered list of messages it stands for: reading it by arrival is reading the list. */
module InventoryOrder {
  import opened Wrappers
  import opened Inventory

  // ---------------------------------------------------------------- the list

  function Filtered(list: seq<Message>, keep: Message -> bool): (kept: seq<Message>)
    ensures forall m :: m in kept <==> m in list && keep(m)
    ensures (forall m :: m in list ==> keep(m)) ==> kept == list
  {
    if list == [] then
      []
    else
      var before, last := Filtered(list[..|list| - 1], keep), list[|list| - 1];
      assert list == list[..|list| - 1] + [last];
      if keep(last) then before + [last] else before
  }

  /** The message of that hash in the list, if there is one. */
  function Stored(list: seq<Message>, hash: Hash): (found: Option<Message>)
    ensures found.Some? ==> found.value in list && MessageHash(found.value) == hash
    ensures found.None? ==> forall m :: m in list ==> MessageHash(m) != hash
  {
    if list == [] then
      None
    else if MessageHash(list[0]) == hash then
      Some(list[0])
    else
      Stored(list[1..], hash)
  }

  function Without(list: seq<Message>, hash: Hash): (kept: seq<Message>)
    ensures forall m :: m in kept <==> m in list && MessageHash(m) != hash
  {
    Filtered(list, (m: Message) => MessageHash(m) != hash)
  }

  function Later(list: seq<Message>, now: int): (kept: seq<Message>)
    ensures forall m :: m in kept <==> m in list && m.expirationTime > now
  {
    Filtered(list, (m: Message) => m.expirationTime > now)
  }

  /** A message that is there already moves to the end, as it was first stored. */
  function ApplyToList(list: seq<Message>, command: Command): seq<Message> {
    match command
    case Add(message) =>
      var hash := MessageHash(message);
      var stored := Stored(list, hash);
      Without(list, hash) + [if stored.Some? then stored.value else message]
    case Sweep(now) => Later(list, now)
  }

  function RunOnList(list: seq<Message>, commands: seq<Command>): seq<Message>
    decreases |commands|
  {
    if commands == [] then list else RunOnList(ApplyToList(list, commands[0]), commands[1..])
  }

  // ---------------------------------------------------------------- the relation

  /** The messages in order of the counters they arrived under. */
  ghost predicate Ordered(list: seq<Message>, counters: map<Hash, nat>) {
    && (forall m :: m in list ==> MessageHash(m) in counters)
    && (forall i, j :: 0 <= i < j < |list| ==> counters[MessageHash(list[i])] < counters[MessageHash(list[j])])
  }

  /** The list has the rows of the table. */
  ghost predicate SameRows(table: map<Hash, Message>, list: seq<Message>) {
    && (forall m :: m in list ==> MessageHash(m) in table && table[MessageHash(m)] == m)
    && (forall h :: h in table ==> table[h] in list && MessageHash(table[h]) == h)
  }

  /** Exactly the live messages, each as it is stored, in order of arrival. */
  ghost predicate Lists(s: State, list: seq<Message>) {
    Ordered(list, s.hashToCounter) && s.hashToCounter.Keys == s.table.Keys && SameRows(s.table, list)
  }

  lemma OrderedSnoc(list: seq<Message>, m: Message, counters: map<Hash, nat>)
    ensures Ordered(list + [m], counters) <==>
            && Ordered(list, counters) && MessageHash(m) in counters
            && forall n :: n in list ==> counters[MessageHash(n)] < counters[MessageHash(m)]
  {
    var longer := list + [m];
    assert forall n :: n in longer <==> n in list || n == m;
    if Ordered(longer, counters) {
      assert forall i :: 0 <= i < |list| ==> longer[i] == list[i];
      forall n | n in list ensures counters[MessageHash(n)] < counters[MessageHash(m)] {
        var i :| 0 <= i < |list| && list[i] == n;
        assert counters[MessageHash(longer[i])] < counters[MessageHash(longer[|list|])];
      }
    }
  }

  /** A filter keeps the order, as long as what it keeps stays where it was. */
  lemma {:induction false} FilteredOrdered(
    list: seq<Message>, keep: Message -> bool, before: map<Hash, nat>, after: map<Hash, nat>)
    requires Ordered(list, before)
    requires forall m :: m in list && keep(m) ==>
                           MessageHash(m) in before && MessageHash(m) in after
                           && after[MessageHash(m)] == before[MessageHash(m)]
    ensures Ordered(Filtered(list, keep), after)
  {
    if list != [] {
      var init, last := list[..|list| - 1], list[|list| - 1];
      assert list == init + [last];
      hide Ordered, MessageHash;
      OrderedSnoc(init, last, before);
      FilteredOrdered(init, keep, before, after);
      OrderedSnoc(Filtered(init, keep), last, after);
    }
  }

  lemma AddKeepsOrder(s: State, list: seq<Message>, message: Message, last: Message)
    requires CountersAgree(s) && Ordered(list, s.hashToCounter) && MessageHash(last) == MessageHash(message)
    ensures Ordered(Without(list, MessageHash(message)) + [last], Inserted(s, message).hashToCounter)
  {
    var hash := MessageHash(message);
    var t := Inserted(s, message);
    assert t.hashToCounter == s.hashToCounter[hash := s.counter + 1];
    var kept := Without(list, hash);
    forall m | m in kept ensures t.hashToCounter[MessageHash(m)] <= s.counter {
      assert s.hashToCounter[MessageHash(m)] in s.counterToHash;
    }
    hide Inserted;
    FilteredOrdered(list, (m: Message) => MessageHash(m) != hash, s.hashToCounter, t.hashToCounter);
    hide Ordered;
    OrderedSnoc(kept, last, t.hashToCounter);
  }

  lemma AddKeepsRows(table: map<Hash, Message>, list: seq<Message>, message: Message)
    requires SameRows(table, list)
    ensures var hash := MessageHash(message);
            SameRows(if hash in table then table else table[hash := message], ApplyToList(list, Add(message)))
  {
    hide Stored, Without, MessageHash;
    var hash := MessageHash(message);
    var stored := Stored(list, hash);
    var kept := Without(list, hash);
    var last := if stored.Some? then stored.value else message;
    assert hash in table <==> stored.Some?;
    assert ApplyToList(list, Add(message)) == kept + [last];
    hide ApplyToList;
    assert forall m :: m in kept + [last] <==> m in kept || m == last;
  }

  lemma AddKeepsLists(s: State, list: seq<Message>, message: Message)
    requires Consistent(s) && Lists(s, list)
    ensures Lists(Inserted(s, message), ApplyToList(list, Add(message)))
  {
    var hash := MessageHash(message);
    var stored := Stored(list, hash);
    AddKeepsOrder(s, list, message, if stored.Some? then stored.value else message);
    AddKeepsRows(s.table, list, message);
    InsertChangesKeys(s, message);
    hide Ordered, SameRows, Consistent, Stored;
  }

  lemma SweepKeepsRows(table: map<Hash, Message>, list: seq<Message>, now: int, gone: set<Hash>)
    requires SameRows(table, list)
    requires forall h :: h in gone <==> h in table && h.expirationTime <= now
    ensures SameRows(table - gone, Later(list, now))
  {
    assert forall m: Message :: MessageHash(m).expirationTime == m.expirationTime;
    hide MessageHash;
  }

  lemma SweepKeepsLists(s: State, list: seq<Message>, now: int)
    requires Lists(s, list)
    ensures Lists(Purged(s, now), ApplyToList(list, Sweep(now)))
  {
    var t := Purged(s, now);
    assert t.hashToCounter == s.hashToCounter - Due(s, now) && t.table == s.table - Due(s, now);
    hide Purged;
    FilteredOrdered(list, (m: Message) => m.expirationTime > now, s.hashToCounter, t.hashToCounter);
    SweepKeepsRows(s.table, list, now, Due(s, now));
    hide Ordered, SameRows, Due;
  }

  // ---------------------------------------------------------------- whole runs

  /** Over every run, duplicates included, the inventory is the list that the same run makes of a list: the same
      messages as first stored, in order of their latest arrival. */
  lemma {:induction false} RunRefinesList(s: State, list: seq<Message>, commands: seq<Command>)
    requires Consistent(s) && Lists(s, list)
    ensures Consistent(Run(s, commands)) && Lists(Run(s, commands), RunOnList(list, commands))
    decreases |commands|
  {
    hide Consistent, Lists, Inserted, Purged, ApplyToList;
    if commands != [] {
      match commands[0] {
        case Add(message) =>
          InsertKeepsConsistent(s, message);
          AddKeepsLists(s, list, message);
        case Sweep(now) =>
          PurgeKeepsConsistent(s, now);
          SweepKeepsLists(s, list, now);
      }
      RunRefinesList(Apply(s, commands[0]), ApplyToList(list, commands[0]), commands[1..]);
    }
  }

  /** Insertions append and sweeps filter. */
  function Appending(list: seq<Message>, commands: seq<Command>): seq<Message>
    decreases |commands|
  {
    if commands == [] then
      list
    else
      match commands[0]
      case Add(message) => Appending(list + [message], commands[1..])
      case Sweep(now) => Appending(Later(list, now), commands[1..])
  }

  lemma FreshAddAppends(s: State, list: seq<Message>, message: Message)
    requires Lists(s, list) && MessageHash(message) !in s.Live()
    ensures ApplyToList(list, Add(message)) == list + [message]
  {
  }

  /** When every insertion of the run is fresh, the list only grows at its end. */
  lemma {:induction false} FreshRunAppends(s: State, list: seq<Message>, commands: seq<Command>)
    requires Consistent(s) && Lists(s, list) && FreshRun(s.Live(), commands)
    ensures RunOnList(list, commands) == Appending(list, commands)
    decreases |commands|
  {
    hide Consistent, Lists, Inserted, Purged;
    if commands != [] {
      match commands[0] {
        case Add(message) =>
          InsertKeepsConsistent(s, message);
          AddKeepsLists(s, list, message);
          FreshAddAppends(s, list, message);
        case Sweep(now) =>
          PurgeKeepsConsistent(s, now);
          SweepKeepsLists(s, list, now);
      }
      hide ApplyToList;
      FreshRunAppends(Apply(s, commands[0]), ApplyToList(list, commands[0]), commands[1..]);
    }
  }

  // ---------------------------------------------------------------- reading by arrival

  ghost function CounterAt(s: State, list: seq<Message>, i: nat): nat
    requires i < |list| && Lists(s, list)
  {
    s.hashToCounter[MessageHash(list[i])]
  }

  /** Where no entry is stale, a read from any cursor yields the first message of the list past it, and nothing
      exactly when there is none. */
  lemma NextIsSuccessor(s: State, list: seq<Message>, cursor: nat, i: nat)
    requires Bijective(s) && Lists(s, list) && i <= |list|
    requires forall j :: 0 <= j < i ==> CounterAt(s, list, j) <= cursor
    requires i < |list| ==> cursor < CounterAt(s, list, i)
    ensures NextCounter(s, cursor) == if i < |list| then Some(CounterAt(s, list, i)) else None
    ensures i < |list| ==> s.counterToHash[CounterAt(s, list, i)] == MessageHash(list[i])
  {
    NextCounterIsExact(s, cursor);
    if i < |list| {
      assert CounterAt(s, list, i) in Beyond(s, cursor);
    }
    if NextCounter(s, cursor).Some? {
      var c := NextCounter(s, cursor).value;
      PositionOf(s, list, c);
    }
    hide Consistent, NextCounter;
  }

  lemma PositionOf(s: State, list: seq<Message>, c: nat)
    requires Bijective(s) && Lists(s, list) && c in s.counterToHash
    ensures exists j :: 0 <= j < |list| && CounterAt(s, list, j) == c
  {
    assert Current(s, c);
    var j :| 0 <= j < |list| && list[j] == s.table[s.counterToHash[c]];
    assert CounterAt(s, list, j) == c;
  }

  /** Scanning by arrival from the start of a fresh run reads its messages in the order they were inserted: the
      `i`-th read, from the cursor the read before it left, yields the `i`-th message still there. */
  lemma ScanReadsList(commands: seq<Command>, i: nat)
    requires FreshRun({}, commands)
    ensures var s, list := Run(EMPTY, commands), Appending([], commands);
            && Bijective(s) && Lists(s, list)
            && (i <= |list| ==> NextCounter(s, CursorBefore(s, list, i)) ==
                                if i < |list| then Some(CounterAt(s, list, i)) else None)
  {
    var s, list := Run(EMPTY, commands), Appending([], commands);
    assert EMPTY.Live() == {};
    hide Run, Appending;
    RunRefinesList(EMPTY, [], commands);
    FreshRunAppends(EMPTY, [], commands);
    RunRefinesSet(EMPTY, commands);
    if i <= |list| {
      CursorIsBetween(s, list, i);
      hide Consistent, Lists;
      NextIsSuccessor(s, list, CursorBefore(s, list, i), i);
    }
  }

  /** The cursor that the read of the message before the `i`-th leaves behind. */
  ghost function CursorBefore(s: State, list: seq<Message>, i: nat): nat
    requires i <= |list| && Lists(s, list)
  {
    if i == 0 then 0 else CounterAt(s, list, i - 1)
  }

  lemma CursorIsBetween(s: State, list: seq<Message>, i: nat)
    requires i <= |list| && Lists(s, list) && Consistent(s)
    ensures forall j :: 0 <= j < i ==> CounterAt(s, list, j) <= CursorBefore(s, list, i)
    ensures i < |list| ==> CursorBefore(s, list, i) < CounterAt(s, list, i)
  {
    assert i < |list| ==> CounterAt(s, list, i) in s.counterToHash;
  }
}
