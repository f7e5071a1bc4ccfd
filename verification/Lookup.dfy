/** Looking up public halves: a scan of the whole inventory by arrival, during which other tasks go on
    inserting and sweeping. */
module Lookup {
  import opened Wrappers
  import opened Inventory
  import opened InventoryStore
  import InventoryOrder

  /** What a payload says to someone who knows the first bytes of an identity, if anything. */
  type Reader<!T> = Bytes -> Option<T>

  /** `visited` lists the entries the scan was given so far, `inFlight` is the one whose row is still to be
      read, and `found` is what has been handed to the requester. */
  datatype Scan<T> = Scan(
    inventory: State, cursor: nat, visited: seq<(Hash, nat)>, inFlight: Option<Hash>, found: seq<T>, done: bool)

  datatype Event = Query | Fetch | Other(command: Command)

  function Start<T>(inventory: State): Scan<T> {
    Scan(inventory, 0, [], None, [], false)
  }

  predicate Possible<T>(s: Scan<T>, event: Event) {
    match event
    case Query => s.inFlight.None? && !s.done
    case Fetch => s.inFlight.Some?
    case Other(_) => true
  }

  function After<T>(read: Reader<T>, s: Scan<T>, event: Event): Scan<T>
    requires Possible(s, event)
  {
    match event
    case Query =>
      (match NextCounter(s.inventory, s.cursor)
       case Some(c) =>
         var hash := s.inventory.counterToHash[c];
         s.(cursor := c, visited := s.visited + [(hash, c)], inFlight := Some(hash))
       case None => s.(done := true))
    case Fetch =>
      var hash := s.inFlight.value;
      var heard := if hash in s.inventory.table then read(s.inventory.table[hash].payload) else None;
      s.(inFlight := None, found := if heard.Some? then s.found + [heard.value] else s.found)
    case Other(command) => s.(inventory := Apply(s.inventory, command))
  }

  // ---------------------------------------------------------------- what every event keeps

  ghost predicate Increasing(visited: seq<(Hash, nat)>) {
    forall i, j :: 0 <= i < j < |visited| ==> visited[i].1 < visited[j].1
  }

  ghost predicate Visits(visited: seq<(Hash, nat)>, h: Hash) {
    exists c :: (h, c) in visited
  }

  /** Everything live behind the cursor has been visited, and what it says has been reported. */
  ghost predicate Covered<T(!new)>(read: Reader<T>, s: Scan<T>) {
    forall h :: h in s.inventory.hashToCounter && s.inventory.hashToCounter[h] <= s.cursor ==>
                  && Visits(s.visited, h)
                  && (s.inFlight != Some(h) && read(h.payload).Some? ==> read(h.payload).value in s.found)
  }

  ghost predicate Honest<T(!new)>(read: Reader<T>, visited: seq<(Hash, nat)>, found: seq<T>) {
    forall x :: x in found ==> exists h :: Visits(visited, h) && read(h.payload) == Some(x)
  }

  ghost predicate Sound<T(!new)>(read: Reader<T>, s: Scan<T>) {
    && Consistent(s.inventory)
    && s.cursor <= s.inventory.counter
    && Increasing(s.visited)
    && (forall v :: v in s.visited ==> v.1 <= s.cursor)
    && (s.inFlight.Some? ==> Visits(s.visited, s.inFlight.value))
    && Covered(read, s)
    && Honest(read, s.visited, s.found)
  }

  lemma QueryKeepsSound<T(!new)>(read: Reader<T>, s: Scan<T>)
    requires Sound(read, s) && Possible(s, Query)
    ensures Sound(read, After(read, s, Query))
  {
    NextCounterIsExact(s.inventory, s.cursor);
    var t := After(read, s, Query);
    if !t.done {
      assert Consistent(t.inventory) && t.cursor <= t.inventory.counter;
      VisitIsAdded(s.visited, t.inFlight.value, t.cursor);
      EntriesUpTo(s.inventory, s.cursor, t.cursor);
      hide Consistent, Visits, Increasing, NextCounter;
    }
  }

  lemma VisitIsAdded(visited: seq<(Hash, nat)>, hash: Hash, c: nat)
    ensures forall h :: Visits(visited + [(hash, c)], h) <==> Visits(visited, h) || h == hash
    ensures Increasing(visited) && (forall v :: v in visited ==> v.1 < c) ==> Increasing(visited + [(hash, c)])
  {
    var longer := visited + [(hash, c)];
    assert (hash, c) in longer && forall v :: v in longer <==> v in visited || v == (hash, c);
    forall h ensures Visits(longer, h) <==> Visits(visited, h) || h == hash {
      if Visits(visited, h) {
        var d :| (h, d) in visited;
        assert (h, d) in longer;
      }
    }
  }

  /** Between a cursor and the entry after it nothing is live. */
  lemma EntriesUpTo(s: State, cursor: nat, c: nat)
    requires Consistent(s) && NextCounter(s, cursor) == Some(c)
    ensures forall h :: h in s.hashToCounter && s.hashToCounter[h] <= c ==>
                          s.hashToCounter[h] <= cursor || h == s.counterToHash[c]
  {
    forall h | h in s.hashToCounter ensures s.hashToCounter[h] in s.counterToHash {
    }
  }

  lemma FetchKeepsSound<T(!new)>(read: Reader<T>, s: Scan<T>)
    requires Sound(read, s) && Possible(s, Fetch)
    ensures Sound(read, After(read, s, Fetch))
  {
  }

  lemma OtherKeepsSound<T(!new)>(read: Reader<T>, s: Scan<T>, command: Command)
    requires Sound(read, s)
    ensures Sound(read, After(read, s, Other(command)))
  {
    hide Consistent, Apply, Honest, Increasing, Visits;
    CommandAddsOnlyAhead(s.inventory, command);
  }

  /** New arrivals get counters ahead of every cursor, also when the hash had arrived before. */
  lemma CommandAddsOnlyAhead(s: State, command: Command)
    requires Consistent(s)
    ensures var t := Apply(s, command);
            && Consistent(t)
            && s.counter <= t.counter
            && forall h :: h in t.hashToCounter && t.hashToCounter[h] <= s.counter ==>
                             h in s.hashToCounter && s.hashToCounter[h] == t.hashToCounter[h]
  {
    match command {
      case Add(message) => InsertKeepsConsistent(s, message);
      case Sweep(now) => PurgeKeepsConsistent(s, now);
    }
  }

  lemma EventKeepsSound<T(!new)>(read: Reader<T>, s: Scan<T>, event: Event)
    requires Sound(read, s) && Possible(s, event)
    ensures Sound(read, After(read, s, event))
  {
    match event {
      case Query => QueryKeepsSound(read, s);
      case Fetch => FetchKeepsSound(read, s);
      case Other(command) => OtherKeepsSound(read, s, command);
    }
  }

  // ---------------------------------------------------------------- whole scans

  /** Any interleaving of the scan with insertions and sweeps. */
  ghost predicate Interleaving<T(!new)>(read: Reader<T>, s: Scan<T>, events: seq<Event>, t: Scan<T>)
    decreases |events|
  {
    if events == [] then
      s == t
    else
      Possible(s, events[0]) && Interleaving(read, After(read, s, events[0]), events[1..], t)
  }

  lemma {:induction false} InterleavingKeepsSound<T(!new)>(read: Reader<T>, s: Scan<T>, events: seq<Event>, t: Scan<T>)
    requires Sound(read, s) && Interleaving(read, s, events, t)
    ensures Sound(read, t)
    decreases |events|
  {
    if events != [] {
      EventKeepsSound(read, s, events[0]);
      InterleavingKeepsSound(read, After(read, s, events[0]), events[1..], t);
    }
  }

  lemma StartIsSound<T(!new)>(read: Reader<T>, inventory: State)
    requires Consistent(inventory)
    ensures Sound(read, Start(inventory))
  {
  }

  /** When the query after an arbitrary interleaving comes back empty, every hash that is live at that
      moment was visited, in strictly increasing order of arrival, and whatever those hashes say was
      reported; nothing else was. */
  lemma ScanMissesNothing<T(!new)>(read: Reader<T>, inventory: State, events: seq<Event>, t: Scan<T>)
    requires Consistent(inventory)
    requires Interleaving(read, Start(inventory), events, t)
    requires Possible(t, Query) && After(read, t, Query).done
    ensures forall h :: h in t.inventory.Live() ==> Visits(t.visited, h)
    ensures forall h :: h in t.inventory.Live() && read(h.payload).Some? ==> read(h.payload).value in t.found
    ensures Increasing(t.visited)
    ensures Honest(read, t.visited, t.found)
  {
    StartIsSound(read, inventory);
    InterleavingKeepsSound(read, Start(inventory), events, t);
    assert t.inventory.Live() == t.inventory.hashToCounter.Keys;
    forall h | h in t.inventory.hashToCounter ensures t.inventory.hashToCounter[h] <= t.cursor {
      assert t.inventory.hashToCounter[h] in t.inventory.counterToHash;
    }
  }

  // ---------------------------------------------------------------- each once, in order

  function Say<T>(read: Reader<T>, hash: Hash): seq<T> {
    match read(hash.payload)
    case Some(value) => [value]
    case None => []
  }

  /** What a scan that visited these entries would report, were every row still there. */
  function Said<T>(read: Reader<T>, visited: seq<(Hash, nat)>): seq<T> {
    if visited == [] then [] else Said(read, visited[..|visited| - 1]) + Say(read, visited[|visited| - 1].0)
  }

  /** `part` is `whole` with some elements left out. */
  ghost predicate Within<T(!new)>(part: seq<T>, whole: seq<T>) {
    exists kept :: Picks(part, whole, kept)
  }

  /** `kept` gives the place of each element of `part` in `whole`, in order. */
  ghost predicate Picks<T>(part: seq<T>, whole: seq<T>, kept: seq<nat>) {
    && |kept| == |part|
    && (forall i :: 0 <= i < |part| ==> kept[i] < |whole| && whole[kept[i]] == part[i])
    && (forall i, j :: 0 <= i < j < |kept| ==> kept[i] < kept[j])
  }

  lemma PicksMore<T>(part: seq<T>, whole: seq<T>, kept: seq<nat>, more: seq<T>)
    requires Picks(part, whole, kept) && |more| <= 1
    ensures Picks(part, whole + more, kept)
    ensures Picks(part + more, whole + more, kept + seq(|more|, i requires 0 <= i < |more| => |whole|))
  {
  }

  /** What has been found so far is among what the entries visited say, but the one in flight, in order. */
  ghost predicate OnceInOrder<T(!new)>(read: Reader<T>, s: Scan<T>) {
    match s.inFlight
    case None => Within(s.found, Said(read, s.visited))
    case Some(hash) =>
      && s.visited != [] && s.visited[|s.visited| - 1].0 == hash
      && Within(s.found, Said(read, s.visited[..|s.visited| - 1]))
  }

  lemma EventKeepsOnceInOrder<T(!new)>(read: Reader<T>, s: Scan<T>, event: Event)
    requires OnceInOrder(read, s) && Possible(s, event)
    requires event.Fetch? ==> Consistent(s.inventory)
    ensures OnceInOrder(read, After(read, s, event))
  {
    var t := After(read, s, event);
    match event {
      case Query =>
        if !t.done || s.done {
          assert t.inFlight.Some? ==> t.visited[..|t.visited| - 1] == s.visited;
        }
      case Fetch =>
        var hash, before := s.inFlight.value, Said(read, s.visited[..|s.visited| - 1]);
        var kept :| Picks(s.found, before, kept);
        PicksMore(s.found, before, kept, Say(read, hash));
        assert Picks(s.found, Said(read, s.visited), kept);
        if t.found != s.found {
          assert t.found == s.found + Say(read, hash);
        }
        hide Picks;
      case Other(_) =>
    }
  }

  lemma {:induction false} InterleavingKeepsOnceInOrder<T(!new)>(
    read: Reader<T>, s: Scan<T>, events: seq<Event>, t: Scan<T>)
    requires Sound(read, s) && OnceInOrder(read, s) && Interleaving(read, s, events, t)
    ensures OnceInOrder(read, t)
    decreases |events|
  {
    if events != [] {
      EventKeepsSound(read, s, events[0]);
      EventKeepsOnceInOrder(read, s, events[0]);
      hide Sound, OnceInOrder, After;
      InterleavingKeepsOnceInOrder(read, After(read, s, events[0]), events[1..], t);
    }
  }

  /** Whatever goes on meanwhile, no entry is reported twice, and what is reported is in order of arrival. */
  lemma ScanReportsInOrder<T(!new)>(read: Reader<T>, inventory: State, events: seq<Event>, t: Scan<T>)
    requires Consistent(inventory)
    requires Interleaving(read, Start(inventory), events, t)
    ensures Within(t.found, Said(read, t.visited)) && Increasing(t.visited)
  {
    StartIsSound(read, inventory);
    var nothing: seq<T> := [];
    assert Picks(nothing, nothing, []);
    InterleavingKeepsSound(read, Start(inventory), events, t);
    InterleavingKeepsOnceInOrder(read, Start(inventory), events, t);
    if t.inFlight.Some? {
      var before := Said(read, t.visited[..|t.visited| - 1]);
      var kept :| Picks(t.found, before, kept);
      PicksMore(t.found, before, kept, Say(read, t.inFlight.value));
      assert Said(read, t.visited) == before + Say(read, t.inFlight.value);
      assert Picks(t.found, Said(read, t.visited), kept);
    }
  }

  /** The scan's own events that are still possible without a new arrival. */
  function Left<T>(s: Scan<T>): nat {
    2 * |Beyond(s.inventory, s.cursor)| + (if s.inFlight.Some? then 1 else 0) + (if s.done then 0 else 1)
  }

  function OwnEvents(events: seq<Event>): nat {
    if events == [] then 0 else (if events[0].Other? then 0 else 1) + OwnEvents(events[1..])
  }

  lemma EventLeavesLess<T(!new)>(read: Reader<T>, s: Scan<T>, event: Event)
    requires Sound(read, s) && Possible(s, event)
    requires !(event.Other? && event.command.Add?)
    ensures Left(After(read, s, event)) + (if event.Other? then 0 else 1) <= Left(s)
  {
    var t := After(read, s, event);
    match event {
      case Query =>
        NextCounterIsExact(s.inventory, s.cursor);
        if !t.done {
          assert t.cursor in Beyond(s.inventory, s.cursor);
        }
      case Fetch =>
      case Other(command) =>
        PurgeKeepsConsistent(s.inventory, command.now);
        SubsetIsNotLarger(Beyond(t.inventory, t.cursor), Beyond(s.inventory, s.cursor));
    }
  }

  /** Once insertions stop, the scan itself takes a bounded number of events, whatever else goes on. */
  lemma {:induction false} ScanTerminates<T(!new)>(read: Reader<T>, s: Scan<T>, events: seq<Event>, t: Scan<T>)
    requires Sound(read, s) && Interleaving(read, s, events, t)
    requires forall e :: e in events ==> !(e.Other? && e.command.Add?)
    ensures OwnEvents(events) <= Left(s)
    decreases |events|
  {
    if events != [] {
      assert events[0] in events;
      EventLeavesLess(read, s, events[0]);
      EventKeepsSound(read, s, events[0]);
      ScanTerminates(read, After(read, s, events[0]), events[1..], t);
    }
  }

  // ---------------------------------------------------------------- the command

  /** What the live entries past a cursor say, in order of arrival. */
  ghost function InOrder<T>(read: Reader<T>, s: State, cursor: nat): seq<T>
    requires Consistent(s)
    decreases if cursor <= s.counter then s.counter - cursor else 0
  {
    match NextCounter(s, cursor)
    case None => []
    case Some(c) =>
      var hash := s.counterToHash[c];
      (if hash in s.Live() then Say(read, hash) else []) + InOrder(read, s, c)
  }

  lemma FoundOneMore<T>(
    read: Reader<T>, s: State, cursor: nat, c: nat, found: seq<T>, more: seq<T>, all: seq<T>)
    requires Consistent(s) && NextCounter(s, cursor) == Some(c) && found + InOrder(read, s, cursor) == all
    requires more == found + (if s.counterToHash[c] in s.Live() then Say(read, s.counterToHash[c]) else [])
    ensures more + InOrder(read, s, c) == all
  {
  }

  lemma FoundAll<T(!new)>(read: Reader<T>, s: State, cursor: nat, found: seq<T>, all: seq<T>)
    requires Consistent(s) && NextCounter(s, cursor) == None && found + InOrder(read, s, cursor) == all
    requires Reported(read, s, cursor, found)
    ensures found == all
    ensures forall h :: h in s.Live() && read(h.payload).Some? ==> read(h.payload).value in found
  {
    assert forall h :: h in s.hashToCounter ==> s.hashToCounter[h] in s.counterToHash;
  }

  /** What the messages of a list say, in its order. */
  function InList<T>(read: Reader<T>, list: seq<Message>): seq<T> {
    if list == [] then [] else Say(read, MessageHash(list[0])) + InList(read, list[1..])
  }

  lemma {:induction false} InOrderFrom<T>(read: Reader<T>, s: State, list: seq<Message>, i: nat)
    requires Bijective(s) && InventoryOrder.Lists(s, list) && i <= |list|
    ensures InOrder(read, s, InventoryOrder.CursorBefore(s, list, i)) == InList(read, list[i..])
    decreases |list| - i
  {
    hide Bijective, NextCounter, Say, InOrder, InList, InventoryOrder.Lists;
    BijectiveIsConsistent(s);
    InventoryOrder.CursorIsBetween(s, list, i);
    hide Consistent;
    InventoryOrder.NextIsSuccessor(s, list, InventoryOrder.CursorBefore(s, list, i), i);
    InOrderUnfolds(read, s, InventoryOrder.CursorBefore(s, list, i));
    InListUnfolds(read, list, i);
    if i < |list| {
      ListedIsLive(s, list, i);
      InOrderFrom(read, s, list, i + 1);
    }
  }

  lemma BijectiveIsConsistent(s: State)
    requires Bijective(s)
    ensures Consistent(s)
  {
  }

  lemma ListedIsLive(s: State, list: seq<Message>, i: nat)
    requires InventoryOrder.Lists(s, list) && i < |list|
    ensures MessageHash(list[i]) in s.Live()
    ensures InventoryOrder.CursorBefore(s, list, i + 1) == InventoryOrder.CounterAt(s, list, i)
  {
    assert list[i] in list;
  }

  lemma InOrderUnfolds<T>(read: Reader<T>, s: State, cursor: nat)
    requires Consistent(s)
    ensures InOrder(read, s, cursor) ==
            match NextCounter(s, cursor)
            case None => []
            case Some(c) =>
              (if s.counterToHash[c] in s.Live() then Say(read, s.counterToHash[c]) else []) + InOrder(read, s, c)
  {
  }

  lemma InListUnfolds<T>(read: Reader<T>, list: seq<Message>, i: nat)
    requires i <= |list|
    ensures InList(read, list[i..]) ==
            if i < |list| then Say(read, MessageHash(list[i])) + InList(read, list[i + 1..]) else []
  {
    if i < |list| {
      assert list[i..][1..] == list[i + 1..];
    }
  }

  /** Where no entry is stale, that is what the stored messages say, each once, in the order they were stored. */
  lemma InOrderIsListed<T>(read: Reader<T>, s: State, list: seq<Message>)
    requires Bijective(s) && InventoryOrder.Lists(s, list)
    ensures InOrder(read, s, 0) == InList(read, list)
  {
    InOrderFrom(read, s, list, 0);
    assert list[0..] == list;
  }

  /** `found` is what the live payloads up to the arrival `upTo` say. */
  ghost predicate Reported<T(!new)>(read: Reader<T>, s: State, upTo: nat, found: seq<T>) {
    && (forall h :: h in s.hashToCounter && s.hashToCounter[h] <= upTo && read(h.payload).Some? ==>
                      read(h.payload).value in found)
    && (forall x :: x in found ==> exists h :: h in s.hashToCounter && read(h.payload) == Some(x))
  }

  lemma ReportedHonestly<T(!new)>(read: Reader<T>, s: State, upTo: nat, found: seq<T>)
    requires Reported(read, s, upTo, found)
    ensures forall x :: x in found ==> exists h :: h in s.Live() && read(h.payload) == Some(x)
  {
  }

  lemma ReportedAdvances<T(!new)>(read: Reader<T>, s: State, upTo: nat, c: nat, found: seq<T>, more: seq<T>)
    requires Consistent(s) && Reported(read, s, upTo, found) && NextCounter(s, upTo) == Some(c)
    requires var hash := s.counterToHash[c];
             more == if hash in s.table && read(hash.payload).Some? then found + [read(hash.payload).value] else found
    ensures Reported(read, s, c, more)
  {
    EntriesUpTo(s, upTo, c);
    var hash := s.counterToHash[c];
    assert s.hashToCounter.Keys == s.table.Keys;
    hide Consistent, NextCounter;
    assert forall x :: x in found ==> x in more;
    assert hash in s.table && read(hash.payload).Some? ==> more[|more| - 1] == read(hash.payload).value;
  }

  /** The command itself, with nothing interleaved: it reports what every live payload says, in order of arrival. */
  method LookupPublicHalf<T(!new)>(read: Reader<T>, store: Store) returns (found: seq<T>)
    requires Consistent(store.Contents())
    ensures forall h :: h in store.Contents().Live() && read(h.payload).Some? ==> read(h.payload).value in found
    ensures forall x :: x in found ==> exists h :: h in store.Contents().Live() && read(h.payload) == Some(x)
    ensures found == InOrder(read, store.Contents(), 0)
  {
    found := [];
    var counter := 0;
    assert Reported(read, store.Contents(), 0, []);
    ghost var all := InOrder(read, store.Contents(), 0);
    hide InOrder, Consistent, Reported;
    var next := store.GetOneAfterCounter(counter);
    while next.Some?
      invariant next.Some? ==>
                  && NextCounter(store.Contents(), counter) == Some(next.value.1)
                  && store.counterToHash[next.value.1] == next.value.0
      invariant next.None? ==> NextCounter(store.Contents(), counter) == None
      invariant Reported(read, store.Contents(), counter, found)
      invariant found + InOrder(read, store.Contents(), counter) == all
      decreases store.counter - counter
    {
      var hash := next.value.0;
      ghost var before, from := found, counter;
      counter := next.value.1;
      var message := store.GetMessage(hash);
      if message.Some? {
        var heard := read(message.value.payload);
        if heard.Some? {
          found := found + [heard.value];
        }
      }
      assert found == before + (if hash in store.Contents().Live() then Say(read, hash) else []);
      ReportedAdvances(read, store.Contents(), from, counter, before, found);
      FoundOneMore(read, store.Contents(), from, counter, before, found, all);
      next := store.GetOneAfterCounter(counter);
    }
    FoundAll(read, store.Contents(), counter, found, all);
    ReportedHonestly(read, store.Contents(), counter, found);
  }
}
