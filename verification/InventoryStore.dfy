/** The inventory as the tasks of a node share it: every index is a field that the commands update in
    place, and every change of the live set is sent down the mutation channel. */
module InventoryStore {
  import opened Wrappers
  import opened Inventory

  /** Halfway through the stored rows: the state as it would be if the `pending` ones were not there. */
  function Loaded(s: State, pending: set<Hash>): State {
    s.(table := s.table - pending)
  }

  function LoadRow(s: State, hash: Hash): State
    requires hash in s.table
  {
    AddHash(s.(counter := s.counter + 1), hash, s.counter + 1, s.table[hash].expirationTime)
  }

  /** Numbering one more stored row is inserting it. */
  lemma LoadingIsInserting(s: State, pending: set<Hash>, hash: Hash)
    requires hash in pending && hash in s.table && MessageHash(s.table[hash]) == hash
    ensures Loaded(LoadRow(s, hash), pending - {hash}) == Inserted(Loaded(s, pending), s.table[hash])
  {
  }

  lemma LoadingKeepsBijective(s: State, pending: set<Hash>, hash: Hash)
    requires Bijective(Loaded(s, pending))
    requires hash in pending && hash in s.table && MessageHash(s.table[hash]) == hash
    ensures Bijective(Loaded(LoadRow(s, hash), pending - {hash}))
    ensures LoadRow(s, hash).Live() == s.Live() + {hash}
  {
    LoadingIsInserting(s, pending, hash);
    assert hash !in Loaded(s, pending).Live() by {
      assert hash !in Loaded(s, pending).table;
    }
    InsertKeepsBijectiveIffFresh(Loaded(s, pending), s.table[hash]);
  }

  /** What numbering the stored rows keeps while some are `pending`. */
  ghost predicate Loading(s: State, pending: set<Hash>, log: seq<Mutation>) {
    && pending <= s.table.Keys
    && (forall h :: h in s.table ==> MessageHash(s.table[h]) == h)
    && Bijective(Loaded(s, pending))
    && Replay(log) == s.Live()
    && Orderly(log)
    && s.counter + |pending| == |s.table.Keys|
  }

  lemma LoadingStarts(table: map<Hash, Message>)
    requires forall h :: h in table ==> MessageHash(table[h]) == h
    ensures Loading(EMPTY.(table := table), table.Keys, [])
  {
    assert Loaded(EMPTY.(table := table), table.Keys) == EMPTY by {
      assert table - table.Keys == map[];
    }
  }

  lemma LoadingAdvances(s: State, pending: set<Hash>, log: seq<Mutation>, hash: Hash)
    requires Loading(s, pending, log)
    requires hash in pending
    ensures Loading(LoadRow(s, hash), pending - {hash}, log + [Insert(hash)])
  {
    hide Bijective, Loaded, Orderly;
    LoadingKeepsBijective(s, pending, hash);
    ReplaySnoc(log, Insert(hash));
  }

  lemma LoadingEnds(s: State, log: seq<Mutation>)
    requires Loading(s, {}, log)
    ensures Bijective(s)
    ensures Replay(log) == s.Live() == s.table.Keys && Orderly(log) && s.counter == |s.table|
  {
    assert s.table - {} == s.table;
    assert Loaded(s, {}) == s;
    hide Loaded, Orderly;
  }

  /** Halfway through a sweep of `s0`: the hashes `gone`, removed in the order `removed`, are out of every
      index but the buckets, and the log accounts for them. */
  ghost predicate Sweeping(
    s0: State, log0: seq<Mutation>, s: State, log: seq<Mutation>, removed: seq<Hash>, gone: set<Hash>)
  {
    && gone <= s0.Live()
    && s == Without(s0, gone)
    && log == log0 + Purges(removed)
    && Schedule(removed, gone)
    && Replay(log) == s.Live()
    && Orderly(log)
  }

  lemma CountersOfOneMore(s: State, gone: set<Hash>, hash: Hash)
    requires hash in s.hashToCounter && hash !in gone
    ensures CountersOf(s, gone + {hash}) == CountersOf(s, gone) + {s.hashToCounter[hash]}
    ensures CountersOf(Without(s, gone), {hash}) == {s.hashToCounter[hash]}
  {
    var more, counters := CountersOf(s, gone + {hash}), CountersOf(s, gone);
    assert hash in gone + {hash} && hash in {hash};
    forall c | c in counters ensures c in more {
      var h :| h in gone && h in s.hashToCounter && s.hashToCounter[h] == c;
      assert h in gone + {hash};
    }
    forall c | c in more ensures c in counters + {s.hashToCounter[hash]} {
      var h :| h in gone + {hash} && h in s.hashToCounter && s.hashToCounter[h] == c;
      assert h in gone || h == hash;
    }
  }

  lemma RemovingOneMore(s: State, gone: set<Hash>, hash: Hash)
    requires hash in s.hashToCounter && hash !in gone
    ensures Without(Without(s, gone), {hash}) == Without(s, gone + {hash})
  {
  }

  lemma ScheduleSnoc(removed: seq<Hash>, gone: set<Hash>, hash: Hash)
    requires Schedule(removed, gone) && hash !in gone
    requires forall g :: g in gone ==> g.expirationTime <= hash.expirationTime
    ensures Schedule(removed + [hash], gone + {hash})
    ensures Purges(removed + [hash]) == Purges(removed) + [Purge(hash)]
  {
  }

  lemma SweepingAdvances(
    s0: State, log0: seq<Mutation>, s: State, log: seq<Mutation>, removed: seq<Hash>, gone: set<Hash>, hash: Hash)
    requires Sweeping(s0, log0, s, log, removed, gone)
    requires hash in s0.Live() && hash !in gone
    requires forall g :: g in gone ==> g.expirationTime <= hash.expirationTime
    requires forall g :: g in s0.Live() && g !in gone ==> hash.expirationTime <= g.expirationTime
    ensures Sweeping(s0, log0, Without(s, {hash}), log + [Purge(hash)], removed + [hash], gone + {hash})
  {
    LiveWithout(s0, gone);
    LiveWithout(s, {hash});
    hide Without, Orderly, Schedule;
    RemovingOneMore(s0, gone, hash);
    ScheduleSnoc(removed, gone, hash);
    ReplaySnoc(log, Purge(hash));
    assert log0 + Purges(removed) + [Purge(hash)] == log0 + (Purges(removed) + [Purge(hash)]);
    hide Purges, Replay;
  }

  lemma LiveWithout(s: State, gone: set<Hash>)
    ensures Without(s, gone).Live() == s.Live() - gone
  {
  }

  /** What a sweep up to `now` has removed before it visits the buckets `pending`. */
  function Visited(s: State, now: int, pending: set<int>): set<Hash> {
    set h | h in Due(s, now) && h.expirationTime !in pending
  }

  /** The pending buckets are the later ones. */
  ghost predicate Later(s: State, now: int, pending: set<int>) {
    && (forall t :: t in pending ==> t in s.expirationToHashes && t <= now)
    && (forall e, t :: e in s.expirationToHashes && e <= now && e !in pending && t in pending ==> e < t)
  }

  lemma LaterAdvances(s: State, now: int, pending: set<int>, time: int)
    requires Later(s, now, pending) && time in pending
    requires forall t :: t in pending ==> time <= t
    ensures Later(s, now, pending - {time})
  {
    forall e, t | e in s.expirationToHashes && e <= now && e !in pending - {time} && t in pending - {time}
      ensures e < t
    {
      assert e == time || e !in pending;
    }
  }

  /** ... and, of the earliest of them, all hashes but `todo`. */
  function VisitedBut(s: State, now: int, pending: set<int>, time: int, todo: set<Hash>): set<Hash> {
    Visited(s, now, pending) + (Bucket(s.expirationToHashes, time) - todo)
  }

  lemma VisitStarts(s: State, now: int, pending: set<int>, time: int)
    ensures VisitedBut(s, now, pending, time, Bucket(s.expirationToHashes, time)) == Visited(s, now, pending)
  {
  }

  lemma VisitEnds(s: State, now: int, pending: set<int>, time: int)
    requires Consistent(s) && Later(s, now, pending) && time in pending
    ensures VisitedBut(s, now, pending, time, {}) == Visited(s, now, pending - {time})
  {
  }

  /** When the earliest pending bucket is visited, its hashes are the next to go. */
  lemma VisitAdvances(s: State, now: int, pending: set<int>, time: int, todo: set<Hash>, hash: Hash)
    requires Consistent(s)
    requires Later(s, now, pending) && time in pending
    requires forall t :: t in pending ==> time <= t
    requires hash in todo && todo <= Bucket(s.expirationToHashes, time)
    ensures var gone := VisitedBut(s, now, pending, time, todo);
            && hash in s.Live() && hash !in gone
            && (forall g :: g in gone ==> g.expirationTime <= hash.expirationTime)
            && (forall g :: g in s.Live() && g !in gone ==> hash.expirationTime <= g.expirationTime)
            && gone + {hash} == VisitedBut(s, now, pending, time, todo - {hash})
  {
    assert hash in s.expirationToHashes[time];
    forall g | g in Visited(s, now, pending) ensures g.expirationTime <= time {
      assert g.expirationTime in s.expirationToHashes;
    }
  }

  lemma WithoutNothing(s: State)
    ensures Without(s, {}) == s
  {
  }

  lemma SweepingStarts(s: State, log: seq<Mutation>, now: int, pending: set<int>)
    requires Consistent(s) && Replay(log) == s.Live() && Orderly(log)
    requires pending == set e | e in s.expirationToHashes && e <= now
    ensures Sweeping(s, log, s, log, [], Visited(s, now, pending))
  {
    assert Visited(s, now, pending) == {};
    WithoutNothing(s);
    hide Consistent, Without, Orderly, Visited;
  }

  lemma StillIndexed(
    s0: State, log0: seq<Mutation>, s: State, log: seq<Mutation>, removed: seq<Hash>, gone: set<Hash>, hash: Hash)
    requires Sweeping(s0, log0, s, log, removed, gone)
    requires hash in s0.Live() && hash !in gone
    ensures hash in s.hashToCounter
  {
  }

  lemma SweepingEnds(
    s0: State, log0: seq<Mutation>, s: State, log: seq<Mutation>, removed: seq<Hash>, now: int,
    buckets: map<int, set<Hash>>)
    requires Consistent(s0)
    requires Sweeping(s0, log0, s, log, removed, Visited(s0, now, {}))
    requires buckets == map e | e in s0.expirationToHashes && e > now :: s0.expirationToHashes[e]
    ensures s.(expirationToHashes := buckets) == Purged(s0, now)
    ensures Consistent(Purged(s0, now))
    ensures Replay(log) == Purged(s0, now).Live() && Orderly(log)
    ensures log == log0 + Purges(removed) && Schedule(removed, Due(s0, now))
  {
    assert Visited(s0, now, {}) == Due(s0, now);
    PurgeKeepsConsistent(s0, now);
  }

  class Store {
    var counter: nat
    var counterToHash: map<nat, Hash>
    var expirationToHashes: map<int, set<Hash>>
    var hashToCounter: map<Hash, nat>
    var hashToExpiration: map<Hash, int>
    var table: map<Hash, Message>
    /** Everything sent so far to the consumer of mutations. */
    var mutations: seq<Mutation>

    function Contents(): State
      reads this
    {
      State(counter, counterToHash, expirationToHashes, hashToCounter, hashToExpiration, table)
    }

    /** The indexes agree, and whoever replays the mutations arrives at the live set. */
    ghost predicate Valid()
      reads this
    {
      Consistent(Contents()) && Replay(mutations) == Contents().Live() && Orderly(mutations)
    }

    /** A table from an earlier session, with the indexes still empty. */
    constructor (rows: map<Hash, Message>)
      ensures Contents() == EMPTY.(table := rows) && mutations == []
    {
      counter := 0;
      counterToHash, expirationToHashes := map[], map[];
      hashToCounter, hashToExpiration := map[], map[];
      table, mutations := rows, [];
    }

    method AddHash(hash: Hash, at: nat, expirationTime: int)
      modifies this
      ensures Contents() == Inventory.AddHash(old(Contents()), hash, at, expirationTime)
      ensures mutations == old(mutations)
    {
      counterToHash := counterToHash[at := hash];
      expirationToHashes :=
        expirationToHashes[expirationTime := Bucket(expirationToHashes, expirationTime) + {hash}];
      hashToCounter := hashToCounter[hash := at];
      hashToExpiration := hashToExpiration[hash := expirationTime];
    }

    method Load(hash: Hash)
      requires hash in table
      modifies this
      ensures Contents() == LoadRow(old(Contents()), hash)
      ensures mutations == old(mutations) + [Insert(hash)]
    {
      counter := counter + 1;
      AddHash(hash, counter, table[hash].expirationTime);
      mutations := mutations + [Insert(hash)];
    }

    /** Numbers the stored rows, in whatever order the table yields them. */
    method Populate()
      requires Contents() == EMPTY.(table := table) && mutations == []
      requires RowsAgree(Contents())
      modifies this
      ensures Valid() && Bijective(Contents())
      ensures table == old(table) && Contents().Live() == table.Keys
      ensures counter == |table|
    {
      var pending := table.Keys;
      LoadingStarts(table);
      hide Loading;
      hide Consistent;
      hide Orderly;
      while pending != {}
        invariant Loading(Contents(), pending, mutations)
        invariant pending <= table.Keys && table == old(table)
        decreases |pending|
      {
        var hash :| hash in pending;
        LoadingAdvances(Contents(), pending, mutations, hash);
        pending := pending - {hash};
        Load(hash);
      }
      LoadingEnds(Contents(), mutations);
    }

    /** A row that is already there stays as it is. */
    method PutRow(hash: Hash, message: Message)
      modifies this`table
      ensures table == if hash in old(table) then old(table) else old(table)[hash := message]
    {
      if hash !in table {
        table := table[hash := message];
      }
    }

    method InsertMessage(message: Message)
      requires Valid()
      modifies this
      ensures Valid()
      ensures Contents() == Inserted(old(Contents()), message)
      ensures mutations == old(mutations) + [Insert(MessageHash(message))]
    {
      InsertKeepsConsistent(Contents(), message);
      ReplaySnoc(mutations, Insert(MessageHash(message)));
      hide Inserted, Consistent, Orderly;
      Index(message);
      mutations := mutations + [Insert(MessageHash(message))];
    }

    method Index(message: Message)
      modifies this
      ensures Contents() == Inserted(old(Contents()), message)
      ensures mutations == old(mutations)
    {
      counter := counter + 1;
      AddHash(MessageHash(message), counter, message.expirationTime);
      PutRow(MessageHash(message), message);
    }

    /** Drops one hash from every index but its bucket. */
    method Remove(hash: Hash)
      requires hash in hashToCounter
      modifies this
      ensures Contents() == Without(old(Contents()), {hash})
      ensures mutations == old(mutations) + [Purge(hash)]
    {
      WithoutNothing(Contents());
      CountersOfOneMore(Contents(), {}, hash);
      counterToHash := counterToHash - {hashToCounter[hash]};
      hashToExpiration := hashToExpiration - {hash};
      hashToCounter := hashToCounter - {hash};
      table := table - {hash};
      mutations := mutations + [Purge(hash)];
    }

    /** Removes every message whose time has come, bucket by bucket in order of expiration time. */
    method PurgeExpired(now: int) returns (ghost removed: seq<Hash>)
      requires Valid()
      modifies this
      ensures Valid()
      ensures Contents() == Purged(old(Contents()), now)
      ensures mutations == old(mutations) + Purges(removed)
      ensures Schedule(removed, Due(old(Contents()), now))
    {
      ghost var s0, log0 := Contents(), mutations;
      var expirationTimes := set e | e in expirationToHashes && e <= now;
      removed := SweepBuckets(now, expirationTimes);
      ghost var swept := Contents();
      expirationToHashes := map e | e in expirationToHashes && e !in expirationTimes :: expirationToHashes[e];
      SweepingEnds(s0, log0, swept, mutations, removed, now, expirationToHashes);
    }

    method SweepBuckets(ghost now: int, expirationTimes: set<int>) returns (ghost removed: seq<Hash>)
      requires Valid()
      requires expirationTimes == set e | e in expirationToHashes && e <= now
      modifies this
      ensures expirationToHashes == old(expirationToHashes)
      ensures Sweeping(old(Contents()), old(mutations), Contents(), mutations, removed,
                       Visited(old(Contents()), now, {}))
    {
      ghost var s0, log0 := Contents(), mutations;
      var pending := expirationTimes;
      removed := [];
      SweepingStarts(s0, log0, now, pending);
      assert Later(s0, now, pending);
      hide Sweeping, Consistent, Orderly, Visited, Later;
      while pending != {}
        invariant expirationToHashes == s0.expirationToHashes
        invariant pending <= expirationTimes && Later(s0, now, pending)
        invariant Sweeping(s0, log0, Contents(), mutations, removed, Visited(s0, now, pending))
        decreases |pending|
      {
        LeastExists(pending);
        var time :| time in pending && forall t :: t in pending ==> time <= t;
        removed := SweepBucket(now, pending, time, s0, log0, removed);
        LaterAdvances(s0, now, pending, time);
        pending := pending - {time};
      }
    }

    method SweepBucket(
      ghost now: int, ghost pending: set<int>, time: int,
      ghost s0: State, ghost log0: seq<Mutation>, ghost before: seq<Hash>)
      returns (ghost removed: seq<Hash>)
      requires Consistent(s0) && expirationToHashes == s0.expirationToHashes
      requires Later(s0, now, pending) && time in pending
      requires forall t :: t in pending ==> time <= t
      requires Sweeping(s0, log0, Contents(), mutations, before, Visited(s0, now, pending))
      modifies this
      ensures expirationToHashes == old(expirationToHashes)
      ensures Sweeping(s0, log0, Contents(), mutations, removed, Visited(s0, now, pending - {time}))
    {
      removed := before;
      var todo := expirationToHashes[time];
      VisitStarts(s0, now, pending, time);
      hide Sweeping, Consistent, Orderly, Later, VisitedBut, Schedule;
      while todo != {}
        invariant expirationToHashes == s0.expirationToHashes
        invariant todo <= Bucket(s0.expirationToHashes, time)
        invariant Sweeping(s0, log0, Contents(), mutations, removed, VisitedBut(s0, now, pending, time, todo))
        decreases |todo|
      {
        var hash :| hash in todo;
        VisitAdvances(s0, now, pending, time, todo, hash);
        StillIndexed(s0, log0, Contents(), mutations, removed, VisitedBut(s0, now, pending, time, todo), hash);
        if hash in hashToCounter {
          SweepingAdvances(
            s0, log0, Contents(), mutations, removed, VisitedBut(s0, now, pending, time, todo), hash);
          Remove(hash);
          removed := removed + [hash];
        }
        todo := todo - {hash};
      }
      VisitEnds(s0, now, pending, time);
    }

    /** The first entry past `cursor`, in order of arrival. */
    method GetOneAfterCounter(cursor: nat) returns (entry: Option<(Hash, nat)>)
      requires Consistent(Contents())
      ensures entry.None? <==> forall c :: c in counterToHash ==> c <= cursor
      ensures entry.None? ==> NextCounter(Contents(), cursor) == None
      ensures entry.Some? ==>
                && cursor < entry.value.1
                && entry.value.1 in counterToHash && counterToHash[entry.value.1] == entry.value.0
                && NextCounter(Contents(), cursor) == Some(entry.value.1)
                && forall c :: c in counterToHash && cursor < c ==> entry.value.1 <= c
    {
      var next := NextCounter(Contents(), cursor);
      match next {
        case None => entry := None;
        case Some(c) => entry := Some((counterToHash[c], c));
      }
    }

    method MessageExists(hash: Hash) returns (present: bool)
      ensures present <==> hash in Contents().Live()
    {
      present := hash in hashToCounter;
    }

    method GetExpirationTime(hash: Hash) returns (time: Option<int>)
      requires Consistent(Contents())
      ensures time == if hash in Contents().Live() then Some(hash.expirationTime) else None
    {
      time := if hash in hashToExpiration then Some(hashToExpiration[hash]) else None;
    }

    /** A live hash always finds its row, and the row is the message of that hash. */
    method GetMessage(hash: Hash) returns (message: Option<Message>)
      requires Consistent(Contents())
      ensures message.Some? <==> hash in Contents().Live()
      ensures message.Some? ==> message.value == table[hash] && MessageHash(message.value) == hash
    {
      message := if hash in table then Some(table[hash]) else None;
    }
  }
}
