/** The inventory of one node, as a value: four in-memory indexes, the table on disk and the arrival
    counter, with the operations that read and change them. `InventoryStore` is the mutable counterpart. */
module Inventory {
  import opened Wrappers

  datatype Message = Message(payload: Bytes, nonce: int, expirationTime: int)

  /** The digest of a payload and an expiration time. The nonce does not take part. Distinct inputs have
      distinct digests, so the digest is its inputs. */
  datatype Hash = Digest(payload: Bytes, expirationTime: int)

  function MessageHash(message: Message): Hash {
    Digest(message.payload, message.expirationTime)
  }

  datatype Mutation = Insert(hash: Hash) | Purge(hash: Hash)

  datatype State = State(
    counter: nat,
    counterToHash: map<nat, Hash>,
    expirationToHashes: map<int, set<Hash>>,
    hashToCounter: map<Hash, nat>,
    hashToExpiration: map<Hash, int>,
    table: map<Hash, Message>
  ) {
    /** The hashes the node answers for when a peer asks whether a message exists. */
    function Live(): set<Hash> { hashToCounter.Keys }
  }

  const EMPTY := State(0, map[], map[], map[], map[], map[])

  // ---------------------------------------------------------------- operations

  function Bucket(buckets: map<int, set<Hash>>, time: int): set<Hash> {
    if time in buckets then buckets[time] else {}
  }

  function AddHash(s: State, hash: Hash, counter: nat, expirationTime: int): State {
    s.(counterToHash := s.counterToHash[counter := hash],
       expirationToHashes :=
         s.expirationToHashes[expirationTime := Bucket(s.expirationToHashes, expirationTime) + {hash}],
       hashToCounter := s.hashToCounter[hash := counter],
       hashToExpiration := s.hashToExpiration[hash := expirationTime])
  }

  /** Insertion never asks whether the hash is already there; only the table ignores a second row. */
  function Inserted(s: State, message: Message): State {
    var hash := MessageHash(message);
    var indexed := AddHash(s.(counter := s.counter + 1), hash, s.counter + 1, message.expirationTime);
    indexed.(table := if hash in s.table then s.table else s.table[hash := message])
  }

  function CountersOf(s: State, hashes: set<Hash>): set<nat> {
    set h | h in hashes && h in s.hashToCounter :: s.hashToCounter[h]
  }

  /** The state without `gone`: what one sweep has removed before it drops the buckets it visited. */
  function Without(s: State, gone: set<Hash>): State {
    s.(counterToHash := s.counterToHash - CountersOf(s, gone),
       hashToCounter := s.hashToCounter - gone,
       hashToExpiration := s.hashToExpiration - gone,
       table := s.table - gone)
  }

  function Due(s: State, now: int): set<Hash> {
    set h | h in s.hashToCounter && h.expirationTime <= now
  }

  function Purged(s: State, now: int): State {
    Without(s, Due(s, now)).(
    expirationToHashes := map e | e in s.expirationToHashes && e > now :: s.expirationToHashes[e])
  }

  /** The first arrival after `cursor`: the least counter of the ordered index beyond it. */
  function NextCounter(s: State, cursor: nat): (next: Option<nat>)
    ensures next.Some? ==> next.value in s.counterToHash && cursor < next.value
    ensures next.Some? ==> forall c :: c in s.counterToHash && cursor < c ==> next.value <= c
    ensures next.None? ==> forall c :: c in s.counterToHash && c <= s.counter ==> c <= cursor
    decreases s.counter - cursor
  {
    if s.counter <= cursor then
      None
    else if cursor + 1 in s.counterToHash then
      Some(cursor + 1)
    else
      NextCounter(s, cursor + 1)
  }

  function Beyond(s: State, cursor: nat): set<nat> {
    set c | c in s.counterToHash && cursor < c
  }

  // ---------------------------------------------------------------- invariants

  ghost predicate KeysAgree(s: State) {
    s.hashToCounter.Keys == s.hashToExpiration.Keys == s.table.Keys
  }

  /** Every live hash's counter leads back to it, and no counter is ahead of the global one. */
  ghost predicate CountersAgree(s: State) {
    && (forall h :: h in s.hashToCounter ==>
                      s.hashToCounter[h] in s.counterToHash && s.counterToHash[s.hashToCounter[h]] == h)
    && (forall c :: c in s.counterToHash ==> 1 <= c <= s.counter)
  }

  ghost predicate RowsAgree(s: State) {
    && (forall h :: h in s.hashToExpiration ==> s.hashToExpiration[h] == h.expirationTime)
    && (forall h :: h in s.table ==> MessageHash(s.table[h]) == h)
  }

  /** A live hash sits in the bucket of its own expiration time and nowhere else; no bucket is empty. */
  ghost predicate BucketsAgree(s: State) {
    && (forall h :: h in s.hashToCounter ==>
                      && h.expirationTime in s.expirationToHashes
                      && h in s.expirationToHashes[h.expirationTime])
    && (forall e :: e in s.expirationToHashes ==> s.expirationToHashes[e] != {})
    && (forall e, h :: e in s.expirationToHashes && h in s.expirationToHashes[e] ==>
                         h.expirationTime == e && h in s.hashToCounter)
  }

  /** Holds in every run, duplicate insertions included. */
  ghost predicate Consistent(s: State) {
    KeysAgree(s) && CountersAgree(s) && RowsAgree(s) && BucketsAgree(s)
  }

  /** Holds while only fresh hashes are inserted: the two counter maps invert each other. */
  ghost predicate Bijective(s: State) {
    && Consistent(s)
    && (forall c :: c in s.counterToHash ==> Current(s, c))
  }

  /** The entry at `c` is the one its hash is indexed under. */
  ghost predicate Current(s: State, c: nat)
    requires c in s.counterToHash
  {
    s.counterToHash[c] in s.hashToCounter && s.hashToCounter[s.counterToHash[c]] == c
  }

  lemma InsertKeepsBuckets(s: State, message: Message)
    requires BucketsAgree(s)
    ensures BucketsAgree(Inserted(s, message))
  {
    var hash := MessageHash(message);
    var t := Inserted(s, message);
    assert t.expirationToHashes ==
           s.expirationToHashes[hash.expirationTime := Bucket(s.expirationToHashes, hash.expirationTime) + {hash}];
    assert hash in t.expirationToHashes[hash.expirationTime];
    forall h | h in t.hashToCounter
      ensures h.expirationTime in t.expirationToHashes && h in t.expirationToHashes[h.expirationTime]
    {
      assert h == hash || h in s.hashToCounter;
    }
    forall e, h | e in t.expirationToHashes && h in t.expirationToHashes[e]
      ensures h.expirationTime == e && h in t.hashToCounter
    {
      assert h == hash || (e in s.expirationToHashes && h in s.expirationToHashes[e]);
    }
  }

  lemma InsertKeepsCounters(s: State, message: Message)
    requires CountersAgree(s)
    ensures CountersAgree(Inserted(s, message))
  {
  }

  lemma InsertKeepsRows(s: State, message: Message)
    requires RowsAgree(s)
    ensures RowsAgree(Inserted(s, message))
  {
  }

  lemma InsertChangesKeys(s: State, message: Message)
    ensures var hash, t := MessageHash(message), Inserted(s, message);
            && t.hashToCounter.Keys == s.hashToCounter.Keys + {hash}
            && t.hashToExpiration.Keys == s.hashToExpiration.Keys + {hash}
            && t.table.Keys == s.table.Keys + {hash}
  {
  }

  lemma InsertKeepsConsistent(s: State, message: Message)
    requires Consistent(s)
    ensures Consistent(Inserted(s, message))
    ensures Inserted(s, message).Live() == s.Live() + {MessageHash(message)}
  {
    InsertChangesKeys(s, message);
    InsertKeepsBuckets(s, message);
    InsertKeepsCounters(s, message);
    InsertKeepsRows(s, message);
  }

  /** The two maps stay mutually inverse exactly when the inserted hash is fresh. */
  lemma InsertKeepsBijectiveIffFresh(s: State, message: Message)
    requires Bijective(s)
    ensures Bijective(Inserted(s, message)) <==> MessageHash(message) !in s.Live()
  {
    InsertKeepsConsistent(s, message);
    var hash := MessageHash(message);
    var t := Inserted(s, message);
    if hash in s.Live() {
      var c := s.hashToCounter[hash];
      assert c in t.counterToHash && t.counterToHash[c] == hash;
      assert !Current(t, c);
    } else {
      forall c | c in t.counterToHash ensures Current(t, c) {
        if c != s.counter + 1 {
          assert Current(s, c);
        }
      }
    }
  }

  lemma PurgeKeepsBuckets(s: State, now: int)
    requires BucketsAgree(s)
    ensures BucketsAgree(Purged(s, now))
  {
    var t := Purged(s, now);
    forall e, h | e in t.expirationToHashes && h in t.expirationToHashes[e]
      ensures h.expirationTime == e && h in t.hashToCounter
    {
      assert e in s.expirationToHashes && h in s.expirationToHashes[e];
    }
  }

  lemma PurgeKeepsCounters(s: State, now: int)
    requires CountersAgree(s)
    ensures CountersAgree(Purged(s, now))
  {
    var t := Purged(s, now);
    forall h | h in t.hashToCounter
      ensures t.hashToCounter[h] in t.counterToHash && t.counterToHash[t.hashToCounter[h]] == h
    {
      forall g | g in Due(s, now) ensures s.hashToCounter[g] != s.hashToCounter[h] {
        assert s.counterToHash[s.hashToCounter[g]] == g;
      }
    }
  }

  /** A sweep keeps exactly the hashes that expire later, in all indexes and on disk at once. */
  lemma PurgeKeepsConsistent(s: State, now: int)
    requires Consistent(s)
    ensures Consistent(Purged(s, now))
    ensures Purged(s, now).Live() == set h | h in s.Live() && h.expirationTime > now
  {
    var t := Purged(s, now);
    PurgeKeepsBuckets(s, now);
    PurgeKeepsCounters(s, now);
    assert t.hashToExpiration.Keys == t.hashToCounter.Keys;
    assert t.table.Keys == t.hashToCounter.Keys;
  }

  lemma PurgeKeepsBijective(s: State, now: int)
    requires Bijective(s)
    ensures Bijective(Purged(s, now))
  {
    PurgeKeepsConsistent(s, now);
    var t := Purged(s, now);
    forall c | c in t.counterToHash ensures Current(t, c) {
      assert Current(s, c);
      var h := s.counterToHash[c];
      assert h !in Due(s, now);
    }
  }

  /** What a duplicate leaves behind: once the message expires, the older counter still names it. */
  lemma DuplicateLeavesStaleEntry(s: State, message: Message, now: int)
    requires Consistent(s)
    requires MessageHash(message) in s.Live()
    requires message.expirationTime <= now
    ensures var hash := MessageHash(message);
            var swept := Purged(Inserted(s, message), now);
            && hash !in swept.Live()
            && s.hashToCounter[hash] in swept.counterToHash
            && swept.counterToHash[s.hashToCounter[hash]] == hash
  {
    InsertKeepsConsistent(s, message);
    var t := Inserted(s, message);
    PurgeKeepsConsistent(t, now);
    var hash := MessageHash(message);
    var c := s.hashToCounter[hash];
    assert t.counterToHash[c] == hash;
    forall g | g in Due(t, now) ensures t.hashToCounter[g] != c {
      assert t.counterToHash[t.hashToCounter[g]] == g;
    }
  }

  /** In a consistent state a read past the cursor finds nothing exactly when no entry lies there. */
  lemma NextCounterIsExact(s: State, cursor: nat)
    requires Consistent(s)
    ensures NextCounter(s, cursor).None? <==> Beyond(s, cursor) == {}
    ensures NextCounter(s, cursor).Some? ==>
              Beyond(s, NextCounter(s, cursor).value) == Beyond(s, cursor) - {NextCounter(s, cursor).value}
  {
    var next := NextCounter(s, cursor);
    if next.None? {
      assert forall c :: c in Beyond(s, cursor) ==> c in s.counterToHash && c <= s.counter;
      assert forall c :: c !in Beyond(s, cursor);
    } else {
      assert next.value in Beyond(s, cursor);
    }
  }

  // ---------------------------------------------------------------- whole runs

  datatype Command = Add(message: Message) | Sweep(now: int)

  function Apply(s: State, command: Command): State {
    match command
    case Add(message) => Inserted(s, message)
    case Sweep(now) => Purged(s, now)
  }

  function Run(s: State, commands: seq<Command>): State
    decreases |commands|
  {
    if commands == [] then s else Run(Apply(s, commands[0]), commands[1..])
  }

  function ApplyToSet(live: set<Hash>, command: Command): set<Hash> {
    match command
    case Add(message) => live + {MessageHash(message)}
    case Sweep(now) => set h | h in live && h.expirationTime > now
  }

  /** The same run on nothing but a set of hashes. */
  function RunOnSet(live: set<Hash>, commands: seq<Command>): set<Hash>
    decreases |commands|
  {
    if commands == [] then
      live
    else
      RunOnSet(ApplyToSet(live, commands[0]), commands[1..])
  }

  /** Every insertion of the run is of a hash that is not live at that moment. */
  ghost predicate FreshRun(live: set<Hash>, commands: seq<Command>)
    decreases |commands|
  {
    if commands == [] then
      true
    else
      && (commands[0].Add? ==> MessageHash(commands[0].message) !in live)
      && FreshRun(ApplyToSet(live, commands[0]), commands[1..])
  }

  /** A stale entry is never repaired, neither by insertions nor by sweeps. */
  lemma StaleStaysStale(s: State, command: Command)
    requires Consistent(s) && !Bijective(s)
    ensures !Bijective(Apply(s, command))
  {
    var c :| c in s.counterToHash && !Current(s, c);
    var t := Apply(s, command);
    assert c in t.counterToHash && t.counterToHash[c] == s.counterToHash[c] by {
      if command.Sweep? {
        forall h | h in Due(s, command.now) ensures s.hashToCounter[h] != c {
          assert s.counterToHash[s.hashToCounter[h]] == h;
        }
      }
    }
    assert !Current(t, c);
  }

  /** Over every run the five structures stay consistent and answer as one set of hashes would; and the
      counter maps end up mutually inverse exactly when every insertion of the run was fresh. */
  lemma {:induction false} RunRefinesSet(s: State, commands: seq<Command>)
    requires Consistent(s)
    ensures Consistent(Run(s, commands))
    ensures Run(s, commands).Live() == RunOnSet(s.Live(), commands)
    ensures Bijective(Run(s, commands)) <==> Bijective(s) && FreshRun(s.Live(), commands)
    decreases |commands|
  {
    if commands != [] {
      var t := Apply(s, commands[0]);
      match commands[0] {
        case Add(message) =>
          InsertKeepsConsistent(s, message);
          if Bijective(s) {
            InsertKeepsBijectiveIffFresh(s, message);
          }
        case Sweep(now) =>
          PurgeKeepsConsistent(s, now);
          if Bijective(s) {
            PurgeKeepsBijective(s, now);
          }
      }
      if !Bijective(s) {
        StaleStaysStale(s, commands[0]);
      }
      RunRefinesSet(t, commands[1..]);
    }
  }

  // ---------------------------------------------------------------- the mutation log

  function Step(live: set<Hash>, mutation: Mutation): set<Hash> {
    match mutation
    case Insert(hash) => live + {hash}
    case Purge(hash) => live - {hash}
  }

  /** The live set a consumer of the log arrives at. */
  function Replay(log: seq<Mutation>): set<Hash> {
    if log == [] then {} else Step(Replay(log[..|log| - 1]), log[|log| - 1])
  }

  /** A purge may only name a live hash that no other live hash precedes in expiry. */
  ghost predicate InOrder(live: set<Hash>, mutation: Mutation) {
    mutation.Purge? ==>
      && mutation.hash in live
      && forall g :: g in live ==> mutation.hash.expirationTime <= g.expirationTime
  }

  ghost predicate Orderly(log: seq<Mutation>) {
    forall i :: 0 <= i < |log| ==> InOrder(Replay(log[..i]), log[i])
  }

  lemma ReplaySnoc(log: seq<Mutation>, mutation: Mutation)
    ensures Replay(log + [mutation]) == Step(Replay(log), mutation)
    ensures Orderly(log + [mutation]) <==> Orderly(log) && InOrder(Replay(log), mutation)
  {
    var longer := log + [mutation];
    assert longer[..|log|] == log;
    if Orderly(longer) {
      assert InOrder(Replay(longer[..|log|]), longer[|log|]);
      forall i | 0 <= i < |log| ensures InOrder(Replay(log[..i]), log[i]) {
        assert longer[..i] == log[..i];
        assert InOrder(Replay(longer[..i]), longer[i]);
      }
    }
    if Orderly(log) && InOrder(Replay(log), mutation) {
      forall i | 0 <= i < |longer| ensures InOrder(Replay(longer[..i]), longer[i]) {
        if i < |log| {
          assert longer[..i] == log[..i];
        }
      }
    }
  }

  function Purges(hashes: seq<Hash>): seq<Mutation> {
    seq(|hashes|, i requires 0 <= i < |hashes| => Purge(hashes[i]))
  }

  /** `hashes` lists `due` once each, in non-decreasing order of expiry. */
  ghost predicate Schedule(hashes: seq<Hash>, due: set<Hash>) {
    && NoDuplicates(hashes)
    && (set h | h in hashes) == due
    && (forall i, j :: 0 <= i < j < |hashes| ==> hashes[i].expirationTime <= hashes[j].expirationTime)
  }

  // ---------------------------------------------------------------- what a run logs

  /** No insertion of the log is of a hash that is live at that moment. */
  ghost predicate FreshLog(log: seq<Mutation>) {
    forall i :: 0 <= i < |log| && log[i].Insert? ==> log[i].hash !in Replay(log[..i])
  }

  lemma FreshLogSnoc(log: seq<Mutation>, mutation: Mutation)
    ensures FreshLog(log + [mutation]) <==>
            FreshLog(log) && (mutation.Insert? ==> mutation.hash !in Replay(log))
  {
    var longer := log + [mutation];
    assert longer[..|log|] == log;
    assert forall i :: 0 <= i < |log| ==> longer[..i] == log[..i] && longer[i] == log[i];
    if FreshLog(longer) {
      assert mutation.Insert? ==> longer[|log|].hash !in Replay(longer[..|log|]);
      forall i | 0 <= i < |log| && log[i].Insert? ensures log[i].hash !in Replay(log[..i]) {
        assert longer[i].hash !in Replay(longer[..i]);
      }
    }
  }

  function Members(hashes: seq<Hash>): set<Hash> {
    set h | h in hashes
  }

  /** The due hashes are live, and no other live hash expires before them. */
  ghost predicate DueFirst(live: set<Hash>, due: set<Hash>) {
    due <= live && forall g, h :: g in live && g !in due && h in due ==> h.expirationTime <= g.expirationTime
  }

  lemma ScheduledNext(live: set<Hash>, hashes: seq<Hash>, due: set<Hash>, n: nat)
    requires n < |hashes| && Schedule(hashes, due) && DueFirst(live, due)
    ensures InOrder(live - Members(hashes[..n]), Purge(hashes[n]))
    ensures Members(hashes[..n + 1]) == Members(hashes[..n]) + {hashes[n]}
  {
    assert hashes[n] in due && hashes[n] !in hashes[..n];
    assert forall j :: 0 <= j < n ==> hashes[j] in hashes[..n];
    forall g | g in live && g !in hashes[..n] ensures hashes[n].expirationTime <= g.expirationTime {
      if g in due {
        assert g in hashes;
        var i :| 0 <= i < |hashes| && hashes[i] == g;
      }
    }
  }

  /** Purging what is due, in the order of a schedule, keeps the log orderly and arrives at the rest. */
  lemma {:induction false} PurgesKeepLog(log: seq<Mutation>, hashes: seq<Hash>, due: set<Hash>, n: nat)
    requires n <= |hashes| && Schedule(hashes, due) && DueFirst(Replay(log), due)
    ensures Replay(log + Purges(hashes[..n])) == Replay(log) - Members(hashes[..n])
    ensures Orderly(log + Purges(hashes[..n])) <==> Orderly(log)
    ensures FreshLog(log + Purges(hashes[..n])) <==> FreshLog(log)
  {
    hide Orderly, FreshLog, Schedule, DueFirst, InOrder, Replay;
    if n == 0 {
      assert log + Purges(hashes[..0]) == log;
    } else {
      var before, last := log + Purges(hashes[..n - 1]), hashes[n - 1];
      PurgesKeepLog(log, hashes, due, n - 1);
      assert log + Purges(hashes[..n]) == before + [Purge(last)];
      ReplaySnoc(before, Purge(last));
      FreshLogSnoc(before, Purge(last));
      ScheduledNext(Replay(log), hashes, due, n - 1);
      hide Members;
    }
  }

  /** `after` is what a log grows to over a run, each sweep logging its purges in some order of expiry. */
  ghost predicate Logs(s: State, commands: seq<Command>, log: seq<Mutation>, after: seq<Mutation>)
    decreases |commands|
  {
    if commands == [] then
      log == after
    else
      match commands[0]
      case Add(message) => Logs(Inserted(s, message), commands[1..], log + [Insert(MessageHash(message))], after)
      case Sweep(now) =>
        exists removed :: Schedule(removed, Due(s, now)) &&
                          Logs(Purged(s, now), commands[1..], log + Purges(removed), after)
  }

  lemma SweepLogs(s: State, log: seq<Mutation>, now: int, removed: seq<Hash>)
    requires Replay(log) == s.Live() && Schedule(removed, Due(s, now)) && Consistent(s)
    ensures var after := log + Purges(removed);
            && Replay(after) == Purged(s, now).Live()
            && (Orderly(after) <==> Orderly(log)) && (FreshLog(after) <==> FreshLog(log))
  {
    assert removed[..|removed|] == removed;
    assert Members(removed) == Due(s, now);
    PurgesKeepLog(log, removed, Due(s, now), |removed|);
    PurgeKeepsConsistent(s, now);
    hide Orderly, FreshLog, Replay, Consistent, Purged;
  }

  /** Over every run the log stays orderly and replays to the live set; and it inserts nothing twice exactly
      when every insertion of the run was fresh. */
  lemma {:induction false} RunLogs(s: State, commands: seq<Command>, log: seq<Mutation>, after: seq<Mutation>)
    requires Consistent(s) && Replay(log) == s.Live() && Orderly(log) && Logs(s, commands, log, after)
    ensures Orderly(after) && Replay(after) == Run(s, commands).Live()
    ensures FreshLog(after) <==> FreshLog(log) && FreshRun(s.Live(), commands)
    decreases |commands|
  {
    hide Consistent, Replay, Orderly, FreshLog, Inserted, Purged, Schedule, Due;
    if commands != [] {
      match commands[0] {
        case Add(message) =>
          InsertKeepsConsistent(s, message);
          ReplaySnoc(log, Insert(MessageHash(message)));
          FreshLogSnoc(log, Insert(MessageHash(message)));
          RunLogs(Inserted(s, message), commands[1..], log + [Insert(MessageHash(message))], after);
        case Sweep(now) =>
          var removed :| Schedule(removed, Due(s, now)) &&
                         Logs(Purged(s, now), commands[1..], log + Purges(removed), after);
          PurgeKeepsConsistent(s, now);
          SweepLogs(s, log, now, removed);
          RunLogs(Purged(s, now), commands[1..], log + Purges(removed), after);
      }
    }
  }
}
