/** The two ends of a link as the program runs them: the server that answers tests and submissions, and
    the client that scans, asks, submits and parks. Each method is one atomic step of `Gossip`; the
    method `Reconcile` is the client's loop when nothing interrupts it. */
module Reconciliation {
  import opened Wrappers
  import opened Gossip
  import opened GossipSafety
  import opened InventoryStore
  import opened ManualResetEvent
  import Inventory
  import P = ProofOfWork

  /** What a peer may gain from the inventory `own`: unexpired messages only, each with the row it has there; what
      the peer had stays as it was, and a peer that gains nothing does not change at all. */
  ghost predicate Gains(own: Inventory.State, before: Inventory.State, after: Inventory.State, now: int) {
    && before.Live() <= after.Live()
    && (forall h :: h in before.table ==> h in after.table && after.table[h] == before.table[h])
    && (forall h :: h in after.Live() - before.Live() ==>
                      && !Expired(h, now)
                      && h in own.table && h in after.table && after.table[h] == own.table[h])
    && (after.Live() == before.Live() ==> after == before)
  }

  /** What a scan from `from` to `upTo` of the inventory `own` makes of the peer. */
  ghost predicate Offered(
    own: Inventory.State, from: nat, upTo: nat, before: Inventory.State, after: Inventory.State, now: int)
  {
    && from <= upTo
    && Gains(own, before, after, now)
    && (forall h :: h in own.hashToCounter && from < own.hashToCounter[h] <= upTo ==>
                      h in after.Live() || Expired(h, now))
    && (forall h :: h in after.Live() ==> h in before.Live() || ArrivedBetween(own, from, upTo, h))
  }

  ghost predicate ArrivedBetween(own: Inventory.State, from: nat, upTo: nat, h: Hash) {
    exists c :: c in own.counterToHash && from < c <= upTo && own.counterToHash[c] == h
  }

  lemma GainingInTurn(
    own: Inventory.State, before: Inventory.State, mid: Inventory.State, after: Inventory.State, now: int)
    requires Gains(own, before, mid, now) && Gains(own, mid, after, now)
    ensures Gains(own, before, after, now)
    ensures after.Live() == before.Live() <==> mid.Live() == before.Live() && after.Live() == mid.Live()
  {
    hide Expired;
    assert forall h :: h in mid.Live() ==> h in after.Live();
    if after.Live() == before.Live() {
      assert mid.Live() == before.Live();
    }
  }

  /** Storing a row of `own` that the peer lacks and that has not expired is a gain. */
  lemma StoringGains(own: Inventory.State, before: Inventory.State, hash: Hash, now: int)
    requires Inventory.Consistent(own) && Inventory.Consistent(before)
    requires hash in own.table && hash !in before.Live() && !Expired(hash, now)
    ensures Gains(own, before, Inventory.Inserted(before, own.table[hash]), now)
    ensures Inventory.Inserted(before, own.table[hash]).Live() == before.Live() + {hash}
  {
    hide Expired, Inventory.Consistent, Inventory.Inserted, Inventory.MessageHash;
    HashOfRow(own, hash);
    HashOfRow(before, hash);
    StoringAddsRow(before, own.table[hash]);
  }

  lemma StoringAddsRow(s: Inventory.State, message: Message)
    requires Inventory.MessageHash(message) !in s.table
    ensures var t, hash := Inventory.Inserted(s, message), Inventory.MessageHash(message);
            && t.Live() == s.Live() + {hash}
            && t.table == s.table[hash := message]
            && t != s
  {
    Inventory.InsertChangesKeys(s, message);
    assert Inventory.Inserted(s, message).counter == s.counter + 1;
  }

  /** The peer once it has been offered a hash of `own`. */
  ghost function Brought(own: Inventory.State, before: Inventory.State, hash: Hash, now: int): Inventory.State {
    if hash in own.table && hash !in before.Live() && !Expired(hash, now)
    then Inventory.Inserted(before, own.table[hash])
    else before
  }

  lemma BringingExactly(own: Inventory.State, before: Inventory.State, hash: Hash, now: int)
    requires Inventory.Consistent(own) && Inventory.Consistent(before) && hash !in before.Live()
    ensures hash in own.table && !Expired(hash, now) ==>
              && Brought(own, before, hash, now) == Inventory.Inserted(before, own.table[hash])
              && Brought(own, before, hash, now) != before
    ensures hash !in own.table || Expired(hash, now) ==> Brought(own, before, hash, now) == before
    ensures hash in own.table ==> Inventory.MessageHash(own.table[hash]) == hash
  {
    HashOfRow(own, hash);
    HashOfRow(before, hash);
    hide Expired, Inventory.Consistent, Inventory.Inserted, Inventory.MessageHash;
    if hash in own.table {
      StoringAddsRow(before, own.table[hash]);
    }
  }

  lemma BringingNothing(own: Inventory.State, before: Inventory.State, hash: Hash, now: int)
    ensures hash in before.Live() ==> Brought(own, before, hash, now) == before
  {
  }

  /** It gains the hash at most, and has it unless it expired or is gone from `own`. */
  lemma BringingGains(own: Inventory.State, before: Inventory.State, hash: Hash, now: int)
    requires Inventory.Consistent(own) && Inventory.Consistent(before)
    ensures var after := Brought(own, before, hash, now);
            && Gains(own, before, after, now)
            && after.Live() <= before.Live() + {hash}
            && (hash in own.Live() ==> hash in after.Live() || Expired(hash, now))
            && (after == before <==> after.Live() == before.Live())
  {
    HashOfRow(own, hash);
    NothingOfferedYet(own, 0, before, now);
    hide Inventory.Consistent, Inventory.Inserted, Expired, Gains;
    if hash in own.table && hash !in before.Live() && !Expired(hash, now) {
      StoringGains(own, before, hash, now);
    }
  }

  lemma HashOfRow(s: Inventory.State, hash: Hash)
    requires Inventory.Consistent(s)
    ensures hash in s.table <==> hash in s.Live()
    ensures hash in s.table ==> Inventory.MessageHash(s.table[hash]) == hash
  {
  }

  lemma OfferedAdvances(
    own: Inventory.State, from: nat, upTo: nat, c: nat,
    before: Inventory.State, mid: Inventory.State, after: Inventory.State, now: int)
    requires Inventory.Consistent(own) && Offered(own, from, upTo, before, mid, now)
    requires Inventory.NextCounter(own, upTo) == Some(c)
    requires Gains(own, mid, after, now) && after.Live() <= mid.Live() + {own.counterToHash[c]}
    requires own.counterToHash[c] in own.Live() ==>
               own.counterToHash[c] in after.Live() || Expired(own.counterToHash[c], now)
    ensures Offered(own, from, c, before, after, now)
    ensures Inventory.Beyond(own, c) < Inventory.Beyond(own, upTo)
  {
    Inventory.NextCounterIsExact(own, upTo);
    assert c in Inventory.Beyond(own, upTo) && c !in Inventory.Beyond(own, c);
    GainingInTurn(own, before, mid, after, now);
    CoverageAdvances(own, from, upTo, c, before, mid, after, now);
    hide Inventory.Consistent, Inventory.NextCounter, Gains, Expired, Inventory.Beyond;
    forall h | h in after.Live() ensures h in before.Live() || ArrivedBetween(own, from, c, h) {
      if h !in before.Live() && h in mid.Live() {
        assert ArrivedBetween(own, from, upTo, h);
      }
    }
  }

  lemma CoverageAdvances(
    own: Inventory.State, from: nat, upTo: nat, c: nat,
    before: Inventory.State, mid: Inventory.State, after: Inventory.State, now: int)
    requires Inventory.Consistent(own) && Offered(own, from, upTo, before, mid, now)
    requires Inventory.NextCounter(own, upTo) == Some(c) && mid.Live() <= after.Live()
    requires own.counterToHash[c] in own.Live() ==>
               own.counterToHash[c] in after.Live() || Expired(own.counterToHash[c], now)
    ensures forall h :: h in own.hashToCounter && from < own.hashToCounter[h] <= c ==>
                          h in after.Live() || Expired(h, now)
  {
    hide Gains, Expired, ArrivedBetween;
    forall h | h in own.hashToCounter && from < own.hashToCounter[h] <= c
      ensures h in after.Live() || Expired(h, now)
    {
      assert own.counterToHash[own.hashToCounter[h]] == h;
    }
  }

  lemma NothingOfferedYet(own: Inventory.State, from: nat, peer: Inventory.State, now: int)
    ensures Offered(own, from, from, peer, peer, now) && Gains(own, peer, peer, now)
  {
  }

  lemma OfferedGains(
    own: Inventory.State, from: nat, upTo: nat, before: Inventory.State, after: Inventory.State, now: int)
    requires Offered(own, from, upTo, before, after, now)
    ensures Gains(own, before, after, now)
  {
  }

  class Server {
    const store: InventoryStore.Store
    const reconciliationIntent: MPMCManualResetEvent

    constructor (store: InventoryStore.Store, reconciliationIntent: MPMCManualResetEvent)
      ensures this.store == store && this.reconciliationIntent == reconciliationIntent
    {
      this.store := store;
      this.reconciliationIntent := reconciliationIntent;
    }

    /** A submission is stored when it is new and carries enough work; then every client of this node is
        woken. Otherwise nothing changes. */
    method Submit(work: P.Work, now: int, message: Message) returns (stored: bool)
      requires store.Valid()
      modifies store, reconciliationIntent.Flags()
      ensures store.Valid()
      ensures stored <==>
              && Inventory.MessageHash(message) !in old(store.Contents()).Live()
              && P.Verify(work, message.payload, message.nonce, message.expirationTime, now)
      ensures store.Contents() ==
              if stored then Inventory.Inserted(old(store.Contents()), message) else old(store.Contents())
      ensures reconciliationIntent.events == old(reconciliationIntent.events)
      ensures reconciliationIntent.Raised() ==
              if stored then reconciliationIntent.events.Keys else old(reconciliationIntent.Raised())
    {
      var messageExists := store.MessageExists(Inventory.MessageHash(message));
      var proofOfWorkValid := P.Verify(work, message.payload, message.nonce, message.expirationTime, now);
      stored := !messageExists && proofOfWorkValid;
      if stored {
        store.InsertMessage(message);
        reconciliationIntent.Broadcast();
      }
    }
  }

  class Client {
    const sender: nat
    const receiver: nat
    const event: Event
    var counter: nat
    var phase: Phase
    var proceed: bool

    /** This client as the protocol sees it. */
    ghost function View(): Link
      reads this, event
    {
      Link(sender, receiver, counter, phase, event.isSet, proceed)
    }

    constructor (sender: nat, receiver: nat, event: Event)
      requires !event.isSet
      ensures View() == Fresh(sender, receiver) && this.event == event
    {
      this.sender, this.receiver, this.event := sender, receiver, event;
      counter, phase, proceed := 0, Scanning, false;
    }

    method ScanOnce(own: InventoryStore.Store)
      requires Inventory.Consistent(own.Contents())
      modifies this
      ensures View() == Scan(old(View()), own.Contents())
    {
      var next := own.GetOneAfterCounter(counter);
      match next {
        case Some((hash, newCounter)) =>
          counter := newCounter;
          phase := Testing(hash);
        case None =>
          phase := Parked;
      }
    }

    method Test(peer: InventoryStore.Store)
      requires phase.Testing?
      modifies this
      ensures View() == Tested(old(View()), old(phase.hash), peer.Contents())
    {
      var present := peer.MessageExists(phase.hash);
      phase := if present then Scanning else Fetching(phase.hash);
    }

    method Fetch(own: InventoryStore.Store)
      requires phase.Fetching? && Inventory.Consistent(own.Contents())
      modifies this
      ensures View() == Fetched(old(View()), old(phase.hash), own.Contents())
    {
      var message := own.GetMessage(phase.hash);
      phase := if message.Some? then Submitting(message.value) else Scanning;
    }

    /** The notifier: takes the raised flag down and offers a `Proceed`. */
    method Notify()
      requires event.isSet && !proceed
      modifies this, event
      ensures View() == Woken(old(View()))
    {
      event.Reset();
      proceed := true;
    }

    /** The parked client takes the `Proceed` and scans again from where it was. */
    method Receive()
      requires phase.Parked? && proceed
      modifies this
      ensures View() == Resumed(old(View()))
    {
      proceed := false;
      phase := Scanning;
    }

    /** Hands the fetched message to the peer, which stores it exactly if it lacks it and it has not expired, and
        then wakes its own clients. */
    method Deliver(work: P.Work, now: int, peer: Server)
      requires phase.Submitting? && Mined(work, now, phase.message)
      requires peer.store.Valid() && event !in peer.reconciliationIntent.Flags()
      modifies this, peer.store, peer.reconciliationIntent.Flags()
      ensures phase == Scanning && counter == old(counter)
      ensures peer.store.Valid() && peer.reconciliationIntent.events == old(peer.reconciliationIntent.events)
      ensures var hash := Inventory.MessageHash(old(phase.message));
              var stored := hash !in old(peer.store.Contents()).Live() && !Expired(hash, now);
              && peer.store.Contents() ==
                 (if stored
                  then Inventory.Inserted(old(peer.store.Contents()), old(phase.message))
                  else old(peer.store.Contents()))
              && peer.reconciliationIntent.Raised() ==
                 (if stored then peer.reconciliationIntent.events.Keys else old(peer.reconciliationIntent.Raised()))
    {
      MinedStaysValid(work, now, phase.message);
      hide Inventory.Inserted, Inventory.Consistent, P.Verify;
      var stored := peer.Submit(work, now, phase.message);
      phase := Scanning;
    }

    /** Takes one entry of the own inventory to the peer, or parks when there is none left. */
    method Offer(work: P.Work, now: int, own: InventoryStore.Store, peer: Server)
      requires own.Valid() && peer.store.Valid() && own != peer.store
      requires phase.Scanning?
      requires forall h :: h in own.table ==> Mined(work, now, own.table[h])
      requires event !in peer.reconciliationIntent.Flags()
      modifies this, peer.store, peer.reconciliationIntent.Flags()
      ensures peer.store.Valid() && peer.reconciliationIntent.events == old(peer.reconciliationIntent.events)
      ensures Gains(own.Contents(), old(peer.store.Contents()), peer.store.Contents(), now)
      ensures peer.reconciliationIntent.Raised() ==
              if peer.store.Contents().Live() != old(peer.store.Contents()).Live()
              then peer.reconciliationIntent.events.Keys
              else old(peer.reconciliationIntent.Raised())
      ensures match Inventory.NextCounter(own.Contents(), old(counter))
              case None => phase == Parked && counter == old(counter)
                           && peer.store.Contents() == old(peer.store.Contents())
              case Some(c) =>
                var hash := own.counterToHash[c];
                && phase == Scanning && counter == c
                && peer.store.Contents().Live() <= old(peer.store.Contents()).Live() + {hash}
                && (hash in own.Contents().Live() ==>
                      hash in peer.store.Contents().Live() || Expired(hash, now))
    {
      ghost var before := peer.store.Contents();
      NothingOfferedYet(own.Contents(), counter, before, now);
      ScanOnce(own);
      if phase.Testing? {
        BringingGains(own.Contents(), before, phase.hash, now);
        hide Inventory.Consistent, Mined, Expired, Gains, Brought;
        Carry(work, now, own, peer);
      }
    }

    /** Asks about the entry the cursor came to, and submits its row if there is one and the peer lacks it. */
    method Carry(work: P.Work, now: int, own: InventoryStore.Store, peer: Server)
      requires own.Valid() && peer.store.Valid() && own != peer.store
      requires phase.Testing?
      requires forall h :: h in own.table ==> Mined(work, now, own.table[h])
      requires event !in peer.reconciliationIntent.Flags()
      modifies this, peer.store, peer.reconciliationIntent.Flags()
      ensures peer.store.Valid() && peer.reconciliationIntent.events == old(peer.reconciliationIntent.events)
      ensures phase == Scanning && counter == old(counter)
      ensures peer.store.Contents() == Brought(own.Contents(), old(peer.store.Contents()), old(phase.hash), now)
      ensures peer.reconciliationIntent.Raised() ==
              if peer.store.Contents() != old(peer.store.Contents())
              then peer.reconciliationIntent.events.Keys
              else old(peer.reconciliationIntent.Raised())
    {
      BringingNothing(own.Contents(), peer.store.Contents(), phase.hash, now);
      hide Inventory.Consistent, Brought, Mined;
      Test(peer.store);
      if phase.Fetching? {
        Send(work, now, own, peer);
      }
    }

    /** Submits the row of a hash that the peer lacks, if there is one. */
    method Send(work: P.Work, now: int, own: InventoryStore.Store, peer: Server)
      requires Inventory.Consistent(own.Contents()) && peer.store.Valid() && own != peer.store
      requires phase.Fetching? && phase.hash !in peer.store.Contents().Live()
      requires forall h :: h in own.table ==> Mined(work, now, own.table[h])
      requires event !in peer.reconciliationIntent.Flags()
      modifies this, peer.store, peer.reconciliationIntent.Flags()
      ensures peer.store.Valid() && peer.reconciliationIntent.events == old(peer.reconciliationIntent.events)
      ensures phase == Scanning && counter == old(counter)
      ensures peer.store.Contents() == Brought(own.Contents(), old(peer.store.Contents()), old(phase.hash), now)
      ensures peer.reconciliationIntent.Raised() ==
              if peer.store.Contents() != old(peer.store.Contents())
              then peer.reconciliationIntent.events.Keys
              else old(peer.reconciliationIntent.Raised())
    {
      assert Inventory.Consistent(peer.store.Contents());
      hide InventoryStore.Store.Valid, Inventory.Consistent, Inventory.Inserted, Inventory.MessageHash;
      hide Expired, Mined, Brought;
      BringingExactly(own.Contents(), peer.store.Contents(), phase.hash, now);
      Fetch(own);
      if phase.Submitting? {
        Deliver(work, now, peer);
      }
    }

    /** The whole scan, uninterrupted: afterwards the peer has everything unexpired that lay ahead of the
        cursor, nothing lies ahead of it any more, and the peer has gained nothing else. If it gained anything at
        all, every client registered with it has been woken, and otherwise none. */
    method Reconcile(work: P.Work, now: int, own: InventoryStore.Store, peer: Server)
      requires own.Valid() && peer.store.Valid() && own != peer.store
      requires phase.Scanning?
      requires forall h :: h in own.table ==> Mined(work, now, own.table[h])
      requires event !in peer.reconciliationIntent.Flags()
      modifies this, peer.store, peer.reconciliationIntent.Flags()
      ensures phase == Parked && Inventory.Beyond(own.Contents(), counter) == {}
      ensures peer.store.Valid() && peer.reconciliationIntent.events == old(peer.reconciliationIntent.events)
      ensures Offered(own.Contents(), old(counter), counter,
                      old(peer.store.Contents()), peer.store.Contents(), now)
      ensures peer.reconciliationIntent.Raised() ==
              if peer.store.Contents().Live() != old(peer.store.Contents()).Live()
              then peer.reconciliationIntent.events.Keys
              else old(peer.reconciliationIntent.Raised())
    {
      ghost var before := peer.store.Contents();
      hide Inventory.Consistent, Mined, Expired, Offered, Gains;
      NothingOfferedYet(own.Contents(), counter, before, now);
      while phase.Scanning?
        invariant phase.Scanning? || phase.Parked?
        invariant phase.Parked? ==> Inventory.NextCounter(own.Contents(), counter).None?
        invariant peer.store.Valid() && peer.reconciliationIntent.events == old(peer.reconciliationIntent.events)
        invariant Offered(own.Contents(), old(counter), counter, before, peer.store.Contents(), now)
        invariant peer.reconciliationIntent.Raised() ==
                  if peer.store.Contents().Live() != before.Live()
                  then peer.reconciliationIntent.events.Keys
                  else old(peer.reconciliationIntent.Raised())
        decreases |Inventory.Beyond(own.Contents(), counter)|, if phase.Scanning? then 1 else 0
      {
        ghost var mid, from := peer.store.Contents(), counter;
        Offer(work, now, own, peer);
        OfferedGains(own.Contents(), old(counter), from, before, mid, now);
        GainingInTurn(own.Contents(), before, mid, peer.store.Contents(), now);
        if phase.Scanning? {
          OfferedAdvances(own.Contents(), old(counter), from, counter, before, mid, peer.store.Contents(), now);
          ProperSubsetIsSmaller(Inventory.Beyond(own.Contents(), counter), Inventory.Beyond(own.Contents(), from));
        }
      }
      Inventory.NextCounterIsExact(own.Contents(), counter);
    }
  }
}
