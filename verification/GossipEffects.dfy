/** What the steps of the network do to it, exactly, in terms of what the nodes have and what has expired: after any
    step, what is live where, which flags are up, who is still to raise some, and where each client is. */
module GossipEffects {
  import opened Wrappers
  import opened Gossip
  import opened GossipSafety
  import GossipAtomic
  import Inventory
  import P = ProofOfWork

  // ---------------------------------------------------------------- what is live

  /** The step brings the hash to the node. */
  ghost predicate Brings(s: Network, step: Step, n: nat, h: Hash)
    requires InRange(s)
  {
    || (&& step.InsertStep? && step.link < |s.links| && s.links[step.link].phase.Inserting?
        && s.links[step.link].receiver == n && Inventory.MessageHash(s.links[step.link].phase.message) == h)
    || (step.Submit? && step.node == n && Inventory.MessageHash(step.message) == h)
  }

  /** The step takes it away. */
  ghost predicate Takes(s: Network, step: Step, n: nat, h: Hash) {
    step.Sweep? && step.node == n && Expired(h, s.now)
  }

  lemma StoringBrings(store: Store, m: Message)
    ensures Inventory.Inserted(store, m).Live() == store.Live() + {Inventory.MessageHash(m)}
    ensures var t := Inventory.Inserted(store, m);
            forall h :: h in store.table ==> h in t.table && t.table[h] == store.table[h]
  {
    Inventory.InsertChangesKeys(store, m);
  }

  lemma SweepingTakes(store: Store, now: int)
    requires Inventory.Consistent(store)
    ensures var t := Inventory.Purged(store, now / P.NANOSECONDS);
            && (forall h :: h in t.Live() <==> h in store.Live() && !Expired(h, now))
            && t.table.Keys == t.Live()
            && (forall h :: h in t.Live() ==> t.table[h] == store.table[h])
            && t.counter == store.counter
  {
    Inventory.PurgeKeepsConsistent(store, now / P.NANOSECONDS);
    forall h: Hash ensures Expired(h, now) <==> h.expirationTime <= now / P.NANOSECONDS {
      P.ExpiryInWholeSeconds(h.expirationTime, now);
    }
    hide Expired;
  }

  /** A sweep at a node changes nothing but its inventory, which keeps exactly what has not expired. */
  lemma SweepExactly(work: P.Work, s: Network, n: nat)
    requires Invariant(work, s) && Enabled(work, s, Sweep(n))
    ensures var t := Apply(work, s, Sweep(n));
            && t == s.(nodes := s.nodes[n := s.nodes[n].(inventory := t.nodes[n].inventory)])
            && t.nodes[n].inventory.Live() == set h | h in s.nodes[n].inventory.Live() && !Expired(h, s.now)
            && t.nodes[n].inventory.counter == s.nodes[n].inventory.counter
            && t.nodes[n].inventory.table.Keys == t.nodes[n].inventory.Live()
            && forall h :: h in t.nodes[n].inventory.Live() ==>
                             t.nodes[n].inventory.table[h] == s.nodes[n].inventory.table[h]
  {
    assert NodeOk(work, s.now, s.nodes[n]);
    KeysAgreeAt(work, s, n);
    hide Invariant, Expired;
    SweepingTakes(s.nodes[n].inventory, s.now);
    hide Inventory.Purged, Inventory.Consistent;
  }

  /** What the step makes of one node's inventory. */
  ghost predicate Becomes(s: Network, step: Step, n: nat, after: Store)
    requires InRange(s) && n < |s.nodes|
  {
    var before := s.nodes[n].inventory;
    && (forall h :: h in after.Live() <==> Brings(s, step, n, h) || (h in before.Live() && !Takes(s, step, n, h)))
    && (forall h :: h in before.table && !Takes(s, step, n, h) ==>
                      h in after.table && after.table[h] == before.table[h])
  }

  lemma StoringBecomes(s: Network, step: Step, t: Network, at: nat, m: Message, n: nat)
    requires InRange(s) && GossipAtomic.Stores(s, t, at, m) && n < |s.nodes|
    requires forall k, h :: Brings(s, step, k, h) <==> k == at && h == Inventory.MessageHash(m)
    requires !step.Sweep?
    ensures Becomes(s, step, n, t.nodes[n].inventory)
  {
    StoringBrings(s.nodes[at].inventory, m);
    hide Inventory.Inserted, Brings;
  }

  lemma StoringKeepsNodes(s: Network, t: Network, at: nat, m: Message)
    requires GossipAtomic.Stores(s, t, at, m)
    ensures |t.nodes| == |s.nodes|
  {
  }

  lemma SameBecomes(s: Network, step: Step, n: nat)
    requires InRange(s) && n < |s.nodes| && !step.InsertStep? && !step.Submit?
    requires step.Sweep? ==> step.node != n
    ensures Becomes(s, step, n, s.nodes[n].inventory)
  {
  }

  lemma SweepingBecomes(work: P.Work, s: Network, at: nat, n: nat)
    requires Invariant(work, s) && Enabled(work, s, Sweep(at)) && n < |s.nodes|
    ensures Becomes(s, Sweep(at), n, Apply(work, s, Sweep(at)).nodes[n].inventory)
  {
    var after := Apply(work, s, Sweep(at)).nodes[n].inventory;
    assert InRange(s);
    hide Invariant, Apply, Becomes, Expired;
    SweepExactly(work, s, at);
    KeysAgreeAt(work, s, at);
    if n == at {
      SweptBecomes(s, at, after);
    } else {
      assert after == s.nodes[n].inventory;
      SameBecomes(s, Sweep(at), n);
    }
  }

  lemma SweptBecomes(s: Network, at: nat, after: Store)
    requires InRange(s) && at < |s.nodes|
    requires s.nodes[at].inventory.table.Keys == s.nodes[at].inventory.Live()
    requires after.Live() == set h | h in s.nodes[at].inventory.Live() && !Expired(h, s.now)
    requires after.table.Keys == after.Live()
    requires forall h :: h in after.Live() ==> after.table[h] == s.nodes[at].inventory.table[h]
    ensures Becomes(s, Sweep(at), at, after)
  {
    hide Expired;
  }

  lemma KeysAgreeAt(work: P.Work, s: Network, n: nat)
    requires Invariant(work, s) && n < |s.nodes|
    ensures s.nodes[n].inventory.table.Keys == s.nodes[n].inventory.Live()
  {
    assert NodeOk(work, s.now, s.nodes[n]);
    hide Invariant;
  }

  /** After any step a hash is live at a node if and only if the step brought it there, or it was live there and no
      sweep took it; and the rows that were there and were not taken are as they were. */
  lemma LiveExactly(work: P.Work, s: Network, step: Step, n: nat)
    requires Invariant(work, s) && Enabled(work, s, step) && n < |s.nodes|
    ensures |Apply(work, s, step).nodes| == |s.nodes|
    ensures Becomes(s, step, n, Apply(work, s, step).nodes[n].inventory)
  {
    assert InRange(s);
    hide Invariant, Apply, Becomes, GossipAtomic.Stores;
    match step {
      case InsertStep(l) =>
        GossipAtomic.StepStores(work, s, step);
        StoringBecomes(s, step, Apply(work, s, step), s.links[l].receiver, s.links[l].phase.message, n);
        StoringKeepsNodes(s, Apply(work, s, step), s.links[l].receiver, s.links[l].phase.message);
      case Submit(at, m, _) =>
        GossipAtomic.StepStores(work, s, step);
        StoringBecomes(s, step, Apply(work, s, step), at, m, n);
        StoringKeepsNodes(s, Apply(work, s, step), at, m);
      case Sweep(at) =>
        SweepExactly(work, s, at);
        SweepingBecomes(work, s, at, n);
      case _ =>
        GossipAtomic.OtherStepsStoreNothing(work, s, step);
        SameBecomes(s, step, n);
    }
  }

  /** Only the clock moves when it does, and it moves to where it is set. */
  lemma TickExactly(work: P.Work, s: Network, step: Step)
    requires InRange(s) && Enabled(work, s, step)
    ensures Apply(work, s, step).now == if step.Tick? then step.later else s.now
    ensures step.Tick? ==> Apply(work, s, step).nodes == s.nodes && Apply(work, s, step).links == s.links
  {
  }

  // ---------------------------------------------------------------- who is woken

  /** The step raises the flags of the clients of the node. */
  ghost predicate Raises(s: Network, step: Step, n: nat)
    requires InRange(s)
  {
    || (step.AnnounceStep? && step.link < |s.links| && s.links[step.link].receiver == n)
    || (step.AnnounceLocally? && step.node == n)
  }

  ghost predicate About(step: Step, l: nat) {
    match step
    case ScanStep(k) => k == l
    case TestStep(k) => k == l
    case FetchStep(k) => k == l
    case CheckStep(k) => k == l
    case InsertStep(k) => k == l
    case AnnounceStep(k) => k == l
    case WakeStep(k) => k == l
    case ResumeStep(k) => k == l
    case Sever(k) => k == l
    case _ => false
  }

  /** After any step a flag is up if and only if the step raised it, or it was up and was neither taken down by its
      own client nor cut off; a `Proceed` is offered if and only if the step took the flag down for it, or it was
      offered and was neither taken nor cut off. A new link has neither. */
  lemma FlagsExactly(work: P.Work, s: Network, step: Step)
    requires InRange(s) && Enabled(work, s, step)
    ensures var t := Apply(work, s, step);
            && |t.links| == |s.links| + (if step.Connect? then 1 else 0)
            && (step.Connect? ==> t.links[|s.links|] == Fresh(step.sender, step.receiver))
            && forall l: nat :: l < |s.links| ==>
                 && t.links[l].sender == s.links[l].sender && t.links[l].receiver == s.links[l].receiver
                 && (t.links[l].flag <==>
                     || (Raises(s, step, s.links[l].sender) && !s.links[l].phase.Severed?)
                     || (s.links[l].flag && step != WakeStep(l) && step != Sever(l)))
                 && (t.links[l].proceed <==>
                     || step == WakeStep(l)
                     || (s.links[l].proceed && step != ResumeStep(l) && step != Sever(l)))
  {
    hide Inventory.Inserted, Inventory.Purged, Inventory.NextCounter;
  }

  /** The step brings an arrival to the node. */
  ghost predicate Grows(s: Network, step: Step, n: nat)
    requires InRange(s)
  {
    exists h :: Brings(s, step, n, h)
  }

  lemma GrowsExactly(s: Network, step: Step, n: nat)
    requires InRange(s)
    ensures Grows(s, step, n) <==>
            || (step.Submit? && step.node == n)
            || (step.InsertStep? && step.link < |s.links| && s.links[step.link].phase.Inserting?
                && s.links[step.link].receiver == n)
  {
    if step.Submit? && step.node == n {
      assert Brings(s, step, n, Inventory.MessageHash(step.message));
    } else if step.InsertStep? && step.link < |s.links| && s.links[step.link].phase.Inserting?
              && s.links[step.link].receiver == n {
      assert Brings(s, step, n, Inventory.MessageHash(s.links[step.link].phase.message));
    }
  }

  /** After any step an arrival is unannounced if and only if the step brought it, or it was and the step raised no
      flags at its node; and a local submission is still to raise some exactly until it does. */
  lemma UnannouncedExactly(work: P.Work, s: Network, step: Step, n: nat)
    requires InRange(s) && Enabled(work, s, step) && n < |s.nodes|
    ensures var before, after := s.nodes[n], Apply(work, s, step).nodes[n];
            && after.inventory.counter == before.inventory.counter + (if Grows(s, step, n) then 1 else 0)
            && (forall c :: c in after.unannounced <==>
                            || (Grows(s, step, n) && c == after.inventory.counter)
                            || (c in before.unannounced && !Raises(s, step, n)))
            && (forall c :: c in after.submissions <==>
                            || (step.Submit? && step.node == n && c == after.inventory.counter)
                            || (c in before.submissions && step != AnnounceLocally(n, c)))
  {
    GrowsExactly(s, step, n);
    hide Grows;
    match step {
      case InsertStep(l) => StoringCounts(s.nodes[s.links[l].receiver].inventory, s.links[l].phase.message);
      case Submit(at, m, _) => StoringCounts(s.nodes[at].inventory, m);
      case Sweep(at) =>
      case _ =>
    }
    hide Inventory.Inserted, Inventory.Purged, Inventory.NextCounter, Broadcast;
  }

  lemma StoringCounts(store: Store, m: Message)
    ensures Inventory.Inserted(store, m).counter == store.counter + 1
  {
  }

  // ---------------------------------------------------------------- where the clients are

  /** A step leaves every client it is not about where it is; a client that is woken goes on scanning from there. */
  lemma ClientsExactly(work: P.Work, s: Network, step: Step)
    requires InRange(s) && Enabled(work, s, step)
    ensures var t := Apply(work, s, step);
            forall l: nat :: l < |s.links| ==>
              && (!About(step, l) || step.WakeStep? ==> t.links[l].phase == s.links[l].phase)
              && (step == Sever(l) ==> t.links[l].phase.Severed?)
              && (step == ResumeStep(l) || step == AnnounceStep(l) ==> t.links[l].phase.Scanning?)
              && (step == InsertStep(l) ==>
                    t.links[l].phase == Announcing(s.nodes[s.links[l].receiver].inventory.counter + 1))
              && (step != ScanStep(l) ==> t.links[l].cursor == s.links[l].cursor)
  {
    hide Inventory.Inserted, Inventory.Purged, Inventory.NextCounter;
  }

  /** A scan moves the cursor to the next arrival, and the client parks exactly if there is none. */
  lemma ScanExactly(work: P.Work, s: Network, l: nat)
    requires InRange(s) && Enabled(work, s, ScanStep(l))
    requires Inventory.Consistent(s.nodes[s.links[l].sender].inventory)
    ensures var k, own := Apply(work, s, ScanStep(l)).links[l], s.nodes[s.links[l].sender].inventory;
            && (k.phase.Parked? <==> forall c :: c in own.counterToHash ==> c <= s.links[l].cursor)
            && (k.phase.Parked? ==> k.cursor == s.links[l].cursor)
            && (!k.phase.Parked? ==>
                  && s.links[l].cursor < k.cursor
                  && k.cursor in own.counterToHash && k.phase == Testing(own.counterToHash[k.cursor])
                  && forall c :: c in own.counterToHash && s.links[l].cursor < c ==> k.cursor <= c)
  {
    var next := Inventory.NextCounter(s.nodes[s.links[l].sender].inventory, s.links[l].cursor);
    if next.Some? {
      assert next.value in s.nodes[s.links[l].sender].inventory.counterToHash;
    }
    hide Inventory.NextCounter;
  }

  /** A peer that has the hash is sent nothing, and one that lacks it is sent the row, if there still is one. */
  lemma OfferExactly(work: P.Work, s: Network, l: nat)
    requires InRange(s)
    ensures Enabled(work, s, TestStep(l)) ==>
              var k, peer := Apply(work, s, TestStep(l)).links[l], s.nodes[s.links[l].receiver].inventory;
              k.phase == if s.links[l].phase.hash in peer.Live() then Scanning else Fetching(s.links[l].phase.hash)
    ensures Enabled(work, s, FetchStep(l)) && Inventory.Consistent(s.nodes[s.links[l].sender].inventory) ==>
              var k, own := Apply(work, s, FetchStep(l)).links[l], s.nodes[s.links[l].sender].inventory;
              && (k.phase.Submitting? <==> s.links[l].phase.hash in own.Live())
              && (k.phase.Submitting? ==> Inventory.MessageHash(k.phase.message) == s.links[l].phase.hash)
              && (!k.phase.Submitting? ==> k.phase.Scanning?)
  {
  }

  /** In every reachable network a submission passes the check if and only if the peer lacks it and it has not
      expired. */
  lemma CheckExactly(work: P.Work, s: Network, l: nat)
    requires Invariant(work, s) && Enabled(work, s, CheckStep(l))
    ensures var k, h := Apply(work, s, CheckStep(l)).links[l], Inventory.MessageHash(s.links[l].phase.message);
            && (k.phase == Inserting(s.links[l].phase.message) <==>
                h !in s.nodes[s.links[l].receiver].inventory.Live() && !Expired(h, s.now))
            && (k.phase == Inserting(s.links[l].phase.message) || k.phase.Scanning?)
  {
    assert LinkAt(work, s, l);
    MinedStaysValid(work, s.now, s.links[l].phase.message);
    hide P.Verify, Expired, NodeOk, Inventory.Consistent;
  }
}
