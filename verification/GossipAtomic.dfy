/** How often a node stores the same message: at most once from its peers if a peer's check and its insertion are
    one step, and never again while it has it if local submissions are new as well. As separate steps, two links
    may store it twice. */
module GossipAtomic {
  import opened Gossip
  import opened GossipSafety
  import Inventory
  import P = ProofOfWork

  /** A peer answers a submission in one go: it stores the message at once if its checks pass. */
  ghost function Answer(work: P.Work, s: Network, l: nat): (t: Network)
    requires InRange(s) && Enabled(work, s, CheckStep(l))
    ensures InRange(t)
  {
    var checked := Apply(work, s, CheckStep(l));
    if checked.links[l].phase.Inserting? then Apply(work, checked, InsertStep(l)) else checked
  }

  /** Every other step as it is, local submissions of whatever message included. */
  predicate Single(step: Step) {
    !step.CheckStep? && !step.InsertStep?
  }

  ghost predicate AtomicNext(work: P.Work, s: Network, t: Network) {
    && InRange(s)
    && ( || (exists l :: Enabled(work, s, CheckStep(l)) && t == Answer(work, s, l))
         || (exists step :: Single(step) && Enabled(work, s, step) && t == Apply(work, s, step)))
  }

  // ---------------------------------------------------------------- accepting once

  /** The node has the message, or its time has passed. */
  ghost predicate Settled(s: Network, n: nat, h: Hash) {
    n < |s.nodes| && (h in s.nodes[n].inventory.Live() || Expired(h, s.now))
  }

  /** Node `n` accepts what link `l` submits to it, which has hash `h`. */
  ghost predicate Accepts(work: P.Work, s: Network, l: nat, n: nat, h: Hash) {
    && InRange(s) && Enabled(work, s, CheckStep(l))
    && s.links[l].receiver == n && Inventory.MessageHash(s.links[l].phase.message) == h
    && Apply(work, s, CheckStep(l)).links[l].phase.Inserting?
  }

  /** What every step does to inventories and the clock. */
  ghost predicate LosesOnlyExpired(s: Network, t: Network) {
    && |t.nodes| == |s.nodes| && s.now <= t.now
    && forall n, h :: 0 <= n < |s.nodes| && h in s.nodes[n].inventory.Live() ==>
                        h in t.nodes[n].inventory.Live() || Expired(h, s.now)
  }

  lemma OtherStepsStoreNothing(work: P.Work, s: Network, step: Step)
    requires InRange(s) && Enabled(work, s, step)
    requires !step.InsertStep? && !step.Submit? && !step.Sweep?
    ensures var t := Apply(work, s, step);
            && |t.nodes| == |s.nodes| && s.now <= t.now
            && (forall n :: 0 <= n < |s.nodes| ==> t.nodes[n].inventory == s.nodes[n].inventory)
            && (!step.CheckStep? ==>
                  forall l :: 0 <= l < |t.links| && t.links[l].phase.Inserting? ==>
                                l < |s.links| && s.links[l].phase.Inserting?)
  {
  }

  lemma SweepLosesOnlyExpired(work: P.Work, s: Network, n: nat)
    requires InRange(s) && Enabled(work, s, Sweep(n))
    ensures LosesOnlyExpired(s, Apply(work, s, Sweep(n)))
  {
    forall h: Hash ensures Expired(h, s.now) <==> h.expirationTime <= s.now / P.NANOSECONDS {
      P.ExpiryInWholeSeconds(h.expirationTime, s.now);
    }
    hide Expired;
  }

  /** `t` is `s` with one more message stored at one node, as far as inventories and the clock go. */
  ghost predicate Stores(s: Network, t: Network, n: nat, m: Message) {
    && n < |s.nodes| == |t.nodes| && t.now == s.now
    && t.nodes[n].inventory == Inventory.Inserted(s.nodes[n].inventory, m)
    && forall k :: 0 <= k < |s.nodes| && k != n ==> t.nodes[k].inventory == s.nodes[k].inventory
  }

  lemma StoringLosesNothing(s: Network, t: Network, n: nat, m: Message)
    requires Stores(s, t, n, m)
    ensures LosesOnlyExpired(s, t) && Inventory.MessageHash(m) in t.nodes[n].inventory.Live()
  {
    Inventory.InsertChangesKeys(s.nodes[n].inventory, m);
    hide Inventory.Inserted, Expired;
  }

  lemma StepStores(work: P.Work, s: Network, step: Step)
    requires InRange(s) && Enabled(work, s, step)
    ensures step.InsertStep? ==>
              Stores(s, Apply(work, s, step), s.links[step.link].receiver, s.links[step.link].phase.message)
    ensures step.Submit? ==> Stores(s, Apply(work, s, step), step.node, step.message)
  {
    hide Inventory.Inserted;
  }

  lemma StepLosesOnlyExpired(work: P.Work, s: Network, step: Step)
    requires InRange(s) && Enabled(work, s, step)
    ensures LosesOnlyExpired(s, Apply(work, s, step))
  {
    hide Apply, Expired, Stores;
    StepStores(work, s, step);
    match step {
      case InsertStep(l) =>
        StoringLosesNothing(s, Apply(work, s, step), s.links[l].receiver, s.links[l].phase.message);
      case Submit(n, m, _) => StoringLosesNothing(s, Apply(work, s, step), n, m);
      case Sweep(n) => SweepLosesOnlyExpired(work, s, n);
      case _ => OtherStepsStoreNothing(work, s, step);
    }
  }

  lemma SettledStays(s: Network, t: Network, n: nat, h: Hash)
    requires Settled(s, n, h) && LosesOnlyExpired(s, t)
    ensures Settled(t, n, h)
  {
    if h in s.nodes[n].inventory.Live() {
      assert h in t.nodes[n].inventory.Live() || Expired(h, s.now);
    }
  }

  lemma AtomicNextKeepsSettled(work: P.Work, s: Network, t: Network, n: nat, h: Hash)
    requires AtomicNext(work, s, t) && Settled(s, n, h)
    ensures Settled(t, n, h)
  {
    hide Apply, Enabled, Settled, LosesOnlyExpired;
    if step :| Single(step) && Enabled(work, s, step) && t == Apply(work, s, step) {
      StepLosesOnlyExpired(work, s, step);
      SettledStays(s, t, n, h);
    } else {
      var l :| Enabled(work, s, CheckStep(l)) && t == Answer(work, s, l);
      AnswerKeepsSettled(work, s, l, n, h);
    }
  }

  lemma AnswerKeepsSettled(work: P.Work, s: Network, l: nat, n: nat, h: Hash)
    requires InRange(s) && Enabled(work, s, CheckStep(l)) && Settled(s, n, h)
    ensures Settled(Answer(work, s, l), n, h)
  {
    var checked := Apply(work, s, CheckStep(l));
    StepLosesOnlyExpired(work, s, CheckStep(l));
    SettledStays(s, checked, n, h);
    if checked.links[l].phase.Inserting? {
      assert Enabled(work, checked, InsertStep(l));
      hide Apply, Enabled, Settled, LosesOnlyExpired;
      StepLosesOnlyExpired(work, checked, InsertStep(l));
      SettledStays(checked, Apply(work, checked, InsertStep(l)), n, h);
    }
  }

  /** Accepting settles what was not settled. */
  lemma AcceptingSettles(work: P.Work, s: Network, l: nat, n: nat, h: Hash)
    requires Accepts(work, s, l, n, h)
    ensures !Settled(s, n, h) && Settled(Answer(work, s, l), n, h)
  {
    var checked := Apply(work, s, CheckStep(l));
    assert checked.links[l].receiver == n && checked.links[l].phase == Inserting(s.links[l].phase.message);
    hide Apply;
    StepStores(work, checked, InsertStep(l));
    StoringLosesNothing(checked, Answer(work, s, l), n, s.links[l].phase.message);
    hide Stores, LosesOnlyExpired;
  }

  lemma {:induction false} SettledFromThenOn(work: P.Work, run: seq<Network>, i: nat, j: nat, n: nat, h: Hash)
    requires i <= j < |run| && Settled(run[i], n, h)
    requires forall k :: 0 <= k < |run| - 1 ==> AtomicNext(work, run[k], run[k + 1])
    ensures Settled(run[j], n, h)
    decreases j - i
  {
    hide AtomicNext, Settled;
    if i < j {
      SettledFromThenOn(work, run, i, j - 1, n, h);
      assert AtomicNext(work, run[j - 1], run[j - 1 + 1]);
      AtomicNextKeepsSettled(work, run[j - 1], run[j], n, h);
    }
  }

  /** Where a peer's check and its insertion are one step, no node accepts the same message twice over any run,
      whatever is swept, submitted or severed in between and however the run began. */
  lemma AcceptedOnce(work: P.Work, run: seq<Network>, i: nat, j: nat, l: nat, k: nat, n: nat, h: Hash)
    requires forall m :: 0 <= m < |run| - 1 ==> AtomicNext(work, run[m], run[m + 1])
    requires i < |run| - 1 && Accepts(work, run[i], l, n, h) && run[i + 1] == Answer(work, run[i], l)
    requires j < |run| - 1 && Accepts(work, run[j], k, n, h) && run[j + 1] == Answer(work, run[j], k)
    ensures i == j
  {
    hide AtomicNext, Accepts, Settled;
    AcceptingSettles(work, run[i], l, n, h);
    AcceptingSettles(work, run[j], k, n, h);
    if i < j {
      SettledFromThenOn(work, run, i + 1, j, n, h);
    } else if j < i {
      SettledFromThenOn(work, run, j + 1, i, n, h);
    }
  }

  // ---------------------------------------------------------------- storing what is there

  /** The two counter maps of every node invert each other. */
  ghost predicate Inverse(s: Network) {
    forall n :: 0 <= n < |s.nodes| ==> Inventory.Bijective(s.nodes[n].inventory)
  }

  /** The step stores a message at a node that has it. */
  ghost predicate StoresAgain(work: P.Work, s: Network, step: Step)
    requires InRange(s) && Enabled(work, s, step)
  {
    match step
    case InsertStep(l) =>
      Inventory.MessageHash(s.links[l].phase.message) in s.nodes[s.links[l].receiver].inventory.Live()
    case Submit(n, m, _) => Inventory.MessageHash(m) in s.nodes[n].inventory.Live()
    case _ => false
  }

  lemma StoringKeepsInverse(s: Network, t: Network, n: nat, m: Message)
    requires Inverse(s) && Stores(s, t, n, m)
    ensures Inverse(t) <==> Inventory.MessageHash(m) !in s.nodes[n].inventory.Live()
  {
    hide Inventory.Bijective, Inventory.Inserted;
    Inventory.InsertKeepsBijectiveIffFresh(s.nodes[n].inventory, m);
    if Inventory.MessageHash(m) in s.nodes[n].inventory.Live() {
      assert !Inventory.Bijective(t.nodes[n].inventory);
    }
  }

  lemma SweepKeepsInverse(work: P.Work, s: Network, n: nat)
    requires InRange(s) && Inverse(s) && Enabled(work, s, Sweep(n))
    ensures Inverse(Apply(work, s, Sweep(n)))
  {
    Inventory.PurgeKeepsBijective(s.nodes[n].inventory, s.now / P.NANOSECONDS);
    hide Inventory.Bijective, Inventory.Purged;
  }

  /** Any one step, atomic or not, keeps them so exactly when it does not store what is there. */
  lemma StepKeepsInverseExactly(work: P.Work, s: Network, step: Step)
    requires InRange(s) && Inverse(s) && Enabled(work, s, step)
    ensures Inverse(Apply(work, s, step)) <==> !StoresAgain(work, s, step)
  {
    StepStores(work, s, step);
    match step {
      case InsertStep(l) =>
        hide Apply, Inverse, Stores;
        StoringKeepsInverse(s, Apply(work, s, step), s.links[l].receiver, s.links[l].phase.message);
      case Submit(n, m, _) =>
        hide Apply, Inverse, Stores;
        StoringKeepsInverse(s, Apply(work, s, step), n, m);
      case Sweep(n) => SweepKeepsInverse(work, s, n);
      case _ =>
        OtherStepsStoreNothing(work, s, step);
        hide Apply, Inventory.Bijective;
    }
  }

  // ---------------------------------------------------------------- atomic answers and new submissions

  /** No entry is stale anywhere, and no insertion is halfway. */
  ghost predicate Exact(s: Network) {
    Inverse(s) && forall l :: 0 <= l < |s.links| ==> !s.links[l].phase.Inserting?
  }

  /** An answer, or a step that submits nothing the node has. */
  ghost predicate FreshNext(work: P.Work, s: Network, t: Network) {
    && InRange(s)
    && ( || (exists l :: Enabled(work, s, CheckStep(l)) && t == Answer(work, s, l))
         || (exists step :: Single(step) && Enabled(work, s, step) && !StoresAgain(work, s, step)
                            && t == Apply(work, s, step)))
  }

  lemma AnswerKeepsExact(work: P.Work, s: Network, l: nat)
    requires InRange(s) && Exact(s) && Enabled(work, s, CheckStep(l))
    ensures Exact(Answer(work, s, l))
  {
    var checked := Apply(work, s, CheckStep(l));
    StepKeepsInverseExactly(work, s, CheckStep(l));
    CheckingBeginsOne(work, s, l);
    if checked.links[l].phase.Inserting? {
      assert Enabled(work, checked, InsertStep(l)) && !StoresAgain(work, checked, InsertStep(l));
      hide Inverse;
      StepKeepsInverseExactly(work, checked, InsertStep(l));
      InsertingEndsOne(work, checked, l);
    }
    hide Inverse, Apply;
  }

  lemma CheckingBeginsOne(work: P.Work, s: Network, l: nat)
    requires InRange(s) && Enabled(work, s, CheckStep(l))
    ensures var t := Apply(work, s, CheckStep(l));
            && |t.links| == |s.links| && t.nodes == s.nodes
            && (forall k :: 0 <= k < |s.links| && k != l ==> t.links[k] == s.links[k])
            && (t.links[l].phase.Inserting? ==>
                  && t.links[l].receiver == s.links[l].receiver
                  && Inventory.MessageHash(t.links[l].phase.message) !in t.nodes[t.links[l].receiver].inventory.Live())
  {
    hide P.Verify;
  }

  lemma InsertingEndsOne(work: P.Work, s: Network, l: nat)
    requires InRange(s) && Enabled(work, s, InsertStep(l))
    ensures var t := Apply(work, s, InsertStep(l));
            && |t.links| == |s.links| && !t.links[l].phase.Inserting?
            && (forall k :: 0 <= k < |s.links| && k != l ==> t.links[k] == s.links[k])
  {
    hide Stored;
  }

  lemma FreshNextKeepsExact(work: P.Work, s: Network, t: Network)
    requires Exact(s) && FreshNext(work, s, t)
    ensures Exact(t)
  {
    if l :| Enabled(work, s, CheckStep(l)) && t == Answer(work, s, l) {
      hide Exact, Enabled, Apply, Answer;
      AnswerKeepsExact(work, s, l);
    } else {
      var step :| Single(step) && Enabled(work, s, step) && !StoresAgain(work, s, step) && t == Apply(work, s, step);
      StepKeepsInverseExactly(work, s, step);
      SingleBeginsNone(work, s, step);
      hide Inverse, Apply, Enabled, StoresAgain;
    }
  }

  lemma SingleBeginsNone(work: P.Work, s: Network, step: Step)
    requires InRange(s) && Enabled(work, s, step) && Single(step)
    ensures var t := Apply(work, s, step);
            forall l :: 0 <= l < |t.links| && t.links[l].phase.Inserting? ==>
                          l < |s.links| && s.links[l].phase.Inserting?
  {
    hide Inventory.Inserted, Inventory.Purged;
  }

  /** If moreover local submissions are of messages the node does not have, the counter maps of every node stay
      mutually inverse over every run: no node ever stores a message that it has. */
  lemma {:induction false} FreshRunsStayExact(work: P.Work, run: seq<Network>, i: nat)
    requires i < |run| && Exact(run[0])
    requires forall j :: 0 <= j < |run| - 1 ==> FreshNext(work, run[j], run[j + 1])
    ensures Exact(run[i])
  {
    hide Exact, FreshNext;
    if i > 0 {
      FreshRunsStayExact(work, run, i - 1);
      assert FreshNext(work, run[i - 1], run[i - 1 + 1]);
      FreshNextKeepsExact(work, run[i - 1], run[i]);
    }
  }
}
