/** Without new submissions and connections, reconciliation stops, whatever sweeps, ticks of the clock and broken
    connections come between its steps. */
module GossipTermination {
  import opened Wrappers
  import opened Gossip
  import opened GossipSafety
  import Inventory
  import P = ProofOfWork

  /** The steps nodes and links take on their own. */
  predicate Internal(step: Step) {
    !step.Submit? && !step.Sweep? && !step.Tick? && !step.Connect? && !step.Sever?
  }

  /** What may happen to them meanwhile. */
  predicate Ambient(step: Step) {
    step.Sweep? || step.Tick? || step.Sever?
  }

  ghost predicate AmbientNext(work: P.Work, s: Network, t: Network) {
    InRange(s) && exists step :: Ambient(step) && Enabled(work, s, step) && t == Apply(work, s, step)
  }

  ghost predicate GossipNext(work: P.Work, s: Network, t: Network) {
    InRange(s) && exists step :: Internal(step) && Enabled(work, s, step) && t == Apply(work, s, step)
  }

  // ---------------------------------------------------------------- sums over links and nodes

  function Sum(s: seq<nat>): nat {
    if s == [] then 0 else s[0] + Sum(s[1..])
  }

  lemma {:induction false} SumChangesAt(s: seq<nat>, t: seq<nat>, i: nat)
    requires i < |s| == |t|
    requires forall j :: 0 <= j < |s| && j != i ==> s[j] == t[j]
    ensures Sum(t) + s[i] == Sum(s) + t[i]
    decreases i
  {
    if i == 0 {
      assert s[1..] == t[1..];
    } else {
      SumChangesAt(s[1..], t[1..], i - 1);
    }
  }

  lemma {:induction false} SumIsMonotone(s: seq<nat>, t: seq<nat>)
    requires |s| == |t| && forall i :: 0 <= i < |s| ==> s[i] <= t[i]
    ensures Sum(s) <= Sum(t)
  {
    if s != [] {
      SumIsMonotone(s[1..], t[1..]);
    }
  }

  // ---------------------------------------------------------------- the measure

  /** Compared lexicographically: deliveries still possible, broadcasts outstanding, wake-ups outstanding,
      entries left to scan. */
  datatype Measure = Measure(missing: nat, broadcasts: nat, wakes: nat, backlog: nat) {
    predicate Below(other: Measure) {
      || missing < other.missing
      || (missing == other.missing && broadcasts < other.broadcasts)
      || (missing == other.missing && broadcasts == other.broadcasts && wakes < other.wakes)
      || (missing == other.missing && broadcasts == other.broadcasts && wakes == other.wakes
          && backlog < other.backlog)
    }

    /** No component is larger. */
    predicate AtMost(other: Measure) {
      missing <= other.missing && broadcasts <= other.broadcasts && wakes <= other.wakes && backlog <= other.backlog
    }
  }

  /** Every hash that is stored, indexed or on its way. */
  ghost predicate Within(s: Network, universe: set<Hash>) {
    && (forall n, c :: 0 <= n < |s.nodes| && c in s.nodes[n].inventory.counterToHash ==>
                         s.nodes[n].inventory.counterToHash[c] in universe)
    && (forall l :: 0 <= l < |s.links| && InFlight(s.links[l]).Some? ==> InFlight(s.links[l]).value in universe)
  }

  /** Link `l` may yet make its receiver store `h`: what expired is not accepted any more. */
  ghost predicate MayDeliver(s: Network, l: nat, h: Hash)
    requires InRange(s) && l < |s.links|
  {
    || (h !in s.nodes[s.links[l].receiver].inventory.hashToCounter && !Expired(h, s.now))
    || (s.links[l].phase.Inserting? && Inventory.MessageHash(s.links[l].phase.message) == h)
  }

  ghost function Missing(s: Network, universe: set<Hash>): set<(nat, Hash)>
    requires InRange(s)
  {
    set l: nat, h | 0 <= l < |s.links| && h in universe && MayDeliver(s, l, h) :: (l, h)
  }

  function BroadcastWeight(k: Link): nat {
    if k.phase.Announcing? then 1 else 0
  }

  function WakeWeight(k: Link): nat {
    if k.phase.Severed? then
      0
    else
      (if k.flag then 3 else 0) + (if k.proceed then 2 else 0) + (if k.phase.Parked? then 0 else 1)
  }

  function Rank(phase: Phase): nat {
    match phase
    case Testing(_) => 3
    case Fetching(_) => 2
    case Submitting(_) => 1
    case _ => 0
  }

  function Backlog(k: Link, own: Store): nat {
    4 * |Inventory.Beyond(own, k.cursor)| + Rank(k.phase)
  }

  function BroadcastWeights(s: Network): seq<nat> {
    seq(|s.links|, i requires 0 <= i < |s.links| => BroadcastWeight(s.links[i]))
  }

  function SubmissionWeights(s: Network): seq<nat> {
    seq(|s.nodes|, i requires 0 <= i < |s.nodes| => |s.nodes[i].submissions|)
  }

  function WakeWeights(s: Network): seq<nat> {
    seq(|s.links|, i requires 0 <= i < |s.links| => WakeWeight(s.links[i]))
  }

  ghost function Backlogs(s: Network): seq<nat>
    requires InRange(s)
  {
    seq(|s.links|, i requires 0 <= i < |s.links| =>
      Backlog(s.links[i], s.nodes[s.links[i].sender].inventory))
  }

  ghost function Remaining(s: Network, universe: set<Hash>): Measure
    requires InRange(s)
  {
    Measure(|Missing(s, universe)|,
            Sum(BroadcastWeights(s)) + Sum(SubmissionWeights(s)),
            Sum(WakeWeights(s)),
            Sum(Backlogs(s)))
  }

  // ---------------------------------------------------------------- steps that store nothing

  /** Link `l` may become `k` without ending an insertion, and without beginning one of a hash that the
      receiver already has or that expired. */
  ghost predicate KeepsInsertions(s: Network, l: nat, k: Link)
    requires InRange(s) && l < |s.links| && k.receiver < |s.nodes|
  {
    k.phase == s.links[l].phase ||
    (&& !s.links[l].phase.Inserting?
     && (k.phase.Inserting? ==>
           && Inventory.MessageHash(k.phase.message) !in s.nodes[k.receiver].inventory.hashToCounter
           && !Expired(Inventory.MessageHash(k.phase.message), s.now)))
  }

  /** A link change that neither begins nor ends an insertion leaves the possible deliveries alone. */
  lemma LinkChangeKeepsMissing(s: Network, l: nat, k: Link, universe: set<Hash>)
    requires InRange(s) && l < |s.links|
    requires k.sender == s.links[l].sender && k.receiver == s.links[l].receiver
    requires KeepsInsertions(s, l, k)
    ensures Missing(s.(links := s.links[l := k]), universe) == Missing(s, universe)
  {
    var t := s.(links := s.links[l := k]);
    forall i: nat, h | i < |s.links| ensures MayDeliver(t, i, h) <==> MayDeliver(s, i, h) {
    }
  }

  lemma LinkChangeSums(s: Network, l: nat, k: Link)
    requires InRange(s) && l < |s.links|
    requires k.sender == s.links[l].sender && k.receiver == s.links[l].receiver
    ensures var t := s.(links := s.links[l := k]);
            && Sum(BroadcastWeights(t)) + BroadcastWeight(s.links[l]) == Sum(BroadcastWeights(s)) + BroadcastWeight(k)
            && SubmissionWeights(t) == SubmissionWeights(s)
            && Sum(WakeWeights(t)) + WakeWeight(s.links[l]) == Sum(WakeWeights(s)) + WakeWeight(k)
            && Sum(Backlogs(t)) + Backlog(s.links[l], s.nodes[k.sender].inventory)
               == Sum(Backlogs(s)) + Backlog(k, s.nodes[k.sender].inventory)
  {
    var t := s.(links := s.links[l := k]);
    SumChangesAt(BroadcastWeights(s), BroadcastWeights(t), l);
    SumChangesAt(WakeWeights(s), WakeWeights(t), l);
    SumChangesAt(Backlogs(s), Backlogs(t), l);
  }

  /** A link that comes closer to rest by itself brings the whole network closer. */
  lemma LinkChangeDescends(s: Network, l: nat, k: Link, universe: set<Hash>)
    requires InRange(s) && l < |s.links|
    requires k.sender == s.links[l].sender && k.receiver == s.links[l].receiver
    requires KeepsInsertions(s, l, k)
    requires BroadcastWeight(k) == BroadcastWeight(s.links[l])
    requires var own := s.nodes[k.sender].inventory;
             || WakeWeight(k) < WakeWeight(s.links[l])
             || (WakeWeight(k) == WakeWeight(s.links[l]) && Backlog(k, own) < Backlog(s.links[l], own))
    ensures Remaining(s.(links := s.links[l := k]), universe).Below(Remaining(s, universe))
  {
    LinkChangeKeepsMissing(s, l, k, universe);
    LinkChangeSums(s, l, k);
  }

  lemma ScanDescends(k: Link, own: Store)
    requires k.phase.Scanning? && Inventory.Consistent(own)
    ensures || WakeWeight(Scan(k, own)) < WakeWeight(k)
            || (WakeWeight(Scan(k, own)) == WakeWeight(k) && Backlog(Scan(k, own), own) < Backlog(k, own))
  {
    Inventory.NextCounterIsExact(own, k.cursor);
    var next := Inventory.NextCounter(own, k.cursor);
    if next.Some? {
      assert next.value in Inventory.Beyond(own, k.cursor);
      assert |Inventory.Beyond(own, k.cursor) - {next.value}| == |Inventory.Beyond(own, k.cursor)| - 1;
    }
  }

  /** The steps that change one link and nothing else. */
  predicate Quiet(step: Step) {
    step.ScanStep? || step.TestStep? || step.FetchStep? || step.CheckStep? || step.WakeStep? || step.ResumeStep?
  }

  ghost function Moved(work: P.Work, s: Network, step: Step): (k: Link)
    requires InRange(s) && Enabled(work, s, step) && Quiet(step)
    ensures k.sender == s.links[step.link].sender && k.receiver == s.links[step.link].receiver
  {
    Apply(work, s, step).links[step.link]
  }

  lemma QuietStepMovesOneLink(work: P.Work, s: Network, step: Step)
    requires InRange(s) && Enabled(work, s, step) && Quiet(step)
    ensures Apply(work, s, step) == s.(links := s.links[step.link := Moved(work, s, step)])
    ensures KeepsInsertions(s, step.link, Moved(work, s, step))
    ensures BroadcastWeight(Moved(work, s, step)) == BroadcastWeight(s.links[step.link])
  {
  }

  lemma QuietStepSettlesLink(work: P.Work, s: Network, step: Step)
    requires Invariant(work, s) && Enabled(work, s, step) && Quiet(step)
    ensures var k, k' := s.links[step.link], Moved(work, s, step);
            var own := s.nodes[k.sender].inventory;
            || WakeWeight(k') < WakeWeight(k)
            || (WakeWeight(k') == WakeWeight(k) && Backlog(k', own) < Backlog(k, own))
  {
    if step.ScanStep? {
      var k := s.links[step.link];
      assert NodeOk(work, s.now, s.nodes[k.sender]);
      ScanDescends(k, s.nodes[k.sender].inventory);
    }
  }

  lemma QuietStepDescends(work: P.Work, s: Network, step: Step, universe: set<Hash>)
    requires Invariant(work, s) && Enabled(work, s, step) && Quiet(step)
    ensures Remaining(Apply(work, s, step), universe).Below(Remaining(s, universe))
  {
    QuietStepMovesOneLink(work, s, step);
    QuietStepSettlesLink(work, s, step);
    LinkChangeDescends(s, step.link, Moved(work, s, step), universe);
    hide Apply, Moved, Invariant, Remaining, WakeWeight, Backlog, BroadcastWeight;
  }

  // ---------------------------------------------------------------- steps that store or announce

  lemma InsertDescends(work: P.Work, s: Network, l: nat, universe: set<Hash>)
    requires Invariant(work, s) && Enabled(work, s, InsertStep(l)) && Within(s, universe)
    ensures Remaining(Apply(work, s, InsertStep(l)), universe).Below(Remaining(s, universe))
  {
    var t := Apply(work, s, InsertStep(l));
    var k := s.links[l];
    var h := Inventory.MessageHash(k.phase.message);
    forall i: nat, g | i < |s.links| && g in universe && MayDeliver(t, i, g) ensures MayDeliver(s, i, g) {
    }
    assert InFlight(k) == Some(h);
    assert MayDeliver(s, l, h) && !MayDeliver(t, l, h);
    assert (l, h) in Missing(s, universe) && (l, h) !in Missing(t, universe);
    ProperSubsetIsSmaller(Missing(t, universe), Missing(s, universe));
  }

  lemma BroadcastKeepsMissing(s: Network, n: nat, universe: set<Hash>)
    requires InRange(s) && n < |s.nodes|
    ensures Missing(Announced(s, n), universe) == Missing(s, universe)
    ensures BroadcastWeights(Announced(s, n)) == BroadcastWeights(s)
    ensures SubmissionWeights(Announced(s, n)) == SubmissionWeights(s)
  {
    var t := Announced(s, n);
    forall i: nat, h | i < |s.links| ensures MayDeliver(t, i, h) <==> MayDeliver(s, i, h) {
    }
  }

  lemma AnnouncingDescends(work: P.Work, s: Network, step: Step, universe: set<Hash>)
    requires Invariant(work, s) && Enabled(work, s, step)
    requires step.AnnounceStep? || step.AnnounceLocally?
    ensures Remaining(Apply(work, s, step), universe).Below(Remaining(s, universe))
  {
    match step {
      case AnnounceStep(l) =>
        var k := s.links[l].(phase := Scanning);
        var t := s.(links := s.links[l := k]);
        LinkChangeKeepsMissing(s, l, k, universe);
        LinkChangeSums(s, l, k);
        BroadcastKeepsMissing(t, k.receiver, universe);
      case AnnounceLocally(n, c) =>
        var node := s.nodes[n].(submissions := s.nodes[n].submissions - {c});
        var t := s.(nodes := s.nodes[n := node]);
        forall i: nat, h | i < |s.links| ensures MayDeliver(t, i, h) <==> MayDeliver(s, i, h) {
        }
        assert Missing(t, universe) == Missing(s, universe);
        SumChangesAt(SubmissionWeights(s), SubmissionWeights(t), n);
        assert BroadcastWeights(t) == BroadcastWeights(s);
        BroadcastKeepsMissing(t, n, universe);
    }
  }

  lemma QuietStepStaysWithin(work: P.Work, s: Network, step: Step, universe: set<Hash>)
    requires Invariant(work, s) && Enabled(work, s, step) && Quiet(step) && Within(s, universe)
    ensures Within(Apply(work, s, step), universe)
  {
    QuietStepMovesOneLink(work, s, step);
    var k := s.links[step.link];
    var own := s.nodes[k.sender].inventory;
    assert NodeOk(work, s.now, s.nodes[k.sender]);
    if step.ScanStep? {
      Inventory.NextCounterIsExact(own, k.cursor);
    } else {
      assert InFlight(Moved(work, s, step)) == InFlight(k) || InFlight(Moved(work, s, step)).None?;
    }
  }

  lemma InsertStaysWithin(work: P.Work, s: Network, l: nat, universe: set<Hash>)
    requires InRange(s) && Enabled(work, s, InsertStep(l)) && Within(s, universe)
    ensures Within(Apply(work, s, InsertStep(l)), universe)
  {
    var t := Apply(work, s, InsertStep(l));
    var k := s.links[l];
    var before, after := s.nodes[k.receiver].inventory, t.nodes[k.receiver].inventory;
    assert InFlight(k).value in universe;
    assert after.counterToHash == before.counterToHash[before.counter + 1 := Inventory.MessageHash(k.phase.message)];
    forall n, c | 0 <= n < |t.nodes| && c in t.nodes[n].inventory.counterToHash
      ensures t.nodes[n].inventory.counterToHash[c] in universe
    {
      assert n == k.receiver || t.nodes[n] == s.nodes[n];
    }
    assert forall i :: 0 <= i < |s.links| && i != l ==> t.links[i] == s.links[i];
  }

  lemma AnnouncingStaysWithin(work: P.Work, s: Network, step: Step, universe: set<Hash>)
    requires InRange(s) && Enabled(work, s, step) && Within(s, universe)
    requires step.AnnounceStep? || step.AnnounceLocally?
    ensures Within(Apply(work, s, step), universe)
  {
    var t := Apply(work, s, step);
    assert forall n :: 0 <= n < |s.nodes| ==> t.nodes[n].inventory == s.nodes[n].inventory;
    assert forall l :: 0 <= l < |s.links| && InFlight(t.links[l]).Some? ==>
                         InFlight(t.links[l]) == InFlight(s.links[l]);
  }

  lemma InternalStepStaysWithin(work: P.Work, s: Network, step: Step, universe: set<Hash>)
    requires Invariant(work, s) && Enabled(work, s, step) && Internal(step) && Within(s, universe)
    ensures Within(Apply(work, s, step), universe)
  {
    match step {
      case InsertStep(l) => InsertStaysWithin(work, s, l, universe);
      case AnnounceStep(_) => AnnouncingStaysWithin(work, s, step, universe);
      case AnnounceLocally(_, _) => AnnouncingStaysWithin(work, s, step, universe);
      case _ => QuietStepStaysWithin(work, s, step, universe);
    }
  }

  /** Every internal step, whatever the interleaving, lowers the measure. Submissions need not be atomic:
      two links may insert the same message twice, but no link inserts it again. */
  lemma InternalStepDescends(work: P.Work, s: Network, step: Step, universe: set<Hash>)
    requires Invariant(work, s) && Enabled(work, s, step) && Internal(step) && Within(s, universe)
    ensures Remaining(Apply(work, s, step), universe).Below(Remaining(s, universe))
  {
    match step {
      case InsertStep(l) => InsertDescends(work, s, l, universe);
      case AnnounceStep(_) => AnnouncingDescends(work, s, step, universe);
      case AnnounceLocally(_, _) => AnnouncingDescends(work, s, step, universe);
      case _ => QuietStepDescends(work, s, step, universe);
    }
  }

  // ---------------------------------------------------------------- sweeps, ticks and broken connections

  lemma MissingShrinks(s: Network, t: Network, universe: set<Hash>)
    requires InRange(s) && InRange(t) && |s.links| == |t.links|
    requires forall i: nat, h | i < |s.links| && MayDeliver(t, i, h) :: MayDeliver(s, i, h)
    ensures |Missing(t, universe)| <= |Missing(s, universe)|
  {
    SubsetIsNotLarger(Missing(t, universe), Missing(s, universe));
  }

  lemma BacklogShrinks(k: Link, before: Store, after: Store)
    requires after.counterToHash.Keys <= before.counterToHash.Keys
    ensures Backlog(k, after) <= Backlog(k, before)
  {
    SubsetIsNotLarger(Inventory.Beyond(after, k.cursor), Inventory.Beyond(before, k.cursor));
  }

  /** A sweep only takes what expired, which nobody could be made to store again. */
  lemma SweepRaisesNothing(work: P.Work, s: Network, n: nat, universe: set<Hash>)
    requires Invariant(work, s) && Enabled(work, s, Sweep(n))
    ensures Remaining(Apply(work, s, Sweep(n)), universe).AtMost(Remaining(s, universe))
  {
    hide MayDeliver, Missing, Backlogs, Inventory.Purged, NodeOk, LinkAt, Sum;
    var t := Apply(work, s, Sweep(n));
    SweepTakesOnlyExpired(work, s, n);
    assert t.links == s.links && t.now == s.now && |t.nodes| == |s.nodes|;
    assert forall m :: 0 <= m < |s.nodes| && m != n ==> t.nodes[m] == s.nodes[m];
    assert t.nodes[n].submissions == s.nodes[n].submissions;
    hide Apply, Invariant;
    LosingExpired(s, t, n, universe);
    LosingEntries(s, t, n);
    assert SubmissionWeights(t) == SubmissionWeights(s);
  }

  lemma LosingExpired(s: Network, t: Network, n: nat, universe: set<Hash>)
    requires InRange(s) && InRange(t) && t.links == s.links && t.now == s.now && n < |t.nodes| == |s.nodes|
    requires forall m :: 0 <= m < |s.nodes| && m != n ==> t.nodes[m] == s.nodes[m]
    requires forall h :: h in s.nodes[n].inventory.hashToCounter ==>
                           h in t.nodes[n].inventory.hashToCounter || Expired(h, s.now)
    ensures |Missing(t, universe)| <= |Missing(s, universe)|
  {
    forall i: nat, h | i < |s.links| && MayDeliver(t, i, h) ensures MayDeliver(s, i, h) {
    }
    MissingShrinks(s, t, universe);
  }

  lemma LosingEntries(s: Network, t: Network, n: nat)
    requires InRange(s) && InRange(t) && t.links == s.links && n < |t.nodes| == |s.nodes|
    requires forall m :: 0 <= m < |s.nodes| && m != n ==> t.nodes[m] == s.nodes[m]
    requires t.nodes[n].inventory.counterToHash.Keys <= s.nodes[n].inventory.counterToHash.Keys
    ensures Sum(Backlogs(t)) <= Sum(Backlogs(s))
  {
    forall i | 0 <= i < |s.links| ensures Backlogs(t)[i] <= Backlogs(s)[i] {
      if s.links[i].sender == n {
        BacklogShrinks(s.links[i], s.nodes[n].inventory, t.nodes[n].inventory);
      }
    }
    SumIsMonotone(Backlogs(t), Backlogs(s));
  }

  lemma SweepTakesOnlyExpired(work: P.Work, s: Network, n: nat)
    requires Invariant(work, s) && Enabled(work, s, Sweep(n))
    ensures var before, after := s.nodes[n].inventory, Apply(work, s, Sweep(n)).nodes[n].inventory;
            && after.counterToHash.Keys <= before.counterToHash.Keys
            && (forall c :: c in after.counterToHash ==> after.counterToHash[c] == before.counterToHash[c])
            && (forall h :: h in before.hashToCounter ==> h in after.hashToCounter || Expired(h, s.now))
  {
    forall h: Hash ensures P.Expired(h.expirationTime, s.now) <==> h.expirationTime <= s.now / P.NANOSECONDS {
      P.ExpiryInWholeSeconds(h.expirationTime, s.now);
    }
    hide Invariant;
  }

  lemma TickRaisesNothing(work: P.Work, s: Network, later: int, universe: set<Hash>)
    requires InRange(s) && Enabled(work, s, Tick(later))
    ensures Remaining(Apply(work, s, Tick(later)), universe).AtMost(Remaining(s, universe))
  {
    var t := Apply(work, s, Tick(later));
    assert t == s.(now := later);
    hide Apply;
    forall i: nat, h | i < |s.links| && MayDeliver(t, i, h) ensures MayDeliver(s, i, h) {
    }
    MissingShrinks(s, t, universe);
    assert Backlogs(t) == Backlogs(s);
    hide MayDeliver, Missing, Backlog;
  }

  lemma SeverRaisesNothing(work: P.Work, s: Network, l: nat, universe: set<Hash>)
    requires InRange(s) && Enabled(work, s, Sever(l))
    ensures Remaining(Apply(work, s, Sever(l)), universe).AtMost(Remaining(s, universe))
  {
    var k := s.links[l].(phase := Severed, flag := false, proceed := false);
    var t := Apply(work, s, Sever(l));
    assert t == s.(links := s.links[l := k]);
    hide Apply;
    forall i: nat, h | i < |s.links| && MayDeliver(t, i, h) ensures MayDeliver(s, i, h) {
    }
    MissingShrinks(s, t, universe);
    LinkChangeSums(s, l, k);
    hide MayDeliver, Missing;
  }

  lemma AmbientStepRaisesNothing(work: P.Work, s: Network, step: Step, universe: set<Hash>)
    requires Invariant(work, s) && Enabled(work, s, step) && Ambient(step)
    ensures Remaining(Apply(work, s, step), universe).AtMost(Remaining(s, universe))
  {
    match step {
      case Sweep(n) => SweepRaisesNothing(work, s, n, universe);
      case Tick(later) => TickRaisesNothing(work, s, later, universe);
      case Sever(l) => SeverRaisesNothing(work, s, l, universe);
    }
  }

  lemma AmbientStepStaysWithin(work: P.Work, s: Network, step: Step, universe: set<Hash>)
    requires Invariant(work, s) && Enabled(work, s, step) && Ambient(step) && Within(s, universe)
    ensures Within(Apply(work, s, step), universe)
  {
    if step.Sweep? {
      SweepTakesOnlyExpired(work, s, step.node);
    }
    var t := Apply(work, s, step);
    assert forall l :: 0 <= l < |s.links| && InFlight(t.links[l]).Some? ==>
                         InFlight(t.links[l]) == InFlight(s.links[l]);
    assert forall n :: 0 <= n < |s.nodes| && t.nodes[n] != s.nodes[n] ==> step.Sweep? && step.node == n;
    hide Invariant, Inventory.Purged;
  }

  // ---------------------------------------------------------------- whole runs

  ghost function Indexed(s: Network, n: nat): set<Hash>
    requires n < |s.nodes|
  {
    set c | c in s.nodes[n].inventory.counterToHash :: s.nodes[n].inventory.counterToHash[c]
  }

  ghost function Universe(s: Network): set<Hash> {
    (set n: nat, h | 0 <= n < |s.nodes| && h in Indexed(s, n) :: h) +
    (set l: nat | 0 <= l < |s.links| && InFlight(s.links[l]).Some? :: InFlight(s.links[l]).value)
  }

  lemma WithinItsUniverse(s: Network)
    ensures Within(s, Universe(s))
  {
    forall n, c | 0 <= n < |s.nodes| && c in s.nodes[n].inventory.counterToHash
      ensures s.nodes[n].inventory.counterToHash[c] in Universe(s)
    {
      assert s.nodes[n].inventory.counterToHash[c] in Indexed(s, n);
    }
  }

  lemma GossipStepDescends(work: P.Work, s: Network, t: Network, universe: set<Hash>)
    requires Invariant(work, s) && Within(s, universe) && GossipNext(work, s, t)
    ensures Invariant(work, t) && Within(t, universe)
    ensures Remaining(t, universe).Below(Remaining(s, universe))
  {
    var step :| Internal(step) && Enabled(work, s, step) && t == Apply(work, s, step);
    StepKeepsInvariant(work, s, step);
    InternalStepStaysWithin(work, s, step, universe);
    InternalStepDescends(work, s, step, universe);
    hide Apply, Within, Remaining, Enabled;
  }

  lemma AmbientRaisesNothing(work: P.Work, s: Network, t: Network, universe: set<Hash>)
    requires Invariant(work, s) && Within(s, universe) && AmbientNext(work, s, t)
    ensures Invariant(work, t) && Within(t, universe)
    ensures Remaining(t, universe).AtMost(Remaining(s, universe))
  {
    var step :| Ambient(step) && Enabled(work, s, step) && t == Apply(work, s, step);
    StepKeepsInvariant(work, s, step);
    AmbientStepStaysWithin(work, s, step, universe);
    AmbientStepRaisesNothing(work, s, step, universe);
    hide Apply, Within, Remaining, Enabled;
  }

  /** Nothing but steps of the nodes and links, sweeps, ticks and broken connections. */
  ghost predicate Undisturbed(work: P.Work, run: nat -> Network) {
    forall j: nat :: GossipNext(work, run(j), run(j + 1)) || AmbientNext(work, run(j), run(j + 1))
  }

  ghost predicate Bounded(work: P.Work, s: Network, universe: set<Hash>) {
    Invariant(work, s) && Within(s, universe)
  }

  lemma StepIsBounded(work: P.Work, run: nat -> Network, j: nat, universe: set<Hash>)
    requires Undisturbed(work, run) && Bounded(work, run(j), universe)
    ensures Bounded(work, run(j + 1), universe)
    ensures Remaining(run(j + 1), universe).AtMost(Remaining(run(j), universe))
            || Remaining(run(j + 1), universe).Below(Remaining(run(j), universe))
    ensures GossipNext(work, run(j), run(j + 1)) ==>
              Remaining(run(j + 1), universe).Below(Remaining(run(j), universe))
  {
    if GossipNext(work, run(j), run(j + 1)) {
      GossipStepDescends(work, run(j), run(j + 1), universe);
    } else {
      AmbientRaisesNothing(work, run(j), run(j + 1), universe);
    }
    hide Remaining, Within, Invariant, GossipNext, AmbientNext;
  }

  /** The measure never rises. */
  lemma {:induction false} RunNeverRises(work: P.Work, run: nat -> Network, i: nat, j: nat, universe: set<Hash>)
    requires Undisturbed(work, run) && i <= j && Bounded(work, run(i), universe)
    ensures Bounded(work, run(j), universe)
    ensures Remaining(run(j), universe) == Remaining(run(i), universe)
            || Remaining(run(j), universe).Below(Remaining(run(i), universe))
    decreases j - i
  {
    hide Undisturbed, GossipNext, Remaining, Within, NodeOk, LinkAt;
    if i < j {
      RunNeverRises(work, run, i, j - 1, universe);
      StepIsBounded(work, run, j - 1, universe);
    }
  }

  /** From `n` on no step is one of the nodes and links. */
  ghost predicate QuietFrom(work: P.Work, run: nat -> Network, n: nat) {
    forall j: nat :: n <= j ==> !GossipNext(work, run(j), run(j + 1))
  }

  lemma {:induction false} GossipSubsides(
    work: P.Work, run: nat -> Network, i: nat, universe: set<Hash>, m: Measure)
    requires Undisturbed(work, run) && Bounded(work, run(i), universe)
    requires m == Remaining(run(i), universe)
    ensures exists n: nat :: QuietFrom(work, run, n)
    decreases m.missing, m.broadcasts, m.wakes, m.backlog
  {
    hide Undisturbed, GossipNext, Remaining, Within, NodeOk, LinkAt;
    if !QuietFrom(work, run, i) {
      var j: nat :| i <= j && GossipNext(work, run(j), run(j + 1));
      RunNeverRises(work, run, i, j, universe);
      StepIsBounded(work, run, j, universe);
      GossipSubsides(work, run, j + 1, universe, Remaining(run(j + 1), universe));
    }
  }

  /** In every endless run from a reachable network, however sweeps, ticks and broken connections are mixed in,
      only finitely many steps are steps of the nodes and links. */
  lemma GossipTerminates(work: P.Work, run: nat -> Network)
    requires Reachable(work, run(0)) && Undisturbed(work, run)
    ensures exists n: nat :: QuietFrom(work, run, n)
  {
    ReachableIsSafe(work, run(0));
    WithinItsUniverse(run(0));
    hide Undisturbed, QuietFrom;
    GossipSubsides(work, run, 0, Universe(run(0)), Remaining(run(0), Universe(run(0))));
  }

  ghost predicate Stuck(work: P.Work, s: Network) {
    InRange(s) && forall step :: Internal(step) ==> !Enabled(work, s, step)
  }

  /** The network is at rest exactly when no internal step is possible. */
  lemma StuckIsAtRest(work: P.Work, s: Network)
    requires InRange(s)
    ensures Stuck(work, s) <==> AtRest(s)
  {
    if Stuck(work, s) {
      forall l | 0 <= l < |s.links| && !s.links[l].phase.Severed?
        ensures s.links[l].phase.Parked? && !s.links[l].flag && !s.links[l].proceed
      {
        assert !Enabled(work, s, ScanStep(l)) && !Enabled(work, s, TestStep(l)) && !Enabled(work, s, FetchStep(l));
        assert !Enabled(work, s, CheckStep(l)) && !Enabled(work, s, InsertStep(l));
        assert !Enabled(work, s, AnnounceStep(l));
        assert !Enabled(work, s, WakeStep(l)) && !Enabled(work, s, ResumeStep(l));
      }
      forall n | 0 <= n < |s.nodes| ensures s.nodes[n].submissions == {} {
        forall c ensures c !in s.nodes[n].submissions {
          assert !Enabled(work, s, AnnounceLocally(n, c));
        }
      }
    }
  }

  /** Where gossip stops, it has converged, if everything that arrived along the paths has been announced. */
  lemma GossipConverges(
    work: P.Work, s: Network, there: seq<nat>, back: seq<nat>, a: nat, b: nat)
    requires Reachable(work, s) && Stuck(work, s)
    requires a < |s.nodes| && b < |s.nodes|
    requires Leads(s, there, a, b) && Leads(s, back, b, a) && HeardAlong(s, there) && HeardAlong(s, back)
    ensures Unexpired(s, a) == Unexpired(s, b)
  {
    StuckIsAtRest(work, s);
    ConvergenceAtRest(work, s, there, back, a, b);
  }

  /** ... as it has been if no server was cut off between storing and announcing. */
  lemma GentleGossipConverges(
    work: P.Work, s: Network, there: seq<nat>, back: seq<nat>, a: nat, b: nat)
    requires GentlyReachable(work, s) && Stuck(work, s)
    requires a < |s.nodes| && b < |s.nodes|
    requires Leads(s, there, a, b) && Leads(s, back, b, a)
    ensures Unexpired(s, a) == Unexpired(s, b)
  {
    StuckIsAtRest(work, s);
    GentleConvergenceAtRest(work, s, there, back, a, b);
  }

  // ---------------------------------------------------------------- termination and convergence joined

  lemma UndisturbedStepIsReachable(work: P.Work, s: Network, t: Network)
    requires Reachable(work, s) && (GossipNext(work, s, t) || AmbientNext(work, s, t))
    ensures Reachable(work, t)
  {
    var step :| Enabled(work, s, step) && t == Apply(work, s, step);
    hide Reachable, Apply, Enabled;
    ReachableStep(work, s, step);
  }

  lemma {:induction false} UndisturbedRunIsReachable(work: P.Work, run: nat -> Network, j: nat)
    requires Reachable(work, run(0)) && Undisturbed(work, run)
    ensures Reachable(work, run(j))
  {
    hide Reachable, GossipNext, AmbientNext;
    if j > 0 {
      UndisturbedRunIsReachable(work, run, j - 1);
      assert GossipNext(work, run(j - 1), run(j - 1 + 1)) || AmbientNext(work, run(j - 1), run(j - 1 + 1));
      UndisturbedStepIsReachable(work, run(j - 1), run(j));
    }
  }

  /** A node or link goes on, or none can. */
  ghost predicate Proceeds(work: P.Work, run: nat -> Network, j: nat) {
    GossipNext(work, run(j), run(j + 1)) || Stuck(work, run(j))
  }

  ghost predicate ProceedsFrom(work: P.Work, run: nat -> Network, n: nat) {
    exists j: nat :: n <= j && Proceeds(work, run, j)
  }

  /** Nodes and links that can go on are not put off for ever by sweeps, ticks and broken connections. */
  ghost predicate Fair(work: P.Work, run: nat -> Network) {
    forall n: nat :: ProceedsFrom(work, run, n)
  }

  /** Paths from `a` to `b` and back, along which everything that arrived has been announced. */
  ghost predicate Connected(s: Network, there: seq<nat>, back: seq<nat>, a: nat, b: nat) {
    && InRange(s) && a < |s.nodes| && b < |s.nodes|
    && Leads(s, there, a, b) && Leads(s, back, b, a) && HeardAlong(s, there) && HeardAlong(s, back)
  }

  /** Connected nodes have the same unexpired messages. */
  ghost predicate Agrees(s: Network) {
    forall there, back, a, b :: Connected(s, there, back, a, b) ==> Unexpired(s, a) == Unexpired(s, b)
  }

  lemma StuckAgrees(work: P.Work, s: Network)
    requires Reachable(work, s) && Stuck(work, s)
    ensures Agrees(s)
  {
    hide Reachable, Stuck, Leads, HeardAlong, Unexpired;
    forall there, back, a, b | Connected(s, there, back, a, b) ensures Unexpired(s, a) == Unexpired(s, b) {
      GossipConverges(work, s, there, back, a, b);
    }
  }

  /** Sweeps, ticks and broken connections set nothing going. */
  lemma StuckStaysStuck(work: P.Work, s: Network, t: Network)
    requires Stuck(work, s) && (GossipNext(work, s, t) || AmbientNext(work, s, t))
    ensures Stuck(work, t)
  {
    var step :| Ambient(step) && Enabled(work, s, step) && t == Apply(work, s, step);
    StuckIsAtRest(work, s);
    AmbientKeepsRest(work, s, step);
    hide Apply, Enabled, AtRest;
    StuckIsAtRest(work, t);
  }

  lemma AmbientKeepsRest(work: P.Work, s: Network, step: Step)
    requires InRange(s) && Ambient(step) && Enabled(work, s, step) && AtRest(s)
    ensures AtRest(Apply(work, s, step))
  {
    hide Inventory.Purged;
  }

  lemma {:induction false} StuckFromThenOn(work: P.Work, run: nat -> Network, i: nat, j: nat)
    requires Undisturbed(work, run) && i <= j && Stuck(work, run(i))
    ensures Stuck(work, run(j))
    decreases j - i
  {
    hide GossipNext, AmbientNext, Stuck;
    if i < j {
      StuckFromThenOn(work, run, i, j - 1);
      assert GossipNext(work, run(j - 1), run(j - 1 + 1)) || AmbientNext(work, run(j - 1), run(j - 1 + 1));
      StuckStaysStuck(work, run(j - 1), run(j));
    }
  }

  /** Some state from `quiet` on is stuck. */
  lemma FairRunGetsStuck(work: P.Work, run: nat -> Network, quiet: nat) returns (j: nat)
    requires Fair(work, run) && QuietFrom(work, run, quiet)
    ensures quiet <= j && Stuck(work, run(j))
  {
    hide Proceeds, QuietFrom;
    assert ProceedsFrom(work, run, quiet);
    j :| quiet <= j && Proceeds(work, run, j);
    ProceedingQuietlyIsStuck(work, run, quiet, j);
  }

  lemma ProceedingQuietlyIsStuck(work: P.Work, run: nat -> Network, quiet: nat, j: nat)
    requires QuietFrom(work, run, quiet) && quiet <= j && Proceeds(work, run, j)
    ensures Stuck(work, run(j))
  {
    hide GossipNext, Stuck;
  }

  ghost predicate AgreesFrom(work: P.Work, run: nat -> Network, n: nat) {
    forall j: nat :: n <= j ==> Stuck(work, run(j)) && Agrees(run(j))
  }

  /** Every endless, fair and undisturbed run from a reachable network comes to rest for good, and from then on
      connected nodes agree. */
  lemma GossipReachesAgreement(work: P.Work, run: nat -> Network)
    requires Reachable(work, run(0)) && Undisturbed(work, run) && Fair(work, run)
    ensures exists n: nat :: AgreesFrom(work, run, n)
  {
    hide Reachable, Undisturbed, Fair, QuietFrom, Stuck, Agrees;
    GossipTerminates(work, run);
    var quiet: nat :| QuietFrom(work, run, quiet);
    var n := FairRunGetsStuck(work, run, quiet);
    forall j: nat | n <= j ensures Stuck(work, run(j)) && Agrees(run(j)) {
      UndisturbedRunIsReachable(work, run, j);
      StuckFromThenOn(work, run, n, j);
      StuckAgrees(work, run(j));
    }
    assert AgreesFrom(work, run, n);
  }
}
