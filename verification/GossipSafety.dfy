/** What every step of the reconciliation protocol keeps, and what follows for every reachable network. */
module GossipSafety {
  import opened Wrappers
  import opened Gossip
  import Inventory
  import P = ProofOfWork

  ghost predicate Expired(h: Hash, now: int) {
    P.Expired(h.expirationTime, now)
  }

  /** The hash a link is occupied with, from the moment its cursor passes it until the peer has it or the
      client has given it up. */
  function InFlight(k: Link): Option<Hash> {
    match k.phase
    case Testing(h) => Some(h)
    case Fetching(h) => Some(h)
    case Submitting(m) => Some(Inventory.MessageHash(m))
    case Inserting(m) => Some(Inventory.MessageHash(m))
    case _ => None
  }

  /** Whatever the sender still holds behind the cursor, the receiver holds too, unless it expired. */
  ghost predicate Delivered(now: int, k: Link, own: Store, peer: Store) {
    forall h :: h in own.hashToCounter && own.hashToCounter[h] <= k.cursor && InFlight(k) != Some(h) ==>
                  h in peer.hashToCounter || Expired(h, now)
  }

  /** A parked client that still has announced arrivals to scan is about to be woken. */
  ghost predicate Wakeable(k: Link, own: Node) {
    k.phase.Parked? ==>
      forall c :: c in own.inventory.counterToHash && k.cursor < c && c !in own.unannounced ==>
                    k.flag || k.proceed
  }

  ghost predicate CarriesWork(work: P.Work, now: int, k: Link) {
    k.phase.Submitting? || k.phase.Inserting? ==> Mined(work, now, k.phase.message)
  }

  ghost predicate LinkOk(work: P.Work, now: int, k: Link, own: Node, peer: Node) {
    k.phase.Severed? ||
    (&& k.cursor <= own.inventory.counter
     && Delivered(now, k, own.inventory, peer.inventory)
     && Wakeable(k, own)
     && CarriesWork(work, now, k))
  }

  ghost predicate NodeOk(work: P.Work, now: int, n: Node) {
    && Inventory.Consistent(n.inventory)
    && (forall h :: h in n.inventory.table ==> Mined(work, now, n.inventory.table[h]))
  }

  ghost predicate Invariant(work: P.Work, s: Network) {
    && InRange(s)
    && (forall n :: 0 <= n < |s.nodes| ==> NodeOk(work, s.now, s.nodes[n]))
    && (forall i :: 0 <= i < |s.links| ==> LinkAt(work, s, i))
  }

  ghost predicate LinkAt(work: P.Work, s: Network, i: nat)
    requires InRange(s) && i < |s.links|
  {
    LinkOk(work, s.now, s.links[i], s.nodes[s.links[i].sender], s.nodes[s.links[i].receiver])
  }

  // ---------------------------------------------------------------- how a node may change

  /** `to` is `from` after insertions and sweeps but without a broadcast: nothing unexpired is lost, what
      is indexed low was indexed there before, and new arrivals are unannounced. */
  ghost predicate Evolves(now: int, from: Node, to: Node) {
    && from.inventory.counter <= to.inventory.counter
    && (forall h :: h in from.inventory.hashToCounter ==> h in to.inventory.hashToCounter || Expired(h, now))
    && (forall h :: h in to.inventory.hashToCounter && to.inventory.hashToCounter[h] <= from.inventory.counter ==>
                      h in from.inventory.hashToCounter
                      && from.inventory.hashToCounter[h] == to.inventory.hashToCounter[h])
    && (forall c :: c in to.inventory.counterToHash && c !in to.unannounced ==>
                      c in from.inventory.counterToHash && c !in from.unannounced)
  }

  lemma StoringEvolves(now: int, n: Node, m: Message)
    requires Inventory.CountersAgree(n.inventory)
    ensures Evolves(now, n, Stored(n, m))
  {
  }

  lemma SweepingEvolves(now: int, n: Node)
    ensures Evolves(now, n, n.(inventory := Inventory.Purged(n.inventory, now / P.NANOSECONDS)))
  {
    forall h | h in Inventory.Due(n.inventory, now / P.NANOSECONDS) ensures Expired(h, now) {
      P.ExpiryInWholeSeconds(h.expirationTime, now);
    }
  }

  lemma EvolvingKeepsLink(work: P.Work, now: int, k: Link, a: Node, a': Node, b: Node, b': Node)
    requires LinkOk(work, now, k, a, b)
    requires Evolves(now, a, a') && Evolves(now, b, b')
    ensures LinkOk(work, now, k, a', b')
  {
    if !k.phase.Severed? {
      forall h | h in a'.inventory.hashToCounter && a'.inventory.hashToCounter[h] <= k.cursor
                 && InFlight(k) != Some(h)
        ensures h in b'.inventory.hashToCounter || Expired(h, now)
      {
        assert h in a.inventory.hashToCounter && a.inventory.hashToCounter[h] <= k.cursor;
      }
    }
  }

  lemma EvolvingIsReflexive(now: int, n: Node)
    ensures Evolves(now, n, n)
  {
  }

  // ---------------------------------------------------------------- what one client's steps keep

  lemma ScanKeepsLink(work: P.Work, now: int, k: Link, a: Node, b: Node)
    requires k.phase.Scanning? && LinkOk(work, now, k, a, b)
    requires Inventory.Consistent(a.inventory)
    ensures LinkOk(work, now, Scan(k, a.inventory), a, b)
  {
    Inventory.NextCounterIsExact(a.inventory, k.cursor);
    var t := Scan(k, a.inventory);
    if t.phase.Testing? {
      forall h | h in a.inventory.hashToCounter && a.inventory.hashToCounter[h] <= t.cursor && h != t.phase.hash
        ensures h in b.inventory.hashToCounter || Expired(h, now)
      {
        assert a.inventory.counterToHash[a.inventory.hashToCounter[h]] == h;
        assert a.inventory.hashToCounter[h] <= k.cursor;
      }
    } else {
      assert forall c :: c in a.inventory.counterToHash && k.cursor < c ==>
                           c in Inventory.Beyond(a.inventory, k.cursor);
    }
  }

  lemma TestKeepsLink(work: P.Work, now: int, k: Link, a: Node, b: Node)
    requires k.phase.Testing? && LinkOk(work, now, k, a, b)
    ensures LinkOk(work, now, Tested(k, k.phase.hash, b.inventory), a, b)
  {
  }

  lemma FetchKeepsLink(work: P.Work, now: int, k: Link, a: Node, b: Node)
    requires k.phase.Fetching? && LinkOk(work, now, k, a, b)
    requires NodeOk(work, now, a)
    ensures LinkOk(work, now, Fetched(k, k.phase.hash, a.inventory), a, b)
  {
  }

  /** A peer turns a submission down only when it has the message or the message expired. */
  lemma CheckKeepsLink(work: P.Work, now: int, k: Link, a: Node, b: Node)
    requires k.phase.Submitting? && LinkOk(work, now, k, a, b)
    ensures LinkOk(work, now, Checked(work, now, k, k.phase.message, b.inventory), a, b)
  {
    MinedStaysValid(work, now, k.phase.message);
  }

  /** Work once sufficient is accepted by every peer until the message expires. */
  lemma MinedStaysValid(work: P.Work, now: int, m: Message)
    requires Mined(work, now, m)
    ensures P.Verify(work, m.payload, m.nonce, m.expirationTime, now)
            <==> !Expired(Inventory.MessageHash(m), now)
  {
    var t :| t <= now && P.Verify(work, m.payload, m.nonce, m.expirationTime, t);
    P.ProofStaysValid(work, m.payload, m.nonce, m.expirationTime, t, now);
  }

  lemma InsertKeepsLink(work: P.Work, now: int, k: Link, a: Node, b: Node, c: nat)
    requires k.phase.Inserting? && LinkOk(work, now, k, a, b)
    requires Inventory.MessageHash(k.phase.message) in b.inventory.Live()
    ensures LinkOk(work, now, k.(phase := Announcing(c)), a, b)
  {
  }

  lemma TickKeepsLink(work: P.Work, now: int, later: int, k: Link, a: Node, b: Node)
    requires LinkOk(work, now, k, a, b) && now <= later
    ensures LinkOk(work, later, k, a, b)
  {
    if CarriesWork(work, now, k) {
      assert CarriesWork(work, later, k);
    }
  }

  /** After a broadcast at the sender the flag stands for all its arrivals. */
  lemma FlagKeepsLink(work: P.Work, now: int, k: Link, a: Node, a': Node, b: Node)
    requires LinkOk(work, now, k, a, b)
    requires a'.inventory == a.inventory
    ensures LinkOk(work, now, k.(flag := true), a', b)
  {
  }

  // ---------------------------------------------------------------- what every step keeps

  lemma LinkChangeKeepsInvariant(work: P.Work, s: Network, l: nat, k: Link)
    requires Invariant(work, s) && l < |s.links|
    requires k.sender == s.links[l].sender && k.receiver == s.links[l].receiver
    requires LinkOk(work, s.now, k, s.nodes[k.sender], s.nodes[k.receiver])
    ensures Invariant(work, s.(links := s.links[l := k]))
  {
    var t := s.(links := s.links[l := k]);
    forall i | 0 <= i < |t.links| ensures LinkAt(work, t, i) {
      assert i != l ==> LinkAt(work, s, i);
    }
  }

  lemma NodeChangeKeepsInvariant(work: P.Work, s: Network, n: nat, node: Node)
    requires Invariant(work, s) && n < |s.nodes|
    requires NodeOk(work, s.now, node) && Evolves(s.now, s.nodes[n], node)
    ensures Invariant(work, s.(nodes := s.nodes[n := node]))
  {
    var t := s.(nodes := s.nodes[n := node]);
    forall i | 0 <= i < |t.links| ensures LinkAt(work, t, i) {
      var k := s.links[i];
      assert LinkAt(work, s, i);
      EvolvingIsReflexive(s.now, s.nodes[k.sender]);
      EvolvingIsReflexive(s.now, s.nodes[k.receiver]);
      EvolvingKeepsLink(work, s.now, k, s.nodes[k.sender], t.nodes[k.sender],
                        s.nodes[k.receiver], t.nodes[k.receiver]);
    }
  }

  lemma StoringKeepsNode(work: P.Work, now: int, n: Node, m: Message)
    requires NodeOk(work, now, n) && Mined(work, now, m)
    ensures NodeOk(work, now, Stored(n, m))
    ensures Inventory.MessageHash(m) in Stored(n, m).inventory.Live()
  {
    Inventory.InsertKeepsConsistent(n.inventory, m);
  }

  lemma BroadcastKeepsInvariant(work: P.Work, s: Network, n: nat)
    requires Invariant(work, s) && n < |s.nodes|
    ensures Invariant(work, Announced(s, n))
  {
    var t := Announced(s, n);
    forall i | 0 <= i < |t.links| ensures LinkAt(work, t, i) {
      var k := s.links[i];
      assert LinkAt(work, s, i);
      if k.sender == n && !k.phase.Severed? {
        FlagKeepsLink(work, s.now, k, s.nodes[n], t.nodes[n], s.nodes[k.receiver]);
      }
      assert t.nodes[k.receiver].inventory == s.nodes[k.receiver].inventory;
    }
  }

  lemma ClientStepKeepsInvariant(work: P.Work, s: Network, step: Step)
    requires Invariant(work, s) && Enabled(work, s, step)
    requires step.ScanStep? || step.TestStep? || step.FetchStep? || step.CheckStep?
    ensures Invariant(work, Apply(work, s, step))
  {
    var k := s.links[step.link];
    var a, b := s.nodes[k.sender], s.nodes[k.receiver];
    assert LinkAt(work, s, step.link);
    match step {
      case ScanStep(l) =>
        ScanKeepsLink(work, s.now, k, a, b);
        LinkChangeKeepsInvariant(work, s, l, Scan(k, a.inventory));
      case TestStep(l) =>
        TestKeepsLink(work, s.now, k, a, b);
        LinkChangeKeepsInvariant(work, s, l, Tested(k, k.phase.hash, b.inventory));
      case FetchStep(l) =>
        FetchKeepsLink(work, s.now, k, a, b);
        LinkChangeKeepsInvariant(work, s, l, Fetched(k, k.phase.hash, a.inventory));
      case CheckStep(l) =>
        CheckKeepsLink(work, s.now, k, a, b);
        LinkChangeKeepsInvariant(work, s, l, Checked(work, s.now, k, k.phase.message, b.inventory));
    }
  }

  lemma ReceivingKeepsInvariant(work: P.Work, s: Network, l: nat)
    requires Invariant(work, s) && Enabled(work, s, InsertStep(l))
    ensures Invariant(work, Received(s, l))
    ensures var k := s.links[l];
            Inventory.MessageHash(k.phase.message) in Received(s, l).nodes[k.receiver].inventory.Live()
  {
    var k := s.links[l];
    assert LinkAt(work, s, l);
    StoringKeepsNode(work, s.now, s.nodes[k.receiver], k.phase.message);
    StoringEvolves(s.now, s.nodes[k.receiver], k.phase.message);
    NodeChangeKeepsInvariant(work, s, k.receiver, Stored(s.nodes[k.receiver], k.phase.message));
  }

  lemma MovingOnKeepsInvariant(work: P.Work, s: Network, l: nat, c: nat)
    requires Invariant(work, s) && l < |s.links| && s.links[l].phase.Inserting?
    requires Inventory.MessageHash(s.links[l].phase.message) in s.nodes[s.links[l].receiver].inventory.Live()
    ensures Invariant(work, s.(links := s.links[l := s.links[l].(phase := Announcing(c))]))
  {
    var k := s.links[l];
    assert LinkAt(work, s, l);
    InsertKeepsLink(work, s.now, k, s.nodes[k.sender], s.nodes[k.receiver], c);
    LinkChangeKeepsInvariant(work, s, l, k.(phase := Announcing(c)));
  }

  lemma InsertStepKeepsInvariant(work: P.Work, s: Network, l: nat)
    requires Invariant(work, s) && Enabled(work, s, InsertStep(l))
    ensures Invariant(work, Apply(work, s, InsertStep(l)))
  {
    ReceivingKeepsInvariant(work, s, l);
    MovingOnKeepsInvariant(
      work, Received(s, l), l, s.nodes[s.links[l].receiver].inventory.counter + 1);
    InsertStepIs(work, s, l);
    hide Apply, Received, Invariant, Mined, Inventory.Consistent;
  }

  lemma InsertStepIs(work: P.Work, s: Network, l: nat)
    requires InRange(s) && Enabled(work, s, InsertStep(l))
    ensures var k := s.links[l];
            var c := s.nodes[k.receiver].inventory.counter + 1;
            Apply(work, s, InsertStep(l)) ==
            Received(s, l).(links := Received(s, l).links[l := k.(phase := Announcing(c))])
  {
  }

  lemma AnnouncingKeepsInvariant(work: P.Work, s: Network, step: Step)
    requires Invariant(work, s) && Enabled(work, s, step)
    requires step.AnnounceStep? || step.AnnounceLocally?
    ensures Invariant(work, Apply(work, s, step))
  {
    match step {
      case AnnounceStep(l) =>
        var k := s.links[l];
        assert LinkAt(work, s, l);
        var t := s.(links := s.links[l := k.(phase := Scanning)]);
        LinkChangeKeepsInvariant(work, s, l, k.(phase := Scanning));
        BroadcastKeepsInvariant(work, t, k.receiver);
      case AnnounceLocally(n, c) =>
        var node := s.nodes[n].(submissions := s.nodes[n].submissions - {c});
        NodeChangeKeepsInvariant(work, s, n, node);
        BroadcastKeepsInvariant(work, s.(nodes := s.nodes[n := node]), n);
    }
  }

  lemma WakingKeepsInvariant(work: P.Work, s: Network, step: Step)
    requires Invariant(work, s) && Enabled(work, s, step)
    requires step.WakeStep? || step.ResumeStep? || step.Sever?
    ensures Invariant(work, Apply(work, s, step))
  {
    assert LinkAt(work, s, step.link);
    var k := s.links[step.link];
    LinkChangeKeepsInvariant(work, s, step.link,
      match step
      case WakeStep(_) => Woken(k)
      case ResumeStep(_) => Resumed(k)
      case Sever(_) => k.(phase := Severed, flag := false, proceed := false));
  }

  lemma NodeStepKeepsInvariant(work: P.Work, s: Network, step: Step)
    requires Invariant(work, s) && Enabled(work, s, step)
    requires step.Submit? || step.Sweep?
    ensures Invariant(work, Apply(work, s, step))
  {
    match step {
      case Submit(n, m, mined) =>
        assert Mined(work, s.now, m);
        var node := Stored(s.nodes[n], m);
        StoringKeepsNode(work, s.now, s.nodes[n], m);
        StoringEvolves(s.now, s.nodes[n], m);
        NodeChangeKeepsInvariant(
          work, s, n, node.(submissions := node.submissions + {node.inventory.counter}));
      case Sweep(n) =>
        Inventory.PurgeKeepsConsistent(s.nodes[n].inventory, s.now / P.NANOSECONDS);
        SweepingEvolves(s.now, s.nodes[n]);
        NodeChangeKeepsInvariant(
          work, s, n,
          s.nodes[n].(inventory := Inventory.Purged(s.nodes[n].inventory, s.now / P.NANOSECONDS)));
    }
  }

  lemma EnvironmentKeepsInvariant(work: P.Work, s: Network, step: Step)
    requires Invariant(work, s) && Enabled(work, s, step)
    requires step.Tick? || step.Connect?
    ensures Invariant(work, Apply(work, s, step))
  {
    var t := Apply(work, s, step);
    forall n | 0 <= n < |t.nodes| ensures NodeOk(work, t.now, t.nodes[n]) {
      assert NodeOk(work, s.now, s.nodes[n]);
    }
    forall i | 0 <= i < |t.links| ensures LinkAt(work, t, i) {
      if i < |s.links| {
        assert LinkAt(work, s, i);
        var k := s.links[i];
        TickKeepsLink(work, s.now, t.now, k, s.nodes[k.sender], s.nodes[k.receiver]);
      } else {
        assert Inventory.Consistent(s.nodes[step.sender].inventory);
        assert forall h :: h in s.nodes[step.sender].inventory.hashToCounter ==>
                             1 <= s.nodes[step.sender].inventory.hashToCounter[h];
      }
    }
  }

  lemma StepKeepsInvariant(work: P.Work, s: Network, step: Step)
    requires Invariant(work, s) && Enabled(work, s, step)
    ensures Invariant(work, Apply(work, s, step))
  {
    match step {
      case ScanStep(_) => ClientStepKeepsInvariant(work, s, step);
      case TestStep(_) => ClientStepKeepsInvariant(work, s, step);
      case FetchStep(_) => ClientStepKeepsInvariant(work, s, step);
      case CheckStep(_) => ClientStepKeepsInvariant(work, s, step);
      case InsertStep(l) => InsertStepKeepsInvariant(work, s, l);
      case AnnounceStep(_) => AnnouncingKeepsInvariant(work, s, step);
      case AnnounceLocally(_, _) => AnnouncingKeepsInvariant(work, s, step);
      case WakeStep(_) => WakingKeepsInvariant(work, s, step);
      case ResumeStep(_) => WakingKeepsInvariant(work, s, step);
      case Sever(_) => WakingKeepsInvariant(work, s, step);
      case Submit(_, _, _) => NodeStepKeepsInvariant(work, s, step);
      case Sweep(_) => NodeStepKeepsInvariant(work, s, step);
      case Tick(_) => EnvironmentKeepsInvariant(work, s, step);
      case Connect(_, _) => EnvironmentKeepsInvariant(work, s, step);
    }
  }

  lemma InitiallyInvariant(work: P.Work, s: Network)
    requires Initial(work, s)
    ensures Invariant(work, s)
  {
  }

  lemma {:induction false} BehaviorKeepsInvariant(work: P.Work, run: seq<Network>, i: nat)
    requires Behavior(work, run) && i < |run|
    ensures Invariant(work, run[i])
  {
    if i == 0 {
      InitiallyInvariant(work, run[0]);
    } else {
      BehaviorKeepsInvariant(work, run, i - 1);
      assert Next(work, run[i - 1], run[i - 1 + 1]);
      var step :| Enabled(work, run[i - 1], step) && run[i] == Apply(work, run[i - 1], step);
      StepKeepsInvariant(work, run[i - 1], step);
    }
  }

  // ---------------------------------------------------------------- who announces what

  /** Every unannounced arrival has someone who is about to announce it. Kept as long as no server is cut off
      between storing and announcing. */
  ghost predicate Attended(s: Network) {
    forall n, c :: 0 <= n < |s.nodes| && c in s.nodes[n].unannounced ==> Attends(s, n, c)
  }

  ghost predicate Attends(s: Network, n: nat, c: nat)
    requires n < |s.nodes|
  {
    || c in s.nodes[n].submissions
    || exists l :: 0 <= l < |s.links| && s.links[l].receiver == n && s.links[l].phase == Announcing(c)
  }

  lemma AnnouncersStay(s: Network, t: Network, n: nat, c: nat)
    requires n < |s.nodes| && n < |t.nodes|
    requires Attends(s, n, c)
    requires s.nodes[n].submissions <= t.nodes[n].submissions
    requires |s.links| <= |t.links|
    requires forall l :: 0 <= l < |s.links| && s.links[l].phase.Announcing? ==>
                           t.links[l].phase == s.links[l].phase && t.links[l].receiver == s.links[l].receiver
    ensures Attends(t, n, c)
  {
    if c !in s.nodes[n].submissions {
      var l :| 0 <= l < |s.links| && s.links[l].receiver == n && s.links[l].phase == Announcing(c);
      assert t.links[l].receiver == n && t.links[l].phase == Announcing(c);
    }
  }

  lemma StepKeepsAttended(work: P.Work, s: Network, step: Step)
    requires InRange(s) && Attended(s) && Enabled(work, s, step) && !Abrupt(s, step)
    ensures Attended(Apply(work, s, step))
  {
    var t := Apply(work, s, step);
    forall n, c | 0 <= n < |t.nodes| && c in t.nodes[n].unannounced ensures Attends(t, n, c) {
      if step.AnnounceStep? || step.AnnounceLocally? {
        assert c in s.nodes[n].unannounced;
        AnnouncersElsewhereStay(work, s, step, n, c);
      } else if c in s.nodes[n].unannounced {
        AnnouncersStay(s, t, n, c);
      } else if step.InsertStep? {
        assert t.links[step.link].receiver == n && t.links[step.link].phase == Announcing(c);
      }
    }
  }

  lemma AnnouncersElsewhereStay(work: P.Work, s: Network, step: Step, n: nat, c: nat)
    requires InRange(s) && Enabled(work, s, step)
    requires step.AnnounceStep? || step.AnnounceLocally?
    requires n < |s.nodes| && Attends(s, n, c) && c in Apply(work, s, step).nodes[n].unannounced
    ensures Attends(Apply(work, s, step), n, c)
  {
    var t := Apply(work, s, step);
    if c !in s.nodes[n].submissions {
      var l :| 0 <= l < |s.links| && s.links[l].receiver == n && s.links[l].phase == Announcing(c);
      assert t.links[l].receiver == n && t.links[l].phase == Announcing(c);
    }
  }

  lemma {:induction false} GentleBehaviorKeepsAttended(work: P.Work, run: seq<Network>, i: nat)
    requires Behavior(work, run) && i < |run|
    requires forall j :: 0 <= j < |run| - 1 ==> GentleNext(work, run[j], run[j + 1])
    ensures Attended(run[i])
  {
    if i > 0 {
      GentleBehaviorKeepsAttended(work, run, i - 1);
      assert GentleNext(work, run[i - 1], run[i - 1 + 1]);
      var step :| !Abrupt(run[i - 1], step) && Enabled(work, run[i - 1], step) &&
                  run[i] == Apply(work, run[i - 1], step);
      StepKeepsAttended(work, run[i - 1], step);
    }
  }

  // ---------------------------------------------------------------- every reachable network

  lemma ReachableIsSafe(work: P.Work, s: Network)
    requires Reachable(work, s)
    ensures Invariant(work, s)
  {
    var run :| Behavior(work, run) && run[|run| - 1] == s;
    BehaviorKeepsInvariant(work, run, |run| - 1);
  }

  lemma ReachableStep(work: P.Work, s: Network, step: Step)
    requires Reachable(work, s) && InRange(s) && Enabled(work, s, step)
    ensures Reachable(work, Apply(work, s, step))
  {
    hide Apply, Enabled, Initial;
    var run :| Behavior(work, run) && run[|run| - 1] == s;
    var t := Apply(work, s, step);
    var longer := run + [t];
    assert Next(work, s, t);
    forall i | 0 <= i < |longer| - 1 ensures Next(work, longer[i], longer[i + 1]) {
      if i < |run| - 1 {
        assert Next(work, run[i], run[i + 1]);
      }
    }
    assert Behavior(work, longer);
  }

  lemma GentlyReachableIsAttended(work: P.Work, s: Network)
    requires GentlyReachable(work, s)
    ensures Reachable(work, s) && Attended(s)
  {
    var run :| Behavior(work, run) && run[|run| - 1] == s &&
               forall i :: 0 <= i < |run| - 1 ==> GentleNext(work, run[i], run[i + 1]);
    GentleBehaviorKeepsAttended(work, run, |run| - 1);
  }

  /** No wake-up is lost: a parked client with an announced arrival still ahead of its cursor has its flag
      raised or a `Proceed` on its way, whatever was broadcast while it scanned or while the notifier was
      blocked. */
  lemma NoLostWakeUp(work: P.Work, s: Network, l: nat, c: nat)
    requires Reachable(work, s) && l < |s.links| && s.links[l].phase.Parked?
    requires InRange(s)
    requires var own := s.nodes[s.links[l].sender];
             c in own.inventory.counterToHash && s.links[l].cursor < c && c !in own.unannounced
    ensures s.links[l].flag || s.links[l].proceed
  {
    ReachableIsSafe(work, s);
    assert LinkAt(work, s, l);
  }

  /** What a sender holds behind a link's cursor has reached the receiver, except the one hash in flight
      and what has expired; stale entries and duplicate insertions included. */
  lemma PerLinkDelivery(work: P.Work, s: Network, l: nat, h: Hash)
    requires Reachable(work, s) && InRange(s)
    requires l < |s.links| && !s.links[l].phase.Severed?
    requires var own := s.nodes[s.links[l].sender].inventory;
             h in own.Live() && own.hashToCounter[h] <= s.links[l].cursor
    ensures || h in s.nodes[s.links[l].receiver].inventory.Live()
            || Expired(h, s.now)
            || InFlight(s.links[l]) == Some(h)
  {
    ReachableIsSafe(work, s);
    assert LinkAt(work, s, l);
  }

  /** A stored message passes the check of any peer exactly until it expires. */
  lemma StoredMessagesPassEveryCheck(work: P.Work, s: Network, n: nat, h: Hash)
    requires Reachable(work, s) && n < |s.nodes| && h in s.nodes[n].inventory.table
    ensures var m := s.nodes[n].inventory.table[h];
            && Inventory.MessageHash(m) == h
            && (P.Verify(work, m.payload, m.nonce, m.expirationTime, s.now) <==> !Expired(h, s.now))
  {
    ReachableIsSafe(work, s);
    assert NodeOk(work, s.now, s.nodes[n]);
    MinedStaysValid(work, s.now, s.nodes[n].inventory.table[h]);
  }

  // ---------------------------------------------------------------- convergence

  function Unexpired(s: Network, n: nat): set<Hash>
    requires n < |s.nodes|
  {
    set h | h in s.nodes[n].inventory.Live() && !P.Expired(h.expirationTime, s.now)
  }

  /** Every client is parked, no flag is raised, no `Proceed` is pending and nobody is about to broadcast. */
  ghost predicate AtRest(s: Network) {
    && (forall l :: 0 <= l < |s.links| && !s.links[l].phase.Severed? ==>
                      s.links[l].phase.Parked? && !s.links[l].flag && !s.links[l].proceed)
    && (forall n :: 0 <= n < |s.nodes| ==> s.nodes[n].submissions == {})
  }

  /** `path` leads from node `a` to node `b` over open links. */
  ghost predicate Leads(s: Network, path: seq<nat>, a: nat, b: nat) {
    if path == [] then
      a == b
    else
      && path[0] < |s.links|
      && !s.links[path[0]].phase.Severed?
      && s.links[path[0]].sender == a
      && Leads(s, path[1..], s.links[path[0]].receiver, b)
  }

  /** Whatever arrived at the node has been announced. */
  ghost predicate Heard(s: Network, n: nat)
    requires n < |s.nodes|
  {
    s.nodes[n].unannounced == {}
  }

  /** ... and so at every node that sends along the path. */
  ghost predicate HeardAlong(s: Network, path: seq<nat>)
    requires InRange(s)
  {
    forall i :: 0 <= i < |path| && path[i] < |s.links| ==> Heard(s, s.links[path[i]].sender)
  }

  lemma AnnouncersAreBusy(s: Network, n: nat, c: nat)
    requires n < |s.nodes|
    ensures Attends(s, n, c) ==> !AtRest(s)
  {
  }

  /** At rest without any server cut off, everything has been announced everywhere. */
  lemma RestIsHeard(s: Network, n: nat)
    requires Attended(s) && AtRest(s) && n < |s.nodes|
    ensures Heard(s, n)
  {
    forall c ensures c !in s.nodes[n].unannounced {
      AnnouncersAreBusy(s, n, c);
    }
  }

  /** What a sender has that no flag has been raised for since, and that the client has not come to. */
  ghost predicate Silent(s: Network, l: nat, h: Hash)
    requires InRange(s) && l < |s.links|
  {
    var own := s.nodes[s.links[l].sender];
    && h in own.inventory.hashToCounter
    && own.inventory.hashToCounter[h] in own.unannounced && s.links[l].cursor < own.inventory.hashToCounter[h]
  }

  /** At rest a receiver lacks something unexpired of its sender's exactly if a silent arrival did not come to it
      another way. */
  lemma RestingLinkIsCaughtUpExactly(work: P.Work, s: Network, l: nat)
    requires Invariant(work, s) && AtRest(s)
    requires l < |s.links| && !s.links[l].phase.Severed?
    ensures Unexpired(s, s.links[l].sender) <= Unexpired(s, s.links[l].receiver) <==>
            forall h :: Silent(s, l, h) && !Expired(h, s.now) ==> h in s.nodes[s.links[l].receiver].inventory.Live()
  {
    forall h ensures h in Unexpired(s, s.links[l].sender) && h !in Unexpired(s, s.links[l].receiver) ==> Silent(s, l, h)
    {
      RestingLinkDelivers(work, s, l, h);
    }
    forall h
      ensures Silent(s, l, h) && !Expired(h, s.now) ==> h in Unexpired(s, s.links[l].sender)
      ensures h in s.nodes[s.links[l].receiver].inventory.Live() && !Expired(h, s.now) <==>
              h in Unexpired(s, s.links[l].receiver)
    {
    }
    hide Invariant, AtRest, Unexpired, Silent;
  }

  lemma RestingLinkDelivers(work: P.Work, s: Network, l: nat, h: Hash)
    requires Invariant(work, s) && AtRest(s)
    requires l < |s.links| && !s.links[l].phase.Severed?
    ensures h in Unexpired(s, s.links[l].sender) ==> Silent(s, l, h) || h in Unexpired(s, s.links[l].receiver)
  {
    assert LinkAt(work, s, l);
    assert NodeOk(work, s.now, s.nodes[s.links[l].sender]);
    hide Invariant, LinkAt;
    if h in Unexpired(s, s.links[l].sender) {
      var own := s.nodes[s.links[l].sender];
      assert own.inventory.hashToCounter[h] in own.inventory.counterToHash;
    }
  }

  lemma RestingLinkIsCaughtUp(work: P.Work, s: Network, l: nat)
    requires Invariant(work, s) && AtRest(s)
    requires l < |s.links| && !s.links[l].phase.Severed? && Heard(s, s.links[l].sender)
    ensures Unexpired(s, s.links[l].sender) <= Unexpired(s, s.links[l].receiver)
  {
    RestingLinkIsCaughtUpExactly(work, s, l);
    hide Invariant, AtRest, Unexpired;
  }

  lemma {:induction false} RestingPathIsCaughtUp(work: P.Work, s: Network, path: seq<nat>, a: nat, b: nat)
    requires Invariant(work, s) && AtRest(s)
    requires a < |s.nodes| && b < |s.nodes| && Leads(s, path, a, b) && HeardAlong(s, path)
    ensures Unexpired(s, a) <= Unexpired(s, b)
    decreases |path|
  {
    hide AtRest, NodeOk, LinkAt, Unexpired;
    if path != [] {
      RestingLinkIsCaughtUp(work, s, path[0]);
      RestingPathIsCaughtUp(work, s, path[1..], s.links[path[0]].receiver, b);
    }
  }

  /** At rest, nodes with a path of links in both directions hold the same unexpired messages, if everything that
      arrived at the nodes along the paths has been announced. */
  lemma ConvergenceAtRest(work: P.Work, s: Network, there: seq<nat>, back: seq<nat>, a: nat, b: nat)
    requires Reachable(work, s) && AtRest(s) && InRange(s)
    requires a < |s.nodes| && b < |s.nodes|
    requires Leads(s, there, a, b) && Leads(s, back, b, a) && HeardAlong(s, there) && HeardAlong(s, back)
    ensures Unexpired(s, a) == Unexpired(s, b)
  {
    ReachableIsSafe(work, s);
    RestingPathIsCaughtUp(work, s, there, a, b);
    RestingPathIsCaughtUp(work, s, back, b, a);
  }

  /** ... and it has been if no server was ever cut off between storing and announcing. */
  lemma GentleConvergenceAtRest(work: P.Work, s: Network, there: seq<nat>, back: seq<nat>, a: nat, b: nat)
    requires GentlyReachable(work, s) && AtRest(s)
    requires a < |s.nodes| && b < |s.nodes|
    requires Leads(s, there, a, b) && Leads(s, back, b, a)
    ensures Unexpired(s, a) == Unexpired(s, b)
  {
    GentlyReachableIsAttended(work, s);
    ReachableIsSafe(work, s);
    hide AtRest, Attended, Unexpired, GentlyReachable, Reachable, Leads, NodeOk, LinkAt, Heard;
    forall n: nat | n < |s.nodes| ensures Heard(s, n) {
      RestIsHeard(s, n);
    }
    ConvergenceAtRest(work, s, there, back, a, b);
  }
}
