/** Rest is not agreement: a server that is cut off after storing a message, and before raising its flags, leaves
    its other clients asleep with something to tell. */
module GossipSilence {
  import opened Wrappers
  import opened Gossip
  import opened GossipSafety
  import Inventory
  import P = ProofOfWork

  /** Any nonce will do. */
  const EASY: P.Work := (payload, nonce) => 0

  const NEWS := Inventory.Message([], 0, 1)
  const HASH := Inventory.MessageHash(NEWS)

  const INFORMED: Store := Inventory.Inserted(Inventory.EMPTY, NEWS)
  const BLANK := Node(Inventory.EMPTY, {}, {})
  const SOURCE := Node(INFORMED, {}, {})

  /** Nodes 0 and 1 are linked both ways, and link 2 comes from node 2 to node 0. */
  function Trio(first: Node, from01: Phase, from10: Phase, third: Link): Network {
    Network(
      0, [first, BLANK, SOURCE],
      [Link(0, 1, 0, from01, false, false), Link(1, 0, 0, from10, false, false), third])
  }

  lemma NewsIsAccepted()
    ensures P.Verify(EASY, [], 0, 1, 0)
    ensures !Expired(HASH, 0)
    ensures Inventory.Consistent(INFORMED) && INFORMED.Live() == {HASH} && INFORMED.table == map[HASH := NEWS]
    ensures INFORMED.counter == 1 && INFORMED.counterToHash == map[1 := HASH]
    ensures Inventory.NextCounter(INFORMED, 0) == Some(1)
    ensures Inventory.NextCounter(Inventory.EMPTY, 0) == None
  {
    assert Inventory.Consistent(Inventory.EMPTY);
    Inventory.InsertKeepsConsistent(Inventory.EMPTY, NEWS);
  }

  function Unlinked(links: seq<Link>): Network {
    Network(0, [BLANK, BLANK, SOURCE], links)
  }

  lemma StartIsReachable()
    ensures Reachable(EASY, Unlinked([]))
  {
    var s := Unlinked([]);
    StartIsInitial();
    hide Initial, Unlinked;
    assert Behavior(EASY, [s]) && [s][|[s]| - 1] == s;
  }

  lemma StartIsInitial()
    ensures Initial(EASY, Unlinked([]))
  {
    NewsIsAccepted();
    hide INFORMED, P.Verify;
    assert Mined(EASY, 0, NEWS);
    assert Inventory.Consistent(Inventory.EMPTY);
    hide Inventory.Consistent, Mined;
  }

  lemma Connecting(links: seq<Link>, a: nat, b: nat)
    requires Reachable(EASY, Unlinked(links)) && InRange(Unlinked(links)) && a < 3 && b < 3
    ensures Reachable(EASY, Unlinked(links + [Fresh(a, b)])) && InRange(Unlinked(links + [Fresh(a, b)]))
  {
    hide Reachable, INFORMED;
    ReachableStep(EASY, Unlinked(links), Connect(a, b));
    assert Apply(EASY, Unlinked(links), Connect(a, b)) == Unlinked(links + [Fresh(a, b)]);
  }

  lemma TrioIsReachable()
    ensures Reachable(EASY, Trio(BLANK, Scanning, Scanning, Fresh(2, 0)))
  {
    StartIsReachable();
    hide Reachable, INFORMED;
    Connecting([], 0, 1);
    Connecting([] + [Fresh(0, 1)], 1, 0);
    Connecting([] + [Fresh(0, 1)] + [Fresh(1, 0)], 2, 0);
    assert [] + [Fresh(0, 1)] + [Fresh(1, 0)] + [Fresh(2, 0)] == [Fresh(0, 1), Fresh(1, 0), Fresh(2, 0)];
  }

  /** Both ends find nothing and park. */
  lemma TrioParks()
    ensures Reachable(EASY, Trio(BLANK, Parked, Parked, Fresh(2, 0)))
  {
    TrioIsReachable();
    NewsIsAccepted();
    var k := Fresh(2, 0);
    hide Reachable;
    ReachableStep(EASY, Trio(BLANK, Scanning, Scanning, k), ScanStep(0));
    assert Apply(EASY, Trio(BLANK, Scanning, Scanning, k), ScanStep(0)) == Trio(BLANK, Parked, Scanning, k);
    ReachableStep(EASY, Trio(BLANK, Parked, Scanning, k), ScanStep(1));
    assert Apply(EASY, Trio(BLANK, Parked, Scanning, k), ScanStep(1)) == Trio(BLANK, Parked, Parked, k);
  }

  function Third(phase: Phase): Link {
    Link(2, 0, 1, phase, false, false)
  }

  function Resting(first: Node, third: Link): Network {
    Trio(first, Parked, Parked, third)
  }

  /** The third node offers its message. */
  lemma NewsIsOffered()
    ensures Reachable(EASY, Resting(BLANK, Third(Submitting(NEWS))))
  {
    TrioParks();
    NewsIsAccepted();
    hide Reachable, INFORMED;
    ReachableStep(EASY, Resting(BLANK, Fresh(2, 0)), ScanStep(2));
    assert Apply(EASY, Resting(BLANK, Fresh(2, 0)), ScanStep(2)) == Resting(BLANK, Third(Testing(HASH)));
    ReachableStep(EASY, Resting(BLANK, Third(Testing(HASH))), TestStep(2));
    assert Apply(EASY, Resting(BLANK, Third(Testing(HASH))), TestStep(2)) == Resting(BLANK, Third(Fetching(HASH)));
    ReachableStep(EASY, Resting(BLANK, Third(Fetching(HASH))), FetchStep(2));
    assert Apply(EASY, Resting(BLANK, Third(Fetching(HASH))), FetchStep(2)) == Resting(BLANK, Third(Submitting(NEWS)));
  }

  lemma NewsIsChecked()
    ensures Reachable(EASY, Resting(BLANK, Third(Inserting(NEWS))))
  {
    NewsIsOffered();
    NewsIsAccepted();
    hide Reachable, INFORMED, P.Verify;
    ReachableStep(EASY, Resting(BLANK, Third(Submitting(NEWS))), CheckStep(2));
    assert Apply(EASY, Resting(BLANK, Third(Submitting(NEWS))), CheckStep(2)) == Resting(BLANK, Third(Inserting(NEWS)));
  }

  const TOLD := Node(INFORMED, {1}, {})

  lemma NewsIsStored()
    ensures Reachable(EASY, Resting(TOLD, Third(Announcing(1))))
  {
    NewsIsChecked();
    StoringTellsFirst();
    hide Reachable, Apply, TOLD;
    ReachableStep(EASY, Resting(BLANK, Third(Inserting(NEWS))), InsertStep(2));
  }

  lemma StoringTellsFirst()
    ensures Apply(EASY, Resting(BLANK, Third(Inserting(NEWS))), InsertStep(2)) == Resting(TOLD, Third(Announcing(1)))
  {
    assert Stored(BLANK, NEWS) == TOLD;
    hide INFORMED, Stored;
  }

  /** The first node has stored it and is cut off. */
  lemma NewsIsCutOff()
    ensures Reachable(EASY, Resting(TOLD, Third(Severed)))
  {
    NewsIsStored();
    hide Reachable, INFORMED;
    ReachableStep(EASY, Resting(TOLD, Third(Announcing(1))), Sever(2));
    assert Apply(EASY, Resting(TOLD, Third(Announcing(1))), Sever(2)) == Resting(TOLD, Third(Severed));
  }

  /** A reachable network at rest, with links both ways between two nodes of which one has an unexpired message
      that the other has not. */
  lemma RestIsNotAgreement() returns (s: Network)
    ensures Reachable(EASY, s) && AtRest(s) && InRange(s) && |s.nodes| == 3
    ensures Leads(s, [0], 0, 1) && Leads(s, [1], 1, 0)
    ensures Unexpired(s, 0) == {HASH} && Unexpired(s, 1) == {}
    ensures !Heard(s, 0)
  {
    s := Resting(TOLD, Third(Severed));
    NewsIsCutOff();
    NewsIsAccepted();
    hide Reachable, INFORMED;
    RestsApart(s);
    NewsStaysApart(s);
    hide AtRest, Unexpired, Leads;
  }

  lemma RestsApart(s: Network)
    requires s == Resting(TOLD, Third(Severed))
    ensures AtRest(s) && InRange(s) && Leads(s, [0], 0, 1) && Leads(s, [1], 1, 0) && !Heard(s, 0)
  {
    hide INFORMED;
    assert [0][1..] == [] && [1][1..] == [];
    assert 1 in TOLD.unannounced;
  }

  lemma NewsStaysApart(s: Network)
    requires s == Resting(TOLD, Third(Severed))
    ensures Unexpired(s, 0) == {HASH} && Unexpired(s, 1) == {}
  {
    NewsIsAccepted();
    hide INFORMED;
  }
}
