/** Stored twice: where a peer's check and its insertion are two steps, two links may both pass the check for one
    message, and both store it. */
module GossipDuplicates {
  import opened Gossip
  import opened GossipSafety
  import GossipAtomic
  import Inventory
  import P = ProofOfWork
  import Easy = GossipSilence

  /** Node 0 after it has stored the message once, and after it has stored it twice. */
  const ONCE := Stored(Easy.BLANK, Easy.NEWS)
  const TWICE := Stored(ONCE, Easy.NEWS)

  function Offer(sender: nat, cursor: nat, phase: Phase): Link {
    Link(sender, 0, cursor, phase, false, false)
  }

  /** Nodes 1 and 2 have the message, and each is linked to node 0. */
  function Pair(target: Node, first: Link, second: Link): Network {
    Network(0, [target, Easy.SOURCE, Easy.SOURCE], [first, second])
  }

  function Apart(links: seq<Link>): Network {
    Network(0, [Easy.BLANK, Easy.SOURCE, Easy.SOURCE], links)
  }

  lemma ApartIsInitial()
    ensures Initial(Easy.EASY, Apart([]))
  {
    Easy.NewsIsAccepted();
    hide Easy.INFORMED, P.Verify;
    assert Mined(Easy.EASY, 0, Easy.NEWS);
    assert Inventory.Consistent(Inventory.EMPTY);
    hide Inventory.Consistent, Mined;
  }

  lemma ApartIsReachable()
    ensures Reachable(Easy.EASY, Apart([]))
  {
    var s := Apart([]);
    ApartIsInitial();
    hide Initial, Apart;
    assert Behavior(Easy.EASY, [s]) && [s][|[s]| - 1] == s;
  }

  lemma Connecting(links: seq<Link>, a: nat)
    requires Reachable(Easy.EASY, Apart(links)) && InRange(Apart(links)) && a < 3
    ensures Reachable(Easy.EASY, Apart(links + [Fresh(a, 0)])) && InRange(Apart(links + [Fresh(a, 0)]))
  {
    hide Reachable, Easy.INFORMED;
    ReachableStep(Easy.EASY, Apart(links), Connect(a, 0));
    assert Apply(Easy.EASY, Apart(links), Connect(a, 0)) == Apart(links + [Fresh(a, 0)]);
  }

  lemma PairIsReachable()
    ensures Reachable(Easy.EASY, Pair(Easy.BLANK, Fresh(1, 0), Fresh(2, 0)))
  {
    ApartIsReachable();
    hide Reachable, Easy.INFORMED;
    Connecting([], 1);
    Connecting([] + [Fresh(1, 0)], 2);
    assert [] + [Fresh(1, 0)] + [Fresh(2, 0)] == [Fresh(1, 0), Fresh(2, 0)];
  }

  /** One side, up to the passed check. */
  function At(l: nat, mine: Link, other: Link): Network {
    if l == 0 then Pair(Easy.BLANK, mine, other) else Pair(Easy.BLANK, other, mine)
  }

  lemma Offering(l: nat, other: Link)
    requires l < 2 && other.sender < 3 && other.receiver == 0
    requires Reachable(Easy.EASY, At(l, Fresh(l + 1, 0), other))
    ensures Reachable(Easy.EASY, At(l, Offer(l + 1, 1, Submitting(Easy.NEWS)), other))
  {
    Easy.NewsIsAccepted();
    hide Reachable, Easy.INFORMED;
    var a, b := Fresh(l + 1, 0), Offer(l + 1, 1, Testing(Easy.HASH));
    var c, d := Offer(l + 1, 1, Fetching(Easy.HASH)), Offer(l + 1, 1, Submitting(Easy.NEWS));
    ReachableStep(Easy.EASY, At(l, a, other), ScanStep(l));
    assert Apply(Easy.EASY, At(l, a, other), ScanStep(l)) == At(l, b, other);
    ReachableStep(Easy.EASY, At(l, b, other), TestStep(l));
    assert Apply(Easy.EASY, At(l, b, other), TestStep(l)) == At(l, c, other);
    ReachableStep(Easy.EASY, At(l, c, other), FetchStep(l));
    assert Apply(Easy.EASY, At(l, c, other), FetchStep(l)) == At(l, d, other);
  }

  lemma Passing(l: nat, other: Link)
    requires l < 2 && other.sender < 3 && other.receiver == 0
    requires Reachable(Easy.EASY, At(l, Offer(l + 1, 1, Submitting(Easy.NEWS)), other))
    ensures GossipAtomic.Accepts(Easy.EASY, At(l, Offer(l + 1, 1, Submitting(Easy.NEWS)), other), l, 0, Easy.HASH)
    ensures Reachable(Easy.EASY, At(l, Offer(l + 1, 1, Inserting(Easy.NEWS)), other))
  {
    Easy.NewsIsAccepted();
    hide Reachable, Easy.INFORMED, P.Verify;
    var a, b := Offer(l + 1, 1, Submitting(Easy.NEWS)), Offer(l + 1, 1, Inserting(Easy.NEWS));
    ReachableStep(Easy.EASY, At(l, a, other), CheckStep(l));
    assert Apply(Easy.EASY, At(l, a, other), CheckStep(l)) == At(l, b, other);
  }

  /** Both links pass the check before either has stored. */
  lemma BothPass()
    ensures Reachable(Easy.EASY,
                      Pair(Easy.BLANK, Offer(1, 1, Inserting(Easy.NEWS)), Offer(2, 1, Inserting(Easy.NEWS))))
  {
    PairIsReachable();
    hide Reachable, Easy.BLANK;
    Offering(0, Fresh(2, 0));
    Passing(0, Fresh(2, 0));
    Offering(1, Offer(1, 1, Inserting(Easy.NEWS)));
    Passing(1, Offer(1, 1, Inserting(Easy.NEWS)));
  }

  lemma Storing()
    ensures var both := Pair(Easy.BLANK, Offer(1, 1, Inserting(Easy.NEWS)), Offer(2, 1, Inserting(Easy.NEWS)));
            var one := Pair(ONCE, Offer(1, 1, Announcing(1)), Offer(2, 1, Inserting(Easy.NEWS)));
            var two := Pair(TWICE, Offer(1, 1, Announcing(1)), Offer(2, 1, Announcing(2)));
            Apply(Easy.EASY, both, InsertStep(0)) == one && Apply(Easy.EASY, one, InsertStep(1)) == two
  {
    assert ONCE.inventory.counter == 1;
    hide Stored, Easy.INFORMED, Inventory.Inserted;
  }

  lemma TwiceIsStale()
    ensures TWICE.inventory.Live() == {Easy.HASH} && !Inventory.Bijective(TWICE.inventory)
    ensures TWICE.inventory.counterToHash == map[1 := Easy.HASH, 2 := Easy.HASH]
  {
    Easy.NewsIsAccepted();
    assert Inventory.Consistent(Inventory.EMPTY);
    Inventory.InsertKeepsConsistent(Inventory.EMPTY, Easy.NEWS);
    Inventory.InsertKeepsConsistent(Easy.INFORMED, Easy.NEWS);
    Inventory.InsertKeepsBijectiveIffFresh(Inventory.EMPTY, Easy.NEWS);
    Inventory.InsertKeepsBijectiveIffFresh(Easy.INFORMED, Easy.NEWS);
  }

  /** A reachable network in which one node has stored one message twice, once from each of two links, and keeps
      an entry that its hash does not lead back to. */
  lemma TwoLinksStoreOneMessage() returns (s: Network)
    ensures Reachable(Easy.EASY, s) && |s.nodes| == 3
    ensures s.nodes[0].inventory.Live() == {Easy.HASH}
    ensures s.nodes[0].inventory.counterToHash == map[1 := Easy.HASH, 2 := Easy.HASH]
    ensures !GossipAtomic.Inverse(s)
  {
    var both := Pair(Easy.BLANK, Offer(1, 1, Inserting(Easy.NEWS)), Offer(2, 1, Inserting(Easy.NEWS)));
    var one := Pair(ONCE, Offer(1, 1, Announcing(1)), Offer(2, 1, Inserting(Easy.NEWS)));
    BothPass();
    Storing();
    TwiceIsStale();
    hide Reachable, Apply, Easy.INFORMED, ONCE, TWICE, Inventory.Bijective;
    ReachableStep(Easy.EASY, both, InsertStep(0));
    ReachableStep(Easy.EASY, one, InsertStep(1));
    s := Apply(Easy.EASY, one, InsertStep(1));
    assert s.nodes[0] == TWICE;
  }
}
