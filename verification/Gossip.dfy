/** The reconciliation protocol as atomic steps of any number of nodes and links.

    Every link is one client at its sender that scans the sender's inventory in order of arrival, asks the
    receiver about each hash, submits what the receiver lacks, and parks. A notifier task beside it turns
    the link's event flag into a `Proceed` that the parked client receives. A node that stores a message
    raises the event flag of every link that leaves it. */
module Gossip {
  import opened Wrappers
  import Inventory
  import P = ProofOfWork

  type Hash = Inventory.Hash
  type Message = Inventory.Message
  type Store = Inventory.State

  datatype Phase =
    | Scanning
    | Testing(hash: Hash)          // the cursor has moved and the peer is being asked
    | Fetching(hash: Hash)         // the peer lacks it, the row is being read
    | Submitting(message: Message) // the peer has yet to check it
    | Inserting(message: Message)  // the peer has checked it and has yet to store it
    | Announcing(counter: nat)     // the peer has stored it and has yet to raise its flags
    | Parked
    | Severed

  datatype Link = Link(sender: nat, receiver: nat, cursor: nat, phase: Phase, flag: bool, proceed: bool)

  /** `unannounced` are the arrivals after which no flag has been raised yet, `submissions` those of them
      whose local submission is still going to raise them. */
  datatype Node = Node(inventory: Store, unannounced: set<nat>, submissions: set<nat>)

  /** `now` is the clock, in nanoseconds. */
  datatype Network = Network(now: int, nodes: seq<Node>, links: seq<Link>)

  // ---------------------------------------------------------------- one client

  function Fresh(sender: nat, receiver: nat): Link {
    Link(sender, receiver, 0, Scanning, false, false)
  }

  function Scan(link: Link, own: Store): Link {
    match Inventory.NextCounter(own, link.cursor)
    case Some(c) => link.(cursor := c, phase := Testing(own.counterToHash[c]))
    case None => link.(phase := Parked)
  }

  function Tested(link: Link, hash: Hash, peer: Store): Link {
    link.(phase := if hash in peer.Live() then Scanning else Fetching(hash))
  }

  function Fetched(link: Link, hash: Hash, own: Store): Link {
    link.(phase := if hash in own.table then Submitting(own.table[hash]) else Scanning)
  }

  function Checked(work: P.Work, now: int, link: Link, message: Message, peer: Store): Link {
    var wanted :=
      && Inventory.MessageHash(message) !in peer.Live()
      && P.Verify(work, message.payload, message.nonce, message.expirationTime, now);
    link.(phase := if wanted then Inserting(message) else Scanning)
  }

  function Woken(link: Link): Link {
    link.(flag := false, proceed := true)
  }

  function Resumed(link: Link): Link {
    link.(proceed := false, phase := Scanning)
  }

  // ---------------------------------------------------------------- one node

  function Stored(node: Node, message: Message): Node {
    node.(inventory := Inventory.Inserted(node.inventory, message),
          unannounced := node.unannounced + {node.inventory.counter + 1})
  }

  /** Raises the flag of every open link that leaves `node`. */
  function Broadcast(links: seq<Link>, node: nat): (raised: seq<Link>)
    ensures |raised| == |links|
  {
    seq(|links|, i requires 0 <= i < |links| =>
      if links[i].sender == node && !links[i].phase.Severed? then links[i].(flag := true) else links[i])
  }

  // ---------------------------------------------------------------- the network

  datatype Step =
    | ScanStep(link: nat)
    | TestStep(link: nat)
    | FetchStep(link: nat)
    | CheckStep(link: nat)
    | InsertStep(link: nat)
    | AnnounceStep(link: nat)
    | WakeStep(link: nat)
    | ResumeStep(link: nat)
    | AnnounceLocally(node: nat, counter: nat)
    | Submit(node: nat, message: Message, mined: int)
    | Sweep(node: nat)
    | Tick(later: int)
    | Connect(sender: nat, receiver: nat)
    | Sever(link: nat)

  ghost predicate InRange(s: Network) {
    forall i :: 0 <= i < |s.links| ==> s.links[i].sender < |s.nodes| && s.links[i].receiver < |s.nodes|
  }

  /** A local submission is stored once a nonce is found for the target that was computed when mining
      began, at `mined`; the message may have expired since. A connection may break at any moment, also when
      the server has stored a message and has yet to raise its flags. */
  ghost predicate Enabled(work: P.Work, s: Network, step: Step) {
    match step
    case ScanStep(l) => l < |s.links| && s.links[l].phase.Scanning?
    case TestStep(l) => l < |s.links| && s.links[l].phase.Testing?
    case FetchStep(l) => l < |s.links| && s.links[l].phase.Fetching?
    case CheckStep(l) => l < |s.links| && s.links[l].phase.Submitting?
    case InsertStep(l) => l < |s.links| && s.links[l].phase.Inserting?
    case AnnounceStep(l) => l < |s.links| && s.links[l].phase.Announcing?
    case WakeStep(l) =>
      l < |s.links| && s.links[l].flag && !s.links[l].proceed && !s.links[l].phase.Severed?
    case ResumeStep(l) => l < |s.links| && s.links[l].phase.Parked? && s.links[l].proceed
    case AnnounceLocally(n, c) => n < |s.nodes| && c in s.nodes[n].submissions
    case Submit(n, m, mined) =>
      n < |s.nodes| && mined <= s.now && P.Verify(work, m.payload, m.nonce, m.expirationTime, mined)
    case Sweep(n) => n < |s.nodes|
    case Tick(later) => s.now <= later
    case Connect(a, b) => a < |s.nodes| && b < |s.nodes|
    case Sever(l) => l < |s.links|
  }

  ghost function Apply(work: P.Work, s: Network, step: Step): (t: Network)
    requires InRange(s) && Enabled(work, s, step)
    ensures InRange(t)
  {
    match step
    case ScanStep(l) =>
      var k := s.links[l];
      s.(links := s.links[l := Scan(k, s.nodes[k.sender].inventory)])
    case TestStep(l) =>
      var k := s.links[l];
      s.(links := s.links[l := Tested(k, k.phase.hash, s.nodes[k.receiver].inventory)])
    case FetchStep(l) =>
      var k := s.links[l];
      s.(links := s.links[l := Fetched(k, k.phase.hash, s.nodes[k.sender].inventory)])
    case CheckStep(l) =>
      var k := s.links[l];
      s.(links := s.links[l := Checked(work, s.now, k, k.phase.message, s.nodes[k.receiver].inventory)])
    case InsertStep(l) =>
      var k := s.links[l];
      var counter := s.nodes[k.receiver].inventory.counter + 1;
      Received(s, l).(links := s.links[l := k.(phase := Announcing(counter))])
    case AnnounceStep(l) =>
      var k := s.links[l];
      Announced(s.(links := s.links[l := k.(phase := Scanning)]), k.receiver)
    case WakeStep(l) => s.(links := s.links[l := Woken(s.links[l])])
    case ResumeStep(l) => s.(links := s.links[l := Resumed(s.links[l])])
    case AnnounceLocally(n, c) =>
      var node := s.nodes[n];
      Announced(s.(nodes := s.nodes[n := node.(submissions := node.submissions - {c})]), n)
    case Submit(n, m, mined) =>
      var node := Stored(s.nodes[n], m);
      s.(nodes := s.nodes[n := node.(submissions := node.submissions + {node.inventory.counter})])
    case Sweep(n) =>
      var node := s.nodes[n];
      s.(nodes := s.nodes[n := node.(inventory := Inventory.Purged(node.inventory, s.now / P.NANOSECONDS))])
    case Tick(later) => s.(now := later)
    case Connect(a, b) => s.(links := s.links + [Fresh(a, b)])
    case Sever(l) => s.(links := s.links[l := s.links[l].(phase := Severed, flag := false, proceed := false)])
  }

  /** The receiver of a link stores what the link carries. */
  ghost function Received(s: Network, l: nat): (t: Network)
    requires InRange(s) && l < |s.links| && s.links[l].phase.Inserting?
    ensures InRange(t) && t.now == s.now && t.links == s.links
  {
    var k := s.links[l];
    s.(nodes := s.nodes[k.receiver := Stored(s.nodes[k.receiver], k.phase.message)])
  }

  /** After a broadcast at `n` nothing that ever arrived there is unannounced. */
  ghost function Announced(s: Network, n: nat): (t: Network)
    requires InRange(s) && n < |s.nodes|
    ensures InRange(t)
  {
    s.(nodes := s.nodes[n := s.nodes[n].(unannounced := {})], links := Broadcast(s.links, n))
  }

  /** At the start the nodes hold what they loaded from disk, and there are no links. */
  ghost predicate Initial(work: P.Work, s: Network) {
    && s.links == []
    && forall n :: 0 <= n < |s.nodes| ==>
         && s.nodes[n].unannounced == s.nodes[n].submissions == {}
         && Inventory.Consistent(s.nodes[n].inventory)
         && forall h :: h in s.nodes[n].inventory.table ==> Mined(work, s.now, s.nodes[n].inventory.table[h])
  }

  /** At some moment up to `now` the message carried enough work. */
  ghost predicate Mined(work: P.Work, now: int, m: Message) {
    exists t :: t <= now && P.Verify(work, m.payload, m.nonce, m.expirationTime, t)
  }

  ghost predicate Next(work: P.Work, s: Network, t: Network) {
    InRange(s) && exists step :: Enabled(work, s, step) && t == Apply(work, s, step)
  }

  /** Any interleaving of any steps. */
  ghost predicate Behavior(work: P.Work, run: seq<Network>) {
    && |run| > 0
    && Initial(work, run[0])
    && forall i :: 0 <= i < |run| - 1 ==> Next(work, run[i], run[i + 1])
  }

  ghost predicate Reachable(work: P.Work, s: Network) {
    exists run :: Behavior(work, run) && run[|run| - 1] == s
  }

  /** The step cuts a server off before it raises its flags. */
  predicate Abrupt(s: Network, step: Step) {
    step.Sever? && step.link < |s.links| && s.links[step.link].phase.Announcing?
  }

  ghost predicate GentleNext(work: P.Work, s: Network, t: Network) {
    InRange(s) && exists step :: !Abrupt(s, step) && Enabled(work, s, step) && t == Apply(work, s, step)
  }

  /** Reached without any server having been cut off like that. */
  ghost predicate GentlyReachable(work: P.Work, s: Network) {
    exists run :: Behavior(work, run) && run[|run| - 1] == s &&
                  forall i :: 0 <= i < |run| - 1 ==> GentleNext(work, run[i], run[i + 1])
  }
}
