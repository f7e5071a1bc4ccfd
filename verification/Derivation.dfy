/** What becomes of inventory mutations: messages in inboxes, held by rows that say which inventory items
    they were derived from. Tables are sequences of rows, without constraints the schema does not have. */
module Derivation {
  import opened Wrappers
  import Inventory

  type Hash = Inventory.Hash
  type InboxId = Bytes

  /** A message's identity is the digest of its plaintext; distinct plaintexts have distinct ones. */
  datatype Id = Id(plaintext: Bytes)

  /** A message as one inbox has it. */
  datatype Key = Key(id: Id, inbox: InboxId)

  /** What a payload is to an inbox: the inbox's own published entry, a box it can open, or nothing. */
  datatype Reading = OwnEntry | Sealed(plaintext: Bytes) | Opaque

  datatype Parsed = Parsed(inReplyTo: Option<Id>)

  datatype Mail = Mail(open: (Bytes, InboxId) -> Reading, parse: Bytes -> Option<Parsed>)

  datatype Inbox = Inbox(id: InboxId, autosave: bool)

  datatype MessageRow = MessageRow(key: Key, saved: bool)

  datatype Row = Row(from: Hash, key: Key)

  datatype Event =
    | MessageArrived(key: Key, saved: bool, inReplyTo: Option<Id>, expirationTime: int)
    | ExpirationExtended(key: Key, expirationTime: int)
    | MessageExpired(key: Key)
    | InboxSeen(inbox: InboxId, expirationTime: int)

  datatype State = State(
    inboxes: seq<Inbox>,
    messages: seq<MessageRow>,
    derivations: seq<Row>,
    inboxExpiration: map<InboxId, int>,
    events: seq<Event>
  ) {
    function Emitting(event: Event): State { this.(events := events + [event]) }
  }

  // ---------------------------------------------------------------- tables

  /** No two rows are of the same message in the same inbox. */
  ghost predicate Unique(messages: seq<MessageRow>) {
    forall i, j :: 0 <= i < j < |messages| ==> messages[i].key != messages[j].key
  }

  ghost predicate Distinct(inboxes: seq<Inbox>) {
    forall i, j :: 0 <= i < j < |inboxes| ==> inboxes[i].id != inboxes[j].id
  }

  function RowsFor(rows: seq<Row>, key: Key): (kept: seq<Row>)
    ensures forall x :: x in kept <==> x in rows && x.key == key
    ensures NoDuplicates(rows) ==> NoDuplicates(kept)
  {
    if rows == [] then
      []
    else
      var rest := RowsFor(rows[1..], key);
      if rows[0].key == key then [rows[0]] + rest else rest
  }

  function RowsFrom(rows: seq<Row>, hash: Hash): (kept: seq<Row>)
    ensures forall x :: x in kept <==> x in rows && x.from == hash
    ensures NoDuplicates(rows) ==> NoDuplicates(kept)
  {
    if rows == [] then
      []
    else
      var rest := RowsFrom(rows[1..], hash);
      if rows[0].from == hash then [rows[0]] + rest else rest
  }

  function WithoutRow(rows: seq<Row>, row: Row): (kept: seq<Row>)
    ensures forall x :: x in kept <==> x in rows && x != row
    ensures NoDuplicates(rows) ==> NoDuplicates(kept)
  {
    if rows == [] then
      []
    else
      var rest := WithoutRow(rows[1..], row);
      assert NoDuplicates(rows) ==> NoDuplicates(rows[1..]) && rows[0] !in rows[1..];
      assert forall i :: 0 <= i < |rest| ==> rest[i] in rows[1..];
      if rows[0] != row then [rows[0]] + rest else rest
  }

  function WithoutInboxRows(rows: seq<Row>, inbox: InboxId): (kept: seq<Row>)
    ensures forall x :: x in kept <==> x in rows && x.key.inbox != inbox
    ensures NoDuplicates(rows) ==> NoDuplicates(kept)
  {
    if rows == [] then
      []
    else
      var rest := WithoutInboxRows(rows[1..], inbox);
      if rows[0].key.inbox != inbox then [rows[0]] + rest else rest
  }

  function WithoutMessage(messages: seq<MessageRow>, key: Key): (kept: seq<MessageRow>)
    ensures forall x :: x in kept <==> x in messages && x.key != key
    ensures Unique(messages) ==> Unique(kept)
  {
    if messages == [] then
      []
    else
      var rest := WithoutMessage(messages[1..], key);
      if messages[0].key != key then [messages[0]] + rest else rest
  }

  function WithoutInboxMessages(messages: seq<MessageRow>, inbox: InboxId): (kept: seq<MessageRow>)
    ensures forall x :: x in kept <==> x in messages && x.key.inbox != inbox
    ensures Unique(messages) ==> Unique(kept)
  {
    if messages == [] then
      []
    else
      var rest := WithoutInboxMessages(messages[1..], inbox);
      if messages[0].key.inbox != inbox then [messages[0]] + rest else rest
  }

  function Flagged(messages: seq<MessageRow>, key: Key, saved: bool): (flagged: seq<MessageRow>)
    ensures |flagged| == |messages|
    ensures forall i :: 0 <= i < |messages| ==> flagged[i].key == messages[i].key
  {
    seq(|messages|, i requires 0 <= i < |messages| =>
      if messages[i].key == key then messages[i].(saved := saved) else messages[i])
  }

  /** The first row of the message, if there is one. */
  function MessageOf(messages: seq<MessageRow>, key: Key): (row: Option<MessageRow>)
    ensures row.Some? ==> row.value in messages && row.value.key == key
    ensures row.None? ==> forall m :: m in messages ==> m.key != key
  {
    if messages == [] then
      None
    else if messages[0].key == key then
      Some(messages[0])
    else
      MessageOf(messages[1..], key)
  }

  /** The latest expiration among the given rows whose inventory items are live. */
  function LatestAmong(rows: seq<Row>, live: set<Hash>): (latest: Option<int>)
    ensures latest.None? <==> forall r :: r in rows ==> r.from !in live
    ensures latest.Some? ==> exists r :: r in rows && r.from in live && r.from.expirationTime == latest.value
    ensures latest.Some? ==> forall r :: r in rows && r.from in live ==> r.from.expirationTime <= latest.value
  {
    if rows == [] then
      None
    else
      var earlier := LatestAmong(rows[..|rows| - 1], live);
      var last := rows[|rows| - 1].from;
      if last !in live then
        earlier
      else
        match earlier
        case None => Some(last.expirationTime)
        case Some(time) => Some(if last.expirationTime > time then last.expirationTime else time)
  }

  function StoredExpiration(s: State, live: set<Hash>, key: Key): Option<int> {
    LatestAmong(RowsFor(s.derivations, key), live)
  }

  // ---------------------------------------------------------------- mutations

  /** An inventory item `hash` arrives, as far as one inbox is concerned. */
  function ArriveAt(mail: Mail, s: State, live: set<Hash>, hash: Hash, inbox: Inbox): (t: State)
    ensures t.inboxes == s.inboxes && s.events <= t.events
    ensures s.messages <= t.messages && s.derivations <= t.derivations
  {
    match mail.open(hash.payload, inbox.id)
    case Opaque => s
    case OwnEntry =>
      var time :=
        if inbox.id in s.inboxExpiration && s.inboxExpiration[inbox.id] > hash.expirationTime
        then s.inboxExpiration[inbox.id] else hash.expirationTime;
      s.(inboxExpiration := s.inboxExpiration[inbox.id := time]).Emitting(InboxSeen(inbox.id, hash.expirationTime))
    case Sealed(plaintext) =>
      var key := Key(Id(plaintext), inbox.id);
      var stored := StoredExpiration(s, live, key);
      if hash in live && stored.Some? then
        var held := s.(derivations := s.derivations + [Row(hash, key)]);
        if hash.expirationTime > stored.value then
          held.Emitting(ExpirationExtended(key, hash.expirationTime))
        else
          held
      else
        match mail.parse(plaintext)
        case None => s
        case Some(parsed) =>
          s.(messages := s.messages + [MessageRow(key, inbox.autosave)],
             derivations := s.derivations + [Row(hash, key)])
          .Emitting(MessageArrived(key, inbox.autosave, parsed.inReplyTo, hash.expirationTime))
  }

  /** ... and as far as the first `n` inboxes are concerned. */
  function Arrive(mail: Mail, s: State, live: set<Hash>, hash: Hash, n: nat): (t: State)
    requires n <= |s.inboxes|
    ensures t.inboxes == s.inboxes && s.events <= t.events
    ensures s.messages <= t.messages && s.derivations <= t.derivations
  {
    if n == 0 then s else ArriveAt(mail, Arrive(mail, s, live, hash, n - 1), live, hash, s.inboxes[n - 1])
  }

  /** ... and as far as all of them are: an item that is no longer there is passed over. */
  function Consumed(mail: Mail, s: State, live: set<Hash>, hash: Hash): State {
    if hash in live then Arrive(mail, s, live, hash, |s.inboxes|) else s
  }

  /** One row of a purged item goes. The rows of its message are counted before that. */
  function DropRow(s: State, row: Row): (t: State)
    ensures t.inboxes == s.inboxes && t.inboxExpiration == s.inboxExpiration && s.events <= t.events
  {
    var count := |RowsFor(s.derivations, row.key)|;
    var dropped := s.(derivations := WithoutRow(s.derivations, row));
    if count <= 1 && MessageOf(s.messages, row.key).Some? && !MessageOf(s.messages, row.key).value.saved then
      dropped.(messages := WithoutMessage(s.messages, row.key)).Emitting(MessageExpired(row.key))
    else
      dropped
  }

  function DropRows(s: State, rows: seq<Row>): State {
    if rows == [] then s else DropRow(DropRows(s, rows[..|rows| - 1]), rows[|rows| - 1])
  }

  /** What a cursor over the item's rows may yield while they are being deleted under it: every row, in some
      order, and possibly again a copy of a row whose copies are gone already. */
  ghost predicate Yields(rows: seq<Row>, hash: Hash, cursor: seq<Row>) {
    && (forall r :: r in cursor <==> r in rows && r.from == hash)
    && multiset(cursor) <= multiset(rows)
  }

  // ---------------------------------------------------------------- commands

  function Saved(s: State, key: Key): State {
    s.(messages := Flagged(s.messages, key, true))
  }

  /** Unsaving a message that nothing holds any more deletes it. */
  function Unsaved(s: State, key: Key): State {
    if RowsFor(s.derivations, key) != [] then
      s.(messages := Flagged(s.messages, key, false))
    else
      s.(messages := WithoutMessage(s.messages, key)).Emitting(MessageExpired(key))
  }

  function InboxAdded(s: State, inbox: InboxId): State {
    s.(inboxes := s.inboxes + [Inbox(inbox, true)])
  }

  function AutosaveSet(s: State, inbox: InboxId, autosave: bool): State {
    s.(inboxes := seq(|s.inboxes|, i requires 0 <= i < |s.inboxes| =>
      if s.inboxes[i].id == inbox then Inbox(inbox, autosave) else s.inboxes[i]))
  }

  function WithoutInbox(inboxes: seq<Inbox>, inbox: InboxId): (kept: seq<Inbox>)
    ensures forall x :: x in kept <==> x in inboxes && x.id != inbox
    ensures Distinct(inboxes) ==> Distinct(kept)
  {
    if inboxes == [] then
      []
    else
      var rest := WithoutInbox(inboxes[1..], inbox);
      if inboxes[0].id != inbox then [inboxes[0]] + rest else rest
  }

  function InboxDeleted(s: State, inbox: InboxId): State {
    s.(derivations := WithoutInboxRows(s.derivations, inbox),
       messages := WithoutInboxMessages(s.messages, inbox),
       inboxes := WithoutInbox(s.inboxes, inbox),
       inboxExpiration := s.inboxExpiration - {inbox})
  }

  const EMPTY := State([], [], [], map[], [])
}
