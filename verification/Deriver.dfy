/** The task that consumes mutations and commands: tables updated in place, in the inventory's company. */
module Deriver {
  import opened Wrappers
  import opened Derivation
  import Inventory
  import InventoryStore

  lemma LatestOfOneMore(rows: seq<Row>, live: set<Hash>, i: nat)
    requires i < |rows|
    ensures var earlier, from := LatestAmong(rows[..i], live), rows[i].from;
            LatestAmong(rows[..i + 1], live) ==
            if from !in live || (earlier.Some? && from.expirationTime <= earlier.value)
            then earlier else Some(from.expirationTime)
  {
    assert rows[..i + 1][..i] == rows[..i];
  }

  class Deriver {
    const store: InventoryStore.Store
    const mail: Mail
    var inboxes: seq<Inbox>
    var messages: seq<MessageRow>
    var derivations: seq<Row>
    var inboxExpiration: map<InboxId, int>
    /** Everything sent so far to the frontend. */
    var events: seq<Event>

    function Contents(): State
      reads this
    {
      State(inboxes, messages, derivations, inboxExpiration, events)
    }

    function Live(): set<Hash>
      reads store
    {
      store.Contents().Live()
    }

    constructor (store: InventoryStore.Store, mail: Mail)
      ensures this.store == store && this.mail == mail
      ensures Contents() == EMPTY
    {
      this.store, this.mail := store, mail;
      inboxes, messages, derivations := [], [], [];
      inboxExpiration, events := map[], [];
    }

    /** The latest expiration among the live items a message is derived from. */
    method StoredMessageExpirationTime(key: Key) returns (time: Option<int>)
      requires Inventory.Consistent(store.Contents())
      ensures time == StoredExpiration(Contents(), Live(), key)
    {
      var rows := RowsFor(derivations, key);
      hide Inventory.Consistent, RowsFor, LatestAmong;
      time := None;
      assert LatestAmong(rows[..0], Live()) == None;
      for i := 0 to |rows|
        invariant time == LatestAmong(rows[..i], Live())
      {
        LatestOfOneMore(rows, Live(), i);
        var expirationTime := store.GetExpirationTime(rows[i].from);
        if expirationTime.Some? {
          if time.None? || expirationTime.value > time.value {
            time := expirationTime;
          }
        }
      }
      assert rows[..|rows|] == rows;
    }

    /** Files a new item with every inbox that can read it. */
    method Insert(hash: Hash)
      requires Inventory.Consistent(store.Contents())
      modifies this
      ensures Contents() == Consumed(mail, old(Contents()), Live(), hash)
    {
      hide Arrive, Inventory.Consistent;
      var message := store.GetMessage(hash);
      if message.Some? {
        InsertIntoAll(hash, message.value);
      }
    }

    method InsertIntoAll(hash: Hash, message: Inventory.Message)
      requires Inventory.Consistent(store.Contents())
      requires Inventory.MessageHash(message) == hash
      modifies this
      ensures Contents() == Arrive(mail, old(Contents()), Live(), hash, |old(inboxes)|)
    {
      hide ArriveAt, Inventory.Consistent, Inventory.MessageHash;
      for i := 0 to |inboxes|
        invariant inboxes == old(inboxes)
        invariant Contents() == Arrive(mail, old(Contents()), Live(), hash, i)
      {
        InsertInto(hash, message, inboxes[i]);
        assert Contents() == Arrive(mail, old(Contents()), Live(), hash, i + 1);
      }
    }

    method InsertInto(hash: Hash, message: Inventory.Message, inbox: Inbox)
      requires Inventory.Consistent(store.Contents())
      requires Inventory.MessageHash(message) == hash
      modifies this
      ensures Contents() == ArriveAt(mail, old(Contents()), Live(), hash, inbox)
    {
      hide Inventory.Consistent, StoredExpiration;
      match mail.open(message.payload, inbox.id)
      case OwnEntry =>
        var expirationTime := message.expirationTime;
        if inbox.id in inboxExpiration && inboxExpiration[inbox.id] > expirationTime {
          expirationTime := inboxExpiration[inbox.id];
        }
        inboxExpiration := inboxExpiration[inbox.id := expirationTime];
        events := events + [InboxSeen(inbox.id, message.expirationTime)];
      case Sealed(plaintext) =>
        FileMessage(hash, plaintext, inbox);
      case Opaque =>
    }

    /** One more row for a message that is held, or else the message as new. */
    method FileMessage(hash: Hash, plaintext: Bytes, inbox: Inbox)
      requires Inventory.Consistent(store.Contents())
      requires mail.open(hash.payload, inbox.id) == Sealed(plaintext)
      modifies this
      ensures Contents() == ArriveAt(mail, old(Contents()), Live(), hash, inbox)
    {
      hide Inventory.Consistent, StoredExpiration;
      var key := Key(Id(plaintext), inbox.id);
      var stored := StoredMessageExpirationTime(key);
      var current := store.GetExpirationTime(hash);
      if current.Some? && stored.Some? {
        derivations := derivations + [Row(hash, key)];
        if current.value > stored.value {
          events := events + [ExpirationExtended(key, current.value)];
        }
        return;
      }
      var parsed := mail.parse(plaintext);
      if parsed.Some? {
        messages := messages + [MessageRow(key, inbox.autosave)];
        derivations := derivations + [Row(hash, key)];
        events := events + [MessageArrived(key, inbox.autosave, parsed.value.inReplyTo, hash.expirationTime)];
      }
    }

    /** Takes away the rows of a purged item, as the `cursor` over them yields them, and with them the unsaved
        messages that the count says only it held. */
    method Purge(hash: Hash, cursor: seq<Row>)
      requires Yields(derivations, hash, cursor)
      modifies this
      ensures Contents() == DropRows(old(Contents()), cursor)
    {
      for i := 0 to |cursor|
        invariant Contents() == DropRows(old(Contents()), cursor[..i])
      {
        assert cursor[..i + 1][..i] == cursor[..i];
        var key := cursor[i].key;
        var count := |RowsFor(derivations, key)|;
        derivations := WithoutRow(derivations, cursor[i]);
        if count <= 1 {
          var message := MessageOf(messages, key);
          if message.Some? && !message.value.saved {
            messages := WithoutMessage(messages, key);
            events := events + [MessageExpired(key)];
          }
        }
      }
      assert cursor[..|cursor|] == cursor;
    }

    method PurgeOrFlag(key: Key)
      modifies this
      ensures Contents() == Unsaved(old(Contents()), key)
    {
      if RowsFor(derivations, key) != [] {
        messages := Flagged(messages, key, false);
      } else {
        messages := WithoutMessage(messages, key);
        events := events + [MessageExpired(key)];
      }
    }

    method SaveMessage(key: Key)
      modifies this
      ensures Contents() == Saved(old(Contents()), key)
    {
      messages := Flagged(messages, key, true);
    }

    method NewInbox(inbox: InboxId)
      modifies this
      ensures Contents() == InboxAdded(old(Contents()), inbox)
    {
      inboxes := inboxes + [Inbox(inbox, true)];
    }

    method SetAutosavePreference(inbox: InboxId, autosave: bool)
      modifies this
      ensures Contents() == AutosaveSet(old(Contents()), inbox, autosave)
    {
      for i := 0 to |inboxes|
        invariant |inboxes| == |old(inboxes)|
        invariant unchanged(`messages) && unchanged(`derivations) && unchanged(`inboxExpiration) && unchanged(`events)
        invariant inboxes[..i] == AutosaveSet(old(Contents()), inbox, autosave).inboxes[..i]
        invariant inboxes[i..] == old(inboxes)[i..]
      {
        if inboxes[i].id == inbox {
          inboxes := inboxes[i := Inbox(inbox, autosave)];
        }
      }
    }

    method DeleteInbox(inbox: InboxId)
      modifies this
      ensures Contents() == InboxDeleted(old(Contents()), inbox)
    {
      derivations := WithoutInboxRows(derivations, inbox);
      messages := WithoutInboxMessages(messages, inbox);
      inboxes := WithoutInbox(inboxes, inbox);
      inboxExpiration := inboxExpiration - {inbox};
    }
  }
}
