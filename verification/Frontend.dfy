/** The frontend's own copy of the inboxes: messages, an unread counter and a reverse index of replies,
    kept up to date from events. Functions say what each action does to the values, classes do it in place. */
module Frontend {
  import opened Wrappers
  import D = Derivation

  type Id = D.Id
  type InboxId = D.InboxId
  type Key = D.Key

  datatype Message = Message(inReplyTo: Option<Id>, expirationTime: Option<int>, saved: bool, read: bool)

  /** The contents of one inbox. */
  datatype Box = Box(
    messages: map<Id, Message>,
    children: map<Id, set<Id>>,
    expirationTime: Option<int>,
    unreadCount: int
  )

  /** All inboxes, and the messages the user has read, which outlive the messages themselves. */
  datatype View = View(boxes: map<InboxId, Box>, readKeys: set<Key>)

  const EMPTY_BOX := Box(map[], map[], None, 0)

  // ---------------------------------------------------------------- one inbox

  function ChildrenOf(children: map<Id, set<Id>>, parent: Id): set<Id> {
    if parent in children then children[parent] else {}
  }

  function WithChild(children: map<Id, set<Id>>, parent: Option<Id>, id: Id): map<Id, set<Id>> {
    if parent.None? then children else children[parent.value := ChildrenOf(children, parent.value) + {id}]
  }

  function WithoutChild(children: map<Id, set<Id>>, parent: Option<Id>, id: Id): map<Id, set<Id>> {
    if parent.None? || parent.value !in children then
      children
    else if children[parent.value] - {id} == {} then
      children - {parent.value}
    else
      children[parent.value := children[parent.value] - {id}]
  }

  function Inserted(b: Box, id: Id, message: Message): Box {
    b.(messages := b.messages[id := message],
       unreadCount := if message.read then b.unreadCount else b.unreadCount + 1,
       children := WithChild(b.children, message.inReplyTo, id))
  }

  function Expired(b: Box, id: Id): Box {
    if id !in b.messages then
      b
    else
      var message := b.messages[id];
      b.(messages := b.messages - {id},
         unreadCount := if message.read then b.unreadCount else b.unreadCount - 1,
         children := WithoutChild(b.children, message.inReplyTo, id))
  }

  function MarkedRead(b: Box, id: Id): Box {
    if id !in b.messages then
      b
    else
      b.(messages := b.messages[id := b.messages[id].(read := true)],
         unreadCount := if b.messages[id].read then b.unreadCount else b.unreadCount - 1)
  }

  function Marked(b: Box, id: Id, saved: bool): Box {
    if id !in b.messages then b else b.(messages := b.messages[id := b.messages[id].(saved := saved)])
  }

  function Extended(b: Box, id: Id, time: int): Box {
    if id !in b.messages then
      b
    else
      b.(messages := b.messages[id := b.messages[id].(expirationTime := Some(time))])
  }

  function Seen(b: Box, time: int): Box {
    b.(expirationTime :=
      if b.expirationTime.Some? && b.expirationTime.value > time then b.expirationTime else Some(time))
  }

  // ---------------------------------------------------------------- what the derived fields mean

  function Unread(messages: map<Id, Message>): set<Id> {
    set id | id in messages && !messages[id].read
  }

  ghost predicate RepliesTo(messages: map<Id, Message>, child: Id, parent: Id) {
    child in messages && messages[child].inReplyTo == Some(parent)
  }

  /** The index is the inverse of `inReplyTo`, and holds no empty sets. */
  ghost predicate ChildrenExact(messages: map<Id, Message>, children: map<Id, set<Id>>) {
    && (forall parent :: parent in children ==> children[parent] != {})
    && (forall parent, child :: child in ChildrenOf(children, parent) <==> RepliesTo(messages, child, parent))
  }

  ghost predicate Tidy(b: Box) {
    b.unreadCount == |Unread(b.messages)| && ChildrenExact(b.messages, b.children)
  }

  lemma UnreadWith(messages: map<Id, Message>, id: Id, message: Message)
    ensures Unread(messages[id := message]) ==
            if message.read then Unread(messages) - {id} else Unread(messages) + {id}
  {
  }

  lemma ChildrenWith(b: Box, id: Id, message: Message)
    requires ChildrenExact(b.messages, b.children)
    requires id in b.messages ==> b.messages[id].inReplyTo == message.inReplyTo
    ensures ChildrenExact(b.messages[id := message], WithChild(b.children, message.inReplyTo, id))
  {
    var messages, children := b.messages[id := message], WithChild(b.children, message.inReplyTo, id);
    forall parent, child
      ensures child in ChildrenOf(children, parent) <==> RepliesTo(messages, child, parent)
    {
      assert child in ChildrenOf(b.children, parent) <==> RepliesTo(b.messages, child, parent);
    }
  }

  /** Inserting keeps the counter and the index right exactly when the message is new, or known to be read:
      a second event for an unread message counts it twice. */
  lemma InsertKeepsTidyExactly(b: Box, id: Id, message: Message)
    requires Tidy(b)
    requires id in b.messages ==>
               b.messages[id].inReplyTo == message.inReplyTo && b.messages[id].read == message.read
    ensures Tidy(Inserted(b, id, message)) <==> id !in b.messages || message.read
  {
    ChildrenWith(b, id, message);
    UnreadWith(b.messages, id, message);
    hide Unread, ChildrenExact;
    if id in b.messages {
      assert id in Unread(b.messages) <==> !message.read by {
        UnreadMember(b.messages, id);
      }
    } else {
      UnreadMember(b.messages, id);
    }
  }

  lemma UnreadMember(messages: map<Id, Message>, id: Id)
    ensures id in Unread(messages) <==> id in messages && !messages[id].read
  {
  }

  lemma ChildrenWithout(b: Box, id: Id)
    requires ChildrenExact(b.messages, b.children) && id in b.messages
    ensures ChildrenExact(b.messages - {id}, WithoutChild(b.children, b.messages[id].inReplyTo, id))
  {
    var parent := b.messages[id].inReplyTo;
    var messages, children := b.messages - {id}, WithoutChild(b.children, parent, id);
    if parent.Some? {
      assert id in ChildrenOf(b.children, parent.value) by {
        assert RepliesTo(b.messages, id, parent.value);
      }
    }
    forall p, child
      ensures child in ChildrenOf(children, p) <==> RepliesTo(messages, child, p)
    {
      assert child in ChildrenOf(b.children, p) <==> RepliesTo(b.messages, child, p);
      assert id in ChildrenOf(b.children, p) <==> RepliesTo(b.messages, id, p);
    }
  }

  lemma ExpireKeepsTidy(b: Box, id: Id)
    requires Tidy(b)
    ensures Tidy(Expired(b, id)) && Expired(b, id).messages == b.messages - {id}
  {
    if id in b.messages {
      ChildrenWithout(b, id);
      assert Unread(b.messages - {id}) == Unread(b.messages) - {id};
    } else {
      assert b.messages - {id} == b.messages;
    }
  }

  /** Changing what neither the counter nor the index depends on. */
  lemma TouchKeepsTidy(b: Box, id: Id, message: Message)
    requires Tidy(b) && id in b.messages
    requires message.inReplyTo == b.messages[id].inReplyTo && message.read == b.messages[id].read
    ensures Tidy(b.(messages := b.messages[id := message]))
  {
    var messages := b.messages[id := message];
    assert Unread(messages) == Unread(b.messages);
    assert forall parent, child :: RepliesTo(messages, child, parent) <==> RepliesTo(b.messages, child, parent);
  }

  lemma MarkReadKeepsTidy(b: Box, id: Id)
    requires Tidy(b)
    ensures Tidy(MarkedRead(b, id))
    ensures Unread(MarkedRead(b, id).messages) == Unread(b.messages) - {id}
  {
    if id in b.messages {
      var messages := MarkedRead(b, id).messages;
      UnreadWith(b.messages, id, messages[id]);
      UnreadMember(b.messages, id);
      assert forall parent, child :: RepliesTo(messages, child, parent) <==> RepliesTo(b.messages, child, parent);
    }
  }

  // ---------------------------------------------------------------- all inboxes

  /** Events about an inbox, or an extension for a message, that is not there are ignored. */
  function Handled(v: View, event: D.Event): View {
    var inbox := InboxOf(event);
    if inbox !in v.boxes then v else v.(boxes := v.boxes[inbox := HandledIn(v.boxes[inbox], v.readKeys, event)])
  }

  function InboxOf(event: D.Event): InboxId {
    if event.InboxSeen? then event.inbox else event.key.inbox
  }

  function HandledIn(b: Box, readKeys: set<Key>, event: D.Event): Box {
    match event
    case InboxSeen(_, time) => Seen(b, time)
    case MessageArrived(key, saved, inReplyTo, time) =>
      Inserted(b, key.id, Message(inReplyTo, Some(time), saved, key in readKeys))
    case ExpirationExtended(key, time) => Extended(b, key.id, time)
    case MessageExpired(key) => Expired(b, key.id)
  }

  function HandledAll(v: View, events: seq<D.Event>): View {
    if events == [] then v else Handled(HandledAll(v, events[..|events| - 1]), events[|events| - 1])
  }

  predicate Has(v: View, key: Key) {
    key.inbox in v.boxes && key.id in v.boxes[key.inbox].messages
  }

  function MarkedReadIn(v: View, key: Key): View {
    if key.inbox in v.boxes && key.id in v.boxes[key.inbox].messages then
      View(v.boxes[key.inbox := MarkedRead(v.boxes[key.inbox], key.id)], v.readKeys + {key})
    else
      v
  }

  function MarkedIn(v: View, key: Key, saved: bool): View {
    if key.inbox in v.boxes then
      v.(boxes := v.boxes[key.inbox := Marked(v.boxes[key.inbox], key.id, saved)])
    else
      v
  }

  function InboxAdded(v: View, inbox: InboxId): View {
    v.(boxes := v.boxes[inbox := EMPTY_BOX])
  }

  function InboxDeleted(v: View, inbox: InboxId): View {
    View(v.boxes - {inbox}, set key | key in v.readKeys && key.inbox != inbox)
  }

  // ---------------------------------------------------------------- what changes, exactly

  /** The event is the arrival of this message at an inbox that is there. */
  predicate Arrives(v: View, event: D.Event, key: Key) {
    event.MessageArrived? && event.key == key && key.inbox in v.boxes
  }

  function Entry(v: View, key: Key): Message
    requires Has(v, key)
  {
    v.boxes[key.inbox].messages[key.id]
  }

  /** After any event a message is shown if and only if it arrived, or it was shown and has not expired; it is read on
      arrival exactly if it was read before, and later events change its expiration time alone. */
  lemma EntryAfterExactly(v: View, event: D.Event, key: Key)
    ensures var t := Handled(v, event);
            && (Has(t, key) <==> Arrives(v, event, key) || (Has(v, key) && event != D.MessageExpired(key)))
            && (Arrives(v, event, key) ==>
                  Entry(t, key) == Message(event.inReplyTo, Some(event.expirationTime), event.saved, key in v.readKeys))
            && (Has(v, key) && Has(t, key) && !Arrives(v, event, key) ==>
                  Entry(t, key) ==
                  if event.ExpirationExtended? && event.key == key
                  then Entry(v, key).(expirationTime := Some(event.expirationTime))
                  else Entry(v, key))
            && t.readKeys == v.readKeys && t.boxes.Keys == v.boxes.Keys
  {
  }

  /** The latest time any message said an inbox would be there until. */
  lemma InboxTimeAfterExactly(v: View, event: D.Event, inbox: InboxId, time: int)
    requires inbox in v.boxes
    ensures var before, after := v.boxes[inbox].expirationTime, Handled(v, event).boxes[inbox].expirationTime;
            && (event.InboxSeen? && event.inbox == inbox ==>
                  after.Some? && (after.value <= time <==>
                                  event.expirationTime <= time && (before.Some? ==> before.value <= time)))
            && (!(event.InboxSeen? && event.inbox == inbox) ==> after == before)
  {
  }

  /** Reading and marking change that flag of that message alone, if it is shown, and otherwise nothing. */
  lemma MarksExactly(v: View, marked: Key, saved: bool, key: Key)
    ensures var t := MarkedReadIn(v, marked);
            && (Has(t, key) <==> Has(v, key))
            && (Has(v, key) ==>
                  Entry(t, key) == if key == marked then Entry(v, key).(read := true) else Entry(v, key))
            && t.readKeys == v.readKeys + (if Has(v, marked) then {marked} else {})
    ensures var t := MarkedIn(v, marked, saved);
            && (Has(t, key) <==> Has(v, key))
            && (Has(v, key) ==>
                  Entry(t, key) == if key == marked then Entry(v, key).(saved := saved) else Entry(v, key))
            && t.readKeys == v.readKeys
  {
  }

  /** A new inbox is empty and has no expiration time yet; a deleted one takes its messages and read marks along. */
  lemma InboxesExactly(v: View, inbox: InboxId, key: Key)
    ensures var t := InboxAdded(v, inbox);
            && t.boxes.Keys == v.boxes.Keys + {inbox}
            && t.boxes[inbox].expirationTime.None?
            && (Has(t, key) <==> Has(v, key) && key.inbox != inbox)
            && (Has(t, key) ==> Entry(t, key) == Entry(v, key))
            && t.readKeys == v.readKeys
    ensures var t := InboxDeleted(v, inbox);
            && t.boxes.Keys == v.boxes.Keys - {inbox}
            && (Has(t, key) <==> Has(v, key) && key.inbox != inbox)
            && (Has(t, key) ==> Entry(t, key) == Entry(v, key))
            && (key in t.readKeys <==> key in v.readKeys && key.inbox != inbox)
  {
  }

  // ---------------------------------------------------------------- in place

  class Inbox {
    var messages: map<Id, Message>
    var children: map<Id, set<Id>>
    var expirationTime: Option<int>
    var unreadCount: int

    function Contents(): Box
      reads this
    {
      Box(messages, children, expirationTime, unreadCount)
    }

    constructor ()
      ensures Contents() == EMPTY_BOX
    {
      messages, children, expirationTime, unreadCount := map[], map[], None, 0;
    }

    method InsertMessage(id: Id, message: Message)
      modifies this
      ensures Contents() == Inserted(old(Contents()), id, message)
    {
      messages := messages[id := message];
      if !message.read {
        unreadCount := unreadCount + 1;
      }
      if message.inReplyTo.Some? {
        var parent := message.inReplyTo.value;
        if parent !in children {
          children := children[parent := {}];
        }
        children := children[parent := children[parent] + {id}];
      }
    }

    method ExpireMessage(id: Id)
      modifies this
      ensures Contents() == Expired(old(Contents()), id)
    {
      if id !in messages {
        return;
      }
      var message := messages[id];
      if !message.read {
        unreadCount := unreadCount - 1;
      }
      if message.inReplyTo.Some? && message.inReplyTo.value in children {
        var parent := message.inReplyTo.value;
        children := children[parent := children[parent] - {id}];
        if children[parent] == {} {
          children := children - {parent};
          assert children == old(children) - {parent};
        }
      }
      messages := messages - {id};
    }

    method CommitMessageExpirationTime(id: Id, time: int)
      modifies this
      ensures Contents() == Extended(old(Contents()), id, time)
    {
      if id in messages {
        messages := messages[id := messages[id].(expirationTime := Some(time))];
      }
    }

    method CommitInboxExpirationTime(time: int)
      modifies this
      ensures Contents() == Seen(old(Contents()), time)
    {
      if expirationTime.None? {
        expirationTime := Some(time);
        return;
      }
      expirationTime := Some(if expirationTime.value > time then expirationTime.value else time);
    }

    method MarkMessageAsRead(id: Id) returns (known: bool)
      modifies this
      ensures known <==> id in old(messages)
      ensures Contents() == MarkedRead(old(Contents()), id)
    {
      known := id in messages;
      if known {
        if !messages[id].read {
          unreadCount := unreadCount - 1;
        }
        messages := messages[id := messages[id].(read := true)];
      }
    }

    method MarkMessage(id: Id, saved: bool) returns (known: bool)
      modifies this
      ensures known <==> id in old(messages)
      ensures Contents() == Marked(old(Contents()), id, saved)
    {
      known := id in messages;
      if known {
        messages := messages[id := messages[id].(saved := saved)];
      }
    }
  }

  class Store {
    var inboxes: map<InboxId, Inbox>
    var readKeys: set<Key>

    /** No two ids share an object. */
    ghost predicate Valid()
      reads this
    {
      forall a, b :: a in inboxes && b in inboxes && inboxes[a] == inboxes[b] ==> a == b
    }

    function Contents(): View
      reads this, inboxes.Values
    {
      View(map id | id in inboxes :: inboxes[id].Contents(), readKeys)
    }

    constructor (readKeys: set<Key>)
      ensures Valid() && Contents() == View(map[], readKeys)
    {
      inboxes := map[];
      this.readKeys := readKeys;
    }

    method Handle(event: D.Event)
      requires Valid()
      modifies inboxes.Values
      ensures Valid() && Contents() == Handled(old(Contents()), event)
    {
      if InboxOf(event) !in inboxes {
        return;
      }
      hide HandledIn;
      HandleIn(inboxes[InboxOf(event)], event);
    }

    method HandleIn(inbox: Inbox, event: D.Event)
      modifies inbox
      ensures inbox.Contents() == HandledIn(old(inbox.Contents()), readKeys, event)
    {
      match event
      case InboxSeen(_, time) =>
        inbox.CommitInboxExpirationTime(time);
      case MessageArrived(key, saved, inReplyTo, time) =>
        inbox.InsertMessage(key.id, Message(inReplyTo, Some(time), saved, key in readKeys));
      case ExpirationExtended(key, time) =>
        inbox.CommitMessageExpirationTime(key.id, time);
      case MessageExpired(key) =>
        inbox.ExpireMessage(key.id);
    }

    method MarkMessageAsRead(key: Key)
      requires Valid()
      modifies this`readKeys, inboxes.Values
      ensures Valid() && Contents() == MarkedReadIn(old(Contents()), key)
    {
      if key.inbox in inboxes {
        var known := inboxes[key.inbox].MarkMessageAsRead(key.id);
        if known {
          readKeys := readKeys + {key};
        }
      }
    }

    /** Whether the command goes on to the backend. */
    method MarkMessage(key: Key, saved: bool) returns (sent: bool)
      requires Valid()
      modifies inboxes.Values
      ensures Valid() && Contents() == MarkedIn(old(Contents()), key, saved)
      ensures sent <==> Has(old(Contents()), key)
    {
      sent := false;
      if key.inbox in inboxes {
        sent := inboxes[key.inbox].MarkMessage(key.id, saved);
      }
    }

    method AddInbox(id: InboxId)
      requires Valid()
      modifies this`inboxes
      ensures Valid() && Contents() == InboxAdded(old(Contents()), id)
    {
      var inbox := new Inbox();
      inboxes := inboxes[id := inbox];
    }

    method DeleteInbox(id: InboxId)
      requires Valid()
      modifies this
      ensures Valid() && Contents() == InboxDeleted(old(Contents()), id)
    {
      inboxes := inboxes - {id};
      readKeys := set key | key in readKeys && key.inbox != id;
    }
  }
}
