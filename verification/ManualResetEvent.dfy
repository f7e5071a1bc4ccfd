/** One flag per listener, raised for all of them by a broadcast and lowered by each listener for itself. */
module ManualResetEvent {

  class Event {
    var isSet: bool

    constructor ()
      ensures !isSet
    {
      isSet := false;
    }

    method Set()
      modifies this
      ensures isSet
    {
      isSet := true;
    }

    method Reset()
      modifies this
      ensures !isSet
    {
      isSet := false;
    }
  }

  class MPMCManualResetEvent {
    var counter: nat
    var events: map<nat, Event>

    /** Handles are below the counter, so a new handle never takes over the flag of another. */
    ghost predicate Valid()
      reads this
    {
      && (forall h :: h in events ==> h < counter)
      && (forall g, h :: g in events && h in events && events[g] == events[h] ==> g == h)
    }

    ghost function Flags(): set<Event>
      reads this
    {
      set h | h in events :: events[h]
    }

    /** The handles whose flags are up. */
    ghost function Raised(): set<nat>
      reads this, Flags()
    {
      set h | h in events && events[h].isSet
    }

    constructor ()
      ensures Valid() && events == map[]
    {
      counter := 0;
      events := map[];
    }

    /** A listener that joins sees only the broadcasts that come after. */
    method GetHandle() returns (handle: nat)
      requires Valid()
      modifies this
      ensures Valid()
      ensures handle !in old(events)
      ensures events.Keys == old(events).Keys + {handle}
      ensures forall h :: h in old(events) ==> events[h] == old(events)[h]
      ensures fresh(events[handle]) && !events[handle].isSet
    {
      var event := new Event();
      handle := counter;
      events := events[handle := event];
      counter := counter + 1;
    }

    method GetEvent(handle: nat) returns (event: Event)
      requires handle in events
      ensures event == events[handle]
    {
      event := events[handle];
    }

    method DropHandle(handle: nat)
      requires Valid()
      modifies this
      ensures Valid()
      ensures events == old(events) - {handle} && counter == old(counter)
    {
      events := events - {handle};
    }

    /** Raises every flag that is registered now, and no other. */
    method Broadcast()
      modifies Flags()
      ensures events == old(events)
      ensures Raised() == events.Keys
    {
      var pending := events.Keys;
      while pending != {}
        invariant pending <= events.Keys
        invariant forall h :: h in events && h !in pending ==> events[h].isSet
        decreases |pending|
      {
        var h :| h in pending;
        events[h].Set();
        pending := pending - {h};
      }
    }
  }
}
