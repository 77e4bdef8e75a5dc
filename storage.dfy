/**
 * The default event store: a map from key to the key's append-only
 * sequence of events, updated in place.
 */
module AuditStorage {
  import opened Audit

  class InMemoryStorage {
    /** Key to the events stored under it, in the order they were stored. */
    var events: map<string, seq<Event>>

    /** Entries are only ever created by an append, so none is empty. */
    ghost predicate Valid()
      reads this
    {
      forall k :: k in events ==> events[k] != []
    }

    /** The sequence `Get` answers for `key`: empty when it has no entry. */
    ghost function EventsOf(key: string): seq<Event>
      reads this
    {
      if key in events then events[key] else []
    }

    constructor ()
      ensures Valid()
      ensures events == map[]
    {
      events := map[];
    }

    /** Appends `event` to the end of `key`'s sequence. */
    method Store(key: string, event: Event)
      requires Valid()
      modifies this
      ensures Valid()
      ensures events == old(events)[key := old(EventsOf(key)) + [event]]
      ensures EventsOf(key) == old(EventsOf(key)) + [event]
      ensures forall k :: k != key ==> EventsOf(k) == old(EventsOf(k)) && (k in events <==> k in old(events))
    {
      var current := if key in events then events[key] else [];
      events := events[key := current + [event]];
    }

    /** All events stored for `key`; empty for a key never stored or cleared. */
    method Get(key: string) returns (r: seq<Event>)
      ensures r == EventsOf(key)
      ensures key !in events ==> r == []
    {
      if key in events {
        r := events[key];
      } else {
        r := [];
      }
    }

    /** Whether `key` has an entry; on a valid store, whether it has events. */
    method Has(key: string) returns (b: bool)
      ensures b <==> key in events
      ensures Valid() ==> (b <==> EventsOf(key) != [])
    {
      b := key in events;
    }

    /** Drops `key`'s entry; a no-op on a key without one. */
    method Clear(key: string)
      requires Valid()
      modifies this
      ensures Valid()
      ensures events == old(events) - {key}
      ensures key !in events && EventsOf(key) == []
      ensures forall k :: k != key ==> EventsOf(k) == old(EventsOf(k)) && (k in events <==> k in old(events))
      ensures key !in old(events) ==> events == old(events)
    {
      events := events - {key};
    }
  }

  /** Stores `es` under `key` one call at a time, in order. */
  method StoreAll(s: InMemoryStorage, key: string, es: seq<Event>)
    requires s.Valid()
    modifies s
    ensures s.Valid()
    ensures s.EventsOf(key) == old(s.EventsOf(key)) + es
    ensures forall k :: k != key ==> s.EventsOf(k) == old(s.EventsOf(k))
    ensures es != [] ==> key in s.events
  {
    var i := 0;
    while i < |es|
      invariant 0 <= i <= |es|
      invariant s.Valid()
      invariant s.EventsOf(key) == old(s.EventsOf(key)) + es[..i]
      invariant forall k :: k != key ==> s.EventsOf(k) == old(s.EventsOf(k))
      invariant i > 0 ==> key in s.events
    {
      s.Store(key, es[i]);
      assert es[..i + 1] == es[..i] + [es[i]];
      i := i + 1;
    }
  }
}
