/**
 * The audit logger: write operations that append one event through the
 * storage, and the two read paths, `Events` (field filter) and `Logs`
 * (field-level diff replay), written as the loops the package runs and
 * proved against the functions of module History.
 */
module AuditLogger {
  import opened Audit
  import opened AuditStorage
  import opened History

  /**
   * Replays one event's payload over `state`: the ChangeFields it shows and
   * the state afterwards. Fields are visited in an unspecified order.
   */
  method ReplayEvent(state: State, payload: Payload) returns (fields: seq<ChangeField>, next: State)
    ensures ListsExactly(fields, Diff(state, payload))
    ensures |fields| <= |payload|
    ensures next == Step(state, payload)
  {
    fields := [];
    next := state;
    var todo := payload.Keys;
    while todo != {}
      invariant todo <= payload.Keys
      invariant next == ApplyOver(state, payload, payload.Keys - todo)
      invariant ListsExactly(fields, DiffOver(state, payload, payload.Keys - todo))
      invariant |fields| + |todo| <= |payload.Keys|
      decreases |todo|
    {
      var field :| field in todo;
      ghost var done := payload.Keys - todo;
      ApplyOverOneMore(state, payload, done, field);
      DiffOverOneMore(state, payload, done, field);
      var val := payload[field];
      var prev := Lookup(next, field);
      var from, to := prev, val.data;
      if val.hidden {
        from, to := Mask, Mask;
      }
      assert prev == Lookup(state, field);
      if val.hidden || prev != val.data {
        assert Emits(state, field, val) && ChangeField(field, from, to) == FieldChange(state, field, val);
        ListsExactlyAppend(fields, DiffOver(state, payload, done), ChangeField(field, from, to));
        fields := fields + [ChangeField(field, from, to)];
        if !val.hidden {
          next := next[field := val.data];
        }
      }
      todo := todo - {field};
      assert payload.Keys - todo == done + {field};
    }
    assert payload.Keys - todo == payload.Keys;
  }

  class Logger {
    const storage: InMemoryStorage

    /** A logger over the given store. */
    constructor (storage: InMemoryStorage)
      ensures this.storage == storage
    {
      this.storage := storage;
    }

    /** Appends one event with the given fields; `now` stands for the clock. */
    method LogChange(key: string, action: Action, author: string, description: string,
                     payload: Payload, now: int)
      requires storage.Valid()
      modifies storage
      ensures storage.Valid()
      ensures storage.EventsOf(key) == old(storage.EventsOf(key)) + [Event(now, action, author, description, payload)]
      ensures forall k :: k != key ==> storage.EventsOf(k) == old(storage.EventsOf(k))
      ensures storage.events == old(storage.events)[key := storage.EventsOf(key)]
    {
      var event := Event(now, action, author, description, payload);
      storage.Store(key, event);
    }

    method Create(key: string, author: string, description: string, payload: Payload, now: int)
      requires storage.Valid()
      modifies storage
      ensures storage.Valid()
      ensures storage.EventsOf(key) == old(storage.EventsOf(key)) + [Event(now, ActionCreate, author, description, payload)]
      ensures storage.events == old(storage.events)[key := storage.EventsOf(key)]
    {
      LogChange(key, ActionCreate, author, description, payload, now);
    }

    method Update(key: string, author: string, description: string, payload: Payload, now: int)
      requires storage.Valid()
      modifies storage
      ensures storage.Valid()
      ensures storage.EventsOf(key) == old(storage.EventsOf(key)) + [Event(now, ActionUpdate, author, description, payload)]
      ensures storage.events == old(storage.events)[key := storage.EventsOf(key)]
    {
      LogChange(key, ActionUpdate, author, description, payload, now);
    }

    method Delete(key: string, author: string, description: string, payload: Payload, now: int)
      requires storage.Valid()
      modifies storage
      ensures storage.Valid()
      ensures storage.EventsOf(key) == old(storage.EventsOf(key)) + [Event(now, ActionDelete, author, description, payload)]
      ensures storage.events == old(storage.events)[key := storage.EventsOf(key)]
    {
      LogChange(key, ActionDelete, author, description, payload, now);
    }

    /**
     * The key's events; with field names, only those naming one of them,
     * each restricted to the requested names.
     */
    method Events(key: string, fields: seq<string>) returns (r: seq<Event>)
      ensures |fields| == 0 ==> r == storage.EventsOf(key)
      ensures |fields| > 0 ==> r == FilterEvents(storage.EventsOf(key), set f | f in fields)
    {
      var events := storage.Get(key);
      if |fields| == 0 {
        r := events;
        return;
      }

      var fieldSet: set<string> := {};
      for i := 0 to |fields|
        invariant fieldSet == set j | 0 <= j < i :: fields[j]
      {
        fieldSet := fieldSet + {fields[i]};
      }
      assert fieldSet == set f | f in fields by {
        forall f | f in fields ensures f in fieldSet {
          var j :| 0 <= j < |fields| && fields[j] == f;
        }
      }

      var filtered: seq<Event> := [];
      for n := 0 to |events|
        invariant filtered == FilterEvents(events[..n], fieldSet)
      {
        var e := events[n];
        assert events[..n + 1][..n] == events[..n];

        var hasField := false;
        var scan := e.payload.Keys;
        while scan != {} && !hasField
          invariant scan <= e.payload.Keys
          invariant hasField ==> Relevant(e, fieldSet)
          invariant !hasField ==> forall k :: k in e.payload && k !in scan ==> k !in fieldSet
          decreases |scan|
        {
          var k :| k in scan;
          if k in fieldSet {
            hasField := true;
          }
          scan := scan - {k};
        }

        if !hasField {
          assert !Relevant(e, fieldSet);
          continue;
        }

        var payload: Payload := map[];
        var todo := e.payload.Keys;
        while todo != {}
          invariant todo <= e.payload.Keys
          invariant payload == map k | k in e.payload && k !in todo && k in fieldSet :: e.payload[k]
          decreases |todo|
        {
          var k :| k in todo;
          if k in fieldSet {
            payload := payload[k := e.payload[k]];
          }
          todo := todo - {k};
        }

        assert Event(e.timestamp, e.action, e.author, e.description, payload) == Project(e, fieldSet);
        filtered := filtered + [Event(e.timestamp, e.action, e.author, e.description, payload)];
      }
      assert events[..|events|] == events;
      r := filtered;
    }

    /** The key's change history: one Change per stored event, in order. */
    method Logs(key: string) returns (result: seq<Change>)
      ensures |result| == |storage.EventsOf(key)|
      ensures HistoryOf(result, storage.EventsOf(key))
    {
      var events := storage.Get(key);
      var state: State := map[];
      result := [];

      for n := 0 to |events|
        invariant state == StateAfter(events[..n])
        invariant HistoryOf(result, events[..n])
      {
        var e := events[n];
        assert events[..n + 1][..n] == events[..n];
        var fields, next := ReplayEvent(state, e.payload);
        var change := Change(fields, e.description, e.author, e.timestamp);
        assert (result + [change])[..n] == result;
        result := result + [change];
        state := next;
      }
      assert events[..|events|] == events;
    }
  }
}
