/**
 * Specification of the two read paths of the logger: the field filter
 * behind `Events(key, fields...)` and the field-level diff replay behind
 * `Logs(key)`. The logger's loops are proved against these functions; the
 * lemmas here state what the source promises about them.
 */
module History {
  import opened Audit

  // ---------------------------------------------------------------------
  // Field filter
  // ---------------------------------------------------------------------

  /** The event's payload names at least one requested field. */
  predicate Relevant(e: Event, fields: set<string>)
  {
    exists k :: k in e.payload && k in fields
  }

  /** The event with its payload restricted to the requested fields. */
  function Project(e: Event, fields: set<string>): (r: Event)
    ensures r.timestamp == e.timestamp && r.action == e.action
    ensures r.author == e.author && r.description == e.description
    ensures r.payload.Keys == e.payload.Keys * fields
    ensures forall k :: k in r.payload ==> r.payload[k] == e.payload[k]
  {
    e.(payload := map k | k in e.payload && k in fields :: e.payload[k])
  }

  /** The relevant events, projected, in storage order. */
  function FilterEvents(es: seq<Event>, fields: set<string>): seq<Event>
  {
    if es == [] then []
    else
      var init := FilterEvents(es[..|es| - 1], fields);
      var e := es[|es| - 1];
      if Relevant(e, fields) then init + [Project(e, fields)] else init
  }

  /** Filtering distributes over concatenation, so storage order is kept. */
  lemma {:induction false} FilterEventsAppend(a: seq<Event>, b: seq<Event>, fields: set<string>)
    ensures FilterEvents(a + b, fields) == FilterEvents(a, fields) + FilterEvents(b, fields)
    decreases |b|
  {
    if b == [] {
      assert a + b == a;
    } else {
      var b' := b[..|b| - 1];
      assert (a + b)[..|a + b| - 1] == a + b';
      FilterEventsAppend(a, b', fields);
    }
  }

  /**
   * An event survives the filter iff it names a requested field, and what
   * survives is exactly some stored event projected onto the request.
   */
  lemma {:induction false} FilterEventsMembers(es: seq<Event>, fields: set<string>)
    ensures |FilterEvents(es, fields)| <= |es|
    ensures forall x :: x in FilterEvents(es, fields) <==>
      exists i :: 0 <= i < |es| && Relevant(es[i], fields) && x == Project(es[i], fields)
    decreases |es|
  {
    if es != [] {
      var init := es[..|es| - 1];
      FilterEventsMembers(init, fields);
      forall x
        ensures x in FilterEvents(es, fields) <==>
          exists i :: 0 <= i < |es| && Relevant(es[i], fields) && x == Project(es[i], fields)
      {
        if x in FilterEvents(es, fields) && x !in FilterEvents(init, fields) {
          assert Relevant(es[|es| - 1], fields) && x == Project(es[|es| - 1], fields);
        }
        if exists i :: 0 <= i < |init| && Relevant(es[i], fields) && x == Project(es[i], fields) {
          var i :| 0 <= i < |init| && Relevant(es[i], fields) && x == Project(es[i], fields);
          assert init[i] == es[i];
        }
      }
    }
  }

  /** A field that no event names yields nothing when asked for alone. */
  lemma {:induction false} FilterUnwrittenField(es: seq<Event>, f: string)
    requires forall i :: 0 <= i < |es| ==> f !in es[i].payload
    ensures FilterEvents(es, {f}) == []
    decreases |es|
  {
    if es != [] {
      var init := es[..|es| - 1];
      assert forall i :: 0 <= i < |init| ==> init[i] == es[i];
      FilterUnwrittenField(init, f);
      assert !Relevant(es[|es| - 1], {f});
    }
  }

  // ---------------------------------------------------------------------
  // Diff replay
  // ---------------------------------------------------------------------

  /** The replay's running state: last visible datum per field. */
  type State = map<string, Data>

  /** `state[field]`, where an absent field reads as nil. */
  function Lookup(state: State, f: string): Data
  {
    if f in state then state[f] else Nil
  }

  /** A payload entry produces a ChangeField: hidden, or visibly different. */
  predicate Emits(state: State, f: string, v: Value)
  {
    v.hidden || Lookup(state, f) != v.data
  }

  /** The ChangeField a payload entry produces: masked, or old -> new. */
  function FieldChange(state: State, f: string, v: Value): ChangeField
  {
    if v.hidden then ChangeField(f, Mask, Mask) else ChangeField(f, Lookup(state, f), v.data)
  }

  /** The ChangeFields of the entries of `payload` named in `keys`, by name. */
  function DiffOver(state: State, payload: Payload, keys: set<string>): map<string, ChangeField>
  {
    map f | f in keys && f in payload && Emits(state, f, payload[f]) :: FieldChange(state, f, payload[f])
  }

  /** All ChangeFields of one event replayed over `state`, by field name. */
  function Diff(state: State, payload: Payload): map<string, ChangeField>
  {
    DiffOver(state, payload, payload.Keys)
  }

  /** The state after the visible, changed entries named in `keys` are recorded. */
  function ApplyOver(state: State, payload: Payload, keys: set<string>): State
  {
    state + map f | f in keys && f in payload && !payload[f].hidden && Lookup(state, f) != payload[f].data
                  :: payload[f].data
  }

  /** The state after one event is replayed. */
  function Step(state: State, payload: Payload): State
  {
    ApplyOver(state, payload, payload.Keys)
  }

  /** The state after replaying `es` from the empty state. */
  function StateAfter(es: seq<Event>): State
  {
    if es == [] then map[] else Step(StateAfter(es[..|es| - 1]), es[|es| - 1].payload)
  }

  /**
   * `fields` lists exactly the ChangeFields of `d`, each name once, in some
   * order (the source iterates a Go map, whose order is unspecified).
   */
  ghost predicate ListsExactly(fields: seq<ChangeField>, d: map<string, ChangeField>)
  {
    && (forall i, j :: 0 <= i < j < |fields| ==> fields[i].field != fields[j].field)
    && (forall i :: 0 <= i < |fields| ==> fields[i].field in d && d[fields[i].field] == fields[i])
    && (forall f :: f in d ==> exists i :: 0 <= i < |fields| && fields[i].field == f)
  }

  /** `c` is the Change that replaying `e` over `state` yields. */
  ghost predicate ChangeOf(c: Change, state: State, e: Event)
  {
    && c.description == e.description
    && c.author == e.author
    && c.timestamp == e.timestamp
    && ListsExactly(c.fields, Diff(state, e.payload))
    && |c.fields| <= |e.payload|
  }

  /**
   * `changes` is the history of `es`: one Change per event, in order, each
   * replayed over the state left by the events before it.
   */
  ghost predicate HistoryOf(changes: seq<Change>, es: seq<Event>)
  {
    && |changes| == |es|
    && (es != [] ==>
          var n := |es| - 1;
          && HistoryOf(changes[..n], es[..n])
          && ChangeOf(changes[n], StateAfter(es[..n]), es[n]))
  }

  /** The Change at position `i` of a history is event `i` replayed after those before it. */
  lemma {:induction false} HistoryAt(changes: seq<Change>, es: seq<Event>, i: nat)
    requires HistoryOf(changes, es) && i < |es|
    ensures |changes| == |es|
    ensures ChangeOf(changes[i], StateAfter(es[..i]), es[i])
    decreases |es|
  {
    var n := |es| - 1;
    if i < n {
      HistoryPrefix(changes, es);
      HistoryAt(changes[..n], es[..n], i);
      ChangeOfInPrefix(changes, es, i);
    } else {
      HistoryLast(changes, es, i);
    }
  }

  /** A history's prefix without its last Change is the history of the prefix of events. */
  lemma HistoryPrefix(changes: seq<Change>, es: seq<Event>)
    requires HistoryOf(changes, es) && es != []
    ensures HistoryOf(changes[..|es| - 1], es[..|es| - 1])
  {
  }

  /** The last Change of a history replays the last event. */
  lemma HistoryLast(changes: seq<Change>, es: seq<Event>, i: nat)
    requires HistoryOf(changes, es) && i == |es| - 1
    ensures ChangeOf(changes[i], StateAfter(es[..i]), es[i])
  {
  }

  /** Position `i` of the prefix without the last element is position `i` of the whole. */
  lemma ChangeOfInPrefix(changes: seq<Change>, es: seq<Event>, i: nat)
    requires |changes| == |es| && i < |es| - 1
    requires ChangeOf(changes[..|es| - 1][i], StateAfter(es[..|es| - 1][..i]), es[..|es| - 1][i])
    ensures ChangeOf(changes[i], StateAfter(es[..i]), es[i])
  {
    var n := |es| - 1;
    assert es[..n][..i] == es[..i];
    ChangeOfCongruent(changes[..n][i], StateAfter(es[..n][..i]), es[..n][i],
                      changes[i], StateAfter(es[..i]), es[i]);
  }

  /** `ChangeOf` respects equal arguments (kept separate to keep the goal small). */
  lemma ChangeOfCongruent(c: Change, s: State, e: Event, c': Change, s': State, e': Event)
    requires ChangeOf(c, s, e) && c == c' && s == s' && e == e'
    ensures ChangeOf(c', s', e')
  {
  }

  /** Replaying one more field changes the state at that field alone. */
  lemma ApplyOverOneMore(state: State, payload: Payload, done: set<string>, f: string)
    requires f in payload && f !in done
    ensures Lookup(ApplyOver(state, payload, done), f) == Lookup(state, f)
    ensures var v := payload[f];
            ApplyOver(state, payload, done + {f}) ==
              if !v.hidden && Lookup(state, f) != v.data
              then ApplyOver(state, payload, done)[f := v.data]
              else ApplyOver(state, payload, done)
  {
    var v := payload[f];
    var before, after := ApplyOver(state, payload, done), ApplyOver(state, payload, done + {f});
    forall k | k != f
      ensures (k in after <==> k in before) && (k in after ==> after[k] == before[k])
    {
    }
    if !v.hidden && Lookup(state, f) != v.data {
      assert after == before[f := v.data];
    } else {
      assert after == before;
    }
  }

  /** Diffing one more field adds that field's ChangeField, if it emits one. */
  lemma DiffOverOneMore(state: State, payload: Payload, done: set<string>, f: string)
    requires f in payload && f !in done
    ensures f !in DiffOver(state, payload, done)
    ensures var v := payload[f];
            DiffOver(state, payload, done + {f}) ==
              if Emits(state, f, v)
              then DiffOver(state, payload, done)[f := FieldChange(state, f, v)]
              else DiffOver(state, payload, done)
  {
    var v := payload[f];
    if Emits(state, f, v) {
      assert DiffOver(state, payload, done + {f}) == DiffOver(state, payload, done)[f := FieldChange(state, f, v)];
    } else {
      assert DiffOver(state, payload, done + {f}) == DiffOver(state, payload, done);
    }
  }

  /** Appending a ChangeField for a new name keeps the listing exact. */
  lemma ListsExactlyAppend(fields: seq<ChangeField>, d: map<string, ChangeField>, c: ChangeField)
    requires ListsExactly(fields, d) && c.field !in d
    ensures ListsExactly(fields + [c], d[c.field := c])
  {
    var fs := fields + [c];
    forall f | f == c.field || f in d
      ensures exists i :: 0 <= i < |fs| && fs[i].field == f
    {
      if f == c.field {
        assert fs[|fields|].field == f;
      } else {
        var i :| 0 <= i < |fields| && fields[i].field == f;
        assert fs[i].field == f;
      }
    }
  }

  /** Independent reference: the datum of the last visible write of `f`, or nil. */
  function LastVisible(es: seq<Event>, f: string): Data
  {
    if es == [] then Nil
    else
      var e := es[|es| - 1];
      if f in e.payload && !e.payload[f].hidden then e.payload[f].data
      else LastVisible(es[..|es| - 1], f)
  }

  /** The replay state holds, per field, the last visible write (hidden ones skipped). */
  lemma {:induction false} StateIsLastVisible(es: seq<Event>, f: string)
    ensures Lookup(StateAfter(es), f) == LastVisible(es, f)
    decreases |es|
  {
    if es != [] {
      StateIsLastVisible(es[..|es| - 1], f);
    }
  }

  /**
   * What event `i` of `es` shows for a field it names: a hidden value
   * always shows `*** -> ***`; a visible one shows `last visible -> new`
   * exactly when the two differ.
   */
  lemma FieldOfChange(es: seq<Event>, i: nat, f: string)
    requires i < |es| && f in es[i].payload
    ensures var d := Diff(StateAfter(es[..i]), es[i].payload);
            var v := es[i].payload[f];
            && (v.hidden ==> f in d && d[f] == ChangeField(f, Mask, Mask))
            && (!v.hidden ==> (f in d <==> v.data != LastVisible(es[..i], f)))
            && (!v.hidden && f in d ==> d[f] == ChangeField(f, LastVisible(es[..i], f), v.data))
  {
    StateIsLastVisible(es[..i], f);
  }


  /** Writing the current visible value again shows nothing for that field. */
  lemma RepeatIsSuppressed(es: seq<Event>, i: nat, f: string)
    requires i + 1 < |es|
    requires f in es[i].payload && !es[i].payload[f].hidden
    requires f in es[i + 1].payload && !es[i + 1].payload[f].hidden
    requires es[i + 1].payload[f].data == es[i].payload[f].data
    ensures f !in Diff(StateAfter(es[..i + 1]), es[i + 1].payload)
  {
    assert es[..i + 1][..i] == es[..i];
    FieldOfChange(es, i + 1, f);
  }

  /** The last visible write before position `j`, when it sits at `i`. */
  lemma {:induction false} LastVisibleAt(es: seq<Event>, i: nat, f: string)
    requires i < |es|
    requires f in es[i].payload && !es[i].payload[f].hidden
    requires forall k :: i < k < |es| && f in es[k].payload ==> es[k].payload[f].hidden
    ensures LastVisible(es, f) == es[i].payload[f].data
    decreases |es|
  {
    if i < |es| - 1 {
      var init := es[..|es| - 1];
      assert forall k :: i < k < |init| ==> init[k] == es[k];
      LastVisibleAt(init, i, f);
    }
  }

  /** No visible write of `f` at all: the replay reads nil for it. */
  lemma {:induction false} LastVisibleNone(es: seq<Event>, f: string)
    requires forall k :: 0 <= k < |es| && f in es[k].payload ==> es[k].payload[f].hidden
    ensures LastVisible(es, f) == Nil
    decreases |es|
  {
    if es != [] {
      var init := es[..|es| - 1];
      assert forall k :: 0 <= k < |init| ==> init[k] == es[k];
      LastVisibleNone(init, f);
    }
  }

  /**
   * Hidden writes are forgotten: a visible write at `j` after a visible
   * write at `i` with only hidden writes of `f` between them shows
   * `From` = the datum written at `i`.
   */
  lemma VisibleAfterHidden(es: seq<Event>, i: nat, j: nat, f: string)
    requires i < j < |es|
    requires f in es[i].payload && !es[i].payload[f].hidden
    requires forall k :: i < k < j && f in es[k].payload ==> es[k].payload[f].hidden
    requires f in es[j].payload && !es[j].payload[f].hidden
    requires es[j].payload[f].data != es[i].payload[f].data
    ensures var d := Diff(StateAfter(es[..j]), es[j].payload);
            f in d && d[f] == ChangeField(f, es[i].payload[f].data, es[j].payload[f].data)
  {
    LastVisibleAt(es[..j], i, f);
    FieldOfChange(es, j, f);
  }

  /** A field never written visibly before `j` shows `From` = nil at `j`. */
  lemma FirstVisibleFromNil(es: seq<Event>, j: nat, f: string)
    requires j < |es|
    requires forall k :: 0 <= k < j && f in es[k].payload ==> es[k].payload[f].hidden
    requires f in es[j].payload && !es[j].payload[f].hidden && es[j].payload[f].data != Nil
    ensures var d := Diff(StateAfter(es[..j]), es[j].payload);
            f in d && d[f] == ChangeField(f, Nil, es[j].payload[f].data)
  {
    LastVisibleNone(es[..j], f);
    FieldOfChange(es, j, f);
  }

  /** Hidden values never enter the replay state. */
  lemma {:induction false} StateHoldsNoHiddenWrite(es: seq<Event>, f: string)
    requires f in StateAfter(es)
    ensures exists k :: 0 <= k < |es| && f in es[k].payload && !es[k].payload[f].hidden
                     && es[k].payload[f].data == StateAfter(es)[f]
    decreases |es|
  {
    var init := es[..|es| - 1];
    var e := es[|es| - 1];
    if f in e.payload && !e.payload[f].hidden && Lookup(StateAfter(init), f) != e.payload[f].data {
      assert f in e.payload && !e.payload[f].hidden && e.payload[f].data == StateAfter(es)[f];
    } else {
      StateHoldsNoHiddenWrite(init, f);
      var k :| 0 <= k < |init| && f in init[k].payload && !init[k].payload[f].hidden
               && init[k].payload[f].data == StateAfter(init)[f];
      assert es[k] == init[k];
    }
  }
}
