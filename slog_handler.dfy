/**
 * The structured-logging bridge: a handler that turns a log record into at
 * most one audit event. A log attribute is abstracted to a key and its
 * string rendering; the record to its message, level and attributes.
 */
module SlogAudit {
  import opened Wrappers
  import opened Audit
  import opened AuditLogger

  const AttrEntity: string := "entity"
  const AttrAction: string := "action"
  const AttrAuthor: string := "author"
  const AttrUser: string := "user"

  /** Author used when no attribute names one. */
  const DefaultAuthor: string := "system"

  /** Attribute keys the default payload extractor leaves out. */
  const ReservedKeys: set<string> := {AttrEntity, AttrAction, AttrAuthor, AttrUser}

  const KeyExtractorRequired: string := "slog: KeyExtractor is required"

  datatype Attr = Attr(key: string, value: string)

  datatype Record = Record(message: string, level: int, attrs: seq<Attr>)

  /** Extraction rules; None stands for a rule left unset. */
  datatype HandlerOptions = HandlerOptions(
    hasUnderlying: bool,
    shouldAudit: Option<Record -> bool>,
    keyExtractor: Option<seq<Attr> -> (string, bool)>,
    actionExtractor: Option<seq<Attr> -> Action>,
    authorExtractor: Option<seq<Attr> -> string>,
    payloadExtractor: Option<seq<Attr> -> Payload>)

  /** `i` is the first position in `attrs` whose key is one of `keys`. */
  ghost predicate FirstWith(attrs: seq<Attr>, i: int, keys: set<string>)
  {
    && 0 <= i < |attrs|
    && attrs[i].key in keys
    && forall j :: 0 <= j < i ==> attrs[j].key !in keys
  }

  /** The action an `action` attribute's value selects. */
  function ActionOf(v: string): (r: Action)
    ensures v == ActionUpdate <==> r == ActionUpdate
    ensures v == ActionDelete <==> r == ActionDelete
    ensures r == ActionCreate || r == ActionUpdate || r == ActionDelete
  {
    if v == "create" then ActionCreate
    else if v == "update" then ActionUpdate
    else if v == "delete" then ActionDelete
    else ActionCreate
  }

  /** The first `action` attribute decides; without one the action is create. */
  function DefaultActionExtractor(attrs: seq<Attr>): (r: Action)
    ensures (forall i :: 0 <= i < |attrs| ==> attrs[i].key != AttrAction) ==> r == ActionCreate
    ensures forall i :: FirstWith(attrs, i, {AttrAction}) ==> r == ActionOf(attrs[i].value)
    ensures r == ActionCreate || r == ActionUpdate || r == ActionDelete
  {
    if attrs == [] then ActionCreate
    else if attrs[0].key == AttrAction then ActionOf(attrs[0].value)
    else
      assert forall i :: FirstWith(attrs, i, {AttrAction}) ==> FirstWith(attrs[1..], i - 1, {AttrAction});
      DefaultActionExtractor(attrs[1..])
  }

  /** The first `author` or `user` attribute names the author; else "system". */
  function DefaultAuthorExtractor(attrs: seq<Attr>): (r: string)
    ensures (forall i :: 0 <= i < |attrs| ==> attrs[i].key !in {AttrAuthor, AttrUser}) ==> r == DefaultAuthor
    ensures forall i :: FirstWith(attrs, i, {AttrAuthor, AttrUser}) ==> r == attrs[i].value
  {
    if attrs == [] then DefaultAuthor
    else if attrs[0].key == AttrAuthor || attrs[0].key == AttrUser then attrs[0].value
    else
      assert forall i :: FirstWith(attrs, i, {AttrAuthor, AttrUser}) ==> FirstWith(attrs[1..], i - 1, {AttrAuthor, AttrUser});
      DefaultAuthorExtractor(attrs[1..])
  }

  /** The value of the first attribute keyed `key`, and whether there is one. */
  function AttrExtractor(key: string, attrs: seq<Attr>): (r: (string, bool))
    ensures r.1 <==> exists i :: 0 <= i < |attrs| && attrs[i].key == key
    ensures !r.1 ==> r.0 == ""
    ensures forall i :: FirstWith(attrs, i, {key}) ==> r.0 == attrs[i].value
  {
    if attrs == [] then ("", false)
    else if attrs[0].key == key then (attrs[0].value, true)
    else
      assert forall i :: FirstWith(attrs, i, {key}) ==> FirstWith(attrs[1..], i - 1, {key});
      assert forall i :: 1 <= i < |attrs| ==> attrs[i] == attrs[1..][i - 1];
      AttrExtractor(key, attrs[1..])
  }

  /** Key lookup prefers the earlier list: the handler's own attributes win. */
  lemma {:induction false} AttrExtractorConcat(key: string, a: seq<Attr>, b: seq<Attr>)
    ensures AttrExtractor(key, a + b) == if AttrExtractor(key, a).1 then AttrExtractor(key, a) else AttrExtractor(key, b)
    decreases |a|
  {
    if a != [] {
      assert (a + b)[1..] == a[1..] + b;
      AttrExtractorConcat(key, a[1..], b);
    } else {
      assert a + b == b;
    }
  }

  /** The payload the default extractor builds: non-reserved attributes, later ones overwriting. */
  function DefaultPayload(attrs: seq<Attr>): Payload
  {
    if attrs == [] then map[]
    else
      var p := DefaultPayload(attrs[..|attrs| - 1]);
      var a := attrs[|attrs| - 1];
      if a.key in ReservedKeys then p else p[a.key := PlainValue(Text(a.value))]
  }

  /** The default payload's keys are exactly the non-reserved attribute keys. */
  lemma {:induction false} DefaultPayloadKeys(attrs: seq<Attr>)
    ensures DefaultPayload(attrs).Keys == set i | 0 <= i < |attrs| && attrs[i].key !in ReservedKeys :: attrs[i].key
    decreases |attrs|
  {
    if attrs != [] {
      var init := attrs[..|attrs| - 1];
      DefaultPayloadKeys(init);
      var keys := set i | 0 <= i < |attrs| && attrs[i].key !in ReservedKeys :: attrs[i].key;
      var keys' := set i | 0 <= i < |init| && init[i].key !in ReservedKeys :: init[i].key;
      var a := attrs[|attrs| - 1];
      forall k | k in keys ensures k in keys' || (k == a.key && a.key !in ReservedKeys) {
        var i :| 0 <= i < |attrs| && attrs[i].key !in ReservedKeys && attrs[i].key == k;
        if i < |init| {
          assert init[i] == attrs[i];
        }
      }
      forall k | k in keys' ensures k in keys {
        var i :| 0 <= i < |init| && init[i].key !in ReservedKeys && init[i].key == k;
        assert attrs[i] == init[i];
      }
    }
  }

  /** No value the default payload extractor produces is hidden. */
  lemma {:induction false} DefaultPayloadVisible(attrs: seq<Attr>)
    ensures forall k :: k in DefaultPayload(attrs) ==> !DefaultPayload(attrs)[k].hidden
    decreases |attrs|
  {
    if attrs != [] {
      DefaultPayloadVisible(attrs[..|attrs| - 1]);
    }
  }

  /** Each payload key carries the value of the last attribute with that key. */
  lemma {:induction false} DefaultPayloadLastWins(attrs: seq<Attr>, i: nat)
    requires i < |attrs| && attrs[i].key !in ReservedKeys
    requires forall j :: i < j < |attrs| ==> attrs[j].key != attrs[i].key
    ensures attrs[i].key in DefaultPayload(attrs)
    ensures DefaultPayload(attrs)[attrs[i].key] == PlainValue(Text(attrs[i].value))
    decreases |attrs|
  {
    if i < |attrs| - 1 {
      var init := attrs[..|attrs| - 1];
      assert forall j :: i <= j < |init| ==> init[j] == attrs[j];
      DefaultPayloadLastWins(init, i);
    }
  }

  /** Attributes added later overwrite earlier ones of the same key. */
  lemma {:induction false} DefaultPayloadConcat(a: seq<Attr>, b: seq<Attr>)
    ensures DefaultPayload(a + b) == DefaultPayload(a) + DefaultPayload(b)
    decreases |b|
  {
    if b == [] {
      assert a + b == a;
    } else {
      var b' := b[..|b| - 1];
      assert (a + b)[..|a + b| - 1] == a + b';
      DefaultPayloadConcat(a, b');
    }
  }

  /** Fills the payload map attribute by attribute, skipping reserved keys. */
  method DefaultPayloadExtractor(attrs: seq<Attr>) returns (payload: Payload)
    ensures payload == DefaultPayload(attrs)
  {
    payload := map[];
    for i := 0 to |attrs|
      invariant payload == DefaultPayload(attrs[..i])
    {
      assert attrs[..i + 1][..i] == attrs[..i];
      var attr := attrs[i];
      if attr.key in ReservedKeys {
        continue;
      }
      payload := payload[attr.key := PlainValue(Text(attr.value))];
    }
    assert attrs[..|attrs|] == attrs;
  }

  class Handler {
    const logger: Logger
    const hasUnderlying: bool
    const shouldAudit: Option<Record -> bool>
    const keyExtractor: seq<Attr> -> (string, bool)
    const actionExtractor: seq<Attr> -> Action
    const authorExtractor: seq<Attr> -> string
    const payloadExtractor: seq<Attr> -> Payload
    const attrs: seq<Attr>
    const groups: seq<string>

    constructor (logger: Logger, hasUnderlying: bool, shouldAudit: Option<Record -> bool>,
                 keyExtractor: seq<Attr> -> (string, bool), actionExtractor: seq<Attr> -> Action,
                 authorExtractor: seq<Attr> -> string, payloadExtractor: seq<Attr> -> Payload,
                 attrs: seq<Attr>, groups: seq<string>)
      ensures this.logger == logger && this.hasUnderlying == hasUnderlying
      ensures this.shouldAudit == shouldAudit && this.keyExtractor == keyExtractor
      ensures this.actionExtractor == actionExtractor && this.authorExtractor == authorExtractor
      ensures this.payloadExtractor == payloadExtractor
      ensures this.attrs == attrs && this.groups == groups
    {
      this.logger := logger;
      this.hasUnderlying := hasUnderlying;
      this.shouldAudit := shouldAudit;
      this.keyExtractor := keyExtractor;
      this.actionExtractor := actionExtractor;
      this.authorExtractor := authorExtractor;
      this.payloadExtractor := payloadExtractor;
      this.attrs := attrs;
      this.groups := groups;
    }

    /** `h` has this handler's logger, delegate and extraction rules. */
    ghost predicate SameRules(h: Handler)
    {
      && h.logger == logger && h.hasUnderlying == hasUnderlying
      && h.shouldAudit == shouldAudit && h.keyExtractor == keyExtractor
      && h.actionExtractor == actionExtractor && h.authorExtractor == authorExtractor
      && h.payloadExtractor == payloadExtractor
    }

    /**
     * Whether handling `record` reaches the audit logger: the delegate did
     * not fail, the filter admits the record and a key is found among the
     * handler's attributes followed by the record's.
     */
    ghost predicate Audits(record: Record, delegateFailed: bool)
    {
      && !(hasUnderlying && delegateFailed)
      && (shouldAudit.None? || shouldAudit.value(record))
      && keyExtractor(attrs + record.attrs).1
    }

    /**
     * Handles one record. `delegateFailed` is what the underlying handler,
     * if any, reports; `now` stands for the clock.
     */
    method Handle(record: Record, now: int, delegateFailed: bool) returns (err: bool)
      requires logger.storage.Valid()
      modifies logger.storage
      ensures logger.storage.Valid()
      ensures err <==> hasUnderlying && delegateFailed
      ensures !Audits(record, delegateFailed) ==> logger.storage.events == old(logger.storage.events)
      ensures Audits(record, delegateFailed) ==>
        var all := attrs + record.attrs;
        var key := keyExtractor(all).0;
        && logger.storage.EventsOf(key) == old(logger.storage.EventsOf(key))
             + [Event(now, actionExtractor(all), authorExtractor(all), record.message, payloadExtractor(all))]
        && logger.storage.events == old(logger.storage.events)[key := logger.storage.EventsOf(key)]
    {
      if hasUnderlying && delegateFailed {
        return true;
      }
      if shouldAudit.Some? && !shouldAudit.value(record) {
        return false;
      }

      var allAttrs := attrs + record.attrs;

      var found := keyExtractor(allAttrs);
      if !found.1 {
        return false;
      }
      var key := found.0;

      var action := actionExtractor(allAttrs);
      var author := authorExtractor(allAttrs);
      var payload := payloadExtractor(allAttrs);

      logger.LogChange(key, action, author, record.message, payload, now);
      return false;
    }

    /** A new handler whose attributes are this one's followed by `more`. */
    method WithAttrs(more: seq<Attr>) returns (h: Handler)
      ensures fresh(h)
      ensures SameRules(h) && h.attrs == attrs + more && h.groups == groups
    {
      h := new Handler(logger, hasUnderlying, shouldAudit, keyExtractor, actionExtractor,
                       authorExtractor, payloadExtractor, attrs + more, groups);
    }

    /** The same handler for an empty name; otherwise a new one with the group appended. */
    method WithGroup(name: string) returns (h: Handler)
      ensures name == "" ==> h == this
      ensures name != "" ==> fresh(h) && SameRules(h) && h.attrs == attrs && h.groups == groups + [name]
    {
      if name == "" {
        return this;
      }
      h := new Handler(logger, hasUnderlying, shouldAudit, keyExtractor, actionExtractor,
                       authorExtractor, payloadExtractor, attrs, groups + [name]);
    }
  }

  /**
   * A handler over `logger`; fails when no key rule is given, and fills
   * the default action, author and payload rules where none is given.
   */
  method NewHandler(logger: Logger, opts: HandlerOptions) returns (r: Result<Handler, string>)
    ensures opts.keyExtractor.None? <==> r.Failure?
    ensures r.Failure? ==> r.error == KeyExtractorRequired
    ensures r.Success? ==>
      var h := r.value;
      && fresh(h)
      && h.logger == logger && h.hasUnderlying == opts.hasUnderlying
      && h.shouldAudit == opts.shouldAudit
      && h.keyExtractor == opts.keyExtractor.value
      && h.actionExtractor == (if opts.actionExtractor.Some? then opts.actionExtractor.value else DefaultActionExtractor)
      && h.authorExtractor == (if opts.authorExtractor.Some? then opts.authorExtractor.value else DefaultAuthorExtractor)
      && h.payloadExtractor == (if opts.payloadExtractor.Some? then opts.payloadExtractor.value else DefaultPayload)
      && h.attrs == [] && h.groups == []
  {
    if opts.keyExtractor.None? {
      return Failure(KeyExtractorRequired);
    }
    var action := if opts.actionExtractor.Some? then opts.actionExtractor.value else DefaultActionExtractor;
    var author := if opts.authorExtractor.Some? then opts.authorExtractor.value else DefaultAuthorExtractor;
    var payload := if opts.payloadExtractor.Some? then opts.payloadExtractor.value else DefaultPayload;
    var h := new Handler(logger, opts.hasUnderlying, opts.shouldAudit, opts.keyExtractor.value,
                         action, author, payload, [], []);
    return Success(h);
  }
}
