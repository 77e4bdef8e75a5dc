# Audit trail engine — Dafny model

This project models the core of a Go audit-logging library:

- **the event store** (`storage.go`): an in-memory map from an entity key to that key's append-only sequence of events, with `Store`, `Get`, `Has` and `Clear`;
- **the logger** (`logger.go`):
  - write operations (`LogChange`, `Create`, `Update`, `Delete`) that build one event and append it;
  - the field filter behind `Events(key, fields...)`;
  - the field-level diff replay behind `Logs(key)`, which shows each event as a Change of `From -> To` records and redacts hidden values as `*** -> ***`;
- **the structured-logging bridge** (`slog/handler.go`): the default first-match extractors for action, author and key, the default payload extractor, and the `Handle` decision that appends at most one event per log record.

Layout:

| file | module | models |
|---|---|---|
| `wrappers.dfy` | `Wrappers` | `Option` / `Result` |
| `audit_types.dfy` | `Audit` | `Value`, `Event`, `ChangeField`, `Change`, action constants, `"***"` |
| `storage.dfy` | `AuditStorage` | class `InMemoryStorage` |
| `history.dfy` | `History` | specification functions of the filter and of the replay, and their lemmas |
| `logger.dfy` | `AuditLogger` | class `Logger`; `Events` and `Logs` are the source's loops, proved against `History` |
| `slog_handler.dfy` | `SlogAudit` | extractors, class `Handler`, `NewHandler` |
| `scenarios.dfy` | `AuditScenarios` | client methods that derive the documented example histories from the contracts alone |

Modelling choices:

- Go's `any` payload datum becomes `Data = Nil | Text | Number | Flag`. It has an explicit nil, and its equality is structural.
- A ChangeField's `From`/`To` are `Data`. The redaction marker is `Text("***")`.
- The clock (`time.Now()`) becomes an `int` parameter `now`.
- The store's invariant `Valid()` says that every present key holds a non-empty sequence. So `Has(k)` holds exactly when `Get(k)` is non-empty.
- The replay visits one event's fields in an unspecified order (`:|` over the remaining key set), as the Go map iteration does. A Change's field list is therefore specified up to order: `ListsExactly` says each name appears once and the list holds exactly the entries of `History.Diff`.
- An action is any string. `Logger.LogChange` and a custom action rule accept any action; the default action rule yields only `create`, `update` or `delete`.
- A log attribute is a `(key, string value)` pair. The default payload stores the value as `Text(value)`.
- The handler's extractors are function values. `NewHandler` fills the unset ones with `DefaultActionExtractor`, `DefaultAuthorExtractor` and `DefaultPayload`. The loop `DefaultPayloadExtractor` is proved equal to `DefaultPayload`.
- `NewHandler` without a key rule panics in the source (slog/handler.go:90-92). The model returns `Failure(KeyExtractorRequired)` instead, carrying the panic message.

A hidden write leaves the replay state untouched (logger.go:220-222). A later visible write to the same field therefore shows `From` = the last *visible* datum before the hidden write, nil when there was none (`History.VisibleAfterHidden`, `History.FirstVisibleFromNil`).

## Model

| member | source | states |
|---|---|---|
| `Audit.HiddenValue` | logger.go:99-101 | a hidden value carries no datum (nil) |
| `Audit.PlainValue` | logger.go:105-107 | a plain value is visible and carries exactly the given datum |
| `AuditStorage.InMemoryStorage.constructor` | storage.go:30-34 | a new store is valid and holds no key |
| `AuditStorage.InMemoryStorage.Store` | storage.go:37-41 | the key's sequence becomes the old one plus the event at the end; every other key's sequence and presence are unchanged; the store stays valid |
| `AuditStorage.InMemoryStorage.Get` | storage.go:45-53 | returns the key's stored sequence, empty for a key without an entry |
| `AuditStorage.InMemoryStorage.Has` | storage.go:56-61 | true iff the key has an entry; on a valid store, iff its sequence is non-empty |
| `AuditStorage.InMemoryStorage.Clear` | storage.go:64-68 | removes exactly the key's entry (Has false, Get empty), other keys intact, no change when the key is absent |
| `AuditStorage.StoreAll` | storage_test.go:43-61 | n successive stores to a key extend its sequence by exactly those n events in call order |
| `History.Project` | logger.go:171-185 | a retained event keeps timestamp, action, author and description, and its payload is the original restricted to the requested names (no name synthesised) |
| `History.FilterEventsMembers` | logger.go:157-185 | an event appears in the filtered result iff it names a requested field, projected onto the request; the result is no longer than the history |
| `History.FilterEventsAppend` | logger.go:156-188 | filtering distributes over concatenation, so retained events keep storage order |
| `History.FilterUnwrittenField` | logger.go:157-169 | asking for a field that no event names gives an empty result |
| `History.StateIsLastVisible` | logger.go:206-223 | the replay state holds, per field, the datum of the last visible write, skipping hidden writes, or nil |
| `History.FieldOfChange` | logger.go:206-223 | for a field an event names: hidden always shows `*** -> ***`; visible shows a ChangeField iff it differs from the last visible value, with From = that value and To = the new datum |
| `History.RepeatIsSuppressed` | logger.go:214-223 | writing the current visible value again shows no ChangeField for that field |
| `History.VisibleAfterHidden` | logger.go:209-222 | a visible write after hidden-only writes shows From = the last visible value before them |
| `History.FirstVisibleFromNil` | logger.go:195-221 | a field never written visibly before shows From = nil on its first visible non-nil write |
| `History.StateHoldsNoHiddenWrite` | logger.go:220-222 | every datum in the replay state comes from a visible write of that field: hidden values never enter the state |
| `History.HistoryAt` | logger.go:193-229 | in a history, Change i has event i's description, author and timestamp and the ChangeFields of event i replayed over the state the earlier events leave; there are as many Changes as events |
| `AuditLogger.ReplayEvent` | logger.go:205-224 | one event's ChangeFields are exactly `Diff(state, payload)`, each name once, no more than the payload's size; the new state is `Step(state, payload)` |
| `AuditLogger.Logger.constructor` | logger.go:72-76 | the logger writes to and reads from the given store |
| `AuditLogger.Logger.LogChange` | logger.go:112-122 | appends exactly one event with the given action, author, description, payload and time to the key, other keys unchanged |
| `AuditLogger.Logger.Create` | logger.go:124-126 | appends exactly one `create` event with the given author, description and payload |
| `AuditLogger.Logger.Update` | logger.go:128-130 | appends exactly one `update` event with the given author, description and payload |
| `AuditLogger.Logger.Delete` | logger.go:132-134 | appends exactly one `delete` event with the given author, description and payload |
| `AuditLogger.Logger.Events` | logger.go:140-189 | with no names, the stored sequence as is (empty for an unknown key); with names, `FilterEvents` of it over the set of names |
| `AuditLogger.Logger.Logs` | logger.go:193-229 | one Change per stored event, in order, with description, author and timestamp copied, and the fields of `Diff` over the state replayed from the events before it |
| `SlogAudit.ActionOf` | slog/handler.go:200-209 | `update` and `delete` select those actions; every other value selects `create` |
| `SlogAudit.DefaultActionExtractor` | slog/handler.go:197-213 | the first `action` attribute decides the action; with none, `create` |
| `SlogAudit.DefaultAuthorExtractor` | slog/handler.go:217-224 | the value of the first `author` or `user` attribute; with none, `system` |
| `SlogAudit.AttrExtractor` | slog/handler.go:250-259 | found iff some attribute has the key; then the first such value, else `("", false)` |
| `SlogAudit.AttrExtractorConcat` | slog/handler.go:137-146 | over handler attributes followed by record attributes, a key found among the handler's wins |
| `SlogAudit.DefaultPayloadKeys` | slog/handler.go:228-247 | the payload's keys are exactly the attribute keys other than entity/action/author/user |
| `SlogAudit.DefaultPayloadVisible` | slog/handler.go:242-244 | no payload value is hidden |
| `SlogAudit.DefaultPayloadLastWins` | slog/handler.go:237-244 | each key carries the value of its last attribute: later duplicates overwrite |
| `SlogAudit.DefaultPayloadConcat` | slog/handler.go:237-244 | the payload of `a ++ b` is that of `a` overridden by that of `b` |
| `SlogAudit.DefaultPayloadExtractor` | slog/handler.go:228-247 | the loop builds exactly `DefaultPayload(attrs)` |
| `SlogAudit.Handler.constructor` | slog/handler.go:105-111 | the handler holds the given logger, rules, attributes and groups |
| `SlogAudit.Handler.Handle` | slog/handler.go:124-161 | a failing delegate is reported; nothing is appended when the delegate fails, the filter rejects or no key is found; otherwise exactly one event under the extracted key, with the record message as description, all extracted over handler attributes followed by record attributes |
| `SlogAudit.Handler.WithAttrs` | slog/handler.go:164-175 | a new handler with attributes old ++ new, same rules and groups; the original is untouched |
| `SlogAudit.Handler.WithGroup` | slog/handler.go:178-193 | the empty name returns the same handler; otherwise a new one with the group appended |
| `SlogAudit.NewHandler` | slog/handler.go:89-112 | fails iff the key rule is missing; otherwise a fresh handler with the defaults filled for unset action, author and payload rules and no attributes or groups |

## Left out

- Locking and concurrency (`sync.RWMutex` in the store, concurrent tests): the model is sequential.
- The `Storage` interface: the logger works over `InMemoryStorage` directly, since the model has no interface types. Other backends (the JSON file store of the examples) are not part of this model.
- `time.Now()`: the timestamp is the parameter `now`.
- Go's `!=` on `any` panics when both sides hold the same non-comparable type (maps, slices). `Data` is comparable, so the panic is not modelled.
- The payload datum `Data` is a stand-in for Go's `any`: floating-point values (the package's own examples store prices such as `29.99`) and Go's interface equality, which compares the dynamic type as well as the value (so `int(30)` then `int64(30)` shows `30 -> 30`, and a NaN written twice shows a change each time), are not modelled. Suppression of a repeated write is equality on `Data`.
- The order of ChangeFields inside one Change: Go map iteration order is unspecified, and the model states nothing about it.
- Copy-on-read isolation of `Get`: Dafny sequences are values.
- Shared payload maps: a stored event keeps the caller's payload map itself (logger.go:118), and `Events` with no names returns events that share those maps with the store (logger.go:145-146). In Go, changing that map after the call changes the recorded history; for example, reusing one map for a create and then an update makes both events show its final contents. The model's payloads are values and assume no such later change.
- Functional options `New` / `WithStorage`: the logger's constructor takes the store directly.
- slog plumbing: `Enabled`; the underlying handler's own `Handle`/`WithAttrs`/`WithGroup`, reduced to the flag `hasUnderlying` and the parameter `delegateFailed`; `context.Context`; and the `slog.Value.String()`/`Any()` conversions, replaced by the attribute's string value.
- Groups: `WithGroup` records group names, but extraction never uses them, as in the source.
- Example programs, benchmarks and the test-assertion helper package.
