/**
 * The value types of the audit package: payload values, stored events and
 * the derived change records that the history replay produces.
 */
module Audit {

  /** An action tag; the package declares `Action` as a string type. */
  type Action = string

  const ActionCreate: Action := "create"
  const ActionUpdate: Action := "update"
  const ActionDelete: Action := "delete"

  /** The redaction marker shown in place of a hidden value. */
  const HideText: string := "***"

  /**
   * The payload datum. The package stores `any`; here it is a comparable
   * variant with an explicit nil, so the no-op check is structural equality.
   */
  datatype Data = Nil | Text(s: string) | Number(n: int) | Flag(b: bool)

  /** The datum the history shows for a hidden value, on both sides. */
  const Mask: Data := Text(HideText)

  /** A payload value: the datum and whether it must be redacted. */
  datatype Value = Value(data: Data, hidden: bool)

  type Payload = map<string, Value>

  /** One stored fact about a key. The timestamp is an opaque instant. */
  datatype Event = Event(
    timestamp: int,
    action: Action,
    author: string,
    description: string,
    payload: Payload)

  /** One field-level transition within a Change. */
  datatype ChangeField = ChangeField(field: string, from: Data, to: Data)

  /** The per-event view produced by the history replay. */
  datatype Change = Change(
    fields: seq<ChangeField>,
    description: string,
    author: string,
    timestamp: int)

  /** A value whose content the history must never show. */
  function HiddenValue(): (v: Value)
    ensures v.hidden && v.data == Nil
  {
    Value(Nil, true)
  }

  /** A value shown as-is in the history. */
  function PlainValue(d: Data): (v: Value)
    ensures !v.hidden && v.data == d
  {
    Value(d, false)
  }
}
