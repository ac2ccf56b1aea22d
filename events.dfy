/**
 * Event records and histories, as imio.history stores them: an event is a
 * dictionary from string keys to values, a history is an ordered,
 * append-only list of events, oldest first.
 */
module Events {
  import opened Wrappers

  /** The values an event record holds: `None`, a text, or a timestamp.
      Timestamps (Zope `DateTime` values) are opaque integers here. */
  datatype Value = Null | Text(text: string) | Time(stamp: int)

  type Event = map<string, Value>

  type History = seq<Event>

  const ActionKey: string := "action"
  const ActorKey: string := "actor"
  const TimeKey: string := "time"
  const CommentsKey: string := "comments"

  /** `event.get(key)`: a missing key reads as `None`. */
  function Get(e: Event, key: string): Value
  {
    if key in e then e[key] else Null
  }

  /** How an action filter is stored in a record: a name, or `None` for creation. */
  function ActionValue(a: Option<string>): Value
  {
    match a
    case None => Null
    case Some(name) => Text(name)
  }

  /** The record's action equals `a`; the creation record matches `None`. */
  predicate HasAction(e: Event, a: Option<string>)
  {
    Get(e, ActionKey) == ActionValue(a)
  }

  /** The shape of a workflow history: the first record is the creation
      event, whose action is `None`; every later record names a non-empty
      action. */
  predicate WorkflowShaped(h: History)
  {
    && h != []
    && HasAction(h[0], None)
    && forall i :: 0 < i < |h| ==> Get(h[i], ActionKey).Text? && Get(h[i], ActionKey).text != ""
  }
}
