# imio.history utilities, modelled in Dafny

imio.history records the workflow and action history of content objects in
Plone and answers questions about it. This project models its three history
utilities, `imio.history.utils`, with the Plone plumbing removed:

- **getPreviousEvent** (`Lookups.PreviousEvent`): given a workflow history
  and an event, the record just before that event. It gives nothing when the
  event is the first record or does not occur at all.
- **getLastAction** (`Lookups.GetLastAction`): given the object's histories
  by name, an action filter and a history name (default `workflow`), the
  newest matching record. The filter can be left out, which matches any
  record. It can be `None`, which matches the creation record. Or it can be
  an action name. An unregistered history name is a `ComponentLookupError`.
  An empty history, or no match, gives nothing.
- **add_event_to_history** (`Appender.Content.AddEventToHistory`): appends
  one record to a history kept in an attribute of a content object. It
  creates the attribute first when it is missing. The actor defaults to the
  current user's id, the time to now and the comments to `''`. Extra infos
  are merged into the record.

An event record is a dictionary, `map<string, Value>`. A `Value` is `None`,
a text or a timestamp. A history is a `seq` of records, oldest first. The
adapter registry becomes a `map` from history name to history. A content
object is a class whose `attributes` map the appender updates in place. The
current user's id and the current time are parameters.

Files: `wrappers.dfy` (Option, Result), `events.dfy` (values, records,
histories, the workflow-history shape), `lookups.dfy` (the two lookups and
their lemmas), `appender.dfy` (the record builder, the append, the content
class).

The implementation file `src/imio/history/utils.py` is not part of this
model. The behaviour modelled is what `src/imio/history/tests/test_utils.py`
asserts of the three utilities. Where that test leaves a case open, the
model makes a choice of its own; each such choice is listed under
"## Left out".

## Model

| member | source | states |
|---|---|---|
| `Lookups.PreviousEvent` | src/imio/history/tests/test_utils.py:16-42 | There is a previous event iff the event occurs in the history and is not its first record. When there is one, it is the record just before the event's first occurrence. |
| `Lookups.PreviousOfFirst` | src/imio/history/tests/test_utils.py:24-27 | The creation record, first in the history, has no previous event. |
| `Lookups.PreviousAt` | src/imio/history/tests/test_utils.py:30-34 | A record that occurs once, at a position after the first, has as previous event exactly the record one position before it. |
| `Lookups.PreviousAfterAppend` | src/imio/history/tests/test_utils.py:29-34 | After a transition appends a new record to a non-empty history, that record's previous event is the record that was last before it. |
| `Lookups.PreviousOfAbsent` | src/imio/history/tests/test_utils.py:36-42 | A record that does not occur in the history has no previous event; the result is nothing, not an error. |
| `Lookups.LastIndexOf` | src/imio/history/tests/test_utils.py:58-63 | Scanning from the end, it finds the position of the newest record with the given action: that record matches and no later one does. It finds nothing iff no record matches. |
| `Lookups.GetLastAction` | src/imio/history/tests/test_utils.py:44-79 | It fails with `ComponentLookupError` naming the history iff the name is unregistered. Otherwise it gives nothing iff no record passes the filter. Any record it gives is the newest one that passes the filter. |
| `Lookups.LastActionUnfiltered` | src/imio/history/tests/test_utils.py:50-52 | Without a filter, the lookup returns the newest record of a non-empty history. |
| `Lookups.LastActionFindsAppended` | src/imio/history/tests/test_utils.py:53-63 | A record just appended with an action is what the lookup for that action returns, whatever came before it. So after publish, retract, publish, it finds the second publish, with its comments. |
| `Lookups.LastActionCreation` | src/imio/history/tests/test_utils.py:65-66 | In a workflow history, the `None` filter returns the creation record, the first one. |
| `Lookups.LastActionUnknown` | src/imio/history/tests/test_utils.py:68-69 | An action name that no record carries gives nothing. |
| `Lookups.LastActionUnknownHistory` | src/imio/history/tests/test_utils.py:71-75 | An unregistered history name raises `ComponentLookupError`, whatever the filter. |
| `Lookups.LastActionEmptyHistory` | src/imio/history/tests/test_utils.py:77-79 | A registered but empty history gives nothing rather than failing. |
| `Appender.MakeEvent` | src/imio/history/tests/test_utils.py:88-115 | The new record's keys are action, actor, time and comments plus the extra-info keys. Every extra info is stored with its value. A fixed field not overridden by an extra info holds the action, the actor's id (the current user's when no actor is given), the time (now when none is given) and the comments. |
| `Appender.MakeEventDefaults` | src/imio/history/tests/test_utils.py:88-96 | With no optional argument, the record has the action, the current user's id as actor, `''` as comments and the current time. |
| `Appender.MakeEventGiven` | src/imio/history/tests/test_utils.py:98-115 | With actor, time, comments and extra infos given, the record stores the actor's id, that time and those comments, and every extra-info key with its value. |
| `Appender.AppendEvent` | src/imio/history/tests/test_utils.py:84-90 | After an append, the attribute exists and its history is one record longer. The old records stay in place, the new record is last, and no other attribute changes. |
| `Appender.AppendEventsInOrder` | src/imio/history/tests/test_utils.py:84-108 | Successive appends leave the old history followed by the new records in call order. On a missing attribute, the first record lands at index 0 and the next at index 1. Every other attribute is unchanged. |
| `Appender.Content.AddEventToHistory` | src/imio/history/tests/test_utils.py:81-115 | The object's new attributes are the old ones with the record built from the arguments and defaults appended to the history under the attribute, which is created if it was missing. |
| `Appender.AddTwoEvents` | src/imio/history/tests/test_utils.py:86-115 | On an object without the attribute, a default call and then a call with every argument leave two records. The first, at index 0, keeps the current user and empty comments. The second, at index 1, has action2, the given actor, time and comments, and every extra info. |

## Left out

- Content creation, workflow transitions and the workflow engine: a workflow history is a given `seq`. The shape the engine guarantees (creation record first with action `None`, later records naming an action) is the predicate `Events.WorkflowShaped`, a hypothesis of `Lookups.LastActionCreation`.
- The zope component registry and `getAdapter`: only a `map` from history name to history. Looking up a missing name is the `ComponentLookupError` result.
- User management and current-user resolution: the actor is given by user id, and the current user's id is a parameter.
- `DateTime` values and clock reads: a time is an opaque integer, and the current time is a parameter.
- The integration-test fixture, ZODB persistence and transactions.
- `Lookups.PreviousEvent`: takes the workflow history itself rather than the content object, so the adapter lookup of the `workflow` history is not part of it.
- `Lookups.PreviousEvent`: when the event occurs more than once, the record before its first occurrence is returned. This is the model's own choice: every record in the test is distinct, so the test does not fix it.
- `Lookups.GetLastAction`: a record without an `action` key reads as having action `None` (`Events.HasAction`). This is the model's own choice: a source that indexes `event['action']` would raise `KeyError` instead, and every record in the test has the key.
- `Lookups.GetLastAction`: leaving the filter out (`AnyAction`) is distinct from every action name and from `None`. If the source marks "no filter" with a default value of its own, passing that value would also mean "no filter"; the test does not fix this and the model does not cover it.
- `Appender.MakeEvent`: a record value is `None`, a text or a timestamp (`Events.Value`). Extra infos holding other Python values (numbers, lists, objects) are not modelled.
- `Appender.MakeEvent`: the appended record holds exactly the action, actor, time and comments keys plus the extra-info keys, with no `review_state`. This is the model's own choice: the test checks only the keys it reads.
- `Appender.MakeEvent`: an extra info whose key is also a fixed field (action, actor, time, comments) replaces that field, as a dictionary update does. This is the model's own choice: the test's extra keys never clash with a fixed field.
- `Lookups.PreviousEvent`: an event is located by value equality, not object identity. This is the model's own choice: the test passes either the stored record itself or one equal to no stored record, so it cannot tell the two apart.
- `Appender.Content.AddEventToHistory`: a history is a `seq` value held in the object's attribute map, and the method replaces it. Another reference to the same list object, which would see the appended record when the list is updated in place, is not modelled (no aliasing).
