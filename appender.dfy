/**
 * add_event_to_history of imio.history.utils: append one event record to a
 * history kept in an attribute of a content object, creating the attribute
 * first when the object does not have it yet.
 */
module Appender {
  import opened Wrappers
  import opened Events

  /** The history stored under `attr`; an object without the attribute has
      none yet, which reads as the empty history. */
  function HistoryOf(attrs: map<string, History>, attr: string): History
  {
    if attr in attrs then attrs[attr] else []
  }

  /** The record add_event_to_history builds. The actor is the given user's
      id, or the current user's id when no actor is given; the time is the
      given time, or now; extra infos are merged in last, so on a key they
      share with a fixed field they win, as a dictionary update does. */
  function MakeEvent(action: string, currentUser: string, now: int, actor: Option<string>,
                     time: Option<int>, comments: string, extraInfos: map<string, Value>): (e: Event)
    ensures e.Keys == {ActionKey, ActorKey, TimeKey, CommentsKey} + extraInfos.Keys
    ensures forall k :: k in extraInfos ==> e[k] == extraInfos[k]
    ensures ActionKey !in extraInfos ==> e[ActionKey] == Text(action)
    ensures ActorKey !in extraInfos ==>
      e[ActorKey] == Text(if actor.Some? then actor.value else currentUser)
    ensures TimeKey !in extraInfos ==> e[TimeKey] == Time(if time.Some? then time.value else now)
    ensures CommentsKey !in extraInfos ==> e[CommentsKey] == Text(comments)
  {
    var actorId := match actor case Some(id) => id case None => currentUser;
    var stamp := match time case Some(t) => t case None => now;
    map[ActionKey := Text(action), ActorKey := Text(actorId), TimeKey := Time(stamp),
        CommentsKey := Text(comments)] + extraInfos
  }

  /** With no optional argument, the record carries the action, the current
      user's id as actor, empty comments and the current time. */
  lemma MakeEventDefaults(action: string, currentUser: string, now: int)
    ensures var e := MakeEvent(action, currentUser, now, None, None, "", map[]);
      && Get(e, ActionKey) == Text(action)
      && Get(e, ActorKey) == Text(currentUser)
      && Get(e, CommentsKey) == Text("")
      && Get(e, TimeKey) == Time(now)
  {
  }

  /** With every optional argument given (and extra infos not reusing a
      fixed key), the record stores the given actor's id, time and
      comments, and every extra info key with its value. */
  lemma MakeEventGiven(action: string, currentUser: string, now: int, actor: string, time: int,
                       comments: string, extraInfos: map<string, Value>)
    requires ActionKey !in extraInfos && ActorKey !in extraInfos
    requires TimeKey !in extraInfos && CommentsKey !in extraInfos
    ensures var e := MakeEvent(action, currentUser, now, Some(actor), Some(time), comments, extraInfos);
      && Get(e, ActionKey) == Text(action)
      && Get(e, ActorKey) == Text(actor)
      && Get(e, CommentsKey) == Text(comments)
      && Get(e, TimeKey) == Time(time)
      && forall k :: k in extraInfos ==> Get(e, k) == extraInfos[k]
  {
  }

  /** The attributes after appending `e` to the history under `attr`: the
      attribute exists, its old records are kept in place, `e` is the new
      last record, and no other attribute changes. */
  function AppendEvent(attrs: map<string, History>, attr: string, e: Event): (r: map<string, History>)
    ensures r.Keys == attrs.Keys + {attr}
    ensures |r[attr]| == |HistoryOf(attrs, attr)| + 1
    ensures r[attr][..|HistoryOf(attrs, attr)|] == HistoryOf(attrs, attr)
    ensures r[attr][|HistoryOf(attrs, attr)|] == e
    ensures forall k :: k in attrs && k != attr ==> r[k] == attrs[k]
  {
    var h := HistoryOf(attrs, attr);
    assert (h + [e])[..|h|] == h;
    attrs[attr := h + [e]]
  }

  /** The attributes after appending the records `es`, one call per record,
      in order. */
  function AppendEvents(attrs: map<string, History>, attr: string, es: seq<Event>): map<string, History>
    decreases |es|
  {
    if es == [] then attrs else AppendEvents(AppendEvent(attrs, attr, es[0]), attr, es[1..])
  }

  /** Histories are append-only: successive appends leave the history under
      `attr` equal to the old history followed by the appended records in
      call order (on an object without the attribute, the first record lands
      at index 0, the next at index 1), and every other attribute as it was. */
  lemma {:induction false} AppendEventsInOrder(attrs: map<string, History>, attr: string, es: seq<Event>)
    requires es != []
    ensures var r := AppendEvents(attrs, attr, es);
      && r.Keys == attrs.Keys + {attr}
      && r[attr] == HistoryOf(attrs, attr) + es
      && forall k :: k in attrs && k != attr ==> r[k] == attrs[k]
    decreases |es|
  {
    var next := AppendEvent(attrs, attr, es[0]);
    var h := HistoryOf(attrs, attr);
    assert next[attr] == h + [es[0]];
    if |es| > 1 {
      AppendEventsInOrder(next, attr, es[1..]);
      assert HistoryOf(next, attr) + es[1..] == h + es by {
        assert es == [es[0]] + es[1..];
      }
    } else {
      assert es == [es[0]];
    }
  }

  /** A content object whose attributes the appender updates in place. */
  class Content {
    var attributes: map<string, History>

    constructor (attributes: map<string, History>)
      ensures this.attributes == attributes
    {
      this.attributes := attributes;
    }

    /** add_event_to_history(obj, history_attr, action, actor, time, comments,
        extra_infos). The current user's id and the current time, which the
        source reads from the site and the clock, are parameters. */
    method AddEventToHistory(attr: string, action: string, currentUser: string, now: int,
                             actor: Option<string> := None, time: Option<int> := None,
                             comments: string := "", extraInfos: map<string, Value> := map[])
      modifies this
      ensures attributes ==
        AppendEvent(old(attributes), attr, MakeEvent(action, currentUser, now, actor, time, comments, extraInfos))
    {
      if attr !in attributes {
        attributes := attributes[attr := []];
      }
      var record := MakeEvent(action, currentUser, now, actor, time, comments, extraInfos);
      attributes := attributes[attr := attributes[attr] + [record]];
    }
  }

  /** The two calls of the appender's scenario on an object without the
      attribute: the default call lands at index 0 and keeps its defaults
      when the second call, with every argument given, lands at index 1. */
  method AddTwoEvents(c: Content, attr: string, currentUser: string, now: int,
                      otherUser: string, time: int, comments: string, extraInfos: map<string, Value>)
    requires attr !in c.attributes
    requires ActionKey !in extraInfos && ActorKey !in extraInfos
    requires TimeKey !in extraInfos && CommentsKey !in extraInfos
    modifies c
    ensures attr in c.attributes && |c.attributes[attr]| == 2
    ensures c.attributes[attr][0] == MakeEvent("action1", currentUser, now, None, None, "", map[])
    ensures Get(c.attributes[attr][0], ActorKey) == Text(currentUser)
    ensures Get(c.attributes[attr][0], CommentsKey) == Text("")
    ensures Get(c.attributes[attr][1], ActionKey) == Text("action2")
    ensures Get(c.attributes[attr][1], ActorKey) == Text(otherUser)
    ensures Get(c.attributes[attr][1], CommentsKey) == Text(comments)
    ensures Get(c.attributes[attr][1], TimeKey) == Time(time)
    ensures forall k :: k in extraInfos ==> Get(c.attributes[attr][1], k) == extraInfos[k]
  {
    c.AddEventToHistory(attr, "action1", currentUser, now);
    c.AddEventToHistory(attr, "action2", currentUser, now, actor := Some(otherUser), time := Some(time),
                        comments := comments, extraInfos := extraInfos);
    MakeEventDefaults("action1", currentUser, now);
    MakeEventGiven("action2", currentUser, now, otherUser, time, comments, extraInfos);
  }
}
