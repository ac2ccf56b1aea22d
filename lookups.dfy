/**
 * The two read-only history lookups of imio.history.utils:
 * getPreviousEvent over an object's workflow history, and getLastAction
 * over a history found by name through the history adapter registry.
 */
module Lookups {
  import opened Wrappers
  import opened Events

  // ---------------------------------------------------------------------
  // getPreviousEvent
  // ---------------------------------------------------------------------

  /** The position of the first record equal to `e`, or None when `e` does
      not occur. */
  function IndexOf(h: History, e: Event): (r: Option<nat>)
    ensures r.None? <==> e !in h
    ensures r.Some? ==> r.value < |h| && h[r.value] == e && e !in h[..r.value]
  {
    if h == [] then None
    else if h[0] == e then Some(0)
    else
      match IndexOf(h[1..], e)
      case None => None
      case Some(i) =>
        assert h[..i + 1] == [h[0]] + h[1..][..i];
        Some(i + 1)
  }

  /** The record just before the first occurrence of `e` in the workflow
      history; nothing when `e` is the first record or does not occur. */
  function PreviousEvent(h: History, e: Event): (r: Option<Event>)
    ensures r.Some? <==> e in h && e != h[0]
    ensures r.Some? ==> exists i :: 0 < i < |h| && h[i] == e && e !in h[..i] && r.value == h[i - 1]
  {
    match IndexOf(h, e)
    case None => None
    case Some(i) => if i > 0 then Some(h[i - 1]) else None
  }

  /** The creation record has no previous event. */
  lemma PreviousOfFirst(h: History)
    requires h != []
    ensures PreviousEvent(h, h[0]) == None
  {
  }

  /** A record that does not occur in the history has no previous event:
      the answer is nothing, not an error. */
  lemma PreviousOfAbsent(h: History, e: Event)
    requires e !in h
    ensures PreviousEvent(h, e) == None
  {
  }

  /** A record occurring once, at a position after the first, has as its
      previous event exactly the record one position before it. */
  lemma PreviousAt(h: History, i: nat)
    requires 0 < i < |h|
    requires h[i] !in h[..i]
    ensures PreviousEvent(h, h[i]) == Some(h[i - 1])
  {
  }

  /** After a transition appends a new record to a non-empty history, the
      new record's previous event is the record that was last before it. */
  lemma PreviousAfterAppend(h: History, e: Event)
    requires h != []
    requires e !in h
    ensures PreviousEvent(h + [e], e) == Some(h[|h| - 1])
  {
  }

  // ---------------------------------------------------------------------
  // getLastAction
  // ---------------------------------------------------------------------

  /** The `action` argument of getLastAction: left out (any record), or a
      given action name, where `None` names the creation record. */
  datatype ActionFilter = AnyAction | Named(action: Option<string>)

  /** The error raised when no history is registered under a name. */
  datatype LookupError = ComponentLookupError(historyName: string)

  /** The histories an object's adapters provide, by history name. */
  type Registry = map<string, History>

  predicate Accepts(f: ActionFilter, e: Event)
  {
    match f
    case AnyAction => true
    case Named(a) => HasAction(e, a)
  }

  /** Record `i` is accepted by `f` and no later record is. */
  predicate IsNewestMatch(h: History, i: int, f: ActionFilter)
  {
    0 <= i < |h| && Accepts(f, h[i]) && forall j :: i < j < |h| ==> !Accepts(f, h[j])
  }

  /** Scanning from the newest record backwards, the position of the first
      record whose action is `a`. */
  function LastIndexOf(h: History, a: Option<string>): (r: Option<nat>)
    ensures r.None? <==> forall i :: 0 <= i < |h| ==> !HasAction(h[i], a)
    ensures r.Some? ==> IsNewestMatch(h, r.value, Named(a))
  {
    if h == [] then None
    else if HasAction(h[|h| - 1], a) then Some(|h| - 1)
    else
      var r := LastIndexOf(h[..|h| - 1], a);
      assert forall i :: 0 <= i < |h| - 1 ==> h[..|h| - 1][i] == h[i];
      r
  }

  /** getLastAction(obj, action, history_name): the newest record of the
      named history accepted by the filter. An unregistered history name is
      a lookup error; an empty history or no matching record gives nothing. */
  function GetLastAction(reg: Registry, filter: ActionFilter := AnyAction, name: string := "workflow")
    : (r: Result<Option<Event>, LookupError>)
    ensures r.Failure? <==> name !in reg
    ensures r.Failure? ==> r.error == ComponentLookupError(name)
    ensures r.Success? ==>
      (r.value.None? <==> forall i :: 0 <= i < |reg[name]| ==> !Accepts(filter, reg[name][i]))
    ensures r.Success? && r.value.Some? ==>
      exists i :: IsNewestMatch(reg[name], i, filter) && reg[name][i] == r.value.value
  {
    if name !in reg then Failure(ComponentLookupError(name))
    else
      var h := reg[name];
      if h == [] then Success(None)
      else
        match filter
        case AnyAction =>
          assert IsNewestMatch(h, |h| - 1, filter);
          Success(Some(h[|h| - 1]))
        case Named(a) =>
          match LastIndexOf(h, a)
          case None => Success(None)
          case Some(i) => Success(Some(h[i]))
  }

  /** Without a filter, the lookup returns the newest record of the history. */
  lemma LastActionUnfiltered(reg: Registry, name: string)
    requires name in reg && reg[name] != []
    ensures GetLastAction(reg, AnyAction, name) == Success(Some(reg[name][|reg[name]| - 1]))
  {
  }

  /** A record just appended with action `a` is what the lookup for `a`
      finds, whatever came before it: after publish, retract, publish the
      lookup for publish finds the second publish and its comments. */
  lemma LastActionFindsAppended(reg: Registry, name: string, h: History, e: Event, a: Option<string>)
    requires HasAction(e, a)
    ensures GetLastAction(reg[name := h + [e]], Named(a), name) == Success(Some(e))
  {
  }

  /** The `None` filter finds the creation record of a workflow history:
      it is the only record whose action is `None`. */
  lemma LastActionCreation(reg: Registry, name: string)
    requires name in reg && WorkflowShaped(reg[name])
    ensures GetLastAction(reg, Named(None), name) == Success(Some(reg[name][0]))
  {
  }

  /** An action name that no record carries gives nothing, not an error. */
  lemma LastActionUnknown(reg: Registry, name: string, a: string)
    requires name in reg
    requires forall i :: 0 <= i < |reg[name]| ==> !HasAction(reg[name][i], Some(a))
    ensures GetLastAction(reg, Named(Some(a)), name) == Success(None)
  {
  }

  /** An unregistered history name raises a lookup error. */
  lemma LastActionUnknownHistory(reg: Registry, name: string, f: ActionFilter)
    requires name !in reg
    ensures GetLastAction(reg, f, name) == Failure(ComponentLookupError(name))
  {
  }

  /** A registered but empty history gives nothing rather than failing. */
  lemma LastActionEmptyHistory(reg: Registry, name: string, f: ActionFilter)
    requires name in reg && reg[name] == []
    ensures GetLastAction(reg, f, name) == Success(None)
  {
  }
}
