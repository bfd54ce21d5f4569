/**
 `EventEmitter`: a registry of listeners per event name, with registration, removal
 by id, emission that honours and updates call limits, and synchronous emission.
 A dispatched callback is recorded as an `Invocation` in the returned sequence, in
 the order emit schedules it; the callback bodies themselves are opaque.
 */
module Emitter {
  import opened Registry

  /** The index of the first listener of `s` whose id is `id`, as `Iterator::position` finds it. */
  method Position(s: seq<Listener>, id: ListenerId) returns (r: Option<nat>)
    ensures r.None? <==> !Contains(s, id)
    ensures r.Some? ==> r.value < |s| && s[r.value].id == id
    ensures r.Some? ==> forall j :: 0 <= j < r.value ==> s[j].id != id
  {
    var i := 0;
    while i < |s|
      invariant 0 <= i <= |s|
      invariant forall j :: 0 <= j < i ==> s[j].id != id
    {
      if s[i].id == id {
        return Some(i);
      }
      i := i + 1;
    }
    return None;
  }

  /**
   The scheduling loop of emit over one event's listeners: dispatches each listener
   that is not exhausted, in order, decrementing a positive limit in place, and
   collects the indices of exhausted listeners in increasing order.
   */
  method Schedule(ls: seq<Listener>, payload: Payload)
    returns (dispatched: seq<Invocation>, updated: seq<Listener>, toRemove: seq<nat>)
    ensures dispatched == Fired(ls, payload)
    ensures |updated| == |ls| && forall k :: 0 <= k < |ls| ==> updated[k] == Decremented(ls[k])
    ensures forall a, b :: 0 <= a < b < |toRemove| ==> toRemove[a] < toRemove[b]
    ensures forall t :: 0 <= t < |toRemove| ==> toRemove[t] < |ls|
    ensures forall k :: 0 <= k < |ls| ==> (Exhausted(ls[k]) <==> k in toRemove)
  {
    dispatched, updated, toRemove := [], ls, [];
    var i := 0;
    while i < |updated|
      invariant 0 <= i <= |updated| == |ls|
      invariant forall k :: 0 <= k < i ==> updated[k] == Decremented(ls[k])
      invariant forall k :: i <= k < |ls| ==> updated[k] == ls[k]
      invariant dispatched == Fired(ls[..i], payload)
      invariant forall a, b :: 0 <= a < b < |toRemove| ==> toRemove[a] < toRemove[b]
      invariant forall t :: 0 <= t < |toRemove| ==> toRemove[t] < i
      invariant forall k :: 0 <= k < i ==> (Exhausted(ls[k]) <==> k in toRemove)
    {
      var listener := updated[i];
      FiredSnoc(ls[..i], ls[i], payload);
      assert ls[..i + 1] == ls[..i] + [ls[i]];
      match listener.limit {
        case None =>
          dispatched := dispatched + [Invoke(listener, payload)];
        case Some(limit) =>
          if limit != 0 {
            dispatched := dispatched + [Invoke(listener, payload)];
            updated := updated[i := listener.(limit := Some(limit - 1))];
          } else {
            toRemove := toRemove + [i];
          }
      }
      i := i + 1;
    }
    assert ls[..|ls|] == ls;
  }

  /** The flags of the indices listed in `toRemove`, one per listener. */
  ghost function Marks(n: nat, toRemove: seq<nat>): seq<bool> {
    seq(n, k => k in toRemove)
  }

  /**
   The removal loop of emit: deletes the listeners at the strictly increasing
   indices `toRemove`, from the last index down, so the indices still to be
   deleted keep pointing at the same listeners and the survivors keep their order.
   */
  method RemoveMarked(s: seq<Listener>, toRemove: seq<nat>) returns (r: seq<Listener>)
    requires forall a, b :: 0 <= a < b < |toRemove| ==> toRemove[a] < toRemove[b]
    requires forall t :: 0 <= t < |toRemove| ==> toRemove[t] < |s|
    ensures r == Filter(s, Marks(|s|, toRemove))
  {
    r := s;
    ghost var removed: seq<bool> := seq(|s|, _ => false);
    FilterNoneDropped(s, removed);
    var j := |toRemove|;
    while j > 0
      invariant 0 <= j <= |toRemove|
      invariant |removed| == |s|
      invariant forall k :: 0 <= k < |s| ==> (removed[k] <==> k in toRemove[j..])
      invariant r == Filter(s, removed)
    {
      j := j - 1;
      var index := toRemove[j];
      FilterSplit(s, removed, index);
      r := r[..index] + r[index + 1..];
      removed := removed[index := true];
    }
    assert toRemove[0..] == toRemove;
    assert removed == Marks(|s|, toRemove);
  }

  class EventEmitter {
    var listeners: Listeners

    /** `EventEmitter::new`: no event has listeners. */
    constructor ()
      ensures listeners == map[]
    {
      listeners := map[];
    }

    /**
     Appends a listener with `limit` to the end of `event`'s sequence, creating the
     sequence if there is none, and returns its id. `freshId` stands for the UUID
     the source draws at registration.
     */
    method OnLimited(event: EventName, limit: Option<u64>, callback: Callback, freshId: ListenerId)
      returns (id: ListenerId)
      modifies this
      ensures id == freshId
      ensures listeners == old(listeners)[event := Bucket(old(listeners), event) + [Listener(id, limit, callback)]]
      ensures old(UniqueIds(listeners)) && !old(Registered(listeners, freshId)) ==> UniqueIds(listeners)
    {
      id := freshId;
      var listener := Listener(id, limit, callback);
      if event in listeners {
        listeners := listeners[event := listeners[event] + [listener]];
      } else {
        listeners := listeners[event := [listener]];
        assert Bucket(old(listeners), event) + [listener] == [listener];
      }
      if UniqueIds(old(listeners)) && !Registered(old(listeners), freshId) {
        AppendKeepsUnique(old(listeners), event, listener);
      }
    }

    /** `on`: a listener without a limit. */
    method On(event: EventName, callback: Callback, freshId: ListenerId) returns (id: ListenerId)
      modifies this
      ensures id == freshId
      ensures listeners == old(listeners)[event := Bucket(old(listeners), event) + [Listener(id, None, callback)]]
      ensures old(UniqueIds(listeners)) && !old(Registered(listeners, freshId)) ==> UniqueIds(listeners)
    {
      id := OnLimited(event, None, callback, freshId);
    }

    /** `once`: a listener with a limit of one call. */
    method Once(event: EventName, callback: Callback, freshId: ListenerId) returns (id: ListenerId)
      modifies this
      ensures id == freshId
      ensures listeners == old(listeners)[event := Bucket(old(listeners), event) + [Listener(id, Some(1), callback)]]
      ensures old(UniqueIds(listeners)) && !old(Registered(listeners, freshId)) ==> UniqueIds(listeners)
    {
      id := OnLimited(event, Some(1), callback, freshId);
    }

    /**
     Emits `payload` on `event`. The scheduling loop dispatches every listener that
     is not exhausted, decrements positive limits in place and collects the indices
     of exhausted listeners; those are then removed from the highest index down.
     No other event's sequence changes; an event without an entry is left alone.
     */
    method Emit(event: EventName, payload: Payload) returns (dispatched: seq<Invocation>)
      modifies this
      ensures event !in old(listeners) ==> listeners == old(listeners) && dispatched == []
      ensures event in old(listeners) ==>
        listeners == old(listeners)[event := Swept(old(listeners)[event])] &&
        dispatched == Fired(old(listeners)[event], payload)
      ensures old(UniqueIds(listeners)) ==> UniqueIds(listeners)
    {
      dispatched := [];
      if event !in listeners {
        return;
      }
      var ls := listeners[event];
      var updated, toRemove;
      dispatched, updated, toRemove := Schedule(ls, payload);
      var survivors := RemoveMarked(updated, toRemove);
      SweptAsFilter(ls, updated, Marks(|updated|, toRemove));
      listeners := listeners[event := survivors];
      if UniqueIds(old(listeners)) {
        SweptUnique(ls);
        SweptIdsRegistered(ls);
        ReplaceKeepsUnique(old(listeners), event, survivors);
      }
    }
    /**
     Removes the first listener whose id is `idToDelete` from the first event, in an
     unspecified order of events, that holds one. With unique ids the id is then
     registered nowhere, so a second call returns `None`.
     */
    method RemoveListener(idToDelete: ListenerId) returns (r: Option<ListenerId>)
      modifies this
      ensures r.None? <==> !old(Registered(listeners, idToDelete))
      ensures r.None? ==> listeners == old(listeners)
      ensures r.Some? ==>
        r.value == idToDelete &&
        exists e :: e in old(listeners) && Contains(old(listeners)[e], idToDelete) &&
          listeners == old(listeners)[e := RemoveFirst(old(listeners)[e], idToDelete)]
      ensures old(UniqueIds(listeners)) ==> UniqueIds(listeners) && !Registered(listeners, idToDelete)
    {
      var events := listeners.Keys;
      while events != {}
        invariant events <= listeners.Keys
        invariant listeners == old(listeners)
        invariant forall e :: e in listeners && e !in events ==> !Contains(listeners[e], idToDelete)
        decreases events
      {
        var event :| event in events;
        var s := listeners[event];
        var position := Position(s, idToDelete);
        if position.Some? {
          RemoveFirstAt(s, idToDelete, position.value);
          listeners := listeners[event := s[..position.value] + s[position.value + 1..]];
          if UniqueIds(old(listeners)) {
            RemoveKeepsUnique(old(listeners), event, idToDelete);
          }
          return Some(idToDelete);
        }
        events := events - {event};
      }
      return None;
    }

    /**
     Calls every listener of `event` in registration order, exhausted ones included,
     without touching limits or the registry.
     */
    method SyncEmit(event: EventName, payload: Payload) returns (dispatched: seq<Invocation>)
      ensures event !in listeners ==> dispatched == []
      ensures event in listeners ==>
        |dispatched| == |listeners[event]| &&
        forall i :: 0 <= i < |dispatched| ==> dispatched[i] == Invoke(listeners[event][i], payload)
    {
      dispatched := [];
      if event in listeners {
        var ls := listeners[event];
        var i := 0;
        while i < |ls|
          invariant 0 <= i <= |ls|
          invariant |dispatched| == i
          invariant forall k :: 0 <= k < i ==> dispatched[k] == Invoke(ls[k], payload)
        {
          dispatched := dispatched + [Invoke(ls[i], payload)];
          i := i + 1;
        }
      }
    }
  }
}
