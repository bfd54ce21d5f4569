/**
 The behaviour the repository's tests and documentation examples exercise, stated
 for any callback tags, ids and payloads, and derived from the contracts of
 `EventEmitter` alone.
 */
module Scenarios {
  import opened Registry
  import opened Emitter

  /**
   Registers an unlimited listener on an event that has no entry yet and emits on
   it: the listener receives the payload and stays registered, and no other event
   changes.
   */
  method OnThenEmit(e: EventEmitter, event: EventName, cb: Callback, id: ListenerId, p: Payload)
    returns (d: seq<Invocation>)
    requires event !in e.listeners
    modifies e
    ensures d == [Invocation(id, cb, p)]
    ensures e.listeners == old(e.listeners)[event := [Listener(id, None, cb)]]
  {
    var l := Listener(id, None, cb);
    var a := e.On(event, cb, id);
    assert [] + [l] == [l];
    assert e.listeners == old(e.listeners)[event := [l]];
    EmitSingle(l, p);
    d := e.Emit(event, p);
  }

  /** An unlimited listener receives the emitted payload; a second event is independent. */
  method OnScenario(cb1: Callback, cb2: Callback, id1: ListenerId, id2: ListenerId, p1: Payload, p2: Payload)
    returns (d1: seq<Invocation>, d2: seq<Invocation>)
    ensures d1 == [Invocation(id1, cb1, p1)]
    ensures d2 == [Invocation(id2, cb2, p2)]
  {
    var e := new EventEmitter();
    d1 := OnThenEmit(e, "Set", cb1, id1, p1);
    d2 := OnThenEmit(e, "Add Value To List", cb2, id2, p2);
  }

  /** Removing an unknown id changes nothing; removing a registered one empties its event. */
  method RemoveScenario(cb: Callback, id: ListenerId)
    returns (len1: nat, r1: Option<ListenerId>, len2: nat, r2: Option<ListenerId>, len3: nat, r3: Option<ListenerId>)
    requires id != "foobar"
    ensures len1 == 1 && r1 == None && len2 == 1
    ensures r2 == Some(id) && len3 == 0
    ensures r3 == None
  {
    var e := new EventEmitter();
    var listenerId := e.On("Hello rust!", cb, id);
    assert [] + [Listener(id, None, cb)] == [Listener(id, None, cb)];
    assert e.listeners == map["Hello rust!" := [Listener(id, None, cb)]];
    assert e.listeners["Hello rust!"][0].id == id;
    assert !Registered(e.listeners, "foobar");
    assert UniqueIds(e.listeners);
    len1 := |e.listeners["Hello rust!"]|;
    r1 := e.RemoveListener("foobar");
    len2 := |e.listeners["Hello rust!"]|;
    r2 := e.RemoveListener(listenerId);
    len3 := |e.listeners["Hello rust!"]|;
    r3 := e.RemoveListener(listenerId);
  }

  /**
   Emits on an event whose only listener is `l`: `l` is dispatched and decremented,
   or, when exhausted, not dispatched and removed; no other event changes.
   */
  method EmitOnSingle(e: EventEmitter, event: EventName, l: Listener, p: Payload)
    returns (d: seq<Invocation>)
    requires event in e.listeners && e.listeners[event] == [l]
    modifies e
    ensures d == if Exhausted(l) then [] else [Invoke(l, p)]
    ensures e.listeners == old(e.listeners)[event := if Exhausted(l) then [] else [Decremented(l)]]
  {
    EmitSingle(l, p);
    d := e.Emit(event, p);
  }

  /**
   A listener limited to two calls: its limit reads 2, 1, 0 after 0, 1, 2 emissions,
   it receives the first two payloads, and the third emission removes it, leaving
   the event's sequence empty.
   */
  method OnLimitedScenario(cb: Callback, id: ListenerId, p1: Payload, p2: Payload, p3: Payload)
    returns (limits: seq<Option<u64>>, d1: seq<Invocation>, d2: seq<Invocation>, d3: seq<Invocation>, len: nat)
    ensures limits == [Some(2), Some(1), Some(0)]
    ensures d1 == [Invocation(id, cb, p1)] && d2 == [Invocation(id, cb, p2)] && d3 == []
    ensures len == 0
  {
    var e := new EventEmitter();
    var listenerId := e.OnLimited("Set", Some(2), cb, id);
    assert e.listeners["Set"] == [Listener(id, Some(2), cb)];
    limits := [e.listeners["Set"][0].limit];
    d1 := EmitOnSingle(e, "Set", Listener(id, Some(2), cb), p1);
    limits := limits + [e.listeners["Set"][0].limit];
    d2 := EmitOnSingle(e, "Set", Listener(id, Some(1), cb), p2);
    limits := limits + [e.listeners["Set"][0].limit];
    d3 := EmitOnSingle(e, "Set", Listener(id, Some(0), cb), p3);
    len := |e.listeners["Set"]|;
  }

  /** A `once` listener receives the first emission only. */
  method OnceScenario(cb: Callback, id: ListenerId, p1: Payload, p2: Payload)
    returns (d1: seq<Invocation>, d2: seq<Invocation>)
    ensures d1 == [Invocation(id, cb, p1)]
    ensures d2 == []
  {
    var e := new EventEmitter();
    var listenerId := e.Once("Set Once", cb, id);
    assert e.listeners["Set Once"] == [Listener(id, Some(1), cb)];
    d1 := EmitOnSingle(e, "Set Once", Listener(id, Some(1), cb), p1);
    d2 := EmitOnSingle(e, "Set Once", Listener(id, Some(0), cb), p2);
  }

  /**
   `sync_emit` calls listeners in registration order and, unlike emit, calls an
   exhausted listener too and leaves its limit alone.
   */
  method SyncEmitScenario(cb1: Callback, cb2: Callback, cb3: Callback, id1: ListenerId, id2: ListenerId, id3: ListenerId, p: Payload)
    returns (d: seq<Invocation>, again: seq<Invocation>)
    ensures d == [Invocation(id1, cb1, p), Invocation(id2, cb2, p), Invocation(id3, cb3, p)]
    ensures again == d
  {
    var e := new EventEmitter();
    var a := e.On("some_event", cb1, id1);
    var b := e.On("some_event", cb2, id2);
    var c := e.OnLimited("some_event", Some(0), cb3, id3);
    assert e.listeners["some_event"] == [Listener(id1, None, cb1), Listener(id2, None, cb2), Listener(id3, Some(0), cb3)];
    d := e.SyncEmit("some_event", p);
    again := e.SyncEmit("some_event", p);
  }
}
