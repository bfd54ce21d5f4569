# emitter-rs listener registry, in Dafny

This project models the core of the `emitter-rs` crate: the `EventEmitter` struct,
whose one field maps each event name to the listeners registered for it, in
registration order. A listener carries an id, an optional call limit (`None` is
unlimited, `Some(0)` is exhausted) and a callback. The operations are:

- `on_limited` appends a listener and returns its id; `on` and `once` call it with `None` and `Some(1)`;
- `emit` dispatches every listener that is not exhausted, decrements positive limits,
  and sweeps the exhausted listeners out; it removes their collected indices from
  the highest down, so the survivors keep their order;
- `remove_listener` removes the first listener with a given id from the first event
  that holds one and says whether it found one;
- `sync_emit` calls every listener of the event in order and changes nothing.

Layout:

- `registry.dfy` (module `Registry`) holds the values: `Listener`, `Invocation`, the
  `u64` limit type and the `Listeners` map. It also holds the functions that state what
  one emission means. `Live` is the listeners that are dispatched. `Fired` is the
  invocations scheduled. `Swept` is the listeners that are left. `Rounds` is the result
  of several emissions, and `RemoveFirst` is the result of a removal. Beside them are
  the lemmas about these functions.
- `event_emitter.dfy` (module `Emitter`) holds the class `EventEmitter`. Its `listeners`
  field is the map, and the methods update it in place with loops. Each method is
  proved against the functions of `Registry`.
- `scenarios.dfy` (module `Scenarios`) replays the tests in `tests/core.rs` and the
  `sync_emit` documentation example on a fresh emitter, for any callbacks, ids and
  payloads. Two are extended: the removal scenario removes the id a second time, and
  the `sync_emit` scenario adds an exhausted listener and calls `sync_emit` twice.
  Each scenario is proved from the methods' contracts and the lemmas of `Registry`.

A dispatched callback is recorded as an `Invocation(listener id, callback tag,
payload)` in the sequence that `Emit` and `SyncEmit` return. The order of that
sequence is the order in which the source spawns threads, or calls listeners for
`sync_emit`. The payload is the serialized value, and it reaches every listener
unchanged. `on_limited` draws a fresh UUID; in the model the id is the parameter
`freshId`. Whether ids are unique is stated as the registry predicate `UniqueIds`,
and each operation is proved to keep it. The registration methods keep it when
`freshId` is not registered yet.

## Model

| member | source | states |
|---|---|---|
| Emitter.EventEmitter.constructor | src/event_emitter.rs:37-39 | a new emitter has no event entries |
| Emitter.EventEmitter.OnLimited | src/event_emitter.rs:243-269 | returns the fresh id; the event's sequence becomes the old one (empty if the event had no entry) plus exactly one listener with that id, limit and callback at the end; every other event is unchanged; id uniqueness is kept when the id is new |
| Emitter.EventEmitter.On | src/event_emitter.rs:62-68 | the same as `OnLimited` with limit `None` |
| Emitter.EventEmitter.Once | src/event_emitter.rs:293-299 | the same as `OnLimited` with limit `Some(1)` |
| Emitter.EventEmitter.Emit | src/event_emitter.rs:86-129 | an event with no entry: map unchanged, nothing dispatched; otherwise only that event's sequence changes, it becomes `Swept` of the old one, the dispatched sequence is `Fired` of the old one, and id uniqueness is kept |
| Emitter.Schedule | src/event_emitter.rs:95-117 | the scheduling loop dispatches exactly `Fired`, leaves every listener `Decremented` in place, and collects, in increasing order, exactly the indices of the exhausted listeners |
| Emitter.RemoveMarked | src/event_emitter.rs:119-121 | removing strictly increasing indices from the last one down deletes exactly the marked positions and keeps the order of the rest |
| Emitter.EventEmitter.RemoveListener | src/event_emitter.rs:207-219 | returns `None` exactly when the id is registered nowhere, and then nothing changes; otherwise it returns `Some(id)`, and one event that held the id loses its first listener with that id while every other sequence is unchanged; with unique ids the id is then registered nowhere, so a second call returns `None` |
| Emitter.Position | src/event_emitter.rs:209-211 | `None` exactly when no listener has the id; otherwise the index of the first listener that has it |
| Emitter.EventEmitter.SyncEmit | src/event_emitter.rs:323-335 | reads only: an event with no entry calls nothing; otherwise it calls every listener of the event once, in registration order, exhausted ones included, each with the same payload |
| Registry.Decremented | src/event_emitter.rs:100-114 | one scheduling step keeps the listener's id and callback; an unlimited listener is unchanged; a positive limit drops by one; the listener is exhausted afterwards exactly when its limit was `Some(0)` or `Some(1)` |
| Registry.Live | src/event_emitter.rs:96-117 | the dispatched listeners are at most as many as the registered ones, and none of them is exhausted |
| Registry.LiveNoneExhausted | src/event_emitter.rs:96-117 | when no listener is exhausted, every listener is dispatched, in registration order |
| Registry.Fired | src/event_emitter.rs:96-117 | one invocation per dispatched listener, never more than the listeners, each carrying the emitted payload |
| Registry.Swept | src/event_emitter.rs:96-121 | one survivor per dispatched listener, never more than the listeners, each with the id and callback of the dispatched listener at its position |
| Registry.Rounds | src/event_emitter.rs:86-121 | repeated emissions never grow an event's sequence |
| Registry.RemoveFirst | src/event_emitter.rs:209-213 | removal removes at most one listener |
| Registry.LiveConcat | src/event_emitter.rs:96-121 | the listeners an emission keeps or dispatches are chosen one by one, so concatenation is preserved and the survivors keep their relative order |
| Registry.LiveMembers | src/event_emitter.rs:100-117 | a listener is dispatched exactly when it is registered and its limit is not `Some(0)` |
| Registry.FiredSnoc | src/event_emitter.rs:96-117 | one more listener at the end adds an invocation of it at the end of the dispatch order, or none if it is exhausted |
| Registry.EmitSingle | src/event_emitter.rs:96-121 | an event with one listener: the listener is dispatched and decremented, or, if exhausted, not dispatched and removed |
| Registry.SweptAsFilter | src/event_emitter.rs:100-121 | decrementing in place, then deleting the marked exhausted listeners, leaves exactly `Swept` |
| Registry.FilterPrefix | src/event_emitter.rs:119-121 | deleting only positions after an unmarked prefix leaves that prefix in front, unchanged |
| Registry.FilterSplit | src/event_emitter.rs:119-121 | deleting the position of a marked index, when no earlier position is marked, equals marking it as well; this is why the reverse order of removal is correct |
| Registry.SweptMatchesFired | src/event_emitter.rs:96-121 | the survivors and the invocations name the same listeners in the same order |
| Registry.LiveUnique | src/event_emitter.rs:96-117 | the dispatched listeners of a sequence with unique ids have unique ids |
| Registry.SweptUnique | src/event_emitter.rs:100-121 | emission keeps the ids of an event's listeners unique |
| Registry.SweptIdsRegistered | src/event_emitter.rs:100-121 | every listener left after an emission was registered before it |
| Registry.EmitTracksListener | src/event_emitter.rs:100-121 | an unlimited listener is dispatched and kept unchanged; a `Some(n)` listener with n > 0 is dispatched and kept with `Some(n - 1)`; with unique ids a `Some(0)` listener is neither dispatched nor kept |
| Registry.LimitedCountdown | src/event_emitter.rs:106-115 | after j <= k emissions a listener registered with `Some(k)` is still present with `Some(k - j)`, and ids stay unique |
| Registry.LimitedLifecycle | src/event_emitter.rs:106-121 | a listener registered with `Some(k)` is dispatched on each of the first k emissions, is not dispatched on emission k + 1, and is gone after it |
| Registry.RemoveFirstAt | src/event_emitter.rs:209-213 | removing the first match equals deleting the first index whose id matches |
| Registry.RemoveFirstAbsent | src/event_emitter.rs:207-218 | removing an id that is not present changes nothing |
| Registry.RemoveFirstLength | src/event_emitter.rs:209-213 | removing a present id removes exactly one listener |
| Registry.RemoveFirstIds | src/event_emitter.rs:209-213 | removal introduces no id |
| Registry.RemoveFirstUnique | src/event_emitter.rs:209-213 | with unique ids, the removed id is absent afterwards and the remaining ids stay unique |
| Registry.AppendKeepsUnique | src/event_emitter.rs:248-267 | registering a listener with a new id keeps ids unique across the whole registry |
| Registry.ReplaceKeepsUnique | src/event_emitter.rs:119-121 | replacing one event's sequence by a uniquely-identified sequence of ids it already held keeps ids unique across the registry |
| Registry.RemoveKeepsUnique | src/event_emitter.rs:207-215 | with unique ids, removal keeps ids unique and leaves the id registered nowhere |
| Scenarios.OnThenEmit | tests/core.rs:19-24 | registering an unlimited listener on an event with no entry and emitting on it dispatches exactly that listener with the payload, and leaves it registered alone on that event |
| Scenarios.OnScenario | tests/core.rs:14-51 | an unlimited listener receives the emitted payload; a listener on another event receives that event's payload |
| Scenarios.RemoveScenario | tests/core.rs:53-76 | removing an unknown id leaves the one listener; removing its id returns it and leaves the event's sequence empty; removing it again returns `None` |
| Scenarios.EmitOnSingle | tests/core.rs:78-139 | emitting on an event whose only listener is `l` dispatches and decrements `l`, or removes it undispatched when exhausted, and changes no other event |
| Scenarios.OnLimitedScenario | tests/core.rs:78-139 | a listener limited to 2 reads limits 2, 1 and 0, receives the first two payloads, and is gone after the third emission, which dispatches nothing |
| Scenarios.OnceScenario | tests/core.rs:141-164 | a `once` listener receives the first emission only |
| Scenarios.SyncEmitScenario | src/event_emitter.rs:301-335 | `sync_emit` calls the listeners in registration order, an exhausted one included, and a second call does the same |

## Left out

- Thread spawning and joining (`thread::spawn`, `join`, and the `eprintln!` on a join error) are not modelled. A scheduled call is an entry in the returned `Invocation` sequence, and listener bodies and their concurrency are left out.
- The WebAssembly `emit` (`spawn_local`, no join) does the same registry bookkeeping as the native one. The model has one `Emit` for both.
- `serde_json` encoding and decoding, and their `unwrap` panics, are left out. The payload is an opaque byte sequence that reaches each listener unchanged.
- `Uuid::new_v4` is random and foreign. The model takes the id as the parameter `freshId`.
- `Arc` sharing of callbacks is left out. A callback is an opaque tag.
- The `lazy_static` `Mutex` singleton in `src/event_emitter_file.rs` is left out, because it is a locking wrapper with no logic. `src/lib.rs` holds only re-exports.
- `HashMap` iteration order in `remove_listener` is unspecified. The model picks any remaining event, so its contract is "some event that holds the id". With unique ids only one such event exists.
- In the source, emit's two loops are inline and mutate the `Vec` in place. In the model they are the methods `Schedule` and `RemoveMarked`, which work on the sequence's value; `Emit` writes the result back into the map.
- Registry.LimitedLifecycle: covers successive emissions of the event only, with no removal of the listener between them. Registrations in between only append at the end, so they do not change the listener's countdown; the lemma does not state this.
