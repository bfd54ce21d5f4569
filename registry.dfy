/**
 The values of the listener registry of `EventEmitter`: listeners with their
 optional call limits, the map from event name to the ordered listener sequence,
 and the pure functions that say what one emission does to one event's listeners
 (which are dispatched, which survive, with which limits).
 */
module Registry {

  /** Rust's `u64`, the type of a listener's remaining-call counter. */
  newtype u64 = x: int | 0 <= x < 0x1_0000_0000_0000_0000

  datatype Option<T> = None | Some(value: T)

  type EventName = string
  type ListenerId = string

  /** An opaque tag standing for a listener's callback closure. */
  type Callback = nat

  /** The serialized value of one emission, handed unchanged to every dispatched listener. */
  type Payload = seq<bv8>

  /** A registered listener: `None` limit is unlimited, `Some(0)` is exhausted. */
  datatype Listener = Listener(id: ListenerId, limit: Option<u64>, callback: Callback)

  /** One call of a listener's callback: scheduled by emit, performed by sync_emit. */
  datatype Invocation = Invocation(listener: ListenerId, callback: Callback, payload: Payload)

  /** The `listeners` field: event name to listeners in registration order. */
  type Listeners = map<EventName, seq<Listener>>

  predicate Exhausted(l: Listener) {
    l.limit == Some(0)
  }

  function Invoke(l: Listener, payload: Payload): Invocation {
    Invocation(l.id, l.callback, payload)
  }

  /** The listener as the scheduling loop of emit leaves it: a positive limit goes down by one. */
  function Decremented(l: Listener): (r: Listener)
    ensures r.id == l.id && r.callback == l.callback
    ensures l.limit.None? ==> r == l
    ensures Exhausted(r) <==> l.limit == Some(0) || l.limit == Some(1)
    ensures l.limit.Some? && l.limit.value > 0 ==> r.limit == Some(l.limit.value - 1)
  {
    match l.limit
    case None => l
    case Some(n) => if n == 0 then l else l.(limit := Some(n - 1))
  }

  /** The listeners one emission dispatches: those not exhausted, in registration order. */
  function Live(ls: seq<Listener>): (r: seq<Listener>)
    ensures |r| <= |ls|
    ensures forall i :: 0 <= i < |r| ==> !Exhausted(r[i])
  {
    if ls == [] then [] else (if Exhausted(ls[0]) then [] else [ls[0]]) + Live(ls[1..])
  }

  /** What one emission of `payload` schedules, in scheduling order. */
  function Fired(ls: seq<Listener>, payload: Payload): (r: seq<Invocation>)
    ensures |r| == |Live(ls)| <= |ls|
    ensures forall i :: 0 <= i < |r| ==> r[i].payload == payload
  {
    var live := Live(ls);
    seq(|live|, i requires 0 <= i < |live| => Invoke(live[i], payload))
  }

  /** The event's listeners after one emission: the live ones, each with its limit decremented. */
  function Swept(ls: seq<Listener>): (r: seq<Listener>)
    ensures |r| == |Live(ls)| <= |ls|
    ensures forall i :: 0 <= i < |r| ==> r[i].id == Live(ls)[i].id && r[i].callback == Live(ls)[i].callback
  {
    var live := Live(ls);
    seq(|live|, i requires 0 <= i < |live| => Decremented(live[i]))
  }

  /** An event's listeners after `n` emissions with no registration or removal in between. */
  function Rounds(ls: seq<Listener>, n: nat): (r: seq<Listener>)
    ensures |r| <= |ls|
  {
    if n == 0 then ls else Swept(Rounds(ls, n - 1))
  }

  /** The elements of `s` whose `drop` flag is false, in order. */
  function Filter<T>(s: seq<T>, drop: seq<bool>): seq<T>
    requires |drop| == |s|
  {
    if s == [] then [] else (if drop[0] then [] else [s[0]]) + Filter(s[1..], drop[1..])
  }

  /** `s` without its first listener whose id is `id` (all of `s` if there is none). */
  function RemoveFirst(s: seq<Listener>, id: ListenerId): (r: seq<Listener>)
    ensures |s| - 1 <= |r| <= |s|
  {
    if s == [] then []
    else if s[0].id == id then s[1..]
    else [s[0]] + RemoveFirst(s[1..], id)
  }

  /** The sequence registered for `event`, empty when the map has no entry. */
  function Bucket(reg: Listeners, event: EventName): seq<Listener> {
    if event in reg then reg[event] else []
  }

  predicate Contains(s: seq<Listener>, id: ListenerId) {
    exists i :: 0 <= i < |s| && s[i].id == id
  }

  predicate Registered(reg: Listeners, id: ListenerId) {
    exists e :: e in reg && Contains(reg[e], id)
  }

  predicate UniqueSeq(s: seq<Listener>) {
    forall i, j :: 0 <= i < |s| && 0 <= j < |s| && s[i].id == s[j].id ==> i == j
  }

  /** No id occurs twice in the whole registry, whether under one event name or two. */
  predicate UniqueIds(reg: Listeners) {
    forall e1, e2, i, j ::
      e1 in reg && e2 in reg && 0 <= i < |reg[e1]| && 0 <= j < |reg[e2]| && reg[e1][i].id == reg[e2][j].id
      ==> e1 == e2 && i == j
  }

  // ---------------------------------------------------------------- emission

  /** Survivors are picked independently on both sides of a split, so their order is kept. */
  lemma {:induction false} LiveConcat(a: seq<Listener>, b: seq<Listener>)
    ensures Live(a + b) == Live(a) + Live(b)
  {
    if a == [] {
      assert a + b == b;
    } else {
      assert (a + b)[1..] == a[1..] + b;
      LiveConcat(a[1..], b);
    }
  }

  /** A listener is dispatched by emit if and only if it is registered and not exhausted. */
  lemma {:induction false} LiveMembers(ls: seq<Listener>)
    ensures forall l :: l in Live(ls) <==> l in ls && !Exhausted(l)
  {
    if ls != [] {
      LiveMembers(ls[1..]);
      assert ls == [ls[0]] + ls[1..];
    }
  }

  /** With no exhausted listener, every listener is dispatched, in order. */
  lemma {:induction false} LiveNoneExhausted(ls: seq<Listener>)
    requires forall i :: 0 <= i < |ls| ==> !Exhausted(ls[i])
    ensures Live(ls) == ls
  {
    if ls != [] {
      assert forall i :: 0 <= i < |ls| - 1 ==> ls[1..][i] == ls[i + 1];
      LiveNoneExhausted(ls[1..]);
      assert ls == [ls[0]] + ls[1..];
    }
  }

  /** Emitting a sequence with one more listener schedules that listener last, unless it is exhausted. */
  lemma FiredSnoc(s: seq<Listener>, x: Listener, payload: Payload)
    ensures Fired(s + [x], payload) == Fired(s, payload) + (if Exhausted(x) then [] else [Invoke(x, payload)])
  {
    LiveConcat(s, [x]);
    assert Live([x]) == if Exhausted(x) then [] else [x] by {
      assert [x][1..] == [];
    }
  }

  lemma LiveSingle(l: Listener)
    ensures Live([l]) == if Exhausted(l) then [] else [l]
  {
  }

  /** Emission on an event with a single listener. */
  lemma EmitSingle(l: Listener, payload: Payload)
    ensures Fired([l], payload) == if Exhausted(l) then [] else [Invoke(l, payload)]
    ensures Swept([l]) == if Exhausted(l) then [] else [Decremented(l)]
  {
    LiveSingle(l);
  }

  lemma SweptCons(ls: seq<Listener>)
    requires ls != []
    ensures Swept(ls) == (if Exhausted(ls[0]) then [] else [Decremented(ls[0])]) + Swept(ls[1..])
  {
    var head := if Exhausted(ls[0]) then [] else [ls[0]];
    var tail := Live(ls[1..]);
    assert Live(ls) == head + tail;
    var r := (if Exhausted(ls[0]) then [] else [Decremented(ls[0])]) + Swept(ls[1..]);
    forall i | 0 <= i < |r| ensures Swept(ls)[i] == r[i] {
      assert Live(ls)[i] == if i < |head| then head[i] else tail[i - |head|];
    }
  }

  /**
   The two-phase sweep of emit (mark exhausted listeners and decrement the others
   in place, then delete the marked ones) leaves exactly Swept.
   */
  lemma {:induction false} SweptAsFilter(orig: seq<Listener>, mid: seq<Listener>, marked: seq<bool>)
    requires |mid| == |orig| && |marked| == |orig|
    requires forall k :: 0 <= k < |orig| ==> mid[k] == Decremented(orig[k]) && (marked[k] <==> Exhausted(orig[k]))
    ensures Filter(mid, marked) == Swept(orig)
  {
    if orig != [] {
      SweptCons(orig);
      SweptAsFilter(orig[1..], mid[1..], marked[1..]);
    }
  }

  lemma {:induction false} FilterNoneDropped<T>(s: seq<T>, drop: seq<bool>)
    requires |drop| == |s| && forall i :: 0 <= i < |s| ==> !drop[i]
    ensures Filter(s, drop) == s
  {
    if s != [] {
      FilterNoneDropped(s[1..], drop[1..]);
      assert s == [s[0]] + s[1..];
    }
  }

  /** An unmarked prefix passes through Filter unchanged. */
  lemma {:induction false} FilterPrefix<T>(s: seq<T>, drop: seq<bool>, k: nat)
    requires |drop| == |s| && k <= |s|
    requires forall i :: 0 <= i < k ==> !drop[i]
    ensures Filter(s, drop) == s[..k] + Filter(s[k..], drop[k..])
  {
    if k > 0 {
      FilterPrefix(s[1..], drop[1..], k - 1);
      assert s[1..][k - 1..] == s[k..];
      assert drop[1..][k - 1..] == drop[k..];
      assert s[..k] == [s[0]] + s[1..][..k - 1];
    }
  }

  /**
   Deleting position `k` when nothing at or before `k` is marked: what the reverse
   loop over the marked indices relies on.
   */
  lemma FilterSplit<T>(s: seq<T>, drop: seq<bool>, k: nat)
    requires |drop| == |s| && k < |s|
    requires forall i :: 0 <= i <= k ==> !drop[i]
    ensures Filter(s, drop) == s[..k + 1] + Filter(s[k + 1..], drop[k + 1..])
    ensures Filter(s, drop[k := true]) == s[..k] + Filter(s[k + 1..], drop[k + 1..])
  {
    FilterKeepAt(s, drop, k);
    FilterDropAt(s, drop, k);
  }

  lemma FilterKeepAt<T>(s: seq<T>, drop: seq<bool>, k: nat)
    requires |drop| == |s| && k < |s|
    requires forall i :: 0 <= i <= k ==> !drop[i]
    ensures Filter(s, drop) == s[..k + 1] + Filter(s[k + 1..], drop[k + 1..])
  {
    FilterPrefix(s, drop, k + 1);
  }

  lemma FilterDropAt<T>(s: seq<T>, drop: seq<bool>, k: nat)
    requires |drop| == |s| && k < |s|
    requires forall i :: 0 <= i < k ==> !drop[i]
    ensures Filter(s, drop[k := true]) == s[..k] + Filter(s[k + 1..], drop[k + 1..])
  {
    var marked := drop[k := true];
    assert forall i :: 0 <= i < k ==> !marked[i];
    FilterPrefix(s, marked, k);
    var tail, flags := s[k..], marked[k..];
    assert flags[0];
    assert tail[1..] == s[k + 1..];
    assert flags[1..] == drop[k + 1..];
  }

  /**
   Dispatch and survival carry the same listeners in the same order. Dafny proves
   this directly from `Swept` and `Fired` being built over the same `Live`; it is
   kept to state the correspondence.
   */
  lemma SweptMatchesFired(ls: seq<Listener>, payload: Payload)
    ensures |Swept(ls)| == |Fired(ls, payload)|
    ensures forall i :: 0 <= i < |Swept(ls)| ==>
      Swept(ls)[i].id == Fired(ls, payload)[i].listener && Swept(ls)[i].callback == Fired(ls, payload)[i].callback
  {
  }

  lemma {:induction false} LiveUnique(ls: seq<Listener>)
    requires UniqueSeq(ls)
    ensures UniqueSeq(Live(ls))
  {
    if ls != [] {
      assert UniqueSeq(ls[1..]) by {
        forall i, j | 0 <= i < |ls| - 1 && 0 <= j < |ls| - 1 && ls[1..][i].id == ls[1..][j].id
          ensures i == j
        {
          assert ls[i + 1].id == ls[j + 1].id;
        }
      }
      LiveUnique(ls[1..]);
      LiveMembers(ls[1..]);
      var tail := Live(ls[1..]);
      if !Exhausted(ls[0]) {
        forall j | 0 <= j < |tail| ensures tail[j].id != ls[0].id {
          assert tail[j] in ls[1..];
          var m :| 0 <= m < |ls| - 1 && ls[1..][m] == tail[j];
          assert ls[m + 1] == tail[j];
        }
        assert Live(ls) == [ls[0]] + tail;
      }
    }
  }

  /** Emission never makes ids collide: the survivors' ids stay unique. */
  lemma SweptUnique(ls: seq<Listener>)
    requires UniqueSeq(ls)
    ensures UniqueSeq(Swept(ls))
  {
    LiveUnique(ls);
  }

  /** Every survivor of an emission was registered before it. */
  lemma SweptIdsRegistered(ls: seq<Listener>)
    ensures forall i :: 0 <= i < |Swept(ls)| ==> Contains(ls, Swept(ls)[i].id)
  {
    LiveMembers(ls);
    forall i | 0 <= i < |Swept(ls)| ensures Contains(ls, Swept(ls)[i].id) {
      assert Live(ls)[i] in ls;
    }
  }

  /**
   What one emission does to one listener: an unlimited listener is dispatched and
   kept as it is; a listener with `Some(n)`, n > 0, is dispatched and kept with
   `Some(n - 1)`; with unique ids an exhausted listener is neither dispatched nor kept.
   */
  lemma EmitTracksListener(ls: seq<Listener>, i: nat, payload: Payload)
    requires i < |ls|
    ensures ls[i].limit.None? ==> ls[i] in Swept(ls) && Invoke(ls[i], payload) in Fired(ls, payload)
    ensures ls[i].limit.Some? && ls[i].limit.value > 0 ==>
      ls[i].(limit := Some(ls[i].limit.value - 1)) in Swept(ls) && Invoke(ls[i], payload) in Fired(ls, payload)
    ensures UniqueSeq(ls) && Exhausted(ls[i]) ==>
      !Contains(Swept(ls), ls[i].id) && forall m :: 0 <= m < |Fired(ls, payload)| ==> Fired(ls, payload)[m].listener != ls[i].id
  {
    LiveMembers(ls);
    var live := Live(ls);
    if !Exhausted(ls[i]) {
      assert ls[i] in live;
      var m :| 0 <= m < |live| && live[m] == ls[i];
      assert Swept(ls)[m] == Decremented(ls[i]);
      assert Fired(ls, payload)[m] == Invoke(ls[i], payload);
    } else if UniqueSeq(ls) {
      forall m | 0 <= m < |live| ensures live[m].id != ls[i].id {
        assert live[m] in ls;
        var j :| 0 <= j < |ls| && ls[j] == live[m];
        assert j != i;
      }
    }
  }

  /**
   A listener registered with `Some(k)` is still present after `j <= k` emissions of
   its event, holding `Some(k - j)`, and ids stay unique throughout.
   */
  lemma {:induction false} LimitedCountdown(ls: seq<Listener>, l: Listener, k: u64, j: nat)
    requires UniqueSeq(ls) && l in ls && l.limit == Some(k) && j <= k as int
    ensures UniqueSeq(Rounds(ls, j))
    ensures l.(limit := Some((k as int - j) as u64)) in Rounds(ls, j)
  {
    if j == 0 {
      assert l.(limit := Some(k)) == l;
    } else {
      LimitedCountdown(ls, l, k, j - 1);
      var prev := Rounds(ls, j - 1);
      var before := l.(limit := Some((k as int - (j - 1)) as u64));
      var m :| 0 <= m < |prev| && prev[m] == before;
      EmitTracksListener(prev, m, []);
      SweptUnique(prev);
    }
  }

  /**
   A listener registered with `Some(k)` is dispatched on each of the first k emissions
   of its event, is not dispatched on emission k + 1, and is gone after it.
   */
  lemma LimitedLifecycle(ls: seq<Listener>, l: Listener, k: u64)
    requires UniqueSeq(ls) && l in ls && l.limit == Some(k)
    ensures forall j: nat, p: Payload {:trigger Fired(Rounds(ls, j), p)} :: j < k as int ==> Invoke(l, p) in Fired(Rounds(ls, j), p)
    ensures forall p: Payload, i {:trigger Fired(Rounds(ls, k as nat), p)[i]} :: 0 <= i < |Fired(Rounds(ls, k as nat), p)| ==> Fired(Rounds(ls, k as nat), p)[i].listener != l.id
    ensures !Contains(Rounds(ls, k as nat + 1), l.id)
  {
    forall j: nat, p: Payload | j < k as int ensures Invoke(l, p) in Fired(Rounds(ls, j), p) {
      LimitedCountdown(ls, l, k, j);
      var cur := l.(limit := Some((k as int - j) as u64));
      var s := Rounds(ls, j);
      var m :| 0 <= m < |s| && s[m] == cur;
      EmitTracksListener(s, m, p);
    }
    LimitedCountdown(ls, l, k, k as nat);
    var last := Rounds(ls, k as nat);
    var exhausted := l.(limit := Some(0));
    assert (k as int - k as int) as u64 == 0;
    var m :| 0 <= m < |last| && last[m] == exhausted;
    forall p: Payload ensures forall i :: 0 <= i < |Fired(last, p)| ==> Fired(last, p)[i].listener != l.id {
      EmitTracksListener(last, m, p);
    }
    EmitTracksListener(last, m, []);
  }

  // ------------------------------------------------------------------ removal

  lemma {:induction false} RemoveFirstAt(s: seq<Listener>, id: ListenerId, k: nat)
    requires k < |s| && s[k].id == id
    requires forall j :: 0 <= j < k ==> s[j].id != id
    ensures RemoveFirst(s, id) == s[..k] + s[k + 1..]
  {
    if k > 0 {
      RemoveFirstAt(s[1..], id, k - 1);
      assert s[..k] == [s[0]] + s[1..][..k - 1];
      assert s[1..][k..] == s[k + 1..];
    }
  }

  /** Removing an id that is not there changes nothing. */
  lemma {:induction false} RemoveFirstAbsent(s: seq<Listener>, id: ListenerId)
    requires !Contains(s, id)
    ensures RemoveFirst(s, id) == s
  {
    if s != [] {
      assert s[0].id != id;
      assert !Contains(s[1..], id) by {
        forall j | 0 <= j < |s| - 1 ensures s[1..][j].id != id {
          assert s[1..][j] == s[j + 1];
        }
      }
      RemoveFirstAbsent(s[1..], id);
      assert s == [s[0]] + s[1..];
    }
  }

  /** Removing an id that is there removes exactly one listener. */
  lemma {:induction false} RemoveFirstLength(s: seq<Listener>, id: ListenerId)
    requires Contains(s, id)
    ensures |RemoveFirst(s, id)| == |s| - 1
  {
    if s[0].id != id {
      var j :| 0 <= j < |s| && s[j].id == id;
      assert s[1..][j - 1].id == id;
      RemoveFirstLength(s[1..], id);
    }
  }

  /** Removal introduces no id: every remaining listener was there before. */
  lemma {:induction false} RemoveFirstIds(s: seq<Listener>, id: ListenerId)
    ensures forall j :: 0 <= j < |RemoveFirst(s, id)| ==> Contains(s, RemoveFirst(s, id)[j].id)
  {
    if s != [] {
      var t := s[1..];
      var r := RemoveFirst(s, id);
      if s[0].id == id {
        forall j | 0 <= j < |t| ensures Contains(s, t[j].id) {
          assert s[j + 1] == t[j];
        }
      } else {
        RemoveFirstIds(t, id);
        assert r == [s[0]] + RemoveFirst(t, id);
        forall j | 0 <= j < |r| ensures Contains(s, r[j].id) {
          if j > 0 {
            assert r[j] == RemoveFirst(t, id)[j - 1];
            var m :| 0 <= m < |t| && t[m].id == r[j].id;
            assert s[m + 1] == t[m];
          } else {
            assert r[0] == s[0];
          }
        }
      }
    }
  }

  /** With unique ids, the removed id is absent afterwards and the rest stay unique. */
  lemma {:induction false} RemoveFirstUnique(s: seq<Listener>, id: ListenerId)
    requires UniqueSeq(s)
    ensures UniqueSeq(RemoveFirst(s, id)) && !Contains(RemoveFirst(s, id), id)
  {
    if s != [] {
      var t := s[1..];
      assert UniqueSeq(t) by {
        forall i, j | 0 <= i < |t| && 0 <= j < |t| && t[i].id == t[j].id ensures i == j {
          assert s[i + 1].id == s[j + 1].id;
        }
      }
      if s[0].id == id {
        forall j | 0 <= j < |t| ensures t[j].id != id {
          assert s[j + 1].id == t[j].id;
        }
      } else {
        RemoveFirstUnique(t, id);
        RemoveFirstIds(t, id);
        var r := RemoveFirst(t, id);
        assert RemoveFirst(s, id) == [s[0]] + r;
        forall j | 0 <= j < |r| ensures r[j].id != s[0].id {
          var m :| 0 <= m < |t| && t[m].id == r[j].id;
          assert s[m + 1].id == r[j].id;
        }
      }
    }
  }

  // ---------------------------------------------------------- whole registry

  /**
   Replacing one event's sequence by a uniquely-identified sequence of ids that were
   already registered under that event keeps the registry's ids unique.
   */
  lemma ReplaceKeepsUnique(reg: Listeners, event: EventName, s: seq<Listener>)
    requires UniqueIds(reg) && UniqueSeq(s)
    requires forall i :: 0 <= i < |s| ==> Contains(Bucket(reg, event), s[i].id)
    ensures UniqueIds(reg[event := s])
  {
  }

  /** Registering a listener whose id is new keeps the registry's ids unique. */
  lemma AppendKeepsUnique(reg: Listeners, event: EventName, l: Listener)
    requires UniqueIds(reg) && !Registered(reg, l.id)
    ensures UniqueIds(reg[event := Bucket(reg, event) + [l]])
  {
  }

  /**
   With unique ids, removing the first match under the one event that holds it leaves
   the ids unique and the id registered nowhere, so a second removal finds nothing.
   */
  lemma RemoveKeepsUnique(reg: Listeners, event: EventName, id: ListenerId)
    requires UniqueIds(reg) && event in reg && Contains(reg[event], id)
    ensures UniqueIds(reg[event := RemoveFirst(reg[event], id)])
    ensures !Registered(reg[event := RemoveFirst(reg[event], id)], id)
  {
    var s := reg[event];
    assert UniqueSeq(s);
    RemoveFirstUnique(s, id);
    RemoveFirstIds(s, id);
    ReplaceKeepsUnique(reg, event, RemoveFirst(s, id));
    var reg' := reg[event := RemoveFirst(s, id)];
    var m :| 0 <= m < |s| && s[m].id == id;
    forall e | e in reg' ensures !Contains(reg'[e], id) {
    }
  }
}
