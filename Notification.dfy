/**
 * The change-notification broker of `marshall.storage`: the shadow snapshot
 * `data`, the wrapped `Storage.prototype.setItem`/`removeItem`/`clear`, the
 * dispatch of canonical events to the `callbacks` array (`priv.triggerUpdate`,
 * `priv.triggerBefore`, `priv.updateEvent`, `priv.updateData`), the `storage`
 * events delivered by the host for changes made in other windows, and the
 * watch registry with its unsubscribe closure.
 *
 * A user callback is not code here: invoking it appends a `Delivery` to the
 * broker's `log`.
 */
module Notification {
  import opened Wrappers
  import opened Patterns
  import opened HostStorage

  /** The canonical event `{key, newValue, oldValue}`; `None` is `null`. */
  datatype Event = Event(key: string, newValue: Option<string>, oldValue: Option<string>)

  /**
   * One `watch` call: the handler `priv.updateEvent` bound to the watching
   * scope's prefix and to its compiled pattern. `throws` says whether the user
   * callback raises an exception whenever it is invoked.
   */
  datatype Subscription = Subscription(id: nat, prefix: string, matcher: Matcher, throws: bool)

  /** One invocation `callback(key, newValue, oldValue)` of subscription `id`'s user callback. */
  datatype Delivery = Delivery(id: nat, key: string, newValue: Option<string>, oldValue: Option<string>)

  /** What `priv.updateEvent` hands the user callback for a keyed event. */
  function Notice(s: Subscription, e: Event): seq<Delivery> {
    if Matches(s.matcher, e.key) then [Delivery(s.id, Strip(e.key, s.prefix), e.newValue, e.oldValue)] else []
  }

  /**
   * `priv.updateEvent` for a subscription watching `pattern` calls the user
   * callback at most once, exactly when the prefixed expression accepts the
   * key, and then with the key minus the prefix and the event's values.
   */
  lemma NoticeSpec(s: Subscription, pattern: string, e: Event)
    requires s.matcher == Compile(s.prefix, pattern)
    ensures |Notice(s, e)| <= 1
    ensures Notice(s, e) != [] <==> Matches(Compile(s.prefix, pattern), e.key)
    ensures Notice(s, e) != [] ==>
              var d := Notice(s, e)[0];
              && d.id == s.id && s.prefix + d.key == e.key
              && d.newValue == e.newValue && d.oldValue == e.oldValue
  {
    if Matches(s.matcher, e.key) {
      MatchInScope(s.prefix, pattern, e.key);
    }
  }

  /** The deliveries when `e` is offered to `subs` in order. */
  function Offer(subs: seq<Subscription>, e: Event): seq<Delivery> {
    if subs == [] then [] else Offer(subs[..|subs| - 1], e) + Notice(subs[|subs| - 1], e)
  }

  /** The events of `priv.triggerBefore(st)` for the keys `keys` of `st`: each removed. */
  function Removals(st: Store, keys: seq<string>): seq<Event> {
    if keys == [] then []
    else Removals(st, keys[..|keys| - 1]) + [Event(keys[|keys| - 1], None, st.GetItem(keys[|keys| - 1]))]
  }

  /** The deliveries when each of `es` is offered to `subs` in turn. */
  function DispatchAll(subs: seq<Subscription>, es: seq<Event>): seq<Delivery> {
    if es == [] then [] else DispatchAll(subs, es[..|es| - 1]) + Offer(subs, es[|es| - 1])
  }

  function Ids(subs: seq<Subscription>): set<nat> {
    set s | s in subs :: s.id
  }

  ghost predicate UniqueIds(subs: seq<Subscription>) {
    forall i, j :: 0 <= i < j < |subs| ==> subs[i].id != subs[j].id
  }

  /** Some handler among `subs` reaches `priv.updateData()` for `e` (its callback did not throw). */
  ghost predicate Refreshes(subs: seq<Subscription>, e: Event) {
    && subs != []
    && (|| Refreshes(subs[..|subs| - 1], e)
        || !(subs[|subs| - 1].throws && Matches(subs[|subs| - 1].matcher, e.key)))
  }

  /** `callbacks.indexOf(handler)`: -1 when absent. */
  function IndexOf(subs: seq<Subscription>, id: nat): (r: int)
    ensures -1 <= r < |subs|
    ensures r >= 0 ==> subs[r].id == id && forall j :: 0 <= j < r ==> subs[j].id != id
    ensures r < 0 <==> id !in Ids(subs)
  {
    if subs == [] then -1
    else if subs[0].id == id then 0
    else
      var j := IndexOf(subs[1..], id);
      assert Ids(subs) == {subs[0].id} + Ids(subs[1..]) by {
        assert forall s :: s in subs <==> s == subs[0] || s in subs[1..];
      }
      if j < 0 then -1 else j + 1
  }

  /** `callbacks.splice(start, 1)`: a negative start counts from the end. */
  function SpliceOne(subs: seq<Subscription>, start: int): seq<Subscription> {
    var k := if start >= 0 then start else if |subs| + start >= 0 then |subs| + start else 0;
    if k < |subs| then subs[..k] + subs[k + 1..] else subs
  }

  /** `subs` without the subscription `id`, the others in order. */
  function RemoveId(subs: seq<Subscription>, id: nat): seq<Subscription> {
    if subs == [] then []
    else
      var rest := RemoveId(subs[1..], id);
      if subs[0].id == id then rest else [subs[0]] + rest
  }

  /** Removing a subscription keeps exactly the others, and keeps them distinct. */
  lemma RemoveIdSpec(subs: seq<Subscription>, id: nat)
    ensures forall s :: s in RemoveId(subs, id) <==> s in subs && s.id != id
    ensures Ids(RemoveId(subs, id)) == Ids(subs) - {id}
    ensures UniqueIds(subs) ==> UniqueIds(RemoveId(subs, id))
  {
    RemoveIdMembers(subs, id);
    if UniqueIds(subs) {
      RemoveIdUnique(subs, id);
    }
  }

  lemma {:induction false} RemoveIdMembers(subs: seq<Subscription>, id: nat)
    ensures forall s :: s in RemoveId(subs, id) <==> s in subs && s.id != id
  {
    if subs != [] {
      RemoveIdMembers(subs[1..], id);
      assert forall s :: s in subs <==> s == subs[0] || s in subs[1..];
    }
  }

  lemma {:induction false} RemoveIdUnique(subs: seq<Subscription>, id: nat)
    requires UniqueIds(subs)
    ensures UniqueIds(RemoveId(subs, id))
  {
    if subs != [] {
      RemoveIdUnique(subs[1..], id);
      RemoveIdMembers(subs[1..], id);
      var rest := RemoveId(subs[1..], id);
      if subs[0].id != id {
        var r := [subs[0]] + rest;
        forall i, j | 0 <= i < j < |r| ensures r[i].id != r[j].id {
          if i == 0 {
            assert r[j] == rest[j - 1] && rest[j - 1] in rest;
            var k :| 0 <= k < |subs[1..]| && subs[1..][k] == rest[j - 1];
            assert subs[k + 1] == rest[j - 1];
          } else {
            assert r[i] == rest[i - 1] && r[j] == rest[j - 1];
          }
        }
      }
    }
  }

  lemma RemovalsStep(st: Store, keys: seq<string>, i: nat)
    requires i < |keys|
    ensures Removals(st, keys[..i + 1]) == Removals(st, keys[..i]) + [Event(keys[i], None, st.GetItem(keys[i]))]
  {
    assert keys[..i + 1][..i] == keys[..i];
  }

  lemma DispatchAllStep(subs: seq<Subscription>, es: seq<Event>, e: Event)
    ensures DispatchAll(subs, es + [e]) == DispatchAll(subs, es) + Offer(subs, e)
  {
    assert (es + [e])[..|es|] == es;
  }

  /** The deliveries of the removal events of `keys` in `st`, key by key. */
  function RemovalLog(subs: seq<Subscription>, st: Store, keys: seq<string>): seq<Delivery> {
    if keys == [] then []
    else
      var k := keys[|keys| - 1];
      RemovalLog(subs, st, keys[..|keys| - 1]) + Offer(subs, Event(k, None, st.GetItem(k)))
  }

  /** Offering the removal events one at a time delivers what offering them all in turn does. */
  lemma {:induction false} RemovalLogDispatch(subs: seq<Subscription>, st: Store, keys: seq<string>)
    ensures RemovalLog(subs, st, keys) == DispatchAll(subs, Removals(st, keys))
  {
    if keys != [] {
      var init, k := keys[..|keys| - 1], keys[|keys| - 1];
      RemovalLogDispatch(subs, st, init);
      DispatchAllStep(subs, Removals(st, init), Event(k, None, st.GetItem(k)));
    }
  }

  lemma ConcatAssoc<T>(a: seq<T>, b: seq<T>, c: seq<T>)
    ensures a + (b + c) == (a + b) + c
  {
  }

  /**
   * After the removal events of the first `i` of `keys` (values from `st`)
   * were emitted on top of `events0` and offered to `subs` on top of `log0`.
   */
  ghost predicate Replayed(log: seq<Delivery>, events: seq<Event>, st: Store, subs: seq<Subscription>,
                           log0: seq<Delivery>, events0: seq<Event>, keys: seq<string>, i: nat)
  {
    && i <= |keys|
    && events == events0 + Removals(st, keys[..i])
    && log == log0 + RemovalLog(subs, st, keys[..i])
  }

  lemma ReplayedStep(log: seq<Delivery>, events: seq<Event>, st: Store, subs: seq<Subscription>,
                     log0: seq<Delivery>, events0: seq<Event>, keys: seq<string>, i: nat)
    requires Replayed(log, events, st, subs, log0, events0, keys, i) && i < |keys|
    ensures var e := Event(keys[i], None, st.GetItem(keys[i]));
            Replayed(log + Offer(subs, e), events + [e], st, subs, log0, events0, keys, i + 1)
  {
    var e := Event(keys[i], None, st.GetItem(keys[i]));
    assert keys[..i + 1][..i] == keys[..i];
    RemovalsStep(st, keys, i);
    ConcatAssoc(events0, Removals(st, keys[..i]), [e]);
    ConcatAssoc(log0, RemovalLog(subs, st, keys[..i]), Offer(subs, e));
  }

  lemma ReplayedAll(log: seq<Delivery>, events: seq<Event>, st: Store, subs: seq<Subscription>,
                    log0: seq<Delivery>, events0: seq<Event>, keys: seq<string>)
    requires Replayed(log, events, st, subs, log0, events0, keys, |keys|)
    ensures events == events0 + Removals(st, keys)
    ensures log == log0 + DispatchAll(subs, Removals(st, keys))
  {
    assert keys[..|keys|] == keys;
    RemovalLogDispatch(subs, st, keys);
  }

  lemma {:induction false} OfferIds(subs: seq<Subscription>, e: Event)
    ensures forall d :: d in Offer(subs, e) ==> d.id in Ids(subs)
  {
    if subs != [] {
      var init := subs[..|subs| - 1];
      OfferIds(init, e);
      assert forall s :: s in init ==> s in subs;
      assert subs[|subs| - 1] in subs;
    }
  }

  lemma {:induction false} DispatchAllIds(subs: seq<Subscription>, es: seq<Event>)
    ensures forall d :: d in DispatchAll(subs, es) ==> d.id in Ids(subs)
  {
    if es != [] {
      DispatchAllIds(subs, es[..|es| - 1]);
      OfferIds(subs, es[|es| - 1]);
    }
  }

  class Broker {
    /** Whether `window.localStorage` could be obtained; the code installs nothing otherwise. */
    const available: bool
    /** The shared storage. */
    var store: Store
    /** The shadow snapshot `data`. */
    var data: Store
    /** The `callbacks` array `priv.triggerUpdate` walks. */
    var callbacks: seq<Subscription>
    /** The handlers registered with `window.addEventListener('storage', …)`, in order. */
    var listeners: seq<Subscription>
    /** The subscriptions whose unsubscribe closure has run (and nulled its handler). */
    var released: set<nat>
    /** The id the next `watch` call gets. */
    var nextId: nat
    /** Every user callback invocation, in order. */
    var log: seq<Delivery>
    /** Every canonical event handed to `priv.triggerUpdate`, in order. */
    ghost var events: seq<Event>

    ghost predicate Valid()
      reads this
    {
      && store.WellFormed() && data.WellFormed()
      && (!available ==> store == Empty && data == Empty)
      && UniqueIds(callbacks) && UniqueIds(listeners)
      && Ids(callbacks) <= Ids(listeners)
      && Ids(listeners) !! released
      && (forall id :: id in Ids(listeners) ==> id < nextId)
      && (forall id :: id in released ==> id < nextId)
      && (forall id: nat :: id < nextId ==> id in Ids(listeners) || id in released)
    }

    /** The factory's set-up: it ends with `priv.updateData()`. */
    constructor (available: bool, initial: Store)
      requires initial.WellFormed()
      ensures Valid() && this.available == available
      ensures store == (if available then initial else Empty) && data == store
      ensures callbacks == [] && listeners == [] && released == {} && nextId == 0
      ensures log == [] && events == []
    {
      this.available := available;
      store := if available then initial else Empty;
      data := if available then initial else Empty;
      callbacks, listeners, released, nextId := [], [], {}, 0;
      log, events := [], [];
      new;
      EmptyWellFormed();
    }

    /** `priv.updateData`: the snapshot becomes a copy of the storage. */
    method UpdateData()
      requires Valid()
      modifies this`data
      ensures Valid() && data == store
    {
      if available {
        data := store;
      }
    }

    /**
     * `priv.updateEvent` for a keyed event: on a match the user callback gets
     * the key with the prefix stripped; an exception from it skips the refresh.
     */
    method Notify(s: Subscription, e: Event)
      requires Valid()
      modifies this`log, this`data
      ensures Valid()
      ensures log == old(log) + Notice(s, e)
      ensures data == if s.throws && Matches(s.matcher, e.key) then old(data) else store
    {
      if Matches(s.matcher, e.key) {
        log := log + [Delivery(s.id, Strip(e.key, s.prefix), e.newValue, e.oldValue)];
        if s.throws {
          return;
        }
      }
      UpdateData();
    }

    /**
     * `priv.triggerUpdate`: the event is offered to every handler in
     * `callbacks`, in order; a handler that throws does not stop the others.
     */
    method TriggerUpdate(e: Event)
      requires Valid()
      modifies this`log, this`data, this`events
      ensures Valid()
      ensures events == old(events) + [e]
      ensures log == old(log) + Offer(callbacks, e)
      ensures data == if Refreshes(callbacks, e) then store else old(data)
    {
      events := events + [e];
      var subs := callbacks;
      for i := 0 to |subs|
        invariant Valid() && events == old(events) + [e]
        invariant log == old(log) + Offer(subs[..i], e)
        invariant data == if Refreshes(subs[..i], e) then store else old(data)
      {
        assert subs[..i + 1][..i] == subs[..i];
        Notify(subs[i], e);
      }
      assert subs[..|subs|] == subs;
    }

    /** `priv.triggerBefore(before)`: a removal event for each key of `before`. */
    method TriggerBefore(before: Store)
      requires Valid()
      modifies this`log, this`data, this`events
      ensures Valid()
      ensures events == old(events) + Removals(before, before.order)
      ensures log == old(log) + DispatchAll(callbacks, Removals(before, before.order))
      ensures data == old(data) || data == store
    {
      var keys := before.order;
      ghost var subs, log0, events0 := callbacks, log, events;
      for i := 0 to |keys|
        invariant Valid() && callbacks == subs
        invariant Replayed(log, events, before, subs, log0, events0, keys, i)
        invariant data == old(data) || data == store
      {
        var e := Event(keys[i], None, before.GetItem(keys[i]));
        ReplayedStep(log, events, before, subs, log0, events0, keys, i);
        TriggerUpdate(e);
      }
      ReplayedAll(log, events, before, subs, log0, events0, keys);
    }

    /**
     * The wrapped `setItem`: one event `(key, new, old)` when the stored value
     * changed, none otherwise; the snapshot is refreshed afterwards.
     */
    method SetItem(key: string, value: string)
      requires Valid()
      modifies this`store, this`data, this`log, this`events
      ensures Valid()
      ensures store == if available then old(store).SetItem(key, value) else old(store)
      ensures data == store
      ensures var e := Event(key, Some(value), old(store).GetItem(key));
              var changed := available && old(store).GetItem(key) != Some(value);
              && events == old(events) + (if changed then [e] else [])
              && log == old(log) + (if changed then Offer(callbacks, e) else [])
      ensures forall i :: |old(log)| <= i < |log| ==> log[i].id !in released
    {
      if !available {
        return;
      }
      var previous := store.GetItem(key);
      store := store.SetItem(key, value);
      var current := store.GetItem(key);
      if current != previous {
        TriggerUpdate(Event(key, current, previous));
        OfferIds(callbacks, Event(key, current, previous));
      }
      UpdateData();
    }

    /**
     * The wrapped `removeItem`: one event `(key, null, old)` when the key was
     * present, none otherwise; the snapshot is refreshed afterwards.
     */
    method RemoveItem(key: string)
      requires Valid()
      modifies this`store, this`data, this`log, this`events
      ensures Valid()
      ensures store == if available then old(store).RemoveItem(key) else old(store)
      ensures data == store
      ensures var e := Event(key, None, old(store).GetItem(key));
              var changed := available && old(store).GetItem(key) != None;
              && events == old(events) + (if changed then [e] else [])
              && log == old(log) + (if changed then Offer(callbacks, e) else [])
      ensures forall i :: |old(log)| <= i < |log| ==> log[i].id !in released
    {
      if !available {
        return;
      }
      var previous := store.GetItem(key);
      store := store.RemoveItem(key);
      var current := store.GetItem(key);
      if current != previous {
        TriggerUpdate(Event(key, current, previous));
        OfferIds(callbacks, Event(key, current, previous));
      }
      UpdateData();
    }

    /**
     * The wrapped `clear`: a copy taken before the native clear yields one
     * removal event per key held; storage and snapshot end empty.
     */
    method Clear()
      requires Valid()
      modifies this`store, this`data, this`log, this`events
      ensures Valid()
      ensures store == Empty && data == Empty
      ensures events == old(events) + Removals(old(store), old(store).order)
      ensures log == old(log) + DispatchAll(callbacks, Removals(old(store), old(store).order))
      ensures forall i :: |old(log)| <= i < |log| ==> log[i].id !in released
    {
      if !available {
        return;
      }
      var before := store;
      store := Empty;
      EmptyWellFormed();
      TriggerBefore(before);
      DispatchAllIds(callbacks, Removals(before, before.order));
      UpdateData();
    }

    /**
     * A `storage` event from another window. The other window's change is
     * already in the shared storage when every listener runs `priv.updateEvent`.
     */
    method RemoteEvent(key: Option<string>, newValue: Option<string>, oldValue: Option<string>)
      requires Valid()
      modifies this`store, this`data, this`log, this`events
      ensures Valid()
      ensures !available ==> store == old(store)
      ensures available && key.None? ==> store == Empty
      ensures available && key.Some? && newValue.Some? ==> store == old(store).SetItem(key.value, newValue.value)
      ensures available && key.Some? && newValue.None? ==> store == old(store).RemoveItem(key.value)
      ensures key.Some? ==>
                var e := Event(key.value, newValue, oldValue);
                && events == old(events)
                && log == old(log) + Offer(listeners, e)
                && data == if Refreshes(listeners, e) then store else old(data)
      ensures key.None? ==>
                var replay := if listeners == [] then [] else Removals(old(data), old(data).order);
                && events == old(events) + replay
                && log == old(log) + DispatchAll(callbacks, replay)
                && data == if listeners == [] then old(data) else store
      ensures forall i :: |old(log)| <= i < |log| ==> log[i].id !in released
    {
      EmptyWellFormed();
      match key {
        case Some(k) =>
          if available {
            store := if newValue.Some? then store.SetItem(k, newValue.value) else store.RemoveItem(k);
          }
          RemoteChange(Event(k, newValue, oldValue));
        case None =>
          if available {
            store := Empty;
          }
          RemoteClear();
      }
    }

    /** Every listener's `priv.updateEvent` on a keyed `storage` event. */
    method RemoteChange(e: Event)
      requires Valid()
      modifies this`data, this`log
      ensures Valid()
      ensures log == old(log) + Offer(listeners, e)
      ensures data == if Refreshes(listeners, e) then store else old(data)
      ensures forall i :: |old(log)| <= i < |log| ==> log[i].id !in released
    {
      var subs := listeners;
      for i := 0 to |subs|
        invariant Valid()
        invariant log == old(log) + Offer(subs[..i], e)
        invariant data == if Refreshes(subs[..i], e) then store else old(data)
      {
        assert subs[..i + 1][..i] == subs[..i];
        Notify(subs[i], e);
      }
      assert subs[..|subs|] == subs;
      OfferIds(subs, e);
    }

    /**
     * Every listener's `priv.updateEvent` on a `storage` event with a `null`
     * key (another window cleared the storage). The first listener replays
     * the snapshot to every handler in `callbacks` through
     * `priv.triggerBefore`; its refresh empties the snapshot, so the later
     * listeners replay nothing.
     */
    method RemoteClear()
      requires Valid() && store == Empty
      modifies this`data, this`log, this`events
      ensures Valid()
      ensures var replay := if listeners == [] then [] else Removals(old(data), old(data).order);
              && events == old(events) + replay
              && log == old(log) + DispatchAll(callbacks, replay)
              && data == if listeners == [] then old(data) else Empty
      ensures forall i :: |old(log)| <= i < |log| ==> log[i].id !in released
    {
      ghost var replay := Removals(old(data), old(data).order);
      for i := 0 to |listeners|
        invariant Valid()
        invariant i == 0 ==> data == old(data) && events == old(events) && log == old(log)
        invariant i > 0 ==> data == Empty && events == old(events) + replay
                            && log == old(log) + DispatchAll(callbacks, replay)
      {
        TriggerBefore(data);
        UpdateData();
      }
      DispatchAllIds(callbacks, replay);
    }

    /** The registration part of `watch`: `callbacks.push` and `addEventListener`. */
    method Register(prefix: string, matcher: Matcher, throws: bool) returns (id: nat)
      requires Valid()
      modifies this`callbacks, this`listeners, this`nextId
      ensures Valid()
      ensures id == old(nextId) && nextId == old(nextId) + 1
      ensures callbacks == old(callbacks) + [Subscription(id, prefix, matcher, throws)]
      ensures listeners == old(listeners) + [Subscription(id, prefix, matcher, throws)]
    {
      id := nextId;
      var s := Subscription(id, prefix, matcher, throws);
      assert id !in Ids(listeners);
      assert Ids(callbacks + [s]) == Ids(callbacks) + {id} by {
        assert forall t :: t in callbacks + [s] <==> t in callbacks || t == s;
      }
      assert Ids(listeners + [s]) == Ids(listeners) + {id} by {
        assert forall t :: t in listeners + [s] <==> t in listeners || t == s;
      }
      callbacks := callbacks + [s];
      listeners := listeners + [s];
      nextId := nextId + 1;
    }

    /** A direct call of a user callback (the initial replay of `watch`). */
    method Invoke(d: Delivery)
      requires Valid()
      modifies this`log
      ensures Valid() && log == old(log) + [d]
    {
      log := log + [d];
    }

    /**
     * The closure `watch` returns, for subscription `id`. Its first call
     * splices `callbacks.indexOf(handler)` and removes the listener; it then
     * nulls the handler, so a later call splices `indexOf(null)`, that is -1:
     * the last handler in `callbacks`, whoever it belongs to.
     */
    method Unwatch(id: nat)
      requires Valid() && id < nextId
      modifies this`callbacks, this`listeners, this`released
      ensures Valid()
      ensures released == old(released) + {id}
      ensures callbacks == SpliceOne(old(callbacks), if id in old(released) then -1 else IndexOf(old(callbacks), id))
      ensures listeners == if id in old(released) then old(listeners) else RemoveId(old(listeners), id)
      ensures id !in old(released) && id in Ids(old(callbacks)) ==> callbacks == RemoveId(old(callbacks), id)
      ensures id in old(released) && old(callbacks) != [] ==> callbacks == old(callbacks)[..|old(callbacks)| - 1]
      ensures id !in Ids(old(callbacks)) && old(callbacks) != [] ==> callbacks == old(callbacks)[..|old(callbacks)| - 1]
      ensures id !in Ids(callbacks) && id !in Ids(listeners)
    {
      var index := if id in released then -1 else IndexOf(callbacks, id);
      RemoveIdSpec(callbacks, id);
      RemoveIdSpec(listeners, id);
      SpliceShrinks(callbacks, index);
      if id !in released && id in Ids(callbacks) {
        SpliceAtIndexOf(callbacks, id);
      }
      if (id in released || id !in Ids(callbacks)) && callbacks != [] {
        SpliceMissing(callbacks, id);
      }
      callbacks := SpliceOne(callbacks, index);
      if id !in released {
        listeners := RemoveId(listeners, id);
      }
      released := released + {id};
    }
  }

  /** Splicing never adds a handler and keeps handlers distinct. */
  lemma SpliceShrinks(subs: seq<Subscription>, start: int)
    ensures Ids(SpliceOne(subs, start)) <= Ids(subs)
    ensures UniqueIds(subs) ==> UniqueIds(SpliceOne(subs, start))
    ensures UniqueIds(subs) && 0 <= start < |subs| ==> subs[start].id !in Ids(SpliceOne(subs, start))
  {
    var k := if start >= 0 then start else if |subs| + start >= 0 then |subs| + start else 0;
    if k < |subs| {
      DropAt(subs, k);
    }
  }

  lemma DropAt(subs: seq<Subscription>, k: nat)
    requires k < |subs|
    ensures forall s :: s in subs[..k] + subs[k + 1..] ==> s in subs
    ensures UniqueIds(subs) ==> UniqueIds(subs[..k] + subs[k + 1..])
    ensures UniqueIds(subs) ==> forall s :: s in subs[..k] + subs[k + 1..] ==> s.id != subs[k].id
  {
    var r := subs[..k] + subs[k + 1..];
    assert forall i :: 0 <= i < |r| ==> r[i] == if i < k then subs[i] else subs[i + 1];
    if UniqueIds(subs) {
      forall i, j | 0 <= i < j < |r| ensures r[i].id != r[j].id {
        var i', j' := if i < k then i else i + 1, if j < k then j else j + 1;
        assert r[i] == subs[i'] && r[j] == subs[j'] && i' < j';
      }
    }
  }

  lemma {:induction false} RemoveIdAbsent(subs: seq<Subscription>, id: nat)
    requires forall j :: 0 <= j < |subs| ==> subs[j].id != id
    ensures RemoveId(subs, id) == subs
  {
    if subs != [] {
      RemoveIdAbsent(subs[1..], id);
    }
  }

  /**
   * The first call of an unsubscribe closure removes exactly its own
   * subscription from `callbacks` and keeps the others in order.
   */
  lemma {:induction false} SpliceAtIndexOf(subs: seq<Subscription>, id: nat)
    requires UniqueIds(subs) && id in Ids(subs)
    ensures SpliceOne(subs, IndexOf(subs, id)) == RemoveId(subs, id)
  {
    var k := IndexOf(subs, id);
    var before, after := subs[..k], subs[k + 1..];
    assert subs == before + [subs[k]] + after;
    forall j | 0 <= j < |after| ensures after[j].id != id {
      assert after[j] == subs[k + 1 + j];
    }
    RemoveIdAbsent(before, id);
    RemoveIdAbsent(after, id);
    RemoveIdAppend(before + [subs[k]], after, id);
    RemoveIdAppend(before, [subs[k]], id);
  }

  lemma {:induction false} RemoveIdAppend(a: seq<Subscription>, b: seq<Subscription>, id: nat)
    ensures RemoveId(a + b, id) == RemoveId(a, id) + RemoveId(b, id)
  {
    if a != [] {
      assert (a + b)[0] == a[0] && (a + b)[1..] == a[1..] + b;
      RemoveIdAppend(a[1..], b, id);
      if a[0].id != id {
        assert [a[0]] + (RemoveId(a[1..], id) + RemoveId(b, id)) == ([a[0]] + RemoveId(a[1..], id)) + RemoveId(b, id);
      }
    } else {
      assert a + b == b;
    }
  }

  /**
   * A repeated call of an unsubscribe closure splices index -1: it drops the
   * last handler in `callbacks`, which belongs to another subscription.
   */
  lemma SpliceMissing(subs: seq<Subscription>, id: nat)
    requires subs != []
    ensures SpliceOne(subs, -1) == subs[..|subs| - 1]
    ensures id !in Ids(subs) ==> SpliceOne(subs, IndexOf(subs, id)) == subs[..|subs| - 1]
  {
    assert subs[|subs|..] == [];
  }

  /**
   * A watch undone by the first call of its unsubscribe closure: removing the
   * subscription just appended restores the list it was appended to.
   */
  lemma {:induction false} UnwatchUndoesWatch(subs: seq<Subscription>, s: Subscription)
    requires s.id !in Ids(subs)
    ensures RemoveId(subs + [s], s.id) == subs
  {
    forall j | 0 <= j < |subs| ensures subs[j].id != s.id {
      assert subs[j] in subs;
    }
    RemoveIdAbsent(subs, s.id);
    RemoveIdAppend(subs, [s], s.id);
    assert [s][1..] == [];
    assert subs + [] == subs;
  }

  /**
   * The unsubscribe splice as evidently intended: the handler is spliced out
   * only while it is still in `callbacks`, so a repeated call changes nothing.
   */
  function ReleaseOnce(subs: seq<Subscription>, id: nat): seq<Subscription> {
    var k := IndexOf(subs, id);
    if k < 0 then subs else SpliceOne(subs, k)
  }

  /** Releasing removes exactly the subscription `id`, and releasing again changes nothing. */
  lemma ReleaseOnceSpec(subs: seq<Subscription>, id: nat)
    requires UniqueIds(subs)
    ensures ReleaseOnce(subs, id) == RemoveId(subs, id)
    ensures ReleaseOnce(ReleaseOnce(subs, id), id) == ReleaseOnce(subs, id)
  {
    RemoveIdSpec(subs, id);
    if id in Ids(subs) {
      SpliceAtIndexOf(subs, id);
    } else {
      forall j | 0 <= j < |subs| ensures subs[j].id != id {
        assert subs[j] in subs;
      }
      RemoveIdAbsent(subs, id);
    }
  }

  /**
   * Two watchers `a` and `b`; `a`'s unsubscribe closure called twice. The code
   * removes `b`'s handler on the second call; the intended splice keeps it.
   */
  lemma RepeatedUnsubscribe()
    ensures var a, b := Subscription(0, "", Exact("a"), false), Subscription(1, "", Exact("b"), false);
            var once := SpliceOne([a, b], IndexOf([a, b], 0));
            && once == [b]
            && SpliceOne(once, -1) == []
            && ReleaseOnce(once, 0) == [b]
  {
    var a, b := Subscription(0, "", Exact("a"), false), Subscription(1, "", Exact("b"), false);
    assert [a, b][1..] == [b];
    assert IndexOf([b], 0) == -1 by {
      assert [b][1..] == [];
    }
  }
}
