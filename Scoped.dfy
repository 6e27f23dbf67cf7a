/**
 * The `StorageService` facade: a prefix that namespaces every key it reads or
 * writes. `get`, `set` and `remove` prepend the prefix; `keys` lists the keys
 * of the namespace with the prefix stripped; `has`, the scoped `clear` and
 * `priv.match` are built on `keys`; `watch` registers a subscription with the
 * broker and optionally replays the current matches to its callback.
 *
 * Every access goes through `priv.safeStorage`, which does nothing when the
 * storage could not be obtained; the broker's storage is then empty for good.
 */
module Scoped {
  import opened Wrappers
  import opened Patterns
  import opened HostStorage
  import opened Notification

  /** The keys of `order` that lie in the namespace `prefix`, stripped, in order. */
  function ScopedKeys(order: seq<string>, prefix: string): seq<string> {
    if order == [] then []
    else
      var x := order[|order| - 1];
      ScopedKeys(order[..|order| - 1], prefix) + (if StartsWith(x, prefix) then [Strip(x, prefix)] else [])
  }

  /** The full storage keys of the scoped keys `ks`. */
  function FullKeys(prefix: string, ks: seq<string>): seq<string> {
    seq(|ks|, i requires 0 <= i < |ks| => prefix + ks[i])
  }

  /** The entries `{key: get(key)}` of `priv.match` for the scoped keys `keys`, in insertion order. */
  function MatchEntries(st: Store, prefix: string, m: Matcher, keys: seq<string>): seq<(string, Option<string>)> {
    if keys == [] then []
    else
      var k := keys[|keys| - 1];
      MatchEntries(st, prefix, m, keys[..|keys| - 1]) + (if Matches(m, k) then [(k, st.GetItem(prefix + k))] else [])
  }

  function Names(es: seq<(string, Option<string>)>): seq<string> {
    seq(|es|, i requires 0 <= i < |es| => es[i].0)
  }

  /** The initial replay of `watch`: `callback(key, matches[key], matches[key])` for each entry. */
  function Replay(id: nat, es: seq<(string, Option<string>)>): seq<Delivery> {
    seq(|es|, i requires 0 <= i < |es| => Delivery(id, es[i].0, es[i].1, es[i].1))
  }

  /** A full key is in the namespace and strips to `k` exactly when it is `prefix + k`. */
  lemma StripExact(x: string, prefix: string, k: string)
    ensures StartsWith(x, prefix) && Strip(x, prefix) == k <==> x == prefix + k
  {
    if x == prefix + k {
      assert x[..|prefix|] == prefix;
      assert x[|prefix|..] == k;
    }
  }

  /** `keys()` lists `k` exactly when the storage holds `prefix + k`. */
  lemma {:induction false} ScopedKeysMember(order: seq<string>, prefix: string, k: string)
    ensures k in ScopedKeys(order, prefix) <==> prefix + k in order
  {
    if order != [] {
      var init, x := order[..|order| - 1], order[|order| - 1];
      ScopedKeysMember(init, prefix, k);
      StripExact(x, prefix, k);
      assert order == init + [x];
    }
  }

  /** `keys()` lists every key at most once. */
  lemma {:induction false} ScopedKeysDistinct(order: seq<string>, prefix: string)
    requires Distinct(order)
    ensures Distinct(ScopedKeys(order, prefix))
  {
    if order != [] {
      var init, x := order[..|order| - 1], order[|order| - 1];
      assert Distinct(init);
      ScopedKeysDistinct(init, prefix);
      if StartsWith(x, prefix) {
        var k := Strip(x, prefix);
        ScopedKeysMember(init, prefix, k);
        assert x !in init;
        var rest := ScopedKeys(init, prefix);
        assert k !in rest;
        forall i, j | 0 <= i < j < |rest + [k]| ensures (rest + [k])[i] != (rest + [k])[j] {
          if j == |rest| {
            assert (rest + [k])[i] in rest;
          }
        }
      }
    }
  }

  /** `keys()` keeps storage index order: the keys of an earlier stretch come first. */
  lemma {:induction false} ScopedKeysAppend(a: seq<string>, b: seq<string>, prefix: string)
    ensures ScopedKeys(a + b, prefix) == ScopedKeys(a, prefix) + ScopedKeys(b, prefix)
  {
    if b == [] {
      assert a + b == a;
    } else {
      var init, x := b[..|b| - 1], b[|b| - 1];
      assert (a + b)[..|a + b| - 1] == a + init;
      ScopedKeysAppend(a, init, prefix);
    }
  }

  /** The namespace `prefix + p` is the namespace `p` inside the namespace `prefix`. */
  lemma {:induction false} ScopedKeysNested(order: seq<string>, prefix: string, p: string)
    ensures ScopedKeys(order, prefix + p) == ScopedKeys(ScopedKeys(order, prefix), p)
  {
    if order != [] {
      var init, x := order[..|order| - 1], order[|order| - 1];
      ScopedKeysNested(init, prefix, p);
      var outer := ScopedKeys(init, prefix);
      if StartsWith(x, prefix) {
        var y := Strip(x, prefix);
        assert x == prefix + y;
        ScopedKeysAppend(outer, [y], p);
        assert ScopedKeys([y], p) == (if StartsWith(y, p) then [Strip(y, p)] else []) by {
          assert [y][..0] == [];
        }
        if StartsWith(y, p) {
          StripExact(x, prefix + p, Strip(y, p));
          StripExact(y, p, Strip(y, p));
        } else if StartsWith(x, prefix + p) {
          StripExact(x, prefix + p, Strip(x, prefix + p));
          StripExact(y, p, Strip(x, prefix + p));
        }
      } else {
        assert !StartsWith(x, prefix + p);
        assert ScopedKeys(order, prefix) == outer;
        assert ScopedKeys(order, prefix + p) == ScopedKeys(init, prefix + p);
      }
    }
  }

  /** The full keys of `keys()` are exactly the stored keys in the namespace, each once. */
  lemma FullKeysOfScope(st: Store, prefix: string)
    requires st.WellFormed()
    ensures var full := FullKeys(prefix, ScopedKeys(st.order, prefix));
            && Distinct(full)
            && (forall x :: x in full <==> x in st.items && StartsWith(x, prefix))
  {
    var ks := ScopedKeys(st.order, prefix);
    var full := FullKeys(prefix, ks);
    ScopedKeysDistinct(st.order, prefix);
    forall i, j | 0 <= i < j < |full| ensures full[i] != full[j] {
      assert full[i][|prefix|..] == ks[i] && full[j][|prefix|..] == ks[j];
    }
    forall x ensures x in full <==> x in st.items && StartsWith(x, prefix) {
      var k := Strip(x, prefix);
      StripExact(x, prefix, k);
      ScopedKeysMember(st.order, prefix, k);
      if x in full {
        var i :| 0 <= i < |full| && full[i] == x;
        StripExact(x, prefix, ks[i]);
      }
      if x in st.items && StartsWith(x, prefix) {
        var i :| 0 <= i < |ks| && ks[i] == k;
        assert full[i] == x;
      }
    }
  }

  /** `priv.match` keeps exactly the keys its expression accepts, with their stored values. */
  lemma {:induction false} MatchEntriesSpec(st: Store, prefix: string, m: Matcher, keys: seq<string>)
    ensures var es := MatchEntries(st, prefix, m, keys);
            && (forall k :: k in Names(es) <==> k in keys && Matches(m, k))
            && (forall i :: 0 <= i < |es| ==> es[i].1 == st.GetItem(prefix + es[i].0))
            && (Distinct(keys) ==> Distinct(Names(es)))
  {
    if keys != [] {
      var init, k := keys[..|keys| - 1], keys[|keys| - 1];
      MatchEntriesSpec(st, prefix, m, init);
      assert keys == init + [k];
      var rest := MatchEntries(st, prefix, m, init);
      var tail: seq<(string, Option<string>)> := if Matches(m, k) then [(k, st.GetItem(prefix + k))] else [];
      var es := rest + tail;
      assert Names(es) == Names(rest) + Names(tail);
      if Matches(m, k) {
        assert Names(tail) == [k];
      } else {
        assert Names(tail) == [];
      }
      assert forall n :: n in keys <==> n in init || n == k;
      if Distinct(keys) {
        assert Distinct(init);
        assert k !in init;
        var ns := Names(es);
        forall i, j | 0 <= i < j < |ns| ensures ns[i] != ns[j] {
          if j >= |rest| {
            assert ns[i] in Names(rest);
          }
        }
      }
    }
  }

  /**
   * The scoped `clear` after removing the first `i` of the full keys `full`
   * from the store `st0`: those keys are gone, the others untouched, and one
   * removal event per removed key was emitted and offered to `subs`.
   */
  ghost predicate Progress(store: Store, log: seq<Delivery>, events: seq<Event>,
                           st0: Store, subs: seq<Subscription>, log0: seq<Delivery>, events0: seq<Event>,
                           full: seq<string>, i: nat)
  {
    && Replayed(log, events, st0, subs, log0, events0, full, i)
    && (forall k :: store.GetItem(k) == if k in full[..i] then None else st0.GetItem(k))
  }

  /** Removing the next key, which is still stored, extends the progress by one key. */
  lemma ProgressStep(store: Store, log: seq<Delivery>, events: seq<Event>,
                     st0: Store, subs: seq<Subscription>, log0: seq<Delivery>, events0: seq<Event>,
                     full: seq<string>, i: nat)
    requires Progress(store, log, events, st0, subs, log0, events0, full, i)
    requires i < |full| && Distinct(full) && full[i] in st0.items
    ensures store.GetItem(full[i]) == st0.GetItem(full[i]) != None
    ensures var e := Event(full[i], None, st0.GetItem(full[i]));
            Progress(store.RemoveItem(full[i]), log + Offer(subs, e), events + [e], st0, subs, log0, events0, full, i + 1)
  {
    DistinctPrefix(full, i);
    assert forall k :: k in full[..i + 1] <==> k in full[..i] || k == full[i] by {
      assert full[..i + 1] == full[..i] + [full[i]];
    }
    ReplayedStep(log, events, st0, subs, log0, events0, full, i);
  }

  /** The broker while the scoped `clear` runs. */
  ghost predicate Removed(b: Broker, st0: Store, subs: seq<Subscription>, log0: seq<Delivery>, events0: seq<Event>, full: seq<string>, i: nat)
    reads b
  {
    && b.Valid()
    && (full != [] ==> b.available)
    && b.callbacks == subs
    && Progress(b.store, b.log, b.events, st0, subs, log0, events0, full, i)
  }

  /**
   * The initial replay of `watch` calls the callback exactly once for each
   * stored key of the namespace that the watched pattern accepts, with the
   * key stripped and the stored value as both the new and the old value.
   */
  lemma InitialReplay(id: nat, st: Store, prefix: string, pattern: string)
    requires st.WellFormed()
    ensures var r := Replay(id, MatchEntries(st, prefix, Compile("", pattern), ScopedKeys(st.order, prefix)));
            && (forall i :: 0 <= i < |r| ==>
                  && r[i].id == id && r[i].newValue == r[i].oldValue
                  && prefix + r[i].key in st.items && r[i].newValue == Some(st.items[prefix + r[i].key]))
            && (forall i, j :: 0 <= i < j < |r| ==> r[i].key != r[j].key)
            && (forall k :: (exists i :: 0 <= i < |r| && r[i].key == k)
                           <==> prefix + k in st.items && Matches(Compile(prefix, pattern), prefix + k))
  {
    var ks := ScopedKeys(st.order, prefix);
    var es := MatchEntries(st, prefix, Compile("", pattern), ks);
    var r := Replay(id, es);
    ScopedKeysDistinct(st.order, prefix);
    MatchEntriesSpec(st, prefix, Compile("", pattern), ks);
    forall i | 0 <= i < |r|
      ensures prefix + r[i].key in st.items && r[i].newValue == Some(st.items[prefix + r[i].key])
    {
      assert r[i].key == Names(es)[i];
      ScopedKeysMember(st.order, prefix, r[i].key);
    }
    forall i, j | 0 <= i < j < |r| ensures r[i].key != r[j].key {
      assert r[i].key == Names(es)[i] && r[j].key == Names(es)[j];
    }
    forall k ensures (exists i :: 0 <= i < |r| && r[i].key == k)
                     <==> prefix + k in st.items && Matches(Compile(prefix, pattern), prefix + k)
    {
      ScopedKeysMember(st.order, prefix, k);
      UnprefixedMatch(prefix, pattern, k);
      if k in Names(es) {
        var i :| 0 <= i < |Names(es)| && Names(es)[i] == k;
        assert r[i].key == k;
      }
      if exists i :: 0 <= i < |r| && r[i].key == k {
        var i :| 0 <= i < |r| && r[i].key == k;
        assert Names(es)[i] == k;
      }
    }
  }

  /** The factory: `new StorageService(prefix)`, the prefix defaulting to the empty string. */
  function New(prefix: Option<string>): (s: StorageService)
    ensures prefix.None? ==> forall k :: s.FullKey(k) == k
    ensures prefix.Some? ==> forall k :: s.FullKey(k) == prefix.value + k
  {
    StorageService(if prefix.Some? then prefix.value else "")
  }

  datatype StorageService = StorageService(prefix: string) {

    /** The storage key behind the scoped key `key`. */
    function FullKey(key: string): string {
      prefix + key
    }

    /** `sub(p)`: the namespace `p` nested inside this one. */
    function Sub(p: string): (r: StorageService)
      ensures forall k :: r.FullKey(k) == FullKey(p + k)
      ensures StartsWith(r.prefix, prefix)
    {
      assert (prefix + p)[..|prefix|] == prefix;
      StorageService(prefix + p)
    }

    /** `get(key)`: the stored value of the scoped key, `null` when absent. */
    function Get(b: Broker, key: string): (r: Option<string>)
      reads b
      requires b.Valid()
      ensures r.Some? <==> key in ScopedKeys(b.store.order, prefix)
      ensures r.Some? ==> FullKey(key) in b.store.items && r.value == b.store.items[FullKey(key)]
    {
      ScopedKeysMember(b.store.order, prefix, key);
      b.store.GetItem(FullKey(key))
    }

    /** `set(key, value)`: the wrapped `setItem` on the full key. */
    method Set(b: Broker, key: string, value: string)
      requires b.Valid()
      modifies b`store, b`data, b`log, b`events
      ensures b.Valid()
      ensures b.store == if b.available then old(b.store).SetItem(FullKey(key), value) else old(b.store)
      ensures b.available ==> Get(b, key) == Some(value)
      ensures forall k :: k != FullKey(key) ==> b.store.GetItem(k) == old(b.store).GetItem(k)
      ensures b.data == b.store
      ensures var e := Event(FullKey(key), Some(value), old(b.store).GetItem(FullKey(key)));
              var changed := b.available && old(b.store).GetItem(FullKey(key)) != Some(value);
              && b.events == old(b.events) + (if changed then [e] else [])
              && b.log == old(b.log) + (if changed then Offer(b.callbacks, e) else [])
    {
      b.SetItem(FullKey(key), value);
    }

    /** `remove(key)`: the wrapped `removeItem` on the full key. */
    method Remove(b: Broker, key: string)
      requires b.Valid()
      modifies b`store, b`data, b`log, b`events
      ensures b.Valid()
      ensures b.store == if b.available then old(b.store).RemoveItem(FullKey(key)) else old(b.store)
      ensures Get(b, key) == None
      ensures forall k :: k != FullKey(key) ==> b.store.GetItem(k) == old(b.store).GetItem(k)
      ensures b.data == b.store
      ensures var e := Event(FullKey(key), None, old(b.store).GetItem(FullKey(key)));
              var changed := b.available && old(b.store).GetItem(FullKey(key)) != None;
              && b.events == old(b.events) + (if changed then [e] else [])
              && b.log == old(b.log) + (if changed then Offer(b.callbacks, e) else [])
    {
      b.RemoveItem(FullKey(key));
    }

    /** `keys()`: walks `storage.key(index)` and keeps the keys in the namespace, stripped. */
    method Keys(b: Broker) returns (ks: seq<string>)
      requires b.Valid()
      ensures ks == ScopedKeys(b.store.order, prefix)
      ensures !b.available ==> ks == []
    {
      ks := [];
      if b.available {
        var index := 0;
        while index < b.store.Length()
          invariant 0 <= index <= |b.store.order|
          invariant ks == ScopedKeys(b.store.order[..index], prefix)
        {
          var key := b.store.Key(index).value;
          assert b.store.order[..index + 1][..index] == b.store.order[..index];
          if StartsWith(key, prefix) {
            ks := ks + [Strip(key, prefix)];
          }
          index := index + 1;
        }
        assert b.store.order[..index] == b.store.order;
      }
    }

    /** `has(key)`: whether `keys()` lists the key. */
    method Has(b: Broker, key: string) returns (r: bool)
      requires b.Valid()
      ensures r <==> FullKey(key) in b.store.items
    {
      var ks := Keys(b);
      ScopedKeysMember(b.store.order, prefix, key);
      r := key in ks;
    }

    /**
     * The reading path of `json(key)`: `None` is `undefined`, returned when
     * `has(key)` fails; `Some(t)` is the stored text `t` handed to `JSON.parse`.
     */
    method ReadJson(b: Broker, key: string) returns (r: Option<string>)
      requires b.Valid()
      ensures r.None? <==> FullKey(key) !in b.store.items
      ensures r.Some? ==> r.value == b.store.items[FullKey(key)]
    {
      var present := Has(b, key);
      if present {
        r := Get(b, key);
      } else {
        r := None;
      }
    }

    /**
     * The scoped `clear()`: the wrapped `removeItem` for each key of `keys()`.
     * Exactly the keys of the namespace go, each with one removal event.
     */
    method Clear(b: Broker)
      requires b.Valid()
      modifies b`store, b`data, b`log, b`events
      ensures b.Valid()
      ensures forall k :: b.store.GetItem(k) == if StartsWith(k, prefix) then None else old(b.store).GetItem(k)
      ensures b.data == if ScopedKeys(old(b.store).order, prefix) == [] then old(b.data) else b.store
      ensures var full := FullKeys(prefix, ScopedKeys(old(b.store).order, prefix));
              && b.events == old(b.events) + Removals(old(b.store), full)
              && b.log == old(b.log) + DispatchAll(b.callbacks, Removals(old(b.store), full))
    {
      var ks := Keys(b);
      FullKeysOfScope(b.store, prefix);
      RemoveEach(b, ks);
    }

    /** `keys.forEach(this.remove)` over keys whose full keys are stored, each once. */
    method RemoveEach(b: Broker, ks: seq<string>)
      requires b.Valid()
      requires Distinct(FullKeys(prefix, ks)) && forall x :: x in FullKeys(prefix, ks) ==> x in b.store.items
      modifies b`store, b`data, b`log, b`events
      ensures b.Valid()
      ensures forall k :: b.store.GetItem(k) == if k in FullKeys(prefix, ks) then None else old(b.store).GetItem(k)
      ensures b.data == if ks == [] then old(b.data) else b.store
      ensures b.events == old(b.events) + Removals(old(b.store), FullKeys(prefix, ks))
      ensures b.log == old(b.log) + DispatchAll(b.callbacks, Removals(old(b.store), FullKeys(prefix, ks)))
    {
      ghost var st0, subs, log0, events0 := b.store, b.callbacks, b.log, b.events;
      ghost var full := FullKeys(prefix, ks);
      if ks != [] {
        assert full[0] in full;
        EmptyWellFormed();
      }
      for i := 0 to |ks|
        invariant Removed(b, st0, subs, log0, events0, full, i)
        invariant b.data == if i == 0 then old(b.data) else b.store
      {
        assert full[i] in full;
        RemoveNext(b, ks, i, st0, subs, log0, events0);
      }
      ReplayedAll(b.log, b.events, st0, subs, log0, events0, full);
    }

    /** One step of `keys.forEach(this.remove)`: the `i`-th key goes, with its removal event. */
    method RemoveNext(b: Broker, ks: seq<string>, i: nat, ghost st0: Store, ghost subs: seq<Subscription>, ghost log0: seq<Delivery>, ghost events0: seq<Event>)
      requires i < |ks| && Distinct(FullKeys(prefix, ks)) && FullKey(ks[i]) in st0.items
      requires Removed(b, st0, subs, log0, events0, FullKeys(prefix, ks), i)
      modifies b`store, b`data, b`log, b`events
      ensures Removed(b, st0, subs, log0, events0, FullKeys(prefix, ks), i + 1)
      ensures b.data == b.store
    {
      ProgressStep(b.store, b.log, b.events, st0, subs, log0, events0, FullKeys(prefix, ks), i);
      Remove(b, ks[i]);
    }

    /** `priv.match(pattern)`: the entries `{key: get(key)}` of the keys the unprefixed expression accepts. */
    method Match(b: Broker, pattern: string) returns (es: seq<(string, Option<string>)>)
      requires b.Valid()
      ensures es == MatchEntries(b.store, prefix, Compile("", pattern), ScopedKeys(b.store.order, prefix))
    {
      var m := Compile("", pattern);
      var ks := Keys(b);
      es := [];
      for i := 0 to |ks|
        invariant es == MatchEntries(b.store, prefix, m, ks[..i])
      {
        assert ks[..i + 1][..i] == ks[..i];
        if Matches(m, ks[i]) {
          es := es + [(ks[i], Get(b, ks[i]))];
        }
      }
      assert ks[..|ks|] == ks;
    }

    /**
     * `watch(pattern, callback, initial)`: registers the handler, then with
     * `initial` replays the current matches to the callback. A callback that
     * throws aborts the replay after its first call, and `watch` then returns
     * no unsubscribe closure (`None`); the handler stays registered.
     */
    method Watch(b: Broker, pattern: string, initial: bool, throws: bool) returns (handle: Option<nat>)
      requires b.Valid()
      modifies b`callbacks, b`listeners, b`nextId, b`log
      ensures b.Valid()
      ensures b.nextId == old(b.nextId) + 1
      ensures var s := Subscription(old(b.nextId), prefix, Compile(prefix, pattern), throws);
              && b.callbacks == old(b.callbacks) + [s]
              && b.listeners == old(b.listeners) + [s]
      ensures var r := if initial
                       then Replay(old(b.nextId), MatchEntries(b.store, prefix, Compile("", pattern), ScopedKeys(b.store.order, prefix)))
                       else [];
              if throws && r != []
              then b.log == old(b.log) + [r[0]] && handle.None?
              else b.log == old(b.log) + r && handle == Some(old(b.nextId))
    {
      var id := b.Register(prefix, Compile(prefix, pattern), throws);
      if initial {
        var es := Match(b, pattern);
        ghost var r := Replay(id, es);
        for i := 0 to |es|
          invariant b.Valid() && b.nextId == old(b.nextId) + 1
          invariant b.callbacks == old(b.callbacks) + [Subscription(id, prefix, Compile(prefix, pattern), throws)]
          invariant b.listeners == old(b.listeners) + [Subscription(id, prefix, Compile(prefix, pattern), throws)]
          invariant !throws || i == 0
          invariant b.log == old(b.log) + r[..i]
        {
          assert r[..i + 1] == r[..i] + [r[i]];
          b.Invoke(Delivery(id, es[i].0, es[i].1, es[i].1));
          if throws {
            assert r[..1] == [r[0]];
            return None;
          }
        }
        assert r[..|es|] == r;
      }
      handle := Some(id);
    }
  }
}
