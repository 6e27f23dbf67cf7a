# marshall.storage in Dafny

A model of `src/marshall.storage.js`, the AngularJS `StorageService` over the
browser's `localStorage`, with proofs about it.

- `Patterns.dfy`: key prefixes, `key.substring(prefix.length)`, and the watch
  patterns `priv.regex` builds. A pattern is read as a wildcard matcher: a
  literal head, then the first `*` as `(.*)`, which accepts any run of
  characters without a line terminator, then a literal tail.
- `HostStorage.dfy`: the storage itself as a value. It holds the keys in
  `storage.key(index)` order and the map from key to string, with the native
  `getItem`, `setItem`, `removeItem`, `key`, `length` and `clear`.
- `Notification.dfy`: class `Broker`, the part of the library that mutates
  shared state. It holds:
  - the storage and the shadow snapshot `data`;
  - the `callbacks` array and the window's `storage` listeners;
  - the wrapped `Storage.prototype.setItem`, `removeItem` and `clear`;
  - `priv.triggerUpdate`, `priv.triggerBefore`, `priv.updateEvent` and
    `priv.updateData`;
  - the `storage` events sent by other windows;
  - the registration done by `watch`, and its unsubscribe closure.

  A user callback is not code here. Calling it appends a `Delivery` to the
  broker's `log`, and every canonical event handed to `priv.triggerUpdate` is
  recorded in the ghost `events`.
- `Scoped.dfy`: the `StorageService` facade, a prefix with `get`, `set`,
  `has`, `remove`, `clear`, the read path of `json`, `keys`, `sub`,
  `priv.match` and `watch`. Its reading members are functions or methods that
  change nothing. Its writing members call the broker.

Once the storage could not be obtained (`available` is false), the broker's
storage stays empty and every operation leaves it alone. This is what
`priv.safeStorage` and the `if (storage)` guards do.

A repeated call of an unsubscribe closure is modelled as the code behaves. The
closure nulled its handler, so the second call splices `callbacks.indexOf(null)`,
which is -1. That drops the last handler in `callbacks`, which belongs to
another watcher (see Findings).

## Model

| member | source | states |
|---|---|---|
| Patterns.Strip | src/marshall.storage.js:178-179 | for a key in the namespace, the prefix followed by the stripped key is the key again |
| Patterns.CompileDenotes | src/marshall.storage.js:252-254 | when the prefix has no regex metacharacter and the pattern has none but one `*`, the expression source is `^text$` for a pattern without `*` and `^head(.*)tail$` otherwise, with literal parts from the compiled matcher |
| Patterns.WildcardMatch | src/marshall.storage.js:252-254 | `a*b` under prefix `P` accepts a key iff the key is `P + a + x + b` for a middle part `x` holding no line terminator |
| Patterns.WildcardAccepts | src/marshall.storage.js:252-254 | `a*b` under prefix `P` accepts `P + a + x + b` for every `x` without a line terminator |
| Patterns.LiteralMatch | src/marshall.storage.js:252-254 | a pattern without `*` accepts exactly the prefixed pattern |
| Patterns.UserWildcardExample | src/marshall.storage.js:252-254 | `user:*` accepts `user:1` and `user:42` and rejects `users:1` and `user` |
| Patterns.MatchInScope | src/marshall.storage.js:207-213 | a key the prefixed expression accepts lies in the namespace, so the substring handed to the callback is the key minus the prefix |
| Patterns.UnprefixedMatch | src/marshall.storage.js:232-240 | the unprefixed expression accepts the stripped key `k` iff the prefixed one accepts the full key `prefix + k` |
| Patterns.PrefixIsolation | src/marshall.storage.js:207-214 | with the watched prefix escaped (see Findings), when neither prefix extends the other, no key of one namespace is accepted by a pattern watched in the other |
| HostStorage.Store.Key | src/marshall.storage.js:175-176 | `key(index)` is `null` exactly outside `0 .. length - 1`; inside, it is a stored key |
| HostStorage.Store.SetItem | src/marshall.storage.js:337-338 | after the native `setItem`, the key reads the new value, every other key reads as before, and each key is still enumerated once |
| HostStorage.Store.RemoveItem | src/marshall.storage.js:337-338 | after the native `removeItem`, the key reads `null`, every other key reads as before, and each key is still enumerated once |
| Notification.NoticeSpec | src/marshall.storage.js:207-213 | `updateEvent` calls the user callback at most once, exactly when the prefixed expression accepts the key, and then with the key minus the prefix and the event's new and old values |
| Notification.IndexOf | src/marshall.storage.js:157 | `indexOf` is -1 iff no handler of the subscription is present; otherwise it is the first position holding it |
| Notification.RemoveIdSpec | src/marshall.storage.js:157-158 | removing a subscription keeps exactly the other subscriptions and keeps ids distinct |
| Notification.SpliceAtIndexOf | src/marshall.storage.js:157 | while its handler is still in `callbacks`, the first unsubscribe call removes exactly that handler; the others keep their order |
| Notification.SpliceMissing | src/marshall.storage.js:157-159 | a splice at `indexOf` of an absent handler removes the last handler |
| Notification.UnwatchUndoesWatch | src/marshall.storage.js:142-158 | removing the subscription `watch` just appended restores the earlier list |
| Notification.RepeatedUnsubscribe | src/marshall.storage.js:156-160 | with watchers `a` and `b`, calling `a`'s closure twice leaves no handler; the intended splice keeps `b` |
| Notification.ReleaseOnceSpec | src/marshall.storage.js:156-160 | the intended splice removes exactly the subscription, and a repeated call changes nothing |
| Notification.Broker.constructor | src/marshall.storage.js:323-389 | the wrappers are installed with empty `callbacks` and listeners; the final `updateData` leaves the snapshot equal to the storage, which is empty when unavailable |
| Notification.Broker.UpdateData | src/marshall.storage.js:286-290 | the snapshot becomes the storage |
| Notification.Broker.Notify | src/marshall.storage.js:207-214 | on a match the callback gets the stripped key and both values; the snapshot is refreshed unless that callback threw |
| Notification.Broker.TriggerUpdate | src/marshall.storage.js:264-276 | the event is offered to every handler in `callbacks`, in order, and a throwing handler does not stop the rest; the snapshot is refreshed iff some handler reached `updateData` |
| Notification.Broker.TriggerBefore | src/marshall.storage.js:299-304 | one removal event `(key, null, old value)` per key of `before`, in order, each offered to every handler |
| Notification.Broker.SetItem | src/marshall.storage.js:333-353 | the native `setItem` runs; one event `(key, new, old)` is emitted iff the stored value changed; the snapshot ends equal to the storage; no released subscription is called |
| Notification.Broker.RemoveItem | src/marshall.storage.js:333-353 | the native `removeItem` runs; one event `(key, null, old)` is emitted iff the key was present; the snapshot ends equal to the storage; no released subscription is called |
| Notification.Broker.Clear | src/marshall.storage.js:366-384 | storage and snapshot end empty; one removal event per key held before, in storage order, offered to every handler |
| Notification.Broker.RemoteEvent | src/marshall.storage.js:207-224 | the other window's change is applied; a keyed event reaches each listener's callback on a match; a `null` key replays the snapshot as removals once and empties the snapshot when some listener is registered; with none, nothing is replayed and the snapshot is unchanged |
| Notification.Broker.RemoteChange | src/marshall.storage.js:207-214 | every listener handles the keyed event in order; the snapshot is refreshed iff some listener reached `updateData` |
| Notification.Broker.RemoteClear | src/marshall.storage.js:215-223 | the first listener replays the old snapshot to every handler through `triggerBefore` and empties it; later listeners replay nothing |
| Notification.Broker.Register | src/marshall.storage.js:142-143 | `watch` appends its handler to `callbacks` and to the window's listeners under a fresh id |
| Notification.Broker.Invoke | src/marshall.storage.js:152 | a direct callback call appends exactly its delivery |
| Notification.Broker.Unwatch | src/marshall.storage.js:156-160 | the first call splices at `indexOf` of its handler and removes its listener: while the handler is still in `callbacks` it removes exactly that handler, otherwise (another closure's repeated call took it) it removes the last handler, someone else's; a repeated call drops the last handler in `callbacks` and leaves the listeners alone |
| Scoped.ScopedKeysMember | src/marshall.storage.js:171-186 | `keys()` lists `k` iff the storage holds `prefix + k` |
| Scoped.ScopedKeysDistinct | src/marshall.storage.js:171-186 | `keys()` lists each key at most once |
| Scoped.ScopedKeysAppend | src/marshall.storage.js:175-181 | `keys()` keeps storage index order |
| Scoped.ScopedKeysNested | src/marshall.storage.js:195-197 | the keys of `sub(p)` are the keys of namespace `p` within the parent's keys |
| Scoped.FullKeysOfScope | src/marshall.storage.js:97-98 | the full keys behind `keys()` are exactly the stored keys in the namespace, each once |
| Scoped.MatchEntriesSpec | src/marshall.storage.js:232-243 | `priv.match` keeps exactly the keys its expression accepts, each once, with the stored value |
| Scoped.InitialReplay | src/marshall.storage.js:147-153 | the initial replay calls the callback once per stored key in the namespace that the prefixed pattern accepts, with the stripped key and the stored value as new and old value |
| Scoped.New | src/marshall.storage.js:52-54 | the factory's service prepends the given prefix to every key, or none when the prefix is absent |
| Scoped.StorageService.Sub | src/marshall.storage.js:195-197 | `sub(p)` addresses `k` at the parent's key `p + k` and lies inside the parent's namespace |
| Scoped.StorageService.Get | src/marshall.storage.js:62-64 | `get(key)` is non-null iff `keys()` lists the key, and is then the stored value of the full key |
| Scoped.StorageService.Set | src/marshall.storage.js:72-74 | the native `setItem` runs on the full key: afterwards `get(key)` is the value, other keys are unchanged and the snapshot equals the storage; one event iff the value changed |
| Scoped.StorageService.Remove | src/marshall.storage.js:90-92 | afterwards `get(key)` is `null` and other keys are unchanged; one event iff the key was present |
| Scoped.StorageService.Keys | src/marshall.storage.js:171-186 | the loop over `storage.key(index)` returns the namespace's keys, stripped, in storage order; nothing when the storage is unavailable |
| Scoped.StorageService.Has | src/marshall.storage.js:81-83 | `has(key)` iff the full key is stored |
| Scoped.StorageService.ReadJson | src/marshall.storage.js:110-124 | the read path of `json(key)` gives `None` iff the full key is not stored, otherwise the stored text handed to `JSON.parse`; the parse is left out |
| Scoped.StorageService.Clear | src/marshall.storage.js:97-99 | exactly the keys in the namespace are removed, others untouched; one removal event per removed key, in `keys()` order; the snapshot ends equal to the storage once a key was removed, and is left as it was otherwise |
| Scoped.StorageService.RemoveEach | src/marshall.storage.js:98 | removing each listed key in turn removes exactly those keys, each with its removal event; the snapshot ends equal to the storage unless the list is empty |
| Scoped.StorageService.Match | src/marshall.storage.js:232-243 | the loop over `keys()` builds the entries the unprefixed expression accepts, with `get` of each |
| Scoped.StorageService.Watch | src/marshall.storage.js:137-161 | registers one handler and listener under a fresh id; with `initial`, replays the matches to the callback and returns the unsubscribe handle, or returns none after the first call when the callback throws |

## Findings

| source | as written | input that shows it | evidently intended | confidence | as-written member | corrected member |
|---|---|---|---|---|---|---|
| src/marshall.storage.js:156-160 | the closure nulls `updateEvent`, so a second call splices `callbacks.indexOf(null)`, which is -1, and removes the last handler in `callbacks` | watchers `a` then `b`; `a`'s unsubscribe called twice: `b` stops receiving same-window events (its window listener stays); with a third watcher `c`, the second call takes `c`'s handler and `c`'s own later unsubscribe then takes `b`'s | a repeated call changes nothing | high (not executed) | Notification.RepeatedUnsubscribe | Notification.ReleaseOnceSpec |
| src/marshall.storage.js:252-254 | the prefix is put into the expression unescaped, so a metacharacter in it widens the namespace a watcher sees | `storageService('user.').watch('*', cb)`, then `storageService('users').set('1', 'x')`: `^user.(.*)$` accepts `users1` and `cb` gets `('1', 'x', null)` | a watcher sees only keys of its own namespace | high (not executed) | Patterns.UnescapedPrefixLeak | Patterns.PrefixIsolation |

`Broker.Unwatch` follows the code as written. `ReleaseOnce` is the splice as
intended, with its property proved beside it.

`WrittenWatchAll` reads `^prefix(.*)$` as written, for a prefix whose only
metacharacter is `.`. `Compile`, which the rest of the model uses, reads the
prefix as escaped, and `PrefixIsolation` is proved for that reading.

## Left out

- `$rootScope.$apply`, `$$phase` and `wrapFn`: AngularJS digest scheduling has no effect on the stored data or on which callbacks run.
- The write path of `json(key, value)`: `JSON.stringify` and `JSON.parse` are not modelled; `ReadJson` returns the stored text that would be parsed, and a parse failure (`undefined`) is not distinguished from it.
- `console.error` on a throwing callback: output only.
- Exceptions from the native storage inside `priv.safeStorage` (a quota error, a blocked storage) and from patching `Storage.prototype`: a storage call that fails is not modelled; only an unavailable storage is.
- The patched prototype also serves `sessionStorage`; only the one `localStorage` store is modelled.
- Keys and values are strings; JavaScript's conversion of other argument types to strings is not modelled, nor is `null` read as the text `"null"` by `regex.test`. An event with a `null` key never matches.
- Patterns.Compile: gives the wildcard reading to every pattern. A prefix or pattern holding other regular-expression metacharacters, or a second `*`, is read literally, whereas the real expression interprets them; `CompileDenotes` states on which inputs the two agree. `(.*)` is read as JavaScript's `.` without the `s` flag, over whole characters: surrogate halves are not modelled.
- `storage.key(index)` order is user-agent defined; the model appends a new key after the existing ones. `Object.keys` puts integer-like keys first; the snapshot copies keep storage order instead.
- A callback that watches or unsubscribes while an event is being dispatched: `callbacks` is fixed for one dispatch.
- A throwing callback is modelled by a per-subscription flag (`throws`) saying it throws on every call, not by callback code.
- A `storage` event from another window is modelled with its change already applied to the shared storage, as the host delivers it; event queuing across windows is not modelled.
- Scoped.StorageService.Watch: replays the matches in storage order, whereas `Object.keys(matches)` lists integer-like keys first, in ascending numeric order; `InitialReplay` states which calls are made and with what, independent of order.
- Scoped.StorageService.Clear: states which keys remain and their values, not the enumeration order of the remaining keys.
