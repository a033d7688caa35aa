# go-WeakReference, modelled in Dafny

`weakreference.go` is a self-repopulating cache. It maps string keys to
entries, and each entry holds an optional value (`Reference`), recreation
data and a last-access time. `Read` returns the cached value. When the key
has no entry, or its value is nil, `Read` calls the user's recreator and
stores the result. A background loop sweeps once per second while the
garbage-collector flag is set. Each sweep clears the value of every entry
that was last accessed more than `EvictAfter` ago. The entry itself is never
removed. `Add`, `Read`, `PureRead` and the sweep hold one exclusive lock, and
`StopGC`/`StartGC` write a single flag, so the model treats each operation as
one atomic step from state to state.

- `wrappers.dfy`: `Option`, standing for a nil or non-nil `interface{}`.
- `weakreference.dfy` (module `WeakReference`): the `WeakReference` entry and
  the `WeakReferences` cache as immutable datatypes, and every operation as a
  pure function of the state and the clock reading `now`. `GarbageCollect`
  is the sweep written as the source's loop over the map, proved equal to the
  functional `Sweep`. `Tick` is one background-loop iteration.
- `properties.dfy` (module `CacheProperties`): lemmas relating the operations.
- `trace.dfy` (module `CacheTrace`): runs as sequences of timestamped steps,
  and lemmas about whole runs.
- `scenarios.dfy` (module `CacheScenarios`): the behaviours of
  `weakreference_test.go` as concrete lemmas, with the clock in seconds.

Modelling choices:
- Time is a `nat` clock passed to every operation. `EvictAfter` is a `nat`.
  An entry is stale at `now` when its value is non-nil and
  `lastAccessed < now - evictAfter` (Go's strict `Before`).
- The recreator is a total function `string -> Option<V>`. It is passed to
  `Read` (and to `Run`) rather than stored in the state.
- `Read` also returns the list of keys it passed to the recreator. This makes
  "does not call the recreator" and "calls it twice" statable.

Behaviours of the code a caller may not expect:
- `PureRead` refreshes the access time of every existing entry, including one
  whose value is nil (weakreference.go:97).
- `Read` can return nil: it returns whatever the recreator produced. On a key
  with no entry it calls the recreator twice when the first call returns nil
  (weakreference.go:71-80).
- `AddWeakRef` stores any entry. Its `RecreationData` need not equal the key.
  `Read` always calls the recreator with the key, never with `RecreationData`.

## Model

| member | source | states |
|---|---|---|
| WeakReference.NewWeakReferences | weakreference.go:22-30 | a new cache has no entries, the given eviction window, and the collector enabled |
| WeakReference.StopGC | weakreference.go:43-45 | clears the collector flag and leaves entries and window unchanged |
| WeakReference.StartGC | weakreference.go:47-49 | sets the collector flag and leaves entries and window unchanged |
| WeakReference.AddWeakRef | weakreference.go:51-56 | the key maps to the given entry; every other key keeps its entry; flag and window unchanged |
| WeakReference.Add | weakreference.go:58-64 | the key maps to an entry holding the value, the key as recreation data and `now` as access time; all other keys unchanged |
| WeakReference.Read | weakreference.go:66-85 | a missing key gets an entry recreated from the key (the recreator is called twice if it yields nil); a cached value is returned without any recreator call; a nil value is refilled in the same entry with one call; the key's access time becomes `now`; no other entry changes; the result is nil exactly when the key was not cached and the recreator yields nil |
| WeakReference.PureRead | weakreference.go:87-100 | a missing key returns nil and leaves the state unchanged; an existing entry returns its value and gets access time `now`, even when the value is nil; no other entry changes |
| WeakReference.InCache | weakreference.go:102-104 | true exactly when the key has an entry with a non-nil value; the state afterwards is the one `PureRead` leaves |
| WeakReference.Sweep | weakreference.go:106-118 | keeps every key, recreation data and access time; a value becomes nil exactly when it was nil or its access time plus the window is before `now`; a surviving value's entry is unchanged |
| WeakReference.GarbageCollect | weakreference.go:106-118 | the loop over the map that clears stale entries in place ends in the state `Sweep` describes |
| WeakReference.Tick | weakreference.go:32-39 | with the flag off the state is unchanged; with it on, exactly the stale values are cleared; every entry keeps its recreation data and access time; keys, flag and window unchanged |
| CacheProperties.AddThenRead | weakreference_test.go:12-22 | after adding a non-nil value, `Read` returns it without calling the recreator |
| CacheProperties.AddThenPureRead | weakreference.go:58-100 | after adding a non-nil value, `PureRead` returns it |
| CacheProperties.AddOverwrites | weakreference.go:51-64 | a second `Add` to a key leaves the same state as if the first never happened |
| CacheProperties.ReadMissThenInCache | weakreference_test.go:63-74 | `Read` of an unseen key returns the recreator's value, and `InCache` is then true exactly when that value is non-nil |
| CacheProperties.ReadTwice | weakreference.go:66-85 | once `Read` returned a value, a second `Read` returns the same value without calling the recreator |
| CacheProperties.PureReadMissing | weakreference.go:88-100 | `PureRead` of a key without entry returns nil and creates no entry, so a later `Read` behaves exactly as without it (same value, same recreator calls, same state) |
| CacheProperties.PureReadCleared | weakreference.go:88-100 | on an entry with a nil value, repeated `PureRead`s keep returning nil and only refresh that entry's access time |
| CacheProperties.SweepIdempotent | weakreference.go:106-118 | a second sweep at the same time changes nothing |
| CacheProperties.StopStartRoundTrip | weakreference.go:32-49 | on an active cache, `StopGC` then `StartGC`, with no tick or one tick in between, gives back the same cache, and the next tick sweeps as it would have without the pause |
| CacheProperties.StartGCResumesEviction | weakreference.go:32-49 | after `StartGC`, from any state, the next tick keeps every key and clears exactly the values that were nil or last accessed more than the window before `now` |
| CacheProperties.NewCacheIsEmpty | weakreference.go:22-30 | for every window, key and time, a new cache gives nil from `PureRead` without changing, false from `InCache`, and from `Read` the recreator's value under a single new key |
| CacheProperties.TickWithinWindowKeeps | weakreference.go:110-116 | an entry accessed within the window survives a tick unchanged |
| CacheProperties.EvictedAfterWindow | weakreference_test.go:32-44 | a value added at `t` and not accessed since is gone after a tick of an active collector later than `t` plus the window: `PureRead` yields nil and `InCache` false |
| CacheTrace.Apply | weakreference.go:43-118 | no step removes a key or changes the window; only `StartGC` and `StopGC` change the flag |
| CacheTrace.Run | weakreference.go:32-118 | over a whole run the key set only grows and the window stays fixed |
| CacheTrace.StepKeepsValue | weakreference.go:66-118 | a step that does not store nil under a cached key, and is not a tick outside its window, keeps a non-nil value and sets its access time as the step dictates; unless the step is an `Add` or `AddWeakRef` to that key, the value is the same one |
| CacheTrace.KeptWarmStaysCached | weakreference_test.go:75-100 | a key whose every background tick falls within the window of its latest access, and that is never given nil, keeps a non-nil value through any run |
| CacheTrace.StoppedTicksAreInert | weakreference.go:32-45 | while the collector stays stopped, a run ends in the same state as the same run with its ticks removed |
| CacheScenarios.AddItemPlain | weakreference_test.go:12-22 | adding "works" under "test" and reading it returns "works" |
| CacheScenarios.RecreatorThenInCache | weakreference_test.go:23-31 | reading "test" from an empty cache with the identity recreator returns "test", which is then in the cache |
| CacheScenarios.EmptyCache | weakreference_test.go:45-62 | an empty cache gives nil from `PureRead` and false from `InCache` |
| CacheScenarios.CacheEviction | weakreference_test.go:32-44 | with a one-second window, a value added at 0 survives the tick at 1 and is cleared by the tick at 2 |
| CacheScenarios.CacheWontClearIfAccessed | weakreference_test.go:75-100 | 123 added and read at time 0 is returned by `Read` without a recreator call and by the later `PureRead` |
| CacheScenarios.EnableDisableGC | weakreference_test.go:101-127 | with the collector stopped the ticks keep the value; after `StartGC` a later tick clears it, and both the printed `PureRead` and the final one return nil |

## Left out

- The background goroutine, its endless loop and its one-second sleep (weakreference.go:32-39). One loop iteration is the step `Tick`; its pacing is the clock readings of the steps.
- The `sync.RWMutex` and the unsynchronised reads and writes of `GarbageCollectorActive`. The lock only serialises steps that the model already treats as atomic. The loop tests the flag without the lock (weakreference.go:34), so a sweep it has already decided on can run after a `StopGC`. Runs of `CacheTrace` stand for the executions in which no `StopGC` falls between the loop's flag test and its sweep.
- `time.Now()` and `time.Duration`. They are replaced by a `nat` clock reading per step and a `nat` window. A negative `EvictAfter` cannot be expressed. Runs do not assume that the clock is monotonic.
- The unused `ExtraDebug` field.
- `AddWeakRef` with a nil pointer. Go stores it; `PureRead` of that key then returns nil, while `Read` and the sweep dereference it and panic. The model's entries are never nil.
- Pointer sharing. Go stores `*WeakReference`, so a caller can mutate an entry after `AddWeakRef`, and one pointer stored under two keys shares its updates. The model gives entries value semantics.
- The recreator's panics and side effects. The recreator is a pure, total function, fixed for a cache; the model passes it to `Read` and `Run` instead of storing it in the state.
- The dynamic typing of `interface{}` beyond "value or nil". The value type is a type parameter, and Go's `==` on interface values (which panics on uncomparable types) is not modelled.
- The test file's logging and sleeps. `time.Sleep(4)` at weakreference_test.go:81, 88 and 93 lasts 4 nanoseconds, so `CacheWontClearIfAccessed` runs every step at time 0. The timing claim behind that test is stated by `CacheTrace.KeptWarmStaysCached`.
