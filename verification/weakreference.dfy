/** A model of the self-repopulating cache of weakreference.go.

    The cache maps string keys to entries. An entry holds an optional value,
    its recreation data and the time it was last accessed. A value that has
    not been accessed for longer than the eviction window is cleared by the
    background sweep, but its entry (and key) is never removed; `Read`
    refills a missing or cleared value by calling the user's recreator.

    `Add`, `Read`, `PureRead` and the sweep run under one exclusive lock, and
    `StopGC`/`StartGC` write a single flag, so each operation is modelled as
    one atomic step: a pure function from the old state (and the current time
    `now`) to the new state and the operation's result. */
module WeakReference {
  import opened Wrappers

  /** One cache slot (the Go struct `WeakReference`). `reference` is `None`
      when the value is nil, i.e. never set or cleared by the sweep. */
  datatype WeakReference<V> = WeakReference(
    reference: Option<V>,
    recreationData: string,
    lastAccessed: nat)

  /** The cache (the Go struct `weakReferences`). The recreator is fixed at
      construction in the source; here it is passed to `Read`, the only
      operation that calls it. */
  datatype WeakReferences<V> = WeakReferences(
    references: map<string, WeakReference<V>>,
    evictAfter: nat,
    garbageCollectorActive: bool)

  /** The result of `Read`: the new state, the value returned, and the keys
      the recreator was called with, in call order. */
  datatype ReadResult<V> = ReadResult(
    cache: WeakReferences<V>,
    value: Option<V>,
    calls: seq<string>)

  /** The result of `PureRead`: the new state and the value returned. */
  datatype Lookup<V> = Lookup(cache: WeakReferences<V>, value: Option<V>)

  /** The result of `InCache`: the new state and the answer. */
  datatype Probe<V> = Probe(cache: WeakReferences<V>, hit: bool)

  /** The two states have the same eviction window and GC flag. */
  predicate SameSettings<V>(a: WeakReferences<V>, b: WeakReferences<V>)
  {
    a.evictAfter == b.evictAfter && a.garbageCollectorActive == b.garbageCollectorActive
  }

  /** Every key of `before` other than `key` maps to the same entry in `after`. */
  ghost predicate OthersUnchanged<V>(before: WeakReferences<V>, after: WeakReferences<V>, key: string)
  {
    forall j :: j in before.references && j != key ==>
      j in after.references && after.references[j] == before.references[j]
  }

  /** A new, empty cache; the garbage collector starts enabled. */
  function NewWeakReferences<V>(evictAfter: nat): (r: WeakReferences<V>)
    ensures r.references == map[]
    ensures r.evictAfter == evictAfter && r.garbageCollectorActive
  {
    WeakReferences(map[], evictAfter, true)
  }

  /** Disables the sweep; nothing else changes. */
  function StopGC<V>(c: WeakReferences<V>): (r: WeakReferences<V>)
    ensures !r.garbageCollectorActive
    ensures r.references == c.references && r.evictAfter == c.evictAfter
  {
    c.(garbageCollectorActive := false)
  }

  /** Enables the sweep; nothing else changes. */
  function StartGC<V>(c: WeakReferences<V>): (r: WeakReferences<V>)
    ensures r.garbageCollectorActive
    ensures r.references == c.references && r.evictAfter == c.evictAfter
  {
    c.(garbageCollectorActive := true)
  }

  /** Stores the entry `w` under `key`, overwriting any previous entry. */
  function AddWeakRef<V>(c: WeakReferences<V>, key: string, w: WeakReference<V>): (r: WeakReferences<V>)
    ensures r.references.Keys == c.references.Keys + {key}
    ensures r.references[key] == w
    ensures OthersUnchanged(c, r, key)
    ensures SameSettings(c, r)
  {
    c.(references := c.references[key := w])
  }

  /** Stores `ref` under `key` with the key as recreation data, stamped `now`. */
  function Add<V>(c: WeakReferences<V>, key: string, ref: Option<V>, now: nat): (r: WeakReferences<V>)
    ensures r.references.Keys == c.references.Keys + {key}
    ensures r.references[key].reference == ref
    ensures r.references[key].recreationData == key
    ensures r.references[key].lastAccessed == now
    ensures OthersUnchanged(c, r, key)
    ensures SameSettings(c, r)
  {
    AddWeakRef(c, key, WeakReference(ref, key, now))
  }

  /** Returns the cached value for `key`, recreating it when the key has no
      entry or its value is nil. The body follows the source's three steps:
      create a missing entry, refill a nil value, stamp the access time. */
  function Read<V>(c: WeakReferences<V>, key: string, now: nat, recreate: string -> Option<V>): (r: ReadResult<V>)
    ensures r.cache.references.Keys == c.references.Keys + {key}
    ensures OthersUnchanged(c, r.cache, key)
    ensures SameSettings(c, r.cache)
    ensures r.cache.references[key].lastAccessed == now
    ensures r.value == r.cache.references[key].reference
    ensures forall i :: 0 <= i < |r.calls| ==> r.calls[i] == key
    // a key without entry: a new entry recreated from the key itself; a nil
    // recreation is retried once by the second step
    ensures key !in c.references ==>
      && r.value == recreate(key)
      && r.cache.references[key].recreationData == key
      && r.calls == (if recreate(key).Some? then [key] else [key, key])
    // a cached value: returned as is, without calling the recreator
    ensures key in c.references && c.references[key].reference.Some? ==>
      && r.value == c.references[key].reference
      && r.cache.references[key].recreationData == c.references[key].recreationData
      && r.calls == []
    // a cleared value: refilled in the same entry
    ensures key in c.references && c.references[key].reference.None? ==>
      && r.value == recreate(key)
      && r.cache.references[key].recreationData == c.references[key].recreationData
      && r.calls == [key]
    ensures r.value.None? <==> (key !in c.references || c.references[key].reference.None?) && recreate(key).None?
  {
    var (w0, calls0) :=
      if key in c.references then (c.references[key], [])
      else (WeakReference(recreate(key), key, 0), [key]);
    var (w1, calls1) :=
      if w0.reference.None? then (w0.(reference := recreate(key)), calls0 + [key])
      else (w0, calls0);
    var w2 := w1.(lastAccessed := now);
    ReadResult(c.(references := c.references[key := w2]), w2.reference, calls1)
  }

  /** Returns the value stored for `key` without calling the recreator. An
      existing entry has its access time refreshed, even when its value is nil. */
  function PureRead<V>(c: WeakReferences<V>, key: string, now: nat): (r: Lookup<V>)
    ensures r.cache.references.Keys == c.references.Keys
    ensures OthersUnchanged(c, r.cache, key)
    ensures SameSettings(c, r.cache)
    ensures key !in c.references ==> r.value.None? && r.cache == c
    ensures key in c.references ==>
      && r.value == c.references[key].reference
      && r.cache.references[key].reference == c.references[key].reference
      && r.cache.references[key].recreationData == c.references[key].recreationData
      && r.cache.references[key].lastAccessed == now
  {
    if key !in c.references then Lookup(c, None)
    else
      var w := c.references[key].(lastAccessed := now);
      Lookup(c.(references := c.references[key := w]), w.reference)
  }

  /** Whether `key` currently holds a non-nil value; has the side effect of `PureRead`. */
  function InCache<V>(c: WeakReferences<V>, key: string, now: nat): (r: Probe<V>)
    ensures r.hit <==> key in c.references && c.references[key].reference.Some?
    ensures r.cache == PureRead(c, key, now).cache
  {
    var l := PureRead(c, key, now);
    Probe(l.cache, l.value.Some?)
  }

  /** An entry the sweep at time `now` clears: its value is non-nil and it was
      last accessed strictly before `now - evictAfter`. */
  predicate Stale<V>(w: WeakReference<V>, now: nat, evictAfter: nat)
  {
    w.lastAccessed < now - evictAfter && w.reference.Some?
  }

  /** One entry after the sweep. */
  function Evict<V>(w: WeakReference<V>, now: nat, evictAfter: nat): WeakReference<V>
  {
    if Stale(w, now, evictAfter) then w.(reference := None) else w
  }

  /** One sweep at time `now`: clears every stale entry's value and keeps every key. */
  function Sweep<V>(c: WeakReferences<V>, now: nat): (r: WeakReferences<V>)
    ensures r.references.Keys == c.references.Keys
    ensures SameSettings(c, r)
    ensures forall k :: k in c.references ==>
      && r.references[k].recreationData == c.references[k].recreationData
      && r.references[k].lastAccessed == c.references[k].lastAccessed
    ensures forall k :: k in c.references ==>
      (r.references[k].reference.None? <==>
        c.references[k].reference.None? || c.references[k].lastAccessed + c.evictAfter < now)
    ensures forall k :: k in c.references && r.references[k].reference.Some? ==>
      r.references[k] == c.references[k]
  {
    c.(references := map k | k in c.references :: Evict(c.references[k], now, c.evictAfter))
  }

  /** The sweep as the source writes it: a loop over the entries that clears
      the value of each stale one in place. */
  method GarbageCollect<V>(c: WeakReferences<V>, now: nat) returns (r: WeakReferences<V>)
    ensures r == Sweep(c, now)
  {
    var refs := c.references;
    var todo := c.references.Keys;
    while todo != {}
      invariant todo <= c.references.Keys
      invariant refs.Keys == c.references.Keys
      invariant forall k :: k in refs ==>
        refs[k] == (if k in todo then c.references[k] else Evict(c.references[k], now, c.evictAfter))
      decreases |todo|
    {
      var k :| k in todo;
      if refs[k].lastAccessed < now - c.evictAfter && refs[k].reference.Some? {
        refs := refs[k := refs[k].(reference := None)];
      }
      todo := todo - {k};
    }
    r := c.(references := refs);
  }

  /** One iteration of the background loop: sweep only while the collector is active. */
  function Tick<V>(c: WeakReferences<V>, now: nat): (r: WeakReferences<V>)
    ensures !c.garbageCollectorActive ==> r == c
    ensures r.references.Keys == c.references.Keys
    ensures SameSettings(c, r)
    ensures forall k :: k in c.references ==>
      && r.references[k].recreationData == c.references[k].recreationData
      && r.references[k].lastAccessed == c.references[k].lastAccessed
    ensures forall k :: k in c.references && r.references[k].reference.Some? ==>
      r.references[k] == c.references[k]
    ensures c.garbageCollectorActive ==> forall k :: k in c.references ==>
      (r.references[k].reference.None? <==>
        c.references[k].reference.None? || c.references[k].lastAccessed + c.evictAfter < now)
  {
    if c.garbageCollectorActive then Sweep(c, now) else c
  }
}
