/** Properties relating the cache operations of weakreference.go to each other. */
module CacheProperties {
  import opened Wrappers
  import opened WeakReference

  /** After `Add(k, v)` with a non-nil `v`, `Read(k)` returns `v` without calling the recreator. */
  lemma AddThenRead<V>(c: WeakReferences<V>, key: string, v: V, t: nat, now: nat, recreate: string -> Option<V>)
    ensures Read(Add(c, key, Some(v), t), key, now, recreate).value == Some(v)
    ensures Read(Add(c, key, Some(v), t), key, now, recreate).calls == []
  {
  }

  /** After `Add(k, v)` with a non-nil `v`, `PureRead(k)` returns `v`. */
  lemma AddThenPureRead<V>(c: WeakReferences<V>, key: string, v: V, t: nat, now: nat)
    ensures PureRead(Add(c, key, Some(v), t), key, now).value == Some(v)
  {
  }

  /** A second `Add` to the same key replaces the first one completely. */
  lemma AddOverwrites<V>(c: WeakReferences<V>, key: string, v1: Option<V>, v2: Option<V>, t1: nat, t2: nat)
    ensures Add(Add(c, key, v1, t1), key, v2, t2) == Add(c, key, v2, t2)
  {
    var a := Add(Add(c, key, v1, t1), key, v2, t2);
    var b := Add(c, key, v2, t2);
    assert a.references == b.references;
  }

  /** Reading a key the cache has never seen yields the recreator's value for
      it, and the key is then in the cache whenever that value is non-nil. */
  lemma ReadMissThenInCache<V>(c: WeakReferences<V>, key: string, t: nat, now: nat, recreate: string -> Option<V>)
    requires key !in c.references
    ensures Read(c, key, t, recreate).value == recreate(key)
    ensures InCache(Read(c, key, t, recreate).cache, key, now).hit <==> recreate(key).Some?
  {
  }

  /** A `Read` that returned a value makes a second `Read` return the same
      value without calling the recreator again. */
  lemma ReadTwice<V>(c: WeakReferences<V>, key: string, t1: nat, t2: nat, recreate: string -> Option<V>)
    requires Read(c, key, t1, recreate).value.Some?
    ensures Read(Read(c, key, t1, recreate).cache, key, t2, recreate).value == Read(c, key, t1, recreate).value
    ensures Read(Read(c, key, t1, recreate).cache, key, t2, recreate).calls == []
  {
  }

  /** `PureRead` of a key without entry creates no entry and calls no
      recreator, so a later `Read` still takes the miss path, exactly as if the
      `PureRead` had not happened. */
  lemma PureReadMissing<V>(c: WeakReferences<V>, key: string, t: nat, now: nat, recreate: string -> Option<V>)
    requires key !in c.references
    ensures PureRead(c, key, t).value.None?
    ensures Read(PureRead(c, key, t).cache, key, now, recreate) == Read(c, key, now, recreate)
  {
  }

  /** `PureRead` of a cleared entry keeps returning nil and only refreshes the entry's time. */
  lemma PureReadCleared<V>(c: WeakReferences<V>, key: string, t1: nat, t2: nat)
    requires key in c.references && c.references[key].reference.None?
    ensures PureRead(PureRead(c, key, t1).cache, key, t2).value.None?
    ensures PureRead(PureRead(c, key, t1).cache, key, t2).cache == PureRead(c, key, t2).cache
  {
    var once := PureRead(c, key, t2).cache;
    var twice := PureRead(PureRead(c, key, t1).cache, key, t2).cache;
    assert twice.references == once.references;
  }

  /** A second sweep at the same time finds nothing more to clear. */
  lemma SweepIdempotent<V>(c: WeakReferences<V>, now: nat)
    ensures Sweep(Sweep(c, now), now) == Sweep(c, now)
  {
    var once := Sweep(c, now);
    var twice := Sweep(once, now);
    forall k | k in once.references
      ensures twice.references[k] == once.references[k]
    {
      assert !Stale(once.references[k], now, once.evictAfter);
    }
    assert twice.references == once.references;
  }

  /** Stopping and restarting the collector of an active cache, with or
      without one tick in between, leaves the cache as it was: the tick while
      stopped does nothing, and a tick after the restart sweeps as before. */
  lemma StopStartRoundTrip<V>(c: WeakReferences<V>, t: nat, now: nat)
    requires c.garbageCollectorActive
    ensures StartGC(StopGC(c)) == c
    ensures StartGC(Tick(StopGC(c), t)) == c
    ensures Tick(StartGC(Tick(StopGC(c), t)), now) == Tick(c, now)
  {
  }

  /** `StartGC` resumes eviction: the next tick clears exactly the stale
      values, whatever the flag was before. */
  lemma StartGCResumesEviction<V>(c: WeakReferences<V>, now: nat)
    ensures Tick(StartGC(c), now).references.Keys == c.references.Keys
    ensures forall k :: k in c.references ==>
      (Tick(StartGC(c), now).references[k].reference.None? <==>
        c.references[k].reference.None? || c.references[k].lastAccessed + c.evictAfter < now)
  {
  }

  /** A new cache holds nothing: for every key, window and time, `PureRead`
      answers nil without changing it, `InCache` answers false, and `Read`
      falls back to the recreator. */
  lemma NewCacheIsEmpty<V>(evictAfter: nat, key: string, now: nat, recreate: string -> Option<V>)
    ensures PureRead(NewWeakReferences<V>(evictAfter), key, now) == Lookup(NewWeakReferences<V>(evictAfter), None)
    ensures !InCache(NewWeakReferences<V>(evictAfter), key, now).hit
    ensures Read(NewWeakReferences<V>(evictAfter), key, now, recreate).value == recreate(key)
    ensures Read(NewWeakReferences<V>(evictAfter), key, now, recreate).cache.references.Keys == {key}
  {
  }

  /** An entry whose last access lies within the eviction window survives a tick unchanged. */
  lemma TickWithinWindowKeeps<V>(c: WeakReferences<V>, key: string, now: nat)
    requires key in c.references
    requires now <= c.references[key].lastAccessed + c.evictAfter
    ensures key in Tick(c, now).references
    ensures Tick(c, now).references[key] == c.references[key]
  {
  }

  /** A value added at time `t` and not accessed since is gone once an active
      collector ticks after more than the eviction window. */
  lemma EvictedAfterWindow<V>(c: WeakReferences<V>, key: string, v: V, t: nat, now: nat, later: nat)
    requires c.garbageCollectorActive
    requires t + c.evictAfter < now
    ensures PureRead(Tick(Add(c, key, Some(v), t), now), key, later).value.None?
    ensures !InCache(Tick(Add(c, key, Some(v), t), now), key, later).hit
  {
  }
}
