/** The behaviours exercised by weakreference_test.go, replayed on the model
    with a clock counted in seconds and the identity recreator. */
module CacheScenarios {
  import opened Wrappers
  import opened WeakReference
  import CacheProperties

  /** The tests' recreator: the key itself is the value. */
  function BasicRecreator(key: string): Option<string>
  {
    Some(key)
  }

  /** Adding "works" under "test" and reading it back returns "works". */
  lemma AddItemPlain()
    ensures Read(Add(NewWeakReferences<string>(1), "test", Some("works"), 0), "test", 0, BasicRecreator).value
      == Some("works")
  {
  }

  /** Reading "test" from an empty cache returns the recreated "test", which is then in the cache. */
  lemma RecreatorThenInCache()
    ensures Read(NewWeakReferences<string>(1), "test", 0, BasicRecreator).value == Some("test")
    ensures InCache(Read(NewWeakReferences<string>(1), "test", 0, BasicRecreator).cache, "test", 0).hit
  {
  }

  /** An empty cache answers nil to `PureRead` and false to `InCache`. */
  lemma EmptyCache()
    ensures PureRead(NewWeakReferences<string>(1), "test", 0).value.None?
    ensures !InCache(NewWeakReferences<string>(1), "test", 0).hit
  {
    CacheProperties.NewCacheIsEmpty<string>(1, "test", 0, BasicRecreator);
  }

  /** With a one-second window, a value added at 0 survives the tick at 1
      and is cleared by the tick at 2. */
  lemma CacheEviction()
    ensures
      var added := Add(NewWeakReferences<string>(1), "test", Some("works"), 0);
      && PureRead(Tick(added, 1), "test", 1).value == Some("works")
      && PureRead(Tick(Tick(added, 1), 2), "test", 2).value.None?
  {
  }

  /** With the collector stopped, the ticks at 1 and 2 keep the value; after
      `StartGC` the ticks at 3 and 4 clear it (last access at 2). The value
      printed by the test comes from a `PureRead` of its own, which is
      replayed before the final one. */
  lemma EnableDisableGC()
    ensures
      var added := Add(StopGC(NewWeakReferences<string>(1)), "test", Some("123"), 0);
      var read := Read(Tick(Tick(added, 1), 2), "test", 2, BasicRecreator);
      var printed := PureRead(Tick(Tick(StartGC(read.cache), 3), 4), "test", 4);
      && read.value == Some("123")
      && printed.value.None?
      && PureRead(printed.cache, "test", 4).value.None?
  {
  }

  /** With a seven-second window, 123 added at 0 is returned by `Read` and by
      both `PureRead`s without calling the recreator; the test's pauses are
      nanoseconds, so every step runs at 0. */
  lemma CacheWontClearIfAccessed()
    ensures
      var added := Add(NewWeakReferences<int>(7), "test", Some(123), 0);
      var read := Read(Tick(added, 0), "test", 0, (k: string) => None);
      var first := PureRead(Tick(read.cache, 0), "test", 0);
      && read.value == Some(123) && read.calls == []
      && PureRead(Tick(first.cache, 0), "test", 0).value == Some(123)
  {
  }
}
