/** Runs of the cache: a sequence of timestamped steps, each one caller
    operation or one iteration of the background loop. `Add`, `Read`,
    `PureRead` and the sweep hold the cache's lock throughout, but the loop
    tests the collector flag without it; a run stands for an execution in
    which no `StopGC` falls between the loop's flag test and its sweep. */
module CacheTrace {
  import opened Wrappers
  import opened WeakReference

  /** One step: a caller operation, a GC toggle, or one background-loop iteration. */
  datatype Op<V> =
    | AddOp(key: string, ref: Option<V>)
    | AddWeakRefOp(key: string, entry: WeakReference<V>)
    | ReadOp(key: string)
    | PureReadOp(key: string)
    | InCacheOp(key: string)
    | StartGCOp
    | StopGCOp
    | TickOp

  /** A step and the clock reading at which it runs. */
  datatype Step<V> = Step(op: Op<V>, now: nat)

  /** The state after one step; `recreate` is the cache's recreator. */
  function Apply<V>(c: WeakReferences<V>, s: Step<V>, recreate: string -> Option<V>): (r: WeakReferences<V>)
    ensures c.references.Keys <= r.references.Keys
    ensures r.evictAfter == c.evictAfter
    ensures s.op.StartGCOp? ==> r.garbageCollectorActive
    ensures s.op.StopGCOp? ==> !r.garbageCollectorActive
    ensures !s.op.StartGCOp? && !s.op.StopGCOp? ==> r.garbageCollectorActive == c.garbageCollectorActive
  {
    match s.op
    case AddOp(k, v) => Add(c, k, v, s.now)
    case AddWeakRefOp(k, w) => AddWeakRef(c, k, w)
    case ReadOp(k) => Read(c, k, s.now, recreate).cache
    case PureReadOp(k) => PureRead(c, k, s.now).cache
    case InCacheOp(k) => InCache(c, k, s.now).cache
    case StartGCOp => StartGC(c)
    case StopGCOp => StopGC(c)
    case TickOp => Tick(c, s.now)
  }

  /** The state after a whole run. No step removes a key, so keys only accumulate. */
  function Run<V>(c: WeakReferences<V>, trace: seq<Step<V>>, recreate: string -> Option<V>): (r: WeakReferences<V>)
    ensures c.references.Keys <= r.references.Keys
    ensures r.evictAfter == c.evictAfter
    decreases |trace|
  {
    if |trace| == 0 then c else Run(Apply(c, trace[0], recreate), trace[1..], recreate)
  }

  /** The step stores a nil value under `key`. */
  predicate Clears<V>(op: Op<V>, key: string)
  {
    || (op.AddOp? && op.key == key && op.ref.None?)
    || (op.AddWeakRefOp? && op.key == key && op.entry.reference.None?)
  }

  /** The access time `key` carries after the step, given `last` before it. */
  function NextAccess<V>(s: Step<V>, key: string, last: nat): nat
  {
    match s.op
    case AddWeakRefOp(k, w) => if k == key then w.lastAccessed else last
    case AddOp(k, _) => if k == key then s.now else last
    case ReadOp(k) => if k == key then s.now else last
    case PureReadOp(k) => if k == key then s.now else last
    case InCacheOp(k) => if k == key then s.now else last
    case _ => last
  }

  /** In the run, `key` is never given a nil value and every background
      iteration happens within the eviction window of its latest access
      (`last` being the access time at the start). */
  predicate KeptWarm<V>(trace: seq<Step<V>>, key: string, last: nat, evictAfter: nat)
    decreases |trace|
  {
    || |trace| == 0
    || (&& (trace[0].op.TickOp? ==> trace[0].now <= last + evictAfter)
        && !Clears(trace[0].op, key)
        && KeptWarm(trace[1..], key, NextAccess(trace[0], key, last), evictAfter))
  }

  /** One step of a warm key keeps a non-nil value and records its access
      time; unless the step stores into that key, the value is the same one. */
  lemma StepKeepsValue<V>(c: WeakReferences<V>, s: Step<V>, key: string, recreate: string -> Option<V>)
    requires key in c.references && c.references[key].reference.Some?
    requires s.op.TickOp? ==> s.now <= c.references[key].lastAccessed + c.evictAfter
    requires !Clears(s.op, key)
    ensures key in Apply(c, s, recreate).references
    ensures Apply(c, s, recreate).references[key].reference.Some?
    ensures Apply(c, s, recreate).references[key].lastAccessed == NextAccess(s, key, c.references[key].lastAccessed)
    ensures !(s.op.AddOp? && s.op.key == key) && !(s.op.AddWeakRefOp? && s.op.key == key) ==>
      Apply(c, s, recreate).references[key].reference == c.references[key].reference
  {
  }

  /** An entry accessed often enough never loses its value, however long the
      run: each background iteration comes within the eviction window of the
      latest access. */
  lemma {:induction false} KeptWarmStaysCached<V>(c: WeakReferences<V>, trace: seq<Step<V>>, key: string, recreate: string -> Option<V>)
    requires key in c.references && c.references[key].reference.Some?
    requires KeptWarm(trace, key, c.references[key].lastAccessed, c.evictAfter)
    ensures key in Run(c, trace, recreate).references
    ensures Run(c, trace, recreate).references[key].reference.Some?
    decreases |trace|
  {
    if |trace| > 0 {
      StepKeepsValue(c, trace[0], key, recreate);
      KeptWarmStaysCached(Apply(c, trace[0], recreate), trace[1..], key, recreate);
    }
  }

  /** The run with its background iterations taken out. */
  function WithoutTicks<V>(trace: seq<Step<V>>): (r: seq<Step<V>>)
    ensures |r| <= |trace|
    ensures forall i :: 0 <= i < |r| ==> !r[i].op.TickOp?
    decreases |trace|
  {
    if |trace| == 0 then []
    else if trace[0].op.TickOp? then WithoutTicks(trace[1..])
    else [trace[0]] + WithoutTicks(trace[1..])
  }

  /** No step of the run restarts the collector. */
  predicate NeverStarted<V>(trace: seq<Step<V>>)
  {
    forall i :: 0 <= i < |trace| ==> !trace[i].op.StartGCOp?
  }

  /** While the collector stays stopped, the background iterations have no
      effect: the run ends in the same state as the run without them. */
  lemma {:induction false} StoppedTicksAreInert<V>(c: WeakReferences<V>, trace: seq<Step<V>>, recreate: string -> Option<V>)
    requires !c.garbageCollectorActive
    requires NeverStarted(trace)
    ensures Run(c, trace, recreate) == Run(c, WithoutTicks(trace), recreate)
    decreases |trace|
  {
    if |trace| > 0 {
      var rest := trace[1..];
      assert NeverStarted(rest) by {
        forall i | 0 <= i < |rest| ensures !rest[i].op.StartGCOp? {
          assert rest[i] == trace[i + 1];
        }
      }
      var next := Apply(c, trace[0], recreate);
      StoppedTicksAreInert(next, rest, recreate);
      if !trace[0].op.TickOp? {
        var w := [trace[0]] + WithoutTicks(rest);
        assert w[0] == trace[0] && w[1..] == WithoutTicks(rest);
      }
    }
  }
}
