/**
  The sharded cache as one sequential cache: without a memory limit, the answers of all workers over
  any interleaving are those of one timed cache over all keys.
 */
module FlatCache {
  import opened Basics
  import opened Shard
  import opened Runs
  import opened Freshness
  import opened TimedCache
  import opened Sharding

  // ---------- The flat timed cache ----------

  /** One map for all keys, and a token counter for every worker. */
  datatype Flat = Flat(items: map<Key, Entry>, counters: seq<uint64>)

  /** A flush of one worker clears the keys that worker serves. */
  function FlushShard(items: map<Key, Entry>, shard: nat, workers: nat): map<Key, Entry>
    requires workers > 0
  {
    map k | k in items && Home(k, workers) != shard :: items[k]
  }

  function ApplyFlat(cfg: Config, c: Flat, shard: nat, r: Request, clk: Clock): (Flat, Response)
    requires shard < |c.counters|
  {
    var o := Serve(cfg, Alive(At(c.items, r.key), clk.check), c.counters[shard], r, clk);
    var items := if r.op.FlushAll? then FlushShard(c.items, shard, |c.counters|) else Update(c.items, r, o.held);
    (Flat(items, c.counters[shard := o.counter]), o.response)
  }

  predicate FlatPermits(cfg: Config, c: Flat, shard: nat, r: Request, clk: Clock, actual: Response)
    requires shard < |c.counters|
  {
    Permits(At(c.items, r.key), r, clk, ApplyFlat(cfg, c, shard, r, clk).1, actual)
  }

  /**
    Shard `i` holds what the flat cache holds of its keys, as far as it has not expired; and whatever
    it still holds, expired or not, the flat cache holds as well.
   */
  ghost predicate AgreeAt(shards: seq<State>, c: Flat, now: nat, i: nat)
    requires i < |shards|
  {
    && |c.counters| == |shards| && c.counters[i] == shards[i].casCounter
    && (forall k :: Home(k, |shards|) == i ==> Lookup(shards[i], k, now) == Alive(At(c.items, k), now))
    && (forall k :: Home(k, |shards|) == i && Find(shards[i].lru, k).Some? ==> At(c.items, k) == Find(shards[i].lru, k))
  }

  ghost predicate FlatAgree(shards: seq<State>, c: Flat, times: seq<nat>) {
    && Confined(shards) && |times| == |shards| == |c.counters|
    && forall i :: 0 <= i < |shards| ==> AgreeAt(shards, c, times[i], i)
  }

  lemma AgreeAtLater(shards: seq<State>, c: Flat, t: nat, u: nat, i: nat)
    requires i < |shards| && AgreeAt(shards, c, t, i) && t <= u
    ensures AgreeAt(shards, c, u, i)
  {
    forall k | Home(k, |shards|) == i
      ensures Lookup(shards[i], k, u) == Alive(At(c.items, k), u)
    {
      assert Lookup(shards[i], k, t) == Alive(At(c.items, k), t);
      LaterAlive(Find(shards[i].lru, k), t, u);
      LaterAlive(At(c.items, k), t, u);
    }
  }

  /** A request at its worker is answered, and changes that worker's keys, as in the flat cache. */
  lemma RequestAgrees(cfg: Config, shards: seq<State>, c: Flat, i: nat, r: Request, clk: Clock)
    requires cfg.maxMemory <= 0 && Confined(shards) && Routed(Delivery(i, Arrive(r, clk)), |shards|)
    requires AgreeAt(shards, c, clk.check, i) && clk.check <= clk.store
    ensures AgreeAt(Deliver(cfg, shards, Delivery(i, Arrive(r, clk))), ApplyFlat(cfg, c, i, r, clk).0, clk.store, i)
    ensures FlatPermits(cfg, c, i, r, clk, Handle(cfg, shards[i], r, clk).1)
  {
    var s, c' := shards[i], ApplyFlat(cfg, c, i, r, clk).0;
    var t := Handle(cfg, s, r, clk).0;
    if !r.op.FlushAll? {
      assert Lookup(s, r.key, clk.check) == Alive(At(c.items, r.key), clk.check);
      OwnKeyServed(cfg, s, r, clk);
    }
    AgreeAtLater(shards, c, clk.check, clk.store, i);
    forall k | Home(k, |shards|) == i
      ensures Lookup(t, k, clk.store) == Alive(At(c'.items, k), clk.store)
      ensures Find(t.lru, k).Some? ==> At(c'.items, k) == Find(t.lru, k)
    {
      assert Lookup(s, k, clk.store) == Alive(At(c.items, k), clk.store);
      if k != r.key && !r.op.FlushAll? {
        OtherKeyKept(cfg, s, r, clk, k);
      }
    }
  }

  /** What happens at one worker leaves the others in agreement. */
  lemma OthersAgree(cfg: Config, shards: seq<State>, c: Flat, d: Delivery, now: nat, j: nat)
    requires Routed(d, |shards|) && d.ev.Arrive? && j < |shards| && j != d.shard && AgreeAt(shards, c, now, j)
    ensures AgreeAt(Deliver(cfg, shards, d), ApplyFlat(cfg, c, d.shard, d.ev.req, d.ev.clk).0, now, j)
  {
    var c' := ApplyFlat(cfg, c, d.shard, d.ev.req, d.ev.clk).0;
    forall k | Home(k, |shards|) == j
      ensures At(c'.items, k) == At(c.items, k)
    {
    }
  }

  lemma SweepAgreesAt(shards: seq<State>, c: Flat, now: nat, i: nat)
    requires i < |shards| && UniqueKeys(shards[i].lru) && AgreeAt(shards, c, now, i)
    ensures AgreeAt(shards[i := Sweep(shards[i], now)], c, now, i)
  {
    forall k | Home(k, |shards|) == i
      ensures Lookup(Sweep(shards[i], now), k, now) == Alive(At(c.items, k), now)
      ensures var found := Find(Sweep(shards[i], now).lru, k); found.Some? ==> At(c.items, k) == found
    {
      FindUnexpired(shards[i].lru, now, k);
      assert Lookup(shards[i], k, now) == Alive(At(c.items, k), now);
    }
  }

  // ---------- Runs against the flat cache ----------

  /** The last clock reading of each worker. */
  function Times(times: seq<nat>, ds: seq<Delivery>): (after: seq<nat>)
    ensures |after| == |times|
  {
    if ds == [] then times
    else
      var before, d := Times(times, ds[..|ds| - 1]), ds[|ds| - 1];
      if d.shard < |times| then before[d.shard := End(d.ev)] else before
  }

  /** Each worker's clock never goes back; the clocks of different workers need not agree. */
  ghost predicate ClockedAll(times: seq<nat>, ds: seq<Delivery>) {
    ds != [] ==>
      var prefix, d := ds[..|ds| - 1], ds[|ds| - 1];
      ClockedAll(times, prefix) && d.shard < |times| && Times(times, prefix)[d.shard] <= Start(d.ev) <= End(d.ev)
  }

  function FlatRun(cfg: Config, c: Flat, ds: seq<Delivery>): (after: Flat)
    ensures |after.counters| == |c.counters|
  {
    if ds == [] then c
    else
      var before, d := FlatRun(cfg, c, ds[..|ds| - 1]), ds[|ds| - 1];
      if d.ev.Arrive? && d.shard < |c.counters| then ApplyFlat(cfg, before, d.shard, d.ev.req, d.ev.clk).0 else before
  }

  /** What the shards answer to delivery `i` of a run is what the flat cache permits there. */
  ghost predicate AnsweredAsFlat(cfg: Config, shards: seq<State>, c: Flat, ds: seq<Delivery>, i: nat)
    requires i < |ds| && ds[i].ev.Arrive? && ds[i].shard < |shards| == |c.counters|
  {
    var d := ds[i];
    FlatPermits(cfg, FlatRun(cfg, c, ds[..i]), d.shard, d.ev.req, d.ev.clk,
                Handle(cfg, RunAll(cfg, shards, ds[..i])[d.shard], d.ev.req, d.ev.clk).1)
  }

  lemma DeliveryAgrees(cfg: Config, shards: seq<State>, c: Flat, times: seq<nat>, d: Delivery)
    requires cfg.maxMemory <= 0 && FlatAgree(shards, c, times) && Routed(d, |shards|)
    requires times[d.shard] <= Start(d.ev) <= End(d.ev)
    ensures var c' := if d.ev.Arrive? then ApplyFlat(cfg, c, d.shard, d.ev.req, d.ev.clk).0 else c;
            FlatAgree(Deliver(cfg, shards, d), c', times[d.shard := End(d.ev)])
    ensures d.ev.Arrive? ==>
              FlatPermits(cfg, c, d.shard, d.ev.req, d.ev.clk, Handle(cfg, shards[d.shard], d.ev.req, d.ev.clk).1)
  {
    var i := d.shard;
    DeliverConfined(cfg, shards, d);
    AgreeAtLater(shards, c, times[i], Start(d.ev), i);
    match d.ev
    case Tick(now) => SweepAgreesAt(shards, c, now, i);
    case Arrive(r, clk) =>
      RequestAgrees(cfg, shards, c, i, r, clk);
      forall j | 0 <= j < |shards| && j != i
        ensures AgreeAt(Deliver(cfg, shards, d), ApplyFlat(cfg, c, i, r, clk).0, times[j], j)
      {
        OthersAgree(cfg, shards, c, d, times[j], j);
      }
  }

  /**
    The sharded cache without a memory limit is one flat timed cache: over any interleaving of the
    workers' requests and sweeps, every answer is one the flat cache permits: its own, or success for a
    Delete of an entry that it holds dead.
   */
  lemma {:induction false} ShardsAreOneCache(cfg: Config, shards: seq<State>, c: Flat, times: seq<nat>,
                                             ds: seq<Delivery>)
    requires cfg.maxMemory <= 0 && shards != [] && FlatAgree(shards, c, times)
    requires AllRouted(ds, |shards|) && ClockedAll(times, ds)
    ensures FlatAgree(RunAll(cfg, shards, ds), FlatRun(cfg, c, ds), Times(times, ds))
    ensures forall i :: 0 <= i < |ds| && ds[i].ev.Arrive? ==> AnsweredAsFlat(cfg, shards, c, ds, i)
  {
    if ds != [] {
      var prefix, d := ds[..|ds| - 1], ds[|ds| - 1];
      ShardsAreOneCache(cfg, shards, c, times, prefix);
      assert Routed(d, |shards|);
      DeliveryAgrees(cfg, RunAll(cfg, shards, prefix), FlatRun(cfg, c, prefix), Times(times, prefix), d);
      forall i | 0 <= i < |ds| && ds[i].ev.Arrive?
        ensures AnsweredAsFlat(cfg, shards, c, ds, i)
      {
        if i < |prefix| {
          assert ds[..i] == prefix[..i];
          assert AnsweredAsFlat(cfg, shards, c, prefix, i);
        } else {
          assert ds[..i] == prefix;
        }
      }
    }
  }
}
