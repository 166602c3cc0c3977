/**
  Keys spread over workers by hash: the shards together are one flat cache.

  Each worker serves its own keys only, so the shards hold disjoint keys, what one shard does cannot
  be seen at another shard's keys, and every theorem about the runs of one shard holds in each.
 */
module Sharding {
  import opened Basics
  import opened Shard
  import opened ShardFacts
  import opened Runs
  import opened TimedCache
  import Memory

  // ---------- The hash: 32-bit FNV-1a ----------

  const OFFSET32: uint32 := 2166136261
  const PRIME32: uint32 := 16777619

  function XorBytes(a: byte, b: byte): byte {
    (a as bv8 ^ b as bv8) as byte
  }

  /** Exclusive or with a byte, which meets only the lowest eight bits. */
  function Xor(a: uint32, b: byte): uint32 {
    a / 0x100 * 0x100 + XorBytes(a % 0x100, b)
  }

  function Fnv1a(key: Key): uint32 {
    if key == [] then OFFSET32
    else Xor(Fnv1a(key[..|key| - 1]), key[|key| - 1]) * PRIME32 % TWO_TO_THE_32
  }

  /** The worker that serves a key. */
  function Home(key: Key, workers: nat): (i: nat)
    requires workers > 0
    ensures i < workers
  {
    Fnv1a(key) % workers
  }

  method WorkerFor(key: Key, workers: nat) returns (i: nat)
    requires workers > 0
    ensures i == Home(key, workers)
  {
    var hash := OFFSET32;
    for n := 0 to |key|
      invariant hash == Fnv1a(key[..n])
    {
      assert key[..n + 1][..n] == key[..n];
      hash := Xor(hash, key[n]);
      hash := hash * PRIME32 % TWO_TO_THE_32;
    }
    assert key[..|key|] == key;
    i := hash % workers;
  }

  /** Values the FNV draft lists for the empty string and for "a", and the workers they name. */
  lemma PublishedHashes()
    ensures Fnv1a([]) == 0x811c9dc5 && Fnv1a([97]) == 0xe40c292c
    ensures Home([], 7) == 2 && Home([97], 7) == 5 && Home([97], 4) == 0
  {
    assert Xor(0x811c9dc5, 97) == 0x811c9da4;
    assert [97][..0] == [];
  }

  // ---------- Runs of all shards ----------

  /** One event at one shard. */
  datatype Delivery = Delivery(shard: nat, ev: Event)

  function Deliver(cfg: Config, shards: seq<State>, d: Delivery): seq<State> {
    if d.shard < |shards| then shards[d.shard := Step(cfg, shards[d.shard], d.ev)] else shards
  }

  function RunAll(cfg: Config, shards: seq<State>, ds: seq<Delivery>): (after: seq<State>)
    ensures |after| == |shards|
  {
    if ds == [] then shards else Deliver(cfg, RunAll(cfg, shards, ds[..|ds| - 1]), ds[|ds| - 1])
  }

  /** A request is sent to the worker of its key; a flush is sent to each worker. */
  predicate Routed(d: Delivery, workers: nat) {
    && d.shard < workers
    && (d.ev.Arrive? && !d.ev.req.op.FlushAll? ==> d.shard == Home(d.ev.req.key, workers))
  }

  ghost predicate AllRouted(ds: seq<Delivery>, workers: nat) {
    forall i :: 0 <= i < |ds| ==> Routed(ds[i], workers)
  }

  /** The events of one shard in a run of all. */
  function EventsOf(ds: seq<Delivery>, shard: nat): seq<Event> {
    if ds == [] then []
    else EventsOf(ds[..|ds| - 1], shard) + if ds[|ds| - 1].shard == shard then [ds[|ds| - 1].ev] else []
  }

  /** Each shard runs as if it were alone: what is proved of one shard's runs holds in every shard. */
  lemma {:induction false} ShardsRunAlone(cfg: Config, shards: seq<State>, ds: seq<Delivery>, i: nat)
    requires i < |shards|
    ensures RunAll(cfg, shards, ds)[i] == Run(cfg, shards[i], EventsOf(ds, i))
  {
    if ds != [] {
      var prefix, d := ds[..|ds| - 1], ds[|ds| - 1];
      ShardsRunAlone(cfg, shards, prefix, i);
      if d.shard == i {
        assert EventsOf(ds, i)[..|EventsOf(ds, i)| - 1] == EventsOf(prefix, i);
      } else {
        assert EventsOf(ds, i) == EventsOf(prefix, i);
      }
    }
  }

  // ---------- Confinement ----------

  /** Every key is stored in its own shard only, and once there. */
  ghost predicate Confined(shards: seq<State>) {
    && (forall i :: 0 <= i < |shards| ==> UniqueKeys(shards[i].lru))
    && (forall i, k :: 0 <= i < |shards| && Find(shards[i].lru, k).Some? ==> i == Home(k, |shards|))
  }

  lemma DeliverConfined(cfg: Config, shards: seq<State>, d: Delivery)
    requires Confined(shards) && Routed(d, |shards|)
    ensures Confined(Deliver(cfg, shards, d))
  {
    var i, s := d.shard, shards[d.shard];
    OtherKeys(cfg, s, d.ev, []);
    forall k | Find(Step(cfg, s, d.ev).lru, k).Some?
      ensures i == Home(k, |shards|)
    {
      OtherKeys(cfg, s, d.ev, k);
      assert Find(s.lru, k).Some? ==> i == Home(k, |shards|);
    }
  }

  /** In every reachable state a key is stored only in the shard its hash names. */
  lemma {:induction false} RunConfined(cfg: Config, shards: seq<State>, ds: seq<Delivery>)
    requires Confined(shards) && AllRouted(ds, |shards|)
    ensures Confined(RunAll(cfg, shards, ds))
  {
    if ds != [] {
      RunConfined(cfg, shards, ds[..|ds| - 1]);
      DeliverConfined(cfg, RunAll(cfg, shards, ds[..|ds| - 1]), ds[|ds| - 1]);
    }
  }

  // ---------- The flat map ----------

  /** All entries of all shards. */
  function Union(shards: seq<State>): map<Key, Entry> {
    if shards == [] then map[]
    else Union(shards[..|shards| - 1]) + Items(shards[|shards| - 1].lru)
  }

  ghost predicate Disjoint(shards: seq<State>) {
    && (forall i :: 0 <= i < |shards| ==> UniqueKeys(shards[i].lru))
    && (forall i, j, k :: 0 <= i < j < |shards| && Find(shards[i].lru, k).Some? ==> Find(shards[j].lru, k).None?)
  }

  function ItemCount(shards: seq<State>): nat {
    if shards == [] then 0 else ItemCount(shards[..|shards| - 1]) + |shards[|shards| - 1].lru|
  }

  lemma {:induction false} KeyCount(s: seq<Entry>)
    requires UniqueKeys(s)
    ensures |Items(s)| == |s|
  {
    if s != [] {
      KeyCount(s[1..]);
      FindAbsent(s[1..], s[0].key);
      ItemsAt(s[1..], s[0].key);
    }
  }

  /** Nothing but what some shard holds is in the union. */
  lemma {:induction false} UnionOnly(shards: seq<State>, k: Key)
    requires Disjoint(shards) && forall i :: 0 <= i < |shards| ==> Find(shards[i].lru, k).None?
    ensures k !in Union(shards)
  {
    if shards != [] {
      UnionOnly(shards[..|shards| - 1], k);
      ItemsAt(shards[|shards| - 1].lru, k);
    }
  }

  /** What a shard holds is in the union as it stands. */
  lemma {:induction false} UnionAt(shards: seq<State>, k: Key, i: nat)
    requires Disjoint(shards) && i < |shards| && Find(shards[i].lru, k).Some?
    ensures At(Union(shards), k) == Find(shards[i].lru, k)
  {
    var last := |shards| - 1;
    ItemsAt(shards[last].lru, k);
    if i < last {
      UnionAt(shards[..last], k, i);
    }
  }

  /** Nothing is lost by the union: the per-shard counts add up to its size. */
  lemma {:induction false} UnionCount(shards: seq<State>)
    requires Disjoint(shards)
    ensures |Union(shards)| == ItemCount(shards)
  {
    if shards != [] {
      var init, last := shards[..|shards| - 1], shards[|shards| - 1];
      UnionCount(init);
      KeyCount(last.lru);
      forall k | k in Items(last.lru)
        ensures k !in Union(init)
      {
        ItemsAt(last.lru, k);
        UnionOnly(init, k);
      }
      DisjointSizes(Union(init), Items(last.lru));
    }
  }

  lemma DisjointSizes(m: map<Key, Entry>, n: map<Key, Entry>)
    requires m.Keys !! n.Keys
    ensures |m + n| == |m| + |n|
  {
    assert (m + n).Keys == m.Keys + n.Keys;
    assert |m| == |m.Keys| && |n| == |n.Keys| && |m + n| == |(m + n).Keys|;
  }

  /** Every shard's entries stand in the union, and nothing else does. */
  lemma UnionOfConfined(shards: seq<State>, k: Key)
    requires Confined(shards) && shards != []
    ensures Disjoint(shards) && At(Union(shards), k) == Find(shards[Home(k, |shards|)].lru, k)
  {
    var i := Home(k, |shards|);
    forall i, j, k | 0 <= i < j < |shards| && Find(shards[i].lru, k).Some?
      ensures Find(shards[j].lru, k).None?
    {
      assert i == Home(k, |shards|);
    }
    if Find(shards[i].lru, k).Some? {
      UnionAt(shards, k, i);
    } else {
      UnionOnly(shards, k);
    }
  }

  /** What happens at one shard changes the flat map at that shard's keys only. */
  lemma DeliverFrames(cfg: Config, shards: seq<State>, d: Delivery, k: Key)
    requires Confined(shards) && Routed(d, |shards|) && Home(k, |shards|) != d.shard
    ensures At(Union(Deliver(cfg, shards, d)), k) == At(Union(shards), k)
  {
    DeliverConfined(cfg, shards, d);
    UnionOfConfined(shards, k);
    UnionOfConfined(Deliver(cfg, shards, d), k);
  }

  // ---------- The memory split ----------

  const DEFAULT_THREAD_COUNT: nat := 4

  function WorkerCount(requested: int): (n: nat)
    ensures n > 0
  {
    if requested <= 0 then DEFAULT_THREAD_COUNT else requested
  }

  /** Go's integer division, which truncates toward zero. */
  function Quotient(a: int, b: nat): int
    requires b > 0
  {
    if a >= 0 then a / b else -(-a / b)
  }

  /** The configuration of each of `workers` workers. */
  function WorkerConfig(cfg: Config, workers: nat): Config
    requires workers > 0
  {
    cfg.(maxMemory := Quotient(cfg.maxMemory, workers))
  }

  function LimitSum(limit: int, workers: nat): int {
    if workers == 0 then 0 else LimitSum(limit, workers - 1) + limit
  }

  lemma {:induction false} LimitSumIs(limit: int, workers: nat)
    ensures LimitSum(limit, workers) == limit * workers
  {
    if workers > 0 {
      LimitSumIs(limit, workers - 1);
    }
  }

  /**
    The workers' limits add up to at most the configured one, and waste less than a byte per worker.
    But each worker is limited at all exactly when the configured limit has a byte for every worker:
    a smaller positive limit is split into zeros, which mean no limit.
   */
  lemma SplitIsWithinLimit(cfg: Config, workers: nat)
    requires workers > 0
    ensures cfg.maxMemory >= 0 ==>
              cfg.maxMemory - workers < LimitSum(WorkerConfig(cfg, workers).maxMemory, workers) <= cfg.maxMemory
    ensures WorkerConfig(cfg, workers).maxMemory > 0 <==> cfg.maxMemory >= workers
  {
    LimitSumIs(Quotient(cfg.maxMemory, workers), workers);
  }

  /** Without a number asked for there are four workers; three bytes are no limit for four or more. */
  lemma SmallLimitIsNoLimit(requested: int)
    ensures requested <= 0 ==> WorkerCount(requested) == 4
    ensures requested <= 0 ==> WorkerConfig(Config(0, 2.0, 3), WorkerCount(requested)).maxMemory == 0
    ensures requested > 3 ==> WorkerConfig(Config(0, 2.0, 3), requested).maxMemory == 0
  {
  }

  function UsedSum(shards: seq<State>): int {
    if shards == [] then 0 else UsedSum(shards[..|shards| - 1]) + shards[|shards| - 1].used
  }

  lemma {:induction false} UsedSumWithin(shards: seq<State>, limit: int)
    requires forall i :: 0 <= i < |shards| ==> shards[i].used <= limit
    ensures UsedSum(shards) <= LimitSum(limit, |shards|)
  {
    if shards != [] {
      UsedSumWithin(shards[..|shards| - 1], limit);
    }
  }

  /**
    The configured limit holds for the whole cache: after any run from empty shards in which each
    worker's steps fit, the bytes counted by all workers are within it, unless some worker is down
    to a single entry that is too large by itself.
   */
  lemma CacheWithinLimit(cfg: Config, shards: seq<State>, ds: seq<Delivery>)
    requires 0 < |shards| <= cfg.maxMemory
    requires forall i :: 0 <= i < |shards| ==>
               && shards[i].lru == [] && shards[i].used == 0
               && Memory.AlwaysFits(WorkerConfig(cfg, |shards|), shards[i], EventsOf(ds, i))
    ensures var each := WorkerConfig(cfg, |shards|);
            var after := RunAll(each, shards, ds);
            || UsedSum(after) <= cfg.maxMemory
            || exists i :: 0 <= i < |after| && |after[i].lru| == 1 && after[i].used > each.maxMemory
  {
    var each := WorkerConfig(cfg, |shards|);
    var after := RunAll(each, shards, ds);
    SplitIsWithinLimit(cfg, |shards|);
    forall i | 0 <= i < |shards|
      ensures after[i].used <= each.maxMemory || |after[i].lru| == 1
    {
      ShardsRunAlone(each, shards, ds, i);
      Memory.LimitOverRun(each, shards[i], EventsOf(ds, i));
      Memory.Conservation(each, shards[i], EventsOf(ds, i));
    }
    if forall i :: 0 <= i < |after| ==> after[i].used <= each.maxMemory {
      UsedSumWithin(after, each.maxMemory);
    }
  }
}
