/**
  The sharded cache over its workers, one request at a time: routing by hash, the flush that visits
  every worker, and counters read from decimal replies.
 */
module ShardedCaches {
  import opened Basics
  import opened Sharding
  import opened Workers
  import Counters
  import Decimal
  import Runs
  import Shard

  /** Two workers share no object that either of them changes. */
  ghost predicate Separate(v: Worker, w: Worker)
    reads v`index, v.index`items, v.index.expiryHeap`cells, v.index.lruList`members
    reads w`index, w.index`items, w.index.expiryHeap`cells, w.index.lruList`members
  {
    && v != w && v.index != w.index && v.index.items !! w.index.items
    && v.index.expiryHeap != w.index.expiryHeap && v.index.expiryHeap.cells !! w.index.expiryHeap.cells
    && v.index.lruList != w.index.lruList && v.index.lruList.root != w.index.lruList.root
    && v.index.lruList.root !in w.index.lruList.members && w.index.lruList.root !in v.index.lruList.members
    && v.index.lruList.members !! w.index.lruList.members
  }

  /** Two workers that are left alone stay separate. */
  twostate lemma PairStays(v: Worker, new w: Worker)
    requires allocated(w) && old(allocated(w)) && old(v.Valid() && w.Valid() && Separate(v, w))
    requires v.Untouched() && w.Untouched()
    ensures Separate(v, w)
  {
    v.Stays();
    w.Stays();
  }

  /** The workers of one cache. */
  ghost predicate Team(workers: seq<Worker>, each: Shard.Config)
    reads *
  {
    && (forall i :: 0 <= i < |workers| ==> workers[i].Valid() && workers[i].config == each)
    && (forall i, j :: 0 <= i < |workers| && 0 <= j < |workers| && i != j ==> Separate(workers[i], workers[j]))
  }

  twostate lemma TeamStays(workers: seq<Worker>, new each: Shard.Config)
    requires old(Team(workers, each)) && forall v :: v in workers ==> v.Untouched()
    ensures Team(workers, each)
    ensures forall i :: 0 <= i < |workers| ==> workers[i].State() == old(workers[i].State())
  {
    forall i | 0 <= i < |workers|
      ensures workers[i].Valid() && workers[i].State() == old(workers[i].State())
    {
      workers[i].Stays();
    }
    forall i, j | 0 <= i < |workers| && 0 <= j < |workers| && i != j {
      PairStays(workers[i], workers[j]);
    }
  }

  /** A new worker shares nothing with those there are. */
  method NewWorker(each: Shard.Config, start: nat, ghost workers: seq<Worker>) returns (w: Worker)
    requires forall v :: v in workers ==> v.Valid()
    ensures fresh(w) && w.Valid() && w.config == each && w.State() == Shard.State([], start % TWO_TO_THE_64, 0, 0)
    ensures forall v :: v in workers ==> v.Untouched() && Separate(v, w) && Separate(w, v)
  {
    w := new Worker(each, start);
  }

  lemma TeamGrows(workers: seq<Worker>, each: Shard.Config, w: Worker)
    requires Team(workers, each) && w.Valid() && w.config == each
    requires forall v :: v in workers ==> Separate(v, w) && Separate(w, v)
    ensures Team(workers + [w], each)
  {
  }

  method AddWorker(each: Shard.Config, start: nat, workers: seq<Worker>) returns (more: seq<Worker>)
    requires Team(workers, each)
    ensures Team(more, each) && |more| == |workers| + 1 && more[..|workers|] == workers && fresh(more[|workers|])
    ensures forall i :: 0 <= i < |workers| ==> more[i].State() == old(workers[i].State())
    ensures more[|workers|].State() == Shard.State([], start % TWO_TO_THE_64, 0, 0)
  {
    var w := NewWorker(each, start, workers);
    TeamStays(workers, each);
    TeamGrows(workers, each, w);
    more := workers + [w];
  }

  /** Makes the workers of a cache, each with its own clock reading as its first token. */
  method MakeWorkers(each: Shard.Config, starts: seq<nat>) returns (workers: seq<Worker>)
    ensures |workers| == |starts| && Team(workers, each)
    ensures forall i :: 0 <= i < |workers| ==>
              fresh(workers[i]) && workers[i].State() == Shard.State([], starts[i] % TWO_TO_THE_64, 0, 0)
  {
    workers := [];
    for n := 0 to |starts|
      invariant |workers| == n && Team(workers, each)
      invariant forall i :: 0 <= i < n ==>
                  fresh(workers[i]) && workers[i].State() == Shard.State([], starts[i] % TWO_TO_THE_64, 0, 0)
    {
      workers := AddWorker(each, starts[n], workers);
    }
  }

  /** One worker serves a request; workers that share nothing with it are left alone. */
  method ServeApart(w: Worker, ghost others: set<Worker>, req: Request, clk: Shard.Clock) returns (r: Response)
    requires w.Valid() && req.value.Ok() && forall v :: v in others ==> Separate(v, w)
    modifies w, w.index, w.index.items, w.index.expiryHeap, w.index.expiryHeap.cells
    modifies w.index.lruList, w.index.lruList.root, w.index.lruList.members
    ensures w.Valid() && w.Grown() && w.Published(req.op, r)
    ensures forall v :: v in others ==> v.Untouched()
    ensures (w.State(), r.View()) == Shard.Handle(w.config, old(w.State()), old(req.View()), clk)
  {
    r := w.HandleRequest(req, clk);
  }

  class ShardedCache {
    const workers: seq<Worker>
    const each: Shard.Config               // the configuration of every worker
    const none: array<byte>                // the value of requests that have none

    ghost predicate Valid()
      reads *
    {
      workers != [] && none.Length == 0 && Team(workers, each)
    }

    ghost function States(): (states: seq<Shard.State>)
      reads *
      ensures |states| == |workers|
    {
      seq(|workers|, i requires 0 <= i < |workers| reads * => workers[i].State())
    }

    /** Every worker but one is left alone. */
    twostate predicate OthersUntouched(i: nat)
      reads *
    {
      forall j :: 0 <= j < |workers| && j != i ==> workers[j].Untouched()
    }

    /** A worker that is left alone stays as it was, and separate from one that serves a request. */
    twostate lemma OneStays(new i: nat, j: nat)
      requires old(Valid()) && i < |workers| && j < |workers| && j != i && workers[i].Grown() && OthersUntouched(i)
      ensures workers[j].Valid() && workers[j].State() == old(workers[j].State())
      ensures Separate(workers[j], workers[i]) && Separate(workers[i], workers[j])
    {
      workers[j].Stays();
      assert old(Separate(workers[j], workers[i]));
    }

    /** When one worker serves a request and the others are left alone, the cache is in order again. */
    twostate lemma OthersStay(i: nat)
      requires old(Valid()) && i < |workers| && workers[i].Valid() && workers[i].Grown() && OthersUntouched(i)
      ensures Valid() && forall j :: 0 <= j < |workers| && j != i ==> workers[j].State() == old(workers[j].State())
    {
      forall j | 0 <= j < |workers| && j != i {
        OneStays(i, j);
      }
      forall j, k | 0 <= j < |workers| && 0 <= k < |workers| && j != k && j != i && k != i {
        PairStays(workers[j], workers[k]);
      }
    }

    /** Serves a request at one worker; nothing changes at the others. */
    method Deliver(i: nat, req: Request, clk: Shard.Clock) returns (r: Response)
      requires Valid() && i < |workers| && req.value.Ok()
      modifies workers[i]
      modifies workers[i].index, workers[i].index.items, workers[i].index.expiryHeap, workers[i].index.expiryHeap.cells
      modifies workers[i].index.lruList, workers[i].index.lruList.root, workers[i].index.lruList.members
      ensures Valid() && workers[i].Grown() && workers[i].Published(req.op, r)
      ensures States() == Sharding.Deliver(each, old(States()), Delivery(i, Runs.Arrive(old(req.View()), clk)))
      ensures r.View() == Shard.Handle(each, old(States())[i], old(req.View()), clk).1
    {
      ghost var others := set j | 0 <= j < |workers| && j != i :: workers[j];
      r := ServeApart(workers[i], others, req, clk);
      OthersStay(i);
    }

    /** The memory limit is split evenly, and every worker starts empty. */
    constructor (config: Shard.Config, requested: int, starts: seq<nat>)
      requires |starts| == WorkerCount(requested)
      ensures Valid() && |workers| == WorkerCount(requested) && each == WorkerConfig(config, |workers|)
      ensures forall i :: 0 <= i < |workers| ==> States()[i] == Shard.State([], starts[i] % TWO_TO_THE_64, 0, 0)
      ensures Confined(States())
    {
      var n := WorkerCount(requested);
      var made := MakeWorkers(WorkerConfig(config, n), starts);
      none := new byte[0];
      workers, each := made, WorkerConfig(config, n);
    }

    // ---------- Requests ----------

    /** The worker of a key. */
    function HomeOf(key: Key): (i: nat)
      requires workers != []
      ensures i < |workers|
    {
      Home(key, |workers|)
    }

    /** Sends a request to the worker of its key. */
    method Send(req: Request, clk: Shard.Clock) returns (r: Response)
      requires Valid() && req.value.Ok() && !req.op.FlushAll?
      modifies workers[HomeOf(req.key)]
      modifies workers[HomeOf(req.key)].index, workers[HomeOf(req.key)].index.items
      modifies workers[HomeOf(req.key)].index.expiryHeap, workers[HomeOf(req.key)].index.expiryHeap.cells
      modifies workers[HomeOf(req.key)].index.lruList, workers[HomeOf(req.key)].index.lruList.root
      modifies workers[HomeOf(req.key)].index.lruList.members
      ensures Valid()
      ensures var d := Delivery(HomeOf(req.key), Runs.Arrive(old(req.View()), clk));
              && Routed(d, |workers|) && States() == Sharding.Deliver(each, old(States()), d)
              && r.View() == Shard.Handle(each, old(States())[d.shard], old(req.View()), clk).1
      ensures Confined(old(States())) ==> Confined(States())
    {
      ghost var before, d := States(), Delivery(HomeOf(req.key), Runs.Arrive(req.View(), clk));
      var i := WorkerFor(req.key, |workers|);
      r := Deliver(i, req, clk);
      if Confined(before) {
        DeliverConfined(each, before, d);
      }
    }

    /** The keys of each shard are unique. */
    lemma UniqueAt(i: nat)
      requires Valid() && i < |workers|
      ensures Shard.UniqueKeys(States()[i].lru)
    {
      workers[i].index.OrderIsUnique();
    }

    /** The request of a count. */
    function CountRequest(key: Key, delta: uint64, incr: bool): Shard.Request {
      Shard.Request(if incr then Shard.Incr else Shard.Decr, key, [], 0, 0, delta)
    }

    method SendCount(key: Key, delta: uint64, incr: bool, clk: Shard.Clock) returns (r: Response)
      requires Valid()
      modifies workers[HomeOf(key)]
      modifies workers[HomeOf(key)].index, workers[HomeOf(key)].index.items
      modifies workers[HomeOf(key)].index.expiryHeap, workers[HomeOf(key)].index.expiryHeap.cells
      modifies workers[HomeOf(key)].index.lruList, workers[HomeOf(key)].index.lruList.root
      modifies workers[HomeOf(key)].index.lruList.members
      ensures Valid()
      ensures var d := Delivery(HomeOf(key), Runs.Arrive(CountRequest(key, delta, incr), clk));
              && States() == Sharding.Deliver(each, old(States()), d)
              && r.View() == Shard.Handle(each, old(States())[d.shard], d.ev.req, clk).1
    {
      var req := Request(if incr then Shard.Incr else Shard.Decr, key, Slice(none, 0, 0), 0, 0, delta);
      assert req.View() == CountRequest(key, delta, incr);
      r := Send(req, clk);
    }

    /** Counts under a key and reads the new number from the reply. */
    method Count(key: Key, delta: uint64, incr: bool, clk: Shard.Clock)
      returns (val: uint64, cas: uint64, err: Shard.Error)
      requires Valid()
      modifies workers[HomeOf(key)]
      modifies workers[HomeOf(key)].index, workers[HomeOf(key)].index.items
      modifies workers[HomeOf(key)].index.expiryHeap, workers[HomeOf(key)].index.expiryHeap.cells
      modifies workers[HomeOf(key)].index.lruList, workers[HomeOf(key)].index.lruList.root
      modifies workers[HomeOf(key)].index.lruList.members
      ensures Valid()
      ensures var d := Delivery(HomeOf(key), Runs.Arrive(CountRequest(key, delta, incr), clk));
              var answer := Shard.Handle(each, old(States())[d.shard], d.ev.req, clk).1;
              && States() == Sharding.Deliver(each, old(States()), d) && cas == answer.cas && err == answer.err
              && (err == Shard.NoError ==> Counters.NumberAt(States()[d.shard], key) == Some(val))
    {
      ghost var before := States();
      UniqueAt(HomeOf(key));
      var r := SendCount(key, delta, incr, clk);
      val := 0;
      if r.value != null {
        val := Counters.DecodeReply(r.value[..]);
      }
      cas, err := r.cas, r.err;
      CountedIs(before[HomeOf(key)], CountRequest(key, delta, incr), clk, val);
    }

    /** The number in the reply of a count is the number stored. */
    lemma CountedIs(s: Shard.State, r: Shard.Request, clk: Shard.Clock, val: uint64)
      requires Shard.UniqueKeys(s.lru) && (r.op.Incr? || r.op.Decr?)
      requires forall n: uint64 :: Shard.Handle(each, s, r, clk).1.value == Decimal.Format(n) ==> val == n
      ensures Shard.Handle(each, s, r, clk).1.err == Shard.NoError ==>
                Counters.NumberAt(Shard.Handle(each, s, r, clk).0, r.key) == Some(val)
    {
      if Shard.Handle(each, s, r, clk).1.err == Shard.NoError {
        Counters.StepCounts(each, s, Runs.Arrive(r, clk), r.key);
        var n := Shard.Arith(Counters.NumberAt(s, r.key).value, r.delta, r.op.Incr?);
        Decimal.ParseFormat(n, TWO_TO_THE_64);
      }
    }

    /** Flushes the workers one after the other. */
    method FlushAll()
      requires Valid()
      modifies workers
      ensures Valid()
      ensures forall i :: 0 <= i < |workers| ==> States()[i] == Shard.HandleFlushAll(old(States())[i]).0
    {
      for i := 0 to |workers|
        invariant Valid()
        invariant forall j :: 0 <= j < i ==> workers[j].State() == Shard.HandleFlushAll(old(workers[j].State())).0
        invariant forall j :: i <= j < |workers| ==> workers[j].State() == old(workers[j].State())
      {
        FlushOne(i);
      }
    }

    method FlushOne(i: nat)
      requires Valid() && i < |workers|
      modifies workers[i]
      ensures Valid() && workers[i].State() == Shard.HandleFlushAll(old(workers[i].State())).0
      ensures forall j :: 0 <= j < |workers| && j != i ==> workers[j].State() == old(workers[j].State())
    {
      var r := workers[i].HandleFlushAll();
      forall j | 0 <= j < |workers| && j != i
        ensures workers[j].Untouched()
      {
        assert old(Separate(workers[j], workers[i]));
      }
      OthersStay(i);
    }

    /** Counts the entries of all workers: as many as the flat map of all keys has. */
    method ItemCount() returns (n: nat)
      requires Valid()
      ensures n == Sharding.ItemCount(States())
      ensures Confined(States()) ==> n == |Union(States())|
    {
      n := 0;
      for i := 0 to |workers|
        invariant n == Sharding.ItemCount(States()[..i])
      {
        var count := workers[i].index.Count();
        n := n + count;
        assert States()[..i + 1][..i] == States()[..i];
      }
      assert States()[..|workers|] == States();
      if Confined(States()) {
        UnionOfConfined(States(), []);
        UnionCount(States());
      }
    }
  }
}
