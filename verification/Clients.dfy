/**
  The cache as one connection of the server meets it: before each of its requests, others have the
  workers serve theirs. What a delivery does to the workers here is what ShardedCache.dfy proves of
  the worker objects.
 */
module Clients {
  import Runs
  import opened Sessions
  import opened Sharding
  import opened Shard

  class Client {
    const env: Env
    var shards: seq<State>
    var asked: nat
    ghost var log: seq<Delivery>
    ghost var answers: seq<Response>

    ghost predicate Valid()
      reads this
    {
      shards != [] && asked == |answers|
    }

    ghost function View(): (c: Session)
      reads this
      ensures Width(c.backend) == |shards|
    {
      Session(Workers(shards), log, answers)
    }

    constructor (env: Env, shards: seq<State>)
      requires shards != []
      ensures Valid() && View() == Begin(Workers(shards)) && this.env == env
    {
      this.env, this.shards, asked := env, shards, 0;
      log, answers := [], [];
    }

    /** Sends a request to a worker and waits for the response. */
    method SendTo(shard: nat, r: Request) returns (answer: Response)
      requires Valid() && shard < |shards|
      modifies this
      ensures Valid() && |shards| == old(|shards|)
      ensures (View(), answer) == Sessions.SendTo(env, old(View()), shard, r)
    {
      var m := env.schedule(asked);
      ghost var before, ds := View(), Arriving(env, View(), shard, r);
      shards := RunAll(env.cfg, shards, m.others);
      answer := Handle(env.cfg, shards[shard], r, m.clk).1;
      shards := Deliver(env.cfg, shards, Delivery(shard, Runs.Arrive(r, m.clk)));
      asked := asked + 1;
      log, answers := log + ds, answers + [answer];
      MeetConcat(env.cfg, before.backend, m.others, [Delivery(shard, Runs.Arrive(r, m.clk))]);
      assert [Delivery(shard, Runs.Arrive(r, m.clk))][..0] == [];
    }

    /** Sends a request to the worker of its key. */
    method Ask(r: Request) returns (answer: Response)
      requires Valid()
      modifies this
      ensures Valid() && |shards| == old(|shards|)
      ensures (View(), answer) == Sessions.Ask(env, old(View()), r)
    {
      var i := WorkerFor(r.key, |shards|);
      answer := SendTo(i, r);
    }

    /** Flushes the workers one after the other. */
    method FlushAll()
      requires Valid()
      modifies this
      ensures Valid() && |shards| == old(|shards|)
      ensures View() == FlushFrom(env, old(View()), 0)
    {
      for i := 0 to |shards|
        invariant Valid() && |shards| == old(|shards|)
        invariant FlushFrom(env, View(), i) == FlushFrom(env, old(View()), 0)
      {
        var answer := SendTo(i, FlushRequest());
      }
    }

    /** Counts the entries of all workers. */
    method Count() returns (n: nat)
      ensures n == ItemCount(shards)
    {
      n := 0;
      for i := 0 to |shards|
        invariant n == ItemCount(shards[..i])
      {
        assert shards[..i + 1][..i] == shards[..i];
        n := n + |shards[i].lru|;
      }
      assert shards[..|shards|] == shards;
    }
  }
}
