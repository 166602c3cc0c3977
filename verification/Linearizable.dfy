/**
  Every interleaving of clients, workers and sweeps is linearizable: each request that returns was
  handled once, between its invocation and its return, with the response that it returned; and the
  handled requests, in that order, are a legal history of one sequential timed cache.
 */
module Linearizable {
  import opened Basics
  import opened Shard
  import opened Freshness
  import opened Runs
  import opened Sharding
  import opened FlatCache
  import opened Protocol
  import opened ChannelPool

  // ---------- What the log says of a request ----------

  predicate InvokedBy(log: seq<Label>, op: nat, client: nat, worker: nat, req: Request) {
    op < |log| && log[op] == Invoked(client, worker, req)
  }

  /** Position `at` is where this request was handled, with this response. */
  predicate HandledAt(log: seq<Label>, at: nat, op: nat, worker: nat, req: Request, response: Response) {
    && op < at < |log| && log[at].Handled?
    && log[at].op == op && log[at].worker == worker && log[at].req == req && log[at].response == response
  }

  ghost predicate NotHandled(log: seq<Label>, op: nat) {
    forall h :: 0 <= h < |log| && log[h].Handled? ==> log[h].op != op
  }

  ghost predicate NotReturned(log: seq<Label>, op: nat) {
    forall r :: 0 <= r < |log| && log[r].Returned? ==> log[r].op != op
  }

  /** Every request is handled at most once, after it was invoked, by the worker it was sent to. */
  ghost predicate HandledOnce(log: seq<Label>) {
    && (forall h :: 0 <= h < |log| && log[h].Handled? ==>
          && log[h].op < h && log[log[h].op].Invoked?
          && log[log[h].op].worker == log[h].worker && log[log[h].op].req == log[h].req)
    && (forall h, h' :: 0 <= h < h' < |log| && log[h].Handled? && log[h'].Handled? ==> log[h].op != log[h'].op)
  }

  /** Every request returns at most once, after it was handled, to its client, with the response it got there. */
  ghost predicate ReturnedOnce(log: seq<Label>) {
    && (forall r :: 0 <= r < |log| && log[r].Returned? ==> ReturnOk(log, r))
    && (forall r, r' :: 0 <= r < r' < |log| && log[r].Returned? && log[r'].Returned? ==> log[r].op != log[r'].op)
  }

  predicate ReturnOk(log: seq<Label>, r: nat)
    requires r < |log| && log[r].Returned?
  {
    var l := log[r];
    && l.op < l.at < r && log[l.op].Invoked? && log[l.op].client == l.client
    && HandledAt(log, l.at, l.op, log[l.op].worker, log[l.op].req, l.response)
  }

  // ---------- What every reachable state keeps ----------

  /** The response to a client's request, once there is one. */
  function ReplyTo(s: System, c: nat): Option<Reply>
    requires Shaped(s) && c < |s.clients|
  {
    match s.clients[c]
    case Waiting(chan, w, _, _) =>
      if chan >= |s.places| || w >= |s.shards| then None
      else if s.places[chan].InWork? && s.workers[w].Replying? then Some(s.workers[w].reply)
      else if s.places[chan].Buffered? && s.buffers[chan] != [] then Some(s.buffers[chan][0])
      else None
    case Received(_, _, _, _, reply) => Some(reply)
    case _ => None
  }

  /** A pending request has been invoked, has not returned, and has been handled once it has a response. */
  ghost predicate Pending(log: seq<Label>, c: nat, client: Client, reply: Option<Reply>)
    requires !client.Idle?
  {
    && InvokedBy(log, client.op, c, client.worker, client.req) && NotReturned(log, client.op)
    && match reply
       case None => NotHandled(log, client.op)
       case Some(r) => r.op == client.op && HandledAt(log, r.at, r.op, client.worker, client.req, r.response)
  }

  ghost predicate RequestOk(s: System, c: nat)
    requires Shaped(s) && c < |s.clients|
  {
    !s.clients[c].Idle? ==> Pending(s.log, c, s.clients[c], ReplyTo(s, c))
  }

  ghost predicate HistoryOk(s: System) {
    && ChannelsOk(s) && HandledOnce(s.log) && ReturnedOnce(s.log)
    && forall c :: 0 <= c < |s.clients| ==> RequestOk(s, c)
  }

  /** What a label must say to extend a log properly. */
  ghost predicate Extends(log: seq<Label>, l: Label) {
    match l
    case Handled(op, w, req, _, _) =>
      op < |log| && log[op].Invoked? && log[op].worker == w && log[op].req == req && NotHandled(log, op)
    case Returned(op, at, client, response) =>
      && op < |log| && log[op].Invoked? && log[op].client == client && NotReturned(log, op)
      && HandledAt(log, at, op, log[op].worker, log[op].req, response)
    case Invoked(_, _, _) => true
    case Swept(_, _) => true
  }

  lemma HandledGrows(log: seq<Label>, l: Label)
    requires HandledOnce(log) && Extends(log, l)
    ensures HandledOnce(log + [l])
  {
    var longer := log + [l];
    forall h | 0 <= h < |longer| && longer[h].Handled?
      ensures longer[h].op < h && longer[longer[h].op] == log[longer[h].op]
    {
    }
  }

  lemma ReturnedGrows(log: seq<Label>, l: Label)
    requires ReturnedOnce(log) && Extends(log, l)
    ensures ReturnedOnce(log + [l])
  {
    var longer := log + [l];
    forall r | 0 <= r < |longer| && longer[r].Returned?
      ensures ReturnOk(longer, r)
    {
      assert r < |log| ==> ReturnOk(log, r);
    }
  }

  /** A label about another request leaves a pending request as it was. */
  lemma PendingStays(log: seq<Label>, l: Label, c: nat, client: Client, reply: Option<Reply>)
    requires !client.Idle? && Pending(log, c, client, reply)
    requires (l.Handled? || l.Returned?) ==> l.op != client.op
    ensures Pending(log + [l], c, client, reply)
  {
  }

  /** Two clients have different requests pending. */
  lemma OpsDiffer(s: System, c: nat, d: nat)
    requires HistoryOk(s) && c < |s.clients| && d < |s.clients| && c != d
    ensures !s.clients[c].Idle? && !s.clients[d].Idle? ==> s.clients[c].op != s.clients[d].op
  {
    assert RequestOk(s, c) && RequestOk(s, d);
  }

  /** A response stays what it is on its way from the worker to the client. */
  lemma RepliesStay(cfg: Config, s: System, capacity: nat, m: Move, c: nat)
    requires ChannelsOk(s) && Enabled(s, capacity, m) && c < |s.clients| && !s.clients[c].Idle?
    requires m.Return? ==> m.client != c
    requires m.Work? ==> s.queues[m.worker][0].chan != s.clients[c].chan
    ensures ReplyTo(Next(cfg, s, capacity, m), c) == ReplyTo(s, c)
  {
    assert ClientOk(s, c);
    assert ChanOk(s, s.clients[c].chan);
    match m
    case Take(_, chan, _, _) => assert ChanOk(s, chan);
    case Make(_, _, _) =>
    case Send(d) => assert ClientOk(s, d);
    case Work(w, _) => assert QueueOk(s, w); assert MessageOk(s, w, 0);
    case Answer(w) => assert WorkerOk(s, w); assert ChanOk(s, s.workers[w].chan);
    case Receive(d) => assert ClientOk(s, d); assert ChanOk(s, s.clients[d].chan);
    case Return(d) => assert ClientOk(s, d); assert ChanOk(s, s.clients[d].chan);
    case Sweep(_, _) =>
    case Stop(w) =>
    case Collect(chan) => assert ChanOk(s, chan);
  }

  /** Moves that leave no trace in the log. */
  lemma SilentKeepsHistory(cfg: Config, s: System, capacity: nat, m: Move)
    requires HistoryOk(s) && Enabled(s, capacity, m)
    requires m.Send? || m.Answer? || m.Receive? || m.Stop? || m.Collect?
    ensures HistoryOk(Next(cfg, s, capacity, m))
  {
    var t := Next(cfg, s, capacity, m);
    MoveKeepsChannels(cfg, s, capacity, m);
    forall c | 0 <= c < |t.clients|
      ensures RequestOk(t, c)
    {
      assert RequestOk(s, c);
      if !t.clients[c].Idle? {
        RepliesStay(cfg, s, capacity, m, c);
      }
    }
  }

  lemma InvokeKeepsHistory(cfg: Config, s: System, capacity: nat, m: Move)
    requires HistoryOk(s) && (m.Take? || m.Make?) && Enabled(s, capacity, m)
    ensures HistoryOk(Next(cfg, s, capacity, m))
  {
    var t := Next(cfg, s, capacity, m);
    MoveKeepsChannels(cfg, s, capacity, m);
    HandledGrows(s.log, t.log[|s.log|]);
    ReturnedGrows(s.log, t.log[|s.log|]);
    forall c | 0 <= c < |t.clients|
      ensures RequestOk(t, c)
    {
      assert RequestOk(s, c);
      if c != m.client && !t.clients[c].Idle? {
        RepliesStay(cfg, s, capacity, m, c);
        PendingStays(s.log, Invoked(m.client, m.worker, m.req), c, s.clients[c], ReplyTo(s, c));
      }
    }
  }

  lemma SweepKeepsHistory(cfg: Config, s: System, capacity: nat, w: nat, now: nat)
    requires HistoryOk(s) && Enabled(s, capacity, Sweep(w, now))
    ensures HistoryOk(Next(cfg, s, capacity, Sweep(w, now)))
  {
    var t := Next(cfg, s, capacity, Sweep(w, now));
    MoveKeepsChannels(cfg, s, capacity, Sweep(w, now));
    HandledGrows(s.log, t.log[|s.log|]);
    ReturnedGrows(s.log, t.log[|s.log|]);
    forall c | 0 <= c < |t.clients|
      ensures RequestOk(t, c)
    {
      assert RequestOk(s, c);
      if !t.clients[c].Idle? {
        RepliesStay(cfg, s, capacity, Sweep(w, now), c);
        PendingStays(s.log, Swept(w, now), c, s.clients[c], ReplyTo(s, c));
      }
    }
  }

  lemma WorkKeepsHistory(cfg: Config, s: System, capacity: nat, w: nat, clk: Clock)
    requires HistoryOk(s) && Enabled(s, capacity, Work(w, clk))
    ensures HistoryOk(Next(cfg, s, capacity, Work(w, clk)))
  {
    var t, msg := Next(cfg, s, capacity, Work(w, clk)), s.queues[w][0];
    MoveKeepsChannels(cfg, s, capacity, Work(w, clk));
    assert QueueOk(s, w) && MessageOk(s, w, 0) && ChanOk(s, msg.chan);
    var client := s.owners[msg.chan];
    var l := t.log[|s.log|];
    assert RequestOk(s, client);
    HandledGrows(s.log, t.log[|s.log|]);
    ReturnedGrows(s.log, t.log[|s.log|]);
    forall c | 0 <= c < |t.clients|
      ensures RequestOk(t, c)
    {
      assert RequestOk(s, c) && ClientOk(s, c);
      if c != client && !t.clients[c].Idle? {
        OpsDiffer(s, c, client);
        RepliesStay(cfg, s, capacity, Work(w, clk), c);
        PendingStays(s.log, l, c, s.clients[c], ReplyTo(s, c));
      }
    }
  }

  lemma ReturnKeepsHistory(cfg: Config, s: System, capacity: nat, client: nat)
    requires HistoryOk(s) && Enabled(s, capacity, Return(client))
    ensures HistoryOk(Next(cfg, s, capacity, Return(client)))
  {
    var t := Next(cfg, s, capacity, Return(client));
    MoveKeepsChannels(cfg, s, capacity, Return(client));
    assert RequestOk(s, client);
    HandledGrows(s.log, t.log[|s.log|]);
    ReturnedGrows(s.log, t.log[|s.log|]);
    forall c | 0 <= c < |t.clients|
      ensures RequestOk(t, c)
    {
      assert RequestOk(s, c);
      if c != client && !t.clients[c].Idle? {
        OpsDiffer(s, c, client);
        RepliesStay(cfg, s, capacity, Return(client), c);
        PendingStays(s.log, t.log[|s.log|], c, s.clients[c], ReplyTo(s, c));
      }
    }
  }

  lemma MoveKeepsHistory(cfg: Config, s: System, capacity: nat, m: Move)
    requires HistoryOk(s) && Enabled(s, capacity, m)
    ensures HistoryOk(Next(cfg, s, capacity, m))
  {
    match m
    case Take(_, _, _, _) | Make(_, _, _) => InvokeKeepsHistory(cfg, s, capacity, m);
    case Work(w, clk) => WorkKeepsHistory(cfg, s, capacity, w, clk);
    case Return(client) => ReturnKeepsHistory(cfg, s, capacity, client);
    case Sweep(w, now) => SweepKeepsHistory(cfg, s, capacity, w, now);
    case Send(_) | Answer(_) | Receive(_) | Stop(_) | Collect(_) => SilentKeepsHistory(cfg, s, capacity, m);
  }

  // ---------- The sequential history ----------

  /** What the workers did, in the order they did it. */
  function Deliveries(log: seq<Label>): seq<Delivery> {
    if log == [] then []
    else
      Deliveries(log[..|log| - 1]) +
      match log[|log| - 1]
      case Handled(_, w, req, clk, _) => [Delivery(w, Arrive(req, clk))]
      case Swept(w, now) => [Delivery(w, Tick(now))]
      case _ => []
  }

  /** Each response is what the shard gives when the requests are handled one after the other. */
  ghost predicate Sequential(cfg: Config, shards: seq<State>, log: seq<Label>) {
    log != [] ==>
      var prefix, l := log[..|log| - 1], log[|log| - 1];
      && Sequential(cfg, shards, prefix)
      && (l.Handled? ==> l.worker < |shards|
                         && var before := RunAll(cfg, shards, Deliveries(prefix))[l.worker];
                            l.response == Handle(cfg, before, l.req, l.clk).1)
  }

  /** Each response is one that the flat timed cache permits at that point. */
  ghost predicate Legal(cfg: Config, c: Flat, log: seq<Label>) {
    log != [] ==>
      var prefix, l := log[..|log| - 1], log[|log| - 1];
      && Legal(cfg, c, prefix)
      && (l.Handled? ==> l.worker < |c.counters|
                         && FlatPermits(cfg, FlatRun(cfg, c, Deliveries(prefix)), l.worker, l.req, l.clk, l.response))
  }

  lemma OneMoreLabel(cfg: Config, log: seq<Label>, l: Label)
    ensures (log + [l])[..|log|] == log
    ensures l.Handled? ==> Deliveries(log + [l]) == Deliveries(log) + [Delivery(l.worker, Arrive(l.req, l.clk))]
    ensures l.Swept? ==> Deliveries(log + [l]) == Deliveries(log) + [Delivery(l.worker, Tick(l.now))]
    ensures l.Invoked? || l.Returned? ==> Deliveries(log + [l]) == Deliveries(log)
  {
    assert (log + [l])[..|log|] == log;
  }

  lemma OneMoreDelivery(cfg: Config, shards: seq<State>, ds: seq<Delivery>, d: Delivery)
    ensures RunAll(cfg, shards, ds + [d]) == Deliver(cfg, RunAll(cfg, shards, ds), d)
  {
    assert (ds + [d])[..|ds|] == ds;
  }

  /** The shards are what the log says was done to them, in its order. */
  ghost predicate Explained(cfg: Config, shards: seq<State>, s: System) {
    s.shards == RunAll(cfg, shards, Deliveries(s.log)) && Sequential(cfg, shards, s.log)
  }

  /** What one more label says was done to the shards. */
  ghost predicate Records(cfg: Config, before: seq<State>, l: Label, after: seq<State>) {
    match l
    case Handled(_, w, req, clk, response) =>
      && w < |before| && response == Handle(cfg, before[w], req, clk).1
      && after == Deliver(cfg, before, Delivery(w, Arrive(req, clk)))
    case Swept(w, now) => after == Deliver(cfg, before, Delivery(w, Tick(now)))
    case _ => after == before
  }

  lemma LabelKeepsExplained(cfg: Config, shards: seq<State>, s: System, t: System, l: Label)
    requires Explained(cfg, shards, s) && t.log == s.log + [l] && Records(cfg, s.shards, l, t.shards)
    ensures Explained(cfg, shards, t)
  {
    OneMoreLabel(cfg, s.log, l);
    if l.Handled? {
      OneMoreDelivery(cfg, shards, Deliveries(s.log), Delivery(l.worker, Arrive(l.req, l.clk)));
    } else if l.Swept? {
      OneMoreDelivery(cfg, shards, Deliveries(s.log), Delivery(l.worker, Tick(l.now)));
    }
  }

  /** A move adds at most one label, which records what it does to the shards. */
  lemma MoveRecords(cfg: Config, s: System, capacity: nat, m: Move)
    requires Shaped(s) && Enabled(s, capacity, m)
    ensures var t := Next(cfg, s, capacity, m);
            || (t.log == s.log && t.shards == s.shards)
            || (|t.log| == |s.log| + 1 && t.log == s.log + [t.log[|s.log|]]
                && Records(cfg, s.shards, t.log[|s.log|], t.shards))
  {
  }

  lemma MoveKeepsExplained(cfg: Config, shards: seq<State>, s: System, capacity: nat, m: Move)
    requires Shaped(s) && Enabled(s, capacity, m) && Explained(cfg, shards, s)
    ensures Explained(cfg, shards, Next(cfg, s, capacity, m))
  {
    var t := Next(cfg, s, capacity, m);
    MoveRecords(cfg, s, capacity, m);
    if t.log != s.log {
      LabelKeepsExplained(cfg, shards, s, t, t.log[|s.log|]);
    }
  }

  /** With or without a memory limit, the order of handling explains every response. */
  lemma {:induction false} ReachableHistory(cfg: Config, s: System, capacity: nat, moves: seq<Move>)
    requires Initial(s) && Execute(cfg, s, capacity, moves).Some?
    ensures HistoryOk(Execute(cfg, s, capacity, moves).value)
    ensures Explained(cfg, s.shards, Execute(cfg, s, capacity, moves).value)
  {
    if moves != [] {
      var prefix, m := moves[..|moves| - 1], moves[|moves| - 1];
      ReachableHistory(cfg, s, capacity, prefix);
      var before := Execute(cfg, s, capacity, prefix).value;
      MoveKeepsHistory(cfg, before, capacity, m);
      MoveKeepsExplained(cfg, s.shards, before, capacity, m);
    }
  }

  // ---------- The flat cache ----------

  ghost predicate RoutedLog(log: seq<Label>, workers: nat)
    requires workers > 0
  {
    forall i :: 0 <= i < |log| && log[i].Invoked? && !log[i].req.op.FlushAll? ==>
      log[i].worker == Home(log[i].req.key, workers)
  }

  /** The flat cache has served what the workers have, and the shards hold what it holds. */
  ghost predicate Mirrored(cfg: Config, c: Flat, s: System) {
    && s.shards != [] && RoutedLog(s.log, |s.shards|)
    && FlatAgree(s.shards, FlatRun(cfg, c, Deliveries(s.log)), s.times) && Legal(cfg, c, s.log)
  }

  lemma FlatOneMore(cfg: Config, c: Flat, ds: seq<Delivery>, d: Delivery)
    requires d.shard < |c.counters|
    ensures FlatRun(cfg, c, ds + [d]) ==
            var before := FlatRun(cfg, c, ds);
            if d.ev.Arrive? then ApplyFlat(cfg, before, d.shard, d.ev.req, d.ev.clk).0 else before
  {
    assert (ds + [d])[..|ds|] == ds;
  }

  /** The first request in a worker's queue is at the worker of its key. */
  lemma QueuedAtHome(s: System, w: nat)
    requires HistoryOk(s) && w < |s.shards| && s.queues[w] != [] && RoutedLog(s.log, |s.shards|)
    ensures var req := s.queues[w][0].req; !req.op.FlushAll? ==> w == Home(req.key, |s.shards|)
  {
    assert QueueOk(s, w) && MessageOk(s, w, 0);
    assert RequestOk(s, s.owners[s.queues[w][0].chan]);
  }

  /** A delivery that the log records, after the flat cache has served it too. */
  lemma DeliveryIsMirrored(cfg: Config, c: Flat, s: System, t: System, l: Label, d: Delivery)
    requires cfg.maxMemory <= 0 && Mirrored(cfg, c, s) && t.log == s.log + [l] && Records(cfg, s.shards, l, t.shards)
    requires || (l.Handled? && d == Delivery(l.worker, Arrive(l.req, l.clk)))
             || (l.Swept? && d == Delivery(l.worker, Tick(l.now)))
    requires Routed(d, |s.shards|) && s.times[d.shard] <= Start(d.ev) <= End(d.ev)
    requires t.times == s.times[d.shard := End(d.ev)]
    ensures Mirrored(cfg, c, t)
  {
    OneMoreLabel(cfg, s.log, l);
    FlatOneMore(cfg, c, Deliveries(s.log), d);
    DeliveryAgrees(cfg, s.shards, FlatRun(cfg, c, Deliveries(s.log)), s.times, d);
  }

  lemma WorkIsMirrored(cfg: Config, c: Flat, s: System, capacity: nat, w: nat, clk: Clock)
    requires cfg.maxMemory <= 0 && HistoryOk(s) && Enabled(s, capacity, Work(w, clk)) && Mirrored(cfg, c, s)
    ensures Mirrored(cfg, c, Next(cfg, s, capacity, Work(w, clk)))
  {
    var t := Next(cfg, s, capacity, Work(w, clk));
    QueuedAtHome(s, w);
    MoveRecords(cfg, s, capacity, Work(w, clk));
    DeliveryIsMirrored(cfg, c, s, t, t.log[|s.log|], Delivery(w, Arrive(s.queues[w][0].req, clk)));
  }

  lemma SweepIsMirrored(cfg: Config, c: Flat, s: System, capacity: nat, w: nat, now: nat)
    requires cfg.maxMemory <= 0 && HistoryOk(s) && Enabled(s, capacity, Sweep(w, now)) && Mirrored(cfg, c, s)
    ensures Mirrored(cfg, c, Next(cfg, s, capacity, Sweep(w, now)))
  {
    var t := Next(cfg, s, capacity, Sweep(w, now));
    MoveRecords(cfg, s, capacity, Sweep(w, now));
    DeliveryIsMirrored(cfg, c, s, t, t.log[|s.log|], Delivery(w, Tick(now)));
  }

  /** A move that serves nothing leaves the flat cache alone; it may record a client's doing. */
  lemma ClientIsMirrored(cfg: Config, c: Flat, s: System, t: System)
    requires Mirrored(cfg, c, s) && t.shards == s.shards && t.times == s.times && RoutedLog(t.log, |s.shards|)
    requires || t.log == s.log
             || (|t.log| == |s.log| + 1 && t.log == s.log + [t.log[|s.log|]]
                 && (t.log[|s.log|].Invoked? || t.log[|s.log|].Returned?))
    ensures Mirrored(cfg, c, t)
  {
    if t.log != s.log {
      OneMoreLabel(cfg, s.log, t.log[|s.log|]);
    }
  }

  lemma MoveIsMirrored(cfg: Config, c: Flat, s: System, capacity: nat, m: Move)
    requires cfg.maxMemory <= 0 && HistoryOk(s) && Enabled(s, capacity, m) && Mirrored(cfg, c, s)
    ensures Mirrored(cfg, c, Next(cfg, s, capacity, m))
  {
    match m
    case Work(w, clk) => WorkIsMirrored(cfg, c, s, capacity, w, clk);
    case Sweep(w, now) => SweepIsMirrored(cfg, c, s, capacity, w, now);
    case Take(_, _, _, _) | Make(_, _, _) | Return(_) | Send(_) | Answer(_) | Receive(_) | Stop(_) | Collect(_) =>
      ClientIsMirrored(cfg, c, s, Next(cfg, s, capacity, m));
  }

  /** The flat cache with nothing in it, its counters where the workers' counters start. */
  function EmptyCache(shards: seq<State>): Flat {
    Flat(map[], seq(|shards|, i requires 0 <= i < |shards| => shards[i].casCounter))
  }

  lemma {:induction false} ReachableMirrored(cfg: Config, s: System, capacity: nat, moves: seq<Move>)
    requires cfg.maxMemory <= 0 && Initial(s) && Execute(cfg, s, capacity, moves).Some?
    ensures Mirrored(cfg, EmptyCache(s.shards), Execute(cfg, s, capacity, moves).value)
  {
    if moves != [] {
      var prefix, m := moves[..|moves| - 1], moves[|moves| - 1];
      ReachableMirrored(cfg, s, capacity, prefix);
      ReachableHistory(cfg, s, capacity, prefix);
      MoveIsMirrored(cfg, EmptyCache(s.shards), Execute(cfg, s, capacity, prefix).value, capacity, m);
    }
  }

  /** If one request returns before another is invoked, it is handled before the other. */
  ghost predicate RealTimeOrder(log: seq<Label>) {
    forall r, i, h :: (0 <= r < i < |log| && 0 <= h < |log| && log[r].Returned? && log[i].Invoked?
                       && log[h].Handled? && log[h].op == i) ==> log[r].at < h
  }

  /**
    Linearizability, in every reachable state of every interleaving, without a memory limit: each
    return answers the one handling of its request, which lies between its invocation and its
    return; the handled requests in their order are a legal history of one sequential timed cache
    over all keys; and that order respects real time. (A flush of all keys is one flush per worker.)
   */
  lemma IsLinearizable(cfg: Config, s: System, capacity: nat, moves: seq<Move>)
    requires cfg.maxMemory <= 0 && Initial(s) && Execute(cfg, s, capacity, moves).Some?
    ensures var log := Execute(cfg, s, capacity, moves).value.log;
            && HandledOnce(log) && ReturnedOnce(log) && RealTimeOrder(log)
            && Legal(cfg, EmptyCache(s.shards), log)
  {
    ReachableHistory(cfg, s, capacity, moves);
    ReachableMirrored(cfg, s, capacity, moves);
    var log := Execute(cfg, s, capacity, moves).value.log;
    assert forall r :: 0 <= r < |log| && log[r].Returned? ==> ReturnOk(log, r);
  }
}
