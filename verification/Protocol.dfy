/**
  Clients and workers as they run at the same time: response channels from a shared pool, bounded
  request queues, timer ticks and stops, in any interleaving.

  A client takes a response channel, sends a request to a worker's queue, waits for the one response
  and gives the channel back. A worker takes requests and ticks one at a time.
 */
module Protocol {
  import opened Basics
  import opened Shard
  import opened Sharding

  // ---------- The state ----------

  /** A request in a queue. `op` is the position in the log where it was invoked. */
  datatype Message = Message(req: Request, chan: nat, op: nat)

  /** A response on its way. `at` is the position in the log where the request was handled. */
  datatype Reply = Reply(response: Response, op: nat, at: nat)

  /** Where a client stands in sending a request. */
  datatype Client =
    | Idle
    | Sending(chan: nat, worker: nat, req: Request, op: nat)
    | Waiting(chan: nat, worker: nat, req: Request, op: nat)
    | Received(chan: nat, worker: nat, req: Request, op: nat, reply: Reply)

  datatype Worker = Ready | Replying(chan: nat, reply: Reply) | Stopped

  /** What can be observed of a run, in order. */
  datatype Label =
    | Invoked(client: nat, worker: nat, req: Request)
    | Handled(op: nat, worker: nat, req: Request, clk: Clock, response: Response)
    | Swept(worker: nat, now: nat)
    | Returned(op: nat, at: nat, client: nat, response: Response)

  /** Where a response channel is, as far as the client that took it last knows. */
  datatype Place = Pooled | Dropped | Held | Queued | InWork | Buffered

  /** No move depends on `places`, `owners` or `log`: they only record what happened. */
  datatype System = System(
    shards: seq<State>,
    queues: seq<seq<Message>>,
    workers: seq<Worker>,
    times: seq<nat>,
    clients: seq<Client>,
    pool: set<nat>,
    buffers: seq<seq<Reply>>,
    places: seq<Place>,
    owners: seq<nat>,
    log: seq<Label>)

  // ---------- The moves ----------

  datatype Move =
    | Take(client: nat, chan: nat, worker: nat, req: Request)
    | Make(client: nat, worker: nat, req: Request)
    | Send(client: nat)
    | Work(worker: nat, clk: Clock)
    | Answer(worker: nat)
    | Receive(client: nat)
    | Return(client: nat)
    | Sweep(worker: nat, now: nat)
    | Stop(worker: nat)
    | Collect(chan: nat)

  predicate CanInvoke(s: System, client: nat, worker: nat, req: Request) {
    && client < |s.clients| && s.clients[client].Idle? && worker < |s.shards|
    && (!req.op.FlushAll? ==> worker == Home(req.key, |s.shards|))
  }

  /**
    A send goes through when the queue has room, or, as for a channel without a buffer, when the
    worker is ready to take the message at once.
   */
  predicate Enabled(s: System, capacity: nat, m: Move)
    requires Shaped(s)
  {
    match m
    case Take(client, chan, worker, req) => CanInvoke(s, client, worker, req) && chan in s.pool && chan < |s.buffers|
    case Make(client, worker, req) => CanInvoke(s, client, worker, req)
    case Send(client) =>
      && client < |s.clients| && s.clients[client].Sending?
      && var w := s.clients[client].worker;
         w < |s.shards| && (|s.queues[w]| < capacity || (s.queues[w] == [] && s.workers[w].Ready?))
    case Work(w, clk) =>
      w < |s.shards| && s.workers[w].Ready? && s.queues[w] != [] && s.times[w] <= clk.check <= clk.store
    case Answer(w) =>
      && w < |s.shards| && s.workers[w].Replying?
      && s.workers[w].chan < |s.buffers| && s.buffers[s.workers[w].chan] == []
    case Receive(client) =>
      && client < |s.clients| && s.clients[client].Waiting?
      && s.clients[client].chan < |s.buffers| && s.buffers[s.clients[client].chan] != []
    case Return(client) => client < |s.clients| && s.clients[client].Received?
    case Sweep(w, now) => w < |s.shards| && s.workers[w].Ready? && s.times[w] <= now
    case Stop(w) => w < |s.shards| && s.workers[w].Ready?
    case Collect(chan) => chan in s.pool
  }

  predicate Shaped(s: System) {
    && |s.queues| == |s.workers| == |s.times| == |s.shards|
    && |s.buffers| == |s.places| == |s.owners|
  }

  /** The pool makes a new channel when it has none to give. */
  function WithNewChannel(s: System, client: nat): System {
    s.(pool := s.pool + {|s.places|},
       places := s.places + [Pooled],
       owners := s.owners + [client],
       buffers := s.buffers + [[]])
  }

  function Invoke(s: System, client: nat, chan: nat, worker: nat, req: Request): System
    requires CanInvoke(s, client, worker, req) && chan < |s.places| == |s.owners|
  {
    s.(pool := s.pool - {chan},
       places := s.places[chan := Held],
       owners := s.owners[chan := client],
       clients := s.clients[client := Sending(chan, worker, req, |s.log|)],
       log := s.log + [Invoked(client, worker, req)])
  }

  function Next(cfg: Config, s: System, capacity: nat, m: Move): (t: System)
    requires Shaped(s) && Enabled(s, capacity, m)
    ensures Shaped(t) && |t.shards| == |s.shards|
  {
    match m
    case Take(client, chan, worker, req) => Invoke(s, client, chan, worker, req)
    case Make(client, worker, req) => Invoke(WithNewChannel(s, client), client, |s.places|, worker, req)
    case Send(client) =>
      var c := s.clients[client];
      s.(queues := s.queues[c.worker := s.queues[c.worker] + [Message(c.req, c.chan, c.op)]],
         clients := s.clients[client := Waiting(c.chan, c.worker, c.req, c.op)],
         places := Moved(s.places, c.chan, Queued))
    case Work(w, clk) =>
      var msg := s.queues[w][0];
      var (shard, response) := Handle(cfg, s.shards[w], msg.req, clk);
      s.(shards := s.shards[w := shard],
         queues := s.queues[w := s.queues[w][1..]],
         workers := s.workers[w := Replying(msg.chan, Reply(response, msg.op, |s.log|))],
         times := s.times[w := clk.store],
         places := Moved(s.places, msg.chan, InWork),
         log := s.log + [Handled(msg.op, w, msg.req, clk, response)])
    case Answer(w) =>
      var r := s.workers[w];
      s.(workers := s.workers[w := Ready],
         buffers := s.buffers[r.chan := [r.reply]],
         places := Moved(s.places, r.chan, Buffered))
    case Receive(client) =>
      var c := s.clients[client];
      s.(clients := s.clients[client := Received(c.chan, c.worker, c.req, c.op, s.buffers[c.chan][0])],
         buffers := s.buffers[c.chan := s.buffers[c.chan][1..]],
         places := Moved(s.places, c.chan, Held))
    case Return(client) =>
      var c := s.clients[client];
      s.(clients := s.clients[client := Idle],
         pool := s.pool + {c.chan},
         places := Moved(s.places, c.chan, Pooled),
         log := s.log + [Returned(c.op, c.reply.at, client, c.reply.response)])
    case Sweep(w, now) =>
      s.(shards := s.shards[w := Shard.Sweep(s.shards[w], now)],
         times := s.times[w := now],
         log := s.log + [Swept(w, now)])
    case Stop(w) => s.(workers := s.workers[w := Stopped])
    case Collect(chan) => s.(pool := s.pool - {chan}, places := Moved(s.places, chan, Dropped))
  }

  function Moved(places: seq<Place>, chan: nat, to: Place): (moved: seq<Place>)
    ensures |moved| == |places|
  {
    if chan < |places| then places[chan := to] else places
  }

  // ---------- Runs ----------

  /** Empty shards, no channels yet, and nobody doing anything. */
  ghost predicate Initial(s: System) {
    && Shaped(s) && s.shards != [] && s.log == [] && s.pool == {} && s.places == []
    && (forall w :: 0 <= w < |s.shards| ==>
          s.shards[w].lru == [] && s.shards[w].used == 0 && s.queues[w] == [] && s.workers[w].Ready?)
    && (forall c :: 0 <= c < |s.clients| ==> s.clients[c].Idle?)
  }

  /** The state after a run of moves; none if one of them is not enabled where it comes. */
  function Execute(cfg: Config, s: System, capacity: nat, moves: seq<Move>): (t: Option<System>)
    requires Shaped(s)
    ensures t.Some? ==> Shaped(t.value) && |t.value.shards| == |s.shards|
  {
    if moves == [] then Some(s)
    else
      var before, m := Execute(cfg, s, capacity, moves[..|moves| - 1]), moves[|moves| - 1];
      if before.Some? && Enabled(before.value, capacity, m) then Some(Next(cfg, before.value, capacity, m)) else None
  }

  lemma {:induction false} ExecuteMore(cfg: Config, s: System, capacity: nat, moves: seq<Move>, m: Move)
    requires Shaped(s) && Enabled(s, capacity, m) && Execute(cfg, Next(cfg, s, capacity, m), capacity, moves).Some?
    ensures Execute(cfg, s, capacity, [m] + moves) == Execute(cfg, Next(cfg, s, capacity, m), capacity, moves)
    decreases |moves|
  {
    if moves == [] {
      assert [m][..0] == [];
    } else {
      var prefix, all := moves[..|moves| - 1], [m] + moves;
      ExecuteMore(cfg, s, capacity, prefix, m);
      assert all[..|all| - 1] == [m] + prefix && all[|all| - 1] == moves[|moves| - 1];
    }
  }
}
