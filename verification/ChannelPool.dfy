/**
  What every reachable state of the protocol keeps: a response channel is pooled and empty, or in the
  hands of exactly one client with at most one response in it, and that response answers the
  client's own request. So no response goes astray, and no worker ever blocks on sending one.
 */
module ChannelPool {
  import opened Shard
  import opened Protocol

  /** The client has this channel and talks to this worker. */
  predicate Has(s: System, c: nat, chan: nat, worker: nat)
    requires Shaped(s)
  {
    chan < |s.places| && s.owners[chan] == c && worker < |s.shards|
  }

  ghost predicate ClientOk(s: System, c: nat)
    requires Shaped(s) && c < |s.clients|
  {
    match s.clients[c]
    case Idle => true
    case Sending(chan, w, _, _) => Has(s, c, chan, w) && s.places[chan].Held?
    case Waiting(chan, w, _, _) =>
      Has(s, c, chan, w) && (s.places[chan].Queued? || s.places[chan].InWork? || s.places[chan].Buffered?)
    case Received(chan, w, _, op, reply) => Has(s, c, chan, w) && s.places[chan].Held? && reply.op == op
  }

  /** The owner of the channel has it, and waits on it if `waiting` says so. */
  predicate OwnerHas(s: System, chan: nat, waiting: bool)
    requires Shaped(s) && chan < |s.places|
  {
    && s.owners[chan] < |s.clients|
    && var client := s.clients[s.owners[chan]];
       !client.Idle? && client.chan == chan && client.Waiting? == waiting && client.worker < |s.shards|
  }

  ghost predicate InQueue(queue: seq<Message>, chan: nat) {
    exists i :: 0 <= i < |queue| && queue[i].chan == chan
  }

  ghost predicate ChanOk(s: System, chan: nat)
    requires Shaped(s) && chan < |s.places|
  {
    && (chan in s.pool <==> s.places[chan].Pooled?)
    && (!s.places[chan].Buffered? ==> s.buffers[chan] == [])
    && match s.places[chan]
       case Pooled | Dropped => true
       case Held => OwnerHas(s, chan, false)
       case Queued => OwnerHas(s, chan, true) && InQueue(s.queues[s.clients[s.owners[chan]].worker], chan)
       case InWork =>
         && OwnerHas(s, chan, true)
         && var worker := s.workers[s.clients[s.owners[chan]].worker];
            worker.Replying? && worker.chan == chan
       case Buffered =>
         && OwnerHas(s, chan, true)
         && |s.buffers[chan]| == 1 && s.buffers[chan][0].op == s.clients[s.owners[chan]].op
  }

  /** A queued message is the request its sender waits for. */
  ghost predicate MessageOk(s: System, w: nat, i: nat)
    requires Shaped(s) && w < |s.shards| && i < |s.queues[w]|
  {
    var m := s.queues[w][i];
    && m.chan < |s.places| && s.places[m.chan].Queued?
    && s.owners[m.chan] < |s.clients| && s.clients[s.owners[m.chan]] == Waiting(m.chan, w, m.req, m.op)
  }

  /** What a worker is about to send answers the request that the channel's owner waits for. */
  ghost predicate WorkerOk(s: System, w: nat)
    requires Shaped(s) && w < |s.shards|
  {
    s.workers[w].Replying? ==>
      var chan := s.workers[w].chan;
      && chan < |s.places| && s.places[chan].InWork? && OwnerHas(s, chan, true)
      && s.clients[s.owners[chan]].worker == w && s.clients[s.owners[chan]].op == s.workers[w].reply.op
  }

  ghost predicate QueueOk(s: System, w: nat)
    requires Shaped(s) && w < |s.shards|
  {
    && (forall i :: 0 <= i < |s.queues[w]| ==> MessageOk(s, w, i))
    && (forall i, j :: 0 <= i < j < |s.queues[w]| ==> s.queues[w][i].chan != s.queues[w][j].chan)
  }

  ghost predicate ChannelsOk(s: System) {
    && Shaped(s)
    && (forall c :: 0 <= c < |s.clients| ==> ClientOk(s, c))
    && (forall chan :: 0 <= chan < |s.places| ==> ChanOk(s, chan))
    && (forall chan :: chan in s.pool ==> chan < |s.places|)
    && (forall w :: 0 <= w < |s.shards| ==> WorkerOk(s, w))
    && (forall w :: 0 <= w < |s.shards| ==> QueueOk(s, w))
  }

  /** Taking a channel, pooled or new. */
  lemma InvokeKeepsChannels(s: System, client: nat, chan: nat, worker: nat, req: Request)
    requires Shaped(s) && CanInvoke(s, client, worker, req) && chan < |s.places|
    requires ChannelsOk(s) && s.places[chan].Pooled?
    ensures ChannelsOk(Invoke(s, client, chan, worker, req))
  {
    var t := Invoke(s, client, chan, worker, req);
    forall c | 0 <= c < |t.clients|
      ensures ClientOk(t, c)
    {
      assert ClientOk(s, c);
    }
    forall ch | 0 <= ch < |t.places|
      ensures ChanOk(t, ch)
    {
      assert ChanOk(s, ch);
    }
    forall w | 0 <= w < |t.shards|
      ensures WorkerOk(t, w) && QueueOk(t, w)
    {
      assert WorkerOk(s, w) && QueueOk(s, w);
      forall i | 0 <= i < |t.queues[w]|
        ensures MessageOk(t, w, i)
      {
        assert MessageOk(s, w, i);
      }
    }
  }

  lemma MakeKeepsChannels(s: System, client: nat, worker: nat, req: Request)
    requires ChannelsOk(s) && CanInvoke(s, client, worker, req)
    ensures ChannelsOk(Invoke(WithNewChannel(s, client), client, |s.places|, worker, req))
  {
    var t := WithNewChannel(s, client);
    forall c | 0 <= c < |t.clients|
      ensures ClientOk(t, c)
    {
      assert ClientOk(s, c);
    }
    forall ch | 0 <= ch < |t.places|
      ensures ChanOk(t, ch)
    {
      assert ch < |s.places| ==> ChanOk(s, ch);
    }
    forall w | 0 <= w < |t.shards|
      ensures WorkerOk(t, w) && QueueOk(t, w)
    {
      assert WorkerOk(s, w) && QueueOk(s, w);
      forall i | 0 <= i < |t.queues[w]|
        ensures MessageOk(t, w, i)
      {
        assert MessageOk(s, w, i);
      }
    }
    InvokeKeepsChannels(t, client, |s.places|, worker, req);
  }

  /** The two states differ at one client, the channel it has, and the worker it talks to. */
  ghost predicate DifferAt(s: System, t: System, client: nat, chan: nat, w: nat)
    requires Shaped(s) && Shaped(t)
  {
    && |t.clients| == |s.clients| && |t.places| == |s.places| && |t.shards| == |s.shards|
    && client < |s.clients| && chan < |s.places| && w < |s.shards| && t.owners == s.owners && s.owners[chan] == client
    && !s.clients[client].Idle? && s.clients[client].chan == chan && s.clients[client].worker == w
    && (forall c :: 0 <= c < |s.clients| && c != client ==> t.clients[c] == s.clients[c])
    && (forall ch :: 0 <= ch < |s.places| && ch != chan ==>
          t.places[ch] == s.places[ch] && t.buffers[ch] == s.buffers[ch] && (ch in t.pool <==> ch in s.pool))
    && (forall v :: 0 <= v < |s.shards| && v != w ==> t.queues[v] == s.queues[v] && t.workers[v] == s.workers[v])
    && (forall ch :: InQueue(s.queues[w], ch) && ch != chan ==> InQueue(t.queues[w], ch))
    && (t.workers[w] != s.workers[w] && s.workers[w].Replying? ==> s.workers[w].chan == chan)
  }

  /** Then only those have to be looked at. */
  lemma OthersKeepChannels(s: System, t: System, client: nat, chan: nat, w: nat)
    requires ChannelsOk(s) && Shaped(t) && DifferAt(s, t, client, chan, w) && t.pool <= s.pool + {chan}
    requires ClientOk(t, client) && ChanOk(t, chan) && WorkerOk(t, w) && QueueOk(t, w)
    requires s.places[chan].Queued? ==> !InQueue(t.queues[w], chan)
    requires s.places[chan].InWork? ==> !t.workers[w].Replying?
    ensures ChannelsOk(t)
  {
    forall c | 0 <= c < |t.clients| && c != client
      ensures ClientOk(t, c)
    {
      assert ClientOk(s, c);
    }
    forall ch | 0 <= ch < |t.places| && ch != chan
      ensures ChanOk(t, ch)
    {
      assert ChanOk(s, ch);
    }
    forall v | 0 <= v < |t.shards| && v != w
      ensures WorkerOk(t, v) && QueueOk(t, v)
    {
      assert WorkerOk(s, v) && QueueOk(s, v);
      forall i | 0 <= i < |t.queues[v]|
        ensures MessageOk(t, v, i)
      {
        assert MessageOk(s, v, i);
      }
    }
  }

  lemma SendKeepsChannels(cfg: Config, s: System, capacity: nat, client: nat)
    requires ChannelsOk(s) && Enabled(s, capacity, Send(client))
    ensures ChannelsOk(Next(cfg, s, capacity, Send(client)))
  {
    var t, c := Next(cfg, s, capacity, Send(client)), s.clients[client];
    var n := |s.queues[c.worker]|;
    assert ClientOk(s, client) && ChanOk(s, c.chan) && WorkerOk(s, c.worker) && QueueOk(s, c.worker);
    assert t.queues[c.worker][n].chan == c.chan;
    forall ch | InQueue(s.queues[c.worker], ch)
      ensures InQueue(t.queues[c.worker], ch)
    {
      var i :| 0 <= i < n && s.queues[c.worker][i].chan == ch;
      assert t.queues[c.worker][i].chan == ch;
    }
    forall i | 0 <= i < n
      ensures MessageOk(t, c.worker, i) && t.queues[c.worker][i].chan != c.chan
    {
      assert MessageOk(s, c.worker, i);
    }
    OthersKeepChannels(s, t, client, c.chan, c.worker);
  }

  lemma WorkKeepsChannels(cfg: Config, s: System, capacity: nat, w: nat, clk: Clock)
    requires ChannelsOk(s) && Enabled(s, capacity, Work(w, clk))
    ensures ChannelsOk(Next(cfg, s, capacity, Work(w, clk)))
  {
    var t, msg := Next(cfg, s, capacity, Work(w, clk)), s.queues[w][0];
    assert QueueOk(s, w) && MessageOk(s, w, 0) && ChanOk(s, msg.chan);
    var client := s.owners[msg.chan];
    assert ClientOk(s, client);
    forall ch | InQueue(s.queues[w], ch) && ch != msg.chan
      ensures InQueue(t.queues[w], ch)
    {
      var i :| 0 <= i < |s.queues[w]| && s.queues[w][i].chan == ch;
      assert t.queues[w][i - 1].chan == ch;
    }
    forall i | 0 <= i < |t.queues[w]|
      ensures MessageOk(t, w, i) && t.queues[w][i].chan != msg.chan
    {
      assert MessageOk(s, w, i + 1);
    }
    OthersKeepChannels(s, t, client, msg.chan, w);
  }

  lemma AnswerKeepsChannels(cfg: Config, s: System, capacity: nat, w: nat)
    requires ChannelsOk(s) && Enabled(s, capacity, Answer(w))
    ensures ChannelsOk(Next(cfg, s, capacity, Answer(w)))
  {
    var t, chan := Next(cfg, s, capacity, Answer(w)), s.workers[w].chan;
    assert WorkerOk(s, w) && QueueOk(s, w) && ChanOk(s, chan);
    var client := s.owners[chan];
    assert ClientOk(s, client);
    forall i | 0 <= i < |t.queues[w]|
      ensures MessageOk(t, w, i)
    {
      assert MessageOk(s, w, i);
    }
    OthersKeepChannels(s, t, client, chan, w);
  }

  /** Receiving a response, and giving the channel back. */
  lemma FinishKeepsChannels(cfg: Config, s: System, capacity: nat, m: Move)
    requires ChannelsOk(s) && (m.Receive? || m.Return?) && Enabled(s, capacity, m)
    ensures ChannelsOk(Next(cfg, s, capacity, m))
  {
    var t, c := Next(cfg, s, capacity, m), s.clients[m.client];
    assert ClientOk(s, m.client) && ChanOk(s, c.chan) && WorkerOk(s, c.worker) && QueueOk(s, c.worker);
    forall i | 0 <= i < |t.queues[c.worker]|
      ensures MessageOk(t, c.worker, i)
    {
      assert MessageOk(s, c.worker, i);
    }
    OthersKeepChannels(s, t, m.client, c.chan, c.worker);
  }

  /** Sweeping, stopping, and dropping a pooled channel. */
  lemma QuietKeepsChannels(cfg: Config, s: System, capacity: nat, m: Move)
    requires ChannelsOk(s) && (m.Sweep? || m.Stop? || m.Collect?) && Enabled(s, capacity, m)
    ensures ChannelsOk(Next(cfg, s, capacity, m))
  {
    var t := Next(cfg, s, capacity, m);
    assert m.Collect? ==> ChanOk(s, m.chan);
    forall c | 0 <= c < |t.clients|
      ensures ClientOk(t, c)
    {
      assert ClientOk(s, c);
    }
    forall ch | 0 <= ch < |t.places|
      ensures ChanOk(t, ch)
    {
      assert ChanOk(s, ch);
    }
    forall w | 0 <= w < |t.shards|
      ensures WorkerOk(t, w) && QueueOk(t, w)
    {
      assert WorkerOk(s, w) && QueueOk(s, w);
      forall i | 0 <= i < |t.queues[w]|
        ensures MessageOk(t, w, i)
      {
        assert MessageOk(s, w, i);
      }
    }
  }

  lemma MoveKeepsChannels(cfg: Config, s: System, capacity: nat, m: Move)
    requires ChannelsOk(s) && Enabled(s, capacity, m)
    ensures ChannelsOk(Next(cfg, s, capacity, m))
  {
    match m
    case Take(client, chan, worker, req) =>
      assert ChanOk(s, chan);
      InvokeKeepsChannels(s, client, chan, worker, req);
    case Make(client, worker, req) => MakeKeepsChannels(s, client, worker, req);
    case Send(client) => SendKeepsChannels(cfg, s, capacity, client);
    case Work(w, clk) => WorkKeepsChannels(cfg, s, capacity, w, clk);
    case Answer(w) => AnswerKeepsChannels(cfg, s, capacity, w);
    case Receive(_) | Return(_) => FinishKeepsChannels(cfg, s, capacity, m);
    case Sweep(_, _) | Stop(_) | Collect(_) => QuietKeepsChannels(cfg, s, capacity, m);
  }

  /** The pool protocol holds in every reachable state, whatever the interleaving. */
  lemma {:induction false} ReachableChannels(cfg: Config, s: System, capacity: nat, moves: seq<Move>)
    requires Initial(s) && Execute(cfg, s, capacity, moves).Some?
    ensures ChannelsOk(Execute(cfg, s, capacity, moves).value)
  {
    if moves != [] {
      ReachableChannels(cfg, s, capacity, moves[..|moves| - 1]);
      MoveKeepsChannels(cfg, Execute(cfg, s, capacity, moves[..|moves| - 1]).value, capacity, moves[|moves| - 1]);
    }
  }

  // ---------- What follows ----------

  /** A worker that has a response to send can send it. */
  lemma AnswerNeverBlocks(cfg: Config, s: System, capacity: nat, moves: seq<Move>, w: nat)
    requires Initial(s) && Execute(cfg, s, capacity, moves).Some?
    requires var t := Execute(cfg, s, capacity, moves).value; w < |t.workers| && t.workers[w].Replying?
    ensures Enabled(Execute(cfg, s, capacity, moves).value, capacity, Answer(w))
  {
    ReachableChannels(cfg, s, capacity, moves);
    var t := Execute(cfg, s, capacity, moves).value;
    assert WorkerOk(t, w) && ChanOk(t, t.workers[w].chan);
  }

  /** The client waits on this channel for the answer to this very request. */
  predicate AwaitsReply(c: Client, chan: nat, reply: Reply) {
    c.Waiting? && c.chan == chan && c.op == reply.op
  }

  /** No two clients have the same channel, and a channel with a response in it has a client waiting. */
  lemma ChannelHasOneOwner(cfg: Config, s: System, capacity: nat, moves: seq<Move>)
    requires Initial(s) && Execute(cfg, s, capacity, moves).Some?
    ensures var t := Execute(cfg, s, capacity, moves).value;
            && (forall c, d :: 0 <= c < d < |t.clients| && !t.clients[c].Idle? && !t.clients[d].Idle? ==>
                  t.clients[c].chan != t.clients[d].chan)
            && (forall c :: 0 <= c < |t.clients| && !t.clients[c].Idle? ==> t.clients[c].chan !in t.pool)
            && (forall chan :: chan in t.pool ==> chan < |t.buffers| && t.buffers[chan] == [])
            && (forall chan :: 0 <= chan < |t.buffers| && t.buffers[chan] != [] ==>
                  && |t.buffers[chan]| == 1
                  && exists c :: 0 <= c < |t.clients| && AwaitsReply(t.clients[c], chan, t.buffers[chan][0]))
  {
    ReachableChannels(cfg, s, capacity, moves);
    var t := Execute(cfg, s, capacity, moves).value;
    forall c | 0 <= c < |t.clients| && !t.clients[c].Idle?
      ensures t.clients[c].chan < |t.places| && t.owners[t.clients[c].chan] == c && t.clients[c].chan !in t.pool
    {
      assert ClientOk(t, c);
      assert ChanOk(t, t.clients[c].chan);
    }
    forall chan | chan in t.pool
      ensures chan < |t.buffers| && t.buffers[chan] == []
    {
      assert ChanOk(t, chan);
    }
    forall chan | 0 <= chan < |t.buffers| && t.buffers[chan] != []
      ensures |t.buffers[chan]| == 1
      ensures exists c :: 0 <= c < |t.clients| && AwaitsReply(t.clients[c], chan, t.buffers[chan][0])
    {
      assert ChanOk(t, chan);
      assert AwaitsReply(t.clients[t.owners[chan]], chan, t.buffers[chan][0]);
    }
  }

  /** How many moves of its worker are ahead of a waiting client, whose message is `i`th in the queue. */
  function Ahead(s: System, c: nat, i: nat): nat
    requires Shaped(s) && c < |s.clients| && s.clients[c].Waiting? && Has(s, c, s.clients[c].chan, s.clients[c].worker)
  {
    match s.places[s.clients[c].chan]
    case Queued => 2 + 2 * i + if s.workers[s.clients[c].worker].Replying? then 1 else 0
    case InWork => 1
    case _ => 0
  }

  /** The client's message is `i`th in its worker's queue, if it is still there. */
  predicate QueuedAt(s: System, c: nat, i: nat)
    requires Shaped(s) && c < |s.clients| && s.clients[c].Waiting? && Has(s, c, s.clients[c].chan, s.clients[c].worker)
  {
    var queue := s.queues[s.clients[c].worker];
    s.places[s.clients[c].chan].Queued? ==> i < |queue| && queue[i].chan == s.clients[c].chan
  }

  /** The move that brings a waiting client nearer to its response. */
  function Nearer(s: System, c: nat): Move
    requires Shaped(s) && c < |s.clients| && s.clients[c].Waiting? && Has(s, c, s.clients[c].chan, s.clients[c].worker)
  {
    var w := s.clients[c].worker;
    if s.workers[w].Replying? then Answer(w) else Work(w, Clock(s.times[w], s.times[w]))
  }

  lemma NearerIsNearer(cfg: Config, s: System, capacity: nat, c: nat, i: nat) returns (j: nat)
    requires ChannelsOk(s) && c < |s.clients| && s.clients[c].Waiting?
    requires Has(s, c, s.clients[c].chan, s.clients[c].worker) && QueuedAt(s, c, i)
    requires !s.workers[s.clients[c].worker].Stopped? && !s.places[s.clients[c].chan].Buffered?
    ensures Enabled(s, capacity, Nearer(s, c))
    ensures var t := Next(cfg, s, capacity, Nearer(s, c));
            && ChannelsOk(t) && |t.clients| == |s.clients| && t.clients[c] == s.clients[c]
            && !t.workers[t.clients[c].worker].Stopped? && Has(t, c, t.clients[c].chan, t.clients[c].worker)
            && QueuedAt(t, c, j) && Ahead(t, c, j) < Ahead(s, c, i)
  {
    var w, chan := s.clients[c].worker, s.clients[c].chan;
    assert ClientOk(s, c) && ChanOk(s, chan) && WorkerOk(s, w) && QueueOk(s, w);
    if s.workers[w].Replying? {
      assert ChanOk(s, s.workers[w].chan);
      j := i;
    } else {
      assert MessageOk(s, w, 0);
      j := if i == 0 then 0 else i - 1;
    }
    MoveKeepsChannels(cfg, s, capacity, Nearer(s, c));
  }

  /** A move of this worker, or the client's own sending or receiving. */
  predicate IsMoveOf(m: Move, c: nat, w: nat) {
    m == Send(c) || m == Receive(c) || m == Answer(w) || (m.Work? && m.worker == w)
  }

  /**
    From any state of the pool protocol, a waiting client whose worker has not been stopped gets its
    response after a bounded number of that worker's moves, whatever is queued before it and whatever
    the other clients and workers do not do.
   */
  lemma {:induction false} CanBeAnswered(cfg: Config, s: System, capacity: nat, c: nat, i: nat)
    returns (moves: seq<Move>)
    requires ChannelsOk(s) && c < |s.clients| && s.clients[c].Waiting?
    requires Has(s, c, s.clients[c].chan, s.clients[c].worker) && QueuedAt(s, c, i)
    requires !s.workers[s.clients[c].worker].Stopped?
    ensures var t := Execute(cfg, s, capacity, moves);
            t.Some? && c < |t.value.clients| && t.value.clients[c].Received? && t.value.clients[c].op == s.clients[c].op
    ensures |moves| <= Ahead(s, c, i) + 1 && forall m :: m in moves ==> IsMoveOf(m, c, s.clients[c].worker)
    decreases Ahead(s, c, i)
  {
    assert ClientOk(s, c) && ChanOk(s, s.clients[c].chan);
    if s.places[s.clients[c].chan].Buffered? {
      moves := [Receive(c)];
      assert moves[..0] == [];
    } else {
      var j := NearerIsNearer(cfg, s, capacity, c, i);
      var rest := CanBeAnswered(cfg, Next(cfg, s, capacity, Nearer(s, c)), capacity, c, j);
      ExecuteMore(cfg, s, capacity, rest, Nearer(s, c));
      moves := [Nearer(s, c)] + rest;
    }
  }

  /** How many moves of a worker it takes to empty its queue. */
  function Backlog(s: System, w: nat): nat
    requires Shaped(s) && w < |s.shards|
  {
    2 * |s.queues[w]| + if s.workers[w].Replying? then 1 else 0
  }

  /** While a client cannot send, its worker has something to do, and doing it shortens the backlog. */
  lemma BacklogShrinks(cfg: Config, s: System, capacity: nat, c: nat, m: Move)
    requires ChannelsOk(s) && c < |s.clients| && s.clients[c].Sending? && s.clients[c].worker < |s.shards|
    requires var w := s.clients[c].worker;
             && !s.workers[w].Stopped? && !Enabled(s, capacity, Send(c))
             && m == if s.workers[w].Replying? then Answer(w) else Work(w, Clock(s.times[w], s.times[w]))
    ensures Enabled(s, capacity, m)
    ensures var t, w := Next(cfg, s, capacity, m), s.clients[c].worker;
            && ChannelsOk(t) && |t.clients| == |s.clients| && t.clients[c] == s.clients[c]
            && !t.workers[w].Stopped? && Backlog(t, w) < Backlog(s, w)
  {
    var w := s.clients[c].worker;
    assert WorkerOk(s, w) && QueueOk(s, w);
    if s.workers[w].Replying? {
      assert ChanOk(s, s.workers[w].chan);
    }
    MoveKeepsChannels(cfg, s, capacity, m);
  }

  /** Once a client can send, it can be answered behind what is queued before it. */
  lemma SentIsAnswered(cfg: Config, s: System, capacity: nat, c: nat) returns (moves: seq<Move>)
    requires ChannelsOk(s) && c < |s.clients| && s.clients[c].Sending? && s.clients[c].worker < |s.shards|
    requires !s.workers[s.clients[c].worker].Stopped? && Enabled(s, capacity, Send(c))
    ensures var t := Execute(cfg, s, capacity, moves);
            t.Some? && c < |t.value.clients| && t.value.clients[c].Received? && t.value.clients[c].op == s.clients[c].op
    ensures |moves| <= Backlog(s, s.clients[c].worker) + 4
    ensures forall m :: m in moves ==> IsMoveOf(m, c, s.clients[c].worker)
  {
    assert ClientOk(s, c) && ChanOk(s, s.clients[c].chan);
    MoveKeepsChannels(cfg, s, capacity, Send(c));
    var t := Next(cfg, s, capacity, Send(c));
    assert ClientOk(t, c);
    var rest := CanBeAnswered(cfg, t, capacity, c, |s.queues[s.clients[c].worker]|);
    ExecuteMore(cfg, s, capacity, rest, Send(c));
    moves := [Send(c)] + rest;
  }

  /** A client whose worker's queue is full, or that has to hand over its request, is answered too. */
  lemma {:induction false} CanBeSent(cfg: Config, s: System, capacity: nat, c: nat) returns (moves: seq<Move>)
    requires ChannelsOk(s) && c < |s.clients| && s.clients[c].Sending? && s.clients[c].worker < |s.shards|
    requires !s.workers[s.clients[c].worker].Stopped?
    ensures var t := Execute(cfg, s, capacity, moves);
            t.Some? && c < |t.value.clients| && t.value.clients[c].Received? && t.value.clients[c].op == s.clients[c].op
    ensures |moves| <= Backlog(s, s.clients[c].worker) + 4
    ensures forall m :: m in moves ==> IsMoveOf(m, c, s.clients[c].worker)
    decreases Backlog(s, s.clients[c].worker)
  {
    if Enabled(s, capacity, Send(c)) {
      moves := SentIsAnswered(cfg, s, capacity, c);
    } else {
      var w := s.clients[c].worker;
      var m := if s.workers[w].Replying? then Answer(w) else Work(w, Clock(s.times[w], s.times[w]));
      BacklogShrinks(cfg, s, capacity, c, m);
      var rest := CanBeSent(cfg, Next(cfg, s, capacity, m), capacity, c);
      ExecuteMore(cfg, s, capacity, rest, m);
      moves := [m] + rest;
    }
  }

  /**
    Nobody waits in vain: in every reachable state, a client that is sending or waiting gets its
    response if its worker, which has not been stopped, and the client itself go on; with any queue
    capacity, none included.
   */
  lemma NobodyWaitsInVain(cfg: Config, s: System, capacity: nat, moves: seq<Move>, c: nat) returns (more: seq<Move>)
    requires Initial(s) && Execute(cfg, s, capacity, moves).Some?
    requires var t := Execute(cfg, s, capacity, moves).value;
             && c < |t.clients| && (t.clients[c].Sending? || t.clients[c].Waiting?)
             && (t.clients[c].worker < |t.workers| ==> !t.workers[t.clients[c].worker].Stopped?)
    ensures var t := Execute(cfg, s, capacity, moves).value;
            var u := Execute(cfg, t, capacity, more);
            && u.Some? && c < |u.value.clients|
            && u.value.clients[c].Received? && u.value.clients[c].op == t.clients[c].op
            && forall m :: m in more ==> IsMoveOf(m, c, t.clients[c].worker)
  {
    ReachableChannels(cfg, s, capacity, moves);
    var t := Execute(cfg, s, capacity, moves).value;
    assert ClientOk(t, c) && ChanOk(t, t.clients[c].chan);
    if t.clients[c].Sending? {
      more := CanBeSent(cfg, t, capacity, c);
    } else {
      var i: nat := 0;
      if t.places[t.clients[c].chan].Queued? {
        i :| i < |t.queues[t.clients[c].worker]| && t.queues[t.clients[c].worker][i].chan == t.clients[c].chan;
      }
      more := CanBeAnswered(cfg, t, capacity, c, i);
    }
  }
}
