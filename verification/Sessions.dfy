/**
  One connection's dealings with the cache: the requests it sends one after the other, what other
  clients and sweeps do in between, and the answers it gets.

  The cache behind a connection is either the workers or one timed cache over all keys. The two give
  the same answers, whatever the connection asks; so whatever a server prints from these answers
  is what it would print over the timed cache.
 */
module Sessions {
  import opened Shard
  import opened Runs
  import opened TimedCache
  import opened Sharding
  import opened FlatCache

  // ---------- The cache behind a connection ----------

  /**
    What surrounds a request: the server's look at the clock, what others have the workers do before
    the request comes, and the worker's own two looks at the clock.
   */
  datatype Moment = Moment(now: nat, others: seq<Delivery>, clk: Clock)

  /** The surroundings of a connection: `schedule` has the moment of each request it sends. */
  datatype Env = Env(cfg: Config, schedule: nat -> Moment, pid: nat, started: nat)

  /**
    The workers, or a timed cache. Whether a dead entry is still there for a Delete to find is up to the
    timed cache: `held` says so for each request of the connection.
   */
  datatype Backend = Workers(shards: seq<State>) | Timed(flat: Flat, held: nat -> bool)

  function Width(b: Backend): nat {
    match b case Workers(shards) => |shards| case Timed(flat, _) => |flat.counters|
  }

  predicate SameKind(a: Backend, b: Backend) {
    Width(a) == Width(b) && (a.Workers? <==> b.Workers?)
  }

  /** The backend after some deliveries. */
  function Meet(cfg: Config, b: Backend, ds: seq<Delivery>): (after: Backend)
    ensures SameKind(b, after)
  {
    match b
    case Workers(shards) => Workers(RunAll(cfg, shards, ds))
    case Timed(flat, held) => Timed(FlatRun(cfg, flat, ds), held)
  }

  /** A Delete of an entry that the timed cache holds dead. */
  predicate DeletesDead(c: Flat, r: Request, clk: Clock) {
    r.op.Delete? && At(c.items, r.key).Some? && Expired(At(c.items, r.key).value, clk.check)
  }

  /** What the backend answers to request `i` of the connection. */
  function AnswerTo(env: Env, b: Backend, shard: nat, r: Request, clk: Clock, i: nat): Response
    requires shard < Width(b)
  {
    match b
    case Workers(shards) => Handle(env.cfg, shards[shard], r, clk).1
    case Timed(flat, held) =>
      if DeletesDead(flat, r, clk) && held(i) then Stored(0) else ApplyFlat(env.cfg, flat, shard, r, clk).1
  }

  /** The backend, all that was delivered to it, and the answers to the connection's own requests. */
  datatype Session = Session(backend: Backend, log: seq<Delivery>, answers: seq<Response>)

  /** The moment of the connection's next request. */
  function Next(env: Env, c: Session): Moment {
    env.schedule(|c.answers|)
  }

  /** What is delivered up to and with the next request. */
  function Arriving(env: Env, c: Session, shard: nat, r: Request): seq<Delivery> {
    Next(env, c).others + [Delivery(shard, Arrive(r, Next(env, c).clk))]
  }

  /** Sends a request to a worker. */
  function SendTo(env: Env, c: Session, shard: nat, r: Request): (t: (Session, Response))
    requires shard < Width(c.backend)
    ensures SameKind(c.backend, t.0.backend)
  {
    var m := Next(env, c);
    var answer := AnswerTo(env, Meet(env.cfg, c.backend, m.others), shard, r, m.clk, |c.answers|);
    var ds := Arriving(env, c, shard, r);
    (Session(Meet(env.cfg, c.backend, ds), c.log + ds, c.answers + [answer]), answer)
  }

  /** Sends a request to the worker of its key. */
  function Ask(env: Env, c: Session, r: Request): (t: (Session, Response))
    requires Width(c.backend) > 0
    ensures SameKind(c.backend, t.0.backend)
  {
    SendTo(env, c, Home(r.key, Width(c.backend)), r)
  }

  function FlushRequest(): Request {
    Request(FlushAll, [], [], 0, 0, 0)
  }

  function FlushOne(env: Env, c: Session, i: nat): (t: Session)
    requires i < Width(c.backend)
    ensures SameKind(c.backend, t.backend)
  {
    SendTo(env, c, i, FlushRequest()).0
  }

  /** Flushes the workers from number `i` on, one after the other. */
  function FlushFrom(env: Env, c: Session, i: nat): (t: Session)
    requires i <= Width(c.backend)
    ensures SameKind(c.backend, t.backend)
    decreases Width(c.backend) - i
  {
    if i == Width(c.backend) then c else FlushFrom(env, FlushOne(env, c, i), i + 1)
  }

  // ---------- What a connection sends ----------

  /** A request and the worker it is sent to. */
  datatype Sent = Sent(shard: nat, r: Request)

  /** What is delivered while a connection sends these requests, from its request number `n` on. */
  function Deliveries(env: Env, n: nat, sent: seq<Sent>): seq<Delivery> {
    if sent == [] then []
    else
      var last, m := |sent| - 1, env.schedule(n + |sent| - 1);
      Deliveries(env, n, sent[..last]) + (m.others + [Delivery(sent[last].shard, Arrive(sent[last].r, m.clk))])
  }

  /** The session went from one to the other by sending exactly these requests. */
  ghost predicate Went(env: Env, c: Session, sent: seq<Sent>, c': Session) {
    var ds := Deliveries(env, |c.answers|, sent);
    && c'.log == c.log + ds && c'.backend == Meet(env.cfg, c.backend, ds)
    && |c'.answers| == |c.answers| + |sent|
  }

  lemma WentNowhere(env: Env, c: Session)
    ensures Went(env, c, [], c)
  {
  }

  lemma WentOn(env: Env, c: Session, sent: seq<Sent>, before: Session, shard: nat, r: Request)
    requires Went(env, c, sent, before) && shard < Width(before.backend)
    ensures Went(env, c, sent + [Sent(shard, r)], SendTo(env, before, shard, r).0)
  {
    var ds := Arriving(env, before, shard, r);
    assert (sent + [Sent(shard, r)])[..|sent|] == sent;
    MeetConcat(env.cfg, c.backend, Deliveries(env, |c.answers|, sent), ds);
  }

  // ---------- Logs ----------

  lemma {:induction false} RunAllConcat(cfg: Config, shards: seq<State>, ds: seq<Delivery>, more: seq<Delivery>)
    ensures RunAll(cfg, shards, ds + more) == RunAll(cfg, RunAll(cfg, shards, ds), more)
  {
    if more == [] {
      assert ds + more == ds;
    } else {
      RunAllConcat(cfg, shards, ds, more[..|more| - 1]);
      assert (ds + more)[..|ds + more| - 1] == ds + more[..|more| - 1];
    }
  }

  lemma {:induction false} FlatRunConcat(cfg: Config, c: Flat, ds: seq<Delivery>, more: seq<Delivery>)
    ensures FlatRun(cfg, c, ds + more) == FlatRun(cfg, FlatRun(cfg, c, ds), more)
  {
    if more == [] {
      assert ds + more == ds;
    } else {
      FlatRunConcat(cfg, c, ds, more[..|more| - 1]);
      assert (ds + more)[..|ds + more| - 1] == ds + more[..|more| - 1];
    }
  }

  lemma MeetConcat(cfg: Config, b: Backend, ds: seq<Delivery>, more: seq<Delivery>)
    ensures Meet(cfg, b, ds + more) == Meet(cfg, Meet(cfg, b, ds), more)
  {
    match b
    case Workers(shards) => RunAllConcat(cfg, shards, ds, more);
    case Timed(flat, _) => FlatRunConcat(cfg, flat, ds, more);
  }

  /** Everything is delivered to the worker it is for, and no worker's clock goes back. */
  ghost predicate Steady(times: seq<nat>, log: seq<Delivery>) {
    AllRouted(log, |times|) && ClockedAll(times, log)
  }

  lemma {:induction false} SteadyPrefix(times: seq<nat>, log: seq<Delivery>, more: seq<Delivery>)
    requires Steady(times, log + more)
    ensures Steady(times, log)
  {
    if more == [] {
      assert log + more == log;
    } else {
      var all := log + more;
      assert all[..|all| - 1] == log + more[..|more| - 1];
      SteadyPrefix(times, log, more[..|more| - 1]);
    }
  }

  // ---------- Routing ----------

  /** The session went on from one to the other. */
  predicate Continues(w: Session, w': Session) {
    w.log <= w'.log && w.answers <= w'.answers
  }

  /** What others send reaches the worker it is for. */
  ghost predicate OthersRouted(env: Env, workers: nat) {
    forall i :: AllRouted(env.schedule(i).others, workers)
  }

  /** The session went on from one to the other, and sent its requests to the workers they are for. */
  ghost predicate Proceeds(env: Env, c: Session, c': Session) {
    && Continues(c, c') && SameKind(c.backend, c'.backend)
    && (OthersRouted(env, Width(c.backend)) && AllRouted(c.log, Width(c.backend)) ==>
          AllRouted(c'.log, Width(c.backend)))
  }

  lemma SendProceeds(env: Env, c: Session, shard: nat, r: Request)
    requires shard < Width(c.backend) && (r.op.FlushAll? || shard == Home(r.key, Width(c.backend)))
    ensures Proceeds(env, c, SendTo(env, c, shard, r).0)
  {
  }

  /** A request with a key reaches the worker that its hash names. */
  lemma AskProceeds(env: Env, c: Session, r: Request)
    requires Width(c.backend) > 0
    ensures Proceeds(env, c, Ask(env, c, r).0)
  {
    SendProceeds(env, c, Home(r.key, Width(c.backend)), r);
  }

  lemma {:induction false} FlushProceeds(env: Env, c: Session, i: nat)
    requires i <= Width(c.backend)
    ensures Proceeds(env, c, FlushFrom(env, c, i))
    decreases Width(c.backend) - i
  {
    if i < Width(c.backend) {
      SendProceeds(env, c, i, FlushRequest());
      FlushProceeds(env, FlushOne(env, c, i), i + 1);
    }
  }

  // ---------- Workers and timed cache side by side ----------

  /** Where a connection starts: workers and a timed cache that agree. */
  datatype Start = Start(shards: seq<State>, flat: Flat, times: seq<nat>, held: nat -> bool)

  ghost predicate Fair(env: Env, start: Start) {
    env.cfg.maxMemory <= 0 && start.shards != [] && FlatAgree(start.shards, start.flat, start.times)
  }

  /** Each cache is what its log made of its start. */
  ghost predicate Logged(env: Env, start: Start, w: Session, t: Session) {
    && w.log == t.log && |w.answers| == |t.answers|
    && w.backend == Meet(env.cfg, Workers(start.shards), w.log)
    && t.backend == Meet(env.cfg, Timed(start.flat, start.held), t.log)
  }

  /** For each Delete that finds a dead entry, `held` is what the worker said. */
  predicate HeldAsAnswered(held: nat -> bool, answers: seq<Response>) {
    forall i :: 0 <= i < |answers| ==> held(i) == (answers[i].err == NoError)
  }

  /** The two caches are side by side and have given the same answers. */
  ghost predicate Alike(env: Env, start: Start, w: Session, t: Session) {
    Logged(env, start, w, t) && w.answers == t.answers
  }

  /** The log is steady, and `held` is what the workers said. */
  ghost predicate Kept(start: Start, w: Session) {
    Steady(start.times, w.log) && HeldAsAnswered(start.held, w.answers)
  }

  lemma KeptBefore(start: Start, w: Session, w': Session)
    requires Continues(w, w') && Kept(start, w')
    ensures Kept(start, w)
  {
    assert w'.log == w.log + w'.log[|w.log|..];
    SteadyPrefix(start.times, w.log, w'.log[|w.log|..]);
  }

  /** What the workers answer the timed cache answers as well, with `held` as the worker said. */
  lemma SameAnswer(env: Env, shards: seq<State>, flat: Flat, held: nat -> bool, shard: nat, r: Request, clk: Clock,
                   i: nat)
    requires shard < |shards| == |flat.counters| && !r.op.Stats?
    requires FlatPermits(env.cfg, flat, shard, r, clk, Handle(env.cfg, shards[shard], r, clk).1)
    requires held(i) == (Handle(env.cfg, shards[shard], r, clk).1.err == NoError)
    ensures AnswerTo(env, Workers(shards), shard, r, clk, i) == AnswerTo(env, Timed(flat, held), shard, r, clk, i)
  {
    if DeletesDead(flat, r, clk) {
      assert ApplyFlat(env.cfg, flat, shard, r, clk).1 == Fail(KeyNotFound);
    }
  }

  /** A request leaves both caches with the log that belongs to them. */
  lemma SendLogged(env: Env, start: Start, w: Session, t: Session, shard: nat, r: Request)
    requires Logged(env, start, w, t) && shard < |start.shards| == |start.flat.counters|
    ensures Logged(env, start, SendTo(env, w, shard, r).0, SendTo(env, t, shard, r).0)
  {
    var ds := Arriving(env, w, shard, r);
    MeetConcat(env.cfg, Workers(start.shards), w.log, ds);
    MeetConcat(env.cfg, Timed(start.flat, start.held), t.log, ds);
  }

  /** The timed cache permits what the workers answer to the request that comes after a log. */
  lemma LastPermitted(env: Env, start: Start, log: seq<Delivery>, shard: nat, r: Request, clk: Clock)
    requires Fair(env, start) && Steady(start.times, log + [Delivery(shard, Arrive(r, clk))])
    ensures shard < |start.shards| == |start.flat.counters|
    ensures FlatPermits(env.cfg, FlatRun(env.cfg, start.flat, log), shard, r, clk,
                        Handle(env.cfg, RunAll(env.cfg, start.shards, log)[shard], r, clk).1)
  {
    var all := log + [Delivery(shard, Arrive(r, clk))];
    ShardsAreOneCache(env.cfg, start.shards, start.flat, start.times, all);
    assert all[..|log|] == log && Routed(all[|log|], |start.times|);
    assert AnsweredAsFlat(env.cfg, start.shards, start.flat, all, |log|);
  }

  /** A request other than Stats is answered alike. */
  lemma SendAlike(env: Env, start: Start, w: Session, t: Session, shard: nat, r: Request)
    requires Fair(env, start) && Alike(env, start, w, t) && shard < |start.shards| && !r.op.Stats?
    requires Kept(start, SendTo(env, w, shard, r).0)
    ensures SendTo(env, w, shard, r).1 == SendTo(env, t, shard, r).1
    ensures Alike(env, start, SendTo(env, w, shard, r).0, SendTo(env, t, shard, r).0)
  {
    var m := Next(env, w);
    SendLogged(env, start, w, t, shard, r);
    assert w.log + Arriving(env, w, shard, r) == (w.log + m.others) + [Delivery(shard, Arrive(r, m.clk))];
    LastPermitted(env, start, w.log + m.others, shard, r, m.clk);
    MeetConcat(env.cfg, Workers(start.shards), w.log, m.others);
    MeetConcat(env.cfg, Timed(start.flat, start.held), t.log, m.others);
    var w' := SendTo(env, w, shard, r).0;
    assert w'.answers[|w.answers|] == SendTo(env, w, shard, r).1;
    SameAnswer(env, RunAll(env.cfg, start.shards, w.log + m.others), FlatRun(env.cfg, start.flat, t.log + m.others),
               start.held, shard, r, m.clk, |w.answers|);
  }

  lemma AskAlike(env: Env, start: Start, w: Session, t: Session, r: Request)
    requires Fair(env, start) && Alike(env, start, w, t) && !r.op.Stats?
    requires Kept(start, Ask(env, w, r).0)
    ensures Ask(env, w, r).1 == Ask(env, t, r).1
    ensures Alike(env, start, Ask(env, w, r).0, Ask(env, t, r).0)
  {
    SendAlike(env, start, w, t, Home(r.key, Width(w.backend)), r);
  }

  lemma FlushOneAlike(env: Env, start: Start, w: Session, t: Session, i: nat)
    requires Fair(env, start) && Alike(env, start, w, t) && i < |start.shards|
    requires Kept(start, FlushOne(env, w, i))
    ensures Alike(env, start, FlushOne(env, w, i), FlushOne(env, t, i))
  {
    SendAlike(env, start, w, t, i, FlushRequest());
  }

  lemma {:induction false} FlushAlike(env: Env, start: Start, w: Session, t: Session, i: nat)
    requires Fair(env, start) && Alike(env, start, w, t) && i <= |start.shards|
    requires Kept(start, FlushFrom(env, w, i))
    ensures Alike(env, start, FlushFrom(env, w, i), FlushFrom(env, t, i))
    decreases |start.shards| - i
  {
    if i < |start.shards| {
      var w', t' := FlushOne(env, w, i), FlushOne(env, t, i);
      FlushProceeds(env, w', i + 1);
      KeptBefore(start, w', FlushFrom(env, w', i + 1));
      FlushOneAlike(env, start, w, t, i);
      FlushAlike(env, start, w', t', i + 1);
    }
  }

  /** A connection before its first request. */
  function Begin(b: Backend): Session {
    Session(b, [], [])
  }

  lemma BeginAlike(env: Env, start: Start)
    ensures Alike(env, start, Begin(Workers(start.shards)), Begin(Timed(start.flat, start.held)))
  {
  }
}
