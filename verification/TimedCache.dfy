/**
  The sequential timed cache that a shard without a memory limit implements.

  It has no recency order, no accounting, no eviction and no sweep: an entry past its hard expiry reads
  as absent, and lies there until something is stored over it or it is deleted or flushed. When the
  timer sweep runs is therefore unobservable, with one exception: a Delete of such a dead entry
  reports success if the sweep has not come yet.
 */
module TimedCache {
  import opened Basics
  import opened Shard
  import opened ShardFacts
  import opened Runs
  import opened Freshness
  import Decimal

  // ---------- The cache ----------

  /** What a request leaves under its key, the token counter after it, and its answer. */
  datatype Outcome = Outcome(held: Option<Entry>, counter: uint64, response: Response)

  /** How long after its store an entry with this TTL is kept: the TTL, stretched if a multiplier is set. */
  function Window(cfg: Config, ttl: nat): nat {
    if cfg.staleMultiplier > 0.0 then (ttl as real * cfg.staleMultiplier).Floor else ttl
  }

  /** The milliseconds in which an entry written `at` with this TTL gets stale and dies; zero means never. */
  function Deadlines(cfg: Config, ttl: int, at: nat): (deadlines: (nat, nat)) {
    var term := if ttl == 0 then cfg.defaultTtl else ttl;
    if term <= 0 then (0, 0) else ((at + term) / 1_000_000, (at + Window(cfg, term)) / 1_000_000)
  }

  function Token(counter: uint64): uint64 {
    (counter + 1) % TWO_TO_THE_64
  }

  function Written(e: Entry, value: Bytes): Outcome {
    Outcome(Some(e), e.cas, Response(value, e.cas, 0, NoError, None))
  }

  function Refused(live: Option<Entry>, counter: uint64, err: Error): Outcome {
    Outcome(live, counter, Response([], 0, 0, err, None))
  }

  function Removed(counter: uint64): Outcome {
    Outcome(None, counter, Response([], 0, 0, NoError, None))
  }

  /** The first Get of a stale entry is asked to refresh it. */
  function Got(e: Entry, counter: uint64, now: nat): Outcome {
    var stale := 0 < e.soft <= now / 1_000_000;
    var flags := if !stale then 0 else if e.refreshing then 1 else 3;
    Outcome(Some(e.(refreshing := e.refreshing || stale)), counter, Response(e.value, e.cas, flags, NoError, None))
  }

  function Store(cfg: Config, counter: uint64, r: Request, now: nat): Outcome {
    var (soft, hard) := Deadlines(cfg, r.ttl, now);
    Written(Entry(r.key, r.value, soft, hard, Token(counter), false), [])
  }

  /** A touch sets the deadlines anew, and leaves the value and the refresh mark. */
  function Renewed(cfg: Config, e: Entry, ttl: int, now: nat, cas: uint64): Entry {
    var (soft, hard) := Deadlines(cfg, ttl, now);
    Entry(e.key, e.value, soft, hard, cas, e.refreshing)
  }

  /** The number after a count: an increment wraps at 2^64, a decrement stops at zero. */
  function Sum(n: uint64, delta: uint64, incr: bool): uint64 {
    if incr then (n + delta) % TWO_TO_THE_64 else if n <= delta then 0 else n - delta
  }

  function Count(e: Entry, counter: uint64, r: Request): Outcome {
    var n := Decimal.ParseUint(e.value, TWO_TO_THE_64);
    if n.None? then Refused(Some(e), counter, NotNumeric)
    else
      var text := Decimal.Format(Sum(n.value, r.delta, r.op.Incr?));
      Written(e.(value := text, cas := Token(counter)), text)
  }

  /** What a request does to the unexpired entry under its key, or to its absence. */
  function Serve(cfg: Config, live: Option<Entry>, counter: uint64, r: Request, clk: Clock): Outcome {
    match (r.op, live)
    case (Get, Some(e)) => Got(e, counter, clk.check)
    case (Set, _) => Store(cfg, counter, r, clk.store)
    case (Add, None) => Store(cfg, counter, r, clk.store)
    case (Add, Some(_)) => Refused(live, counter, KeyExists)
    case (Replace, Some(_)) => Store(cfg, counter, r, clk.store)
    case (Cas, Some(e)) =>
      if e.cas == r.cas then Store(cfg, counter, r, clk.store) else Refused(live, counter, CasMismatch)
    case (Delete, Some(_)) => Removed(counter)
    case (Touch, Some(e)) => Written(Renewed(cfg, e, r.ttl, clk.store, Token(counter)), [])
    case (Incr, Some(e)) => Count(e, counter, r)
    case (Decr, Some(e)) => Count(e, counter, r)
    case (Append, Some(e)) => Written(e.(value := e.value + r.value, cas := Token(counter)), [])
    case (Prepend, Some(e)) => Written(e.(value := r.value + e.value, cas := Token(counter)), [])
    case (FlushAll, _) => Removed(counter)
    case (_, _) => Refused(live, counter, KeyNotFound)
  }

  datatype Cache = Cache(items: map<Key, Entry>, counter: uint64)

  /** An entry that has not expired. */
  function Alive(held: Option<Entry>, now: nat): Option<Entry> {
    if held.Some? && Expired(held.value, now) then None else held
  }

  function At(items: map<Key, Entry>, k: Key): Option<Entry> {
    if k in items then Some(items[k]) else None
  }

  /** What a request leaves in the map: a dead entry stays unless something is stored over it or it is deleted. */
  function Update(items: map<Key, Entry>, r: Request, held: Option<Entry>): map<Key, Entry> {
    if held.Some? then items[r.key := held.value]
    else if r.op.Delete? then items - {r.key}
    else items
  }

  function Apply(cfg: Config, c: Cache, r: Request, clk: Clock): (Cache, Response) {
    var o := Serve(cfg, Alive(At(c.items, r.key), clk.check), c.counter, r, clk);
    (Cache(if r.op.FlushAll? then map[] else Update(c.items, r, o.held), o.counter), o.response)
  }

  /**
    The answers the cache allows to a request that finds `held`: its own answer, success for a Delete
    of an entry that is past its hard expiry, and anything for the internal Stats.
   */
  predicate Permits(held: Option<Entry>, r: Request, clk: Clock, ideal: Response, actual: Response) {
    || r.op.Stats? || actual == ideal
    || (r.op.Delete? && held.Some? && Expired(held.value, clk.check) && actual == Stored(0))
  }

  predicate Permitted(cfg: Config, c: Cache, r: Request, clk: Clock, actual: Response) {
    Permits(At(c.items, r.key), r, clk, Apply(cfg, c, r, clk).1, actual)
  }

  // ---------- One step of a shard against one step of the cache ----------

  /** The shard's unexpired entries and its counter are those of the cache. */
  ghost predicate Agree(s: State, c: Cache, now: nat) {
    && UniqueKeys(s.lru) && s.casCounter == c.counter
    && forall k :: Lookup(s, k, now) == Alive(At(c.items, k), now)
  }

  /** Whatever the shard still holds, expired or not, the cache holds as well. */
  ghost predicate Covers(c: Cache, s: State) {
    forall k :: Find(s.lru, k).Some? ==> At(c.items, k) == Find(s.lru, k)
  }

  lemma LaterAlive(held: Option<Entry>, t: nat, u: nat)
    requires t <= u
    ensures Alive(Alive(held, t), u) == Alive(held, u)
  {
  }

  /** Agreement lasts while time passes. */
  lemma AgreeLater(s: State, c: Cache, t: nat, u: nat)
    requires Agree(s, c, t) && t <= u
    ensures Agree(s, c, u)
  {
    forall k
      ensures Lookup(s, k, u) == Alive(At(c.items, k), u)
    {
      assert Lookup(s, k, t) == Alive(At(c.items, k), t);
      LaterAlive(Find(s.lru, k), t, u);
      LaterAlive(At(c.items, k), t, u);
    }
  }

  /** Whether a request finds an entry that is past its hard expiry but still in the index. */
  predicate FindsExpired(s: State, r: Request, clk: Clock) {
    Find(s.lru, r.key).Some? && Expired(Find(s.lru, r.key).value, clk.check)
  }

  lemma WindowIs(cfg: Config, term: nat)
    ensures Window(cfg, term) == if cfg.staleMultiplier > 0.0 then Stretched(term, cfg.staleMultiplier) else term
  {
  }

  lemma DeadlinesAre(cfg: Config, ttl: int, at: nat)
    ensures Deadlines(cfg, ttl, at) == (SoftExpiry(cfg, ttl, at), HardExpiry(cfg, ttl, at))
  {
    var term := EffectiveTtl(cfg, ttl);
    if term > 0 {
      WindowIs(cfg, term);
      assert Deadlines(cfg, ttl, at) == ((at + term) / 1_000_000, (at + Window(cfg, term)) / 1_000_000);
    }
  }

  /** A set leaves the new entry under its key, whatever it evicted. */
  lemma StoreServed(cfg: Config, s: State, r: Request, now: nat)
    requires UniqueKeys(s.lru)
    ensures var (t, answer) := DoSet(cfg, s, r.key, r.value, r.ttl, now);
            var o := Store(cfg, s.casCounter, r, now);
            Find(t.lru, r.key) == o.held && t.casCounter == o.counter && answer == o.response
  {
    DeadlinesAre(cfg, r.ttl, now);
    SetFind(cfg, s, r.key, r.value, r.ttl, now, r.key);
  }

  /** A touch leaves the renewed entry under its key. */
  lemma TouchServed(cfg: Config, s: State, r: Request, clk: Clock)
    requires UniqueKeys(s.lru)
    ensures var live := Lookup(s, r.key, clk.check);
            var (t, answer) := HandleTouch(cfg, s, r.key, r.ttl, clk);
            if live.None? then t == s && answer.err == KeyNotFound
            else
              var o := Written(Renewed(cfg, live.value, r.ttl, clk.store, Token(s.casCounter)), []);
              Find(t.lru, r.key) == o.held && t.casCounter == o.counter && answer == o.response
  {
    var live := Lookup(s, r.key, clk.check);
    if live.Some? {
      DeadlinesAre(cfg, r.ttl, clk.store);
      FindPresent(s.lru, r.key);
      FindAfterPut(s.lru, Touched(cfg, live.value, r.ttl, clk.store, NextCas(s.casCounter)), r.key);
    }
  }

  /** A count leaves the entry with the new number under its key, or as it was. */
  lemma CountServed(cfg: Config, s: State, r: Request, now: nat)
    requires UniqueKeys(s.lru)
    ensures var live := Lookup(s, r.key, now);
            var (t, answer) := DoIncrDecr(s, r.key, r.delta, r.op.Incr?, now);
            if live.None? then t == s && answer.err == KeyNotFound
            else
              var o := Count(live.value, s.casCounter, r);
              Find(t.lru, r.key) == (if answer.err == NoError then o.held else Find(s.lru, r.key))
              && t.casCounter == o.counter && answer == o.response
  {
    var live := Lookup(s, r.key, now);
    if live.Some? {
      FindPresent(s.lru, r.key);
      var n := Decimal.ParseUint(live.value.value, TWO_TO_THE_64);
      if n.Some? {
        var text := Decimal.Format(Sum(n.value, r.delta, r.op.Incr?));
        FindAfterPut(s.lru, live.value.(value := text, cas := NextCas(s.casCounter)), r.key);
      }
    }
  }

  /** An append or prepend leaves the joined value under its key, also if it has evicted the entry meanwhile. */
  lemma ExtensionServed(cfg: Config, s: State, r: Request, now: nat)
    requires UniqueKeys(s.lru) && (r.op.Append? || r.op.Prepend?)
    ensures var live := Lookup(s, r.key, now);
            var (t, answer) := DoAppendPrepend(cfg, s, r.key, r.value, r.op.Prepend?, now);
            if live.None? then t == s && answer.err == KeyNotFound
            else
              var value := if r.op.Append? then live.value.value + r.value else r.value + live.value.value;
              && Find(t.lru, r.key) == Some(live.value.(value := value, cas := Token(s.casCounter)))
              && t.casCounter == Token(s.casCounter) && answer.err == NoError && answer.cas == Token(s.casCounter)
  {
    var live, needed := Lookup(s, r.key, now), |r.value|;
    if live.Some? {
      FindPresent(s.lru, r.key);
      WriteFind(cfg, s, needed, Joined(live.value, r.value, r.op.Prepend?, NextCas(s.casCounter)), r.key);
    }
  }

  /**
    At its own key a shard serves a request as the cache does, with or without a memory limit; its
    answer differs exactly if it is a Delete that finds an expired entry.
   */
  lemma OwnKeyServed(cfg: Config, s: State, r: Request, clk: Clock)
    requires UniqueKeys(s.lru)
    ensures var (t, answer) := Handle(cfg, s, r, clk);
            var o := Serve(cfg, Lookup(s, r.key, clk.check), s.casCounter, r, clk);
            var found := Find(t.lru, r.key);
            && t.casCounter == o.counter
            && (if o.held.Some? then found == o.held
                else found == None || (found == Find(s.lru, r.key) && FindsExpired(s, r, clk) && !r.op.Delete?))
            && (r.op.Delete? && FindsExpired(s, r, clk) ==> answer == Shard.Stored(0))
            && (!r.op.Stats? ==> (answer != o.response <==> r.op.Delete? && FindsExpired(s, r, clk)))
  {
    FindPresent(s.lru, r.key);
    match r.op
    case Get | Delete =>
      FindAfterWithout(s.lru, r.key, r.key);
      PutSteps(s.lru, r.key);
    case Set | Add | Replace | Cas => StoreServed(cfg, s, r, clk.store);
    case Touch => TouchServed(cfg, s, r, clk);
    case Incr | Decr => CountServed(cfg, s, r, clk.check);
    case Append | Prepend => ExtensionServed(cfg, s, r, clk.check);
    case FlushAll | Stats | Other =>
  }

  /** Without a limit a request leaves every other key alone, unless it flushes. */
  lemma OtherKeyKept(cfg: Config, s: State, r: Request, clk: Clock, k: Key)
    requires cfg.maxMemory <= 0 && UniqueKeys(s.lru) && k != r.key && !r.op.FlushAll?
    ensures Find(Handle(cfg, s, r, clk).0.lru, k) == Find(s.lru, k)
  {
    FindPresent(s.lru, r.key);
    FindAfterWithout(s.lru, r.key, k);
    PutSteps(s.lru, k);
  }

  lemma StepAgrees(cfg: Config, s: State, c: Cache, r: Request, clk: Clock)
    requires cfg.maxMemory <= 0 && Agree(s, c, clk.check) && clk.check <= clk.store
    ensures Agree(Handle(cfg, s, r, clk).0, Apply(cfg, c, r, clk).0, clk.store)
    ensures !r.op.Stats? ==>
              (Handle(cfg, s, r, clk).1 != Apply(cfg, c, r, clk).1 <==> r.op.Delete? && FindsExpired(s, r, clk))
    ensures Covers(c, s) ==>
              && Covers(Apply(cfg, c, r, clk).0, Handle(cfg, s, r, clk).0)
              && Permitted(cfg, c, r, clk, Handle(cfg, s, r, clk).1)
  {
    var t, c' := Handle(cfg, s, r, clk).0, Apply(cfg, c, r, clk).0;
    assert Lookup(s, r.key, clk.check) == Alive(At(c.items, r.key), clk.check);
    OwnKeyServed(cfg, s, r, clk);
    OtherKeys(cfg, s, Arrive(r, clk), r.key);
    AgreeLater(s, c, clk.check, clk.store);
    forall k
      ensures Lookup(t, k, clk.store) == Alive(At(c'.items, k), clk.store)
      ensures Covers(c, s) && Find(t.lru, k).Some? ==> At(c'.items, k) == Find(t.lru, k)
    {
      assert Lookup(s, k, clk.store) == Alive(At(c.items, k), clk.store);
      if k != r.key && !r.op.FlushAll? {
        OtherKeyKept(cfg, s, r, clk, k);
      }
    }
  }

  /** A sweep changes nothing the cache can see. */
  lemma SweepAgrees(s: State, c: Cache, now: nat)
    requires Agree(s, c, now)
    ensures Agree(Sweep(s, now), c, now) && (Covers(c, s) ==> Covers(c, Sweep(s, now)))
  {
    UnexpiredIn(s.lru, now);
    forall k
      ensures Lookup(Sweep(s, now), k, now) == Alive(At(c.items, k), now)
      ensures Covers(c, s) && Find(Sweep(s, now).lru, k).Some? ==> At(c.items, k) == Find(Sweep(s, now).lru, k)
    {
      FindUnexpired(s.lru, now, k);
      assert Lookup(s, k, now) == Alive(At(c.items, k), now);
    }
  }

  // ---------- Runs ----------

  /** The requests of a run, without its sweeps. */
  function Arrivals(evs: seq<Event>): (arrivals: seq<Event>)
    ensures forall i :: 0 <= i < |arrivals| ==> arrivals[i].Arrive?
  {
    if evs == [] then []
    else Arrivals(evs[..|evs| - 1]) + if evs[|evs| - 1].Arrive? then [evs[|evs| - 1]] else []
  }

  /** What a shard answers to the requests of a run, in order. */
  function Answers(cfg: Config, s: State, evs: seq<Event>): seq<Response> {
    if evs == [] then []
    else
      var prefix, ev := evs[..|evs| - 1], evs[|evs| - 1];
      Answers(cfg, s, prefix) +
      if ev.Arrive? then [Handle(cfg, Run(cfg, s, prefix), ev.req, ev.clk).1] else []
  }

  /** The cache after serving the requests of a run; it has no sweeps. */
  function Cached(cfg: Config, c: Cache, evs: seq<Event>): Cache {
    if evs == [] then c
    else
      var before, ev := Cached(cfg, c, evs[..|evs| - 1]), evs[|evs| - 1];
      if ev.Arrive? then Apply(cfg, before, ev.req, ev.clk).0 else before
  }

  /** The cache before each request of a run. */
  function Befores(cfg: Config, c: Cache, evs: seq<Event>): seq<Cache> {
    if evs == [] then []
    else
      var prefix := evs[..|evs| - 1];
      Befores(cfg, c, prefix) + if evs[|evs| - 1].Arrive? then [Cached(cfg, c, prefix)] else []
  }

  lemma {:induction false} SweepsDoNotMatter(cfg: Config, c: Cache, evs: seq<Event>)
    ensures Cached(cfg, c, evs) == Cached(cfg, c, Arrivals(evs))
    ensures Befores(cfg, c, evs) == Befores(cfg, c, Arrivals(evs))
  {
    if evs != [] {
      var prefix, ev := evs[..|evs| - 1], evs[|evs| - 1];
      SweepsDoNotMatter(cfg, c, prefix);
      if ev.Arrive? {
        assert Arrivals(evs)[..|Arrivals(evs)| - 1] == Arrivals(prefix);
      } else {
        assert Arrivals(evs) == Arrivals(prefix) && Befores(cfg, c, evs) == Befores(cfg, c, prefix);
      }
    }
  }

  /** Each answer is one that the cache before it permits. */
  ghost predicate AllPermitted(cfg: Config, befores: seq<Cache>, arrivals: seq<Event>, actual: seq<Response>) {
    && |befores| == |arrivals| == |actual|
    && forall i :: 0 <= i < |arrivals| ==>
         arrivals[i].Arrive? && Permitted(cfg, befores[i], arrivals[i].req, arrivals[i].clk, actual[i])
  }

  /** Each answer, but to Delete and Stats, is the cache's own. */
  ghost predicate AllSame(cfg: Config, befores: seq<Cache>, arrivals: seq<Event>, actual: seq<Response>) {
    && |befores| == |arrivals| == |actual|
    && forall i :: 0 <= i < |arrivals| ==>
         && arrivals[i].Arrive?
         && (!arrivals[i].req.op.Delete? && !arrivals[i].req.op.Stats? ==>
               actual[i] == Apply(cfg, befores[i], arrivals[i].req, arrivals[i].clk).1)
  }

  lemma {:induction false} RunAgrees(cfg: Config, s: State, c: Cache, evs: seq<Event>, t: nat)
    requires cfg.maxMemory <= 0 && Agree(s, c, t) && Clocked(t, evs)
    ensures Agree(Run(cfg, s, evs), Cached(cfg, c, evs), Now(t, evs))
    ensures AllSame(cfg, Befores(cfg, c, evs), Arrivals(evs), Answers(cfg, s, evs))
    ensures Covers(c, s) ==>
              && Covers(Cached(cfg, c, evs), Run(cfg, s, evs))
              && AllPermitted(cfg, Befores(cfg, c, evs), Arrivals(evs), Answers(cfg, s, evs))
  {
    if evs != [] {
      var prefix, ev := evs[..|evs| - 1], evs[|evs| - 1];
      var before, cached := Run(cfg, s, prefix), Cached(cfg, c, prefix);
      RunAgrees(cfg, s, c, prefix, t);
      AgreeLater(before, cached, Now(t, prefix), Start(ev));
      match ev
      case Arrive(r, clk) => StepAgrees(cfg, before, cached, r, clk);
      case Tick(now) => SweepAgrees(before, cached, now);
    }
  }

  /**
    Whatever sweeps are interleaved with its requests, a shard without a memory limit answers them as
    the timed cache does, and ends with the cache's unexpired entries and its counter. Only a Delete
    of an entry that the cache holds dead may report success instead.
   */
  lemma ShardIsTimedCache(cfg: Config, s: State, c: Cache, evs: seq<Event>, t: nat)
    requires cfg.maxMemory <= 0 && Agree(s, c, t) && Covers(c, s) && Clocked(t, evs)
    ensures Agree(Run(cfg, s, evs), Cached(cfg, c, evs), Now(t, evs)) && Covers(Cached(cfg, c, evs), Run(cfg, s, evs))
    ensures AllPermitted(cfg, Befores(cfg, c, evs), Arrivals(evs), Answers(cfg, s, evs))
  {
    RunAgrees(cfg, s, c, evs, t);
  }

  predicate Removes(ev: Event, k: Key) {
    ev.Arrive? && (ev.req.op.FlushAll? || (ev.req.op.Delete? && ev.req.key == k))
  }

  /** Some event of the run stores the key, and none after it deletes the key or flushes. */
  ghost predicate StoredSince(cfg: Config, s: State, evs: seq<Event>, k: Key) {
    && evs != []
    && var prefix, ev := evs[..|evs| - 1], evs[|evs| - 1];
       Stores(cfg, Run(cfg, s, prefix), ev, k) || (!Removes(ev, k) && StoredSince(cfg, s, prefix, k))
  }

  lemma RemovedIsAbsent(cfg: Config, s: State, ev: Event, k: Key)
    requires Removes(ev, k)
    ensures Find(Step(cfg, s, ev).lru, k).None?
  {
    FindAfterWithout(s.lru, k, k);
  }

  lemma {:induction false} HeldWasStored(cfg: Config, s: State, evs: seq<Event>, k: Key)
    requires UniqueKeys(s.lru) && Find(s.lru, k).None?
    ensures UniqueKeys(Run(cfg, s, evs).lru)
    ensures Find(Run(cfg, s, evs).lru, k).Some? ==> StoredSince(cfg, s, evs, k)
  {
    if evs != [] {
      var prefix, ev := evs[..|evs| - 1], evs[|evs| - 1];
      var before := Run(cfg, s, prefix);
      HeldWasStored(cfg, s, prefix, k);
      OtherKeys(cfg, before, ev, k);
      if Removes(ev, k) {
        RemovedIsAbsent(cfg, before, ev, k);
      } else if !Stores(cfg, before, ev, k) {
        StepKeepsLife(cfg, before, ev, k);
      }
    }
  }

  /**
    With or without a limit, a Delete of a key that was absent at the start of a run succeeds only if the
    key has been stored since, and neither deleted nor flushed after that.
   */
  lemma DeleteNeedsStore(cfg: Config, s: State, evs: seq<Event>, r: Request, clk: Clock)
    requires UniqueKeys(s.lru) && Find(s.lru, r.key).None? && r.op.Delete?
    requires Handle(cfg, Run(cfg, s, evs), r, clk).1.err == NoError
    ensures StoredSince(cfg, s, evs, r.key)
  {
    HeldWasStored(cfg, s, evs, r.key);
  }

  /** The two shards hold the same unexpired entries and count alike. */
  ghost predicate LiveAlike(s: State, s': State, now: nat) {
    s.casCounter == s'.casCounter && forall k :: Lookup(s, k, now) == Lookup(s', k, now)
  }

  /** The entries of a shard as a map. */
  function Items(s: seq<Entry>): map<Key, Entry> {
    if s == [] then map[] else Items(s[1..])[s[0].key := s[0]]
  }

  lemma {:induction false} ItemsAt(s: seq<Entry>, k: Key)
    ensures At(Items(s), k) == Find(s, k)
  {
    if s != [] {
      ItemsAt(s[1..], k);
    }
  }

  lemma AgreesWithItself(s: State, now: nat)
    requires UniqueKeys(s.lru)
    ensures Agree(s, Cache(Items(s.lru), s.casCounter), now) && Covers(Cache(Items(s.lru), s.casCounter), s)
  {
    forall k
      ensures Find(s.lru, k) == At(Items(s.lru), k)
    {
      ItemsAt(s.lru, k);
    }
  }

  /**
    The sweep is unobservable: two runs of the same timed requests, from states that hold the same
    unexpired entries, differ in their sweeps only. They end with the same unexpired entries and the
    same counter, and give the same answers to every request but Delete and Stats.
   */
  lemma SweepIsUnobservable(cfg: Config, s: State, s': State, evs: seq<Event>, evs': seq<Event>, t: nat, end: nat)
    requires cfg.maxMemory <= 0 && UniqueKeys(s.lru) && UniqueKeys(s'.lru) && LiveAlike(s, s', t)
    requires Clocked(t, evs) && Clocked(t, evs') && Arrivals(evs) == Arrivals(evs')
    requires Now(t, evs) <= end && Now(t, evs') <= end
    ensures LiveAlike(Run(cfg, s, evs), Run(cfg, s', evs'), end)
    ensures |Answers(cfg, s, evs)| == |Answers(cfg, s', evs')| == |Arrivals(evs)|
    ensures forall i :: 0 <= i < |Arrivals(evs)| ==>
              var r := Arrivals(evs)[i].req;
              !r.op.Delete? && !r.op.Stats? ==> Answers(cfg, s, evs)[i] == Answers(cfg, s', evs')[i]
  {
    var c := Cache(Items(s.lru), s.casCounter);
    AgreesWithItself(s, t);
    forall k
      ensures Lookup(s', k, t) == Alive(At(c.items, k), t)
    {
      assert Lookup(s, k, t) == Alive(At(c.items, k), t);
    }
    RunAgrees(cfg, s, c, evs, t);
    RunAgrees(cfg, s', c, evs', t);
    SweepsDoNotMatter(cfg, c, evs);
    SweepsDoNotMatter(cfg, c, evs');
    AgreeLater(Run(cfg, s, evs), Cached(cfg, c, evs), Now(t, evs), end);
    AgreeLater(Run(cfg, s', evs'), Cached(cfg, c, evs'), Now(t, evs'), end);
  }

  /** Two shards alike answer a Delete differently exactly when one of them only still holds the expired key. */
  lemma DeleteDiffersWhen(cfg: Config, s: State, s': State, r: Request, clk: Clock)
    requires cfg.maxMemory <= 0 && UniqueKeys(s.lru) && UniqueKeys(s'.lru) && LiveAlike(s, s', clk.check)
    requires r.op.Delete? && clk.check <= clk.store
    ensures Handle(cfg, s, r, clk).1 != Handle(cfg, s', r, clk).1 <==>
            FindsExpired(s, r, clk) != FindsExpired(s', r, clk)
  {
    OwnKeyServed(cfg, s, r, clk);
    OwnKeyServed(cfg, s', r, clk);
    assert Lookup(s, r.key, clk.check) == Lookup(s', r.key, clk.check);
  }

  // ---------- How long an entry is found ----------

  /** The run neither deletes the key nor flushes. */
  ghost predicate NotRemoved(evs: seq<Event>, k: Key) {
    forall i :: 0 <= i < |evs| && evs[i].Arrive? ==>
      !evs[i].req.op.FlushAll? && (evs[i].req.op.Delete? ==> evs[i].req.key != k)
  }

  /** A step that neither stores, touches nor removes a key drops its entry only if it has expired. */
  lemma StepDropsExpiredOnly(cfg: Config, s: State, ev: Event, k: Key)
    requires cfg.maxMemory <= 0 && UniqueKeys(s.lru) && NotRemoved([ev], k) && Start(ev) <= End(ev)
    requires !Stores(cfg, s, ev, k) && !Touches(cfg, s, ev, k)
    ensures var before, after := Find(s.lru, k), Find(Step(cfg, s, ev).lru, k);
            before.Some? && !Expired(before.value, Start(ev)) ==> after.Some? && after.value.hard == before.value.hard
  {
    match ev
    case Tick(now) => FindUnexpired(s.lru, now, k);
    case Arrive(r, clk) =>
      assert [ev][0] == ev;
      if r.key == k {
        FindPresent(s.lru, k);
        PutSteps(s.lru, k);
      } else {
        OtherKeyKept(cfg, s, r, clk, k);
      }
  }

  /** While it has not expired, the entry is there, with its expiry. */
  lemma {:induction false} FoundWhileAlive(cfg: Config, s: State, evs: seq<Event>, k: Key, t: nat)
    requires cfg.maxMemory <= 0 && Present(s, k) && Clocked(t, evs)
    requires Undisturbed(cfg, s, evs, k, false) && NotRemoved(evs, k)
    ensures UniqueKeys(Run(cfg, s, evs).lru)
    ensures var hard, found := Find(s.lru, k).value.hard, Find(Run(cfg, s, evs).lru, k);
            if found.Some? then found.value.hard == hard else 0 < hard <= Millis(Now(t, evs))
  {
    if evs != [] {
      var prefix, ev := evs[..|evs| - 1], evs[|evs| - 1];
      var before := Run(cfg, s, prefix);
      FoundWhileAlive(cfg, s, prefix, k, t);
      OtherKeys(cfg, before, ev, k);
      StepKeepsLife(cfg, before, ev, k);
      assert NotRemoved([ev], k);
      StepDropsExpiredOnly(cfg, before, ev, k);
    }
  }

  /** An entry stored at `stored` with this TTL has not reached its hard expiry; without a TTL it never does. */
  predicate Lives(cfg: Config, ttl: int, stored: nat, now: nat) {
    var t := EffectiveTtl(cfg, ttl);
    t > 0 ==> Millis(now) < Millis(stored + Window(cfg, t))
  }

  /** The hard expiry of a stored entry, against the clock: zero means never. */
  lemma HardExpiryIs(cfg: Config, ttl: int, stored: nat, now: nat)
    requires stored >= 1_000_000
    ensures 0 < HardExpiry(cfg, ttl, stored) <= Millis(now) <==> !Lives(cfg, ttl, stored, now)
  {
  }

  /**
    With or without a limit: once the lifetime that a store or a touch gave it is over, a value is not
    found until it is stored again.
   */
  lemma GoneAfterHardExpiry(cfg: Config, s: State, renewal: Event, evs: seq<Event>, read: Event, k: Key)
    requires UniqueKeys(s.lru) && Renews(cfg, s, renewal, k) && Gets(read, k) && renewal.clk.store >= 1_000_000
    requires Undisturbed(cfg, Step(cfg, s, renewal), evs, k, false)
    requires !Lives(cfg, renewal.req.ttl, renewal.clk.store, read.clk.check)
    ensures ReportOf(Handle(cfg, Run(cfg, Step(cfg, s, renewal), evs), read.req, read.clk).1) == NotFound
  {
    RenewalSetsLife(cfg, s, renewal, k);
    LifetimeKept(cfg, Step(cfg, s, renewal), evs, k);
    GetReports(cfg, Run(cfg, Step(cfg, s, renewal), evs), read, k);
    HardExpiryIs(cfg, renewal.req.ttl, renewal.clk.store, read.clk.check);
  }

  /**
    Without a memory limit, what was stored or touched is found exactly until the millisecond in which
    its stretched TTL ends, or for ever if it has no TTL, whatever else the shard serves and whenever it
    sweeps.
   */
  lemma FoundUntilHardExpiry(cfg: Config, s: State, renewal: Event, evs: seq<Event>, read: Event, k: Key)
    requires cfg.maxMemory <= 0 && UniqueKeys(s.lru) && Renews(cfg, s, renewal, k) && Gets(read, k)
    requires renewal.clk.store >= 1_000_000
    requires Undisturbed(cfg, Step(cfg, s, renewal), evs, k, false) && NotRemoved(evs, k)
    requires Clocked(renewal.clk.store, evs) && Now(renewal.clk.store, evs) <= read.clk.check
    ensures var report := ReportOf(Handle(cfg, Run(cfg, Step(cfg, s, renewal), evs), read.req, read.clk).1);
            report.Flag? <==> Lives(cfg, renewal.req.ttl, renewal.clk.store, read.clk.check)
  {
    var renewed := Step(cfg, s, renewal);
    RenewalSetsLife(cfg, s, renewal, k);
    FoundWhileAlive(cfg, renewed, evs, k, renewal.clk.store);
    GetReports(cfg, Run(cfg, renewed, evs), read, k);
    HardExpiryIs(cfg, renewal.req.ttl, renewal.clk.store, read.clk.check);
    if Find(Run(cfg, renewed, evs).lru, k).None? {
      LaterStaysPast(Find(renewed.lru, k).value.hard, Now(renewal.clk.store, evs), Start(read));
    }
  }
}
