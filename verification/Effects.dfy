/**
  What a request of a connection does to the timed cache behind it, said of the map itself: what is
  found under a key, what is left there, and that nothing else changes.
 */
module Effects {
  import opened Basics
  import Decimal
  import opened FlatCache
  import opened Runs
  import opened Sessions
  import opened Shard
  import opened Sharding
  import opened TimedCache

  // ---------- What a request meets ----------

  /** What request `n` of a connection finds under a key of a timed cache: the entry, if it is alive by then. */
  function FoundAt(env: Env, flat: Flat, n: nat, key: Key): Option<Entry> {
    var m := env.schedule(n);
    var items := FlatRun(env.cfg, flat, m.others).items;
    if key in items && !(0 < items[key].hard <= m.clk.check / 1_000_000) then Some(items[key]) else None
  }

  /** What the next request finds if it is for this key. */
  function Found(env: Env, c: Session, key: Key): Option<Entry>
    requires c.backend.Timed?
  {
    FoundAt(env, c.backend.flat, |c.answers|, key)
  }

  /** The timed cache that the next request meets. */
  function Met(env: Env, c: Session): Flat
    requires c.backend.Timed?
  {
    FlatRun(env.cfg, c.backend.flat, Next(env, c).others)
  }

  ghost predicate Ready(c: Session) {
    c.backend.Timed? && Width(c.backend) > 0
  }

  /** The token that the next request gives to what it writes under a key. */
  function NewToken(env: Env, c: Session, key: Key): uint64
    requires Ready(c)
  {
    (Met(env, c).counters[Home(key, Width(c.backend))] + 1) % TWO_TO_THE_64
  }

  // ---------- What a request leaves ----------

  /** The cache is as the request met it. */
  ghost predicate Unchanged(env: Env, c: Session, c': Session)
    requires Ready(c)
  {
    c'.backend == Timed(Met(env, c), c.backend.held)
  }

  /** This value is under the key now, with a new token; nothing else has changed. */
  ghost predicate Wrote(env: Env, c: Session, c': Session, key: Key, e: Entry)
    requires Ready(c)
  {
    var met, home := Met(env, c), Home(key, Width(c.backend));
    && e.cas == NewToken(env, c, key)
    && c'.backend == Timed(Flat(met.items[key := e], met.counters[home := e.cas]), c.backend.held)
  }

  /** The entry that a store makes of a value with a TTL. */
  function NewEntry(env: Env, c: Session, key: Key, value: Bytes, ttl: int): Entry
    requires Ready(c)
  {
    var (soft, hard) := Deadlines(env.cfg, ttl, Next(env, c).clk.store);
    Entry(key, value, soft, hard, NewToken(env, c, key), false)
  }

  /** The value is under the key now as one just stored. */
  ghost predicate NowStored(env: Env, c: Session, c': Session, key: Key, value: Bytes, ttl: int)
    requires Ready(c)
  {
    Wrote(env, c, c', key, NewEntry(env, c, key, value, ttl))
  }

  /** The entry has another value and a new token, and is otherwise as it was. */
  ghost predicate Rewrote(env: Env, c: Session, c': Session, key: Key, e: Entry, value: Bytes)
    requires Ready(c)
  {
    Wrote(env, c, c', key, Entry(e.key, value, e.soft, e.hard, NewToken(env, c, key), e.refreshing))
  }

  /** The entry has the lifetime of this TTL and a new token, and is otherwise as it was. */
  ghost predicate Prolonged(env: Env, c: Session, c': Session, key: Key, e: Entry, ttl: int)
    requires Ready(c)
  {
    var (soft, hard) := Deadlines(env.cfg, ttl, Next(env, c).clk.store);
    Wrote(env, c, c', key, Entry(e.key, e.value, soft, hard, NewToken(env, c, key), e.refreshing))
  }

  /** Nothing is under the key now; nothing else has changed. */
  ghost predicate Erased(env: Env, c: Session, c': Session, key: Key)
    requires Ready(c)
  {
    c'.backend == Timed(Flat(Met(env, c).items - {key}, Met(env, c).counters), c.backend.held)
  }

  /** What has been written is not what was met: the counter has moved on. */
  lemma WroteIsChange(env: Env, c: Session, c': Session, key: Key, e: Entry)
    requires Ready(c) && Wrote(env, c, c', key, e)
    ensures !Unchanged(env, c, c')
  {
    assert c'.backend.flat.counters[Home(key, Width(c.backend))] == e.cas;
  }

  // ---------- One request ----------

  /** A request meets the cache as others left it, and is served by the worker of its key. */
  lemma AskApplies(env: Env, c: Session, r: Request)
    requires Ready(c)
    ensures var (c', answer) := Ask(env, c, r);
            var (flat, response) := ApplyFlat(env.cfg, Met(env, c), Home(r.key, Width(c.backend)), r, Next(env, c).clk);
            && c'.backend == Timed(flat, c.backend.held) && |c'.answers| == |c.answers| + 1
            && (!r.op.Delete? ==> answer == response)
    ensures Alive(At(Met(env, c).items, r.key), Next(env, c).clk.check) == Found(env, c, r.key)
  {
    var d := Delivery(Home(r.key, Width(c.backend)), Arrive(r, Next(env, c).clk));
    FlatRunConcat(env.cfg, c.backend.flat, Next(env, c).others, [d]);
    assert [d][..0] == [];
  }

  /** One request was sent, to the worker of its key. */
  lemma AskWent(env: Env, c: Session, r: Request)
    requires Width(c.backend) > 0
    ensures Went(env, c, [Sent(Home(r.key, Width(c.backend)), r)], Ask(env, c, r).0)
  {
    assert [] + [Sent(Home(r.key, Width(c.backend)), r)] == [Sent(Home(r.key, Width(c.backend)), r)];
    WentNowhere(env, c);
    WentOn(env, c, [], c, Home(r.key, Width(c.backend)), r);
  }

  /** When a store goes through. */
  predicate MayStore(op: Op, live: Option<Entry>, cas: uint64) {
    match op
    case Set => true
    case Add => live.None?
    case Replace => live.Some?
    case _ => live.Some? && live.value.cas == cas
  }

  lemma StoreAsked(env: Env, c: Session, r: Request)
    requires Ready(c) && (r.op.Set? || r.op.Add? || r.op.Replace? || r.op.Cas?)
    ensures var (c', answer) := Ask(env, c, r);
            var live := Found(env, c, r.key);
            if MayStore(r.op, live, r.cas) then
              && answer.err == NoError && answer.cas == NewToken(env, c, r.key)
              && NowStored(env, c, c', r.key, r.value, r.ttl)
            else
              && Unchanged(env, c, c')
              && answer.err == if live.None? then KeyNotFound else if r.op.Add? then KeyExists else CasMismatch
  {
    AskApplies(env, c, r);
    SameItems(Met(env, c).items, r.key);
  }

  lemma SameItems(items: map<Key, Entry>, key: Key)
    ensures key in items ==> items[key := items[key]] == items
    ensures key !in items ==> items - {key} == items
  {
  }

  lemma ExtendAsked(env: Env, c: Session, r: Request)
    requires Ready(c) && (r.op.Append? || r.op.Prepend?)
    ensures var (c', answer) := Ask(env, c, r);
            var live := Found(env, c, r.key);
            if live.None? then answer.err == KeyNotFound && Unchanged(env, c, c')
            else
              var value := if r.op.Append? then live.value.value + r.value else r.value + live.value.value;
              && answer.err == NoError && answer.cas == NewToken(env, c, r.key)
              && Rewrote(env, c, c', r.key, live.value, value)
  {
    AskApplies(env, c, r);
  }

  /** A count finds a number, or fails; an increment wraps at 2^64, a decrement stops at zero. */
  lemma CountAsked(env: Env, c: Session, r: Request)
    requires Ready(c) && (r.op.Incr? || r.op.Decr?)
    ensures var (c', answer) := Ask(env, c, r);
            var live := Found(env, c, r.key);
            if live.None? then answer.err == KeyNotFound && Unchanged(env, c, c')
            else
              var n := Decimal.ParseUint(live.value.value, TWO_TO_THE_64);
              if n.None? then answer.err == NotNumeric && Unchanged(env, c, c')
              else
                var sum := CountTo(n.value, r.delta, r.op.Incr?);
                && answer.err == NoError && answer.value == Decimal.Format(sum) && answer.cas == NewToken(env, c, r.key)
                && Rewrote(env, c, c', r.key, live.value, Decimal.Format(sum))
  {
    AskApplies(env, c, r);
    SameItems(Met(env, c).items, r.key);
  }

  function CountTo(n: nat, delta: nat, incr: bool): nat {
    if incr then (n + delta) % 0x1_0000_0000_0000_0000 else if delta < n then n - delta else 0
  }

  lemma TouchAsked(env: Env, c: Session, r: Request)
    requires Ready(c) && r.op.Touch?
    ensures var (c', answer) := Ask(env, c, r);
            var live := Found(env, c, r.key);
            if live.None? then answer.err == KeyNotFound && Unchanged(env, c, c')
            else
              && answer.err == NoError && answer.cas == NewToken(env, c, r.key)
              && Prolonged(env, c, c', r.key, live.value, r.ttl)
  {
    AskApplies(env, c, r);
  }

  /** A Delete succeeds on an entry that is alive; on a dead one if it is still there. */
  lemma DeleteAsked(env: Env, c: Session, r: Request)
    requires Ready(c) && r.op.Delete?
    ensures var (c', answer) := Ask(env, c, r);
            && Erased(env, c, c', r.key)
            && (answer.err == NoError <==>
                  || Found(env, c, r.key).Some?
                  || (r.key in Met(env, c).items && c.backend.held(|c.answers|)))
  {
    AskApplies(env, c, r);
    SameItems(Met(env, c).items, r.key);
  }

  /** Zero is fresh; a stale entry has three for the first to see it, and one from then on. */
  function FlagsAt(e: Entry, now: nat): nat {
    if 0 < e.soft <= now / 1_000_000 then (if e.refreshing then 1 else 3) else 0
  }

  /** A Get answers with value, token and flags, and marks an entry that is stale. */
  lemma GetAsked(env: Env, c: Session, r: Request)
    requires Ready(c) && r.op.Get?
    ensures var (c', answer) := Ask(env, c, r);
            var live := Found(env, c, r.key);
            if live.None? then answer.err == KeyNotFound && Unchanged(env, c, c')
            else
              var flags := FlagsAt(live.value, Next(env, c).clk.check);
              var left := live.value.(refreshing := live.value.refreshing || flags != 0);
              && answer == Response(live.value.value, live.value.cas, flags, NoError, None)
              && c'.backend == Timed(Met(env, c).(items := Met(env, c).items[r.key := left]), c.backend.held)
  {
    AskApplies(env, c, r);
  }

  // ---------- A flush ----------

  /** One flush for each of some workers, in order. */
  function Flushes(workers: nat): seq<Sent> {
    seq(workers, i requires 0 <= i < workers => Sent(i, Request(FlushAll, [], [], 0, 0, 0)))
  }

  /** Worker `i` holds nothing. */
  ghost predicate EmptyAt(b: Backend, i: nat)
    requires i < Width(b)
  {
    match b
    case Workers(shards) => shards[i].lru == [] && shards[i].used == 0
    case Timed(flat, _) => forall key :: key in flat.items ==> Home(key, |flat.counters|) != i
  }

  lemma {:induction false} FlushSends(env: Env, start: Session, c: Session, i: nat)
    requires i <= Width(c.backend) && Went(env, start, Flushes(i), c)
    ensures Went(env, start, Flushes(Width(c.backend)), FlushFrom(env, c, i))
    decreases Width(c.backend) - i
  {
    if i < Width(c.backend) {
      WentOn(env, start, Flushes(i), c, i, FlushRequest());
      assert Flushes(i) + [Sent(i, FlushRequest())] == Flushes(i + 1);
      FlushSends(env, start, FlushOne(env, c, i), i + 1);
    }
  }

  /** The flush of worker `i` empties it. */
  lemma FlushEmptiesOne(env: Env, b: Backend, n: nat, i: nat)
    requires i < Width(b)
    ensures EmptyAt(Meet(env.cfg, b, Deliveries(env, n, Flushes(i + 1))), i)
  {
    var before, m := Deliveries(env, n, Flushes(i)), env.schedule(n + i);
    var d := Delivery(i, Arrive(FlushRequest(), m.clk));
    assert Flushes(i + 1)[..i] == Flushes(i);
    assert Deliveries(env, n, Flushes(i + 1)) == (before + m.others) + [d];
    MeetConcat(env.cfg, b, before + m.others, [d]);
    assert [d][..0] == [];
  }

  /** The cache once worker `i` has served its part of a flush. */
  function AfterFlushOf(env: Env, c: Session, i: nat): (b: Backend)
    requires i < Width(c.backend)
    ensures Width(b) == Width(c.backend)
  {
    Meet(env.cfg, c.backend, Deliveries(env, |c.answers|, Flushes(Width(c.backend))[..i + 1]))
  }

  /**
    A flush sends one request to every worker, in order, and each worker is empty once it has served
    its own; whatever it holds at the end of the flush was stored after that.
   */
  lemma FlushEmpties(env: Env, c: Session)
    ensures Went(env, c, Flushes(Width(c.backend)), FlushFrom(env, c, 0))
    ensures forall i :: 0 <= i < Width(c.backend) ==> EmptyAt(AfterFlushOf(env, c, i), i)
  {
    WentNowhere(env, c);
    assert Flushes(0) == [];
    FlushSends(env, c, c, 0);
    forall i | 0 <= i < Width(c.backend)
      ensures EmptyAt(AfterFlushOf(env, c, i), i)
    {
      assert Flushes(Width(c.backend))[..i + 1] == Flushes(i + 1);
      FlushEmptiesOne(env, c.backend, |c.answers|, i);
    }
  }
}
