/**
  What one worker's requests do, as functions on values.

  The state of a shard is the sequence of its entries from least to most recently used, and the
  worker's counters. The classes in ExpiryHeap.dfy, LruList.dfy, Index.dfy and Worker.dfy are
  proved to compute exactly these functions; the properties of whole runs are proved about them.
  Times are nanoseconds since the Unix epoch where a clock is read, and milliseconds in entries.
 */
module Shard {
  import opened Basics
  import Decimal

  datatype Entry = Entry(key: Key, value: Bytes, soft: nat, hard: nat, cas: uint64, refreshing: bool)

  datatype Config = Config(defaultTtl: int, staleMultiplier: real, maxMemory: int)

  datatype State = State(lru: seq<Entry>, casCounter: uint64, used: int, evictions: nat)

  /** A request reads the clock to check expiry and once more to stamp what it stores. */
  datatype Clock = Clock(check: nat, store: nat)

  datatype Op = Get | Set | Add | Replace | Delete | Touch | Cas | Incr | Decr | Append | Prepend
              | FlushAll | Stats | Other

  datatype Request = Request(op: Op, key: Key, value: Bytes, ttl: int, cas: uint64, delta: uint64)

  datatype Error = NoError | KeyNotFound | KeyExists | CasMismatch | NotNumeric

  datatype StatsReport = StatsReport(currItems: nat, bytes: int, evictions: nat)

  datatype Response = Response(value: Bytes, cas: uint64, flags: int, err: Error, stats: Option<StatsReport>)

  function Fail(err: Error): Response {
    Response([], 0, 0, err, None)
  }

  function Stored(cas: uint64): Response {
    Response([], cas, 0, NoError, None)
  }

  // ---------- Sequences of entries ----------

  function Size(e: Entry): nat {
    |e.key| + |e.value|
  }

  function Total(s: seq<Entry>): nat {
    if s == [] then 0 else Size(s[0]) + Total(s[1..])
  }

  function Find(s: seq<Entry>, k: Key): Option<Entry> {
    if s == [] then None else if s[0].key == k then Some(s[0]) else Find(s[1..], k)
  }

  function Without(s: seq<Entry>, k: Key): seq<Entry> {
    if s == [] then [] else if s[0].key == k then Without(s[1..], k) else [s[0]] + Without(s[1..], k)
  }

  ghost predicate UniqueKeys(s: seq<Entry>) {
    forall i, j :: 0 <= i < j < |s| ==> s[i].key != s[j].key
  }

  // ---------- Time ----------

  function Millis(ns: int): int {
    ns / 1_000_000
  }

  /** Past its hard expiry: every request but Delete treats the entry as absent. */
  predicate Expired(e: Entry, now: nat) {
    0 < e.hard <= Millis(now)
  }

  predicate Stale(e: Entry, now: nat) {
    0 < e.soft <= Millis(now)
  }

  function Unexpired(s: seq<Entry>, now: nat): seq<Entry> {
    if s == [] then [] else (if Expired(s[0], now) then [] else [s[0]]) + Unexpired(s[1..], now)
  }

  function EffectiveTtl(cfg: Config, ttl: int): int {
    if ttl == 0 && cfg.defaultTtl > 0 then cfg.defaultTtl else ttl
  }

  /** A TTL that is not positive means no expiry. */
  function SoftExpiry(cfg: Config, ttl: int, now: nat): nat {
    var t := EffectiveTtl(cfg, ttl);
    if t > 0 then Millis(now + t) else 0
  }

  function HardExpiry(cfg: Config, ttl: int, now: nat): nat {
    var t := EffectiveTtl(cfg, ttl);
    if t > 0 && cfg.staleMultiplier > 0.0 then Millis(now + Stretched(t, cfg.staleMultiplier))
    else SoftExpiry(cfg, ttl, now)
  }

  /** A duration times a multiplier, truncated. */
  function Stretched(t: nat, multiplier: real): nat
    requires multiplier > 0.0
  {
    (t as real * multiplier).Floor
  }

  function NextCas(c: uint64): uint64 {
    (c + 1) % TWO_TO_THE_64
  }

  // ---------- Eviction and the sweep ----------

  function DropOldest(s: State): State
    requires s.lru != []
  {
    s.(lru := s.lru[1..], used := s.used - Size(s.lru[0]), evictions := s.evictions + 1)
  }

  /** Drops entries from the least recently used end until `needed` more bytes fit. */
  function Evict(cfg: Config, s: State, needed: int): State
    decreases |s.lru|
  {
    if s.used + needed > cfg.maxMemory && s.lru != [] then
      Evict(cfg, DropOldest(s), needed)
    else s
  }

  /** Writes evict only when they grow the shard and a limit is set. */
  function MakeRoom(cfg: Config, s: State, needed: int): State {
    if needed > 0 && cfg.maxMemory > 0 then Evict(cfg, s, needed) else s
  }

  function Sweep(s: State, now: nat): State {
    var live := Unexpired(s.lru, now);
    s.(lru := live, used := s.used - (Total(s.lru) - Total(live)))
  }

  // ---------- Requests ----------

  /** The entry under a key, unless it is past its hard expiry. */
  function Lookup(s: State, k: Key, now: nat): Option<Entry> {
    var found := Find(s.lru, k);
    if found.Some? && Expired(found.value, now) then None else found
  }

  /** Stores an entry as the most recently used one, in place of any entry with its key. */
  function Put(lru: seq<Entry>, e: Entry): seq<Entry> {
    Without(lru, e.key) + [e]
  }

  /** Writes an entry that carries a new token and takes `additional` more bytes. */
  function Write(s: State, e: Entry, additional: int): State {
    s.(lru := Put(s.lru, e), casCounter := e.cas, used := s.used + additional)
  }

  function SizeAt(s: seq<Entry>, k: Key): nat {
    var found := Find(s, k);
    if found.Some? then Size(found.value) else 0
  }

  /** 0 is fresh; 3 asks the one client that gets it to refresh the value; 1 is stale. */
  function Flags(e: Entry, now: nat): int {
    if !Stale(e, now) then 0 else if e.refreshing then 1 else 3
  }

  function Seen(e: Entry, now: nat): Entry {
    e.(refreshing := e.refreshing || Stale(e, now))
  }

  function HandleGet(s: State, k: Key, now: nat): (State, Response) {
    var found := Find(s.lru, k);
    if found.None? then (s, Fail(KeyNotFound))
    else if Expired(found.value, now) then
      (s.(lru := Without(s.lru, k), used := s.used - Size(found.value)), Fail(KeyNotFound))
    else
      var e := found.value;
      (s.(lru := Put(s.lru, Seen(e, now))), Response(e.value, e.cas, Flags(e, now), NoError, None))
  }

  function DoSet(cfg: Config, s: State, k: Key, v: Bytes, ttl: int, now: nat): (State, Response) {
    var additional := |k| + |v| - SizeAt(s.lru, k);
    var room := MakeRoom(cfg, s, additional);
    var cas := NextCas(s.casCounter);
    var e := Entry(k, v, SoftExpiry(cfg, ttl, now), HardExpiry(cfg, ttl, now), cas, false);
    (Write(room, e, additional), Stored(cas))
  }

  function HandleAdd(cfg: Config, s: State, k: Key, v: Bytes, ttl: int, clk: Clock): (State, Response) {
    if Lookup(s, k, clk.check).Some? then (s, Fail(KeyExists)) else DoSet(cfg, s, k, v, ttl, clk.store)
  }

  function HandleReplace(cfg: Config, s: State, k: Key, v: Bytes, ttl: int, clk: Clock): (State, Response) {
    if Lookup(s, k, clk.check).None? then (s, Fail(KeyNotFound)) else DoSet(cfg, s, k, v, ttl, clk.store)
  }

  function HandleCas(cfg: Config, s: State, k: Key, v: Bytes, ttl: int, cas: uint64, clk: Clock): (State, Response) {
    var found := Lookup(s, k, clk.check);
    if found.None? then (s, Fail(KeyNotFound))
    else if found.value.cas != cas then (s, Fail(CasMismatch))
    else DoSet(cfg, s, k, v, ttl, clk.store)
  }

  function HandleDelete(s: State, k: Key): (State, Response) {
    var found := Find(s.lru, k);
    if found.None? then (s, Fail(KeyNotFound))
    else (s.(lru := Without(s.lru, k), used := s.used - Size(found.value)), Stored(0))
  }

  /** An entry with a new lifetime; whether it is being refreshed does not change. */
  function Touched(cfg: Config, e: Entry, ttl: int, now: nat, cas: uint64): Entry {
    e.(soft := SoftExpiry(cfg, ttl, now), hard := HardExpiry(cfg, ttl, now), cas := cas)
  }

  function HandleTouch(cfg: Config, s: State, k: Key, ttl: int, clk: Clock): (State, Response) {
    var found := Lookup(s, k, clk.check);
    if found.None? then (s, Fail(KeyNotFound))
    else
      var cas := NextCas(s.casCounter);
      (Write(s, Touched(cfg, found.value, ttl, clk.store, cas), 0), Stored(cas))
  }

  /** Increments wrap at 2^64; decrements stop at zero. */
  function Arith(current: uint64, delta: uint64, incr: bool): uint64 {
    if incr then (current + delta) % TWO_TO_THE_64
    else if delta > current then 0 else current - delta
  }

  function Counted(s: State, e: Entry, delta: uint64, incr: bool): (State, Response) {
    var current := Decimal.ParseUint(e.value, TWO_TO_THE_64);
    if current.None? then (s, Fail(NotNumeric))
    else
      var text := Decimal.Format(Arith(current.value, delta, incr));
      var cas := NextCas(s.casCounter);
      (Write(s, e.(value := text, cas := cas), |text| - |e.value|), Response(text, cas, 0, NoError, None))
  }

  function DoIncrDecr(s: State, k: Key, delta: uint64, incr: bool, now: nat): (State, Response) {
    var found := Lookup(s, k, now);
    if found.None? then (s, Fail(KeyNotFound)) else Counted(s, found.value, delta, incr)
  }

  function Joined(e: Entry, v: Bytes, prepend: bool, cas: uint64): Entry {
    e.(value := if prepend then v + e.value else e.value + v, cas := cas)
  }

  function Extended(cfg: Config, s: State, e: Entry, v: Bytes, prepend: bool): (State, Response) {
    var room := MakeRoom(cfg, s, |v|);
    var cas := NextCas(s.casCounter);
    (Write(room, Joined(e, v, prepend, cas), |v|), Stored(cas))
  }

  function DoAppendPrepend(cfg: Config, s: State, k: Key, v: Bytes, prepend: bool, now: nat): (State, Response) {
    var found := Lookup(s, k, now);
    if found.None? then (s, Fail(KeyNotFound)) else Extended(cfg, s, found.value, v, prepend)
  }

  function HandleFlushAll(s: State): (State, Response) {
    (s.(lru := [], used := 0), Stored(0))
  }

  function HandleStats(s: State): (State, Response) {
    (s, Response([], 0, 0, NoError, Some(StatsReport(|s.lru|, s.used, s.evictions))))
  }

  /** The requests that answer with a value when they succeed. */
  predicate AnswersValue(op: Op) {
    op.Get? || op.Incr? || op.Decr?
  }

  function Handle(cfg: Config, s: State, r: Request, clk: Clock): (State, Response) {
    match r.op
    case Get => HandleGet(s, r.key, clk.check)
    case Set => DoSet(cfg, s, r.key, r.value, r.ttl, clk.store)
    case Add => HandleAdd(cfg, s, r.key, r.value, r.ttl, clk)
    case Replace => HandleReplace(cfg, s, r.key, r.value, r.ttl, clk)
    case Delete => HandleDelete(s, r.key)
    case Touch => HandleTouch(cfg, s, r.key, r.ttl, clk)
    case Cas => HandleCas(cfg, s, r.key, r.value, r.ttl, r.cas, clk)
    case Incr => DoIncrDecr(s, r.key, r.delta, true, clk.check)
    case Decr => DoIncrDecr(s, r.key, r.delta, false, clk.check)
    case Append => DoAppendPrepend(cfg, s, r.key, r.value, false, clk.check)
    case Prepend => DoAppendPrepend(cfg, s, r.key, r.value, true, clk.check)
    case FlushAll => HandleFlushAll(s)
    case Stats => HandleStats(s)
    case Other => (s, Fail(KeyNotFound))
  }
}
