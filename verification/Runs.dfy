/**
  Runs of one worker: the requests and sweep ticks it takes from its channels, in order.

  The properties of whole runs in the other modules rest on two facts about one step proved here:
  eviction removes the shortest least recently used prefix that makes enough room, and a step
  leaves every key but the request's own as it was, or drops it.
 */
module Runs {
  import opened Basics
  import opened Shard
  import opened ShardFacts

  datatype Event = Arrive(req: Request, clk: Clock) | Tick(now: nat)

  function Step(cfg: Config, s: State, ev: Event): State {
    match ev
    case Arrive(req, clk) => Handle(cfg, s, req, clk).0
    case Tick(now) => Sweep(s, now)
  }

  function Run(cfg: Config, s: State, evs: seq<Event>): State {
    if evs == [] then s else Step(cfg, Run(cfg, s, evs[..|evs| - 1]), evs[|evs| - 1])
  }

  /** The state before event `i` of a run. */
  function Before(cfg: Config, s: State, evs: seq<Event>, i: nat): State
    requires i <= |evs|
  {
    Run(cfg, s, evs[..i])
  }

  /** What event `i` of a run answers, if it is a request. */
  function Answer(cfg: Config, s: State, evs: seq<Event>, i: nat): Option<Response>
    requires i < |evs|
  {
    match evs[i]
    case Arrive(req, clk) => Some(Handle(cfg, Before(cfg, s, evs, i), req, clk).1)
    case Tick(_) => None
  }

  lemma BeforeNext(cfg: Config, s: State, evs: seq<Event>, i: nat)
    requires i < |evs|
    ensures Before(cfg, s, evs, i + 1) == Step(cfg, Before(cfg, s, evs, i), evs[i])
  {
    assert evs[..i + 1][..i] == evs[..i];
  }

  // ---------- Eviction ----------

  /** How many entries eviction removes. */
  function EvictCount(cfg: Config, s: State, needed: int): nat
    decreases |s.lru|
  {
    if s.used + needed > cfg.maxMemory && s.lru != [] then 1 + EvictCount(cfg, DropOldest(s), needed) else 0
  }

  /** The state after the `n` least recently used entries are gone. */
  function DropPrefix(s: State, n: nat): State
    requires n <= |s.lru|
  {
    s.(lru := s.lru[n..], used := s.used - Total(s.lru[..n]), evictions := s.evictions + n)
  }

  /**
    Eviction removes exactly the shortest prefix that makes `needed` more bytes fit, or everything;
    the entries that stay, their order and their expiries do not change.
   */
  lemma {:induction false} EvictIsShortestPrefix(cfg: Config, s: State, needed: int)
    ensures var n := EvictCount(cfg, s, needed);
            && n <= |s.lru| && Evict(cfg, s, needed) == DropPrefix(s, n)
            && (n < |s.lru| ==> s.used - Total(s.lru[..n]) + needed <= cfg.maxMemory)
            && (forall m :: 0 <= m < n ==> s.used - Total(s.lru[..m]) + needed > cfg.maxMemory)
    decreases |s.lru|
  {
    var n := EvictCount(cfg, s, needed);
    if n == 0 {
      assert s.lru[..0] == [] && s.lru[0..] == s.lru;
    } else {
      var t := DropOldest(s);
      EvictIsShortestPrefix(cfg, t, needed);
      assert s.lru[..n][1..] == t.lru[..n - 1];
      forall m | 0 <= m < n
        ensures s.used - Total(s.lru[..m]) + needed > cfg.maxMemory
      {
        if m > 0 {
          assert s.lru[..m][1..] == t.lru[..m - 1];
        }
      }
    }
  }

  /** The room a write makes removes a prefix of the entries, if anything. */
  lemma RoomIsSuffix(cfg: Config, s: State, needed: int) returns (n: nat)
    requires UniqueKeys(s.lru)
    ensures n <= |s.lru| && MakeRoom(cfg, s, needed) == DropPrefix(s, n)
    ensures UniqueKeys(MakeRoom(cfg, s, needed).lru)
  {
    EvictIsShortestPrefix(cfg, s, needed);
    n := if needed > 0 && cfg.maxMemory > 0 then EvictCount(cfg, s, needed) else 0;
    assert s.lru[..0] == [] && s.lru[0..] == s.lru;
  }

  lemma {:induction false} FindInSuffix(s: seq<Entry>, n: nat, k: Key)
    requires UniqueKeys(s) && n <= |s|
    ensures Find(s[n..], k) == Find(s, k) || Find(s[n..], k) == None
    ensures Find(s[n..], k).Some? <==> Find(s[..n], k).None? && Find(s, k).Some?
    ensures Total(s[n..]) == Total(s) - Total(s[..n])
  {
    assert s == s[..n] + s[n..];
    FindInConcat(s[..n], s[n..], k);
    TotalConcat(s[..n], s[n..]);
    if Find(s[..n], k).Some? {
      FindPresent(s[..n], k);
      FindPresent(s[n..], k);
      var i :| 0 <= i < n && s[i].key == k;
    }
  }

  // ---------- One step, key by key ----------

  /** Writes to its key in a way that evicts others first. */
  lemma RoomFind(cfg: Config, s: State, needed: int, k: Key)
    requires UniqueKeys(s.lru)
    ensures UniqueKeys(MakeRoom(cfg, s, needed).lru)
    ensures var found := Find(MakeRoom(cfg, s, needed).lru, k); found == Find(s.lru, k) || found == None
  {
    var n := RoomIsSuffix(cfg, s, needed);
    FindInSuffix(s.lru, n, k);
  }

  lemma {:induction false} UnexpiredIn(s: seq<Entry>, now: nat)
    ensures forall i :: 0 <= i < |Unexpired(s, now)| ==>
              Unexpired(s, now)[i] in s && !Expired(Unexpired(s, now)[i], now)
    ensures UniqueKeys(s) ==> UniqueKeys(Unexpired(s, now))
  {
    if s != [] {
      var rest := Unexpired(s[1..], now);
      UnexpiredIn(s[1..], now);
      forall i | 0 <= i < |rest|
        ensures rest[i] in s && (UniqueKeys(s) ==> rest[i].key != s[0].key)
      {
        var j :| 0 <= j < |s| - 1 && s[1..][j] == rest[i];
        assert s[j + 1] == rest[i];
      }
    }
  }

  lemma {:induction false} FindUnexpired(s: seq<Entry>, now: nat, k: Key)
    requires UniqueKeys(s)
    ensures Find(Unexpired(s, now), k) ==
            if Find(s, k).Some? && Expired(Find(s, k).value, now) then None else Find(s, k)
  {
    if s != [] {
      FindUnexpired(s[1..], now, k);
      var rest := Unexpired(s[1..], now);
      assert ([s[0]] + rest)[1..] == rest && [] + rest == rest;
      if s[0].key == k {
        FindAbsent(s[1..], k);
      }
    }
  }

  /** What storing an entry does after making room. */
  lemma WriteFind(cfg: Config, s: State, needed: int, e: Entry, k: Key)
    requires UniqueKeys(s.lru)
    ensures var lru := Put(MakeRoom(cfg, s, needed).lru, e);
            && UniqueKeys(lru)
            && (if k == e.key then Find(lru, k) == Some(e) else Find(lru, k) == Find(s.lru, k) || Find(lru, k) == None)
  {
    var lru := MakeRoom(cfg, s, needed).lru;
    RoomFind(cfg, s, needed, k);
    PutKeeps(lru, e);
    FindAfterPut(lru, e, k);
  }

  /** What a set leaves behind, at its own key and at another. */
  lemma SetFind(cfg: Config, s: State, key: Key, v: Bytes, ttl: int, now: nat, k: Key)
    requires UniqueKeys(s.lru)
    ensures var t := DoSet(cfg, s, key, v, ttl, now).0;
            && UniqueKeys(t.lru)
            && (if k == key then Find(t.lru, k) == Some(SetEntry(cfg, s, key, v, ttl, now))
                else Find(t.lru, k) == Find(s.lru, k) || Find(t.lru, k) == None)
  {
    WriteFind(cfg, s, |key| + |v| - SizeAt(s.lru, key), SetEntry(cfg, s, key, v, ttl, now), k);
  }

  function SetEntry(cfg: Config, s: State, k: Key, v: Bytes, ttl: int, now: nat): Entry {
    Entry(k, v, SoftExpiry(cfg, ttl, now), HardExpiry(cfg, ttl, now), NextCas(s.casCounter), false)
  }

  /** A key other than the request's keeps its entry unless the step drops it. */
  lemma OtherKeys(cfg: Config, s: State, ev: Event, k: Key)
    requires UniqueKeys(s.lru)
    ensures UniqueKeys(Step(cfg, s, ev).lru)
    ensures (ev.Tick? || ev.req.key != k) ==>
              var found := Find(Step(cfg, s, ev).lru, k); found == Find(s.lru, k) || found == None
  {
    match ev
    case Tick(now) =>
      UnexpiredIn(s.lru, now);
      FindUnexpired(s.lru, now, k);
    case Arrive(req, clk) =>
      match req.op
      case Set | Add | Replace | Cas => SetFind(cfg, s, req.key, req.value, req.ttl, clk.store, k);
      case Get | Delete =>
        FindPresent(s.lru, req.key);
        FindAfterWithout(s.lru, req.key, k);
        WithoutKeeps(s.lru, req.key);
        PutSteps(s.lru, k);
      case Touch | Incr | Decr =>
        FindPresent(s.lru, req.key);
        PutSteps(s.lru, k);
      case Append | Prepend =>
        FindPresent(s.lru, req.key);
        RoomFind(cfg, s, |req.value|, k);
        PutSteps(MakeRoom(cfg, s, |req.value|).lru, k);
      case FlushAll | Stats | Other =>
  }

  lemma PutSteps(lru: seq<Entry>, k: Key)
    requires UniqueKeys(lru)
    ensures forall e {:trigger Put(lru, e)} ::
              UniqueKeys(Put(lru, e)) && Find(Put(lru, e), k) == if k == e.key then Some(e) else Find(lru, k)
  {
    forall e: Entry
      ensures UniqueKeys(Put(lru, e)) && Find(Put(lru, e), k) == if k == e.key then Some(e) else Find(lru, k)
    {
      PutKeeps(lru, e);
      FindAfterPut(lru, e, k);
    }
  }
}
