/**
  Byte accounting over whole runs: what `used` measures, and when the memory limit holds.

  A set or an append evicts before it stores, and may evict the very entry it writes to. The
  accounting then counts that entry's bytes as given back twice, so `used` falls behind.
 */
module Memory {
  import opened Basics
  import opened Shard
  import opened ShardFacts
  import opened Runs
  import Decimal

  // ---------- Conservation ----------

  /** How much room the request makes before it writes. */
  function Growth(s: State, r: Request): int {
    if r.op.Append? || r.op.Prepend? then |r.value| else |r.key| + |r.value| - SizeAt(s.lru, r.key)
  }

  /** Whether the request makes room: it stores a value, and what it finds under its key lets it. */
  predicate MakesRoom(s: State, r: Request, clk: Clock) {
    var found := Lookup(s, r.key, clk.check);
    match r.op
    case Set => true
    case Add => found.None?
    case Replace | Append | Prepend => found.Some?
    case Cas => found.Some? && found.value.cas == r.cas
    case _ => false
  }

  /** The size of a key's entry if making room evicts it. */
  function Displaced(cfg: Config, s: State, needed: int, k: Key): nat {
    if Find(MakeRoom(cfg, s, needed).lru, k).None? then SizeAt(s.lru, k) else 0
  }

  /** The size of the entry that a write evicts although it is about to write to it; 0 if it does not. */
  function SelfEvicted(cfg: Config, s: State, ev: Event): nat {
    if ev.Arrive? && MakesRoom(s, ev.req, ev.clk) then Displaced(cfg, s, Growth(s, ev.req), ev.req.key) else 0
  }

  /** What entries evicted by their own write weighed, since the last flush. */
  function Lost(cfg: Config, s: State, evs: seq<Event>): nat {
    if evs == [] then 0
    else
      var prefix, ev := evs[..|evs| - 1], evs[|evs| - 1];
      if ev.Arrive? && ev.req.op.FlushAll? then 0
      else Lost(cfg, s, prefix) + SelfEvicted(cfg, Run(cfg, s, prefix), ev)
  }

  lemma RoomConserves(cfg: Config, s: State, needed: int, k: Key)
    requires UniqueKeys(s.lru)
    ensures var room := MakeRoom(cfg, s, needed);
            && UniqueKeys(room.lru) && Total(room.lru) - room.used == Total(s.lru) - s.used
            && SizeAt(room.lru, k) == SizeAt(s.lru, k) - Displaced(cfg, s, needed, k)
  {
    var n := RoomIsSuffix(cfg, s, needed);
    FindInSuffix(s.lru, n, k);
  }

  lemma WriteTotals(s: State, e: Entry, additional: int)
    requires UniqueKeys(s.lru)
    ensures Total(Write(s, e, additional).lru) == Total(s.lru) - SizeAt(s.lru, e.key) + Size(e)
  {
    PutKeeps(s.lru, e);
  }

  /** The bytes stored beyond the bytes counted. */
  function Gap(s: State): int {
    Total(s.lru) - s.used
  }

  /** A write that makes the room it needs loses its own old entry, or nothing. */
  lemma WriteConserves(cfg: Config, s: State, e: Entry, growth: int)
    requires UniqueKeys(s.lru) && Size(e) == growth + SizeAt(s.lru, e.key)
    ensures Gap(Write(MakeRoom(cfg, s, growth), e, growth)) ==
            Gap(s) + Displaced(cfg, s, growth, e.key)
  {
    RoomConserves(cfg, s, growth, e.key);
    WriteTotals(MakeRoom(cfg, s, growth), e, growth);
  }

  lemma SetConserves(cfg: Config, s: State, k: Key, v: Bytes, ttl: int, now: nat)
    requires UniqueKeys(s.lru)
    ensures Gap(DoSet(cfg, s, k, v, ttl, now).0) == Gap(s) + Displaced(cfg, s, |k| + |v| - SizeAt(s.lru, k), k)
  {
    WriteConserves(cfg, s, SetEntry(cfg, s, k, v, ttl, now), |k| + |v| - SizeAt(s.lru, k));
  }

  lemma ExtendConserves(cfg: Config, s: State, e: Entry, v: Bytes, prepend: bool)
    requires UniqueKeys(s.lru) && Find(s.lru, e.key) == Some(e)
    ensures Gap(Extended(cfg, s, e, v, prepend).0) == Gap(s) + Displaced(cfg, s, |v|, e.key)
  {
    WriteConserves(cfg, s, Joined(e, v, prepend, NextCas(s.casCounter)), |v|);
  }

  lemma CountConserves(s: State, e: Entry, delta: uint64, incr: bool)
    requires UniqueKeys(s.lru) && Find(s.lru, e.key) == Some(e)
    ensures Gap(Counted(s, e, delta, incr).0) == Gap(s)
  {
    var current := Decimal.ParseUint(e.value, TWO_TO_THE_64);
    if current.Some? {
      var text := Decimal.Format(Arith(current.value, delta, incr));
      WriteTotals(s, e.(value := text, cas := NextCas(s.casCounter)), |text| - |e.value|);
    }
  }

  /** Requests that take no more room than they give back. */
  lemma QuietConserves(cfg: Config, s: State, r: Request, clk: Clock)
    requires UniqueKeys(s.lru) && (r.op.Get? || r.op.Touch? || r.op.Delete? || r.op.Incr? || r.op.Decr?)
    ensures Gap(Handle(cfg, s, r, clk).0) == Gap(s)
  {
    FindPresent(s.lru, r.key);
    WithoutKeeps(s.lru, r.key);
    var found := Find(s.lru, r.key);
    if found.Some? {
      match r.op
      case Get => PutKeeps(s.lru, Seen(found.value, clk.check));
      case Touch => WriteTotals(s, Touched(cfg, found.value, r.ttl, clk.store, NextCas(s.casCounter)), 0);
      case Incr | Decr => CountConserves(s, found.value, r.delta, r.op.Incr?);
      case Delete =>
    }
  }

  lemma StoreConserves(cfg: Config, s: State, r: Request, clk: Clock)
    requires UniqueKeys(s.lru) && (r.op.Set? || r.op.Add? || r.op.Replace? || r.op.Cas?)
    ensures Gap(Handle(cfg, s, r, clk).0) == Gap(s) + SelfEvicted(cfg, s, Arrive(r, clk))
  {
    if MakesRoom(s, r, clk) {
      SetConserves(cfg, s, r.key, r.value, r.ttl, clk.store);
    }
  }

  lemma AppendConserves(cfg: Config, s: State, r: Request, clk: Clock)
    requires UniqueKeys(s.lru) && (r.op.Append? || r.op.Prepend?)
    ensures Gap(Handle(cfg, s, r, clk).0) == Gap(s) + SelfEvicted(cfg, s, Arrive(r, clk))
  {
    if MakesRoom(s, r, clk) {
      FindPresent(s.lru, r.key);
      ExtendConserves(cfg, s, Find(s.lru, r.key).value, r.value, r.op.Prepend?);
    }
  }

  /** One step changes the gap by what it self-evicts; a flush closes it. */
  lemma StepConserves(cfg: Config, s: State, ev: Event)
    requires UniqueKeys(s.lru)
    ensures Gap(Step(cfg, s, ev)) ==
            if ev.Arrive? && ev.req.op.FlushAll? then 0 else Gap(s) + SelfEvicted(cfg, s, ev)
  {
    if ev.Arrive? {
      match ev.req.op
      case Set | Add | Replace | Cas => StoreConserves(cfg, s, ev.req, ev.clk);
      case Append | Prepend => AppendConserves(cfg, s, ev.req, ev.clk);
      case Get | Touch | Incr | Decr | Delete => QuietConserves(cfg, s, ev.req, ev.clk);
      case FlushAll | Stats | Other =>
    }
  }

  lemma {:induction false} RunKeepsKeysUnique(cfg: Config, s: State, evs: seq<Event>)
    requires UniqueKeys(s.lru)
    ensures UniqueKeys(Run(cfg, s, evs).lru)
  {
    if evs != [] {
      var prefix := evs[..|evs| - 1];
      RunKeepsKeysUnique(cfg, s, prefix);
      OtherKeys(cfg, Run(cfg, s, prefix), evs[|evs| - 1], []);
    }
  }

  /**
    Over any run from an empty shard, the bytes stored exceed the bytes counted by exactly what was
    lost to self-eviction since the last flush. So the count never exceeds the truth.
   */
  lemma {:induction false} Conservation(cfg: Config, s: State, evs: seq<Event>)
    requires s.lru == [] && s.used == 0
    ensures var t := Run(cfg, s, evs);
            Gap(t) == Lost(cfg, s, evs) && t.used <= Total(t.lru)
  {
    if evs != [] {
      var prefix := evs[..|evs| - 1];
      Conservation(cfg, s, prefix);
      RunKeepsKeysUnique(cfg, s, prefix);
      StepConserves(cfg, Run(cfg, s, prefix), evs[|evs| - 1]);
    }
  }

  /** What the statistics say after any run from an empty shard: the keys stored, and the bytes but for those lost. */
  lemma StatsReported(cfg: Config, s: State, evs: seq<Event>, r: Request, clk: Clock)
    requires s.lru == [] && s.used == 0 && r.op.Stats?
    ensures var t := Run(cfg, s, evs);
            var (t', answer) := Handle(cfg, t, r, clk);
            && t' == t && answer.stats.Some?
            && answer.stats.value.currItems == |t.lru|
            && answer.stats.value.bytes == Total(t.lru) - Lost(cfg, s, evs)
            && answer.stats.value.evictions == t.evictions
  {
    Conservation(cfg, s, evs);
  }

  /**
    A write evicts its own entry exactly when dropping every entry older than it does not make
    enough room.
   */
  lemma SelfEvictionWhen(cfg: Config, s: State, needed: int, i: nat)
    requires UniqueKeys(s.lru) && i < |s.lru| && needed > 0 && cfg.maxMemory > 0
    ensures Find(MakeRoom(cfg, s, needed).lru, s.lru[i].key).None? <==>
            s.used - Total(s.lru[..i]) + needed > cfg.maxMemory
  {
    EvictIsShortestPrefix(cfg, s, needed);
    var n := EvictCount(cfg, s, needed);
    FindInSuffix(s.lru, n, s.lru[i].key);
    FindAt(s.lru, i);
    FindPresent(s.lru[..n], s.lru[i].key);
    if i < n {
      assert s.lru[..n][i].key == s.lru[i].key;
    } else {
      assert s.lru[..i] == s.lru[..n] + s.lru[n..i];
      TotalConcat(s.lru[..n], s.lru[n..i]);
    }
  }

  // ---------- The limit ----------

  ghost predicate WithinLimit(cfg: Config, s: State) {
    s.used <= cfg.maxMemory || |s.lru| <= 1
  }

  /** How much an increment would lengthen the number; 0 if it stores nothing. */
  function IncrGrowth(s: State, r: Request, now: nat): int {
    var found := Lookup(s, r.key, now);
    if found.None? then 0
    else
      var current := Decimal.ParseUint(found.value.value, TWO_TO_THE_64);
      if current.None? then 0
      else |Decimal.Format(Arith(current.value, r.delta, true))| - |found.value.value|
  }

  /**
    What a caller must check for the limit to survive a request. Increments do not evict, so they
    must fit. An empty value under an empty key weighs nothing, so it must not be the second entry
    of a shard whose only entry is over the limit.
   */
  predicate Fits(cfg: Config, s: State, ev: Event) {
    ev.Arrive? ==>
      && (ev.req.op.Incr? ==> s.used + IncrGrowth(s, ev.req, ev.clk.check) <= cfg.maxMemory || |s.lru| <= 1)
      && (ev.req.op.Set? || ev.req.op.Add? ==>
            ev.req.key != [] || ev.req.value != [] || Find(s.lru, []).Some? || s.used <= cfg.maxMemory || s.lru == [])
  }

  lemma RoomFits(cfg: Config, s: State, needed: int)
    requires cfg.maxMemory > 0 && needed > 0
    ensures var room := MakeRoom(cfg, s, needed); room.used + needed <= cfg.maxMemory || room.lru == []
  {
    EvictIsShortestPrefix(cfg, s, needed);
  }

  lemma SetKeepsLimit(cfg: Config, s: State, k: Key, v: Bytes, ttl: int, now: nat)
    requires UniqueKeys(s.lru) && cfg.maxMemory > 0 && WithinLimit(cfg, s)
    ensures WithinLimit(cfg, DoSet(cfg, s, k, v, ttl, now).0) <==>
            k != [] || v != [] || Find(s.lru, k).Some? || s.used <= cfg.maxMemory || s.lru == []
  {
    var growth := |k| + |v| - SizeAt(s.lru, k);
    if growth > 0 {
      RoomFits(cfg, s, growth);
    }
    var n := RoomIsSuffix(cfg, s, growth);
    PutKeeps(MakeRoom(cfg, s, growth).lru, SetEntry(cfg, s, k, v, ttl, now));
  }

  lemma ExtendKeepsLimit(cfg: Config, s: State, e: Entry, v: Bytes, prepend: bool)
    requires UniqueKeys(s.lru) && cfg.maxMemory > 0 && WithinLimit(cfg, s) && Find(s.lru, e.key) == Some(e)
    ensures WithinLimit(cfg, Extended(cfg, s, e, v, prepend).0)
  {
    if |v| > 0 {
      RoomFits(cfg, s, |v|);
    }
    var n := RoomIsSuffix(cfg, s, |v|);
    PutKeeps(MakeRoom(cfg, s, |v|).lru, Joined(e, v, prepend, NextCas(s.casCounter)));
  }

  /** A decrement never prints longer than what it replaces. */
  lemma DecrShrinks(e: Entry, current: uint64, delta: uint64)
    requires Decimal.ParseUint(e.value, TWO_TO_THE_64) == Some(current)
    ensures |Decimal.Format(Arith(current, delta, false))| <= |e.value|
  {
    Decimal.FormatMonotone(Arith(current, delta, false), current);
    Decimal.FormatShortest(e.value);
  }

  lemma CountKeepsLimit(cfg: Config, s: State, r: Request, now: nat)
    requires UniqueKeys(s.lru) && cfg.maxMemory > 0 && WithinLimit(cfg, s) && (r.op.Incr? || r.op.Decr?)
    ensures WithinLimit(cfg, DoIncrDecr(s, r.key, r.delta, r.op.Incr?, now).0) <==>
            (r.op.Incr? ==> s.used + IncrGrowth(s, r, now) <= cfg.maxMemory || |s.lru| <= 1)
  {
    FindPresent(s.lru, r.key);
    var found := Lookup(s, r.key, now);
    if found.Some? {
      var e := found.value;
      var current := Decimal.ParseUint(e.value, TWO_TO_THE_64);
      if current.Some? {
        var text := Decimal.Format(Arith(current.value, r.delta, r.op.Incr?));
        PutKeeps(s.lru, e.(value := text, cas := NextCas(s.casCounter)));
        if r.op.Decr? {
          DecrShrinks(e, current.value, r.delta);
        }
      }
    }
  }

  lemma {:induction false} UnexpiredShrinks(s: seq<Entry>, now: nat)
    ensures |Unexpired(s, now)| <= |s| && Total(Unexpired(s, now)) <= Total(s)
  {
    if s != [] {
      UnexpiredShrinks(s[1..], now);
      TotalConcat(if Expired(s[0], now) then [] else [s[0]], Unexpired(s[1..], now));
    }
  }

  /** A step keeps the limit if and only if it fits. */
  lemma StepKeepsLimit(cfg: Config, s: State, ev: Event)
    requires UniqueKeys(s.lru) && cfg.maxMemory > 0 && WithinLimit(cfg, s)
    ensures WithinLimit(cfg, Step(cfg, s, ev)) <==> Fits(cfg, s, ev)
  {
    match ev
    case Tick(now) => UnexpiredShrinks(s.lru, now);
    case Arrive(r, clk) =>
      FindPresent(s.lru, r.key);
      var found := Find(s.lru, r.key);
      match r.op
      case Set | Add | Replace | Cas => SetKeepsLimit(cfg, s, r.key, r.value, r.ttl, clk.store);
      case Append | Prepend => if found.Some? { ExtendKeepsLimit(cfg, s, found.value, r.value, r.op.Prepend?); }
      case Incr | Decr => CountKeepsLimit(cfg, s, r, clk.check);
      case Get =>
        WithoutKeeps(s.lru, r.key);
        if found.Some? { PutKeeps(s.lru, Seen(found.value, clk.check)); }
      case Touch =>
        if found.Some? { PutKeeps(s.lru, Touched(cfg, found.value, r.ttl, clk.store, NextCas(s.casCounter))); }
      case Delete => WithoutKeeps(s.lru, r.key);
      case FlushAll | Stats | Other =>
  }

  /** The limit holds at the start of a run and after each of its steps. */
  ghost predicate AlwaysWithin(cfg: Config, s: State, evs: seq<Event>) {
    WithinLimit(cfg, Run(cfg, s, evs)) && (evs != [] ==> AlwaysWithin(cfg, s, evs[..|evs| - 1]))
  }

  /** Each step of a run fits the state it starts from. */
  predicate AlwaysFits(cfg: Config, s: State, evs: seq<Event>) {
    evs != [] ==>
      var prefix := evs[..|evs| - 1];
      AlwaysFits(cfg, s, prefix) && Fits(cfg, Run(cfg, s, prefix), evs[|evs| - 1])
  }

  /**
    Over any run from an empty shard with a limit, the count stays within the limit, or a single
    entry is left, after every step if and only if every step fits.
   */
  lemma {:induction false} LimitOverRun(cfg: Config, s: State, evs: seq<Event>)
    requires s.lru == [] && cfg.maxMemory > 0
    ensures AlwaysWithin(cfg, s, evs) <==> AlwaysFits(cfg, s, evs)
  {
    if evs != [] {
      var prefix := evs[..|evs| - 1];
      LimitOverRun(cfg, s, prefix);
      RunKeepsKeysUnique(cfg, s, prefix);
      if AlwaysWithin(cfg, s, prefix) {
        StepKeepsLimit(cfg, Run(cfg, s, prefix), evs[|evs| - 1]);
      }
    }
  }

  // ---------- The bytes really stored ----------

  /** The bytes stored are within the limit, or a single entry is left. */
  ghost predicate StoredWithin(cfg: Config, s: State) {
    Total(s.lru) <= cfg.maxMemory || |s.lru| <= 1
  }

  /** How many entries a write that needs this much room evicts. */
  function Evicted(cfg: Config, s: State, needed: int): (n: nat)
    ensures n <= |s.lru|
  {
    EvictIsShortestPrefix(cfg, s, needed);
    if needed > 0 && cfg.maxMemory > 0 then EvictCount(cfg, s, needed) else 0
  }

  /**
    A write that evicts `n` entries fits if nothing but its own key is left, or if the bytes stored,
    less those of the evicted entries, plus its growth, plus its own old entry in case that is among
    the evicted, are within the limit.
   */
  predicate WriteFits(cfg: Config, s: State, k: Key, growth: int, n: nat)
    requires n <= |s.lru|
  {
    || Without(s.lru[n..], k) == []
    || Total(s.lru) - Total(s.lru[..n]) + growth + SizeAt(s.lru[..n], k) <= cfg.maxMemory
  }

  /** What a caller must check for the bytes stored to stay within the limit. */
  predicate StoredFits(cfg: Config, s: State, ev: Event) {
    ev.Arrive? ==>
      && (MakesRoom(s, ev.req, ev.clk) ==>
            WriteFits(cfg, s, ev.req.key, Growth(s, ev.req), Evicted(cfg, s, Growth(s, ev.req))))
      && (ev.req.op.Incr? ==> Total(s.lru) + IncrGrowth(s, ev.req, ev.clk.check) <= cfg.maxMemory || |s.lru| <= 1)
  }

  lemma RoomIs(cfg: Config, s: State, needed: int)
    ensures MakeRoom(cfg, s, needed) == DropPrefix(s, Evicted(cfg, s, needed))
  {
    EvictIsShortestPrefix(cfg, s, needed);
    assert s.lru[..0] == [] && s.lru[0..] == s.lru;
  }

  /** A shard's entries, in its oldest `n` and the rest. */
  lemma Halves(s: seq<Entry>, n: nat, k: Key)
    requires UniqueKeys(s) && n <= |s|
    ensures Total(s) == Total(s[..n]) + Total(s[n..]) && SizeAt(s, k) == SizeAt(s[..n], k) + SizeAt(s[n..], k)
    ensures UniqueKeys(s[n..])
  {
    FindInSuffix(s, n, k);
    FindInConcat(s[..n], s[n..], k);
    assert s == s[..n] + s[n..];
  }

  lemma PutTotals(s: seq<Entry>, e: Entry)
    requires UniqueKeys(s)
    ensures Total(Put(s, e)) == Total(s) - SizeAt(s, e.key) + Size(e)
    ensures |Put(s, e)| <= 1 <==> Without(s, e.key) == []
  {
    PutKeeps(s, e);
  }

  /** A write keeps the bytes stored within the limit if and only if it fits, whatever the count says. */
  lemma WriteKeepsStored(cfg: Config, s: State, e: Entry, growth: int)
    requires UniqueKeys(s.lru) && Size(e) == growth + SizeAt(s.lru, e.key)
    ensures StoredWithin(cfg, Write(MakeRoom(cfg, s, growth), e, growth)) <==>
            WriteFits(cfg, s, e.key, growth, Evicted(cfg, s, growth))
  {
    RoomIs(cfg, s, growth);
    var n := Evicted(cfg, s, growth);
    Halves(s.lru, n, e.key);
    PutTotals(s.lru[n..], e);
  }

  lemma SetKeepsStored(cfg: Config, s: State, r: Request, now: nat)
    requires UniqueKeys(s.lru) && !r.op.Append? && !r.op.Prepend?
    ensures StoredWithin(cfg, DoSet(cfg, s, r.key, r.value, r.ttl, now).0) <==>
            WriteFits(cfg, s, r.key, Growth(s, r), Evicted(cfg, s, Growth(s, r)))
  {
    WriteKeepsStored(cfg, s, SetEntry(cfg, s, r.key, r.value, r.ttl, now), Growth(s, r));
  }

  lemma ExtendKeepsStored(cfg: Config, s: State, e: Entry, v: Bytes, prepend: bool)
    requires UniqueKeys(s.lru) && Find(s.lru, e.key) == Some(e)
    ensures StoredWithin(cfg, Extended(cfg, s, e, v, prepend).0) <==>
            WriteFits(cfg, s, e.key, |v|, Evicted(cfg, s, |v|))
  {
    WriteKeepsStored(cfg, s, Joined(e, v, prepend, NextCas(s.casCounter)), |v|);
  }

  lemma CountKeepsStored(cfg: Config, s: State, r: Request, now: nat)
    requires UniqueKeys(s.lru) && StoredWithin(cfg, s) && (r.op.Incr? || r.op.Decr?)
    ensures StoredWithin(cfg, DoIncrDecr(s, r.key, r.delta, r.op.Incr?, now).0) <==>
            (r.op.Incr? ==> Total(s.lru) + IncrGrowth(s, r, now) <= cfg.maxMemory || |s.lru| <= 1)
  {
    FindPresent(s.lru, r.key);
    var found := Lookup(s, r.key, now);
    if found.Some? {
      var e := found.value;
      var current := Decimal.ParseUint(e.value, TWO_TO_THE_64);
      if current.Some? {
        var text := Decimal.Format(Arith(current.value, r.delta, r.op.Incr?));
        PutKeeps(s.lru, e.(value := text, cas := NextCas(s.casCounter)));
        if r.op.Decr? {
          DecrShrinks(e, current.value, r.delta);
        }
      }
    }
  }

  /** Requests that store no new value. */
  lemma QuietKeepsStored(cfg: Config, s: State, r: Request, clk: Clock)
    requires UniqueKeys(s.lru) && StoredWithin(cfg, s)
    requires r.op.Get? || r.op.Touch? || r.op.Delete? || r.op.FlushAll? || r.op.Stats? || r.op.Other?
    ensures StoredWithin(cfg, Handle(cfg, s, r, clk).0)
  {
    FindPresent(s.lru, r.key);
    WithoutKeeps(s.lru, r.key);
    var found := Find(s.lru, r.key);
    if found.Some? {
      PutKeeps(s.lru, Seen(found.value, clk.check));
      PutKeeps(s.lru, Touched(cfg, found.value, r.ttl, clk.store, NextCas(s.casCounter)));
    }
  }

  lemma RefusedKeepsStored(cfg: Config, s: State, r: Request, clk: Clock)
    requires UniqueKeys(s.lru) && !MakesRoom(s, r, clk)
    requires r.op.Set? || r.op.Add? || r.op.Replace? || r.op.Cas? || r.op.Append? || r.op.Prepend?
    ensures Handle(cfg, s, r, clk).0 == s
  {
  }

  lemma StoreKeepsStored(cfg: Config, s: State, r: Request, clk: Clock)
    requires UniqueKeys(s.lru) && StoredWithin(cfg, s) && (r.op.Set? || r.op.Add? || r.op.Replace? || r.op.Cas?)
    ensures StoredWithin(cfg, Handle(cfg, s, r, clk).0) <==> StoredFits(cfg, s, Arrive(r, clk))
  {
    if MakesRoom(s, r, clk) {
      SetKeepsStored(cfg, s, r, clk.store);
    } else {
      RefusedKeepsStored(cfg, s, r, clk);
    }
  }

  lemma AppendKeepsStored(cfg: Config, s: State, r: Request, clk: Clock)
    requires UniqueKeys(s.lru) && StoredWithin(cfg, s) && (r.op.Append? || r.op.Prepend?)
    ensures StoredWithin(cfg, Handle(cfg, s, r, clk).0) <==> StoredFits(cfg, s, Arrive(r, clk))
  {
    if MakesRoom(s, r, clk) {
      FindPresent(s.lru, r.key);
      ExtendKeepsStored(cfg, s, Find(s.lru, r.key).value, r.value, r.op.Prepend?);
    } else {
      RefusedKeepsStored(cfg, s, r, clk);
    }
  }

  /** A step keeps the bytes stored within the limit if and only if it fits. */
  lemma StepKeepsStored(cfg: Config, s: State, ev: Event)
    requires UniqueKeys(s.lru) && cfg.maxMemory > 0 && StoredWithin(cfg, s)
    ensures StoredWithin(cfg, Step(cfg, s, ev)) <==> StoredFits(cfg, s, ev)
  {
    match ev
    case Tick(now) => UnexpiredShrinks(s.lru, now);
    case Arrive(r, clk) =>
      match r.op
      case Set | Add | Replace | Cas => StoreKeepsStored(cfg, s, r, clk);
      case Append | Prepend => AppendKeepsStored(cfg, s, r, clk);
      case Incr | Decr => CountKeepsStored(cfg, s, r, clk.check);
      case Get | Touch | Delete | FlushAll | Stats | Other => QuietKeepsStored(cfg, s, r, clk);
  }

  /** The bytes stored are within the limit at the start of a run and after each of its steps. */
  ghost predicate AlwaysStoredWithin(cfg: Config, s: State, evs: seq<Event>) {
    StoredWithin(cfg, Run(cfg, s, evs)) && (evs != [] ==> AlwaysStoredWithin(cfg, s, evs[..|evs| - 1]))
  }

  predicate AlwaysStoredFits(cfg: Config, s: State, evs: seq<Event>) {
    evs != [] ==>
      var prefix := evs[..|evs| - 1];
      AlwaysStoredFits(cfg, s, prefix) && StoredFits(cfg, Run(cfg, s, prefix), evs[|evs| - 1])
  }

  /**
    Over any run from an empty shard with a limit, the bytes really stored stay within the limit, or a
    single entry is left, after every step if and only if every step fits.
   */
  lemma {:induction false} StoredLimitOverRun(cfg: Config, s: State, evs: seq<Event>)
    requires s.lru == [] && cfg.maxMemory > 0
    ensures AlwaysStoredWithin(cfg, s, evs) <==> AlwaysStoredFits(cfg, s, evs)
  {
    if evs != [] {
      var prefix := evs[..|evs| - 1];
      StoredLimitOverRun(cfg, s, prefix);
      RunKeepsKeysUnique(cfg, s, prefix);
      if AlwaysStoredWithin(cfg, s, prefix) {
        StepKeepsStored(cfg, Run(cfg, s, prefix), evs[|evs| - 1]);
      }
    }
  }

  /** As long as no write has evicted its own key, the two limits are one. */
  lemma NothingLostNothingHidden(cfg: Config, s: State, evs: seq<Event>)
    requires s.lru == [] && s.used == 0 && Lost(cfg, s, evs) == 0
    ensures StoredWithin(cfg, Run(cfg, s, evs)) <==> WithinLimit(cfg, Run(cfg, s, evs))
  {
    Conservation(cfg, s, evs);
  }

  /** The count falls below zero exactly when more was lost to self-eviction than is stored. */
  lemma NegativeWhen(cfg: Config, s: State, evs: seq<Event>)
    requires s.lru == [] && s.used == 0
    ensures Run(cfg, s, evs).used < 0 <==> Lost(cfg, s, evs) > Total(Run(cfg, s, evs).lru)
  {
    Conservation(cfg, s, evs);
  }

  // ---------- Runs that break the limit ----------

  const EMPTY: State := State([], 0, 0, 0)

  lemma RunOfThree(cfg: Config, s: State, a: Event, b: Event, c: Event)
    ensures Run(cfg, s, [a]) == Step(cfg, s, a)
    ensures Run(cfg, s, [a, b]) == Step(cfg, Step(cfg, s, a), b)
    ensures Run(cfg, s, [a, b, c]) == Step(cfg, Step(cfg, Step(cfg, s, a), b), c)
  {
    assert [a, b, c][..2] == [a, b] && [a, b][..1] == [a] && [a][..0] == [];
  }

  function SetOf(k: Key, v: Bytes): Event {
    Arrive(Request(Set, k, v, 0, 0, 0), Clock(0, 0))
  }

  lemma NineAndTen()
    ensures Decimal.ParseUint([57], TWO_TO_THE_64) == Some(9) && Decimal.Format(Arith(9, 1, true)) == [49, 48]
  {
    var nine: Bytes := [57];
    assert nine[..0] == [] && Decimal.Value(nine) == 9;
    assert Decimal.Format(1) == [49];
  }

  /** A set of a new key that fits adds its entry and evicts nothing. */
  lemma NewKeySet(cfg: Config, s: State, e: Entry)
    requires cfg.defaultTtl == 0 && s.used + Size(e) <= cfg.maxMemory && Find(s.lru, e.key).None?
    requires e == Entry(e.key, e.value, 0, 0, NextCas(s.casCounter), false)
    ensures Step(cfg, s, SetOf(e.key, e.value)) == State(s.lru + [e], e.cas, s.used + Size(e), s.evictions)
  {
    FindPresent(s.lru, e.key);
    FindAbsent(s.lru, e.key);
    assert MakeRoom(cfg, s, Size(e)) == s;
  }

  lemma TwoEntries(a: Entry, b: Entry)
    requires a.key != b.key
    ensures Find([a], b.key).None? && Find([a, b], a.key) == Some(a) && UniqueKeys([a, b]) && [a] + [b] == [a, b]
    ensures Total([a, b]) == Size(a) + Size(b)
  {
    assert [a] + [b] == [a, b];
    FindInConcat([a], [b], a.key);
    TotalConcat([a], [b]);
    assert [a][1..] == [] && [b][1..] == [];
  }

  /** An increment of nine by one stores ten. */
  lemma NineIncremented(cfg: Config, s: State, e: Entry, incr: Event)
    requires UniqueKeys(s.lru) && Find(s.lru, e.key) == Some(e) && e.value == [57] && e.hard == 0
    requires incr == Arrive(Request(Incr, e.key, [], 0, 0, 1), Clock(0, 0))
    ensures Step(cfg, s, incr).used == s.used + 1 && |Step(cfg, s, incr).lru| == |s.lru|
  {
    NineAndTen();
    PutKeeps(s.lru, e.(value := [49, 48], cas := NextCas(s.casCounter)));
    assert Handle(cfg, s, incr.req, incr.clk) == Counted(s, e, 1, true);
  }

  /** Two sets within the limit fill an empty shard. */
  lemma TwoSets(cfg: Config, a: Entry, b: Entry)
    requires cfg.defaultTtl == 0 && cfg.maxMemory == Size(a) + Size(b) && a.key != b.key
    requires a == Entry(a.key, a.value, 0, 0, 1, false) && b == Entry(b.key, b.value, 0, 0, 2, false)
    ensures Step(cfg, Step(cfg, EMPTY, SetOf(a.key, a.value)), SetOf(b.key, b.value))
            == State([a, b], 2, Size(a) + Size(b), 0)
  {
    NewKeySet(cfg, EMPTY, a);
    assert EMPTY.lru + [a] == [a];
    TwoEntries(a, b);
    NewKeySet(cfg, State([a], 1, Size(a), 0), b);
  }

  /** A shard filled by two sets, and an increment of the first. */
  lemma FilledThenIncremented(a: Entry, b: Entry) returns (cfg: Config, evs: seq<Event>)
    requires a.key != b.key && a.value == [57]
    requires a == Entry(a.key, a.value, 0, 0, 1, false) && b == Entry(b.key, b.value, 0, 0, 2, false)
    ensures |evs| == 3 && evs[2].Arrive? && evs[2].req.op.Incr? && cfg.maxMemory > 0
    ensures Run(cfg, EMPTY, evs[..2]).used == Total(Run(cfg, EMPTY, evs[..2]).lru) == cfg.maxMemory
    ensures Run(cfg, EMPTY, evs).used == cfg.maxMemory + 1 && |Run(cfg, EMPTY, evs).lru| == 2
  {
    cfg := Config(0, 0.0, Size(a) + Size(b));
    evs := [SetOf(a.key, a.value), SetOf(b.key, b.value), Arrive(Request(Incr, a.key, [], 0, 0, 1), Clock(0, 0))];
    TwoSets(cfg, a, b);
    TwoEntries(a, b);
    NineIncremented(cfg, State([a, b], 2, Size(a) + Size(b), 0), a, evs[2]);
    assert evs[..2] == [evs[0], evs[1]];
    RunOfThree(cfg, EMPTY, evs[0], evs[1], evs[2]);
  }

  /** From an empty shard, two sets within the limit and an increment that takes the count past it. */
  lemma IncrBreaksLimit() returns (cfg: Config, evs: seq<Event>)
    ensures |evs| == 3 && evs[2].Arrive? && evs[2].req.op.Incr? && cfg.maxMemory > 0
    ensures Run(cfg, EMPTY, evs[..2]).used == Total(Run(cfg, EMPTY, evs[..2]).lru) == cfg.maxMemory
    ensures Run(cfg, EMPTY, evs).used > cfg.maxMemory && |Run(cfg, EMPTY, evs).lru| == 2
  {
    var k: Key, j: Key := [1], [2];
    assert k[0] != j[0];
    cfg, evs := FilledThenIncremented(Entry(k, [57], 0, 0, 1, false), Entry(j, [0], 0, 0, 2, false));
  }

  /** A value that fills the shard, overwritten with one that is a byte longer: one byte is counted. */
  lemma Overwritten(cfg: Config, k: Key, v: Bytes, w: Bytes)
    requires cfg.defaultTtl == 0 && 0 < cfg.maxMemory <= |k| + |v| && |w| == |v| + 1
    ensures Step(cfg, Step(cfg, EMPTY, SetOf(k, v)), SetOf(k, w)) == State([Entry(k, w, 0, 0, 2, false)], 2, 1, 1)
  {
    var a, n := Entry(k, v, 0, 0, 1, false), |k| + |v|;
    assert MakeRoom(cfg, EMPTY, n) == EMPTY;
    var one := Step(cfg, EMPTY, SetOf(k, v));
    assert one == State([a], 1, n, 0);
    assert DropOldest(one) == State([], 1, 0, 1) && Find(one.lru, k) == Some(a);
    assert Evict(cfg, one, 1) == Evict(cfg, DropOldest(one), 1);
  }

  /**
    The bytes stored have no bound under a limit: from an empty shard, an overwrite that evicts its own
    entry, and another set, leave two entries that exceed the limit by as much as one likes, counted
    as two bytes. The last step evicts nothing and fits by the count.
   */
  lemma ExcessIsUnbounded(limit: nat, excess: nat) returns (cfg: Config, evs: seq<Event>)
    requires limit >= 2
    ensures |evs| == 3 && cfg.maxMemory == limit
    ensures var before := Run(cfg, EMPTY, evs[..2]);
            StoredWithin(cfg, before) && WithinLimit(cfg, before) && Fits(cfg, before, evs[2])
    ensures var t := Run(cfg, EMPTY, evs); |t.lru| == 2 && Total(t.lru) > limit + excess && t.used == 2
  {
    var k: Key, j: Key, v: Bytes, w: Bytes := [1], [2], seq(limit + excess, _ => 0), seq(limit + excess + 1, _ => 0);
    cfg := Config(0, 0.0, limit);
    evs := [SetOf(k, v), SetOf(k, w), SetOf(j, [])];
    RunOfThree(cfg, EMPTY, evs[0], evs[1], evs[2]);
    assert evs[..2] == [evs[0], evs[1]] && k[0] != j[0];
    Overwritten(cfg, k, v, w);
    var b, c := Entry(k, w, 0, 0, 2, false), Entry(j, [], 0, 0, 3, false);
    TwoEntries(b, c);
    NewKeySet(cfg, State([b], 2, 1, 1), c);
  }

  /** And the count has no lower bound: after a delete the shard is empty and owes what it lost. */
  lemma CountBelowZero(limit: nat, debt: nat) returns (cfg: Config, evs: seq<Event>)
    requires limit >= 1
    ensures |evs| == 3 && cfg.maxMemory == limit && evs[2].Arrive? && evs[2].req.op.Delete?
    ensures Run(cfg, EMPTY, evs).lru == [] && Run(cfg, EMPTY, evs).used + debt < 0
  {
    var k: Key, v: Bytes, w: Bytes := [1], seq(limit + debt, _ => 0), seq(limit + debt + 1, _ => 0);
    cfg := Config(0, 0.0, limit);
    evs := [SetOf(k, v), SetOf(k, w), Arrive(Request(Delete, k, [], 0, 0, 0), Clock(0, 0))];
    RunOfThree(cfg, EMPTY, evs[0], evs[1], evs[2]);
    Overwritten(cfg, k, v, w);
    assert Without([Entry(k, w, 0, 0, 2, false)], k) == [];
  }
}
