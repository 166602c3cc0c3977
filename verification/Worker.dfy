/**
  One worker: the requests it serves, the timer sweep and the eviction loop.

  Every method is proved to compute the function of Shard.dfy with its name. The contracts also say
  that no byte array that existed before a call is written by it, and that an entry's value is
  always in an array the worker allocated itself.
 */
module Workers {
  import opened Basics
  import opened Indexing
  import Decimal
  import Lru
  import Shard
  import ShardFacts

  /** A Go byte slice: part of an array that others may hold too. */
  datatype Slice = Slice(data: array<byte>, lo: nat, hi: nat) {
    predicate Ok() {
      lo <= hi <= data.Length
    }

    ghost function Content(): Bytes
      requires Ok()
      reads data
    {
      data[lo..hi]
    }
  }

  datatype Request = Request(op: Shard.Op, key: Key, value: Slice, ttl: int, cas: uint64, delta: uint64) {
    ghost function View(): Shard.Request
      requires value.Ok()
      reads value.data
    {
      Shard.Request(op, key, value.Content(), ttl, cas, delta)
    }
  }

  /** The value is the array itself, null when there is none. */
  datatype Response = Response(value: array?<byte>, cas: uint64, flags: int, err: Shard.Error,
                               stats: Option<Shard.StatsReport>) {
    ghost function View(): Shard.Response
      reads value
    {
      Shard.Response(if value == null then [] else value[..], cas, flags, err, stats)
    }
  }

  function Fail(err: Shard.Error): Response {
    Response(null, 0, 0, err, None)
  }

  function Stored(cas: uint64): Response {
    Response(null, cas, 0, Shard.NoError, None)
  }

  method CopyOf(s: Slice) returns (copy: array<byte>)
    requires s.Ok()
    ensures fresh(copy) && copy[..] == s.Content()
  {
    copy := new byte[s.hi - s.lo];
    forall i | 0 <= i < copy.Length {
      copy[i] := s.data[s.lo + i];
    }
  }

  method ArrayOf(s: Bytes) returns (a: array<byte>)
    ensures fresh(a) && a[..] == s
  {
    a := new byte[|s|];
    forall i | 0 <= i < |s| {
      a[i] := s[i];
    }
  }

  method Join(first: Slice, second: Slice) returns (joined: array<byte>)
    requires first.Ok() && second.Ok()
    ensures fresh(joined) && joined[..] == first.Content() + second.Content()
  {
    var n := first.hi - first.lo;
    joined := new byte[n + (second.hi - second.lo)];
    forall i | 0 <= i < n {
      joined[i] := first.data[first.lo + i];
    }
    forall i | n <= i < joined.Length {
      joined[i] := second.data[second.lo + i - n];
    }
  }

  class Worker {
    const config: Shard.Config
    var index: Index
    var casCounter: uint64
    var usedMemory: int
    var evictions: nat

    ghost predicate Valid()
      reads `index, index, index.items, set e | e in index.items :: e.value
      reads index.expiryHeap, index.expiryHeap.cells, index.lruList, index.lruList.root, index.lruList.members
    {
      index.Valid()
    }

    ghost function State(): Shard.State
      reads `index, `casCounter, `usedMemory, `evictions, index`order
    {
      Shard.State(index.order, casCounter, usedMemory, evictions)
    }

    constructor (config: Shard.Config, startTime: nat)
      ensures Valid() && State() == Shard.State([], startTime % TWO_TO_THE_64, 0, 0)
      ensures this.config == config && fresh(index) && fresh(index.expiryHeap) && fresh(index.lruList)
      ensures fresh(index.lruList.root)
      ensures index.items == {} && index.expiryHeap.cells == {} && index.lruList.members == {}
    {
      this.config := config;
      index := new Index();
      casCounter := startTime % TWO_TO_THE_64;
      usedMemory, evictions := 0, 0;
    }

    // ---------- Expiry and eviction ----------

    /** Deletes a key and gives back its memory. */
    method Drop(key: Key) returns (deleted: Lru.IndexEntry?)
      requires Valid()
      modifies `usedMemory, index, index.items`lruElem, index.items`view
      modifies index.expiryHeap, index.expiryHeap.cells
      modifies index.lruList, index.lruList.root, index.lruList.members
      ensures Valid() && index.Kept()
      ensures State() == Shard.HandleDelete(old(State()), key).0
      ensures deleted == null <==> Shard.Find(old(index.order), key) == None
      ensures forall e :: e in old(index.items) && e !in index.items ==> e.lruElem == null
    {
      deleted := index.Delete(key);
      if deleted != null {
        usedMemory := usedMemory - (|deleted.key| + deleted.value.Length);
      }
    }

    method ExpireKeys(now: nat)
      requires Valid()
      modifies `usedMemory, index, index.items`lruElem, index.items`view
      modifies index.expiryHeap, index.expiryHeap.cells
      modifies index.lruList, index.lruList.root, index.lruList.members
      ensures Valid() && index.Kept()
      ensures State() == Shard.Sweep(old(State()), now)
    {
      while true
        invariant Valid() && index.Kept()
        invariant Shard.Sweep(State(), now) == Shard.Sweep(old(State()), now)
        decreases |index.order|
      {
        var min := index.expiryHeap.PeekMin();
        if min == null || min.expiry > Shard.Millis(now) {
          NothingDue(now);
          break;
        }
        Due(min.key, now);
        var deleted := Drop(min.key);
      }
    }

    /** A key whose heap entry is due is in the index and past its hard expiry. */
    lemma Due(key: Key, now: nat)
      requires Valid() && key in index.expiryHeap.expiries && index.expiryHeap.expiries[key] <= Shard.Millis(now)
      ensures Shard.Find(index.order, key).Some? && Shard.Expired(Shard.Find(index.order, key).value, now)
      ensures var dropped := Shard.HandleDelete(State(), key).0;
              Shard.Sweep(dropped, now) == Shard.Sweep(State(), now) && |dropped.lru| < |index.order|
    {
      index.Located(index.data[key]);
      index.OrderIsUnique();
      ShardFacts.UnexpiredWithout(index.order, key, now);
      ShardFacts.WithoutKeeps(index.order, key);
    }

    lemma NothingDue(now: nat)
      requires Valid()
      requires forall k :: k in index.expiryHeap.expiries ==> index.expiryHeap.expiries[k] > Shard.Millis(now)
      ensures Shard.Sweep(State(), now) == State()
    {
      forall e | e in index.order
        ensures !Shard.Expired(e, now)
      {
        var i :| 0 <= i < |index.order| && index.order[i] == e;
        var entry := index.lruList.nodes[i].value;
        assert entry.lruElem.slot == i && Same(index.order[i], entry.view);
        assert entry.hard > 0 ==> entry.key in index.expiryHeap.expiries;
      }
      ShardFacts.NothingExpired(index.order, now);
    }

    /** Evicts the least recently used entry, if there is one. */
    method EvictOldest() returns (none: bool)
      requires Valid()
      modifies `usedMemory, `evictions, index, index.items`lruElem, index.items`view
      modifies index.expiryHeap, index.expiryHeap.cells
      modifies index.lruList, index.lruList.root, index.lruList.members
      ensures Valid() && index.Kept()
      ensures none == (old(State()).lru == [])
      ensures State() == if none then old(State()) else Shard.DropOldest(old(State()))
      ensures forall e :: e in old(index.items) && e !in index.items ==> e.lruElem == null
    {
      var oldest := index.GetOldest();
      if oldest == null {
        return true;
      }
      index.OrderIsUnique();
      ghost var before := State();
      ShardFacts.OldestDropped(before);
      var key := oldest.key;
      evictions := evictions + 1;
      assert Valid() == old(Valid());
      assert State() == before.(evictions := before.evictions + 1) && key == before.lru[0].key;
      var deleted := Drop(key);
      assert State() == Shard.DropOldest(before);
      none := false;
    }

    method EvictLru(needed: int)
      requires Valid()
      modifies `usedMemory, `evictions, index, index.items`lruElem, index.items`view
      modifies index.expiryHeap, index.expiryHeap.cells
      modifies index.lruList, index.lruList.root, index.lruList.members
      ensures Valid() && index.Kept()
      ensures State() == if config.maxMemory == 0 then old(State()) else Shard.Evict(config, old(State()), needed)
      ensures forall e :: e in old(index.items) && e !in index.items ==> e.lruElem == null
    {
      if config.maxMemory == 0 {
        return;
      }
      var none := false;
      while usedMemory + needed > config.maxMemory && !none
        invariant Valid() && index.Kept()
        invariant Shard.Evict(config, State(), needed) == Shard.Evict(config, old(State()), needed)
        invariant none ==> State().lru == []
        invariant forall e :: e in old(index.items) && e !in index.items ==> e.lruElem == null
        decreases |State().lru|, !none
      {
        none := EvictOldest();
      }
    }

    // ---------- Requests ----------

    /** The entry under a key, unless it is past its hard expiry. */
    method FindLive(key: Key, now: nat) returns (entry: Lru.IndexEntry?)
      requires Valid()
      ensures entry == null ==> Shard.Lookup(State(), key, now) == None
      ensures entry != null ==> entry in index.items && Shard.Lookup(State(), key, now) == Some(entry.Snapshot())
    {
      entry := index.Get(key);
      if entry != null && entry.hard > 0 && entry.hard <= Shard.Millis(now) {
        entry := null;
      }
    }

    /**
      Decides the freshness flag of a hit and marks a stale entry as being refreshed; the index may
      then be out of date at its key.
     */
    method MarkIfStale(entry: Lru.IndexEntry, now: nat) returns (flags: int)
      requires Valid() && entry in index.items
      modifies entry`refreshing
      ensures index.ValidExcept({entry.key}) && index.Timed({})
      ensures entry.Snapshot() == Shard.Seen(old(entry.Snapshot()), now)
      ensures flags == Shard.Flags(old(entry.Snapshot()), now)
    {
      flags := 0;
      if entry.soft > 0 && entry.soft <= Shard.Millis(now) {
        if !entry.refreshing {
          entry.refreshing := true;
          flags := 3;
        } else {
          flags := 1;
        }
      }
      index.StaysChained();
    }

    /** Serves a hit: decides the freshness flag and moves the entry to the most recently used end. */
    method Serve(entry: Lru.IndexEntry, now: nat) returns (r: Response)
      requires Valid() && entry in index.items
      modifies index, index.items`lruElem, index.items`view, index.items`refreshing
      modifies index.expiryHeap, index.expiryHeap.cells
      modifies index.lruList, index.lruList.root, index.lruList.members
      ensures Valid() && index.Kept()
      ensures State() == old(State()).(lru := Shard.Put(old(index.order), Shard.Seen(old(entry.Snapshot()), now)))
      ensures r.View() == Shard.Response(old(entry.value[..]), old(entry.cas), Shard.Flags(old(entry.Snapshot()), now),
                                         Shard.NoError, None)
      ensures entry in index.items && r.value == entry.value
    {
      var flags := MarkIfStale(entry, now);
      index.Touch(entry.key);
      r := Response(entry.value, entry.cas, flags, Shard.NoError, None);
    }

    method HandleGet(key: Key, now: nat) returns (r: Response)
      requires Valid()
      modifies `usedMemory, index, index.items`lruElem, index.items`view, index.items`refreshing
      modifies index.expiryHeap, index.expiryHeap.cells
      modifies index.lruList, index.lruList.root, index.lruList.members
      ensures Valid() && index.Kept()
      ensures State() == Shard.HandleGet(old(State()), key, now).0
      ensures r.View() == Shard.HandleGet(old(State()), key, now).1
      ensures if r.err == Shard.NoError then exists e :: e in old(index.items) && r.value == e.value
              else r.value == null
    {
      var entry := index.Get(key);
      if entry == null {
        return Fail(Shard.KeyNotFound);
      }
      if entry.hard > 0 && entry.hard <= Shard.Millis(now) {
        var deleted := Drop(key);
        return Fail(Shard.KeyNotFound);
      }
      r := Serve(entry, now);
    }

    /** The soft and hard expiry times of an entry stored or touched at `now`. */
    method ExpiryTimes(ttl: int, now: nat) returns (soft: nat, hard: nat)
      ensures soft == Shard.SoftExpiry(config, ttl, now) && hard == Shard.HardExpiry(config, ttl, now)
    {
      var t := ttl;
      if t == 0 && config.defaultTtl > 0 {
        t := config.defaultTtl;
      }
      soft, hard := 0, 0;
      if t > 0 {
        soft := Shard.Millis(now + t);
        if config.staleMultiplier > 0.0 {
          hard := Shard.Millis(now + (t as real * config.staleMultiplier).Floor);
        } else {
          hard := soft;
        }
      }
    }

    /** Evicts if the limit is on and `needed` more bytes call for it. */
    method MakeRoom(needed: int)
      requires Valid()
      modifies `usedMemory, `evictions, index, index.items`lruElem, index.items`view
      modifies index.expiryHeap, index.expiryHeap.cells
      modifies index.lruList, index.lruList.root, index.lruList.members
      ensures Valid() && index.Kept()
      ensures State() == Shard.MakeRoom(config, old(State()), needed)
      ensures forall e :: e in old(index.items) && e !in index.items ==> e.lruElem == null
    {
      if needed > 0 && config.maxMemory > 0 {
        EvictLru(needed);
      }
    }

    method NextCas() returns (cas: uint64)
      modifies `casCounter
      ensures casCounter == cas == Shard.NextCas(old(casCounter))
    {
      casCounter := (casCounter + 1) % TWO_TO_THE_64;
      cas := casCounter;
    }

    /** Stores a new or changed entry that carries the latest token. */
    method Store(entry: Lru.IndexEntry, additional: int)
      requires index.ValidExcept({entry.key}) && (entry in index.items || entry.lruElem == null)
      requires casCounter == entry.cas
      modifies `usedMemory, entry`lruElem, entry`view, index, index.items`lruElem, index.items`view
      modifies index.expiryHeap, index.expiryHeap.cells
      modifies index.lruList, index.lruList.root, index.lruList.members
      ensures Valid() && index.KeptBut({entry}) && entry in index.items
      ensures State() == Shard.Write(old(State()), old(entry.Snapshot()), additional)
    {
      ghost var e := entry.Snapshot();
      index.Set(entry);
      assert index.order == Shard.Put(old(index.order), e);
      usedMemory := usedMemory + additional;
    }

    /** A new entry with the next token and its own copy of the value, not yet in the index. */
    method NewEntry(key: Key, value: Slice, soft: nat, hard: nat) returns (entry: Lru.IndexEntry)
      requires Valid() && value.Ok()
      modifies `casCounter
      ensures Valid() && index.ValidExcept({key}) && casCounter == entry.cas == Shard.NextCas(old(casCounter))
      ensures fresh(entry) && fresh(entry.value) && entry.lruElem == null && entry.key == key
      ensures entry.Snapshot() == Shard.Entry(key, old(value.Content()), soft, hard, casCounter, false)
      ensures State() == old(State()).(casCounter := entry.cas)
    {
      var cas := NextCas();
      var copy := CopyOf(value);
      entry := new Lru.IndexEntry(key, copy, soft, hard, cas);
      index.StaysChained();
      index.ValidIsEnough({key});
    }

    /** Stores a new entry with the next token. */
    method StoreNew(key: Key, value: Slice, soft: nat, hard: nat, additional: int)
      returns (cas: uint64, ghost entry: Lru.IndexEntry)
      requires Valid() && value.Ok()
      modifies `casCounter, `usedMemory, index, index.items`lruElem, index.items`view
      modifies index.expiryHeap, index.expiryHeap.cells
      modifies index.lruList, index.lruList.root, index.lruList.members
      ensures Valid() && index.KeptBut({entry}) && fresh(entry) && fresh(entry.value)
      ensures cas == Shard.NextCas(old(casCounter))
      ensures var e := Shard.Entry(key, old(value.Content()), soft, hard, cas, false);
              State() == Shard.Write(old(State()), e, additional)
    {
      ghost var content := value.Content();
      var e := NewEntry(key, value, soft, hard);
      cas, entry := casCounter, e;
      assert e.Snapshot() == Shard.Entry(key, content, soft, hard, cas, false);
      Store(e, additional);
    }

    /** Measures an overwrite against the entry it replaces and makes room for the difference. */
    method MakeRoomFor(key: Key, entrySize: nat) returns (additional: int)
      requires Valid()
      modifies `usedMemory, `evictions, index, index.items`lruElem, index.items`view
      modifies index.expiryHeap, index.expiryHeap.cells
      modifies index.lruList, index.lruList.root, index.lruList.members
      ensures Valid() && index.Kept() && additional == entrySize - Shard.SizeAt(old(State()).lru, key)
      ensures State() == Shard.MakeRoom(config, old(State()), additional)
    {
      var oldSize := 0;
      var existing := index.Get(key);
      if existing != null {
        oldSize := |existing.key| + existing.value.Length;
      }
      additional := entrySize - oldSize;
      MakeRoom(additional);
    }

    method DoSet(key: Key, value: Slice, ttl: int, now: nat) returns (r: Response, ghost added: set<Lru.IndexEntry>)
      requires Valid() && value.Ok()
      modifies `casCounter, `usedMemory, `evictions, index, index.items`lruElem, index.items`view
      modifies index.expiryHeap, index.expiryHeap.cells
      modifies index.lruList, index.lruList.root, index.lruList.members
      ensures Valid() && index.KeptBut(added) && forall e :: e in added ==> fresh(e) && fresh(e.value)
      ensures (State(), r.View()) == Shard.DoSet(config, old(State()), key, old(value.Content()), ttl, now)
      ensures r.value == null
    {
      ghost var before, content := State(), value.Content();
      var soft, hard := ExpiryTimes(ttl, now);
      var additional := MakeRoomFor(key, |key| + (value.hi - value.lo));
      ShardFacts.DoSetIs(config, before, key, content, ttl, now, additional, State());
      assert value.Content() == content;
      var cas, entry := StoreNew(key, value, soft, hard, additional);
      r, added := Stored(cas), {entry};
    }

    method HandleAdd(key: Key, value: Slice, ttl: int, clk: Shard.Clock)
      returns (r: Response, ghost added: set<Lru.IndexEntry>)
      requires Valid() && value.Ok()
      modifies `casCounter, `usedMemory, `evictions, index, index.items`lruElem, index.items`view
      modifies index.expiryHeap, index.expiryHeap.cells
      modifies index.lruList, index.lruList.root, index.lruList.members
      ensures Valid() && index.KeptBut(added) && forall e :: e in added ==> fresh(e) && fresh(e.value)
      ensures (State(), r.View()) == Shard.HandleAdd(config, old(State()), key, old(value.Content()), ttl, clk)
      ensures r.value == null
    {
      var entry := FindLive(key, clk.check);
      if entry != null {
        return Fail(Shard.KeyExists), {};
      }
      r, added := DoSet(key, value, ttl, clk.store);
    }

    method HandleReplace(key: Key, value: Slice, ttl: int, clk: Shard.Clock)
      returns (r: Response, ghost added: set<Lru.IndexEntry>)
      requires Valid() && value.Ok()
      modifies `casCounter, `usedMemory, `evictions, index, index.items`lruElem, index.items`view
      modifies index.expiryHeap, index.expiryHeap.cells
      modifies index.lruList, index.lruList.root, index.lruList.members
      ensures Valid() && index.KeptBut(added) && forall e :: e in added ==> fresh(e) && fresh(e.value)
      ensures (State(), r.View()) == Shard.HandleReplace(config, old(State()), key, old(value.Content()), ttl, clk)
      ensures r.value == null
    {
      var entry := FindLive(key, clk.check);
      if entry == null {
        return Fail(Shard.KeyNotFound), {};
      }
      r, added := DoSet(key, value, ttl, clk.store);
    }

    method HandleCas(key: Key, value: Slice, ttl: int, cas: uint64, clk: Shard.Clock)
      returns (r: Response, ghost added: set<Lru.IndexEntry>)
      requires Valid() && value.Ok()
      modifies `casCounter, `usedMemory, `evictions, index, index.items`lruElem, index.items`view
      modifies index.expiryHeap, index.expiryHeap.cells
      modifies index.lruList, index.lruList.root, index.lruList.members
      ensures Valid() && index.KeptBut(added) && forall e :: e in added ==> fresh(e) && fresh(e.value)
      ensures (State(), r.View()) == Shard.HandleCas(config, old(State()), key, old(value.Content()), ttl, cas, clk)
      ensures r.value == null
    {
      var entry := FindLive(key, clk.check);
      if entry == null {
        return Fail(Shard.KeyNotFound), {};
      }
      if entry.cas != cas {
        return Fail(Shard.CasMismatch), {};
      }
      r, added := DoSet(key, value, ttl, clk.store);
    }

    method HandleDelete(key: Key) returns (r: Response)
      requires Valid()
      modifies `usedMemory, index, index.items`lruElem, index.items`view
      modifies index.expiryHeap, index.expiryHeap.cells
      modifies index.lruList, index.lruList.root, index.lruList.members
      ensures Valid() && index.Kept()
      ensures (State(), r.View()) == Shard.HandleDelete(old(State()), key)
      ensures r.value == null
    {
      var entry := Drop(key);
      if entry == null {
        return Fail(Shard.KeyNotFound);
      }
      r := Stored(0);
    }

    /** Touching the entry just stored changes nothing. */
    method TouchStored(entry: Lru.IndexEntry, ghost before: seq<Shard.Entry>)
      requires Valid() && entry in index.items && index.order == Shard.Put(before, entry.Snapshot())
      modifies index`order, index.items`view, index.lruList, index.lruList.root, index.lruList.members
      ensures Valid() && index.Kept() && index.order == old(index.order)
    {
      ShardFacts.PutTwice(before, entry.Snapshot(), entry.Snapshot());
      index.ValidIsEnough({entry.key});
      index.Touch(entry.key);
    }

    /** Stores an entry changed in place and moves it to the most recently used end. */
    method Rewrite(entry: Lru.IndexEntry, additional: int)
      requires index.ValidExcept({entry.key}) && (entry in index.items || entry.lruElem == null)
      requires casCounter == entry.cas
      modifies `usedMemory, entry`lruElem, entry`view, index, index.items`lruElem, index.items`view
      modifies index.expiryHeap, index.expiryHeap.cells
      modifies index.lruList, index.lruList.root, index.lruList.members
      ensures Valid() && index.KeptBut({entry})
      ensures State() == Shard.Write(old(State()), old(entry.Snapshot()), additional)
    {
      ghost var before := index.order;
      Store(entry, additional);
      TouchStored(entry, before);
    }

    /** Gives an entry a new token and new expiry times; the index is then out of date at its key only. */
    method Restamp(entry: Lru.IndexEntry, soft: nat, hard: nat) returns (cas: uint64)
      requires Valid() && entry in index.items
      modifies `casCounter, entry`cas, entry`soft, entry`hard
      ensures index.ValidExcept({entry.key}) && casCounter == entry.cas == cas == Shard.NextCas(old(casCounter))
      ensures entry.Snapshot() == old(entry.Snapshot()).(soft := soft, hard := hard, cas := cas)
    {
      cas := NextCas();
      entry.cas, entry.soft, entry.hard := cas, soft, hard;
      index.StaysChained();
    }

    method TouchHit(entry: Lru.IndexEntry, ttl: int, now: nat) returns (cas: uint64)
      requires Valid() && entry in index.items
      modifies `casCounter, `usedMemory, index, entry`cas, entry`soft, entry`hard
      modifies index.items`lruElem, index.items`view, index.expiryHeap, index.expiryHeap.cells
      modifies index.lruList, index.lruList.root, index.lruList.members
      ensures Valid() && index.KeptBut({}) && cas == Shard.NextCas(old(casCounter))
      ensures State() == Shard.Write(old(State()), Shard.Touched(config, old(entry.Snapshot()), ttl, now, cas), 0)
    {
      var soft, hard := ExpiryTimes(ttl, now);
      cas := Restamp(entry, soft, hard);
      Rewrite(entry, 0);
    }

    method HandleTouch(key: Key, ttl: int, clk: Shard.Clock) returns (r: Response)
      requires Valid()
      modifies `casCounter, `usedMemory, index, index.items`cas, index.items`soft, index.items`hard
      modifies index.items`lruElem, index.items`view, index.expiryHeap, index.expiryHeap.cells
      modifies index.lruList, index.lruList.root, index.lruList.members
      ensures Valid() && index.KeptBut({})
      ensures (State(), r.View()) == Shard.HandleTouch(config, old(State()), key, ttl, clk)
      ensures r.value == null
    {
      var entry := FindLive(key, clk.check);
      if entry == null {
        return Fail(Shard.KeyNotFound);
      }
      var cas := TouchHit(entry, ttl, clk.store);
      r := Stored(cas);
    }

    /** Gives an entry a new token and a new value, whether or not it is still in the index. */
    method Revalue(entry: Lru.IndexEntry, value: array<byte>) returns (cas: uint64)
      requires Valid()
      modifies `casCounter, entry`cas, entry`value
      ensures index.ValidExcept({entry.key}) && casCounter == entry.cas == cas == Shard.NextCas(old(casCounter))
      ensures entry.Snapshot() == old(entry.Snapshot()).(value := old(value[..]), cas := cas) && entry.value == value
      ensures State() == old(State()).(casCounter := cas)
    {
      cas := NextCas();
      entry.value := value;
      entry.cas := cas;
      index.StaysChained();
    }

    /** Stores a new value under an entry, whether or not the entry is still in the index. */
    method RewriteValue(entry: Lru.IndexEntry, value: array<byte>, additional: int) returns (cas: uint64)
      requires Valid() && (entry in index.items || entry.lruElem == null)
      modifies `casCounter, `usedMemory, index, entry`cas, entry`value, entry`lruElem, entry`view
      modifies index.items`lruElem, index.items`view, index.expiryHeap, index.expiryHeap.cells
      modifies index.lruList, index.lruList.root, index.lruList.members
      ensures Valid() && index.KeptBut({entry}) && entry.value == value && cas == Shard.NextCas(old(casCounter))
      ensures var e := old(entry.Snapshot()).(value := old(value[..]), cas := cas);
              State() == Shard.Write(old(State()), e, additional)
    {
      ghost var e, v, s := entry.Snapshot(), value[..], State();
      cas := Revalue(entry, value);
      assert entry.Snapshot() == e.(value := v, cas := cas) && State() == s.(casCounter := cas);
      Rewrite(entry, additional);
    }

    /** One array to store and one to answer with. */
    method TwoArraysOf(text: Bytes) returns (value: array<byte>, reply: array<byte>)
      requires Valid()
      ensures Valid() && fresh(value) && fresh(reply) && value[..] == reply[..] == text
    {
      value := ArrayOf(text);
      reply := ArrayOf(text);
      index.StaysChained();
    }

    method StoreNumber(entry: Lru.IndexEntry, text: Bytes) returns (cas: uint64, reply: array<byte>)
      requires Valid() && entry in index.items
      modifies `casCounter, `usedMemory, index, entry`cas, entry`value
      modifies index.items`lruElem, index.items`view, index.expiryHeap, index.expiryHeap.cells
      modifies index.lruList, index.lruList.root, index.lruList.members
      ensures Valid() && index.KeptBut({}) && fresh(entry.value) && cas == Shard.NextCas(old(casCounter))
      ensures fresh(reply) && reply[..] == text
      ensures State() == Shard.Write(old(State()), old(entry.Snapshot()).(value := text, cas := cas),
                                     |text| - |old(entry.value[..])|)
    {
      var value;
      value, reply := TwoArraysOf(text);
      cas := RewriteValue(entry, value, |text| - entry.value.Length);
    }

    /** Counts up or down on a live entry. */
    method CountHit(entry: Lru.IndexEntry, delta: uint64, incr: bool) returns (r: Response)
      requires Valid() && entry in index.items
      modifies `casCounter, `usedMemory, index, entry`cas, entry`value
      modifies index.items`lruElem, index.items`view, index.expiryHeap, index.expiryHeap.cells
      modifies index.lruList, index.lruList.root, index.lruList.members
      ensures Valid() && index.KeptBut({}) && (entry.value == old(entry.value) || fresh(entry.value))
      ensures (State(), r.View()) == Shard.Counted(old(State()), old(entry.Snapshot()), delta, incr)
      ensures if r.err == Shard.NoError then r.value != null && fresh(r.value) else r.value == null
    {
      var current := Decimal.ParseUint(entry.value[..], TWO_TO_THE_64);
      if current.None? {
        return Fail(Shard.NotNumeric);
      }
      var text := Decimal.Format(Shard.Arith(current.value, delta, incr));
      var cas, reply := StoreNumber(entry, text);
      r := Response(reply, cas, 0, Shard.NoError, None);
    }

    method DoIncrDecr(key: Key, delta: uint64, incr: bool, now: nat) returns (r: Response)
      requires Valid()
      modifies `casCounter, `usedMemory, index, index.items`cas, index.items`value
      modifies index.items`lruElem, index.items`view, index.expiryHeap, index.expiryHeap.cells
      modifies index.lruList, index.lruList.root, index.lruList.members
      ensures Valid() && index.KeptBut({})
      ensures forall e :: e in index.items ==> e.value == old(e.value) || fresh(e.value)
      ensures (State(), r.View()) == Shard.DoIncrDecr(old(State()), key, delta, incr, now)
      ensures if r.err == Shard.NoError then r.value != null && fresh(r.value) else r.value == null
    {
      var entry := FindLive(key, now);
      if entry == null {
        return Fail(Shard.KeyNotFound);
      }
      r := CountHit(entry, delta, incr);
    }

    /** Builds a longer value and stores it under an entry, whether or not the entry is still in the index. */
    method StoreJoined(entry: Lru.IndexEntry, value: Slice, prepend: bool) returns (cas: uint64)
      requires Valid() && (entry in index.items || entry.lruElem == null) && value.Ok()
      modifies `casCounter, `usedMemory, index, entry`cas, entry`value, entry`lruElem, entry`view
      modifies index.items`lruElem, index.items`view, index.expiryHeap, index.expiryHeap.cells
      modifies index.lruList, index.lruList.root, index.lruList.members
      ensures Valid() && index.KeptBut({entry}) && fresh(entry.value) && cas == Shard.NextCas(old(casCounter))
      ensures State() == Shard.Write(old(State()),
                                     Shard.Joined(old(entry.Snapshot()), old(value.Content()), prepend, cas),
                                     |old(value.Content())|)
    {
      ghost var e, s := Shard.Joined(entry.Snapshot(), value.Content(), prepend, 0), State();
      var held := Slice(entry.value, 0, entry.value.Length);
      assert held.Content() == entry.value[..];
      var joined := JoinedArray(held, value, prepend);
      assert entry.Snapshot().(value := joined[..], cas := 0) == e && State() == s;
      cas := RewriteValue(entry, joined, value.hi - value.lo);
    }

    method JoinedArray(held: Slice, value: Slice, prepend: bool) returns (joined: array<byte>)
      requires Valid() && held.Ok() && value.Ok()
      ensures Valid() && fresh(joined)
      ensures joined[..] == if prepend then value.Content() + held.Content() else held.Content() + value.Content()
    {
      if prepend {
        joined := Join(value, held);
      } else {
        joined := Join(held, value);
      }
      index.StaysChained();
    }

    /** Appends or prepends to a live entry, which the room it needs may push out of the index. */
    method JoinHit(entry: Lru.IndexEntry, value: Slice, prepend: bool) returns (r: Response)
      requires Valid() && entry in index.items && value.Ok()
      modifies `casCounter, `usedMemory, `evictions, index, entry`cas, entry`value
      modifies index.items`lruElem, index.items`view, index.expiryHeap, index.expiryHeap.cells
      modifies index.lruList, index.lruList.root, index.lruList.members
      ensures Valid() && index.KeptBut({entry}) && fresh(entry.value)
      ensures (State(), r.View()) ==
              Shard.Extended(config, old(State()), old(entry.Snapshot()), old(value.Content()), prepend)
      ensures r.value == null
    {
      ghost var before, content, e := State(), value.Content(), entry.Snapshot();
      MakeRoom(value.hi - value.lo);
      ShardFacts.ExtendedIs(config, before, content, prepend, e, State());
      assert value.Content() == content;
      assert entry.Snapshot() == e;
      var cas := StoreJoined(entry, value, prepend);
      r := Stored(cas);
    }

    method DoAppendPrepend(key: Key, value: Slice, prepend: bool, now: nat) returns (r: Response)
      requires Valid() && value.Ok()
      modifies `casCounter, `usedMemory, `evictions, index, index.items`cas, index.items`value
      modifies index.items`lruElem, index.items`view, index.expiryHeap, index.expiryHeap.cells
      modifies index.lruList, index.lruList.root, index.lruList.members
      ensures Valid() && index.KeptBut({})
      ensures forall e :: e in index.items ==> e.value == old(e.value) || fresh(e.value)
      ensures (State(), r.View()) ==
              Shard.DoAppendPrepend(config, old(State()), key, old(value.Content()), prepend, now)
      ensures r.value == null
    {
      var entry := FindLive(key, now);
      if entry == null {
        return Fail(Shard.KeyNotFound);
      }
      r := JoinHit(entry, value, prepend);
    }

    method HandleFlushAll() returns (r: Response)
      modifies `index, `usedMemory
      ensures Valid() && fresh(index) && fresh(index.expiryHeap) && fresh(index.lruList) && fresh(index.lruList.root)
      ensures index.items == {} && index.expiryHeap.cells == {} && index.lruList.members == {}
      ensures (State(), r.View()) == Shard.HandleFlushAll(old(State()))
      ensures r.value == null
    {
      index := new Index();
      usedMemory := 0;
      r := Stored(0);
    }

    method HandleStats() returns (r: Response)
      requires Valid()
      ensures r.View() == Shard.HandleStats(State()).1
      ensures r.value == null
    {
      var n := index.Count();
      r := Response(null, 0, 0, Shard.NoError, Some(Shard.StatsReport(n, usedMemory, evictions)));
    }

    /** Every entry's value is in the array it was in before, or in a new one. */
    twostate predicate ValuesOwned()
      reads `index, index`items, index.items`value
    {
      forall e :: e in index.items ==> fresh(e.value) || (e in old(index.items) && e.value == old(e.value))
    }

    /** The arrays that hold the entries' values. */
    ghost function Values(): set<array<byte>>
      reads `index, index`items, index.items`value
    {
      set e | e in index.items :: e.value
    }

    /** None of the worker's objects has changed. */
    twostate predicate Untouched()
      reads *
    {
      && unchanged(this, old(index), old(index.items), old(set e | e in index.items :: e.value))
      && unchanged(old(index.expiryHeap), old(index.expiryHeap.cells))
      && unchanged(old(index.lruList), old(index.lruList.root), old(index.lruList.members))
    }

    /** Then it is as it was. */
    twostate lemma Stays()
      requires old(Valid()) && Untouched()
      ensures Valid() && State() == old(State()) && index == old(index) && index.items == old(index.items)
      ensures index.expiryHeap.cells == old(index.expiryHeap.cells)
      ensures index.lruList.members == old(index.lruList.members)
    {
    }

    /**
      A response hands out an array exactly if it answers with a value: a new one, or one that held a
      value.
     */
    twostate predicate Published(op: Shard.Op, new r: Response)
      reads {}
    {
      if Shard.AnswersValue(op) && r.err == Shard.NoError then
        r.value != null && (fresh(r.value) || r.value in old(Values()))
      else r.value == null
    }

    /** Every object that is new to the index is newly made. */
    twostate predicate Renewed()
      reads `index, index`items, index.expiryHeap`cells, index.lruList`members
    {
      && (index == old(index)
          || (fresh(index) && fresh(index.expiryHeap) && fresh(index.lruList) && fresh(index.lruList.root)))
      && (forall e :: e in index.items ==> e in old(index.items) || fresh(e))
      && (forall n :: n in index.lruList.members ==> n in old(index.lruList.members) || fresh(n))
      && (forall c :: c in index.expiryHeap.cells ==> c in old(index.expiryHeap.cells) || fresh(c))
    }

    /** What a request may do. */
    twostate predicate Grown()
      reads `index, index`items, index.items`value, index.expiryHeap`cells, index.lruList`members
    {
      ValuesOwned() && Renewed()
    }

    twostate lemma KeptIsGrown(new added: set<Lru.IndexEntry>)
      requires index == old(index) && index.KeptBut(added) && forall e :: e in added ==> fresh(e) && fresh(e.value)
      requires forall e :: e in index.items ==> e in added || e.value == old(e.value) || fresh(e.value)
      ensures Grown()
    {
    }

    method ServeStore(req: Request, clk: Shard.Clock) returns (r: Response)
      requires Valid() && req.value.Ok() && (req.op.Set? || req.op.Add? || req.op.Replace? || req.op.Cas?)
      modifies `casCounter, `usedMemory, `evictions, index, index.items`lruElem, index.items`view
      modifies index.expiryHeap, index.expiryHeap.cells
      modifies index.lruList, index.lruList.root, index.lruList.members
      ensures Valid() && Grown() && Published(req.op, r)
      ensures (State(), r.View()) == Shard.Handle(config, old(State()), old(req.View()), clk)
    {
      ghost var added;
      if req.op.Set? {
        r, added := DoSet(req.key, req.value, req.ttl, clk.store);
      } else if req.op.Add? {
        r, added := HandleAdd(req.key, req.value, req.ttl, clk);
      } else if req.op.Replace? {
        r, added := HandleReplace(req.key, req.value, req.ttl, clk);
      } else {
        r, added := HandleCas(req.key, req.value, req.ttl, req.cas, clk);
      }
      KeptIsGrown(added);
    }

    method ServeTouch(req: Request, clk: Shard.Clock) returns (r: Response)
      requires Valid() && req.value.Ok() && req.op.Touch?
      modifies `casCounter, `usedMemory, index, index.items`cas, index.items`soft, index.items`hard
      modifies index.items`lruElem, index.items`view, index.expiryHeap, index.expiryHeap.cells
      modifies index.lruList, index.lruList.root, index.lruList.members
      ensures Valid() && Grown() && Published(req.op, r)
      ensures (State(), r.View()) == Shard.Handle(config, old(State()), old(req.View()), clk)
    {
      r := HandleTouch(req.key, req.ttl, clk);
      KeptIsGrown({});
    }

    method ServeCount(req: Request, clk: Shard.Clock) returns (r: Response)
      requires Valid() && req.value.Ok() && (req.op.Incr? || req.op.Decr?)
      modifies `casCounter, `usedMemory, index, index.items`cas, index.items`value
      modifies index.items`lruElem, index.items`view, index.expiryHeap, index.expiryHeap.cells
      modifies index.lruList, index.lruList.root, index.lruList.members
      ensures Valid() && Grown() && Published(req.op, r)
      ensures (State(), r.View()) == Shard.Handle(config, old(State()), old(req.View()), clk)
    {
      r := DoIncrDecr(req.key, req.delta, req.op.Incr?, clk.check);
      KeptIsGrown({});
    }

    method ServeExtend(req: Request, clk: Shard.Clock) returns (r: Response)
      requires Valid() && req.value.Ok() && (req.op.Append? || req.op.Prepend?)
      modifies `casCounter, `usedMemory, `evictions, index, index.items`cas, index.items`value
      modifies index.items`lruElem, index.items`view, index.expiryHeap, index.expiryHeap.cells
      modifies index.lruList, index.lruList.root, index.lruList.members
      ensures Valid() && Grown() && Published(req.op, r)
      ensures (State(), r.View()) == Shard.Handle(config, old(State()), old(req.View()), clk)
    {
      ghost var s, v := State(), req.View();
      r := DoAppendPrepend(req.key, req.value, req.op.Prepend?, clk.check);
      assert (State(), r.View()) == Shard.DoAppendPrepend(config, s, v.key, v.value, v.op.Prepend?, clk.check);
      KeptIsGrown({});
    }

    method ServeGet(req: Request, clk: Shard.Clock) returns (r: Response)
      requires Valid() && req.value.Ok() && (req.op.Get? || req.op.Delete?)
      modifies `usedMemory, index, index.items`lruElem, index.items`view, index.items`refreshing
      modifies index.expiryHeap, index.expiryHeap.cells
      modifies index.lruList, index.lruList.root, index.lruList.members
      ensures Valid() && Grown() && Published(req.op, r)
      ensures (State(), r.View()) == Shard.Handle(config, old(State()), old(req.View()), clk)
    {
      if req.op.Get? {
        r := HandleGet(req.key, clk.check);
      } else {
        r := HandleDelete(req.key);
      }
      KeptIsGrown({});
    }

    /** Serves one request. Byte arrays are not in the frame: no published value is ever written. */
    method HandleRequest(req: Request, clk: Shard.Clock) returns (r: Response)
      requires Valid() && req.value.Ok()
      modifies `index, `casCounter, `usedMemory, `evictions, index, index.items
      modifies index.expiryHeap, index.expiryHeap.cells
      modifies index.lruList, index.lruList.root, index.lruList.members
      ensures Valid() && Grown() && Published(req.op, r)
      ensures (State(), r.View()) == Shard.Handle(config, old(State()), old(req.View()), clk)
    {
      match req.op
      case Get | Delete => r := ServeGet(req, clk);
      case FlushAll => r := HandleFlushAll();
      case Stats => r := HandleStats();
      case Other => r := Fail(Shard.KeyNotFound);
      case Touch => r := ServeTouch(req, clk);
      case Incr | Decr => r := ServeCount(req, clk);
      case Append | Prepend => r := ServeExtend(req, clk);
      case Set | Add | Replace | Cas => r := ServeStore(req, clk);
    }
  }
}
