/**
  The order of the LRU list is the order of last access: over any run, of two stored keys the one
  that stands first was the one last used first.
 */
module LruOrder {
  import opened Basics
  import opened Shard
  import opened ShardFacts
  import opened Runs
  import Decimal

  /** The step is a request that finds or stores the key. */
  predicate Accesses(cfg: Config, s: State, ev: Event, k: Key) {
    && ev.Arrive? && ev.req.key == k
    && !ev.req.op.Delete? && !ev.req.op.FlushAll? && !ev.req.op.Stats? && !ev.req.op.Other?
    && Handle(cfg, s, ev.req, ev.clk).1.err == NoError
  }

  /** The position in the run of the last step that accessed the key; -1 if there is none. */
  function LastAccess(cfg: Config, s: State, evs: seq<Event>, k: Key): int {
    if evs == [] then -1
    else
      var prefix := evs[..|evs| - 1];
      if Accesses(cfg, Run(cfg, s, prefix), evs[|evs| - 1], k) then |evs| - 1 else LastAccess(cfg, s, prefix, k)
  }

  ghost predicate SortedBy(s: seq<Entry>, rank: Key -> int) {
    && (forall i :: 0 <= i < |s| ==> rank(s[i].key) >= 0)
    && (forall i, j :: 0 <= i < j < |s| ==> rank(s[i].key) < rank(s[j].key))
  }

  /** In a sorted sequence the first rank is below that of anything in the rest. */
  lemma FirstIsLeast(s: seq<Entry>, rank: Key -> int, e: Entry)
    requires s != [] && SortedBy(s, rank) && e in s[1..]
    ensures rank(s[0].key) < rank(e.key)
  {
    var j :| 0 <= j < |s| - 1 && s[1..][j] == e;
    assert s[j + 1] == e;
  }

  lemma {:induction false} WithoutIn(s: seq<Entry>, k: Key)
    ensures forall e :: e in Without(s, k) ==> e in s && e.key != k
  {
    if s != [] {
      WithoutIn(s[1..], k);
    }
  }

  /** Putting an entry of least rank in front keeps a sequence sorted. */
  lemma SortedFrom(e: Entry, rest: seq<Entry>, rank: Key -> int)
    requires rank(e.key) >= 0 && SortedBy(rest, rank) && forall f :: f in rest ==> rank(e.key) < rank(f.key)
    ensures SortedBy([e] + rest, rank)
  {
  }

  lemma {:induction false} WithoutSorted(s: seq<Entry>, k: Key, rank: Key -> int)
    requires SortedBy(s, rank)
    ensures SortedBy(Without(s, k), rank)
  {
    if s != [] {
      var rest := Without(s[1..], k);
      WithoutSorted(s[1..], k, rank);
      WithoutIn(s[1..], k);
      forall f | f in rest
        ensures rank(s[0].key) < rank(f.key)
      {
        FirstIsLeast(s, rank, f);
      }
      SortedFrom(s[0], rest, rank);
    }
  }

  lemma {:induction false} UnexpiredSorted(s: seq<Entry>, now: nat, rank: Key -> int)
    requires SortedBy(s, rank)
    ensures SortedBy(Unexpired(s, now), rank)
  {
    if s != [] {
      var rest := Unexpired(s[1..], now);
      UnexpiredSorted(s[1..], now, rank);
      UnexpiredIn(s[1..], now);
      forall f | f in rest
        ensures rank(s[0].key) < rank(f.key)
      {
        FirstIsLeast(s, rank, f);
      }
      SortedFrom(s[0], rest, rank);
      assert [] + rest == rest;
    }
  }

  /** Only ranks of the keys that stay matter. */
  lemma SameRanks(s: seq<Entry>, rank: Key -> int, rank': Key -> int)
    requires SortedBy(s, rank) && forall i :: 0 <= i < |s| ==> rank'(s[i].key) == rank(s[i].key)
    ensures SortedBy(s, rank')
  {
  }

  /** The ranks after an access: the accessed key is above every stored one, the others stay. */
  ghost predicate Raised(s: seq<Entry>, k: Key, rank: Key -> int, rank': Key -> int) {
    && (forall j :: j != k ==> rank'(j) == rank(j))
    && rank'(k) >= 0 && forall i :: 0 <= i < |s| ==> rank(s[i].key) < rank'(k)
  }

  lemma PutSorted(s: seq<Entry>, e: Entry, rank: Key -> int, rank': Key -> int)
    requires SortedBy(s, rank) && Raised(s, e.key, rank, rank')
    ensures SortedBy(Put(s, e), rank')
  {
    WithoutSorted(s, e.key, rank);
    WithoutIn(s, e.key);
    assert forall i :: 0 <= i < |Without(s, e.key)| ==> Without(s, e.key)[i] in s;
    SameRanks(Without(s, e.key), rank, rank');
  }

  /** A write makes room, which keeps a suffix, and puts its entry last. */
  lemma WriteSorted(cfg: Config, s: State, needed: int, e: Entry, additional: int, rank: Key -> int, rank': Key -> int)
    requires UniqueKeys(s.lru) && SortedBy(s.lru, rank) && Raised(s.lru, e.key, rank, rank')
    ensures SortedBy(Write(MakeRoom(cfg, s, needed), e, additional).lru, rank')
  {
    var n := RoomIsSuffix(cfg, s, needed);
    PutSorted(s.lru[n..], e, rank, rank');
  }

  lemma StoreSorted(cfg: Config, s: State, r: Request, clk: Clock, rank: Key -> int, rank': Key -> int)
    requires UniqueKeys(s.lru) && SortedBy(s.lru, rank) && Raised(s.lru, r.key, rank, rank')
    ensures SortedBy(DoSet(cfg, s, r.key, r.value, r.ttl, clk.store).0.lru, rank')
  {
    var growth := |r.key| + |r.value| - SizeAt(s.lru, r.key);
    WriteSorted(cfg, s, growth, SetEntry(cfg, s, r.key, r.value, r.ttl, clk.store), growth, rank, rank');
  }

  lemma ExtendSorted(cfg: Config, s: State, e: Entry, v: Bytes, prepend: bool, rank: Key -> int, rank': Key -> int)
    requires UniqueKeys(s.lru) && SortedBy(s.lru, rank) && Raised(s.lru, e.key, rank, rank')
    ensures SortedBy(Extended(cfg, s, e, v, prepend).0.lru, rank')
  {
    WriteSorted(cfg, s, |v|, Joined(e, v, prepend, NextCas(s.casCounter)), |v|, rank, rank');
  }

  lemma CountSorted(s: State, e: Entry, delta: uint64, incr: bool, rank: Key -> int, rank': Key -> int)
    requires SortedBy(s.lru, rank) && Raised(s.lru, e.key, rank, rank') && Counted(s, e, delta, incr).1.err == NoError
    ensures SortedBy(Counted(s, e, delta, incr).0.lru, rank')
  {
    var current := Decimal.ParseUint(e.value, TWO_TO_THE_64).value;
    var text := Decimal.Format(Arith(current, delta, incr));
    PutSorted(s.lru, e.(value := text, cas := NextCas(s.casCounter)), rank, rank');
  }

  /** A request that accesses its key gives it the highest rank. */
  lemma AccessSorted(cfg: Config, s: State, r: Request, clk: Clock, rank: Key -> int, rank': Key -> int)
    requires UniqueKeys(s.lru) && SortedBy(s.lru, rank) && Accesses(cfg, s, Arrive(r, clk), r.key)
    requires Raised(s.lru, r.key, rank, rank')
    ensures SortedBy(Handle(cfg, s, r, clk).0.lru, rank')
  {
    FindPresent(s.lru, r.key);
    var found := Find(s.lru, r.key);
    match r.op
    case Set | Add | Replace | Cas => StoreSorted(cfg, s, r, clk, rank, rank');
    case Append | Prepend => ExtendSorted(cfg, s, found.value, r.value, r.op.Prepend?, rank, rank');
    case Get => PutSorted(s.lru, Seen(found.value, clk.check), rank, rank');
    case Touch => PutSorted(s.lru, Touched(cfg, found.value, r.ttl, clk.store, NextCas(s.casCounter)), rank, rank');
    case Incr | Decr => CountSorted(s, found.value, r.delta, r.op.Incr?, rank, rank');
  }

  /** A request that does not access its key drops entries, if anything. */
  lemma NoAccessDrops(cfg: Config, s: State, r: Request, clk: Clock)
    requires !Accesses(cfg, s, Arrive(r, clk), r.key)
    ensures var t := Handle(cfg, s, r, clk).0; t.lru == s.lru || t.lru == Without(s.lru, r.key) || t.lru == []
  {
  }

  /** A step keeps the order if it gives the key it accesses, and no other, a new highest rank. */
  lemma StepSorted(cfg: Config, s: State, ev: Event, rank: Key -> int, rank': Key -> int, top: nat)
    requires UniqueKeys(s.lru) && SortedBy(s.lru, rank)
    requires forall i :: 0 <= i < |s.lru| ==> rank(s.lru[i].key) < top
    requires forall k :: rank'(k) == if Accesses(cfg, s, ev, k) then top else rank(k)
    ensures SortedBy(Step(cfg, s, ev).lru, rank')
  {
    match ev
    case Tick(now) =>
      UnexpiredSorted(s.lru, now, rank);
      SameRanks(Unexpired(s.lru, now), rank, rank');
    case Arrive(r, clk) =>
      if Accesses(cfg, s, ev, r.key) {
        AccessSorted(cfg, s, r, clk, rank, rank');
      } else {
        NoAccessDrops(cfg, s, r, clk);
        WithoutSorted(s.lru, r.key, rank);
        SameRanks(Step(cfg, s, ev).lru, rank, rank');
      }
  }

  lemma {:induction false} LastAccessInRun(cfg: Config, s: State, evs: seq<Event>, k: Key)
    ensures LastAccess(cfg, s, evs, k) < |evs|
  {
    if evs != [] {
      LastAccessInRun(cfg, s, evs[..|evs| - 1], k);
    }
  }

  /** After any run from an empty shard the entries stand in the order of their last accesses. */
  lemma {:induction false} ListIsInAccessOrder(cfg: Config, s: State, evs: seq<Event>)
    requires s.lru == []
    ensures UniqueKeys(Run(cfg, s, evs).lru)
    ensures SortedBy(Run(cfg, s, evs).lru, k => LastAccess(cfg, s, evs, k))
  {
    if evs != [] {
      var prefix, ev := evs[..|evs| - 1], evs[|evs| - 1];
      var before := Run(cfg, s, prefix);
      ListIsInAccessOrder(cfg, s, prefix);
      OtherKeys(cfg, before, ev, []);
      forall i | 0 <= i < |before.lru|
        ensures LastAccess(cfg, s, prefix, before.lru[i].key) < |prefix|
      {
        LastAccessInRun(cfg, s, prefix, before.lru[i].key);
      }
      StepSorted(cfg, before, ev, k => LastAccess(cfg, s, prefix, k), k => LastAccess(cfg, s, evs, k), |prefix|);
    }
  }
}
