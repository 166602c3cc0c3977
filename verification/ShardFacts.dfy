/** Algebra of looking up, removing and storing entries in a shard's sequence. */
module ShardFacts {
  import opened Basics
  import opened Shard

  lemma {:induction false} FindAbsent(s: seq<Entry>, k: Key)
    requires forall i :: 0 <= i < |s| ==> s[i].key != k
    ensures Find(s, k) == None && Without(s, k) == s
  {
    if s != [] {
      FindAbsent(s[1..], k);
    }
  }

  lemma {:induction false} FindAt(s: seq<Entry>, i: nat)
    requires UniqueKeys(s) && i < |s|
    ensures Find(s, s[i].key) == Some(s[i]) && Without(s, s[i].key) == s[..i] + s[i + 1..]
  {
    if i == 0 {
      FindAbsent(s[1..], s[0].key);
    } else {
      FindAt(s[1..], i - 1);
      assert s[..i] + s[i + 1..] == [s[0]] + (s[1..][..i - 1] + s[1..][i..]);
    }
  }

  lemma {:induction false} FindPresent(s: seq<Entry>, k: Key)
    ensures Find(s, k).Some? <==> exists i :: 0 <= i < |s| && s[i].key == k
    ensures Find(s, k).Some? ==> Find(s, k).value in s && Find(s, k).value.key == k
  {
    if s != [] {
      FindPresent(s[1..], k);
      if s[0].key != k && exists i :: 0 <= i < |s| && s[i].key == k {
        var i :| 0 <= i < |s| && s[i].key == k;
        assert s[1..][i - 1].key == k;
      }
    }
  }

  lemma {:induction false} FindAfterWithout(s: seq<Entry>, j: Key, k: Key)
    ensures Find(Without(s, j), k) == if j == k then None else Find(s, k)
  {
    if s != [] {
      FindAfterWithout(s[1..], j, k);
      if s[0].key != j {
        assert ([s[0]] + Without(s[1..], j))[1..] == Without(s[1..], j);
      }
    }
  }

  lemma {:induction false} FindInConcat(s: seq<Entry>, t: seq<Entry>, k: Key)
    ensures Find(s + t, k) == if Find(s, k).Some? then Find(s, k) else Find(t, k)
  {
    if s == [] {
      assert s + t == t;
    } else {
      FindInConcat(s[1..], t, k);
      assert (s + t)[1..] == s[1..] + t;
    }
  }

  /** Storing an entry changes the shard at its key only. */
  lemma {:induction false} FindAfterPut(s: seq<Entry>, e: Entry, k: Key)
    ensures Find(Put(s, e), k) == if k == e.key then Some(e) else Find(s, k)
  {
    FindAfterWithout(s, e.key, k);
    FindInConcat(Without(s, e.key), [e], k);
  }

  lemma {:induction false} WithoutKeeps(s: seq<Entry>, k: Key)
    requires UniqueKeys(s)
    ensures UniqueKeys(Without(s, k)) && forall i :: 0 <= i < |Without(s, k)| ==> Without(s, k)[i].key != k
    ensures Total(Without(s, k)) == Total(s) - SizeAt(s, k)
    ensures |Without(s, k)| == |s| - if Find(s, k).Some? then 1 else 0
    ensures forall e :: e in Without(s, k) ==> e in s
  {
    if s != [] {
      WithoutKeeps(s[1..], k);
      if s[0].key == k {
        FindAbsent(s[1..], k);
      } else {
        var rest := Without(s[1..], k);
        assert ([s[0]] + rest)[1..] == rest;
        forall i | 0 <= i < |rest|
          ensures s[0].key != rest[i].key
        {
          assert rest[i] in s[1..];
        }
      }
    }
  }

  lemma {:induction false} TotalConcat(s: seq<Entry>, t: seq<Entry>)
    ensures Total(s + t) == Total(s) + Total(t)
  {
    if s == [] {
      assert s + t == t;
    } else {
      TotalConcat(s[1..], t);
      assert (s + t)[1..] == s[1..] + t;
    }
  }

  lemma {:induction false} PutKeeps(s: seq<Entry>, e: Entry)
    requires UniqueKeys(s)
    ensures UniqueKeys(Put(s, e))
    ensures Total(Put(s, e)) == Total(s) - SizeAt(s, e.key) + Size(e)
    ensures |Put(s, e)| == |s| + if Find(s, e.key).Some? then 0 else 1
  {
    WithoutKeeps(s, e.key);
    TotalConcat(Without(s, e.key), [e]);
  }

  lemma {:induction false} WithoutAbsent(s: seq<Entry>, k: Key)
    ensures Without(Without(s, k), k) == Without(s, k)
  {
    if s != [] {
      WithoutAbsent(s[1..], k);
      if s[0].key != k {
        assert ([s[0]] + Without(s[1..], k))[1..] == Without(s[1..], k);
      }
    }
  }

  lemma {:induction false} WithoutConcat(s: seq<Entry>, t: seq<Entry>, k: Key)
    ensures Without(s + t, k) == Without(s, k) + Without(t, k)
  {
    if s == [] {
      assert s + t == t;
    } else {
      WithoutConcat(s[1..], t, k);
      assert (s + t)[1..] == s[1..] + t;
    }
  }

  /** Only the last of two stores under one key counts. */
  lemma PutTwice(s: seq<Entry>, e: Entry, f: Entry)
    requires e.key == f.key
    ensures Put(Put(s, e), f) == Put(s, f)
  {
    WithoutConcat(Without(s, e.key), [e], e.key);
    WithoutAbsent(s, e.key);
  }

  lemma {:induction false} UnexpiredWithout(s: seq<Entry>, k: Key, now: nat)
    requires UniqueKeys(s) && Find(s, k).Some? && Expired(Find(s, k).value, now)
    ensures Unexpired(Without(s, k), now) == Unexpired(s, now)
  {
    if s[0].key == k {
      FindAbsent(s[1..], k);
    } else {
      UnexpiredWithout(s[1..], k, now);
      assert ([s[0]] + Without(s[1..], k))[1..] == Without(s[1..], k);
    }
  }

  lemma {:induction false} NothingExpired(s: seq<Entry>, now: nat)
    requires forall e :: e in s ==> !Expired(e, now)
    ensures Unexpired(s, now) == s
  {
    if s != [] {
      NothingExpired(s[1..], now);
    }
  }

  lemma OldestDropped(s: State)
    requires UniqueKeys(s.lru) && s.lru != []
    ensures HandleDelete(s.(evictions := s.evictions + 1), s.lru[0].key).0 == DropOldest(s)
  {
    FindAt(s.lru, 0);
  }

  /** A set, from the state it makes room in and the entry it stores. */
  lemma DoSetIs(cfg: Config, s: State, k: Key, v: Bytes, ttl: int, now: nat, additional: int, room: State)
    requires additional == |k| + |v| - SizeAt(s.lru, k) && room == MakeRoom(cfg, s, additional)
    ensures var cas := NextCas(room.casCounter);
            var e := Entry(k, v, SoftExpiry(cfg, ttl, now), HardExpiry(cfg, ttl, now), cas, false);
            DoSet(cfg, s, k, v, ttl, now) == (Write(room, e, additional), Shard.Stored(cas))
  {
    MakeRoomKeepsCounter(cfg, s, additional);
  }

  lemma {:induction false} EvictKeepsCounter(cfg: Config, s: State, needed: int)
    ensures Evict(cfg, s, needed).casCounter == s.casCounter
    decreases |s.lru|
  {
    if s.used + needed > cfg.maxMemory && s.lru != [] {
      EvictKeepsCounter(cfg, DropOldest(s), needed);
    }
  }

  lemma MakeRoomKeepsCounter(cfg: Config, s: State, needed: int)
    ensures MakeRoom(cfg, s, needed).casCounter == s.casCounter
  {
    EvictKeepsCounter(cfg, s, needed);
  }

  /** A successful append or prepend, from the state it makes room in. */
  lemma ExtendedIs(cfg: Config, s: State, v: Bytes, prepend: bool, e: Entry, room: State)
    requires room == MakeRoom(cfg, s, |v|)
    ensures var cas := NextCas(room.casCounter);
            Extended(cfg, s, e, v, prepend) == (Write(room, Joined(e, v, prepend, cas), |v|), Shard.Stored(cas))
  {
    MakeRoomKeepsCounter(cfg, s, |v|);
  }
}
