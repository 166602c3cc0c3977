/**
  One shard's index: the map from keys to entries, the expiry heap and the LRU list.

  The abstract value is `order`, the sequence of entries from least to most recently used. The
  three structures agree with it and with each other between calls; while a request has changed
  an entry in place but not yet stored it, they may disagree at that entry's key only.
 */
module Indexing {
  import opened Basics
  import opened Lru
  import Expiry
  import Shard
  import ShardFacts

  /** Equality, stated for any type so that proofs about positions do not compare entries field by field. */
  ghost predicate Same<T>(a: T, b: T) {
    a == b
  }

  class Index {
    var data: map<Key, IndexEntry>
    const expiryHeap: Expiry.ExpiryHeap<Key>
    const lruList: LruList

    ghost var order: seq<Shard.Entry>
    ghost var items: set<IndexEntry>       // the entries, as a set

    /** The map holds the entries, each under its own key. */
    ghost predicate Keyed()
      reads `data, `items, items`view
    {
      && (forall k {:trigger data[k]} :: k in data ==> data[k] in items && data[k].key == k)
      && (forall e {:trigger e.key} :: e in items ==> e.key in data && data[e.key] == e)
      && (forall e {:trigger e.view} :: e in items ==> e.view.key == e.key)
    }

    /** Entries and list elements point at each other, one to one. */
    ghost predicate Linked()
      reads `items, lruList`members, lruList.members`value, items`lruElem
    {
      && (forall e {:trigger e.lruElem} :: e in items ==>
            e.lruElem != null && e.lruElem in lruList.members && e.lruElem.value == e)
      && (forall n {:trigger n.value} :: n in lruList.members ==>
            n.value != null && n.value in items && n.value.lruElem == n)
    }

    /** The list holds the entries of `order`. */
    ghost predicate Listed()
      requires Linked()
      reads `order, `items, lruList`nodes, lruList`members, lruList.members`value, lruList.members`slot
      reads items`lruElem, items`view
    {
      && |order| == |lruList.nodes|
      && (forall e {:trigger e.view} {:trigger e.lruElem} :: e in items ==>
            e.lruElem.slot < |order| && Same(order[e.lruElem.slot], e.view))
    }

    /** The entries' fields are what was last stored. */
    ghost predicate Synced(dirty: set<Key>)
      reads `items, items`value, items`soft, items`hard, items`cas, items`refreshing, items`view
      reads set e | e in items :: e.value
    {
      && (forall e {:trigger e.view} :: e in items && e.key !in dirty ==> Same(e.view, e.Snapshot()))
    }

    /** The heap holds exactly the keys that expire, each with its entry's hard expiry. */
    ghost predicate Timed(dirty: set<Key>)
      reads `data, `items, expiryHeap`expiries, items`hard
    {
      && (forall k :: k in expiryHeap.expiries ==> k in data || k in dirty)
      && (forall e {:trigger e.hard} :: e in items && e.key !in dirty ==>
            && (e.key in expiryHeap.expiries <==> e.hard > 0)
            && (e.hard > 0 ==> expiryHeap.expiries[e.key] == e.hard))
    }

    ghost predicate Chained()
      reads `order, `items, items`lruElem, items`view
      reads lruList`len, lruList`nodes, lruList`members, lruList.root`next, lruList.root`prev
      reads lruList.members`next, lruList.members`prev, lruList.members`slot, lruList.members`value
    {
      lruList.Valid() && Linked() && Listed()
    }

    ghost predicate ValidExcept(dirty: set<Key>)
      reads `data, `order, `items
      reads items`value, items`soft, items`hard, items`cas, items`refreshing, items`lruElem, items`view
      reads set e | e in items :: e.value
      reads lruList`len, lruList`nodes, lruList`members, lruList.root`next, lruList.root`prev
      reads lruList.members`next, lruList.members`prev, lruList.members`slot, lruList.members`value
      reads expiryHeap`entries, expiryHeap`keyIndex, expiryHeap`cells, expiryHeap`keys, expiryHeap`times
      reads expiryHeap`expiries, expiryHeap.cells`index, expiryHeap.cells`expiry
    {
      expiryHeap.Valid() && Keyed() && Chained() && Synced(dirty) && Timed(dirty)
    }

    ghost predicate Valid()
      reads `data, `order, `items
      reads items`value, items`soft, items`hard, items`cas, items`refreshing, items`lruElem, items`view
      reads set e | e in items :: e.value
      reads lruList`len, lruList`nodes, lruList`members, lruList.root`next, lruList.root`prev
      reads lruList.members`next, lruList.members`prev, lruList.members`slot, lruList.members`value
      reads expiryHeap`entries, expiryHeap`keyIndex, expiryHeap`cells, expiryHeap`keys, expiryHeap`times
      reads expiryHeap`expiries, expiryHeap.cells`index, expiryHeap.cells`expiry
    {
      ValidExcept({})
    }

    /** The index holds no object that it did not hold before. */
    twostate predicate Kept()
      reads `items, lruList`members, expiryHeap`cells
    {
      && (forall e :: e in items ==> e in old(items))
      && (forall n :: n in lruList.members ==> n in old(lruList.members))
      && (forall c :: c in expiryHeap.cells ==> c in old(expiryHeap.cells))
    }

    /** The index holds no object that it did not hold before, other than new ones and `extra`. */
    twostate predicate KeptBut(new extra: set<IndexEntry>)
      reads `items, lruList`members, expiryHeap`cells
    {
      && (forall e :: e in items ==> e in old(items) || e in extra)
      && (forall n :: n in lruList.members ==> n in old(lruList.members) || fresh(n))
      && (forall c :: c in expiryHeap.cells ==> c in old(expiryHeap.cells) || fresh(c))
    }

    constructor ()
      ensures Valid() && order == [] && items == {} && expiryHeap.cells == {} && lruList.members == {}
      ensures fresh(expiryHeap) && fresh(lruList) && fresh(lruList.root)
    {
      data := map[];
      expiryHeap := new Expiry.ExpiryHeap();
      lruList := new LruList();
      order, items := [], {};
    }

    lemma ValidIsEnough(dirty: set<Key>)
      requires Valid()
      ensures ValidExcept(dirty)
    {
    }

    // ---------- What the structures say about the abstract value ----------

    lemma OrderIsUnique()
      requires Keyed() && Chained()
      ensures Shard.UniqueKeys(order)
    {
      forall i, j | 0 <= i < j < |order|
        ensures order[i].key != order[j].key
      {
        var a, b := lruList.nodes[i], lruList.nodes[j];
        assert a.value.lruElem == a && b.value.lruElem == b;
        assert Same(order[i], a.value.view) && Same(order[j], b.value.view);
      }
    }

    /** An entry of the map stands in `order` where its list element stands in the list. */
    lemma Located(e: IndexEntry)
      requires Keyed() && Chained() && e in items
      ensures e.lruElem.slot < |order| && order[e.lruElem.slot] == e.view
      ensures Shard.Find(order, e.key) == Some(e.view)
      ensures Shard.Without(order, e.key) == order[..e.lruElem.slot] + order[e.lruElem.slot + 1..]
    {
      OrderIsUnique();
      ShardFacts.FindAt(order, e.lruElem.slot);
    }

    lemma Absent(k: Key)
      requires Keyed() && Chained() && k !in data
      ensures Shard.Find(order, k) == None && Shard.Without(order, k) == order
    {
      forall i | 0 <= i < |order|
        ensures order[i].key != k
      {
        ghost var e := lruList.nodes[i].value;
        assert e.lruElem.slot == i && Same(order[i], e.view);
      }
      ShardFacts.FindAbsent(order, k);
    }

    // ---------- Operations ----------

    method Get(key: Key) returns (entry: IndexEntry?)
      requires Valid()
      ensures entry == null ==> key !in data && Shard.Find(order, key) == None
      ensures entry != null ==> entry in items && entry.key == key && Shard.Find(order, key) == Some(entry.Snapshot())
    {
      if key !in data {
        Absent(key);
        return null;
      }
      entry := data[key];
      Located(entry);
    }

    method GetOldest() returns (entry: IndexEntry?)
      requires Valid()
      ensures entry == null <==> order == []
      ensures entry != null ==> entry in items && order[0] == entry.Snapshot() && order[0].key == entry.key
    {
      var elem := lruList.Front();
      if elem == null {
        return null;
      }
      entry := elem.value;
    }

    method Count() returns (n: nat)
      requires Valid()
      ensures n == |order|
    {
      n := |data|;
      CountAgrees();
    }

    /** As many keys in the map as entries in the list. */
    lemma CountAgrees()
      requires Valid()
      ensures |data| == |order|
    {
      OrderIsUnique();
      var keys := set i | 0 <= i < |order| :: order[i].key;
      KeyCount(order);
      forall k | k in data
        ensures k in keys
      {
        Located(data[k]);
      }
      forall i | 0 <= i < |order|
        ensures order[i].key in data
      {
        ghost var e := lruList.nodes[i].value;
        assert e.lruElem.slot == i && Same(order[i], e.view);
      }
      assert data.Keys == keys;
    }

    /** Moves an entry's element to the end of the list; the others keep their order. */
    method MoveBack(entry: IndexEntry)
      requires lruList.Valid() && Linked() && entry in items
      modifies lruList`len, lruList`nodes, lruList`members, lruList.root`next, lruList.root`prev
      modifies lruList.members`next, lruList.members`prev, lruList.members`slot
      ensures lruList.Valid() && Linked() && lruList.members == old(lruList.members)
      ensures |lruList.nodes| == old(|lruList.nodes|)
      ensures forall e {:trigger e.lruElem} :: e in items ==>
                var was, k := old(e.lruElem.slot), old(entry.lruElem.slot);
                (e == entry || was != k) && e.lruElem.slot == SlotAfterMove(was, k, |lruList.nodes|)
    {
      assert forall e {:trigger e.lruElem} :: e in items && e != entry ==> e.lruElem.slot != entry.lruElem.slot;
      lruList.MoveToBack(entry.lruElem);
      assert Linked() == old(Linked());
    }

    method ReorderAt(entry: IndexEntry, ghost view: Shard.Entry, ghost rest: seq<Shard.Entry>)
      requires Chained() && entry in items && Skips(order, entry.lruElem.slot, rest)
      modifies `order, entry`view, lruList`len, lruList`nodes, lruList`members, lruList.root`next, lruList.root`prev
      modifies lruList.members`next, lruList.members`prev, lruList.members`slot
      ensures Chained() && lruList.members == old(lruList.members)
      ensures entry.view == view && order == rest + [view]
    {
      MoveBack(entry);
      entry.view := view;
      order := rest + [view];
    }

    /** Makes an entry the most recently used one and records its new value. */
    method Reorder(entry: IndexEntry, ghost view: Shard.Entry)
      requires Keyed() && Chained() && entry in items && view.key == entry.key
      modifies `order, entry`view, lruList`len, lruList`nodes, lruList`members, lruList.root`next, lruList.root`prev
      modifies lruList.members`next, lruList.members`prev, lruList.members`slot
      ensures Keyed() && Chained() && lruList.members == old(lruList.members)
      ensures entry.view == view && order == Shard.Put(old(order), view)
    {
      Located(entry);
      ghost var was, k := order, entry.lruElem.slot;
      ghost var rest := Skipped(order, k);
      ReorderAt(entry, view, rest);
      SkipsIsSlices(was, k, rest);
    }

    /** Moves the entry under a key, possibly just changed in place, to the most recently used end. */
    method Touch(key: Key)
      requires ValidExcept({key}) && Timed({})
      modifies `order, items`view, lruList`len, lruList`nodes, lruList`members, lruList.root`next, lruList.root`prev
      modifies lruList.members`next, lruList.members`prev, lruList.members`slot
      ensures Valid() && Kept()
      ensures order == if key in data then Shard.Put(old(order), data[key].Snapshot()) else old(order)
    {
      if key !in data {
        return;
      }
      var entry := data[key];
      ghost var view := entry.Snapshot();
      Reorder(entry, view);
      assert expiryHeap.Valid() == old(expiryHeap.Valid());
      assert Timed({}) == old(Timed({}));
      assert entry.Snapshot() == view;
      assert Synced({});
    }

    /** Takes an entry's element out of the list; what else is in it keeps its order. */
    method Unlink(entry: IndexEntry)
      requires lruList.Valid() && Linked() && entry in items
      modifies `items, entry`lruElem, lruList`len, lruList`nodes, lruList`members
      modifies lruList.root`next, lruList.root`prev
      modifies lruList.members`next, lruList.members`prev, lruList.members`slot
      ensures lruList.Valid() && Linked() && Skips(old(lruList.nodes), old(entry.lruElem.slot), lruList.nodes)
      ensures forall n :: n in lruList.members ==> n in old(lruList.members)
      ensures (forall e :: e in items <==> e in old(items) && e != entry) && entry.lruElem == null
      ensures forall e {:trigger e.lruElem} :: e in items ==>
                var was, k := old(e.lruElem.slot), old(entry.lruElem.slot);
                was != k && e.lruElem.slot == if was < k then was else was - 1
    {
      assert forall e {:trigger e.lruElem} :: e in items && e != entry ==> e.lruElem.slot != entry.lruElem.slot;
      lruList.Remove(entry.lruElem);
      entry.lruElem := null;
      items := items - {entry};
    }

    /** Takes an entry out of the list. */
    method Unchain(entry: IndexEntry, ghost rest: seq<Shard.Entry>)
      requires Chained() && entry in items && Skips(order, entry.lruElem.slot, rest)
      modifies `order, `items, entry`lruElem, lruList`len, lruList`nodes, lruList`members
      modifies lruList.root`next, lruList.root`prev
      modifies lruList.members`next, lruList.members`prev, lruList.members`slot
      ensures Chained() && forall n :: n in lruList.members ==> n in old(lruList.members)
      ensures (forall e :: e in items <==> e in old(items) && e != entry) && order == rest && entry.lruElem == null
    {
      Unlink(entry);
      order := rest;
    }

    /** Takes an entry out of the list and the map. */
    method DropEntry(entry: IndexEntry, ghost rest: seq<Shard.Entry>)
      requires Keyed() && Chained() && entry in items && Skips(order, entry.lruElem.slot, rest)
      modifies `data, `order, `items, entry`lruElem, lruList`len, lruList`nodes, lruList`members
      modifies lruList.root`next, lruList.root`prev
      modifies lruList.members`next, lruList.members`prev, lruList.members`slot
      ensures Keyed() && Chained() && forall n :: n in lruList.members ==> n in old(lruList.members)
      ensures data == old(data) - {entry.key} && order == rest
      ensures forall e :: e in items <==> e in old(items) && e != entry
      ensures entry.lruElem == null
    {
      data := data - {entry.key};
      assert Chained() == old(Chained());
      Unchain(entry, rest);
    }

    /** Takes a key out of the heap. */
    method Unschedule(key: Key)
      requires ValidExcept({key})
      modifies expiryHeap`entries, expiryHeap`keyIndex, expiryHeap`cells, expiryHeap`keys, expiryHeap`times
      modifies expiryHeap`expiries, expiryHeap.cells`index
      ensures ValidExcept({key}) && key !in expiryHeap.expiries
      ensures forall c :: c in expiryHeap.cells ==> c in old(expiryHeap.cells)
    {
      expiryHeap.Remove(key);
      assert Chained() == old(Chained());
    }

    /** Takes out an entry whose key the heap no longer holds. */
    method Forget(entry: IndexEntry, ghost rest: seq<Shard.Entry>)
      requires ValidExcept({entry.key}) && entry.key !in expiryHeap.expiries
      requires entry in items && Skips(order, entry.lruElem.slot, rest)
      modifies `data, `order, `items, entry`lruElem, lruList`len, lruList`nodes, lruList`members
      modifies lruList.root`next, lruList.root`prev
      modifies lruList.members`next, lruList.members`prev, lruList.members`slot
      ensures Valid() && forall n :: n in lruList.members ==> n in old(lruList.members)
      ensures (forall e :: e in items <==> e in old(items) && e != entry) && order == rest && entry.lruElem == null
    {
      DropEntry(entry, rest);
      assert expiryHeap.Valid() == old(expiryHeap.Valid());
    }

    method DiscardAt(entry: IndexEntry, ghost rest: seq<Shard.Entry>)
      requires Valid() && entry in items && Skips(order, entry.lruElem.slot, rest)
      modifies `data, `order, `items, entry`lruElem, lruList`len, lruList`nodes, lruList`members
      modifies lruList.root`next, lruList.root`prev
      modifies lruList.members`next, lruList.members`prev, lruList.members`slot
      modifies expiryHeap`entries, expiryHeap`keyIndex, expiryHeap`cells, expiryHeap`keys, expiryHeap`times
      modifies expiryHeap`expiries, expiryHeap.cells`index
      ensures Valid() && Kept() && order == rest && entry.lruElem == null
      ensures forall e :: e in items <==> e in old(items) && e != entry
    {
      Unschedule(entry.key);
      Forget(entry, rest);
    }

    /** Takes out an entry. */
    method Discard(entry: IndexEntry)
      requires Valid() && entry in items
      modifies `data, `order, `items, entry`lruElem, lruList`len, lruList`nodes, lruList`members
      modifies lruList.root`next, lruList.root`prev
      modifies lruList.members`next, lruList.members`prev, lruList.members`slot
      modifies expiryHeap`entries, expiryHeap`keyIndex, expiryHeap`cells, expiryHeap`keys, expiryHeap`times
      modifies expiryHeap`expiries, expiryHeap.cells`index
      ensures Valid() && Kept() && order == Shard.Without(old(order), entry.key) && entry.lruElem == null
      ensures Shard.Find(old(order), entry.key) == Some(entry.Snapshot())
      ensures forall e :: e in items <==> e in old(items) && e != entry
    {
      ghost var was, k, view := order, entry.lruElem.slot, entry.Snapshot();
      Located(entry);
      ghost var rest := Skipped(was, k);
      SkipsIsSlices(was, k, rest);
      DiscardAt(entry, rest);
      assert entry.Snapshot() == view;
    }

    method Delete(key: Key) returns (entry: IndexEntry?)
      requires Valid()
      modifies `data, `order, `items, items`lruElem, lruList`len, lruList`nodes, lruList`members
      modifies lruList.root`next, lruList.root`prev
      modifies lruList.members`next, lruList.members`prev, lruList.members`slot
      modifies expiryHeap`entries, expiryHeap`keyIndex, expiryHeap`cells, expiryHeap`keys, expiryHeap`times
      modifies expiryHeap`expiries, expiryHeap.cells`index
      ensures Valid() && Kept() && order == Shard.Without(old(order), key)
      ensures entry == null ==> Shard.Find(old(order), key) == None && order == old(order) && items == old(items)
      ensures entry != null ==> Shard.Find(old(order), key) == Some(entry.Snapshot())
      ensures entry != null ==> entry in old(items) && entry.lruElem == null
      ensures entry != null ==> forall e :: e in items <==> e in old(items) && e != entry
    {
      if key !in data {
        Absent(key);
        return null;
      }
      entry := data[key];
      Discard(entry);
    }

    /** Gives a key its place in the heap, or none if it does not expire. */
    method Schedule(key: Key, hard: nat)
      requires ValidExcept({key})
      modifies expiryHeap`entries, expiryHeap`keyIndex, expiryHeap`cells, expiryHeap`keys, expiryHeap`times
      modifies expiryHeap`expiries, expiryHeap.cells`index, expiryHeap.cells`expiry
      ensures ValidExcept({key}) && forall c :: c in expiryHeap.cells ==> c in old(expiryHeap.cells) || fresh(c)
      ensures key in expiryHeap.expiries <==> hard > 0
      ensures hard > 0 ==> expiryHeap.expiries[key] == hard
    {
      if hard > 0 {
        expiryHeap.Insert(key, hard);
      } else {
        expiryHeap.Remove(key);
      }
      assert Chained() == old(Chained());
      assert Keyed() == old(Keyed());
      assert Synced({key}) == old(Synced({key}));
    }

    /** Lets a list element hold `entry` in place of `was`; they may be the same object. */
    method Substitute(was: IndexEntry, entry: IndexEntry)
      requires Linked() && was in items && (entry == was || entry !in items)
      modifies `items, was.lruElem`value, entry`lruElem
      ensures Linked() && entry.lruElem == old(was.lruElem)
      ensures forall e :: e in items <==> (e in old(items) && e != was) || e == entry
    {
      was.lruElem.value := entry;
      entry.lruElem := was.lruElem;
      items := items - {was} + {entry};
    }

    /** The entry stands where the other stood. */
    method Exchange(was: IndexEntry, entry: IndexEntry, ghost view: Shard.Entry)
      requires Chained() && was in items && (entry == was || entry !in items)
      modifies `order, `items, was.lruElem`value, entry`lruElem, entry`view
      ensures Chained() && entry.lruElem == old(was.lruElem) && entry.view == view
      ensures order == old(order)[old(was.lruElem.slot) := view]
      ensures forall e :: e in items <==> (e in old(items) && e != was) || e == entry
    {
      ghost var slot := was.lruElem.slot;
      assert forall e {:trigger e.lruElem} :: e in items && e != was ==> e.lruElem.slot != slot;
      Substitute(was, entry);
      entry.view, order := view, order[slot := view];
      assert Linked();
    }

    /** Puts an entry in the place of the one under its key, as the most recently used. */
    method ReplaceEntry(was: IndexEntry, entry: IndexEntry, ghost view: Shard.Entry, ghost rest: seq<Shard.Entry>)
      requires Chained() && was in items && (entry == was || entry !in items)
      requires Skips(order, was.lruElem.slot, rest)
      modifies `order, `items, was.lruElem`value, entry`lruElem, entry`view
      modifies lruList`len, lruList`nodes, lruList`members, lruList.root`next, lruList.root`prev
      modifies lruList.members`next, lruList.members`prev, lruList.members`slot
      ensures Chained() && lruList.members == old(lruList.members)
      ensures entry.view == view && order == rest + [view]
      ensures forall e :: e in items <==> (e in old(items) && e != was) || e == entry
    {
      Exchange(was, entry, view);
      ReorderAt(entry, view, rest);
    }

    /** Adds an entry to the list, as the most recently used. */
    method AppendEntry(entry: IndexEntry, ghost view: Shard.Entry)
      requires Chained() && entry !in items
      modifies `order, `items, entry`lruElem, entry`view
      modifies lruList`len, lruList`nodes, lruList`members, lruList.root`next, lruList.root`prev
      modifies lruList.members`next, lruList.members`prev
      ensures Chained() && forall n :: n in lruList.members ==> n in old(lruList.members) || fresh(n)
      ensures entry.view == view && order == old(order) + [view]
      ensures forall e :: e in items <==> e in old(items) || e == entry
    {
      var elem := lruList.PushBack(entry);
      assert lruList.Valid();
      entry.lruElem := elem;
      entry.view := view;
      items, order := items + {entry}, order + [view];
      assert Linked();
    }

    /** Files an entry over the one under its key. */
    method FileOver(was: IndexEntry, entry: IndexEntry, ghost view: Shard.Entry, ghost rest: seq<Shard.Entry>)
      requires Keyed() && Chained() && was in items && was.key == entry.key == view.key
      requires (entry == was || entry !in items) && Skips(order, was.lruElem.slot, rest)
      modifies `data, `order, `items, was.lruElem`value, entry`lruElem, entry`view
      modifies lruList`len, lruList`nodes, lruList`members, lruList.root`next, lruList.root`prev
      modifies lruList.members`next, lruList.members`prev, lruList.members`slot
      ensures Keyed() && Chained() && lruList.members == old(lruList.members)
      ensures data == old(data)[entry.key := entry]
      ensures forall e :: e in items <==> (e in old(items) && e != was) || e == entry
      ensures entry.view == view && order == rest + [view]
    {
      data := data[entry.key := entry];
      assert Chained() == old(Chained());
      ReplaceEntry(was, entry, view, rest);
    }

    /** Files an entry under a key that is not in the map. */
    method FileNew(entry: IndexEntry, ghost view: Shard.Entry)
      requires Keyed() && Chained() && view.key == entry.key && entry !in items && entry.key !in data
      modifies `data, `order, `items, entry`lruElem, entry`view
      modifies lruList`len, lruList`nodes, lruList`members, lruList.root`next, lruList.root`prev
      modifies lruList.members`next, lruList.members`prev
      ensures Keyed() && Chained() && forall n :: n in lruList.members ==> n in old(lruList.members) || fresh(n)
      ensures data == old(data)[entry.key := entry]
      ensures forall e :: e in items <==> e in old(items) || e == entry
      ensures entry.view == view && order == old(order) + [view]
    {
      data := data[entry.key := entry];
      assert Chained() == old(Chained());
      AppendEntry(entry, view);
    }

    /** Files an entry in the map and the list. */
    method File(entry: IndexEntry, ghost view: Shard.Entry)
      requires Keyed() && Chained() && view.key == entry.key && (entry in items || entry.lruElem == null)
      modifies `data, `order, `items, items`lruElem, items`view, entry`lruElem, entry`view
      modifies lruList`len, lruList`nodes, lruList`members, lruList.root`next, lruList.root`prev
      modifies lruList.members`next, lruList.members`prev, lruList.members`slot, lruList.members`value
      ensures Keyed() && Chained() && forall n :: n in lruList.members ==> n in old(lruList.members) || fresh(n)
      ensures data == old(data)[entry.key := entry] && entry in items
      ensures forall e :: e in items ==> e in old(items) || e == entry
      ensures entry.view == view && order == Shard.Put(old(order), view)
      ensures forall e {:trigger e.view} :: e in items && e != entry ==> e in old(items) && e.view == old(e.view)
    {
      if entry.key in data && data[entry.key].lruElem != null {
        var was := data[entry.key];
        Located(was);
        ghost var before, k := order, was.lruElem.slot;
        ghost var rest := Skipped(order, k);
        FileOver(was, entry, view, rest);
        SkipsIsSlices(before, k, rest);
      } else {
        Absent(entry.key);
        FileNew(entry, view);
      }
    }

    /** Nothing is out of date once the entry under the dirty key is recorded and scheduled. */
    lemma Settled(entry: IndexEntry)
      requires ValidExcept({entry.key}) && entry in items
      requires entry.view == entry.Snapshot()
      requires entry.key in expiryHeap.expiries <==> entry.hard > 0
      requires entry.hard > 0 ==> expiryHeap.expiries[entry.key] == entry.hard
      ensures Valid()
    {
      forall e | e in items
        ensures e.key == entry.key ==> e == entry
      {
        assert data[e.key] == e && data[entry.key] == entry;
      }
    }

    /** The list and the heap do not depend on the entries' values and lifetimes. */
    twostate lemma StaysChained()
      requires old(Chained() && expiryHeap.Valid()) && unchanged(`order, `items, old(items)`lruElem, old(items)`view)
      requires unchanged(lruList, lruList.root, old(lruList.members))
      requires unchanged(expiryHeap, old(expiryHeap.cells))
      ensures Chained() && expiryHeap.Valid()
    {
      assert Chained() == old(Chained());
      assert expiryHeap.Valid() == old(expiryHeap.Valid());
    }

    /** Filing one entry leaves the others as they were recorded. */
    twostate lemma OthersSettled(entry: IndexEntry)
      requires old(ValidExcept({entry.key}))
      requires forall e :: e in items ==> e in old(items) || e == entry
      requires forall e {:trigger e.view} :: e in items && e != entry ==> e in old(items) && e.view == old(e.view)
      requires forall e {:trigger e.hard} :: e in old(items) ==> e.hard == old(e.hard)
      requires forall e {:trigger e.view} :: e in old(items) ==> e.Snapshot() == old(e.Snapshot())
      requires expiryHeap.expiries == old(expiryHeap.expiries)
      requires data == old(data)[entry.key := entry]
      ensures Synced({entry.key}) && Timed({entry.key})
    {
    }

    /** Files an entry with its current value. */
    method Record(entry: IndexEntry)
      requires ValidExcept({entry.key}) && (entry in items || entry.lruElem == null)
      modifies `data, `order, `items, items`lruElem, items`view, entry`lruElem, entry`view
      modifies lruList`len, lruList`nodes, lruList`members, lruList.root`next, lruList.root`prev
      modifies lruList.members`next, lruList.members`prev, lruList.members`slot, lruList.members`value
      ensures ValidExcept({entry.key}) && forall n :: n in lruList.members ==> n in old(lruList.members) || fresh(n)
      ensures entry in items && forall e :: e in items ==> e in old(items) || e == entry
      ensures entry.view == entry.Snapshot() == old(entry.Snapshot())
      ensures order == Shard.Put(old(order), entry.view)
    {
      ghost var view := entry.Snapshot();
      File(entry, view);
      assert entry.Snapshot() == view;
      OthersSettled(entry);
      assert expiryHeap.Valid() == old(expiryHeap.Valid());
    }

    /** Stores an entry, new or changed in place, as the most recently used one. */
    method Set(entry: IndexEntry)
      requires ValidExcept({entry.key}) && (entry in items || entry.lruElem == null)
      modifies `data, `order, `items, items`lruElem, items`view, entry`lruElem, entry`view
      modifies lruList`len, lruList`nodes, lruList`members, lruList.root`next, lruList.root`prev
      modifies lruList.members`next, lruList.members`prev, lruList.members`slot, lruList.members`value
      modifies expiryHeap`entries, expiryHeap`keyIndex, expiryHeap`cells, expiryHeap`keys, expiryHeap`times
      modifies expiryHeap`expiries, expiryHeap.cells`index, expiryHeap.cells`expiry
      ensures Valid() && order == Shard.Put(old(order), old(entry.Snapshot()))
      ensures entry in items && KeptBut({entry})
    {
      ghost var view := entry.Snapshot();
      Schedule(entry.key, entry.hard);
      assert entry.Snapshot() == view;
      Record(entry);
      Settled(entry);
    }
  }

  lemma {:induction false} KeyCount(s: seq<Shard.Entry>)
    requires Shard.UniqueKeys(s)
    ensures |set i | 0 <= i < |s| :: s[i].key| == |s|
  {
    if s != [] {
      var n := |s| - 1;
      var keys := set i | 0 <= i < |s| :: s[i].key;
      var init := set i | 0 <= i < n :: s[..n][i].key;
      KeyCount(s[..n]);
      assert keys == init + {s[n].key};
    }
  }
}
