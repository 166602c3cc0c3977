/**
  The binary min-heap of expiry times, with its key-to-position side table.

  `Up`, `Down`, `Fix`, `HeapPush` and `HeapRemove` are the routines of Go's `container/heap`,
  written out for this heap; `Swap`, `Push` and `Pop` are the interface they work through.
 */
module Expiry {


  function Parent(i: int): int {
    if i <= 0 then 0 else (i - 1) / 2
  }

  ghost predicate Ordered(p: seq<int>, n: nat)
    requires n <= |p|
  {
    forall i {:trigger Parent(i)} :: 0 < i < n ==> p[Parent(i)] <= p[i]
  }

  /**
    The heap order on the first `n` positions, except that `hole` may be out of order with its
    parent (`above`) or with its children (`below`); the children of `hole` are still in order
    with its parent.
   */
  ghost predicate OrderedExcept(p: seq<int>, n: nat, hole: int, above: bool, below: bool)
    requires n <= |p|
  {
    && (forall i {:trigger Parent(i)} ::
          0 < i < n && (i == hole ==> !above) && (Parent(i) == hole ==> !below) ==> p[Parent(i)] <= p[i])
    && (forall i {:trigger Parent(i)} :: 0 < i < n && Parent(i) == hole && hole > 0 ==> p[Parent(hole)] <= p[i])
  }

  function Swapped<T>(s: seq<T>, i: nat, j: nat): seq<T>
    requires i < |s| && j < |s|
  {
    s[i := s[j]][j := s[i]]
  }

  /** Moving a too small element up one level keeps the order everywhere else. */
  lemma UpStep(p: seq<int>, n: nat, j: nat)
    requires 0 < j < n <= |p| && OrderedExcept(p, n, j, true, false) && p[j] < p[Parent(j)]
    ensures OrderedExcept(Swapped(p, Parent(j), j), n, Parent(j), true, false)
  {
  }

  lemma Children(i: nat, c: nat)
    requires 0 < c
    ensures Parent(c) == i <==> c == 2 * i + 1 || c == 2 * i + 2
  {
  }

  /** Moving a too large element down to its lesser child keeps the order everywhere else. */
  lemma DownStep(p: seq<int>, n: nat, i: nat, j: nat, above: bool)
    requires i < n <= |p| && OrderedExcept(p, n, i, above, true) && j < n && p[j] < p[i]
    requires 2 * i + 1 <= j <= 2 * i + 2
    requires p[j] <= p[2 * i + 1] && (2 * i + 2 < n ==> p[j] <= p[2 * i + 2])
    ensures OrderedExcept(Swapped(p, i, j), n, j, false, true)
  {
    var q := Swapped(p, i, j);
    forall c | 0 < c < n && Parent(c) != j
      ensures q[Parent(c)] <= q[c]
    {
      Children(i, c);
      assert Parent(j) == i && (i > 0 ==> p[Parent(i)] <= p[j]);
    }
  }

  /** An element no larger than its children ends the descent. */
  lemma DownDone(p: seq<int>, n: nat, i: nat, above: bool)
    requires i < n <= |p| && OrderedExcept(p, n, i, above, true)
    requires (2 * i + 1 < n ==> p[i] <= p[2 * i + 1]) && (2 * i + 2 < n ==> p[i] <= p[2 * i + 2])
    ensures OrderedExcept(p, n, i, above, false) && (!above ==> Ordered(p, n))
  {
    forall c | 0 < c < n && Parent(c) == i
      ensures p[i] <= p[c]
    {
      Children(i, c);
    }
  }

  lemma {:induction false} RootIsLeast(p: seq<int>, i: nat)
    requires i < |p| && Ordered(p, |p|)
    ensures p[0] <= p[i]
  {
    if i > 0 {
      RootIsLeast(p, Parent(i));
    }
  }

  class ExpiryEntry<K> {
    const key: K
    var expiry: int
    var index: nat

    constructor (key: K, expiry: int)
      ensures this.key == key && this.expiry == expiry
    {
      this.key := key;
      this.expiry := expiry;
      this.index := 0;
    }
  }

  /** `keyIndex` inverts the sequence of keys, and `expiries` gives each key its time. */
  ghost predicate Denotes<K>(keys: seq<K>, times: seq<int>, keyIndex: map<K, nat>, expiries: map<K, int>) {
    && |times| == |keys|
    && expiries.Keys == keyIndex.Keys
    && (forall i :: 0 <= i < |keys| ==> keys[i] in keyIndex && keyIndex[keys[i]] == i && expiries[keys[i]] == times[i])
    && (forall k :: k in keyIndex ==> keyIndex[k] < |keys| && keys[keyIndex[k]] == k)
  }

  lemma DenotesSwap<K>(keys: seq<K>, times: seq<int>, m: map<K, nat>, x: map<K, int>, i: nat, j: nat)
    requires Denotes(keys, times, m, x) && i < |keys| && j < |keys|
    ensures Denotes(Swapped(keys, i, j), Swapped(times, i, j), m[keys[j] := i][keys[i] := j], x)
  {
  }

  class ExpiryHeap<K(==)> {
    var entries: seq<ExpiryEntry<K>>
    var keyIndex: map<K, nat>

    ghost var cells: set<ExpiryEntry<K>>   // the entries, as a set
    ghost var keys: seq<K>            // the key at each position
    ghost var times: seq<int>           // the expiry at each position
    ghost var expiries: map<K, int>   // the abstract value: which key expires when

    /** The recorded positions and the side table are exact inverses of the array. */
    ghost predicate Linked()
      reads `entries, `keyIndex, `cells, `keys, `times, `expiries, cells`index, cells`expiry
    {
      && |entries| == |keys|
      && Denotes(keys, times, keyIndex, expiries)
      && (forall i :: 0 <= i < |entries| ==> entries[i] in cells && entries[i].index == i)
      && (forall e :: e in cells ==>
            e.index < |entries| && entries[e.index] == e && e.key == keys[e.index] && e.expiry == times[e.index])
    }

    ghost predicate Valid()
      reads `entries, `keyIndex, `cells, `keys, `times, `expiries, cells`index, cells`expiry
    {
      Linked() && Ordered(times, |times|)
    }

    constructor ()
      ensures Valid() && expiries == map[] && cells == {}
    {
      entries, keyIndex := [], map[];
      cells, keys, times, expiries := {}, [], [], map[];
    }

    // ---------- The heap interface ----------

    method Less(i: nat, j: nat) returns (less: bool)
      requires Linked() && i < |entries| && j < |entries|
      ensures less == (times[i] < times[j])
    {
      less := entries[i].expiry < entries[j].expiry;
    }

    method Swap(i: nat, j: nat)
      requires Linked() && i < |entries| && j < |entries|
      modifies `entries, `keyIndex, `keys, `times, cells`index
      ensures Linked()
      ensures entries == Swapped(old(entries), i, j) && times == Swapped(old(times), i, j)
    {
      var a, b := entries[i], entries[j];
      DenotesSwap(keys, times, keyIndex, expiries, i, j);
      entries := entries[i := b][j := a];
      keys, times := Swapped(keys, i, j), Swapped(times, i, j);
      b.index := i;
      a.index := j;
      keyIndex := keyIndex[b.key := i];
      keyIndex := keyIndex[a.key := j];
      assert Denotes(keys, times, keyIndex, expiries);
    }

    method Push(entry: ExpiryEntry<K>)
      requires Linked() && entry.key !in keyIndex && entry !in cells
      modifies `entries, `keyIndex, `cells, `keys, `times, `expiries, entry`index
      ensures Linked() && cells == old(cells) + {entry}
      ensures entries == old(entries) + [entry] && times == old(times) + [entry.expiry]
      ensures expiries == old(expiries)[entry.key := entry.expiry]
    {
      entry.index := |entries|;
      entries := entries + [entry];
      keyIndex := keyIndex[entry.key := entry.index];
      cells, keys, times := cells + {entry}, keys + [entry.key], times + [entry.expiry];
      expiries := expiries[entry.key := entry.expiry];
    }

    method Pop() returns (entry: ExpiryEntry<K>)
      requires Linked() && entries != []
      modifies `entries, `keyIndex, `cells, `keys, `times, `expiries
      ensures Linked() && entry == old(entries)[|old(entries)| - 1] && cells == old(cells) - {entry}
      ensures entries == old(entries)[..|old(entries)| - 1] && times == old(times)[..|old(times)| - 1]
      ensures expiries == old(expiries) - {entry.key}
    {
      var n := |entries|;
      entry := entries[n - 1];
      entries := entries[..n - 1];
      keyIndex := keyIndex - {entry.key};
      cells, keys, times := cells - {entry}, keys[..n - 1], times[..n - 1];
      expiries := expiries - {entry.key};
    }

    // ---------- container/heap ----------

    method Up(start: nat, ghost n: nat)
      requires Linked() && start < n <= |entries| && OrderedExcept(times, n, start, true, false)
      modifies `entries, `keyIndex, `keys, `times, cells`index
      ensures Linked() && |entries| == |old(entries)| && Ordered(times, n)
      ensures entries[n..] == old(entries)[n..]
    {
      var j := start;
      while true
        invariant Linked() && 0 <= j < n <= |entries| == |old(entries)|
        invariant OrderedExcept(times, n, j, true, false)
        invariant entries[n..] == old(entries)[n..]
        decreases j
      {
        var i := if j == 0 then 0 else (j - 1) / 2;
        var less := Less(j, i);
        if i == j || !less {
          break;
        }
        UpStep(times, n, j);
        Swap(i, j);
        j := i;
      }
    }

    method LesserChild(i: nat, n: nat) returns (j: nat)
      requires Linked() && 2 * i + 1 < n <= |entries|
      ensures 2 * i + 1 <= j <= 2 * i + 2 && j < n
      ensures times[j] <= times[2 * i + 1] && (2 * i + 2 < n ==> times[j] <= times[2 * i + 2])
    {
      j := 2 * i + 1;
      if j + 1 < n {
        var right := Less(j + 1, j);
        if right {
          j := j + 1;
        }
      }
    }

    /** Moves the element at `i` below its lesser child, unless it is in order with its children. */
    method SinkOnce(i: nat, n: nat, ghost above: bool) returns (j: nat)
      requires Linked() && i < n <= |entries| && OrderedExcept(times, n, i, above, true)
      modifies `entries, `keyIndex, `keys, `times, cells`index
      ensures Linked() && |entries| == |old(entries)| && entries[n..] == old(entries)[n..]
      ensures i <= j < n
      ensures if j == i then OrderedExcept(times, n, i, above, false) && (!above ==> Ordered(times, n))
              else OrderedExcept(times, n, j, false, true)
    {
      j := i;
      if 2 * i + 1 < n {
        var child := LesserChild(i, n);
        var less := Less(child, i);
        if less {
          DownStep(times, n, i, child, above);
          Swap(i, child);
          return child;
        }
      }
      DownDone(times, n, i, above);
    }

    method Down(start: nat, n: nat) returns (moved: bool)
      requires Linked() && start < n <= |entries| && OrderedExcept(times, n, start, true, true)
      modifies `entries, `keyIndex, `keys, `times, cells`index
      ensures Linked() && |entries| == |old(entries)| && entries[n..] == old(entries)[n..]
      ensures if moved then Ordered(times, n) else OrderedExcept(times, n, start, true, false)
    {
      var i := start;
      while true
        invariant Linked() && start <= i < n <= |entries| == |old(entries)|
        invariant OrderedExcept(times, n, i, i == start, true)
        invariant entries[n..] == old(entries)[n..]
        decreases n - i
      {
        var j := SinkOnce(i, n, i == start);
        if j == i {
          break;
        }
        i := j;
      }
      moved := i > start;
    }

    /** Lets the element at `i`, too small or too large, find its place among the first `n`. */
    method Settle(i: nat, n: nat)
      requires Linked() && i < n <= |entries| && OrderedExcept(times, n, i, true, true)
      modifies `entries, `keyIndex, `keys, `times, cells`index
      ensures Linked() && |entries| == |old(entries)| && Ordered(times, n)
      ensures entries[n..] == old(entries)[n..]
    {
      var moved := Down(i, n);
      if !moved {
        Up(i, n);
      }
    }

    method Fix(i: nat)
      requires Linked() && i < |entries| && OrderedExcept(times, |times|, i, true, true)
      modifies `entries, `keyIndex, `keys, `times, cells`index
      ensures Valid()
    {
      Settle(i, |entries|);
    }

    method HeapPush(entry: ExpiryEntry<K>)
      requires Valid() && entry.key !in keyIndex && entry !in cells
      modifies `entries, `keyIndex, `cells, `keys, `times, `expiries, cells`index, entry`index
      ensures Valid() && cells == old(cells) + {entry}
      ensures expiries == old(expiries)[entry.key := entry.expiry]
    {
      Push(entry);
      Up(|entries| - 1, |entries|);
    }

    /** Brings the element at `i` to the last position and restores the order of the others. */
    method MoveLast(i: nat)
      requires Valid() && i < |entries|
      modifies `entries, `keyIndex, `keys, `times, cells`index
      ensures Linked() && |entries| == |old(entries)| && Ordered(times, |times| - 1)
      ensures entries[|entries| - 1] == old(entries)[i]
    {
      var n := |entries| - 1;
      if n != i {
        Swap(i, n);
        ghost var rest := entries[n..];
        Settle(i, n);
        assert rest[0] == entries[n..][0];
      }
    }

    method HeapRemove(i: nat)
      requires Valid() && i < |entries|
      modifies `entries, `keyIndex, `cells, `keys, `times, `expiries, cells`index
      ensures Valid() && cells < old(cells)
      ensures expiries == old(expiries) - {old(entries[i].key)}
    {
      MoveLast(i);
      var popped := Pop();
    }

    // ---------- The operations of the index ----------

    /** The root holds the least expiry of all keys. */
    method PeekMin() returns (min: ExpiryEntry?<K>)
      requires Valid()
      ensures min == null <==> expiries == map[]
      ensures min != null ==> min in cells && min.key in expiries && expiries[min.key] == min.expiry
      ensures min != null ==> forall k :: k in expiries ==> min.expiry <= expiries[k]
    {
      if |entries| == 0 {
        return null;
      }
      min := entries[0];
      forall k | k in expiries
        ensures min.expiry <= expiries[k]
      {
        RootIsLeast(times, keyIndex[k]);
        assert entries[keyIndex[k]] in cells;
      }
    }

    /** Adds the key, or moves it to its new expiry, whether earlier or later. */
    method Insert(key: K, expiry: int)
      requires Valid()
      modifies `entries, `keyIndex, `cells, `keys, `times, `expiries, cells`index, cells`expiry
      ensures Valid() && forall c :: c in cells ==> c in old(cells) || fresh(c)
      ensures expiries == old(expiries)[key := expiry]
    {
      if key in keyIndex {
        var i := keyIndex[key];
        entries[i].expiry := expiry;
        times := times[i := expiry];
        expiries := expiries[key := expiry];
        Fix(i);
      } else {
        var entry := new ExpiryEntry(key, expiry);
        HeapPush(entry);
      }
    }

    method Remove(key: K)
      requires Valid()
      modifies `entries, `keyIndex, `cells, `keys, `times, `expiries, cells`index
      ensures Valid() && cells <= old(cells)
      ensures expiries == old(expiries) - {key}
    {
      if key in keyIndex {
        HeapRemove(keyIndex[key]);
      }
    }
  }
}
