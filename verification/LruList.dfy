/**
  The doubly linked list that keeps entries from least to most recently used.

  The list is a ring through a sentinel, as in Go's `container/list`; `Insert`, `Unlink` and `Move`
  are its `insert`, `remove` and `move`. Each element points at its entry and each entry points
  back at its element.
 */
module Lru {
  import opened Basics
  import Shard

  class IndexEntry {
    const key: Key
    var value: array<byte>
    var soft: nat
    var hard: nat
    var cas: uint64
    var refreshing: bool
    var lruElem: Element?
    ghost var view: Shard.Entry   // the value last stored in the index

    constructor (key: Key, value: array<byte>, soft: nat, hard: nat, cas: uint64)
      ensures this.key == key && this.value == value && this.soft == soft && this.hard == hard && this.cas == cas
      ensures !refreshing && lruElem == null
    {
      this.key, this.value, this.soft, this.hard, this.cas := key, value, soft, hard, cas;
      refreshing, lruElem := false, null;
      view := Shard.Entry(key, value[..], soft, hard, cas, false);
    }

    ghost function Snapshot(): Shard.Entry
      reads `value, `soft, `hard, `cas, `refreshing, value
    {
      Shard.Entry(key, value[..], soft, hard, cas, refreshing)
    }
  }

  class Element {
    var next: Element?
    var prev: Element?
    var value: IndexEntry?
    ghost var slot: nat   // the position in the list

    constructor (value: IndexEntry?)
      ensures this.value == value && next == null && prev == null
    {
      next, prev := null, null;
      this.value := value;
    }
  }

  /** `rest` is `s` without the element at position `k`. */
  ghost predicate Skips<T>(s: seq<T>, k: nat, rest: seq<T>) {
    && k < |s| == |rest| + 1
    && (forall i {:trigger rest[i]} :: 0 <= i < k ==> rest[i] == s[i])
    && (forall i {:trigger rest[i]} :: k <= i < |rest| ==> rest[i] == s[i + 1])
  }

  /** `t` is `s` with the element at position `k` moved to the end. */
  ghost predicate MovedLast<T>(s: seq<T>, k: nat, t: seq<T>) {
    && k < |s| == |t| && t[|t| - 1] == s[k]
    && (forall i {:trigger t[i]} :: 0 <= i < k ==> t[i] == s[i])
    && (forall i {:trigger t[i]} :: k <= i < |t| - 1 ==> t[i] == s[i + 1])
  }

  /** The position after the element at position `k` of `n` has moved to the end. */
  function SlotAfterMove(i: nat, k: nat, n: nat): int {
    if i < k then i else if i == k then n - 1 else i - 1
  }

  lemma Skipped<T>(s: seq<T>, k: nat) returns (rest: seq<T>)
    requires k < |s|
    ensures Skips(s, k, rest)
  {
    rest := s[..k] + s[k + 1..];
  }

  lemma SkipsIsSlices<T>(s: seq<T>, k: nat, rest: seq<T>)
    requires Skips(s, k, rest)
    ensures rest == s[..k] + s[k + 1..]
  {
  }

  class LruList {
    const root: Element
    var len: nat
    ghost var nodes: seq<Element>     // the abstract value, least recently used first
    ghost var members: set<Element>   // the same elements, as a set

    /** The element at a position of the ring; the positions before and after the list are the root. */
    ghost function At(i: int): Element
      reads `nodes
    {
      if 0 <= i < |nodes| then nodes[i] else root
    }

    /** The links run through `nodes` in both directions. */
    ghost predicate Ring()
      reads `len, `nodes, `members, root`next, root`prev, members`next, members`prev
    {
      && len == |nodes| && root !in nodes
      && (forall i :: 0 <= i < |nodes| ==> nodes[i] in members)
      && root.next == At(0) && root.prev == At(|nodes| - 1)
      && (forall i {:trigger nodes[i].next} :: 0 <= i < |nodes| ==> nodes[i].next == At(i + 1))
      && (forall i {:trigger nodes[i].prev} :: 0 <= i < |nodes| ==> nodes[i].prev == At(i - 1))
    }

    ghost predicate Valid()
      reads `len, `nodes, `members, root`next, root`prev, members`next, members`prev, members`slot
    {
      && Ring() && root !in members
      && (forall i :: 0 <= i < |nodes| ==> nodes[i].slot == i)
      && (forall e {:trigger e.slot} :: e in members ==> e.slot < |nodes| && nodes[e.slot] == e)
    }

    constructor ()
      ensures Valid() && nodes == [] && members == {} && fresh(root)
    {
      root := new Element(null);
      len, nodes, members := 0, [], {};
      new;
      root.next, root.prev := root, root;
    }

    method Front() returns (e: Element?)
      requires Valid()
      ensures e == if nodes == [] then null else nodes[0]
    {
      if len == 0 {
        return null;
      }
      e := root.next;
    }

    /** Links `e` in after `at`; here `at` is always the last element or, in an empty list, the root. */
    method LinkAfter(e: Element, at: Element)
      requires Ring() && (forall i :: 0 <= i < |nodes| ==> nodes[i].slot == i)
      requires root !in members && e != root && e in members && e !in nodes && at == root.prev
      modifies `len, `nodes, members`next, members`prev, root`prev, root`next
      ensures Ring() && nodes == old(nodes) + [e]
    {
      e.prev := at;
      e.next := at.next;
      e.prev.next := e;
      e.next.prev := e;
      len := len + 1;
      nodes := nodes + [e];
    }

    method Insert(e: Element, at: Element)
      requires Valid() && e != root && e !in members && at == root.prev
      modifies `len, `nodes, `members, e`next, e`prev, e`slot, members`next, members`prev, root`prev, root`next
      ensures Valid() && nodes == old(nodes) + [e] && members == old(members) + {e}
    {
      members := members + {e};
      LinkAfter(e, at);
      e.slot := |nodes| - 1;
    }

    /** Links the neighbours of `e` to each other. */
    method Unlink(e: Element, ghost k: nat, ghost rest: seq<Element>)
      requires Ring() && (forall i :: 0 <= i < |nodes| ==> nodes[i].slot == i)
      requires k < |nodes| && nodes[k] == e && Skips(nodes, k, rest)
      modifies `len, `nodes, members`next, members`prev, root`prev, root`next
      ensures Ring() && nodes == rest
    {
      assert e.prev == At(k - 1) && e.next == At(k + 1);
      e.prev.next := e.next;
      e.next.prev := e.prev;
      len := len - 1;
      nodes := rest;
    }

    method Detach(e: Element)
      requires Valid() && e in members
      modifies `len, `nodes, `members, members`next, members`prev, members`slot, root`prev, root`next
      ensures Valid() && Skips(old(nodes), old(e.slot), nodes) && members == old(members) - {e}
      ensures forall x {:trigger x.slot} :: x in members ==>
                x.slot == if old(x.slot) < old(e.slot) then old(x.slot) else old(x.slot) - 1
    {
      ghost var k := e.slot;
      ghost var rest := Skipped(nodes, k);
      Unlink(e, k, rest);
      members := members - {e};
      forall x | x in members {
        x.slot := if x.slot < k then x.slot else x.slot - 1;
      }
    }

    method PushBack(value: IndexEntry) returns (e: Element)
      requires Valid()
      modifies `len, `nodes, `members, members`next, members`prev, root`prev, root`next
      ensures Valid() && fresh(e) && e.value == value
      ensures nodes == old(nodes) + [e] && members == old(members) + {e}
    {
      e := new Element(value);
      Insert(e, root.prev);
    }

    method Remove(e: Element)
      requires Valid() && e in members
      modifies `len, `nodes, `members, members`next, members`prev, members`slot, root`prev, root`next
      ensures Valid() && Skips(old(nodes), old(e.slot), nodes) && members == old(members) - {e}
      ensures forall x {:trigger x.slot} :: x in members ==>
                x.slot == if old(x.slot) < old(e.slot) then old(x.slot) else old(x.slot) - 1
    {
      Detach(e);
      e.next, e.prev := null, null;
    }

    method MoveToBack(e: Element)
      requires Valid() && e in members
      modifies `len, `nodes, `members, members`next, members`prev, members`slot, root`prev, root`next
      ensures Valid() && MovedLast(old(nodes), old(e.slot), nodes) && members == old(members)
      ensures forall x {:trigger x.slot} :: x in members ==> x.slot == SlotAfterMove(old(x.slot), old(e.slot), |nodes|)
    {
      if root.prev == e {
        return;
      }
      var at := root.prev;
      Detach(e);
      Insert(e, at);
    }
  }
}
