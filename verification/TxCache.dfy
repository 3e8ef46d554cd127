/** The bounded cache of transactions; the least recently used entry makes room. */
module TxCache {
  import opened Wrappers

  function Without(order: seq<string>, key: string): (rest: seq<string>)
    ensures |rest| <= |order|
    ensures forall k :: k in rest <==> k in order && k != key
  {
    if order == [] then []
    else (if order[0] == key then [] else [order[0]]) + Without(order[1..], key)
  }

  predicate Distinct(order: seq<string>) {
    forall i, j :: 0 <= i < j < |order| ==> order[i] != order[j]
  }

  lemma {:induction false} WithoutKeepsDistinct(order: seq<string>, key: string)
    requires Distinct(order)
    ensures Distinct(Without(order, key)) && (key in order ==> |Without(order, key)| < |order|)
  {
    if order != [] {
      var rest := Without(order[1..], key);
      WithoutKeepsDistinct(order[1..], key);
      if order[0] != key {
        assert order[0] !in order[1..];
        AddFirst(order[0], rest);
      }
    }
  }

  lemma {:induction false} WithoutAbsent(order: seq<string>, key: string)
    requires key !in order
    ensures Without(order, key) == order
  {
    if order != [] {
      WithoutAbsent(order[1..], key);
    }
  }

  /** What stands before the dropped key stays in its place. */
  lemma WithoutKeepsFront(front: seq<string>, back: seq<string>, key: string)
    requires key !in front
    ensures front <= Without(front + back, key)
    decreases front
  {
    if front != [] {
      assert (front + back)[1..] == front[1..] + back;
      WithoutKeepsFront(front[1..], back, key);
    }
  }

  /** Evicting the last entry of a full order. */
  lemma DropLast(order: seq<string>) returns (rest: seq<string>)
    requires order != [] && Distinct(order)
    ensures rest == order[..|order| - 1] && Distinct(rest)
    ensures forall k :: k in rest <==> k in order && k != order[|order| - 1]
  {
    var n := |order| - 1;
    rest := order[..n];
    assert order == rest + [order[n]];
    assert forall i :: 0 <= i < n ==> rest[i] == order[i];
  }

  /** Using a new key moves the keys used before it one place down. */
  lemma UseKeepsFront(put: seq<string>, before: seq<string>, key: string, capacity: nat, full: bool)
    requires put <= before && key !in put && |put| < capacity && (full ==> |before| == capacity)
    ensures [key] + put <= [key] + (if full then before[..capacity - 1] else Without(before, key))
  {
    assert before == put + before[|put|..];
    WithoutKeepsFront(put, before[|put|..], key);
  }

  lemma AddFirst(key: string, rest: seq<string>)
    requires Distinct(rest) && key !in rest
    ensures Distinct([key] + rest)
  {
    assert forall i :: 0 <= i < |rest| ==> rest[i] in rest;
  }

  class LruCache<V> {
    const capacity: nat
    var entries: map<string, V>
    var order: seq<string>   // most recently used first

    ghost predicate Valid()
      reads this
    {
      && capacity > 0 && |order| <= capacity
      && (forall k :: k in entries <==> k in order)
      && Distinct(order)
    }

    constructor (capacity: nat)
      requires capacity > 0
      ensures Valid() && entries == map[] && this.capacity == capacity
    {
      this.capacity := capacity;
      entries, order := map[], [];
    }

    /** A hit becomes the most recently used entry. */
    method Get(key: string) returns (r: Option<V>)
      requires Valid()
      modifies this`order
      ensures Valid()
      ensures r == if key in entries then Some(entries[key]) else None
      ensures order == if key in entries then [key] + Without(old(order), key) else old(order)
    {
      hide Distinct;
      if key in entries {
        r := Some(entries[key]);
        WithoutKeepsDistinct(order, key);
        AddFirst(key, Without(order, key));
        order := [key] + Without(order, key);
      } else {
        r := None;
      }
    }

    /**
     * The key becomes the most recently used entry. Nothing else changes, except that a full cache
     * loses its least recently used entry to a new key.
     */
    method Put(key: string, value: V)
      requires Valid()
      modifies this
      ensures Valid()
      ensures
        var full := key !in old(entries) && |old(order)| == capacity;
        && order == [key] + (if full then old(order)[..capacity - 1] else Without(old(order), key))
        && entries == (if full then old(entries) - {old(order)[capacity - 1]} else old(entries))[key := value]
    {
      hide Distinct, Without;
      ghost var rest;
      if key in entries {
        rest := Without(order, key);
        WithoutKeepsDistinct(order, key);
        order := [key] + Without(order, key);
      } else if |order| < capacity {
        rest := order;
        WithoutAbsent(order, key);
        order := [key] + order;
      } else {
        rest := DropLast(order);
        entries := entries - {order[|order| - 1]};
        order := [key] + order[..|order| - 1];
      }
      AddFirst(key, rest);
      entries := entries[key := value];
    }
  }
}
