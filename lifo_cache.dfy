/** LIFOCache: every put moves its key to the end of the order; a new key
    arriving at a full cache first pushes out the key at the end. */
module Lifo {
  import opened Base
  import opened Seqs
  import opened Ordered

  /** `put(k, v)` that needs no room: assign, then move `k` to the end. */
  function PutWithRoom(s: State, k: Key, v: Item): (r: PutResult)
    requires Valid(s) && (k in s.data || |s.order| < MAX_ITEMS)
    ensures Valid(r.after) && r.discarded == None
    ensures StoresPut(s.data, k, v, r.after.data, None)
    ensures |r.after.order| > 0 && r.after.order[|r.after.order| - 1] == k
    ensures Without(r.after.order, k) == Without(s.order, k)
  {
    ConsistentSize(s);
    var r := PutResult(MoveKey(SetItem(s, k, v), k, true), None);
    assert s.data - Evicted(None) == s.data;
    StoresPutFromUpdate(s.data, k, v, r.after.data, r.discarded);
    r
  }

  /** `put(k, v)` of a new key at a full cache: pop the last key first, then
      assign and move `k` to the end. */
  function PutOverflow(s: State, k: Key, v: Item): (r: PutResult)
    requires Valid(s) && k !in s.data && |s.order| == MAX_ITEMS
    ensures Valid(r.after) && r.discarded == Some(s.order[|s.order| - 1])
    ensures s.order[|s.order| - 1] in s.data && s.order[|s.order| - 1] != k
    ensures StoresPut(s.data, k, v, r.after.data, r.discarded)
    ensures |r.after.order| > 0 && r.after.order[|r.after.order| - 1] == k
    ensures Without(r.after.order, k) == s.order[..|s.order| - 1]
  {
    var popped := PopItem(s, true);
    assert Without(popped.0.order, k) == popped.0.order;
    var r := PutResult(MoveKey(SetItem(popped.0, k, v), k, true), Some(popped.1));
    StoresPutFromUpdate(s.data, k, v, r.after.data, r.discarded);
    r
  }

  /** `put`: for a new key at a full cache pop the last key; then assign the
      item and move the key to the end. */
  function PutStep(s: State, key: Option<Key>, item: Option<Item>): (r: PutResult)
    requires Valid(s)
    ensures Valid(r.after)
    ensures key.None? || item.None? ==> r == PutResult(s, None)
    ensures key.Some? && item.Some? ==> StoresPut(s.data, key.value, item.value, r.after.data, r.discarded)
    ensures EvictsOnlyWhenFull(s.data, key, item, r.discarded)
    ensures r.discarded.Some? ==> r.discarded.value == s.order[|s.order| - 1]
    ensures key.Some? && item.Some? ==>
              |r.after.order| > 0 && r.after.order[|r.after.order| - 1] == key.value
    ensures key.Some? && item.Some? ==>
              Without(r.after.order, key.value) ==
                if r.discarded.Some? then s.order[..|s.order| - 1] else Without(s.order, key.value)
  {
    ConsistentSize(s);
    if key.None? || item.None? then PutResult(s, None)
    else if key.value !in s.data && |s.data| + 1 > MAX_ITEMS then PutOverflow(s, key.value, item.value)
    else PutWithRoom(s, key.value, item.value)
  }

  class LIFOCache {
    var cache_data: State

    ghost predicate Valid()
      reads this
    {
      Ordered.Valid(cache_data)
    }

    constructor ()
      ensures Valid() && cache_data == State([], map[])
    {
      cache_data := State([], map[]);
    }

    method Put(key: Option<Key>, item: Option<Item>) returns (discarded: Option<Key>)
      requires Valid()
      modifies this
      ensures Valid()
      ensures PutResult(cache_data, discarded) == PutStep(old(cache_data), key, item)
    {
      if key.None? || item.None? {
        return None;
      }
      discarded := None;
      ghost var before := cache_data;
      ConsistentSize(before);
      ghost var full := key.value !in cache_data.data && |cache_data.data| + 1 > MAX_ITEMS;
      if key.value !in cache_data.data {
        if |cache_data.data| + 1 > MAX_ITEMS {
          var popped := PopItem(cache_data, true);
          cache_data, discarded := popped.0, Some(popped.1);
        }
      }
      cache_data := SetItem(cache_data, key.value, item.value);
      cache_data := MoveKey(cache_data, key.value, true);
      if full {
        assert PutResult(cache_data, discarded) == PutOverflow(before, key.value, item.value);
      } else {
        assert PutResult(cache_data, discarded) == PutWithRoom(before, key.value, item.value);
      }
      assert PutResult(cache_data, discarded) == PutStep(before, key, item);
    }

    method Get(key: Option<Key>) returns (r: Option<Item>)
      ensures r == Lookup(cache_data.data, key)
    {
      r := if key.Some? && key.value in cache_data.data then Some(cache_data.data[key.value]) else None;
    }
  }
}
