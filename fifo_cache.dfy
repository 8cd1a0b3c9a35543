/** FIFOCache: keys kept in insertion order; a new key that overflows the
    cache pushes out the oldest one. */
module Fifo {
  import opened Base
  import opened Ordered

  /** `put(k, v)` when the assignment leaves at most `MAX_ITEMS` entries:
      nothing is popped. */
  function PutWithRoom(s: State, k: Key, v: Item): (r: PutResult)
    requires Valid(s) && (k in s.data || |s.order| < MAX_ITEMS)
    ensures Valid(r.after) && r.discarded == None
    ensures StoresPut(s.data, k, v, r.after.data, None)
    ensures r.after.order == if k in s.data then s.order else s.order + [k]
  {
    ConsistentSize(s);
    var r := PutResult(SetItem(s, k, v), None);
    assert s.data - Evicted(None) == s.data;
    StoresPutFromUpdate(s.data, k, v, r.after.data, r.discarded);
    r
  }

  /** `put(k, v)` of a new key at a full cache: the assignment makes
      `MAX_ITEMS + 1` entries, so the first key is popped. */
  function PutOverflow(s: State, k: Key, v: Item): (r: PutResult)
    requires Valid(s) && k !in s.data && |s.order| == MAX_ITEMS
    ensures Valid(r.after) && r.discarded == Some(s.order[0])
    ensures s.order[0] in s.data && s.order[0] != k
    ensures StoresPut(s.data, k, v, r.after.data, r.discarded)
    ensures r.after.order == s.order[1..] + [k]
  {
    ConsistentSize(s);
    var stored := SetItem(s, k, v);
    var popped := PopItem(stored, false);
    assert popped.0.order == s.order[1..] + [k];
    assert popped.0.data == (s.data - {popped.1})[k := v];
    var r := PutResult(popped.0, Some(popped.1));
    StoresPutFromUpdate(s.data, k, v, r.after.data, r.discarded);
    r
  }

  /** `put`: assign the item (a new key lands at the end), then, if that made
      more than `MAX_ITEMS` entries, pop the first key. */
  function PutStep(s: State, key: Option<Key>, item: Option<Item>): (r: PutResult)
    requires Valid(s)
    ensures Valid(r.after)
    ensures key.None? || item.None? ==> r == PutResult(s, None)
    ensures key.Some? && item.Some? ==> StoresPut(s.data, key.value, item.value, r.after.data, r.discarded)
    ensures EvictsOnlyWhenFull(s.data, key, item, r.discarded)
    ensures r.discarded.Some? ==> r.discarded.value == s.order[0]
    ensures key.Some? && item.Some? && key.value in s.data ==> r.after.order == s.order
    ensures key.Some? && item.Some? && key.value !in s.data ==>
              r.after.order == s.order[if r.discarded.Some? then 1 else 0..] + [key.value]
  {
    ConsistentSize(s);
    if key.None? || item.None? then PutResult(s, None)
    else if key.value !in s.data && |s.data| + 1 > MAX_ITEMS then PutOverflow(s, key.value, item.value)
    else
      assert s.order[0..] == s.order;
      PutWithRoom(s, key.value, item.value)
  }

  class FIFOCache {
    var cache_data: State

    ghost predicate Valid()
      reads this
    {
      Ordered.Valid(cache_data)
    }

    constructor ()
      ensures Valid() && cache_data == State([], map[])
    {
      cache_data := State([], map[]);
    }

    method Put(key: Option<Key>, item: Option<Item>) returns (discarded: Option<Key>)
      requires Valid()
      modifies this
      ensures Valid()
      ensures PutResult(cache_data, discarded) == PutStep(old(cache_data), key, item)
    {
      if key.None? || item.None? {
        return None;
      }
      ghost var before := cache_data;
      ConsistentSize(before);
      cache_data := SetItem(cache_data, key.value, item.value);
      discarded := None;
      if |cache_data.data| > MAX_ITEMS {
        var popped := PopItem(cache_data, false);
        cache_data, discarded := popped.0, Some(popped.1);
        assert PutResult(cache_data, discarded) == PutOverflow(before, key.value, item.value);
      } else {
        assert PutResult(cache_data, discarded) == PutWithRoom(before, key.value, item.value);
      }
      assert PutResult(cache_data, discarded) == PutStep(before, key, item);
    }

    method Get(key: Option<Key>) returns (r: Option<Item>)
      ensures r == Lookup(cache_data.data, key)
    {
      r := if key.Some? && key.value in cache_data.data then Some(cache_data.data[key.value]) else None;
    }
  }
}
